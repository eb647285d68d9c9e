/** `ProviderMap` (thewired/provider/providermap.py): a dictionary from attribute keys to
    providers, where a provider is stored either directly or by its id in a provider
    namespace that is consulted when the provider is asked for. */
module ProviderMaps {
  import opened Errors
  import opened PyValues

  type Dict = seq<(string, Value)>

  /** The value `__getitem__` falls back to and tests for. */
  const FailCanary: string := "_provider_map_lookup_canary_fail_return_value_"

  /** The provider namespace: absent (None), or the `_lookup` of a namespace, which answers
      an id with a provider or raises (NamespaceLookupError when the id is unknown). */
  datatype ProviderNs = NoNs | Ns(lookup: string -> Result<Value>)

  /** The data the constructor ends up with for `mapping`, or the exception it raises.
      Any truthy mapping with a value that is not None reaches the one-argument
      `isinstance(Provider)`, which raises TypeError, so only all-None mappings are
      adopted. */
  function InitData(mapping: Value): (r: Result<Dict>)
    ensures !Truthy(mapping) ==> r == Ok([])
    ensures Truthy(mapping) && !mapping.DictV? ==> r == Err(ValueErr)
    ensures mapping.DictV? && mapping.entries != [] ==>
      r == (if forall i | 0 <= i < |mapping.entries| :: mapping.entries[i].1 == NoneV
            then Ok(mapping.entries) else Err(TypeErr))
  {
    if !Truthy(mapping) then Ok([])
    else if !mapping.DictV? then Err(ValueErr)
    else FirstProvider(mapping.entries, 0)
  }

  /** The loop over the values from position `i` on: the first value that is not None
      raises. */
  function FirstProvider(entries: Dict, i: nat): (r: Result<Dict>)
    requires i <= |entries|
    ensures r == (if forall j | i <= j < |entries| :: entries[j].1 == NoneV then Ok(entries) else Err(TypeErr))
    decreases |entries| - i
  {
    if i == |entries| then Ok(entries)
    else if entries[i].1 != NoneV then Err(TypeErr)
    else FirstProvider(entries, i + 1)
  }

  class ProviderMap {
    var data: Dict
    var providerNs: ProviderNs
    const failToParent: bool
    const failUpHeight: nat

    /** `ProviderMap(mapping, provider_ns, fail_to_parent, fail_up_height)` when it does not
        raise; `InitData` gives the exceptions it raises. */
    constructor(mapping: Value, providerNs: ProviderNs, failToParent: bool, failUpHeight: nat)
      requires InitData(mapping).Ok?
      ensures data == InitData(mapping).value
      ensures this.providerNs == providerNs
      ensures this.failToParent == failToParent && this.failUpHeight == failUpHeight
    {
      data := InitData(mapping).value;
      this.providerNs := providerNs;
      this.failToParent := failToParent;
      this.failUpHeight := failUpHeight;
    }

    /** `pmap[key]`: the stored value; ProviderMapLookupError when the key is missing, and
        also when the stored value is the canary string. */
    function Get(key: string): (r: Result<Value>)
      reads this
      ensures r.Err? <==> !HasKey(data, key) || Lookup(data, key) == Some(StrV(FailCanary))
      ensures r.Err? ==> r.error == ProviderMapLookup
      ensures r.Ok? ==> (key, r.value) in data
    {
      var v := match Lookup(data, key) case Some(v) => v case None => StrV(FailCanary);
      if v == StrV(FailCanary) then Err(ProviderMapLookup) else Ok(v)
    }

    /** `set_provider(key, provider)`. A string is stored first and then looked up in the
        provider namespace: an unknown id is only logged, but without a provider namespace
        the lookup raises AttributeError after the store. A provider is stored; anything
        else raises ProviderError and stores nothing. */
    method SetProvider(key: string, provider: Value) returns (r: Result<()>)
      modifies this
      ensures providerNs == old(providerNs)
      ensures provider.StrV? || provider.ProviderV? ==> data == SetItem(old(data), key, provider)
      ensures !provider.StrV? && !provider.ProviderV? ==> data == old(data) && r == Err(ProviderFailure)
      ensures provider.ProviderV? ==> r == Ok(())
      ensures provider.StrV? ==> r == SetLookupOutcome(providerNs, provider.s)
    {
      if provider.StrV? {
        data := SetItem(data, key, provider);
        match providerNs
        case NoNs =>
          return Err(AttributeErr);
        case Ns(lookup) =>
          var found := lookup(provider.s);
          if found.Err? && found.error != NamespaceLookup {
            return Err(found.error);
          }
          return Ok(());
      } else if provider.ProviderV? {
        data := SetItem(data, key, provider);
        return Ok(());
      } else {
        return Err(ProviderFailure);
      }
    }

    /** `get_provider(key)`: a stored provider is returned; a stored id is resolved through
        the provider namespace; a missing key or an unknown id is a ProviderError; any other
        stored value gives None. */
    method GetProvider(key: string) returns (r: Result<Value>)
      ensures r == GetProviderSpec(data, providerNs, key)
    {
      var stored := Lookup(data, key);
      if stored.None? {
        return Err(ProviderFailure);
      }
      var p := stored.value;
      if p.ProviderV? {
        return Ok(p);
      } else if p.StrV? {
        match providerNs
        case NoNs =>
          return Err(AttributeErr);
        case Ns(lookup) =>
          var found := lookup(p.s);
          if found.Err? && NoProvider(found.error) {
            return Err(ProviderFailure);
          }
          return found;
      }
      return Ok(NoneV);
    }

    /** `set_provider_namespace(provider_ns)`. */
    method SetProviderNamespace(providerNs: ProviderNs)
      modifies this
      ensures this.providerNs == providerNs
      ensures data == old(data)
    {
      this.providerNs := providerNs;
    }
  }

  /** What `set_provider` returns after storing an id: only a NamespaceLookupError from the
      lookup is swallowed; a missing provider namespace is an AttributeError. */
  function SetLookupOutcome(ns: ProviderNs, id: string): Result<()>
  {
    match ns
    case NoNs => Err(AttributeErr)
    case Ns(lookup) =>
      var found := lookup(id);
      if found.Err? && found.error != NamespaceLookup then Err(found.error) else Ok(())
  }

  /** The exceptions `get_provider` turns into ProviderError: KeyError, of which
      ProviderMapLookupError is a subclass, and NamespaceLookupError. */
  predicate NoProvider(e: Error)
  {
    e == KeyErr || e == ProviderMapLookup || e == NamespaceLookup
  }

  /** The resolution `get_provider` performs on the stored value. */
  function GetProviderSpec(data: Dict, ns: ProviderNs, key: string): Result<Value>
  {
    match Lookup(data, key)
    case None => Err(ProviderFailure)
    case Some(p) =>
      if p.ProviderV? then Ok(p)
      else if p.StrV? then
        match ns
        case NoNs => Err(AttributeErr)
        case Ns(lookup) =>
          var found := lookup(p.s);
          if found.Err? && NoProvider(found.error) then Err(ProviderFailure) else found
      else Ok(NoneV)
  }

  /** After `set_provider` with a provider, `get_provider` returns it and indexing returns
      it. */
  lemma SetThenGetProvider(data: Dict, ns: ProviderNs, key: string, id: nat)
    ensures GetProviderSpec(SetItem(data, key, ProviderV(id)), ns, key) == Ok(ProviderV(id))
  {
  }

  /** After `set_provider` with an id, `get_provider` resolves the id in the current provider
      namespace: an unknown id, swallowed when it was set, is reported now. */
  lemma SetIdThenGetProvider(data: Dict, lookup: string -> Result<Value>, key: string, id: string)
    requires lookup(id) == Err(NamespaceLookup)
    ensures SetLookupOutcome(Ns(lookup), id) == Ok(())
    ensures GetProviderSpec(SetItem(data, key, StrV(id)), Ns(lookup), key) == Err(ProviderFailure)
  {
  }

  /** `get_provider` fails with ProviderError exactly when the key is missing, or its id's
      lookup in the provider namespace raises KeyError, ProviderMapLookupError,
      NamespaceLookupError or ProviderError itself. */
  lemma GetProviderFailure(data: Dict, lookup: string -> Result<Value>, key: string)
    ensures GetProviderSpec(data, Ns(lookup), key) == Err(ProviderFailure) <==>
      !HasKey(data, key) ||
      (Lookup(data, key).value.StrV? &&
        (lookup(Lookup(data, key).value.s) == Err(KeyErr) ||
         lookup(Lookup(data, key).value.s) == Err(ProviderMapLookup) ||
         lookup(Lookup(data, key).value.s) == Err(NamespaceLookup) ||
         lookup(Lookup(data, key).value.s) == Err(ProviderFailure)))
  {
  }

  /** Any other exception of the lookup, such as an AttributeError, escapes unchanged. */
  lemma GetProviderPassesOthers(data: Dict, lookup: string -> Result<Value>, key: string, e: Error)
    requires HasKey(data, key) && Lookup(data, key).value.StrV?
    requires lookup(Lookup(data, key).value.s) == Err(e) && !NoProvider(e)
    ensures GetProviderSpec(data, Ns(lookup), key) == Err(e)
  {
  }

  /** The constructor accepts exactly the falsy values and the mappings of Nones. */
  lemma InitAccepts(mapping: Value)
    ensures InitData(mapping).Ok? <==>
      !Truthy(mapping) || (mapping.DictV? && forall i | 0 <= i < |mapping.entries| :: mapping.entries[i].1 == NoneV)
  {
  }
}
