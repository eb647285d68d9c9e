/** The attribute-fallback rule of `MappedAttributesNode.__getattr__`
    (thewired/namespace/namespacenode/mapped.py; `SecondLifeMapNode` is the same class): an
    attribute missing from the node is looked up in its attribute map, and the entry found
    decides the value. The map is only read. */
module Mapped {
  import opened Errors
  import opened PyValues
  import opened Nsids

  /** `is_valid_nsid_str(v)` with its defaults (symbolic links allowed, fully qualified
      required) on any truthy value: a string is checked; anything else is indexed with
      `v[0]` first, which a list survives (and is then refused), a dict fails with KeyError
      and any other object with TypeError. */
  function IsValidNsidValue(v: Value): Result<bool>
  {
    match v
    case StrV(s) => IsValidNsidStr(s, true, true)
    case ListV(items) => if items == [] then Err(IndexErr) else Ok(false)
    case DictV(_) => Err(KeyErr)
    case _ => Err(TypeErr)
  }

  /** The entry of the attribute map for `attr`, or None as `dict.get` gives it. */
  function Raw(attributeMap: seq<(string, Value)>, attr: string): Value
  {
    match Lookup(attributeMap, attr)
    case None => NoneV
    case Some(v) => v
  }

  /** `__getattr__(attr)` as written: a missing or falsy entry is an AttributeError, a
      callable gives what calling it returns (`provide(id)` for a provider, called without
      arguments), a valid fully-qualified id gives None (its lookup is not implemented),
      anything else is returned raw once the id test has accepted to look at it. */
  function GetAttr(attributeMap: seq<(string, Value)>, attr: string, provide: nat -> Result<Value>): Result<Value>
  {
    var raw := Raw(attributeMap, attr);
    if !Truthy(raw) then Err(AttributeErr)
    else if raw.CallableV? then Ok(raw.result)
    else if raw.ProviderV? then provide(raw.id)
    else
      var valid :- IsValidNsidValue(raw);
      if valid then Ok(NoneV) else Ok(raw)
  }

  /** The outcome of `__getattr__` for every kind of entry. */
  lemma GetAttrOutcome(attributeMap: seq<(string, Value)>, attr: string, provide: nat -> Result<Value>)
    ensures var r := GetAttr(attributeMap, attr, provide);
      var entry := Lookup(attributeMap, attr);
      (entry.None? ==> r == Err(AttributeErr)) &&
      (entry.Some? && !Truthy(entry.value) ==> r == Err(AttributeErr)) &&
      (entry.Some? && entry.value.CallableV? ==> r == Ok(entry.value.result)) &&
      (entry.Some? && entry.value.ProviderV? ==> r == provide(entry.value.id)) &&
      (entry.Some? && entry.value.StrV? && entry.value.s != "" ==>
        r == (if IsValidNsidStr(entry.value.s, true, true) == Ok(true) then Ok(NoneV) else Ok(entry.value)))
  {
    var entry := Lookup(attributeMap, attr);
    if entry.Some? && entry.value.StrV? && entry.value.s != "" {
      var s := entry.value.s;
      assert IsValidNsidStr(s, true, true).Ok? by {
        assert |s| > 0;
      }
    }
  }

  /** `''`, `0`, None and empty containers stored in the map read as missing. */
  lemma FalsyReadsAsMissing(attributeMap: seq<(string, Value)>, attr: string, provide: nat -> Result<Value>)
    requires Lookup(attributeMap, attr) in {Some(StrV("")), Some(IntV(0)), Some(NoneV), Some(ListV([])), Some(DictV([]))}
    ensures GetAttr(attributeMap, attr, provide) == Err(AttributeErr)
  {
  }

  /** A fully-qualified id stored in the map yields None; a string that is not an id is
      returned as stored. */
  lemma StoredIds(attr: string, provide: nat -> Result<Value>)
    ensures GetAttr([(attr, StrV(".a.b"))], attr, provide) == Ok(NoneV)
    ensures GetAttr([(attr, StrV("plain text"))], attr, provide) == Ok(StrV("plain text"))
  {
    StoredIdValid();
    assert "plain text"[0] == 'p';
  }

  lemma StoredIdValid()
    ensures IsValidNsidStr(".a.b", true, true) == Ok(true)
  {
    var s := ".a.b";
    assert s == "" + "." + ("a" + "." + "b");
    Text.SplitDotFreeHead("", "a" + "." + "b");
    Text.SplitDotFreeHead("a", "b");
    Text.SplitNoDot("b");
    assert Text.Split(s) == ["", "a", "b"];
    assert PartOk(Text.Split(s), 1) && PartOk(Text.Split(s), 2);
  }

  /** A truthy value that is neither callable nor a string is evidently meant to be returned
      raw, but the id test indexes it first: a stored 5 raises TypeError. */
  lemma IntEntryRaises(attr: string, provide: nat -> Result<Value>)
    ensures GetAttr([(attr, IntV(5))], attr, provide) == Err(TypeErr)
    ensures GetAttrIntended([(attr, IntV(5))], attr, provide) == Ok(IntV(5))
  {
  }

  /** The rule with the id test applied to strings only. */
  function GetAttrIntended(attributeMap: seq<(string, Value)>, attr: string, provide: nat -> Result<Value>): (r: Result<Value>)
    ensures var raw := Raw(attributeMap, attr);
      (!Truthy(raw) <==> r == Err(AttributeErr) && !raw.ProviderV?) &&
      (Truthy(raw) && raw.CallableV? ==> r == Ok(raw.result)) &&
      (raw.ProviderV? ==> r == provide(raw.id)) &&
      (Truthy(raw) && !raw.CallableV? && !raw.ProviderV? && !raw.StrV? ==> r == Ok(raw))
  {
    var raw := Raw(attributeMap, attr);
    if !Truthy(raw) then Err(AttributeErr)
    else if raw.CallableV? then Ok(raw.result)
    else if raw.ProviderV? then provide(raw.id)
    else if raw.StrV? then
      var valid := IsValidNsidStr(raw.s, true, true);
      if valid == Ok(true) then Ok(NoneV) else Ok(raw)
    else Ok(raw)
  }

  /** The intended rule agrees with the written one wherever the written one returns, and
      raises nothing but the AttributeError of a missing entry and what a provider raises. */
  lemma IntendedExtendsWritten(attributeMap: seq<(string, Value)>, attr: string, provide: nat -> Result<Value>)
    ensures GetAttr(attributeMap, attr, provide).Ok? ==>
      GetAttrIntended(attributeMap, attr, provide) == GetAttr(attributeMap, attr, provide)
    ensures GetAttrIntended(attributeMap, attr, provide).Err? ==>
      GetAttrIntended(attributeMap, attr, provide) == Err(AttributeErr) || Raw(attributeMap, attr).ProviderV?
  {
    var raw := Raw(attributeMap, attr);
    if Truthy(raw) && raw.StrV? {
      assert |raw.s| > 0;
      assert IsValidNsidStr(raw.s, true, true).Ok?;
    }
  }
}
