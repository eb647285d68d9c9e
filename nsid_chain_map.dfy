/** `NsidChainMap` (thewired/nsidchainmap.py): a local dictionary in front of a chain of
    mappings that are named by id and fetched from the namespace root on every lookup. The
    local dictionary is the only state the object changes. */
module NsidChainMaps {
  import opened Errors
  import opened PyValues

  type Dict = seq<(string, Value)>

  /** The value the lookup starts from and tests for at the end. */
  const LookupFailCanary: string := "___nsidchainmap_lookup_failure_canary___"

  /** The first mapping of the chain that holds `key`, in the order of `nsids`; `maps` is
      what `nsroot._lookup` returns for each id at the time of the lookup. */
  function ChainFind(nsids: seq<string>, maps: map<string, Dict>, key: string): (r: Option<Value>)
    requires forall m | m in nsids :: m in maps
    ensures r.None? <==> forall i | 0 <= i < |nsids| :: !HasKey(maps[nsids[i]], key)
    decreases |nsids|
  {
    if nsids == [] then None
    else
      var here := Lookup(maps[nsids[0]], key);
      if here.Some? then here
      else
        var rest := ChainFind(nsids[1..], maps, key);
        assert forall i | 1 <= i < |nsids| :: nsids[i] == nsids[1..][i - 1];
        rest
  }

  /** `chainmap[key]`: the local value when there is one; otherwise the value of the first
      chained mapping holding the key; a KeyError when none does, and also when the value
      found is the canary string itself. */
  function GetSpec(data: Dict, nsids: seq<string>, maps: map<string, Dict>, key: string): Result<Value>
    requires forall m | m in nsids :: m in maps
  {
    match Lookup(data, key)
    case Some(v) => Ok(v)
    case None =>
      match ChainFind(nsids, maps, key)
      case None => Err(KeyErr)
      case Some(v) => if v == StrV(LookupFailCanary) then Err(KeyErr) else Ok(v)
  }

  class NsidChainMap {
    /** `self.data`, the local dictionary. */
    var data: Dict
    /** `self.map_nsids`, the ids of the chained mappings, in lookup order. */
    const mapNsids: seq<string>

    /** `NsidChainMap(nsroot, *map_nsids, local=local)`: an empty `local` is replaced by a
        new empty dictionary, which has the same contents. */
    constructor(mapNsids: seq<string>, local: Dict)
      ensures data == local && this.mapNsids == mapNsids
    {
      data := local;
      this.mapNsids := mapNsids;
    }

    /** `__getitem__(key)`: the local dictionary first, then the loop over the chained ids
        that stops at the first mapping holding the key. */
    method Get(maps: map<string, Dict>, key: string) returns (r: Result<Value>)
      requires forall m | m in mapNsids :: m in maps
      ensures r == GetSpec(data, mapNsids, maps, key)
    {
      var local := Lookup(data, key);
      if local.Some? {
        return Ok(local.value);
      }
      var value := StrV(LookupFailCanary);
      var i := 0;
      while i < |mapNsids|
        invariant 0 <= i <= |mapNsids|
        invariant ChainFind(mapNsids, maps, key) == ChainFind(mapNsids[i..], maps, key)
        invariant value == StrV(LookupFailCanary)
      {
        var m := maps[mapNsids[i]];
        var found := Lookup(m, key);
        assert mapNsids[i..][1..] == mapNsids[i + 1..];
        if found.Some? {
          value := found.value;
          break;
        }
        i := i + 1;
      }
      if value == StrV(LookupFailCanary) {
        return Err(KeyErr);
      }
      return Ok(value);
    }

    /** `__setitem__(key, value)`: writes the local dictionary only. */
    method Set(key: string, value: Value)
      modifies this
      ensures data == SetItem(old(data), key, value)
    {
      data := SetItem(data, key, value);
    }

    /** `__delitem__(key)`: removes from the local dictionary; a key that is not local is a
        KeyError, whatever the chained mappings hold. */
    method Delete(key: string) returns (r: Result<()>)
      modifies this
      ensures r.Err? <==> !HasKey(old(data), key)
      ensures r.Err? ==> r.error == KeyErr && data == old(data)
      ensures r.Ok? ==> data == Remove(old(data), key)
    {
      if Lookup(data, key).None? {
        return Err(KeyErr);
      }
      data := Remove(data, key);
      return Ok(());
    }
  }

  /** A local key shadows every chained mapping. */
  lemma LocalFirst(data: Dict, nsids: seq<string>, maps: map<string, Dict>, key: string, v: Value)
    requires forall m | m in nsids :: m in maps
    requires Lookup(data, key) == Some(v)
    ensures GetSpec(data, nsids, maps, key) == Ok(v)
  {
  }

  /** Without a local entry, the first chained mapping that holds the key decides. */
  lemma {:induction false} FirstMapWins(nsids: seq<string>, maps: map<string, Dict>, key: string, i: nat)
    requires forall m | m in nsids :: m in maps
    requires i < |nsids| && HasKey(maps[nsids[i]], key)
    requires forall j | 0 <= j < i :: !HasKey(maps[nsids[j]], key)
    ensures ChainFind(nsids, maps, key) == Lookup(maps[nsids[i]], key)
    decreases i
  {
    if i > 0 {
      assert !HasKey(maps[nsids[0]], key);
      assert forall j | 0 <= j < i - 1 :: nsids[1..][j] == nsids[j + 1];
      FirstMapWins(nsids[1..], maps, key, i - 1);
    }
  }

  /** A key found nowhere is a KeyError. */
  lemma AbsentEverywhere(data: Dict, nsids: seq<string>, maps: map<string, Dict>, key: string)
    requires forall m | m in nsids :: m in maps
    requires !HasKey(data, key) && forall i | 0 <= i < |nsids| :: !HasKey(maps[nsids[i]], key)
    ensures GetSpec(data, nsids, maps, key) == Err(KeyErr)
  {
  }

  /** After `chainmap[key] = value` the key reads back as `value` and every other key reads
      as before; the chained mappings are parameters of the lookup and so are not
      touched. */
  lemma SetThenGet(data: Dict, nsids: seq<string>, maps: map<string, Dict>, key: string, value: Value, other: string)
    requires forall m | m in nsids :: m in maps
    ensures GetSpec(SetItem(data, key, value), nsids, maps, key) == Ok(value)
    ensures other != key ==> GetSpec(SetItem(data, key, value), nsids, maps, other) == GetSpec(data, nsids, maps, other)
  {
  }

  /** After `del chainmap[key]` the chained mappings answer for the key again. */
  lemma DeleteUncovers(data: Dict, nsids: seq<string>, maps: map<string, Dict>, key: string)
    requires forall m | m in nsids :: m in maps
    ensures GetSpec(Remove(data, key), nsids, maps, key) ==
      match ChainFind(nsids, maps, key)
      case None => Err(KeyErr)
      case Some(v) => if v == StrV(LookupFailCanary) then Err(KeyErr) else Ok(v)
  {
  }
}
