/** `NamespaceConfigParser` (thewired/namespaceconfigparser.py): the old recursive builder
    that turns a nested configuration mapping into trees of legacy nodes. Every top-level
    key becomes a root node; below it, a mapping value becomes a child node and is parsed
    in turn, any other value is set on the current node, and `__raw__` keeps a mapping as a
    plain value on the parent. */
module LegacyParsers {
  import opened Errors
  import opened Text
  import opened PyValues
  import opened Nsids
  import opened LegacyNodes
  import opened LegacyForests

  const RawMarker: string := "__raw__"

  /** `dict(v)`: a mapping is copied; a string or a list is iterated, each element giving
      one key/value pair, and a later pair for a key replaces the value of an earlier one;
      other values are not iterable (TypeError). */
  function DictCopy(v: Value): (r: Result<Value>)
    ensures r.Ok? ==> r.value.DictV?
    ensures v.DictV? ==> r == Ok(v)
  {
    match v
    case DictV(_) => Ok(v)
    case ListV(items) =>
      var entries :- Pairs(items, []);
      Ok(DictV(entries))
    case StrV(s) => if s == "" then Ok(DictV([])) else Err(ValueErr)
    case _ => Err(TypeErr)
  }

  /** One element of the iterable given to `dict()` as a key/value pair: a list of two items
      with a string key, a string of two characters, or a mapping with two keys (iterating it
      gives the keys). Any other length is a ValueError; a value that cannot be iterated, or a
      key that is not a string, a TypeError. */
  function PairOf(item: Value): (r: Result<(string, Value)>)
    ensures r.Err? ==> r.error == ValueErr || r.error == TypeErr
  {
    match item
    case ListV(xs) =>
      if |xs| != 2 then Err(ValueErr)
      else if xs[0].StrV? then Ok((xs[0].s, xs[1]))
      else Err(TypeErr)
    case StrV(s) => if |s| != 2 then Err(ValueErr) else Ok(([s[0]], StrV([s[1]])))
    case DictV(es) => if |es| != 2 then Err(ValueErr) else Ok((es[0].0, StrV(es[1].0)))
    case _ => Err(TypeErr)
  }

  /** The pairs of `items` set one after the other on the entries `acc`. */
  function Pairs(items: seq<Value>, acc: seq<(string, Value)>): (r: Result<seq<(string, Value)>>)
    decreases |items|
  {
    if items == [] then Ok(acc)
    else
      var p :- PairOf(items[0]);
      Pairs(items[1..], SetItem(acc, p.0, p.1))
  }

  /** `dict()` of a list fails with the error of its first element that is not a pair. */
  lemma {:induction false} PairsFirstFailure(items: seq<Value>, acc: seq<(string, Value)>, i: nat)
    requires i < |items| && PairOf(items[i]).Err?
    requires forall j | 0 <= j < i :: PairOf(items[j]).Ok?
    ensures Pairs(items, acc) == Err(PairOf(items[i]).error)
    decreases i
  {
    if i > 0 {
      var p := PairOf(items[0]).value;
      assert forall j | 0 <= j < i - 1 :: items[1..][j] == items[j + 1];
      PairsFirstFailure(items[1..], SetItem(acc, p.0, p.1), i - 1);
    }
  }

  /** `dict()` of a list whose elements are all pairs succeeds. */
  lemma {:induction false} PairsSucceed(items: seq<Value>, acc: seq<(string, Value)>)
    requires forall j | 0 <= j < |items| :: PairOf(items[j]).Ok?
    ensures Pairs(items, acc).Ok?
    decreases |items|
  {
    if items != [] {
      var p := PairOf(items[0]).value;
      assert forall j | 0 <= j < |items| - 1 :: items[1..][j] == items[j + 1];
      PairsSucceed(items[1..], SetItem(acc, p.0, p.1));
    }
  }

  /** `dict()` of a list succeeds only when every element is a pair. */
  lemma {:induction false} PairsAllPairs(items: seq<Value>, acc: seq<(string, Value)>)
    requires Pairs(items, acc).Ok?
    ensures forall j | 0 <= j < |items| :: PairOf(items[j]).Ok?
    decreases |items|
  {
    if items != [] {
      var p := PairOf(items[0]).value;
      PairsAllPairs(items[1..], SetItem(acc, p.0, p.1));
      assert forall j | 1 <= j < |items| :: items[j] == items[1..][j - 1];
    }
  }

  /** A key that no pair names keeps the value it held before. */
  lemma {:induction false} PairsKeepOthers(items: seq<Value>, acc: seq<(string, Value)>, k: string)
    requires forall j | 0 <= j < |items| :: PairOf(items[j]).Ok? && PairOf(items[j]).value.0 != k
    ensures Pairs(items, acc).Ok? && Lookup(Pairs(items, acc).value, k) == Lookup(acc, k)
    decreases |items|
  {
    if items != [] {
      var p := PairOf(items[0]).value;
      assert forall j | 0 <= j < |items| - 1 :: items[1..][j] == items[j + 1];
      PairsKeepOthers(items[1..], SetItem(acc, p.0, p.1), k);
    }
  }

  /** The key of the last pair that names it holds that pair's value. */
  lemma {:induction false} PairsLastWins(items: seq<Value>, acc: seq<(string, Value)>, k: string, v: Value, i: nat)
    requires i < |items| && PairOf(items[i]) == Ok((k, v))
    requires forall j | 0 <= j < i :: PairOf(items[j]).Ok?
    requires forall j | i < j < |items| :: PairOf(items[j]).Ok? && PairOf(items[j]).value.0 != k
    ensures Pairs(items, acc).Ok? && Lookup(Pairs(items, acc).value, k) == Some(v)
    decreases i
  {
    var p := PairOf(items[0]).value;
    var rest := items[1..];
    assert forall j | 0 <= j < |rest| :: rest[j] == items[j + 1];
    if i == 0 {
      PairsKeepOthers(rest, SetItem(acc, p.0, p.1), k);
    } else {
      PairsLastWins(rest, SetItem(acc, p.0, p.1), k, v, i - 1);
    }
  }

  /** `dict([['a', 1]])` is `{'a': 1}`, and of two pairs for one key the later one wins. */
  lemma DictOfPairs()
    ensures DictCopy(ListV([ListV([StrV("a"), IntV(1)])])) == Ok(DictV([("a", IntV(1))]))
    ensures DictCopy(ListV([ListV([StrV("a"), IntV(1)]), StrV("a2")])) == Ok(DictV([("a", StrV("2"))]))
    ensures DictCopy(ListV([ListV([StrV("a")])])) == Err(ValueErr)
    ensures DictCopy(ListV([IntV(1)])) == Err(TypeErr)
  {
    assert [ListV([StrV("a"), IntV(1)]), StrV("a2")][1..] == [StrV("a2")];
    assert PairOf(StrV("a2")) == Ok(("a", StrV("2"))) by {
      assert "a2"[0] == 'a' && "a2"[1] == '2';
      assert ['a'] == "a" && ['2'] == "2";
    }
    var one: seq<(string, Value)> := [("a", IntV(1))];
    assert SetItem([], "a", IntV(1)) == one;
    assert one[1..] == [];
    assert SetItem(one, "a", StrV("2")) == [("a", StrV("2"))];
    assert Pairs([StrV("a2")], one) == Pairs([], [("a", StrV("2"))]);
  }

  /** `parse_submap(cfg, cur_ns, prev_ns)`: no current node is a ValueError, and a value
      without `keys()` an AttributeError. */
  function SubmapSpec(h: Heap, cfg: Value, cur: Option<Ref>, prev: Option<Ref>): (res: Result<Heap>)
    requires Valid(h) && (cur.Some? ==> cur.value in h.nodes) && (prev.Some? ==> prev.value in h.nodes)
    ensures res.Ok? ==> Valid(res.value) && Extends(h, res.value)
    ensures cur.None? ==> res == Err(ValueErr)
    ensures cur.Some? && !cfg.DictV? ==> res == Err(AttributeErr)
    decreases cfg, 2, 0
  {
    if cur.None? then Err(ValueErr)
    else if !cfg.DictV? then Err(AttributeErr)
    else EntriesSpec(h, cfg, 0, cur.value, prev)
  }

  /** The loop of `parse_submap` over the keys of `cfg` from position `i` on. */
  function EntriesSpec(h: Heap, cfg: Value, i: nat, cur: Ref, prev: Option<Ref>): (res: Result<Heap>)
    requires cfg.DictV? && i <= |cfg.entries|
    requires Valid(h) && cur in h.nodes && (prev.Some? ==> prev.value in h.nodes)
    ensures res.Ok? ==> Valid(res.value) && Extends(h, res.value)
    decreases cfg, 1, |cfg.entries| - i
  {
    if i == |cfg.entries| then Ok(h)
    else
      assert cfg.entries[i] in cfg.entries;
      var h1 :- EntrySpec(h, cfg.entries[i].0, cfg.entries[i].1, cur, prev);
      var h2 := EntriesSpec(h1, cfg, i + 1, cur, prev);
      if h2.Ok? then ExtendsTrans(h, h1, h2.value); h2 else h2
  }

  /** One key of `parse_submap`: `__raw__` sets a dict copy of its value on the parent
      under the current node's name (with overwrite), a mapping becomes a child node that
      is parsed with the current node as parent, anything else is added as an item. */
  function EntrySpec(h: Heap, key: string, v: Value, cur: Ref, prev: Option<Ref>): (res: Result<Heap>)
    requires Valid(h) && cur in h.nodes && (prev.Some? ==> prev.value in h.nodes)
    ensures res.Ok? ==> Valid(res.value) && Extends(h, res.value)
    decreases v, 3, 0
  {
    if key == RawMarker then
      var raw :- DictCopy(v);
      if prev.None? then Err(NamespaceConfigParsing)
      else AddItemSpec(h, prev.value, Name(h.nodes[cur].namespaceId), ValueItem(raw), true, true)
    else if v.DictV? then
      var (h1, c) :- AddChildSpec(h, cur, key, false);
      var h2 := SubmapSpec(h1, v, Some(c), Some(cur));
      if h2.Ok? then ExtendsTrans(h, h1, h2.value); h2 else h2
    else AddItemSpec(h, cur, key, ValueItem(v), true, false)
  }

  /** A one-key mapping is parsed as its one entry. */
  lemma SingleEntry(h: Heap, key: string, v: Value, cur: Ref, prev: Option<Ref>)
    requires Valid(h) && cur in h.nodes && (prev.Some? ==> prev.value in h.nodes)
    ensures SubmapSpec(h, DictV([(key, v)]), Some(cur), prev) == EntrySpec(h, key, v, cur, prev)
  {
    var r := EntrySpec(h, key, v, cur, prev);
    if r.Ok? {
      assert EntriesSpec(r.value, DictV([(key, v)]), 1, cur, prev) == Ok(r.value);
    }
  }

  /** The id `parse` gives the root for `key`. */
  function RootId(prefix: string, key: string): string
  {
    if prefix != "" then prefix + "." + key else key
  }

  /** One round of `parse`: a new node for `key` (with the parser's root), then its value
      parsed into it with no parent. */
  function RootSpec(h: Heap, prefix: string, key: string, v: Value, nsroot: Option<Ref>): (res: Result<(Heap, Ref)>)
    requires Valid(h) && (nsroot.Some? ==> nsroot.value in h.nodes)
    ensures res.Ok? ==> Valid(res.value.0) && Extends(h, res.value.0) && RootMade(h, res.value.0, res.value.1, RootId(prefix, key), nsroot)
  {
    var (h1, c) := NewNode(h, Some(RootId(prefix, key)), nsroot, false, map[]);
    var h2 :- SubmapSpec(h1, v, Some(c), None);
    ExtendsTrans(h, h1, h2);
    Ok((h2, c))
  }

  /** `c` is a node of `h2` that `h` did not have, with the id and root `parse` gives a
      root made for `id`. */
  predicate RootMade(h: Heap, h2: Heap, c: Ref, id: string, nsroot: Option<Ref>)
  {
    c in h2.nodes && c !in h.nodes && h2.nodes[c].namespaceId == InitialId(Some(id)) &&
    h2.nodes[c].nsroot == (if id == Root then Some(c) else nsroot)
  }

  lemma RootMadeKept(h: Heap, h1: Heap, h2: Heap, c: Ref, id: string, nsroot: Option<Ref>)
    requires RootMade(h, h1, c, id, nsroot) && Extends(h1, h2)
    ensures RootMade(h, h2, c, id, nsroot)
  {
  }

  lemma RootMadeEarlier(h: Heap, h1: Heap, h2: Heap, c: Ref, id: string, nsroot: Option<Ref>)
    requires RootMade(h1, h2, c, id, nsroot) && Extends(h, h1)
    ensures RootMade(h, h2, c, id, nsroot)
  {
  }

  /** The roots of the first `|roots|` keys stay what they were when one more round adds
      the root `c`. */
  lemma RootsSnoc(h: Heap, h1: Heap, h2: Heap, roots: seq<Ref>, c: Ref, prefix: string,
                  entries: seq<(string, Value)>, nsroot: Option<Ref>)
    requires |roots| < |entries| && Extends(h, h1) && Extends(h1, h2)
    requires RootMade(h1, h2, c, RootId(prefix, entries[|roots|].0), nsroot)
    requires forall j | 0 <= j < |roots| :: RootMade(h, h1, roots[j], RootId(prefix, entries[j].0), nsroot)
    ensures forall j | 0 <= j < |roots| + 1 :: RootMade(h, h2, (roots + [c])[j], RootId(prefix, entries[j].0), nsroot)
  {
    forall j | 0 <= j < |roots| + 1
      ensures RootMade(h, h2, (roots + [c])[j], RootId(prefix, entries[j].0), nsroot)
    {
      if j < |roots| {
        RootMadeKept(h, h1, h2, roots[j], RootId(prefix, entries[j].0), nsroot);
      } else {
        RootMadeEarlier(h, h1, h2, c, RootId(prefix, entries[j].0), nsroot);
      }
    }
  }

  /** A non-mapping value under an ordinary key is set on the current node only when the
      node has no attribute of that name: an existing attribute is kept. */
  lemma ScalarKeepsExisting(h: Heap, cur: Ref, prev: Option<Ref>, key: string, v: Value)
    requires Valid(h) && cur in h.nodes && (prev.Some? ==> prev.value in h.nodes)
    requires NoDot(key) && key != RawMarker && !v.DictV?
    ensures var n := h.nodes[cur];
      SubmapSpec(h, DictV([(key, v)]), Some(cur), prev) ==
        if Exists(n, key) then Ok(h)
        else Ok(Heap(h.nodes[cur := SetAttr(n, key, ValueItem(v), true)], h.next))
  {
    SingleEntry(h, key, v, cur, prev);
    AddItemSingle(h, cur, key, ValueItem(v), true, false);
  }

  /** `__raw__` with no parent node is a NamespaceConfigParsingError (once the value
      converts to a dict). */
  lemma RawNeedsParent(h: Heap, cur: Ref, raw: Value)
    requires Valid(h) && cur in h.nodes && DictCopy(raw).Ok?
    ensures SubmapSpec(h, DictV([(RawMarker, raw)]), Some(cur), None) == Err(NamespaceConfigParsing)
  {
    SingleEntry(h, RawMarker, raw, cur, None);
  }

  /** A mapping under an ordinary key becomes a new child with the key's id below the
      node, parsed with the node as parent; it is attached under the key when the node
      has no such name, and left detached (the node unchanged) when it has. */
  lemma MappingBecomesChild(h: Heap, cur: Ref, prev: Option<Ref>, key: string, inner: Value)
    requires Valid(h) && cur in h.nodes && (prev.Some? ==> prev.value in h.nodes)
    requires NoDot(key) && key != RawMarker && inner.DictV?
    ensures AddChildSpec(h, cur, key, false).Ok?
    ensures var (h1, c) := AddChildSpec(h, cur, key, false).value;
      var n := h.nodes[cur];
      h1.nodes[c].namespaceId == InitialId(Some(ChildId(n, cur, key))) &&
      (!Exists(n, key) ==> h1.nodes[cur].attrs == n.attrs[key := NodeItem(c)]) &&
      (Exists(n, key) ==> h1.nodes[cur] == n) &&
      SubmapSpec(h, DictV([(key, inner)]), Some(cur), prev) == SubmapSpec(h1, inner, Some(c), Some(cur))
  {
    AddChildAttaches(h, cur, key, false);
    SingleEntry(h, key, inner, cur, prev);
  }

  /** `{'__raw__': d}` parsed into a child named `key` of `cur` replaces that child on
      `cur` with a copy of `d`. */
  lemma RawOnChild(h: Heap, c: Ref, cur: Ref, key: string, d: seq<(string, Value)>)
    requires Valid(h) && c in h.nodes && cur in h.nodes && Name(h.nodes[c].namespaceId) == key
    ensures SubmapSpec(h, DictV([(RawMarker, DictV(d))]), Some(c), Some(cur)) ==
      Ok(Heap(h.nodes[cur := SetAttr(h.nodes[cur], key, ValueItem(DictV(d)), true)], h.next))
  {
    SingleEntry(h, RawMarker, DictV(d), c, Some(cur));
    AddItemSingle(h, cur, key, ValueItem(DictV(d)), true, true);
  }

  /** `{key: {'__raw__': d}}` under a node (not its own root) that lacks `key`: the child
      made for `key` is replaced on the node by a copy of `d`. */
  lemma RawReplacesChild(h: Heap, cur: Ref, prev: Option<Ref>, key: string, d: seq<(string, Value)>)
    requires Valid(h) && cur in h.nodes && (prev.Some? ==> prev.value in h.nodes)
    requires NoDot(key) && key != RawMarker && !Exists(h.nodes[cur], key)
    requires h.nodes[cur].nsroot != Some(cur) && NoDoubleDot(h.nodes[cur].namespaceId + "." + key)
    ensures var res := SubmapSpec(h, DictV([(key, DictV([(RawMarker, DictV(d))]))]), Some(cur), prev);
      res.Ok? && key in res.value.nodes[cur].attrs && res.value.nodes[cur].attrs[key] == ValueItem(DictV(d))
  {
    MappingBecomesChild(h, cur, prev, key, DictV([(RawMarker, DictV(d))]));
    var (h1, c) := AddChildSpec(h, cur, key, false).value;
    SanitizeClean(h.nodes[cur].namespaceId + "." + key);
    NameIsLastPart(h.nodes[cur].namespaceId, key);
    RawOnChild(h1, c, cur, key, d);
  }

  /** The old parser: a root for symbolic references and a prefix for the root ids
      (empty for none), building nodes in `forest`. */
  class Parser {
    const nsroot: Option<Ref>
    const prefix: string
    const forest: Forest

    constructor(nsroot: Option<Ref>, prefix: string, forest: Forest)
      ensures this.nsroot == nsroot && this.prefix == prefix && this.forest == forest
    {
      this.nsroot := nsroot;
      this.prefix := prefix;
      this.forest := forest;
    }

    /** `parse_submap(cfg, cur_ns, prev_ns)`. When it raises, what it built before stays. */
    method ParseSubmap(cfg: Value, cur: Option<Ref>, prev: Option<Ref>) returns (res: Result<()>)
      requires Valid(forest.heap) && (cur.Some? ==> cur.value in forest.heap.nodes)
      requires prev.Some? ==> prev.value in forest.heap.nodes
      modifies forest
      ensures var spec := SubmapSpec(old(forest.heap), cfg, cur, prev);
        (res.Ok? <==> spec.Ok?) && (spec.Ok? ==> forest.heap == spec.value) &&
        (spec.Err? ==> res == Err(spec.error) && Valid(forest.heap) && Extends(old(forest.heap), forest.heap))
      decreases cfg, 2
    {
      if cur.None? {
        return Err(ValueErr);
      }
      if !cfg.DictV? {
        return Err(AttributeErr);
      }
      for i := 0 to |cfg.entries|
        invariant Valid(forest.heap) && cur.value in forest.heap.nodes && (prev.Some? ==> prev.value in forest.heap.nodes)
        invariant Extends(old(forest.heap), forest.heap)
        invariant SubmapSpec(old(forest.heap), cfg, cur, prev) == EntriesSpec(forest.heap, cfg, i, cur.value, prev)
      {
        ghost var before := forest.heap;
        assert cfg.entries[i] in cfg.entries;
        var (key, v) := cfg.entries[i];
        res := ParseEntry(key, v, cur.value, prev);
        ExtendsTrans(old(forest.heap), before, forest.heap);
        if res.Err? {
          return;
        }
      }
      return Ok(());
    }

    /** One key of `parse_submap`. */
    method ParseEntry(key: string, v: Value, cur: Ref, prev: Option<Ref>) returns (res: Result<()>)
      requires Valid(forest.heap) && cur in forest.heap.nodes && (prev.Some? ==> prev.value in forest.heap.nodes)
      modifies forest
      ensures var spec := EntrySpec(old(forest.heap), key, v, cur, prev);
        (res.Ok? <==> spec.Ok?) && (spec.Ok? ==> forest.heap == spec.value) &&
        (spec.Err? ==> res == Err(spec.error) && Valid(forest.heap) && Extends(old(forest.heap), forest.heap))
      decreases v, 4
    {
      if key == RawMarker {
        res := ParseRaw(key, v, cur, prev);
      } else if v.DictV? {
        res := ParseNested(key, v, cur, prev);
      } else {
        res := forest.AddItem(cur, key, ValueItem(v), true, false);
      }
    }

    /** The raw-marker key: a copy of its value is set on the previous node under the name
        of the current one. */
    method ParseRaw(key: string, v: Value, cur: Ref, prev: Option<Ref>) returns (res: Result<()>)
      requires Valid(forest.heap) && cur in forest.heap.nodes && (prev.Some? ==> prev.value in forest.heap.nodes)
      requires key == RawMarker
      modifies forest
      ensures var spec := EntrySpec(old(forest.heap), key, v, cur, prev);
        (res.Ok? <==> spec.Ok?) && (spec.Ok? ==> forest.heap == spec.value) &&
        (spec.Err? ==> res == Err(spec.error) && Valid(forest.heap) && Extends(old(forest.heap), forest.heap))
    {
      var raw := DictCopy(v);
      if raw.Err? {
        return Err(raw.error);
      }
      if prev.None? {
        return Err(NamespaceConfigParsing);
      }
      res := forest.AddItem(prev.value, Name(forest.heap.nodes[cur].namespaceId), ValueItem(raw.value), true, true);
    }

    /** A key whose value is a mapping: a new child node, with the mapping parsed into it. */
    method ParseNested(key: string, v: Value, cur: Ref, prev: Option<Ref>) returns (res: Result<()>)
      requires Valid(forest.heap) && cur in forest.heap.nodes && (prev.Some? ==> prev.value in forest.heap.nodes)
      requires key != RawMarker && v.DictV?
      modifies forest
      ensures var spec := EntrySpec(old(forest.heap), key, v, cur, prev);
        (res.Ok? <==> spec.Ok?) && (spec.Ok? ==> forest.heap == spec.value) &&
        (spec.Err? ==> res == Err(spec.error) && Valid(forest.heap) && Extends(old(forest.heap), forest.heap))
      decreases v, 3
    {
      var next := forest.AddChild(cur, key, false);
      if next.Err? {
        return Err(next.error);
      }
      ghost var h1 := forest.heap;
      res := ParseSubmap(v, Some(next.value), Some(cur));
      if res.Err? {
        ExtendsTrans(old(forest.heap), h1, forest.heap);
      }
    }

    /** One round of `parse`: the new root for `key`, with `v` parsed into it. */
    method ParseRoot(key: string, v: Value) returns (res: Result<Ref>)
      requires Valid(forest.heap) && (nsroot.Some? ==> nsroot.value in forest.heap.nodes)
      modifies forest
      ensures var spec := RootSpec(old(forest.heap), prefix, key, v, nsroot);
        (res.Ok? <==> spec.Ok?) && (spec.Ok? ==> (forest.heap, res.value) == spec.value) &&
        (spec.Err? ==> res == Err(spec.error) && Valid(forest.heap) && Extends(old(forest.heap), forest.heap))
    {
      var id := if prefix != "" then prefix + "." + key else key;
      var cur := forest.NewNamespaceNode(Some(id), nsroot, false, map[]);
      ghost var h1 := forest.heap;
      var parsed := ParseSubmap(v, Some(cur), None);
      if parsed.Err? {
        ExtendsTrans(old(forest.heap), h1, forest.heap);
        return Err(parsed.error);
      }
      return Ok(cur);
    }

    /** `parse(cfg)`: one new root per top-level key, in key order, each with the key's
        id under the prefix and the parser's root; each round is `ParseRoot`. */
    method Parse(cfg: Value) returns (res: Result<seq<Ref>>)
      requires Valid(forest.heap) && (nsroot.Some? ==> nsroot.value in forest.heap.nodes)
      modifies forest
      ensures Valid(forest.heap) && Extends(old(forest.heap), forest.heap)
      ensures !cfg.DictV? ==> res == Err(AttributeErr)
      ensures res.Ok? ==> (|res.value| == |cfg.entries| &&
        forall j | 0 <= j < |res.value| ::
          RootMade(old(forest.heap), forest.heap, res.value[j], RootId(prefix, cfg.entries[j].0), nsroot))
    {
      if !cfg.DictV? {
        return Err(AttributeErr);
      }
      var roots: seq<Ref> := [];
      for i := 0 to |cfg.entries|
        invariant Valid(forest.heap) && Extends(old(forest.heap), forest.heap) && |roots| == i
        invariant forall j | 0 <= j < i ::
          RootMade(old(forest.heap), forest.heap, roots[j], RootId(prefix, cfg.entries[j].0), nsroot)
      {
        ghost var before := forest.heap;
        var (key, v) := cfg.entries[i];
        var made := ParseRoot(key, v);
        if made.Err? {
          ExtendsTrans(old(forest.heap), before, forest.heap);
          return Err(made.error);
        }
        RootsSnoc(old(forest.heap), before, forest.heap, roots, made.value, prefix, cfg.entries, nsroot);
        ExtendsTrans(old(forest.heap), before, forest.heap);
        roots := roots + [made.value];
      }
      return Ok(roots);
    }
  }
}
