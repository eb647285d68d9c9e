/** The reading side of the legacy `NamespaceNode`
    (thewired/namespace/namespacenode/namespacenode.py): `_lookup` with its symbolic
    references, `_all`, `_list_leaves`, and `_add_ns`, which places a node by its own id. */
module LegacyLookups {
  import opened Errors
  import opened Text
  import opened PyValues
  import opened Nsids
  import opened Util
  import opened LegacyNodes

  /** What `_lookup` does with an id whose first part is its root's id: call `lookup` on
      the root, as the code is written, or `_lookup`, the method that exists. As written, a
      provider found under `lookup` is called; `provide(id, nsid, follow)` is what provider
      `id` returns or raises for `provide(nsid, follow_symrefs=follow)`. */
  datatype RootCall = AsWritten(provide: (nat, string, bool) -> Result<Value>) | Intended

  /** `is_nsid_ref(obj)`. */
  predicate IsRefObj(o: Obj)
  {
    o.ItemObj? && o.item.ValueItem? && IsNsidRef(o.item.v)
  }

  /** The node symbolic references start from: the root, or the node itself without one. */
  function RootOf(h: Heap, r: Ref): (root: Ref)
    requires Valid(h) && r in h.nodes
    ensures root in h.nodes
  {
    match h.nodes[r].nsroot
    case None => r
    case Some(t) => t
  }

  /** `root.lookup(nsid, follow_symrefs=follow)` as written. Nodes have no `lookup` method,
      so only an attribute of that name is found; a node held there is called, and with its
      empty provider map it raises ProviderError; a callable value gives its result, a
      provider what its `provide` returns or raises; anything else is not callable. */
  function RootLookupMethod(h: Heap, root: Ref, provide: (nat, string, bool) -> Result<Value>, nsid: string, follow: bool): (r: Result<Obj>)
    requires Valid(h) && root in h.nodes
    ensures r.Ok? ==> ObjOk(h, r.value)
    ensures "lookup" !in h.nodes[root].attrs ==> r == Err(AttributeErr)
    ensures "lookup" in h.nodes[root].attrs && h.nodes[root].attrs["lookup"].ValueItem? ==>
      var v := h.nodes[root].attrs["lookup"].v;
      (v.CallableV? ==> r == Ok(ItemObj(ValueItem(v.result)))) &&
      (v.ProviderV? ==> r == match provide(v.id, nsid, follow) case Ok(x) => Ok(ItemObj(ValueItem(x))) case Err(e) => Err(e))
  {
    var n := h.nodes[root];
    if "lookup" !in n.attrs then Err(AttributeErr)
    else match n.attrs["lookup"]
      case NodeItem(_) => Err(ProviderFailure)
      case ValueItem(v) =>
        if v.CallableV? then Ok(ItemObj(ValueItem(v.result)))
        else if v.ProviderV? then
          var answer :- provide(v.id, nsid, follow);
          Ok(ItemObj(ValueItem(answer)))
        else Err(TypeErr)
  }

  /** `node._lookup(namespace_id, follow_symrefs)`. A reference is resolved from the root.
      An id starting with the root's id is handed to the root; any other id is resolved
      one attribute at a time from the node. `fuel` stands for the interpreter's recursion
      limit. */
  function Lookup(h: Heap, r: Ref, id: string, follow: bool, fuel: nat, call: RootCall): (res: Result<Obj>)
    requires Valid(h) && r in h.nodes
    ensures res.Ok? ==> ObjOk(h, res.value)
    decreases fuel, 2, 0
  {
    if follow && IsNsidRef(StrV(id)) then LookupSymRef(h, r, id, fuel, call)
    else
      var path := Split(id);
      var n := h.nodes[r];
      if n.nsroot.Some? && path[0] == h.nodes[n.nsroot.value].namespaceId then
        match call
        case AsWritten(provide) => RootLookupMethod(h, n.nsroot.value, provide, Join(path[1..]), follow)
        case Intended =>
          if fuel == 0 then Err(RecursionErr)
          else Lookup(h, n.nsroot.value, Join(path[1..]), follow, fuel - 1, call)
      else Walk(h, r, ItemObj(NodeItem(r)), path, follow, fuel, call)
  }

  /** The loop of `_lookup` over the remaining `path`: a missing attribute is a
      NamespaceLookupError, and a reference met on the way is resolved (from `self`'s
      root) and returned at once. */
  function Walk(h: Heap, self: Ref, obj: Obj, path: seq<string>, follow: bool, fuel: nat, call: RootCall): (res: Result<Obj>)
    requires Valid(h) && self in h.nodes && ObjOk(h, obj)
    ensures res.Ok? ==> ObjOk(h, res.value)
    decreases fuel, 1, |path|
  {
    if path == [] then Ok(obj)
    else
      var g := GetattrObj(h, obj, path[0]);
      if g.Err? then Err(NamespaceLookup)
      else if follow && IsRefObj(g.value) then
        var s := LookupSymRef(h, self, g.value.item.v.s, fuel, call);
        if s.Err? && s.error == AttributeErr then Err(NamespaceLookup) else s
      else Walk(h, self, g.value, path[1..], follow, fuel, call)
  }

  /** `node._lookup_symbolic_ref(ref)`: the referenced id is looked up from the root, and
      references found are followed until a value that is not one. */
  function LookupSymRef(h: Heap, r: Ref, ref: string, fuel: nat, call: RootCall): (res: Result<Obj>)
    requires Valid(h) && r in h.nodes
    ensures res.Ok? ==> ObjOk(h, res.value) && !IsRefObj(res.value)
    decreases fuel, 0, 0
  {
    if fuel == 0 then Err(RecursionErr)
    else
      var root := RootOf(h, r);
      var o :- Lookup(h, root, GetNsidFromRef(ref), true, fuel - 1, call);
      FollowRefs(h, root, o, fuel - 1, call)
  }

  /** The `while is_nsid_ref(ref)` loop of `_lookup_symbolic_ref`; a cycle of references
      runs out of fuel. */
  function FollowRefs(h: Heap, root: Ref, o: Obj, fuel: nat, call: RootCall): (res: Result<Obj>)
    requires Valid(h) && root in h.nodes && ObjOk(h, o)
    ensures res.Ok? ==> ObjOk(h, res.value) && !IsRefObj(res.value)
    ensures !IsRefObj(o) ==> res == Ok(o)
    decreases fuel, 0, 0
  {
    if !IsRefObj(o) then Ok(o)
    else if fuel == 0 then Err(RecursionErr)
    else
      var o2 :- Lookup(h, root, GetNsidFromRef(o.item.v.s), true, fuel - 1, call);
      FollowRefs(h, root, o2, fuel - 1, call)
  }

  /** One turn of `_lookup_symbolic_ref` before its loop. */
  lemma LookupSymRefStep(h: Heap, r: Ref, ref: string, fuel: nat, call: RootCall)
    requires Valid(h) && r in h.nodes && fuel > 0
    ensures var root := RootOf(h, r);
      var found := Lookup(h, root, GetNsidFromRef(ref), true, fuel - 1, call);
      LookupSymRef(h, r, ref, fuel, call) ==
        if found.Err? then Err(found.error) else FollowRefs(h, root, found.value, fuel - 1, call)
  {
  }

  /** One turn of the `while is_nsid_ref(ref)` loop. */
  lemma FollowRefsStep(h: Heap, root: Ref, o: Obj, fuel: nat, call: RootCall)
    requires Valid(h) && root in h.nodes && ObjOk(h, o) && IsRefObj(o) && fuel > 0
    ensures var found := Lookup(h, root, GetNsidFromRef(o.item.v.s), true, fuel - 1, call);
      FollowRefs(h, root, o, fuel, call) ==
        if found.Err? then Err(found.error) else FollowRefs(h, root, found.value, fuel - 1, call)
  {
  }

  /** Without following references, the walk finds exactly the item `Reach` finds along
      the attributes, and raises NamespaceLookupError when a part is missing or a value
      sits where a node is needed. */
  lemma {:induction false} WalkFindsReach(h: Heap, self: Ref, r: Ref, path: seq<string>, fuel: nat, call: RootCall)
    requires Valid(h) && self in h.nodes && r in h.nodes && |path| >= 1 && Ordinary(path)
    ensures Walk(h, self, ItemObj(NodeItem(r)), path, false, fuel, call) ==
      match Reach(h, r, path)
      case Some(it) => Ok(ItemObj(it))
      case None => Err(NamespaceLookup)
    decreases |path|
  {
    var attrs := h.nodes[r].attrs;
    assert path[0] !in InternalNames;
    if path[0] in attrs && |path| > 1 {
      var rest := path[1..];
      assert Ordinary(rest) by {
        forall i | 0 <= i < |rest|
          ensures rest[i] !in InternalNames
        {
          assert rest[i] == path[i + 1];
        }
      }
      match attrs[path[0]]
      case NodeItem(c) =>
        WalkFindsReach(h, self, c, rest, fuel, call);
      case ValueItem(v) =>
        assert GetattrObj(h, ItemObj(ValueItem(v)), rest[0]).Err?;
    }
  }

  /** `_lookup` of a relative dotted id of ordinary names, not following references,
      resolves it segment by segment: the item at the end of the path, or
      NamespaceLookupError at the first missing segment. */
  lemma LookupRelative(h: Heap, r: Ref, path: seq<string>, fuel: nat, call: RootCall)
    requires Valid(h) && r in h.nodes && |path| >= 1 && DotFree(path) && Ordinary(path)
    requires h.nodes[r].nsroot.Some? ==> path[0] != h.nodes[h.nodes[r].nsroot.value].namespaceId
    ensures Lookup(h, r, Join(path), false, fuel, call) ==
      match Reach(h, r, path)
      case Some(it) => Ok(ItemObj(it))
      case None => Err(NamespaceLookup)
  {
    SplitJoin(path);
    WalkFindsReach(h, r, r, path, fuel, call);
  }

  /** A reference stored under the first segment is resolved at once; the rest of the id
      is not looked at, and an AttributeError from the resolution becomes a
      NamespaceLookupError. */
  lemma WalkStopsAtRef(h: Heap, self: Ref, r: Ref, path: seq<string>, fuel: nat, call: RootCall)
    requires Valid(h) && self in h.nodes && r in h.nodes && |path| >= 1
    requires path[0] in h.nodes[r].attrs && h.nodes[r].attrs[path[0]].ValueItem?
    requires IsNsidRef(h.nodes[r].attrs[path[0]].v)
    ensures var s := LookupSymRef(h, self, h.nodes[r].attrs[path[0]].v.s, fuel, call);
      Walk(h, self, ItemObj(NodeItem(r)), path, true, fuel, call) ==
        if s.Err? && s.error == AttributeErr then Err(NamespaceLookup) else s
  {
  }

  /** A fully qualified id is resolved from the root with its first part dropped, in the
      intended reading of `_lookup`. */
  lemma QualifiedFromRoot(h: Heap, r: Ref, rootId: string, rest: string, follow: bool, fuel: nat)
    requires Valid(h) && r in h.nodes && h.nodes[r].nsroot.Some?
    requires h.nodes[h.nodes[r].nsroot.value].namespaceId == rootId && NoDot(rootId)
    requires !(follow && IsNsidRef(StrV(rootId + "." + rest)))
    ensures Lookup(h, r, rootId + "." + rest, follow, fuel + 1, Intended) ==
      Lookup(h, h.nodes[r].nsroot.value, rest, follow, fuel, Intended)
  {
    SplitDotFreeHead(rootId, rest);
    JoinSplit(rest);
    assert Split(rootId + "." + rest)[1..] == Split(rest);
  }

  /** As written, the same id raises AttributeError unless the root holds an attribute
      called `lookup`. */
  lemma QualifiedAsWrittenFails(h: Heap, r: Ref, rootId: string, rest: string, follow: bool, fuel: nat,
                                 provide: (nat, string, bool) -> Result<Value>)
    requires Valid(h) && r in h.nodes && h.nodes[r].nsroot.Some?
    requires h.nodes[h.nodes[r].nsroot.value].namespaceId == rootId && NoDot(rootId)
    requires "lookup" !in h.nodes[h.nodes[r].nsroot.value].attrs
    requires !(follow && IsNsidRef(StrV(rootId + "." + rest)))
    ensures Lookup(h, r, rootId + "." + rest, follow, fuel, AsWritten(provide)) == Err(AttributeErr)
  {
    SplitDotFreeHead(rootId, rest);
  }

  /** As written, a provider stored as the root's `lookup` answers a qualified id: it is
      asked for the id without its first part, with the caller's `follow_symrefs`. */
  lemma QualifiedAsWrittenProvider(h: Heap, r: Ref, rootId: string, rest: string, follow: bool, fuel: nat,
                                   provide: (nat, string, bool) -> Result<Value>, pid: nat)
    requires Valid(h) && r in h.nodes && h.nodes[r].nsroot.Some?
    requires h.nodes[h.nodes[r].nsroot.value].namespaceId == rootId && NoDot(rootId)
    requires "lookup" in h.nodes[h.nodes[r].nsroot.value].attrs
    requires h.nodes[h.nodes[r].nsroot.value].attrs["lookup"] == ValueItem(ProviderV(pid))
    requires !(follow && IsNsidRef(StrV(rootId + "." + rest)))
    ensures Lookup(h, r, rootId + "." + rest, follow, fuel, AsWritten(provide)) ==
      match provide(pid, rest, follow) case Ok(v) => Ok(ItemObj(ValueItem(v))) case Err(e) => Err(e)
  {
    SplitDotFreeHead(rootId, rest);
    JoinSplit(rest);
    assert Split(rootId + "." + rest)[1..] == Split(rest);
  }

  /** A root `top` holding `a = 1`. */
  const TopHeap := Heap(map[0 := LNode("top", map["a" := ValueItem(IntV(1))], [], Some(0))], 1)

  lemma TopValid()
    ensures Valid(TopHeap)
  {
  }

  /** `top._lookup('top.a')` raises AttributeError as written. */
  lemma QualifiedAsWrittenExample(provide: (nat, string, bool) -> Result<Value>)
    ensures Valid(TopHeap) && Lookup(TopHeap, 0, "top.a", true, 3, AsWritten(provide)) == Err(AttributeErr)
  {
    TopValid();
    assert NoDot("top") && "top" + "." + "a" == "top.a";
    assert !IsNsidRef(StrV("top.a")) by {
      assert |"top.a"| < |NsidRefPrefix|;
    }
    assert Lookup(TopHeap, 0, "top" + "." + "a", true, 3, AsWritten(provide)) == Err(AttributeErr) by {
      QualifiedAsWrittenFails(TopHeap, 0, "top", "a", true, 3, provide);
    }
  }

  /** The intended reading of `top._lookup('top.a')` finds 1. */
  lemma QualifiedIntendedExample()
    ensures Valid(TopHeap) && Lookup(TopHeap, 0, "top.a", true, 3, Intended) == Ok(ItemObj(ValueItem(IntV(1))))
  {
    TopFromRoot();
    TopBareName();
    TopWalk();
  }

  /** The qualified name is looked up from the root, without its first part. */
  lemma TopFromRoot()
    ensures Valid(TopHeap) && Lookup(TopHeap, 0, "top.a", true, 3, Intended) == Lookup(TopHeap, 0, "a", true, 2, Intended)
  {
    TopValid();
    var id := "top" + "." + "a";
    assert NoDot("top") && id == "top.a";
    assert !IsNsidRef(StrV(id)) by {
      assert |"top.a"| < |NsidRefPrefix|;
    }
    assert TopHeap.nodes[0].nsroot == Some(0) && TopHeap.nodes[0].namespaceId == "top";
    QualifiedFromRoot(TopHeap, 0, "top", "a", true, 2);
    assert Lookup(TopHeap, 0, id, true, 3, Intended) == Lookup(TopHeap, 0, "a", true, 2, Intended);
  }

  /** `a` is not the root's name: it is walked from the node. */
  lemma TopBareName()
    ensures Valid(TopHeap) && Lookup(TopHeap, 0, "a", true, 2, Intended) == Walk(TopHeap, 0, ItemObj(NodeItem(0)), ["a"], true, 2, Intended)
  {
    TopValid();
    SplitNoDot("a");
    assert "a" != "top";
    assert !IsNsidRef(StrV("a"));
  }

  /** The walk finds `a`'s value. */
  lemma TopWalk()
    ensures Valid(TopHeap) && Walk(TopHeap, 0, ItemObj(NodeItem(0)), ["a"], true, 2, Intended) == Ok(ItemObj(ValueItem(IntV(1))))
  {
    TopValid();
    var g := GetattrObj(TopHeap, ItemObj(NodeItem(0)), "a");
    assert g == Ok(ItemObj(ValueItem(IntV(1))));
    assert !IsNsidRef(IntV(1));
    assert ["a"][1..] == [];
  }

  /** A root `top` holding `a = 1`: `top._lookup('top.a')` raises AttributeError as
      written, where the intended reading finds 1. */
  lemma QualifiedLookupExample(provide: (nat, string, bool) -> Result<Value>)
    ensures Valid(TopHeap) &&
      Lookup(TopHeap, 0, "top.a", true, 3, AsWritten(provide)) == Err(AttributeErr) &&
      Lookup(TopHeap, 0, "top.a", true, 3, Intended) == Ok(ItemObj(ValueItem(IntV(1))))
  {
    QualifiedAsWrittenExample(provide);
    QualifiedIntendedExample();
  }

  /** An entry of `_all` and `_list_leaves`: `(nsid, item)` with `nsids=True`, the item
      alone otherwise. */
  datatype Entry = Pair(nsid: string, item: Item) | Bare(item: Item)

  function Shape(nsids: bool, nsid: string, item: Item): Entry
  {
    if nsids then Pair(nsid, item) else Bare(item)
  }

  /** `node._all(nsids)`: the iteration record in insertion order, each item paired with
      the node's id and its name joined by a dot. */
  function AllSpec(n: LNode, nsids: bool): (r: seq<Entry>)
    ensures |r| == |n.nsItems|
    ensures forall i | 0 <= i < |r| :: r[i].item == n.nsItems[i].1
  {
    Shaped(n.namespaceId, n.nsItems, nsids)
  }

  /** The entries `items` of the node with id `id`, shaped as `_all` returns them. */
  function Shaped(id: string, items: seq<(string, Item)>, nsids: bool): (r: seq<Entry>)
    ensures |r| == |items|
    ensures forall i | 0 <= i < |r| :: r[i].item == items[i].1
  {
    seq(|items|, i requires 0 <= i < |items| => Shape(nsids, id + "." + items[i].0, items[i].1))
  }

  /** Recording a name that is not recorded yet appends it. */
  lemma {:induction false} SetItemAppends<V>(entries: seq<(string, V)>, k: string, v: V)
    requires forall i | 0 <= i < |entries| :: entries[i].0 != k
    ensures SetItem(entries, k, v) == entries + [(k, v)]
    decreases |entries|
  {
    if entries != [] {
      assert entries[0].0 != k;
      SetItemAppends(entries[1..], k, v);
      assert entries == [entries[0]] + entries[1..];
    }
  }

  lemma AllAppend(n: LNode, name: string, item: Item, nsids: bool)
    ensures AllSpec(n.(nsItems := n.nsItems + [(name, item)]), nsids) ==
      AllSpec(n, nsids) + [Shape(nsids, n.namespaceId + "." + name, item)]
  {
    var m := n.(nsItems := n.nsItems + [(name, item)]);
    assert forall i | 0 <= i < |n.nsItems| :: m.nsItems[i] == n.nsItems[i];
  }

  /** `_add_item` with `iter` on a new name appends it at the end of `_all`. */
  lemma AllAfterAdd(h: Heap, r: Ref, name: string, item: Item, nsids: bool)
    requires Valid(h) && r in h.nodes && ItemOk(h, item) && NoDot(name)
    requires !Exists(h.nodes[r], name) && !HasKey(h.nodes[r].nsItems, name)
    ensures AddItemSpec(h, r, name, item, true, false).Ok?
    ensures AllSpec(AddItemSpec(h, r, name, item, true, false).value.nodes[r], nsids) ==
      AllSpec(h.nodes[r], nsids) + [Shape(nsids, h.nodes[r].namespaceId + "." + name, item)]
  {
    var n := h.nodes[r];
    AddItemSingle(h, r, name, item, true, false);
    SetItemAppends(n.nsItems, name, item);
    assert SetAttr(n, name, item, true).nsItems == n.nsItems + [(name, item)];
    AllAppend(n, name, item, nsids);
  }

  /** `_set_item` leaves `_all` as it was. */
  lemma AllAfterSet(h: Heap, r: Ref, name: string, item: Item, nsids: bool)
    requires Valid(h) && r in h.nodes && ItemOk(h, item) && NoDot(name)
    ensures SetItemSpec(h, r, name, item).Ok?
    ensures AllSpec(SetItemSpec(h, r, name, item).value.nodes[r], nsids) == AllSpec(h.nodes[r], nsids)
  {
    AddItemSingle(h, r, name, item, false, true);
  }

  predicate ItemsOk(h: Heap, items: seq<(string, Item)>)
  {
    forall i | 0 <= i < |items| :: ItemOk(h, items[i].1)
  }

  /** `node._list_leaves(nsids)`: depth first over `_all(nsids=True)`; a node contributes
      its own leaves and any other item is a leaf. */
  function Leaves(h: Heap, r: Ref, nsids: bool, fuel: nat): Result<seq<Entry>>
    requires Valid(h) && r in h.nodes
    decreases fuel, 0, 0
  {
    if fuel == 0 then Err(RecursionErr)
    else
      var n := h.nodes[r];
      assert ItemsOk(h, n.nsItems) by {
        assert NodeOk(h, n);
      }
      LeavesOf(h, n.namespaceId, n.nsItems, nsids, fuel - 1)
  }

  /** The leaves of the entries `items` of the node with id `id`. */
  function LeavesOf(h: Heap, id: string, items: seq<(string, Item)>, nsids: bool, fuel: nat): Result<seq<Entry>>
    requires Valid(h) && ItemsOk(h, items)
    decreases fuel, 1, |items|
  {
    if items == [] then Ok([])
    else
      var head :- match items[0].1
        case NodeItem(c) => Leaves(h, c, nsids, fuel)
        case ValueItem(_) => Ok([Shape(nsids, id + "." + items[0].0, items[0].1)]);
      var tail :- LeavesOf(h, id, items[1..], nsids, fuel);
      Ok(head + tail)
  }

  /** A child node with nothing recorded contributes no leaf. */
  lemma EmptyChildNoLeaves(h: Heap, id: string, name: string, c: Ref, items: seq<(string, Item)>, nsids: bool, fuel: nat)
    requires Valid(h) && c in h.nodes && h.nodes[c].nsItems == [] && ItemsOk(h, items)
    ensures ItemsOk(h, [(name, NodeItem(c))] + items)
    ensures LeavesOf(h, id, [(name, NodeItem(c))] + items, nsids, fuel + 1) == LeavesOf(h, id, items, nsids, fuel + 1)
  {
    var all := [(name, NodeItem(c))] + items;
    assert all[1..] == items;
    assert Leaves(h, c, nsids, fuel + 1) == Ok([]);
    var tail := LeavesOf(h, id, items, nsids, fuel + 1);
    if tail.Ok? {
      assert [] + tail.value == tail.value;
    }
  }

  /** Entries that hold no node are their own leaves, in order, so a node without child
      nodes has `_all` as its leaves. */
  lemma {:induction false} FlatLeaves(h: Heap, id: string, items: seq<(string, Item)>, nsids: bool, fuel: nat)
    requires Valid(h) && ItemsOk(h, items)
    requires forall i | 0 <= i < |items| :: items[i].1.ValueItem?
    ensures LeavesOf(h, id, items, nsids, fuel) == Ok(Shaped(id, items, nsids))
    decreases |items|
  {
    if items != [] {
      FlatLeaves(h, id, items[1..], nsids, fuel);
      assert Shaped(id, items, nsids) == [Shape(nsids, id + "." + items[0].0, items[0].1)] + Shaped(id, items[1..], nsids);
    } else {
      assert Shaped(id, items, nsids) == [];
    }
  }

  lemma FlatNodeLeaves(h: Heap, r: Ref, nsids: bool, fuel: nat)
    requires Valid(h) && r in h.nodes
    requires forall i | 0 <= i < |h.nodes[r].nsItems| :: h.nodes[r].nsItems[i].1.ValueItem?
    ensures Leaves(h, r, nsids, fuel + 1) == Ok(AllSpec(h.nodes[r], nsids))
  {
    var n := h.nodes[r];
    assert NodeOk(h, n);
    FlatLeaves(h, n.namespaceId, n.nsItems, nsids, fuel);
  }

  /** Every leaf is an item that is not a node. */
  lemma {:induction false} LeavesAreValues(h: Heap, r: Ref, nsids: bool, fuel: nat)
    requires Valid(h) && r in h.nodes
    ensures var l := Leaves(h, r, nsids, fuel);
      l.Ok? ==> forall i | 0 <= i < |l.value| :: l.value[i].item.ValueItem?
    decreases fuel, 0, 0
  {
    if fuel > 0 {
      var n := h.nodes[r];
      assert NodeOk(h, n);
      LeavesOfAreValues(h, n.namespaceId, n.nsItems, nsids, fuel - 1);
    }
  }

  lemma {:induction false} LeavesOfAreValues(h: Heap, id: string, items: seq<(string, Item)>, nsids: bool, fuel: nat)
    requires Valid(h) && ItemsOk(h, items)
    ensures var l := LeavesOf(h, id, items, nsids, fuel);
      l.Ok? ==> forall i | 0 <= i < |l.value| :: l.value[i].item.ValueItem?
    decreases fuel, 1, |items|
  {
    if items != [] {
      var hd := if items[0].1.NodeItem? then Leaves(h, items[0].1.node, nsids, fuel)
        else Ok([Shape(nsids, id + "." + items[0].0, items[0].1)]);
      var tl := LeavesOf(h, id, items[1..], nsids, fuel);
      if items[0].1.NodeItem? {
        LeavesAreValues(h, items[0].1.node, nsids, fuel);
      }
      LeavesOfAreValues(h, id, items[1..], nsids, fuel);
      LeavesOfUnfold(h, id, items, nsids, fuel);
      if hd.Ok? && tl.Ok? {
        AllValuesConcat(hd.value, tl.value);
      }
    }
  }

  /** One entry of `LeavesOf`: the head's leaves followed by the tail's. */
  lemma LeavesOfUnfold(h: Heap, id: string, items: seq<(string, Item)>, nsids: bool, fuel: nat)
    requires Valid(h) && ItemsOk(h, items) && items != []
    ensures var hd := if items[0].1.NodeItem? then Leaves(h, items[0].1.node, nsids, fuel)
        else Ok([Shape(nsids, id + "." + items[0].0, items[0].1)]);
      var tl := LeavesOf(h, id, items[1..], nsids, fuel);
      LeavesOf(h, id, items, nsids, fuel) ==
        if hd.Err? then Err(hd.error) else if tl.Err? then Err(tl.error) else Ok(hd.value + tl.value)
  {
  }

  /** Leaves that are all values stay so when concatenated. */
  lemma AllValuesConcat(a: seq<Entry>, b: seq<Entry>)
    requires forall i | 0 <= i < |a| :: a[i].item.ValueItem?
    requires forall i | 0 <= i < |b| :: b[i].item.ValueItem?
    ensures forall i | 0 <= i < |a + b| :: (a + b)[i].item.ValueItem?
  {
    forall i | 0 <= i < |a + b|
      ensures (a + b)[i].item.ValueItem?
    {
      if i >= |a| {
        assert (a + b)[i] == b[i - |a|];
      }
    }
  }

  /** The index at which the loop of `_add_ns` stops comparing the node's id parts `a`
      with this node's id parts `b`, or None when every part of `a` matched. */
  function FirstMismatch(a: seq<string>, b: seq<string>): (k: Option<nat>)
    ensures k.Some? ==>
      (k.value < |a| && k.value <= |b| && (k.value == |b| || a[k.value] != b[k.value]) && a[..k.value] == b[..k.value])
    ensures k.None? <==> |a| <= |b| && a == b[..|a|]
  {
    FirstMismatchFrom(a, b, 0)
  }

  function FirstMismatchFrom(a: seq<string>, b: seq<string>, i: nat): (k: Option<nat>)
    requires i <= |a| && i <= |b| && a[..i] == b[..i]
    ensures k.Some? ==>
      (i <= k.value < |a| && k.value <= |b| && (k.value == |b| || a[k.value] != b[k.value]) && a[..k.value] == b[..k.value])
    ensures k.None? <==> |a| <= |b| && a == b[..|a|]
    decreases |a| - i
  {
    if i == |a| then
      assert a == a[..i];
      None
    else if i == |b| || a[i] != b[i] then
      assert |a| <= |b| ==> b[..|a|][i] == b[i];
      Some(i)
    else
      assert a[..i + 1] == b[..i + 1] by {
        assert a[..i + 1] == a[..i] + [a[i]];
        assert b[..i + 1] == b[..i] + [b[i]];
      }
      FirstMismatchFrom(a, b, i + 1)
  }

  /** `node._add_ns(ns_node, iter, overwrite)`: `ns_node` is added under the part of its
      id that follows the longest common prefix with this node's id. A value has no
      `_nsid` (AttributeError); a node whose id parts all match is a ValueError. */
  function AddNsSpec(h: Heap, r: Ref, ns: Item, iter: bool, overwrite: bool): (res: Result<Heap>)
    requires Valid(h) && r in h.nodes && ItemOk(h, ns)
    ensures res.Ok? ==> Valid(res.value) && Extends(h, res.value)
  {
    match ns
    case ValueItem(_) => Err(AttributeErr)
    case NodeItem(c) =>
      var p := Split(h.nodes[c].namespaceId);
      match FirstMismatch(p, Split(h.nodes[r].namespaceId))
      case None => Err(ValueErr)
      case Some(k) => AddItemSpec(h, r, Join(p[k..]), ns, iter, overwrite)
  }

  /** `_add_ns` refuses exactly the nodes whose id parts are a prefix of this node's:
      itself and its ancestors by id. */
  lemma AddNsRefusesAncestors(h: Heap, r: Ref, c: Ref, iter: bool, overwrite: bool)
    requires Valid(h) && r in h.nodes && c in h.nodes
    ensures var p := Split(h.nodes[c].namespaceId);
      var q := Split(h.nodes[r].namespaceId);
      AddNsSpec(h, r, NodeItem(c), iter, overwrite) == Err(ValueErr) <==> |p| <= |q| && p == q[..|p|]
  {
  }

  /** A node whose id is this node's id followed by one more part is added under that
      part, as `_add_item` would add it. */
  lemma AddNsChild(h: Heap, r: Ref, c: Ref, name: string, iter: bool, overwrite: bool)
    requires Valid(h) && r in h.nodes && c in h.nodes && NoDot(name)
    requires h.nodes[c].namespaceId == h.nodes[r].namespaceId + "." + name
    ensures AddNsSpec(h, r, NodeItem(c), iter, overwrite) == AddItemSpec(h, r, name, NodeItem(c), iter, overwrite)
  {
    var id := h.nodes[r].namespaceId;
    JoinSplit(id);
    SplitPartsDotFree(id);
    JoinAppend(Split(id), name);
    SplitJoin(Split(id) + [name]);
    var p := Split(id + "." + name);
    assert p == Split(id) + [name];
    var k := FirstMismatch(p, Split(id));
    assert k == Some(|Split(id)|);
    assert p[|Split(id)|..] == [name];
    SplitNoDot(name);
  }
}
