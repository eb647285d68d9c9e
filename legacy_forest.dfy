/** The legacy `NamespaceNode` methods as they run: every node lives in one heap that the
    methods update in place, and each method is proved to do what the functions of
    `LegacyNodes` and `LegacyLookups` say. */
module LegacyForests {
  import opened Errors
  import opened Text
  import opened PyValues
  import opened Nsids
  import opened Util
  import opened LegacyNodes
  import opened LegacyLookups

  function PrependLeaves(prefix: seq<Entry>, r: Result<seq<Entry>>): Result<seq<Entry>>
  {
    if r.Ok? then Ok(prefix + r.value) else r
  }

  lemma PrependLeavesTwice(a: seq<Entry>, b: seq<Entry>, r: Result<seq<Entry>>)
    ensures PrependLeaves(a, PrependLeaves(b, r)) == PrependLeaves(a + b, r)
  {
    if r.Ok? {
      assert a + (b + r.value) == (a + b) + r.value;
    }
  }

  /** One entry of `_list_leaves`' loop. */
  lemma LeavesOfCons(h: Heap, id: string, items: seq<(string, Item)>, nsids: bool, fuel: nat)
    requires Valid(h) && ItemsOk(h, items) && items != []
    ensures var head := if items[0].1.NodeItem? then Leaves(h, items[0].1.node, nsids, fuel)
        else Ok([Shape(nsids, id + "." + items[0].0, items[0].1)]);
      LeavesOf(h, id, items, nsids, fuel) ==
        if head.Err? then head else PrependLeaves(head.value, LeavesOf(h, id, items[1..], nsids, fuel))
  {
  }

  class Forest {
    var heap: Heap

    constructor()
      ensures heap == Heap(map[], 0) && Valid(heap)
    {
      heap := Heap(map[], 0);
    }

    /** `NamespaceNode(namespace_id, nsroot=nsroot, is_nsroot=is_nsroot, **kwargs)`. */
    method NewNamespaceNode(namespaceId: Option<string>, nsroot: Option<Ref>, isNsroot: bool, kwargs: map<string, Value>)
      returns (r: Ref)
      requires Valid(heap) && (nsroot.Some? ==> nsroot.value in heap.nodes)
      modifies this
      ensures (heap, r) == NewNode(old(heap), namespaceId, nsroot, isNsroot, kwargs)
    {
      r := heap.next;
      var id := if namespaceId.None? then Anonymous else Sanitize(namespaceId.value);
      var root := if namespaceId == Some(Root) || isNsroot then Some(r) else nsroot;
      heap := Heap(heap.nodes[r := LNode(id, Attrs(kwargs), [], root)], r + 1);
    }

    /** The single-name case of `_add_item`: set the attribute (and record it with
        `iter`) when it is absent or `overwrite` is given. */
    method AddItemHereM(r: Ref, name: string, item: Item, iter: bool, overwrite: bool)
      requires Valid(heap) && r in heap.nodes && ItemOk(heap, item)
      modifies this
      ensures heap == AddItemHere(old(heap), r, name, item, iter, overwrite)
    {
      var n := heap.nodes[r];
      var present := name in n.attrs || name in InternalNames;
      if overwrite || !present {
        var m := n.(attrs := n.attrs[name := item]);
        if iter {
          m := m.(nsItems := PyValues.SetItem(m.nsItems, name, item));
        }
        assert m == SetAttr(n, name, item, iter);
        heap := Heap(heap.nodes[r := m], heap.next);
      }
    }

    /** `_add_child(name)` as `_add_item` calls it for a missing, ordinary name. */
    method AttachFreshChild(r: Ref, name: string) returns (c: Ref)
      requires Valid(heap) && r in heap.nodes && name !in heap.nodes[r].attrs && name !in InternalNames
      modifies this
      ensures c == old(heap).next && heap == FreshChild(old(heap), r, name)
    {
      var n := heap.nodes[r];
      c := NewNamespaceNode(Some(ChildId(n, r, name)), n.nsroot, false, map[]);
      AddItemHereM(r, name, NodeItem(c), true, false);
    }

    /** The node `_add_item` hands the rest of a dotted name to: the attribute named by the
        first part, created by `_add_child` when missing. */
    method Descend(r: Ref, path: seq<string>, item: Item, iter: bool, overwrite: bool) returns (res: Result<Ref>)
      requires Valid(heap) && r in heap.nodes && ItemOk(heap, item) && |path| >= 2
      modifies this
      ensures res.Err? ==> (heap == old(heap) && res == Err(AttributeErr) &&
        AddItemPath(old(heap), r, path, item, iter, overwrite) == Err(AttributeErr))
      ensures res.Ok? ==> (Valid(heap) && Extends(old(heap), heap) && res.value in heap.nodes && ItemOk(heap, item) &&
        AddItemPath(old(heap), r, path, item, iter, overwrite) == AddItemPath(heap, res.value, path[1..], item, iter, overwrite))
    {
      var n := heap.nodes[r];
      if path[0] in n.attrs {
        if n.attrs[path[0]].ValueItem? {
          return Err(AttributeErr);
        }
        AddItemDescends(heap, r, path, n.attrs[path[0]].node, item, iter, overwrite);
        return Ok(n.attrs[path[0]].node);
      } else if path[0] in InternalNames {
        var o := InternalAttr(heap, r, path[0]);
        if !(o.ItemObj? && o.item.NodeItem?) {
          return Err(AttributeErr);
        }
        return Ok(o.item.node);
      } else {
        FreshStep(heap, r, path, item, iter, overwrite);
        var c := AttachFreshChild(r, path[0]);
        return Ok(c);
      }
    }

    /** `node._add_item(Join(path), item, iter, overwrite)`. When it raises, the children
        it created before the error stay in place. */
    method AddItemAt(r: Ref, path: seq<string>, item: Item, iter: bool, overwrite: bool) returns (res: Result<()>)
      requires Valid(heap) && r in heap.nodes && ItemOk(heap, item) && |path| >= 1
      modifies this
      ensures var spec := AddItemPath(old(heap), r, path, item, iter, overwrite);
        (res.Ok? <==> spec.Ok?) && (spec.Ok? ==> heap == spec.value) &&
        (spec.Err? ==> res == Err(AttributeErr) && Valid(heap) && Extends(old(heap), heap))
      decreases |path|
    {
      if |path| == 1 {
        AddItemHereM(r, path[0], item, iter, overwrite);
        return Ok(());
      }
      var next := Descend(r, path, item, iter, overwrite);
      if next.Err? {
        return Err(AttributeErr);
      }
      ghost var h1 := heap;
      res := AddItemAt(next.value, path[1..], item, iter, overwrite);
      if res.Err? {
        ExtendsTrans(old(heap), h1, heap);
      }
    }

    /** `node._add_item(namespace_id, item, iter, overwrite)`. */
    method AddItem(r: Ref, namespaceId: string, item: Item, iter: bool, overwrite: bool) returns (res: Result<()>)
      requires Valid(heap) && r in heap.nodes && ItemOk(heap, item)
      modifies this
      ensures var spec := AddItemSpec(old(heap), r, namespaceId, item, iter, overwrite);
        (res.Ok? <==> spec.Ok?) && (spec.Ok? ==> heap == spec.value) &&
        (spec.Err? ==> res == Err(AttributeErr) && Valid(heap) && Extends(old(heap), heap))
    {
      res := AddItemAt(r, Split(namespaceId), item, iter, overwrite);
    }

    /** `node._set_item(namespace_id, item)`. */
    method SetItem(r: Ref, namespaceId: string, item: Item) returns (res: Result<()>)
      requires Valid(heap) && r in heap.nodes && ItemOk(heap, item)
      modifies this
      ensures var spec := SetItemSpec(old(heap), r, namespaceId, item);
        (res.Ok? <==> spec.Ok?) && (spec.Ok? ==> heap == spec.value) &&
        (spec.Err? ==> res == Err(AttributeErr) && Valid(heap) && Extends(old(heap), heap))
    {
      res := AddItem(r, namespaceId, item, false, true);
    }

    /** `node._add_child(name, overwrite)`: the new node, attached unless the name exists
        and `overwrite` is false. */
    method AddChild(r: Ref, name: string, overwrite: bool) returns (res: Result<Ref>)
      requires Valid(heap) && r in heap.nodes
      modifies this
      ensures var spec := AddChildSpec(old(heap), r, name, overwrite);
        (res.Ok? <==> spec.Ok?) && (spec.Ok? ==> (heap, res.value) == spec.value) &&
        (spec.Err? ==> res == Err(AttributeErr) && Valid(heap) && Extends(old(heap), heap))
    {
      var n := heap.nodes[r];
      var c := NewNamespaceNode(Some(ChildId(n, r, name)), n.nsroot, false, map[]);
      var added := AddItem(r, name, NodeItem(c), true, overwrite);
      if added.Err? {
        return Err(added.error);
      }
      return Ok(c);
    }

    /** `node._lookup(namespace_id, follow_symrefs)`; `call` chooses the reading of the
        fully qualified case. */
    method Lookup(r: Ref, id: string, follow: bool, fuel: nat, call: RootCall) returns (res: Result<Obj>)
      requires Valid(heap) && r in heap.nodes
      ensures res == LegacyLookups.Lookup(heap, r, id, follow, fuel, call)
      decreases fuel, 2
    {
      if follow && IsNsidRef(StrV(id)) {
        res := LookupSymbolicRef(r, id, fuel, call);
        return;
      }
      var path := Split(id);
      var n := heap.nodes[r];
      if n.nsroot.Some? && path[0] == heap.nodes[n.nsroot.value].namespaceId {
        if call.AsWritten? {
          return RootLookupMethod(heap, n.nsroot.value, call.provide, Join(path[1..]), follow);
        }
        if fuel == 0 {
          return Err(RecursionErr);
        }
        res := Lookup(n.nsroot.value, Join(path[1..]), follow, fuel - 1, call);
        return;
      }
      res := WalkPath(r, path, follow, fuel, call);
    }

    /** The loop of `_lookup` over the segments of the id, starting at node `r`. */
    method WalkPath(r: Ref, path: seq<string>, follow: bool, fuel: nat, call: RootCall) returns (res: Result<Obj>)
      requires Valid(heap) && r in heap.nodes
      ensures res == Walk(heap, r, ItemObj(NodeItem(r)), path, follow, fuel, call)
      decreases fuel, 1
    {
      var obj := ItemObj(NodeItem(r));
      var i := 0;
      ghost var goal := Walk(heap, r, obj, path, follow, fuel, call);
      while i < |path|
        invariant 0 <= i <= |path| && ObjOk(heap, obj)
        invariant Walk(heap, r, obj, path[i..], follow, fuel, call) == goal
      {
        var g := GetattrObj(heap, obj, path[i]);
        if g.Err? {
          return Err(NamespaceLookup);
        }
        if follow && IsRefObj(g.value) {
          res := LookupSymbolicRef(r, g.value.item.v.s, fuel, call);
          if res.Err? && res.error == AttributeErr {
            res := Err(NamespaceLookup);
          }
          return;
        }
        assert path[i..][1..] == path[i + 1..];
        obj := g.value;
        i := i + 1;
      }
      return Ok(obj);
    }

    /** `node._lookup_symbolic_ref(ref)`: look the id up from the root, then keep looking
        up while the answer is itself a reference. */
    method LookupSymbolicRef(r: Ref, ref: string, fuel: nat, call: RootCall) returns (res: Result<Obj>)
      requires Valid(heap) && r in heap.nodes
      ensures res == LookupSymRef(heap, r, ref, fuel, call)
      decreases fuel, 0
    {
      if fuel == 0 {
        return Err(RecursionErr);
      }
      var root := if heap.nodes[r].nsroot.None? then r else heap.nodes[r].nsroot.value;
      assert root == RootOf(heap, r);
      var found := Lookup(root, GetNsidFromRef(ref), true, fuel - 1, call);
      LookupSymRefStep(heap, r, ref, fuel, call);
      if found.Err? {
        return found;
      }
      res := FollowSymbolicRefs(root, found.value, fuel - 1, call);
    }

    /** The `while is_nsid_ref(ref)` loop of `_lookup_symbolic_ref`: look the reference up
        again from the root until the answer is not a reference. */
    method FollowSymbolicRefs(root: Ref, start: Obj, fuel: nat, call: RootCall) returns (res: Result<Obj>)
      requires Valid(heap) && root in heap.nodes && ObjOk(heap, start)
      ensures res == FollowRefs(heap, root, start, fuel, call)
      decreases fuel, 0
    {
      var obj := start;
      var f: nat := fuel;
      while IsRefObj(obj)
        invariant f <= fuel && ObjOk(heap, obj)
        invariant FollowRefs(heap, root, obj, f, call) == FollowRefs(heap, root, start, fuel, call)
        decreases f
      {
        if f == 0 {
          return Err(RecursionErr);
        }
        var found := Lookup(root, GetNsidFromRef(obj.item.v.s), true, f - 1, call);
        FollowRefsStep(heap, root, obj, f, call);
        if found.Err? {
          return found;
        }
        obj := found.value;
        f := f - 1;
      }
      return Ok(obj);
    }

    /** `node._all(nsids)`. */
    method All(r: Ref, nsids: bool) returns (all: seq<Entry>)
      requires r in heap.nodes
      ensures all == AllSpec(heap.nodes[r], nsids)
    {
      var n := heap.nodes[r];
      all := [];
      for i := 0 to |n.nsItems|
        invariant all == AllSpec(n, nsids)[..i]
      {
        var (name, value) := n.nsItems[i];
        all := all + [if nsids then Pair(n.namespaceId + "." + name, value) else Bare(value)];
      }
    }

    /** `node._list_leaves(nsids)`: depth first over `_all(nsids=True)`. */
    method ListLeaves(r: Ref, nsids: bool, fuel: nat) returns (res: Result<seq<Entry>>)
      requires Valid(heap) && r in heap.nodes
      ensures res == Leaves(heap, r, nsids, fuel)
      decreases fuel
    {
      if fuel == 0 {
        return Err(RecursionErr);
      }
      var n := heap.nodes[r];
      assert NodeOk(heap, n);
      var all := All(r, true);
      var leaves: seq<Entry> := [];
      assert n.nsItems[0..] == n.nsItems;
      assert PrependLeaves([], LeavesOf(heap, n.namespaceId, n.nsItems, nsids, fuel - 1)) ==
        LeavesOf(heap, n.namespaceId, n.nsItems, nsids, fuel - 1) by {
        var l := LeavesOf(heap, n.namespaceId, n.nsItems, nsids, fuel - 1);
        if l.Ok? {
          assert [] + l.value == l.value;
        }
      }
      for i := 0 to |all|
        invariant LeavesOf(heap, n.namespaceId, n.nsItems, nsids, fuel - 1) ==
          PrependLeaves(leaves, LeavesOf(heap, n.namespaceId, n.nsItems[i..], nsids, fuel - 1))
      {
        var entry := all[i];
        LeavesOfCons(heap, n.namespaceId, n.nsItems[i..], nsids, fuel - 1);
        assert entry == Pair(n.namespaceId + "." + n.nsItems[i].0, n.nsItems[i].1);
        assert n.nsItems[i..][1..] == n.nsItems[i + 1..];
        var next: seq<Entry>;
        if entry.item.NodeItem? {
          var sub := ListLeaves(entry.item.node, nsids, fuel - 1);
          if sub.Err? {
            return sub;
          }
          next := sub.value;
        } else {
          next := [if nsids then entry else Bare(entry.item)];
        }
        assert n.nsItems[i..][0] == n.nsItems[i];
        assert LeavesOf(heap, n.namespaceId, n.nsItems[i..], nsids, fuel - 1) ==
          PrependLeaves(next, LeavesOf(heap, n.namespaceId, n.nsItems[i + 1..], nsids, fuel - 1));
        PrependLeavesTwice(leaves, next, LeavesOf(heap, n.namespaceId, n.nsItems[i + 1..], nsids, fuel - 1));
        leaves := leaves + next;
      }
      assert n.nsItems[|all|..] == [];
      assert leaves + [] == leaves;
      return Ok(leaves);
    }

    /** `node._add_ns(ns_node, iter, overwrite)`: compare the id parts of `ns` with this
        node's from the front, and add `ns` under the parts from the first difference on. */
    method AddNs(r: Ref, ns: Item, iter: bool, overwrite: bool) returns (res: Result<()>)
      requires Valid(heap) && r in heap.nodes && ItemOk(heap, ns)
      modifies this
      ensures var spec := AddNsSpec(old(heap), r, ns, iter, overwrite);
        (res.Ok? <==> spec.Ok?) && (spec.Ok? ==> heap == spec.value) &&
        (spec.Err? ==> res == Err(spec.error) && Valid(heap) && Extends(old(heap), heap))
    {
      if ns.ValueItem? {
        return Err(AttributeErr);
      }
      var p := Split(heap.nodes[ns.node].namespaceId);
      var q := Split(heap.nodes[r].namespaceId);
      var k := 0;
      while k < |p| && k < |q| && p[k] == q[k]
        invariant 0 <= k <= |p| && k <= |q| && p[..k] == q[..k]
        invariant FirstMismatch(p, q) == FirstMismatchFrom(p, q, k)
      {
        assert p[..k + 1] == p[..k] + [p[k]] && q[..k + 1] == q[..k] + [q[k]];
        k := k + 1;
      }
      if k == |p| {
        return Err(ValueErr);
      }
      res := AddItem(r, Join(p[k..]), ns, iter, overwrite);
    }
  }

  /** Adding a dotted name below a fresh node and looking it up again from that node
      gives back the item; the nodes created on the way carry the child ids. */
  lemma AddThenLookup(h: Heap, r: Ref, path: seq<string>, item: Item, fuel: nat, call: RootCall)
    requires Valid(h) && r in h.nodes && ItemOk(h, item) && |path| >= 2 && DotFree(path) && Ordinary(path)
    requires path[0] !in h.nodes[r].attrs
    requires h.nodes[r].nsroot.Some? ==> path[0] != h.nodes[h.nodes[r].nsroot.value].namespaceId
    ensures AddItemSpec(h, r, Join(path), item, true, false).Ok?
    ensures LegacyLookups.Lookup(AddItemSpec(h, r, Join(path), item, true, false).value, r, Join(path), false, fuel, call) ==
      Ok(ItemObj(item))
  {
    SplitJoin(path);
    AddItemCreatesPath(h, r, path, item, true, false);
    var h2 := AddItemPath(h, r, path, item, true, false).value;
    LookupRelative(h2, r, path, fuel, call);
  }
}
