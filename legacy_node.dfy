/** The legacy `NamespaceNode` (thewired/namespace/namespacenode/namespacenode.py): a
    `SimpleNamespace` with an id, a root for symbolic references, and `_ns_items`, the
    ordered record of the items added for iteration. Children are created on demand when an
    item is added under a dotted name.

    The nodes live in a heap of records indexed by `Ref`; a node's attributes that hold
    other nodes hold their references. */
module LegacyNodes {
  import opened Errors
  import opened Text
  import opened PyValues
  import opened Nsids
  import opened Util

  type Ref = nat

  /** An attribute value: another node, or any other Python value. */
  datatype Item = NodeItem(node: Ref) | ValueItem(v: Value)

  /** A node's state: `_namespace_id`, its instance attributes (the `SimpleNamespace`
      part), `_ns_items` in insertion order, and `_nsroot`. */
  datatype LNode = LNode(namespaceId: string, attrs: map<string, Item>, nsItems: seq<(string, Item)>, nsroot: Option<Ref>)

  datatype Heap = Heap(nodes: map<Ref, LNode>, next: Ref)

  const Anonymous: string := "_anonymous_"

  /** Names that `getattr` finds on every node without them being in its attribute map:
      the fields `__init__` sets, the properties and methods of the class, and the members
      every object has. */
  const InternalNames: set<string> := {
    "_ghost", "_namespace_id", "_name", "_provider_map", "_ns_items", "_new_node", "_nsroot", "_nsid",
    "_NamespaceNode__provider_map", "_NamespaceNode__nsroot", "_nsid_ref_prefix",
    "_sanitize_nsid", "_add_child", "_name_to_path", "_lookup", "_lookup_symbolic_ref", "_add_ns",
    "_set_item", "_add_item", "_all", "_shallowiterator", "_list_leaves",
    "__class__", "__dict__", "__doc__", "__module__", "__init__", "__new__", "__repr__", "__str__",
    "__eq__", "__ne__", "__lt__", "__le__", "__gt__", "__ge__", "__hash__", "__getattr__",
    "__getattribute__", "__setattr__", "__delattr__", "__call__", "__dir__", "__iter__",
    "__format__", "__reduce__", "__reduce_ex__", "__sizeof__", "__subclasshook__",
    "__init_subclass__", "__weakref__"}

  predicate ItemOk(h: Heap, it: Item)
  {
    it.NodeItem? ==> it.node in h.nodes
  }

  predicate NodeOk(h: Heap, n: LNode)
  {
    (forall k | k in n.attrs :: ItemOk(h, n.attrs[k])) &&
    (forall i | 0 <= i < |n.nsItems| :: ItemOk(h, n.nsItems[i].1)) &&
    (n.nsroot.Some? ==> n.nsroot.value in h.nodes)
  }

  /** Every reference held anywhere names a node of the heap. */
  predicate Valid(h: Heap)
  {
    forall r | r in h.nodes :: r < h.next && NodeOk(h, h.nodes[r])
  }

  /** `h2` has every node of `h` with the same id and root; nodes are never removed. */
  predicate Extends(h: Heap, h2: Heap)
  {
    h.next <= h2.next &&
    forall r | r in h.nodes :: r in h2.nodes &&
      h2.nodes[r].namespaceId == h.nodes[r].namespaceId && h2.nodes[r].nsroot == h.nodes[r].nsroot
  }

  lemma ExtendsTrans(h1: Heap, h2: Heap, h3: Heap)
    requires Extends(h1, h2) && Extends(h2, h3)
    ensures Extends(h1, h3)
  {
  }

  /** The id `__init__` stores: `_anonymous_` for None, otherwise the id with runs of
      separators collapsed (`_sanitize_nsid`). */
  function InitialId(namespaceId: Option<string>): (id: string)
  {
    if namespaceId.None? then Anonymous else Sanitize(namespaceId.value)
  }

  /** An explicit id is stored without `..`, and storing it again changes nothing. */
  lemma InitialIdClean(namespaceId: string)
    ensures NoDoubleDot(InitialId(Some(namespaceId)))
    ensures InitialId(Some(InitialId(Some(namespaceId)))) == InitialId(Some(namespaceId))
  {
    SanitizeNoDoubleDot(namespaceId);
    SanitizeIdempotent(namespaceId);
  }

  /** `_name`: the last dot part of the id (empty for the root `.`). */
  function Name(namespaceId: string): (name: string)
    ensures NoDot(name)
  {
    var parts := Split(namespaceId);
    SplitPartsDotFree(namespaceId);
    parts[|parts| - 1]
  }

  /** The id is its `_name` appended to the parts before it. */
  lemma NameIsLastPart(parent: string, name: string)
    requires NoDot(name)
    ensures Name(parent + "." + name) == name
  {
    JoinSplit(parent);
    SplitPartsDotFree(parent);
    JoinAppend(Split(parent), name);
    SplitJoin(Split(parent) + [name]);
    assert Split(parent + "." + name) == Split(parent) + [name];
  }

  /** The keyword arguments, set as attributes. */
  function Attrs(kwargs: map<string, Value>): (m: map<string, Item>)
    ensures m.Keys == kwargs.Keys
  {
    map k | k in kwargs :: ValueItem(kwargs[k])
  }

  /** `NamespaceNode(namespace_id, nsroot=nsroot, is_nsroot=is_nsroot, **kwargs)`: a new
      record whose root is itself when the id given is `.` or `is_nsroot` is set, and
      `nsroot` otherwise. */
  function NewNode(h: Heap, namespaceId: Option<string>, nsroot: Option<Ref>, isNsroot: bool,
                   kwargs: map<string, Value>): (res: (Heap, Ref))
    requires Valid(h) && (nsroot.Some? ==> nsroot.value in h.nodes)
    ensures var (h2, r) := res;
      Valid(h2) && Extends(h, h2) && r !in h.nodes && r in h2.nodes && h2.nodes.Keys == h.nodes.Keys + {r} &&
      h2.nodes[r] == LNode(InitialId(namespaceId), Attrs(kwargs), [],
                           if namespaceId == Some(Root) || isNsroot then Some(r) else nsroot)
  {
    var r := h.next;
    var root := if namespaceId == Some(Root) || isNsroot then Some(r) else nsroot;
    var n := LNode(InitialId(namespaceId), Attrs(kwargs), [], root);
    var h2 := Heap(h.nodes[r := n], r + 1);
    assert forall q | q in h.nodes :: NodeOk(h2, h.nodes[q]) by {
      forall q | q in h.nodes
        ensures NodeOk(h2, h.nodes[q])
      {
        NodeOkGrows(h, h2, h.nodes[q]);
      }
    }
    (h2, r)
  }

  /** The names under which a node answers with its root. */
  const NsrootNames: set<string> := {"_nsroot", "_NamespaceNode__nsroot"}

  /** What `getattr` can return: an attribute's item, or a member every node has that is
      neither its id, its name, its root nor another node (a method, the provider map, the
      `_ns_items` dict, ...). */
  datatype Obj = ItemObj(item: Item) | InternalObj(owner: Ref, name: string)

  predicate ObjOk(h: Heap, o: Obj)
  {
    match o
    case ItemObj(it) => ItemOk(h, it)
    case InternalObj(q, _) => q in h.nodes
  }

  /** `getattr(node, name)` for a name the class provides: the id and the name are strings,
      the root is the root node or None, `_ghost` is None (no provider ever runs, the
      provider map being empty). */
  function InternalAttr(h: Heap, q: Ref, name: string): (o: Obj)
    requires Valid(h) && q in h.nodes
    ensures ObjOk(h, o)
  {
    var n := h.nodes[q];
    if name == "_namespace_id" || name == "_nsid" then ItemObj(ValueItem(StrV(n.namespaceId)))
    else if name == "_name" then ItemObj(ValueItem(StrV(Name(n.namespaceId))))
    else if name == "_nsid_ref_prefix" then ItemObj(ValueItem(StrV(NsidRefPrefix)))
    else if name == "_ghost" then ItemObj(ValueItem(NoneV))
    else if name in NsrootNames then
      (match n.nsroot
       case None => ItemObj(ValueItem(NoneV))
       case Some(t) => ItemObj(NodeItem(t)))
    else InternalObj(q, name)
  }

  /** `getattr(obj, name)`: a node answers from its attributes, then from the members of
      its class; anything else raises AttributeError (the empty provider map is falsy). */
  function GetattrObj(h: Heap, o: Obj, name: string): (r: Result<Obj>)
    requires Valid(h) && ObjOk(h, o)
    ensures r.Ok? ==> ObjOk(h, r.value)
    ensures r.Err? ==> r.error == AttributeErr
    ensures o.ItemObj? && o.item.NodeItem? && name in h.nodes[o.item.node].attrs ==>
      r == Ok(ItemObj(h.nodes[o.item.node].attrs[name]))
  {
    match o
    case ItemObj(NodeItem(q)) =>
      var n := h.nodes[q];
      if name in n.attrs then Ok(ItemObj(n.attrs[name]))
      else if name in InternalNames then Ok(InternalAttr(h, q, name))
      else Err(AttributeErr)
    case _ => Err(AttributeErr)
  }

  /** `getattr(node, name)` finds the name. */
  predicate Exists(n: LNode, name: string)
  {
    name in n.attrs || name in InternalNames
  }

  /** `setattr(node, name, item)`, and with `iter` also `_ns_items[name] = item`. */
  function SetAttr(n: LNode, name: string, item: Item, iter: bool): LNode
  {
    n.(attrs := n.attrs[name := item], nsItems := if iter then SetItem(n.nsItems, name, item) else n.nsItems)
  }

  lemma SetAttrOk(h: Heap, n: LNode, name: string, item: Item, iter: bool)
    requires NodeOk(h, n) && ItemOk(h, item)
    ensures NodeOk(h, SetAttr(n, name, item, iter))
  {
    var m := SetAttr(n, name, item, iter);
    forall i | 0 <= i < |m.nsItems|
      ensures ItemOk(h, m.nsItems[i].1)
    {
      assert m.nsItems[i] in m.nsItems;
      if iter && m.nsItems[i] != (name, item) {
        var j :| 0 <= j < |n.nsItems| && n.nsItems[j] == m.nsItems[i];
      }
    }
  }

  lemma NodeOkGrows(h: Heap, h2: Heap, n: LNode)
    requires NodeOk(h, n) && h.nodes.Keys <= h2.nodes.Keys
    ensures NodeOk(h2, n)
  {
  }

  /** Replacing one node's record by one whose references are in the heap keeps it valid. */
  lemma UpdateValid(h: Heap, r: Ref, n: LNode)
    requires Valid(h) && r in h.nodes && NodeOk(h, n)
    ensures Valid(Heap(h.nodes[r := n], h.next))
  {
    var h2 := Heap(h.nodes[r := n], h.next);
    forall q | q in h2.nodes
      ensures q < h2.next && NodeOk(h2, h2.nodes[q])
    {
      NodeOkGrows(h, h2, h2.nodes[q]);
    }
  }

  /** The id `_add_child` gives a child `name`: appended directly when the node is its
      own root (whose id ends in the separator), joined with `.` otherwise. */
  function ChildId(n: LNode, self: Ref, name: string): string
  {
    if n.nsroot == Some(self) then n.namespaceId + name else n.namespaceId + "." + name
  }

  /** The root a new child `c` gets: the parent's root, unless the child id is `.`. */
  function ChildRoot(n: LNode, self: Ref, name: string, c: Ref): Option<Ref>
  {
    if ChildId(n, self, name) == Root then Some(c) else n.nsroot
  }

  /** Sets `item` under the single name `name` of node `r`: only when the name is not
      there yet or `overwrite` is set. */
  function AddItemHere(h: Heap, r: Ref, name: string, item: Item, iter: bool, overwrite: bool): (h2: Heap)
    requires Valid(h) && r in h.nodes && ItemOk(h, item)
    ensures Valid(h2) && Extends(h, h2) && h2.nodes.Keys == h.nodes.Keys
  {
    var n := h.nodes[r];
    if overwrite || !Exists(n, name) then
      SetAttrOk(h, n, name, item, iter);
      UpdateValid(h, r, SetAttr(n, name, item, iter));
      Heap(h.nodes[r := SetAttr(n, name, item, iter)], h.next)
    else h
  }

  /** `node._add_item(Join(path), item, iter, overwrite)`: one name is set on the node
      itself; with more, the first name is looked up (a missing one is created by
      `_add_child`) and the rest is added to it. A name that holds anything but a node has
      no `_add_item`: AttributeError. */
  function AddItemPath(h: Heap, r: Ref, path: seq<string>, item: Item, iter: bool, overwrite: bool): (res: Result<Heap>)
    requires Valid(h) && r in h.nodes && ItemOk(h, item) && |path| >= 1
    ensures res.Ok? ==> Valid(res.value) && Extends(h, res.value) && h.nodes.Keys <= res.value.nodes.Keys
    ensures res.Err? ==> res.error == AttributeErr
    decreases |path|
  {
    var n := h.nodes[r];
    if |path| == 1 then Ok(AddItemHere(h, r, path[0], item, iter, overwrite))
    else if path[0] in n.attrs then
      match n.attrs[path[0]]
      case NodeItem(c) => AddItemPath(h, c, path[1..], item, iter, overwrite)
      case ValueItem(_) => Err(AttributeErr)
    else if path[0] in InternalNames then
      match InternalAttr(h, r, path[0])
      case ItemObj(NodeItem(c)) => AddItemPath(h, c, path[1..], item, iter, overwrite)
      case _ => Err(AttributeErr)
    else
      var (h1, c) := NewNode(h, Some(ChildId(n, r, path[0])), n.nsroot, false, map[]);
      var h2 := AddItemHere(h1, r, path[0], NodeItem(c), true, false);
      var res := AddItemPath(h2, c, path[1..], item, iter, overwrite);
      if res.Ok? then
        ExtendsTrans(h, h1, h2);
        ExtendsTrans(h, h2, res.value);
        res
      else res
  }

  /** `_add_item(namespace_id, item, iter=True, overwrite=False)` with its defaults open. */
  function AddItemSpec(h: Heap, r: Ref, namespaceId: string, item: Item, iter: bool, overwrite: bool): Result<Heap>
    requires Valid(h) && r in h.nodes && ItemOk(h, item)
  {
    AddItemPath(h, r, Split(namespaceId), item, iter, overwrite)
  }

  /** `_add_child(name, overwrite)`: a new node with the child id and the same root, added
      under `name` for iteration. */
  function AddChildSpec(h: Heap, r: Ref, name: string, overwrite: bool): (res: Result<(Heap, Ref)>)
    requires Valid(h) && r in h.nodes
    ensures res.Ok? ==> var (h2, c) := res.value; Valid(h2) && Extends(h, h2) && c in h2.nodes && c !in h.nodes
  {
    var n := h.nodes[r];
    var (h1, c) := NewNode(h, Some(ChildId(n, r, name)), n.nsroot, false, map[]);
    var h2 :- AddItemSpec(h1, r, name, NodeItem(c), true, overwrite);
    ExtendsTrans(h, h1, h2);
    Ok((h2, c))
  }

  /** `_set_item(namespace_id, item)`: `_add_item` with `iter=False, overwrite=True`. */
  function SetItemSpec(h: Heap, r: Ref, namespaceId: string, item: Item): Result<Heap>
    requires Valid(h) && r in h.nodes && ItemOk(h, item)
  {
    AddItemSpec(h, r, namespaceId, item, false, true)
  }

  /** A single name is set when it is absent or `overwrite` is given, and is then also
      recorded for iteration when `iter` is; otherwise nothing changes. No other node is
      touched. */
  lemma AddItemSingle(h: Heap, r: Ref, name: string, item: Item, iter: bool, overwrite: bool)
    requires Valid(h) && r in h.nodes && ItemOk(h, item) && NoDot(name)
    ensures var n := h.nodes[r];
      AddItemSpec(h, r, name, item, iter, overwrite) ==
        if overwrite || !Exists(n, name) then Ok(Heap(h.nodes[r := SetAttr(n, name, item, iter)], h.next))
        else Ok(h)
  {
    SplitNoDot(name);
  }

  /** `_set_item` on a single name always replaces the attribute and leaves the iteration
      record as it was. */
  lemma SetItemReplaces(h: Heap, r: Ref, name: string, item: Item)
    requires Valid(h) && r in h.nodes && ItemOk(h, item) && NoDot(name)
    ensures SetItemSpec(h, r, name, item).Ok?
    ensures var h2 := SetItemSpec(h, r, name, item).value;
      h2.nodes[r].attrs == h.nodes[r].attrs[name := item] && h2.nodes[r].nsItems == h.nodes[r].nsItems &&
      forall q | q in h.nodes && q != r :: h2.nodes[q] == h.nodes[q]
  {
    AddItemSingle(h, r, name, item, false, true);
  }

  /** The item reached from node `r` by following attributes along `path`. */
  function Reach(h: Heap, r: Ref, path: seq<string>): Option<Item>
    requires Valid(h) && r in h.nodes && |path| >= 1
    decreases |path|
  {
    var attrs := h.nodes[r].attrs;
    if path[0] !in attrs then None
    else if |path| == 1 then Some(attrs[path[0]])
    else match attrs[path[0]]
      case NodeItem(c) => Reach(h, c, path[1..])
      case ValueItem(_) => None
  }

  /** A path that names no member of the node class. */
  predicate Ordinary(path: seq<string>)
  {
    forall i | 0 <= i < |path| :: path[i] !in InternalNames
  }

  /** The heap `_add_item` continues with after creating the missing child `path0` of
      node `r`. */
  function FreshChild(h: Heap, r: Ref, path0: string): (h2: Heap)
    requires Valid(h) && r in h.nodes
    ensures Valid(h2) && Extends(h, h2) && h.next in h2.nodes
  {
    var n := h.nodes[r];
    var (h1, c) := NewNode(h, Some(ChildId(n, r, path0)), n.nsroot, false, map[]);
    AddItemHere(h1, r, path0, NodeItem(c), true, false)
  }

  /** The heap after creating the missing child `path0` of node `r`. */
  lemma FreshChildShape(h: Heap, r: Ref, path0: string)
    requires Valid(h) && r in h.nodes && path0 !in h.nodes[r].attrs && path0 !in InternalNames
    ensures FreshChild(h, r, path0).nodes[h.next] ==
      LNode(InitialId(Some(ChildId(h.nodes[r], r, path0))), map[], [], ChildRoot(h.nodes[r], r, path0, h.next))
    ensures FreshChild(h, r, path0).nodes[r] == SetAttr(h.nodes[r], path0, NodeItem(h.next), true)
    ensures forall q | q in h.nodes && q != r :: FreshChild(h, r, path0).nodes[q] == h.nodes[q]
  {
    var n := h.nodes[r];
    var (h1, c) := NewNode(h, Some(ChildId(n, r, path0)), n.nsroot, false, map[]);
    assert h1.nodes[r] == n;
    assert Attrs(map[]).Keys == {};
    assert !Exists(n, path0);
    var h2 := AddItemHere(h1, r, path0, NodeItem(c), true, false);
    assert h2 == Heap(h1.nodes[r := SetAttr(n, path0, NodeItem(c), true)], h1.next);
    assert FreshChild(h, r, path0) == h2;
  }

  /** One step of `_add_item` on a missing, ordinary first name. */
  lemma FreshStep(h: Heap, r: Ref, path: seq<string>, item: Item, iter: bool, overwrite: bool)
    requires Valid(h) && r in h.nodes && ItemOk(h, item) && |path| >= 2
    requires path[0] !in h.nodes[r].attrs && path[0] !in InternalNames
    ensures ItemOk(FreshChild(h, r, path[0]), item)
    ensures AddItemPath(h, r, path, item, iter, overwrite) ==
      AddItemPath(FreshChild(h, r, path[0]), h.next, path[1..], item, iter, overwrite)
  {
    var n := h.nodes[r];
    var (h1, c) := NewNode(h, Some(ChildId(n, r, path[0])), n.nsroot, false, map[]);
    var h2 := AddItemHere(h1, r, path[0], NodeItem(c), true, false);
    assert c == h.next && h2 == FreshChild(h, r, path[0]);
    assert ItemOk(h2, item);
  }

  lemma OrdinaryTail(path: seq<string>)
    requires |path| >= 1 && Ordinary(path)
    ensures path[0] !in InternalNames && Ordinary(path[1..])
  {
    assert path[0] !in InternalNames;
    forall i | 0 <= i < |path[1..]|
      ensures path[1..][i] !in InternalNames
    {
      assert path[1..][i] == path[i + 1];
    }
  }

  /** Adding a dotted name below a node without attributes creates every missing child, and
      the item is found at the end of the path; no node that existed before, other than the
      starting node, changes. */
  lemma {:induction false} AddItemBelowEmpty(h: Heap, r: Ref, path: seq<string>, item: Item, iter: bool, overwrite: bool)
    requires Valid(h) && r in h.nodes && ItemOk(h, item) && |path| >= 1 && Ordinary(path)
    requires h.nodes[r].attrs == map[]
    ensures AddItemPath(h, r, path, item, iter, overwrite).Ok?
    ensures var h2 := AddItemPath(h, r, path, item, iter, overwrite).value;
      Reach(h2, r, path) == Some(item) && forall q | q in h.nodes && q != r :: h2.nodes[q] == h.nodes[q]
    decreases |path|, 1
  {
    if |path| > 1 {
      AddItemBelowEmptyStep(h, r, path, item, iter, overwrite);
    } else {
      AddItemBelowEmptyLast(h, r, path, item, iter, overwrite);
    }
  }

  /** The last name of `AddItemBelowEmpty` is set on the node itself. */
  lemma AddItemBelowEmptyLast(h: Heap, r: Ref, path: seq<string>, item: Item, iter: bool, overwrite: bool)
    requires Valid(h) && r in h.nodes && ItemOk(h, item) && |path| == 1 && Ordinary(path)
    requires h.nodes[r].attrs == map[]
    ensures AddItemPath(h, r, path, item, iter, overwrite).Ok?
    ensures var h2 := AddItemPath(h, r, path, item, iter, overwrite).value;
      Reach(h2, r, path) == Some(item) && forall q | q in h.nodes && q != r :: h2.nodes[q] == h.nodes[q]
  {
    var n := h.nodes[r];
    assert path[0] !in InternalNames && !Exists(n, path[0]);
    var h2 := Heap(h.nodes[r := SetAttr(n, path[0], item, iter)], h.next);
    assert AddItemPath(h, r, path, item, iter, overwrite) == Ok(h2);
    assert h2.nodes[r].attrs[path[0]] == item;
  }

  /** The step of `AddItemBelowEmpty` for a dotted name: create the first child, then add the
      rest below it. */
  lemma {:induction false} AddItemBelowEmptyStep(h: Heap, r: Ref, path: seq<string>, item: Item, iter: bool, overwrite: bool)
    requires Valid(h) && r in h.nodes && ItemOk(h, item) && |path| > 1 && Ordinary(path)
    requires h.nodes[r].attrs == map[]
    ensures AddItemPath(h, r, path, item, iter, overwrite).Ok?
    ensures var h2 := AddItemPath(h, r, path, item, iter, overwrite).value;
      Reach(h2, r, path) == Some(item) && forall q | q in h.nodes && q != r :: h2.nodes[q] == h.nodes[q]
    decreases |path|, 0
  {
    OrdinaryTail(path);
    FreshStep(h, r, path, item, iter, overwrite);
    FreshChildShape(h, r, path[0]);
    var h2 := FreshChild(h, r, path[0]);
    AddItemBelowEmpty(h2, h.next, path[1..], item, iter, overwrite);
    var h3 := AddItemPath(h2, h.next, path[1..], item, iter, overwrite).value;
    assert h3.nodes[r] == h2.nodes[r];
    assert h3.nodes[r].attrs[path[0]] == NodeItem(h.next);
  }

  /** Adding a dotted name whose first part a node does not have: the first part becomes a
      new child with the child id and the node's root, and the item is found at the end
      of the path. */
  lemma AddItemCreatesPath(h: Heap, r: Ref, path: seq<string>, item: Item, iter: bool, overwrite: bool)
    requires Valid(h) && r in h.nodes && ItemOk(h, item) && |path| >= 2 && Ordinary(path)
    requires path[0] !in h.nodes[r].attrs
    ensures AddItemPath(h, r, path, item, iter, overwrite).Ok?
    ensures var h2 := AddItemPath(h, r, path, item, iter, overwrite).value;
      var n := h.nodes[r];
      h2.nodes[r].attrs == n.attrs[path[0] := NodeItem(h.next)] &&
      h2.nodes[r].nsItems == SetItem(n.nsItems, path[0], NodeItem(h.next)) &&
      h2.nodes[h.next].namespaceId == InitialId(Some(ChildId(n, r, path[0]))) &&
      h2.nodes[h.next].nsroot == ChildRoot(n, r, path[0], h.next) &&
      Reach(h2, r, path) == Some(item)
  {
    OrdinaryTail(path);
    FreshStep(h, r, path, item, iter, overwrite);
    FreshChildShape(h, r, path[0]);
    var h2 := FreshChild(h, r, path[0]);
    AddItemBelowEmpty(h2, h.next, path[1..], item, iter, overwrite);
    var h3 := AddItemPath(h2, h.next, path[1..], item, iter, overwrite).value;
    assert h3.nodes[r] == h2.nodes[r];
  }

  /** A node that exists under a dotted name's first part is descended into. */
  lemma AddItemDescends(h: Heap, r: Ref, path: seq<string>, c: Ref, item: Item, iter: bool, overwrite: bool)
    requires Valid(h) && r in h.nodes && ItemOk(h, item) && |path| >= 2
    requires path[0] in h.nodes[r].attrs && h.nodes[r].attrs[path[0]] == NodeItem(c)
    ensures c in h.nodes
    ensures AddItemPath(h, r, path, item, iter, overwrite) == AddItemPath(h, c, path[1..], item, iter, overwrite)
  {
  }

  /** `_add_child` on a name the node does not have attaches the new node under it, for
      iteration too; on a name it has, without `overwrite`, the new node is built but not
      attached, and the node is unchanged. */
  lemma AddChildAttaches(h: Heap, r: Ref, name: string, overwrite: bool)
    requires Valid(h) && r in h.nodes && NoDot(name)
    ensures AddChildSpec(h, r, name, overwrite).Ok?
    ensures var (h2, c) := AddChildSpec(h, r, name, overwrite).value;
      var n := h.nodes[r];
      c == h.next && h2.nodes[c].namespaceId == InitialId(Some(ChildId(n, r, name))) &&
      h2.nodes[c].nsroot == ChildRoot(n, r, name, c) &&
      (overwrite || !Exists(n, name) ==>
        h2.nodes[r].attrs == n.attrs[name := NodeItem(c)] && Lookup(h2.nodes[r].nsItems, name) == Some(NodeItem(c))) &&
      (!overwrite && Exists(n, name) ==> h2.nodes[r] == n)
  {
    var n := h.nodes[r];
    var (h1, c) := NewNode(h, Some(ChildId(n, r, name)), n.nsroot, false, map[]);
    assert h1.nodes[r] == n;
    AddItemSingle(h1, r, name, NodeItem(c), true, overwrite);
    SplitNoDot(name);
    var h2 := AddItemHere(h1, r, name, NodeItem(c), true, overwrite);
    assert AddChildSpec(h, r, name, overwrite) == Ok((h2, c));
  }

  /** The child id: under a node that is its own root the name is appended to its id;
      under any other node, joined with `.`; runs of separators are then collapsed. */
  lemma ChildIds(parentId: string, name: string)
    ensures ChildId(LNode(parentId, map[], [], Some(0)), 0, name) == parentId + name
    ensures ChildId(LNode(parentId, map[], [], Some(1)), 0, name) == parentId + "." + name
    ensures ChildId(LNode(parentId, map[], [], None), 0, name) == parentId + "." + name
  {
  }
}
