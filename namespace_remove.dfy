/** What `Namespace.remove` promises, proved about RemoveSpec: the parent is looked up with
    `get`, the last segment of the id is detached from it, and a `remove` right after an
    `add` that created a single node leaves `get` answering every id as before. */
module NamespaceRemoval {
  import opened Errors
  import opened Text
  import opened PyValues
  import opened Nsids
  import opened NodeBase
  import opened NamespaceSpec
  import opened NamespaceTheory
  import opened NamespaceLaws

  /** The node table after `delattr(node, name)` on node `d`. */
  function Detach<NS>(st: Store<NS>, d: Ref, name: string): (st': Store<NS>)
    requires d in st.nodes
    ensures st'.nodes.Keys == st.nodes.Keys && name !in st'.nodes[d].attrs
    ensures st'.root == st.root && st'.next == st.next && st'.default == st.default
  {
    st.(nodes := st.nodes[d := st.nodes[d].(attrs := st.nodes[d].attrs - {name})])
  }

  /** Deleting an attribute keeps the tree invariant. */
  lemma DetachValid<NS>(st: Store<NS>, d: Ref, name: string)
    requires Valid(st) && d in st.nodes
    ensures Valid(Detach(st, d, name))
  {
    var st' := Detach(st, d, name);
    forall q, k | q in st'.nodes && k in st'.nodes[q].attrs && st'.nodes[q].attrs[k].Child?
      ensures ChildOk(st', q, k, st'.nodes[q].attrs[k].ref)
    {
      assert ChildOk(st, q, k, st.nodes[q].attrs[k].ref);
    }
  }

  /** `remove` of any id keeps the tree valid and drops no node from the table; only the
      parent's attribute goes. */
  lemma RemoveKeepsValid<NS>(st: Store<NS>, s: string)
    requires Valid(st)
    ensures var res := RemoveSpec(st, s);
      Valid(res.0) && res.0.nodes.Keys == st.nodes.Keys && res.0.root == st.root &&
      res.0.next == st.next && res.0.default == st.default && Extends(res.0, st)
  {
    var res := RemoveSpec(st, s);
    if res.0 != st {
      var p := GetSpec(st, GetParentNsid(s, 1).value).value;
      var name := StripCommonPrefix(st.nodes[p].nsid.nsid, s).value.1;
      assert res.0 == Detach(st, p, name);
      DetachValid(st, p, name);
    }
  }

  /** The parent `remove` looks up for a qualified id is the id without its last part. */
  lemma ParentIsPrefixId(parts: seq<string>)
    requires QualifiedParts(parts)
    ensures QualifiedForm(Join(parts)) && Split(Join(parts)) == parts
    ensures GetParentNsid(Join(parts), 1) == Ok(PrefixId(parts, |parts| - 1))
  {
    PrefixIdWhole(parts);
    var s := Join(parts);
    ParentDropsParts(s, 1);
    var p := GetParentNsid(s, 1).value;
    if |parts| > 2 {
      JoinSplit(p);
    }
  }

  /** The part `remove` detaches from the parent is the last one. */
  lemma LastName(parts: seq<string>)
    requires QualifiedParts(parts)
    ensures StripCommonPrefix(PrefixId(parts, |parts| - 1), Join(parts)).Ok?
    ensures StripCommonPrefix(PrefixId(parts, |parts| - 1), Join(parts)).value.1 == parts[|parts| - 1]
  {
    var k := |parts| - 1;
    var stripped := StripCommonPrefix(PrefixId(parts, k), Join(parts));
    assert stripped.Ok? && stripped.value.1 == Join(parts[k..]) by {
      StripPrefixId(parts, k);
    }
    assert Join(parts[k..]) == parts[k] by {
      JoinLast(parts);
    }
  }

  lemma JoinLast(parts: seq<string>)
    requires |parts| >= 1
    ensures Join(parts[|parts| - 1..]) == parts[|parts| - 1]
  {
    assert parts[|parts| - 1..] == [parts[|parts| - 1]];
  }

  /** `get` of a qualified id follows its names from the root. */
  lemma GetWhole<NS>(st: Store<NS>, parts: seq<string>)
    requires Valid(st) && QualifiedParts(parts)
    ensures GetSpec(st, Join(parts)) == Follow(st, st.root, parts[1..])
  {
    assert parts[1..] == parts[1..|parts|];
    GetPrefix(st, parts, |parts|);
    PrefixIdWhole(parts);
  }

  /** Following all the names is following all but the last, then one step. */
  lemma FollowLast<NS>(st: Store<NS>, parts: seq<string>)
    requires Valid(st) && |parts| >= 2
    ensures Follow(st, st.root, parts[1..]) ==
      match Follow(st, st.root, parts[1..|parts| - 1])
      case Ok(d) => Step(st, d, parts[|parts| - 1])
      case Err(e) => Err(e)
  {
    assert parts[1..] == parts[1..|parts| - 1] + [parts[|parts| - 1]];
    FollowSnoc(st, st.root, parts[1..|parts| - 1], parts[|parts| - 1]);
  }

  /** After detaching the last part from the parent, the tree is valid, no other node
      changes, the parent is still reached and `get` no longer finds the id. */
  lemma DetachHides<NS>(st: Store<NS>, parts: seq<string>, d: Ref)
    requires Valid(st) && QualifiedParts(parts) && d in st.nodes
    requires Follow(st, st.root, parts[1..|parts| - 1]) == Ok(d)
    ensures var st' := Detach(st, d, parts[|parts| - 1]);
      Valid(st') && st'.nodes.Keys == st.nodes.Keys &&
      (forall q | q in st.nodes && q != d :: st'.nodes[q] == st.nodes[q]) &&
      Follow(st', st.root, parts[1..|parts| - 1]) == Ok(d) &&
      GetSpec(st', Join(parts)) == Err(NamespaceLookup)
  {
    var n := |parts|;
    var st' := Detach(st, d, parts[n - 1]);
    DetachValid(st, d, parts[n - 1]);
    FollowBelow(st, st', st.root, parts[1..n - 1], d);
    GetWhole(st', parts);
    FollowLast(st', parts);
  }

  /** `remove` of a qualified id looks up the id without its last part, which is following
      all names but the last from the root, and deletes the last part from the node
      found. */
  lemma RemoveUnfold<NS>(st: Store<NS>, parts: seq<string>)
    requires Valid(st) && QualifiedParts(parts)
    ensures var name := parts[|parts| - 1];
      var parent := Follow(st, st.root, parts[1..|parts| - 1]);
      RemoveSpec(st, Join(parts)) ==
        if parent.Err? then (st, Err(parent.error))
        else if name !in st.nodes[parent.value].attrs then (st, Err(AttributeErr))
        else (Detach(st, parent.value, name), Ok(st.nodes[parent.value].attrs[name]))
  {
    var pid := PrefixId(parts, |parts| - 1);
    var parent := Follow(st, st.root, parts[1..|parts| - 1]);
    assert GetParentNsid(Join(parts), 1) == Ok(pid) by { ParentIsPrefixId(parts); }
    assert GetSpec(st, pid) == parent by { ParentLookup(st, parts); }
    assert StripCommonPrefix(pid, Join(parts)).Ok? &&
      StripCommonPrefix(pid, Join(parts)).value.1 == parts[|parts| - 1] by { LastName(parts); }
    RemoveOfParent(st, Join(parts), PrefixId(parts, |parts| - 1), parts[|parts| - 1],
      Follow(st, st.root, parts[1..|parts| - 1]));
  }

  /** Looking up the parent id of a qualified id follows all its names but the last. */
  lemma ParentLookup<NS>(st: Store<NS>, parts: seq<string>)
    requires Valid(st) && QualifiedParts(parts)
    ensures GetSpec(st, PrefixId(parts, |parts| - 1)) == Follow(st, st.root, parts[1..|parts| - 1])
  {
    var k := |parts| - 1;
    GetPrefix(st, parts, k);
    assert GetSpec(st, PrefixId(parts, k)) == Follow(st, st.root, parts[1..k]);
  }

  /** `remove` of `s` whose parent id `pid` looks up to `parent` and whose last part is
      `name`: the lookup's error, or `name` deleted from the parent found. */
  lemma RemoveOfParent<NS>(st: Store<NS>, s: string, pid: string, name: string, parent: Result<Ref>)
    requires Valid(st) && GetParentNsid(s, 1) == Ok(pid) && GetSpec(st, pid) == parent
    requires StripCommonPrefix(pid, s).Ok? && StripCommonPrefix(pid, s).value.1 == name
    ensures RemoveSpec(st, s) ==
      if parent.Err? then (st, Err(parent.error))
      else if name !in st.nodes[parent.value].attrs then (st, Err(AttributeErr))
      else (Detach(st, parent.value, name), Ok(st.nodes[parent.value].attrs[name]))
  {
    if parent.Ok? {
      assert st.nodes[parent.value].nsid.nsid == pid;
    }
  }

  /** `remove` of a fully-qualified id, given by its parts, whose parent is not reached:
      the error of that lookup, the namespace unchanged; `get` of the id fails alike. */
  lemma RemoveNoParent<NS>(st: Store<NS>, parts: seq<string>)
    requires Valid(st) && QualifiedParts(parts)
    requires Follow(st, st.root, parts[1..|parts| - 1]).Err?
    ensures RemoveSpec(st, Join(parts)) == (st, Err(Follow(st, st.root, parts[1..|parts| - 1]).error))
    ensures GetSpec(st, Join(parts)) == Err(Follow(st, st.root, parts[1..|parts| - 1]).error)
  {
    RemoveUnfold(st, parts);
    GetWhole(st, parts);
    FollowLast(st, parts);
  }

  /** `remove` of an id whose parent `d` exists but lacks the last part, so that `get`
      reports the id missing: an AttributeError, the namespace unchanged. */
  lemma RemoveAbsent<NS>(st: Store<NS>, parts: seq<string>, d: Ref)
    requires Valid(st) && QualifiedParts(parts) && d in st.nodes
    requires Follow(st, st.root, parts[1..|parts| - 1]) == Ok(d)
    requires GetSpec(st, Join(parts)) == Err(NamespaceLookup)
    ensures RemoveSpec(st, Join(parts)) == (st, Err(AttributeErr))
  {
    RemoveUnfold(st, parts);
    GetWhole(st, parts);
    FollowLast(st, parts);
  }

  /** `remove` of an id whose parent `d` holds the last part: the attribute is deleted from
      the parent (DetachHides says what that leaves) and returned, a node `get` found or
      plain data `get` refused with an AttributeError. */
  lemma RemovePresent<NS>(st: Store<NS>, parts: seq<string>, d: Ref)
    requires Valid(st) && QualifiedParts(parts) && d in st.nodes
    requires Follow(st, st.root, parts[1..|parts| - 1]) == Ok(d)
    requires GetSpec(st, Join(parts)) != Err(NamespaceLookup)
    ensures var g := GetSpec(st, Join(parts));
      var res := RemoveSpec(st, Join(parts));
      res.0 == Detach(st, d, parts[|parts| - 1]) &&
      (g.Ok? ==> res.1 == Ok(Child(g.value))) &&
      (g.Err? ==> g == Err(AttributeErr) && res.1.Ok? && res.1.value.Data?)
  {
    RemoveUnfold(st, parts);
    assert GetSpec(st, Join(parts)) == Step(st, d, parts[|parts| - 1]) by {
      GetWhole(st, parts);
      FollowLast(st, parts);
    }
  }

  /** The search of `add` for the deepest existing ancestor stops at the first name that
      is missing. */
  lemma {:induction false} MissingAt<NS>(st: Store<NS>, cur: Ref, names: seq<string>, m: nat, d: Ref)
    requires Valid(st) && cur in st.nodes && m < |names|
    requires Follow(st, cur, names[..m]) == Ok(d)
    requires Step(st, d, names[m]) == Err(NamespaceLookup)
    ensures Missing(st, cur, names) == Ok(Some((d, m)))
    decreases m
  {
    if m == 0 {
      assert names[..0] == [];
    } else {
      assert names[..m][0] == names[0];
      var c := Step(st, cur, names[0]).value;
      assert names[..m][1..] == names[1..][..m - 1];
      assert names[1..][m - 1] == names[m];
      MissingAt(st, c, names[1..], m - 1, d);
    }
  }

  /** A qualified id other than the root. */
  lemma PartsNotRoot(parts: seq<string>)
    requires QualifiedParts(parts)
    ensures QualifiedForm(Join(parts)) && Join(parts) != Root && Split(Join(parts)) == parts
  {
    PrefixIdWhole(parts);
    RootParts();
    assert IsIdentifier(parts[1]);
  }

  /** `add` of an id whose parent `d` exists and lacks the last part builds the chain of the
      last part alone. */
  lemma AddUnderParent<NS>(st: Store<NS>, parts: seq<string>, f: Factory, ns: NS, d: Ref)
    requires Valid(st) && QualifiedParts(parts) && d in st.nodes
    requires Follow(st, st.root, parts[1..|parts| - 1]) == Ok(d)
    requires Step(st, d, parts[|parts| - 1]) == Err(NamespaceLookup)
    ensures var res := Chain(st, d, parts, |parts| - 1, f.cls, KwargAttrs(f.kwargs), ns);
      AddSpec(st, Join(parts), f, ns) == (res.0, Ok(res.1))
  {
    var n := |parts|;
    PartsNotRoot(parts);
    assert parts[1..][..n - 2] == parts[1..n - 1];
    assert parts[1..][n - 2] == parts[n - 1];
    MissingAt(st, st.root, parts[1..], n - 2, d);
    AddIsChain(st, Join(parts), f, ns, n - 1, d);
  }

  /** The store with one more node that nothing refers to. */
  function Orphan<NS>(st: Store<NS>, node: Node<NS>): (st': Store<NS>)
    ensures st'.root == st.root && st'.default == st.default && st'.next == st.next + 1
  {
    st.(nodes := st.nodes[st.next := node], next := st.next + 1)
  }

  /** The chain of one last part is that part linked to a fresh node. */
  lemma ChainOfLast<NS>(st: Store<NS>, parts: seq<string>, d: Ref, cls: Class, attrs: map<string, Attr>, ns: NS)
    requires Valid(st) && |parts| >= 1 && d in st.nodes && parts[|parts| - 1] !in st.nodes[d].attrs
    ensures Chain(st, d, parts, |parts| - 1, cls, attrs, ns) ==
      (Link(st, d, parts[|parts| - 1], ChainNode(st, d, parts, |parts| - 1, cls, attrs, ns)), [st.next])
  {
    var st1 := ChainStep(st, parts, |parts| - 1, d, cls, attrs, ns);
    assert Chain(st1, st.next, parts, |parts|, cls, attrs, ns) == (st1, []);
    assert [st.next] + [] == [st.next];
  }

  /** Linking the last part under the parent keeps the tree valid and the parent
      reachable. */
  lemma LinkKeepsParent<NS>(st: Store<NS>, parts: seq<string>, d: Ref, node: Node<NS>)
    requires Valid(st) && QualifiedParts(parts) && d in st.nodes
    requires Follow(st, st.root, parts[1..|parts| - 1]) == Ok(d)
    requires parts[|parts| - 1] !in st.nodes[d].attrs
    requires node.nsid.nsid == ChildOf(st.nodes[d].nsid.nsid, parts[|parts| - 1])
    requires forall k | k in node.attrs :: node.attrs[k].Data?
    ensures var st1 := Link(st, d, parts[|parts| - 1], node);
      Valid(st1) && Follow(st1, st.root, parts[1..|parts| - 1]) == Ok(d) &&
      st1.nodes[d].attrs == st.nodes[d].attrs[parts[|parts| - 1] := Child(st.next)]
  {
    var st1 := Link(st, d, parts[|parts| - 1], node);
    assert d < st.next;
    LinkValid(st, d, parts[|parts| - 1], node);
    FollowBelow(st, st1, st.root, parts[1..|parts| - 1], d);
  }

  /** Removing the last part right after linking it to a fresh node leaves that node in
      the table with nothing referring to it. */
  lemma RemoveAfterLink<NS>(st: Store<NS>, parts: seq<string>, d: Ref, node: Node<NS>)
    requires Valid(st) && QualifiedParts(parts) && d in st.nodes
    requires Follow(st, st.root, parts[1..|parts| - 1]) == Ok(d)
    requires parts[|parts| - 1] !in st.nodes[d].attrs
    requires node.nsid.nsid == ChildOf(st.nodes[d].nsid.nsid, parts[|parts| - 1])
    requires forall k | k in node.attrs :: node.attrs[k].Data?
    ensures Valid(Link(st, d, parts[|parts| - 1], node))
    ensures RemoveSpec(Link(st, d, parts[|parts| - 1], node), Join(parts)) == (Orphan(st, node), Ok(Child(st.next)))
  {
    LinkKeepsParent(st, parts, d, node);
    RemoveUnfold(Link(st, d, parts[|parts| - 1], node), parts);
    DetachLink(st, d, parts[|parts| - 1], node);
  }

  /** Deleting a name just linked to a fresh node restores the parent. */
  lemma DetachLink<NS>(st: Store<NS>, d: Ref, name: string, node: Node<NS>)
    requires d in st.nodes && d < st.next && name !in st.nodes[d].attrs
    ensures Detach(Link(st, d, name, node), d, name) == Orphan(st, node)
  {
    var st1 := Link(st, d, name, node);
    assert st1.nodes[d].attrs - {name} == st.nodes[d].attrs;
    assert Detach(st1, d, name).nodes == Orphan(st, node).nodes;
  }

  /** Following names never reaches a node that nothing refers to: the path and the `get`
      loop give the same answers as without it. */
  lemma {:induction false} DescendIgnoresOrphan<NS>(st: Store<NS>, node: Node<NS>, cur: Ref, target: string, segs: seq<string>)
    requires Valid(st) && Valid(Orphan(st, node)) && cur in st.nodes
    ensures Descend(Orphan(st, node), cur, target, segs) == Descend(st, cur, target, segs)
    decreases |segs|
  {
    var st' := Orphan(st, node);
    assert st'.nodes[cur] == st.nodes[cur];
    if st.nodes[cur].nsid != Nsid(target) && segs != [] {
      var r := Step(st, cur, segs[0]);
      assert Step(st', cur, segs[0]) == r;
      if r.Ok? {
        DescendIgnoresOrphan(st, node, r.value, target, segs[1..]);
      }
    }
  }

  /** A node that nothing refers to is invisible to `get`. */
  lemma GetIgnoresOrphan<NS>(st: Store<NS>, node: Node<NS>)
    requires Valid(st) && forall k | k in node.attrs :: node.attrs[k].Data?
    ensures Valid(Orphan(st, node))
    ensures forall x :: GetSpec(Orphan(st, node), x) == GetSpec(st, x)
  {
    var st' := Orphan(st, node);
    forall q, k | q in st'.nodes && k in st'.nodes[q].attrs && st'.nodes[q].attrs[k].Child?
      ensures ChildOk(st', q, k, st'.nodes[q].attrs[k].ref)
    {
      assert q != st.next;
      assert ChildOk(st, q, k, st.nodes[q].attrs[k].ref);
    }
    forall x
      ensures GetSpec(st', x) == GetSpec(st, x)
    {
      DescendIgnoresOrphan(st, node, st.root, x, ListNsidSegments(x, false)[1..]);
    }
  }

  /** An `add` whose parent exists and whose last part is missing links exactly one new
      node, the factory's, under the parent. */
  lemma AddLinksLast<NS>(st: Store<NS>, parts: seq<string>, f: Factory, ns: NS, d: Ref)
    requires Valid(st) && QualifiedParts(parts) && d in st.nodes
    requires Follow(st, st.root, parts[1..|parts| - 1]) == Ok(d)
    requires Step(st, d, parts[|parts| - 1]) == Err(NamespaceLookup)
    ensures parts[|parts| - 1] !in st.nodes[d].attrs
    ensures var node := ChainNode(st, d, parts, |parts| - 1, f.cls, KwargAttrs(f.kwargs), ns);
      node.nsid.nsid == ChildOf(st.nodes[d].nsid.nsid, parts[|parts| - 1]) &&
      node.attrs == KwargAttrs(f.kwargs) &&
      AddSpec(st, Join(parts), f, ns) == (Link(st, d, parts[|parts| - 1], node), Ok([st.next]))
  {
    AddUnderParent(st, parts, f, ns, d);
    ChainOfLast(st, parts, d, f.cls, KwargAttrs(f.kwargs), ns);
  }

  /** `remove` right after an `add` that found the parent and created the one missing node
      returns that node, and afterwards `get` answers every id as before the `add`; the node
      stays in the table with nothing referring to it. */
  lemma RemoveUndoesAdd<NS>(st: Store<NS>, parts: seq<string>, f: Factory, ns: NS, d: Ref)
    returns (added: Store<NS>, removed: Store<NS>)
    requires Valid(st) && QualifiedParts(parts) && d in st.nodes
    requires Follow(st, st.root, parts[1..|parts| - 1]) == Ok(d)
    requires Step(st, d, parts[|parts| - 1]) == Err(NamespaceLookup)
    ensures st.next !in st.nodes && AddSpec(st, Join(parts), f, ns) == (added, Ok([st.next]))
    ensures Valid(added) && st.next in added.nodes
    ensures RemoveSpec(added, Join(parts)) == (removed, Ok(Child(st.next)))
    ensures Valid(removed) && removed.nodes == st.nodes[st.next := added.nodes[st.next]]
    ensures forall x :: GetSpec(removed, x) == GetSpec(st, x)
  {
    var node := ChainNode(st, d, parts, |parts| - 1, f.cls, KwargAttrs(f.kwargs), ns);
    AddLinksLast(st, parts, f, ns, d);
    added := Link(st, d, parts[|parts| - 1], node);
    removed := Orphan(st, node);
    RemoveAfterLink(st, parts, d, node);
    GetIgnoresOrphan(st, node);
  }
}
