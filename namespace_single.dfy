/** What `Namespace.add_exactly_one` promises, proved about AddExactlyOneSpec: with the
    parent present it adds the one missing node, with the parent missing it refuses with a
    ValueError before changing anything. */
module NamespaceSingle {
  import opened Errors
  import opened Text
  import opened PyValues
  import opened Nsids
  import opened NodeBase
  import opened NamespaceSpec
  import opened NamespaceTheory
  import opened NamespaceLaws
  import opened NamespaceRemoval

  /** The skip-root segments of a qualified id are its names. */
  lemma SegmentsOfParts(parts: seq<string>)
    requires QualifiedParts(parts)
    ensures ListNsidSegments(Join(parts), true) == parts[1..]
  {
    PartsNotRoot(parts);
  }

  /** The parent test of `add_exactly_one` on the whole namespace passes exactly when the
      parent is reached; a missing parent becomes a ValueError, other errors pass through. */
  lemma ParentCheckFollows<NS>(st: Store<NS>, parts: seq<string>)
    requires Valid(st) && QualifiedParts(parts)
    ensures var parent := Follow(st, st.root, parts[1..|parts| - 1]);
      ParentCheck(st, Whole, Join(parts)) ==
        if parent.Ok? then Ok(()) else Err(if parent.error == NamespaceLookup then ValueErr else parent.error)
  {
    var pid := PrefixId(parts, |parts| - 1);
    ParentIsPrefixId(parts);
    ParentLookup(st, parts);
    ParentCheckWhole(st, Join(parts), pid);
    assert Follow(st, st.root, parts[1..|parts| - 1]) == GetSpec(st, pid);
  }

  /** The parent test on the whole namespace is the lookup of the parent id itself. */
  lemma ParentCheckWhole<NS>(st: Store<NS>, s: string, pid: string)
    requires Valid(st) && GetParentNsid(s, 1) == Ok(pid)
    ensures var parent := GetSpec(st, pid);
      ParentCheck(st, Whole, s) ==
        if parent.Ok? then Ok(()) else Err(if parent.error == NamespaceLookup then ValueErr else parent.error)
  {
    assert GetId(Whole, pid) == pid;
  }

  /** `add` of an id whose parent `d` exists: a collision when the last part holds a node,
      an AttributeError when it holds data, and otherwise one node linked under `d`. */
  lemma AddAtParent<NS>(st: Store<NS>, parts: seq<string>, f: Factory, ns: NS, d: Ref)
    requires Valid(st) && QualifiedParts(parts) && d in st.nodes
    requires Follow(st, st.root, parts[1..|parts| - 1]) == Ok(d)
    ensures var step := Step(st, d, parts[|parts| - 1]);
      var res := AddSpec(st, Join(parts), f, ns);
      if step.Ok? then res == (st, Err(NamespaceCollision))
      else if step.error == NamespaceLookup then
        res == (Link(st, d, parts[|parts| - 1], ChainNode(st, d, parts, |parts| - 1, f.cls, KwargAttrs(f.kwargs), ns)), Ok([st.next]))
      else res == (st, Err(AttributeErr))
  {
    var step := Step(st, d, parts[|parts| - 1]);
    if step == Err(NamespaceLookup) {
      AddUnderParent(st, parts, f, ns, d);
      ChainOfLast(st, parts, d, f.cls, KwargAttrs(f.kwargs), ns);
    } else {
      PartsNotRoot(parts);
      FollowLast(st, parts);
      AddViaMissing(st, Join(parts), f, ns);
    }
  }

  /** `add_exactly_one` of a fully-qualified id on the whole namespace. A parent that is not
      there is a ValueError and any other failure to reach it passes through, both before
      anything changes; below an existing parent a node already there is a collision, data
      there an AttributeError, and otherwise exactly one node is created and returned. */
  lemma AddExactlyOneOutcome<NS>(st: Store<NS>, parts: seq<string>, f: Factory, ns: NS)
    requires Valid(st) && QualifiedParts(parts)
    ensures var parent := Follow(st, st.root, parts[1..|parts| - 1]);
      var res := AddExactlyOneSpec(st, Whole, Join(parts), f, ns);
      if parent.Err? then
        |parts| > 2 && res == (st, Err(if parent.error == NamespaceLookup then ValueErr else parent.error))
      else
        var step := Step(st, parent.value, parts[|parts| - 1]);
        if step.Ok? then res == (st, Err(NamespaceCollision))
        else if step.error == NamespaceLookup then
          res.1 == Ok(st.next) && st.next !in st.nodes &&
          res.0 == Link(st, parent.value, parts[|parts| - 1], ChainNode(st, parent.value, parts, |parts| - 1, f.cls, KwargAttrs(f.kwargs), ns))
        else res == (st, Err(AttributeErr))
  {
    var parent := Follow(st, st.root, parts[1..|parts| - 1]);
    SegmentsOfParts(parts);
    ParentCheckFollows(st, parts);
    if parent.Ok? {
      AddAtParent(st, parts, f, ns, parent.value);
    }
  }
}
