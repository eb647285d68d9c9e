/** What `Namespace.add`, `add_exactly_one` and `remove` promise, proved about the
    functions of NamespaceSpec: `add` creates exactly the missing ancestors of an id, shallow
    to deep, reachable by `get` afterwards; it refuses an id that exists; `remove` undoes a
    single `add`. */
module NamespaceLaws {
  import opened Errors
  import opened Text
  import opened PyValues
  import opened Nsids
  import opened NodeBase
  import opened NamespaceSpec
  import opened NamespaceTheory

  /** The ancestor search of `add` for a qualified id other than the root comes down to
      following its names from the root: all found is a collision, a non-node on the way is
      an AttributeError, and otherwise the suffix after the deepest node found is attached. */
  lemma AddViaMissing<NS>(st: Store<NS>, s: string, f: Factory, ns: NS)
    requires Valid(st) && QualifiedForm(s) && s != Root
    ensures QualifiedParts(Split(s)) && Join(Split(s)) == s && Names(s) == Split(s)[1..]
    ensures var m := Missing(st, st.root, Split(s)[1..]);
      (m == Ok(None) ==> AddSpec(st, s, f, ns) == (st, Err(NamespaceCollision))) &&
      (m.Err? ==> AddSpec(st, s, f, ns) == (st, Err(m.error))) &&
      (m.Ok? && m.value.Some? ==>
        AddSpec(st, s, f, ns) == Attach(st, m.value.value.0, Split(s)[m.value.value.1 + 1..], f, ns))
  {
    AddHeadPasses(st, s);
    AddDeepestIsMissing(st, s);
    var m := Missing(st, st.root, Split(s)[1..]);
    if m.Ok? && m.value.Some? {
      AddAttachTail(st, s, m.value.value.0, m.value.value.1 + 1);
    }
  }

  /** A qualified id other than the root passes the head check of `add` and `Nsid`. */
  lemma AddHeadPasses<NS>(st: Store<NS>, s: string)
    requires Valid(st) && QualifiedForm(s) && s != Root
    ensures QualifiedParts(Split(s)) && Join(Split(s)) == s && Names(s) == Split(s)[1..]
    ensures CommonPrefix(st.nodes[st.root].nsid.nsid, s).Some? && MakeNsid(s, false).Ok?
  {
    JoinSplit(s);
    RootParts();
    CommonPrefixNoneIff(Root, s);
    QualifiedIsValid(s, false, false);
  }

  /** The ancestor search of `add` finds the node that following the names stops at. */
  lemma AddDeepestIsMissing<NS>(st: Store<NS>, s: string)
    requires Valid(st) && QualifiedParts(Split(s)) && Join(Split(s)) == s
    ensures Deepest(st, Ancestry(s), st.root) == Project(Missing(st, st.root, Split(s)[1..]))
  {
    var parts := Split(s);
    AncestryOfQualified(s);
    GetRoot(st);
    assert Follow(st, st.root, parts[1..1]) == Ok(st.root);
    DeepestIsMissing(st, parts, 1, st.root);
  }

  /** Below the deepest node found, `add` attaches the names that were not found. */
  lemma AddAttachTail<NS>(st: Store<NS>, s: string, d: Ref, i: nat)
    requires Valid(st) && QualifiedParts(Split(s)) && Join(Split(s)) == s && 1 <= i
    requires Missing(st, st.root, Split(s)[1..]) == Ok(Some((d, i - 1)))
    ensures d in st.nodes
    ensures StripCommonPrefix(st.nodes[d].nsid.nsid, s).Ok?
    ensures ListNsidSegments(StripCommonPrefix(st.nodes[d].nsid.nsid, s).value.1, false) == Split(s)[i..]
  {
    var parts := Split(s);
    assert st.nodes[d].nsid.nsid == PrefixId(parts, i) by {
      assert parts[1..][..i - 1] == parts[1..i];
      GetPrefix(st, parts, i);
    }
    StripPrefixId(parts, i);
    TailSegments(parts, i);
  }

  /** Nodes reached from the root by the names of successive prefix ids are what `get`
      finds under those ids. */
  lemma GetsFromFollows<NS>(st: Store<NS>, parts: seq<string>, i: nat, refs: seq<Ref>)
    requires Valid(st) && QualifiedParts(parts) && 1 <= i && i + |refs| <= |parts|
    requires forall j | 0 <= j < |refs| :: Follow(st, st.root, parts[1..i + j + 1]) == Ok(refs[j])
    ensures forall j | 0 <= j < |refs| :: GetSpec(st, PrefixId(parts, i + j + 1)) == Ok(refs[j])
  {
    forall j | 0 <= j < |refs|
      ensures GetSpec(st, PrefixId(parts, i + j + 1)) == Ok(refs[j])
    {
      GetFromFollow(st, parts, i + j + 1, refs[j]);
    }
  }

  /** A node reached from the root by the names of a prefix id is what `get` finds under it. */
  lemma {:induction false} GetFromFollow<NS>(st: Store<NS>, parts: seq<string>, k: nat, x: Ref)
    requires Valid(st) && QualifiedParts(parts) && 1 <= k <= |parts|
    requires Follow(st, st.root, parts[1..k]) == Ok(x)
    ensures GetSpec(st, PrefixId(parts, k)) == Ok(x)
  {
    GetPrefix(st, parts, k);
  }

  /** Node `j` of the chain below the node reached by the first `i - 1` names is reached
      from the root by the names up to its own. */
  lemma ChainReachAt<NS>(st: Store<NS>, parts: seq<string>, i: nat, d: Ref, cls: Class, attrs: map<string, Attr>, ns: NS, j: nat)
    requires Valid(st) && QualifiedParts(parts) && 1 <= i && i + j < |parts| && d in st.nodes
    requires Follow(st, st.root, parts[1..i]) == Ok(d)
    requires parts[i] !in st.nodes[d].attrs && forall n | n in attrs :: attrs[n].Data?
    ensures var res := Chain(st, d, parts, i, cls, attrs, ns);
      Valid(res.0) && Follow(res.0, st.root, parts[1..i + j + 1]) == Ok(res.1[j])
  {
    assert ChainStart(st, parts, i, d, attrs);
    ChainReachFrom(st, parts, i, d, cls, attrs, ns, j, Chain(st, d, parts, i, cls, attrs, ns));
  }

  /** Where the second loop of `add` starts: a valid tree, a qualified id, and a node `d`
      that lacks the next part, with only plain values as keyword attributes. */
  predicate ChainStart<NS>(st: Store<NS>, parts: seq<string>, i: nat, d: Ref, attrs: map<string, Attr>)
  {
    Valid(st) && QualifiedParts(parts) && 1 <= i < |parts| && d in st.nodes &&
    parts[i] !in st.nodes[d].attrs && forall n | n in attrs :: attrs[n].Data?
  }

  /** `ChainReachAt` from its bundled starting point, for the chain's result `res`. */
  lemma {:induction false} ChainReachFrom<NS>(st: Store<NS>, parts: seq<string>, i: nat, d: Ref, cls: Class, attrs: map<string, Attr>, ns: NS, j: nat, res: (Store<NS>, seq<Ref>))
    requires ChainStart(st, parts, i, d, attrs) && i + j < |parts|
    requires Follow(st, st.root, parts[1..i]) == Ok(d)
    requires res == Chain(st, d, parts, i, cls, attrs, ns)
    ensures j < |res.1| && Valid(res.0) && Follow(res.0, st.root, parts[1..i + j + 1]) == Ok(res.1[j])
  {
    ChainLegs(st, parts, i, d, cls, attrs, ns, j, res);
    JoinSlices(res.0, st.root, parts, i, j, d, res.1[j]);
  }

  /** A path to `d` by the names before `i` and on from `d` by the names from `i` is a path
      by all of them. */
  lemma {:induction false} JoinSlices<NS>(s1: Store<NS>, root: Ref, parts: seq<string>, i: nat, j: nat, d: Ref, x: Ref)
    requires Valid(s1) && root in s1.nodes && 1 <= i && i + j < |parts|
    requires Follow(s1, root, parts[1..i]) == Ok(d) && Follow(s1, d, parts[i..i + j + 1]) == Ok(x)
    ensures Follow(s1, root, parts[1..i + j + 1]) == Ok(x)
  {
    SliceJoin(parts, 1, i, i + j + 1);
    JoinLegs(s1, root, parts[1..i], parts[i..i + j + 1], parts[1..i + j + 1], d, x);
  }

  /** A path `p` to `d` and a path `q` on from `d` make the path `p + q`. */
  lemma {:induction false} JoinLegs<NS>(s1: Store<NS>, root: Ref, p: seq<string>, q: seq<string>, full: seq<string>, d: Ref, x: Ref)
    requires Valid(s1) && root in s1.nodes && full == p + q
    requires Follow(s1, root, p) == Ok(d) && Follow(s1, d, q) == Ok(x)
    ensures Follow(s1, root, full) == Ok(x)
  {
    FollowConcatOk(s1, root, p, q, d);
  }

  /** The two legs of `ChainReachFrom`: the old path to `d`, and the chain from `d`. */
  lemma {:induction false} ChainLegs<NS>(st: Store<NS>, parts: seq<string>, i: nat, d: Ref, cls: Class, attrs: map<string, Attr>, ns: NS, j: nat, res: (Store<NS>, seq<Ref>))
    requires ChainStart(st, parts, i, d, attrs) && i + j < |parts|
    requires Follow(st, st.root, parts[1..i]) == Ok(d)
    requires res == Chain(st, d, parts, i, cls, attrs, ns)
    ensures j < |res.1| && Valid(res.0) && st.root in res.0.nodes && d in res.0.nodes
    ensures Follow(res.0, st.root, parts[1..i]) == Ok(d) && Follow(res.0, d, parts[i..i + j + 1]) == Ok(res.1[j])
  {
    ChainFollow(st, parts, i, d, cls, attrs, ns);
    ChainKeepsPath(st, parts, i, d, cls, attrs, ns, parts[1..i], d);
  }

  /** A path that existed before the chain leads to the same node after it. */
  lemma ChainKeepsPath<NS>(st: Store<NS>, parts: seq<string>, i: nat, d: Ref, cls: Class, attrs: map<string, Attr>, ns: NS, names: seq<string>, t: Ref)
    requires ChainStart(st, parts, i, d, attrs) && Follow(st, st.root, names) == Ok(t)
    ensures var res := Chain(st, d, parts, i, cls, attrs, ns);
      Valid(res.0) && Follow(res.0, st.root, names) == Ok(t)
  {
    var res := Chain(st, d, parts, i, cls, attrs, ns);
    ChainValid(st, parts, i, d, cls, attrs, ns);
    ChainExtends(st, parts, i, d, cls, attrs, ns);
    FollowExtends(st, res.0, st.root, names);
  }

  /** The chain adds exactly its own nodes, none of which existed. */
  lemma ChainFresh<NS>(st: Store<NS>, parts: seq<string>, i: nat, d: Ref, cls: Class, attrs: map<string, Attr>, ns: NS)
    requires i < |parts| && d in st.nodes && (forall r | r in st.nodes :: r < st.next)
    requires parts[i] !in st.nodes[d].attrs
    ensures var res := Chain(st, d, parts, i, cls, attrs, ns);
      Extends(st, res.0) &&
      (forall q | q in res.0.nodes :: q in st.nodes || q in res.1) &&
      forall j | 0 <= j < |res.1| :: res.1[j] !in st.nodes
  {
    var res := Chain(st, d, parts, i, cls, attrs, ns);
    ChainExtends(st, parts, i, d, cls, attrs, ns);
    forall q | q in res.0.nodes
      ensures q in st.nodes || q in res.1
    {
      if q !in st.nodes {
        assert res.1[q - st.next] == q;
      }
    }
  }

  /** The suffix `add` attaches below the deepest existing node `d` (reached by the first
      `i - 1` names, the `i`-th missing): the tree stays valid and grows, one fresh node per
      remaining part, each reachable by `get` under its own id, the inner ones built by the
      default factory and the last with class `cls`. */
  lemma ChainOutcome<NS>(st: Store<NS>, parts: seq<string>, i: nat, d: Ref, cls: Class, attrs: map<string, Attr>, ns: NS)
    requires Valid(st) && QualifiedParts(parts) && 1 <= i < |parts| && d in st.nodes
    requires Follow(st, st.root, parts[1..i]) == Ok(d)
    requires parts[i] !in st.nodes[d].attrs && forall n | n in attrs :: attrs[n].Data?
    ensures var res := Chain(st, d, parts, i, cls, attrs, ns);
      |res.1| == |parts| - i && Valid(res.0) && Extends(st, res.0) &&
      (forall q | q in res.0.nodes :: q in st.nodes || q in res.1) &&
      forall j | 0 <= j < |res.1| ::
        res.1[j] !in st.nodes &&
        GetSpec(res.0, PrefixId(parts, i + j + 1)) == Ok(res.1[j]) &&
        res.0.nodes[res.1[j]].ns == ns &&
        res.0.nodes[res.1[j]].cls == (if j == |res.1| - 1 then cls else st.default)
  {
    var res := Chain(st, d, parts, i, cls, attrs, ns);
    assert Valid(res.0) by {
      ChainValid(st, parts, i, d, cls, attrs, ns);
    }
    forall j | 0 <= j < |res.1|
      ensures Follow(res.0, st.root, parts[1..i + j + 1]) == Ok(res.1[j])
    {
      ChainReachAt(st, parts, i, d, cls, attrs, ns, j);
    }
    GetsFromFollows(res.0, parts, i, res.1);
    ChainFresh(st, parts, i, d, cls, attrs, ns);
    ChainClasses(st, parts, i, d, cls, attrs, ns);
  }

  /** The ancestors of `s` before index `n` exist and the one at `n` does not. */
  ghost predicate FoundUpTo<NS>(st: Store<NS>, s: string, n: nat)
    requires Valid(st) && n < |Ancestry(s)|
  {
    (forall a | 0 <= a < n :: GetSpec(st, Ancestry(s)[a]).Ok?) &&
    GetSpec(st, Ancestry(s)[n]) == Err(NamespaceLookup)
  }

  /** `get` finds `created[j]` under the ancestor of `s` at index `n + j`. */
  ghost predicate FoundFrom<NS>(st: Store<NS>, s: string, n: nat, created: seq<Ref>)
    requires Valid(st) && n + |created| <= |Ancestry(s)|
  {
    forall j | 0 <= j < |created| :: GetSpec(st, Ancestry(s)[n + j]) == Ok(created[j])
  }

  /** `st'` keeps everything of `st` and adds exactly the fresh nodes `created`, owned by the
      namespace, built by the default factory except the last, which has class `cls`. */
  ghost predicate Grown<NS>(st: Store<NS>, st': Store<NS>, created: seq<Ref>, cls: Class, ns: NS)
  {
    Extends(st, st') &&
    (forall q | q in st'.nodes :: q in st.nodes || q in created) &&
    forall j | 0 <= j < |created| ::
      created[j] !in st.nodes && created[j] in st'.nodes &&
      st'.nodes[created[j]].ns == ns &&
      st'.nodes[created[j]].cls == (if j == |created| - 1 then cls else st.default)
  }

  /** What a successful `add` of `s` did: for the index `n` with `n + |created|` ancestors,
      the ancestors of `s` before `n` existed, the one at `n` did not, and one fresh node was
      created for each ancestor from `n` on, each found by `get` under that ancestor's id;
      nothing else was created and nothing that existed was lost. */
  ghost predicate AddedMissing<NS>(st: Store<NS>, st': Store<NS>, s: string, created: seq<Ref>, cls: Class, ns: NS)
    requires Valid(st) && Valid(st')
  {
    exists n: nat :: AddedAt(st, st', s, n, created, cls, ns)
  }

  /** `AddedMissing` with the index of the first missing ancestor given. */
  ghost predicate AddedAt<NS>(st: Store<NS>, st': Store<NS>, s: string, n: nat, created: seq<Ref>, cls: Class, ns: NS)
    requires Valid(st) && Valid(st')
  {
    1 <= n && 1 <= |created| && n + |created| == |Ancestry(s)| &&
    FoundUpTo(st, s, n) && FoundFrom(st', s, n, created) && Grown(st, st', created, cls, ns)
  }

  /** The ancestors of `s` that existed before a successful `add` below the node reached by
      the first `i - 1` names. */
  lemma AncestorsBefore<NS>(st: Store<NS>, parts: seq<string>, i: nat, d: Ref)
    requires Valid(st) && QualifiedParts(parts) && 1 <= i < |parts| && d in st.nodes
    requires Follow(st, st.root, parts[1..i]) == Ok(d)
    requires Step(st, d, parts[i]) == Err(NamespaceLookup)
    ensures |Ancestry(Join(parts))| == |parts|
    ensures forall a | 0 <= a < i :: GetSpec(st, Ancestry(Join(parts))[a]).Ok?
    ensures GetSpec(st, Ancestry(Join(parts))[i]) == Err(NamespaceLookup)
    ensures forall a | 0 <= a < |parts| :: Ancestry(Join(parts))[a] == PrefixId(parts, a + 1)
  {
    AncestryOfParts(parts);
    PrefixesFound(st, parts, i, d);
    GetPrefixStep(st, parts, i, d);
  }

  /** The ancestors of a qualified id are the ids of its successive prefixes. */
  lemma {:induction false} AncestryOfParts(parts: seq<string>)
    requires QualifiedParts(parts)
    ensures |Ancestry(Join(parts))| == |parts|
    ensures forall a | 0 <= a < |parts| :: Ancestry(Join(parts))[a] == PrefixId(parts, a + 1)
  {
    PrefixIdWhole(parts);
    AncestryEndsAtId(Join(parts));
    forall a | 0 <= a < |parts|
      ensures Ancestry(Join(parts))[a] == PrefixId(parts, a + 1)
    {
      AncestorIsPrefixId(parts, a);
    }
  }

  /** `get` finds every prefix id of the path to a node reached from the root. */
  lemma {:induction false} PrefixesFound<NS>(st: Store<NS>, parts: seq<string>, i: nat, d: Ref)
    requires Valid(st) && QualifiedParts(parts) && 1 <= i < |parts| && d in st.nodes
    requires Follow(st, st.root, parts[1..i]) == Ok(d)
    ensures forall k | 1 <= k <= i :: GetSpec(st, PrefixId(parts, k)).Ok?
  {
    forall k | 1 <= k <= i
      ensures GetSpec(st, PrefixId(parts, k)).Ok?
    {
      PrefixFound(st, parts, i, d, k);
    }
  }

  /** `get` finds the `k`-part prefix id of the path to a node reached from the root. */
  lemma {:induction false} PrefixFound<NS>(st: Store<NS>, parts: seq<string>, i: nat, d: Ref, k: nat)
    requires Valid(st) && QualifiedParts(parts) && 1 <= k <= i < |parts| && d in st.nodes
    requires Follow(st, st.root, parts[1..i]) == Ok(d)
    ensures GetSpec(st, PrefixId(parts, k)).Ok?
  {
    SliceOfSlice(parts, i, k);
    FollowPrefix(st, st.root, parts[1..i], k - 1);
    GetPrefix(st, parts, k);
  }

  /** The case of `add` where the `i`-th name is the first missing: exactly the missing
      ancestors are created. */
  lemma AddCreatesMissing<NS>(st: Store<NS>, parts: seq<string>, i: nat, d: Ref, cls: Class, attrs: map<string, Attr>, ns: NS)
    requires Valid(st) && QualifiedParts(parts) && 1 <= i < |parts| && d in st.nodes
    requires Follow(st, st.root, parts[1..i]) == Ok(d)
    requires Step(st, d, parts[i]) == Err(NamespaceLookup) && forall n | n in attrs :: attrs[n].Data?
    ensures var res := Chain(st, d, parts, i, cls, attrs, ns);
      Valid(res.0) && AddedMissing(st, res.0, Join(parts), res.1, cls, ns)
  {
    AddCreatesMissingFor(st, parts, i, d, cls, attrs, ns, Chain(st, d, parts, i, cls, attrs, ns));
  }

  /** `AddCreatesMissing` for the chain's result `res`. */
  lemma {:induction false} AddCreatesMissingFor<NS>(st: Store<NS>, parts: seq<string>, i: nat, d: Ref, cls: Class, attrs: map<string, Attr>, ns: NS, res: (Store<NS>, seq<Ref>))
    requires Valid(st) && QualifiedParts(parts) && 1 <= i < |parts| && d in st.nodes
    requires Follow(st, st.root, parts[1..i]) == Ok(d)
    requires Step(st, d, parts[i]) == Err(NamespaceLookup) && forall n | n in attrs :: attrs[n].Data?
    requires res == Chain(st, d, parts, i, cls, attrs, ns)
    ensures Valid(res.0) && AddedMissing(st, res.0, Join(parts), res.1, cls, ns)
  {
    MissingBefore(st, parts, i, d);
    MissingCreated(st, parts, i, d, cls, attrs, ns, res);
    AddedMissingOf(st, res.0, Join(parts), res.1, cls, ns, i);
  }

  /** The ancestors before the `i`-th exist and the `i`-th does not. */
  lemma {:induction false} MissingBefore<NS>(st: Store<NS>, parts: seq<string>, i: nat, d: Ref)
    requires Valid(st) && QualifiedParts(parts) && 1 <= i < |parts| && d in st.nodes
    requires Follow(st, st.root, parts[1..i]) == Ok(d)
    requires Step(st, d, parts[i]) == Err(NamespaceLookup)
    ensures |Ancestry(Join(parts))| == |parts| && FoundUpTo(st, Join(parts), i)
  {
    AncestorsBefore(st, parts, i, d);
  }

  /** What the chain `res` built below `d` created, one node per ancestor from `i` on. */
  lemma {:induction false} MissingCreated<NS>(st: Store<NS>, parts: seq<string>, i: nat, d: Ref, cls: Class, attrs: map<string, Attr>, ns: NS, res: (Store<NS>, seq<Ref>))
    requires Valid(st) && QualifiedParts(parts) && 1 <= i < |parts| && d in st.nodes
    requires Follow(st, st.root, parts[1..i]) == Ok(d)
    requires Step(st, d, parts[i]) == Err(NamespaceLookup) && forall n | n in attrs :: attrs[n].Data?
    requires res == Chain(st, d, parts, i, cls, attrs, ns)
    ensures |Ancestry(Join(parts))| == |parts| && |res.1| == |parts| - i && Valid(res.0)
    ensures Grown(st, res.0, res.1, cls, ns) && FoundFrom(res.0, Join(parts), i, res.1)
  {
    ChainOutcome(st, parts, i, d, cls, attrs, ns);
    ChainFoundFrom(st, parts, i, d, cls, attrs, ns);
  }

  /** The parts of `AddedMissing`, with the index of the first missing ancestor given. */
  lemma {:induction false} AddedMissingOf<NS>(st: Store<NS>, st': Store<NS>, s: string, created: seq<Ref>, cls: Class, ns: NS, i: nat)
    requires Valid(st) && Valid(st') && 1 <= i && 1 <= |created| && |Ancestry(s)| == i + |created|
    requires FoundUpTo(st, s, i) && FoundFrom(st', s, i, created) && Grown(st, st', created, cls, ns)
    ensures AddedMissing(st, st', s, created, cls, ns)
  {
    assert AddedAt(st, st', s, i, created, cls, ns);
  }

  /** The chain's nodes are found under the ancestors of the whole id from index `i` on. */
  lemma ChainFoundFrom<NS>(st: Store<NS>, parts: seq<string>, i: nat, d: Ref, cls: Class, attrs: map<string, Attr>, ns: NS)
    requires Valid(st) && QualifiedParts(parts) && 1 <= i < |parts| && d in st.nodes
    requires Follow(st, st.root, parts[1..i]) == Ok(d)
    requires Step(st, d, parts[i]) == Err(NamespaceLookup) && forall n | n in attrs :: attrs[n].Data?
    ensures var res := Chain(st, d, parts, i, cls, attrs, ns);
      Valid(res.0) && |Ancestry(Join(parts))| == |parts| && |res.1| == |parts| - i &&
      FoundFrom(res.0, Join(parts), i, res.1)
  {
    var res := Chain(st, d, parts, i, cls, attrs, ns);
    var s := Join(parts);
    ChainOutcome(st, parts, i, d, cls, attrs, ns);
    AncestorsBefore(st, parts, i, d);
    forall j | 0 <= j < |res.1|
      ensures GetSpec(res.0, Ancestry(s)[i + j]) == Ok(res.1[j])
    {
      assert Ancestry(s)[i + j] == PrefixId(parts, i + j + 1);
    }
  }


  /** `add` reaching the `i`-th name as the first missing builds the chain below the node
      reached before it. */
  lemma AddIsChain<NS>(st: Store<NS>, s: string, f: Factory, ns: NS, i: nat, d: Ref)
    requires Valid(st) && QualifiedForm(s) && s != Root
    requires Missing(st, st.root, Split(s)[1..]) == Ok(Some((d, i - 1))) && i >= 1
    ensures QualifiedParts(Split(s)) && 1 <= i < |Split(s)| && d in st.nodes
    ensures Follow(st, st.root, Split(s)[1..i]) == Ok(d)
    ensures Step(st, d, Split(s)[i]) == Err(NamespaceLookup)
    ensures var res := Chain(st, d, Split(s), i, f.cls, KwargAttrs(f.kwargs), ns);
      AddSpec(st, s, f, ns) == (res.0, Ok(res.1))
  {
    var parts := Split(s);
    AddViaMissing(st, s, f, ns);
    assert parts[1..][..i - 1] == parts[1..i];
    assert parts[1..][i - 1] == parts[i];
    assert st.nodes[d].nsid.nsid == PrefixId(parts, i) by {
      GetPrefix(st, parts, i);
    }
    PrefixIdQualified(parts, i);
    AttachIsChain(st, parts, i, d, f, ns);
  }

  /** `add` of a fully-qualified id other than the root: an existing id is a collision, a
      non-node on the way an AttributeError, both leaving the namespace unchanged; otherwise
      exactly the missing ancestors are created, the last by the given factory. */
  lemma AddOutcome<NS>(st: Store<NS>, s: string, f: Factory, ns: NS)
    requires Valid(st) && QualifiedForm(s) && s != Root
    ensures var res := AddSpec(st, s, f, ns);
      match GetSpec(st, s)
      case Ok(_) => res == (st, Err(NamespaceCollision))
      case Err(e) =>
        if e == NamespaceLookup then res.1.Ok? && Valid(res.0) && AddedMissing(st, res.0, s, res.1.value, f.cls, ns)
        else e == AttributeErr && res == (st, Err(AttributeErr))
  {
    var parts := Split(s);
    AddViaMissing(st, s, f, ns);
    GetIsFollow(st, s);
    var m := Missing(st, st.root, parts[1..]);
    if m.Ok? && m.value.Some? {
      var d := m.value.value.0;
      var i := m.value.value.1 + 1;
      AddIsChain(st, s, f, ns, i, d);
      AddCreatesMissing(st, parts, i, d, f.cls, KwargAttrs(f.kwargs), ns);
    }
  }

  /** `add` of the root, or of the empty id whose only ancestor is the root, finds every
      ancestor present and reports a collision. */
  lemma AddRootCollides<NS>(st: Store<NS>, f: Factory, ns: NS)
    requires Valid(st)
    ensures AddSpec(st, Root, f, ns) == (st, Err(NamespaceCollision))
    ensures AddSpec(st, "", f, ns) == (st, Err(NamespaceCollision))
  {
    RootParts();
    GetRoot(st);
    QualifiedIsValid(Root, false, false);
    var parts := Split(Root);
    assert parts[..1] == [""] && parts[..2] == parts;
    assert Join([""]) == "";
    assert Join(["", ""]) == "" + "." + Join([""]);
    assert AncestorAt(parts, 0) == Root && AncestorAt(parts, 1) == Root;
    assert Ancestry(Root) == [Root, Root];
    assert Deepest(st, [Root], st.root) == Ok(None);
    assert Deepest(st, [Root, Root], st.root) == Ok(None);
    assert Split("") == [""];
    assert Ancestry("") == [Root];
  }

  /** `add` of any id keeps the tree valid and loses nothing that existed; a failed `add`
      leaves the namespace as it was. */
  lemma AddKeepsValid<NS>(st: Store<NS>, s: string, f: Factory, ns: NS)
    requires Valid(st)
    ensures var res := AddSpec(st, s, f, ns);
      Valid(res.0) && Extends(st, res.0) && (res.1.Err? ==> res.0 == st)
  {
    if CommonPrefix(Root, s).Some? && MakeNsid(s, false).Ok? {
      HeadQualified(s);
      if s == "" || s == Root {
        AddRootCollides(st, f, ns);
      } else {
        AddOutcome(st, s, f, ns);
      }
    }
  }
}
