/** What `get`, `add`, `add_exactly_one`, `remove` and `walk` of
    thewired/namespace/namespace.py guarantee, proved about the functions of NamespaceSpec.
    The key step: on a valid tree, `get` of a fully-qualified id is the same as following
    the id's segments as attribute names from the root. */
module NamespaceTheory {
  import opened Errors
  import opened Text
  import opened PyValues
  import opened Nsids
  import opened NodeBase
  import opened NamespaceSpec

  /** Following `a + b` is following `a` and then `b`. */
  lemma {:induction false} FollowConcat<NS>(st: Store<NS>, cur: Ref, a: seq<string>, b: seq<string>)
    requires Valid(st) && cur in st.nodes
    ensures Follow(st, cur, a + b) ==
      match Follow(st, cur, a)
      case Ok(x) => Follow(st, x, b)
      case Err(e) => Err(e)
    decreases |a|
  {
    if a == [] {
      assert a + b == b;
    } else {
      assert (a + b)[0] == a[0];
      assert (a + b)[1..] == a[1..] + b;
      var step := Step(st, cur, a[0]);
      if step.Ok? {
        FollowConcat(st, step.value, a[1..], b);
      }
    }
  }

  /** A slice is the two slices either side of any point inside it. */
  lemma SliceJoin<T>(s: seq<T>, a: nat, b: nat, c: nat)
    requires a <= b <= c <= |s|
    ensures s[a..c] == s[a..b] + s[b..c]
  {
  }

  /** The first names of a slice from index 1 are a shorter slice from index 1. */
  lemma SliceOfSlice<T>(s: seq<T>, i: nat, k: nat)
    requires 1 <= k <= i <= |s|
    ensures s[1..i][..k - 1] == s[1..k]
  {
  }

  /** Once `a` leads to `x`, following `a + b` is following `b` from `x`. */
  lemma FollowConcatOk<NS>(st: Store<NS>, cur: Ref, a: seq<string>, b: seq<string>, x: Ref)
    requires Valid(st) && cur in st.nodes && Follow(st, cur, a) == Ok(x)
    ensures x in st.nodes && Follow(st, cur, a + b) == Follow(st, x, b)
  {
    FollowConcat(st, cur, a, b);
  }

  /** Every prefix of a path that exists exists. */
  lemma {:induction false} FollowPrefix<NS>(st: Store<NS>, cur: Ref, names: seq<string>, j: nat)
    requires Valid(st) && cur in st.nodes && j <= |names|
    requires Follow(st, cur, names).Ok?
    ensures Follow(st, cur, names[..j]).Ok?
    decreases j
  {
    if j > 0 {
      var c := Step(st, cur, names[0]).value;
      FollowPrefix(st, c, names[1..], j - 1);
      assert names[..j][0] == names[0] && names[..j][1..] == names[1..][..j - 1];
    }
  }

  /** A path that stops at a missing name fails, however far it goes on. */
  lemma FollowPastMissing<NS>(st: Store<NS>, cur: Ref, names: seq<string>, m: nat, j: nat)
    requires Valid(st) && cur in st.nodes && m < j <= |names|
    requires Follow(st, cur, names[..m]).Ok?
    requires Step(st, Follow(st, cur, names[..m]).value, names[m]).Err?
    ensures Follow(st, cur, names[..j]).Err?
  {
    var x := Follow(st, cur, names[..m]).value;
    assert names[..j] == names[..m] + names[m..j] by { SliceJoin(names, 0, m, j); }
    FollowConcatOk(st, cur, names[..m], names[m..j], x);
    assert names[m..j][0] == names[m];
  }

  /** Paths that exist in a tree exist unchanged in any extension of it. */
  lemma {:induction false} FollowExtends<NS>(st: Store<NS>, st': Store<NS>, cur: Ref, names: seq<string>)
    requires Valid(st) && Valid(st') && Extends(st, st') && cur in st.nodes
    requires Follow(st, cur, names).Ok?
    ensures cur in st'.nodes && Follow(st', cur, names) == Follow(st, cur, names)
    decreases |names|
  {
    if names != [] {
      var c := Step(st, cur, names[0]).value;
      FollowExtends(st, st', c, names[1..]);
    }
  }

  /** A path only visits nodes with smaller references than where it ends, so changes to
      later nodes do not affect it. */
  lemma {:induction false} FollowBelow<NS>(st: Store<NS>, st': Store<NS>, cur: Ref, names: seq<string>, t: Ref)
    requires Valid(st) && Valid(st') && cur in st.nodes && t in st'.nodes
    requires Follow(st, cur, names) == Ok(t)
    requires forall q | q in st.nodes && q < t :: q in st'.nodes && st'.nodes[q] == st.nodes[q]
    ensures cur in st'.nodes && Follow(st', cur, names) == Ok(t)
    decreases |names|
  {
    if names != [] {
      var c := Step(st, cur, names[0]).value;
      FollowBelow(st, st', c, names[1..], t);
    }
  }

  /** An id that passes the head test of `get` and the relative-mode `Nsid` is empty or
      fully qualified. */
  lemma HeadQualified(s: string)
    requires CommonPrefix(Root, s).Some? && MakeNsid(s, false).Ok?
    ensures s == "" || QualifiedForm(s)
  {
    if s != "" {
      RootParts();
      CommonPrefixNoneIff(Root, s);
      SplitCons(s);
      assert s[0] == '.';
      assert IsValidNsidStr(s, false, true) == IsValidNsidStr(s, false, false);
      QualifiedValidity(s, false);
    }
  }

  /** `get` and `add` reject an id that does not start at the root with InvalidNsidError,
      before touching the tree. */
  lemma HeadRejects<NS>(st: Store<NS>, s: string, f: Factory, ns: NS)
    requires Valid(st) && s != "" && s[0] != '.'
    ensures GetSpec(st, s) == Err(InvalidNsid)
    ensures AddSpec(st, s, f, ns).0 == st && AddSpec(st, s, f, ns).1 == Err(InvalidNsid)
  {
    RootParts();
    SplitCons(s);
    CommonPrefixNoneIff(Root, s);
  }

  /** The nsid-comparing loop of `get` walks exactly the segments of a qualified id: each
      node it meets has the id of the prefix read so far. */
  lemma {:induction false} DescendFollows<NS>(st: Store<NS>, parts: seq<string>, j: nat, cur: Ref)
    requires Valid(st) && QualifiedParts(parts) && 1 <= j <= |parts| && cur in st.nodes
    requires st.nodes[cur].nsid.nsid == PrefixId(parts, j)
    ensures Descend(st, cur, PrefixId(parts, |parts|), parts[j..]) == Follow(st, cur, parts[j..])
    decreases |parts| - j
  {
    if j < |parts| {
      PrefixIdDistinct(parts, j);
      assert parts[j..][0] == parts[j];
      assert parts[j..][1..] == parts[j + 1..];
      var step := Step(st, cur, parts[j]);
      if step.Ok? {
        PrefixIdChild(parts, j);
        DescendFollows(st, parts, j + 1, step.value);
      }
    }
  }

  /** On a valid tree, `get` of a fully-qualified id follows its segments from the root. */
  lemma GetIsFollow<NS>(st: Store<NS>, s: string)
    requires Valid(st) && QualifiedForm(s)
    ensures GetSpec(st, s) == Follow(st, st.root, Names(s))
  {
    RootParts();
    QualifiedIsValid(s, false, false);
    if s != Root {
      var parts := Split(s);
      assert QualifiedParts(parts);
      PrefixIdWhole(parts);
      JoinSplit(s);
      assert parts[1..] == ListNsidSegments(s, false)[1..];
      DescendFollows(st, parts, 1, st.root);
    }
  }

  lemma NamesOfPrefixId(parts: seq<string>, k: nat)
    requires QualifiedParts(parts) && 1 <= k <= |parts|
    ensures QualifiedForm(PrefixId(parts, k))
    ensures Names(PrefixId(parts, k)) == parts[1..k]
  {
    PrefixIdQualified(parts, k);
    if k >= 2 {
      assert parts[..k][1..] == parts[1..k];
    }
  }

  /** `get` of the `k`-part prefix of a qualified id follows the first `k - 1` names. */
  lemma GetPrefix<NS>(st: Store<NS>, parts: seq<string>, k: nat)
    requires Valid(st) && QualifiedParts(parts) && 1 <= k <= |parts|
    ensures GetSpec(st, PrefixId(parts, k)) == Follow(st, st.root, parts[1..k])
  {
    NamesOfPrefixId(parts, k);
    GetIsFollow(st, PrefixId(parts, k));
  }

  /** `get('.')` is the root. */
  lemma GetRoot<NS>(st: Store<NS>)
    requires Valid(st)
    ensures GetSpec(st, Root) == Ok(st.root)
  {
    GetIsFollow(st, Root);
  }

  /** Any node `get` returns carries the requested id; an id that is neither empty nor
      qualified is never found. */
  lemma GetFindsOnlyQualified<NS>(st: Store<NS>, s: string)
    requires Valid(st) && GetSpec(st, s).Ok?
    ensures QualifiedForm(s)
    ensures st.nodes[GetSpec(st, s).value].nsid == Nsid(s)
  {
    HeadQualified(s);
  }

  /** Extension is transitive. */
  lemma ExtendsTrans<NS>(a: Store<NS>, b: Store<NS>, c: Store<NS>)
    requires Extends(a, b) && Extends(b, c)
    ensures Extends(a, c)
  {
  }

  /** What the ancestor search of `add` reports, without the index of the missing name. */
  function Project(m: Result<Option<(Ref, nat)>>): Result<Option<Ref>>
  {
    match m
    case Err(e) => Err(e)
    case Ok(None) => Ok(None)
    case Ok(Some(found)) => Ok(Some(found.0))
  }

  /** Following one more name is one more step. */
  lemma FollowSnoc<NS>(st: Store<NS>, cur: Ref, names: seq<string>, n: string)
    requires Valid(st) && cur in st.nodes
    ensures Follow(st, cur, names + [n]) ==
      match Follow(st, cur, names)
      case Ok(x) => Step(st, x, n)
      case Err(e) => Err(e)
  {
    FollowConcat(st, cur, names, [n]);
    var r := Follow(st, cur, names);
    if r.Ok? {
      assert [n][1..] == [];
    }
  }

  /** Looking up the next ancestor from the root is one step from the current one. */
  lemma GetPrefixStep<NS>(st: Store<NS>, parts: seq<string>, i: nat, d: Ref)
    requires Valid(st) && QualifiedParts(parts) && 1 <= i < |parts| && d in st.nodes
    requires Follow(st, st.root, parts[1..i]) == Ok(d)
    ensures GetSpec(st, PrefixId(parts, i + 1)) == Step(st, d, parts[i])
    ensures Follow(st, st.root, parts[1..i + 1]) == Step(st, d, parts[i])
  {
    var before, after := parts[1..i], parts[1..i + 1];
    assert after == before + [parts[i]];
    FollowSnoc(st, st.root, before, parts[i]);
    assert Follow(st, st.root, after) == Step(st, d, parts[i]);
    GetPrefix(st, parts, i + 1);
  }

  /** The ancestor-by-ancestor search of `add`, each ancestor looked up from the root, stops
      where following the segments one by one first fails. */
  lemma {:induction false} DeepestIsMissing<NS>(st: Store<NS>, parts: seq<string>, i: nat, d: Ref)
    requires Valid(st) && QualifiedParts(parts) && 1 <= i <= |parts| && d in st.nodes
    requires Follow(st, st.root, parts[1..i]) == Ok(d)
    ensures |Ancestry(Join(parts))| == |parts|
    ensures Deepest(st, Ancestry(Join(parts))[i..], d) == Project(Missing(st, d, parts[i..]))
    decreases |parts| - i, 1
  {
    if i < |parts| {
      DeepestIsMissingFrom(st, parts, i, d);
    } else {
      DeepestIsMissingEnd(st, parts, i, d);
    }
  }

  /** The inductive step of `DeepestIsMissing`: the lookup of the next ancestor is the next
      step of `Missing`. */
  lemma {:induction false} DeepestIsMissingFrom<NS>(st: Store<NS>, parts: seq<string>, i: nat, d: Ref)
    requires Valid(st) && QualifiedParts(parts) && 1 <= i < |parts| && d in st.nodes
    requires Follow(st, st.root, parts[1..i]) == Ok(d)
    ensures |Ancestry(Join(parts))| == |parts|
    ensures Deepest(st, Ancestry(Join(parts))[i..], d) == Project(Missing(st, d, parts[i..]))
    decreases |parts| - i, 0
  {
    PrefixIdWhole(parts);
    AncestryEndsAtId(Join(parts));
    var anc := Ancestry(Join(parts));
    assert anc[i..][0] == PrefixId(parts, i + 1) && anc[i..][1..] == anc[i + 1..] by {
      AncestorIsPrefixId(parts, i);
    }
    GetPrefixStep(st, parts, i, d);
    assert parts[i..][0] == parts[i] && parts[i..][1..] == parts[i + 1..];
    var step := Step(st, d, parts[i]);
    if step.Ok? {
      DeepestIsMissing(st, parts, i + 1, step.value);
    }
    DeepestMissingStep(st, anc[i..], parts[i..], d);
  }

  /** With every part looked up, both searches have nothing left. */
  lemma DeepestIsMissingEnd<NS>(st: Store<NS>, parts: seq<string>, i: nat, d: Ref)
    requires Valid(st) && QualifiedParts(parts) && i == |parts| && d in st.nodes
    ensures |Ancestry(Join(parts))| == |parts|
    ensures Deepest(st, Ancestry(Join(parts))[i..], d) == Project(Missing(st, d, parts[i..]))
  {
    PrefixIdWhole(parts);
    AncestryEndsAtId(Join(parts));
    assert Ancestry(Join(parts))[i..] == [] && parts[i..] == [];
  }

  /** One level of `DeepestIsMissing`: when looking up the first ancestor is the first step,
      and the rest agrees, the whole search agrees. */
  lemma DeepestMissingStep<NS>(st: Store<NS>, anc: seq<string>, names: seq<string>, d: Ref)
    requires Valid(st) && d in st.nodes && |anc| == |names| > 0
    requires GetSpec(st, anc[0]) == Step(st, d, names[0])
    requires Step(st, d, names[0]).Ok? ==>
      Deepest(st, anc[1..], Step(st, d, names[0]).value) ==
      Project(Missing(st, Step(st, d, names[0]).value, names[1..]))
    ensures Deepest(st, anc, d) == Project(Missing(st, d, names))
  {
  }

  /** A child of a qualified id under an identifier is qualified. */
  lemma ChildOfQualified(parent: string, child: string)
    requires QualifiedForm(parent) && IsIdentifier(child)
    ensures QualifiedForm(ChildOf(parent, child))
    ensures MakeChildNsid(parent, child) == Ok(ChildOf(parent, child))
  {
    ChildOfIsMakeChild(parent, child);
    MakeChildQualified(parent, child);
  }

  /** One step of creating the missing chain, `setattr` of a fresh node on a node that lacks
      the name: the tree stays valid, nothing is lost, and the name now leads to the node. */
  lemma LinkValid<NS>(st: Store<NS>, d: Ref, name: string, node: Node<NS>)
    requires Valid(st) && d in st.nodes && name !in st.nodes[d].attrs
    requires IsIdentifier(name) && node.nsid.nsid == ChildOf(st.nodes[d].nsid.nsid, name)
    requires forall k | k in node.attrs :: node.attrs[k].Data?
    ensures var st1 := Link(st, d, name, node);
      Valid(st1) && Extends(st, st1) &&
      st1.nodes.Keys == st.nodes.Keys + {st.next} && st1.nodes[st.next] == node &&
      Step(st1, d, name) == Ok(st.next)
  {
    var st1 := Link(st, d, name, node);
    var r := st.next;
    assert d < r;
    assert st1.nodes == st.nodes[r := node][d := st.nodes[d].(attrs := st.nodes[d].attrs[name := Child(r)])];
    forall q, k | q in st1.nodes && k in st1.nodes[q].attrs && st1.nodes[q].attrs[k].Child?
      ensures ChildOk(st1, q, k, st1.nodes[q].attrs[k].ref)
    {
      if q == d {
        if k != name {
          assert ChildOk(st, q, k, st.nodes[q].attrs[k].ref);
        }
      } else if q != r {
        assert ChildOk(st, q, k, st.nodes[q].attrs[k].ref);
      }
    }
  }

  /** The node the second loop of `add` builds for part `k` under node `d`: the default
      factory's class without keyword arguments, except for the last part. */
  function ChainNode<NS>(st: Store<NS>, d: Ref, parts: seq<string>, k: nat, cls: Class, attrs: map<string, Attr>, ns: NS)
    : Node<NS>
    requires d in st.nodes && k < |parts|
  {
    var id := Nsid(ChildOf(st.nodes[d].nsid.nsid, parts[k]));
    if k + 1 == |parts| then Node(cls, id, ns, attrs)
    else Node(st.default, id, ns, map[])
  }

  /** The second loop of `add` with the node construction already resolved: part `k`
      onwards, each new node linked under the previous one. */
  function Chain<NS>(st: Store<NS>, d: Ref, parts: seq<string>, k: nat, cls: Class, attrs: map<string, Attr>, ns: NS)
    : (res: (Store<NS>, seq<Ref>))
    requires k <= |parts| && d in st.nodes
    ensures |res.1| == |parts| - k && res.0.next == st.next + |parts| - k
    ensures forall j | 0 <= j < |res.1| :: res.1[j] == st.next + j
    ensures res.0.root == st.root && res.0.default == st.default
    decreases |parts| - k
  {
    if k == |parts| then (st, [])
    else
      var rest := Chain(Link(st, d, parts[k], ChainNode(st, d, parts, k, cls, attrs, ns)), st.next, parts, k + 1, cls, attrs, ns);
      (rest.0, [st.next] + rest.1)
  }

  /** One turn of the second loop of `add`: the id of the next part is valid, so its node is
      built and linked. */
  lemma AttachUnfold<NS>(st: Store<NS>, parts: seq<string>, k: nat, d: Ref, f: Factory, ns: NS)
    requires QualifiedParts(parts) && 1 <= k < |parts| && d in st.nodes
    requires QualifiedForm(st.nodes[d].nsid.nsid)
    ensures var rest := Attach(Link(st, d, parts[k], ChainNode(st, d, parts, k, f.cls, KwargAttrs(f.kwargs), ns)), st.next, parts[k + 1..], f, ns);
      Attach(st, d, parts[k..], f, ns) == (rest.0, if rest.1.Ok? then Ok([st.next] + rest.1.value) else rest.1)
  {
    var id := ChildOf(st.nodes[d].nsid.nsid, parts[k]);
    ChildOfQualified(st.nodes[d].nsid.nsid, parts[k]);
    assert MakeNode(if k + 1 == |parts| then f else Factory(st.default, []), id, ns) == Ok(ChainNode(st, d, parts, k, f.cls, KwargAttrs(f.kwargs), ns)) by {
      QualifiedIsValid(id, false, false);
    }
    assert parts[k..][0] == parts[k] && parts[k..][1..] == parts[k + 1..];
  }

  /** From a node with a qualified id, `Attach` builds `Chain`: every id it makes is valid. */
  lemma {:induction false} AttachIsChain<NS>(st: Store<NS>, parts: seq<string>, k: nat, d: Ref, f: Factory, ns: NS)
    requires QualifiedParts(parts) && 1 <= k <= |parts| && d in st.nodes && d < st.next
    requires QualifiedForm(st.nodes[d].nsid.nsid)
    ensures Attach(st, d, parts[k..], f, ns) == (Chain(st, d, parts, k, f.cls, KwargAttrs(f.kwargs), ns).0, Ok(Chain(st, d, parts, k, f.cls, KwargAttrs(f.kwargs), ns).1))
    decreases |parts| - k
  {
    if k < |parts| {
      AttachUnfold(st, parts, k, d, f, ns);
      ChildOfQualified(st.nodes[d].nsid.nsid, parts[k]);
      var st1 := Link(st, d, parts[k], ChainNode(st, d, parts, k, f.cls, KwargAttrs(f.kwargs), ns));
      AttachIsChain(st1, parts, k + 1, st.next, f, ns);
      var c := Chain(st1, st.next, parts, k + 1, f.cls, KwargAttrs(f.kwargs), ns);
      assert Chain(st, d, parts, k, f.cls, KwargAttrs(f.kwargs), ns) == (c.0, [st.next] + c.1);
      assert Attach(st, d, parts[k..], f, ns) == (c.0, Ok([st.next] + c.1));
    }
  }

  /** `name` is a node-valued attribute of `p` holding `c`. */
  predicate Edge<NS>(st: Store<NS>, p: Ref, name: string, c: Ref)
  {
    p in st.nodes && name in st.nodes[p].attrs && st.nodes[p].attrs[name] == Child(c)
  }

  /** A path of edges is followed node by node. */
  lemma {:induction false} FollowEdges<NS>(st: Store<NS>, d: Ref, names: seq<string>, refs: seq<Ref>, n: nat)
    requires Valid(st) && d in st.nodes && |refs| == |names| && n <= |names|
    requires |refs| > 0 ==> Edge(st, d, names[0], refs[0])
    requires forall j | 0 < j < |refs| :: Edge(st, refs[j - 1], names[j], refs[j])
    ensures forall j | 0 <= j < n :: Follow(st, d, names[..j + 1]) == Ok(refs[j])
  {
    if n > 0 {
      FollowEdges(st, d, names, refs, n - 1);
      FollowEdgeAt(st, d, names, refs, n - 1);
    }
  }

  /** The edge at position `m` extends the path followed up to it. */
  lemma FollowEdgeAt<NS>(st: Store<NS>, d: Ref, names: seq<string>, refs: seq<Ref>, m: nat)
    requires Valid(st) && d in st.nodes && |refs| == |names| && m < |names|
    requires Edge(st, d, names[0], refs[0])
    requires forall j | 0 < j < |refs| :: Edge(st, refs[j - 1], names[j], refs[j])
    requires forall j | 0 <= j < m :: Follow(st, d, names[..j + 1]) == Ok(refs[j])
    ensures Follow(st, d, names[..m + 1]) == Ok(refs[m])
  {
    if m == 0 {
      assert names[..0] == [];
      FollowNextEdge(st, d, names, 0, d, refs[0]);
    } else {
      assert Follow(st, d, names[..m - 1 + 1]) == Ok(refs[m - 1]);
      FollowNextEdge(st, d, names, m, refs[m - 1], refs[m]);
    }
  }

  /** Following one more name along an edge reaches the edge's child. */
  lemma FollowNextEdge<NS>(st: Store<NS>, d: Ref, names: seq<string>, m: nat, p: Ref, c: Ref)
    requires Valid(st) && d in st.nodes && m < |names|
    requires Follow(st, d, names[..m]) == Ok(p) && Edge(st, p, names[m], c)
    ensures Follow(st, d, names[..m + 1]) == Ok(c)
  {
    TakeOneMore(names, m);
    FollowSnoc(st, d, names[..m], names[m]);
  }

  /** The first `m + 1` elements are the first `m` followed by element `m`. */
  lemma TakeOneMore<T>(s: seq<T>, m: nat)
    requires m < |s|
    ensures s[..m + 1] == s[..m] + [s[m]]
  {
  }

  /** One level of the chain: the first node is linked under `d` and the rest of the chain
      starts from it. */
  lemma ChainStep<NS>(st: Store<NS>, parts: seq<string>, k: nat, d: Ref, cls: Class, attrs: map<string, Attr>, ns: NS)
    returns (st1: Store<NS>)
    requires k < |parts| && d in st.nodes && (forall r | r in st.nodes :: r < st.next)
    requires parts[k] !in st.nodes[d].attrs
    ensures st1 == Link(st, d, parts[k], ChainNode(st, d, parts, k, cls, attrs, ns))
    ensures Extends(st, st1) && st1.next == st.next + 1
    ensures st1.root == st.root && st1.default == st.default
    ensures st1.nodes.Keys == st.nodes.Keys + {st.next}
    ensures st1.nodes[st.next].ns == ns
    ensures st1.nodes[st.next].cls == (if k + 1 == |parts| then cls else st.default)
    ensures k + 1 < |parts| ==> st1.nodes[st.next].attrs == map[]
    ensures Edge(st1, d, parts[k], st.next)
    ensures var rest := Chain(st1, st.next, parts, k + 1, cls, attrs, ns);
      Chain(st, d, parts, k, cls, attrs, ns) == (rest.0, [st.next] + rest.1)
  {
    var node := ChainNode(st, d, parts, k, cls, attrs, ns);
    st1 := Link(st, d, parts[k], node);
    assert d < st.next;
  }

  /** The chain loses nothing and creates only fresh references. */
  lemma {:induction false} ChainExtends<NS>(st: Store<NS>, parts: seq<string>, k: nat, d: Ref, cls: Class, attrs: map<string, Attr>, ns: NS)
    requires k < |parts| && d in st.nodes && (forall r | r in st.nodes :: r < st.next)
    requires parts[k] !in st.nodes[d].attrs
    ensures var res := Chain(st, d, parts, k, cls, attrs, ns);
      Extends(st, res.0) && forall q | q in res.0.nodes :: q in st.nodes || st.next <= q < res.0.next
    decreases |parts| - k
  {
    var st1 := ChainStep(st, parts, k, d, cls, attrs, ns);
    var rest := Chain(st1, st.next, parts, k + 1, cls, attrs, ns);
    if k + 1 < |parts| {
      ChainExtends(st1, parts, k + 1, st.next, cls, attrs, ns);
      ExtendsTrans(st, st1, rest.0);
    } else {
      assert rest == (st1, []);
    }
  }

  /** The chain keeps the tree valid. */
  lemma {:induction false} ChainValid<NS>(st: Store<NS>, parts: seq<string>, k: nat, d: Ref, cls: Class, attrs: map<string, Attr>, ns: NS)
    requires Valid(st) && QualifiedParts(parts) && 1 <= k < |parts| && d in st.nodes
    requires parts[k] !in st.nodes[d].attrs && forall n | n in attrs :: attrs[n].Data?
    ensures Valid(Chain(st, d, parts, k, cls, attrs, ns).0)
    decreases |parts| - k
  {
    var st1 := ChainStep(st, parts, k, d, cls, attrs, ns);
    assert Valid(st1) by {
      LinkValid(st, d, parts[k], ChainNode(st, d, parts, k, cls, attrs, ns));
    }
    if k + 1 < |parts| {
      ChainValid(st1, parts, k + 1, st.next, cls, attrs, ns);
    } else {
      assert Chain(st1, st.next, parts, k + 1, cls, attrs, ns) == (st1, []);
    }
  }

  /** The chain builds the inner nodes with the default factory's class and the last with
      the given class, all owned by the namespace. */
  lemma {:induction false} ChainClasses<NS>(st: Store<NS>, parts: seq<string>, k: nat, d: Ref, cls: Class, attrs: map<string, Attr>, ns: NS)
    requires k < |parts| && d in st.nodes && (forall r | r in st.nodes :: r < st.next)
    requires parts[k] !in st.nodes[d].attrs
    ensures var res := Chain(st, d, parts, k, cls, attrs, ns);
      forall j | 0 <= j < |res.1| ::
        res.1[j] in res.0.nodes && res.0.nodes[res.1[j]].ns == ns &&
        res.0.nodes[res.1[j]].cls == (if j == |res.1| - 1 then cls else st.default)
    decreases |parts| - k
  {
    var st1 := ChainStep(st, parts, k, d, cls, attrs, ns);
    var rest := Chain(st1, st.next, parts, k + 1, cls, attrs, ns);
    var res := Chain(st, d, parts, k, cls, attrs, ns);
    if k + 1 < |parts| {
      assert Extends(st1, rest.0) by {
        ChainExtends(st1, parts, k + 1, st.next, cls, attrs, ns);
      }
      ChainClasses(st1, parts, k + 1, st.next, cls, attrs, ns);
      forall j | 0 <= j < |res.1|
        ensures res.1[j] in res.0.nodes && res.0.nodes[res.1[j]].ns == ns
        ensures res.0.nodes[res.1[j]].cls == (if j == |res.1| - 1 then cls else st.default)
      {
        if j > 0 {
          assert res.1[j] == rest.1[j - 1];
        }
      }
    } else {
      assert rest == (st1, []);
    }
  }

  /** Each created node hangs under the one before it (the first under `d`) by its part. */
  lemma {:induction false} ChainEdges<NS>(st: Store<NS>, parts: seq<string>, k: nat, d: Ref, cls: Class, attrs: map<string, Attr>, ns: NS)
    requires k < |parts| && d in st.nodes && (forall r | r in st.nodes :: r < st.next)
    requires parts[k] !in st.nodes[d].attrs
    ensures var res := Chain(st, d, parts, k, cls, attrs, ns);
      Edge(res.0, d, parts[k], res.1[0]) &&
      forall j | 0 < j < |res.1| :: Edge(res.0, res.1[j - 1], parts[k + j], res.1[j])
    decreases |parts| - k
  {
    var st1 := ChainUnfold(st, parts, k, d, cls, attrs, ns);
    var rest := Chain(st1, st.next, parts, k + 1, cls, attrs, ns);
    var res := Chain(st, d, parts, k, cls, attrs, ns);
    if k + 1 < |parts| {
      ChainFirstEdge(st, parts, k, d, cls, attrs, ns);
      ChainEdges(st1, parts, k + 1, st.next, cls, attrs, ns);
      assert res == (rest.0, [st.next] + rest.1);
      ConsEdges(rest.0, parts, k, st.next, rest.1);
    } else {
      assert rest == (st1, []);
    }
  }

  /** `ChainStep` cut down to what `ChainEdges` needs. */
  lemma ChainUnfold<NS>(st: Store<NS>, parts: seq<string>, k: nat, d: Ref, cls: Class, attrs: map<string, Attr>, ns: NS)
    returns (st1: Store<NS>)
    requires k < |parts| && d in st.nodes && (forall r | r in st.nodes :: r < st.next)
    requires parts[k] !in st.nodes[d].attrs
    ensures st.next in st1.nodes && st1.next == st.next + 1 && (forall r | r in st1.nodes :: r < st1.next)
    ensures k + 1 < |parts| ==> parts[k + 1] !in st1.nodes[st.next].attrs
    ensures Edge(st1, d, parts[k], st.next)
    ensures var rest := Chain(st1, st.next, parts, k + 1, cls, attrs, ns);
      Chain(st, d, parts, k, cls, attrs, ns) == (rest.0, [st.next] + rest.1)
  {
    st1 := ChainStep(st, parts, k, d, cls, attrs, ns);
  }

  /** The first created node hangs under `d` by part `k` once the whole chain is built. */
  lemma ChainFirstEdge<NS>(st: Store<NS>, parts: seq<string>, k: nat, d: Ref, cls: Class, attrs: map<string, Attr>, ns: NS)
    requires k + 1 < |parts| && d in st.nodes && (forall r | r in st.nodes :: r < st.next)
    requires parts[k] !in st.nodes[d].attrs
    ensures Edge(Chain(st, d, parts, k, cls, attrs, ns).0, d, parts[k], st.next)
  {
    var st1 := ChainStep(st, parts, k, d, cls, attrs, ns);
    ChainExtends(st1, parts, k + 1, st.next, cls, attrs, ns);
    ExtendsEdge(st1, Chain(st1, st.next, parts, k + 1, cls, attrs, ns).0, d, parts[k], st.next);
  }

  /** A store that extends another keeps its edges. */
  lemma ExtendsEdge<NS>(st: Store<NS>, st': Store<NS>, p: Ref, name: string, c: Ref)
    requires Extends(st, st') && Edge(st, p, name, c)
    ensures Edge(st', p, name, c)
  {
  }

  /** Edges along `refs` after `first` extend to edges along `[first] + refs`, one part
      earlier. */
  lemma ConsEdges<NS>(st: Store<NS>, parts: seq<string>, k: nat, first: Ref, refs: seq<Ref>)
    requires 1 <= |refs| && k + 1 + |refs| <= |parts|
    requires Edge(st, first, parts[k + 1], refs[0])
    requires forall j | 0 < j < |refs| :: Edge(st, refs[j - 1], parts[k + 1 + j], refs[j])
    ensures var all := [first] + refs;
      forall j | 0 < j < |all| :: Edge(st, all[j - 1], parts[k + j], all[j])
  {
    var all := [first] + refs;
    forall j | 0 < j < |all|
      ensures Edge(st, all[j - 1], parts[k + j], all[j])
    {
      assert all[j] == refs[j - 1];
      if j > 1 {
        assert all[j - 1] == refs[j - 2];
        assert parts[k + j] == parts[k + 1 + (j - 1)];
      }
    }
  }

  /** Each created node is reached from the starting node by the parts consumed so far. */
  lemma ChainFollow<NS>(st: Store<NS>, parts: seq<string>, k: nat, d: Ref, cls: Class, attrs: map<string, Attr>, ns: NS)
    requires Valid(st) && QualifiedParts(parts) && 1 <= k < |parts| && d in st.nodes
    requires parts[k] !in st.nodes[d].attrs && forall n | n in attrs :: attrs[n].Data?
    ensures var res := Chain(st, d, parts, k, cls, attrs, ns);
      Valid(res.0) && d in res.0.nodes &&
      forall j | 0 <= j < |res.1| :: Follow(res.0, d, parts[k..k + j + 1]) == Ok(res.1[j])
  {
    var res := Chain(st, d, parts, k, cls, attrs, ns);
    ChainValid(st, parts, k, d, cls, attrs, ns);
    ChainExtends(st, parts, k, d, cls, attrs, ns);
    ChainEdges(st, parts, k, d, cls, attrs, ns);
    var names := parts[k..];
    assert names[0] == parts[k];
    forall j | 0 < j < |res.1|
      ensures Edge(res.0, res.1[j - 1], names[j], res.1[j])
    {
      assert names[j] == parts[k + j];
    }
    FollowEdges(res.0, d, names, res.1, |names|);
    forall j | 0 <= j < |res.1|
      ensures Follow(res.0, d, parts[k..k + j + 1]) == Ok(res.1[j])
    {
      TakeOfDrop(parts, k, j);
      assert Follow(res.0, d, names[..j + 1]) == Ok(res.1[j]);
    }
  }

  /** The first `j + 1` elements from index `k` on are the slice from `k` to `k + j + 1`. */
  lemma TakeOfDrop<T>(s: seq<T>, k: nat, j: nat)
    requires k + j + 1 <= |s|
    ensures s[k..][..j + 1] == s[k..k + j + 1]
  {
  }



}
