/** What `Namespace.walk` promises, proved about WalkSpec: the nested dictionary has a path
    of keys exactly where the tree has a path of node-valued attributes none of whose names
    starts with `_`, and each key is the basename of the node it leads to. */
module NamespaceWalk {
  import opened Errors
  import opened Text
  import opened Nsids
  import opened NamespaceSpec
  import opened NamespaceTheory

  /** No name on the path is hidden from `walk`. */
  predicate Visible(path: seq<string>)
  {
    forall i | 0 <= i < |path| :: !Hidden(path[i])
  }

  /** Below a node, the walk dictionary has a path of keys exactly when following those
      names reaches a node and none of them starts with `_`. */
  lemma {:induction false} WalkReaches<NS>(st: Store<NS>, r: Ref, path: seq<string>)
    requires Valid(st) && r in st.nodes
    ensures WalkHas(WalkNode(st, r), path) <==> Follow(st, r, path).Ok? && Visible(path)
    decreases |path|
  {
    if path != [] {
      var k := path[0];
      var w := WalkNode(st, r);
      if k in st.nodes[r].attrs && !Hidden(k) && Step(st, r, k).Ok? {
        var c := Step(st, r, k).value;
        assert k in w.entries && w.entries[k] == WalkNode(st, c);
        WalkReaches(st, c, path[1..]);
        assert Visible(path) <==> Visible(path[1..]) by {
          if Visible(path[1..]) {
            forall i | 0 <= i < |path|
              ensures !Hidden(path[i])
            {
              if i > 0 {
                assert path[i] == path[1..][i - 1];
              }
            }
          }
        }
      } else {
        assert k !in w.entries;
        assert !Visible(path) || Follow(st, r, path).Err?;
      }
    }
  }

  /** `walk()` has the single key `.` for the root, and below it a path of keys exactly
      where the tree has a visible path of nodes from the root. */
  lemma WalkFromRoot<NS>(st: Store<NS>, path: seq<string>)
    requires Valid(st)
    ensures WalkSpec(st).entries.Keys == {Root}
    ensures WalkHas(WalkSpec(st), [Root] + path) <==> Follow(st, st.root, path).Ok? && Visible(path)
  {
    assert Basename(st.nodes[st.root].nsid.nsid) == Root;
    assert ([Root] + path)[1..] == path;
    WalkReaches(st, st.root, path);
  }

  /** Every node reached from the root has a fully-qualified id. */
  lemma {:induction false} FollowQualified<NS>(st: Store<NS>, r: Ref, path: seq<string>)
    requires Valid(st) && r in st.nodes && QualifiedForm(st.nodes[r].nsid.nsid)
    requires Follow(st, r, path).Ok?
    ensures QualifiedForm(st.nodes[Follow(st, r, path).value].nsid.nsid)
    decreases |path|
  {
    if path != [] {
      var c := Step(st, r, path[0]).value;
      ChildOfQualified(st.nodes[r].nsid.nsid, path[0]);
      FollowQualified(st, c, path[1..]);
    }
  }

  /** The keys `walk` uses are the basenames of the nodes' ids, which for a node reached
      from the root are the attribute names that lead to them. */
  lemma WalkKeysAreBasenames<NS>(st: Store<NS>, path: seq<string>, k: string)
    requires Valid(st) && Follow(st, st.root, path).Ok?
    requires k in WalkNode(st, Follow(st, st.root, path).value).entries
    ensures var r := Follow(st, st.root, path).value;
      Step(st, r, k).Ok? && Basename(st.nodes[Step(st, r, k).value].nsid.nsid) == k
  {
    var r := Follow(st, st.root, path).value;
    RootParts();
    QualifiedIsValid(Root, false, false);
    FollowQualified(st, st.root, path);
    ChildOfIsMakeChild(st.nodes[r].nsid.nsid, k);
    BasenameOfChild(st.nodes[r].nsid.nsid, k);
  }

  /** The part of a node's walk dictionary contributed by the attribute names in `ks`. */
  function WalkEntries<NS>(st: Store<NS>, r: Ref, ks: set<string>): map<string, WalkDict>
    requires Valid(st) && r in st.nodes
  {
    map k | k in ks && k in st.nodes[r].attrs && !Hidden(k) && Step(st, r, k).Ok? :: WalkNode(st, Step(st, r, k).value)
  }

  /** A node's whole walk dictionary is what all its attribute names contribute. */
  lemma WalkEntriesAll<NS>(st: Store<NS>, r: Ref)
    requires Valid(st) && r in st.nodes
    ensures WalkEntries(st, r, {}) == map[]
    ensures WalkNode(st, r) == WalkDict(WalkEntries(st, r, st.nodes[r].attrs.Keys))
  {
  }

  /** One more name adds its entry exactly when it is visible and holds a node. */
  lemma WalkEntriesGrow<NS>(st: Store<NS>, r: Ref, ks: set<string>, k: string)
    requires Valid(st) && r in st.nodes && k !in ks && k in st.nodes[r].attrs
    ensures WalkEntries(st, r, ks + {k}) ==
      if !Hidden(k) && st.nodes[r].attrs[k].Child?
      then WalkEntries(st, r, ks)[k := WalkNode(st, st.nodes[r].attrs[k].ref)]
      else WalkEntries(st, r, ks)
  {
  }
}
