/** The contents of a thewired/namespace/namespace.py `Namespace` as a value, and the
    operations `get`, `add`, `add_exactly_one`, `remove` and `walk` as functions of that
    value. Nodes live in a table indexed by reference; a node attribute holding another node
    holds its reference. The classes in namespace.dfy run these operations in place. */
module NamespaceSpec {
  import opened Errors
  import opened Text
  import opened PyValues
  import opened Nsids
  import opened NodeBase

  type Ref = nat

  /** The node table, the root's reference, the next fresh reference and the class of the
      namespace's `default_node_factory`. `NS` is the type of the owning namespace. */
  datatype Store<NS> = Store(nodes: map<Ref, Node<NS>>, root: Ref, next: Ref, default: Class)

  /** How the object an operation is called on maps the ids it is given: a `Namespace` uses
      them unchanged, a `NamespaceHandle` puts its prefix in front. */
  datatype View = Whole | Under(prefix: string)

  /** Attribute `k` of node `r` holds node `c`: a later node, whose id is the child of `r`'s
      id under the identifier `k`, as `make_child_nsid` builds it. */
  predicate ChildOk<NS>(st: Store<NS>, r: Ref, k: string, c: Ref)
    requires r in st.nodes
  {
    c in st.nodes && r < c && IsIdentifier(k) &&
    st.nodes[c].nsid.nsid == ChildOf(st.nodes[r].nsid.nsid, k)
  }

  /** The tree invariant: the root has id `.`, references are below the fresh counter, and
      every node-valued attribute is a consistent child edge. */
  predicate Valid<NS>(st: Store<NS>)
  {
    st.root in st.nodes && st.nodes[st.root].nsid == Nsid(Root) &&
    (forall r | r in st.nodes :: r < st.next) &&
    (forall r, k | r in st.nodes && k in st.nodes[r].attrs && st.nodes[r].attrs[k].Child? ::
      ChildOk(st, r, k, st.nodes[r].attrs[k].ref))
  }

  /** `getattr(node, k)` followed by the loop's `current_node.nsid`: a missing attribute is
      NamespaceLookupError, a value that is not a node has no `nsid` (AttributeError). */
  function Step<NS>(st: Store<NS>, cur: Ref, k: string): (r: Result<Ref>)
    requires Valid(st) && cur in st.nodes
    ensures r.Ok? ==> ChildOk(st, cur, k, r.value)
    ensures r.Err? ==> r.error == NamespaceLookup || r.error == AttributeErr
  {
    var attrs := st.nodes[cur].attrs;
    if k !in attrs then Err(NamespaceLookup)
    else if attrs[k].Data? then Err(AttributeErr)
    else Ok(attrs[k].ref)
  }

  /** The `while current_node.nsid != _nsid_` loop of `get`: stop at a node whose id is the
      target, otherwise take the next segment; running out of segments is an internal
      error. */
  function Descend<NS>(st: Store<NS>, cur: Ref, target: string, segs: seq<string>): (r: Result<Ref>)
    requires Valid(st) && cur in st.nodes
    ensures r.Ok? ==> r.value in st.nodes && st.nodes[r.value].nsid == Nsid(target)
    decreases |segs|
  {
    if st.nodes[cur].nsid == Nsid(target) then Ok(cur)
    else if segs == [] then Err(NamespaceInternal)
    else
      var next :- Step(st, cur, segs[0]);
      Descend(st, next, target, segs[1..])
  }

  /** `Namespace.get(s)`. */
  function GetSpec<NS>(st: Store<NS>, s: string): (r: Result<Ref>)
    requires Valid(st)
    ensures r.Ok? ==> r.value in st.nodes && st.nodes[r.value].nsid == Nsid(s)
  {
    if CommonPrefix(st.nodes[st.root].nsid.nsid, s).None? then Err(InvalidNsid)
    else
      var id :- MakeNsid(s, false);
      Descend(st, st.root, s, ListNsidSegments(s, false)[1..])
  }

  /** Following a path of attribute names from a node. */
  function Follow<NS>(st: Store<NS>, cur: Ref, names: seq<string>): (r: Result<Ref>)
    requires Valid(st) && cur in st.nodes
    ensures r.Ok? ==> r.value in st.nodes && cur <= r.value
    ensures r.Ok? && names != [] ==> cur < r.value
    ensures r.Err? ==> r.error == NamespaceLookup || r.error == AttributeErr
    decreases |names|
  {
    if names == [] then Ok(cur)
    else
      var next :- Step(st, cur, names[0]);
      Follow(st, next, names[1..])
  }

  /** The attribute names leading from the root to a qualified id. */
  function Names(s: string): seq<string>
  {
    if s == Root then [] else Split(s)[1..]
  }

  /** The id-by-id search for the deepest existing ancestor in `add`: Ok(None) when the
      whole ancestry exists; a lookup failure ends the search; other errors escape. */
  function Deepest<NS>(st: Store<NS>, ancestry: seq<string>, deepest: Ref): (r: Result<Option<Ref>>)
    requires Valid(st) && deepest in st.nodes
    ensures r.Ok? && r.value.Some? ==> r.value.value in st.nodes
    decreases |ancestry|
  {
    if ancestry == [] then Ok(None)
    else match GetSpec(st, ancestry[0])
      case Ok(n) => Deepest(st, ancestry[1..], n)
      case Err(e) => if e == NamespaceLookup then Ok(Some(deepest)) else Err(e)
  }

  /** The deepest node reached along a path and the index of the first missing name:
      Ok(None) when the whole path exists. */
  function Missing<NS>(st: Store<NS>, cur: Ref, names: seq<string>): (r: Result<Option<(Ref, nat)>>)
    requires Valid(st) && cur in st.nodes
    ensures r == Ok(None) <==> Follow(st, cur, names).Ok?
    ensures r.Err? <==> Follow(st, cur, names) == Err(AttributeErr)
    ensures r.Err? ==> r.error == AttributeErr
    ensures r.Ok? && r.value.Some? ==>
      r.value.value.1 < |names| && r.value.value.0 in st.nodes &&
      Follow(st, cur, names[..r.value.value.1]) == Ok(r.value.value.0) &&
      Step(st, r.value.value.0, names[r.value.value.1]) == Err(NamespaceLookup)
    decreases |names|
  {
    if names == [] then Ok(None)
    else match Step(st, cur, names[0])
      case Err(e) => if e == NamespaceLookup then Ok(Some((cur, 0))) else Err(e)
      case Ok(c) =>
        match Missing(st, c, names[1..])
        case Ok(Some(found)) =>
          assert names[..found.1 + 1][1..] == names[1..][..found.1];
          assert names[found.1 + 1] == names[1..][found.1];
          Ok(Some((found.0, found.1 + 1)))
        case other => other
  }

  /** `setattr(parent, name, node)` for a new node: it takes the next fresh reference. */
  function Link<NS>(st: Store<NS>, parent: Ref, name: string, node: Node<NS>): (st': Store<NS>)
    requires parent in st.nodes
    ensures st'.next == st.next + 1 && st.next in st'.nodes
    ensures parent != st.next ==> st'.nodes[st.next] == node
    ensures st'.root == st.root && st'.default == st.default
  {
    var p := st.nodes[parent];
    var r := st.next;
    st.(nodes := st.nodes[r := node][parent := p.(attrs := p.attrs[name := Child(r)])], next := r + 1)
  }

  /** Creating the missing suffix: one node per name, each attached to the previous one;
      the default factory builds all but the last, which the given factory builds. */
  function Attach<NS>(st: Store<NS>, parent: Ref, names: seq<string>, f: Factory, ns: NS)
    : (res: (Store<NS>, Result<seq<Ref>>))
    requires parent in st.nodes
    ensures res.1.Ok? ==> |res.1.value| == |names|
    decreases |names|
  {
    if names == [] then (st, Ok([]))
    else match MakeChildNsid(st.nodes[parent].nsid.nsid, names[0])
      case Err(e) => (st, Err(e))
      case Ok(id) =>
        var factory := if |names| == 1 then f else Factory(st.default, []);
        match MakeNode(factory, id, ns)
        case Err(e) => (st, Err(e))
        case Ok(node) =>
          var r := st.next;
          var rest := Attach(Link(st, parent, names[0], node), r, names[1..], f, ns);
          (rest.0, if rest.1.Ok? then Ok([r] + rest.1.value) else rest.1)
  }

  /** `Namespace.add(s, factory)`: the new contents and the created nodes, shallow to deep. */
  function AddSpec<NS>(st: Store<NS>, s: string, f: Factory, ns: NS): (res: (Store<NS>, Result<seq<Ref>>))
    requires Valid(st)
    ensures res.1.Ok? ==> |res.1.value| >= 1
  {
    if CommonPrefix(st.nodes[st.root].nsid.nsid, s).None? then (st, Err(InvalidNsid))
    else match MakeNsid(s, false)
      case Err(e) => (st, Err(e))
      case Ok(_) =>
        match Deepest(st, Ancestry(s), st.root)
        case Err(e) => (st, Err(e))
        case Ok(None) => (st, Err(NamespaceCollision))
        case Ok(Some(d)) =>
          match StripCommonPrefix(st.nodes[d].nsid.nsid, s)
          case Err(e) => (st, Err(e))
          case Ok(stripped) => Attach(st, d, ListNsidSegments(stripped.1, false), f, ns)
  }

  /** `Namespace.remove(s)`: detaches the last segment from its parent and returns what it
      held. */
  function RemoveSpec<NS>(st: Store<NS>, s: string): (res: (Store<NS>, Result<Attr>))
    requires Valid(st)
  {
    match GetParentNsid(s, 1)
    case Err(e) => (st, Err(e))
    case Ok(parentId) =>
      match GetSpec(st, parentId)
      case Err(e) => (st, Err(e))
      case Ok(p) =>
        match StripCommonPrefix(st.nodes[p].nsid.nsid, s)
        case Err(e) => (st, Err(e))
        case Ok(stripped) =>
          var node := st.nodes[p];
          if stripped.1 !in node.attrs then (st, Err(AttributeErr))
          else (st.(nodes := st.nodes[p := node.(attrs := node.attrs - {stripped.1})]), Ok(node.attrs[stripped.1]))
  }

  /** The id `get` looks up for `s` on a view: on a handle `.` is the prefix itself. */
  function GetId(view: View, s: string): string
  {
    match view
    case Whole => s
    case Under(prefix) => if s == Root then prefix else prefix + s
  }

  /** The id `add` and `remove` act on for `s` on a view: the prefix followed by `s`. */
  function RealId(view: View, s: string): string
  {
    match view
    case Whole => s
    case Under(prefix) => prefix + s
  }

  /** The parent test of `add_exactly_one`: a missing parent is a ValueError. */
  function ParentCheck<NS>(st: Store<NS>, view: View, s: string): Result<()>
    requires Valid(st)
  {
    var parent :- GetParentNsid(s, 1);
    match GetSpec(st, GetId(view, parent))
    case Ok(_) => Ok(())
    case Err(e) => Err(if e == NamespaceLookup then ValueErr else e)
  }

  /** `add_exactly_one(s, factory)` on a view. */
  function AddExactlyOneSpec<NS>(st: Store<NS>, view: View, s: string, f: Factory, ns: NS)
    : (res: (Store<NS>, Result<Ref>))
    requires Valid(st)
  {
    var check := if |ListNsidSegments(s, true)| > 1 then ParentCheck(st, view, s) else Ok(());
    if check.Err? then (st, Err(check.error))
    else
      var added := AddSpec(st, RealId(view, s), f, ns);
      if added.1.Err? then (added.0, Err(added.1.error))
      else if |added.1.value| > 1 then (added.0, Err(NamespaceInternal))
      else (added.0, Ok(added.1.value[0]))
  }

  /** The nested dictionary `walk` builds. */
  datatype WalkDict = WalkDict(entries: map<string, WalkDict>)

  /** Attribute names `walk` skips. */
  predicate Hidden(k: string)
  {
    |k| > 0 && k[0] == '_'
  }

  /** The subtree of `walk` below a node: one entry per node-valued attribute whose name
      does not start with `_`. */
  function WalkNode<NS>(st: Store<NS>, r: Ref): WalkDict
    requires Valid(st) && r in st.nodes
    decreases st.next - r
  {
    var attrs := st.nodes[r].attrs;
    WalkDict(map k | k in attrs && !Hidden(k) && Step(st, r, k).Ok? :: WalkNode(st, Step(st, r, k).value))
  }

  /** `Namespace.walk()`: the root's basename mapped to its subtree. */
  function WalkSpec<NS>(st: Store<NS>): WalkDict
    requires Valid(st)
  {
    WalkDict(map[Basename(st.nodes[st.root].nsid.nsid) := WalkNode(st, st.root)])
  }

  /** A path of keys through a walk dictionary. */
  predicate WalkHas(w: WalkDict, path: seq<string>)
    decreases |path|
  {
    path == [] || (path[0] in w.entries && WalkHas(w.entries[path[0]], path[1..]))
  }

  /** The old contents survive in the new: same nodes with the same ids, classes and owner,
      and every attribute that existed keeps its value. */
  ghost predicate Extends<NS>(st: Store<NS>, st': Store<NS>)
  {
    forall r | r in st.nodes ::
      r in st'.nodes && st'.nodes[r].nsid == st.nodes[r].nsid &&
      st'.nodes[r].cls == st.nodes[r].cls && st'.nodes[r].ns == st.nodes[r].ns &&
      forall k | k in st.nodes[r].attrs :: k in st'.nodes[r].attrs && st'.nodes[r].attrs[k] == st.nodes[r].attrs[k]
  }
}
