/** The `Namespace` and `NamespaceHandle` classes of thewired/namespace/namespace.py. A
    namespace owns a table of nodes (the Store of NamespaceSpec) that its methods change in
    place; each method is proved to leave the table, and return the result, that the
    matching function of NamespaceSpec describes. */
module Namespaces {
  import opened Errors
  import opened Text
  import opened PyValues
  import opened Nsids
  import opened NodeBase
  import opened NamespaceSpec
  import opened NamespaceTheory
  import opened NamespaceLaws
  import opened NamespaceRemoval
  import opened NamespaceWalk

  /** Every node of `st` is still in `st'` with the same id. */
  ghost predicate KeepsIds<NS>(st: Store<NS>, st': Store<NS>)
  {
    forall r | r in st.nodes :: r in st'.nodes && st'.nodes[r].nsid == st.nodes[r].nsid
  }

  /** The outcome of the creation loop once `created` has been made: the nodes still to
      come follow them. */
  function Prepend<NS>(created: seq<Ref>, res: (Store<NS>, Result<seq<Ref>>)): (Store<NS>, Result<seq<Ref>>)
  {
    (res.0, if res.1.Ok? then Ok(created + res.1.value) else res.1)
  }

  /** One turn of the creation loop: the first name's node, once built, is linked and the
      rest are attached below it. */
  lemma AttachTurn<NS>(st: Store<NS>, d: Ref, names: seq<string>, f: Factory, ns: NS, created: seq<Ref>, node: Node<NS>)
    requires d in st.nodes && names != []
    requires MakeChildNsid(st.nodes[d].nsid.nsid, names[0]).Ok?
    requires MakeNode(if |names| == 1 then f else Factory(st.default, []), MakeChildNsid(st.nodes[d].nsid.nsid, names[0]).value, ns) == Ok(node)
    ensures Prepend(created, Attach(st, d, names, f, ns)) ==
      Prepend(created + [st.next], Attach(Link(st, d, names[0], node), st.next, names[1..], f, ns))
  {
    var rest := Attach(Link(st, d, names[0], node), st.next, names[1..], f, ns);
    if rest.1.Ok? {
      assert created + ([st.next] + rest.1.value) == (created + [st.next]) + rest.1.value;
    }
  }

  class Namespace {
    /** The nodes, the root and the default factory's class; every node's `_ns` is this
        namespace (null only while the constructor runs). */
    var st: Store<Namespace?>

    ghost predicate Valid()
      reads this
    {
      NamespaceSpec.Valid(st)
    }

    /** `Namespace(default_node_factory)`: a single root node with id `.`, built by the
        default factory and owned by the new namespace. */
    constructor(default: Class)
      ensures Valid() && st.root == 0 && st.next == 1 && st.default == default
      ensures st.nodes == map[0 := Node(default, Nsid(Root), this as Namespace?, map[])]
    {
      st := Store(map[], 0, 0, default);
      new;
      QualifiedIsValid(Root, false, false);
      var root := MakeNode(Factory(default, []), Root, this);
      st := Store(map[0 := root.value], 0, 1, default);
    }

    /** `get(s)`: the loop that walks one segment at a time from the root until it stands on
        a node whose id is `s`. */
    method Get(s: string) returns (r: Result<Ref>)
      requires Valid()
      ensures r == GetSpec(st, s)
    {
      if CommonPrefix(st.nodes[st.root].nsid.nsid, s).None? {
        return Err(InvalidNsid);
      }
      var target := MakeNsid(s, false);
      if target.Err? {
        return Err(target.error);
      }
      var current := st.root;
      var segments := ListNsidSegments(s, false)[1..];
      var n := 0;
      while st.nodes[current].nsid != target.value
        invariant current in st.nodes && 0 <= n <= |segments|
        invariant GetSpec(st, s) == Descend(st, current, s, segments[n..])
        decreases |segments| - n
      {
        if n >= |segments| {
          return Err(NamespaceInternal);
        }
        var attrs := st.nodes[current].attrs;
        if segments[n] !in attrs {
          return Err(NamespaceLookup);
        }
        if attrs[segments[n]].Data? {
          // a value that is not a node has no `nsid` for the loop test
          return Err(AttributeErr);
        }
        assert segments[n..][1..] == segments[n + 1..];
        current := attrs[segments[n]].ref;
        n := n + 1;
      }
      return Ok(current);
    }

    /** `add(s, factory)`: find the deepest existing ancestor, then create and attach one
        node per missing segment, returning them shallow to deep. */
    method Add(s: string, f: Factory) returns (r: Result<seq<Ref>>)
      requires Valid()
      modifies this
      ensures (st, r) == AddSpec(old(st), s, f, this)
      ensures Valid() && Extends(old(st), st) && (r.Err? ==> st == old(st))
    {
      AddKeepsValid(st, s, f, this);
      if CommonPrefix(st.nodes[st.root].nsid.nsid, s).None? {
        return Err(InvalidNsid);
      }
      var id := MakeNsid(s, false);
      if id.Err? {
        return Err(id.error);
      }
      var ancestry := GetNsidAncestry(s);
      var deepest := FindDeepest(ancestry);
      if deepest.Err? {
        return Err(deepest.error);
      }
      if deepest.value.None? {
        return Err(NamespaceCollision);
      }
      var d := deepest.value.value;
      var stripped := StripCommonPrefix(st.nodes[d].nsid.nsid, s);
      if stripped.Err? {
        return Err(stripped.error);
      }
      var segments := ListNsidSegments(stripped.value.1, false);
      r := AttachSegments(d, segments, f);
    }

    /** The ancestor search of `add`: the for-loop over the ancestry that stops at the first
        id `get` cannot find; running off the end means every ancestor exists. */
    method FindDeepest(ancestry: seq<string>) returns (r: Result<Option<Ref>>)
      requires Valid()
      ensures r == Deepest(st, ancestry, st.root)
    {
      var deepest := st.root;
      var i := 0;
      while i < |ancestry|
        invariant 0 <= i <= |ancestry| && deepest in st.nodes
        invariant Deepest(st, ancestry, st.root) == Deepest(st, ancestry[i..], deepest)
      {
        var g := Get(ancestry[i]);
        if g.Err? {
          return if g.error == NamespaceLookup then Ok(Some(deepest)) else Err(g.error);
        }
        assert ancestry[i..][1..] == ancestry[i + 1..];
        deepest := g.value;
        i := i + 1;
      }
      return Ok(None);
    }

    /** The creation loop of `add`: one node per segment, each attached to the previous
        one, the last built by the given factory and the others by the default one. */
    method AttachSegments(d: Ref, segments: seq<string>, f: Factory) returns (r: Result<seq<Ref>>)
      requires d in st.nodes
      modifies this
      ensures (st, r) == Attach(old(st), d, segments, f, this)
    {
      var deepest := d;
      var created := [];
      var j := 0;
      assert segments[j..] == segments;
      assert Attach(st, d, segments, f, this).1.Ok? ==> [] + Attach(st, d, segments, f, this).1.value == Attach(st, d, segments, f, this).1.value;
      while j < |segments|
        invariant 0 <= j <= |segments| && deepest in st.nodes
        invariant st.default == old(st).default
        invariant Attach(old(st), d, segments, f, this) == Prepend(created, Attach(st, deepest, segments[j..], f, this))
      {
        var childId := MakeChildNsid(st.nodes[deepest].nsid.nsid, segments[j]);
        if childId.Err? {
          return Err(childId.error);
        }
        var factory := if j == |segments| - 1 then f else Factory(st.default, []);
        var node := MakeNode(factory, childId.value, this);
        if node.Err? {
          return Err(node.error);
        }
        var child := st.next;
        assert segments[j..][1..] == segments[j + 1..];
        AttachTurn(st, deepest, segments[j..], f, this, created, node.value);
        st := Link(st, deepest, segments[j], node.value);
        created := created + [child];
        deepest := child;
        j := j + 1;
      }
      assert segments[j..] == [] && created + [] == created;
      return Ok(created);
    }

    /** `add_exactly_one(s, factory)`: refuses with a ValueError when the parent of a
        multi-segment id is missing, then adds and returns the single new node. */
    method AddExactlyOne(s: string, f: Factory) returns (r: Result<Ref>)
      requires Valid()
      modifies this
      ensures (st, r) == AddExactlyOneSpec(old(st), Whole, s, f, this)
      ensures Valid() && Extends(old(st), st)
    {
      var segments := ListNsidSegments(s, true);
      if |segments| > 1 {
        var parent := GetParentNsid(s, 1);
        if parent.Err? {
          return Err(parent.error);
        }
        var g := Get(parent.value);
        if g.Err? {
          return Err(if g.error == NamespaceLookup then ValueErr else g.error);
        }
      }
      var added := Add(s, f);
      if added.Err? {
        return Err(added.error);
      }
      if |added.value| > 1 {
        return Err(NamespaceInternal);
      }
      return Ok(added.value[0]);
    }

    /** `remove(s)`: look up the parent, delete the last segment's attribute from it and
        return what it held. */
    method Remove(s: string) returns (r: Result<Attr>)
      requires Valid()
      modifies this
      ensures (st, r) == RemoveSpec(old(st), s)
      ensures Valid() && KeepsIds(old(st), st) && st.nodes.Keys == old(st.nodes.Keys)
    {
      RemoveKeepsValid(st, s);
      var parentId := GetParentNsid(s, 1);
      if parentId.Err? {
        return Err(parentId.error);
      }
      var parent := Get(parentId.value);
      if parent.Err? {
        return Err(parent.error);
      }
      var p := parent.value;
      var stripped := StripCommonPrefix(st.nodes[p].nsid.nsid, s);
      if stripped.Err? {
        return Err(stripped.error);
      }
      var name := stripped.value.1;
      var node := st.nodes[p];
      if name !in node.attrs {
        return Err(AttributeErr);
      }
      r := Ok(node.attrs[name]);
      st := st.(nodes := st.nodes[p := node.(attrs := node.attrs - {name})]);
    }

    /** `walk()`: the root's basename mapped to the dictionary of its subtree. */
    method Walk() returns (w: WalkDict)
      requires Valid()
      ensures w == WalkSpec(st)
    {
      RootParts();
      QualifiedIsValid(Root, false, false);
      var key := Basename(st.nodes[st.root].nsid.nsid);
      var sub := WalkFrom(st.root);
      w := WalkDict(map[key := sub]);
    }

    /** The recursive `walk(start, walk_dict)` below one node: every attribute whose name
        does not start with `_` and whose value is a node adds that node's basename, mapped
        to its own subtree. */
    method WalkFrom(start: Ref) returns (w: WalkDict)
      requires Valid() && start in st.nodes && QualifiedForm(st.nodes[start].nsid.nsid)
      ensures w == WalkNode(st, start)
      decreases st.next - start
    {
      var attrs := st.nodes[start].attrs;
      var names := attrs.Keys;
      ghost var done: set<string> := {};
      var entries: map<string, WalkDict> := map[];
      WalkEntriesAll(st, start);
      while names != {}
        invariant names + done == attrs.Keys && names !! done
        invariant entries == WalkEntries(st, start, done)
        decreases |names|
      {
        var name :| name in names;
        WalkEntriesGrow(st, start, done, name);
        if !Hidden(name) && attrs[name].Child? {
          var child := attrs[name].ref;
          ChildOfQualified(st.nodes[start].nsid.nsid, name);
          BasenameOfChild(st.nodes[start].nsid.nsid, name);
          var key := Basename(st.nodes[child].nsid.nsid);
          var sub := WalkFrom(child);
          entries := entries[key := sub];
        }
        names := names - {name};
        done := done + {name};
      }
      w := WalkDict(entries);
    }

    /** `get_handle(key, create_nodes)`: a handle whose root is the node at `key`; a missing
        key is added first when `create_nodes` is set. */
    method GetHandle(key: string, createNodes: bool) returns (r: Result<NamespaceHandle>)
      requires Valid()
      modifies this
      ensures var res := GetHandleSpec(old(st), key, createNodes, this);
        st == res.0 && (r.Ok? <==> res.1.Ok?) && (r.Err? ==> r.error == res.1.error) &&
        (r.Ok? ==> fresh(r.value) && r.value.ns == this && r.value.prefix == key &&
                   r.value.root == res.1.value && r.value.Valid())
      ensures Valid() && Extends(old(st), st)
    {
      var g := Get(key);
      if g.Err? {
        if g.error != NamespaceLookup || !createNodes {
          return Err(g.error);
        }
        var added := Add(key, Factory(st.default, []));
        if added.Err? {
          return Err(added.error);
        }
      }
      var root := Get(key);
      if root.Err? {
        return Err(root.error);
      }
      var handle := new NamespaceHandle(this, key);
      return Ok(handle);
    }
  }

  /** What `get_handle(key, create_nodes)` leaves in the namespace, and the handle's root. */
  function GetHandleSpec<NS>(st: Store<NS>, key: string, create: bool, ns: NS): (res: (Store<NS>, Result<Ref>))
    requires Valid(st)
    ensures NamespaceSpec.Valid(res.0)
  {
    var g := GetSpec(st, key);
    if g.Err? && (g.error != NamespaceLookup || !create) then (st, Err(g.error))
    else if g.Ok? then (st, g)
    else
      var added := AddSpec(st, key, Factory(st.default, []), ns);
      AddKeepsValid(st, key, Factory(st.default, []), ns);
      if added.1.Err? then (added.0, Err(added.1.error))
      else (added.0, GetSpec(added.0, key))
  }

  /** A `NamespaceHandle`: the namespace, the prefix put in front of every id, and the node
      at the prefix, looked up once when the handle is made. */
  class NamespaceHandle {
    const ns: Namespace
    const prefix: string
    const root: Ref

    ghost predicate Valid()
      reads this, ns
    {
      ns.Valid() && root in ns.st.nodes && ns.st.nodes[root].nsid == Nsid(prefix) && QualifiedForm(prefix)
    }

    /** `NamespaceHandle(ns, prefix)`: its root is `ns.get(prefix)`, which must succeed. */
    constructor(ns: Namespace, prefix: string)
      requires ns.Valid() && GetSpec(ns.st, prefix).Ok?
      ensures this.ns == ns && this.prefix == prefix && root == GetSpec(ns.st, prefix).value
      ensures Valid()
    {
      GetFindsOnlyQualified(ns.st, prefix);
      this.ns := ns;
      this.prefix := prefix;
      this.root := GetSpec(ns.st, prefix).value;
    }

    /** `get(s)`: `.` is the prefix itself, anything else is appended to the prefix. */
    method Get(s: string) returns (r: Result<Ref>)
      requires Valid()
      ensures r == GetSpec(ns.st, GetId(Under(prefix), s))
    {
      var realId := if s == Root then prefix else prefix + s;
      r := ns.Get(realId);
    }

    /** `add(s, factory)` of the prefix followed by `s`. */
    method Add(s: string, f: Factory) returns (r: Result<seq<Ref>>)
      requires Valid()
      modifies ns
      ensures (ns.st, r) == AddSpec(old(ns.st), RealId(Under(prefix), s), f, ns)
      ensures Valid() && Extends(old(ns.st), ns.st)
    {
      r := ns.Add(prefix + s, f);
    }

    /** `remove(s)` of the prefix followed by `s`. */
    method Remove(s: string) returns (r: Result<Attr>)
      requires Valid()
      modifies ns
      ensures (ns.st, r) == RemoveSpec(old(ns.st), RealId(Under(prefix), s))
      ensures Valid() && KeepsIds(old(ns.st), ns.st)
    {
      r := ns.Remove(prefix + s);
    }

    /** The inherited `add_exactly_one(s, factory)`, whose `get` and `add` are the handle's. */
    method AddExactlyOne(s: string, f: Factory) returns (r: Result<Ref>)
      requires Valid()
      modifies ns
      ensures (ns.st, r) == AddExactlyOneSpec(old(ns.st), Under(prefix), s, f, ns)
      ensures Valid() && Extends(old(ns.st), ns.st)
    {
      var segments := ListNsidSegments(s, true);
      if |segments| > 1 {
        var parent := GetParentNsid(s, 1);
        if parent.Err? {
          return Err(parent.error);
        }
        var g := Get(parent.value);
        if g.Err? {
          return Err(if g.error == NamespaceLookup then ValueErr else g.error);
        }
      }
      var added := Add(s, f);
      if added.Err? {
        return Err(added.error);
      }
      if |added.value| > 1 {
        return Err(NamespaceInternal);
      }
      return Ok(added.value[0]);
    }

    /** The inherited `walk()`, which starts from the handle's root. */
    method Walk() returns (w: WalkDict)
      requires Valid()
      ensures w == WalkDict(map[Basename(prefix) := WalkNode(ns.st, root)])
    {
      var sub := ns.WalkFrom(root);
      w := WalkDict(map[Basename(ns.st.nodes[root].nsid.nsid) := sub]);
    }
  }
}
