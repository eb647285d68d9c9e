/** `NamespaceConfigParser2` of thewired/namespaceconfigparser2.py: a depth-first walk of a
    configuration mapping that adds one node per key holding a mapping, through
    `add_exactly_one` of a namespace or of a handle, under the id `make_child_nsid(prefix,
    key)`. Keys named in the callback targets first go through the input mutator, which may
    replace the mapping being walked and the key; meta keys describe the factory of the
    enclosing node and are skipped. */
module ConfigParsers2 {
  import opened Errors
  import opened Text
  import opened PyValues
  import opened Nsids
  import opened NodeBase
  import opened NamespaceSpec
  import opened NamespaceTheory
  import opened NamespaceLaws
  import opened NamespaceHandles
  import opened Namespaces
  import opened ConfigFactories

  /** What `parse` returns: `None` for a configuration without `keys()`, otherwise the
      namespace it added to. */
  datatype Returned = NoneReturned | NsReturned

  /** The parser's settings: the default node factory's class, the keys that trigger the
      input mutator, the mutator, and the import registry factories are resolved in. */
  datatype Settings = Settings(
    default: Class,
    targets: seq<string>,
    mutator: (Value, string) -> (Value, string),
    registry: Registry)

  /** `dictConfig[key]`: a value without `__getitem__` for strings is a TypeError, a missing
      key a KeyError. */
  function Subscript(cfg: Value, key: string): (r: Result<Value>)
    ensures r.Ok? <==> cfg.DictV? && HasKey(cfg.entries, key)
    ensures r.Ok? ==> r == Ok(Lookup(cfg.entries, key).value)
  {
    if !cfg.DictV? then Err(TypeErr)
    else match Lookup(cfg.entries, key)
      case None => Err(KeyErr)
      case Some(v) => Ok(v)
  }

  /** Creating missing nodes leaves the root where it was. */
  lemma {:induction false} AttachKeepsRoot<NS>(st: Store<NS>, parent: Ref, names: seq<string>, f: Factory, ns: NS)
    requires parent in st.nodes
    ensures Attach(st, parent, names, f, ns).0.root == st.root
    decreases |names|
  {
    if names != [] {
      var id := MakeChildNsid(st.nodes[parent].nsid.nsid, names[0]);
      if id.Ok? {
        var factory := if |names| == 1 then f else Factory(st.default, []);
        var node := MakeNode(factory, id.value, ns);
        if node.Ok? {
          AttachKeepsRoot(Link(st, parent, names[0], node.value), st.next, names[1..], f, ns);
        }
      }
    }
  }

  /** `add` keeps the root. */
  lemma AddKeepsRoot<NS>(st: Store<NS>, id: string, f: Factory, ns: NS)
    requires Valid(st)
    ensures AddSpec(st, id, f, ns).0.root == st.root
  {
    if CommonPrefix(st.nodes[st.root].nsid.nsid, id).Some? && MakeNsid(id, false).Ok? {
      var d := Deepest(st, Ancestry(id), st.root);
      if d.Ok? && d.value.Some? {
        var stripped := StripCommonPrefix(st.nodes[d.value.value].nsid.nsid, id);
        if stripped.Ok? {
          AttachKeepsRoot(st, d.value.value, ListNsidSegments(stripped.value.1, false), f, ns);
        }
      }
    }
  }

  /** `add_exactly_one` never loses what the namespace held, and keeps its root. */
  lemma AddOneKeeps<NS>(st: Store<NS>, view: View, s: string, f: Factory, ns: NS)
    requires Valid(st)
    ensures var res := AddExactlyOneSpec(st, view, s, f, ns);
      Valid(res.0) && Extends(st, res.0) && res.0.root == st.root
  {
    AddKeepsValid(st, RealId(view, s), f, ns);
    AddKeepsRoot(st, RealId(view, s), f, ns);
  }

  /** `parse(dictConfig, prefix)`, with `fuel` standing for the interpreter's recursion
      limit: a value without `keys()` returns `None` and changes nothing; otherwise the keys
      are parsed in order and the namespace is returned. */
  function ParseSpec<NS>(st: Store<NS>, view: View, ns: NS, p: Settings, cfg: Value, prefix: string, fuel: nat)
    : (res: (Store<NS>, Result<Returned>))
    requires Valid(st)
    ensures Valid(res.0) && Extends(st, res.0) && res.0.root == st.root
    ensures !cfg.DictV? ==> res == (st, Ok(NoneReturned))
    ensures cfg.DictV? && res.1.Ok? ==> res.1.value == NsReturned
    decreases fuel, 2, 0
  {
    if !cfg.DictV? then (st, Ok(NoneReturned))
    else
      var r := KeysSpec(st, view, ns, p, Keys(cfg.entries), 0, cfg, prefix, fuel);
      (r.0, if r.1.Err? then Err(r.1.error) else Ok(NsReturned))
  }

  /** The key a round of the loop parses, and the configuration it parses it in: a callback
      target goes through the mutator first. */
  function Mutate(p: Settings, cur: Value, key: string): (Value, string)
  {
    if key in p.targets then p.mutator(cur, key) else (cur, key)
  }

  /** The loop of `parse` over the snapshot `keys` of the original configuration, from the
      `i`-th key on, with `cur` the configuration as the mutator last left it. Meta keys are
      skipped; the first failing key stops the loop. */
  function KeysSpec<NS>(st: Store<NS>, view: View, ns: NS, p: Settings, keys: seq<string>, i: nat,
                        cur: Value, prefix: string, fuel: nat)
    : (res: (Store<NS>, Result<()>))
    requires Valid(st) && i <= |keys|
    ensures Valid(res.0) && Extends(st, res.0) && res.0.root == st.root
    decreases fuel, 1, |keys| - i
  {
    if i == |keys| then (st, Ok(()))
    else
      var (cur', key) := Mutate(p, cur, keys[i]);
      if key in MetaKeys then KeysSpec(st, view, ns, p, keys, i + 1, cur', prefix, fuel)
      else
        var r := KeySpec(st, view, ns, p, cur', key, prefix, fuel);
        if r.1.Err? then r
        else
          var rest := KeysSpec(r.0, view, ns, p, keys, i + 1, cur', prefix, fuel);
          ExtendsTrans(st, r.0, rest.0);
          rest
  }

  /** One non-meta key: its value's factory, when it has one, builds the node
      `make_child_nsid(prefix, key)` through `add_exactly_one`, and the value is parsed below
      that id. */
  function KeySpec<NS>(st: Store<NS>, view: View, ns: NS, p: Settings, cur: Value, key: string, prefix: string, fuel: nat)
    : (res: (Store<NS>, Result<()>))
    requires Valid(st)
    ensures Valid(res.0) && Extends(st, res.0) && res.0.root == st.root
    decreases fuel, 0, 1
  {
    var item := Subscript(cur, key);
    if item.Err? then (st, Err(item.error))
    else
      var fr := CreateFactorySpec(item.value, p.default, p.registry);
      if fr.Err? then (st, Err(fr.error))
      else if fr.value.None? then (st, Ok(()))
      else
        var id := MakeChildNsid(prefix, key);
        if id.Err? then (st, Err(id.error))
        else
          var added := AddExactlyOneSpec(st, view, id.value, fr.value.value, ns);
          AddOneKeeps(st, view, id.value, fr.value.value, ns);
          var r := ParseBelow(added, view, ns, p, item.value, id.value, fuel);
          ExtendsTrans(st, added.0, r.0);
          r
  }

  /** After `ns.add_exactly_one(id, factory)` returned `added`: its failure propagates,
      otherwise the key's value is parsed below `id`; running out of recursion is a
      RecursionError. */
  function ParseBelow<NS>(added: (Store<NS>, Result<Ref>), view: View, ns: NS, p: Settings, item: Value, id: string, fuel: nat)
    : (res: (Store<NS>, Result<()>))
    requires Valid(added.0)
    ensures Valid(res.0) && Extends(added.0, res.0) && res.0.root == added.0.root
    decreases fuel, 0, 0
  {
    if added.1.Err? then (added.0, Err(added.1.error))
    else if fuel == 0 then (added.0, Err(RecursionErr))
    else
      var sub := ParseSpec(added.0, view, ns, p, item, id, fuel - 1);
      (sub.0, if sub.1.Err? then Err(sub.1.error) else Ok(()))
  }

  // ---------------------------------------------------------------------------------------
  // What a parse adds

  /** The first entry for `k` holds a mapping. */
  predicate MapsToMapping(entries: seq<(string, Value)>, k: string)
  {
    Lookup(entries, k).Some? && Lookup(entries, k).value.DictV?
  }

  /** No key of the configuration triggers the input mutator. */
  predicate NoTargets(p: Settings, cfg: Value)
    requires cfg.DictV?
  {
    forall j | 0 <= j < |cfg.entries| :: cfg.entries[j].0 !in p.targets
  }

  /** The loop over keys that are all meta keys or hold values without `keys()` adds
      nothing. */
  lemma {:induction false} KeysSkipScalars<NS>(st: Store<NS>, view: View, ns: NS, p: Settings, cfg: Value, i: nat, prefix: string, fuel: nat)
    requires Valid(st) && cfg.DictV? && i <= |cfg.entries| && NoTargets(p, cfg)
    requires forall j | 0 <= j < |cfg.entries| ::
      cfg.entries[j].0 in MetaKeys || !MapsToMapping(cfg.entries, cfg.entries[j].0)
    ensures KeysSpec(st, view, ns, p, Keys(cfg.entries), i, cfg, prefix, fuel) == (st, Ok(()))
    decreases |cfg.entries| - i
  {
    if i < |cfg.entries| {
      var k := cfg.entries[i].0;
      assert Keys(cfg.entries)[i] == k;
      assert Mutate(p, cfg, k) == (cfg, k);
      if k !in MetaKeys {
        KeySkipsScalar(st, view, ns, p, cfg, k, prefix, fuel);
      }
      KeysSkipScalars(st, view, ns, p, cfg, i + 1, prefix, fuel);
    }
  }

  /** A key whose value has no `keys()` has no factory and makes no node. */
  lemma KeySkipsScalar<NS>(st: Store<NS>, view: View, ns: NS, p: Settings, cfg: Value, k: string, prefix: string, fuel: nat)
    requires Valid(st) && cfg.DictV? && HasKey(cfg.entries, k) && !MapsToMapping(cfg.entries, k)
    ensures KeySpec(st, view, ns, p, cfg, k, prefix, fuel) == (st, Ok(()))
  {
  }

  /** Only keys holding mappings become nodes: a configuration whose keys are all meta keys
      or hold plain values leaves the namespace as it was. */
  lemma ScalarsMakeNoNodes<NS>(st: Store<NS>, view: View, ns: NS, p: Settings, cfg: Value, prefix: string, fuel: nat)
    requires Valid(st) && cfg.DictV? && NoTargets(p, cfg)
    requires forall j | 0 <= j < |cfg.entries| ::
      cfg.entries[j].0 in MetaKeys || !MapsToMapping(cfg.entries, cfg.entries[j].0)
    ensures ParseSpec(st, view, ns, p, cfg, prefix, fuel) == (st, Ok(NsReturned))
  {
    KeysSkipScalars(st, view, ns, p, cfg, 0, prefix, fuel);
  }

  /** The mutator gives back what it is given. */
  ghost predicate IdentityMutator(p: Settings)
  {
    forall c, k :: p.mutator(c, k) == (c, k)
  }

  /** With an identity mutator the callback targets make no difference. */
  lemma {:induction false} ParseIgnoresTargets<NS>(st: Store<NS>, view: View, ns: NS, p: Settings, q: Settings,
                                                   cfg: Value, prefix: string, fuel: nat)
    requires Valid(st) && IdentityMutator(p) && IdentityMutator(q)
    requires p.default == q.default && p.registry == q.registry
    ensures ParseSpec(st, view, ns, p, cfg, prefix, fuel) == ParseSpec(st, view, ns, q, cfg, prefix, fuel)
    decreases fuel, 2, 0, 0
  {
    if cfg.DictV? {
      KeysIgnoreTargets(st, view, ns, p, q, Keys(cfg.entries), 0, cfg, prefix, fuel);
    }
  }

  lemma {:induction false} KeysIgnoreTargets<NS>(st: Store<NS>, view: View, ns: NS, p: Settings, q: Settings,
                                                 keys: seq<string>, i: nat, cur: Value, prefix: string, fuel: nat)
    requires Valid(st) && i <= |keys| && IdentityMutator(p) && IdentityMutator(q)
    requires p.default == q.default && p.registry == q.registry
    ensures KeysSpec(st, view, ns, p, keys, i, cur, prefix, fuel) == KeysSpec(st, view, ns, q, keys, i, cur, prefix, fuel)
    decreases fuel, 1, |keys| - i, 1
  {
    if i < |keys| {
      if keys[i] !in MetaKeys {
        KeyRoundIgnoresTargets(st, view, ns, p, q, keys, i, cur, prefix, fuel);
      } else {
        KeysStepMeta(st, view, ns, p, keys, i, cur, prefix, fuel, cur, keys[i]);
        KeysStepMeta(st, view, ns, q, keys, i, cur, prefix, fuel, cur, keys[i]);
        KeysIgnoreTargets(st, view, ns, p, q, keys, i + 1, cur, prefix, fuel);
      }
    }
  }

  /** A round of the loop on a key that is not a meta key, with the targets ignored. */
  lemma {:induction false} KeyRoundIgnoresTargets<NS>(st: Store<NS>, view: View, ns: NS, p: Settings, q: Settings,
                                                      keys: seq<string>, i: nat, cur: Value, prefix: string, fuel: nat)
    requires Valid(st) && i < |keys| && keys[i] !in MetaKeys && IdentityMutator(p) && IdentityMutator(q)
    requires p.default == q.default && p.registry == q.registry
    ensures KeysSpec(st, view, ns, p, keys, i, cur, prefix, fuel) == KeysSpec(st, view, ns, q, keys, i, cur, prefix, fuel)
    decreases fuel, 1, |keys| - i, 0
  {
    var key := keys[i];
    assert Mutate(p, cur, key) == (cur, key) && Mutate(q, cur, key) == (cur, key);
    KeyIgnoresTargets(st, view, ns, p, q, cur, key, prefix, fuel);
    var r := KeySpec(st, view, ns, p, cur, key, prefix, fuel);
    KeysStepKey(st, view, ns, p, keys, i, cur, prefix, fuel, cur, key, r.0, r.1);
    KeysStepKey(st, view, ns, q, keys, i, cur, prefix, fuel, cur, key, r.0, r.1);
    if r.1.Ok? {
      KeysIgnoreTargets(r.0, view, ns, p, q, keys, i + 1, cur, prefix, fuel);
    }
  }

  lemma {:induction false} KeyIgnoresTargets<NS>(st: Store<NS>, view: View, ns: NS, p: Settings, q: Settings,
                                                 cur: Value, key: string, prefix: string, fuel: nat)
    requires Valid(st) && IdentityMutator(p) && IdentityMutator(q)
    requires p.default == q.default && p.registry == q.registry
    ensures KeySpec(st, view, ns, p, cur, key, prefix, fuel) == KeySpec(st, view, ns, q, cur, key, prefix, fuel)
    decreases fuel, 0, 1, 0
  {
    var item := Subscript(cur, key);
    if item.Ok? {
      var fr := CreateFactorySpec(item.value, p.default, p.registry);
      var id := MakeChildNsid(prefix, key);
      if fr.Ok? && fr.value.Some? && id.Ok? {
        var added := AddExactlyOneSpec(st, view, id.value, fr.value.value, ns);
        AddOneKeeps(st, view, id.value, fr.value.value, ns);
        BelowIgnoresTargets(added, view, ns, p, q, item.value, id.value, fuel);
      }
    }
  }

  lemma {:induction false} BelowIgnoresTargets<NS>(added: (Store<NS>, Result<Ref>), view: View, ns: NS, p: Settings, q: Settings,
                                                   item: Value, id: string, fuel: nat)
    requires Valid(added.0) && IdentityMutator(p) && IdentityMutator(q)
    requires p.default == q.default && p.registry == q.registry
    ensures ParseBelow(added, view, ns, p, item, id, fuel) == ParseBelow(added, view, ns, q, item, id, fuel)
    decreases fuel, 0, 0, 0
  {
    if added.1.Ok? && fuel > 0 {
      ParseIgnoresTargets(added.0, view, ns, p, q, item, id, fuel - 1);
    }
  }

  // ---------------------------------------------------------------------------------------
  // Every mapping key becomes a node

  /** The prefixes a top-level parse starts from: the default empty prefix, or an id. */
  predicate PrefixOk(prefix: string)
  {
    prefix == "" || QualifiedForm(prefix)
  }

  /** `make_child_nsid(prefix, key)` of an identifier is a fully-qualified id other than the
      root: `.key` from the empty prefix, `prefix.key` otherwise. */
  lemma ChildIdQualified(prefix: string, key: string)
    requires PrefixOk(prefix) && IsIdentifier(key)
    ensures MakeChildNsid(prefix, key).Ok?
    ensures QualifiedForm(MakeChildNsid(prefix, key).value) && MakeChildNsid(prefix, key).value != Root
  {
    IdentifierHasNoDotOrSpace(key);
    if prefix == "" {
      IdentifierIsValid(key, true);
      SplitNoDot("");
      assert IsValidNsidStr("", true, false) == Ok(true);
      SplitDotFreeHead("", key);
      SplitNoDot(key);
      assert MakeChildNsid(prefix, key).value == "" + "." + key;
      assert Split("" + "." + key) == ["", key];
    } else {
      MakeChildQualified(prefix, key);
      var r := MakeChildNsid(prefix, key).value;
      assert |Split(r)| >= 2 && IsIdentifier(Split(r)[|Split(r)| - 1]);
    }
  }

  /** A successful `add_exactly_one` of a fully-qualified id on the whole namespace: `get`
      finds the new node under that id, and the factory's class built it. */
  lemma AddOneFinds<NS>(st: Store<NS>, s: string, f: Factory, ns: NS)
    requires Valid(st) && QualifiedForm(s) && s != Root
    requires AddExactlyOneSpec(st, Whole, s, f, ns).1.Ok?
    ensures var res := AddExactlyOneSpec(st, Whole, s, f, ns);
      Valid(res.0) && GetSpec(res.0, s) == Ok(res.1.value) && res.0.nodes[res.1.value].cls == f.cls
  {
    AddOneIsAdd(st, s, f, ns);
    AddOneAttrs(st, s, f, ns);
    AddThenGet(st, s, f, ns);
  }

  /** On the whole namespace, a successful `add_exactly_one` is an `add` that created one
      node, and returns it. */
  lemma AddOneIsAdd<NS>(st: Store<NS>, s: string, f: Factory, ns: NS)
    requires Valid(st) && AddExactlyOneSpec(st, Whole, s, f, ns).1.Ok?
    ensures var added := AddSpec(st, s, f, ns);
      added.1.Ok? && |added.1.value| == 1 &&
      AddExactlyOneSpec(st, Whole, s, f, ns) == (added.0, Ok(added.1.value[0]))
  {
    assert RealId(Whole, s) == s;
  }

  /** The one node a successful `add_exactly_one` creates was built by the factory's class
      and holds its keyword arguments, and nothing else, as attributes. */
  lemma AddOneAttrs<NS>(st: Store<NS>, s: string, f: Factory, ns: NS)
    requires Valid(st) && QualifiedForm(s) && s != Root
    requires AddExactlyOneSpec(st, Whole, s, f, ns).1.Ok?
    ensures var res := AddExactlyOneSpec(st, Whole, s, f, ns);
      res.1.value in res.0.nodes && res.0.nodes[res.1.value].cls == f.cls &&
      res.0.nodes[res.1.value].attrs == KwargAttrs(f.kwargs)
  {
    var parts := Split(s);
    AddOneIsAdd(st, s, f, ns);
    AddViaMissing(st, s, f, ns);
    var m := Missing(st, st.root, parts[1..]);
    assert m.Ok? && m.value.Some?;
    var d, i := m.value.value.0, m.value.value.1 + 1;
    AddIsChain(st, s, f, ns, i, d);
    OneLink(st, d, parts, i, f.cls, KwargAttrs(f.kwargs), ns);
  }

  /** A chain of one part links one node, the last one, at `st.next`. */
  lemma OneLink<NS>(st: Store<NS>, d: Ref, parts: seq<string>, i: nat, cls: Class, attrs: map<string, Attr>, ns: NS)
    requires Valid(st) && d in st.nodes && i < |parts|
    requires |Chain(st, d, parts, i, cls, attrs, ns).1| <= 1
    ensures var res := Chain(st, d, parts, i, cls, attrs, ns);
      res.1 == [st.next] && st.next in res.0.nodes &&
      res.0.nodes[st.next].cls == cls && res.0.nodes[st.next].attrs == attrs
  {
    var node := ChainNode(st, d, parts, i, cls, attrs, ns);
    assert i + 1 == |parts|;
    assert d != st.next;
    var st' := Link(st, d, parts[i], node);
    assert Chain(st', st.next, parts, i + 1, cls, attrs, ns) == (st', []);
    assert [st.next] + [] == [st.next];
    assert Chain(st, d, parts, i, cls, attrs, ns) == (st', [st.next]);
    assert node.cls == cls && node.attrs == attrs;
  }

  /** What `get` finds under a fully-qualified id it still finds, unchanged, in an extension
      with the same root. */
  lemma GetKept<NS>(st: Store<NS>, st': Store<NS>, s: string)
    requires Valid(st) && Valid(st') && Extends(st, st') && st'.root == st.root
    requires QualifiedForm(s) && GetSpec(st, s).Ok?
    ensures GetSpec(st', s) == GetSpec(st, s)
    ensures st'.nodes[GetSpec(st, s).value].cls == st.nodes[GetSpec(st, s).value].cls
  {
    GetIsFollow(st, s);
    GetIsFollow(st', s);
    FollowExtends(st, st', st.root, Names(s));
  }

  /** A key the parser turns into a node: not a meta key, an identifier, holding a
      mapping. */
  predicate NodeKey(cfg: Value, k: string)
    requires cfg.DictV?
  {
    k !in MetaKeys && IsIdentifier(k) && MapsToMapping(cfg.entries, k)
  }

  /** The node for key `k` is in the namespace: `get(make_child_nsid(prefix, k))` finds it,
      and the factory its value names built it. */
  ghost predicate Made<NS>(st: Store<NS>, p: Settings, cfg: Value, prefix: string, k: string)
    requires Valid(st) && cfg.DictV? && NodeKey(cfg, k)
  {
    var f := CreateFactorySpec(Lookup(cfg.entries, k).value, p.default, p.registry);
    var id := MakeChildNsid(prefix, k);
    f.Ok? && f.value.Some? && id.Ok? && GetSpec(st, id.value).Ok? &&
    Built(st.nodes[GetSpec(st, id.value).value], f.value.value)
  }

  /** Node `n` was built by factory `f`: it has the factory's class, and every keyword
      argument that is not a reserved name is a plain data attribute holding its value. */
  predicate Built<NS>(n: Node<NS>, f: Factory)
  {
    n.cls == f.cls &&
    forall a | a in KwargAttrs(f.kwargs) :: a in n.attrs && n.attrs[a] == KwargAttrs(f.kwargs)[a]
  }

  lemma MadeKept<NS>(st: Store<NS>, st': Store<NS>, p: Settings, cfg: Value, prefix: string, k: string)
    requires Valid(st) && Valid(st') && Extends(st, st') && st'.root == st.root
    requires cfg.DictV? && NodeKey(cfg, k) && PrefixOk(prefix) && Made(st, p, cfg, prefix, k)
    ensures Made(st', p, cfg, prefix, k)
  {
    ChildIdQualified(prefix, k);
    var id := MakeChildNsid(prefix, k).value;
    GetKept(st, st', id);
    var f := CreateFactorySpec(Lookup(cfg.entries, k).value, p.default, p.registry).value.value;
    BuiltKept(st, st', GetSpec(st, id).value, f);
  }

  /** What a factory built stays so in an extension. */
  lemma BuiltKept<NS>(st: Store<NS>, st': Store<NS>, r: Ref, f: Factory)
    requires Extends(st, st') && r in st.nodes && Built(st.nodes[r], f)
    ensures r in st'.nodes && Built(st'.nodes[r], f)
  {
  }

  /** One successful round on a node key on the whole namespace makes its node. */
  lemma KeyMakes<NS>(st: Store<NS>, ns: NS, p: Settings, cfg: Value, k: string, prefix: string, fuel: nat)
    requires Valid(st) && cfg.DictV? && NodeKey(cfg, k) && PrefixOk(prefix)
    requires KeySpec(st, Whole, ns, p, cfg, k, prefix, fuel).1.Ok?
    ensures Made(KeySpec(st, Whole, ns, p, cfg, k, prefix, fuel).0, p, cfg, prefix, k)
  {
    ChildIdQualified(prefix, k);
    var v := Lookup(cfg.entries, k).value;
    var f := CreateFactorySpec(v, p.default, p.registry).value.value;
    var id := MakeChildNsid(prefix, k).value;
    var added := AddExactlyOneSpec(st, Whole, id, f, ns);
    AddOneKeeps(st, Whole, id, f, ns);
    AddOneFinds(st, id, f, ns);
    AddOneAttrs(st, id, f, ns);
    var r := ParseBelow(added, Whole, ns, p, v, id, fuel);
    assert KeySpec(st, Whole, ns, p, cfg, k, prefix, fuel) == r;
    GetKept(added.0, r.0, id);
    BuiltKept(added.0, r.0, added.1.value, f);
  }

  /** No key of `cfg`, nor of the mappings it holds down to `depth` levels, triggers the
      input mutator. */
  predicate NoTargetsTree(p: Settings, cfg: Value, depth: nat)
    decreases depth
  {
    cfg.DictV? ==>
      NoTargets(p, cfg) &&
      (depth > 0 ==> forall e | e in cfg.entries :: NoTargetsTree(p, e.1, depth - 1))
  }

  /** Every node key of `cfg` has its node under `make_child_nsid(prefix, key)`, and, down to
      `depth` levels, so has every node key of the mapping it holds, under the key's id. */
  ghost predicate MadeTree<NS>(st: Store<NS>, p: Settings, cfg: Value, prefix: string, depth: nat)
    requires Valid(st)
    decreases depth, 1
  {
    cfg.DictV? ==>
      forall j | 0 <= j < |cfg.entries| && NodeKey(cfg, cfg.entries[j].0) ::
        MadeBelow(st, p, cfg, prefix, cfg.entries[j].0, depth)
  }

  /** The node for key `k` is made, and so is the tree of its value below it. */
  ghost predicate MadeBelow<NS>(st: Store<NS>, p: Settings, cfg: Value, prefix: string, k: string, depth: nat)
    requires Valid(st) && cfg.DictV? && NodeKey(cfg, k)
    decreases depth, 0
  {
    Made(st, p, cfg, prefix, k) &&
    (depth > 0 ==> MadeTree(st, p, Lookup(cfg.entries, k).value, MakeChildNsid(prefix, k).value, depth - 1))
  }

  lemma {:induction false} MadeTreeKept<NS>(st: Store<NS>, st': Store<NS>, p: Settings, cfg: Value, prefix: string, depth: nat)
    requires Valid(st) && Valid(st') && Extends(st, st') && st'.root == st.root && PrefixOk(prefix)
    requires MadeTree(st, p, cfg, prefix, depth)
    ensures MadeTree(st', p, cfg, prefix, depth)
    decreases depth, 1
  {
    if cfg.DictV? {
      forall j | 0 <= j < |cfg.entries| && NodeKey(cfg, cfg.entries[j].0)
        ensures MadeBelow(st', p, cfg, prefix, cfg.entries[j].0, depth)
      {
        MadeBelowKept(st, st', p, cfg, prefix, cfg.entries[j].0, depth);
      }
    }
  }

  lemma {:induction false} MadeBelowKept<NS>(st: Store<NS>, st': Store<NS>, p: Settings, cfg: Value, prefix: string, k: string, depth: nat)
    requires Valid(st) && Valid(st') && Extends(st, st') && st'.root == st.root && PrefixOk(prefix)
    requires cfg.DictV? && NodeKey(cfg, k) && MadeBelow(st, p, cfg, prefix, k, depth)
    ensures MadeBelow(st', p, cfg, prefix, k, depth)
    decreases depth, 0
  {
    MadeKept(st, st', p, cfg, prefix, k);
    if depth > 0 {
      ChildIdQualified(prefix, k);
      var v := Lookup(cfg.entries, k).value;
      var id := MakeChildNsid(prefix, k).value;
      assert PrefixOk(id);
      assert MadeTree(st, p, v, id, depth - 1);
      MadeTreeKept(st, st', p, v, id, depth - 1);
    }
  }

  /** A successful parse into a namespace, from the empty prefix or an id, of a
      configuration none of whose keys triggers the mutator, builds the whole tree: every key
      that is an identifier holding a mapping (not a meta key) has a node that
      `get(make_child_nsid(prefix, key))` finds, built by the class its value's factory names
      (its `__type__`, `__class__` or the default) and holding its `__init__` parameters as
      data; and the keys of that mapping have their nodes below it, level by level. The
      recursion limit `fuel` bounds the depth, and a parse that needs more fails. */
  lemma {:induction false} ParsedKeysFound<NS>(st: Store<NS>, ns: NS, p: Settings, cfg: Value, prefix: string, fuel: nat)
    requires Valid(st) && NoTargetsTree(p, cfg, fuel) && PrefixOk(prefix)
    requires ParseSpec(st, Whole, ns, p, cfg, prefix, fuel).1.Ok?
    ensures MadeTree(ParseSpec(st, Whole, ns, p, cfg, prefix, fuel).0, p, cfg, prefix, fuel)
    decreases fuel, 2, 0, 0
  {
    if cfg.DictV? {
      KeysTree(st, ns, p, cfg, 0, prefix, fuel);
    }
  }

  /** The loop of `parse` from the `i`-th key on builds the tree of each node key it
      meets. */
  lemma {:induction false} KeysTree<NS>(st: Store<NS>, ns: NS, p: Settings, cfg: Value, i: nat, prefix: string, fuel: nat)
    requires Valid(st) && cfg.DictV? && i <= |cfg.entries| && NoTargetsTree(p, cfg, fuel) && PrefixOk(prefix)
    requires KeysSpec(st, Whole, ns, p, Keys(cfg.entries), i, cfg, prefix, fuel).1.Ok?
    ensures var res := KeysSpec(st, Whole, ns, p, Keys(cfg.entries), i, cfg, prefix, fuel);
      forall j | i <= j < |cfg.entries| && NodeKey(cfg, cfg.entries[j].0) :: MadeBelow(res.0, p, cfg, prefix, cfg.entries[j].0, fuel)
    decreases fuel, 1, |cfg.entries| - i, 1
  {
    if i < |cfg.entries| {
      var keys := Keys(cfg.entries);
      var k := cfg.entries[i].0;
      assert keys[i] == k && Mutate(p, cfg, k) == (cfg, k);
      if k in MetaKeys {
        KeysStepMeta(st, Whole, ns, p, keys, i, cfg, prefix, fuel, cfg, k);
        MetaRoundTree(st, ns, p, cfg, i, prefix, fuel);
      } else {
        KeyRoundTree(st, ns, p, cfg, i, prefix, fuel);
      }
    }
  }

  /** A round of the loop on a meta key, and the rounds after it. */
  lemma {:induction false} MetaRoundTree<NS>(st: Store<NS>, ns: NS, p: Settings, cfg: Value, i: nat, prefix: string, fuel: nat)
    requires Valid(st) && cfg.DictV? && i < |cfg.entries| && cfg.entries[i].0 in MetaKeys
    requires NoTargetsTree(p, cfg, fuel) && PrefixOk(prefix)
    requires KeysSpec(st, Whole, ns, p, Keys(cfg.entries), i, cfg, prefix, fuel).1.Ok?
    ensures var res := KeysSpec(st, Whole, ns, p, Keys(cfg.entries), i, cfg, prefix, fuel);
      forall j | i <= j < |cfg.entries| && NodeKey(cfg, cfg.entries[j].0) :: MadeBelow(res.0, p, cfg, prefix, cfg.entries[j].0, fuel)
    decreases fuel, 1, |cfg.entries| - i, 0
  {
    var keys := Keys(cfg.entries);
    var k := cfg.entries[i].0;
    assert keys[i] == k && Mutate(p, cfg, k) == (cfg, k);
    KeysStepMeta(st, Whole, ns, p, keys, i, cfg, prefix, fuel, cfg, k);
    var res := KeysSpec(st, Whole, ns, p, keys, i, cfg, prefix, fuel);
    KeysTree(st, ns, p, cfg, i + 1, prefix, fuel);
    forall j | i <= j < |cfg.entries| && NodeKey(cfg, cfg.entries[j].0)
      ensures MadeBelow(res.0, p, cfg, prefix, cfg.entries[j].0, fuel)
    {
      assert j != i;
    }
  }

  /** A round of the loop on a key that is not a meta key, and the rounds after it. */
  lemma {:induction false} KeyRoundTree<NS>(st: Store<NS>, ns: NS, p: Settings, cfg: Value, i: nat, prefix: string, fuel: nat)
    requires Valid(st) && cfg.DictV? && i < |cfg.entries| && cfg.entries[i].0 !in MetaKeys
    requires NoTargetsTree(p, cfg, fuel) && PrefixOk(prefix)
    requires KeysSpec(st, Whole, ns, p, Keys(cfg.entries), i, cfg, prefix, fuel).1.Ok?
    ensures var res := KeysSpec(st, Whole, ns, p, Keys(cfg.entries), i, cfg, prefix, fuel);
      forall j | i <= j < |cfg.entries| && NodeKey(cfg, cfg.entries[j].0) :: MadeBelow(res.0, p, cfg, prefix, cfg.entries[j].0, fuel)
    decreases fuel, 1, |cfg.entries| - i, 0
  {
    var keys := Keys(cfg.entries);
    var k := cfg.entries[i].0;
    assert keys[i] == k && Mutate(p, cfg, k) == (cfg, k);
    var res := KeysSpec(st, Whole, ns, p, keys, i, cfg, prefix, fuel);
    var r := KeySpec(st, Whole, ns, p, cfg, k, prefix, fuel);
    KeysStepKey(st, Whole, ns, p, keys, i, cfg, prefix, fuel, cfg, k, r.0, r.1);
    if NodeKey(cfg, k) {
      KeyTree(st, ns, p, cfg, k, prefix, fuel);
      MadeBelowKept(r.0, res.0, p, cfg, prefix, k, fuel);
    }
    KeysTree(r.0, ns, p, cfg, i + 1, prefix, fuel);
    forall j | i <= j < |cfg.entries| && NodeKey(cfg, cfg.entries[j].0)
      ensures MadeBelow(res.0, p, cfg, prefix, cfg.entries[j].0, fuel)
    {
      if j == i {
        assert cfg.entries[j].0 == k;
      }
    }
  }

  /** One successful round on a node key builds its node and, below it, the tree of its
      value. */
  lemma {:induction false} KeyTree<NS>(st: Store<NS>, ns: NS, p: Settings, cfg: Value, k: string, prefix: string, fuel: nat)
    requires Valid(st) && cfg.DictV? && NodeKey(cfg, k) && PrefixOk(prefix) && NoTargetsTree(p, cfg, fuel)
    requires KeySpec(st, Whole, ns, p, cfg, k, prefix, fuel).1.Ok?
    ensures MadeBelow(KeySpec(st, Whole, ns, p, cfg, k, prefix, fuel).0, p, cfg, prefix, k, fuel)
    decreases fuel, 0, 0, 0
  {
    KeyMakes(st, ns, p, cfg, k, prefix, fuel);
    ChildIdQualified(prefix, k);
    var v := Lookup(cfg.entries, k).value;
    var f := CreateFactorySpec(v, p.default, p.registry).value.value;
    var id := MakeChildNsid(prefix, k).value;
    var added := AddExactlyOneSpec(st, Whole, id, f, ns);
    AddOneKeeps(st, Whole, id, f, ns);
    var r := KeySpec(st, Whole, ns, p, cfg, k, prefix, fuel);
    assert r == ParseBelow(added, Whole, ns, p, v, id, fuel);
    if fuel > 0 {
      assert (k, v) in cfg.entries;
      var sub := ParseSpec(added.0, Whole, ns, p, v, id, fuel - 1);
      assert r.0 == sub.0 && sub.1.Ok?;
      ParsedKeysFound(added.0, ns, p, v, id, fuel - 1);
      assert MadeTree(r.0, p, v, id, fuel - 1);
    }
  }

  // ---------------------------------------------------------------------------------------
  // The parser object

  /** Where a parser adds its nodes: a namespace, or a handle onto part of one. */
  datatype Target = Plain(n: Namespace) | Handle(h: NamespaceHandle)

  /** Bases resolved so far, in front of the resolution of the rest. */
  function PrependBases(acc: seq<(Class, Symbol)>, rest: Result<seq<(Class, Symbol)>>): Result<seq<(Class, Symbol)>>
  {
    if rest.Err? then rest else Ok(acc + rest.value)
  }

  /** Resolving the bases from the `i`-th on: the `i`-th, then the rest. */
  lemma BasesStep(names: seq<Value>, i: nat, reg: Registry)
    requires i < |names|
    ensures var b := BaseSpec(names[i], reg);
      BasesSpec(names[i..], reg) == if b.Err? then Err(b.error) else PrependBases([b.value], BasesSpec(names[i + 1..], reg))
  {
    assert names[i..][1..] == names[i + 1..];
  }

  /** A round of the `parse` loop on a meta key moves on to the next key. */
  lemma KeysStepMeta<NS>(st: Store<NS>, view: View, ns: NS, p: Settings, keys: seq<string>, i: nat,
                         cur: Value, prefix: string, fuel: nat, cur': Value, key: string)
    requires Valid(st) && i < |keys|
    requires (cur', key) == Mutate(p, cur, keys[i]) && key in MetaKeys
    ensures KeysSpec(st, view, ns, p, keys, i, cur, prefix, fuel) == KeysSpec(st, view, ns, p, keys, i + 1, cur', prefix, fuel)
  {
  }

  /** A round of the `parse` loop on any other key stops at its failure, and otherwise
      moves on to the next key from the store it left. */
  lemma KeysStepKey<NS>(st: Store<NS>, view: View, ns: NS, p: Settings, keys: seq<string>, i: nat,
                        cur: Value, prefix: string, fuel: nat, cur': Value, key: string,
                        st': Store<NS>, r: Result<()>)
    requires Valid(st) && i < |keys|
    requires (cur', key) == Mutate(p, cur, keys[i]) && key !in MetaKeys
    requires (st', r) == KeySpec(st, view, ns, p, cur', key, prefix, fuel)
    ensures r.Err? ==> KeysSpec(st, view, ns, p, keys, i, cur, prefix, fuel) == (st', r)
    ensures r.Ok? ==> Valid(st') && KeysSpec(st, view, ns, p, keys, i, cur, prefix, fuel) == KeysSpec(st', view, ns, p, keys, i + 1, cur', prefix, fuel)
  {
  }

  /** Nothing resolved yet in front leaves the resolution as it is; nothing left to resolve
      leaves what was resolved. */
  lemma PrependEnds(acc: seq<(Class, Symbol)>, rest: Result<seq<(Class, Symbol)>>)
    ensures PrependBases([], rest) == rest
    ensures PrependBases(acc, Ok([])) == Ok(acc)
  {
    if rest.Ok? {
      assert [] + rest.value == rest.value;
    }
    assert acc + [] == acc;
  }

  lemma PrependMore(acc: seq<(Class, Symbol)>, x: (Class, Symbol), rest: Result<seq<(Class, Symbol)>>)
    ensures PrependBases(acc, PrependBases([x], rest)) == PrependBases(acc + [x], rest)
  {
    if rest.Ok? {
      assert acc + ([x] + rest.value) == (acc + [x]) + rest.value;
    }
  }

  /** `NamespaceConfigParser2`: its settings are fixed when it is made; its namespace is
      changed by every `parse`. */
  class ConfigParser2 {
    const default: Class
    const targets: seq<string>
    const mutator: (Value, string) -> (Value, string)
    const registry: Registry
    const target: Target

    /** The settings the specification functions take. */
    function Setup(): Settings
    {
      Settings(default, targets, mutator, registry)
    }

    /** The namespace whose nodes `parse` adds. */
    function Ns(): Namespace
    {
      if target.Plain? then target.n else target.h.ns
    }

    /** How `add_exactly_one` of the target maps an id onto the namespace. */
    function ViewOf(): View
    {
      if target.Plain? then Whole else Under(target.h.prefix)
    }

    function Objects(): set<object>
    {
      if target.Plain? then {Ns()} else {target.h, Ns()}
    }

    ghost predicate Valid()
      reads Objects()
    {
      Ns().Valid() && (target.Handle? ==> target.h.Valid())
    }

    /** `NamespaceConfigParser2(namespace, node_factory, callback_target_keys,
        input_mutator_callback)`: without a namespace a new `Namespace()` is made; without a
        mutator the identity is used. */
    constructor(namespace: Option<Target>, nodeFactory: Class, callbackTargets: seq<string>,
                inputMutator: Option<(Value, string) -> (Value, string)>, registry: Registry)
      requires namespace.Some? && namespace.value.Plain? ==> namespace.value.n.Valid()
      requires namespace.Some? && namespace.value.Handle? ==> namespace.value.h.Valid()
      ensures default == nodeFactory && targets == callbackTargets && this.registry == registry
      ensures inputMutator.Some? ==> mutator == inputMutator.value
      ensures inputMutator.None? ==> forall c, k :: mutator(c, k) == (c, k)
      ensures namespace.Some? ==> target == namespace.value
      ensures namespace.None? ==>
        target.Plain? && fresh(target.n) && target.n.st.default == NamespaceNodeBase &&
        target.n.st.nodes == map[0 := Node(NamespaceNodeBase, Nsid(Root), target.n as Namespace?, map[])]
      ensures Valid()
    {
      default := nodeFactory;
      targets := callbackTargets;
      if inputMutator.Some? {
        mutator := inputMutator.value;
      } else {
        mutator := (c, k) => (c, k);
      }
      this.registry := registry;
      if namespace.Some? {
        target := namespace.value;
      } else {
        var n := new Namespace(NamespaceNodeBase);
        target := Plain(n);
      }
    }

    /** `_parse_meta_factory_function_dynamic_bases(base_names)`: the loop that imports each
        base in turn. */
    method ResolveBases(names: seq<Value>) returns (r: Result<seq<(Class, Symbol)>>)
      ensures r == BasesSpec(names, registry)
    {
      var bases := [];
      var i := 0;
      assert names[i..] == names;
      PrependEnds(bases, BasesSpec(names, registry));
      while i < |names|
        invariant i <= |names|
        invariant BasesSpec(names, registry) == PrependBases(bases, BasesSpec(names[i..], registry))
      {
        BasesStep(names, i, registry);
        var b := ResolveBase(names[i]);
        if b.Err? {
          return Err(b.error);
        }
        PrependMore(bases, b.value, BasesSpec(names[i + 1..], registry));
        bases := bases + [b.value];
        i := i + 1;
      }
      assert names[i..] == [];
      PrependEnds(bases, BasesSpec(names[i..], registry));
      return Ok(bases);
    }

    /** One round of that loop: the module part of the name is imported, falling back to
        the parser's own module when the name has no module part, and the symbol is looked
        up in it. */
    method ResolveBase(name: Value) returns (b: Result<(Class, Symbol)>)
      ensures b == BaseSpec(name, registry)
    {
      if !name.StrV? {
        return Err(AttributeErr);
      }
      var moduleName := ModuleName(name.s);
      var symbolName := SymbolName(name.s);
      var imported := Import(registry, moduleName);
      if imported.Err? && imported.error == ValueErr {
        moduleName := PackageModule;
        imported := Import(registry, PackageModule);
      }
      assert BaseModule(registry, name.s) == if imported.Err? then Err(imported.error) else Ok((moduleName, imported.value));
      if imported.Err? {
        return Err(imported.error);
      }
      if symbolName !in imported.value {
        return Err(ValueErr);
      }
      return Ok((Imported(moduleName, symbolName), imported.value[symbolName]));
    }

    /** `_parse_meta_factory_function_dynamic(dictConfig)`. */
    method DynamicFactory(entries: seq<(string, Value)>) returns (r: Result<Option<Class>>)
      ensures r == DynamicSpec(entries, registry)
    {
      var t := Lookup(entries, "__type__");
      if t.None? {
        return Ok(None);
      }
      if !t.value.DictV? {
        return Err(TypeErr);
      }
      var name := Lookup(t.value.entries, "name");
      var bases := Lookup(t.value.entries, "bases");
      var body := Lookup(t.value.entries, "dict");
      if name.None? || bases.None? || body.None? {
        return Ok(None);
      }
      var names := Iterate(bases.value);
      if names.Err? {
        return Err(names.error);
      }
      var resolved := ResolveBases(names.value);
      if resolved.Err? {
        return Err(resolved.error);
      }
      var c := MakeType(name.value, resolved.value, body.value);
      if c.Err? {
        return Err(c.error);
      }
      return Ok(Some(c.value));
    }

    /** `_parse_meta_factory_function(dictConfig, default_factory_function)`. */
    method FactoryFunction(entries: seq<(string, Value)>, defaultFn: Class) returns (r: Result<Class>)
      ensures r == FactoryFunctionSpec(entries, defaultFn, registry)
    {
      var dyn := DynamicFactory(entries);
      if dyn.Err? {
        return Err(dyn.error);
      }
      if dyn.value.Some? {
        return Ok(dyn.value.value);
      }
      r := StaticSpec(entries, defaultFn, registry);
    }

    /** `_create_factory(dictConfig, default_factory)`. */
    method CreateFactory(v: Value, defaultFn: Class) returns (r: Result<Option<Factory>>)
      ensures r == CreateFactorySpec(v, defaultFn, registry)
      decreases v, 2
    {
      if !v.DictV? {
        return Ok(None);
      }
      var fn := FactoryFunction(v.entries, defaultFn);
      if fn.Err? {
        return Err(fn.error);
      }
      var params := ParseParams(v);
      if params.Err? {
        return Err(params.error);
      }
      return Ok(Some(Factory(fn.value, params.value)));
    }

    /** `_parse_meta_factory_function_params(dictConfig)`: the loop over the `__init__` keys. */
    method ParseParams(cfg: Value) returns (r: Result<seq<(string, Value)>>)
      requires cfg.DictV?
      ensures r == ParamsSpec(cfg, registry)
      decreases cfg, 1
    {
      if cfg.entries == [] {
        return Ok([]);
      }
      var init := Lookup(cfg.entries, "__init__");
      if init.None? || !init.value.DictV? {
        return Ok([]);
      }
      var config := init.value;
      assert ("__init__", config) in cfg.entries;
      var params := [];
      var i := 0;
      ghost var goal := InitSpec(config, 0, [], registry);
      while i < |config.entries|
        invariant i <= |config.entries|
        invariant goal == InitSpec(config, i, params, registry)
      {
        var e := config.entries[i];
        assert e in config.entries;
        var w := e.1;
        var param;
        if w.DictV? && HasMeta(w.entries) {
          var f := CreateFactory(w, PyObject);
          if f.Err? {
            return Err(f.error);
          }
          var made := Call(f.value.value);
          if made.Err? {
            return Err(made.error);
          }
          param := made.value;
        } else {
          param := w;
        }
        params := SetItem(params, e.0, param);
        i := i + 1;
      }
      return Ok(params);
    }

    /** `ns.add_exactly_one(id, factory)` of the target. */
    method AddOne(id: string, f: Factory) returns (r: Result<Ref>)
      requires Valid()
      modifies Ns()
      ensures (Ns().st, r) == AddExactlyOneSpec(old(Ns().st), ViewOf(), id, f, Ns())
      ensures Valid()
    {
      if target.Plain? {
        r := target.n.AddExactlyOne(id, f);
      } else {
        r := target.h.AddExactlyOne(id, f);
      }
    }

    /** `parse(dictConfig, prefix)`: the loop over a snapshot of the keys, with `fuel`
        standing for the recursion limit. */
    method Parse(cfg: Value, prefix: string, fuel: nat) returns (r: Result<Returned>)
      requires Valid()
      modifies Ns()
      ensures (Ns().st, r) == ParseSpec(old(Ns().st), ViewOf(), Ns(), Setup(), cfg, prefix, fuel)
      ensures Valid()
      decreases fuel, 4
    {
      if !cfg.DictV? {
        return Ok(NoneReturned);
      }
      var keys := Keys(cfg.entries);
      var k := ParseKeys(keys, cfg, prefix, fuel);
      if k.Err? {
        return Err(k.error);
      }
      return Ok(NsReturned);
    }

    /** The loop of `parse` over the snapshot `keys`, with `cfg` as the current mapping. */
    method ParseKeys(keys: seq<string>, cfg: Value, prefix: string, fuel: nat) returns (r: Result<()>)
      requires Valid()
      modifies Ns()
      ensures (Ns().st, r) == KeysSpec(old(Ns().st), ViewOf(), Ns(), Setup(), keys, 0, cfg, prefix, fuel)
      ensures Valid()
      decreases fuel, 3
    {
      ghost var view, ns, p := ViewOf(), Ns(), Setup();
      var cur := cfg;
      var i := 0;
      ghost var goal := KeysSpec(ns.st, view, ns, p, keys, 0, cfg, prefix, fuel);
      while i < |keys|
        invariant i <= |keys| && Valid()
        invariant Ns() == ns && ViewOf() == view && Setup() == p
        invariant goal == KeysSpec(ns.st, view, ns, p, keys, i, cur, prefix, fuel)
      {
        var k;
        cur, k := ParseRound(keys, i, cur, prefix, fuel);
        if k.Err? {
          return k;
        }
        i := i + 1;
      }
      return Ok(());
    }

    /** One round of the `parse` loop: the mutator for a callback target, then the key
        unless it is a meta key. */
    method ParseRound(keys: seq<string>, i: nat, cur: Value, prefix: string, fuel: nat) returns (cur': Value, r: Result<()>)
      requires Valid() && i < |keys|
      modifies Ns()
      ensures Valid()
      ensures r.Err? ==> KeysSpec(old(Ns().st), ViewOf(), Ns(), Setup(), keys, i, cur, prefix, fuel) == (Ns().st, r)
      ensures r.Ok? ==>
        KeysSpec(old(Ns().st), ViewOf(), Ns(), Setup(), keys, i, cur, prefix, fuel)
        == KeysSpec(Ns().st, ViewOf(), Ns(), Setup(), keys, i + 1, cur', prefix, fuel)
      decreases fuel, 2
    {
      ghost var st0 := Ns().st;
      var key := keys[i];
      cur' := cur;
      if key in targets {
        var m := mutator(cur, key);
        cur', key := m.0, m.1;
      }
      assert (cur', key) == Mutate(Setup(), cur, keys[i]);
      if key !in MetaKeys {
        r := ParseKey(cur', key, prefix, fuel);
        KeysStepKey(st0, ViewOf(), Ns(), Setup(), keys, i, cur, prefix, fuel, cur', key, Ns().st, r);
      } else {
        r := Ok(());
        KeysStepMeta(st0, ViewOf(), Ns(), Setup(), keys, i, cur, prefix, fuel, cur', key);
      }
    }

    /** One round of the `parse` loop for a non-meta key: its factory, the node
        `add_exactly_one` adds for it and the parse of its value below that node. */
    method ParseKey(cur: Value, key: string, prefix: string, fuel: nat) returns (r: Result<()>)
      requires Valid()
      modifies Ns()
      ensures (Ns().st, r) == KeySpec(old(Ns().st), ViewOf(), Ns(), Setup(), cur, key, prefix, fuel)
      ensures Valid()
      decreases fuel, 1
    {
      ghost var st0 := Ns().st;
      ghost var view, ns, p := ViewOf(), Ns(), Setup();
      var item := Subscript(cur, key);
      if item.Err? {
        assert KeySpec(st0, view, ns, p, cur, key, prefix, fuel) == (st0, Err(item.error));
        return Err(item.error);
      }
      var factory := CreateFactory(item.value, default);
      if factory.Err? {
        assert KeySpec(st0, view, ns, p, cur, key, prefix, fuel) == (st0, Err(factory.error));
        return Err(factory.error);
      }
      if factory.value.None? {
        assert KeySpec(st0, view, ns, p, cur, key, prefix, fuel) == (st0, Ok(()));
        return Ok(());
      }
      var id := MakeChildNsid(prefix, key);
      if id.Err? {
        assert KeySpec(st0, view, ns, p, cur, key, prefix, fuel) == (st0, Err(id.error));
        return Err(id.error);
      }
      AddOneKeeps(st0, view, id.value, factory.value.value, ns);
      assert KeySpec(st0, view, ns, p, cur, key, prefix, fuel)
          == ParseBelow(AddExactlyOneSpec(st0, view, id.value, factory.value.value, ns),
                        view, ns, p, item.value, id.value, fuel);
      var added := AddOne(id.value, factory.value.value);
      r := ParseAdded(added, item.value, id.value, fuel);
    }

    /** The rest of the round once `add_exactly_one` returned `added`: the value is parsed
        below the new node. */
    method ParseAdded(added: Result<Ref>, item: Value, id: string, fuel: nat) returns (r: Result<()>)
      requires Valid()
      modifies Ns()
      ensures (Ns().st, r) == ParseBelow((old(Ns().st), added), ViewOf(), Ns(), Setup(), item, id, fuel)
      ensures Valid()
      decreases fuel, 0
    {
      if added.Err? {
        return Err(added.error);
      }
      if fuel == 0 {
        return Err(RecursionErr);
      }
      var sub := Parse(item, id, fuel - 1);
      if sub.Err? {
        return Err(sub.error);
      }
      return Ok(());
    }
  }
}
