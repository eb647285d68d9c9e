/** How thewired/namespaceconfigparser2.py turns the value under a configuration key into a
    node factory. The `__type__` meta key synthesizes a class with `type(name, bases, dict)`,
    the `__class__` meta key names a callable to import, and the `__init__` meta key gives the
    keyword arguments bound to it with `functools.partial`. The import system is a parameter:
    a registry of the modules `import_module` can load and the kind of each of their symbols. */
module ConfigFactories {
  import opened Errors
  import opened Text
  import opened PyValues
  import opened NodeBase

  /** What `getattr(module, name)` finds: a class, another callable, or a value that is not
      callable. */
  datatype Symbol = ClassSym | FunctionSym | DataSym

  /** The modules `import_module` loads, by absolute name, and the symbols of the parser's
      own module, which `sys.modules[__name__]` gives. */
  datatype Registry = Registry(modules: map<string, map<string, Symbol>>, here: map<string, Symbol>)

  /** The parser's own module name. */
  const ThisModule := "thewired.namespaceconfigparser2"

  /** The package a base class without a module part is looked up in. */
  const PackageModule := "thewired"

  /** The keys that describe the factory of a node rather than a child node. */
  const MetaKeys: set<string> := {"__class__", "__init__", "__type__"}

  /** Some key of the mapping is a meta key: `set(keys).intersection(meta_keys)` is not
      empty. */
  predicate HasMeta(entries: seq<(string, Value)>)
  {
    exists j | 0 <= j < |entries| :: entries[j].0 in MetaKeys
  }

  /** No key occurs twice, as in a Python dict. */
  predicate UniqueKeys(entries: seq<(string, Value)>)
  {
    forall i, j | 0 <= i < j < |entries| :: entries[i].0 != entries[j].0
  }

  /** `import_module(name)`: the empty name is a ValueError, a relative name without a
      package a TypeError, an unknown module an ImportError. */
  function Import(reg: Registry, name: string): Result<map<string, Symbol>>
  {
    if name == "" then Err(ValueErr)
    else if name[0] == '.' then Err(TypeErr)
    else if name in reg.modules then Ok(reg.modules[name])
    else Err(ImportErr)
  }

  /** `'.'.join(path.split('.')[0:-1])`: everything before the last dot. */
  function ModuleName(path: string): string
  {
    var parts := Split(path);
    Join(parts[..|parts| - 1])
  }

  /** `path.split('.')[-1]`: everything after the last dot. */
  function SymbolName(path: string): string
  {
    var parts := Split(path);
    parts[|parts| - 1]
  }

  /** A class the static parse can return: a callable found in a loaded module, or in the
      parser's own module. */
  predicate Resolved(reg: Registry, c: Class)
  {
    c.Imported? &&
    ((c.moduleName in reg.modules && c.symbol in reg.modules[c.moduleName] &&
      reg.modules[c.moduleName][c.symbol] != DataSym) ||
     (c.moduleName == ThisModule && c.symbol in reg.here && reg.here[c.symbol] != DataSym))
  }

  /** `_parse_meta_factory_function_static`. Without a `__class__` key the default is the
      answer. A module name that is empty means the parser's own module. Any other failure
      before a module is known (a non-string path, an unknown or relative module) reaches the
      `finally` block with no module, whose `return` swallows it and gives the default. Once a
      module is known, a missing or non-callable symbol is a ValueError. */
  function StaticSpec(entries: seq<(string, Value)>, default: Class, reg: Registry): (r: Result<Class>)
    ensures r.Err? ==> r.error == ValueErr
    ensures r.Ok? ==> r.value == default || Resolved(reg, r.value)
  {
    var c := Lookup(entries, "__class__");
    if c.None? || !c.value.StrV? then Ok(default)
    else
      var path := c.value.s;
      var m := Import(reg, ModuleName(path));
      if m.Err? && m.error != ValueErr then Ok(default)
      else
        var modName := if m.Ok? then ModuleName(path) else ThisModule;
        var symbols := if m.Ok? then m.value else reg.here;
        var sym := SymbolName(path);
        if sym !in symbols || symbols[sym] == DataSym then Err(ValueErr)
        else Ok(Imported(modName, sym))
  }

  /** The module a base-class name is looked up in: its module part, or the package
      `thewired` when that part is empty; import failures propagate. */
  function BaseModule(reg: Registry, path: string): Result<(string, map<string, Symbol>)>
  {
    var m := Import(reg, ModuleName(path));
    if m.Ok? then Ok((ModuleName(path), m.value))
    else if m.error != ValueErr then Err(m.error)
    else
      var p :- Import(reg, PackageModule);
      Ok((PackageModule, p))
  }

  /** One round of `_parse_meta_factory_function_dynamic_bases`: a name that is not a string
      has no `split` (AttributeError); a symbol missing from its module is a ValueError. The
      kind of the symbol is kept for `type()`. */
  function BaseSpec(name: Value, reg: Registry): (r: Result<(Class, Symbol)>)
  {
    if !name.StrV? then Err(AttributeErr)
    else
      var m :- BaseModule(reg, name.s);
      var sym := SymbolName(name.s);
      if sym !in m.1 then Err(ValueErr)
      else Ok((Imported(m.0, sym), m.1[sym]))
  }

  /** `_parse_meta_factory_function_dynamic_bases(names)`: every name resolved in order;
      the first failure propagates. */
  function BasesSpec(names: seq<Value>, reg: Registry): (r: Result<seq<(Class, Symbol)>>)
    ensures r.Ok? ==> |r.value| == |names|
    ensures r.Ok? ==> forall j | 0 <= j < |names| :: BaseSpec(names[j], reg) == Ok(r.value[j])
    ensures r.Err? ==> exists j | 0 <= j < |names| :: BaseSpec(names[j], reg).Err?
  {
    if names == [] then Ok([])
    else
      var first :- BaseSpec(names[0], reg);
      var rest := BasesSpec(names[1..], reg);
      if rest.Err? then
        assert BaseSpec(names[1..][0], reg).Err? || exists j | 0 <= j < |names[1..]| :: BaseSpec(names[1..][j], reg).Err?;
        Err(rest.error)
      else Ok([first] + rest.value)
  }

  /** The items a `for` loop visits: a list's items, a string's characters, a dict's keys;
      other values are not iterable (TypeError). */
  function Iterate(v: Value): (r: Result<seq<Value>>)
    ensures v.ListV? ==> r == Ok(v.items)
    ensures v.StrV? ==> r.Ok? && |r.value| == |v.s|
  {
    match v
    case ListV(items) => Ok(items)
    case StrV(s) => Ok(seq(|s|, i requires 0 <= i < |s| => StrV([s[i]])))
    case DictV(entries) => Ok(seq(|entries|, i requires 0 <= i < |entries| => StrV(entries[i].0)))
    case _ => Err(TypeErr)
  }

  /** The classes among resolved bases. */
  function Classes(bases: seq<(Class, Symbol)>): (cs: seq<Class>)
    ensures |cs| == |bases| && forall j | 0 <= j < |bases| :: cs[j] == bases[j].0
  {
    seq(|bases|, j requires 0 <= j < |bases| => bases[j].0)
  }

  /** Every resolved base is a class, as `type()` requires. */
  predicate AllClasses(bases: seq<(Class, Symbol)>)
  {
    forall j | 0 <= j < |bases| :: bases[j].1 == ClassSym
  }

  /** `type(name, bases, dict)`: the name must be a string, the body a dict and every base a
      class (TypeError otherwise). */
  function MakeType(name: Value, bases: seq<(Class, Symbol)>, body: Value): (r: Result<Class>)
    ensures r.Ok? <==> name.StrV? && body.DictV? && AllClasses(bases)
    ensures r.Err? ==> r.error == TypeErr
    ensures r.Ok? ==> r.value == Synthesized(name.s, Classes(bases), body.entries)
  {
    if !name.StrV? || !body.DictV? || !AllClasses(bases) then Err(TypeErr)
    else Ok(Synthesized(name.s, Classes(bases), body.entries))
  }

  /** `_parse_meta_factory_function_dynamic`: `None` when `__type__` or one of its `name`,
      `bases` and `dict` keys is missing (KeyError); a `__type__` that is not a mapping cannot
      be subscripted (TypeError); any other failure propagates. */
  function DynamicSpec(entries: seq<(string, Value)>, reg: Registry): (r: Result<Option<Class>>)
    ensures r.Ok? && r.value.Some? ==> r.value.value.Synthesized?
  {
    var t := Lookup(entries, "__type__");
    if t.None? then Ok(None)
    else if !t.value.DictV? then Err(TypeErr)
    else
      var name := Lookup(t.value.entries, "name");
      var bases := Lookup(t.value.entries, "bases");
      var body := Lookup(t.value.entries, "dict");
      if name.None? || bases.None? || body.None? then Ok(None)
      else
        var names :- Iterate(bases.value);
        var resolved :- BasesSpec(names, reg);
        var c :- MakeType(name.value, resolved, body.value);
        Ok(Some(c))
  }

  /** `_parse_meta_factory_function`: the dynamic definition when there is one, the static
      one otherwise. */
  function FactoryFunctionSpec(entries: seq<(string, Value)>, default: Class, reg: Registry): Result<Class>
  {
    var dyn :- DynamicSpec(entries, reg);
    if dyn.Some? then Ok(dyn.value) else StaticSpec(entries, default, reg)
  }

  /** `partial(fn, **params)()`: an instance of the class built with the keyword arguments;
      `object()` takes none (TypeError). */
  function Call(f: Factory): (r: Result<Value>)
    ensures r.Ok? ==> r.value == InstanceV(f.cls, f.kwargs)
    ensures r.Err? <==> f.cls == PyObject && f.kwargs != []
  {
    if f.cls == PyObject && f.kwargs != [] then Err(TypeErr) else Ok(InstanceV(f.cls, f.kwargs))
  }

  /** `_create_factory(v, default)`: no factory for a value without `keys()`; for a mapping,
      the factory function and the keyword arguments its `__init__` key gives. */
  function CreateFactorySpec(v: Value, default: Class, reg: Registry): (r: Result<Option<Factory>>)
    ensures !v.DictV? ==> r == Ok(None)
    ensures v.DictV? && r.Ok? ==> r.value.Some?
    decreases v, 2
  {
    if !v.DictV? then Ok(None)
    else
      var fn :- FactoryFunctionSpec(v.entries, default, reg);
      var params :- ParamsSpec(v, reg);
      Ok(Some(Factory(fn, params)))
  }

  /** `_parse_meta_factory_function_params`: nothing for an empty mapping, a missing
      `__init__` key or an `__init__` value without `keys()`; otherwise one keyword argument
      per `__init__` key. */
  function ParamsSpec(cfg: Value, reg: Registry): (r: Result<seq<(string, Value)>>)
    requires cfg.DictV?
    decreases cfg, 1
  {
    if cfg.entries == [] then Ok([])
    else
      var init := Lookup(cfg.entries, "__init__");
      if init.None? || !init.value.DictV? then Ok([])
      else
        assert ("__init__", init.value) in cfg.entries;
        InitSpec(init.value, 0, [], reg)
  }

  /** The loop over the `__init__` keys from the `i`-th on, with the arguments gathered so
      far. */
  function InitSpec(init: Value, i: nat, acc: seq<(string, Value)>, reg: Registry): (r: Result<seq<(string, Value)>>)
    requires init.DictV? && i <= |init.entries|
    decreases init, 0, |init.entries| - i
  {
    if i == |init.entries| then Ok(acc)
    else
      var e := init.entries[i];
      assert e in init.entries;
      var param :- ParamValue(e.1, reg);
      InitSpec(init, i + 1, SetItem(acc, e.0, param), reg)
  }

  /** One keyword argument: a mapping with a meta key describes an object, built with
      `object` as the default class and called; any other value is passed as it is. */
  function ParamValue(w: Value, reg: Registry): (r: Result<Value>)
    ensures r.Ok? && !(w.DictV? && HasMeta(w.entries)) ==> r.value == w
    ensures r.Ok? && w.DictV? && HasMeta(w.entries) ==> r.value.InstanceV?
    decreases w, 3
  {
    if w.DictV? && HasMeta(w.entries) then
      var f :- CreateFactorySpec(w, PyObject, reg);
      Call(f.value)
    else Ok(w)
  }

  // ---------------------------------------------------------------------------------------
  // Which definition wins

  /** A complete `__type__` definition takes precedence over `__class__`: the node class is
      synthesized from it whatever `__class__` says. */
  lemma TypeBeforeClass(entries: seq<(string, Value)>, default: Class, reg: Registry, te: seq<(string, Value)>)
    requires Lookup(entries, "__type__") == Some(DictV(te))
    requires Lookup(te, "name").Some? && Lookup(te, "bases").Some? && Lookup(te, "dict").Some?
    requires DynamicSpec(entries, reg).Ok?
    ensures FactoryFunctionSpec(entries, default, reg).Ok?
    ensures FactoryFunctionSpec(entries, default, reg).value.Synthesized?
  {
    CompleteTypeIsDynamic(entries, reg, te);
    var dyn := DynamicSpec(entries, reg);
    assert FactoryFunctionSpec(entries, default, reg) == Ok(dyn.value.value);
  }

  /** A complete `__type__` definition that builds yields a synthesized class. */
  lemma CompleteTypeIsDynamic(entries: seq<(string, Value)>, reg: Registry, te: seq<(string, Value)>)
    requires Lookup(entries, "__type__") == Some(DictV(te))
    requires Lookup(te, "name").Some? && Lookup(te, "bases").Some? && Lookup(te, "dict").Some?
    requires DynamicSpec(entries, reg).Ok?
    ensures DynamicSpec(entries, reg).value.Some?
  {
    var t := Lookup(entries, "__type__");
    assert t.value.entries == te;
  }

  /** A `__type__` mapping missing one of `name`, `bases` and `dict` is ignored: the static
      parse decides. */
  lemma IncompleteTypeFallsBack(entries: seq<(string, Value)>, default: Class, reg: Registry, te: seq<(string, Value)>)
    requires Lookup(entries, "__type__") == Some(DictV(te))
    requires Lookup(te, "name").None? || Lookup(te, "bases").None? || Lookup(te, "dict").None?
    ensures FactoryFunctionSpec(entries, default, reg) == StaticSpec(entries, default, reg)
  {
  }

  /** A `__type__` value that is not a mapping cannot be subscripted: TypeError, whatever
      `__class__` says. */
  lemma TypeNotMappingFails(entries: seq<(string, Value)>, default: Class, reg: Registry)
    requires Lookup(entries, "__type__").Some? && !Lookup(entries, "__type__").value.DictV?
    ensures FactoryFunctionSpec(entries, default, reg) == Err(TypeErr)
  {
  }

  /** Without meta keys the node class is the default. */
  lemma NoMetaIsDefault(entries: seq<(string, Value)>, default: Class, reg: Registry)
    requires !HasMeta(entries)
    ensures FactoryFunctionSpec(entries, default, reg) == Ok(default)
  {
  }

  /** The first character of a join is that of its first part. */
  lemma JoinHead(parts: seq<string>)
    requires |parts| >= 1 && parts[0] != ""
    ensures |Join(parts)| > 0 && Join(parts)[0] == parts[0][0]
  {
    if |parts| > 1 {
      assert Join(parts) == parts[0] + "." + Join(parts[1..]);
    }
  }

  /** A dotted `__class__` path `m.s` whose module part is absolute: an unknown module
      quietly gives the default, a known one must hold a callable `s` (ValueError
      otherwise), which becomes the node class. */
  lemma ClassPathImports(entries: seq<(string, Value)>, default: Class, reg: Registry, parts: seq<string>)
    requires Lookup(entries, "__class__") == Some(StrV(Join(parts)))
    requires |parts| >= 2 && DotFree(parts) && parts[0] != ""
    ensures var m := Join(parts[..|parts| - 1]);
      var s := parts[|parts| - 1];
      StaticSpec(entries, default, reg) ==
        if m !in reg.modules then Ok(default)
        else if s !in reg.modules[m] || reg.modules[m][s] == DataSym then Err(ValueErr)
        else Ok(Imported(m, s))
  {
    SplitJoin(parts);
    JoinHead(parts[..|parts| - 1]);
    assert NoDot(parts[0]);
    assert parts[0][0] != '.';
  }

  /** A `__class__` name without a dot is looked up in the parser's own module. */
  lemma BareClassFromHere(entries: seq<(string, Value)>, default: Class, reg: Registry, s: string)
    requires Lookup(entries, "__class__") == Some(StrV(s)) && NoDot(s)
    ensures StaticSpec(entries, default, reg) ==
      if s in reg.here && reg.here[s] != DataSym then Ok(Imported(ThisModule, s)) else Err(ValueErr)
  {
    SplitNoDot(s);
  }

  /** A base name without a dot is looked up in the package `thewired`. */
  lemma BareBaseFromPackage(s: string, reg: Registry)
    requires NoDot(s)
    ensures BaseSpec(StrV(s), reg) ==
      if PackageModule !in reg.modules then Err(ImportErr)
      else if s !in reg.modules[PackageModule] then Err(ValueErr)
      else Ok((Imported(PackageModule, s), reg.modules[PackageModule][s]))
  {
    SplitNoDot(s);
  }

  // ---------------------------------------------------------------------------------------
  // Keyword arguments

  /** Setting a key the arguments do not hold yet appends it. */
  lemma {:induction false} SetItemFresh(acc: seq<(string, Value)>, k: string, v: Value)
    requires forall j | 0 <= j < |acc| :: acc[j].0 != k
    ensures SetItem(acc, k, v) == acc + [(k, v)]
  {
    if acc != [] {
      SetItemFresh(acc[1..], k, v);
    }
  }

  /** The `__init__` loop over plain values copies them in order. */
  lemma {:induction false} InitCopies(init: Value, i: nat, reg: Registry)
    requires init.DictV? && i <= |init.entries| && UniqueKeys(init.entries)
    requires forall j | 0 <= j < |init.entries| :: !(init.entries[j].1.DictV? && HasMeta(init.entries[j].1.entries))
    ensures InitSpec(init, i, init.entries[..i], reg) == Ok(init.entries)
    decreases |init.entries| - i
  {
    if i == |init.entries| {
      assert init.entries[..i] == init.entries;
    } else {
      var e := init.entries[i];
      SetItemFresh(init.entries[..i], e.0, e.1);
      assert init.entries[..i] + [e] == init.entries[..i + 1];
      InitCopies(init, i + 1, reg);
    }
  }

  /** When no `__init__` value describes an object, the keyword arguments are the
      `__init__` mapping itself, in its order. */
  lemma ParamsVerbatim(cfg: Value, reg: Registry, ie: seq<(string, Value)>)
    requires cfg.DictV? && Lookup(cfg.entries, "__init__") == Some(DictV(ie)) && UniqueKeys(ie)
    requires forall j | 0 <= j < |ie| :: !(ie[j].1.DictV? && HasMeta(ie[j].1.entries))
    ensures ParamsSpec(cfg, reg) == Ok(ie)
  {
    InitCopies(DictV(ie), 0, reg);
    assert ie[..0] == [];
  }

  /** An `__init__` value that is missing or has no `keys()` gives no keyword arguments. */
  lemma ParamsNeedInitMapping(cfg: Value, reg: Registry)
    requires cfg.DictV?
    requires Lookup(cfg.entries, "__init__").None? || !Lookup(cfg.entries, "__init__").value.DictV?
    ensures ParamsSpec(cfg, reg) == Ok([])
  {
  }

  /** The arguments gathered by the `__init__` loop: one per key seen, plain values as they
      are and object descriptions as instances. */
  ghost predicate Gathered(ie: seq<(string, Value)>, n: nat, acc: seq<(string, Value)>)
    requires n <= |ie|
  {
    (forall k :: Lookup(acc, k).Some? <==> exists j | 0 <= j < n :: ie[j].0 == k) &&
    (forall j | 0 <= j < n ::
      Lookup(acc, ie[j].0).Some? &&
      (if ie[j].1.DictV? && HasMeta(ie[j].1.entries) then Lookup(acc, ie[j].0).value.InstanceV?
       else Lookup(acc, ie[j].0).value == ie[j].1))
  }

  /** One more `__init__` key gathered. */
  lemma GatherStep(ie: seq<(string, Value)>, i: nat, acc: seq<(string, Value)>, p: Value)
    requires i < |ie| && UniqueKeys(ie) && Gathered(ie, i, acc)
    requires if ie[i].1.DictV? && HasMeta(ie[i].1.entries) then p.InstanceV? else p == ie[i].1
    ensures Gathered(ie, i + 1, SetItem(acc, ie[i].0, p))
  {
    var e := ie[i];
    var acc' := SetItem(acc, e.0, p);
    forall k
      ensures Lookup(acc', k).Some? <==> exists j | 0 <= j < i + 1 :: ie[j].0 == k
    {
      if k == e.0 {
        assert ie[i].0 == k;
      } else if Lookup(acc', k).Some? {
        assert Lookup(acc, k).Some?;
      }
    }
    forall j | 0 <= j < i + 1
      ensures Lookup(acc', ie[j].0).Some? &&
        (if ie[j].1.DictV? && HasMeta(ie[j].1.entries) then Lookup(acc', ie[j].0).value.InstanceV?
         else Lookup(acc', ie[j].0).value == ie[j].1)
    {
      if j < i {
        assert ie[j].0 != e.0;
      }
    }
  }

  lemma {:induction false} InitGathers(init: Value, i: nat, acc: seq<(string, Value)>, reg: Registry)
    requires init.DictV? && i <= |init.entries| && UniqueKeys(init.entries)
    requires Gathered(init.entries, i, acc)
    requires InitSpec(init, i, acc, reg).Ok?
    ensures Gathered(init.entries, |init.entries|, InitSpec(init, i, acc, reg).value)
    decreases |init.entries| - i
  {
    var ie := init.entries;
    if i < |ie| {
      var e := ie[i];
      var p := ParamValue(e.1, reg);
      assert InitSpec(init, i, acc, reg) == InitSpec(init, i + 1, SetItem(acc, e.0, p.value), reg);
      GatherStep(ie, i, acc, p.value);
      InitGathers(init, i + 1, SetItem(acc, e.0, p.value), reg);
    }
  }

  /** What the keyword arguments hold when their parse succeeds: exactly the `__init__`
      keys, each mapped to its value, except that a mapping with a meta key is replaced by
      the object it describes. */
  lemma ParamsShape(cfg: Value, reg: Registry, ie: seq<(string, Value)>)
    requires cfg.DictV? && Lookup(cfg.entries, "__init__") == Some(DictV(ie)) && UniqueKeys(ie)
    requires ParamsSpec(cfg, reg).Ok?
    ensures Gathered(ie, |ie|, ParamsSpec(cfg, reg).value)
  {
    InitGathers(DictV(ie), 0, [], reg);
  }

  /** An object described inside `__init__` is built with `object` as its default class:
      without `__class__` or `__type__` it is a bare `object()`, and then keyword arguments of
      its own are a TypeError. */
  lemma NestedDefaultsToObject(w: seq<(string, Value)>, reg: Registry)
    requires HasMeta(w) && Lookup(w, "__class__").None? && Lookup(w, "__type__").None?
    ensures var params := ParamsSpec(DictV(w), reg);
      ParamValue(DictV(w), reg) ==
        if params.Err? then Err(params.error)
        else if params.value == [] then Ok(InstanceV(PyObject, []))
        else Err(TypeErr)
  {
  }
}
