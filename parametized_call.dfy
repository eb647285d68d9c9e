/** `ParametizedCall` (thewired/provider/parametizedcall.py): turns a parameter map into the
    text of a method call, `.method(k = 'v', n = 1, xs = ['a''b'])`, dereferencing
    `nsid://` references through the namespace root first. */
module ParametizedCalls {
  import opened Errors
  import opened PyValues
  import opened Text
  import opened Util

  type Dict = seq<(string, Value)>

  /** The single key that marks a parametized-call map. */
  const ParamDictMarkKey: string := "__params__"

  /** `is_param_call_map(map)` on a dict (whose keys are distinct). */
  function IsParamCallMap(m: Dict): (b: bool)
    ensures b <==> exists v :: m == [(ParamDictMarkKey, v)]
  {
    var b := |m| == 1 && HasKey(m, ParamDictMarkKey);
    assert b ==> m == [(ParamDictMarkKey, m[0].1)];
    assert (exists v :: m == [(ParamDictMarkKey, v)]) ==> b by {
      if exists v :: m == [(ParamDictMarkKey, v)] {
        var v :| m == [(ParamDictMarkKey, v)];
        assert m[0].0 == ParamDictMarkKey;
      }
    }
    b
  }

  /** The result of `get_params`: the popped method name and the `ChainMap` of parameter
      maps, searched in order. */
  datatype Params = Params(methodName: Value, chain: seq<Value>)

  /** `chain[k]` on a `ChainMap`: the first map holding `k`; a map that cannot be subscripted
      with a string raises TypeError, which the chain does not catch. */
  function ChainGet(chain: seq<Value>, k: string): (r: Result<Value>)
    ensures r.Ok? ==> exists i | 0 <= i < |chain| :: chain[i].DictV? && Lookup(chain[i].entries, k) == Some(r.value)
    ensures r == Err(KeyErr) <==> forall i | 0 <= i < |chain| :: chain[i].DictV? && !HasKey(chain[i].entries, k)
  {
    if chain == [] then Err(KeyErr)
    else if !chain[0].DictV? then Err(TypeErr)
    else
      match Lookup(chain[0].entries, k)
      case Some(v) => Ok(v)
      case None =>
        var r := ChainGet(chain[1..], k);
        assert forall i | 1 <= i < |chain| :: chain[i] == chain[1..][i - 1];
        assert r.Ok? ==> exists i | 0 <= i < |chain| :: chain[i].DictV? && Lookup(chain[i].entries, k) == Some(r.value) by {
          if r.Ok? {
            var i :| 0 <= i < |chain[1..]| && chain[1..][i].DictV? && Lookup(chain[1..][i].entries, k) == Some(r.value);
            assert chain[i + 1] == chain[1..][i];
          }
        }
        r
  }

  /** `d[k]` on a dict with string keys: a string key is looked up; a list or dict key is
      unhashable (TypeError); any other key equals no string key (KeyError). */
  function Subscript(d: Dict, k: Value): Result<Value>
  {
    if k.ListV? || k.DictV? then Err(TypeErr)
    else if !k.StrV? then Err(KeyErr)
    else match Lookup(d, k.s) case Some(v) => Ok(v) case None => Err(KeyErr)
  }

  /** `get_params(map, **kwargs)` on a deep copy of `map[ParamDictMarkKey]`: the method
      name is popped from `defaults`; the chain is kwargs (with `_params` popped out of it),
      then the parameter set `_params` names when that is truthy, then the defaults. The pop
      changes the copy itself, so the set named `defaults` is the one without the method
      name. */
  function GetParams(m: Dict, kwargs: Dict): Result<Params>
  {
    var params :- Subscript(m, StrV(ParamDictMarkKey));
    if !params.DictV? then Err(TypeErr)
    else
      var defaults :- Subscript(params.entries, StrV("defaults"));
      if defaults.ListV? then Err(TypeErr)
      else if !defaults.DictV? then Err(AttributeErr)
      else
        var methodName :- Subscript(defaults.entries, StrV("method_name"));
        var rest := DictV(Remove(defaults.entries, "method_name"));
        var popped := SetItem(params.entries, "defaults", rest);
        var own := DictV(Remove(kwargs, "_params"));
        var setName := match Lookup(kwargs, "_params") case Some(v) => v case None => NoneV;
        if !Truthy(setName) then Ok(Params(methodName, [own, rest]))
        else
          var named :- Subscript(popped, setName);
          Ok(Params(methodName, [own, named, rest]))
  }

  /** Lookup precedence: kwargs first, then the named set, then the defaults. `_params` and
      `method_name` are not seen from the maps they were popped from, so the method name is
      missing from the chain unless kwargs or a set other than `defaults` holds it. */
  lemma {:induction false} ParamsPrecedence(m: Dict, kwargs: Dict, k: string)
    requires GetParams(m, kwargs).Ok?
    ensures var p := GetParams(m, kwargs).value;
      var params := Lookup(m, ParamDictMarkKey).value.entries;
      var defaults := Lookup(params, "defaults").value.entries;
      var fromKwargs := HasKey(kwargs, k) && k != "_params";
      (fromKwargs ==> ChainGet(p.chain, k) == Ok(Lookup(kwargs, k).value)) &&
      (!fromKwargs && |p.chain| == 3 && p.chain[1].DictV? && HasKey(p.chain[1].entries, k) ==>
        ChainGet(p.chain, k) == Ok(Lookup(p.chain[1].entries, k).value)) &&
      (!fromKwargs && (|p.chain| == 2 || (p.chain[1].DictV? && !HasKey(p.chain[1].entries, k))) ==>
        ChainGet(p.chain, k) ==
          (if HasKey(defaults, k) && k != "method_name" then Ok(Lookup(defaults, k).value) else Err(KeyErr))) &&
      (!HasKey(kwargs, "method_name") &&
       (|p.chain| == 2 || Lookup(kwargs, "_params") == Some(StrV("defaults"))) ==>
        ChainGet(p.chain, "method_name") == Err(KeyErr)) &&
      (|p.chain| == 3 <==> HasKey(kwargs, "_params") && Truthy(Lookup(kwargs, "_params").value))
  {
    var p := GetParams(m, kwargs).value;
    var params := Lookup(m, ParamDictMarkKey).value.entries;
    var defaults := Lookup(params, "defaults").value.entries;
    var setName := match Lookup(kwargs, "_params") case Some(v) => v case None => NoneV;
    ParamsShape(m, kwargs);
    ShapedChainPrecedence(p.chain, kwargs, defaults, setName, k);
  }

  /** The precedence of a chain of the shape `get_params` builds, given only that shape. */
  lemma ShapedChainPrecedence(chain: seq<Value>, kwargs: Dict, defaults: Dict, setName: Value, k: string)
    requires 2 <= |chain| <= 3
    requires chain[0] == DictV(Remove(kwargs, "_params"))
    requires chain[|chain| - 1] == DictV(Remove(defaults, "method_name"))
    requires |chain| == 3 && setName == StrV("defaults") ==> chain[1] == chain[2]
    requires setName == (match Lookup(kwargs, "_params") case Some(v) => v case None => NoneV)
    ensures var fromKwargs := HasKey(kwargs, k) && k != "_params";
      (fromKwargs ==> ChainGet(chain, k) == Ok(Lookup(kwargs, k).value)) &&
      (!fromKwargs && |chain| == 3 && chain[1].DictV? && HasKey(chain[1].entries, k) ==>
        ChainGet(chain, k) == Ok(Lookup(chain[1].entries, k).value)) &&
      (!fromKwargs && (|chain| == 2 || (chain[1].DictV? && !HasKey(chain[1].entries, k))) ==>
        ChainGet(chain, k) ==
          (if HasKey(defaults, k) && k != "method_name" then Ok(Lookup(defaults, k).value) else Err(KeyErr))) &&
      (!HasKey(kwargs, "method_name") &&
       (|chain| == 2 || Lookup(kwargs, "_params") == Some(StrV("defaults"))) ==>
        ChainGet(chain, "method_name") == Err(KeyErr))
  {
    var own := Remove(kwargs, "_params");
    var rest := Remove(defaults, "method_name");
    if !(HasKey(kwargs, k) && k != "_params") {
      assert Lookup(own, k) == None;
      assert Lookup(rest, k) == (if k == "method_name" then None else Lookup(defaults, k));
      ChainBelowKwargs(chain, k);
    }
    if !HasKey(kwargs, "method_name") {
      assert Lookup(own, "method_name") == None;
      assert Lookup(rest, "method_name") == None;
      ChainBelowKwargs(chain, "method_name");
    }
  }

  /** Below a first map that lacks the key, a chain of at most one named set over the
      defaults answers from the named set when it holds the key, else from the defaults. */
  lemma ChainBelowKwargs(chain: seq<Value>, k: string)
    requires 2 <= |chain| <= 3 && chain[0].DictV? && Lookup(chain[0].entries, k) == None
    requires chain[|chain| - 1].DictV?
    ensures |chain| == 3 && chain[1].DictV? && HasKey(chain[1].entries, k) ==>
      ChainGet(chain, k) == Ok(Lookup(chain[1].entries, k).value)
    ensures |chain| == 2 || (chain[1].DictV? && !HasKey(chain[1].entries, k)) ==>
      var last := chain[|chain| - 1].entries;
      ChainGet(chain, k) == (if HasKey(last, k) then Ok(Lookup(last, k).value) else Err(KeyErr))
  {
    var last := chain[|chain| - 1];
    assert ChainGet(chain, k) == ChainGet(chain[1..], k);
    if |chain| == 3 {
      assert chain[1..][0] == chain[1];
      if chain[1].DictV? && !HasKey(chain[1].entries, k) {
        assert ChainGet(chain[1..], k) == ChainGet(chain[1..][1..], k);
        assert chain[1..][1..] == [last];
        ChainLast(last.entries, k);
      }
    } else {
      assert chain[1..] == [last];
      ChainLast(last.entries, k);
    }
  }

  /** A chain of one map is a plain lookup. */
  lemma ChainLast(d: Dict, k: string)
    ensures ChainGet([DictV(d)], k) == (if HasKey(d, k) then Ok(Lookup(d, k).value) else Err(KeyErr))
  {
    assert [DictV(d)][1..] == [];
  }

  /** The chain `get_params` builds: kwargs without `_params` first, the defaults without
      the method name last, and between them the set `_params` names when it is truthy;
      `defaults` names the defaults as they are after the method name was popped. */
  lemma ParamsShape(m: Dict, kwargs: Dict)
    requires GetParams(m, kwargs).Ok?
    ensures var p := GetParams(m, kwargs).value;
      var params := Lookup(m, ParamDictMarkKey).value.entries;
      var defaults := Lookup(params, "defaults").value.entries;
      var setName := match Lookup(kwargs, "_params") case Some(v) => v case None => NoneV;
      p.methodName == Lookup(defaults, "method_name").value &&
      p.chain[0] == DictV(Remove(kwargs, "_params")) &&
      p.chain[|p.chain| - 1] == DictV(Remove(defaults, "method_name")) &&
      (|p.chain| == 3 <==> Truthy(setName)) && 2 <= |p.chain| <= 3 &&
      (|p.chain| == 3 ==>
        setName.StrV? &&
        (setName.s == "defaults" ==> p.chain[1] == DictV(Remove(defaults, "method_name"))) &&
        (setName.s != "defaults" ==> Lookup(params, setName.s) == Some(p.chain[1])))
  {
  }

  /** Without `_params` the chain is kwargs over the defaults; the method name is what
      `defaults` held. */
  lemma ParamsWithoutSet(defaults: Dict, kwargs: Dict, name: Value)
    requires Lookup(defaults, "method_name") == Some(name) && !HasKey(kwargs, "_params")
    ensures GetParams([(ParamDictMarkKey, DictV([("defaults", DictV(defaults))]))], kwargs) ==
      Ok(Params(name, [DictV(Remove(kwargs, "_params")), DictV(Remove(defaults, "method_name"))]))
  {
  }

  /** A truthy `_params` naming no set is a KeyError. */
  lemma UnknownSetRaises(defaults: Dict, kwargs: Dict, setName: string)
    requires HasKey(defaults, "method_name") && Lookup(kwargs, "_params") == Some(StrV(setName))
    requires setName != "" && setName != "defaults"
    ensures GetParams([(ParamDictMarkKey, DictV([("defaults", DictV(defaults))]))], kwargs) == Err(KeyErr)
  {
  }

  /** `'{}'.format(v)` for the values whose text is known; `str` stands for Python's `str()`
      on anything else. */
  function PyStr(v: Value, str: Value -> string): string
  {
    match v
    case StrV(s) => s
    case IntV(i) => IntToDecimal(i)
    case BoolV(b) => if b then "True" else "False"
    case NoneV => "None"
    case _ => str(v)
  }

  function Quoted(s: string): string
  {
    "'" + s + "'"
  }

  /** A reference is replaced by what the namespace root resolves it to. */
  function Deref(v: Value, deref: string -> Result<Value>): Result<Value>
  {
    if IsNsidRef(v) then deref(v.s) else Ok(v)
  }

  /** `deref_sequence_items(seq)`: every item dereferenced, the first failure raised. */
  function DerefItems(items: seq<Value>, deref: string -> Result<Value>): (r: Result<seq<Value>>)
    ensures r.Ok? <==> forall i | 0 <= i < |items| :: Deref(items[i], deref).Ok?
    ensures r.Ok? ==> |r.value| == |items| && forall i | 0 <= i < |items| :: r.value[i] == Deref(items[i], deref).value
    decreases |items|
  {
    if items == [] then Ok([])
    else
      var last := |items| - 1;
      var init := DerefItems(items[..last], deref);
      var item := Deref(items[last], deref);
      assert forall i | 0 <= i < last :: items[..last][i] == items[i];
      if init.Err? then init
      else if item.Err? then Err(item.error)
      else Ok(init.value + [item.value])
  }

  /** The text of one item of a sequence: a mapping contributes its entry for `key`, whose
      absence reaches the undefined `log` (NameError) before the intended ValueError. */
  function ItemText(item: Value, key: Option<string>, str: Value -> string): Result<string>
  {
    if item.DictV? && key.Some? then
      match Lookup(item.entries, key.value)
      case Some(x) => Ok(Quoted(PyStr(x, str)))
      case None => Err(NameErr)
    else Ok(Quoted(PyStr(item, str)))
  }

  /** The texts of the items, concatenated without separator. */
  function ItemsText(items: seq<Value>, key: Option<string>, str: Value -> string): Result<string>
    decreases |items|
  {
    if items == [] then Ok("")
    else
      var init :- ItemsText(items[..|items| - 1], key, str);
      var last :- ItemText(items[|items| - 1], key, str);
      Ok(init + last)
  }

  /** `stringify_sequence(seq, key)`. */
  function SequenceText(items: seq<Value>, key: Option<string>, deref: string -> Result<Value>, str: Value -> string): Result<string>
  {
    var drefd :- DerefItems(items, deref);
    var body :- ItemsText(drefd, key, str);
    Ok("[" + body + "]")
  }

  /** The `k = v` text of one parameter, without the separator. */
  function EntryText(k: string, v: Value, key: Option<string>, needKey: bool,
                     deref: string -> Result<Value>, str: Value -> string): Result<string>
  {
    var v1 :- Deref(v, deref);
    if v1.ListV? then
      var s :- SequenceText(v1.items, key, deref, str);
      Ok(k + " = " + s)
    else
      var v2 :- if v1.DictV? && key.Some? then
                  match Lookup(v1.entries, key.value)
                  case Some(x) => Ok(x)
                  case None => if needKey then Err(KeyErr) else Ok(v1)
                else Ok(v1);
      if v2.StrV? then Ok(k + " = " + Quoted(v2.s)) else Ok(k + " = " + PyStr(v2, str))
  }

  /** The entry texts of all parameters, in the map's order; the first failure raises. */
  function Entries(params: Dict, key: Option<string>, needKey: bool,
                   deref: string -> Result<Value>, str: Value -> string): (r: Result<seq<string>>)
    ensures r.Ok? ==> |r.value| == |params|
    decreases |params|
  {
    if params == [] then Ok([])
    else
      var last := |params| - 1;
      var init :- Entries(params[..last], key, needKey, deref, str);
      var e :- EntryText(params[last].0, params[last].1, key, needKey, deref, str);
      Ok(init + [e])
  }

  /** The addendum `make_addendum` evidently builds: the entries joined by `, `. */
  function Addendum(methodName: string, params: Dict, key: Option<string>, needKey: bool,
                    deref: string -> Result<Value>, str: Value -> string): Result<string>
  {
    var entries :- Entries(params, key, needKey, deref, str);
    Ok("." + methodName + "(" + JoinWith(entries, ", ") + ")")
  }

  /** Python's `s[0:-2]`. */
  function ChopTwo(s: string): (r: string)
    ensures |s| >= 2 ==> s == r + s[|s| - 2..]
  {
    if |s| >= 2 then s[..|s| - 2] else ""
  }

  /** What the loop accumulates: each entry followed by `, `. */
  function Accumulated(entries: seq<string>): string
  {
    if entries == [] then "" else Accumulated(entries[..|entries| - 1]) + entries[|entries| - 1] + ", "
  }

  /** One more parameter whose entry renders. */
  lemma EntriesExtend(params: Dict, i: nat, key: Option<string>, needKey: bool,
                      deref: string -> Result<Value>, str: Value -> string, entries: seq<string>, e: string)
    requires i < |params| && Entries(params[..i], key, needKey, deref, str) == Ok(entries)
    requires EntryText(params[i].0, params[i].1, key, needKey, deref, str) == Ok(e)
    ensures Entries(params[..i + 1], key, needKey, deref, str) == Ok(entries + [e])
      && Accumulated(entries + [e]) == Accumulated(entries) + e + ", "
  {
    EntriesSnoc(params, i, key, needKey, deref, str, entries, e);
    AccumulatedSnoc(entries, e);
  }

  lemma EntriesSnoc(params: Dict, i: nat, key: Option<string>, needKey: bool,
                    deref: string -> Result<Value>, str: Value -> string, entries: seq<string>, e: string)
    requires i < |params| && Entries(params[..i], key, needKey, deref, str) == Ok(entries)
    requires EntryText(params[i].0, params[i].1, key, needKey, deref, str) == Ok(e)
    ensures Entries(params[..i + 1], key, needKey, deref, str) == Ok(entries + [e])
  {
    TakeInit(params, i + 1);
  }

  lemma AccumulatedSnoc(entries: seq<string>, e: string)
    ensures Accumulated(entries + [e]) == Accumulated(entries) + e + ", "
  {
    assert (entries + [e])[..|entries|] == entries;
  }

  /** Joining one more part. */
  lemma {:induction false} JoinWithAppend(parts: seq<string>, p: string, sep: string)
    requires |parts| >= 1
    ensures JoinWith(parts + [p], sep) == JoinWith(parts, sep) + sep + p
    decreases |parts|
  {
    if |parts| == 1 {
      assert (parts + [p])[1..] == [p];
    } else {
      assert (parts + [p])[1..] == parts[1..] + [p];
      JoinWithAppend(parts[1..], p, sep);
    }
  }

  /** Chopping the last `, ` off the accumulation leaves the entries joined by `, `, with no
      trailing separator. */
  lemma {:induction false} ChopAccumulated(entries: seq<string>)
    ensures ChopTwo(Accumulated(entries)) == JoinWith(entries, ", ")
    ensures entries != [] ==> Accumulated(entries) == JoinWith(entries, ", ") + ", "
    decreases |entries|
  {
    if entries != [] {
      var init := entries[..|entries| - 1];
      var e := entries[|entries| - 1];
      ChopAccumulated(init);
      assert entries == init + [e];
      if init != [] {
        JoinWithAppend(init, e, ", ");
      }
      var s := Accumulated(entries);
      assert s == JoinWith(entries, ", ") + ", ";
      assert s[..|s| - 2] == JoinWith(entries, ", ");
    }
  }

  /** No parameters give `.method()`. */
  lemma EmptyParams(methodName: string, key: Option<string>, needKey: bool,
                    deref: string -> Result<Value>, str: Value -> string)
    ensures Addendum(methodName, [], key, needKey, deref, str) == Ok("." + methodName + "()")
  {
    assert "." + methodName + "(" + "" + ")" == "." + methodName + "()";
  }

  /** A string that is not a reference is written in single quotes; an int is written bare. */
  lemma ScalarEntries(k: string, s: string, i: int, key: Option<string>, needKey: bool,
                      deref: string -> Result<Value>, str: Value -> string)
    requires !IsNsidRef(StrV(s))
    ensures EntryText(k, StrV(s), key, needKey, deref, str) == Ok(k + " = '" + s + "'")
    ensures EntryText(k, IntV(i), key, needKey, deref, str) == Ok(k + " = " + IntToDecimal(i))
  {
    assert k + " = " + Quoted(s) == k + " = '" + s + "'";
    assert !IsNsidRef(IntV(i));
  }

  /** For a mapping value and a given key, the entry for the key is written; its absence
      raises KeyError when the key is needed. */
  lemma MappingEntries(k: string, d: Dict, sub: string, needKey: bool,
                       deref: string -> Result<Value>, str: Value -> string)
    ensures HasKey(d, sub) && Lookup(d, sub).value.StrV? ==>
      EntryText(k, DictV(d), Some(sub), needKey, deref, str) == Ok(k + " = " + Quoted(Lookup(d, sub).value.s))
    ensures !HasKey(d, sub) && needKey ==> EntryText(k, DictV(d), Some(sub), needKey, deref, str) == Err(KeyErr)
  {
  }

  /** A list of plain strings is written `[` + each item in quotes, no separator + `]`. */
  lemma {:induction false} SequenceOfStrings(ss: seq<string>, key: Option<string>,
                                             deref: string -> Result<Value>, str: Value -> string)
    requires forall i | 0 <= i < |ss| :: !IsNsidRef(StrV(ss[i]))
    ensures SequenceText(StrValues(ss), key, deref, str) == Ok("[" + QuotedConcat(ss) + "]")
  {
    QuotedItems(ss, key, str);
    var vs := StrValues(ss);
    assert DerefItems(vs, deref) == Ok(vs) by {
      assert forall i | 0 <= i < |vs| :: Deref(vs[i], deref) == Ok(vs[i]);
      assert DerefItems(vs, deref).value == vs;
    }
  }

  function StrValues(ss: seq<string>): (vs: seq<Value>)
    ensures |vs| == |ss| && forall i | 0 <= i < |ss| :: vs[i] == StrV(ss[i])
  {
    seq(|ss|, i requires 0 <= i < |ss| => StrV(ss[i]))
  }

  function QuotedConcat(ss: seq<string>): string
  {
    if ss == [] then "" else QuotedConcat(ss[..|ss| - 1]) + Quoted(ss[|ss| - 1])
  }

  lemma {:induction false} QuotedItems(ss: seq<string>, key: Option<string>, str: Value -> string)
    ensures ItemsText(StrValues(ss), key, str) == Ok(QuotedConcat(ss))
    decreases |ss|
  {
    if ss != [] {
      var init := ss[..|ss| - 1];
      QuotedItems(init, key, str);
      assert StrValues(ss)[..|ss| - 1] == StrValues(init);
    }
  }

  /** Two strings: `['a''b']`. */
  lemma TwoStrings(deref: string -> Result<Value>, str: Value -> string)
    ensures SequenceText([StrV("a"), StrV("b")], None, deref, str) == Ok("['a''b']")
  {
    assert !IsNsidRef(StrV("a")) && !IsNsidRef(StrV("b"));
    assert StrValues(["a", "b"]) == [StrV("a"), StrV("b")];
    SequenceOfStrings(["a", "b"], None, deref, str);
    assert ["a", "b"][..1] == ["a"];
    assert QuotedConcat(["a"]) == "'a'" by {
      assert ["a"][..0] == [];
    }
    assert QuotedConcat(["a", "b"]) == "'a'" + "'b'";
    assert "[" + ("'a'" + "'b'") + "]" == "['a''b']";
  }

  class ParametizedCall {
    /** `nsroot._lookup_symbolic_ref(v, follow_symrefs=True)`. */
    const deref: string -> Result<Value>
    const methodName: string
    const params: Dict

    constructor(deref: string -> Result<Value>, methodName: string, params: Dict)
      ensures this.deref == deref && this.methodName == methodName && this.params == params
    {
      this.deref := deref;
      this.methodName := methodName;
      this.params := params;
    }

    /** `deref_sequence_items(seq)`. */
    method DerefSequenceItems(items: seq<Value>) returns (r: Result<seq<Value>>)
      ensures r == DerefItems(items, deref)
    {
      var drefd: seq<Value> := [];
      var i := 0;
      while i < |items|
        invariant 0 <= i <= |items|
        invariant DerefItems(items[..i], deref) == Ok(drefd)
      {
        assert items[..i + 1][..i] == items[..i];
        var item := Deref(items[i], deref);
        if item.Err? {
          DerefItemsFail(items, |items|, i, deref);
          assert items[..|items|] == items;
          return Err(item.error);
        }
        drefd := drefd + [item.value];
        i := i + 1;
      }
      assert items[..i] == items;
      r := Ok(drefd);
    }

    /** `stringify_sequence(seq, key)`. */
    method StringifySequence(items: seq<Value>, key: Option<string>, str: Value -> string) returns (r: Result<string>)
      ensures r == SequenceText(items, key, deref, str)
    {
      var drefd := DerefSequenceItems(items);
      if drefd.Err? {
        return Err(drefd.error);
      }
      var body := "";
      var i := 0;
      while i < |drefd.value|
        invariant 0 <= i <= |drefd.value|
        invariant ItemsText(drefd.value[..i], key, str) == Ok(body)
      {
        var text := ItemText(drefd.value[i], key, str);
        if text.Err? {
          ItemsTextFails(drefd.value, i, key, str);
          return Err(text.error);
        }
        ItemsTextSnoc(drefd.value, i, key, str, body, text.value);
        body := body + text.value;
        i := i + 1;
      }
      assert drefd.value[..i] == drefd.value;
      r := Ok("[" + body + "]");
    }

    /** `make_addendum(key=key, need_key=need_key)`: each entry is added with a trailing
        `, `, and the last two characters are chopped off at the end. */
    method MakeAddendum(key: Option<string>, needKey: bool, str: Value -> string) returns (r: Result<string>)
      ensures r == Addendum(methodName, params, key, needKey, deref, str)
    {
      var unpack := "";
      ghost var entries: seq<string> := [];
      var i := 0;
      while i < |params|
        invariant 0 <= i <= |params|
        invariant Entries(params[..i], key, needKey, deref, str) == Ok(entries)
        invariant unpack == Accumulated(entries)
      {
        var e := Entry(params[i].0, params[i].1, key, needKey, str);
        if e.Err? {
          EntriesFail(params, i, key, needKey, deref, str);
          return Err(e.error);
        }
        EntriesExtend(params, i, key, needKey, deref, str, entries, e.value);
        unpack := unpack + e.value + ", ";
        entries := entries + [e.value];
        i := i + 1;
      }
      assert params[..i] == params;
      ChopAccumulated(entries);
      r := Ok("." + methodName + "(" + ChopTwo(unpack) + ")");
    }

    /** `pcall(key=key)`: the addendum with the key needed. */
    method Call(key: Option<string>, str: Value -> string) returns (r: Result<string>)
      ensures r == Addendum(methodName, params, key, true, deref, str)
    {
      r := MakeAddendum(key, true, str);
    }

    /** The body of `make_addendum`'s loop for one parameter `k = v`. */
    method Entry(k: string, v: Value, key: Option<string>, needKey: bool, str: Value -> string) returns (r: Result<string>)
      ensures r == EntryText(k, v, key, needKey, deref, str)
    {
      var v1 := Deref(v, deref);
      if v1.Err? {
        return Err(v1.error);
      }
      var w := v1.value;
      if w.ListV? {
        var s := StringifySequence(w.items, key, str);
        if s.Err? {
          return Err(s.error);
        }
        return Ok(k + " = " + s.value);
      }
      if w.DictV? && key.Some? {
        var sub := Lookup(w.entries, key.value);
        if sub.Some? {
          w := sub.value;
        } else if needKey {
          return Err(KeyErr);
        }
      }
      if w.StrV? {
        return Ok(k + " = " + Quoted(w.s));
      }
      return Ok(k + " = " + PyStr(w, str));
    }
  }

  /** A failing item makes the whole text fail with its error. */
  lemma {:induction false} ItemsTextFails(items: seq<Value>, i: nat, key: Option<string>, str: Value -> string)
    requires i < |items| && ItemsText(items[..i], key, str).Ok? && ItemText(items[i], key, str).Err?
    ensures ItemsText(items, key, str) == Err(ItemText(items[i], key, str).error)
  {
    ItemsTextPrefixFails(items, |items|, i, key, str);
    assert items[..|items|] == items;
  }

  lemma ItemsTextPrefixFails(items: seq<Value>, n: nat, i: nat, key: Option<string>, str: Value -> string)
    requires i < n <= |items| && ItemsText(items[..i], key, str).Ok? && ItemText(items[i], key, str).Err?
    ensures ItemsText(items[..n], key, str) == Err(ItemText(items[i], key, str).error)
  {
    ItemsTextFailsAt(items, i + 1, i, key, str);
    ItemsTextErrStays(items, i + 1, n, key, str, ItemText(items[i], key, str).error);
  }

  /** The item that fails first fails the items up to and including it. */
  lemma ItemsTextFailsAt(items: seq<Value>, n: nat, i: nat, key: Option<string>, str: Value -> string)
    requires n == i + 1 <= |items| && ItemsText(items[..i], key, str).Ok? && ItemText(items[i], key, str).Err?
    ensures ItemsText(items[..n], key, str) == Err(ItemText(items[i], key, str).error)
  {
    TakeInit(items, n);
  }

  /** Once the first `m` items fail, so do the first `n`, with the same error. */
  lemma {:induction false} ItemsTextErrStays(items: seq<Value>, m: nat, n: nat, key: Option<string>, str: Value -> string, e: Error)
    requires m <= n <= |items| && ItemsText(items[..m], key, str) == Err(e)
    ensures ItemsText(items[..n], key, str) == Err(e)
    decreases n, 1
  {
    if m < n {
      ItemsTextErrStaysFrom(items, m, n, key, str, e);
    }
  }

  lemma {:induction false} ItemsTextErrStaysFrom(items: seq<Value>, m: nat, n: nat, key: Option<string>, str: Value -> string, e: Error)
    requires m < n <= |items| && ItemsText(items[..m], key, str) == Err(e)
    ensures ItemsText(items[..n], key, str) == Err(e)
    decreases n, 0
  {
    ItemsTextErrStays(items, m, n - 1, key, str, e);
    ItemsTextFailStays(items, n, key, str, e);
  }

  /** A failure of the first `n - 1` items is the failure of the first `n`. */
  lemma ItemsTextFailStays(items: seq<Value>, n: nat, key: Option<string>, str: Value -> string, e: Error)
    requires 0 < n <= |items| && ItemsText(items[..n - 1], key, str) == Err(e)
    ensures ItemsText(items[..n], key, str) == Err(e)
  {
    TakeInit(items, n);
  }

  /** One more item whose text is known. */
  lemma ItemsTextSnoc(items: seq<Value>, i: nat, key: Option<string>, str: Value -> string, body: string, t: string)
    requires i < |items| && ItemsText(items[..i], key, str) == Ok(body) && ItemText(items[i], key, str) == Ok(t)
    ensures ItemsText(items[..i + 1], key, str) == Ok(body + t)
  {
    TakeInit(items, i + 1);
  }

  /** The first `n` elements without their last are the first `n - 1`. */
  lemma TakeInit<T>(s: seq<T>, n: nat)
    requires 0 < n <= |s|
    ensures s[..n][..|s[..n]| - 1] == s[..n - 1] && s[..n][|s[..n]| - 1] == s[n - 1]
  {
  }

  /** A failing item makes the dereferenced list fail with its error. */
  lemma {:induction false} DerefItemsFail(items: seq<Value>, n: nat, i: nat, deref: string -> Result<Value>)
    requires i < n <= |items| && DerefItems(items[..i], deref).Ok? && Deref(items[i], deref).Err?
    ensures DerefItems(items[..n], deref) == Err(Deref(items[i], deref).error)
    decreases n
  {
    assert items[..n][..n - 1] == items[..n - 1];
    if n == i + 1 {
      assert items[..n][n - 1] == items[i];
    } else {
      DerefItemsFail(items, n - 1, i, deref);
    }
  }

  /** A failing entry makes the whole addendum fail with its error. */
  lemma {:induction false} EntriesFail(params: Dict, i: nat, key: Option<string>, needKey: bool,
                                       deref: string -> Result<Value>, str: Value -> string)
    requires i < |params| && Entries(params[..i], key, needKey, deref, str).Ok?
    requires EntryText(params[i].0, params[i].1, key, needKey, deref, str).Err?
    ensures Entries(params, key, needKey, deref, str) == Err(EntryText(params[i].0, params[i].1, key, needKey, deref, str).error)
  {
    EntriesPrefixFail(params, |params|, i, key, needKey, deref, str);
    assert params[..|params|] == params;
  }

  lemma {:induction false} EntriesPrefixFail(params: Dict, n: nat, i: nat, key: Option<string>, needKey: bool,
                                             deref: string -> Result<Value>, str: Value -> string)
    requires i < n <= |params| && Entries(params[..i], key, needKey, deref, str).Ok?
    requires EntryText(params[i].0, params[i].1, key, needKey, deref, str).Err?
    ensures Entries(params[..n], key, needKey, deref, str) == Err(EntryText(params[i].0, params[i].1, key, needKey, deref, str).error)
    decreases n, 1
  {
    if n == i + 1 {
      EntriesFailAt(params, n, i, key, needKey, deref, str);
    } else {
      EntriesPrefixFailFrom(params, n, i, key, needKey, deref, str);
    }
  }

  /** `EntriesPrefixFail` past the failing entry: the failure of the first `n - 1` entries
      carries over. */
  lemma {:induction false} EntriesPrefixFailFrom(params: Dict, n: nat, i: nat, key: Option<string>, needKey: bool,
                                                 deref: string -> Result<Value>, str: Value -> string)
    requires i + 1 < n <= |params| && Entries(params[..i], key, needKey, deref, str).Ok?
    requires EntryText(params[i].0, params[i].1, key, needKey, deref, str).Err?
    ensures Entries(params[..n], key, needKey, deref, str) == Err(EntryText(params[i].0, params[i].1, key, needKey, deref, str).error)
    decreases n, 0
  {
    EntriesPrefixFail(params, n - 1, i, key, needKey, deref, str);
    EntriesFailStays(params, n, i, key, needKey, deref, str);
  }

  /** The entry that fails first fails the entries up to and including it. */
  lemma EntriesFailAt(params: Dict, n: nat, i: nat, key: Option<string>, needKey: bool,
                      deref: string -> Result<Value>, str: Value -> string)
    requires n == i + 1 <= |params| && Entries(params[..i], key, needKey, deref, str).Ok?
    requires EntryText(params[i].0, params[i].1, key, needKey, deref, str).Err?
    ensures Entries(params[..n], key, needKey, deref, str) == Err(EntryText(params[i].0, params[i].1, key, needKey, deref, str).error)
  {
    TakeInit(params, n);
  }

  /** The failure of the `i`-th entry, once it fails the first `n - 1` entries, fails the
      first `n`. */
  lemma EntriesFailStays(params: Dict, n: nat, i: nat, key: Option<string>, needKey: bool,
                         deref: string -> Result<Value>, str: Value -> string)
    requires i + 1 < n <= |params| && EntryText(params[i].0, params[i].1, key, needKey, deref, str).Err?
    requires Entries(params[..n - 1], key, needKey, deref, str) == Err(EntryText(params[i].0, params[i].1, key, needKey, deref, str).error)
    ensures Entries(params[..n], key, needKey, deref, str) == Err(EntryText(params[i].0, params[i].1, key, needKey, deref, str).error)
  {
    TakeInit(params, n);
  }
}
