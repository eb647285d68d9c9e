/** What `Namespace.get_handle` and the `NamespaceHandle` id mapping promise: a handle can be
    made on any existing id, and on a missing one when `create_nodes` is set; a handle's
    `add` makes an id its `get` then finds. */
module NamespaceHandles {
  import opened Errors
  import opened Text
  import opened PyValues
  import opened Nsids
  import opened NodeBase
  import opened NamespaceSpec
  import opened NamespaceTheory
  import opened NamespaceLaws
  import opened Namespaces

  /** After a successful `add` of a qualified id, `get` of that id finds the last node
      created. */
  lemma AddThenGet<NS>(st: Store<NS>, s: string, f: Factory, ns: NS)
    requires Valid(st) && QualifiedForm(s)
    requires AddSpec(st, s, f, ns).1.Ok?
    ensures var res := AddSpec(st, s, f, ns);
      Valid(res.0) && GetSpec(res.0, s) == Ok(res.1.value[|res.1.value| - 1])
  {
    var res := AddSpec(st, s, f, ns);
    if s == Root {
      AddRootCollides(st, f, ns);
    } else {
      AddOutcome(st, s, f, ns);
      RootParts();
      assert s != "";
      AncestryEndsAtId(s);
      AddedLast(st, res.0, s, res.1.value, f.cls, ns);
    }
  }

  /** The last node an `add` of `s` created is what `get` finds under `s`. */
  lemma {:induction false} AddedLast<NS>(st: Store<NS>, st': Store<NS>, s: string, created: seq<Ref>, cls: Class, ns: NS)
    requires Valid(st) && Valid(st') && AddedMissing(st, st', s, created, cls, ns)
    requires Ancestry(s) != [] && Ancestry(s)[|Ancestry(s)| - 1] == s
    ensures created != [] && GetSpec(st', s) == Ok(created[|created| - 1])
  {
    var n: nat :| AddedAt(st, st', s, n, created, cls, ns);
    LastFound(st', s, n, created);
  }

  /** The last of the nodes found from index `n` on is found under the last ancestor. */
  lemma {:induction false} LastFound<NS>(st: Store<NS>, s: string, n: nat, created: seq<Ref>)
    requires Valid(st) && 1 <= |created| && n + |created| == |Ancestry(s)|
    requires FoundFrom(st, s, n, created)
    ensures GetSpec(st, Ancestry(s)[|Ancestry(s)| - 1]) == Ok(created[|created| - 1])
  {
    assert GetSpec(st, Ancestry(s)[n + (|created| - 1)]) == Ok(created[|created| - 1]);
  }

  /** `get_handle` of a fully-qualified id: an existing id gives a handle on its node and
      changes nothing; a missing one is a NamespaceLookupError unless `create_nodes` is set,
      in which case it is added and the handle is on the new node; an AttributeError on the
      way escapes either way. */
  lemma GetHandleOutcome<NS>(st: Store<NS>, key: string, create: bool, ns: NS)
    requires Valid(st) && QualifiedForm(key)
    ensures var res := GetHandleSpec(st, key, create, ns);
      var g := GetSpec(st, key);
      if g.Ok? then res == (st, g)
      else if g.error == AttributeErr || !create then res == (st, g)
      else
        g.error == NamespaceLookup && res.1.Ok? && Extends(st, res.0) &&
        res.0.nodes[res.1.value].nsid == Nsid(key)
  {
    var g := GetSpec(st, key);
    GetIsFollow(st, key);
    if g.Err? && g.error == NamespaceLookup && create {
      GetRoot(st);
      var f := Factory(st.default, []);
      AddOutcome(st, key, f, ns);
      AddThenGet(st, key, f, ns);
      AddKeepsValid(st, key, f, ns);
    }
  }

  /** A successful `add` through a handle on a qualified prefix, of an id that starts with
      `.`, creates a node the handle's `get` then finds. */
  lemma HandleAddThenGet<NS>(st: Store<NS>, prefix: seq<string>, s: seq<string>, f: Factory, ns: NS)
    requires Valid(st) && QualifiedParts(prefix) && QualifiedParts(s)
    requires AddSpec(st, RealId(Under(Join(prefix)), Join(s)), f, ns).1.Ok?
    ensures var res := AddSpec(st, RealId(Under(Join(prefix)), Join(s)), f, ns);
      Valid(res.0) && GetSpec(res.0, GetId(Under(Join(prefix)), Join(s))) == Ok(res.1.value[|res.1.value| - 1])
  {
    var view := Under(Join(prefix));
    HandleIdsAgree(prefix, s);
    AddThenGetSame(st, RealId(view, Join(s)), GetId(view, Join(s)), f, ns);
  }

  /** `AddThenGet` with the id `get` is asked for written apart from the one added. */
  lemma {:induction false} AddThenGetSame<NS>(st: Store<NS>, added: string, got: string, f: Factory, ns: NS)
    requires Valid(st) && QualifiedForm(added) && got == added
    requires AddSpec(st, added, f, ns).1.Ok?
    ensures var res := AddSpec(st, added, f, ns);
      Valid(res.0) && GetSpec(res.0, got) == Ok(res.1.value[|res.1.value| - 1])
  {
    AddThenGet(st, added, f, ns);
  }

  /** Below a qualified prefix, `add` and `get` of a qualified id both act on the id of the
      prefix's parts followed by the id's own. */
  lemma HandleIds(prefix: seq<string>, s: seq<string>)
    requires QualifiedParts(prefix) && QualifiedParts(s)
    ensures var view, id := Under(Join(prefix)), Join(prefix + s[1..]);
      RealId(view, Join(s)) == id && GetId(view, Join(s)) == id && QualifiedForm(id)
  {
    PrefixIdWhole(s);
    JoinAppend(prefix, s);
    RootParts();
    assert Join(s) != Root;
    PrefixIdWhole(prefix + s[1..]);
  }

  /** Below a qualified prefix, `add` and `get` of a qualified id act on the same id. */
  lemma {:induction false} HandleIdsAgree(prefix: seq<string>, s: seq<string>)
    requires QualifiedParts(prefix) && QualifiedParts(s)
    ensures var view := Under(Join(prefix));
      RealId(view, Join(s)) == GetId(view, Join(s)) && QualifiedForm(RealId(view, Join(s)))
  {
    HandleIds(prefix, s);
  }

  /** A qualified prefix followed by a qualified id is the qualified id of both part lists. */
  lemma JoinAppend(prefix: seq<string>, s: seq<string>)
    requires QualifiedParts(prefix) && QualifiedParts(s)
    ensures QualifiedParts(prefix + s[1..])
    ensures Join(prefix) + Join(s) == Join(prefix + s[1..])
  {
    JoinConcat(prefix, s);
    assert Join(s) == "" + "." + Join(s[1..]);
  }

  /** `Join` of two non-empty lists is their joins around one separator. */
  lemma {:induction false} JoinConcat(a: seq<string>, b: seq<string>)
    requires |a| >= 1 && |b| >= 2 && b[0] == ""
    ensures Join(a + b[1..]) == Join(a) + "." + Join(b[1..])
    decreases |a|
  {
    if |a| == 1 {
      assert a + b[1..] == [a[0]] + b[1..];
    } else {
      assert (a + b[1..])[1..] == a[1..] + b[1..];
      JoinConcat(a[1..], b);
    }
  }

  /** A handle on the root `.` prepends `.` to an id that already starts with `.`: `get` and
      `add` of any qualified id other than `.` are refused with InvalidNsidError, even when
      the id exists in the namespace. */
  lemma RootHandleRejects<NS>(st: Store<NS>, parts: seq<string>, f: Factory, ns: NS)
    requires Valid(st) && QualifiedParts(parts)
    ensures GetSpec(st, GetId(Under(Root), Join(parts))) == Err(InvalidNsid)
    ensures AddSpec(st, RealId(Under(Root), Join(parts)), f, ns) == (st, Err(InvalidNsid))
  {
    PrefixIdWhole(parts);
    RootParts();
    var id := Root + Join(parts);
    assert Join(parts) == "" + "." + Join(parts[1..]);
    assert Join(parts) != Root by {
      assert |Split(Join(parts))| != |Split(Root)| || |parts| == 2;
      if |parts| == 2 {
        assert Split(Join(parts))[1] == parts[1] != "";
      }
    }
    SplitCons(id);
    assert id[1..] == Join(parts);
    assert Split(id) == [""] + parts;
    assert Split(id)[1] == "" && !PartOk(Split(id), 1);
    assert Split(Root)[0] == "" && Split(id)[0] == "";
    CommonPrefixNoneIff(Root, id);
    assert ' ' !in id by {
      QualifiedHasNoSpace(Join(parts));
    }
  }

  /** The id a handle evidently means: on a handle on the root, `s` itself. */
  function HandleId(prefix: string, s: string): (id: string)
    ensures s == Root ==> id == prefix
    ensures s != Root && prefix != Root ==> id == prefix + s
  {
    if s == Root then prefix else if prefix == Root then s else prefix + s
  }

  /** With that id, a handle on the root reads every id as the namespace itself does, and a
      handle on any other prefix reads ids as the code does. */
  lemma RootHandleAsNamespace<NS>(st: Store<NS>, prefix: string, s: string)
    requires Valid(st)
    ensures GetSpec(st, HandleId(Root, s)) == GetSpec(st, s)
    ensures prefix != Root ==> HandleId(prefix, s) == GetId(Under(prefix), s)
  {
    GetRoot(st);
  }
}
