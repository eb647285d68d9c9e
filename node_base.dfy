/** The node record of thewired/namespace/namespacenode/base.py: every node of a namespace
    carries a validated `Nsid`, a back-reference to the namespace that owns it, the class
    that built it and the attributes set on it. */
module NodeBase {
  import opened Errors
  import opened PyValues
  import opened Text
  import opened Nsids

  /** The value of a node attribute: a child node, by its reference in the namespace's
      node table, or any other Python value. */
  datatype Attr = Child(ref: nat) | Data(v: Value)

  /** A `NamespaceNodeBase` object (or an object of a subclass): `NS` is the type of the
      owning namespace. The attributes are the node's `__dict__` minus `nsid` and `_ns`. */
  datatype Node<NS> = Node(cls: Class, nsid: Nsid, ns: NS, attrs: map<string, Attr>)

  /** A node factory: a class with keyword arguments already bound, as `functools.partial`
      builds it; it is called with the new node's id and the namespace. */
  datatype Factory = Factory(cls: Class, kwargs: seq<(string, Value)>)

  /** The attribute names the constructor sets itself, after the keyword arguments. */
  predicate Reserved(k: string)
  {
    k == "nsid" || k == "_ns"
  }

  /** The keyword arguments as node attributes: each becomes plain data under its own name,
      except the two names the constructor overwrites. */
  function KwargAttrs(kwargs: seq<(string, Value)>): (r: map<string, Attr>)
    ensures forall k :: k in r <==> !Reserved(k) && Lookup(kwargs, k).Some?
    ensures forall k | k in r :: r[k] == Data(Lookup(kwargs, k).value)
  {
    map e | e in kwargs && !Reserved(e.0) && Lookup(kwargs, e.0).Some? :: e.0 := Data(Lookup(kwargs, e.0).value)
  }

  /** `factory(nsid, namespace)` for a factory whose class is `NamespaceNodeBase` or one of
      its subclasses: the keyword arguments become attributes, the id is wrapped in a
      relative-mode `Nsid` (InvalidNsidError when that rejects it) and the namespace is kept
      as given. */
  function MakeNode<NS>(f: Factory, nsid: string, ns: NS): (r: Result<Node<NS>>)
    ensures r.Ok? <==> IsValidNsidStr(nsid, false, false) == Ok(true)
    ensures r.Err? ==> r.error == InvalidNsid
    ensures r.Ok? ==>
      r.value.nsid == Nsid(nsid) && r.value.ns == ns && r.value.cls == f.cls &&
      r.value.attrs == KwargAttrs(f.kwargs)
  {
    var id :- MakeNsid(nsid, false);
    Ok(Node(f.cls, id, ns, KwargAttrs(f.kwargs)))
  }

  /** A node built from a valid id keeps the id, as `Nsid` equality compares it, the
      namespace and every keyword argument that is not a reserved name. */
  lemma MakeNodeKeeps<NS>(f: Factory, nsid: string, ns: NS, k: string)
    requires IsValidNsidStr(nsid, false, false) == Ok(true)
    requires !Reserved(k) && Lookup(f.kwargs, k).Some?
    ensures MakeNode(f, nsid, ns).Ok?
    ensures MakeNode(f, nsid, ns).value.nsid.nsid == nsid
    ensures k in MakeNode(f, nsid, ns).value.attrs
    ensures MakeNode(f, nsid, ns).value.attrs[k] == Data(Lookup(f.kwargs, k).value)
  {
  }

  /** Any id the relative-mode `Nsid` rejects, such as one with a space or an empty inner
      part, makes construction fail with InvalidNsidError. */
  lemma MakeNodeRejects<NS>(f: Factory, ns: NS)
    ensures MakeNode(f, "a b", ns) == Err(InvalidNsid)
    ensures MakeNode(f, "x..y", ns) == Err(InvalidNsid)
  {
    assert ' ' in "a b";
    assert "x" + "." + ".y" == "x..y";
    assert "" + "." + "y" == ".y";
    SplitDotFreeHead("x", ".y");
    SplitDotFreeHead("", "y");
    SplitNoDot("y");
    assert Split("x..y") == ["x", "", "y"];
    assert !PartOk(Split("x..y"), 1);
  }
}
