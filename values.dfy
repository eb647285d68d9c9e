/** The Python values that flow through the library: configuration leaves, node attributes,
    stored providers. Mappings keep insertion order, as Python dicts do. */
module PyValues {

  /** A Python class that can be called to build an object or a node.
      `Imported` is a symbol found in an importable module; `Synthesized` is a class made
      at run time by `type(name, bases, dict)`. */
  datatype Class =
    | NamespaceNodeBase
    | PyObject
    | Imported(moduleName: string, symbol: string)
    | Synthesized(name: string, bases: seq<Class>, body: seq<(string, Value)>)

  datatype Value =
    | NoneV
    | BoolV(b: bool)
    | IntV(i: int)
    | StrV(s: string)
    | ListV(items: seq<Value>)                        // a list or tuple: a non-string Sequence
    | DictV(entries: seq<(string, Value)>)            // a dict (a Mapping), in insertion order
    | CallableV(result: Value)                        // a callable returning `result` when called bare
    | InstanceV(cls: Class, kwargs: seq<(string, Value)>)  // `cls(**kwargs)`
    | ProviderV(id: nat)                              // an instance of a Provider subclass

  /** Python truthiness (`bool(v)`). */
  predicate Truthy(v: Value)
  {
    match v
    case NoneV => false
    case BoolV(b) => b
    case IntV(i) => i != 0
    case StrV(s) => s != ""
    case ListV(items) => items != []
    case DictV(entries) => entries != []
    case _ => true
  }

  /** `isinstance(v, collections.abc.Sequence)`: strings, lists and tuples. */
  predicate IsSequence(v: Value)
  {
    v.StrV? || v.ListV?
  }

  function Keys<V>(entries: seq<(string, V)>): (ks: seq<string>)
    ensures |ks| == |entries|
    ensures forall i | 0 <= i < |entries| :: ks[i] == entries[i].0
  {
    if entries == [] then [] else [entries[0].0] + Keys(entries[1..])
  }

  predicate HasKey<V>(entries: seq<(string, V)>, k: string)
  {
    exists i | 0 <= i < |entries| :: entries[i].0 == k
  }

  /** `d.get(k)` on an insertion-ordered mapping: the value of the first entry for `k`. */
  function Lookup<V>(entries: seq<(string, V)>, k: string): (r: Option<V>)
    ensures r.Some? <==> HasKey(entries, k)
    ensures r.Some? ==> (k, r.value) in entries
  {
    if entries == [] then None
    else if entries[0].0 == k then Some(entries[0].1)
    else
      assert HasKey(entries, k) <==> HasKey(entries[1..], k) by {
        if HasKey(entries, k) {
          var i :| 0 <= i < |entries| && entries[i].0 == k;
          assert entries[1..][i - 1].0 == k;
        }
        if HasKey(entries[1..], k) {
          var i :| 0 <= i < |entries[1..]| && entries[1..][i].0 == k;
          assert entries[i + 1].0 == k;
        }
      }
      Lookup(entries[1..], k)
  }

  /** `d[k] = v`: replaces the first entry for `k` in place, or appends a new entry. */
  function SetItem<V>(entries: seq<(string, V)>, k: string, v: V): (r: seq<(string, V)>)
    ensures Lookup(r, k) == Some(v)
    ensures forall j :: j != k ==> Lookup(r, j) == Lookup(entries, j)
    ensures forall e | e in r :: e in entries || e == (k, v)
  {
    if entries == [] then [(k, v)]
    else if entries[0].0 == k then [(k, v)] + entries[1..]
    else [entries[0]] + SetItem(entries[1..], k, v)
  }

  /** `del d[k]`: drops the entry for `k`. */
  function Remove<V>(entries: seq<(string, V)>, k: string): (r: seq<(string, V)>)
    ensures Lookup(r, k) == None
    ensures forall j :: j != k ==> Lookup(r, j) == Lookup(entries, j)
    ensures forall e | e in r :: e in entries
  {
    if entries == [] then []
    else if entries[0].0 == k then Remove(entries[1..], k)
    else [entries[0]] + Remove(entries[1..], k)
  }

  import opened Errors
}
