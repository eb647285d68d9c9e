/** `FilteredCollection` (thewired/filteredcollection.py): a list together with a sequence of
    filters; length, indexing and iteration see only the elements every filter accepts, in
    their original order. `collective_eval` evaluates an expression on each element of that
    view and flattens the results. */
module FilteredCollections {
  import opened Errors
  import opened PyValues

  /** A Python list object: the collection is shared with whoever passed it in. */
  class PyList {
    var items: seq<Value>

    constructor(items: seq<Value>)
      ensures this.items == items
    {
      this.items := items;
    }
  }

  type Filter = Value -> bool

  /** Every filter accepts `x`. */
  predicate PassesAll(filters: seq<Filter>, x: Value)
  {
    forall i | 0 <= i < |filters| :: filters[i](x)
  }

  /** The reference view: the elements every filter accepts, in order. */
  function Selected(items: seq<Value>, filters: seq<Filter>): (view: seq<Value>)
    ensures |view| <= |items|
    ensures forall x | x in view :: x in items && PassesAll(filters, x)
    ensures forall x | x in items && (PassesAll(filters, x)) :: x in view
  {
    if items == [] then []
    else if PassesAll(filters, items[0]) then [items[0]] + Selected(items[1..], filters)
    else Selected(items[1..], filters)
  }

  /** `filter(f, items)`. */
  function FilterBy(items: seq<Value>, f: Filter): seq<Value>
  {
    if items == [] then []
    else if f(items[0]) then [items[0]] + FilterBy(items[1..], f)
    else FilterBy(items[1..], f)
  }

  /** Filters applied one after the other, as the property's loop does. */
  function Chained(items: seq<Value>, filters: seq<Filter>): seq<Value>
    decreases |filters|
  {
    if filters == [] then items else FilterBy(Chained(items, filters[..|filters| - 1]), filters[|filters| - 1])
  }

  /** Filtering a selection by one more filter selects by all of them. */
  lemma {:induction false} FilterSelected(items: seq<Value>, filters: seq<Filter>, f: Filter)
    ensures FilterBy(Selected(items, filters), f) == Selected(items, filters + [f])
    decreases |items|
  {
    if items != [] {
      FilterSelected(items[1..], filters, f);
      var x := items[0];
      var all: seq<Filter> := filters + [f];
      assert PassesAll(all, x) <==> PassesAll(filters, x) && f(x) by {
        assert all[|filters|] == f;
        assert forall i | 0 <= i < |filters| :: all[i] == filters[i];
      }
    }
  }

  /** With no filters the selection is the whole list. */
  lemma {:induction false} SelectedNone(items: seq<Value>)
    ensures Selected(items, []) == items
    decreases |items|
  {
    if items != [] {
      SelectedNone(items[1..]);
    }
  }

  /** Applying the filters one after the other selects exactly what passes all of them. */
  lemma {:induction false} ChainedIsSelected(items: seq<Value>, filters: seq<Filter>)
    ensures Chained(items, filters) == Selected(items, filters)
    decreases |filters|
  {
    if filters == [] {
      SelectedNone(items);
    } else {
      var init := filters[..|filters| - 1];
      ChainedIsSelected(items, init);
      FilterSelected(items, init, filters[|filters| - 1]);
      assert init + [filters[|filters| - 1]] == filters;
    }
  }

  /** Appending an element extends the selection by it exactly when every filter accepts it. */
  lemma {:induction false} SelectedAppend(items: seq<Value>, filters: seq<Filter>, x: Value)
    ensures Selected(items + [x], filters) ==
      Selected(items, filters) + (if PassesAll(filters, x) then [x] else [])
    decreases |items|
  {
    if items == [] {
      assert [x][1..] == [];
    } else {
      assert (items + [x])[1..] == items[1..] + [x];
      SelectedAppend(items[1..], filters, x);
    }
  }

  /** Python list indexing, negative indices counting from the end. */
  function At(view: seq<Value>, index: int): (r: Result<Value>)
    ensures r.Ok? <==> -|view| <= index < |view|
    ensures r.Ok? ==> r.value in view
    ensures r.Err? ==> r.error == IndexErr
  {
    if 0 <= index < |view| then Ok(view[index])
    else if -|view| <= index < 0 then Ok(view[|view| + index])
    else Err(IndexErr)
  }

  const FailCanaryType: string := "_FilteredCollection_underlying_object_type_error_canary_"
  const FailCanaryAttribute: string := "_FilteredCollection_underlying_object_attribute_error_canary_"
  const FailCanaryName: string := "_FilteredCollection_evaluation_name_error_canary_"

  predicate IsCanary(v: Value)
  {
    v in {StrV(FailCanaryType), StrV(FailCanaryAttribute), StrV(FailCanaryName)}
  }

  /** What `eval('c' + eval_string)` followed by the formatter does for one element: returns
      a value, or raises one of the exceptions the loop turns into a canary, or raises
      something else, which escapes. */
  datatype Outcome = Returned(v: Value) | RaisedAttribute | RaisedType | RaisedName | RaisedOther(e: Error)

  /** The value kept for one element: the canary of the exception caught. */
  function ResultOf(o: Outcome): Result<Value>
  {
    match o
    case Returned(v) => Ok(v)
    case RaisedAttribute => Ok(StrV(FailCanaryAttribute))
    case RaisedType => Ok(StrV(FailCanaryType))
    case RaisedName => Ok(StrV(FailCanaryName))
    case RaisedOther(e) => Err(e)
  }

  /** The characters of a string, each as a one-character string. */
  function Chars(s: string): (cs: seq<Value>)
    ensures |cs| == |s| && forall i | 0 <= i < |s| :: cs[i] == StrV([s[i]])
  {
    seq(|s|, i requires 0 <= i < |s| => StrV([s[i]]))
  }

  /** `results.extend(result)` for any Sequence result, a string included, and
      `results.append(result)` otherwise. */
  function Spread(v: Value): seq<Value>
  {
    match v
    case StrV(s) => Chars(s)
    case ListV(items) => items
    case _ => [v]
  }

  /** The loop of `collective_eval` over the view. */
  function Flatten(view: seq<Value>, eval: Value -> Outcome): Result<seq<Value>>
  {
    if view == [] then Ok([])
    else
      var r :- ResultOf(eval(view[0]));
      var rest :- Flatten(view[1..], eval);
      Ok(Spread(r) + rest)
  }

  /** The final test: an error only when there are results and all of them are canaries. */
  function CanaryCheck(results: seq<Value>): Result<seq<Value>>
  {
    if results != [] && forall x | x in results :: IsCanary(x) then Err(CollectiveEvalDelegateObject)
    else Ok(results)
  }

  /** `collective_eval(eval_string, formatter)` as written. */
  function CollectiveEval(view: seq<Value>, eval: Value -> Outcome): Result<seq<Value>>
  {
    var results :- Flatten(view, eval);
    CanaryCheck(results)
  }

  /** Every canary is a string of more than one character. */
  lemma CanaryIsLong(v: Value)
    ensures IsCanary(v) ==> v.StrV? && |v.s| > 1
  {
  }

  /** A one-character string is not a canary. */
  lemma CharsNoCanary(s: string)
    ensures forall y | y in Chars(s) :: !IsCanary(y)
  {
    forall y | y in Chars(s)
      ensures !IsCanary(y)
    {
      var i :| 0 <= i < |s| && Chars(s)[i] == y;
      CanaryIsLong(y);
    }
  }

  /** `prefix` put in front of a successful result. */
  function Prepend(prefix: seq<Value>, r: Result<seq<Value>>): Result<seq<Value>>
  {
    if r.Ok? then Ok(prefix + r.value) else r
  }

  lemma PrependTwice(a: seq<Value>, b: seq<Value>, r: Result<seq<Value>>)
    ensures Prepend(a, Prepend(b, r)) == Prepend(a + b, r)
  {
    if r.Ok? {
      assert a + (b + r.value) == (a + b) + r.value;
    }
  }

  lemma PrependNothing(r: Result<seq<Value>>)
    ensures Prepend([], r) == r
  {
    if r.Ok? {
      assert [] + r.value == r.value;
    }
  }

  /** One step of the loop. */
  lemma FlattenCons(view: seq<Value>, eval: Value -> Outcome)
    requires view != [] && ResultOf(eval(view[0])).Ok?
    ensures Flatten(view, eval) == Prepend(Spread(ResultOf(eval(view[0])).value), Flatten(view[1..], eval))
  {
  }

  /** The loop's invariant is kept by one step. */
  lemma FlattenStep(view: seq<Value>, eval: Value -> Outcome, i: nat, results: seq<Value>)
    requires i < |view| && ResultOf(eval(view[i])).Ok?
    requires Flatten(view, eval) == Prepend(results, Flatten(view[i..], eval))
    ensures Flatten(view, eval) == Prepend(results + Spread(ResultOf(eval(view[i])).value), Flatten(view[i + 1..], eval))
  {
    assert view[i..][0] == view[i] && view[i..][1..] == view[i + 1..];
    FlattenCons(view[i..], eval);
    PrependTwice(results, Spread(ResultOf(eval(view[i])).value), Flatten(view[i + 1..], eval));
  }

  /** A canary is never a single character, so once spread no result is a canary. */
  lemma {:induction false} SpreadCanariesNotCanaries(view: seq<Value>, eval: Value -> Outcome)
    requires forall x | x in view :: !eval(x).Returned? && !eval(x).RaisedOther?
    ensures Flatten(view, eval).Ok?
    ensures forall y | y in Flatten(view, eval).value :: !IsCanary(y)
    decreases |view|
  {
    if view != [] {
      assert view[0] in view;
      assert forall x | x in view[1..] :: x in view;
      SpreadCanariesNotCanaries(view[1..], eval);
      var r := ResultOf(eval(view[0])).value;
      assert r.StrV? && Spread(r) == Chars(r.s);
      CharsNoCanary(r.s);
      FlattenCons(view, eval);
      var rest := Flatten(view[1..], eval).value;
      assert Flatten(view, eval).value == Chars(r.s) + rest;
      forall y | y in Chars(r.s) + rest
        ensures !IsCanary(y)
      {
        if y !in Chars(r.s) {
          assert y in rest;
        }
      }
    }
  }

  /** When evaluation fails on every element of a non-empty view, `collective_eval` as written
      returns the characters of the canaries instead of raising: the all-canary test can
      never see a whole canary. */
  lemma AllFailuresNotReported(view: seq<Value>, eval: Value -> Outcome)
    requires view != [] && forall x | x in view :: eval(x) == RaisedAttribute
    ensures CollectiveEval(view, eval).Ok?
    ensures CollectiveEvalIntended(view, eval) == Err(CollectiveEvalDelegateObject)
  {
    SpreadCanariesNotCanaries(view, eval);
    FlattenCons(view, eval);
    var results := Flatten(view, eval).value;
    assert |results| > 0 by {
      assert |Chars(FailCanaryAttribute)| > 0;
    }
    assert results[0] in results;
    AllCanariesKept(view, eval);
  }

  /** The loop with a caught exception's canary kept as one element. */
  function FlattenIntended(view: seq<Value>, eval: Value -> Outcome): (r: Result<seq<Value>>)
    ensures r.Ok? && (forall x | x in view :: !eval(x).Returned? && !eval(x).RaisedOther?) ==>
      |r.value| == |view| && forall y | y in r.value :: IsCanary(y)
  {
    if view == [] then Ok([])
    else
      var o := eval(view[0]);
      var r :- ResultOf(o);
      var rest :- FlattenIntended(view[1..], eval);
      Ok((if o.Returned? then Spread(r) else [r]) + rest)
  }

  /** `collective_eval` as evidently intended: all-failed evaluations are reported. */
  function CollectiveEvalIntended(view: seq<Value>, eval: Value -> Outcome): Result<seq<Value>>
  {
    var results :- FlattenIntended(view, eval);
    CanaryCheck(results)
  }

  /** With the canaries kept whole, a non-empty view where evaluation fails everywhere is
      reported with CollectiveEvalDelegateObjectError. */
  lemma {:induction false} AllCanariesKept(view: seq<Value>, eval: Value -> Outcome)
    requires forall x | x in view :: !eval(x).Returned? && !eval(x).RaisedOther?
    ensures FlattenIntended(view, eval).Ok?
    ensures view != [] ==> CollectiveEvalIntended(view, eval) == Err(CollectiveEvalDelegateObject)
    decreases |view|
  {
    if view != [] {
      AllCanariesKept(view[1..], eval);
    }
  }

  /** Results that are not canaries, in order, are what evaluation returned; one failure
      among successes raises nothing. */
  lemma OneSuccessSuffices(view: seq<Value>, eval: Value -> Outcome)
    requires Flatten(view, eval).Ok?
    requires exists y | y in Flatten(view, eval).value :: !IsCanary(y)
    ensures CollectiveEval(view, eval) == Flatten(view, eval)
  {
  }

  class FilteredCollection {
    /** `_collection`, also published as `all`. */
    const collection: PyList
    var filters: seq<Filter>

    /** `all`: the same list object as the underlying collection. */
    function All(): PyList
    {
      collection
    }

    /** `FilteredCollection(collection, filters)`: a missing or empty collection is replaced
        by a new empty list; a non-empty one is adopted, not copied. */
    constructor(collection: PyList?, filters: seq<Filter>)
      ensures collection != null && collection.items != [] ==> this.collection == collection
      ensures collection == null || collection.items == [] ==> fresh(this.collection) && this.collection.items == []
      ensures this.filters == filters
    {
      if collection != null && collection.items != [] {
        this.collection := collection;
      } else {
        this.collection := new PyList([]);
      }
      this.filters := filters;
    }

    /** The `_filtered_collection` property: its loop applies the filters one after the
        other, then the result is listed. */
    method FilteredView() returns (view: seq<Value>)
      ensures view == Selected(collection.items, filters)
    {
      view := collection.items;
      var i := 0;
      while i < |filters|
        invariant 0 <= i <= |filters|
        invariant view == Chained(collection.items, filters[..i])
      {
        assert filters[..i + 1][..i] == filters[..i];
        view := FilterBy(view, filters[i]);
        i := i + 1;
      }
      assert filters[..i] == filters;
      ChainedIsSelected(collection.items, filters);
    }

    /** `len(fc)`: the length of the view. */
    method Length() returns (n: nat)
      ensures n == |Selected(collection.items, filters)|
    {
      var view := FilteredView();
      n := |view|;
    }

    /** `fc[index]`: indexing into the view. */
    method Get(index: int) returns (r: Result<Value>)
      ensures r == At(Selected(collection.items, filters), index)
    {
      var view := FilteredView();
      r := At(view, index);
    }

    /** `fc.append(item)`: appends to the underlying list only; the filters are kept. */
    method Append(item: Value)
      modifies collection
      ensures collection.items == old(collection.items) + [item]
      ensures Selected(collection.items, filters) ==
        old(Selected(collection.items, filters)) + (if PassesAll(filters, item) then [item] else [])
    {
      collection.items := collection.items + [item];
      SelectedAppend(old(collection.items), filters, item);
    }

    /** `collective_eval(eval_string, formatter)` over the current view. */
    method CollectiveEvaluate(eval: Value -> Outcome) returns (r: Result<seq<Value>>)
      ensures r == CollectiveEval(Selected(collection.items, filters), eval)
    {
      var view := FilteredView();
      var results: seq<Value> := [];
      var i := 0;
      assert view[i..] == view;
      PrependNothing(Flatten(view, eval));
      while i < |view|
        invariant 0 <= i <= |view|
        invariant Flatten(view, eval) == Prepend(results, Flatten(view[i..], eval))
      {
        var result := ResultOf(eval(view[i]));
        if result.Err? {
          return Err(result.error);
        }
        FlattenStep(view, eval, i, results);
        results := results + Spread(result.value);
        i := i + 1;
      }
      assert results + [] == results;
      r := CanaryCheck(results);
    }
  }
}
