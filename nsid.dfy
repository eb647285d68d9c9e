/** The NSID algebra of thewired/namespace/nsid.py: dot-separated namespace ids, their
    validation and the ids derived from them (child, parent, ancestry, common prefix).
    Only the default separator `.` is modelled. */
module Nsids {
  import opened Errors
  import opened Text

  const Root: string := "."
  const LinkPrefix: string := "nsid://"
  const RefPrefix: string := "nsid-ref://"

  /** An `Nsid` object wraps its id string; two are equal exactly when their strings are. */
  datatype Nsid = Nsid(nsid: string)

  /** The verdict of the part-by-part loop: only the first part may be empty, every
      other part must be an identifier. */
  predicate PartsValid(parts: seq<string>)
  {
    forall n | 0 <= n < |parts| :: PartOk(parts, n)
  }

  predicate PartOk(parts: seq<string>, n: nat)
    requires n < |parts|
  {
    if parts[n] == "" then n == 0 else IsIdentifier(parts[n])
  }

  /** The validity loop over the parts of an id (the `for ... else` that sets `valid_nsid`). */
  method CheckParts(parts: seq<string>) returns (valid: bool)
    ensures valid == PartsValid(parts)
  {
    valid := false;
    var n := 0;
    while n < |parts|
      invariant 0 <= n <= |parts|
      invariant forall m | 0 <= m < n :: PartOk(parts, m)
    {
      if parts[n] == "" {
        if n != 0 {
          assert !PartOk(parts, n);
          return;
        }
      } else if !IsIdentifier(parts[n]) {
        assert !PartOk(parts, n);
        return;
      }
      n := n + 1;
    }
    valid := true;
  }

  /** `is_valid_nsid_str(s, symrefs_ok, fully_qualified)` on a string. Indexing the empty
      string in fully-qualified mode raises IndexError, as the source does. */
  function IsValidNsidStr(s: string, symrefsOk: bool, fullyQualified: bool): Result<bool>
    decreases if symrefsOk then 1 else 0, 1
  {
    if fullyQualified && |s| == 0 then Err(IndexErr)
    else if fullyQualified && s[0] != '.' then Ok(false)
    else if ' ' in s then Ok(false)
    else if s == Root then Ok(true)
    else
      var link :- if symrefsOk then PrefixedNsidValid(s, LinkPrefix) else Ok(None);
      if link == Some(true) then Ok(true)
      else
        var parts := Split(s);
        Ok(if |parts| > 1 then PartsValid(parts) else true)
  }

  /** `is_valid_nsid_link` / `is_valid_nsid_ref`: None when `s` lacks the prefix; otherwise
      the validity of the fully-qualified id after it. A second occurrence of the prefix
      makes the two-way unpacking of `split` raise ValueError. */
  function PrefixedNsidValid(s: string, prefix: string): Result<Option<bool>>
    requires |prefix| > 0
    decreases 1, 0
  {
    if |s| >= |prefix| && s[..|prefix|] == prefix then
      var pieces := SplitOn(s, prefix);
      if |pieces| != 2 then Err(ValueErr)
      else
        var v :- IsValidNsidStr(pieces[1], false, true);
        Ok(Some(v))
    else Ok(None)
  }

  function IsValidNsidLink(s: string): Result<Option<bool>>
  {
    PrefixedNsidValid(s, LinkPrefix)
  }

  function IsValidNsidRef(s: string): Result<Option<bool>>
  {
    PrefixedNsidValid(s, RefPrefix)
  }

  /** `validate_nsid`: InvalidNsidError for an id the predicate rejects. */
  function ValidateNsid(s: string, symrefsOk: bool, fullyQualified: bool): Result<()>
  {
    var valid :- IsValidNsidStr(s, symrefsOk, fullyQualified);
    if valid then Ok(()) else Err(InvalidNsid)
  }

  /** `Nsid(s, fully_qualified)`: validated without symbolic references. */
  function MakeNsid(s: string, fullyQualified: bool): (r: Result<Nsid>)
    ensures r.Ok? ==> r.value.nsid == s
    ensures r.Ok? <==> IsValidNsidStr(s, false, fullyQualified) == Ok(true)
  {
    var valid :- ValidateNsid(s, false, fullyQualified);
    Ok(Nsid(s))
  }

  /** A fully-qualified id: the root, or a leading dot followed by identifiers. */
  predicate QualifiedForm(s: string)
  {
    s == Root ||
    (|Split(s)| >= 2 && Split(s)[0] == "" &&
     forall i | 1 <= i < |Split(s)| :: IsIdentifier(Split(s)[i]))
  }

  lemma {:induction false} JoinAvoidsChar(parts: seq<string>, c: char)
    requires c != '.'
    requires forall i | 0 <= i < |parts| :: c !in parts[i]
    ensures c !in Join(parts)
    decreases |parts|
  {
    if |parts| > 1 {
      JoinAvoidsChar(parts[1..], c);
    }
  }

  lemma QualifiedHasNoSpace(s: string)
    requires QualifiedForm(s)
    ensures ' ' !in s
  {
    if s != Root {
      var parts := Split(s);
      forall i | 0 <= i < |parts|
        ensures ' ' !in parts[i]
      {
        if i > 0 {
          IdentifierHasNoDotOrSpace(parts[i]);
        }
      }
      JoinAvoidsChar(parts, ' ');
      JoinSplit(s);
    }
  }

  /** With `fully_qualified=True` a (non-empty) string is valid exactly when it is the root
      or a leading dot followed by identifiers; the empty string raises IndexError. */
  lemma QualifiedValidity(s: string, symrefsOk: bool)
    ensures s == "" ==> IsValidNsidStr(s, symrefsOk, true) == Err(IndexErr)
    ensures s != "" ==> IsValidNsidStr(s, symrefsOk, true) == Ok(QualifiedForm(s))
  {
    if s != "" && s != Root {
      SplitCons(s);
      if s[0] == '.' {
        var parts := Split(s);
        assert |parts| >= 2 && parts[0] == "";
        if QualifiedForm(s) {
          QualifiedHasNoSpace(s);
          forall n | 0 <= n < |parts| ensures PartOk(parts, n) {
            if n > 0 { assert IsIdentifier(parts[n]); }
          }
        }
        if PartsValid(parts) {
          forall i | 1 <= i < |parts| ensures IsIdentifier(parts[i]) {
            assert PartOk(parts, i);
          }
        }
        assert |s| < |LinkPrefix| || s[..|LinkPrefix|] != LinkPrefix by {
          if |s| >= |LinkPrefix| {
            assert s[..|LinkPrefix|][0] == '.';
          }
        }
      }
    }
  }

  predicate NoSpace(s: string)
  {
    ' ' !in s
  }

  /** With `fully_qualified=False` and no references, a string without a separator is
      valid exactly when it has no space. */
  lemma RelativeNoDotValidity(s: string)
    requires NoDot(s)
    ensures IsValidNsidStr(s, false, false) == Ok(NoSpace(s))
  {
    SplitNoDot(s);
  }

  /** A qualified id stays valid under any flags. */
  lemma QualifiedIsValid(s: string, symrefsOk: bool, fullyQualified: bool)
    requires QualifiedForm(s)
    ensures IsValidNsidStr(s, symrefsOk, fullyQualified) == Ok(true)
  {
    QualifiedValidity(s, symrefsOk);
    if s != Root {
      SplitCons(s);
      QualifiedHasNoSpace(s);
      assert |s| < |LinkPrefix| || s[..|LinkPrefix|] != LinkPrefix by {
        if |s| >= |LinkPrefix| {
          assert s[..|LinkPrefix|][0] == '.';
        }
      }
    }
  }

  /** An identifier is a valid relative id. */
  lemma IdentifierIsValid(c: string, symrefsOk: bool)
    requires IsIdentifier(c)
    ensures IsValidNsidStr(c, symrefsOk, false) == Ok(true)
  {
    IdentifierHasNoDotOrSpace(c);
    SplitNoDot(c);
    assert |c| < |LinkPrefix| || c[..|LinkPrefix|] != LinkPrefix by {
      if |c| >= |LinkPrefix| {
        assert IsLetter(c[4]) || IsDigit(c[4]) || c[4] == '_';
        assert c[..|LinkPrefix|][4] == c[4];
      }
    }
  }

  lemma QualifiedExample()
    ensures IsValidNsidStr(".a.b", true, true) == Ok(true)
  {
    assert "" + "." + "a.b" == ".a.b";
    assert "a" + "." + "b" == "a.b";
    SplitDotFreeHead("", "a.b");
    SplitDotFreeHead("a", "b");
    SplitNoDot("b");
    assert Split(".a.b") == ["", "a", "b"];
    QualifiedValidity(".a.b", true);
  }

  lemma TrailingDotExample()
    ensures IsValidNsidStr(".a.", true, true) == Ok(false)
  {
    assert "" + "." + "a." == ".a.";
    assert "a" + "." + "" == "a.";
    SplitDotFreeHead("", "a.");
    SplitDotFreeHead("a", "");
    SplitNoDot("");
    assert Split(".a.") == ["", "a", ""];
    assert !IsIdentifier(Split(".a.")[2]);
    QualifiedValidity(".a.", true);
  }

  lemma RejectedExamples()
    ensures IsValidNsidStr("a.", true, true) == Ok(false)
    ensures IsValidNsidStr(".a b c.", true, true) == Ok(false)
  {
    assert ' ' in ".a b c.";
  }

  lemma RelativeExamples()
    ensures IsValidNsidStr("a.b.c", true, false) == Ok(true)
  {
    SplitABC();
    assert PartOk(["a", "b", "c"], 0) && PartOk(["a", "b", "c"], 1) && PartOk(["a", "b", "c"], 2);
  }

  lemma SplitABC()
    ensures Split("a.b.c") == ["a", "b", "c"]
  {
    assert "b" + "." + "c" == "b.c";
    assert "a" + "." + "b.c" == "a.b.c";
    SplitDotFreeHead("b", "c");
    SplitDotFreeHead("a", "b.c");
    SplitNoDot("c");
  }

  lemma DoubleDotExample()
    ensures MakeNsid("x..y..z", false).Err?
  {
    assert "x" + "." + ".y..z" == "x..y..z";
    assert "" + "." + "y..z" == ".y..z";
    SplitDotFreeHead("x", ".y..z");
    SplitDotFreeHead("", "y..z");
    assert Split("x..y..z")[1] == "";
    assert !PartOk(Split("x..y..z"), 1);
  }

  /** No two consecutive separators. */
  predicate NoDoubleDot(s: string)
  {
    forall i | 0 <= i < |s| - 1 :: !(s[i] == '.' && s[i + 1] == '.')
  }

  /** `sanitize_nsid`: every run of two or more separators becomes one. */
  function Sanitize(s: string): string
    decreases |s|
  {
    if |s| < 2 then s
    else if s[0] == '.' && s[1] == '.' then Sanitize(s[1..])
    else [s[0]] + Sanitize(s[1..])
  }

  lemma {:induction false} SanitizeKeepsHead(s: string)
    requires |s| > 0
    ensures |Sanitize(s)| > 0 && Sanitize(s)[0] == s[0]
    decreases |s|
  {
    if |s| >= 2 && s[0] == '.' && s[1] == '.' {
      SanitizeKeepsHead(s[1..]);
    }
  }

  /** A sanitized id contains no `..`. */
  lemma {:induction false} SanitizeNoDoubleDot(s: string)
    ensures NoDoubleDot(Sanitize(s))
    decreases |s|
  {
    if |s| >= 2 {
      SanitizeNoDoubleDot(s[1..]);
      if !(s[0] == '.' && s[1] == '.') {
        SanitizeKeepsHead(s[1..]);
        var r := Sanitize(s[1..]);
        assert Sanitize(s) == [s[0]] + r;
        forall i | 0 <= i < |[s[0]] + r| - 1
          ensures !(([s[0]] + r)[i] == '.' && ([s[0]] + r)[i + 1] == '.')
        {
          if i > 0 {
            assert ([s[0]] + r)[i] == r[i - 1];
            assert ([s[0]] + r)[i + 1] == r[i];
          }
        }
      }
    }
  }

  /** An id without `..` is left as it is. */
  lemma {:induction false} SanitizeClean(s: string)
    requires NoDoubleDot(s)
    ensures Sanitize(s) == s
    decreases |s|
  {
    if |s| >= 2 {
      assert !(s[0] == '.' && s[1] == '.');
      assert NoDoubleDot(s[1..]) by {
        forall i | 0 <= i < |s[1..]| - 1
          ensures !(s[1..][i] == '.' && s[1..][i + 1] == '.')
        {
          assert s[1..][i] == s[i + 1] && s[1..][i + 1] == s[i + 2];
        }
      }
      SanitizeClean(s[1..]);
      assert s == [s[0]] + s[1..];
    }
  }

  /** Sanitizing twice is sanitizing once. */
  lemma SanitizeIdempotent(s: string)
    ensures Sanitize(Sanitize(s)) == Sanitize(s)
  {
    SanitizeNoDoubleDot(s);
    SanitizeClean(Sanitize(s));
  }

  /** The characters other than the separator, in order. */
  function NonDots(s: string): string
  {
    if s == [] then [] else (if s[0] == '.' then [] else [s[0]]) + NonDots(s[1..])
  }

  /** Sanitizing removes separators only. */
  lemma {:induction false} SanitizeKeepsNonDots(s: string)
    ensures NonDots(Sanitize(s)) == NonDots(s)
    decreases |s|
  {
    if |s| >= 2 {
      SanitizeKeepsNonDots(s[1..]);
      if !(s[0] == '.' && s[1] == '.') {
        assert ([s[0]] + Sanitize(s[1..]))[1..] == Sanitize(s[1..]);
      }
    }
  }

  /** `make_child_nsid(parent, child)`: both must be valid relative ids. */
  function MakeChildNsid(parent: string, child: string): Result<string>
  {
    var parentValid :- IsValidNsidStr(parent, true, false);
    if !parentValid then Err(InvalidNsid)
    else
      var childValid :- IsValidNsidStr(child, true, false);
      if !childValid then Err(InvalidNsid)
      else if parent == Root then Ok(Root + child)
      else if |child| > 0 && child[0] == '.' then Ok(parent + child)
      else Ok(parent + "." + child)
  }

  /** The child of a qualified id under an identifier is the qualified id whose parts are the
      parent's parts followed by the identifier. */
  lemma MakeChildQualified(parent: string, child: string)
    requires QualifiedForm(parent) && IsIdentifier(child)
    ensures MakeChildNsid(parent, child).Ok?
    ensures var r := MakeChildNsid(parent, child).value;
      QualifiedForm(r) &&
      Split(r) == (if parent == Root then ["", child] else Split(parent) + [child])
  {
    QualifiedIsValid(parent, true, false);
    IdentifierIsValid(child, true);
    IdentifierHasNoDotOrSpace(child);
    var r := MakeChildNsid(parent, child).value;
    if parent == Root {
      JoinTwo("", child);
      assert r == Join(["", child]);
      SplitJoin(["", child]);
    } else {
      var ps := Split(parent);
      JoinSplit(parent);
      JoinAppend(ps, child);
      SplitPartsDotFree(parent);
      SplitJoin(ps + [child]);
    }
  }

  /** The last dot part of an id; `.` for the root. */
  function Basename(s: string): string
  {
    if s == Root then Root else Split(s)[|Split(s)| - 1]
  }

  lemma BasenameOfChild(parent: string, child: string)
    requires QualifiedForm(parent) && IsIdentifier(child)
    ensures MakeChildNsid(parent, child).Ok?
    ensures Basename(MakeChildNsid(parent, child).value) == child
  {
    MakeChildQualified(parent, child);
  }

  /** The end index of the Python slice `xs[0:stop]` over `len` items. */
  function SliceStop(len: nat, stop: int): (e: nat)
    ensures e <= len
  {
    if stop < 0 then (if len + stop < 0 then 0 else len + stop)
    else if stop > len then len
    else stop
  }

  /** `get_parent_nsid(s, n)`: the id less its last `n` parts, `.` when nothing is left. */
  function GetParentNsid(s: string, n: int): Result<string>
  {
    var valid :- ValidateNsid(s, true, true);
    var parts := Split(s);
    var joined := Join(parts[..SliceStop(|parts|, -n)]);
    Ok(if joined == "" then Root else joined)
  }

  /** The parent of a qualified id is qualified and keeps all but the last `n` parts, or is
      the root when at most the leading empty part would remain. */
  lemma ParentDropsParts(s: string, n: int)
    requires QualifiedForm(s) && n >= 1
    ensures GetParentNsid(s, n).Ok?
    ensures var p := GetParentNsid(s, n).value;
      QualifiedForm(p) &&
      (if |Split(s)| - n <= 1 then p == Root else Split(p) == Split(s)[..|Split(s)| - n])
  {
    QualifiedIsValid(s, true, true);
    var parts := Split(s);
    var e := SliceStop(|parts|, -n);
    if s == Root {
      assert parts == ["", ""] by {
        SplitJoin(["", ""]);
      }
    }
    var kept := parts[..e];
    if e >= 2 {
      JoinEmptyOnly(kept);
      SplitPartsDotFree(s);
      SplitJoin(kept);
    } else if e == 1 {
      assert kept == [""];
    }
  }

  lemma ParentOfChild(parent: string, child: string)
    requires QualifiedForm(parent) && IsIdentifier(child)
    ensures MakeChildNsid(parent, child).Ok?
    ensures GetParentNsid(MakeChildNsid(parent, child).value, 1) == Ok(parent)
  {
    MakeChildQualified(parent, child);
    var r := MakeChildNsid(parent, child).value;
    ParentDropsParts(r, 1);
    if parent != Root {
      var p := GetParentNsid(r, 1).value;
      JoinSplit(p);
      JoinSplit(parent);
      assert Split(r)[..|Split(r)| - 1] == Split(parent);
    }
  }

  /** A relative id has no parent: InvalidNsidError, or IndexError for the empty string. */
  lemma ParentRejectsRelative(s: string, n: int)
    ensures s == "" ==> GetParentNsid(s, n) == Err(IndexErr)
    ensures s != "" && s[0] != '.' ==> GetParentNsid(s, n) == Err(InvalidNsid)
  {
  }

  /** `list_nsid_segments(s, skip_root)`. */
  function ListNsidSegments(s: string, skipRoot: bool): (segs: seq<string>)
    ensures !skipRoot ==> |segs| >= 1
  {
    if s == Root then [Root]
    else
      var segs := Split(s);
      if segs[0] == "" then (if skipRoot then segs[1..] else [Root] + segs[1..])
      else segs
  }

  /** Building an id from the root by `make_child_nsid` over the skip-root segments of a
      qualified id gives the id back. */
  function ChildChain(start: string, names: seq<string>): Result<string>
    decreases |names|
  {
    if names == [] then Ok(start)
    else
      var next :- MakeChildNsid(start, names[0]);
      ChildChain(next, names[1..])
  }

  /** The parts of a qualified id other than the root. */
  predicate QualifiedParts(parts: seq<string>)
  {
    |parts| >= 2 && parts[0] == "" && forall i | 1 <= i < |parts| :: IsIdentifier(parts[i])
  }

  /** The id made of the first `k` parts (the root for the lone leading empty part). */
  function PrefixId(parts: seq<string>, k: nat): string
    requires 1 <= k <= |parts|
  {
    if k == 1 then Root else Join(parts[..k])
  }

  lemma PrefixIdQualified(parts: seq<string>, k: nat)
    requires QualifiedParts(parts) && 1 <= k <= |parts|
    ensures QualifiedForm(PrefixId(parts, k))
    ensures k >= 2 ==> Split(PrefixId(parts, k)) == parts[..k] && PrefixId(parts, k) != Root
  {
    if k >= 2 {
      var pre := parts[..k];
      assert DotFree(pre) by {
        forall i | 0 <= i < k ensures NoDot(pre[i]) {
          if i > 0 { IdentifierHasNoDotOrSpace(parts[i]); }
        }
      }
      SplitJoin(pre);
      assert pre[1] == parts[1];
      assert Split(Root) == ["", ""] by { SplitJoin(["", ""]); }
    }
  }

  lemma PrefixIdStep(parts: seq<string>, k: nat)
    requires QualifiedParts(parts) && 1 <= k < |parts|
    ensures MakeChildNsid(PrefixId(parts, k), parts[k]) == Ok(PrefixId(parts, k + 1))
  {
    var start := PrefixId(parts, k);
    PrefixIdQualified(parts, k);
    PrefixIdQualified(parts, k + 1);
    MakeChildQualified(start, parts[k]);
    var r := MakeChildNsid(start, parts[k]).value;
    assert Split(r) == parts[..k + 1] by {
      if k == 1 {
        assert parts[..2] == ["", parts[1]];
      } else {
        assert parts[..k + 1] == parts[..k] + [parts[k]];
      }
    }
    JoinSplit(r);
  }

  /** What `make_child_nsid` returns for a qualified parent and an identifier. */
  function ChildOf(parent: string, child: string): string
  {
    if parent == Root then Root + child else parent + "." + child
  }

  lemma ChildOfIsMakeChild(parent: string, child: string)
    requires QualifiedForm(parent) && IsIdentifier(child)
    ensures MakeChildNsid(parent, child) == Ok(ChildOf(parent, child))
  {
    QualifiedIsValid(parent, true, false);
    IdentifierIsValid(child, true);
  }

  /** The child of the first `k` parts under the next part is the first `k + 1` parts. */
  lemma PrefixIdChild(parts: seq<string>, k: nat)
    requires QualifiedParts(parts) && 1 <= k < |parts|
    ensures ChildOf(PrefixId(parts, k), parts[k]) == PrefixId(parts, k + 1)
  {
    PrefixIdStep(parts, k);
    PrefixIdQualified(parts, k);
    ChildOfIsMakeChild(PrefixId(parts, k), parts[k]);
  }

  lemma {:induction false} ChildChainRebuilds(parts: seq<string>, k: nat)
    requires QualifiedParts(parts) && 1 <= k <= |parts|
    ensures ChildChain(PrefixId(parts, k), parts[k..]) == Ok(PrefixId(parts, |parts|))
    decreases |parts| - k, 1
  {
    if k < |parts| {
      ChildChainRebuildsFrom(parts, k);
    } else {
      ChildChainOfWhole(parts, k);
    }
  }

  /** The inductive step of `ChildChainRebuilds`: the rest of the chain, then one turn. */
  lemma {:induction false} ChildChainRebuildsFrom(parts: seq<string>, k: nat)
    requires QualifiedParts(parts) && 1 <= k < |parts|
    ensures ChildChain(PrefixId(parts, k), parts[k..]) == Ok(PrefixId(parts, |parts|))
    decreases |parts| - k, 0
  {
    ChildChainRebuilds(parts, k + 1);
    PrefixChainExtends(parts, k, PrefixId(parts, |parts|));
  }

  /** With no parts left, the chain stops at the whole id. */
  lemma ChildChainOfWhole(parts: seq<string>, k: nat)
    requires 1 <= k == |parts|
    ensures ChildChain(PrefixId(parts, k), parts[k..]) == Ok(PrefixId(parts, |parts|))
  {
    assert parts[k..] == [];
  }

  /** A chain that reaches `whole` from the first `k + 1` parts reaches it from the first `k`. */
  lemma PrefixChainExtends(parts: seq<string>, k: nat, whole: string)
    requires QualifiedParts(parts) && 1 <= k < |parts|
    requires ChildChain(PrefixId(parts, k + 1), parts[k + 1..]) == Ok(whole)
    ensures ChildChain(PrefixId(parts, k), parts[k..]) == Ok(whole)
  {
    PrefixChainStep(parts, k);
  }

  /** One turn of `ChildChain` over the parts of a qualified id. */
  lemma PrefixChainStep(parts: seq<string>, k: nat)
    requires QualifiedParts(parts) && 1 <= k < |parts|
    ensures ChildChain(PrefixId(parts, k), parts[k..]) == ChildChain(PrefixId(parts, k + 1), parts[k + 1..])
  {
    PrefixIdStep(parts, k);
    assert parts[k..][0] == parts[k] && parts[k..][1..] == parts[k + 1..];
    ChildChainStep(PrefixId(parts, k), parts[k..], PrefixId(parts, k + 1));
  }

  /** One turn of `ChildChain`. */
  lemma ChildChainStep(start: string, names: seq<string>, next: string)
    requires names != [] && MakeChildNsid(start, names[0]) == Ok(next)
    ensures ChildChain(start, names) == ChildChain(next, names[1..])
  {
  }

  /** Folding `make_child_nsid` over the skip-root segments of a qualified id, starting from
      the root, rebuilds the id. */
  lemma SegmentsRebuild(s: string)
    requires QualifiedForm(s) && s != Root
    ensures ChildChain(Root, ListNsidSegments(s, true)) == Ok(s)
  {
    ChildChainRebuilds(Split(s), 1);
    JoinSplit(s);
    assert Split(s)[..|Split(s)|] == Split(s);
  }

  /** The number of equal leading parts (the counter of `find_common_prefix`). */
  function CommonPrefixLen(a: seq<string>, b: seq<string>): (k: nat)
    ensures k <= |a| && k <= |b|
    ensures a[..k] == b[..k]
    ensures k < |a| && k < |b| ==> a[k] != b[k]
  {
    if |a| == 0 || |b| == 0 || a[0] != b[0] then 0
    else
      var k := 1 + CommonPrefixLen(a[1..], b[1..]);
      assert a[..k] == [a[0]] + a[1..][..k - 1];
      assert b[..k] == [b[0]] + b[1..][..k - 1];
      k
  }

  /** The length of the longest common prefix of two part lists is unique. */
  lemma CommonPrefixLenUnique(a: seq<string>, b: seq<string>, k: nat)
    requires k <= |a| && k <= |b| && a[..k] == b[..k]
    requires k < |a| && k < |b| ==> a[k] != b[k]
    ensures k == CommonPrefixLen(a, b)
  {
  }

  /** `find_common_prefix(s1, s2)`: None when no leading part is shared. */
  function CommonPrefix(s1: string, s2: string): Option<string>
  {
    var k := CommonPrefixLen(Split(s1), Split(s2));
    if k == 0 then None else Some(Join(Split(s1)[..k]))
  }

  lemma CommonPrefixNoneIff(s1: string, s2: string)
    ensures CommonPrefix(s1, s2) == None <==> Split(s1)[0] != Split(s2)[0]
  {
  }

  /** The counting loop of `find_common_prefix`. */
  method FindCommonPrefix(s1: string, s2: string) returns (r: Option<string>)
    ensures r == CommonPrefix(s1, s2)
  {
    var p1 := Split(s1);
    var p2 := Split(s2);
    var i := 0;
    while i < |p1| && i < |p2| && p1[i] == p2[i]
      invariant 0 <= i <= |p1| && i <= |p2|
      invariant p1[..i] == p2[..i]
    {
      assert p1[..i + 1] == p1[..i] + [p1[i]];
      assert p2[..i + 1] == p2[..i] + [p2[i]];
      i := i + 1;
    }
    CommonPrefixLenUnique(p1, p2, i);
    if i == 0 {
      r := None;
    } else {
      r := Some(Join(p1[..i]));
    }
  }

  /** The parts of `parts` whose index is at least `m`. */
  function From(parts: seq<string>, m: nat): seq<string>
  {
    if m <= |parts| then parts[m..] else []
  }

  /** `strip_common_prefix(s1, s2)`: what is left of each id after the parts of their
      common prefix; with no common prefix the source calls `split` on None. */
  function StripCommonPrefix(s1: string, s2: string): Result<(string, string)>
  {
    match CommonPrefix(s1, s2)
    case None => Err(AttributeErr)
    case Some(common) =>
      var n := |Split(common)|;
      Ok((Join(From(Split(s1), n)), Join(From(Split(s2), n))))
  }

  /** Each input keeps exactly its parts after the shared leading parts. */
  lemma StripCommonPrefixParts(s1: string, s2: string)
    ensures var k := CommonPrefixLen(Split(s1), Split(s2));
      StripCommonPrefix(s1, s2) ==
        if k == 0 then Err(AttributeErr) else Ok((Join(Split(s1)[k..]), Join(Split(s2)[k..])))
  {
    var k := CommonPrefixLen(Split(s1), Split(s2));
    if k > 0 {
      SplitPartsDotFree(s1);
      SplitJoin(Split(s1)[..k]);
    }
  }

  /** The list-building loops of `strip_common_prefix`. */
  method StripCommonPrefixLoops(s1: string, s2: string) returns (r: Result<(string, string)>)
    ensures r == StripCommonPrefix(s1, s2)
  {
    var common := FindCommonPrefix(s1, s2);
    if common.None? {
      return Err(AttributeErr);
    }
    var commonParts := Split(common.value);
    var stripped1 := KeepFrom(Split(s1), |commonParts|);
    var stripped2 := KeepFrom(Split(s2), |commonParts|);
    r := Ok((Join(stripped1), Join(stripped2)));
  }

  /** Appends the parts whose index exceeds `m - 1`. */
  method KeepFrom(parts: seq<string>, m: nat) returns (kept: seq<string>)
    ensures kept == From(parts, m)
  {
    kept := [];
    var n := 0;
    while n < |parts|
      invariant 0 <= n <= |parts|
      invariant kept == (if m <= n then parts[m..n] else [])
    {
      if n > m - 1 {
        assert parts[m..n + 1] == parts[m..n] + [parts[n]];
        kept := kept + [parts[n]];
      }
      n := n + 1;
    }
  }

  /** The `i`-th entry of the ancestry: the first `i + 1` parts joined, `.` when empty. */
  function AncestorAt(parts: seq<string>, i: nat): string
    requires i < |parts|
  {
    var joined := Join(parts[..i + 1]);
    if joined == "" then Root else joined
  }

  /** `get_nsid_ancestry(s)`. */
  function Ancestry(s: string): seq<string>
  {
    var parts := Split(s);
    seq(|parts|, i requires 0 <= i < |parts| => AncestorAt(parts, i))
  }

  /** The nested loops of `get_nsid_ancestry`. */
  method GetNsidAncestry(s: string) returns (ancestry: seq<string>)
    ensures ancestry == Ancestry(s)
  {
    var segments := Split(s);
    ancestry := [];
    var i := 0;
    while i < |segments|
      invariant 0 <= i <= |segments|
      invariant ancestry == Ancestry(s)[..i]
    {
      var newSegments: seq<string> := [];
      var n := 0;
      while n < i + 1
        invariant 0 <= n <= i + 1
        invariant newSegments == segments[..n]
      {
        assert segments[..n + 1] == segments[..n] + [segments[n]];
        newSegments := newSegments + [segments[n]];
        n := n + 1;
      }
      var newAncestor := Join(newSegments);
      if newAncestor == "" {
        newAncestor := Root;
      }
      assert Ancestry(s)[..i + 1] == Ancestry(s)[..i] + [AncestorAt(segments, i)];
      ancestry := ancestry + [newAncestor];
      i := i + 1;
    }
  }

  /** One entry per part; the last entry is the id itself (unless it is empty). */
  lemma AncestryEndsAtId(s: string)
    ensures |Ancestry(s)| == |Split(s)|
    ensures s != "" ==> Ancestry(s)[|Ancestry(s)| - 1] == s
  {
    JoinSplit(s);
    assert Split(s)[..|Split(s)|] == Split(s);
  }

  /** For a qualified id the ancestry starts at the root and each entry is the child of the
      previous one under the next part. */
  lemma AncestryOfQualified(s: string)
    requires QualifiedForm(s)
    ensures |Ancestry(s)| >= 2 && Ancestry(s)[0] == Root
    ensures forall i | 0 <= i < |Ancestry(s)| - 1 ::
      MakeChildNsid(Ancestry(s)[i], Split(s)[i + 1]) == Ok(Ancestry(s)[i + 1])
  {
    var parts := Split(s);
    if s == Root {
      SplitJoin(["", ""]);
      assert parts == ["", ""];
      SplitNoDot("");
      assert Split("") == [""];
      assert IsValidNsidStr("", true, false) == Ok(true);
      assert Root + "" == Root;
      assert MakeChildNsid(Root, "") == Ok(Root);
      assert Ancestry(s) == [Root, Root] by {
        assert parts[..1] == [""];
        assert parts[..2] == ["", ""];
        JoinTwo("", "");
      }
      return;
    }
    assert QualifiedParts(parts);
    forall i | 0 <= i < |parts| - 1
      ensures MakeChildNsid(Ancestry(s)[i], parts[i + 1]) == Ok(Ancestry(s)[i + 1])
    {
      AncestorIsPrefixId(parts, i);
      AncestorIsPrefixId(parts, i + 1);
      PrefixIdStep(parts, i + 1);
    }
  }

  lemma AncestorIsPrefixId(parts: seq<string>, i: nat)
    requires QualifiedParts(parts) && i < |parts|
    ensures AncestorAt(parts, i) == PrefixId(parts, i + 1)
  {
    assert parts[..1] == [""];
    if i > 0 {
      JoinEmptyOnly(parts[..i + 1]);
    }
  }

  /** The root splits into two empty parts. */
  lemma RootParts()
    ensures Split(Root) == ["", ""]
  {
    JoinTwo("", "");
    SplitJoin(["", ""]);
  }

  /** The prefixes of a qualified id are pairwise distinct from the id itself. */
  lemma PrefixIdDistinct(parts: seq<string>, k: nat)
    requires QualifiedParts(parts) && 1 <= k < |parts|
    ensures PrefixId(parts, k) != PrefixId(parts, |parts|)
  {
    PrefixIdQualified(parts, |parts|);
    assert parts[..|parts|] == parts;
    if k >= 2 {
      PrefixIdQualified(parts, k);
    } else {
      RootParts();
      assert parts[1] != "";
    }
  }

  /** The whole of a qualified part list is its last prefix. */
  lemma PrefixIdWhole(parts: seq<string>)
    requires QualifiedParts(parts)
    ensures PrefixId(parts, |parts|) == Join(parts)
    ensures Split(Join(parts)) == parts
  {
    assert parts[..|parts|] == parts;
    PartsDotFree(parts);
    SplitJoin(parts);
  }

  lemma PartsDotFree(parts: seq<string>)
    requires QualifiedParts(parts)
    ensures DotFree(parts)
  {
    forall i | 0 <= i < |parts|
      ensures NoDot(parts[i])
    {
      if i > 0 {
        IdentifierHasNoDotOrSpace(parts[i]);
      }
    }
  }

  /** Stripping the common prefix of a qualified id and one of its proper prefixes leaves the
      remaining parts of the id. */
  lemma StripPrefixId(parts: seq<string>, k: nat)
    requires QualifiedParts(parts) && 1 <= k < |parts|
    ensures StripCommonPrefix(PrefixId(parts, k), Join(parts)).Ok?
    ensures StripCommonPrefix(PrefixId(parts, k), Join(parts)).value.1 == Join(parts[k..])
  {
    PrefixIdWhole(parts);
    var p := PrefixId(parts, k);
    StripCommonPrefixParts(p, Join(parts));
    if k >= 2 {
      PrefixIdQualified(parts, k);
      CommonPrefixLenUnique(Split(p), parts, k);
    } else {
      RootParts();
      assert parts[..1] == [""];
      CommonPrefixLenUnique(Split(p), parts, 1);
    }
  }

  /** The segments of the tail of a qualified id are its remaining parts. */
  lemma TailSegments(parts: seq<string>, k: nat)
    requires QualifiedParts(parts) && 1 <= k < |parts|
    ensures ListNsidSegments(Join(parts[k..]), false) == parts[k..]
  {
    PartsDotFree(parts);
    var tail := parts[k..];
    assert DotFree(tail) by {
      forall i | 0 <= i < |tail|
        ensures NoDot(tail[i])
      {
        assert tail[i] == parts[k + i];
      }
    }
    SplitJoin(tail);
    assert tail[0] == parts[k] != "";
    if Join(tail) == Root {
      RootParts();
    }
  }

  /** The root is its own single segment; any other qualified id has the root `.` in place of
      its leading empty part, or drops it when the root is skipped. */
  lemma QualifiedSegments(parts: seq<string>)
    requires QualifiedParts(parts)
    ensures ListNsidSegments(Root, false) == [Root] && ListNsidSegments(Root, true) == [Root]
    ensures ListNsidSegments(Join(parts), false) == [Root] + parts[1..]
    ensures ListNsidSegments(Join(parts), true) == parts[1..]
  {
    PrefixIdWhole(parts);
    if Join(parts) == Root {
      RootParts();
    }
  }
}
