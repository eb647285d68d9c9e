/** Python's `str.split(sep)`, `sep.join(parts)` and `str.isidentifier()` on `seq<char>`,
    with the round-trip facts the identifier algebra relies on. */
module Text {

  /** `s.split(sep)`: the pieces between non-overlapping occurrences of `sep`, scanned
      left to right; a string without `sep` is one piece. */
  function SplitOn(s: string, sep: string): (parts: seq<string>)
    requires |sep| > 0
    ensures |parts| >= 1
    decreases |s|
  {
    if |s| < |sep| then [s]
    else if s[..|sep|] == sep then [""] + SplitOn(s[|sep|..], sep)
    else
      var rest := SplitOn(s[1..], sep);
      [[s[0]] + rest[0]] + rest[1..]
  }

  /** `sep.join(parts)`. */
  function JoinWith(parts: seq<string>, sep: string): string
  {
    if |parts| == 0 then ""
    else if |parts| == 1 then parts[0]
    else parts[0] + sep + JoinWith(parts[1..], sep)
  }

  /** `s.split('.')`. */
  function Split(s: string): seq<string>
  {
    SplitOn(s, ".")
  }

  /** `'.'.join(parts)`. */
  function Join(parts: seq<string>): string
  {
    JoinWith(parts, ".")
  }

  /** `sub` occurs in `s`. */
  predicate Contains(s: string, sub: string)
  {
    exists i | 0 <= i <= |s| - |sub| :: OccursAt(s, sub, i)
  }

  predicate OccursAt(s: string, sub: string, i: nat)
  {
    i + |sub| <= |s| && s[i..i + |sub|] == sub
  }

  predicate NoDot(p: string)
  {
    forall i | 0 <= i < |p| :: p[i] != '.'
  }

  predicate DotFree(parts: seq<string>)
  {
    forall i | 0 <= i < |parts| :: NoDot(parts[i])
  }

  predicate IsLetter(c: char)
  {
    ('a' <= c <= 'z') || ('A' <= c <= 'Z')
  }

  predicate IsDigit(c: char)
  {
    '0' <= c <= '9'
  }

  /** `str.isidentifier()` restricted to ASCII: `[A-Za-z_][A-Za-z0-9_]*`. */
  predicate IsIdentifier(p: string)
  {
    |p| > 0 && (IsLetter(p[0]) || p[0] == '_') &&
    forall i | 1 <= i < |p| :: IsLetter(p[i]) || IsDigit(p[i]) || p[i] == '_'
  }

  lemma IdentifierHasNoDotOrSpace(p: string)
    requires IsIdentifier(p)
    ensures NoDot(p) && ' ' !in p
  {
    forall i | 0 <= i < |p|
      ensures p[i] != '.' && p[i] != ' '
    {
      if i > 0 {
        assert IsLetter(p[i]) || IsDigit(p[i]) || p[i] == '_';
      }
    }
  }

  /** Joining the pieces of a split gives back the string. */
  lemma {:induction false} JoinSplitOn(s: string, sep: string)
    requires |sep| > 0
    ensures JoinWith(SplitOn(s, sep), sep) == s
    decreases |s|
  {
    if |s| < |sep| {
    } else if s[..|sep|] == sep {
      var tail := s[|sep|..];
      JoinSplitOn(tail, sep);
      SplitOnSepHead(s, sep);
      JoinWithEmptyHead(SplitOn(tail, sep), sep);
      assert s == s[..|sep|] + tail;
    } else {
      var tail := s[1..];
      JoinSplitOn(tail, sep);
      SplitOnCharHead(s, sep);
      JoinWithCharHead(s[0], SplitOn(tail, sep), sep);
      assert s == [s[0]] + tail;
    }
  }

  /** A string that starts with `sep` splits into an empty piece and the pieces of the rest. */
  lemma SplitOnSepHead(s: string, sep: string)
    requires 0 < |sep| <= |s| && s[..|sep|] == sep
    ensures SplitOn(s, sep) == [""] + SplitOn(s[|sep|..], sep)
  {
  }

  /** Joining an empty piece in front of non-empty `rest` puts `sep` in front of the join. */
  lemma JoinWithEmptyHead(rest: seq<string>, sep: string)
    requires |rest| >= 1
    ensures JoinWith([""] + rest, sep) == sep + JoinWith(rest, sep)
  {
    assert ([""] + rest)[1..] == rest;
  }

  /** A string that does not start with `sep` puts its first character in front of the
      first piece of the rest. */
  lemma SplitOnCharHead(s: string, sep: string)
    requires 0 < |sep| <= |s| && s[..|sep|] != sep
    ensures var rest := SplitOn(s[1..], sep);
      SplitOn(s, sep) == [[s[0]] + rest[0]] + rest[1..]
  {
  }

  /** Putting a character in front of the first piece puts it in front of the join. */
  lemma JoinWithCharHead(c: char, rest: seq<string>, sep: string)
    requires |rest| >= 1
    ensures JoinWith([[c] + rest[0]] + rest[1..], sep) == [c] + JoinWith(rest, sep)
  {
    var parts := [[c] + rest[0]] + rest[1..];
    if |rest| > 1 {
      assert parts[1..] == rest[1..];
    }
  }

  /** Unfolding `Split` one character at a time. */
  lemma SplitCons(s: string)
    requires |s| > 0
    ensures s[0] == '.' ==> Split(s) == [""] + Split(s[1..])
    ensures s[0] != '.' ==> Split(s) == [[s[0]] + Split(s[1..])[0]] + Split(s[1..])[1..]
  {
    assert s[..1] == [s[0]];
  }

  lemma {:induction false} SplitPartsDotFree(s: string)
    ensures DotFree(Split(s))
    decreases |s|
  {
    if |s| > 0 {
      SplitCons(s);
      SplitPartsDotFree(s[1..]);
    }
  }

  /** A string without a dot is one piece. */
  lemma {:induction false} SplitNoDot(p: string)
    requires NoDot(p)
    ensures Split(p) == [p]
    decreases |p|
  {
    if |p| > 0 {
      SplitCons(p);
      SplitNoDot(p[1..]);
      assert p == [p[0]] + p[1..];
    }
  }

  lemma {:induction false} SplitDotFreeHead(a: string, b: string)
    requires NoDot(a)
    ensures Split(a + "." + b) == [a] + Split(b)
    decreases |a|
  {
    if |a| == 0 {
      assert a + "." + b == "." + b;
      SplitCons("." + b);
      assert ("." + b)[1..] == b;
    } else {
      var s := a + "." + b;
      SplitCons(s);
      assert s[1..] == a[1..] + "." + b;
      SplitDotFreeHead(a[1..], b);
      assert [a[0]] + a[1..] == a;
    }
  }

  /** Splitting a join of dot-free parts gives back the parts. */
  lemma {:induction false} SplitJoin(parts: seq<string>)
    requires |parts| >= 1 && DotFree(parts)
    ensures Split(Join(parts)) == parts
    decreases |parts|
  {
    assert NoDot(parts[0]);
    if |parts| == 1 {
      SplitNoDot(parts[0]);
    } else {
      SplitDotFreeHead(parts[0], Join(parts[1..]));
      SplitJoin(parts[1..]);
      assert parts == [parts[0]] + parts[1..];
    }
  }

  lemma JoinSplit(s: string)
    ensures Join(Split(s)) == s
  {
    JoinSplitOn(s, ".");
  }

  lemma JoinAppend(parts: seq<string>, p: string)
    requires |parts| >= 1
    ensures Join(parts + [p]) == Join(parts) + "." + p
    decreases |parts|
  {
    if |parts| == 1 {
      assert Join(parts + [p]) == parts[0] + "." + Join([p]);
    } else {
      assert (parts + [p])[1..] == parts[1..] + [p];
      JoinAppend(parts[1..], p);
    }
  }

  lemma JoinTwo(a: string, b: string)
    ensures Join([a, b]) == a + "." + b
  {
    assert [a, b][1..] == [b];
    assert JoinWith([b], ".") == b;
  }

  lemma JoinEmptyOnly(parts: seq<string>)
    requires |parts| >= 1
    ensures Join(parts) == "" <==> (|parts| == 1 && parts[0] == "")
  {
    if |parts| > 1 {
      assert |Join(parts)| >= 1;
    }
  }

  /** The decimal digits of a natural number, as `str()` prints them. */
  function NatToDecimal(n: nat): (r: string)
    ensures |r| >= 1
    decreases n
  {
    if n < 10 then [(n as char) + '0']
    else NatToDecimal(n / 10) + [((n % 10) as char) + '0']
  }

  /** `str(i)` for a Python int. */
  function IntToDecimal(i: int): string
  {
    if i < 0 then "-" + NatToDecimal(-i) else NatToDecimal(i)
  }
}
