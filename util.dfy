/** The reference helpers of thewired/util.py: a reference is a string starting with
    `nsid://`, and the id it names is what follows the prefix. */
module Util {
  import opened Errors
  import opened Text
  import opened PyValues
  import Nsids

  const NsidRefPrefix: string := "nsid://"

  /** `is_nsid_ref(v)`. */
  predicate IsNsidRef(v: Value)
  {
    v.StrV? && |v.s| >= |NsidRefPrefix| && v.s[..|NsidRefPrefix|] == NsidRefPrefix
  }

  /** `get_nsid_from_ref(s)`: the pieces after the first occurrence of the prefix, glued
      together without it. */
  function GetNsidFromRef(s: string): string
  {
    JoinWith(SplitOn(s, NsidRefPrefix)[1..], "")
  }

  /** The prefix this module accepts is the one nsid.py calls the link prefix; the
      `nsid-ref://` form is not a reference here. */
  lemma RefPrefixIsLinkPrefix(rest: string)
    ensures NsidRefPrefix == Nsids.LinkPrefix
    ensures !IsNsidRef(StrV(Nsids.RefPrefix + rest))
  {
    var s := Nsids.RefPrefix + rest;
    assert s[4] == '-';
  }

  /** Without an occurrence of `sep`, a split yields the string itself. */
  lemma {:induction false} SplitOnAbsent(s: string, sep: string)
    requires |sep| > 0 && !Contains(s, sep)
    ensures SplitOn(s, sep) == [s]
    decreases |s|
  {
    if |s| >= |sep| {
      assert !OccursAt(s, sep, 0);
      assert !Contains(s[1..], sep) by {
        if Contains(s[1..], sep) {
          var i :| 0 <= i <= |s[1..]| - |sep| && OccursAt(s[1..], sep, i);
          assert s[i + 1..i + 1 + |sep|] == s[1..][i..i + |sep|];
          assert OccursAt(s, sep, i + 1);
        }
      }
      SplitOnAbsent(s[1..], sep);
      assert s == [s[0]] + s[1..];
    }
  }

  /** A string without the prefix names the empty id. */
  lemma NoPrefixGivesEmpty(s: string)
    requires !Contains(s, NsidRefPrefix)
    ensures GetNsidFromRef(s) == ""
  {
    SplitOnAbsent(s, NsidRefPrefix);
  }

  /** Prefixing an id free of the prefix and taking it back out is the identity. */
  lemma RefRoundTrip(s: string)
    requires !Contains(s, NsidRefPrefix)
    ensures IsNsidRef(StrV(NsidRefPrefix + s))
    ensures GetNsidFromRef(NsidRefPrefix + s) == s
  {
    var r := NsidRefPrefix + s;
    assert r[..|NsidRefPrefix|] == NsidRefPrefix;
    assert r[|NsidRefPrefix|..] == s;
    SplitOnAbsent(s, NsidRefPrefix);
    assert SplitOn(r, NsidRefPrefix) == [""] + [s];
  }

  /** `is_valid_nsid_link` of a reference judges the id after the prefix as a fully-qualified
      id; with symbolic references allowed, a link to a qualified id is itself a valid id. */
  lemma LinkValidity(q: string)
    requires !Contains(q, NsidRefPrefix)
    ensures var v := Nsids.IsValidNsidStr(q, false, true);
      Nsids.IsValidNsidLink(NsidRefPrefix + q) == if v.Err? then Err(v.error) else Ok(Some(v.value))
    ensures Nsids.QualifiedForm(q) ==> Nsids.IsValidNsidStr(NsidRefPrefix + q, true, false) == Ok(true)
  {
    var r := NsidRefPrefix + q;
    assert r[..|NsidRefPrefix|] == NsidRefPrefix;
    assert r[|NsidRefPrefix|..] == q;
    SplitOnAbsent(q, NsidRefPrefix);
    assert SplitOn(r, NsidRefPrefix) == [""] + [q];
    if Nsids.QualifiedForm(q) {
      Nsids.QualifiedIsValid(q, false, true);
      Nsids.QualifiedHasNoSpace(q);
      assert ' ' !in NsidRefPrefix;
      assert r != Nsids.Root;
    }
  }

  /** The reference built from `pieces`, each preceded by the prefix. */
  function Prefixed(pieces: seq<string>): string
  {
    if pieces == [] then "" else NsidRefPrefix + pieces[0] + Prefixed(pieces[1..])
  }

  /** Splitting a reference made of prefix-free pieces gives back the pieces, after the empty
      text in front of the first prefix. */
  lemma {:induction false} SplitPrefixed(pieces: seq<string>)
    requires |pieces| >= 1
    requires forall i | 0 <= i < |pieces| :: !Contains(pieces[i], NsidRefPrefix)
    ensures SplitOn(Prefixed(pieces), NsidRefPrefix) == [""] + pieces
    decreases |pieces|
  {
    var p, rest := pieces[0], pieces[1..];
    var t := p + Prefixed(rest);
    assert Prefixed(pieces) == NsidRefPrefix + t;
    assert (NsidRefPrefix + t)[..|NsidRefPrefix|] == NsidRefPrefix;
    assert (NsidRefPrefix + t)[|NsidRefPrefix|..] == t;
    if rest == [] {
      assert t == p;
      SplitOnAbsent(p, NsidRefPrefix);
    } else {
      assert forall i | 0 <= i < |rest| :: rest[i] == pieces[i + 1];
      SplitPrefixed(rest);
      var u := Prefixed(rest);
      assert u == NsidRefPrefix + rest[0] + Prefixed(rest[1..]);
      assert u[..|NsidRefPrefix|] == NsidRefPrefix;
      SplitOnPrefixFree(p, u);
      assert p + "" == p;
      assert ([""] + rest)[1..] == rest;
      assert pieces == [p] + rest;
    }
  }

  /** Every occurrence of the prefix, not only the first, is deleted: the pieces between
      them are glued together. */
  lemma RepeatedPrefixDeleted(pieces: seq<string>)
    requires |pieces| >= 1
    requires forall i | 0 <= i < |pieces| :: !Contains(pieces[i], NsidRefPrefix)
    ensures GetNsidFromRef(Prefixed(pieces)) == JoinWith(pieces, "")
  {
    SplitPrefixed(pieces);
    assert ([""] + pieces)[1..] == pieces;
  }

  /** With two pieces: `nsid://a` followed by `nsid://b` names `a + b`. */
  lemma TwoPrefixesDeleted(a: string, b: string)
    requires !Contains(a, NsidRefPrefix) && !Contains(b, NsidRefPrefix)
    ensures GetNsidFromRef(NsidRefPrefix + a + NsidRefPrefix + b) == a + b
  {
    var pieces := [a, b];
    assert Prefixed(pieces[1..][1..]) == "";
    assert Prefixed(pieces[1..]) == NsidRefPrefix + b + "";
    assert Prefixed(pieces) == NsidRefPrefix + a + NsidRefPrefix + b;
    RepeatedPrefixDeleted(pieces);
    assert pieces[1..] == [b];
    assert JoinWith(pieces, "") == a + "" + b;
  }

  /** Splitting `a + t`, where `a` holds no occurrence of the prefix and `t` starts with it,
      puts `a` in front of the first piece of `t`. */
  lemma {:induction false} SplitOnPrefixFree(a: string, t: string)
    requires !Contains(a, NsidRefPrefix)
    requires |t| >= |NsidRefPrefix| && t[..|NsidRefPrefix|] == NsidRefPrefix
    ensures SplitOn(a + t, NsidRefPrefix) ==
      [a + SplitOn(t, NsidRefPrefix)[0]] + SplitOn(t, NsidRefPrefix)[1..]
    decreases |a|
  {
    var sep := NsidRefPrefix;
    if |a| == 0 {
      var pieces := SplitOn(t, sep);
      assert a + t == t && a + pieces[0] == pieces[0];
      assert [pieces[0]] + pieces[1..] == pieces;
    } else {
      var s := a + t;
      PrefixFreeNotAtStart(a, t);
      PrefixFreeTail(a);
      SplitOnPrefixFree(a[1..], t);
      assert s[1..] == a[1..] + t;
      SplitOnCharHead(s, sep);
      var pieces := SplitOn(t, sep);
      var rest := SplitOn(s[1..], sep);
      assert rest == [a[1..] + pieces[0]] + pieces[1..];
      assert rest[0] == a[1..] + pieces[0] && rest[1..] == pieces[1..];
      assert [s[0]] + rest[0] == a + pieces[0] by {
        assert s[0] == a[0];
        assert a == [a[0]] + a[1..];
      }
      assert SplitOn(s, sep) == [[s[0]] + rest[0]] + rest[1..];
    }
  }

  /** `a + t` does not start with the prefix when `a` is non-empty and holds no occurrence
      of it, and `t` starts with it. */
  lemma PrefixFreeNotAtStart(a: string, t: string)
    requires |a| > 0 && !Contains(a, NsidRefPrefix)
    requires |t| >= |NsidRefPrefix| && t[..|NsidRefPrefix|] == NsidRefPrefix
    ensures (a + t)[..|NsidRefPrefix|] != NsidRefPrefix
  {
    var sep, s := NsidRefPrefix, a + t;
    if |a| >= |sep| {
      assert s[..|sep|] == a[..|sep|];
      assert !OccursAt(a, sep, 0);
    } else {
      var k := |a|;
      assert s[k] == t[0] == 'n';
      assert sep[k] != 'n';
      assert s[..|sep|][k] != sep[k];
    }
  }

  /** Dropping the first character keeps a string free of the prefix. */
  lemma PrefixFreeTail(a: string)
    requires |a| > 0 && !Contains(a, NsidRefPrefix)
    ensures !Contains(a[1..], NsidRefPrefix)
  {
    var sep := NsidRefPrefix;
    if Contains(a[1..], sep) {
      var i :| 0 <= i <= |a[1..]| - |sep| && OccursAt(a[1..], sep, i);
      assert a[i + 1..i + 1 + |sep|] == a[1..][i..i + |sep|];
      assert OccursAt(a, sep, i + 1);
    }
  }
}
