/** C strings: the characters before the terminator, read through an index. */
module CStrings {

  datatype Option<+T> = None | Some(value: T)

  /** `*(s + p)` for an index that does not pass the terminator. */
  function CharAt(s: string, p: nat): char {
    if p < |s| then s[p] else '\0'
  }

  /** A NUL-terminated string holds no NUL before its end. */
  type CString = s: string | '\0' !in s witness ""

  const VT: char := 11 as char
  const FF: char := 12 as char

  predicate IsWhite(c: char) {
    c == ' ' || c == '\t' || c == '\n' || c == '\r' || c == VT || c == FF
  }

  function ToLower(c: char): char {
    if 'A' <= c <= 'Z' then (c as int + 32) as char else c
  }

  /** `t` starts with `prefix`, letter case aside. */
  predicate Starts(prefix: string, t: string) {
    |prefix| <= |t| && forall k :: 0 <= k < |prefix| ==> ToLower(prefix[k]) == ToLower(t[k])
  }

  /** What is seen of a string object through `c_str()`. */
  function Shown(s: string): (r: CString) {
    if s == "" || s[0] == '\0' then "" else [s[0]] + Shown(s[1..])
  }

  lemma {:induction false} ShownWhole(s: string)
    ensures Shown(s) == s <==> '\0' !in s
  {
    if s != "" && s[0] != '\0' { ShownWhole(s[1..]); }
  }

  lemma Assoc(a: string, b: string, c: string)
    ensures (a + b) + c == a + (b + c)
  {}

  /** `t` occurs in `s` at index `p`. */
  predicate Has(s: string, p: nat, t: string) {
    p + |t| <= |s| && s[p..p + |t|] == t
  }

  lemma HasSplit(s: string, p: nat, a: string, b: string)
    ensures Has(s, p, a + b) <==> Has(s, p, a) && Has(s, p + |a|, b)
  {
    if p + |a| + |b| <= |s| {
      var w := s[p..p + |a + b|];
      assert w[..|a|] == s[p..p + |a|];
      assert w[|a|..] == s[p + |a|..p + |a| + |b|];
      if Has(s, p, a) && Has(s, p + |a|, b) {
        assert w == a + b;
      }
      if Has(s, p, a + b) {
        assert (a + b)[..|a|] == a && (a + b)[|a|..] == b;
      }
    }
  }

  lemma HasBetween(pre: string, a: string, b: string, post: string)
    ensures Has(pre + a + b + post, |pre|, a) && Has(pre + a + b + post, |pre| + |a|, b)
  {
    var s := pre + a + b + post;
    assert s[|pre|..|pre| + |a|] == a;
    assert s[|pre| + |a|..|pre| + |a| + |b|] == b;
  }

  lemma HasChar(s: string, p: nat, t: string, i: nat)
    requires Has(s, p, t) && i < |t|
    ensures s[p + i] == t[i]
  {
    assert s[p..p + |t|][i] == t[i];
  }

  /** Pieces that differ somewhere are not at the same place. */
  lemma HasOther(s: string, p: nat, a: string, b: string, i: nat)
    requires Has(s, p, a) && i < |a| && i < |b| && a[i] != b[i]
    ensures !Has(s, p, b)
  {
    HasChar(s, p, a, i);
    if Has(s, p, b) {
      HasChar(s, p, b, i);
    }
  }

  /** StringEqual: the characters are compared one by one, letter case aside if
      asked, and the comparison stops at a terminator; at the end of the text the
      answer is no. */
  method StartsWith(s: CString, p: nat, t: CString, ignoreCase: bool) returns (r: bool)
    requires p <= |s|
    ensures r == (p < |s| && if ignoreCase then Starts(t, s[p..]) else Has(s, p, t))
  {
    if p == |s| { return false; }
    var i := 0;
    if ignoreCase {
      while i < |t| && p + i < |s| && ToLower(s[p + i]) == ToLower(t[i])
        invariant 0 <= i <= |t| && p + i <= |s|
        invariant forall k :: 0 <= k < i ==> ToLower(s[p..][k]) == ToLower(t[k])
      {
        i := i + 1;
      }
      assert i < |t| && p + i < |s| ==> s[p..][i] == s[p + i];
    } else {
      while i < |t| && CharAt(s, p + i) == t[i]
        invariant 0 <= i <= |t| && Has(s, p, t[..i])
      {
        assert t[..i + 1] == t[..i] + [t[i]];
        HasSplit(s, p, t[..i], [t[i]]);
        i := i + 1;
      }
      if i == |t| {
        assert t[..i] == t;
      } else if Has(s, p, t) {
        HasChar(s, p, t, i);
      }
    }
    r := i == |t|;
  }
}
