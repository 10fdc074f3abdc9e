/** Expanding "${name}" in a template: segments, the words of a variable, where
    their values come from, and the escaping of those. */
module VariableExpansion {
  import opened CStrings

  // ---------- escaping ----------

  const DEFAULT_ESCAPES: string := "`|$<>&()#"

  /** Every special character behind a backslash. */
  function Escaped(v: string, special: string): string {
    if v == "" then ""
    else (if v[0] in special then "\\" + [v[0]] else [v[0]]) + Escaped(v[1..], special)
  }

  /** Reading from left to right, a backslash in front of a special character
      stands for that character. */
  function Unescaped(s: string, special: string): string
    decreases |s|
  {
    if s == "" then ""
    else if s[0] == '\\' && |s| > 1 && s[1] in special then [s[1]] + Unescaped(s[2..], special)
    else [s[0]] + Unescaped(s[1..], special)
  }

  /** What stands in front of an escaped text does not run into it, unless it is
      a backslash that is not special itself, in front of a special character:
      and that cannot be, for this character has a backslash of its own. */
  lemma {:induction false} UnescapeEscaped(v: string, special: string)
    ensures Unescaped(Escaped(v, special), special) == v
  {
    if v != "" {
      var rest := Escaped(v[1..], special);
      UnescapeEscaped(v[1..], special);
      assert v == [v[0]] + v[1..];
      if v[0] in special {
        assert Escaped(v, special) == ['\\', v[0]] + rest;
        assert Escaped(v, special)[2..] == rest;
      } else {
        assert Escaped(v, special) == [v[0]] + rest;
        assert Escaped(v, special)[1..] == rest;
        if rest != "" && rest[0] in special {
          assert v[1] in special && rest[0] == '\\';
        }
      }
    }
  }

  /** strcspn */
  method Span(v: CString, p: nat, special: string) returns (n: nat)
    requires p <= |v|
    ensures p + n <= |v| && (p + n < |v| ==> v[p + n] in special)
    ensures forall k :: p <= k < p + n ==> v[k] !in special
  {
    n := 0;
    while p + n < |v| && v[p + n] !in special
      invariant p + n <= |v| && forall k :: p <= k < p + n ==> v[k] !in special
    {
      n := n + 1;
    }
  }

  /** The loop of escape_special_chars; an empty text gives null, as null does. */
  method EscapeSpecialChars(text: Option<CString>, special: string) returns (result: Option<string>)
    ensures result == if text.None? || text.value == "" then None else Some(Escaped(text.value, special))
  {
    hide Escaped;
    result := None;
    if text.None? { return; }
    var v := text.value;
    EscapedNone(special);
    var p, out := 0, "";
    assert v[0..] == v;
    while p < |v|
      invariant 0 <= p <= |v| && out + Escaped(v[p..], special) == Escaped(v, special)
      invariant (result.None? <==> p == 0) && (p > 0 ==> result == Some(out))
    {
      var n := Span(v, p, special);
      PlainRun(v, p, n, special);
      Assoc(out, v[p..p + n], Escaped(v[p + n..], special));
      out := out + v[p..p + n];
      p := p + n;
      if p < |v| {
        EscapedNext(v, p, special);
        Assoc(out, "\\" + [v[p]], Escaped(v[p + 1..], special));
        out := out + ("\\" + [v[p]]);
        p := p + 1;
      }
      result := Some(out);
    }
    assert v[p..] == "" && out + "" == out;
  }

  lemma EscapedNone(special: string)
    ensures Escaped("", special) == ""
  {}

  lemma EscapedNext(v: string, p: nat, special: string)
    requires p < |v| && v[p] in special
    ensures Escaped(v[p..], special) == "\\" + [v[p]] + Escaped(v[p + 1..], special)
  {
    assert v[p..][0] == v[p] && v[p..][1..] == v[p + 1..];
  }

  lemma {:induction false} PlainRun(v: string, p: nat, n: nat, special: string)
    requires p + n <= |v| && forall k :: p <= k < p + n ==> v[k] !in special
    ensures Escaped(v[p..], special) == v[p..p + n] + Escaped(v[p + n..], special)
    decreases n
  {
    if n > 0 {
      PlainRun(v, p + 1, n - 1, special);
      assert v[p..][0] == v[p] && v[p..][1..] == v[p + 1..];
      assert v[p..p + n] == [v[p]] + v[p + 1..p + n];
    }
  }

  // ---------- values ----------

  /** Where a name is looked up: the arguments of the command, in which it may be
      without a value; the variables of the view, searched by a regular
      expression; and the environment. */
  datatype Context = Context(args: map<string, Option<CString>>, view: string -> Option<CString>,
                             env: string -> Option<CString>, special: Option<string>)

  function Value(c: Context, name: string): Option<CString> {
    if name in c.args && c.args[name].Some? then c.args[name]
    else if c.view(name).Some? then c.view(name)
    else c.env(name)
  }

  function Special(c: Context): string {
    if c.special.Some? then c.special.value else DEFAULT_ESCAPES
  }

  /** A value that is empty counts as none. */
  function Found(c: Context, name: string): Option<string> {
    var v := Value(c, name);
    if v.None? || v.value == "" then None else Some(Escaped(v.value, Special(c)))
  }

  /** context_retrieve */
  method Retrieve(c: Context, name: string) returns (result: Option<string>)
    ensures result == Found(c, name)
  {
    var tmp := None;
    if name in c.args { tmp := c.args[name]; }
    if tmp.None? { tmp := c.view(name); }
    if tmp.None? { tmp := c.env(name); }
    result := EscapeSpecialChars(tmp, Special(c));
  }

  // ---------- one variable ----------

  /** The words between colons, as strtok gives them. */
  function Tokens(text: string): seq<string>
    decreases |text|
  {
    if text == "" then []
    else if text[0] == ':' then Tokens(text[1..])
    else
      var n := TokenEnd(text, 0);
      [text[..n]] + Tokens(text[n..])
  }

  function TokenEnd(text: string, p: nat): (n: nat)
    requires p <= |text|
    ensures p <= n <= |text| && (n < |text| ==> text[n] == ':') && forall k :: p <= k < n ==> text[k] != ':'
    decreases |text| - p
  {
    if p == |text| || text[p] == ':' then p else TokenEnd(text, p + 1)
  }

  function Texts(tokens: seq<string>, c: Context): string {
    if tokens == [] then ""
    else (if Found(c, tokens[0]).Some? then Found(c, tokens[0]).value else tokens[0]) + Texts(tokens[1..], c)
  }

  predicate AnyFound(tokens: seq<string>, c: Context) {
    exists i :: 0 <= i < |tokens| && Found(c, tokens[i]).Some?
  }

  lemma AnyMore(tokens: seq<string>, token: string, c: Context)
    ensures AnyFound(tokens + [token], c) <==> AnyFound(tokens, c) || Found(c, token).Some?
  {
    hide Found;
    var all := tokens + [token];
    if AnyFound(tokens, c) {
      var i :| 0 <= i < |tokens| && Found(c, tokens[i]).Some?;
      assert all[i] == tokens[i];
    }
    assert all[|tokens|] == token;
  }

  /** The values of the words, and the words that have none as they are; nothing
      at all when none has a value. */
  function Expansion(text: string, c: Context): string {
    var tokens := Tokens(text);
    if AnyFound(tokens, c) then Texts(tokens, c) else ""
  }

  /** The strtok loop. */
  method ExpandVariable(text: string, c: Context) returns (result: string)
    ensures result == Expansion(text, c)
  {
    hide Found, AnyFound, Tokens, Texts;
    var q, valid := text, false;
    result := "";
    ghost var done: seq<string> := [];
    TokensNone(c);
    assert [] + Tokens(q) == Tokens(q) && "" + Texts(Tokens(q), c) == Texts(Tokens(q), c);
    while q != ""
      invariant Tokens(text) == done + Tokens(q)
      invariant valid <==> AnyFound(done, c)
      invariant result + Texts(Tokens(q), c) == Texts(Tokens(text), c)
      decreases |q|
    {
      TokensNext(q, c);
      if q[0] == ':' {
        q := q[1..];
      } else {
        var n := TokenEnd(q, 0);
        var value := Retrieve(c, q[..n]);
        AnyMore(done, q[..n], c);
        assert done + ([q[..n]] + Tokens(q[n..])) == (done + [q[..n]]) + Tokens(q[n..]);
        Assoc(result, if value.Some? then value.value else q[..n], Texts(Tokens(q[n..]), c));
        result := result + if value.Some? then value.value else q[..n];
        if value.Some? { valid := true; }
        done := done + [q[..n]];
        q := q[n..];
      }
    }
    assert done + [] == done && result + "" == result;
    if !valid { result := ""; }
  }

  lemma TokensNone(c: Context)
    ensures Tokens("") == [] && Texts([], c) == "" && !AnyFound([], c)
  {}

  lemma TokensNext(q: string, c: Context)
    requires q != ""
    ensures q[0] == ':' ==> Tokens(q) == Tokens(q[1..])
    ensures q[0] != ':' ==>
      var n, v := TokenEnd(q, 0), Found(c, q[..TokenEnd(q, 0)]);
      && n > 0 && Tokens(q) == [q[..n]] + Tokens(q[n..])
      && Texts(Tokens(q), c) == (if v.Some? then v.value else q[..n]) + Texts(Tokens(q[n..]), c)
  {
    hide Found;
    if q[0] != ':' {
      var n := TokenEnd(q, 0);
      assert Tokens(q)[1..] == Tokens(q[n..]);
    }
  }

  // ---------- segments ----------

  predicate OpensAt(s: string, p: nat) {
    p + 2 <= |s| && s[p] == '$' && s[p + 1] == '{'
  }

  /** Where the plain text from `p` ends. */
  function PlainEnd(s: string, p: nat): (q: nat)
    requires p <= |s|
    ensures p <= q <= |s| && (q < |s| ==> OpensAt(s, q)) && forall k :: p <= k < q ==> !OpensAt(s, k)
    decreases |s| - p
  {
    if p == |s| || OpensAt(s, p) then p else PlainEnd(s, p + 1)
  }

  /** Where the '}' behind `p` stands, or the end. */
  function CloseAt(s: string, p: nat): (q: nat)
    requires p <= |s|
    ensures p <= q <= |s| && (q < |s| ==> s[q] == '}') && forall k :: p <= k < q ==> s[k] != '}'
    decreases |s| - p
  {
    if p == |s| || s[p] == '}' then p else CloseAt(s, p + 1)
  }

  /** What the template stands for from `p` on: plain text is copied, variables
      are expanded, and one that is not terminated drops the rest. */
  function Expanded(s: string, p: nat, c: Context): string
    requires p <= |s|
    decreases |s| - p
  {
    if p == |s| then ""
    else if OpensAt(s, p) then
      var q := CloseAt(s, p + 2);
      if q == |s| then "" else Expansion(s[p + 2..q], c) + Expanded(s, q + 1, c)
    else s[p..PlainEnd(s, p)] + Expanded(s, PlainEnd(s, p), c)
  }

  lemma ExpandedEnd(s: string, c: Context)
    ensures Expanded(s, |s|, c) == ""
  {}

  lemma ExpandedVariable(s: string, p: nat, c: Context)
    requires OpensAt(s, p)
    ensures var q := CloseAt(s, p + 2);
            Expanded(s, p, c) == if q == |s| then "" else Expansion(s[p + 2..q], c) + Expanded(s, q + 1, c)
  {
    hide Expansion, CloseAt;
  }

  lemma ExpandedPlain(s: string, p: nat, c: Context)
    requires p < |s| && !OpensAt(s, p)
    ensures Expanded(s, p, c) == s[p..PlainEnd(s, p)] + Expanded(s, PlainEnd(s, p), c) && p < PlainEnd(s, p)
  {
    hide Expansion;
  }

  /** context_nextsegment: null at the end and for a variable that is not
      terminated; otherwise the position moves on. */
  method NextSegment(s: CString, p: nat, c: Context) returns (seg: Option<string>, next: nat)
    requires p <= |s|
    ensures p <= next <= |s| && (seg.Some? ==> p < next)
    ensures seg.None? ==> Expanded(s, p, c) == ""
    ensures seg.Some? ==> Expanded(s, p, c) == seg.value + Expanded(s, next, c)
    ensures seg.None? <==> p == |s| || (OpensAt(s, p) && CloseAt(s, p + 2) == |s|)
  {
    hide Expansion, Expanded;
    ExpandedEnd(s, c);
    if p < |s| {
      if OpensAt(s, p) { ExpandedVariable(s, p, c); } else { ExpandedPlain(s, p, c); }
    }
    seg, next := None, p;
    if CharAt(s, p) == '$' && CharAt(s, p + 1) == '{' {
      next := p + 2;
      while next < |s| && s[next] != '}'
        invariant p + 2 <= next <= |s| && CloseAt(s, next) == CloseAt(s, p + 2)
      {
        next := next + 1;
      }
      if next < |s| {
        var result := ExpandVariable(s[p + 2..next], c);
        seg := Some(result);
        next := next + 1;
      }
    } else {
      while next < |s| && !(s[next] == '$' && CharAt(s, next + 1) == '{')
        invariant p <= next <= |s| && PlainEnd(s, next) == PlainEnd(s, p)
      {
        next := next + 1;
      }
      if next > p { seg := Some(s[p..next]); }
    }
  }

  /** ucli_variable_expand: null when there is no segment at all. */
  method Expand(template: Option<CString>, c: Context) returns (result: Option<string>)
    ensures result.Some? ==> template.Some? && result.value == Expanded(template.value, 0, c)
    ensures result.None? ==> template.None? || Expanded(template.value, 0, c) == ""
    ensures result.None? <==> template.None? || template.value == "" || LostAtOnce(template.value)
  {
    hide Expanded, CloseAt;
    result := None;
    if template.None? { return; }
    var s, p, out := template.value, 0, "";
    assert "" + Expanded(s, 0, c) == Expanded(s, 0, c);
    var seg, next := NextSegment(s, p, c);
    while seg.Some?
      invariant 0 <= p <= next <= |s| && (seg.Some? ==> p < next)
      invariant out + Expanded(s, p, c) == Expanded(s, 0, c)
      invariant seg.Some? ==> Expanded(s, p, c) == seg.value + Expanded(s, next, c)
      invariant seg.None? ==> Expanded(s, p, c) == ""
      invariant result == if p == 0 then None else Some(out)
      invariant p == 0 ==> out == "" && (seg.None? <==> s == "" || LostAtOnce(s))
      invariant p > 0 ==> s != "" && !LostAtOnce(s)
      decreases |s| - p
    {
      Assoc(out, seg.value, Expanded(s, next, c));
      out := out + seg.value;
      result := Some(out);
      p := next;
      seg, next := NextSegment(s, p, c);
    }
    assert out + "" == out;
  }

  /** The template begins with a variable that is not terminated. */
  predicate LostAtOnce(s: string) {
    OpensAt(s, 0) && CloseAt(s, 2) == |s|
  }

  // ---------- laws ----------

  /** Without a variable nothing changes. */
  lemma PlainStays(s: string, c: Context)
    requires forall k :: 0 <= k < |s| ==> !OpensAt(s, k)
    ensures Expanded(s, 0, c) == s
  {
    if s != "" {
      assert PlainEnd(s, 0) == |s| && s[0..|s|] == s;
      assert s + "" == s;
    }
  }

  /** Every variable in it is terminated. */
  predicate Complete(s: string, p: nat)
    requires p <= |s|
    decreases |s| - p
  {
    if p == |s| then true
    else if OpensAt(s, p) then
      var q := CloseAt(s, p + 2);
      q < |s| && Complete(s, q + 1)
    else Complete(s, PlainEnd(s, p))
  }

  /** Nothing opens across the place where two texts meet. */
  predicate Separate(a: string, b: string) {
    !(a != "" && a[|a| - 1] == '$' && b != "" && b[0] == '{')
  }

  lemma OpensInFront(a: string, b: string, k: nat)
    requires k < |a| && Separate(a, b)
    ensures OpensAt(a + b, k) <==> OpensAt(a, k)
  {}

  lemma {:induction false} PlainEndInFront(a: string, b: string, p: nat)
    requires p <= |a| && Separate(a, b)
    ensures PlainEnd(a, p) < |a| ==> PlainEnd(a + b, p) == PlainEnd(a, p)
    ensures PlainEnd(a, p) == |a| ==> PlainEnd(a + b, p) == PlainEnd(a + b, |a|)
    decreases |a| - p
  {
    if p < |a| {
      OpensInFront(a, b, p);
      if !OpensAt(a, p) { PlainEndInFront(a, b, p + 1); }
    }
  }

  lemma {:induction false} CloseInFront(a: string, b: string, p: nat)
    requires p <= |a| && CloseAt(a, p) < |a|
    ensures CloseAt(a + b, p) == CloseAt(a, p)
    decreases |a| - p
  {
    if a[p] != '}' { CloseInFront(a, b, p + 1); }
  }

  lemma PlainFrom(s: string, p: nat, q: nat, c: Context)
    requires p <= q <= |s| && PlainEnd(s, p) == PlainEnd(s, q) && forall k :: p <= k < q ==> !OpensAt(s, k)
    ensures Expanded(s, p, c) == s[p..q] + Expanded(s, q, c)
  {
    hide Expansion, Expanded;
    var e := PlainEnd(s, q);
    if p < q {
      ExpandedPlain(s, p, c);
      if q == |s| || OpensAt(s, q) {
        assert e == q;
      } else {
        ExpandedPlain(s, q, c);
        assert s[p..e] == s[p..q] + s[q..e];
        Assoc(s[p..q], s[q..e], Expanded(s, e, c));
      }
    } else {
      assert s[p..q] + Expanded(s, q, c) == Expanded(s, q, c);
    }
  }

  /** Expansion distributes over joining complete texts. */
  lemma {:induction false} ExpandsInParts(a: string, b: string, p: nat, c: Context)
    requires p <= |a| && Complete(a, p) && Separate(a, b)
    ensures Expanded(a + b, p, c) == Expanded(a, p, c) + Expanded(a + b, |a|, c)
    decreases |a| - p
  {
    hide Expansion, Expanded, CloseAt, PlainEnd;
    var s := a + b;
    if p == |a| {
      ExpandedEnd(a, c);
      assert "" + Expanded(s, |a|, c) == Expanded(s, |a|, c);
    } else {
      CompleteNext(a, p);
      OpensInFront(a, b, p);
      if OpensAt(a, p) {
        var q := CloseAt(a, p + 2);
        CloseInFront(a, b, p + 2);
        ExpandedVariable(a, p, c);
        ExpandedVariable(s, p, c);
        assert s[p + 2..q] == a[p + 2..q];
        ExpandsInParts(a, b, q + 1, c);
        Assoc(Expansion(a[p + 2..q], c), Expanded(a, q + 1, c), Expanded(s, |a|, c));
      } else {
        var e := PlainEnd(a, p);
        ExpandedPlain(a, p, c);
        PlainOver(a, b, p, c);
        ExpandsInParts(a, b, e, c);
        Assoc(a[p..e], Expanded(a, e, c), Expanded(s, |a|, c));
      }
    }
  }

  lemma CompleteNext(a: string, p: nat)
    requires p < |a| && Complete(a, p)
    ensures OpensAt(a, p) ==> CloseAt(a, p + 2) < |a| && Complete(a, CloseAt(a, p + 2) + 1)
    ensures !OpensAt(a, p) ==> Complete(a, PlainEnd(a, p))
  {}

  /** Plain text in front may go on in the text behind. */
  lemma PlainOver(a: string, b: string, p: nat, c: Context)
    requires p < |a| && Separate(a, b) && !OpensAt(a, p)
    ensures var e := PlainEnd(a, p); Expanded(a + b, p, c) == a[p..e] + Expanded(a + b, e, c)
  {
    hide Expansion, Expanded;
    var s, e := a + b, PlainEnd(a, p);
    PlainEndInFront(a, b, p);
    forall k | p <= k < e ensures !OpensAt(s, k) { OpensInFront(a, b, k); }
    if e < |a| { OpensInFront(a, b, e); }
    PlainFrom(s, p, e, c);
    assert s[p..e] == a[p..e];
  }

  lemma {:induction false} ShiftPlain(a: string, b: string, p: nat)
    requires p <= |b|
    ensures PlainEnd(a + b, |a| + p) == |a| + PlainEnd(b, p)
    decreases |b| - p
  {
    if p < |b| {
      assert OpensAt(a + b, |a| + p) <==> OpensAt(b, p);
      if !OpensAt(b, p) { ShiftPlain(a, b, p + 1); }
    }
  }

  lemma {:induction false} ShiftClose(a: string, b: string, p: nat)
    requires p <= |b|
    ensures CloseAt(a + b, |a| + p) == |a| + CloseAt(b, p)
    decreases |b| - p
  {
    if p < |b| && b[p] != '}' { ShiftClose(a, b, p + 1); }
  }

  lemma VariableBehind(a: string, b: string, p: nat, c: Context)
    requires OpensAt(b, p)
    requires var q := CloseAt(b, p + 2);
             q < |b| ==> Expanded(a + b, |a| + (q + 1), c) == Expanded(b, q + 1, c)
    ensures Expanded(a + b, |a| + p, c) == Expanded(b, p, c)
  {
    hide Expansion, Expanded, CloseAt;
    var q := CloseAt(b, p + 2);
    ShiftClose(a, b, p + 2);
    ExpandedVariable(b, p, c);
    ExpandedVariable(a + b, |a| + p, c);
    if q < |b| { SliceBehind(a, b, p + 2, q); }
  }

  lemma PlainBehind(a: string, b: string, p: nat, c: Context)
    requires p < |b| && !OpensAt(b, p)
    requires var q := PlainEnd(b, p); Expanded(a + b, |a| + q, c) == Expanded(b, q, c)
    ensures Expanded(a + b, |a| + p, c) == Expanded(b, p, c)
  {
    hide Expansion, Expanded, PlainEnd;
    OpensBehind(a, b, p);
    ShiftPlain(a, b, p);
    ExpandedPlain(b, p, c);
    ExpandedPlain(a + b, |a| + p, c);
    SliceBehind(a, b, p, PlainEnd(b, p));
  }

  lemma {:induction false} ExpandedBehind(a: string, b: string, p: nat, c: Context)
    requires p <= |b|
    ensures Expanded(a + b, |a| + p, c) == Expanded(b, p, c)
    decreases |b| - p
  {
    hide Expansion, Expanded, CloseAt, PlainEnd, OpensAt;
    ExpandedEnd(b, c);
    ExpandedEnd(a + b, c);
    if p < |b| {
      OpensBehind(a, b, p);
      if OpensAt(b, p) {
        var q := CloseAt(b, p + 2);
        if q < |b| { ExpandedBehind(a, b, q + 1, c); }
        VariableBehind(a, b, p, c);
      } else {
        ExpandedPlain(b, p, c);
        ExpandedBehind(a, b, PlainEnd(b, p), c);
        PlainBehind(a, b, p, c);
      }
    }
  }

  lemma OpensBehind(a: string, b: string, p: nat)
    ensures OpensAt(a + b, |a| + p) <==> OpensAt(b, p)
    ensures OpensAt(b, p) ==> p + 2 <= |b|
  {}

  lemma SliceBehind(a: string, b: string, i: nat, j: nat)
    requires i <= j <= |b|
    ensures (a + b)[|a| + i..|a| + j] == b[i..j]
  {}

  /** The law: at a boundary between segments templates expand one by one. */
  lemma ExpandJoined(a: string, b: string, c: Context)
    requires Complete(a, 0) && Separate(a, b)
    ensures Expanded(a + b, 0, c) == Expanded(a, 0, c) + Expanded(b, 0, c)
  {
    ExpandsInParts(a, b, 0, c);
    ExpandedBehind(a, b, 0, c);
  }

  /** A variable that is not terminated drops itself and what follows, no more. */
  lemma UnterminatedDropsTail(a: string, tail: string, c: Context)
    requires Complete(a, 0) && '}' !in tail
    ensures Expanded(a + ("${" + tail), 0, c) == Expanded(a, 0, c)
  {
    var b := "${" + tail;
    ExpandJoined(a, b, c);
    assert forall k :: 2 <= k < |b| ==> b[k] == tail[k - 2];
    assert OpensAt(b, 0) && CloseAt(b, 2) == |b|;
    assert Expanded(a, 0, c) + "" == Expanded(a, 0, c);
  }
}
