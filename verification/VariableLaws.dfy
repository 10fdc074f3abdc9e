/** What "${name}" and "${name:name}" stand for, told from the arguments, the view
    and the environment alone. */
module VariableLaws {
  import opened CStrings
  import opened VariableExpansion

  // ---------- escaping, exactly ----------

  /** Read from left to right as when the backslashes are taken away, no special
      character stands without one. */
  predicate Guarded(s: string, special: string)
    decreases |s|
  {
    if s == "" then true
    else if s[0] == '\\' && |s| > 1 && s[1] in special then Guarded(s[2..], special)
    else s[0] !in special && Guarded(s[1..], special)
  }

  /** `s` is `v` with a backslash in front of every special character. */
  predicate Escapes(s: string, v: string, special: string) {
    Guarded(s, special) && Unescaped(s, special) == v
  }

  lemma {:induction false} EscapedIsGuarded(v: string, special: string)
    ensures Guarded(Escaped(v, special), special)
  {
    if v != "" {
      var rest := Escaped(v[1..], special);
      EscapedIsGuarded(v[1..], special);
      if v[0] in special {
        assert Escaped(v, special) == ['\\', v[0]] + rest;
        assert Escaped(v, special)[2..] == rest;
      } else {
        assert Escaped(v, special) == [v[0]] + rest;
        assert Escaped(v, special)[1..] == rest;
        if rest != "" && rest[0] in special { assert v[1] in special && rest[0] == '\\'; }
      }
    }
  }

  /** No other text does. */
  lemma {:induction false} OnlyOneEscapes(s: string, v: string, special: string)
    ensures Escapes(s, v, special) <==> s == Escaped(v, special)
    decreases |s|
  {
    EscapedIsGuarded(v, special);
    UnescapeEscaped(v, special);
    if Escapes(s, v, special) && s != "" {
      if s[0] == '\\' && |s| > 1 && s[1] in special {
        assert v[1..] == Unescaped(s[2..], special);
        OnlyOneEscapes(s[2..], v[1..], special);
        assert s == "\\" + [s[1]] + s[2..];
      } else {
        assert v[1..] == Unescaped(s[1..], special);
        OnlyOneEscapes(s[1..], v[1..], special);
        assert s == [s[0]] + s[1..];
      }
    }
  }

  // ---------- one name ----------

  predicate IsWord(n: string) {
    n != "" && ':' !in n && '}' !in n
  }

  /** What the variable of that one name stands for. */
  function Alone(n: string, c: Context): string {
    Expanded("${" + n + "}", 0, c)
  }

  lemma {:induction false} NoColon(n: string, p: nat)
    requires p <= |n| && ':' !in n
    ensures TokenEnd(n, p) == |n|
    decreases |n| - p
  {
    if p < |n| { NoColon(n, p + 1); }
  }

  lemma {:induction false} CloseBehind(n: string, p: nat)
    requires p <= |n| && '}' !in n
    ensures CloseAt("${" + n + "}", 2 + p) == 2 + |n|
    decreases |n| - p
  {
    var s := "${" + n + "}";
    if p < |n| {
      assert s[2 + p] == n[p];
      CloseBehind(n, p + 1);
    } else {
      assert s[2 + p] == '}';
    }
  }

  /** A variable is what stands between its braces, expanded. */
  lemma VariableIs(n: string, c: Context)
    requires '}' !in n
    ensures Alone(n, c) == Expansion(n, c)
  {
    hide Expansion, Expanded;
    var s := "${" + n + "}";
    CloseBehind(n, 0);
    assert OpensAt(s, 0) && s[2..2 + |n|] == n;
    ExpandedVariable(s, 0, c);
    ExpandedEnd(s, c);
    assert Expansion(n, c) + "" == Expansion(n, c);
  }

  lemma OneWord(n: string, c: Context)
    requires IsWord(n)
    ensures Alone(n, c) == if Found(c, n).Some? then Found(c, n).value else ""
  {
    hide Found, Alone;
    VariableIs(n, c);
    NoColon(n, 0);
    assert n[..|n|] == n && n[|n|..] == "";
    var tokens := [n];
    assert Tokens(n) == tokens + [] == tokens;
    assert Texts(tokens[1..], c) == "";
    if Found(c, n).Some? {
      assert Found(c, tokens[0]).Some?;
      assert Texts(tokens, c) == Found(c, n).value + "" == Found(c, n).value;
    }
  }

  /** The value of a name: that of the argument, or of the view's variable, or of
      the environment; one that is empty hides those behind it. A backslash stands in
      front of every character that is special for the command, or by default. */
  lemma VariableGives(n: string, c: Context)
    requires IsWord(n)
    ensures var special := if c.special.Some? then c.special.value else "`|$<>&()#";
            var argument := if n in c.args then c.args[n] else None;
            && (argument.Some? ==> Escapes(Alone(n, c), argument.value, special))
            && (argument.None? && c.view(n).Some? ==> Escapes(Alone(n, c), c.view(n).value, special))
            && (argument.None? && c.view(n).None? && c.env(n).Some? ==>
                  Escapes(Alone(n, c), c.env(n).value, special))
            && (argument.None? && c.view(n).None? && c.env(n).None? ==> Alone(n, c) == "")
  {
    hide Alone, Escapes;
    OneWord(n, c);
    var v := Value(c, n);
    if v.Some? {
      OnlyOneEscapes(Alone(n, c), v.value, Special(c));
      NothingEscaped(v.value, Special(c));
    }
  }

  lemma NothingEscaped(v: string, special: string)
    ensures Escaped(v, special) == "" <==> v == ""
  {}

  // ---------- several names ----------

  function Colons(n: nat): (s: string)
    ensures |s| == n && forall k :: 0 <= k < n ==> s[k] == ':'
  {
    seq(n, _ => ':')
  }

  /** Words with colons in front of each, as many as `gaps` says, and behind the
      last. */
  function Spelled(words: seq<string>, gaps: seq<nat>): string
    requires |gaps| == |words| + 1
  {
    if words == [] then Colons(gaps[0]) else Colons(gaps[0]) + words[0] + Spelled(words[1..], gaps[1..])
  }

  /** Words, and at least one colon between two of them. */
  predicate AreWords(words: seq<string>, gaps: seq<nat>) {
    && |gaps| == |words| + 1 && (forall i :: 0 <= i < |words| ==> IsWord(words[i]))
    && forall i :: 1 <= i < |words| ==> gaps[i] > 0
  }

  /** Each word that stands for something, and the others as they are. */
  function Replaced(words: seq<string>, c: Context): string {
    if words == [] then ""
    else (if Alone(words[0], c) != "" then Alone(words[0], c) else words[0]) + Replaced(words[1..], c)
  }

  lemma {:induction false} SkipColons(n: nat, rest: string)
    ensures Tokens(Colons(n) + rest) == Tokens(rest)
  {
    if n == 0 {
      assert Colons(0) + rest == rest;
    } else {
      SkipColons(n - 1, rest);
      assert (Colons(n) + rest)[1..] == Colons(n - 1) + rest;
    }
  }

  lemma {:induction false} TokenStops(n: string, rest: string, p: nat)
    requires p <= |n| && ':' !in n && (rest == "" || rest[0] == ':')
    ensures TokenEnd(n + rest, p) == |n|
    decreases |n| - p
  {
    if p < |n| {
      assert (n + rest)[p] == n[p];
      TokenStops(n, rest, p + 1);
    }
  }

  lemma OneToken(n: string, rest: string)
    requires IsWord(n) && (rest == "" || rest[0] == ':')
    ensures Tokens(n + rest) == [n] + Tokens(rest)
  {
    TokenStops(n, rest, 0);
    assert (n + rest)[0] == n[0] && (n + rest)[..|n|] == n && (n + rest)[|n|..] == rest;
  }

  lemma RestSpelled(words: seq<string>, gaps: seq<nat>)
    requires words != [] && AreWords(words, gaps)
    ensures AreWords(words[1..], gaps[1..])
    ensures var rest := Spelled(words[1..], gaps[1..]); rest == "" || rest[0] == ':'
  {
    assert forall i :: 0 <= i < |words[1..]| ==> words[1..][i] == words[i + 1];
    assert forall i :: 0 <= i < |gaps[1..]| ==> gaps[1..][i] == gaps[i + 1];
  }

  lemma {:induction false} WordsAreTokens(words: seq<string>, gaps: seq<nat>)
    requires AreWords(words, gaps)
    ensures Tokens(Spelled(words, gaps)) == words && '}' !in Spelled(words, gaps)
    decreases |words|
  {
    hide Tokens;
    if words == [] {
      SkipColons(gaps[0], "");
      assert Colons(gaps[0]) + "" == Colons(gaps[0]);
      NoTokens();
    } else {
      var rest := Spelled(words[1..], gaps[1..]);
      RestSpelled(words, gaps);
      WordsAreTokens(words[1..], gaps[1..]);
      OneToken(words[0], rest);
      SkipColons(gaps[0], words[0] + rest);
      assert Colons(gaps[0]) + words[0] + rest == Colons(gaps[0]) + (words[0] + rest);
      assert [words[0]] + words[1..] == words;
    }
  }

  lemma NoTokens()
    ensures Tokens("") == []
  {}

  lemma {:induction false} ReplacedIs(words: seq<string>, c: Context)
    requires forall i :: 0 <= i < |words| ==> IsWord(words[i])
    ensures Texts(words, c) == Replaced(words, c)
    ensures AnyFound(words, c) <==> exists i :: 0 <= i < |words| && Alone(words[i], c) != ""
  {
    hide Alone, Found, IsWord;
    forall i | 0 <= i < |words| ensures Found(c, words[i]).Some? <==> Alone(words[i], c) != "" {
      OneWord(words[i], c);
      FoundIsSome(words[i], c);
    }
    if words != [] {
      OneWord(words[0], c);
      assert forall i :: 0 <= i < |words[1..]| ==> words[1..][i] == words[i + 1];
      ReplacedIs(words[1..], c);
    }
  }

  lemma FoundIsSome(n: string, c: Context)
    ensures Found(c, n).Some? ==> Found(c, n).value != ""
  {
    var v := Value(c, n);
    if v.Some? { NothingEscaped(v.value, Special(c)); }
  }

  /** Several names: each that stands for something is replaced by that, the others
      stay as they are and the colons vanish; but when none does, nothing is left. */
  lemma WordsGive(words: seq<string>, gaps: seq<nat>, c: Context)
    requires AreWords(words, gaps)
    ensures Expanded("${" + Spelled(words, gaps) + "}", 0, c)
         == if exists i :: 0 <= i < |words| && Alone(words[i], c) != "" then Replaced(words, c) else ""
    ensures Expanded("${" + Spelled(words, gaps) + "}", 0, c) == ""
       <==> forall i :: 0 <= i < |words| ==> Alone(words[i], c) == ""
  {
    hide Alone, Texts, Tokens, AnyFound, Found, Spelled;
    var text := Spelled(words, gaps);
    WordsAreTokens(words, gaps);
    VariableIs(text, c);
    assert Alone(text, c) == Expanded("${" + text + "}", 0, c) by { AloneIs(text, c); }
    ReplacedIs(words, c);
    if i :| 0 <= i < |words| && Alone(words[i], c) != "" { SomethingLeft(words, c, i); }
  }

  lemma AloneIs(n: string, c: Context)
    ensures Alone(n, c) == Expanded("${" + n + "}", 0, c)
  {}

  lemma SomethingLeft(words: seq<string>, c: Context, i: nat)
    requires i < |words| && Alone(words[i], c) != ""
    ensures Replaced(words, c) != ""
  {
    if i > 0 {
      assert words[1..][i - 1] == words[i];
      SomethingLeft(words[1..], c, i - 1);
    }
  }
}
