/** What the names of commands are compared with, told character by character. */
module CommandLaws {
  import opened CStrings
  import opened CommandViews
  import opened CommandResolution
  import V = VariableExpansion

  /** The same character, or the same letter of the other case. */
  predicate SameLetter(a: char, b: char) {
    a == b || ('A' <= a <= 'Z' && b as int == a as int + 32) || ('A' <= b <= 'Z' && a as int == b as int + 32)
  }

  /** Texts of the same length with the same letters. */
  predicate Alike(a: string, b: string) {
    |a| == |b| && forall k :: 0 <= k < |a| ==> SameLetter(a[k], b[k])
  }

  /** The first text begins the second, letter case aside. */
  predicate Begins(a: string, b: string) {
    |a| <= |b| && Alike(a, b[..|a|])
  }

  lemma LowerIs(a: char, b: char)
    ensures ToLower(a) == ToLower(b) <==> SameLetter(a, b)
  {}

  lemma BeginsMeans(a: string, b: string)
    ensures Starts(a, b) <==> Begins(a, b)
  {
    if |a| <= |b| {
      forall k | 0 <= k < |a| ensures ToLower(a[k]) == ToLower(b[k]) <==> SameLetter(a[k], b[..|a|][k]) {
        LowerIs(a[k], b[k]);
      }
    }
  }

  lemma SameNameMeans(a: string, b: string)
    ensures SameName(a, b) <==> Alike(a, b)
  {
    SameLength(a, b);
    BeginsMeans(a, b);
    if |a| == |b| { assert b[..|a|] == b; }
  }

  /** The order of two characters, a capital letter taken for the small one. */
  predicate Before(a: char, b: char) {
    var x := if 'A' <= a <= 'Z' then a as int + 32 else a as int;
    var y := if 'A' <= b <= 'Z' then b as int + 32 else b as int;
    x < y
  }

  /** `a` comes first: up to some place they are alike, and there it ends or has the
      smaller character. */
  predicate ComesFirst(a: string, b: string, k: nat) {
    k <= |a| && k < |b| && Alike(a[..k], b[..k]) && (k == |a| || Before(a[k], b[k]))
  }

  lemma {:induction false} LessMeans(a: string, b: string)
    ensures Less(a, b) <==> exists k :: ComesFirst(a, b, k)
  {
    if a != "" && b != "" {
      LowerIs(a[0], b[0]);
      LessMeans(a[1..], b[1..]);
      if Order(a[0]) == Order(b[0]) {
        forall k: nat ensures ComesFirst(a[1..], b[1..], k) <==> ComesFirst(a, b, k + 1) { OneFurther(a, b, k); }
        if k: nat :| ComesFirst(a[1..], b[1..], k) { assert ComesFirst(a, b, k + 1); }
        if k: nat :| ComesFirst(a, b, k) {
          if k > 0 { assert ComesFirst(a[1..], b[1..], k - 1); }
        }
      } else {
        if Less(a, b) { assert ComesFirst(a, b, 0); }
        if k: nat :| ComesFirst(a, b, k) {
          assert k > 0 ==> SameLetter(a[..k][0], b[..k][0]);
        }
      }
    } else if b != "" {
      assert ComesFirst(a, b, 0);
    }
  }

  lemma OneFurther(a: string, b: string, k: nat)
    requires a != "" && b != "" && SameLetter(a[0], b[0])
    ensures ComesFirst(a[1..], b[1..], k) <==> ComesFirst(a, b, k + 1)
  {
    if k < |a| && k < |b| {
      assert a[..k + 1] == [a[0]] + a[1..][..k] && b[..k + 1] == [b[0]] + b[1..][..k];
      if Alike(a[..k + 1], b[..k + 1]) {
        assert forall i :: 0 <= i < k ==> a[1..][..k][i] == a[..k + 1][i + 1] && b[1..][..k][i] == b[..k + 1][i + 1];
      }
    }
  }

  /** The words with one blank between two of them. */
  function Spaced(words: seq<string>): string {
    if words == [] then "" else if |words| == 1 then words[0] else words[0] + " " + Spaced(words[1..])
  }

  lemma {:induction false} SpacedMore(words: seq<string>, last: string)
    requires words != []
    ensures Spaced(words + [last]) == Spaced(words) + " " + last
    decreases |words|
  {
    var all := words + [last];
    assert all[1..] == words[1..] + [last] && all[0] == words[0];
    if |words| > 1 {
      SpacedMore(words[1..], last);
      assert words[0] + " " + (Spaced(words[1..]) + " " + last) == words[0] + " " + Spaced(words[1..]) + " " + last;
    } else {
      assert all[1..] == [last] && Spaced([last]) == last;
    }
  }

  lemma {:induction false} JoinedIs(words: seq<string>, k: nat)
    requires k <= |words|
    ensures Joined(words, k) == Spaced(words[..k])
  {
    if k == 1 {
      assert words[..1] == [words[0]];
    } else if k > 1 {
      JoinedIs(words, k - 1);
      SpacedMore(words[..k - 1], words[k - 1]);
      assert words[..k] == words[..k - 1] + [words[k - 1]];
    }
  }

  /** `n` words of the line name a command: some command is called like them, letter
      case aside. */
  predicate Named(tree: seq<Command>, words: seq<string>, n: nat)
    requires n <= |words|
  {
    exists c :: c in tree && Alike(c.name, Spaced(words[..n]))
  }

  lemma NamedMeans(tree: seq<Command>, words: seq<string>, n: nat)
    requires n <= |words|
    ensures Named(tree, words, n) <==> IsCommand(tree, words, n)
  {
    JoinedIs(words, n);
    forall c: Command ensures SameName(c.name, Joined(words, n)) <==> Alike(c.name, Spaced(words[..n])) {
      SameNameMeans(c.name, Joined(words, n));
    }
  }

  /** What a line resolves to in a view: nothing when its first word names no command,
      and else the command of the longest beginning all of whose beginnings name one. */
  lemma ResolvesTo(tree: seq<Command>, words: seq<string>)
    ensures var k := Resolved(tree, words);
            && (forall j :: 1 <= j <= k ==> Named(tree, words, j)) && (k < |words| ==> !Named(tree, words, k + 1))
            && (k == 0 ==> CommandAt(tree, words, k) == None)
            && (k > 0 ==> var c := CommandAt(tree, words, k);
                          c.Some? && c.value in tree && Alike(c.value.name, Spaced(words[..k])))
  {
    hide NoCaseCmp, Joined, Named, Find;
    var k := Resolved(tree, words);
    forall j | 0 <= j <= |words| ensures Named(tree, words, j) <==> IsCommand(tree, words, j) {
      NamedMeans(tree, words, j);
    }
    if k > 0 {
      assert IsCommand(tree, words, k);
      JoinedIs(words, k);
      SameNameMeans(CommandAt(tree, words, k).value.name, Joined(words, k));
    }
  }

  /** An action that is not empty and does not begin with a variable that nothing closes. */
  predicate Runs(action: string) {
    action != "" && !("${" <= action && '}' !in action)
  }

  /** A command counts if it has a builtin, a view, or such an action. */
  lemma ActiveMeans(c: Command)
    ensures Active(Some(c)) == if c.builtin || c.view || (c.action.Some? && Runs(c.action.value)) then Some(c) else None
  {
    if c.action.Some? { LostMeans(c.action.value); }
  }

  lemma LostMeans(action: string)
    ensures V.LostAtOnce(action) <==> "${" <= action && '}' !in action
  {
    assert V.OpensAt(action, 0) <==> "${" <= action;
    if V.OpensAt(action, 0) {
      var q := V.CloseAt(action, 2);
      assert q < |action| ==> action[q] in action;
    }
  }

  /** The line ends in white space, or is empty: another word begins. */
  predicate WordBegins(line: string) {
    line == "" || line[|line| - 1] in " \t\n\r" + [11 as char, 12 as char]
  }

  /** A command completes a line if and only if its name begins like it and has as many
      words, counting the one that begins at the end of the line. */
  lemma CompletesMeans(c: Command, line: string, count: Counter)
    ensures Completes(c, line, count) <==>
      Begins(line, c.name) && count(c.name) == if WordBegins(line) then count(line) + 1 else count(line)
  {
    BeginsMeans(line, c.name);
    if line != "" {
      var last := line[|line| - 1];
      assert IsWhite(last) <==> last in " \t\n\r" + [VT, FF];
    }
  }
}
