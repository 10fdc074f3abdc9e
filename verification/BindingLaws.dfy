/** What a line binds, told word by word: the part every word plays, the entry that
    comes of it, and the lines that are refused. */
module BindingLaws {
  import opened CStrings
  import opened ArgumentBinding

  // ---------- the parts words play ----------

  /** A word of the command's own name; a flag, or the name of an option, that is
      parameter `q`; the value of the option in front of it; the value of the
      positional parameter `q`; the first word of the rest, or a later one. */
  datatype Part = OfCommand | Flag(q: nat) | OptionName(q: nat) | OptionValue | Positional(q: nat) | Rest | More

  /** An option goes by its prefix, a parameter without a type by its name. */
  predicate GoesBy(p: Param, word: string) {
    (p.ptype.Some? && p.prefix == Some(word)) || (p.ptype.None? && p.name == word)
  }

  /** The first that goes by the word. */
  predicate FirstNamed(params: seq<Param>, word: string, q: nat) {
    q < |params| && GoesBy(params[q], word) && forall j :: 0 <= j < q ==> !GoesBy(params[j], word)
  }

  predicate Unnamed(params: seq<Param>, word: string) {
    forall j :: 0 <= j < |params| ==> !GoesBy(params[j], word)
  }

  predicate TakesWord(p: Param) {
    p.prefix.None? && p.ptype.Some?
  }

  /** The number of positional parameters in front of `q`. */
  function Before(params: seq<Param>, q: nat): (n: nat)
    requires q <= |params|
    ensures n <= q
  {
    if q == 0 then 0 else Before(params, q - 1) + if TakesWord(params[q - 1]) then 1 else 0
  }

  /** The number of words in front of `x` that positional parameters took. */
  function Taken(parts: seq<Part>, x: nat): (n: nat)
    requires x <= |parts|
    ensures n <= x
  {
    if x == 0 then 0 else Taken(parts, x - 1) + if parts[x - 1].Positional? then 1 else 0
  }

  /** The part of word `x`, when the words in front of it play theirs. */
  predicate Plays(cmd: Command, words: seq<Word>, parts: seq<Part>, translate: Translator, x: nat)
    requires x < |parts| <= |words|
  {
    var part, word, params := parts[x], words[x].text, cmd.params;
    if x < cmd.words then part == OfCommand
    else if x > 0 && parts[x - 1].OptionName? then
      var q := parts[x - 1].q;
      part == OptionValue && q < |params| && params[q].ptype.Some? && translate(params[q].ptype.value, word).Some?
    else if x > 0 && (parts[x - 1].Rest? || parts[x - 1].More?) then part == More
    else
      match part
      case Flag(q) => FirstNamed(params, word, q) && params[q].ptype.None?
      case OptionName(q) => FirstNamed(params, word, q) && params[q].ptype.Some?
      case Positional(q) =>
        && Unnamed(params, word) && q < |params| && TakesWord(params[q]) && Before(params, q) == Taken(parts, x)
        && translate(params[q].ptype.value, word).Some?
      case Rest => Unnamed(params, word) && Before(params, |params|) == Taken(parts, x) && cmd.args.Some?
      case _ => false
  }

  /** Every word plays its part. */
  predicate Explains(cmd: Command, words: seq<Word>, parts: seq<Part>, translate: Translator) {
    && |parts| == |words| && (forall x :: 0 <= x < |words| ==> Plays(cmd, words, parts, translate, x))
    && (parts != [] ==> !parts[|parts| - 1].OptionName?)
  }

  function Quoted(word: Word): string {
    if word.quoted then "\"" + word.text + "\"" else word.text
  }

  /** The words with their quotes and single blanks between them. */
  function Spoken(words: seq<Word>): string {
    var n := |words|;
    if n == 0 then "" else if n == 1 then Quoted(words[0]) else Spoken(words[..n - 1]) + " " + Quoted(words[n - 1])
  }

  /** The entry that comes of word `x`, if any. */
  function EntryOf(cmd: Command, words: seq<Word>, parts: seq<Part>, translate: Translator, x: nat): Option<Entry>
    requires Explains(cmd, words, parts, translate) && x < |words|
  {
    var params := cmd.params;
    assert Plays(cmd, words, parts, translate, x);
    assert x > 0 ==> Plays(cmd, words, parts, translate, x - 1);
    match parts[x]
    case Flag(q) => Some(Entry(params[q], None))
    case OptionValue =>
      var q := parts[x - 1].q;
      Some(Entry(params[q], translate(params[q].ptype.value, words[x].text)))
    case Positional(q) => Some(Entry(params[q], translate(params[q].ptype.value, words[x].text)))
    case Rest => Some(Entry(cmd.args.value, Some(Spoken(words[x..]))))
    case _ => None
  }

  // ---------- the parts are determined ----------

  lemma {:induction false} BeforeGrows(params: seq<Param>, a: nat, b: nat)
    requires a < b <= |params| && TakesWord(params[a])
    ensures Before(params, a) < Before(params, b)
    decreases b
  {
    if a < b - 1 { BeforeGrows(params, a, b - 1); }
  }

  lemma SamePart(cmd: Command, words: seq<Word>, a: seq<Part>, b: seq<Part>, translate: Translator, x: nat)
    requires x < |a| <= |words| && x < |b| <= |words| && a[..x] == b[..x]
    requires Plays(cmd, words, a, translate, x) && Plays(cmd, words, b, translate, x)
    ensures a[x] == b[x]
  {
    hide Before, Taken, GoesBy, TakesWord;
    SameTaken(a, b, x);
    if x > 0 { assert a[x - 1] == a[..x][x - 1] == b[x - 1]; }
    if a[x].Positional? && b[x].Positional? {
      if a[x].q < b[x].q { BeforeGrows(cmd.params, a[x].q, b[x].q); }
      if b[x].q < a[x].q { BeforeGrows(cmd.params, b[x].q, a[x].q); }
    } else if a[x].Positional? && b[x].Rest? {
      BeforeGrows(cmd.params, a[x].q, |cmd.params|);
    } else if a[x].Rest? && b[x].Positional? {
      BeforeGrows(cmd.params, b[x].q, |cmd.params|);
    }
  }

  lemma {:induction false} SameTaken(a: seq<Part>, b: seq<Part>, x: nat)
    requires x <= |a| && x <= |b| && a[..x] == b[..x]
    ensures Taken(a, x) == Taken(b, x)
  {
    if x > 0 {
      assert a[..x - 1] == a[..x][..x - 1] == b[..x - 1];
      assert a[x - 1] == a[..x][x - 1] == b[x - 1];
      SameTaken(a, b, x - 1);
    }
  }

  /** A line is explained in one way only. */
  lemma PartsAreUnique(cmd: Command, words: seq<Word>, a: seq<Part>, b: seq<Part>, translate: Translator)
    requires Explains(cmd, words, a, translate) && Explains(cmd, words, b, translate)
    ensures a == b
  {
    hide Plays;
    var x := 0;
    while x < |words|
      invariant x <= |words| && a[..x] == b[..x]
    {
      assert Plays(cmd, words, a, translate, x) && Plays(cmd, words, b, translate, x);
      SamePart(cmd, words, a, b, translate, x);
      assert a[..x + 1] == a[..x] + [a[x]] && b[..x + 1] == b[..x] + [b[x]];
      x := x + 1;
    }
    assert a == a[..x] && b == b[..x];
  }

  // ---------- the reference follows the parts ----------

  lemma FindsFirst(params: seq<Param>, word: string, q: nat)
    requires FirstNamed(params, word, q)
    ensures FindOption(params, word) == Some(params[q])
  {
    var r := FindOption(params, word);
    assert IsOption(params[q], word) && params[q] in params;
    var i :| 0 <= i < |params| && params[i] == r.value && FirstOption(params, word, i);
    assert !(i < q) && !(q < i) by { assert GoesBy(params[i], word) <==> IsOption(params[i], word); }
  }

  lemma FindsNone(params: seq<Param>, word: string)
    ensures Unnamed(params, word) <==> FindOption(params, word) == None
    ensures !Unnamed(params, word) ==> exists q :: FirstNamed(params, word, q)
  {
    var r := FindOption(params, word);
    if r.Some? {
      var i :| 0 <= i < |params| && params[i] == r.value && FirstOption(params, word, i);
      assert FirstNamed(params, word, i);
    } else {
      forall j | 0 <= j < |params| ensures !GoesBy(params[j], word) { assert params[j] in params; }
    }
  }

  lemma {:induction false} BeforeShift(params: seq<Param>, q: nat)
    requires 0 < q <= |params|
    ensures Before(params, q) == Before(params[1..], q - 1) + if TakesWord(params[0]) then 1 else 0
  {
    if q > 1 { BeforeShift(params, q - 1); }
  }

  lemma {:induction false} PositionalAt(params: seq<Param>, q: nat)
    requires q < |params| && TakesWord(params[q])
    ensures Before(params, q) < |Positionals(params)| && Positionals(params)[Before(params, q)] == params[q]
  {
    if q > 0 {
      BeforeShift(params, q);
      PositionalAt(params[1..], q - 1);
    }
  }

  lemma {:induction false} AllPositionals(params: seq<Param>)
    ensures |Positionals(params)| == Before(params, |params|)
  {
    if params != [] {
      BeforeShift(params, |params|);
      AllPositionals(params[1..]);
    }
  }

  lemma {:induction false} PositionalOf(params: seq<Param>, k: nat) returns (q: nat)
    requires k < |Positionals(params)|
    ensures q < |params| && TakesWord(params[q]) && Before(params, q) == k
  {
    if TakesWord(params[0]) && k == 0 {
      q := 0;
    } else {
      q := PositionalOf(params[1..], if TakesWord(params[0]) then k - 1 else k);
      q := q + 1;
      BeforeShift(params, q);
    }
  }

  /** The entries of the words from `x` on. */
  function Entries(cmd: Command, words: seq<Word>, parts: seq<Part>, translate: Translator, x: nat): seq<Entry>
    requires Explains(cmd, words, parts, translate) && x <= |words|
    decreases |words| - x
  {
    if x == |words| then []
    else
      var e := EntryOf(cmd, words, parts, translate, x);
      (if e.Some? then [e.value] else []) + Entries(cmd, words, parts, translate, x + 1)
  }

  /** The word at `x` starts something. */
  predicate StartsAt(cmd: Command, parts: seq<Part>, x: nat)
    requires x <= |parts|
  {
    cmd.words <= x && (x > 0 ==> !parts[x - 1].OptionName? && !parts[x - 1].Rest? && !parts[x - 1].More?)
  }

  lemma {:induction false} SpokenJoin(words: seq<Word>, x: nat)
    requires x < |words|
    ensures JoinWords(words[x..]) == Spoken(words[x..])
    decreases |words| - x
  {
    hide JoinWords, Spoken, Quoted, ArgumentBinding.Piece;
    SpokenFirst(words[x..]);
    JoinNext(words, x);
    SameQuotes(words[x]);
    FromNext(words, x);
    if x + 1 < |words| {
      SpokenJoin(words, x + 1);
      Assoc(Quoted(words[x]), " ", Spoken(words[x + 1..]));
    } else {
      assert Quoted(words[x]) + "" + "" == Quoted(words[x]) + "";
    }
  }

  lemma SameQuotes(word: Word)
    ensures ArgumentBinding.Piece(word) == Quoted(word)
  {}

  lemma {:induction false} SpokenFirst(words: seq<Word>)
    requires words != []
    ensures Spoken(words) == Quoted(words[0]) + if |words| == 1 then "" else " " + Spoken(words[1..])
    decreases |words|
  {
    hide Spoken, Quoted;
    var n := |words|;
    SpokenLast(words);
    if n == 1 {
      assert Quoted(words[0]) + "" == Quoted(words[0]);
    } else {
      var front := words[..n - 1];
      SpokenFirst(front);
      SpokenLast(words[1..]);
      assert words[1..][..n - 2] == front[1..];
      Blanked(Quoted(words[0]), Spoken(front[1..]), Quoted(words[n - 1]));
    }
  }

  lemma SpokenLast(words: seq<Word>)
    requires words != []
    ensures var n := |words|;
            Spoken(words) == (if n == 1 then "" else Spoken(words[..n - 1]) + " ") + Quoted(words[n - 1])
  {
    assert "" + Quoted(words[|words| - 1]) == Quoted(words[|words| - 1]);
  }

  lemma Blanked(a: string, b: string, c: string)
    ensures a + "" + " " + c == a + (" " + ("" + c))
    ensures a + (" " + b) + " " + c == a + (" " + (b + " " + c))
  {}

  /** In the rest of a line nothing more is bound. */
  lemma {:induction false} RestHasNone(cmd: Command, words: seq<Word>, parts: seq<Part>, translate: Translator, x: nat)
    requires Explains(cmd, words, parts, translate) && cmd.words < x <= |words|
    requires parts[x - 1].Rest? || parts[x - 1].More?
    ensures Entries(cmd, words, parts, translate, x) == [] && Taken(parts, x) == Taken(parts, |words|)
    decreases |words| - x
  {
    if x < |words| {
      assert Plays(cmd, words, parts, translate, x);
      RestHasNone(cmd, words, parts, translate, x + 1);
    }
  }

  lemma {:induction false} TakenBound(cmd: Command, words: seq<Word>, parts: seq<Part>, translate: Translator, x: nat)
    requires x <= |parts| <= |words| && forall y :: 0 <= y < |parts| ==> Plays(cmd, words, parts, translate, y)
    ensures Taken(parts, x) <= |Positionals(cmd.params)| && (x <= cmd.words ==> Taken(parts, x) == 0)
  {
    hide Positionals, GoesBy;
    if x > 0 {
      TakenBound(cmd, words, parts, translate, x - 1);
      assert Plays(cmd, words, parts, translate, x - 1);
      if parts[x - 1].Positional? { PositionalAt(cmd.params, parts[x - 1].q); }
    }
  }

  lemma BindsNone(cmd: Command, words: seq<Word>, k: nat, translate: Translator)
    requires k <= |Positionals(cmd.params)|
    ensures Bind(cmd, WordsFrom(words, |words|), k, translate) == Bound([], k, false)
  {}

  lemma FromNext(words: seq<Word>, x: nat)
    requires x < |words|
    ensures WordsFrom(words, x) == words[x..] && words[x..][0] == words[x]
    ensures words[x..][1..] == WordsFrom(words, x + 1)
    ensures x + 1 < |words| ==> words[x..][1] == words[x + 1] && words[x..][2..] == WordsFrom(words, x + 2)
  {}

  /** The reference binds what the parts say from `x` on. */
  predicate Follows(cmd: Command, words: seq<Word>, parts: seq<Part>, translate: Translator, x: nat)
    requires Explains(cmd, words, parts, translate) && x <= |words|
  {
    && Taken(parts, x) <= |Positionals(cmd.params)|
    && var r := Bind(cmd, WordsFrom(words, x), Taken(parts, x), translate);
       r.Bound? && r.bindings == Entries(cmd, words, parts, translate, x) && r.used == Taken(parts, |words|)
  }

  lemma FlagFollows(cmd: Command, words: seq<Word>, parts: seq<Part>, translate: Translator, x: nat)
    requires Explains(cmd, words, parts, translate) && x < |words| && StartsAt(cmd, parts, x) && parts[x].Flag?
    ensures StartsAt(cmd, parts, x + 1)
    ensures Follows(cmd, words, parts, translate, x + 1) ==> Follows(cmd, words, parts, translate, x)
  {
    hide Positionals, FindOption, WordsFrom, JoinWords, Spoken, FirstNamed, Unnamed;
    TakenBound(cmd, words, parts, translate, x);
    FromNext(words, x);
    assert Plays(cmd, words, parts, translate, x);
    FindsFirst(cmd.params, words[x].text, parts[x].q);
  }

  /** What an option with its value binds. */
  lemma OptionBinds(cmd: Command, words: seq<Word>, x: nat, q: nat, k: nat, translate: Translator)
    requires x + 1 < |words| && k <= |Positionals(cmd.params)|
    requires FirstNamed(cmd.params, words[x].text, q) && q < |cmd.params| && cmd.params[q].ptype.Some?
    requires translate(cmd.params[q].ptype.value, words[x + 1].text).Some?
    ensures var e := Entry(cmd.params[q], translate(cmd.params[q].ptype.value, words[x + 1].text));
            Bind(cmd, WordsFrom(words, x), k, translate) == Prepend(e, Bind(cmd, WordsFrom(words, x + 2), k, translate))
  {
    hide Positionals, FindOption, WordsFrom, JoinWords, FirstNamed;
    FromNext(words, x);
    FindsFirst(cmd.params, words[x].text, q);
  }

  lemma OptionFollows(cmd: Command, words: seq<Word>, parts: seq<Part>, translate: Translator, x: nat)
    requires Explains(cmd, words, parts, translate) && x < |words| && StartsAt(cmd, parts, x) && parts[x].OptionName?
    ensures x + 2 <= |words| && StartsAt(cmd, parts, x + 2)
    ensures Follows(cmd, words, parts, translate, x + 2) ==> Follows(cmd, words, parts, translate, x)
  {
    hide Positionals, WordsFrom, Bind, Entries, Plays, EntryOf, FirstNamed;
    ValueBehind(cmd, words, parts, translate, x);
    OptionEntries(cmd, words, parts, translate, x);
    OptionBinds(cmd, words, x, parts[x].q, Taken(parts, x), translate);
  }

  lemma ValueBehind(cmd: Command, words: seq<Word>, parts: seq<Part>, translate: Translator, x: nat)
    requires Explains(cmd, words, parts, translate) && x < |words| && StartsAt(cmd, parts, x) && parts[x].OptionName?
    ensures x + 1 < |words| && parts[x + 1].OptionValue? && Taken(parts, x + 2) == Taken(parts, x)
    ensures Taken(parts, x) <= |Positionals(cmd.params)|
    ensures var q := parts[x].q;
            && FirstNamed(cmd.params, words[x].text, q) && q < |cmd.params| && cmd.params[q].ptype.Some?
            && translate(cmd.params[q].ptype.value, words[x + 1].text).Some?
  {
    hide FirstNamed, Positionals;
    TakenBound(cmd, words, parts, translate, x);
    assert Plays(cmd, words, parts, translate, x);
    assert Plays(cmd, words, parts, translate, x + 1);
  }

  lemma OptionEntries(cmd: Command, words: seq<Word>, parts: seq<Part>, translate: Translator, x: nat)
    requires Explains(cmd, words, parts, translate) && x + 1 < |words|
    requires parts[x].OptionName? && parts[x + 1].OptionValue?
    requires parts[x].q < |cmd.params| && cmd.params[parts[x].q].ptype.Some?
    ensures var p := cmd.params[parts[x].q];
            Entries(cmd, words, parts, translate, x)
            == [Entry(p, translate(p.ptype.value, words[x + 1].text))] + Entries(cmd, words, parts, translate, x + 2)
  {
    hide Entries, Plays, Spoken;
    EntriesNext(cmd, words, parts, translate, x);
    EntriesNext(cmd, words, parts, translate, x + 1);
  }

  lemma EntriesNext(cmd: Command, words: seq<Word>, parts: seq<Part>, translate: Translator, x: nat)
    requires Explains(cmd, words, parts, translate) && x < |words|
    ensures var e, rest := EntryOf(cmd, words, parts, translate, x), Entries(cmd, words, parts, translate, x + 1);
            Entries(cmd, words, parts, translate, x) == if e.Some? then [e.value] + rest else rest
  {
    hide EntryOf;
  }

  lemma OtherFollows(cmd: Command, words: seq<Word>, parts: seq<Part>, translate: Translator, x: nat)
    requires Explains(cmd, words, parts, translate) && x < |words| && StartsAt(cmd, parts, x)
    requires !parts[x].Flag? && !parts[x].OptionName?
    ensures parts[x].Rest? || (parts[x].Positional? && StartsAt(cmd, parts, x + 1))
    ensures parts[x].Rest? || Follows(cmd, words, parts, translate, x + 1) ==> Follows(cmd, words, parts, translate, x)
  {
    hide Positionals, FindOption, WordsFrom, JoinWords, Spoken, FirstNamed, Unnamed;
    TakenBound(cmd, words, parts, translate, x);
    FromNext(words, x);
    assert Plays(cmd, words, parts, translate, x);
    FindsNone(cmd.params, words[x].text);
    if parts[x].Positional? {
      PositionalAt(cmd.params, parts[x].q);
    } else {
      AllPositionals(cmd.params);
      SpokenJoin(words, x);
      RestHasNone(cmd, words, parts, translate, x + 1);
    }
  }

  lemma {:induction false} BindFollows(
      cmd: Command, words: seq<Word>, parts: seq<Part>, translate: Translator, x: nat)
    requires Explains(cmd, words, parts, translate) && x <= |words| && StartsAt(cmd, parts, x)
    ensures Follows(cmd, words, parts, translate, x)
    decreases |words| - x
  {
    hide StartsAt, Follows, Plays;
    if x == |words| {
      NothingFollows(cmd, words, parts, translate);
    } else if parts[x].Flag? {
      FlagFollows(cmd, words, parts, translate, x);
      BindFollows(cmd, words, parts, translate, x + 1);
    } else if parts[x].OptionName? {
      OptionFollows(cmd, words, parts, translate, x);
      BindFollows(cmd, words, parts, translate, x + 2);
    } else {
      OtherFollows(cmd, words, parts, translate, x);
      if !parts[x].Rest? { BindFollows(cmd, words, parts, translate, x + 1); }
    }
  }

  lemma NothingFollows(cmd: Command, words: seq<Word>, parts: seq<Part>, translate: Translator)
    requires Explains(cmd, words, parts, translate)
    ensures Follows(cmd, words, parts, translate, |words|)
  {
    hide Bind, WordsFrom, Plays, Positionals;
    TakenBound(cmd, words, parts, translate, |words|);
    BindsNone(cmd, words, Taken(parts, |words|), translate);
  }

  lemma StepPlays(cmd: Command, words: seq<Word>, parts: seq<Part>, more: seq<Part>, translate: Translator, y: nat)
    requires y < |parts| && |parts + more| <= |words|
    ensures Plays(cmd, words, parts + more, translate, y) <==> Plays(cmd, words, parts, translate, y)
  {
    hide Taken, Before, FirstNamed, Unnamed;
    assert (parts + more)[..y] == parts[..y];
    SameTaken(parts + more, parts, y);
  }

  /** One more part. */
  lemma AddPart(cmd: Command, words: seq<Word>, parts: seq<Part>, part: Part, translate: Translator)
    requires |parts| < |words| && forall y :: 0 <= y < |parts| ==> Plays(cmd, words, parts, translate, y)
    requires Plays(cmd, words, parts + [part], translate, |parts|)
    ensures forall y :: 0 <= y <= |parts| ==> Plays(cmd, words, parts + [part], translate, y)
    ensures Taken(parts + [part], |parts| + 1) == Taken(parts, |parts|) + if part.Positional? then 1 else 0
  {
    hide Plays;
    forall y | 0 <= y < |parts| ensures Plays(cmd, words, parts + [part], translate, y) {
      StepPlays(cmd, words, parts, [part], translate, y);
    }
    assert (parts + [part])[..|parts|] == parts[..|parts|];
    SameTaken(parts + [part], parts, |parts|);
  }

  /** What a part must be where something starts. */
  predicate Fits(cmd: Command, word: string, part: Part, taken: nat, translate: Translator) {
    var params := cmd.params;
    match part
    case Flag(q) => FirstNamed(params, word, q) && params[q].ptype.None?
    case OptionName(q) => FirstNamed(params, word, q) && params[q].ptype.Some?
    case Positional(q) =>
      && Unnamed(params, word) && q < |params| && TakesWord(params[q]) && Before(params, q) == taken
      && translate(params[q].ptype.value, word).Some?
    case Rest => Unnamed(params, word) && Before(params, |params|) == taken && cmd.args.Some?
    case _ => false
  }

  lemma PlayHere(cmd: Command, words: seq<Word>, parts: seq<Part>, part: Part, translate: Translator)
    requires |parts| < |words| && StartsAt(cmd, parts, |parts|)
    ensures Plays(cmd, words, parts + [part], translate, |parts|)
       <==> Fits(cmd, words[|parts|].text, part, Taken(parts, |parts|), translate)
  {
    hide Taken, Before, FirstNamed, Unnamed;
    assert (parts + [part])[..|parts|] == parts[..|parts|];
    SameTaken(parts + [part], parts, |parts|);
  }

  lemma ValuePlays(cmd: Command, words: seq<Word>, parts: seq<Part>, q: nat, translate: Translator)
    requires 0 < |parts| < |words| && cmd.words <= |parts| && parts[|parts| - 1] == OptionName(q)
    requires q < |cmd.params| && cmd.params[q].ptype.Some?
    requires translate(cmd.params[q].ptype.value, words[|parts|].text).Some?
    ensures Plays(cmd, words, parts + [OptionValue], translate, |parts|)
  {}

  /** The next part, or two for an option with its value. */
  lemma NextPart(cmd: Command, words: seq<Word>, parts: seq<Part>, translate: Translator) returns (more: seq<Part>)
    requires Open(cmd, words, parts, translate) && |parts| < |words|
    ensures more != [] && |parts + more| <= |words|
    ensures forall y :: 0 <= y < |parts + more| ==> Plays(cmd, words, parts + more, translate, y)
    ensures if more[0].Rest? then |more| == 1 else Open(cmd, words, parts + more, translate)
  {
    hide Positionals, FindOption, WordsFrom, JoinWords, Plays, FirstNamed, Unnamed, Taken, Bind;
    var taken, word := Taken(parts, |parts|), words[|parts|].text;
    FindsNone(cmd.params, word);
    if q: nat :| FirstNamed(cmd.params, word, q) {
      more := NextOption(cmd, words, parts, q, translate);
    } else if taken < |Positionals(cmd.params)| {
      more := NextPositional(cmd, words, parts, translate);
    } else {
      RestTaken(cmd, words, |parts|, taken, translate);
      AllPositionals(cmd.params);
      more := [Rest];
      PlayHere(cmd, words, parts, Rest, translate);
      AddPart(cmd, words, parts, Rest, translate);
    }
  }

  /** What follows the words that are explained can be bound. */
  predicate Open(cmd: Command, words: seq<Word>, parts: seq<Part>, translate: Translator) {
    && |parts| <= |words| && StartsAt(cmd, parts, |parts|)
    && (forall y :: 0 <= y < |parts| ==> Plays(cmd, words, parts, translate, y))
    && Taken(parts, |parts|) <= |Positionals(cmd.params)|
    && Bind(cmd, WordsFrom(words, |parts|), Taken(parts, |parts|), translate).Bound?
  }

  lemma NextOption(cmd: Command, words: seq<Word>, parts: seq<Part>, q: nat, translate: Translator)
    returns (more: seq<Part>)
    requires Open(cmd, words, parts, translate) && |parts| < |words|
    requires FirstNamed(cmd.params, words[|parts|].text, q)
    ensures more != [] && !more[0].Rest? && Open(cmd, words, parts + more, translate)
  {
    hide Positionals, FindOption, WordsFrom, JoinWords, Plays, FirstNamed, Unnamed, Taken;
    FromNext(words, |parts|);
    FindsFirst(cmd.params, words[|parts|].text, q);
    FirstIsParam(cmd.params, words[|parts|].text, q);
    if cmd.params[q].ptype.None? {
      more := [Flag(q)];
      PlayHere(cmd, words, parts, Flag(q), translate);
      AddPart(cmd, words, parts, Flag(q), translate);
    } else {
      var named := parts + [OptionName(q)];
      PlayHere(cmd, words, parts, OptionName(q), translate);
      AddPart(cmd, words, parts, OptionName(q), translate);
      ValuePlays(cmd, words, named, q, translate);
      AddPart(cmd, words, named, OptionValue, translate);
      more := [OptionName(q), OptionValue];
      assert parts + more == named + [OptionValue];
    }
  }

  lemma NextPositional(cmd: Command, words: seq<Word>, parts: seq<Part>, translate: Translator)
    returns (more: seq<Part>)
    requires Open(cmd, words, parts, translate) && |parts| < |words|
    requires Unnamed(cmd.params, words[|parts|].text) && Taken(parts, |parts|) < |Positionals(cmd.params)|
    ensures more != [] && !more[0].Rest? && Open(cmd, words, parts + more, translate)
  {
    hide Positionals, FindOption, WordsFrom, JoinWords, Plays, FirstNamed, Unnamed, Taken;
    FromNext(words, |parts|);
    FindsNone(cmd.params, words[|parts|].text);
    var q := PositionalOf(cmd.params, Taken(parts, |parts|));
    PositionalAt(cmd.params, q);
    more := [Positional(q)];
    PlayHere(cmd, words, parts, Positional(q), translate);
    AddPart(cmd, words, parts, Positional(q), translate);
  }

  lemma RestTaken(cmd: Command, words: seq<Word>, x: nat, k: nat, translate: Translator)
    requires x < |words| && k == |Positionals(cmd.params)| && FindOption(cmd.params, words[x].text) == None
    requires Bind(cmd, WordsFrom(words, x), k, translate).Bound?
    ensures cmd.args.Some?
  {
    hide Positionals, FindOption, WordsFrom;
    FromNext(words, x);
  }

  lemma FirstIsParam(params: seq<Param>, word: string, q: nat)
    requires FirstNamed(params, word, q)
    ensures q < |params|
  {}

  lemma {:induction false} AllMore(cmd: Command, words: seq<Word>, parts: seq<Part>, translate: Translator)
    returns (full: seq<Part>)
    requires cmd.words <= |parts| <= |words| && parts != []
    requires parts[|parts| - 1].Rest? || parts[|parts| - 1].More?
    requires forall y :: 0 <= y < |parts| ==> Plays(cmd, words, parts, translate, y)
    ensures Explains(cmd, words, full, translate)
    decreases |words| - |parts|
  {
    full := parts;
    if |parts| < |words| {
      hide Taken, Before, FirstNamed, Unnamed;
      AddPart(cmd, words, parts, More, translate);
      full := AllMore(cmd, words, parts + [More], translate);
    }
  }

  /** Where the reference binds there are such parts. */
  lemma {:induction false} PartsExist(cmd: Command, words: seq<Word>, parts: seq<Part>, translate: Translator)
    returns (full: seq<Part>)
    requires Open(cmd, words, parts, translate)
    ensures Explains(cmd, words, full, translate)
    decreases |words| - |parts|
  {
    hide Positionals, Bind, WordsFrom, Plays, Taken;
    full := parts;
    if |parts| < |words| {
      var more := NextPart(cmd, words, parts, translate);
      if more[0].Rest? {
        assert (parts + more)[|parts|] == more[0];
        full := AllMore(cmd, words, parts + more, translate);
      } else {
        full := PartsExist(cmd, words, parts + more, translate);
      }
    }
  }

  // ---------- what the table holds ----------

  /** Word `x` binds the name. */
  predicate BoundAt(cmd: Command, words: seq<Word>, parts: seq<Part>, translate: Translator, name: string, x: nat)
    requires Explains(cmd, words, parts, translate)
  {
    x < |words|
    && var e := EntryOf(cmd, words, parts, translate, x);
       e.Some? && e.value.param.name == name
  }

  /** No later word does. */
  predicate LastBoundAt(cmd: Command, words: seq<Word>, parts: seq<Part>, translate: Translator, name: string, x: nat)
    requires Explains(cmd, words, parts, translate)
  {
    && BoundAt(cmd, words, parts, translate, name, x)
    && forall z :: x < z < |words| ==> !BoundAt(cmd, words, parts, translate, name, z)
  }

  /** No word binds the name. */
  predicate Unbound(cmd: Command, words: seq<Word>, parts: seq<Part>, translate: Translator, name: string)
    requires Explains(cmd, words, parts, translate)
  {
    forall x :: 0 <= x < |words| ==> !BoundAt(cmd, words, parts, translate, name, x)
  }

  predicate DefaultAt(params: seq<Param>, name: string, q: nat) {
    q < |params| && params[q].default.Some? && params[q].name == name
  }

  predicate LastDefaultAt(params: seq<Param>, name: string, q: nat) {
    DefaultAt(params, name, q) && forall r :: q < r < |params| ==> !DefaultAt(params, name, r)
  }

  predicate NoDefault(params: seq<Param>, name: string) {
    forall q :: 0 <= q < |params| ==> !DefaultAt(params, name, q)
  }

  /** An empty default is taken as it is, any other one is translated. */
  function DefaultOf(p: Param, translate: Translator): Option<string>
    requires p.default.Some? && (p.default.value != "" ==> p.ptype.Some?)
  {
    if p.default.value == "" then Some("") else translate(p.ptype.value, p.default.value)
  }

  lemma {:induction false} LastWord(cmd: Command, words: seq<Word>, parts: seq<Part>, translate: Translator,
                                    name: string, before: Option<Option<string>>, x: nat)
    requires Explains(cmd, words, parts, translate) && x <= |words|
    ensures var last := Last(Entries(cmd, words, parts, translate, x), name, before);
            && ((forall y :: x <= y < |words| ==> !BoundAt(cmd, words, parts, translate, name, y)) ==> last == before)
            && forall y :: x <= y < |words| && LastBoundAt(cmd, words, parts, translate, name, y) ==>
                 last == Some(EntryOf(cmd, words, parts, translate, y).value.value)
    decreases |words| - x
  {
    hide Explains, EntryOf, Entries;
    if x == |words| {
      NoEntries(cmd, words, parts, translate);
    } else {
      EntriesNext(cmd, words, parts, translate, x);
      var e, rest := EntryOf(cmd, words, parts, translate, x), Entries(cmd, words, parts, translate, x + 1);
      var bound := BoundAt(cmd, words, parts, translate, name, x);
      if e.Some? { assert ([e.value] + rest)[1..] == rest; }
      LastWord(cmd, words, parts, translate, name, if bound then Some(e.value.value) else before, x + 1);
    }
  }

  lemma NoEntries(cmd: Command, words: seq<Word>, parts: seq<Part>, translate: Translator)
    requires Explains(cmd, words, parts, translate)
    ensures Entries(cmd, words, parts, translate, |words|) == []
  {}

  lemma {:induction false} LastDefault(params: seq<Param>, translate: Translator, name: string,
                                       before: Option<Option<string>>)
    requires forall p :: p in params && p.default.Some? && p.default.value != "" ==> p.ptype.Some?
    ensures var last := Last(Defaults(params, translate), name, before);
            && (NoDefault(params, name) ==> last == before)
            && forall q :: 0 <= q < |params| && LastDefaultAt(params, name, q) ==>
                 params[q] in params && last == Some(DefaultOf(params[q], translate))
  {
    if params != [] {
      var p, tail := params[0], params[1..];
      var all, rest := Defaults(params, translate), Defaults(tail, translate);
      assert forall q :: 0 <= q < |tail| ==> (DefaultAt(tail, name, q) <==> DefaultAt(params, name, q + 1));
      assert DefaultAt(params, name, 0) <==> p.default.Some? && p.name == name;
      if p.default.Some? { assert all[1..] == rest; }
      var next := if DefaultAt(params, name, 0) then Some(DefaultOf(p, translate)) else before;
      LastDefault(tail, translate, name, next);
      assert Last(all, name, before) == Last(rest, name, next);
      forall q | 0 <= q < |params| && LastDefaultAt(params, name, q)
        ensures params[q] in params && Last(all, name, before) == Some(DefaultOf(params[q], translate))
      {
        if q > 0 {
          assert DefaultAt(tail, name, q - 1) && tail[q - 1] == params[q];
          assert LastDefaultAt(tail, name, q - 1);
        } else {
          assert NoDefault(tail, name);
        }
      }
    }
  }

  lemma {:induction false} NothingOfCommand(
      cmd: Command, words: seq<Word>, parts: seq<Part>, translate: Translator, x: nat)
    requires Explains(cmd, words, parts, translate) && x <= cmd.words && x <= |words|
    ensures Entries(cmd, words, parts, translate, 0) == Entries(cmd, words, parts, translate, x)
  {
    hide Entries;
    if x > 0 {
      assert Plays(cmd, words, parts, translate, x - 1);
      EntriesNext(cmd, words, parts, translate, x - 1);
      NothingOfCommand(cmd, words, parts, translate, x - 1);
    }
  }

  /** A line that is explained binds the entries of its words, in their order. */
  lemma WholeLine(cmd: Command, words: seq<Word>, parts: seq<Part>, translate: Translator)
    requires Explains(cmd, words, parts, translate)
    ensures var r := Bind(cmd, WordsFrom(words, cmd.words), 0, translate);
            r.Bound? && r.bindings == Entries(cmd, words, parts, translate, 0)
  {
    hide Bind, Entries, Explains;
    if cmd.words <= |words| {
      CommandFirst(cmd, words, parts, translate);
      BindFollows(cmd, words, parts, translate, cmd.words);
      NothingOfCommand(cmd, words, parts, translate, cmd.words);
    } else {
      NothingOfCommand(cmd, words, parts, translate, |words|);
      NoEntries(cmd, words, parts, translate);
      BindsNone(cmd, words, 0, translate);
    }
  }

  lemma CommandFirst(cmd: Command, words: seq<Word>, parts: seq<Part>, translate: Translator)
    requires Explains(cmd, words, parts, translate) && cmd.words <= |words|
    ensures |parts| == |words| && StartsAt(cmd, parts, cmd.words) && Taken(parts, cmd.words) == 0
  {
    TakenBound(cmd, words, parts, translate, cmd.words);
    if cmd.words > 0 { assert Plays(cmd, words, parts, translate, cmd.words - 1); }
  }

  /** The reference accepts the words of exactly the lines that can be explained. */
  lemma BoundIffExplained(cmd: Command, words: seq<Word>, translate: Translator)
    ensures Bind(cmd, WordsFrom(words, cmd.words), 0, translate).Bound?
       <==> exists parts :: Explains(cmd, words, parts, translate)
  {
    hide Bind, Explains, Entries;
    if parts :| Explains(cmd, words, parts, translate) { WholeLine(cmd, words, parts, translate); }
    if Bind(cmd, WordsFrom(words, cmd.words), 0, translate).Bound? {
      var n := if cmd.words < |words| then cmd.words else |words|;
      var parts := seq(n, _ => OfCommand);
      OnlyCommand(cmd, words, parts, translate);
      if n == |words| {
        AllOfCommand(cmd, words, parts, translate);
      } else {
        var full := PartsExist(cmd, words, parts, translate);
      }
    }
  }

  lemma OnlyCommand(cmd: Command, words: seq<Word>, parts: seq<Part>, translate: Translator)
    requires |parts| <= cmd.words && |parts| <= |words| && forall y :: 0 <= y < |parts| ==> parts[y] == OfCommand
    ensures forall y :: 0 <= y < |parts| ==> Plays(cmd, words, parts, translate, y)
    ensures Taken(parts, |parts|) == 0 && (|parts| == cmd.words ==> StartsAt(cmd, parts, |parts|))
  {
    hide Positionals;
    TakenBound(cmd, words, parts, translate, |parts|);
  }

  lemma AllOfCommand(cmd: Command, words: seq<Word>, parts: seq<Part>, translate: Translator)
    requires |parts| == |words| && forall y :: 0 <= y < |parts| ==> Plays(cmd, words, parts, translate, y)
    requires forall y :: 0 <= y < |parts| ==> parts[y] == OfCommand
    ensures Explains(cmd, words, parts, translate)
  {}

  /** The one entry of that name has that value. */
  predicate OnlyEntry(table: seq<Entry>, name: string, v: Option<string>) {
    exists i :: 0 <= i < |table| && table[i].param.name == name && table[i].value == v
                && forall j :: 0 <= j < |table| && j != i ==> table[j].param.name != name
  }

  predicate NoEntry(table: seq<Entry>, name: string) {
    forall j :: 0 <= j < |table| ==> table[j].param.name != name
  }

  lemma LookupIs(table: seq<Entry>, name: string)
    requires Distinct(table)
    ensures Lookup(table, name).None? <==> NoEntry(table, name)
    ensures forall v :: Lookup(table, name) == Some(v) ==> OnlyEntry(table, name, v)
    ensures HasName(table, name) <==> Lookup(table, name).Some?
  {
    var i := Position(table, name);
    forall j | 0 <= j < |table| && j != i ensures table[j].param.name != name {
      assert i < j ==> table[i].param.name != table[j].param.name;
    }
  }

  /** What the line and the defaults put under a name. */
  lemma PutUnder(cmd: Command, words: seq<Word>, parts: seq<Part>, translate: Translator, table: seq<Entry>,
                 name: string)
    requires TypedDefaults(cmd) && Explains(cmd, words, parts, translate)
    requires table == PutAll(PutAll([], Defaults(cmd.params, translate)), Entries(cmd, words, parts, translate, 0))
    ensures Distinct(table)
    ensures Lookup(table, name)
         == Last(Entries(cmd, words, parts, translate, 0), name, Last(Defaults(cmd.params, translate), name, None))
  {
    hide Explains, Entries, PutAll, Defaults;
    LookupNothing(name);
    PutAllGives([], Defaults(cmd.params, translate), name);
    PutAllGives(PutAll([], Defaults(cmd.params, translate)), Entries(cmd, words, parts, translate, 0), name);
  }

  /** A table holds for a name what the last word that binds it says, or else what the
      last default of that name is, or else nothing. */
  lemma TableHolds(cmd: Command, words: seq<Word>, parts: seq<Part>, translate: Translator, name: string)
    requires TypedDefaults(cmd) && Explains(cmd, words, parts, translate) && Table(cmd, words, translate).Some?
    ensures var table := Table(cmd, words, translate).value;
            && (forall x :: 0 <= x < |words| && LastBoundAt(cmd, words, parts, translate, name, x) ==>
                  OnlyEntry(table, name, EntryOf(cmd, words, parts, translate, x).value.value))
            && (Unbound(cmd, words, parts, translate, name) ==>
                  && (NoDefault(cmd.params, name) ==> NoEntry(table, name))
                  && forall q :: 0 <= q < |cmd.params| && LastDefaultAt(cmd.params, name, q) ==>
                       cmd.params[q] in cmd.params && OnlyEntry(table, name, DefaultOf(cmd.params[q], translate)))
  {
    hide Explains, Entries, PutAll, Defaults, Bind, EntryOf, Lookup, Last, OnlyEntry, NoEntry, DefaultOf, Table;
    hide Distinct, HasName, LastBoundAt, LastDefaultAt, NoDefault;
    var table := Table(cmd, words, translate).value;
    WholeLine(cmd, words, parts, translate);
    TableIs(cmd, words, translate);
    PutUnder(cmd, words, parts, translate, table, name);
    LookupIs(table, name);
    LastDefault(cmd.params, translate, name, None);
    LastWord(cmd, words, parts, translate, name, Last(Defaults(cmd.params, translate), name, None), 0);
  }

  lemma TableIs(cmd: Command, words: seq<Word>, translate: Translator)
    requires TypedDefaults(cmd) && Table(cmd, words, translate).Some?
    ensures var r := Bind(cmd, WordsFrom(words, cmd.words), 0, translate);
            && r.Bound?
            && Table(cmd, words, translate).value == PutAll(PutAll([], Defaults(cmd.params, translate)), r.bindings)
  {
    hide Bind, PutAll, Defaults, Positionals, HasName;
  }

  /** A name is in the table if and only if a word binds it or it has a default. */
  lemma InTable(cmd: Command, words: seq<Word>, parts: seq<Part>, translate: Translator, table: seq<Entry>,
                name: string)
    requires TypedDefaults(cmd) && Explains(cmd, words, parts, translate)
    requires table == PutAll(PutAll([], Defaults(cmd.params, translate)), Entries(cmd, words, parts, translate, 0))
    ensures HasName(table, name)
       <==> !Unbound(cmd, words, parts, translate, name) || !NoDefault(cmd.params, name)
  {
    hide Explains, Entries, PutAll, Defaults, Bind, EntryOf, Lookup, Last, OnlyEntry, NoEntry, DefaultOf, Positionals;
    hide Distinct, HasName, BoundAt, DefaultAt;
    PutUnder(cmd, words, parts, translate, table, name);
    LookupIs(table, name);
    LastDefault(cmd.params, translate, name, None);
    var before := Last(Defaults(cmd.params, translate), name, None);
    LastWord(cmd, words, parts, translate, name, before, 0);
    if !Unbound(cmd, words, parts, translate, name) {
      var x := FindLastBound(cmd, words, parts, translate, name);
    } else if !NoDefault(cmd.params, name) {
      var q := FindLastDefault(cmd.params, name);
    }
  }

  lemma FindLastBound(cmd: Command, words: seq<Word>, parts: seq<Part>, translate: Translator, name: string)
    returns (x: nat)
    requires Explains(cmd, words, parts, translate) && !Unbound(cmd, words, parts, translate, name)
    ensures x < |words| && LastBoundAt(cmd, words, parts, translate, name, x)
  {
    hide BoundAt, Explains;
    x := |words| - 1;
    while !BoundAt(cmd, words, parts, translate, name, x)
      invariant x < |words| && forall z :: x < z < |words| ==> !BoundAt(cmd, words, parts, translate, name, z)
      decreases x
    {
      assert x > 0;
      x := x - 1;
    }
  }

  lemma FindLastDefault(params: seq<Param>, name: string) returns (q: nat)
    requires !NoDefault(params, name)
    ensures q < |params| && LastDefaultAt(params, name, q)
  {
    hide DefaultAt;
    q := |params| - 1;
    while !DefaultAt(params, name, q)
      invariant q < |params| && forall r :: q < r < |params| ==> !DefaultAt(params, name, r)
      decreases q
    {
      assert q > 0;
      q := q - 1;
    }
  }

  /** A line is accepted if and only if every word plays a part and every positional
      parameter is bound or has a default. */
  lemma AcceptedExactly(cmd: Command, words: seq<Word>, translate: Translator)
    requires TypedDefaults(cmd)
    ensures Table(cmd, words, translate).Some? <==>
      exists parts :: Explains(cmd, words, parts, translate)
        && forall q :: 0 <= q < |cmd.params| && TakesWord(cmd.params[q]) ==>
             !Unbound(cmd, words, parts, translate, cmd.params[q].name) || !NoDefault(cmd.params, cmd.params[q].name)
  {
    hide Explains, Unbound, NoDefault, PutAll, Defaults, Bind, Entries, Positionals, HasName;
    BoundIffExplained(cmd, words, translate);
    if parts :| Explains(cmd, words, parts, translate) {
      WholeLine(cmd, words, parts, translate);
      forall other | Explains(cmd, words, other, translate) ensures other == parts {
        PartsAreUnique(cmd, words, parts, other, translate);
      }
      var r := Bind(cmd, WordsFrom(words, cmd.words), 0, translate);
      var table := PutAll(PutAll([], Defaults(cmd.params, translate)), r.bindings);
      forall q | 0 <= q < |cmd.params|
        ensures HasName(table, cmd.params[q].name)
           <==> !Unbound(cmd, words, parts, translate, cmd.params[q].name) || !NoDefault(cmd.params, cmd.params[q].name)
      {
        InTable(cmd, words, parts, translate, table, cmd.params[q].name);
      }
      NamesComplete(cmd, words, translate);
    }
  }

  lemma NamesComplete(cmd: Command, words: seq<Word>, translate: Translator)
    requires TypedDefaults(cmd) && Bind(cmd, WordsFrom(words, cmd.words), 0, translate).Bound?
    ensures var r := Bind(cmd, WordsFrom(words, cmd.words), 0, translate);
            var table := PutAll(PutAll([], Defaults(cmd.params, translate)), r.bindings);
            Table(cmd, words, translate).Some? <==>
              forall q :: 0 <= q < |cmd.params| && TakesWord(cmd.params[q]) ==> HasName(table, cmd.params[q].name)
  {
    hide PutAll, Defaults, Bind, HasName, Positionals;
    var all := Positionals(cmd.params);
    if Table(cmd, words, translate).Some? {
      forall q | 0 <= q < |cmd.params| && TakesWord(cmd.params[q])
        ensures HasName(Table(cmd, words, translate).value, cmd.params[q].name)
      {
        assert cmd.params[q] in cmd.params;
        TableIsComplete(cmd, words, translate, "");
      }
    } else {
      var r := Bind(cmd, WordsFrom(words, cmd.words), 0, translate);
      var table := PutAll(PutAll([], Defaults(cmd.params, translate)), r.bindings);
      var j :| r.used <= j < |all| && !HasName(table, all[j].name);
      assert all[j] in all;
      var q :| 0 <= q < |cmd.params| && cmd.params[q] == all[j];
    }
  }
}
