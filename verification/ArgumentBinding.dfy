/** Binding the words of a line to the parameters of a command. */
module ArgumentBinding {
  import opened CStrings

  /** A parameter; its type is a number here, and what the type does to a value
      is left to the translator. */
  datatype Param = Param(name: string, prefix: Option<string>, ptype: Option<nat>, default: Option<string>)

  /** ucli_ptype_translate: null when the text does not match the type. */
  type Translator = (nat, string) -> Option<string>

  datatype Word = Word(text: string, quoted: bool)

  /** A command: its parameters, the one that takes all the rest, if any, and
      the number of words in its name. */
  datatype Command = Command(params: seq<Param>, args: Option<Param>, words: nat)

  datatype Entry = Entry(param: Param, value: Option<string>)

  // ---------- the reference ----------

  /** The position of the entry for a name, or the length. */
  function Position(table: seq<Entry>, name: string): (i: nat)
    ensures i <= |table| && (i < |table| ==> table[i].param.name == name)
    ensures forall j :: 0 <= j < i ==> table[j].param.name != name
  {
    if table == [] || table[0].param.name == name then 0
    else
      var i := 1 + Position(table[1..], name);
      assert forall j :: 1 <= j < i ==> table[j] == table[1..][j - 1];
      i
  }

  /** A binding replaces the value of its name or adds an entry. */
  function Put(table: seq<Entry>, param: Param, value: Option<string>): seq<Entry> {
    var i := Position(table, param.name);
    if i < |table| then table[i := Entry(table[i].param, value)] else table + [Entry(param, value)]
  }

  function PutAll(table: seq<Entry>, bindings: seq<Entry>): seq<Entry>
    decreases |bindings|
  {
    if bindings == [] then table
    else PutAll(Put(table, bindings[0].param, bindings[0].value), bindings[1..])
  }

  /** The defaults in the order of the parameters; an empty one is not
      translated. */
  function Defaults(params: seq<Param>, translate: Translator): seq<Entry>
    requires forall p :: p in params && p.default.Some? && p.default.value != "" ==> p.ptype.Some?
  {
    if params == [] then []
    else
      var p, rest := params[0], Defaults(params[1..], translate);
      if p.default.None? then rest
      else [Entry(p, if p.default.value == "" then p.default else translate(p.ptype.value, p.default.value))] + rest
  }

  predicate IsPositional(p: Param) {
    p.prefix.None? && p.ptype.Some?
  }

  function Positionals(params: seq<Param>): (r: seq<Param>)
    ensures forall p :: p in r <==> p in params && IsPositional(p)
    ensures |r| <= |params|
  {
    if params == [] then []
    else if IsPositional(params[0]) then [params[0]] + Positionals(params[1..])
    else Positionals(params[1..])
  }

  /** An option goes by its prefix, or without a type by its name. */
  predicate IsOption(p: Param, word: string) {
    if p.ptype.Some? then p.prefix == Some(word) else p.name == word
  }

  predicate FirstOption(params: seq<Param>, word: string, i: nat)
    requires i < |params|
  {
    IsOption(params[i], word) && forall j :: 0 <= j < i ==> !IsOption(params[j], word)
  }

  /** The first option of that name. */
  function FindOption(params: seq<Param>, word: string): (r: Option<Param>)
    ensures r.Some? ==> exists i :: 0 <= i < |params| && params[i] == r.value && FirstOption(params, word, i)
    ensures r.None? ==> forall p :: p in params ==> !IsOption(p, word)
  {
    if params == [] then None
    else if IsOption(params[0], word) then
      assert FirstOption(params, word, 0);
      Some(params[0])
    else
      var r := FindOption(params[1..], word);
      assert r.Some? ==>
        forall i :: 0 <= i < |params[1..]| && FirstOption(params[1..], word, i) ==> FirstOption(params, word, i + 1);
      r
  }

  /** All remaining words in one string, with the quotes they had. */
  function JoinWords(words: seq<Word>): string {
    if words == [] then ""
    else
      (if words[0].quoted then "\"" + words[0].text + "\"" else words[0].text)
      + if |words| == 1 then "" else " " + JoinWords(words[1..])
  }

  /** The bindings, the number of positional parameters used and whether `args`
      took the rest. */
  datatype Bound = Bound(bindings: seq<Entry>, used: nat, tookRest: bool) | BadParam

  function Prepend(e: Entry, r: Bound): Bound {
    if r.Bound? then r.(bindings := [e] + r.bindings) else BadParam
  }

  /** What the words bind, in word order: an option takes the next word, a flag
      none, and the k-th other word goes to the k-th positional parameter; when
      these are used up, `args` takes all the rest. */
  function Bind(cmd: Command, words: seq<Word>, k: nat, translate: Translator): (r: Bound)
    requires k <= |Positionals(cmd.params)|
    ensures r.Bound? ==> k <= r.used <= |Positionals(cmd.params)|
    ensures r.Bound? && r.tookRest ==> cmd.args.Some? && r.used == |Positionals(cmd.params)|
    decreases |words|
  {
    if words == [] then Bound([], k, false)
    else
      var option := FindOption(cmd.params, words[0].text);
      if option.Some? then
        var p := option.value;
        if p.ptype.None? then Prepend(Entry(p, None), Bind(cmd, words[1..], k, translate))
        else if |words| == 1 then BadParam
        else
          var v := translate(p.ptype.value, words[1].text);
          if v.None? then BadParam else Prepend(Entry(p, v), Bind(cmd, words[2..], k, translate))
      else if k < |Positionals(cmd.params)| then
        var p := Positionals(cmd.params)[k];
        assert p in Positionals(cmd.params);
        var v := translate(p.ptype.value, words[0].text);
        if v.None? then BadParam else Prepend(Entry(p, v), Bind(cmd, words[1..], k + 1, translate))
      else if cmd.args.Some? then Bound([Entry(cmd.args.value, Some(JoinWords(words)))], k, true)
      else BadParam
  }

  predicate HasName(table: seq<Entry>, name: string) {
    Position(table, name) < |table|
  }

  function WordsFrom(words: seq<Word>, i: nat): seq<Word> {
    if i < |words| then words[i..] else []
  }

  /** The table a line binds: the defaults, overridden in word order, and every
      positional parameter behind the last one used must have a value. */
  function Table(cmd: Command, words: seq<Word>, translate: Translator): Option<seq<Entry>>
    requires forall p :: p in cmd.params && p.default.Some? && p.default.value != "" ==> p.ptype.Some?
  {
    var r := Bind(cmd, WordsFrom(words, cmd.words), 0, translate);
    if r.BadParam? then None
    else
      var table := PutAll(PutAll([], Defaults(cmd.params, translate)), r.bindings);
      if exists j :: r.used <= j < |Positionals(cmd.params)| && !HasName(table, Positionals(cmd.params)[j].name)
      then None else Some(table)
  }

  // ---------- what the reference gives ----------

  predicate Distinct(table: seq<Entry>) {
    forall i, j :: 0 <= i < j < |table| ==> table[i].param.name != table[j].param.name
  }

  /** The value bound last to a name. */
  function Last(bindings: seq<Entry>, name: string, before: Option<Option<string>>): Option<Option<string>>
    decreases |bindings|
  {
    if bindings == [] then before
    else Last(bindings[1..], name, if bindings[0].param.name == name then Some(bindings[0].value) else before)
  }

  function Lookup(table: seq<Entry>, name: string): Option<Option<string>> {
    var i := Position(table, name);
    if i < |table| then Some(table[i].value) else None
  }

  lemma PutKeeps(table: seq<Entry>, param: Param, value: Option<string>, name: string)
    requires Distinct(table)
    ensures var t := Put(table, param, value);
            && Distinct(t) && Lookup(t, name) == if param.name == name then Some(value) else Lookup(table, name)
  {
    var t, i, b := Put(table, param, value), Position(table, param.name), Position(table, name);
    assert forall j :: 0 <= j < |table| ==> t[j].param.name == table[j].param.name;
    if b < |table| || (i == |table| && param.name == name) {
      PositionIs(t, name, b);
    } else {
      PositionIs(t, name, |t|);
    }
  }

  lemma PositionIs(table: seq<Entry>, name: string, i: nat)
    requires i <= |table| && (i < |table| ==> table[i].param.name == name)
    requires forall j :: 0 <= j < i ==> table[j].param.name != name
    ensures Position(table, name) == i
  {}

  /** Names in the table are distinct and carry what was bound to them last. */
  lemma {:induction false} PutAllGives(table: seq<Entry>, bindings: seq<Entry>, name: string)
    requires Distinct(table)
    ensures Distinct(PutAll(table, bindings))
    ensures Lookup(PutAll(table, bindings), name) == Last(bindings, name, Lookup(table, name))
    decreases |bindings|
  {
    hide Put, Distinct, Lookup;
    if bindings != [] {
      PutKeeps(table, bindings[0].param, bindings[0].value, name);
      PutAllGives(Put(table, bindings[0].param, bindings[0].value), bindings[1..], name);
    }
  }

  lemma {:induction false} PutAllMore(table: seq<Entry>, bindings: seq<Entry>, e: Entry)
    ensures PutAll(table, bindings + [e]) == Put(PutAll(table, bindings), e.param, e.value)
    decreases |bindings|
  {
    hide Put;
    var all := bindings + [e];
    if bindings != [] {
      assert all[1..] == bindings[1..] + [e];
      PutAllMore(Put(table, bindings[0].param, bindings[0].value), bindings[1..], e);
    } else {
      assert all[1..] == [];
    }
  }

  // ---------- the room in the table ----------

  function Names(params: seq<Param>): set<string> {
    set p | p in params :: p.name
  }

  lemma {:induction false} NamesBound(params: seq<Param>)
    ensures |Names(params)| <= |params|
  {
    if params != [] {
      NamesBound(params[1..]);
      assert Names(params) == {params[0].name} + Names(params[1..]);
    }
  }

  /** ucli_pargv_new makes room for as many entries as there are words or
      parameters, whichever are more. */
  function Room(cmd: Command, words: seq<Word>): nat {
    if |words| < |cmd.params| then |cmd.params| else |words|
  }

  predicate TypedDefaults(cmd: Command) {
    forall p :: p in cmd.params && p.default.Some? && p.default.value != "" ==> p.ptype.Some?
  }

  function EntryNames(table: seq<Entry>): set<string> {
    set e | e in table :: e.param.name
  }

  /** A line overflows its table when it comes to `args`, whose name no parameter
      has, after every parameter has an entry of its own from a default or from
      the line, and has no more words than there are parameters. */
  predicate Overflows(cmd: Command, words: seq<Word>, translate: Translator) {
    var r := Bind(cmd, WordsFrom(words, cmd.words), 0, translate);
    && r.Bound? && r.tookRest && cmd.args.value.name !in Names(cmd.params)
    && |words| <= |cmd.params| == |Names(cmd.params)|
    && forall p :: p in cmd.params ==> p.default.Some? || p.name in EntryNames(r.bindings)
  }

  lemma NoNames()
    ensures EntryNames([]) == {}
  {}

  lemma PutNames(table: seq<Entry>, param: Param, value: Option<string>)
    ensures EntryNames(Put(table, param, value)) == EntryNames(table) + {param.name}
  {
    var t, i := Put(table, param, value), Position(table, param.name);
    forall j | 0 <= j < |table| ensures t[j].param.name == table[j].param.name {}
    forall n | n in EntryNames(table) ensures n in EntryNames(t) {
      var j :| 0 <= j < |table| && table[j].param.name == n;
      assert t[j] in t;
    }
    assert t[i] in t && t[i].param.name == param.name;
  }

  lemma {:induction false} PutAllNames(table: seq<Entry>, bindings: seq<Entry>)
    ensures EntryNames(PutAll(table, bindings)) == EntryNames(table) + EntryNames(bindings)
    decreases |bindings|
  {
    hide Put;
    if bindings != [] {
      PutNames(table, bindings[0].param, bindings[0].value);
      PutAllNames(Put(table, bindings[0].param, bindings[0].value), bindings[1..]);
      assert EntryNames(bindings) == {bindings[0].param.name} + EntryNames(bindings[1..]);
    }
  }

  lemma {:induction false} DistinctSize(table: seq<Entry>)
    requires Distinct(table)
    ensures |EntryNames(table)| == |table|
    decreases |table|
  {
    if table != [] {
      var n := |table| - 1;
      DistinctSize(table[..n]);
      assert table[n] !in table[..n];
      assert EntryNames(table) == EntryNames(table[..n]) + {table[n].param.name};
    }
  }

  lemma {:induction false} DefaultNames(params: seq<Param>, translate: Translator)
    requires forall p :: p in params && p.default.Some? && p.default.value != "" ==> p.ptype.Some?
    ensures EntryNames(Defaults(params, translate)) <= Names(params)
    ensures forall p :: p in params && p.default.Some? ==> p.name in EntryNames(Defaults(params, translate))
  {
    if params != [] {
      var all, rest := Defaults(params, translate), Defaults(params[1..], translate);
      DefaultNames(params[1..], translate);
      assert Names(params) == {params[0].name} + Names(params[1..]);
      assert EntryNames(all) == if params[0].default.None? then EntryNames(rest)
                                else {params[0].name} + EntryNames(rest) by {
        if params[0].default.Some? { assert all[1..] == rest && all[0].param == params[0]; }
      }
    }
  }

  /** When the parameters have different names an entry that a default made is
      the default of its own parameter. */
  lemma {:induction false} DefaultNamed(params: seq<Param>, translate: Translator, p: Param)
    requires forall p :: p in params && p.default.Some? && p.default.value != "" ==> p.ptype.Some?
    requires |Names(params)| == |params| && p in params && p.name in EntryNames(Defaults(params, translate))
    ensures p.default.Some?
  {
    var all, rest := Defaults(params, translate), Defaults(params[1..], translate);
    NamesBound(params[1..]);
    DefaultNames(params[1..], translate);
    assert Names(params) == {params[0].name} + Names(params[1..]);
    assert params[0].name !in Names(params[1..]) && |Names(params[1..])| == |params[1..]|;
    if p != params[0] {
      assert p in params[1..] && p.name in Names(params[1..]);
      assert p.name in EntryNames(rest) by {
        if params[0].default.Some? { assert all[1..] == rest && all[0].param == params[0]; }
      }
      DefaultNamed(params[1..], translate, p);
    }
  }

  /** What a line binds: parameters of the command, and `args` if it took the
      rest. */
  lemma {:induction false} BindNames(cmd: Command, words: seq<Word>, k: nat, translate: Translator)
    requires k <= |Positionals(cmd.params)|
    ensures var r := Bind(cmd, words, k, translate);
            r.Bound? ==>
            && EntryNames(r.bindings) <= Names(cmd.params) + (if r.tookRest then {cmd.args.value.name} else {})
            && (r.tookRest ==> cmd.args.value.name in EntryNames(r.bindings))
    decreases |words|
  {
    hide Positionals, FindOption, JoinWords;
    if words != [] {
      var r, option := Bind(cmd, words, k, translate), FindOption(cmd.params, words[0].text);
      if option.Some? {
        var n := if option.value.ptype.None? then 1 else 2;
        if n <= |words| {
          BindNames(cmd, words[n..], k, translate);
          PrependNames(cmd, r, Bind(cmd, words[n..], k, translate));
        }
      } else if k < |Positionals(cmd.params)| {
        assert Positionals(cmd.params)[k] in Positionals(cmd.params);
        BindNames(cmd, words[1..], k + 1, translate);
        PrependNames(cmd, r, Bind(cmd, words[1..], k + 1, translate));
      } else if cmd.args.Some? {
        assert r.bindings[0] in r.bindings;
      }
    }
  }

  lemma PrependNames(cmd: Command, r: Bound, rest: Bound)
    requires r.Bound? ==> r.bindings != [] && r == Prepend(r.bindings[0], rest) && r.bindings[0].param in cmd.params
    ensures r.Bound? ==> rest.Bound? && EntryNames(r.bindings) == {r.bindings[0].param.name} + EntryNames(rest.bindings)
    ensures r.Bound? ==> r.bindings[0].param.name in Names(cmd.params) && r.tookRest == rest.tookRest
  {
    if r.Bound? { assert r.bindings[1..] == rest.bindings; }
  }

  lemma AllNamed(params: seq<Param>, names: set<string>)
    ensures Names(params) <= names <==> forall p :: p in params ==> p.name in names
  {
    if Names(params) <= names {
      forall p | p in params ensures p.name in names { assert p.name in Names(params); }
    }
  }

  lemma {:induction false} Subset(a: set<string>, b: set<string>)
    requires a <= b
    ensures |a| <= |b| && (|a| == |b| ==> a == b)
  {
    if x :| x in a { Subset(a - {x}, b - {x}); }
  }

  /** The number of entries, for a line accepted or not. */
  lemma BoundFits(cmd: Command, words: seq<Word>, translate: Translator)
    requires TypedDefaults(cmd)
    requires Bind(cmd, WordsFrom(words, cmd.words), 0, translate).Bound?
    ensures var r := Bind(cmd, WordsFrom(words, cmd.words), 0, translate);
            var size := |PutAll(PutAll([], Defaults(cmd.params, translate)), r.bindings)|;
            if Overflows(cmd, words, translate) then size == Room(cmd, words) + 1 else size <= Room(cmd, words)
  {
    hide Bind, PutAll, Defaults, Names, EntryNames, WordsFrom;
    var r := Bind(cmd, WordsFrom(words, cmd.words), 0, translate);
    EntriesNamed(Defaults(cmd.params, translate), r.bindings);
    DefaultNames(cmd.params, translate);
    BindNames(cmd, WordsFrom(words, cmd.words), 0, translate);
    NamesBound(cmd.params);
    var names, all := EntryNames(Defaults(cmd.params, translate)) + EntryNames(r.bindings), Names(cmd.params);
    if r.tookRest && cmd.args.value.name !in all {
      var ours := names - {cmd.args.value.name};
      assert names == ours + {cmd.args.value.name};
      Subset(ours, all);
      AllNamed(cmd.params, names);
      if |all| == |cmd.params| { AllEntered(cmd, r.bindings, translate); }
      assert ours == all <==> all <= names;
    } else {
      Subset(names, all);
    }
  }

  /** The names in the table are the names of the defaults and of what the line
      binds, each once. */
  lemma EntriesNamed(defaults: seq<Entry>, bindings: seq<Entry>)
    ensures |PutAll(PutAll([], defaults), bindings)| == |EntryNames(defaults) + EntryNames(bindings)|
  {
    hide PutAll, EntryNames;
    PutAllGives([], defaults, "");
    PutAllGives(PutAll([], defaults), bindings, "");
    PutAllNames([], defaults);
    PutAllNames(PutAll([], defaults), bindings);
    NoNames();
    DistinctSize(PutAll(PutAll([], defaults), bindings));
    assert {} + EntryNames(defaults) == EntryNames(defaults);
  }

  /** When the parameters have different names, all of them are among the names
      exactly if each has a default or is bound by the line. */
  lemma AllEntered(cmd: Command, bindings: seq<Entry>, translate: Translator)
    requires TypedDefaults(cmd) && |Names(cmd.params)| == |cmd.params|
    ensures Names(cmd.params) <= EntryNames(Defaults(cmd.params, translate)) + EntryNames(bindings)
       <==> forall p :: p in cmd.params ==> p.default.Some? || p.name in EntryNames(bindings)
  {
    hide Defaults, EntryNames, Names;
    AllNamed(cmd.params, EntryNames(Defaults(cmd.params, translate)) + EntryNames(bindings));
    DefaultNames(cmd.params, translate);
    forall p | p in cmd.params && p.name in EntryNames(Defaults(cmd.params, translate)) ensures p.default.Some? {
      DefaultNamed(cmd.params, translate, p);
    }
  }

  /** Exactly the lines that overflow bind more entries than there is room for,
      and they bind one more. */
  lemma OverflowsExactly(cmd: Command, words: seq<Word>, translate: Translator)
    requires TypedDefaults(cmd)
    ensures var table := Table(cmd, words, translate);
            && (Overflows(cmd, words, translate) <==> table.Some? && |table.value| > Room(cmd, words))
            && (Overflows(cmd, words, translate) ==> |table.value| == Room(cmd, words) + 1)
  {
    hide Bind, PutAll, Defaults, Names, EntryNames, Overflows;
    var r := Bind(cmd, WordsFrom(words, cmd.words), 0, translate);
    if r.Bound? { BoundFits(cmd, words, translate); }
    OverflowsMeans(cmd, words, translate);
  }

  lemma OverflowsMeans(cmd: Command, words: seq<Word>, translate: Translator)
    requires TypedDefaults(cmd)
    ensures Overflows(cmd, words, translate) ==> Table(cmd, words, translate).Some?
    ensures Table(cmd, words, translate).Some? ==> Bind(cmd, WordsFrom(words, cmd.words), 0, translate).Bound?
  {
    hide Bind, PutAll, Defaults, Names, EntryNames, Positionals;
  }

  /** Two options with defaults, and a line of two words whose second one is left
      to `args`, bind three entries in room for two. */
  lemma TooManyEntries(translate: Translator)
    ensures var a, b := Param("a", Some("-a"), Some(0), Some("")), Param("b", Some("-b"), Some(0), Some(""));
            var cmd := Command([a, b], Some(Param("rest", None, Some(0), None)), 1);
            var words := [Word("cmd", false), Word("x", false)];
            var table := Table(cmd, words, translate);
            Overflows(cmd, words, translate) && table.Some? && |table.value| == 3 > Room(cmd, words)
  {
    var a, b := Param("a", Some("-a"), Some(0), Some("")), Param("b", Some("-b"), Some(0), Some(""));
    var rest := Param("rest", None, Some(0), None);
    var cmd := Command([a, b], Some(rest), 1);
    var words := [Word("cmd", false), Word("x", false)];
    var last := [Entry(rest, Some("x"))];
    assert words[1..] == [Word("x", false)] && [a, b][1..] == [b];
    assert Bind(cmd, words[1..], 0, translate) == Bound(last, 0, true) by {
      assert Positionals([a, b]) == [] by { assert Positionals([b]) == []; }
      assert FindOption([a, b], "x") == None by { assert FindOption([b], "x") == None; }
      assert JoinWords(words[1..]) == "x" + "" == "x";
    }
    assert Names([a, b]) == {"a", "b"} by { assert [a, b][0] == a && [a, b][1] == b; }
    assert |{"a", "b"}| == 2;
    OverflowsExactly(cmd, words, translate);
  }

  // ---------- the code ----------

  class Pargv {
    const pargs: array<Entry>
    var pargc: nat

    ghost predicate Valid()
      reads this
    {
      pargc <= pargs.Length
    }

    ghost function Entries(): seq<Entry>
      requires Valid()
      reads this, pargs
    {
      pargs[..pargc]
    }

    constructor (cmd: Command, words: seq<Word>)
      ensures Valid() && Entries() == [] && fresh(pargs) && pargs.Length == Room(cmd, words)
    {
      pargs := new Entry[Room(cmd, words)](_ => Entry(Param("", None, None, None), None));
      pargc := 0;
    }

    /** find_parg, as an index; `pargc` stands for null. */
    method FindParg(name: string) returns (i: nat)
      requires Valid()
      ensures i == Position(Entries(), name) && (i < pargc <==> HasName(Entries(), name))
    {
      i := 0;
      while i < pargc && pargs[i].param.name != name
        invariant 0 <= i <= pargc && forall j :: 0 <= j < i ==> pargs[j].param.name != name
      {
        i := i + 1;
      }
      assert forall j :: 0 <= j < pargc ==> Entries()[j] == pargs[j];
      PositionIs(Entries(), name, i);
    }

    method InsertParg(param: Param, value: Option<string>)
      requires Valid() && (HasName(Entries(), param.name) || pargc < pargs.Length)
      modifies this, pargs
      ensures Valid() && Entries() == Put(old(Entries()), param, value)
    {
      var i := FindParg(param.name);
      if i < pargc {
        pargs[i] := Entry(pargs[i].param, value);
      } else {
        pargs[pargc] := Entry(param, value);
        pargc := pargc + 1;
      }
    }
  }

  /** The names in the table are distinct and come from the parameters. */
  ghost predicate HasRoom(table: seq<Entry>, cmd: Command) {
    Distinct(table) && EntryNames(table) <= Names(cmd.params)
  }

  /** One more binding of a parameter finds room and leaves room. */
  lemma RoomForNext(table: seq<Entry>, cmd: Command, e: Entry, words: seq<Word>)
    requires HasRoom(table, cmd) && e.param in cmd.params
    ensures HasName(table, e.param.name) || |table| < Room(cmd, words)
    ensures HasRoom(Put(table, e.param, e.value), cmd)
  {
    hide Put, Distinct;
    PutKeeps(table, e.param, e.value, e.param.name);
    PutNames(table, e.param, e.value);
    if !HasName(table, e.param.name) {
      var names := EntryNames(table);
      assert e.param.name !in names;
      DistinctSize(table);
      Subset(names + {e.param.name}, Names(cmd.params));
      NamesBound(cmd.params);
    }
  }

  /** And so does `args`, where the line does not overflow. */
  lemma RoomForArgs(table: seq<Entry>, cmd: Command, e: Entry, words: seq<Word>)
    requires |PutAll(table, [e])| <= Room(cmd, words)
    ensures HasName(table, e.param.name) || |table| < Room(cmd, words)
    ensures PutAll(table, [e]) == Put(table, e.param, e.value)
  {
    assert [e][1..] == [];
  }

  /** The parameters a raw index has still in front of it. */
  function Ahead(params: seq<Param>, index: nat): seq<Param> {
    Positionals(if index < |params| then params[index..] else [])
  }

  /** ucli_command_next_non_option */
  method NextNonOption(params: seq<Param>, index: nat) returns (param: Option<Param>, next: nat)
    ensures if Ahead(params, index) == [] then param == None && Ahead(params, next) == []
            else param == Some(Ahead(params, index)[0]) && Ahead(params, next) == Ahead(params, index)[1..]
    ensures next > index && (param.Some? ==> next <= |params|)
  {
    next := index;
    while next < |params| && !IsPositional(params[next])
      invariant index <= next && Ahead(params, next) == Ahead(params, index)
    {
      assert params[next..][1..] == params[next + 1..];
      next := next + 1;
    }
    if next < |params| {
      assert params[next..][1..] == params[next + 1..];
      param := Some(params[next]);
    } else {
      param := None;
    }
    next := next + 1;
  }

  method SetDefaults(pargv: Pargv, cmd: Command, translate: Translator, ghost words: seq<Word>)
    requires pargv.Valid() && pargv.Entries() == [] && pargv.pargs.Length == Room(cmd, words)
    requires TypedDefaults(cmd)
    modifies pargv, pargv.pargs
    ensures pargv.Valid() && pargv.Entries() == PutAll([], Defaults(cmd.params, translate))
    ensures HasRoom(pargv.Entries(), cmd)
  {
    hide Put, HasRoom, Names;
    var index := 0;
    EmptyHasRoom(cmd);
    while index < |cmd.params|
      invariant 0 <= index <= |cmd.params| && pargv.Valid() && HasRoom(pargv.Entries(), cmd)
      invariant PutAll(pargv.Entries(), Defaults(cmd.params[index..], translate))
             == PutAll([], Defaults(cmd.params, translate))
    {
      var param := cmd.params[index];
      assert cmd.params[index..][0] == param && cmd.params[index..][1..] == cmd.params[index + 1..];
      if param.default.Some? {
        var value := if param.default.value == "" then param.default
                     else translate(param.ptype.value, param.default.value);
        ghost var e := Entry(param, value);
        RoomForNext(pargv.Entries(), cmd, e, words);
        PutFirst(pargv.Entries(), e, Defaults(cmd.params[index + 1..], translate));
        pargv.InsertParg(param, value);
      }
      index := index + 1;
    }
  }

  lemma EmptyHasRoom(cmd: Command)
    ensures HasRoom([], cmd)
  {}

  lemma PutFirst(table: seq<Entry>, e: Entry, rest: seq<Entry>)
    ensures PutAll(table, [e] + rest) == PutAll(Put(table, e.param, e.value), rest)
  {
    assert ([e] + rest)[1..] == rest;
  }

  /** What the word at `i` binds, with the words it takes. */
  method NextBinding(cmd: Command, argv: seq<Word>, i: nat, index: nat, ghost k: nat, translate: Translator)
    returns (e: Option<Entry>, i': nat, index': nat, ghost k': nat, ghost rest: bool)
    requires i < |argv|
    requires k <= |Positionals(cmd.params)| && Ahead(cmd.params, index) == Positionals(cmd.params)[k..]
    ensures i < i' && k <= k' <= |Positionals(cmd.params)|
    ensures Ahead(cmd.params, index') == Positionals(cmd.params)[k'..]
    ensures Bind(cmd, WordsFrom(argv, i), k, translate)
         == if e.None? then BadParam
            else if rest then Bound([e.value], k', true)
            else Prepend(e.value, Bind(cmd, WordsFrom(argv, i'), k', translate))
    ensures e.Some? ==> if rest then i' == |argv| else e.value.param in cmd.params
  {
    hide FindOption, Positionals, JoinWords;
    var arg := argv[i].text;
    assert argv[i..][0] == argv[i] && argv[i..][1..] == WordsFrom(argv, i + 1);
    e, i', index', k', rest := None, i + 1, index, k, false;
    var param, value := FindOption(cmd.params, arg), None;
    if param.Some? {
      if param.value.ptype.Some? {
        i' := i + 2;
        if i + 1 == |argv| { return; }
        assert argv[i..][2..] == WordsFrom(argv, i + 2) && argv[i..][1] == argv[i + 1];
        value := translate(param.value.ptype.value, argv[i + 1].text);
        if value.None? { return; }
      }
    } else {
      param, index' := NextNonOption(cmd.params, index);
      if param.Some? {
        assert Positionals(cmd.params)[k..][0] == Positionals(cmd.params)[k];
        assert Positionals(cmd.params)[k] in Positionals(cmd.params);
        assert Positionals(cmd.params)[k..][1..] == Positionals(cmd.params)[k + 1..];
        k' := k + 1;
        value := translate(param.value.ptype.value, arg);
        if value.None? { return; }
      } else {
        if cmd.args.None? { return; }
        var args;
        args, i' := TakeRest(argv, i);
        param, value, rest := cmd.args, Some(args), true;
      }
    }
    e := Some(Entry(param.value, value));
    assert [e.value] + [] == [e.value];
  }

  /** The word at `i`, bound. */
  method BindNext(pargv: Pargv, cmd: Command, argv: seq<Word>, i: nat, index: nat, ghost k: nat, translate: Translator)
    returns (ok: bool, i': nat, index': nat, ghost k': nat)
    requires pargv.Valid() && i < |argv| && HasRoom(pargv.Entries(), cmd)
    requires pargv.pargs.Length == Room(cmd, argv)
    requires k <= |Positionals(cmd.params)| && Ahead(cmd.params, index) == Positionals(cmd.params)[k..]
    requires var r := Bind(cmd, WordsFrom(argv, i), k, translate);
             r.Bound? ==> |PutAll(pargv.Entries(), r.bindings)| <= Room(cmd, argv)
    modifies pargv, pargv.pargs
    ensures pargv.Valid() && i < i' && k <= k' <= |Positionals(cmd.params)|
    ensures Ahead(cmd.params, index') == Positionals(cmd.params)[k'..]
    ensures var r := Bind(cmd, WordsFrom(argv, i), k, translate);
            if ok then
              var rest := Bind(cmd, WordsFrom(argv, i'), k', translate);
              && (i' < |argv| ==> HasRoom(pargv.Entries(), cmd))
              && (r.Bound? <==> rest.Bound?)
              && (r.Bound? ==> r.used == rest.used)
              && (r.Bound? ==> PutAll(old(pargv.Entries()), r.bindings) == PutAll(pargv.Entries(), rest.bindings))
            else r.BadParam?
  {
    hide Put, PutAll, HasRoom, Positionals, Bind;
    var e;
    ghost var takesRest;
    e, i', index', k', takesRest := NextBinding(cmd, argv, i, index, k, translate);
    ok := e.Some?;
    if ok {
      ghost var rest := Bind(cmd, WordsFrom(argv, i'), k', translate);
      if takesRest {
        RoomForArgs(pargv.Entries(), cmd, e.value, argv);
        BindNothing(cmd, k', translate, Put(pargv.Entries(), e.value.param, e.value.value));
      } else {
        RoomForNext(pargv.Entries(), cmd, e.value, argv);
        if rest.Bound? { PutFirst(pargv.Entries(), e.value, rest.bindings); }
      }
      pargv.InsertParg(e.value.param, e.value.value);
    }
  }

  /** The loop that puts all remaining words into one string. */
  method TakeRest(argv: seq<Word>, i: nat) returns (args: string, i': nat)
    requires i < |argv|
    ensures i' == |argv| && args == JoinWords(argv[i..])
  {
    hide JoinWords;
    args, i' := "", i;
    while i' < |argv|
      invariant i <= i' <= |argv|
      invariant args + Joined(argv, i') == JoinWords(argv[i..])
    {
      var word := argv[i'];
      JoinNext(argv, i');
      args := args + Piece(word);
      i' := i' + 1;
      if i' < |argv| { args := args + " "; }
    }
  }

  function Piece(word: Word): string {
    if word.quoted then "\"" + word.text + "\"" else word.text
  }

  function Joined(words: seq<Word>, i: nat): string {
    if i < |words| then JoinWords(words[i..]) else ""
  }

  lemma JoinNext(words: seq<Word>, i: nat)
    requires i < |words|
    ensures Joined(words, i) == Piece(words[i]) + (if i + 1 < |words| then " " else "") + Joined(words, i + 1)
  {
    assert words[i..][0] == words[i] && words[i..][1..] == words[i + 1..];
  }

  /** ucli_pargv_init */
  method Init(pargv: Pargv, cmd: Command, argv: seq<Word>, translate: Translator) returns (ok: bool)
    requires pargv.Valid() && pargv.Entries() == [] && pargv.pargs.Length == Room(cmd, argv)
    requires TypedDefaults(cmd) && !Overflows(cmd, argv, translate)
    modifies pargv, pargv.pargs
    ensures pargv.Valid() && ok == Table(cmd, argv, translate).Some?
    ensures ok ==> pargv.Entries() == Table(cmd, argv, translate).value
  {
    hide Put, HasRoom, Positionals, Bind, Defaults, PutAll, Overflows, EntryNames;
    SetDefaults(pargv, cmd, translate, argv);
    ghost var table := pargv.Entries();
    var i, index := cmd.words, 0;
    ghost var k := 0;
    ghost var all := Bind(cmd, WordsFrom(argv, cmd.words), 0, translate);
    assert cmd.params[0..] == cmd.params && Positionals(cmd.params)[0..] == Positionals(cmd.params);
    NoneAhead(cmd.params);
    if all.Bound? { BoundFits(cmd, argv, translate); }
    while i < |argv|
      invariant pargv.Valid() && (i < |argv| ==> HasRoom(pargv.Entries(), cmd))
      invariant k <= |Positionals(cmd.params)| && Ahead(cmd.params, index) == Positionals(cmd.params)[k..]
      invariant var rest := Bind(cmd, WordsFrom(argv, i), k, translate);
                && (all.Bound? <==> rest.Bound?)
                && (all.Bound? ==> all.used == rest.used)
                && (all.Bound? ==> PutAll(table, all.bindings) == PutAll(pargv.Entries(), rest.bindings))
      decreases |argv| - i
    {
      ok, i, index, k := BindNext(pargv, cmd, argv, i, index, k, translate);
      if !ok { return; }
    }
    BindNothing(cmd, k, translate, pargv.Entries());
    ok := CheckRest(pargv, cmd.params, index, k);
  }

  lemma NoneAhead(params: seq<Param>)
    ensures params == [] ==> Positionals(params) == []
  {}

  lemma BindNothing(cmd: Command, k: nat, translate: Translator, table: seq<Entry>)
    requires k <= |Positionals(cmd.params)|
    ensures Bind(cmd, [], k, translate) == Bound([], k, false) && PutAll(table, []) == table
  {}

  /** The remaining positional parameters must have got values. */
  method CheckRest(pargv: Pargv, params: seq<Param>, index: nat, ghost k: nat) returns (ok: bool)
    requires pargv.Valid() && k <= |Positionals(params)| && Ahead(params, index) == Positionals(params)[k..]
    ensures ok <==> forall j :: k <= j < |Positionals(params)| ==> HasName(pargv.Entries(), Positionals(params)[j].name)
  {
    hide Positionals;
    ghost var all, j := Positionals(params), k;
    var param, next: nat := NextNonOption(params, index);
    while param.Some?
      invariant k <= j <= |all| && (param.Some? <==> j < |all|) && (param.Some? ==> param.value == all[j])
      invariant param.Some? ==> next <= |params| && Ahead(params, next) == all[j + 1..]
      invariant forall x :: k <= x < j ==> HasName(pargv.Entries(), all[x].name)
      decreases |all| - j
    {
      var i := pargv.FindParg(param.value.name);
      if i == pargv.pargc { return false; }
      j := j + 1;
      param, next := NextNonOption(params, next);
    }
    ok := true;
  }

  /** On success the names in the table are distinct, each carries what was bound
      to it last, and every positional parameter has an entry. */
  lemma TableIsComplete(cmd: Command, words: seq<Word>, translate: Translator, name: string)
    requires TypedDefaults(cmd) && Table(cmd, words, translate).Some?
    ensures var table, r := Table(cmd, words, translate).value, Bind(cmd, WordsFrom(words, cmd.words), 0, translate);
            && Distinct(table) && r.Bound?
            && Lookup(table, name) == Last(r.bindings, name, Last(Defaults(cmd.params, translate), name, None))
    ensures forall p :: p in cmd.params && IsPositional(p) ==> HasName(Table(cmd, words, translate).value, p.name)
  {
    hide Bind, Defaults, Positionals, Put, Last, Lookup;
    var table, r := Table(cmd, words, translate).value, Bind(cmd, WordsFrom(words, cmd.words), 0, translate);
    var defaults := PutAll([], Defaults(cmd.params, translate));
    LookupNothing(name);
    PutAllGives([], Defaults(cmd.params, translate), name);
    PutAllGives(defaults, r.bindings, name);
    forall p | p in cmd.params && IsPositional(p) ensures HasName(table, p.name) {
      var j :| 0 <= j < |Positionals(cmd.params)| && Positionals(cmd.params)[j] == p;
      if j < r.used {
        BoundPositional(cmd, WordsFrom(words, cmd.words), 0, translate, j);
        var e :| e in r.bindings && e.param == p;
        PutAllGives([], Defaults(cmd.params, translate), p.name);
        PutAllGives(defaults, r.bindings, p.name);
        LastOfBound(r.bindings, e, Lookup(defaults, p.name));
        LookupHas(table, p.name);
      }
    }
  }

  lemma LookupNothing(name: string)
    ensures Distinct([]) && Lookup([], name) == None
  {}

  lemma LookupHas(table: seq<Entry>, name: string)
    ensures Lookup(table, name).Some? <==> HasName(table, name)
  {}

  lemma {:induction false} LastOfBound(bindings: seq<Entry>, e: Entry, before: Option<Option<string>>)
    requires e in bindings || before.Some?
    ensures Last(bindings, e.param.name, before).Some?
    decreases |bindings|
  {
    if bindings != [] {
      assert e in bindings ==> e == bindings[0] || e in bindings[1..];
      LastOfBound(bindings[1..], e, if bindings[0].param.name == e.param.name then Some(bindings[0].value) else before);
    }
  }

  /** Every positional parameter up to the last one used is bound. */
  lemma {:induction false} BoundPositional(cmd: Command, words: seq<Word>, k: nat, translate: Translator, j: nat)
    requires k <= |Positionals(cmd.params)|
    requires var r := Bind(cmd, words, k, translate); r.Bound? && k <= j < r.used
    ensures var r := Bind(cmd, words, k, translate);
            exists e :: e in r.bindings && e.param == Positionals(cmd.params)[j]
    decreases |words|
  {
    hide Positionals, FindOption, JoinWords;
    if words != [] {
      var r, option := Bind(cmd, words, k, translate), FindOption(cmd.params, words[0].text);
      if option.Some? {
        var n := if option.value.ptype.None? then 1 else 2;
        BoundPositional(cmd, words[n..], k, translate, j);
        var rest := Bind(cmd, words[n..], k, translate);
        var e :| e in rest.bindings && e.param == Positionals(cmd.params)[j];
        assert r.bindings[1..] == rest.bindings;
      } else if k < |Positionals(cmd.params)| {
        var rest := Bind(cmd, words[1..], k + 1, translate);
        assert r.bindings[1..] == rest.bindings;
        if j == k {
          assert r.bindings[0].param == Positionals(cmd.params)[k];
        } else {
          BoundPositional(cmd, words[1..], k + 1, translate, j);
          var e :| e in rest.bindings && e.param == Positionals(cmd.params)[j];
        }
      }
    }
  }
}
