/** The commands of a view, ordered by name without regard to case, and the
    completions of a line found in the local and the global view together. */
module CommandViews {
  import opened CStrings

  /** A command: the template of its action, the characters to escape in it, and
      whether it has a builtin and a view to go to. */
  datatype Command =
    Command(name: string, action: Option<CString>, escapes: Option<string>, builtin: bool, view: bool)

  // ---------- the order of names ----------

  function Order(c: char): nat {
    ToLower(c) as nat
  }

  /** lub_string_nocasecmp: negative, zero or positive. */
  function NoCaseCmp(a: string, b: string): int {
    if a == "" && b == "" then 0
    else if a == "" then -1
    else if b == "" then 1
    else if Order(a[0]) != Order(b[0]) then Order(a[0]) - Order(b[0])
    else NoCaseCmp(a[1..], b[1..])
  }

  predicate Less(a: string, b: string) {
    NoCaseCmp(a, b) < 0
  }

  predicate SameName(a: string, b: string) {
    NoCaseCmp(a, b) == 0
  }

  lemma {:induction false} CmpFlips(a: string, b: string)
    ensures NoCaseCmp(a, b) < 0 <==> NoCaseCmp(b, a) > 0
    ensures NoCaseCmp(a, b) == 0 <==> NoCaseCmp(b, a) == 0
  {
    if a != "" && b != "" && Order(a[0]) == Order(b[0]) { CmpFlips(a[1..], b[1..]); }
  }

  lemma {:induction false} CmpChains(a: string, b: string, c: string)
    ensures NoCaseCmp(a, b) <= 0 && NoCaseCmp(b, c) < 0 ==> NoCaseCmp(a, c) < 0
    ensures NoCaseCmp(a, b) < 0 && NoCaseCmp(b, c) <= 0 ==> NoCaseCmp(a, c) < 0
    ensures NoCaseCmp(a, b) == 0 && NoCaseCmp(b, c) == 0 ==> NoCaseCmp(a, c) == 0
  {
    if a != "" && b != "" && c != "" { CmpChains(a[1..], b[1..], c[1..]); }
  }

  lemma {:induction false} SameLength(a: string, b: string)
    ensures SameName(a, b) <==> |a| == |b| && Starts(a, b)
  {
    if a != "" && b != "" {
      SameLength(a[1..], b[1..]);
      if Starts(a, b) {
        assert forall k :: 0 <= k < |a| - 1 ==> a[1..][k] == a[k + 1] && b[1..][k] == b[k + 1];
      }
      if Order(a[0]) == Order(b[0]) && Starts(a[1..], b[1..]) {
        assert forall k :: 0 < k < |a| ==> a[k] == a[1..][k - 1] && (k < |b| ==> b[k] == b[1..][k - 1]);
      }
    }
  }

  // ---------- a view ----------

  /** The tree of a view in order: no two names are the same. */
  predicate Sorted(tree: seq<Command>) {
    forall i, j :: 0 <= i < j < |tree| ==> Less(tree[i].name, tree[j].name)
  }

  /** The part of the tree behind a key. */
  function After(tree: seq<Command>, key: string): (r: seq<Command>)
    ensures |r| <= |tree| && (r != [] ==> r[0] in tree && Less(key, r[0].name))
  {
    if tree == [] || Less(key, tree[0].name) then tree else After(tree[1..], key)
  }

  /** lub_bintree_findnext */
  function FindNext(tree: seq<Command>, key: string): Option<Command> {
    if After(tree, key) == [] then None else Some(After(tree, key)[0])
  }

  /** lub_bintree_find */
  function Find(tree: seq<Command>, key: string): (r: Option<Command>)
    ensures r.Some? ==> r.value in tree && SameName(r.value.name, key)
    ensures r.None? ==> forall c :: c in tree ==> !SameName(c.name, key)
  {
    if tree == [] then None else if SameName(tree[0].name, key) then Some(tree[0]) else Find(tree[1..], key)
  }

  lemma SortedTail(tree: seq<Command>, i: nat)
    requires Sorted(tree) && i <= |tree|
    ensures Sorted(tree[i..])
  {}

  /** Behind the first entry after a key stands what is after that entry. */
  lemma {:induction false} AfterNext(tree: seq<Command>, key: string)
    requires Sorted(tree) && After(tree, key) != []
    ensures var rest := After(tree, key); After(tree, rest[0].name) == rest[1..]
  {
    hide NoCaseCmp;
    SortedTail(tree, 1);
    if Less(key, tree[0].name) {
      AfterSelf(tree);
    } else {
      var name := After(tree[1..], key)[0].name;
      AfterNext(tree[1..], key);
      FirstIsLess(tree, After(tree[1..], key)[0]);
      CmpFlips(tree[0].name, name);
    }
  }

  lemma AfterSelf(tree: seq<Command>)
    requires Sorted(tree) && tree != []
    ensures After(tree, tree[0].name) == tree[1..]
  {
    hide NoCaseCmp;
    CmpFlips(tree[0].name, tree[0].name);
    if |tree| > 1 { assert Less(tree[0].name, tree[1].name); }
  }

  lemma FirstIsLess(tree: seq<Command>, c: Command)
    requires Sorted(tree) && tree != [] && c in tree[1..]
    ensures Less(tree[0].name, c.name)
  {
    var i :| 0 <= i < |tree[1..]| && tree[1..][i] == c;
    assert tree[i + 1] == c;
  }

  /** What is after a key is exactly what is greater. */
  lemma {:induction false} AfterIs(tree: seq<Command>, key: string, c: Command)
    requires Sorted(tree)
    ensures c in After(tree, key) <==> c in tree && Less(key, c.name)
  {
    if tree != [] {
      SortedTail(tree, 1);
      AfterIs(tree[1..], key, c);
      if c in tree && c != tree[0] { assert c in tree[1..]; }
      if Less(key, tree[0].name) && c in tree {
        var i :| 0 <= i < |tree| && tree[i] == c;
        if i > 0 { CmpChains(key, tree[0].name, tree[i].name); }
      }
    }
  }

  // ---------- completions in one view ----------

  /** How many words a text has; the tokens are not part of this model. */
  type Counter = string -> nat

  /** A blank at the end, or an empty line, starts another word. */
  function Words(line: string, count: Counter): nat {
    count(line) + if line == "" || IsWhite(line[|line| - 1]) then 1 else 0
  }

  /** The command completes the line: it starts with it and has as many words. */
  predicate Completes(c: Command, line: string, count: Counter) {
    Words(line, count) == count(c.name) && Starts(line, c.name)
  }

  function Completions(tree: seq<Command>, line: string, count: Counter): (r: seq<Command>)
    ensures |r| <= |tree|
    ensures forall c :: c in r <==> c in tree && Completes(c, line, count)
  {
    if tree == [] then []
    else
      var rest := Completions(tree[1..], line, count);
      if Completes(tree[0], line, count) then [tree[0]] + rest else rest
  }

  function NameOf(c: Option<Command>): string {
    if c.Some? then c.value.name else ""
  }

  /** The completions a view still has behind the last one it gave. */
  function Rest(tree: seq<Command>, last: Option<Command>, line: string, count: Counter): seq<Command> {
    Completions(After(tree, NameOf(last)), line, count)
  }

  function First(s: seq<Command>): Option<Command> {
    if s == [] then None else Some(s[0])
  }

  /** ucli_view_find_next_completion */
  method FindNextInView(tree: seq<Command>, last: Option<Command>, line: string, count: Counter)
    returns (cmd: Option<Command>)
    requires Sorted(tree)
    ensures cmd == First(Rest(tree, last, line, count))
    ensures cmd.Some? ==> Rest(tree, cmd, line, count) == Rest(tree, last, line, count)[1..]
  {
    hide NoCaseCmp, Sorted;
    var words := count(line);
    if line == "" || IsWhite(line[|line| - 1]) { words := words + 1; }
    var name := NameOf(last);
    cmd := FindNext(tree, name);
    while cmd.Some?
      invariant cmd == First(After(tree, name))
      invariant Completions(After(tree, name), line, count) == Rest(tree, last, line, count)
      decreases |After(tree, name)|
    {
      AfterNext(tree, name);
      name := cmd.value.name;
      if words == count(name) && Starts(line, name) { break; }
      cmd := FindNext(tree, name);
    }
  }

  // ---------- the local and the global view together ----------

  /** ucli_command_diff */
  function Diff(a: Option<Command>, b: Option<Command>): int {
    if a.None? then if b.Some? then 1 else 0
    else if b.None? then -1
    else NoCaseCmp(a.value.name, b.value.name)
  }

  /** Both lists in order; of two commands of one name the local one. */
  function Merged(local: seq<Command>, global: seq<Command>): seq<Command> {
    if local == [] then global
    else if global == [] then local
    else
      var d := NoCaseCmp(local[0].name, global[0].name);
      if d > 0 then [global[0]] + Merged(local, global[1..])
      else if d == 0 then [local[0]] + Merged(local[1..], global[1..])
      else [local[0]] + Merged(local[1..], global)
  }

  class Iterator {
    var lastLocal: Option<Command>
    var lastGlobal: Option<Command>

    constructor ()
      ensures lastLocal == None && lastGlobal == None
    {
      lastLocal, lastGlobal := None, None;
    }

    /** What the iterator has still to give. */
    function Remaining(local: seq<Command>, global: seq<Command>, line: string, count: Counter): seq<Command>
      reads this
    {
      Merged(Rest(local, lastLocal, line, count), Rest(global, lastGlobal, line, count))
    }

    /** ucli_shell_find_next_completion. When there is nothing left the iterator
        starts over. */
    method FindNextCompletion(local: seq<Command>, global: seq<Command>, line: string, count: Counter)
      returns (result: Option<Command>)
      requires Sorted(local) && Sorted(global)
      modifies this
      ensures result == First(old(Remaining(local, global, line, count)))
      ensures result.Some? ==>
        Remaining(local, global, line, count) == old(Remaining(local, global, line, count))[1..]
      ensures result.None? ==> lastLocal == None && lastGlobal == None
    {
      hide NoCaseCmp, Sorted, Rest;
      var cmd1 := FindNextInView(local, lastLocal, line, count);
      var cmd2 := FindNextInView(global, lastGlobal, line, count);
      var diff := Diff(cmd1, cmd2);
      if diff > 0 {
        lastGlobal := cmd2;
        result := cmd2;
      } else {
        if diff == 0 { lastGlobal := cmd2; }
        lastLocal := cmd1;
        result := cmd1;
      }
    }
  }

  /** getfirst, then getnext until it returns null. */
  method CollectCompletions(local: seq<Command>, global: seq<Command>, line: string, count: Counter)
    returns (all: seq<Command>)
    requires Sorted(local) && Sorted(global)
    ensures all == Merged(Rest(local, None, line, count), Rest(global, None, line, count))
  {
    hide Merged, Rest, Sorted;
    var iter := new Iterator();
    ghost var total := iter.Remaining(local, global, line, count);
    all := [];
    var cmd := iter.FindNextCompletion(local, global, line, count);
    ghost var left := total;
    while cmd.Some?
      invariant cmd == First(left) && all + left == total
      invariant cmd.Some? ==> iter.Remaining(local, global, line, count) == left[1..]
      decreases |left|
    {
      assert left == [left[0]] + left[1..];
      all := all + [cmd.value];
      left := left[1..];
      cmd := iter.FindNextCompletion(local, global, line, count);
    }
  }

  lemma {:induction false} CompletionsSorted(tree: seq<Command>, line: string, count: Counter)
    requires Sorted(tree)
    ensures Sorted(Completions(tree, line, count))
  {
    hide NoCaseCmp, Completes;
    if tree != [] {
      SortedTail(tree, 1);
      CompletionsSorted(tree[1..], line, count);
      var rest := Completions(tree[1..], line, count);
      forall j | 0 <= j < |rest| ensures Less(tree[0].name, rest[j].name) {
        assert rest[j] in rest;
        FirstIsLess(tree, rest[j]);
      }
    }
  }

  lemma AfterSorted(tree: seq<Command>, key: string)
    requires Sorted(tree)
    ensures Sorted(After(tree, key))
  {
    hide NoCaseCmp;
    if tree != [] && !Less(key, tree[0].name) {
      SortedTail(tree, 1);
      AfterSorted(tree[1..], key);
    }
  }

  predicate Below(key: string, s: seq<Command>) {
    forall c :: c in s ==> Less(key, c.name)
  }

  lemma BelowTail(s: seq<Command>)
    requires Sorted(s) && s != []
    ensures Below(s[0].name, s[1..]) && Sorted(s[1..])
  {
    hide NoCaseCmp;
    SortedTail(s, 1);
    forall c | c in s[1..] ensures Less(s[0].name, c.name) { FirstIsLess(s, c); }
  }

  lemma BelowAll(key: string, s: seq<Command>)
    requires Sorted(s) && (s != [] ==> NoCaseCmp(key, s[0].name) <= 0)
    ensures s != [] ==> Below(key, s[1..]) && (Less(key, s[0].name) ==> Below(key, s))
  {
    hide NoCaseCmp;
    if s != [] {
      BelowTail(s);
      forall c | c in s[1..] ensures Less(key, c.name) { CmpChains(key, s[0].name, c.name); }
    }
  }

  lemma SortedCons(c: Command, s: seq<Command>)
    requires Sorted(s) && Below(c.name, s)
    ensures Sorted([c] + s)
  {
    hide NoCaseCmp;
    var r := [c] + s;
    forall i, j | 0 <= i < j < |r| ensures Less(r[i].name, r[j].name) {
      assert r[j] == s[j - 1] && s[j - 1] in s;
      if i > 0 { assert r[i] == s[i - 1]; }
    }
  }

  lemma {:induction false} MergedFrom(local: seq<Command>, global: seq<Command>)
    ensures forall c :: c in Merged(local, global) ==> c in local || c in global
  {
    hide NoCaseCmp;
    if local != [] && global != [] {
      MergedFrom(local, global[1..]);
      MergedFrom(local[1..], global);
      MergedFrom(local[1..], global[1..]);
    }
  }

  /** A command of the other view that this one does not override. */
  predicate Unmatched(c: Command, local: seq<Command>) {
    forall l :: l in local ==> !SameName(l.name, c.name)
  }

  predicate InUnion(c: Command, local: seq<Command>, global: seq<Command>) {
    c in local || (c in global && Unmatched(c, local))
  }

  lemma UnionGlobalFirst(c: Command, local: seq<Command>, global: seq<Command>)
    requires global != [] && Below(global[0].name, local)
    ensures InUnion(c, local, global) <==> c == global[0] || InUnion(c, local, global[1..])
  {
    hide NoCaseCmp;
    forall l | l in local ensures !SameName(l.name, global[0].name) { CmpFlips(global[0].name, l.name); }
  }

  lemma UnionLocalFirst(c: Command, local: seq<Command>, global: seq<Command>, rest: seq<Command>)
    requires local != [] && Below(local[0].name, rest)
    requires global == rest || (global != [] && rest == global[1..] && SameName(local[0].name, global[0].name))
    ensures InUnion(c, local, global) <==> c == local[0] || InUnion(c, local[1..], rest)
  {
    hide NoCaseCmp;
    assert c in local <==> c == local[0] || c in local[1..];
    if c in rest { assert Less(local[0].name, c.name); }
  }

  /** The merge is strictly increasing and holds exactly the local commands and
      those global ones that no local one has the name of. */
  lemma {:induction false} MergedIsUnion(local: seq<Command>, global: seq<Command>)
    requires Sorted(local) && Sorted(global)
    ensures Sorted(Merged(local, global))
    ensures forall c :: c in Merged(local, global) <==> InUnion(c, local, global)
    decreases |local| + |global|, 1
  {
    hide NoCaseCmp, InUnion, Sorted, Below;
    if local == [] || global == [] {
      UnionTrivial(local, global);
    } else {
      var l, g := local[0], global[0];
      var d := NoCaseCmp(l.name, g.name);
      CmpFlips(l.name, g.name);
      BelowTail(local);
      BelowTail(global);
      if d > 0 {
        BelowAll(g.name, local);
        MergeStep(g, local, global[1..]);
        forall c { UnionGlobalFirst(c, local, global); }
      } else if d == 0 {
        BelowAll(l.name, global);
        MergeStep(l, local[1..], global[1..]);
        forall c { UnionLocalFirst(c, local, global, global[1..]); }
      } else {
        BelowAll(l.name, global);
        MergeStep(l, local[1..], global);
        forall c { UnionLocalFirst(c, local, global, global); }
      }
    }
  }

  lemma UnionTrivial(local: seq<Command>, global: seq<Command>)
    requires local == [] || global == []
    ensures forall c :: InUnion(c, local, global) <==> c in local || c in global
  {}

  lemma MergeStep(c: Command, local: seq<Command>, global: seq<Command>)
    requires Sorted(local) && Sorted(global) && Below(c.name, local) && Below(c.name, global)
    ensures Sorted([c] + Merged(local, global))
    ensures forall x :: x in Merged(local, global) <==> InUnion(x, local, global)
    decreases |local| + |global|, 2
  {
    hide NoCaseCmp, InUnion;
    MergedIsUnion(local, global);
    MergedFrom(local, global);
    SortedCons(c, Merged(local, global));
  }

  /** The commands offered for a line, in order and without repeats: every
      completion of either view, the local command where both define a name. */
  lemma CompletionsOfBoth(local: seq<Command>, global: seq<Command>, line: string, count: Counter)
    requires Sorted(local) && Sorted(global)
    requires forall c :: c in local || c in global ==> c.name != ""
    ensures var all := Merged(Rest(local, None, line, count), Rest(global, None, line, count));
            && Sorted(all)
            && forall c :: c in all <==>
                 && Completes(c, line, count)
                 && (c in local || (c in global && Unmatched(c, Completions(local, line, count))))
  {
    hide NoCaseCmp, Sorted, Completes;
    AllAfter(local);
    AllAfter(global);
    CompletionsSorted(local, line, count);
    CompletionsSorted(global, line, count);
    MergedIsUnion(Completions(local, line, count), Completions(global, line, count));
  }

  lemma AllAfter(tree: seq<Command>)
    requires forall c :: c in tree ==> c.name != ""
    ensures After(tree, "") == tree
  {}
}
