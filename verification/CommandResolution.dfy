/** Which command a line means: the longest chain of words that are commands,
    and the choice between the local and the global view. */
module CommandResolution {
  import opened CStrings
  import opened CommandViews
  import V = VariableExpansion

  /** The first `k` words with a space between them. */
  function Joined(words: seq<string>, k: nat): string
    requires k <= |words|
  {
    if k == 0 then "" else if k == 1 then words[0] else Joined(words, k - 1) + " " + words[k - 1]
  }

  predicate IsCommand(tree: seq<Command>, words: seq<string>, k: nat)
    requires k <= |words|
  {
    Find(tree, Joined(words, k)).Some?
  }

  /** The first 1, 2, ..., k words are all commands. */
  predicate Chain(tree: seq<Command>, words: seq<string>, k: nat)
    requires k <= |words|
  {
    forall j :: 1 <= j <= k ==> IsCommand(tree, words, j)
  }

  /** `k` words are resolved: all beginnings are commands and the next is not. */
  predicate Depth(tree: seq<Command>, words: seq<string>, k: nat) {
    k <= |words| && Chain(tree, words, k) && (k < |words| ==> !IsCommand(tree, words, k + 1))
  }

  function DepthFrom(tree: seq<Command>, words: seq<string>, k: nat): (d: nat)
    requires k <= |words|
    ensures k <= d <= |words|
    decreases |words| - k
  {
    if k < |words| && IsCommand(tree, words, k + 1) then DepthFrom(tree, words, k + 1) else k
  }

  /** The number of words that are resolved. */
  function Resolved(tree: seq<Command>, words: seq<string>): (k: nat)
    ensures Depth(tree, words, k)
  {
    ChainGrows(tree, words, 0);
    DepthFrom(tree, words, 0)
  }

  lemma {:induction false} ChainGrows(tree: seq<Command>, words: seq<string>, k: nat)
    requires k <= |words| && Chain(tree, words, k)
    ensures Depth(tree, words, DepthFrom(tree, words, k))
    decreases |words| - k
  {
    hide IsCommand;
    if k < |words| && IsCommand(tree, words, k + 1) {
      ChainGrows(tree, words, k + 1);
    }
  }

  function CommandAt(tree: seq<Command>, words: seq<string>, k: nat): Option<Command>
    requires k <= |words|
  {
    if k == 0 then None else Find(tree, Joined(words, k))
  }

  /** ucli_view_resolve_prefix */
  method ResolvePrefix(tree: seq<Command>, words: seq<string>) returns (result: Option<Command>)
    ensures result == CommandAt(tree, words, Resolved(tree, words))
  {
    hide NoCaseCmp, Find, Joined, DepthFrom;
    result := None;
    var buffer := "";
    var i := 0;
    DepthNext(tree, words, i);
    while i < |words|
      invariant 0 <= i <= |words| && result == CommandAt(tree, words, i)
      invariant DepthFrom(tree, words, i) == Resolved(tree, words)
      invariant buffer == if i == 0 then "" else Joined(words, i) + " "
    {
      JoinedNext(words, i);
      DepthNext(tree, words, i);
      buffer := buffer + words[i];
      var cmd := Find(tree, buffer);
      if cmd.None? { break; }
      result := cmd;
      buffer := buffer + " ";
      i := i + 1;
    }
    DepthNext(tree, words, i);
  }

  lemma JoinedNext(words: seq<string>, i: nat)
    requires i < |words|
    ensures Joined(words, i + 1) == (if i == 0 then "" else Joined(words, i) + " ") + words[i]
  {}

  lemma DepthNext(tree: seq<Command>, words: seq<string>, i: nat)
    requires i <= |words|
    ensures DepthFrom(tree, words, i)
         == if i < |words| && IsCommand(tree, words, i + 1) then DepthFrom(tree, words, i + 1) else i
  {}

  /** There is one such depth: the largest number of words whose beginnings are
      all commands. */
  lemma DepthIsLargest(tree: seq<Command>, words: seq<string>, k: nat, j: nat)
    requires Depth(tree, words, k) && j <= |words|
    ensures Chain(tree, words, j) <==> j <= k
  {
    assert k < |words| ==> !IsCommand(tree, words, k + 1);
  }

  /** Every command that the line could mean has its beginnings defined too. */
  predicate PrefixClosed(tree: seq<Command>, words: seq<string>) {
    forall k :: 2 <= k <= |words| && IsCommand(tree, words, k) ==> IsCommand(tree, words, k - 1)
  }

  /** In such a view the result is the longest command that matches. */
  lemma {:induction false} LongestMatch(tree: seq<Command>, words: seq<string>, k: nat, j: nat)
    requires PrefixClosed(tree, words) && Depth(tree, words, k)
    requires 1 <= j <= |words| && IsCommand(tree, words, j)
    ensures j <= k
  {
    ChainDown(tree, words, j);
    DepthIsLargest(tree, words, k, j);
  }

  lemma {:induction false} ChainDown(tree: seq<Command>, words: seq<string>, j: nat)
    requires PrefixClosed(tree, words) && 1 <= j <= |words| && IsCommand(tree, words, j)
    ensures Chain(tree, words, j)
  {
    if j > 1 {
      assert IsCommand(tree, words, j - 1);
      ChainDown(tree, words, j - 1);
    }
  }

  // ---------- two views ----------

  /** ucli_command_choose_longest */
  function ChooseLongest(a: Option<Command>, b: Option<Command>): Option<Command> {
    if |NameOf(b)| < |NameOf(a)| then a else if |NameOf(a)| < |NameOf(b)| then b else a
  }

  lemma {:induction false} JoinedGrows(words: seq<string>, j: nat, k: nat)
    requires j < k <= |words|
    ensures |Joined(words, j)| <= |Joined(words, k)| && (j > 0 ==> |Joined(words, j)| < |Joined(words, k)|)
  {
    if j + 1 < k { JoinedGrows(words, j, k - 1); }
  }

  /** A name found is as long as the words looked for. */
  lemma NameLength(tree: seq<Command>, words: seq<string>, k: nat)
    requires k <= |words| && Chain(tree, words, k)
    ensures |NameOf(CommandAt(tree, words, k))| == |Joined(words, k)|
  {
    if k > 0 {
      assert IsCommand(tree, words, k);
      SameLength(Find(tree, Joined(words, k)).value.name, Joined(words, k));
    }
  }

  /** The length of names decides as the number of words does: the view that
      resolves more words wins, and the local one wins a tie. */
  lemma DeeperChainWins(local: seq<Command>, global: seq<Command>, words: seq<string>, i: nat, k: nat)
    requires Depth(local, words, i) && Depth(global, words, k)
    requires forall c :: c in local || c in global ==> c.name != ""
    ensures ChooseLongest(CommandAt(local, words, i), CommandAt(global, words, k))
         == if k > i then CommandAt(global, words, k) else CommandAt(local, words, i)
  {
    NameLength(local, words, i);
    NameLength(global, words, k);
    if i < k {
      JoinedGrows(words, i, k);
      assert IsCommand(global, words, k);
    }
    if k < i {
      JoinedGrows(words, k, i);
      assert IsCommand(local, words, i);
    }
  }

  /** ucli_shell_resolve_prefix */
  method ShellResolvePrefix(local: seq<Command>, global: seq<Command>, words: seq<string>)
    returns (result: Option<Command>)
    requires forall c :: c in local || c in global ==> c.name != ""
    ensures var i, k := Resolved(local, words), Resolved(global, words);
            result == if k > i then CommandAt(global, words, k) else CommandAt(local, words, i)
  {
    var cmd1 := ResolvePrefix(local, words);
    var cmd2 := ResolvePrefix(global, words);
    DeeperChainWins(local, global, words, Resolved(local, words), Resolved(global, words));
    result := ChooseLongest(cmd1, cmd2);
  }

  /** A command does something when it has a builtin or a view, or an action
      that is not empty and does not begin with an open variable. */
  predicate DoesSomething(c: Command) {
    c.builtin || c.view || (c.action.Some? && c.action.value != "" && !V.LostAtOnce(c.action.value))
  }

  function Active(c: Option<Command>): Option<Command> {
    if c.Some? && DoesSomething(c.value) then c else None
  }

  /** ucli_view_resolve_command: a command that does nothing is none. The action
      is expanded for no view and no arguments; the environment has no say. */
  method ResolveCommand(tree: seq<Command>, words: seq<string>, env: string -> Option<CString>)
    returns (result: Option<Command>)
    ensures result == Active(CommandAt(tree, words, Resolved(tree, words)))
  {
    result := ResolvePrefix(tree, words);
    if result.Some? {
      var c := result.value;
      var action := V.Expand(c.action, V.Context(map[], _ => None, env, c.escapes));
      if action.None? && !c.builtin && !c.view { result := None; }
    }
  }

  /** ucli_shell_resolve_command: what is chosen does something, and it is the
      deeper of the two, unless that one does nothing. */
  method ShellResolveCommand(local: seq<Command>, global: seq<Command>, words: seq<string>,
                             env: string -> Option<CString>)
    returns (result: Option<Command>)
    requires forall c :: c in local || c in global ==> c.name != ""
    ensures var i, k := Resolved(local, words), Resolved(global, words);
            var a, b := Active(CommandAt(local, words, i)), Active(CommandAt(global, words, k));
            result == if a.None? then b else if b.None? then a else if k > i then b else a
  {
    var cmd1 := ResolveCommand(local, words, env);
    var cmd2 := ResolveCommand(global, words, env);
    DeeperChainWins(local, global, words, Resolved(local, words), Resolved(global, words));
    result := ChooseLongest(cmd1, cmd2);
  }
}
