/** The loop of the shell: a stack of input files, and the states in which lines
    are read, skipped or no longer read. */
module ShellRun {
  import opened CStrings

  datatype Mode = Ready | ScriptError | Closing

  /** An open input; `id` tells streams apart, `tty` is isatty. */
  datatype Stream = Stream(id: nat, tty: bool)

  datatype File = File(stream: Stream, stopOnError: bool)

  /** What running a command does: it succeeds or not, may be the close builtin
      and may push files. Closing always succeeds. A command that succeeds may
      lead into another view, and give it another id, which is expanded. */
  datatype Outcome = Outcome(ok: bool, closes: bool, pushes: seq<File>, view: Option<nat>, viewid: Option<string>)

  /** What the next line turns out to be. A blank one has no command to run. One
      that cannot be parsed ends the reading of a script; a terminal just asks
      again. */
  datatype Line = EndOfFile | Blank | Bad | Command(outcome: Outcome)

  // ---------- the machine ----------

  /** The view that commands are looked up in, by number, and its id. */
  datatype Place = Place(view: Option<nat>, viewid: Option<string>)

  function Moved(p: Place, o: Outcome): Place {
    Place(if o.view.Some? then o.view else p.view, if o.viewid.Some? then o.viewid else p.viewid)
  }

  /** The stack has its top first. `closed` lists the files closed so far,
      `pushed` those pushed, `ran` the streams commands were run from. */
  datatype Machine = Machine(mode: Mode, stack: seq<File>, running: bool, place: Place,
                             pushed: seq<Stream>, closed: seq<Stream>, ran: seq<Stream>)

  function Streams(files: seq<File>): (r: seq<Stream>)
    ensures |r| == |files| && forall i :: 0 <= i < |files| ==> r[i] == files[i].stream
  {
    if files == [] then [] else [files[0].stream] + Streams(files[1..])
  }

  function Pushed(m: Machine, files: seq<File>): (r: Machine)
    decreases |files|
  {
    if files == [] then m
    else Pushed(m.(stack := [files[0]] + m.stack, pushed := m.pushed + [files[0].stream]), files[1..])
  }

  /** Popping closes the top; the answer is whether one is left below. */
  function Popped(m: Machine): Machine {
    if m.stack == [] then m.(running := false)
    else m.(stack := m.stack[1..], closed := m.closed + [m.stack[0].stream], running := |m.stack| > 1)
  }

  /** Reading: lines a terminal rejects are passed over, and input that has come
      to its end keeps delivering the end. */
  function NextLine(lines: seq<Line>, tty: bool): (r: (Line, seq<Line>))
    ensures |r.1| <= |lines| && (lines != [] ==> |r.1| < |lines|)
    ensures tty ==> !r.0.Bad?
  {
    if lines == [] then (EndOfFile, [])
    else if lines[0].Bad? && tty then NextLine(lines[1..], tty)
    else (lines[0], lines[1..])
  }

  /** A command and its error: it counts unless the top file says not to stop, or
      is a terminal. */
  function Ran(m: Machine, o: Outcome): Machine
    requires m.stack != []
  {
    var p := Pushed(m.(ran := m.ran + [m.stack[0].stream]), o.pushes);
    if o.ok then p.(mode := if o.closes then Closing else p.mode, place := Moved(p.place, o))
    else if p.stack != [] && p.stack[0].stopOnError && !p.stack[0].stream.tty then p.(mode := ScriptError)
    else p
  }

  /** The reading half of one turn. */
  function Served(m: Machine, line: Line): Machine
    requires m.stack != []
  {
    match line
    case EndOfFile => m.(mode := Ready, running := false)
    case Blank => m.(mode := Ready)
    case Bad => m.(mode := if m.stack[0].stream.tty then Ready else ScriptError, running := false)
    case Command(o) => Ran(m.(mode := Ready), o)
  }

  /** One turn of the loop, and the lines left. */
  function Turn(m: Machine, lines: seq<Line>): (Machine, seq<Line>)
    requires m.stack != []
  {
    var tty := m.stack[0].stream.tty;
    if m.mode == ScriptError && !tty then (Popped(m), lines)
    else if m.mode == Closing then (Popped(m), lines)
    else
      var (line, rest) := NextLine(lines, tty);
      var s := Served(m, line);
      (if !s.running || s.mode == ScriptError then Popped(s) else s, rest)
  }

  /** Every file pushed is on the stack or closed. */
  predicate Balanced(m: Machine) {
    multiset(m.pushed) == multiset(m.closed) + multiset(Streams(m.stack))
  }

  /** While the loop runs there is a file to read from, and no file is lost. */
  predicate Sound(m: Machine) {
    (m.running ==> m.stack != []) && Balanced(m)
  }

  lemma PushOne(m: Machine, f: File)
    requires Balanced(m)
    ensures Balanced(m.(stack := [f] + m.stack, pushed := m.pushed + [f.stream]))
  {
    assert ([f] + m.stack)[1..] == m.stack;
    assert Streams([f] + m.stack) == [f.stream] + Streams(m.stack);
  }

  lemma {:induction false} PushedKeeps(m: Machine, files: seq<File>)
    requires Balanced(m)
    ensures var p := Pushed(m, files);
            && Balanced(p) && |p.stack| == |m.stack| + |files| && p.stack[|files|..] == m.stack
            && p.mode == m.mode && p.running == m.running && p.closed == m.closed && p.ran == m.ran
    decreases |files|
  {
    hide Balanced;
    if files != [] {
      PushOne(m, files[0]);
      PushedKeeps(m.(stack := [files[0]] + m.stack, pushed := m.pushed + [files[0].stream]), files[1..]);
      var p := Pushed(m, files);
      assert p.stack[|files|..] == p.stack[|files| - 1..][1..];
    }
  }

  lemma PoppedKeeps(m: Machine)
    requires Balanced(m)
    ensures Sound(Popped(m)) && (m.stack != [] ==> |Popped(m).stack| < |m.stack|)
  {
    if m.stack != [] {
      assert Streams(m.stack) == [m.stack[0].stream] + Streams(m.stack[1..]);
    }
  }

  lemma ServedKeeps(m: Machine, line: Line)
    requires m.stack != [] && Balanced(m)
    ensures var s := Served(m, line); Balanced(s) && |m.stack| <= |s.stack|
  {
    hide Balanced, Pushed;
    BalancedDespite(m, Ready, m.running, m.ran, m.place);
    match line
    case EndOfFile => BalancedDespite(m, Ready, false, m.ran, m.place);
    case Blank =>
    case Bad =>
      BalancedDespite(m, Ready, false, m.ran, m.place);
      BalancedDespite(m, ScriptError, false, m.ran, m.place);
    case Command(o) =>
      var ran := m.ran + [m.stack[0].stream];
      BalancedDespite(m, Ready, m.running, ran, m.place);
      PushedKeeps(m.(mode := Ready, ran := ran), o.pushes);
      var p := Pushed(m.(mode := Ready, ran := ran), o.pushes);
      BalancedDespite(p, Closing, p.running, ran, Moved(p.place, o));
      BalancedDespite(p, p.mode, p.running, ran, Moved(p.place, o));
      BalancedDespite(p, ScriptError, p.running, ran, p.place);
  }

  lemma BalancedDespite(m: Machine, mode: Mode, running: bool, ran: seq<Stream>, place: Place)
    ensures Balanced(m.(mode := mode, running := running, ran := ran, place := place)) <==> Balanced(m)
  {}

  lemma TurnKeeps(m: Machine, lines: seq<Line>)
    requires m.running && Sound(m)
    ensures Sound(Turn(m, lines).0) && |Turn(m, lines).1| <= |lines|
    ensures |Turn(m, lines).1| == |lines| ==> |Turn(m, lines).0.stack| < |m.stack|
  {
    hide Balanced, Served, Popped, NextLine;
    var tty := m.stack[0].stream.tty;
    PoppedKeeps(m);
    if m.mode != Closing && !(m.mode == ScriptError && !tty) {
      var (line, rest) := NextLine(lines, tty);
      ServedKeeps(m, line);
      PoppedKeeps(Served(m, line));
      if lines == [] { AtTheEnd(m, tty); }
    }
  }

  lemma AtTheEnd(m: Machine, tty: bool)
    requires m.stack != []
    ensures NextLine([], tty) == (EndOfFile, []) && !Served(m, EndOfFile).running
    ensures |Served(m, EndOfFile).stack| == |m.stack|
  {}

  /** A whole run. */
  function Run(m: Machine, lines: seq<Line>): Machine
    requires Sound(m)
    decreases |lines|, |m.stack|
  {
    if !m.running then m
    else
      TurnKeeps(m, lines);
      var (next, rest) := Turn(m, lines);
      Run(next, rest)
  }

  /** A run ends, with every file closed that is not left on the stack. */
  lemma {:induction false} RunEnds(m: Machine, lines: seq<Line>)
    requires Sound(m)
    ensures !Run(m, lines).running && Sound(Run(m, lines))
    decreases |lines|, |m.stack|
  {
    hide Sound, Turn;
    if m.running {
      SoundRuns(m);
      TurnKeeps(m, lines);
      RunEnds(Turn(m, lines).0, Turn(m, lines).1);
    }
  }

  lemma SoundRuns(m: Machine)
    requires Sound(m) && m.running
    ensures m.stack != []
  {}

  /** The first `n` turns of a run. */
  function Turns(m: Machine, lines: seq<Line>, n: nat): (Machine, seq<Line>)
    decreases n
  {
    if n == 0 || m.stack == [] || !m.running then (m, lines)
    else Turns(Turn(m, lines).0, Turn(m, lines).1, n - 1)
  }

  /** A command runs only when the state was ready, or when an interactive stream
      has made it ready again; it then comes from the file on top. */
  lemma OnlyReadyRuns(m: Machine, lines: seq<Line>)
    requires m.running && m.stack != []
    ensures var next := Turn(m, lines).0;
            || (next.ran == m.ran && next.place == m.place)
            || (&& next.ran == m.ran + [m.stack[0].stream]
                && (m.mode == Ready || (m.mode == ScriptError && m.stack[0].stream.tty)))
  {
    var (line, rest) := NextLine(lines, m.stack[0].stream.tty);
    if line.Command? {
      PushedRan(m.(mode := Ready, ran := m.ran + [m.stack[0].stream]), line.outcome.pushes);
    }
  }

  lemma {:induction false} PushedRan(m: Machine, files: seq<File>)
    ensures var p := Pushed(m, files);
            && p.ran == m.ran && p.mode == m.mode && p.running == m.running && p.closed == m.closed
            && |m.stack| <= |p.stack| && p.place == m.place
    decreases |files|
  {
    if files != [] {
      PushedRan(m.(stack := [files[0]] + m.stack, pushed := m.pushed + [files[0].stream]), files[1..]);
    }
  }

  lemma {:induction false} PushedCommutes(m: Machine, files: seq<File>, ran: seq<Stream>)
    ensures Pushed(m.(ran := ran), files) == Pushed(m, files).(ran := ran)
    decreases |files|
  {
    if files != [] {
      PushedCommutes(m.(stack := [files[0]] + m.stack, pushed := m.pushed + [files[0].stream]), files[1..], ran);
    }
  }

  /** What is left when the upper `n` files are popped, nothing else happening. */
  function Below(m: Machine, n: nat): Machine
    requires n <= |m.stack|
  {
    if n == 0 then m
    else m.(stack := m.stack[n..], closed := m.closed + Streams(m.stack[..n]), running := n < |m.stack|)
  }

  lemma BelowNext(m: Machine, n: nat)
    requires m.running && n < |m.stack|
    ensures Below(Popped(m), n) == Below(m, n + 1)
  {
    hide Streams;
    StreamsFirst(m.stack, n);
    var top, upper := [m.stack[0].stream], Streams(m.stack[1..][..n]);
    assert m.stack[1..][n..] == m.stack[n + 1..];
    assert m.closed + (top + upper) == (m.closed + top) + upper;
    if n == 0 { assert m.closed + top + upper == m.closed + top by { StreamsNone(m.stack[1..]); } }
  }

  lemma StreamsFirst(files: seq<File>, n: nat)
    requires n < |files|
    ensures Streams(files[..n + 1]) == [files[0].stream] + Streams(files[1..][..n])
  {
    assert files[..n + 1][1..] == files[1..][..n];
  }

  lemma StreamsNone(files: seq<File>)
    ensures Streams(files[..0]) == []
  {}

  /** After a script error the scripts are unwound: as long as no interactive
      stream is on top, every turn closes a file, reads no line and runs no
      command. */
  lemma {:induction false} ScriptsUnwind(m: Machine, lines: seq<Line>, n: nat)
    requires m.running && m.mode == ScriptError && n <= |m.stack|
    requires forall i :: 0 <= i < n ==> !m.stack[i].stream.tty
    ensures Turns(m, lines, n) == (Below(m, n), lines)
    decreases n
  {
    hide Below;
    BelowNone(m);
    if n > 0 {
      assert Turn(m, lines) == (Popped(m), lines);
      BelowNext(m, n - 1);
      BelowNone(Popped(m));
      if |m.stack| > 1 {
        assert forall i :: 0 <= i < n - 1 ==> m.stack[1..][i] == m.stack[i + 1];
        ScriptsUnwind(Popped(m), lines, n - 1);
      }
    }
  }

  lemma BelowNone(m: Machine)
    ensures Below(m, 0) == m
  {}

  /** On an interactive stream the error is forgotten. */
  lemma TerminalRecovers(m: Machine, lines: seq<Line>)
    requires m.running && m.mode == ScriptError && m.stack != [] && m.stack[0].stream.tty
    ensures Turn(m, lines) == Turn(m.(mode := Ready), lines)
  {
    var (line, rest) := NextLine(lines, true);
    assert Served(m, line) == Served(m.(mode := Ready), line);
  }

  /** After the close builtin the loop takes exactly as many turns as files are
      on the stack, and no further command runs. */
  lemma {:induction false} CloseEnds(m: Machine, lines: seq<Line>, n: nat)
    requires m.running && m.mode == Closing && n <= |m.stack|
    ensures Turns(m, lines, n) == (Below(m, n), lines)
    ensures Below(m, n).running <==> n < |m.stack| || n == 0
    decreases n
  {
    BelowNone(m);
    if n > 0 {
      assert Turn(m, lines) == (Popped(m), lines);
      BelowNext(m, n - 1);
      BelowNone(Popped(m));
      if |m.stack| > 1 { CloseEnds(Popped(m), lines, n - 1); }
    }
  }

  // ---------- the code ----------

  /** A node of the file stack; nothing in it changes after it was pushed. */
  class FileNode {
    const file: File
    const next: FileNode?

    constructor (file: File, next: FileNode?)
      ensures this.file == file && this.next == next
    {
      this.file, this.next := file, next;
    }
  }

  /** The nodes from `node` on hold these files. */
  ghost predicate Chain(node: FileNode?, files: seq<File>)
    decreases |files|
  {
    if node == null then files == []
    else files != [] && files[0] == node.file && Chain(node.next, files[1..])
  }

  class Shell {
    var mode: Mode
    var currentFile: FileNode?
    var input: Option<Stream>      // the input stream of the line editor
    var running: bool
    var place: Place
    var pushed: seq<Stream>        // calls that push or close a file, or run a command
    var closed: seq<Stream>
    var ran: seq<Stream>
    ghost var stack: seq<File>

    ghost predicate Valid()
      reads this
    {
      Chain(currentFile, stack) && (stack != [] ==> input == Some(stack[0].stream))
    }

    ghost function State(): Machine
      reads this
    {
      Machine(mode, stack, running, place, pushed, closed, ran)
    }

    constructor ()
      ensures Valid() && State() == Machine(Ready, [], true, Place(None, None), [], [], [])
    {
      mode, currentFile, input, running, place := Ready, null, None, true, Place(None, None);
      pushed, closed, ran := [], [], [];
      stack := [];
    }

    /** ucli_shell_push_file */
    method PushFile(file: File)
      requires Valid()
      modifies this`currentFile, this`input, this`pushed, this`stack
      ensures Valid() && State() == Pushed(old(State()), [file])
    {
      var node := new FileNode(file, currentFile);
      currentFile := node;
      input := Some(file.stream);
      pushed := pushed + [file.stream];
      stack := [file] + stack;
      assert stack[1..] == old(stack) && [file][1..] == [];
    }

    /** ucli_shell_pop_file */
    method PopFile() returns (result: bool)
      requires Valid()
      modifies this`currentFile, this`input, this`closed, this`stack
      ensures Valid() && State().(running := result) == Popped(old(State()))
    {
      result := false;
      var node := currentFile;
      if node != null {
        currentFile := node.next;
        closed := closed + [node.file.stream];
        stack := stack[1..];
        if node.next != null {
          input := Some(node.next.file.stream);
          result := true;
        }
      }
    }

    /** The default input, and the startup command. */
    method Start(stream: Stream, startup: Outcome)
      requires Valid() && State() == Machine(Ready, [], true, Place(None, None), [], [], [])
      modifies this
      ensures Valid() && State() == Started(stream, startup)
    {
      hide Chain;
      PushedRan(State().(ran := [stream]), [File(stream, true)]);
      PushedCommutes(State(), [File(stream, true)], [stream]);
      PushFile(File(stream, true));
      assert [File(stream, true)][1..] == [] && stack[0].stream == stream && ran + [stream] == [stream];
      PushedRan(State().(ran := [stream]), startup.pushes);
      running := Execute(startup);
    }

    /** The end of ucli_shell_fini: pops until nothing is left below. */
    method Fini()
      requires Valid() && Sound(State())
      modifies this
      ensures Valid() && stack == [] && pushed == old(pushed) && ran == old(ran) && place == old(place)
      ensures multiset(pushed) == multiset(closed)
    {
      hide Chain;
      var more := true;
      while more
        invariant Valid() && Balanced(State()) && pushed == old(pushed) && ran == old(ran) && place == old(place)
        invariant !more ==> stack == []
        decreases more, |stack|
      {
        PoppedKeeps(State());
        more := PopFile();
      }
    }

    /** Running a command of the given outcome. */
    method Execute(outcome: Outcome) returns (ok: bool)
      requires Valid() && stack != []
      modifies this`currentFile, this`input, this`pushed, this`stack, this`ran, this`mode, this`place
      ensures Valid() && ok == outcome.ok
      ensures State() == Pushed(old(State()).(ran := old(ran) + [old(stack)[0].stream]), outcome.pushes)
                           .(mode := mode, place := if ok then Moved(old(place), outcome) else old(place))
      ensures mode == if ok && outcome.closes then Closing else old(mode)
    {
      hide Chain;
      ghost var start := State().(ran := ran + [stack[0].stream]);
      TopOfChain(currentFile, stack);
      ran := ran + [currentFile.file.stream];
      var i := 0;
      while i < |outcome.pushes|
        invariant 0 <= i <= |outcome.pushes| && Valid() && mode == old(mode) && place == old(place)
        invariant Pushed(State(), outcome.pushes[i..]) == Pushed(start, outcome.pushes)
      {
        assert outcome.pushes[i..][1..] == outcome.pushes[i + 1..] && [outcome.pushes[i]][1..] == [];
        PushFile(outcome.pushes[i]);
        i := i + 1;
      }
      ok := outcome.ok;
      if ok && outcome.closes { mode := Closing; }
      if ok {
        if outcome.view.Some? { place := place.(view := outcome.view); }
        if outcome.viewid.Some? { place := place.(viewid := outcome.viewid); }
      }
    }

    /** ucli_shell_readline, and what the line editor makes of the next lines. */
    method Readline(lines: seq<Line>) returns (result: bool, command: Option<Outcome>, rest: seq<Line>)
      requires Valid() && stack != []
      modifies this`mode
      ensures Valid()
      ensures old(mode) == Closing ==> !result && mode == Closing && rest == lines
      ensures old(mode) != Closing ==>
        var (line, left) := NextLine(lines, stack[0].stream.tty);
        && rest == left && result == (line.Blank? || line.Command?)
        && command == (if line.Command? then Some(line.outcome) else None)
        && mode == if line.Bad? then ScriptError else Ready
    {
      result, command, rest := false, None, lines;
      if mode != Closing {
        mode := Ready;
        var tty := input.value.tty;
        while rest != [] && rest[0].Bad? && tty
          invariant NextLine(rest, tty) == NextLine(lines, tty)
          decreases |rest|
        {
          rest := rest[1..];
        }
        if rest != [] {
          var line := rest[0];
          rest := rest[1..];
          match line {
            case EndOfFile =>
            case Blank => result := true;
            case Bad => mode := ScriptError;
            case Command(outcome) => result, command := true, Some(outcome);
          }
        }
      }
    }

    /** The body of the loop. */
    method TakeTurn(lines: seq<Line>) returns (rest: seq<Line>)
      requires Valid() && running && stack != []
      modifies this
      ensures Valid() && (State(), rest) == Turn(old(State()), lines)
    {
      hide Chain, NextLine, Pushed;
      rest := lines;
      if mode == ScriptError && input.value.tty {
        mode := Ready;
      }
      if mode != ScriptError {
        var command;
        running, command, rest := Readline(lines);
        if running && command.Some? {
          PushedRan(State().(ran := ran + [stack[0].stream]), command.value.pushes);
          var ok := Execute(command.value);
          if !ok {
            TopOfChain(currentFile, stack);
            if currentFile.file.stopOnError && !input.value.tty {
              mode := ScriptError;
            }
          }
        }
      }
      if !running || mode == ScriptError {
        running := PopFile();
      }
    }
  }

  lemma TopOfChain(node: FileNode?, files: seq<File>)
    requires Chain(node, files)
    ensures node == null <==> files == []
    ensures node != null ==> node.file == files[0] && Chain(node.next, files[1..])
  {}

  /** The machine in front of the loop: the given input pushed, the startup
      command executed, which decides whether the loop starts. */
  function Started(input: Stream, startup: Outcome): (m: Machine)
    ensures Sound(m)
  {
    var m0 := Machine(Ready, [], true, Place(None, None), [], [], [input]);
    var m1 := Pushed(m0, [File(input, true)]);
    var m2 := Pushed(m1, startup.pushes);
    StartedIsSound(m0, File(input, true), startup);
    m2.(mode := if startup.ok && startup.closes then Closing else Ready, running := startup.ok,
        place := if startup.ok then Moved(m2.place, startup) else m2.place)
  }

  lemma StartedIsSound(m0: Machine, file: File, startup: Outcome)
    requires m0.stack == [] && m0.pushed == [] && m0.closed == []
    ensures var m2 := Pushed(Pushed(m0, [file]), startup.pushes);
            Sound(m2.(mode := if startup.ok && startup.closes then Closing else Ready, running := startup.ok,
                      place := if startup.ok then Moved(m2.place, startup) else m2.place))
  {
    hide Balanced;
    NothingOpen(m0);
    PushedKeeps(m0, [file]);
    PushedKeeps(Pushed(m0, [file]), startup.pushes);
    var m2 := Pushed(Pushed(m0, [file]), startup.pushes);
    BalancedDespite(m2, if startup.ok && startup.closes then Closing else Ready, startup.ok, m2.ran,
                    if startup.ok then Moved(m2.place, startup) else m2.place);
  }

  lemma NothingOpen(m: Machine)
    requires m.stack == [] && m.pushed == [] && m.closed == []
    ensures Balanced(m)
  {}

  /** ucli_shell_thread with ucli_shell_fini: the run is the machine's, and in
      the end every file that was pushed has been closed as often as that. */
  method Thread(input: Stream, startup: Outcome, lines: seq<Line>) returns (shell: Shell, ghost end: Machine)
    ensures end == Run(Started(input, startup), lines) && !end.running
    ensures shell.stack == [] && shell.pushed == end.pushed && shell.ran == end.ran && shell.place == end.place
    ensures multiset(shell.pushed) == multiset(shell.closed)
  {
    hide Balanced, Turn, Chain, Pushed, Popped, Sound;
    shell := new Shell();
    shell.Start(input, startup);
    var rest := lines;
    end := Run(Started(input, startup), lines);
    RunEnds(Started(input, startup), lines);
    while shell.running
      invariant shell.Valid() && Sound(shell.State()) && Run(shell.State(), rest) == end
      invariant fresh(shell)
      decreases |rest|, |shell.stack|
    {
      SoundRuns(shell.State());
      TurnKeeps(shell.State(), rest);
      rest := shell.TakeTurn(rest);
    }
    assert shell.State() == end;
    shell.Fini();
  }
}
