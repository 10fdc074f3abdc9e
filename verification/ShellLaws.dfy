/** What one turn of the shell does for every kind of line, and what a failure in a
    script means for the rest of the run. */
module ShellLaws {
  import opened CStrings
  import opened ShellRun

  /** The files pushed one after the other, the last one on top. */
  predicate Stacked(stack: seq<File>, pushes: seq<File>, below: seq<File>) {
    && |stack| == |pushes| + |below| && stack[|pushes|..] == below
    && forall i :: 0 <= i < |pushes| ==> stack[i] == pushes[|pushes| - 1 - i]
  }

  /** `more` are the streams of those files. */
  predicate AreStreams(more: seq<Stream>, files: seq<File>) {
    |more| == |files| && forall i :: 0 <= i < |files| ==> more[i] == files[i].stream
  }

  lemma {:induction false} PushedIs(m: Machine, files: seq<File>)
    ensures var p := Pushed(m, files);
            && p == m.(stack := p.stack, pushed := p.pushed) && Stacked(p.stack, files, m.stack)
            && m.pushed <= p.pushed && AreStreams(p.pushed[|m.pushed|..], files)
    decreases |files|
  {
    var p := Pushed(m, files);
    if files == [] {
      assert p.pushed[|m.pushed|..] == [];
    } else {
      var next := m.(stack := [files[0]] + m.stack, pushed := m.pushed + [files[0].stream]);
      PushedIs(next, files[1..]);
      var n := |files| - 1;
      assert p.stack[n..] == [files[0]] + m.stack;
      assert p.stack[|files|..] == p.stack[n..][1..];
      assert p.stack[n] == p.stack[n..][0];
      assert p.pushed[|m.pushed|] == files[0].stream;
      assert forall i :: 0 <= i < n ==> p.pushed[|next.pushed|..][i] == p.pushed[|m.pushed|..][i + 1];
    }
  }

  /** The next line is read: the shell is ready, or on a terminal. */
  predicate Reads(m: Machine) {
    m.running && m.stack != [] && (m.mode == Ready || (m.mode == ScriptError && m.stack[0].stream.tty))
  }

  /** The top file is closed, and the loop goes on if there is one below. */
  predicate TopCloses(m: Machine, stack: seq<File>, next: Machine) {
    stack != [] && next.stack == stack[1..] && next.closed == m.closed + [stack[0].stream]
    && (next.running <==> |stack| > 1)
  }

  predicate NothingCloses(m: Machine, stack: seq<File>, next: Machine) {
    next.stack == stack && next.closed == m.closed && next.running
  }

  /** A command was run from the file on top, which pushed these. */
  predicate RanFromTop(m: Machine, pushes: seq<File>, next: Machine)
    requires m.stack != []
  {
    && next.ran == m.ran + [m.stack[0].stream]
    && m.pushed <= next.pushed && AreStreams(next.pushed[|m.pushed|..], pushes)
  }

  predicate NothingRuns(m: Machine, next: Machine) {
    next.ran == m.ran && next.pushed == m.pushed && next.place == m.place
  }

  lemma CommandTurn(m: Machine, o: Outcome, rest: seq<Line>, pushed: Machine)
    requires Reads(m) && pushed == Pushed(m.(mode := Ready, ran := m.ran + [m.stack[0].stream]), o.pushes)
    ensures var mode := if o.ok then if o.closes then Closing else pushed.mode
                        else if pushed.stack != [] && pushed.stack[0].stopOnError && !pushed.stack[0].stream.tty
                             then ScriptError else pushed.mode;
            var s := pushed.(mode := mode, place := if o.ok then Moved(pushed.place, o) else pushed.place);
            Turn(m, [Command(o)] + rest) == (if !s.running || s.mode == ScriptError then Popped(s) else s, rest)
  {
    hide Pushed, Popped, ShellRun.Moved;
    var lines := [Command(o)] + rest;
    assert NextLine(lines, m.stack[0].stream.tty) == (Command(o), rest) by { assert lines[1..] == rest; }
  }

  predicate StopsOrGoesOn(m: Machine, stack: seq<File>, next: Machine)
    requires stack != []
  {
    if stack[0].stopOnError && !stack[0].stream.tty then next.mode == ScriptError && TopCloses(m, stack, next)
    else next.mode == Ready && NothingCloses(m, stack, next)
  }

  /** A command that fails: the file that is on top afterwards is closed, and the
      error kept, if and only if it stops on errors and is no terminal. Otherwise
      nothing is closed and the shell is ready. */
  lemma FailedCommand(m: Machine, o: Outcome, rest: seq<Line>)
    requires Reads(m) && !o.ok
    ensures var (next, left) := Turn(m, [Command(o)] + rest);
            && left == rest && RanFromTop(m, o.pushes, next) && next.place == m.place
            && exists stack: seq<File> ::
                 (Stacked(stack, o.pushes, m.stack) && stack != [] && StopsOrGoesOn(m, stack, next))
  {
    hide Pushed;
    var start := m.(mode := Ready, ran := m.ran + [m.stack[0].stream]);
    PushedIs(start, o.pushes);
    var p := Pushed(start, o.pushes);
    CommandTurn(m, o, rest, p);
    assert Stacked(p.stack, o.pushes, m.stack) && p.stack != [];
  }

  /** One that fails and pushes nothing: the failing file itself decides. */
  lemma FailedAlone(m: Machine, o: Outcome, rest: seq<Line>)
    requires Reads(m) && !o.ok && o.pushes == []
    ensures var (next, left) := Turn(m, [Command(o)] + rest);
            var top := m.stack[0];
            && left == rest && next.ran == m.ran + [top.stream] && next.pushed == m.pushed && next.place == m.place
            && (next.mode == ScriptError <==> top.stopOnError && !top.stream.tty)
            && if next.mode == ScriptError then TopCloses(m, m.stack, next)
               else next.mode == Ready && NothingCloses(m, m.stack, next)
  {
    FailedCommand(m, o, rest);
    var next := Turn(m, [Command(o)] + rest).0;
    var stack: seq<File> :| Stacked(stack, o.pushes, m.stack) && stack != [] && StopsOrGoesOn(m, stack, next);
    assert stack == stack[0..] == m.stack;
    assert next.pushed == m.pushed + next.pushed[|m.pushed|..];
  }

  /** A command that succeeds closes nothing; the files it pushed are on top, and it
      leads where it says. After the close builtin the shell is closing. */
  lemma GoodCommand(m: Machine, o: Outcome, rest: seq<Line>)
    requires Reads(m) && o.ok
    ensures var (next, left) := Turn(m, [Command(o)] + rest);
            && left == rest && RanFromTop(m, o.pushes, next)
            && Stacked(next.stack, o.pushes, m.stack) && next.closed == m.closed && next.running
            && next.mode == (if o.closes then Closing else Ready)
            && next.place == Place(if o.view.Some? then o.view else m.place.view,
                                   if o.viewid.Some? then o.viewid else m.place.viewid)
  {
    hide Pushed;
    var start := m.(mode := Ready, ran := m.ran + [m.stack[0].stream]);
    PushedIs(start, o.pushes);
    CommandTurn(m, o, rest, Pushed(start, o.pushes));
  }

  /** A blank line does nothing, a line that cannot be parsed ends a script as an
      error does and is passed over on a terminal, and the end of a file closes it. */
  lemma OtherLines(m: Machine, rest: seq<Line>)
    requires Reads(m)
    ensures Turn(m, [Blank] + rest) == (m.(mode := Ready), rest)
    ensures m.stack[0].stream.tty ==> Turn(m, [Bad] + rest) == Turn(m, rest)
    ensures !m.stack[0].stream.tty ==>
      var (next, left) := Turn(m, [Bad] + rest);
      left == rest && next.mode == ScriptError && TopCloses(m, m.stack, next) && NothingRuns(m, next)
    ensures var (next, left) := Turn(m, [EndOfFile] + rest);
            left == rest && next.mode == Ready && TopCloses(m, m.stack, next) && NothingRuns(m, next)
    ensures Turn(m, []) == Turn(m, [EndOfFile])
  {
    assert ([Blank] + rest)[1..] == rest && ([Bad] + rest)[1..] == rest && ([EndOfFile] + rest)[1..] == rest;
    assert [EndOfFile][1..] == [];
  }

  /** After an error in a script, and after the close builtin, the top file is closed
      and no line is read. */
  lemma NoLineRead(m: Machine, lines: seq<Line>)
    requires m.running && m.stack != []
    requires m.mode == Closing || (m.mode == ScriptError && !m.stack[0].stream.tty)
    ensures var (next, left) := Turn(m, lines);
            left == lines && next.mode == m.mode && TopCloses(m, m.stack, next) && NothingRuns(m, next)
  {}

  // ---------- whole runs ----------

  /** What was run since, was run from a file that was open then or was pushed since. */
  predicate FromOpen(m: Machine, end: Machine) {
    && m.ran <= end.ran && m.pushed <= end.pushed
    && forall k :: |m.ran| <= k < |end.ran| ==>
         (exists f :: f in m.stack && f.stream == end.ran[k]) || end.ran[k] in end.pushed[|m.pushed|..]
  }

  lemma TurnFromOpen(m: Machine, lines: seq<Line>)
    requires m.running && m.stack != []
    ensures var next := Turn(m, lines).0;
            && FromOpen(m, next)
            && forall f :: f in next.stack ==> f in m.stack || f.stream in next.pushed[|m.pushed|..]
  {
    hide Turn;
    assert m.stack[0] in m.stack;
    if !Reads(m) {
      NoLineRead(m, lines);
    } else {
      var (line, rest) := NextLine(lines, m.stack[0].stream.tty);
      SameLine(m, lines);
      if line.Command? { CommandFromOpen(m, line.outcome, rest); } else { OtherLines(m, rest); }
    }
  }

  /** What a terminal rejects is passed over, and input that has come to its end keeps
      delivering the end. */
  lemma SameLine(m: Machine, lines: seq<Line>)
    requires Reads(m)
    ensures var (line, rest) := NextLine(lines, m.stack[0].stream.tty);
            Turn(m, lines) == Turn(m, [line] + rest)
  {
    hide Served, Popped;
    var (line, rest) := NextLine(lines, m.stack[0].stream.tty);
    assert ([line] + rest)[1..] == rest;
    assert NextLine([line] + rest, m.stack[0].stream.tty) == (line, rest);
  }

  lemma CommandFromOpen(m: Machine, o: Outcome, rest: seq<Line>)
    requires Reads(m)
    ensures var next := Turn(m, [Command(o)] + rest).0;
            && FromOpen(m, next)
            && forall f :: f in next.stack ==> f in m.stack || f.stream in next.pushed[|m.pushed|..]
  {
    hide Turn;
    var next := Turn(m, [Command(o)] + rest).0;
    assert m.stack[0] in m.stack;
    if o.ok {
      GoodCommand(m, o, rest);
      StackFrom(next.stack, o.pushes, m.stack, next.pushed[|m.pushed|..]);
    } else {
      FailedCommand(m, o, rest);
      var stack: seq<File> :| Stacked(stack, o.pushes, m.stack) && stack != [] && StopsOrGoesOn(m, stack, next);
      StackFrom(stack, o.pushes, m.stack, next.pushed[|m.pushed|..]);
    }
  }

  lemma StackFrom(stack: seq<File>, pushes: seq<File>, below: seq<File>, streams: seq<Stream>)
    requires Stacked(stack, pushes, below) && AreStreams(streams, pushes)
    ensures forall f :: f in stack ==> f in below || f.stream in streams
  {
    forall f | f in stack ensures f in below || f.stream in streams {
      var i :| 0 <= i < |stack| && stack[i] == f;
      if i >= |pushes| {
        assert stack[|pushes|..][i - |pushes|] == f;
      } else {
        assert streams[|pushes| - 1 - i] == f.stream;
      }
    }
  }

  lemma JoinFromOpen(m: Machine, next: Machine, end: Machine)
    requires FromOpen(m, next) && FromOpen(next, end)
    requires forall f :: f in next.stack ==> f in m.stack || f.stream in next.pushed[|m.pushed|..]
    ensures FromOpen(m, end)
  {
    var since, more := next.pushed[|m.pushed|..], end.pushed[|m.pushed|..];
    assert more == since + end.pushed[|next.pushed|..];
    forall k | |m.ran| <= k < |end.ran|
      ensures (exists f :: f in m.stack && f.stream == end.ran[k]) || end.ran[k] in more
    {
      if k < |next.ran| {
        assert end.ran[k] == next.ran[k];
      } else if f :| f in next.stack && f.stream == end.ran[k] {
        assert f in m.stack || f.stream in since;
      }
    }
  }

  /** Commands run only from files that are open. */
  lemma {:induction false} RunFromOpen(m: Machine, lines: seq<Line>)
    requires Sound(m)
    ensures FromOpen(m, Run(m, lines))
    decreases |lines|, |m.stack|
  {
    hide Sound, Turn, FromOpen;
    if m.running {
      SoundRuns(m);
      TurnKeeps(m, lines);
      var (next, rest) := Turn(m, lines);
      RunFromOpen(next, rest);
      TurnFromOpen(m, lines);
      JoinFromOpen(m, next, Run(next, rest));
    } else {
      NoneSince(m);
    }
  }

  lemma NoneSince(m: Machine)
    ensures FromOpen(m, m)
  {}

  /** After a failure in a script that stops on errors no later line of it runs in the
      whole run, unless it is open below or is opened again. */
  lemma NoLaterLine(m: Machine, o: Outcome, rest: seq<Line>)
    requires Sound(m) && Reads(m) && !o.ok && o.pushes == []
    requires m.stack[0].stopOnError && !m.stack[0].stream.tty
    ensures var end, script := Run(m, [Command(o)] + rest), m.stack[0].stream;
            && m.pushed <= end.pushed && m.ran + [script] <= end.ran
            && forall k :: |m.ran| < k < |end.ran| && end.ran[k] == script ==>
                 (exists f :: f in m.stack[1..] && f.stream == script) || script in end.pushed[|m.pushed|..]
  {
    hide Sound, Turn, Balanced;
    var lines := [Command(o)] + rest;
    SoundRuns(m);
    TurnKeeps(m, lines);
    FailedAlone(m, o, rest);
    RunFromOpen(Turn(m, lines).0, Turn(m, lines).1);
  }

  /** And the scripts around it are closed too, up to the first terminal, before
      another line is read. */
  lemma ScriptsClose(m: Machine, o: Outcome, rest: seq<Line>, n: nat)
    requires Reads(m) && !o.ok && o.pushes == [] && m.stack[0].stopOnError
    requires 0 < n <= |m.stack| && forall i :: 0 <= i < n ==> !m.stack[i].stream.tty
    ensures var (next, left) := Turns(m, [Command(o)] + rest, n);
            && left == rest && next.mode == ScriptError && next.stack == m.stack[n..]
            && (next.running <==> n < |m.stack|)
            && next.ran == m.ran + [m.stack[0].stream] && next.pushed == m.pushed && next.place == m.place
            && |next.closed| == |m.closed| + n && m.closed <= next.closed
            && forall i :: 0 <= i < n ==> next.closed[|m.closed| + i] == m.stack[i].stream
  {
    hide Turn;
    FailedAlone(m, o, rest);
    var (first, left) := Turn(m, [Command(o)] + rest);
    assert first.stack == m.stack[1..];
    if n == 1 {
      assert Turns(first, left, 0) == (first, left);
    } else {
      assert forall i :: 0 <= i < n - 1 ==> first.stack[i] == m.stack[i + 1];
      ScriptsUnwind(first, left, n - 1);
      assert Turns(m, [Command(o)] + rest, n) == (Below(first, n - 1), rest);
      assert first.stack[n - 1..] == m.stack[n..];
    }
  }

  /** In front of the loop: the input is at the bottom, under what the startup command
      pushed, and the loop starts if that command succeeds. */
  lemma StartedIs(input: Stream, startup: Outcome)
    ensures var m := Started(input, startup);
            && Stacked(m.stack, startup.pushes, [File(input, true)]) && m.ran == [input] && m.closed == []
            && (m.running <==> startup.ok) && m.mode == (if startup.ok && startup.closes then Closing else Ready)
            && m.place == (if startup.ok then Place(startup.view, startup.viewid) else Place(None, None))
  {
    var m0 := Machine(Ready, [], true, Place(None, None), [], [], [input]);
    var m1 := Pushed(m0, [File(input, true)]);
    PushedIs(m0, [File(input, true)]);
    PushedIs(m1, startup.pushes);
    assert m1.stack == [File(input, true)] by { assert m1.stack[1..] == []; }
  }
}
