/** Whole sessions with the line editor: what every sequence of keys does to the
    line, and when the terminal keeps showing it. */
module LineSession {
  import opened CStrings
  import opened Terminal
  import opened LineEditor
  import opened LineCompletion

  // ---------- which updates are right ----------

  /** Every deletion that leaves the insertion point where it cut. */
  lemma DeletionUpdates(v: View, start: nat, end: nat, style: Style)
    requires v.point <= |v.text| && start <= end && start <= |v.text| && !style.echo.Silent?
    ensures Updates(v, View(Deleted(v, start, end).text, start), style)
  {
    var now := Deleted(v, start, end).text;
    var k := |v.text| - |now|;
    if k > 0 && now <= v.text {
      assert From(now, start) == now[start..] == From(v.text, start + k);
    }
  }

  /** Typing: right at the end of the line, and elsewhere unless what stands
      behind the insertion point is what the text pushed in would show. */
  lemma TypingUpdates(v: View, t: string, style: Style)
    requires v.point <= |v.text| && t != "" && !style.echo.Silent?
    ensures Updates(v, Inserted(v, t), style) <==>
      v.point == |v.text| || !(v.text[v.point..] <= t + v.text[v.point..])
  {
    var front, rest := v.text[..v.point], v.text[v.point..];
    assert Inserted(v, t).text == front + (t + rest);
    assert v.text == front + rest;
    PrefixSplit(front, rest, t + rest);
  }

  lemma PrefixSplit(a: string, b: string, c: string)
    ensures a + b <= a + c <==> b <= c
  {
    if b <= c { assert (a + c)[..|a + b|] == a + b; }
    if a + b <= a + c {
      assert c == (a + c)[|a|..] && b == (a + b)[|a|..];
      assert c[..|b|] == b;
    }
  }

  /** A line of the history: right unless it extends the old line and the cursor
      was not at its end. */
  lemma HistoryUpdates(v: View, line: string, style: Style)
    requires v.point <= |v.text| && !style.echo.Silent?
    ensures Updates(v, View(line, |line|), style) <==>
      v.point == |v.text| || line == v.text || !(v.text <= line)
  {
    if v.text <= line && |v.text| == |line| { assert v.text == line; }
  }

  /** In silence: right when one line starts with the other, and otherwise when
      the cursor is in front of the old line and behind the new one, or there is
      no prompt to move into. */
  lemma SilentUpdates(v: View, w: View, prompt: string)
    ensures Updates(v, w, Style(prompt, Silent)) <==>
      || prompt == "" || v.text <= w.text || w.text <= v.text
      || (v.point == 0 && w.point == |w.text|)
  {
    if |v.text| == |w.text| && (v.text <= w.text || w.text <= v.text) { assert v.text == w.text; }
  }

  /** Three ways to a wrong display: a letter typed in front of itself, a longer
      line of the history fetched after a step to the left, and a letter deleted
      from the middle of a line that is not echoed. */
  lemma WrongDisplays(prompt: string)
    ensures !Updates(View("aa", 1), Inserted(View("aa", 1), "a"), Style(prompt, Plain))
    ensures !Updates(View("ls", 1), View("ls -l", 5), Style(prompt, Plain))
    ensures prompt != "" ==> !Updates(View("ab", 1), View("b", 0), Style(prompt, Silent))
  {
    TypingUpdates(View("aa", 1), "a", Style(prompt, Plain));
    assert "aa"[1..] == "a" && "a" + "a" == "aa" && "a" <= "aa";
    HistoryUpdates(View("ls", 1), "ls -l", Style(prompt, Plain));
    assert "ls -l"[..2] == "ls";
    SilentUpdates(View("ab", 1), View("b", 0), prompt);
    assert !("b" <= "ab") && !("ab" <= "b") by { assert "ab"[0] != "b"[0]; }
  }

  // ---------- sessions ----------

  /** A key, with the history entry it finds, if any, and what that holds, or with
      the completions it finds and their substitution. */
  datatype Event =
    | Default(key: nat) | Interrupt | Home | EndOfLine | Left | Right | Backspace | Delete | EraseLine | Kill | Yank
    | Up(entry: array?<char>, content: string) | Down(entry: array?<char>, content: string)
    | Tab(substitution: CString, matches: seq<string>)
    | Enter | ClearScreen | Unknown

  /** The keys that finish a line. */
  predicate Ends(e: Event) {
    e.Enter? || e.Interrupt?
  }

  /** The line, whether it is the buffer, what the buffer holds and its size, what
      was killed last, and the limit of a line's length. */
  datatype State = State(view: View, own: bool, typed: string, size: nat, killed: Option<string>, limit: nat)

  predicate IsState(s: State) {
    s.view.point <= |s.view.text| && (s.own ==> s.typed == s.view.text)
    && (s.killed.Some? ==> '\0' !in s.killed.value) && '\0' !in s.view.text && '\0' !in s.typed
  }

  /** The size of the buffer once the line is in it. */
  function Room(s: State): nat {
    if s.own then s.size else |s.view.text|
  }

  function Edit(s: State, v: View): State {
    s.(view := v, own := true, typed := v.text, size := Room(s))
  }

  /** Typing, unless there is no room. */
  function Type(s: State, t: string): State
    requires IsState(s)
  {
    var len := |s.view.text| + |t|;
    Edit(s, if Fits(Room(s), len, s.limit) then Inserted(s.view, t) else s.view)
      .(size := SizeFor(Room(s), len, s.limit))
  }

  /** The substitution in the place of the word, unless there is no room. */
  function Filled(s: State, substitution: CString): (t: State)
    requires IsState(s)
    ensures IsState(t)
  {
    if !Completes(s.view, substitution) then s
    else
      CutKeeps(s.view);
      TypeIsState(Edit(s, Cut(s.view)), substitution);
      Type(Edit(s, Cut(s.view)), substitution)
  }

  lemma CutKeeps(v: View)
    requires v.point <= |v.text|
    ensures '\0' !in v.text ==> '\0' !in Cut(v).text
  {}

  lemma TypeIsState(s: State, t: CString)
    requires IsState(s)
    ensures IsState(Type(s, t))
  {}

  /** The word completed, and a blank behind the only match. */
  function Tabbed(s: State, substitution: CString, matches: seq<string>): (t: State)
    requires IsState(s)
    ensures IsState(t)
  {
    if matches == [] then s
    else if |matches| > 1 || Fails(s.view, substitution, Room(s), s.limit) then Filled(s, substitution)
    else
      TypeIsState(Filled(s, substitution), " ");
      Type(Filled(s, substitution), " ")
  }

  function Handled(s: State, e: Event): State
    requires IsState(s)
  {
    var v, p, n := s.view, s.view.point, |s.view.text|;
    match e
    case Default(key) => Type(s, if key < 256 then KeyText(key) else "")
    case Interrupt => Edit(s, View("", 0))
    case Home => s.(view := View(v.text, 0))
    case EndOfLine => s.(view := View(v.text, n))
    case Left => if p > 0 then s.(view := View(v.text, p - 1)) else s
    case Right => if p < n then s.(view := View(v.text, p + 1)) else s
    case Backspace => if p > 0 then Edit(s, View(v.text[..p - 1] + v.text[p..], p - 1)) else s
    case Delete => if p < n then Edit(s, View(v.text[..p] + v.text[p + 1..], p)) else s
    case EraseLine => Edit(s, View(if p < n then v.text[p + 1..] else "", 0))
    case Kill => Edit(s.(killed := Some(if p <= |s.typed| then s.typed[p..] else "")), View(v.text[..p], p))
    case Yank => if s.killed.Some? then Type(s, s.killed.value) else s
    case Up(entry, content) => if entry == null then s else s.(view := View(content, |content|), own := false)
    case Down(entry, content) =>
      if s.own then s
      else if entry == null then s.(view := View(s.typed, |s.typed|), own := true)
      else s.(view := View(content, |content|), own := false)
    case Tab(substitution, matches) => Tabbed(s, substitution, matches)
    case _ => s
  }

  /** The key is one of the table, history lines are C strings, where a line of
      the history is killed the buffer is long enough, and a line that is completed
      has a length below 2^32 - 1. */
  predicate Able(s: State, e: Event) {
    match e
    case Default(key) => key < 256
    case Kill => s.view.point <= |s.typed|
    case Up(_, content) => '\0' !in content
    case Down(_, content) => '\0' !in content
    case Tab(_, _) => |s.view.text| < 0xFFFF_FFFF
    case _ => true
  }

  lemma HandledIsState(s: State, e: Event)
    requires IsState(s) && Able(s, e)
    ensures IsState(Handled(s, e))
  {
    hide Tabbed;
  }

  /** One update from the old line to the new one is right. */
  predicate Agrees(s: State, e: Event, style: Style)
    requires IsState(s)
  {
    Updates(s.view, Handled(s, e).view, style)
  }

  /** Whether it is right, told from the line and the key. */
  predicate Safe(s: State, e: Event, style: Style)
    requires IsState(s) && !e.Tab?
  {
    if style.echo.Silent? then SafeInSilence(s, e, style.prompt) else SafeWithEcho(s, e)
  }

  /** With an echo, keys that move or delete always are. */
  predicate SafeWithEcho(s: State, e: Event)
    requires IsState(s) && !e.Tab?
  {
    match e
    case Default(key) => key >= 256 || SafeToType(s, KeyText(key))
    case Yank => s.killed.Some? ==> SafeToType(s, s.killed.value)
    case Up(entry, content) => entry == null || SafeToFetch(s.view, content)
    case Down(entry, content) => s.own || SafeToFetch(s.view, if entry == null then s.typed else content)
    case _ => true
  }

  predicate SafeToType(s: State, t: string)
    requires IsState(s)
  {
    var rest := s.view.text[s.view.point..];
    rest == "" || t == "" || !(rest <= t + rest) || !Fits(Room(s), |s.view.text| + |t|, s.limit)
  }

  predicate SafeToFetch(v: View, line: string) {
    v.point == |v.text| || line == v.text || !(v.text <= line)
  }

  /** Without one, keys that move or that cut the line off; others in so far as
      the old line and the new one start alike. */
  predicate SafeInSilence(s: State, e: Event, prompt: string)
    requires IsState(s) && !e.Tab?
  {
    var v, p, n := s.view, s.view.point, |s.view.text|;
    prompt == "" ||
    match e
    case Default(key) => key >= 256 || SilentToType(s, KeyText(key))
    case Yank => s.killed.Some? ==> SilentToType(s, s.killed.value)
    case Backspace => p > 0 ==> v.text[p..] <= v.text[p - 1..]
    case Delete => p < n ==> v.text[p + 1..] <= v.text[p..]
    case EraseLine => p < n ==> v.text[p + 1..] <= v.text
    case Up(entry, content) => entry == null || SilentToFetch(v, content)
    case Down(entry, content) => s.own || SilentToFetch(v, if entry == null then s.typed else content)
    case _ => true
  }

  predicate SilentToType(s: State, t: string)
    requires IsState(s)
  {
    var rest := s.view.text[s.view.point..];
    rest <= t + rest || !Fits(Room(s), |s.view.text| + |t|, s.limit)
  }

  predicate SilentToFetch(v: View, line: string) {
    v.point == 0 || v.text <= line || line <= v.text
  }

  lemma AgreesWhenSafe(s: State, e: Event, style: Style)
    requires IsState(s) && Able(s, e) && !e.Tab?
    ensures Agrees(s, e, style) <==> Safe(s, e, style)
  {
    hide Agrees, IsState, Able, SafeWithEcho, SafeInSilence;
    if style.echo.Silent? {
      AgreesInSilence(s, e, style.prompt);
      assert style == Style(style.prompt, Silent);
    } else {
      AgreesWithEcho(s, e, style);
    }
  }

  predicate Deletes(e: Event) {
    e.Backspace? || e.Delete? || e.EraseLine? || e.Kill? || e.Interrupt?
  }

  lemma AgreesWithEcho(s: State, e: Event, style: Style)
    requires IsState(s) && Able(s, e) && !e.Tab? && !style.echo.Silent?
    ensures Agrees(s, e, style) <==> SafeWithEcho(s, e)
  {
    hide Updates, Type, SafeToType, SafeToFetch, KeyText;
    SameUpdates(s.view, Handled(s, e).view, style);
    if Deletes(e) {
      DeletionAgrees(s, e, style);
    } else {
      match e
      case Default(key) => TypeAgrees(s, KeyText(key), style);
      case Yank =>
        if s.killed.Some? { TypeAgrees(s, s.killed.value, style); }
        SameUpdates(s.view, s.view, style);
      case Up(entry, content) => FetchAgrees(s, content, style);
      case Down(entry, content) => FetchAgrees(s, if entry == null then s.typed else content, style);
      case _ =>
    }
  }

  lemma DeletionAgrees(s: State, e: Event, style: Style)
    requires IsState(s) && Able(s, e) && !style.echo.Silent? && Deletes(e)
    ensures Agrees(s, e, style)
  {
    hide Updates;
    var v, p := s.view, s.view.point;
    match e
    case Backspace => if p > 0 { CutUpdates(v, p - 1, style); } else { SameUpdates(v, v, style); }
    case Delete => if p < |v.text| { CutUpdates(v, p, style); } else { SameUpdates(v, v, style); }
    case EraseLine => EraseUpdates(v, style);
    case Kill => KillUpdates(v, style);
    case Interrupt => EmptyUpdates(v, style);
  }

  lemma CutUpdates(v: View, i: nat, style: Style)
    requires i < |v.text| && v.point <= |v.text| && !style.echo.Silent?
    ensures Updates(v, View(v.text[..i] + v.text[i + 1..], i), style)
  {
    hide Updates;
    DeletionUpdates(v, i, i, style);
  }

  lemma EraseUpdates(v: View, style: Style)
    requires v.point <= |v.text| && !style.echo.Silent?
    ensures Updates(v, View(if v.point < |v.text| then v.text[v.point + 1..] else "", 0), style)
  {
    hide Updates;
    DeletionUpdates(v, 0, v.point, style);
    assert Deleted(v, 0, v.point).text == if v.point < |v.text| then v.text[v.point + 1..] else "";
  }

  lemma KillUpdates(v: View, style: Style)
    requires v.point <= |v.text| && !style.echo.Silent?
    ensures Updates(v, View(v.text[..v.point], v.point), style)
  {
    hide Updates;
    DeletionUpdates(v, v.point, |v.text|, style);
    assert Deleted(v, v.point, |v.text|).text == v.text[..v.point];
  }

  lemma EmptyUpdates(v: View, style: Style)
    requires v.point <= |v.text| && !style.echo.Silent?
    ensures Updates(v, View("", 0), style)
  {
    hide Updates;
    DeletionUpdates(v, 0, |v.text|, style);
    assert Deleted(v, 0, |v.text|).text == "";
  }

  lemma TypeAgrees(s: State, t: string, style: Style)
    requires IsState(s) && !style.echo.Silent?
    ensures Updates(s.view, Type(s, t).view, style) <==> SafeToType(s, t)
  {
    hide Inserted, Updates, SizeFor, Fits;
    if t == "" {
      SameUpdates(s.view, Inserted(s.view, t), style);
    } else {
      TypingUpdates(s.view, t, style);
    }
    SameUpdates(s.view, s.view, style);
  }

  lemma FetchAgrees(s: State, line: string, style: Style)
    requires IsState(s) && !style.echo.Silent?
    ensures Updates(s.view, View(line, |line|), style) <==> SafeToFetch(s.view, line)
    ensures Updates(s.view, s.view, style)
  {
    hide Updates;
    HistoryUpdates(s.view, line, style);
    SameUpdates(s.view, s.view, style);
  }

  /** Moving the cursor, or nothing at all. */
  lemma SameUpdates(v: View, w: View, style: Style)
    ensures v.text == w.text ==> Updates(v, w, style)
    ensures v.point <= |v.text| ==> Inserted(v, "").text == v.text
  {
    if v.point <= |v.text| { assert v.text[..v.point] + "" + v.text[v.point..] == v.text; }
  }

  lemma AgreesInSilence(s: State, e: Event, prompt: string)
    requires IsState(s) && Able(s, e) && !e.Tab?
    ensures Agrees(s, e, Style(prompt, Silent)) <==> SafeInSilence(s, e, prompt)
  {
    hide Updates, Type, SilentToType, KeyText;
    var v, w, p := s.view, Handled(s, e).view, s.view.point;
    SilentUpdates(v, w, prompt);
    match e
    case Default(key) => SilentTypeAgrees(s, KeyText(key), prompt);
    case Yank => if s.killed.Some? { SilentTypeAgrees(s, s.killed.value, prompt); }
    case Backspace => if p > 0 { CutAgrees(v, p - 1, prompt); }
    case Delete => if p < |v.text| { CutAgrees(v, p, prompt); }
    case _ =>
  }

  /** One letter less. */
  lemma CutAgrees(v: View, i: nat, prompt: string)
    requires i < |v.text| && i <= v.point <= i + 1
    ensures Updates(v, View(v.text[..i] + v.text[i + 1..], i), Style(prompt, Silent)) <==>
      prompt == "" || v.text[i + 1..] <= v.text[i..]
  {
    hide Updates;
    var w := View(v.text[..i] + v.text[i + 1..], i);
    SilentUpdates(v, w, prompt);
    assert v.text == v.text[..i] + v.text[i..];
    PrefixSplit(v.text[..i], v.text[i + 1..], v.text[i..]);
  }

  lemma SilentTypeAgrees(s: State, t: string, prompt: string)
    requires IsState(s)
    ensures Updates(s.view, Type(s, t).view, Style(prompt, Silent)) <==> prompt == "" || SilentToType(s, t)
  {
    hide Updates, SizeFor, Fits, Inserted;
    SilentInsert(s.view, t, prompt);
    SilentUpdates(s.view, s.view, prompt);
  }

  lemma SilentInsert(v: View, t: string, prompt: string)
    requires v.point <= |v.text|
    ensures Updates(v, Inserted(v, t), Style(prompt, Silent)) <==>
      prompt == "" || v.text[v.point..] <= t + v.text[v.point..]
  {
    hide Updates;
    var w, front, rest := Inserted(v, t), v.text[..v.point], v.text[v.point..];
    SilentUpdates(v, w, prompt);
    assert w.text == front + (t + rest) && v.text == front + rest;
    InsertPrefix(front, t, rest);
  }

  lemma InsertPrefix(front: string, t: string, rest: string)
    ensures var v, w := front + rest, front + (t + rest);
            v <= w || w <= v || (front == "" && |front| + |t| == |w|) <==> rest <= t + rest
  {
    PrefixSplit(front, rest, t + rest);
    PrefixSplit(front, t + rest, rest);
    if t + rest <= rest { assert t + rest == rest; }
  }

  // ---------- the two displays after tab ----------

  /** Whether the display is right in the end. With an echo the second update
      repairs what the first got wrong, unless it prints only the blank. */
  predicate SafeToComplete(s: State, substitution: CString, matches: seq<string>, style: Style)
    requires IsState(s)
  {
    var v, w := s.view, Completed(s.view, substitution);
    if matches == [] then true
    else if Fails(v, substitution, Room(s), s.limit) then Updates(v, Cut(v), style)
    else if |matches| > 1 then Begins(w, style)
    else if !RoomForBlank(s, substitution) then Updates(v, w, style)
    else SafeToAddBlank(v, w, style)
  }

  predicate RoomForBlank(s: State, substitution: CString)
    requires IsState(s)
  {
    var t := Filled(s, substitution);
    Fits(Room(t), |t.view.text| + 1, s.limit)
  }

  predicate SafeToAddBlank(v: View, w: View, style: Style)
    requires w.point <= |w.text|
  {
    var rest := w.text[w.point..];
    if style.echo.Silent? then Updates(v, w, style) && Updates(w, Inserted(w, " "), style)
    else if rest == "" then Updates(v, w, style)
    else !(rest <= " " + rest)
  }

  /** The line after the first update and after the second. */
  function Twice(v: View, w: View, x: View, style: Style): Screen
    requires w.point <= |w.text| && x.point <= |x.text|
  {
    Updated(Updated(Showing(v, style), v, w, style.echo), w, x, style.echo)
  }

  lemma BlankShows(v: View, substitution: CString, style: Style)
    requires v.point <= |v.text| < 0xFFFF_FFFF
    ensures var w := Completed(v, substitution);
            var x := Inserted(w, " ");
            x.point <= |x.text| && (Twice(v, w, x, style) == Showing(x, style) <==> SafeToAddBlank(v, w, style))
  {
    hide Updated, Updates, Showing, Completed;
    var w := Completed(v, substitution);
    var x := Inserted(w, " ");
    UpdatedShows(v, w, style);
    UpdatedShows(w, x, style);
    if style.echo.Silent? {
      SilentTwice(v, w, x, style);
    } else {
      TypingUpdates(w, " ", style);
      if !Updates(v, w, style) {
        WrongCompletion(v, substitution, style);
        if w.text <= x.text {
          StaysWrong(v, w, x, style);
        } else {
          Repaired(v, w, x, style);
        }
        AddsBlank(w);
      }
    }
  }

  /** The blank is all that is new if and only if what is behind it starts alike. */
  lemma AddsBlank(w: View)
    requires w.point <= |w.text|
    ensures w.text <= Inserted(w, " ").text <==> w.text[w.point..] <= " " + w.text[w.point..]
  {
    var front, rest := w.text[..w.point], w.text[w.point..];
    assert Inserted(w, " ").text == front + (" " + rest) && w.text == front + rest;
    PrefixSplit(front, rest, " " + rest);
  }

  /** The first update is wrong only where it prints what extends the line with the
      cursor not at its end. */
  lemma WrongCompletion(v: View, substitution: CString, style: Style)
    requires v.point <= |v.text| < 0xFFFF_FFFF && !style.echo.Silent?
    requires !Updates(v, Completed(v, substitution), style)
    ensures var w := Completed(v, substitution);
            var k := |w.text| - |v.text|;
            && k > 0 && v.text <= w.text && v.point < |v.text|
            && if w.point == |w.text| then v.point == 0 else w.point == v.point + k
  {
    var s, w := WordStart(v.text, v.point), Completed(v, substitution);
  }

  /** With an echo, the update that takes the word away is right, and that to the
      completed line in so far as it is for a line of the history. */
  lemma CompletionUpdates(v: View, substitution: CString, style: Style)
    requires v.point <= |v.text| < 0xFFFF_FFFF && !style.echo.Silent?
    ensures Updates(v, Cut(v), style)
    ensures Updates(v, Completed(v, substitution), style) <==> SafeToFetch(v, Completed(v, substitution).text)
  {
    hide WordStart, Completed;
    CutUpdate(v, style);
    var w := Completed(v, substitution);
    if Updates(v, w, style) {
      if v.text <= w.text && |v.text| == |w.text| { assert v.text == w.text; }
    } else {
      WrongCompletion(v, substitution, style);
    }
  }

  lemma CutUpdate(v: View, style: Style)
    requires v.point <= |v.text| < 0xFFFF_FFFF && !style.echo.Silent?
    ensures Updates(v, Cut(v), style)
  {
    hide WordStart, Updates;
    var s, last := WordStart(v.text, v.point), LastToDelete(v);
    DeletionUpdates(v, if s > last then last else s, last, style);
  }

  /** Tab behind "ls" with one blank behind it, when that is the only match: the new
      blank is printed over the old one. */
  lemma WrongAfterTab(s: State, prompt: string)
    requires IsState(s) && s.view == View("ls ", 2) && s.limit == 0
    ensures var e := Tab("ls", ["ls"]);
            Handled(s, e).view == View("ls  ", 3) && Able(s, e) && !Good(s, e, Style(prompt, Plain))
  {
    hide Updates;
    var t := "ls ";
    assert WordStart(t, 0) == 0;
    assert WordStart(t, 1) == 0 by { assert t[0] == 'l'; }
    assert WordStart(t, 2) == 0 by { assert t[1] == 's'; }
    assert "ls" <= t[0..] && t[2..] == " " && " " <= " " + t[2..];
    assert Inserted(s.view, " ") == View("ls  ", 3) by { assert t[..2] + " " + t[2..] == "ls  "; }
  }

  lemma PrintedSize(s: Screen, t: string)
    requires t != "" && s.cursor <= |s.cells|
    ensures var r := Printed(s, t);
            && r.cursor == s.cursor + |t| && |r.cells| == if r.cursor <= |s.cells| then |s.cells| else r.cursor
  {}

  lemma FirstUpdate(v: View, w: View, style: Style)
    requires v.point <= |v.text| < |w.text| && v.text <= w.text && w.point <= |w.text| && !style.echo.Silent?
    ensures var k := |w.text| - |v.text|;
            var row := Printed(Screen(Mask(v.text, style.echo), v.point), Mask(w.text[|v.text|..], style.echo));
            && Updated(Showing(v, style), v, w, style.echo) == Behind(style.prompt, row)
            && row.cursor == v.point + k && |row.cells| == if row.cursor <= |v.text| then |v.text| else row.cursor
  {
    hide Printed;
    var row, added := Screen(Mask(v.text, style.echo), v.point), Mask(w.text[|v.text|..], style.echo);
    BehindPrinted(style.prompt, row, added);
    PrintedSize(row, added);
  }

  lemma StaysWrong(v: View, w: View, x: View, style: Style)
    requires v.point < |v.text| < |w.text| && v.text <= w.text && w.point <= |w.text| && !style.echo.Silent?
    requires |x.text| == |w.text| + 1 && w.text <= x.text && x.point <= |x.text|
    ensures Twice(v, w, x, style) != Showing(x, style)
  {
    hide Printed;
    FirstUpdate(v, w, style);
    var row := Printed(Screen(Mask(v.text, style.echo), v.point), Mask(w.text[|v.text|..], style.echo));
    var added := Mask(x.text[|w.text|..], style.echo);
    BehindPrinted(style.prompt, row, added);
    PrintedSize(row, added);
    assert |Printed(row, added).cells| < |x.text|;
    BehindSame(style.prompt, Printed(row, added), Screen(Mask(x.text, style.echo), x.point));
  }

  lemma Repaired(v: View, w: View, x: View, style: Style)
    requires v.point < |v.text| < |w.text| && v.text <= w.text && !style.echo.Silent?
    requires w.point == v.point + |w.text| - |v.text| <= |w.text|
    requires |x.text| == |w.text| + 1 && !(w.text <= x.text) && x.point <= |x.text|
    ensures Twice(v, w, x, style) == Showing(x, style)
  {
    hide Printed, Erased;
    FirstUpdate(v, w, style);
    var row := Printed(Screen(Mask(v.text, style.echo), v.point), Mask(w.text[|v.text|..], style.echo));
    var start := Screen(row.cells, 0);
    assert Back(Behind(style.prompt, row), w.point) == Behind(style.prompt, start);
    BehindErased(style.prompt, start, |w.text|);
    BehindPrinted(style.prompt, Erased(start, |w.text|), Mask(x.text, style.echo));
    RowReplaced(row.cells, Mask(x.text, style.echo), |w.text|);
  }

  /** In silence nothing is put back that was taken from the prompt. */
  lemma SilentTwice(v: View, w: View, x: View, style: Style)
    requires v.point <= |v.text| && w.point <= |w.text| && x.point <= |x.text| && style.echo.Silent?
    ensures Twice(v, w, x, style) == Showing(x, style) <==> Updates(v, w, style) && Updates(w, x, style)
  {
    hide Updated, Updates;
    UpdatedShows(v, w, style);
    UpdatedShows(w, x, style);
    assert Showing(v, style) == Screen(style.prompt, |style.prompt|) == Showing(x, style) == Showing(w, style);
    OnlyLess(Showing(v, style), v, w, |style.prompt|);
    OnlyLess(Updated(Showing(v, style), v, w, Silent), w, x, |style.prompt|);
  }

  predicate Within(s: Screen, n: nat) {
    |s.cells| <= n && s.cursor <= n
  }

  predicate Less(s: Screen, n: nat) {
    Within(s, n) && (|s.cells| < n || s.cursor < n)
  }

  lemma OnlyLess(s: Screen, last: View, now: View, n: nat)
    requires now.point <= |now.text| && Within(s, n)
    ensures var r := Updated(s, last, now, Silent);
            Within(r, n) && (Less(s, n) ==> Less(r, n)) && (r == s || Less(r, n))
  {}

  // ---------- keys and the terminal ----------

  ghost function StateOf(editor: Editor): State
    reads editor
  {
    State(editor.Current(), editor.line == editor.buffer, editor.typed, editor.bufferSize,
          editor.killString, editor.maxLineLength)
  }

  ghost predicate Ready(editor: Editor)
    reads editor, editor.line, editor.buffer
  {
    editor.Valid() && IsState(StateOf(editor))
  }

  /** The history entries of the events hold what the events say. */
  ghost predicate Entries(events: seq<Event>, buffer: array<char>)
    reads set e | e in events && (e.Up? || e.Down?) && e.entry != null :: e.entry
  {
    forall e :: e in events && (e.Up? || e.Down?) && e.entry != null ==> e.entry != buffer && Holds(e.entry, e.content)
  }

  lemma Own(editor: Editor)
    requires editor.Valid()
    ensures editor.end == |editor.text| && (editor.line == editor.buffer ==> editor.typed == editor.text)
  {}

  predicate Moves(e: Event) {
    e.Home? || e.EndOfLine? || e.Left? || e.Right? || e.Up? || e.Down?
  }

  /** What a key handler but that of tab does to the line; clearing the screen does
      nothing to it, nor does an escape sequence that is not known. */
  method Handle(editor: Editor, e: Event)
    requires Ready(editor) && Able(StateOf(editor), e) && !e.Tab?
    requires (e.Up? || e.Down?) && e.entry != null ==> e.entry != editor.buffer && Holds(e.entry, e.content)
    modifies editor`line, editor`buffer, editor`bufferSize, editor`point, editor`end, editor`text, editor`typed
    modifies editor`killString, editor`done, editor.buffer
    ensures Ready(editor) && StateOf(editor) == Handled(old(StateOf(editor)), e)
    ensures editor.done == (old(editor.done) || Ends(e))
    ensures editor.buffer == old(editor.buffer) || fresh(editor.buffer)
  {
    hide Handled, Able, IsState, Holds, Editor.Valid;
    if Moves(e) {
      HandleMove(editor, e);
    } else if e.Default? || e.Yank? {
      HandleText(editor, e);
    } else if Deletes(e) {
      HandleCut(editor, e);
    } else {
      HandleOther(editor, e);
    }
  }

  method HandleMove(editor: Editor, e: Event)
    requires Ready(editor) && Able(StateOf(editor), e) && Moves(e)
    requires (e.Up? || e.Down?) && e.entry != null ==> e.entry != editor.buffer && Holds(e.entry, e.content)
    modifies editor`line, editor`point, editor`end, editor`text
    ensures Ready(editor) && StateOf(editor) == Handled(old(StateOf(editor)), e)
  {
    hide Holds, Inserted, KeyText, Fits, SizeFor, Editor.Valid;
    HandledIsState(StateOf(editor), e);
    Own(editor);
    var ok;
    match e {
      case Home => ok := editor.KeyStartOfLine();
      case EndOfLine => ok := editor.KeyEndOfLine();
      case Left => ok := editor.KeyLeft();
      case Right => ok := editor.KeyRight();
      case Up(entry, content) => ok := editor.KeyUp(entry, content);
      case Down(entry, content) => ok := editor.KeyDown(entry, content);
    }
    Own(editor);
  }

  method HandleText(editor: Editor, e: Event)
    requires Ready(editor) && Able(StateOf(editor), e) && (e.Default? || e.Yank?)
    modifies editor`line, editor`buffer, editor`bufferSize, editor`point, editor`end, editor`text, editor`typed
    modifies editor.buffer
    ensures Ready(editor) && StateOf(editor) == Handled(old(StateOf(editor)), e)
    ensures editor.buffer == old(editor.buffer) || fresh(editor.buffer)
  {
    hide Holds, Inserted, KeyText, Fits, SizeFor, Editor.Valid;
    HandledIsState(StateOf(editor), e);
    Own(editor);
    var ok;
    match e {
      case Default(key) => ok := editor.KeyDefault(key);
      case Yank => ok := editor.KeyYank();
    }
    Own(editor);
  }

  method HandleCut(editor: Editor, e: Event)
    requires Ready(editor) && Able(StateOf(editor), e) && Deletes(e)
    modifies editor`line, editor`buffer, editor`bufferSize, editor`point, editor`end, editor`text, editor`typed
    modifies editor`killString, editor`done, editor.buffer
    ensures Ready(editor) && StateOf(editor) == Handled(old(StateOf(editor)), e)
    ensures editor.done == (old(editor.done) || Ends(e))
    ensures editor.buffer == old(editor.buffer) || fresh(editor.buffer)
  {
    hide Holds, Editor.Valid, IsState;
    HandledIsState(StateOf(editor), e);
    Own(editor);
    var ok;
    match e {
      case Interrupt => ok := editor.KeyInterrupt();
      case Backspace => ok := editor.KeyBackspace();
      case Delete => ok := editor.KeyDelete();
      case EraseLine => ok := editor.KeyEraseLine();
      case Kill => ok := editor.KeyKill();
    }
    Own(editor);
  }

  method HandleOther(editor: Editor, e: Event)
    requires Ready(editor) && Able(StateOf(editor), e) && (e.Enter? || e.ClearScreen? || e.Unknown?)
    modifies editor`done
    ensures Ready(editor) && StateOf(editor) == Handled(old(StateOf(editor)), e)
    ensures editor.done == (old(editor.done) || Ends(e))
  {
    hide Holds, Editor.Valid, IsState;
    var ok := e.ClearScreen?;
    if e.Enter? { ok := editor.KeyEnter(); }
  }

  /** The terminal shows the editor's line, and the editor knows it. */
  ghost predicate Displayed(editor: Editor, term: Vt100)
    reads editor, term`cells, term`cursor
  {
    editor.Last() == Some(editor.Current()) && term.Shows() == Showing(editor.Current(), editor.Look())
  }

  /** The line is displayed from scratch, in a new row. */
  predicate Afresh(s: State, e: Event)
    requires IsState(s)
  {
    e.ClearScreen? || (e.Tab? && |e.matches| > 1 && !Fails(s.view, e.substitution, Room(s), s.limit))
  }

  /** Whether the terminal shows the line after a key, when it did before or the
      line is displayed from scratch. */
  predicate Good(s: State, e: Event, style: Style)
    requires IsState(s)
  {
    if e.ClearScreen? then Begins(s.view, style)
    else if e.Tab? then SafeToComplete(s, e.substitution, e.matches, style)
    else Safe(s, e, style)
  }

  /** A key that does not finish the line, and the display, before the next key is
      waited for. */
  method Press(editor: Editor, term: Vt100, e: Event)
    requires Ready(editor) && Able(StateOf(editor), e) && !Ends(e)
    requires (e.Up? || e.Down?) && e.entry != null ==> e.entry != editor.buffer && Holds(e.entry, e.content)
    modifies editor, editor.buffer, term
    ensures Ready(editor) && StateOf(editor) == Handled(old(StateOf(editor)), e)
    ensures editor.done == old(editor.done) && editor.Look() == old(editor.Look())
    ensures editor.buffer == old(editor.buffer) || fresh(editor.buffer)
    ensures editor.Last() == Some(editor.Current()) && term.frames == old(term.frames) + [term.Shows()]
    ensures Afresh(old(StateOf(editor)), e) || old(Displayed(editor, term)) ==>
      (Displayed(editor, term) <==> Good(old(StateOf(editor)), e, editor.Look()))
  {
    hide Holds, Handled, Safe, SafeToComplete, Fails, Updates, Able, Begins;
    if e.Tab? {
      PressTab(editor, term, e);
    } else {
      PressOther(editor, term, e);
    }
    term.Await();
  }

  method PressOther(editor: Editor, term: Vt100, e: Event)
    requires Ready(editor) && Able(StateOf(editor), e) && !Ends(e) && !e.Tab?
    requires (e.Up? || e.Down?) && e.entry != null ==> e.entry != editor.buffer && Holds(e.entry, e.content)
    modifies editor, editor.buffer, term`cells, term`cursor
    ensures Ready(editor) && StateOf(editor) == Handled(old(StateOf(editor)), e)
    ensures editor.done == old(editor.done) && editor.Look() == old(editor.Look())
    ensures editor.buffer == old(editor.buffer) || fresh(editor.buffer)
    ensures editor.Last() == Some(editor.Current())
    ensures e.ClearScreen? || old(Displayed(editor, term)) ==>
      (Displayed(editor, term) <==> Good(old(StateOf(editor)), e, editor.Look()))
  {
    hide Holds, Handled, Safe, SafeToComplete, Updates, Able, Begins, Begun, Updated;
    AgreesWhenSafe(StateOf(editor), e, editor.Look());
    ClearKeeps(StateOf(editor), e);
    Handle(editor, e);
    if e.ClearScreen? {
      BegunShows(editor.Current(), editor.Look());
      term.NewRow();
      editor.ResetLineState(term);
      UpdatedSame(term.Shows(), editor.Current(), editor.Look().echo);
    }
    editor.Redisplay(term);
  }

  /** Tab, with the display by the completion and by the loop. */
  method PressTab(editor: Editor, term: Vt100, e: Event)
    requires Ready(editor) && Able(StateOf(editor), e) && e.Tab?
    modifies editor, editor.buffer, term`cells, term`cursor
    ensures Ready(editor) && StateOf(editor) == Handled(old(StateOf(editor)), e)
    ensures editor.done == old(editor.done) && editor.Look() == old(editor.Look())
    ensures editor.buffer == old(editor.buffer) || fresh(editor.buffer)
    ensures editor.Last() == Some(editor.Current())
    ensures Afresh(old(StateOf(editor)), e) || old(Displayed(editor, term)) ==>
      (Displayed(editor, term) <==> Good(old(StateOf(editor)), e, editor.Look()))
  {
    hide Holds, Updates, Begins, Begun, Updated, Cut, Completes, Showing, Inserted, Fits, SizeFor, Editor.Valid, Tabbed;
    hide SafeToComplete, Completed, CompletedSize, Fails, IsState;
    ghost var s := StateOf(editor);
    TabbedIs(s, e.substitution, e.matches);
    TabShows(s, e.substitution, e.matches, editor.Look(), term.Shows());
    Own(editor);
    var result := KeyTab(editor, term, e.substitution, e.matches);
    Own(editor);
    editor.Redisplay(term);
  }

  /** The state after tab, field by field. */
  lemma TabbedIs(s: State, substitution: CString, matches: seq<string>)
    requires IsState(s)
    ensures
      var t, v, room := Tabbed(s, substitution, matches), s.view, Room(s);
      var failed, completes := Fails(v, substitution, room, s.limit), Completes(v, substitution);
      var w := if failed then Cut(v) else Completed(v, substitution);
      var size := if completes then CompletedSize(v, substitution, room, s.limit) else room;
      var x := if Fits(size, |w.text| + 1, s.limit) then Inserted(w, " ") else w;
      && (t == if matches == [] then s
               else if !failed && |matches| <= 1 then
                 State(x, true, x.text, SizeFor(size, |w.text| + 1, s.limit), s.killed, s.limit)
               else if completes then State(w, true, w.text, size, s.killed, s.limit)
               else s)
      && (failed ==> completes) && (!completes ==> w == v)
      && (!failed ==> (RoomForBlank(s, substitution) <==> Fits(size, |w.text| + 1, s.limit)))
  {
    hide Cut, Completes, Inserted, Fits, SizeFor;
  }

  /** What tab makes of the row: the update by the completion, or a display from
      scratch, and the update by the loop. */
  function TabRow(s: State, substitution: CString, matches: seq<string>, style: Style, row: Screen): Screen
    requires IsState(s)
  {
    var v, w, x := s.view, Completed(s.view, substitution), Tabbed(s, substitution, matches).view;
    if matches == [] || Fails(v, substitution, Room(s), s.limit) then Updated(row, v, x, style.echo)
    else Updated(if |matches| > 1 then Begun(Screen("", 0), w, style) else Updated(row, v, w, style.echo),
                 w, x, style.echo)
  }

  lemma TabShows(s: State, substitution: CString, matches: seq<string>, style: Style, row: Screen)
    requires IsState(s) && |s.view.text| < 0xFFFF_FFFF
    ensures row == Showing(s.view, style) || Afresh(s, Tab(substitution, matches)) ==>
      (TabRow(s, substitution, matches, style, row) == Showing(Tabbed(s, substitution, matches).view, style)
       <==> SafeToComplete(s, substitution, matches, style))
  {
    hide Updated, Updates, Showing, Begun, Begins, Completed, Completes, Fails, Cut, Inserted, Fits, SizeFor, Tabbed;
    hide SafeToAddBlank, RoomForBlank;
    var v, w, x := s.view, Completed(s.view, substitution), Tabbed(s, substitution, matches).view;
    TabbedIs(s, substitution, matches);
    if matches == [] {
      SameUpdates(v, x, style);
      UpdatedShows(v, x, style);
    } else if Fails(v, substitution, Room(s), s.limit) {
      UpdatedShows(v, x, style);
    } else if |matches| > 1 {
      UpdatedSame(Begun(Screen("", 0), w, style), w, style.echo);
      BegunShows(w, style);
    } else if RoomForBlank(s, substitution) {
      BlankShows(v, substitution, style);
    } else {
      UpdatedSame(Updated(row, v, w, style.echo), w, style.echo);
      UpdatedShows(v, w, style);
    }
  }

  lemma ClearKeeps(s: State, e: Event)
    requires IsState(s)
    ensures e.ClearScreen? ==> Handled(s, e) == s
  {}

  /** A key that finishes the line: a new row for enter, and a blank at the end
      of the line goes. */
  method Finish(editor: Editor, term: Vt100, e: Event)
    requires Ready(editor) && Able(StateOf(editor), e) && Ends(e)
    modifies editor, editor.buffer, term`cells, term`cursor
    ensures editor.Valid() && editor.done && editor.text == Trimmed(Handled(old(StateOf(editor)), e).view.text)
    ensures editor.Look() == old(editor.Look()) && (editor.buffer == old(editor.buffer) || fresh(editor.buffer))
  {
    hide Holds, Handled, Able;
    if e.Enter? { term.NewRow(); }
    Handle(editor, e);
    editor.TrimLast();
  }

  /** Every key up to the one that finishes the line is one that can be handled. */
  predicate AllAble(s: State, events: seq<Event>)
    requires IsState(s)
    decreases |events|
  {
    events == []
    || (Able(s, events[0])
        && (Ends(events[0]) || (HandledIsState(s, events[0]); AllAble(Handled(s, events[0]), events[1..]))))
  }

  /** The line when it is finished, or when there are no more keys. */
  function Final(s: State, events: seq<Event>): State
    requires IsState(s) && AllAble(s, events)
    decreases |events|
  {
    if events == [] then s
    else
      HandledIsState(s, events[0]);
      if Ends(events[0]) then Handled(s, events[0]) else Final(Handled(s, events[0]), events[1..])
  }

  predicate Ended(events: seq<Event>)
    decreases |events|
  {
    events != [] && (Ends(events[0]) || Ended(events[1..]))
  }

  /** What tinyrl_readline returns: nothing when the input ends before the line. */
  function Result(s: State, events: seq<Event>): Option<string>
    requires IsState(s) && AllAble(s, events)
  {
    if Ended(events) then Some(Trimmed(Final(s, events).view.text)) else None
  }

  predicate AllShown(s: State, events: seq<Event>, style: Style, shown: bool)
    requires IsState(s) && AllAble(s, events)
    decreases |events|
  {
    if events == [] then shown
    else if Ends(events[0]) then true
    else
      HandledIsState(s, events[0]);
      var good := (shown || Afresh(s, events[0])) && Good(s, events[0], style);
      AllShown(Handled(s, events[0]), events[1..], style, good)
  }

  /** The number of keys in front of the one that finishes the line. */
  function Keys(events: seq<Event>): (n: nat)
    ensures n <= |events| && (n < |events| <==> Ended(events))
    decreases |events|
  {
    if events == [] || Ends(events[0]) then 0 else 1 + Keys(events[1..])
  }

  /** The number of those in front of the first that is not good. */
  function GoodKeys(s: State, events: seq<Event>, style: Style): (n: nat)
    requires IsState(s) && AllAble(s, events)
    ensures n <= Keys(events)
    decreases |events|
  {
    if events == [] || Ends(events[0]) || !Good(s, events[0], style) then 0
    else
      HandledIsState(s, events[0]);
      1 + GoodKeys(Handled(s, events[0]), events[1..], style)
  }

  /** What should be shown after each key in front of the one that finishes the
      line. */
  function Wanted(s: State, events: seq<Event>, style: Style): (w: seq<Screen>)
    requires IsState(s) && AllAble(s, events)
    ensures |w| == Keys(events)
    decreases |events|
  {
    if events == [] || Ends(events[0]) then []
    else
      HandledIsState(s, events[0]);
      var t := Handled(s, events[0]);
      [Showing(t.view, style)] + Wanted(t, events[1..], style)
  }

  /** What was shown is what was wanted the first `good` times, and not the next. */
  predicate RightUpTo(seen: seq<Screen>, want: seq<Screen>, good: nat) {
    && |seen| == |want| && good <= |want| && seen[..good] == want[..good]
    && (good < |want| ==> seen[good] != want[good])
  }

  /** The record while it grows: `all` as long as every key was good. */
  predicate Recorded(seen: seq<Screen>, want: seq<Screen>, good: nat, all: bool) {
    && |seen| <= |want| && good <= |want|
    && if all then |seen| <= good && seen == want[..|seen|]
       else good < |seen| && seen[..good] == want[..good] && seen[good] != want[good]
  }

  lemma RecordNext(seen: seq<Screen>, want: seq<Screen>, good: nat, all: bool, s: Screen, fine: bool)
    requires |seen| < |want|
    ensures Recorded(seen, want, good, all)
         && (all ==> (s == want[|seen|] <==> fine) && if fine then |seen| < good else good == |seen|)
         ==> Recorded(seen + [s], want, good, all && fine)
  {
    if all && seen == want[..|seen|] && s == want[|seen|] { assert seen + [s] == want[..|seen| + 1]; }
  }

  lemma NoneRecorded(want: seq<Screen>, good: nat)
    requires good <= |want|
    ensures Recorded([], want, good, true)
  {}

  lemma RecordEnds(seen: seq<Screen>, want: seq<Screen>, good: nat, all: bool)
    ensures Recorded(seen, want, good, all) && |seen| == |want| ==> RightUpTo(seen, want, good)
  {}

  /** After `n` keys that do not finish the line the state is `s`. */
  predicate Reached(s0: State, s: State, events: seq<Event>, n: nat) {
    && n <= |events| && IsState(s0) && AllAble(s0, events) && IsState(s) && AllAble(s, events[n..])
    && Final(s, events[n..]) == Final(s0, events) && Ended(events[n..]) == Ended(events)
    && Keys(events) == n + Keys(events[n..])
  }

  lemma ReachedNext(s0: State, s: State, events: seq<Event>, n: nat)
    requires Reached(s0, s, events, n) && n < |events|
    ensures Able(s, events[n])
    ensures if Ends(events[n]) then
              Result(s0, events) == Some(Trimmed(Handled(s, events[n]).view.text)) && Keys(events) == n
            else Reached(s0, Handled(s, events[n]), events, n + 1)
  {
    hide Handled, Able, Trimmed, IsState;
    assert events[n..][0] == events[n] && events[n..][1..] == events[n + 1..];
    HandledIsState(s, events[n]);
  }

  lemma ReachedStart(s0: State, events: seq<Event>)
    requires IsState(s0) && AllAble(s0, events)
    ensures Reached(s0, s0, events, 0)
  {
    assert events[0..] == events;
  }

  lemma ReachedEnd(s0: State, s: State, events: seq<Event>)
    requires Reached(s0, s, events, |events|)
    ensures Result(s0, events) == None && s == Final(s0, events) && Keys(events) == |events|
  {
    assert events[|events|..] == [];
  }

  /** The keys from `n` on can be handled in that state, and what they should show
      is known. */
  predicate Onward(s: State, events: seq<Event>, n: nat, style: Style, want: seq<Screen>) {
    && n <= |events| && IsState(s) && AllAble(s, events[n..])
    && n <= |want| && want[n..] == Wanted(s, events[n..], style)
  }

  lemma OnwardStart(s: State, events: seq<Event>, style: Style)
    requires IsState(s) && AllAble(s, events)
    ensures Onward(s, events, 0, style, Wanted(s, events, style))
  {
    assert events[0..] == events;
  }

  /** What the display is in for from key `n` on. */
  lemma OnwardNext(s0: State, s: State, events: seq<Event>, n: nat, style: Style, want: seq<Screen>, shown: bool)
    requires Reached(s0, s, events, n) && Onward(s, events, n, style, want) && n < |events| && !Ends(events[n])
    ensures Able(s, events[n]) && Reached(s0, Handled(s, events[n]), events, n + 1)
    ensures Onward(Handled(s, events[n]), events, n + 1, style, want)
    ensures want[n] == Showing(Handled(s, events[n]).view, style)
    ensures GoodKeys(s, events[n..], style)
         == if Good(s, events[n], style) then 1 + GoodKeys(Handled(s, events[n]), events[n + 1..], style) else 0
    ensures AllShown(s, events[n..], style, shown)
         == AllShown(Handled(s, events[n]), events[n + 1..], style,
                     (shown || Afresh(s, events[n])) && Good(s, events[n], style))
  {
    hide Handled, Able, Good, IsState, Keys, Afresh;
    ReachedNext(s0, s, events, n);
    assert events[n..][0] == events[n] && events[n..][1..] == events[n + 1..];
    HandledIsState(s, events[n]);
    assert want[n..][0] == want[n] && want[n..][1..] == want[n + 1..];
  }

  lemma NothingShown(s: State, style: Style, shown: bool)
    requires IsState(s)
    ensures AllAble(s, []) && AllShown(s, [], style, shown) == shown
  {}

  /** Every session, the loop of tinyrl_readline from one display to the next:
      the line is what the keys make of it, and a key is waited for once after each
      that does not finish it. Then the terminal shows the line up to the first key
      that is not good, and not after that one. It may again later, and does when
      all keys since the line was displayed from scratch were good. */
  method Session(editor: Editor, term: Vt100, events: seq<Event>) returns (result: Option<string>)
    requires Ready(editor) && AllAble(StateOf(editor), events) && Entries(events, editor.buffer) && !editor.done
    modifies editor, editor.buffer, term
    ensures editor.Valid() && result == Result(old(StateOf(editor)), events)
    ensures old(term.frames) <= term.frames && |term.frames| == |old(term.frames)| + Keys(events)
    ensures old(Displayed(editor, term)) ==>
      var s0, style := old(StateOf(editor)), old(editor.Look());
      RightUpTo(term.frames[|old(term.frames)|..], Wanted(s0, events, style), GoodKeys(s0, events, style))
    ensures result.None? ==>
      var s0, style := old(StateOf(editor)), old(editor.Look());
      && StateOf(editor) == Final(s0, events)
      && (events != [] ==> term.frames[|term.frames| - 1] == term.Shows())
      && (AllShown(s0, events, style, old(Displayed(editor, term))) ==> Displayed(editor, term))
  {
    hide Holds, Handled, Able, Displayed, Trimmed, Good, Editor.Valid, RightUpTo, Recorded, Reached, Afresh;
    hide AllAble, Final, Ended, Keys, GoodKeys, AllShown, IsState, Result, Wanted, Showing;
    ghost var s0, style, shown := StateOf(editor), editor.Look(), Displayed(editor, term);
    ghost var good, total, want := shown, GoodKeys(s0, events, style), Wanted(s0, events, style);
    ghost var seen: seq<Screen> := [];
    var n := 0;
    ReachedStart(s0, events);
    NoneRecorded(want, total);
    OnwardStart(s0, events, style);
    assert events[0..] == events;
    while n < |events| && !editor.done
      invariant 0 <= n <= |events| && editor.Valid() && editor.Look() == style
      invariant Entries(events, editor.buffer) && (editor.buffer == old(editor.buffer) || fresh(editor.buffer))
      invariant term.frames == old(term.frames) + seen
      invariant old(Displayed(editor, term)) ==> Recorded(seen, want, total, good)
      invariant good ==> shown && old(Displayed(editor, term))
      invariant editor.done ==> Result(s0, events) == Some(editor.text) && |seen| == |want|
      invariant !editor.done ==>
          && Reached(s0, StateOf(editor), events, n) && Onward(StateOf(editor), events, n, style, want) && |seen| == n
          && (good ==> total == n + GoodKeys(StateOf(editor), events[n..], style))
          && (shown ==> Displayed(editor, term)) && (n > 0 ==> seen[n - 1] == term.Shows())
          && AllShown(StateOf(editor), events[n..], style, shown)
             == AllShown(s0, events, style, old(Displayed(editor, term)))
      decreases |events| - n
    {
      assert events[n] in events;
      if Ends(events[n]) {
        ReachedNext(s0, StateOf(editor), events, n);
        Finish(editor, term, events[n]);
      } else {
        OnwardNext(s0, StateOf(editor), events, n, style, want, shown);
        ghost var fine, afresh := Good(StateOf(editor), events[n], style), Afresh(StateOf(editor), events[n]);
        Press(editor, term, events[n]);
        DisplayedIs(editor, term);
        RecordNext(seen, want, total, good, term.Shows(), fine);
        seen := seen + [term.Shows()];
        shown, good := (shown || afresh) && fine, good && fine;
      }
      n := n + 1;
    }
    RecordEnds(seen, want, total, good);
    assert term.frames[|old(term.frames)|..] == seen;
    result := None;
    if editor.done {
      var text := LineText(editor);
      result := Some(text);
    } else {
      ReachedEnd(s0, StateOf(editor), events);
      NothingShown(StateOf(editor), style, shown);
      assert events[n..] == [];
    }
  }

  lemma DisplayedIs(editor: Editor, term: Vt100)
    requires editor.Last() == Some(editor.Current())
    ensures Displayed(editor, term) <==> term.Shows() == Showing(editor.Current(), editor.Look())
  {}

  method LineText(editor: Editor) returns (text: string)
    requires editor.Valid()
    ensures text == editor.text
  {
    var length := Strlen(editor.line, editor.text);
    HoldsAt(editor.line, editor.text);
    text := editor.line[..length];
  }

  /** tinyrl_readline on a terminal, in an empty row: the keys edit an empty line,
      and nothing is left of the lines read before but what was killed. The empty
      line is shown when the first key is waited for, and the right line whenever
      a key is waited for if and only if all keys are good. */
  method ReadLine(editor: Editor, term: Vt100, prompt: string, events: seq<Event>) returns (result: Option<string>)
    requires editor.killString.Some? ==> '\0' !in editor.killString.value
    requires AllAble(Empty(editor.killString, editor.maxLineLength), events)
    requires forall e :: e in events && (e.Up? || e.Down?) && e.entry != null ==> Holds(e.entry, e.content)
    requires term.Shows() == Screen("", 0)
    modifies editor, term
    ensures result == Result(Empty(old(editor.killString), editor.maxLineLength), events)
    ensures old(term.frames) <= term.frames
    ensures var s0 := Empty(old(editor.killString), editor.maxLineLength);
            var style := Style(prompt, old(editor.Look()).echo);
            var good, want := GoodKeys(s0, events, style), WantedLines(s0, events, style);
            && RightUpTo(term.frames[|old(term.frames)|..], want, 1 + good)
            && (term.frames == old(term.frames) + want <==> good == Keys(events))
  {
    hide Holds, AllAble, Result, AllShown, GoodKeys, Begun, Updates, Updated, Wanted;
    ghost var before := term.frames;
    editor.Start(prompt);
    BegunShows(editor.Current(), editor.Look());
    editor.ResetLineState(term);
    UpdatedSame(term.Shows(), editor.Current(), editor.Look().echo);
    editor.Redisplay(term);    // by the loop
    term.Await();
    ghost var s0, style, first := StateOf(editor), editor.Look(), term.Shows();
    result := Session(editor, term, events);
    if result.None? || result.value == "" { term.NewRow(); }
    RecordWhole(before, term.frames, first, Wanted(s0, events, style), GoodKeys(s0, events, style));
  }

  /** The empty line, and the lines after the keys. */
  function WantedLines(s: State, events: seq<Event>, style: Style): seq<Screen>
    requires IsState(s) && AllAble(s, events)
  {
    [Showing(s.view, style)] + Wanted(s, events, style)
  }

  lemma RecordWhole(before: seq<Screen>, frames: seq<Screen>, first: Screen, want: seq<Screen>, good: nat)
    requires before + [first] <= frames && RightUpTo(frames[|before| + 1..], want, good)
    ensures before <= frames && RightUpTo(frames[|before|..], [first] + want, 1 + good)
    ensures frames == before + ([first] + want) <==> good == |want|
  {
    var seen, all := frames[|before| + 1..], [first] + want;
    assert frames == before + ([first] + seen) && frames[|before|..] == [first] + seen;
    assert ([first] + seen)[..1 + good] == [first] + seen[..good] == [first] + want[..good] == all[..1 + good];
    if good == |want| {
      assert seen == seen[..good] == want;
    } else {
      assert frames[|before| + 1 + good] == seen[good];
      assert (before + all)[|before| + 1 + good] == want[good];
    }
  }

  function Empty(killed: Option<string>, limit: nat): (s: State)
    ensures (killed.Some? ==> '\0' !in killed.value) ==> IsState(s)
  {
    State(View("", 0), true, "", 0, killed, limit)
  }

  // ---------- edits that undo each other ----------

  function Times(e: Event, n: nat): seq<Event> {
    if n == 0 then [] else [e] + Times(e, n - 1)
  }

  /** As many backspaces as characters were inserted restore line and cursor. */
  lemma {:induction false} BackspacesUndo(v: View, t: string, after: State)
    requires v.point <= |v.text| && IsState(after) && after.view == Inserted(v, t)
    ensures var keys := Times(Backspace, |t|); AllAble(after, keys) && Final(after, keys).view == v
    decreases |t|
  {
    if t == "" {
      assert Inserted(v, t) == v;
    } else {
      var n, p := |t| - 1, v.point;
      var next := Handled(after, Backspace);
      assert after.view.text[..p + n] == v.text[..p] + t[..n] && after.view.text[p + n + 1..] == v.text[p..];
      assert next.view == Inserted(v, t[..n]);
      HandledIsState(after, Backspace);
      BackspacesUndo(v, t[..n], next);
    }
  }

  /** Three letters into "ls -l", a line of the history, while "cd x" is in the
      buffer: what is killed is "-l", and what is yanked is "x". */
  lemma KillsTheOther(size: nat)
    requires size >= 4
    ensures var s := State(View("ls -l", 3), false, "cd x", size, None, 0);
            && IsState(s) && AllAble(s, [Kill, Yank]) && Final(s, [Kill, Yank]).view == View("ls x", 4)
  {
    var s := State(View("ls -l", 3), false, "cd x", size, None, 0);
    var killed := Handled(s, Kill);
    assert killed.view == View("ls ", 3) && killed.killed == Some("x");
    var yanked := Handled(killed, Yank);
    assert yanked.view == View("ls x", 4) by { assert "ls "[..3] + "x" + "ls "[3..] == "ls x"; }
    assert [Kill, Yank][1..] == [Yank] && [Yank][1..] == [];
    HandledIsState(s, Kill);
    HandledIsState(killed, Yank);
    assert Final(yanked, []) == yanked && Final(killed, [Yank]) == yanked;
  }

  /** Killing and yanking puts the line back, with the cursor at its end, and
      needs no more room than the line had; but where a line of the history is
      shown, what comes back is the end of the buffer. */
  method KillThenYank(editor: Editor) returns (ok: bool)
    requires editor.Valid() && editor.point <= |editor.typed|
    modifies editor`line, editor`buffer, editor`bufferSize, editor`point, editor`end
    modifies editor`text, editor`typed, editor`killString, editor.buffer
    ensures editor.Valid() && (old(editor.line) == old(editor.buffer) ==> ok)
    ensures ok ==>
      && (editor.text == old(editor.text) <==> old(editor.typed[editor.point..]) == old(editor.text[editor.point..]))
      && editor.point == |editor.text| == |old(editor.typed)|
  {
    HoldsAt(editor.buffer, editor.typed);
    ghost var text, typed, p := editor.text, editor.typed, editor.point;
    ok := editor.KeyKill();
    ok := editor.KeyYank();
    if ok {
      assert editor.text == text[..p] + typed[p..] + "" == text[..p] + typed[p..];
      assert editor.text[p..] == typed[p..] && text == text[..p] + text[p..];
    }
  }
}
