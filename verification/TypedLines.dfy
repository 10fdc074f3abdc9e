/** What typing does, told from the codes of the keys alone. */
module TypedLines {
  import opened CStrings
  import opened LineEditor
  import opened LineSession
  import opened Terminal

  // ---------- one key ----------

  /** The line with `t` put in at the cursor, which goes behind it. */
  predicate PutIn(v: View, t: string, w: View)
    requires v.point <= |v.text|
  {
    w.text == v.text[..v.point] + t + v.text[v.point..] && w.point == v.point + |t|
  }

  /** There is room for so many characters more. */
  predicate HasRoom(s: State, n: nat) {
    var len := |s.view.text| + n;
    s.limit == 0 || len < s.limit || len <= if s.own then s.size else |s.view.text|
  }

  /** Every key from the blank on puts in the character of its code. */
  lemma PrintableKey(s: State, key: nat)
    requires IsState(s) && 32 <= key < 256
    ensures var w := Handled(s, Default(key)).view;
            if HasRoom(s, 1) then PutIn(s.view, [key as char], w) else w == s.view
  {}

  /** The value of decimal digits. */
  function Positional(d: string): int {
    if d == "" then 0 else 10 * Positional(d[..|d| - 1]) + (d[|d| - 1] as int - '0' as int)
  }

  /** Digits of that value, without a zero in front. */
  predicate IsNumeral(d: string, n: nat) {
    && d != "" && (forall k :: 0 <= k < |d| ==> '0' <= d[k] <= '9') && Positional(d) == n
    && (d[0] == '0' ==> d == "0")
  }

  /** The keys below put in a tilde and their code. */
  lemma ControlKey(s: State, key: nat) returns (d: string)
    requires IsState(s) && key < 32
    ensures IsNumeral(d, key)
    ensures var w := Handled(s, Default(key)).view;
            if HasRoom(s, 1 + |d|) then PutIn(s.view, "~" + d, w) else w == s.view
  {
    d := Decimal(key);
    if key < 10 {
      assert d == "" + [('0' as int + key) as char] && d[..0] == "";
      assert Positional(d) == 10 * Positional("") + key;
    } else {
      assert d == [('0' as int + key / 10) as char] + [('0' as int + key % 10) as char];
      assert d[..1] == [('0' as int + key / 10) as char] && d[..1][..0] == "";
      assert Positional(d[..1]) == 10 * Positional("") + key / 10;
    }
  }

  // ---------- what is shown, and the room ----------

  /** With an echo character the row shows no more of a line than its length, and in
      silence nothing but the prompt. */
  lemma EchoHides(v: View, w: View, prompt: string, c: char)
    ensures |v.text| == |w.text| && v.point == w.point ==>
      Showing(v, Style(prompt, Masked(c))) == Showing(w, Style(prompt, Masked(c)))
    ensures var s := Showing(v, Style(prompt, Masked(c)));
            && |s.cells| == |prompt| + |v.text| && prompt <= s.cells
            && forall k :: |prompt| <= k < |s.cells| ==> s.cells[k] == c
    ensures Showing(v, Style(prompt, Silent)) == Screen(prompt, |prompt|)
    ensures Showing(v, Style(prompt, Plain)) == Screen(prompt + v.text, |prompt| + v.point)
  {
    assert |v.text| == |w.text| ==> Mask(v.text, Masked(c)) == Mask(w.text, Masked(c));
    assert prompt + "" == prompt;
  }

  /** A buffer that is grown holds what it is grown for: without a limit it takes ten
      characters more at least, and no more than that or what is needed; with one it is
      grown once, to all that is allowed. */
  lemma RoomGrows(size: nat, len: nat, limit: nat)
    requires size < len
    ensures limit == 0 ==>
      var r := SizeFor(size, len, limit);
      len <= r && size + 10 <= r && (r == len || r == size + 10)
    ensures limit > 0 ==> SizeFor(size, len, limit) == if len < limit then limit - 1 else size
  {}

  // ---------- whole lines ----------

  /** Keys that stand for characters. */
  predicate Printable(codes: seq<nat>) {
    forall i :: 0 <= i < |codes| ==> 32 <= codes[i] < 256
  }

  function Typed(codes: seq<nat>): (t: string)
    requires Printable(codes)
    ensures |t| == |codes| && forall i :: 0 <= i < |codes| ==> t[i] == codes[i] as char
  {
    seq(|codes|, i requires 0 <= i < |codes| => codes[i] as char)
  }

  function Strokes(codes: seq<nat>): seq<Event> {
    if codes == [] then [Enter] else [Default(codes[0])] + Strokes(codes[1..])
  }

  /** A line less one blank at its end. */
  predicate LessBlank(t: string, line: string) {
    if t != "" && t[|t| - 1] in " \t\n\r" + [11 as char, 12 as char] then line == t[..|t| - 1] else line == t
  }

  /** Enter finishes the line as it is, less one blank at its end, wherever the cursor
      is. */
  lemma EnterFinishes(s: State)
    requires IsState(s)
    ensures AllAble(s, [Enter]) && Result(s, [Enter]).Some? && LessBlank(s.view.text, Result(s, [Enter]).value)
  {
    var n := |s.view.text|;
    if n > 0 { assert IsWhite(s.view.text[n - 1]) <==> s.view.text[n - 1] in " \t\n\r" + [VT, FF]; }
  }

  lemma {:induction false} TypedFrom(s: State, codes: seq<nat>)
    requires IsState(s) && s.limit == 0 && s.view.point == |s.view.text| && Printable(codes)
    ensures AllAble(s, Strokes(codes))
    ensures var r := Result(s, Strokes(codes)); r.Some? && LessBlank(s.view.text + Typed(codes), r.value)
    decreases |codes|
  {
    hide Handled, Result, LessBlank;
    if codes == [] {
      assert s.view.text + Typed(codes) == s.view.text;
      EnterFinishes(s);
    } else {
      var e, t := Default(codes[0]), Handled(s, Default(codes[0]));
      PrintableKey(s, codes[0]);
      HandledIsState(s, e);
      StaysUnlimited(s, codes[0]);
      OneMoreTyped(s.view, codes, t.view);
      TypedFrom(t, codes[1..]);
      FirstStroke(s, Strokes(codes));
    }
  }

  lemma OneMoreTyped(v: View, codes: seq<nat>, w: View)
    requires codes != [] && Printable(codes) && v.point == |v.text| && PutIn(v, [codes[0] as char], w)
    ensures Printable(codes[1..]) && Strokes(codes)[1..] == Strokes(codes[1..])
    ensures w.point == |w.text| && v.text + Typed(codes) == w.text + Typed(codes[1..])
  {
    hide Printable, Typed, PutIn, Strokes;
    FirstTyped(codes);
    PutAtEnd(v, [codes[0] as char], w);
    Assoc(v.text, [codes[0] as char], Typed(codes[1..]));
  }

  lemma FirstTyped(codes: seq<nat>)
    requires codes != [] && Printable(codes)
    ensures Printable(codes[1..]) && 32 <= codes[0] < 256
    ensures Strokes(codes)[1..] == Strokes(codes[1..]) && Typed(codes) == [codes[0] as char] + Typed(codes[1..])
  {
    hide Typed, Strokes, Printable;
    PrintableRest(codes);
    StrokesRest(codes);
    var t, rest := Typed(codes), Typed(codes[1..]);
    assert |t| == |codes| && |rest| == |codes| - 1 && t[0] == codes[0] as char;
    forall i | 0 <= i < |rest| ensures rest[i] == t[i + 1] {
      assert codes[1..][i] == codes[i + 1];
    }
    assert t == [codes[0] as char] + rest;
  }

  lemma PrintableRest(codes: seq<nat>)
    requires codes != [] && Printable(codes)
    ensures Printable(codes[1..]) && 32 <= codes[0] < 256
    ensures forall i :: 0 <= i < |codes| ==> codes[i] < 256
  {
    assert forall i :: 0 <= i < |codes[1..]| ==> codes[1..][i] == codes[i + 1];
  }

  lemma StrokesRest(codes: seq<nat>)
    requires codes != []
    ensures Strokes(codes)[1..] == Strokes(codes[1..])
  {}

  lemma PutAtEnd(v: View, t: string, w: View)
    requires v.point == |v.text| && PutIn(v, t, w)
    ensures w.text == v.text + t && w.point == |w.text|
  {
    assert v.text[..v.point] == v.text && v.text[v.point..] == "";
  }

  lemma StaysUnlimited(s: State, key: nat)
    requires IsState(s) && key < 256
    ensures Handled(s, Default(key)).limit == s.limit
  {}

  lemma FirstStroke(s: State, events: seq<Event>)
    requires IsState(s) && events != [] && Able(s, events[0]) && !Ends(events[0])
    requires IsState(Handled(s, events[0])) && AllAble(Handled(s, events[0]), events[1..])
    ensures AllAble(s, events) && Result(s, events) == Result(Handled(s, events[0]), events[1..])
  {
    hide Handled, Able;
  }

  /** Without a limit, keys typed in an empty line and enter give these characters, less
      one blank at the end: that is what tinyrl_readline returns. */
  lemma TypedLine(codes: seq<nat>, killed: Option<string>)
    requires Printable(codes) && (killed.Some? ==> '\0' !in killed.value)
    ensures AllAble(Empty(killed, 0), Strokes(codes))
    ensures var r := Result(Empty(killed, 0), Strokes(codes)); r.Some? && LessBlank(Typed(codes), r.value)
  {
    hide Result, LessBlank;
    TypedFrom(Empty(killed, 0), codes);
    assert "" + Typed(codes) == Typed(codes);
  }
}
