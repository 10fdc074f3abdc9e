/** Completion in tinyrl: the list of matches with the prefix they share, and how
    the word in front of the cursor is replaced. */
module LineCompletion {
  import opened CStrings
  import opened Terminal
  import opened LineEditor

  /** The substitution for a list of matches: the longest prefix of the first
      that all of them start with. */
  ghost predicate Substitutes(prefix: string, matches: seq<string>)
    requires matches != []
  {
    && prefix <= matches[0] && (forall i :: 0 <= i < |matches| ==> Starts(prefix, matches[i]))
    && forall longer: string :: longer <= matches[0] && |longer| > |prefix| ==>
      exists i :: 0 <= i < |matches| && !Starts(longer, matches[i])
  }

  lemma SubstitutesOne(t: string)
    ensures Substitutes(t, [t])
  {}

  /** Cutting the substitution down to what one more match shares with it. */
  lemma SubstitutesMore(prefix: string, matches: seq<string>, t: string, n: nat)
    requires matches != [] && Substitutes(prefix, matches) && n <= |prefix|
    requires Starts(prefix[..n], t) && (n < |prefix| ==> !Starts(prefix[..n + 1], t))
    ensures Substitutes(prefix[..n], matches + [t])
  {
    var all, cut := matches + [t], prefix[..n];
    forall i | 0 <= i < |all| ensures Starts(cut, all[i]) {
      if i < |matches| { assert all[i] == matches[i] && Starts(prefix, matches[i]); }
    }
    forall longer: string | longer <= all[0] && |longer| > n
      ensures exists i :: 0 <= i < |all| && !Starts(longer, all[i])
    {
      if |longer| > |prefix| {
        var i :| 0 <= i < |matches| && !Starts(longer, matches[i]);
        assert all[i] == matches[i];
      } else {
        PrefixAt(longer, prefix, all[0], n);
        assert !Starts(longer, all[|matches|]);
      }
    }
  }

  lemma PrefixAt(a: string, b: string, t: string, n: nat)
    requires a <= t && b <= t && n < |a| <= |b|
    ensures a[..n + 1] == b[..n + 1]
    ensures forall x: string :: Starts(a, x) ==> Starts(b[..n + 1], x)
  {
    assert forall k :: 0 <= k < |a| ==> a[k] == t[k] == b[k];
  }

  /** The loop that finds how far the substitution and a match agree. */
  method Agree(p: CString, t: CString) returns (n: nat)
    ensures n <= |p| && Starts(p[..n], t) && (n < |p| ==> !Starts(p[..n + 1], t))
  {
    n := 0;
    var left := |p|;
    while ToLower(CharAt(p, n)) == ToLower(CharAt(t, n)) && left > 0
      invariant n <= |p| && left == |p| - n && Starts(p[..n], t)
      decreases left
    {
      assert p[n] != '\0';
      n, left := n + 1, left - 1;
    }
    if n < |p| && n < |t| { assert p[..n + 1][n] == p[n]; }
  }

  /** The matches so far, behind the substitution for them. */
  ghost predicate Lists(a: array<Option<string>>, entries: seq<string>)
    reads a
  {
    && entries != [] && |entries| < a.Length
    && (forall i :: 0 <= i < |entries| ==> a[i + 1] == Some(entries[i]))
    && a[0].Some? && '\0' !in a[0].value && Substitutes(a[0].value, entries)
  }

  /** tinyrl_completion over the matches its entry function delivers; null when
      there is none. The array grows by ten. */
  method Completion(entries: seq<CString>) returns (matches: array?<Option<string>>)
    ensures matches == null <==> entries == []
    ensures matches != null ==>
      && fresh(matches) && Lists(matches, entries)
      && matches.Length > |entries| + 1 && matches[|entries| + 1] == None
  {
    hide Lists;
    matches := null;
    var size, offset := 1, 1;
    var state := 0;
    while state < |entries|
      invariant 0 <= state <= |entries| && offset == state + 1 <= size
      invariant matches == null <==> state == 0
      invariant matches == null ==> size == 1
      invariant matches != null ==> fresh(matches) && matches.Length == size + 1 && Lists(matches, entries[..state])
    {
      assert entries[..state + 1] == entries[..state] + [entries[state]];
      if size == offset {
        size := size + 10;
        matches := Grow(matches, size + 1, entries[..state]);
      }
      AddMatch(matches, entries[..state], entries[state], offset);
      offset, state := offset + 1, state + 1;
    }
    if matches != null {
      assert entries[..state] == entries;
      Terminate(matches, entries, offset);
    }
  }

  method AddMatch(a: array<Option<string>>, ghost before: seq<string>, entry: CString, offset: nat)
    requires offset == |before| + 1 < a.Length && (before != [] ==> Lists(a, before))
    modifies a
    ensures Lists(a, before + [entry])
  {
    hide Substitutes;
    a[offset] := Some(entry);
    if offset == 1 {
      SubstitutesOne(entry);
      assert before + [entry] == [entry];
      a[0] := Some(entry);
    } else {
      var prefix := a[0].value;
      var n := Agree(prefix, entry);
      SubstitutesMore(prefix, before, entry, n);
      a[0] := Some(prefix[..n]);
    }
  }

  method Terminate(a: array<Option<string>>, ghost entries: seq<string>, offset: nat)
    requires offset == |entries| + 1 < a.Length && Lists(a, entries)
    modifies a
    ensures Lists(a, entries) && a[offset] == None
  {
    hide Substitutes;
    a[offset] := None;
  }

  method Grow(a: array?<Option<string>>, size: nat, ghost entries: seq<string>) returns (b: array<Option<string>>)
    requires a != null ==> a.Length <= size && Lists(a, entries)
    ensures fresh(b) && b.Length == size && (a != null ==> Lists(b, entries))
  {
    hide Substitutes;
    b := new Option<string>[size](_ => None);
    if a != null {
      forall i | 0 <= i < a.Length { b[i] := a[i]; }
    }
  }

  // ---------- replacing the word ----------

  /** Where the word in front of `p` starts. */
  function WordStart(text: string, p: nat): (s: nat)
    requires p <= |text|
    ensures s <= p && (s == 0 || IsWhite(text[s - 1])) && forall k :: s <= k < p ==> !IsWhite(text[k])
  {
    if p > 0 && !IsWhite(text[p - 1]) then WordStart(text, p - 1) else p
  }

  /** What the code deletes up to: the character in front of the cursor, or at
      the end of the line the terminator. The subtraction is unsigned. */
  function LastToDelete(v: View): nat {
    if v.point == |v.text| then v.point
    else if v.point == 0 then 0xFFFF_FFFF
    else v.point - 1
  }

  /** The line without the word. */
  function Cut(v: View): (w: View)
    requires v.point <= |v.text|
    ensures w.point <= |w.text|
  {
    Deleted(v, WordStart(v.text, v.point), LastToDelete(v))
  }

  /** The line does not go on like the substitution from the start of the word. */
  predicate Completes(v: View, substitution: string)
    requires v.point <= |v.text|
  {
    !(substitution <= v.text[WordStart(v.text, v.point)..])
  }

  function Replaced(v: View, substitution: string): View
    requires v.point <= |v.text|
  {
    var s := WordStart(v.text, v.point);
    View(v.text[..s] + substitution + v.text[v.point..], s + |substitution|)
  }

  /** The deletion and insertion replace the word in front of the cursor if and
      only if there is one or the cursor is at the end of the line: in front of
      other text, an empty word takes the blank before it, or the whole line. */
  lemma ReplacesWord(v: View, substitution: string)
    requires v.point <= |v.text| < 0xFFFF_FFFF
    ensures Inserted(Cut(v), substitution) == Replaced(v, substitution) <==>
      WordStart(v.text, v.point) < v.point || v.point == |v.text|
  {
    var s, cut := WordStart(v.text, v.point), Cut(v);
    if s < v.point || v.point == |v.text| {
      assert cut.text == v.text[..s] + v.text[v.point..];
      assert cut.text[..s] == v.text[..s] && cut.text[s..] == v.text[v.point..];
    } else {
      assert |Inserted(cut, substitution).text| < |Replaced(v, substitution).text|;
    }
  }

  /** The part of tinyrl_do_complete that changes the line. */
  method CompleteWord(editor: Editor, substitution: CString) returns (completed: bool, ok: bool)
    requires editor.Valid() && editor.end < 0xFFFF_FFFF
    modifies editor`line, editor`buffer, editor`bufferSize, editor`point, editor`end
    modifies editor`text, editor`typed, editor.buffer
    ensures editor.Valid() && (editor.buffer == old(editor.buffer) || fresh(editor.buffer))
    ensures completed == Completes(old(editor.Current()), substitution)
    ensures !completed ==> ok && Untouched(editor)
    ensures completed ==>
      var cut, room := Cut(old(editor.Current())), old(editor.Room());
      var len := |cut.text| + |substitution|;
      && editor.line == editor.buffer && editor.bufferSize == SizeFor(room, len, editor.maxLineLength)
      && ok == Fits(room, len, editor.maxLineLength)
      && editor.Current() == if ok then Inserted(cut, substitution) else cut
  {
    hide Holds, Inserted, Deleted, WordStart, IsWhite;
    var end := editor.point;
    var start := FindWord(editor);
    completed, ok := !(substitution <= editor.line[start..editor.end]), true;
    if completed {
      if editor.end != end {
        end := if end == 0 then 0xFFFF_FFFF else end - 1;
      }
      editor.DeleteText(start, end);
      ok := editor.InsertText(substitution);
    }
  }

  /** Nothing about the line has changed. */
  twostate predicate Untouched(editor: Editor)
    reads editor
  {
    && editor.line == old(editor.line) && editor.buffer == old(editor.buffer) && editor.typed == old(editor.typed)
    && editor.bufferSize == old(editor.bufferSize) && editor.Current() == old(editor.Current())
  }

  // ---------- what came of it ----------

  datatype Match = NoMatch | OneMatch | Ambiguous | CompletedMatch | CompletedAmbiguous | MatchWithExtensions

  predicate SameText(a: string, b: string) {
    |a| == |b| && Starts(a, b)
  }

  /** The line with the word completed, unless it already goes on like that. */
  function Completed(v: View, substitution: string): (w: View)
    requires v.point <= |v.text|
    ensures w.point <= |w.text|
  {
    if Completes(v, substitution) then Inserted(Cut(v), substitution) else v
  }

  /** There is no room for the completed word, and the line has lost the word. */
  predicate Fails(v: View, substitution: string, room: nat, limit: nat)
    requires v.point <= |v.text|
  {
    Completes(v, substitution) && !Fits(room, |Cut(v).text| + |substitution|, limit)
  }

  /** The size of the buffer with the completed line. */
  function CompletedSize(v: View, substitution: string, room: nat, limit: nat): nat
    requires v.point <= |v.text|
  {
    SizeFor(room, |Cut(v).text| + |substitution|, limit)
  }

  /** tinyrl_do_complete: without matches nothing happens. The substitution takes
      the place of the word, if there is room. Several matches are listed when the
      caller wants that or when the first is more than the substitution; then the
      line is displayed in a new row, and otherwise the display is updated. */
  method Complete(editor: Editor, term: Vt100, substitution: CString, matches: seq<string>, withExtensions: bool)
    returns (status: Match, listed: bool)
    requires editor.Valid() && editor.end < 0xFFFF_FFFF
    modifies editor`line, editor`buffer, editor`bufferSize, editor`point, editor`end
    modifies editor`text, editor`typed, editor.buffer, editor`lastBuffer, editor`lastPoint, term`cells, term`cursor
    ensures editor.Valid() && (editor.buffer == old(editor.buffer) || fresh(editor.buffer))
    ensures
      var v, room, limit := old(editor.Current()), old(editor.Room()), editor.maxLineLength;
      status == NoMatch <==> matches == [] || Fails(v, substitution, room, limit)
    ensures status == NoMatch ==> !listed && term.Shows() == old(term.Shows()) && editor.Last() == old(editor.Last())
    ensures matches == [] || !Completes(old(editor.Current()), substitution) ==> Untouched(editor)
    ensures matches != [] && Completes(old(editor.Current()), substitution) ==>
      var v, room, limit := old(editor.Current()), old(editor.Room()), editor.maxLineLength;
      && editor.line == editor.buffer && editor.bufferSize == CompletedSize(v, substitution, room, limit)
      && editor.Current() == if status == NoMatch then Cut(v) else Completed(v, substitution)
    ensures status != NoMatch ==>
      var v, same, n := old(editor.Current()), SameText(substitution, matches[0]), |matches|;
      && (status == OneMatch <==> n == 1 && !Completes(v, substitution))
      && (status == CompletedMatch <==> n == 1 && Completes(v, substitution))
      && (status == CompletedAmbiguous <==> n > 1 && Completes(v, substitution))
      && (status == MatchWithExtensions <==> n > 1 && !Completes(v, substitution) && same)
      && (status == Ambiguous <==> n > 1 && !Completes(v, substitution) && !same)
      && (listed <==> n > 1 && (withExtensions || !same))
      && editor.Last() == Some(editor.Current())
      && term.Shows() == if listed then Begun(Screen("", 0), editor.Current(), editor.Look())
                         else Redisplayed(old(term.Shows()), old(editor.Last()), editor.Current(), editor.Look())
  {
    hide Holds, Inserted, Cut, Completes, IsWhite, Starts, Editor.Valid, Updated, Begun, SizeFor, Fits, Showing;
    hide Begins, Updates;
    if matches == [] { return NoMatch, false; }
    var completed, ok := CompleteWord(editor, substitution);
    if !ok { return NoMatch, false; }
    var same := SameText(substitution, matches[0]);
    if |matches| > 1 {
      status := if completed then CompletedAmbiguous else if same then MatchWithExtensions else Ambiguous;
      listed := withExtensions || !same;
      if listed {
        term.NewRow();
        editor.ResetLineState(term);
      }
    } else {
      status, listed := if completed then CompletedMatch else OneMatch, false;
    }
    EndIsLength(editor);
    UpdatedSame(term.Shows(), editor.Current(), editor.Look().echo);
    editor.Redisplay(term);
  }

  /** The tab key: a blank behind the cursor when there was just one match, if
      there is room for it. */
  method KeyTab(editor: Editor, term: Vt100, substitution: CString, matches: seq<string>) returns (result: bool)
    requires editor.Valid() && editor.end < 0xFFFF_FFFF
    modifies editor`line, editor`buffer, editor`bufferSize, editor`point, editor`end
    modifies editor`text, editor`typed, editor.buffer, editor`lastBuffer, editor`lastPoint, term`cells, term`cursor
    ensures editor.Valid() && (editor.buffer == old(editor.buffer) || fresh(editor.buffer))
    ensures matches == [] ==> !result && Untouched(editor)
    ensures matches != [] ==>
      var v, room, limit := old(editor.Current()), old(editor.Room()), editor.maxLineLength;
      var failed := Fails(v, substitution, room, limit);
      var w := if failed then Cut(v) else Completed(v, substitution);
      var size := if Completes(v, substitution) then CompletedSize(v, substitution, room, limit) else room;
      if failed || |matches| > 1 then
        && !result && editor.Current() == w
        && if Completes(v, substitution) then editor.line == editor.buffer && editor.bufferSize == size
           else Untouched(editor)
      else
        && editor.line == editor.buffer && result == Fits(size, |w.text| + 1, limit)
        && editor.Current() == (if result then Inserted(w, " ") else w)
        && editor.bufferSize == SizeFor(size, |w.text| + 1, limit)
    ensures
      var v, room, limit := old(editor.Current()), old(editor.Room()), editor.maxLineLength;
      var w := Completed(v, substitution);
      if matches == [] || Fails(v, substitution, room, limit) then
        term.Shows() == old(term.Shows()) && editor.Last() == old(editor.Last())
      else
        && editor.Last() == Some(w)
        && term.Shows() == if |matches| > 1 then Begun(Screen("", 0), w, editor.Look())
                           else Redisplayed(old(term.Shows()), old(editor.Last()), w, editor.Look())
  {
    hide Holds, Inserted, Cut, Completes, IsWhite, Starts, Editor.Valid, Updated, Begun, SizeFor, Fits, Showing;
    var status, listed := Complete(editor, term, substitution, matches, true);
    EndIsLength(editor);
    result := false;
    if status.OneMatch? || status.CompletedMatch? {
      result := editor.InsertText(" ");
    }
  }

  /** With one match, tab puts it and a blank in the place of the word if and
      only if the line does not go on like the match already, but for the word
      being the match; otherwise the blank splits what is there. */
  lemma TabReplaces(v: View, only: string)
    requires v.point <= |v.text| < 0xFFFF_FFFF
    ensures var s := WordStart(v.text, v.point);
            (Inserted(Completed(v, only), " ") == Replaced(v, only + " ") <==>
             if only <= v.text[s..] then |only| == v.point - s else s < v.point || v.point == |v.text|)
  {
    hide Cut, WordStart, Inserted, Replaced;
    var s := WordStart(v.text, v.point);
    if only <= v.text[s..] {
      BlankKept(v, only);
    } else {
      ReplacesWord(v, only);
      BlankReplaced(v, only);
      InsertedInside(Cut(v), only);
      BlankBehind(Inserted(Cut(v), only), Replaced(v, only));
    }
  }

  /** The line goes on like the match already. */
  lemma BlankKept(v: View, only: string)
    requires v.point <= |v.text| && only <= v.text[WordStart(v.text, v.point)..]
    ensures Inserted(v, " ") == Replaced(v, only + " ") <==> |only| == v.point - WordStart(v.text, v.point)
  {
    hide WordStart;
    var s := WordStart(v.text, v.point);
    var front, rest := v.text[..s], v.text[v.point..];
    if |only| == v.point - s { assert v.text[..v.point] == front + only; }
    assert front + (only + " ") + rest == front + only + " " + rest;
  }

  lemma BlankReplaced(v: View, only: string)
    requires v.point <= |v.text|
    ensures var w := Replaced(v, only); w.point <= |w.text| && Inserted(w, " ") == Replaced(v, only + " ")
  {
    hide WordStart;
    var s, w := WordStart(v.text, v.point), Replaced(v, only);
    var front, rest := v.text[..s], v.text[v.point..];
    assert w.text[..w.point] == front + only && w.text[w.point..] == rest;
    assert front + only + " " + rest == front + (only + " ") + rest;
  }

  lemma InsertedInside(v: View, t: string)
    requires v.point <= |v.text|
    ensures Inserted(v, t).point <= |Inserted(v, t).text|
  {}

  /** Tab behind "he" of "help", the only match. */
  lemma TabSplits()
    ensures Inserted(Completed(View("help", 2), "help"), " ") == View("he lp", 3)
  {
    var t := "help";
    assert WordStart(t, 0) == 0;
    assert WordStart(t, 1) == 0 by { assert t[0] == 'h'; }
    assert WordStart(t, 2) == 0 by { assert t[1] == 'e'; }
    assert "help" <= t[0..];
  }

  lemma BlankBehind(a: View, b: View)
    requires a.point <= |a.text| && b.point <= |b.text|
    ensures Inserted(a, " ") == Inserted(b, " ") <==> a == b
  {
    var x, y := Inserted(a, " ").text, Inserted(b, " ").text;
    assert x[..a.point] == a.text[..a.point] && x[a.point + 1..] == a.text[a.point..];
    assert y[..b.point] == b.text[..b.point] && y[b.point + 1..] == b.text[b.point..];
    assert a.text == a.text[..a.point] + a.text[a.point..] && b.text == b.text[..b.point] + b.text[b.point..];
  }

  method FindWord(editor: Editor) returns (start: nat)
    requires editor.Valid()
    ensures start == WordStart(editor.text, editor.point)
    ensures start <= editor.end < editor.line.Length && editor.line[start..editor.end] == editor.text[start..]
  {
    start := editor.point;
    HoldsAt(editor.line, editor.text);
    while start > 0 && !IsWhite(editor.line[start - 1])
      invariant 0 <= start <= editor.point && WordStart(editor.text, start) == WordStart(editor.text, editor.point)
    {
      start := start - 1;
    }
    assert editor.line[start..editor.end] == editor.text[start..];
  }
}
