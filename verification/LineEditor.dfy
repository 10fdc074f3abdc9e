/** The line being edited by tinyrl: a growing buffer that the current line may
    alias, the insertion point, the kill string, and the redisplay. */
module LineEditor {
  import opened CStrings
  import opened Terminal

  // ---------- what the operations do to the line ----------

  datatype View = View(text: string, point: nat)

  function Inserted(v: View, t: string): View
    requires v.point <= |v.text|
  {
    View(v.text[..v.point] + t + v.text[v.point..], v.point + |t|)
  }

  /** tinyrl_delete_text. The bounds are inclusive, and a start behind the end
      is moved to the end. */
  function Deleted(v: View, start: nat, end: nat): View
    requires v.point <= |v.text| && (start <= |v.text| || end <= |v.text|)
  {
    var s := if start > end then end else start;
    var e := if end > |v.text| then |v.text| else end;
    View(v.text[..s] + (if e < |v.text| then v.text[e + 1..] else ""),
         if v.point < s then v.point else if v.point > e then v.point - (e - s + 1) else s)
  }

  /** Whether a buffer of that size takes `len` characters. */
  predicate Fits(size: nat, len: nat, limit: nat) {
    len <= size || limit == 0 || len < limit
  }

  /** The size tinyrl_extend_line_buffer leaves: ten characters more at least, or
      once the limit. */
  function SizeFor(size: nat, len: nat, limit: nat): nat {
    if len <= size || !Fits(size, len, limit) then size
    else if limit == 0 then if len < size + 10 then size + 10 else len
    else limit - 1
  }

  function Trimmed(text: string): string {
    var n := |text|;
    if n > 0 && IsWhite(text[n - 1]) then text[..n - 1] else text
  }

  // ---------- the terminator ----------

  /** The characters in front of the first NUL are `t`. */
  ghost predicate Holds(a: array<char>, t: string)
    reads a
  {
    |t| < a.Length && a[..|t|] == t && a[|t|] == '\0' && '\0' !in t
  }

  lemma HoldsThis(a: array<char>, t: string)
    requires |t| < a.Length && (forall k :: 0 <= k < |t| ==> a[k] == t[k]) && a[|t|] == '\0' && '\0' !in t
    ensures Holds(a, t)
  {
    assert a[..|t|] == t;
  }

  lemma HoldsAt(a: array<char>, t: string)
    requires Holds(a, t)
    ensures |t| < a.Length && a[|t|] == '\0' && '\0' !in t && forall k :: 0 <= k < |t| ==> a[k] == t[k]
  {
    assert forall k :: 0 <= k < |t| ==> t[k] == a[..|t|][k];
  }

  lemma InsertedAt(v: View, t: string)
    requires v.point <= |v.text|
    ensures var w, d := Inserted(v, t), |t|;
            && |w.text| == |v.text| + d && (forall k :: v.point <= k < v.point + d ==> w.text[k] == t[k - v.point])
            && (forall k :: 0 <= k < v.point ==> w.text[k] == v.text[k])
            && (forall k :: v.point + d <= k < |w.text| ==> w.text[k] == v.text[k - d])
    ensures '\0' !in v.text && '\0' !in t ==> '\0' !in Inserted(v, t).text
  {}

  lemma DeletedAt(v: View, s: nat, e: nat)
    requires v.point <= |v.text| && s <= e <= |v.text|
    ensures var w, d := Deleted(v, s, e), e - s + 1;
            && |w.text| == (if e < |v.text| then |v.text| - d else s) && w.point <= |w.text|
            && (forall k :: 0 <= k < s ==> w.text[k] == v.text[k])
            && (forall k :: s <= k < |w.text| ==> w.text[k] == v.text[k + d])
    ensures '\0' !in v.text ==> '\0' !in Deleted(v, s, e).text
  {}

  lemma InsertedPoint(v: View, t: string)
    requires v.point <= |v.text|
    ensures Inserted(v, t).point == v.point + |t|
  {}

  lemma DeletedPoint(v: View, s: nat, e: nat)
    requires v.point <= |v.text| && s <= e <= |v.text|
    ensures Deleted(v, s, e).point ==
      if v.point < s then v.point else if v.point > e then v.point - (e - s + 1) else s
  {}

  method Strlen(a: array<char>, ghost t: string) returns (n: nat)
    requires Holds(a, t)
    ensures n == |t|
  {
    n := 0;
    while a[n] != '\0'
      invariant 0 <= n <= |t|
      decreases |t| - n
    {
      assert a[n] == a[..|t|][n];
      n := n + 1;
    }
    assert forall k :: 0 <= k < |t| ==> t[k] == a[..|t|][k];
  }

  /** lub_string_dup */
  method Dup(a: array<char>, ghost t: string) returns (b: array<char>, n: nat)
    requires Holds(a, t)
    ensures fresh(b) && Holds(b, t) && n == |t| && b.Length == n + 1
  {
    n := Strlen(a, t);
    b := new char[n + 1](i requires 0 <= i <= n && n < a.Length reads a => a[i]);
    assert b[..n] == a[..n];
  }

  /** memmove inside of one buffer, of the part that lies in it. */
  method Memmove(a: array<char>, dst: nat, src: nat, n: nat)
    requires dst <= src || dst + n <= a.Length
    modifies a
    ensures forall k :: 0 <= k < a.Length ==>
      a[k] == if dst <= k < dst + n && k - dst + src < a.Length then old(a[k - dst + src]) else old(a[k])
  {
    forall k | dst <= k < dst + n && k < a.Length && k - dst + src < a.Length {
      a[k] := a[k - dst + src];
    }
  }

  method Strncpy(a: array<char>, dst: nat, t: string)
    requires dst + |t| <= a.Length
    modifies a
    ensures forall k :: 0 <= k < a.Length ==> a[k] == if dst <= k < dst + |t| then t[k - dst] else old(a[k])
  {
    forall k | 0 <= k < |t| { a[dst + k] := t[k]; }
  }

  class Editor {
    const maxLineLength: nat        // zero: limited by memory only
    const echoEnabled: bool
    const echoChar: char
    var line: array<char>           // the buffer, or a line of the history
    var buffer: array<char>
    var bufferSize: nat
    var point: nat
    var end: nat
    var done: bool
    var killString: Option<string>
    var lastBuffer: Option<string>
    var lastPoint: nat
    var prompt: string

    ghost var text: string          // the string `line` holds
    ghost var typed: string         // the string `buffer` holds

    ghost predicate Valid()
      reads this, line, buffer
    {
      && Holds(line, text) && Holds(buffer, typed) && (line == buffer ==> text == typed)
      && point <= end == |text| && |typed| <= bufferSize && buffer.Length == bufferSize + 1
    }

    ghost function Current(): View
      reads this
    {
      View(text, point)
    }

    /** The size of the buffer once the line is in it. */
    ghost function Room(): nat
      reads this
    {
      if line == buffer then bufferSize else |text|
    }

    constructor (maxLineLength: nat, echoEnabled: bool, echoChar: char)
      ensures Valid() && fresh(buffer) && line == buffer && text == "" && lastBuffer == None && !done
      ensures this.maxLineLength == maxLineLength && this.echoEnabled == echoEnabled && this.echoChar == echoChar
    {
      this.maxLineLength, this.echoEnabled, this.echoChar := maxLineLength, echoEnabled, echoChar;
      var empty := new char[1](_ => '\0');
      buffer, line, bufferSize, point, end, done := empty, empty, 0, 0, 0, false;
      killString, lastBuffer, lastPoint, prompt := None, None, 0, "";
      text, typed := "", "";
    }

    /** What tinyrl_readline sets up. */
    method Start(prompt: string)
      modifies this
      ensures Valid() && Current() == View("", 0) && line == buffer && fresh(buffer) && bufferSize == 0 && typed == ""
      ensures !done && lastBuffer == None && this.prompt == prompt && killString == old(killString)
    {
      hide Holds;
      buffer := new char[1](_ => '\0');
      line, bufferSize, point, end, done := buffer, 0, 0, 0, false;
      lastBuffer, this.prompt := None, prompt;
      text, typed := "", "";
      HoldsThis(buffer, "");
    }

    /** A line of the history is copied before it is changed. */
    method ChangedLine()
      requires Valid()
      modifies this`line, this`buffer, this`bufferSize, this`typed
      ensures Valid() && line == buffer && Current() == old(Current())
      ensures bufferSize == old(Room()) && if old(line) == old(buffer) then buffer == old(buffer) else fresh(buffer)
    {
      if line != buffer {
        var copy, n := Dup(line, text);
        buffer, line, bufferSize, typed := copy, copy, n, text;
      }
    }

    /** Makes room for `len` characters, unless the limit forbids it. */
    method ExtendLineBuffer(len: nat) returns (ok: bool)
      requires Valid() && line == buffer
      modifies this`line, this`buffer, this`bufferSize
      ensures Valid() && line == buffer && Current() == old(Current())
      ensures ok == Fits(old(bufferSize), len, maxLineLength) && (ok ==> len <= bufferSize)
      ensures bufferSize == SizeFor(old(bufferSize), len, maxLineLength)
      ensures if bufferSize == old(bufferSize) then buffer == old(buffer) else fresh(buffer)
    {
      ok := true;
      if bufferSize < len {
        if maxLineLength == 0 {
          var newLen := if len < bufferSize + 10 then bufferSize + 10 else len;
          Realloc(newLen + 1);
        } else if len < maxLineLength {
          Realloc(maxLineLength);
        } else {
          ok := false;
        }
      }
    }

    /** realloc to `size` bytes, the last one for the terminator. */
    method Realloc(size: nat)
      requires Valid() && line == buffer && size > bufferSize + 1
      modifies this`line, this`buffer, this`bufferSize
      ensures Valid() && line == buffer && fresh(buffer) && bufferSize == size - 1
    {
      var a := buffer;
      var b := new char[size](i requires 0 <= i < size reads a => if i < a.Length then a[i] else '?');
      assert b[..|text|] == a[..|text|];
      bufferSize := size - 1;
      line, buffer := b, b;
    }

    /** tinyrl_insert_text: splices `t` in at the insertion point, unless there
        is no room for it. */
    method InsertText(t: CString) returns (ok: bool)
      requires Valid()
      modifies this`line, this`buffer, this`bufferSize, this`point, this`end, this`text, this`typed, buffer
      ensures Valid() && line == buffer && (buffer == old(buffer) || fresh(buffer))
      ensures Current() == if ok then Inserted(old(Current()), t) else old(Current())
      ensures ok == Fits(old(Room()), old(end) + |t|, maxLineLength)
      ensures bufferSize == SizeFor(old(Room()), old(end) + |t|, maxLineLength)
    {
      var delta := |t|;
      ChangedLine();
      if delta + end > bufferSize {
        ok := ExtendLineBuffer(end + delta);
        if !ok { return; }
      }
      Splice(t);
      ok := true;
    }

    method Splice(t: CString)
      requires Valid() && line == buffer && end + |t| <= bufferSize
      modifies this`point, this`end, this`text, this`typed, buffer
      ensures Valid() && Current() == Inserted(old(Current()), t)
    {
      hide Holds, Inserted;
      HoldsAt(buffer, text);
      InsertedAt(Current(), t);
      var delta := |t|;
      if point < end {
        Memmove(buffer, point + delta, point, end - point + 1);
      } else {
        buffer[end + delta] := '\0';
      }
      Strncpy(buffer, point, t);
      ghost var v := Inserted(Current(), t);
      HoldsThis(buffer, v.text);
      InsertedPoint(Current(), t);
      point, end := point + delta, end + delta;
      text, typed := v.text, v.text;
    }

    /** tinyrl_delete_text */
    method DeleteText(from: nat, upTo: nat)
      requires Valid() && (from <= end || upTo <= end)
      modifies this`line, this`buffer, this`bufferSize, this`point, this`end, this`text, this`typed, buffer
      ensures Valid() && line == buffer && (buffer == old(buffer) || fresh(buffer))
      ensures Current() == Deleted(old(Current()), from, upTo)
      ensures bufferSize == old(Room()) && (old(line) == old(buffer) ==> buffer == old(buffer))
    {
      ChangedLine();
      var start, last := from, upTo;
      if start > last {
        var tmp := last;
        start := last;
        last := tmp;
      }
      if last > end { last := end; }
      Shift(start, last);
    }

    method Shift(start: nat, last: nat)
      requires Valid() && line == buffer && start <= last <= end
      modifies this`point, this`end, this`text, this`typed, buffer
      ensures Valid() && Current() == Deleted(old(Current()), start, last)
    {
      hide Holds, Deleted;
      HoldsAt(buffer, text);
      DeletedAt(Current(), start, last);
      DeletedPoint(Current(), start, last);
      var delta := last - start + 1;
      ghost var v := Deleted(Current(), start, last);
      Memmove(buffer, start, start + delta, end - start);
      if point >= start {
        if point > last {
          point := point - delta;
        } else {
          point := start;
        }
      }
      if end > last {
        end := end - delta;
      } else {
        end := start;
      }
      buffer[end] := '\0';
      HoldsThis(buffer, v.text);
      text, typed := v.text, v.text;
    }

    // ---------- keys ----------

    method KeyDefault(key: nat) returns (ok: bool)
      requires Valid() && key < 256
      modifies this`line, this`buffer, this`bufferSize, this`point, this`end, this`text, this`typed, buffer
      ensures Valid() && line == buffer && (buffer == old(buffer) || fresh(buffer))
      ensures ok == Fits(old(Room()), old(end) + |KeyText(key)|, maxLineLength)
      ensures bufferSize == SizeFor(old(Room()), old(end) + |KeyText(key)|, maxLineLength)
      ensures Current() == if ok then Inserted(old(Current()), KeyText(key)) else old(Current())
      ensures key >= 32 && ok ==> text == old(text)[..old(point)] + [key as char] + old(text)[old(point)..]
    {
      if key > 31 {
        ok := InsertText([key as char]);
      } else {
        ok := InsertText("~" + Decimal(key));
      }
    }

    method KeyInterrupt() returns (ok: bool)
      requires Valid()
      modifies this`line, this`buffer, this`bufferSize, this`point, this`end, this`text, this`typed, this`done, buffer
      ensures Valid() && line == buffer && (buffer == old(buffer) || fresh(buffer))
      ensures ok && done && Current() == View("", 0) && bufferSize == old(Room())
    {
      DeleteText(0, end);
      done := true;
      ok := true;
    }

    /** Enter: the line is finished; the new row is the terminal's part. */
    method KeyEnter() returns (ok: bool)
      requires Valid()
      modifies this`done
      ensures Valid() && ok && done
    {
      done := true;
      ok := true;
    }

    method KeyStartOfLine() returns (ok: bool)
      requires Valid()
      modifies this`point
      ensures Valid() && ok && Current() == View(text, 0)
    {
      point := 0;
      ok := true;
    }

    method KeyEndOfLine() returns (ok: bool)
      requires Valid()
      modifies this`point
      ensures Valid() && ok && Current() == View(text, |text|)
    {
      point := end;
      ok := true;
    }

    /** What is stored is the end of the buffer, even when the line that loses
        its end is one of the history. */
    method KeyKill() returns (ok: bool)
      requires Valid() && point <= |typed|
      modifies this`line, this`buffer, this`bufferSize, this`point, this`end, this`text, this`typed
      modifies this`killString, buffer
      ensures Valid() && line == buffer && (buffer == old(buffer) || fresh(buffer)) && bufferSize == old(Room())
      ensures ok && Current() == View(old(text)[..old(point)], old(point))
      ensures killString == Some(old(typed)[old(point)..])
    {
      HoldsAt(buffer, typed);
      var n := Strlen(buffer, typed);
      killString := Some(buffer[point..n]);
      assert buffer[point..n] == typed[point..];
      DeleteText(point, end);
      ok := true;
    }

    method KeyYank() returns (ok: bool)
      requires Valid() && (killString.Some? ==> '\0' !in killString.value)
      modifies this`line, this`buffer, this`bufferSize, this`point, this`end, this`text, this`typed, buffer
      ensures Valid() && (buffer == old(buffer) || fresh(buffer))
      ensures killString.None? ==>
        && !ok && line == old(line) && buffer == old(buffer) && typed == old(typed)
        && bufferSize == old(bufferSize) && Current() == old(Current())
      ensures killString.Some? ==> var t := killString.value;
        && line == buffer && ok == Fits(old(Room()), old(end) + |t|, maxLineLength)
        && bufferSize == SizeFor(old(Room()), old(end) + |t|, maxLineLength)
        && Current() == if ok then Inserted(old(Current()), t) else old(Current())
    {
      ok := false;
      if killString.Some? {
        ok := InsertText(killString.value);
      }
    }

    /** Shows the line of a history entry with the insertion point at its end. */
    method KeyUp(entry: array?<char>, ghost content: string) returns (ok: bool)
      requires Valid() && (entry != null ==> entry != buffer && Holds(entry, content))
      modifies this`line, this`point, this`end, this`text
      ensures Valid() && ok == (entry != null)
      ensures ok ==> line == entry && Current() == View(content, |content|)
      ensures !ok ==> line == old(line) && Current() == old(Current())
    {
      ok := entry != null;
      if ok {
        line := entry;
        end := Strlen(line, content);
        point, text := end, content;
      }
    }

    /** The next history entry, or behind the last one the buffer again. */
    method KeyDown(entry: array?<char>, ghost content: string) returns (ok: bool)
      requires Valid() && (entry != null ==> entry != buffer && Holds(entry, content))
      modifies this`line, this`point, this`end, this`text
      ensures Valid() && ok == (old(line) != buffer)
      ensures ok && entry != null ==> line == entry && Current() == View(content, |content|)
      ensures ok && entry == null ==> line == buffer && Current() == View(typed, |typed|)
      ensures !ok ==> line == old(line) && Current() == old(Current())
    {
      ok := line != buffer;
      if ok {
        ghost var t := if entry == null then typed else content;
        line := if entry == null then buffer else entry;
        end := Strlen(line, t);
        point, text := end, t;
      }
    }

    method KeyLeft() returns (ok: bool)
      requires Valid()
      modifies this`point
      ensures Valid() && ok == (old(point) > 0) && point == if ok then old(point) - 1 else old(point)
    {
      ok := point > 0;
      if ok { point := point - 1; }
    }

    method KeyRight() returns (ok: bool)
      requires Valid()
      modifies this`point
      ensures Valid() && ok == (old(point) < |text|) && point == if ok then old(point) + 1 else old(point)
    {
      ok := point < end;
      if ok { point := point + 1; }
    }

    method KeyBackspace() returns (ok: bool)
      requires Valid()
      modifies this`line, this`buffer, this`bufferSize, this`point, this`end, this`text, this`typed, buffer
      ensures Valid() && (buffer == old(buffer) || fresh(buffer)) && ok == (old(point) > 0)
      ensures ok ==> line == buffer && bufferSize == old(Room()) && var p := old(point);
              Current() == View(old(text)[..p - 1] + old(text)[p..], p - 1)
      ensures !ok ==> line == old(line) && buffer == old(buffer) && typed == old(typed)
      ensures !ok ==> bufferSize == old(bufferSize) && Current() == old(Current())
    {
      ok := point > 0;
      if ok {
        point := point - 1;
        DeleteText(point, point);
      }
    }

    method KeyDelete() returns (ok: bool)
      requires Valid()
      modifies this`line, this`buffer, this`bufferSize, this`point, this`end, this`text, this`typed, buffer
      ensures Valid() && (buffer == old(buffer) || fresh(buffer)) && ok == (old(point) < |old(text)|)
      ensures ok ==> line == buffer && bufferSize == old(Room()) && var p := old(point);
              Current() == View(old(text)[..p] + old(text)[p + 1..], p)
      ensures !ok ==> line == old(line) && buffer == old(buffer) && typed == old(typed)
      ensures !ok ==> bufferSize == old(bufferSize) && Current() == old(Current())
    {
      ok := point < end;
      if ok { DeleteText(point, point); }
    }

    /** Deletes to the left, and the character at the insertion point too. */
    method KeyEraseLine() returns (ok: bool)
      requires Valid()
      modifies this`line, this`buffer, this`bufferSize, this`point, this`end, this`text, this`typed, buffer
      ensures Valid() && line == buffer && (buffer == old(buffer) || fresh(buffer)) && ok
      ensures Current() == View(if old(point) < |old(text)| then old(text)[old(point) + 1..] else "", 0)
      ensures bufferSize == old(Room())
    {
      DeleteText(0, point);
      point := 0;
      ok := true;
    }

    function Look(): Style
      reads this`prompt
    {
      Style(prompt, if echoEnabled then Plain else if echoChar != '\0' then Masked(echoChar) else Silent)
    }

    method InternalPrint(term: Vt100, s: string)
      modifies term`cells, term`cursor
      ensures term.Shows() == Printed(old(term.Shows()), Mask(s, Look().echo))
    {
      if echoEnabled {
        term.Print(s);
      } else if echoChar != '\0' {
        term.Print(seq(|s|, _ => echoChar));
      }
    }

    /** The line as it was last displayed. */
    ghost function Last(): Option<View>
      reads this`lastBuffer, this`lastPoint
    {
      if lastBuffer.None? then None else Some(View(lastBuffer.value, lastPoint))
    }

    /** tinyrl_redisplay: when the terminal shows the line as it was last
        displayed, then it shows the current line afterwards if and only if the
        update is one that `Updates` describes; without a last line, if and only
        if the line is one that `Begins` describes. */
    method Redisplay(term: Vt100)
      requires Valid()
      modifies this`lastBuffer, this`lastPoint, term`cells, term`cursor
      ensures Valid() && Last() == Some(Current())
      ensures term.Shows() == Redisplayed(old(term.Shows()), old(Last()), Current(), Look())
      ensures old(lastBuffer).None? && old(term.Shows()) == Screen("", 0) ==>
        (term.Shows() == Showing(Current(), Look()) <==> Begins(Current(), Look()))
      ensures old(lastBuffer).Some? && old(lastPoint) <= |old(lastBuffer).value| ==>
        var last := View(old(lastBuffer).value, old(lastPoint));
        old(term.Shows()) == Showing(last, Look()) ==>
          (term.Shows() == Showing(Current(), Look()) <==> Updates(last, Current(), Look()))
    {
      hide Updates, Begins, Showing, Begun, Updated, Mask;
      ghost var row := term.Shows();
      BegunShows(Current(), Look());
      if lastBuffer.Some? && lastPoint <= |lastBuffer.value| {
        UpdatedShows(View(lastBuffer.value, lastPoint), Current(), Look());
      }
      var lineLen := Strlen(line, text);
      var now := line[..lineLen];
      if lastBuffer.None? {
        Begin(term, now);
      } else {
        Update(term, now, lastBuffer.value);
      }
      lastBuffer, lastPoint := Some(now), point;
    }

    /** tinyrl_reset_line_state: the line as if it had not been displayed yet. */
    method ResetLineState(term: Vt100)
      requires Valid()
      modifies this`lastBuffer, this`lastPoint, term`cells, term`cursor
      ensures Valid() && Last() == Some(Current())
      ensures term.Shows() == Begun(old(term.Shows()), Current(), Look())
    {
      hide Begins, Updates, Showing, Begun, Updated;
      lastBuffer := None;
      Redisplay(term);
    }

    /** The prompt and the line. */
    method Begin(term: Vt100, now: string)
      requires Valid() && now == text
      modifies term`cells, term`cursor
      ensures term.Shows() == Begun(old(term.Shows()), Current(), Look())
    {
      hide Printed, Holds, Mask;
      term.Print(prompt);
      InternalPrint(term, now);
      if point < |now| { term.CursorBack(|now| - point); }
    }

    /** The update of a line that was displayed before. */
    method Update(term: Vt100, now: string, last: string)
      requires Valid() && now == text
      modifies term`cells, term`cursor
      ensures term.Shows() == Updated(old(term.Shows()), View(last, lastPoint), Current(), Look().echo)
    {
      hide Printed, Erased, Moved, Mask, Holds;
      var delta := |now| - |last|;
      if delta > 0 && last <= now {
        InternalPrint(term, now[|now| - delta..]);
      } else if delta < 0 && now <= last {
        if echoEnabled || echoChar != '\0' {
          MoveCursor(term, lastPoint, point);
          term.Erase(-delta);
        }
      } else if delta == 0 && now == last {
        if echoEnabled || echoChar != '\0' { MoveCursor(term, lastPoint, point); }
      } else {
        if lastPoint > 0 { term.CursorBack(lastPoint); }
        term.Erase(|last|);
        InternalPrint(term, now);
        if |now| - point > 0 { term.CursorBack(|now| - point); }
      }
    }

    /** Moves the cursor as far as the insertion point moved. */
    method MoveCursor(term: Vt100, from: nat, target: nat)
      modifies term`cells, term`cursor
      ensures term.Shows() == Moved(old(term.Shows()), from, target)
    {
      var shift := from - target;
      if shift > 0 {
        term.CursorBack(shift);
      } else if shift < 0 {
        term.CursorForward(-shift);
      }
    }

    /** When the line is finished, one blank at its end is removed. */
    method TrimLast()
      requires Valid()
      modifies this`line, this`buffer, this`bufferSize, this`point, this`end, this`text, this`typed, buffer
      ensures Valid() && (buffer == old(buffer) || fresh(buffer))
      ensures text == Trimmed(old(text))
    {
      HoldsAt(line, text);
      if end > 0 && IsWhite(line[end - 1]) {
        DeleteText(end - 1, end);
      }
    }
  }

  lemma EndIsLength(editor: Editor)
    requires editor.Valid()
    ensures editor.point <= editor.end == |editor.text|
  {}

  // ---------- redisplay ----------

  /** Text is shown as it is, as one character for each of its own, or not. */
  datatype Echo = Plain | Masked(c: char) | Silent

  datatype Style = Style(prompt: string, echo: Echo)

  function Mask(text: string, echo: Echo): string {
    match echo
    case Plain => text
    case Masked(c) => seq(|text|, _ => c)
    case Silent => ""
  }

  /** The row that shows a line. */
  function Showing(v: View, style: Style): Screen {
    Behind(style.prompt, Screen(Mask(v.text, style.echo), if style.echo.Silent? then 0 else v.point))
  }

  /** What the first display makes of a row. */
  function Begun(s: Screen, v: View, style: Style): Screen
    requires v.point <= |v.text|
  {
    Back(Printed(Printed(s, style.prompt), Mask(v.text, style.echo)), |v.text| - v.point)
  }

  /** What the update from one line to the next makes of it. */
  function Updated(s: Screen, last: View, now: View, echo: Echo): Screen
    requires now.point <= |now.text|
  {
    var n, m := |last.text|, |now.text|;
    if n < m && last.text <= now.text then Printed(s, Mask(now.text[n..], echo))
    else if m < n && now.text <= last.text then
      if echo.Silent? then s else Erased(Moved(s, last.point, now.point), n - m)
    else if last.text == now.text then
      if echo.Silent? then s else Moved(s, last.point, now.point)
    else Redrawn(s, last, now, echo)
  }

  /** The line erased from its start on and printed anew. */
  function Redrawn(s: Screen, last: View, now: View, echo: Echo): Screen
    requires now.point <= |now.text|
  {
    Back(Printed(Erased(Back(s, last.point), |last.text|), Mask(now.text, echo)), |now.text| - now.point)
  }

  function Redisplayed(s: Screen, last: Option<View>, now: View, style: Style): Screen
    requires now.point <= |now.text|
  {
    if last.None? then Begun(s, now, style) else Updated(s, last.value, now, style.echo)
  }

  /** When the first display is right. In silence the cursor is moved back from
      where it would be. */
  predicate Begins(v: View, style: Style) {
    style.echo.Silent? ==> style.prompt == "" || v.point == |v.text|
  }

  /** When erasing the old line and printing the new one is right. */
  predicate Redraws(last: View, now: View, style: Style) {
    style.echo.Silent? ==> style.prompt == "" || (last.point == 0 && now.point == |now.text|)
  }

  /** When the update from `last` to `now` shows what it should: an extension
      must be typed with both cursors at the end of the line, and what a
      shortened line loses must stand right behind the cursor. In silence only a
      redraw can go wrong, for it moves the cursor into the prompt. */
  predicate Updates(last: View, now: View, style: Style) {
    var k := |last.text| - |now.text|;
    if k < 0 && last.text <= now.text then
      style.echo.Silent? || (last.point == |last.text| && now.point == |now.text|)
    else if k > 0 && now.text <= last.text then
      !style.echo.Plain? || From(last.text, now.point + k) == From(now.text, now.point)
    else if last.text == now.text then true
    else Redraws(last, now, style)
  }

  lemma UpdatedSame(s: Screen, v: View, echo: Echo)
    ensures v.point <= |v.text| ==> Updated(s, v, v, echo) == s
  {}

  lemma BegunShows(v: View, style: Style)
    requires v.point <= |v.text|
    ensures Begun(Screen("", 0), v, style) == Showing(v, style) <==> Begins(v, style)
  {
    hide Printed;
    PrintedBoth(style.prompt, Mask(v.text, style.echo));
    if style.echo.Silent? { assert style.prompt + "" == style.prompt; }
  }

  lemma UpdatedShows(last: View, now: View, style: Style)
    requires last.point <= |last.text| && now.point <= |now.text|
    ensures Updated(Showing(last, style), last, now, style.echo) == Showing(now, style) <==> Updates(last, now, style)
  {
    hide Printed, Erased, Moved, Mask, Showing, Redrawn;
    var n, m := |last.text|, |now.text|;
    MovedShows(last, now.point, style);
    if n < m && last.text <= now.text {
      ExtendShows(last, now, style);
    } else if m < n && now.text <= last.text {
      if style.echo.Silent? { SilentShows(last, now, style); } else { ShrinkShows(last, now, style); }
    } else if last.text == now.text {
    } else if style.echo.Silent? {
      SilentRedraw(last, now, style);
    } else {
      RedrawShows(last, now, style);
    }
  }

  /** Printing what is new behind the cells that are there. */
  lemma ExtendShows(last: View, now: View, style: Style)
    requires last.point <= |last.text| < |now.text| && last.text <= now.text && now.point <= |now.text|
    ensures Printed(Showing(last, style), Mask(now.text[|last.text|..], style.echo)) == Showing(now, style)
        <==> style.echo.Silent? || (last.point == |last.text| && now.point == |now.text|)
  {
    var echo, added := style.echo, Mask(now.text[|last.text|..], style.echo);
    var before := Screen(Mask(last.text, echo), if echo.Silent? then 0 else last.point);
    var after := Screen(Mask(now.text, echo), if echo.Silent? then 0 else now.point);
    var s := Printed(before, added);
    BehindPrinted(style.prompt, before, added);
    BehindSame(style.prompt, s, after);
    if echo.Silent? {
      assert s == after;
    } else if last.point == |last.text| {
      assert s.cells == Mask(last.text, echo) + added;
      assert s.cells == Mask(now.text, echo);
    } else {
      assert |s.cells| < |now.text|;
    }
  }

  /** The cursor of a line that is shown, moved. */
  lemma MovedShows(last: View, point: nat, style: Style)
    ensures var s, after := Showing(last, style), Showing(View(last.text, point), style);
            after == if style.echo.Silent? then s else Moved(s, last.point, point)
  {}

  lemma SilentShows(last: View, now: View, style: Style)
    requires style.echo.Silent?
    ensures Showing(last, style) == Showing(now, style)
  {}

  /** Deleting cells at the new insertion point. */
  lemma ShrinkShows(last: View, now: View, style: Style)
    requires now.point <= |now.text| < |last.text| && now.text <= last.text && !style.echo.Silent?
    ensures var k := |last.text| - |now.text|;
            (Erased(Showing(View(last.text, now.point), style), k) == Showing(now, style)
             <==> style.echo.Masked? || From(last.text, now.point + k) == From(now.text, now.point))
  {
    hide Erased, From, Behind, Mask;
    var k, p := |last.text| - |now.text|, now.point;
    var was, cells := Mask(last.text, style.echo), Mask(now.text, style.echo);
    MaskPrefix(now.text, last.text, style.echo);
    BehindErased(style.prompt, Screen(was, p), k);
    BehindSame(style.prompt, Erased(Screen(was, p), k), Screen(cells, p));
    ErasedTail(was, cells, p, k);
    MaskTail(last.text, p + k, now.text, p, style.echo);
  }

  /** What is left of a row is a front part of it exactly when the rest is. */
  lemma ErasedTail(was: string, cells: string, p: nat, k: nat)
    requires p <= |cells| && |cells| + k == |was| && cells <= was
    ensures Erased(Screen(was, p), k) == Screen(cells, p) <==> From(was, p + k) == From(cells, p)
  {
    var rest := From(was, p + k);
    var s := Erased(Screen(was, p), k);
    assert was[..p] == cells[..p] && From(cells, p) == cells[p..] && cells == cells[..p] + cells[p..];
    assert s.cells == was[..p] + rest;
    if s.cells == cells { assert rest == s.cells[p..]; }
  }

  lemma MaskPrefix(a: string, b: string, echo: Echo)
    requires a <= b && !echo.Silent?
    ensures |Mask(a, echo)| == |a| && |Mask(b, echo)| == |b| && Mask(a, echo) <= Mask(b, echo)
  {
    assert Mask(b, echo)[..|a|] == Mask(a, echo);
  }

  /** Tails of the same length look alike when they are masked. */
  lemma MaskTail(a: string, i: nat, b: string, j: nat, echo: Echo)
    requires i <= |a| && j <= |b| && |a| - i == |b| - j && !echo.Silent?
    ensures From(Mask(a, echo), i) == From(Mask(b, echo), j) <==> echo.Masked? || From(a, i) == From(b, j)
  {
    if echo.Masked? { assert From(Mask(a, echo), i) == From(Mask(b, echo), j); }
  }

  /** Erasing the old line from behind the prompt and printing the new one. */
  lemma RedrawShows(last: View, now: View, style: Style)
    requires now.point <= |now.text| && !style.echo.Silent?
    ensures Redrawn(Showing(last, style), last, now, style.echo) == Showing(now, style)
  {
    hide Printed, Erased;
    var row := Screen(Mask(last.text, style.echo), 0);
    assert Back(Showing(last, style), last.point) == Behind(style.prompt, row);
    BehindErased(style.prompt, row, |last.text|);
    BehindPrinted(style.prompt, Erased(row, |last.text|), Mask(now.text, style.echo));
    RowReplaced(Mask(last.text, style.echo), Mask(now.text, style.echo), |last.text|);
  }

  lemma RowReplaced(was: string, cells: string, n: nat)
    requires n >= |was|
    ensures Printed(Erased(Screen(was, 0), n), cells) == Screen(cells, |cells|)
  {
    assert From(was, n) == "";
  }

  /** In silence nothing is printed, and erasing takes from the prompt where the
      cursor was moved into it. */
  lemma SilentRedraw(last: View, now: View, style: Style)
    requires now.point <= |now.text| && style.echo.Silent?
    ensures Redrawn(Showing(last, style), last, now, style.echo) == Showing(now, style) <==> Redraws(last, now, style)
  {
    var prompt := style.prompt;
    assert prompt + "" == prompt;
    assert Showing(last, style) == Screen(prompt, |prompt|) == Showing(now, style);
  }

  function Decimal(n: nat): string
    requires n < 100
  {
    (if n < 10 then "" else [('0' as int + n / 10) as char]) + [('0' as int + n % 10) as char]
  }

  /** What a key inserts by default: itself, or for a control character its
      number behind a tilde. */
  function KeyText(key: nat): CString
    requires key < 256
  {
    if key > 31 then [key as char] else "~" + Decimal(key)
  }
}
