/** Reading a line from input that is no terminal, in pieces of 79 characters. */
module LineInput {
  import opened CStrings
  import opened Terminal
  import opened LineEditor

  const PIECE: nat := 79

  /** The first place of `c` from `p` on, or `q`. */
  function Find(s: string, p: nat, q: nat, c: char): (i: nat)
    requires p <= q <= |s|
    ensures p <= i <= q && (i < q ==> s[i] == c) && forall k :: p <= k < i ==> s[k] != c
    decreases q - p
  {
    if p == q || s[p] == c then p else Find(s, p + 1, q, c)
  }

  function DropBlanks(s: string): string {
    if s != "" && IsWhite(s[0]) then DropBlanks(s[1..]) else s
  }

  /** What goes is white space, and what stays begins with something else. */
  lemma {:induction false} BlanksDropped(s: string) returns (k: nat)
    ensures k <= |s| && DropBlanks(s) == s[k..]
    ensures forall i :: 0 <= i < k ==> s[i] in " \t\n\r" + [VT, FF]
    ensures k < |s| ==> s[k] !in " \t\n\r" + [VT, FF]
  {
    k := 0;
    if s != "" {
      assert IsWhite(s[0]) <==> s[0] in " \t\n\r" + [VT, FF];
      if IsWhite(s[0]) {
        k := BlanksDropped(s[1..]);
        assert forall i :: 0 <= i < k ==> s[i + 1] == s[1..][i];
        k := k + 1;
      }
    }
  }

  /** Blanks are dropped in front of the first piece that is more than blanks. */
  lemma {:induction false} DropBlanksJoin(a: string, b: string)
    ensures DropBlanks(a + b) == if DropBlanks(a) == "" then DropBlanks(b) else DropBlanks(a) + b
  {
    if a == "" {
      assert a + b == b;
    } else {
      assert (a + b)[1..] == a[1..] + b;
      if IsWhite(a[0]) { DropBlanksJoin(a[1..], b); }
    }
  }

  // ---------- what is read ----------

  /** Where the piece ends that fgets takes from `p` on: behind a line feed, or
      when it is full, or with the input. */
  function PieceEnd(input: string, p: nat): (q: nat)
    requires p <= |input|
    ensures p <= q <= |input| && q <= p + PIECE && (p < |input| ==> p < q)
  {
    var most := if p + PIECE <= |input| then p + PIECE else |input|;
    var i := Find(input, p, most, '\n');
    if i < most then i + 1 else i
  }

  /** A return ends the line, or else a line feed. */
  function LineEnd(input: string): (c: nat)
    ensures c <= |input|
  {
    Find(input, 0, Find(input, 0, |input|, '\n'), '\r')
  }

  /** The input is at its end when fgets looked for more than there is. */
  predicate Exhausted(input: string, p: nat)
    requires p <= |input|
  {
    var q := PieceEnd(input, p);
    q == |input| && q < p + PIECE && (q == p || input[q - 1] != '\n')
  }

  /** The line, without the blanks in front; but there is none when the input
      ends in full pieces, or with blanks only. */
  function Line(input: string): Option<string> {
    var c := LineEnd(input);
    var text, p := DropBlanks(input[..c]), c / PIECE * PIECE;
    if p == |input| || (text == "" && Exhausted(input, p)) then None else Some(text)
  }

  /** The input behind the piece that ended the line. */
  function Rest(input: string): string {
    input[PieceEnd(input, LineEnd(input) / PIECE * PIECE)..]
  }

  // ---------- the laws ----------

  /** Of lines that end in line feeds every one is read whole, and then the next. */
  lemma FedLine(line: string, rest: string)
    requires '\n' !in line && '\r' !in line
    ensures Line(line + "\n" + rest) == Some(DropBlanks(line)) && Rest(line + "\n" + rest) == rest
  {
    var input := line + "\n" + rest;
    var n := |line|;
    assert forall k :: 0 <= k < n ==> input[k] == line[k];
    assert input[n] == '\n' && input[..n] == line && input[n + 1..] == rest;
    assert LineEnd(input) == n;
  }

  /** A last line without a line feed is lost when its length is a multiple of 79,
      even when it is not blank; a blank one is lost anyway. */
  lemma LastLine(line: string)
    requires '\n' !in line && '\r' !in line
    ensures Line(line) == if |line| % 79 == 0 || DropBlanks(line) == "" then None else Some(DropBlanks(line))
  {
    assert LineEnd(line) == |line| && line[..|line|] == line;
  }

  /** A return ends the line too. What follows it is lost, up to the line feed or to
      the end of its piece, whichever comes first; so nothing is if and only if one
      of them comes at once. A line feed right behind the piece is left, and ends an
      empty line. */
  lemma ReturnLine(input: string, n: nat)
    requires n < |input| && input[n] == '\r'
    requires forall k :: 0 <= k < n ==> input[k] != '\r' && input[k] != '\n'
    ensures
      var e, full := Find(input, n, |input|, '\n'), n / PIECE * PIECE + PIECE;
      var stop, fed := if e < full then e else full, e < full && e < |input|;
      var text, lost := DropBlanks(input[..n]), input[n + 1..stop];
      && Line(input) == (if text == "" && !fed && |input| < full then None else Some(text))
      && Rest(input) == input[if fed then stop + 1 else stop..]
      && input == input[..n] + "\r" + lost + (if fed then "\n" else "") + Rest(input)
      && (lost == "" <==> n + 1 == e || n + 1 == full)
  {
    hide DropBlanks, Find, LineEnd, PieceEnd, Exhausted;
    var e, p := Find(input, n, |input|, '\n'), n / PIECE * PIECE;
    ReturnEnds(input, n, e);
    PieceStops(input, p, e);
    var stop, fed := if e < p + PIECE then e else p + PIECE, e < p + PIECE && e < |input|;
    ReturnParts(input, n, stop, fed);
  }

  lemma ReturnParts(input: string, n: nat, stop: nat, fed: bool)
    requires n < stop <= |input| && input[n] == '\r' && (fed ==> stop < |input| && input[stop] == '\n')
    ensures input == input[..n] + "\r" + input[n + 1..stop] + (if fed then "\n" else "")
                     + input[if fed then stop + 1 else stop..]
  {
    var rest := input[if fed then stop + 1 else stop..];
    assert input[stop..] == (if fed then "\n" else "") + rest;
    assert input == input[..n] + [input[n]] + input[n + 1..stop] + input[stop..];
  }

  lemma ReturnEnds(input: string, n: nat, e: nat)
    requires n < |input| && input[n] == '\r' && e == Find(input, n, |input|, '\n')
    requires forall k :: 0 <= k < n ==> input[k] != '\r' && input[k] != '\n'
    ensures LineEnd(input) == n < e
  {
    assert Find(input, 0, |input|, '\n') == e;
  }

  lemma PieceStops(input: string, p: nat, e: nat)
    requires p <= e <= |input| && (e < |input| ==> input[e] == '\n') && forall k :: p <= k < e ==> input[k] != '\n'
    ensures PieceEnd(input, p) ==
      if e < p + PIECE && e < |input| then e + 1 else if e < p + PIECE then e else p + PIECE
    ensures Exhausted(input, p) <==> e == |input| < p + PIECE
  {}

  // ---------- the code ----------

  /** strchr for a return, or else for a line feed, and the cut. */
  method Strip(buffer: string) returns (r: string)
    ensures r == buffer[..Find(buffer, 0, |buffer|, if '\r' in buffer then '\r' else '\n')]
  {
    var c := if '\r' in buffer then '\r' else '\n';
    var i := 0;
    while i < |buffer| && buffer[i] != c
      invariant 0 <= i <= |buffer| && Find(buffer, i, |buffer|, c) == Find(buffer, 0, |buffer|, c)
    {
      i := i + 1;
    }
    r := buffer[..i];
  }

  method SkipBlanks(s: string) returns (r: string)
    ensures r == DropBlanks(s)
  {
    var i := 0;
    while i < |s| && IsWhite(s[i])
      invariant 0 <= i <= |s| && DropBlanks(s[i..]) == DropBlanks(s)
    {
      assert s[i..][1..] == s[i + 1..];
      i := i + 1;
    }
    r := s[i..];
  }

  /** fgets: the end of the next piece. */
  method Gets(input: string, p: nat) returns (q: nat, eof: bool)
    requires p <= |input|
    ensures q == PieceEnd(input, p) && eof == Exhausted(input, p)
  {
    var most := if p + PIECE <= |input| then p + PIECE else |input|;
    q := p;
    while q < most && input[q] != '\n'
      invariant p <= q <= most && Find(input, q, most, '\n') == Find(input, p, most, '\n')
    {
      q := q + 1;
    }
    eof := q == |input| && q < p + PIECE;
    if q < most { q := q + 1; }
  }

  predicate Unbroken(input: string, p: nat)
    requires p <= |input|
  {
    forall k :: 0 <= k < p ==> input[k] != '\n' && input[k] != '\r'
  }

  /** What the piece at `p` is cut to, when no line ends in front of it. */
  function Cut(input: string, p: nat): (b: string)
    requires p <= |input|
  {
    var piece := input[p..PieceEnd(input, p)];
    piece[..Find(piece, 0, |piece|, if '\r' in piece then '\r' else '\n')]
  }

  /** A piece that stays full is passed; in another one the line ends. */
  lemma PieceIs(input: string, p: nat)
    requires p < |input| && p % PIECE == 0 && Unbroken(input, p)
    ensures var b, q, c := Cut(input, p), PieceEnd(input, p), LineEnd(input);
            && |b| <= PIECE
            && (|b| == PIECE ==> q == p + PIECE && Unbroken(input, q) && input[..q] == input[..p] + b)
            && (|b| < PIECE ==> c == p + |b| && c / PIECE * PIECE == p && input[..c] == input[..p] + b)
  {
    hide Cut, Find, LineEnd, PieceEnd;
    var b := Cut(input, p);
    CutStands(input, p, b);
    NoBreakInFront(input, p, b);
    Longer(input, p, b);
    if |b| < PIECE { EndsHere(input, p, |b|); }
  }

  lemma CutStands(input: string, p: nat, b: string)
    requires p <= |input| && b == Cut(input, p)
    ensures p + |b| <= |input| && b == input[p..p + |b|]
  {
    var piece := input[p..PieceEnd(input, p)];
    assert |b| <= |piece| && b == piece[..|b|];
    assert piece[..|b|] == input[p..p + |b|];
  }

  lemma Longer(input: string, p: nat, b: string)
    requires p + |b| <= |input| && b == input[p..p + |b|] && Unbroken(input, p) && '\r' !in b && '\n' !in b
    ensures input[..p + |b|] == input[..p] + b && Unbroken(input, p + |b|)
  {
    forall k | p <= k < p + |b| ensures input[k] != '\n' && input[k] != '\r' { assert b[k - p] == input[k]; }
  }

  lemma NoBreakInFront(input: string, p: nat, b: string)
    requires p <= |input| && b == Cut(input, p)
    ensures p + |b| <= PieceEnd(input, p) && '\r' !in b && '\n' !in b
    ensures p + |b| < PieceEnd(input, p) ==> input[p + |b|] == '\r' || input[p + |b|] == '\n'
    ensures p + |b| == PieceEnd(input, p) ==> |b| == PIECE || p + |b| == |input|
  {
    var q := PieceEnd(input, p);
    var piece := input[p..q];
    assert forall k :: 0 <= k < |piece| ==> piece[k] == input[p + k];
    forall k | 0 <= k < |b| ensures b[k] != '\r' && b[k] != '\n' {
      assert b[k] == piece[k];
      if '\r' !in piece { assert piece[k] != '\r'; }
      assert k < |piece| - 1 || piece[k] != '\n' || b == piece;
    }
  }

  lemma EndsHere(input: string, p: nat, n: nat)
    requires p + n <= |input| && p % PIECE == 0 && n < PIECE && Unbroken(input, p + n)
    requires p + n == |input| || input[p + n] == '\r' || input[p + n] == '\n'
    ensures LineEnd(input) == p + n && (p + n) / PIECE * PIECE == p
  {
    var e := Find(input, 0, |input|, '\n');
    assert p + n <= e;
  }

  lemma EndBehind(input: string, q: nat)
    requires q <= |input| && Unbroken(input, q)
    ensures q <= LineEnd(input)
  {
    assert q <= Find(input, 0, |input|, '\n');
  }

  /** What is read so far is not longer than the line. */
  lemma BeforeEnd(input: string, p: nat, b: string, limit: nat)
    requires p + |b| <= LineEnd(input) && b == input[p..p + |b|]
    requires limit == 0 || |DropBlanks(input[..LineEnd(input)])| < limit
    ensures limit == 0 || |DropBlanks(input[..p] + b)| < limit
  {
    hide DropBlanks, LineEnd;
    var c := LineEnd(input);
    assert input[..c] == input[..p] + b + input[p + |b|..c];
    DropBlanksJoin(input[..p] + b, input[p + |b|..c]);
  }

  lemma StartsUnbroken(input: string)
    ensures Unbroken(input, 0) && DropBlanks(input[..0]) == ""
  {}

  lemma CutIs(input: string, p: nat)
    requires p <= |input|
    ensures var piece := input[p..PieceEnd(input, p)];
            Cut(input, p) == piece[..Find(piece, 0, |piece|, if '\r' in piece then '\r' else '\n')]
  {}

  /** All pieces were full. */
  lemma NothingLeft(input: string)
    requires |input| % PIECE == 0 && Unbroken(input, |input|)
    ensures Line(input) == None && Rest(input) == ""
  {
    assert LineEnd(input) == |input|;
    assert |input| / PIECE * PIECE == |input|;
  }

  lemma LineIs(input: string, p: nat)
    requires p < |input| && LineEnd(input) / PIECE * PIECE == p
    ensures var text := DropBlanks(input[..LineEnd(input)]);
            && Line(input) == (if text == "" && Exhausted(input, p) then None else Some(text))
            && Rest(input) == input[PieceEnd(input, p)..]
  {}

  /** A piece goes to the end of the line, without blanks in front of the first; but
      one that makes the line too long is left out. */
  function Fill(text: string, piece: string, limit: nat): string {
    var s := if text == "" then DropBlanks(piece) else piece;
    if limit == 0 || |text| + |s| < limit then text + s else text
  }

  /** What is read from `p` on behind `text`, when a line has a limit. */
  function Filled(input: string, p: nat, text: string, limit: nat): Option<string>
    requires p <= |input|
    decreases |input| - p
  {
    if p == |input| then None
    else
      var t := Fill(text, Cut(input, p), limit);
      if |Cut(input, p)| == PIECE then Filled(input, PieceEnd(input, p), t, limit)
      else if t == "" && Exhausted(input, p) then None
      else Some(t)
  }

  /** A line that keeps to the limit is read as if there were none. */
  lemma ShortLine(input: string, limit: nat)
    requires limit == 0 || |DropBlanks(input[..LineEnd(input)])| < limit
    ensures Filled(input, 0, "", limit) == Line(input)
  {
    StartsUnbroken(input);
    ShortFrom(input, 0, limit);
  }

  lemma {:induction false} ShortFrom(input: string, p: nat, limit: nat)
    requires p <= |input| && p % PIECE == 0 && Unbroken(input, p)
    requires limit == 0 || |DropBlanks(input[..LineEnd(input)])| < limit
    ensures Filled(input, p, DropBlanks(input[..p]), limit) == Line(input)
    decreases |input| - p
  {
    hide DropBlanks, PieceEnd, Cut, LineEnd, Unbroken, Exhausted, Line, Rest, Find;
    if p == |input| {
      NothingLeft(input);
    } else {
      var b, text := Cut(input, p), DropBlanks(input[..p]);
      PieceIs(input, p);
      DropBlanksJoin(input[..p], b);
      CutStands(input, p, b);
      if |b| == PIECE { EndBehind(input, p + PIECE); }
      BeforeEnd(input, p, b, limit);
      assert Fill(text, b, limit) == DropBlanks(input[..p] + b) by { assert "" + DropBlanks(b) == DropBlanks(b); }
      if |b| == PIECE {
        ShortFrom(input, p + PIECE, limit);
      } else {
        LineIs(input, p);
      }
    }
  }

  /** However long the line is, what is read keeps to the limit. */
  lemma {:induction false} KeepsLimit(input: string, p: nat, text: string, limit: nat)
    requires p <= |input| && |text| < limit
    ensures var r := Filled(input, p, text, limit); r.Some? ==> |r.value| < limit
    decreases |input| - p
  {
    hide Cut, PieceEnd, DropBlanks, Exhausted;
    if p < |input| && |Cut(input, p)| == PIECE {
      KeepsLimit(input, PieceEnd(input, p), Fill(text, Cut(input, p), limit), limit);
    }
  }

  method AddPiece(editor: Editor, term: Vt100, piece: CString)
    requires editor.Valid() && editor.line == editor.buffer && editor.point == |editor.text|
    requires editor.maxLineLength == 0 || editor.bufferSize < editor.maxLineLength
    modifies editor, editor.buffer, term`cells, term`cursor
    ensures editor.Valid() && editor.line == editor.buffer && editor.point == |editor.text|
    ensures editor.maxLineLength == 0 || editor.bufferSize < editor.maxLineLength
    ensures editor.buffer == old(editor.buffer) || fresh(editor.buffer)
    ensures editor.text == Fill(old(editor.text), piece, editor.maxLineLength)
  {
    hide Holds, DropBlanks, Updated, Updates, Begins, Begun, Showing;
    BlankTail(piece);
    ghost var text := editor.text;
    assert text + "" == text;
    var s := piece;
    if editor.point == 0 { s := SkipBlanks(piece); }
    if s != "" {
      var ok := editor.InsertText(s);
      assert text[..|text|] + s + text[|text|..] == text + s;
      editor.Redisplay(term);
    }
  }

  lemma {:induction false} BlankTail(s: string)
    ensures '\0' !in s ==> '\0' !in DropBlanks(s)
  {
    if s != "" && IsWhite(s[0]) { BlankTail(s[1..]); }
  }

  /** The branch of tinyrl_readline for input that is no terminal. */
  method ReadInput(editor: Editor, term: Vt100, prompt: string, input: CString)
    returns (result: Option<string>, rest: string)
    modifies editor, term`cells, term`cursor
    ensures result == Filled(input, 0, "", editor.maxLineLength)
    ensures rest == Rest(input)
  {
    hide Holds, DropBlanks, PieceEnd, Cut, LineEnd, Unbroken, Exhausted, Line, Rest, Find, Fill;
    editor.Start(prompt);
    StartsUnbroken(input);
    var p, q, len, eof := 0, 0, PIECE + 1, false;
    while p < |input| && len == PIECE + 1
      invariant p <= |input| && p % PIECE == 0 && p <= q <= |input|
      invariant editor.Valid() && editor.line == editor.buffer && fresh(editor.buffer) && editor.point == |editor.text|
      invariant editor.maxLineLength == 0 || editor.bufferSize < editor.maxLineLength
      invariant len == PIECE + 1 ==>
        && p == q && Unbroken(input, p)
        && Filled(input, p, editor.text, editor.maxLineLength) == Filled(input, 0, "", editor.maxLineLength)
      invariant len != PIECE + 1 ==>
        && p < |input| && LineEnd(input) / PIECE * PIECE == p && q == PieceEnd(input, p) && eof == Exhausted(input, p)
        && Filled(input, 0, "", editor.maxLineLength) == (if editor.text == "" && eof then None else Some(editor.text))
      decreases |input| - p, len
    {
      q, eof := Gets(input, p);
      PieceIs(input, p);
      var buffer := Strip(input[p..q]);
      CutIs(input, p);
      AddPiece(editor, term, buffer);
      len := |buffer| + 1;
      if len == PIECE + 1 { p := q; }
    }
    rest := input[q..];
    result := None;
    if len == PIECE + 1 {
      NothingLeft(input);
      return;
    }
    LineIs(input, p);
    EndIsLength(editor);
    if editor.end > 0 || !eof {
      var length := Strlen(editor.line, editor.text);
      HoldsAt(editor.line, editor.text);
      result := Some(editor.line[..length]);
      assert editor.line[..length] == editor.text;
    }
  }
}
