/** Row and column tracking: TiXmlParsingData walks from the last stamped
    position to the next one. */
module XmlLocation {
  import opened CStrings
  import opened XmlText
  import P = XmlParser
  import T = XmlTree

  /** A position in the text and the row and column it stands for. */
  datatype Spot = Spot(p: nat, row: int, col: int)

  /** Integer division of C, which rounds toward zero. */
  function Quotient(a: int, b: int): int
    requires b > 0
  {
    if a >= 0 then a / b else -(-a / b)
  }

  /** One step of the walk over the character at `x.p`. */
  function Step(s: string, x: Spot, enc: Encoding, tabsize: int): (y: Spot)
    requires x.p < |s| && tabsize >= 1
    ensures x.p < y.p
  {
    var c := s[x.p];
    if c == '\r' then Spot(if CharAt(s, x.p + 1) == '\n' then x.p + 2 else x.p + 1, x.row + 1, 0)
    else if c == '\n' then Spot(if CharAt(s, x.p + 1) == '\r' then x.p + 2 else x.p + 1, x.row + 1, 0)
    else if c == '\t' then Spot(x.p + 1, x.row, (Quotient(x.col, tabsize) + 1) * tabsize)
    else if enc.Legacy? then Spot(x.p + 1, x.row, x.col + 1)
    else if IsBom(s, x.p) then Spot(x.p + 3, x.row, x.col)
    else Spot(x.p + ByteLen(c), x.row, x.col + 1)
  }

  /** The walk until `now` is reached or passed. */
  function Walk(s: string, x: Spot, now: nat, enc: Encoding, tabsize: int): (y: Spot)
    requires now <= |s| && tabsize >= 1
    ensures x.p <= y.p && now <= y.p
    decreases now - x.p
  {
    if x.p >= now then x else Walk(s, Step(s, x, enc, tabsize), now, enc, tabsize)
  }

  lemma HaltsOn(s: string, x: Spot, now: nat, enc: Encoding, tabsize: int)
    requires now <= |s| && tabsize >= 1 && x.p < now
    ensures Halts(s, x, now, enc, tabsize) ==>
      !Stuck(s, x.p, enc) && Halts(s, Step(s, x, enc, tabsize), now, enc, tabsize)
  {
    hide Step;
  }

  lemma WalkOn(s: string, x: Spot, now: nat, enc: Encoding, tabsize: int)
    requires now <= |s| && tabsize >= 1
    ensures x.p < now ==> Walk(s, x, now, enc, tabsize) == Walk(s, Step(s, x, enc, tabsize), now, enc, tabsize)
    ensures x.p >= now ==> Walk(s, x, now, enc, tabsize) == x
  {
    hide Step;
  }

  // ---------- where the walk ends ----------

  /** In UTF-8 a byte 0xEF without two bytes behind it is not passed. */
  predicate Stuck(s: string, p: nat, enc: Encoding) {
    enc.Utf8? && p < |s| && s[p] as int == 0xEF && p + 2 >= |s|
  }

  /** The walk comes to `now` without standing at such a byte. */
  predicate Halts(s: string, x: Spot, now: nat, enc: Encoding, tabsize: int)
    requires now <= |s| && tabsize >= 1
    decreases now - x.p
  {
    x.p >= now || (!Stuck(s, x.p, enc) && Halts(s, Step(s, x, enc, tabsize), now, enc, tabsize))
  }

  /** `n` turns of the loop. */
  function Turns(s: string, x: Spot, now: nat, enc: Encoding, tabsize: int, n: nat): Spot
    requires now <= |s| && tabsize >= 1
    decreases n
  {
    if n == 0 || x.p >= now then x
    else if Stuck(s, x.p, enc) then Turns(s, x, now, enc, tabsize, n - 1)
    else Turns(s, Step(s, x, enc, tabsize), now, enc, tabsize, n - 1)
  }

  /** The loop ends after some number of turns if and only if the walk halts, and
      then it ends where the walk does. */
  lemma EndsExactly(s: string, x: Spot, now: nat, enc: Encoding, tabsize: int)
    requires now <= |s| && tabsize >= 1
    ensures Halts(s, x, now, enc, tabsize) <==> exists n: nat :: Turns(s, x, now, enc, tabsize, n).p >= now
    ensures forall n: nat :: Turns(s, x, now, enc, tabsize, n).p >= now ==>
              Turns(s, x, now, enc, tabsize, n) == Walk(s, x, now, enc, tabsize)
  {
    if Halts(s, x, now, enc, tabsize) { var n := HaltsAfter(s, x, now, enc, tabsize); }
    forall n: nat | Turns(s, x, now, enc, tabsize, n).p >= now
      ensures Halts(s, x, now, enc, tabsize)
      ensures Turns(s, x, now, enc, tabsize, n) == Walk(s, x, now, enc, tabsize)
    {
      EndedHalts(s, x, now, enc, tabsize, n);
    }
  }

  lemma {:induction false} HaltsAfter(s: string, x: Spot, now: nat, enc: Encoding, tabsize: int) returns (n: nat)
    requires now <= |s| && tabsize >= 1 && Halts(s, x, now, enc, tabsize)
    ensures Turns(s, x, now, enc, tabsize, n).p >= now
    decreases now - x.p
  {
    hide Step;
    n := 0;
    if x.p < now {
      n := HaltsAfter(s, Step(s, x, enc, tabsize), now, enc, tabsize);
      n := n + 1;
    }
  }

  lemma {:induction false} EndedHalts(s: string, x: Spot, now: nat, enc: Encoding, tabsize: int, n: nat)
    requires now <= |s| && tabsize >= 1 && Turns(s, x, now, enc, tabsize, n).p >= now
    ensures Halts(s, x, now, enc, tabsize) && Turns(s, x, now, enc, tabsize, n) == Walk(s, x, now, enc, tabsize)
    decreases n
  {
    hide Step;
    if n > 0 && x.p < now {
      EndedHalts(s, if Stuck(s, x.p, enc) then x else Step(s, x, enc, tabsize), now, enc, tabsize, n - 1);
    }
  }

  /** It always halts when no byte passed among the last two is 0xEF. */
  lemma {:induction false} HaltsInside(s: string, x: Spot, now: nat, enc: Encoding, tabsize: int)
    requires now <= |s| && tabsize >= 1
    requires forall i :: x.p <= i < now && |s| <= i + 2 ==> s[i] as int != 0xEF
    ensures Halts(s, x, now, enc, tabsize)
    decreases now - x.p
  {
    hide Step;
    if x.p < now { HaltsInside(s, Step(s, x, enc, tabsize), now, enc, tabsize); }
  }

  /** "<a ", a byte 0xEF and "<" in UTF-8: reading the attribute fails at the
      second "<", and the walk to that place does not halt. */
  lemma EndsInLeadByte(row: int, col: int, tabsize: int, condense: bool)
    requires tabsize >= 1
    ensures var s := "<a " + [0xEF as char] + "<";
            && P.ParseDocument(s, T.Mode(Utf8, condense)) == P.Fail(Some(P.ReadingAttributes))
            && !Halts(s, Spot(0, row, col), 4, Utf8, tabsize)
  {
    var s, m := "<a " + [0xEF as char] + "<", T.Mode(Utf8, condense);
    assert s[0] == '<' && s[1] == 'a' && s[2] == ' ' && s[3] as int == 0xEF && s[4] == '<';
    assert Stuck(s, 3, Utf8);
    assert !Halts(s, Spot(3, row, col + 3), 4, Utf8, tabsize);
    assert Step(s, Spot(2, row, col + 2), Utf8, tabsize) == Spot(3, row, col + 3);
    assert !Halts(s, Spot(2, row, col + 2), 4, Utf8, tabsize);
    assert Step(s, Spot(1, row, col + 1), Utf8, tabsize) == Spot(2, row, col + 2);
    assert !Halts(s, Spot(1, row, col + 1), 4, Utf8, tabsize);
    LeadByteFails(s, m);
  }

  lemma LeadByteFails(s: string, m: T.Mode)
    requires |s| == 5 && s[0] == '<' && s[1] == 'a' && s[2] == ' ' && s[3] as int == 0xEF && s[4] == '<' && m.enc.Utf8?
    ensures P.ParseDocument(s, m) == P.Fail(Some(P.ReadingAttributes))
  {
    assert Skip(s, 0, m.enc) == 0 && Skip(s, 1, m.enc) == 1 && Skip(s, 3, m.enc) == 3 && Skip(s, 4, m.enc) == 4;
    assert P.NameEnd(s, 2) == 2 && P.NameEnd(s, 4) == 4;
    assert P.Name(s, 1) == Some(2) && P.Name(s, 3) == Some(4);
    assert P.ParseAttr(s, 3, m.enc) == P.Fail(Some(P.ReadingAttributes));
    assert P.ParseRest(s, 2, m, s[1..2], []) == P.Fail(Some(P.ReadingAttributes));
    assert P.ParseElement(s, 0, m) == P.Fail(Some(P.ReadingAttributes));
  }

  /** Halting on the way. */
  lemma {:induction false} HaltsOnTheWay(s: string, x: Spot, a: nat, b: nat, enc: Encoding, tabsize: int)
    requires a <= b <= |s| && tabsize >= 1
    ensures Halts(s, x, b, enc, tabsize) ==>
      Halts(s, x, a, enc, tabsize) && Halts(s, Walk(s, x, a, enc, tabsize), b, enc, tabsize)
    decreases b - x.p
  {
    hide Step;
    if x.p < a { HaltsOnTheWay(s, Step(s, x, enc, tabsize), a, b, enc, tabsize); }
  }

  class ParsingData {
    const text: CString
    const tabsize: int
    var stamp: nat
    var row: int
    var col: int

    constructor (text: CString, tabsize: int, row: int, col: int)
      ensures this.text == text && this.tabsize == tabsize && Here() == Spot(0, row, col)
    {
      this.text, this.tabsize, this.row, this.col, stamp := text, tabsize, row, col, 0;
    }

    function Here(): Spot
      reads this
    {
      Spot(stamp, row, col)
    }

    /** Nothing is tracked for a tab size below one. */
    method Stamp(now: nat, enc: Encoding)
      requires now <= |text| && (tabsize >= 1 ==> Halts(text, Here(), now, enc, tabsize))
      modifies this
      ensures Here() == if tabsize < 1 then old(Here()) else Walk(text, old(Here()), now, enc, tabsize)
    {
      hide Walk, Halts;
      if tabsize < 1 { return; }
      var row, col, p := this.row, this.col, stamp;
      while p < now
        invariant stamp <= p && Here() == old(Here())
        invariant Walk(text, Spot(p, row, col), now, enc, tabsize) == Walk(text, Here(), now, enc, tabsize)
        invariant Halts(text, Spot(p, row, col), now, enc, tabsize)
        decreases now - p
      {
        ghost var x := Spot(p, row, col);
        WalkOn(text, x, now, enc, tabsize);
        HaltsOn(text, x, now, enc, tabsize);
        var c := CharAt(text, p);
        if c == '\r' {
          row, col, p := row + 1, 0, p + 1;
          if CharAt(text, p) == '\n' { p := p + 1; }
        } else if c == '\n' {
          row, col, p := row + 1, 0, p + 1;
          if CharAt(text, p) == '\r' { p := p + 1; }
        } else if c == '\t' {
          p := p + 1;
          col := (Quotient(col, tabsize) + 1) * tabsize;
        } else if c as int == 0xEF {
          if enc.Utf8? {
            var c1, c2 := CharAt(text, p + 1) as int, CharAt(text, p + 2) as int;
            if c1 != 0 && c2 != 0 {
              if !((c1 == 0xBB && c2 == 0xBF) || (c1 == 0xBF && c2 == 0xBE) || (c1 == 0xBF && c2 == 0xBF)) {
                col := col + 1;
              }
              p := p + 3;
            }
          } else {
            p, col := p + 1, col + 1;
          }
        } else if enc.Utf8? {
          p, col := p + ByteLen(c), col + 1;
        } else {
          p, col := p + 1, col + 1;
        }
        assert Spot(p, row, col) == Step(text, x, enc, tabsize);
      }
      WalkOn(text, Spot(p, row, col), now, enc, tabsize);
      this.row, this.col, stamp := row, col, p;
    }

    /** Any sequence of stamps, in any order and also inside of a CR LF or of a
        multi-byte character, leads where one stamp at the largest does. */
    method StampAll(positions: seq<nat>, enc: Encoding)
      requires tabsize >= 1 && (forall i :: 0 <= i < |positions| ==> positions[i] <= |text|)
      requires Halts(text, Here(), Largest(positions), enc, tabsize)
      modifies this
      ensures Here() == Walk(text, old(Here()), Largest(positions), enc, tabsize)
    {
      hide Walk, Halts;
      ghost var start := Here();
      WalkOn(text, start, 0, enc, tabsize);
      var n := 0;
      while n < |positions|
        invariant 0 <= n <= |positions|
        invariant Here() == Walk(text, start, Largest(positions[..n]), enc, tabsize)
      {
        var now := positions[n];
        assert positions[..n + 1][..n] == positions[..n];
        WalkTwice(text, start, Largest(positions[..n]), now, enc, tabsize);
        HaltsAll(text, start, positions, n, enc, tabsize);
        Stamp(now, enc);
        n := n + 1;
      }
      assert positions[..n] == positions;
    }
  }

  function Largest(positions: seq<nat>): (m: nat)
    ensures forall i :: 0 <= i < |positions| ==> positions[i] <= m
    ensures m == 0 || m in positions
  {
    if positions == [] then 0
    else
      var n := |positions| - 1;
      var m := Largest(positions[..n]);
      assert forall i :: 0 <= i < n ==> positions[i] == positions[..n][i];
      if m < positions[n] then positions[n] else m
  }

  /** Every stamp of a sequence ends when one at the largest position does. */
  lemma HaltsAll(s: string, x: Spot, positions: seq<nat>, n: nat, enc: Encoding, tabsize: int)
    requires tabsize >= 1 && n < |positions| && forall i :: 0 <= i < |positions| ==> positions[i] <= |s|
    ensures Largest(positions[..n]) <= Largest(positions) <= |s|
    ensures Halts(s, x, Largest(positions), enc, tabsize) ==>
      Halts(s, Walk(s, x, Largest(positions[..n]), enc, tabsize), positions[n], enc, tabsize)
  {
    var a, b := Largest(positions[..n]), Largest(positions);
    if a in positions[..n] { var i :| 0 <= i < n && positions[..n][i] == a; }
    HaltsOnTheWay(s, x, a, b, enc, tabsize);
    HaltsOnTheWay(s, Walk(s, x, a, enc, tabsize), positions[n], b, enc, tabsize);
  }

  /** Path independence. */
  lemma {:induction false} WalkTwice(s: string, x: Spot, a: nat, b: nat, enc: Encoding, tabsize: int)
    requires a <= |s| && b <= |s| && tabsize >= 1
    ensures Walk(s, Walk(s, x, a, enc, tabsize), b, enc, tabsize)
         == Walk(s, x, if a < b then b else a, enc, tabsize)
    decreases a - x.p
  {
    hide Step;
    if x.p < a {
      WalkTwice(s, Step(s, x, enc, tabsize), a, b, enc, tabsize);
    }
  }

  // ---------- what the numbers mean ----------

  function Count(s: string, c: char, from: nat, end: nat): nat
    requires from <= end <= |s|
    decreases end - from
  {
    if from == end then 0 else (if s[from] == c then 1 else 0) + Count(s, c, from + 1, end)
  }

  /** The number of characters behind the last line feed in front of `end`. */
  function Tail(s: string, from: nat, end: nat): nat
    requires from <= end <= |s|
    decreases end - from
  {
    if from == end || s[end - 1] == '\n' then 0 else 1 + Tail(s, from, end - 1)
  }

  /** In single bytes, without carriage returns and tabs, the row counts the
      line feeds and the column the bytes since the last one. */
  lemma {:induction false} RowAndColumn(s: string, x: Spot, now: nat, tabsize: int)
    requires tabsize >= 1 && x.p <= now <= |s| && '\r' !in s && '\t' !in s
    ensures var y := Walk(s, x, now, Legacy, tabsize);
            && y.p == now && y.row == x.row + Count(s, '\n', x.p, now)
            && y.col == Tail(s, x.p, now) + (if Count(s, '\n', x.p, now) == 0 then x.col else 0)
    decreases now - x.p
  {
    if x.p < now {
      var y := Step(s, x, Legacy, tabsize);
      RowAndColumn(s, y, now, tabsize);
      TailFrom(s, x.p, now);
    }
  }

  lemma {:induction false} TailFrom(s: string, from: nat, end: nat)
    requires from < end <= |s|
    ensures Tail(s, from, end) == Tail(s, from + 1, end)
         + (if s[from] != '\n' && Count(s, '\n', from + 1, end) == 0 then 1 else 0)
    decreases end - from
  {
    CountLast(s, '\n', from + 1, end);
    if from + 1 < end { TailFrom(s, from, end - 1); }
  }

  lemma {:induction false} CountLast(s: string, c: char, from: nat, end: nat)
    requires from <= end <= |s|
    ensures from < end ==> Count(s, c, from, end) == Count(s, c, from, end - 1) + (if s[end - 1] == c then 1 else 0)
    decreases end - from
  {
    if from + 1 < end { CountLast(s, c, from + 1, end); }
  }

  // ---------- lines and characters ----------

  predicate IsBreak(c: char) {
    c == '\r' || c == '\n'
  }

  /** Behind the line break at `p`: CR LF and LF CR are one. */
  function BreakEnd(s: string, p: nat): (r: nat)
    requires p < |s| && IsBreak(s[p])
    ensures p < r <= |s| && IsBreak(s[r - 1])
  {
    if p + 1 < |s| && IsBreak(s[p + 1]) && s[p + 1] != s[p] then p + 2 else p + 1
  }

  /** The number of line breaks that begin between two positions. */
  function Breaks(s: string, p: nat, q: nat): nat
    requires q <= |s|
    decreases q - p
  {
    if p >= q then 0
    else if IsBreak(s[p]) then 1 + Breaks(s, BreakEnd(s, p), q)
    else Breaks(s, p + 1, q)
  }

  /** Where the line starts that `q` is in, for a line that starts at `b` and
      goes on at `p`. */
  function Line(s: string, b: nat, p: nat, q: nat): nat
    requires q <= |s|
    decreases q - p
  {
    if p >= q then b
    else if IsBreak(s[p]) then Line(s, BreakEnd(s, p), BreakEnd(s, p), q)
    else Line(s, b, p + 1, q)
  }

  /** That is behind the last line break, if there is one. */
  lemma {:induction false} LineIs(s: string, b: nat, p: nat, q: nat)
    requires b <= p && q <= |s| && forall k :: b <= k < p && k < q ==> !IsBreak(s[k])
    ensures var l := Line(s, b, p, q);
            && b <= l && (forall k :: l <= k < q ==> !IsBreak(s[k]))
            && (if Breaks(s, p, q) == 0 then l == b else p < l <= |s| && IsBreak(s[l - 1]))
    decreases q - p
  {
    if p < q {
      if IsBreak(s[p]) {
        LineIs(s, BreakEnd(s, p), BreakEnd(s, p), q);
      } else {
        LineIs(s, b, p + 1, q);
      }
    }
  }

  lemma {:induction false} NoBreaks(s: string, b: nat, p: nat, r: nat, q: nat)
    requires p <= r && q <= |s| && forall k :: p <= k < r && k < q ==> !IsBreak(s[k])
    ensures Breaks(s, p, q) == Breaks(s, r, q) && Line(s, b, p, q) == Line(s, b, r, q)
    decreases r - p
  {
    if p < r && p < q { NoBreaks(s, b, p + 1, r, q); }
  }

  /** Where CR and LF do not meet, every one of them is a line break. */
  lemma {:induction false} BreaksAlone(s: string, p: nat, q: nat)
    requires p <= q <= |s|
    requires forall k :: p <= k < q && k + 1 < |s| && IsBreak(s[k]) && IsBreak(s[k + 1]) ==> s[k] == s[k + 1]
    ensures Breaks(s, p, q) == Count(s, '\r', p, q) + Count(s, '\n', p, q)
    decreases q - p
  {
    if p < q { BreaksAlone(s, p + 1, q); }
  }

  /** Where they only come in pairs, every pair is one. */
  lemma {:induction false} BreaksPaired(s: string, p: nat, q: nat, first: char, second: char)
    requires p <= q <= |s| && IsBreak(first) && IsBreak(second) && first != second
    requires forall k :: p <= k < q && s[k] == first ==> k + 1 < q && s[k + 1] == second
    requires forall k :: p <= k < q && s[k] == second ==> p < k && s[k - 1] == first
    ensures Breaks(s, p, q) == Count(s, first, p, q) == Count(s, second, p, q)
    decreases q - p
  {
    if p < q {
      if s[p] == first {
        assert s[p + 1] == second;
        BreaksPaired(s, p + 2, q, first, second);
      } else {
        BreaksPaired(s, p + 1, q, first, second);
      }
    }
  }

  predicate IsContinuation(c: char) {
    0x80 <= c as int <= 0xBF
  }

  /** From `p` on there are whole characters in UTF-8. */
  predicate IsText(s: string, p: nat, enc: Encoding)
    requires p <= |s|
    decreases |s| - p
  {
    enc.Legacy? || p == |s| ||
    (var n := ByteLen(s[p]);
     && p + n <= |s| && !IsContinuation(s[p])
     && (forall k :: p < k < p + n ==> IsContinuation(s[k]))
     && IsText(s, p + n, enc))
  }

  /** The byte begins a character that takes a column. */
  predicate Shows(s: string, k: nat, enc: Encoding)
    requires k < |s|
  {
    enc.Legacy? || (!IsContinuation(s[k]) && !IsBom(s, k))
  }

  function Chars(s: string, p: nat, q: nat, enc: Encoding): nat
    requires p <= q <= |s|
    decreases q - p
  {
    if p == q then 0 else Chars(s, p, q - 1, enc) + if Shows(s, q - 1, enc) then 1 else 0
  }

  lemma {:induction false} CharsOn(s: string, p: nat, q: nat, n: nat, enc: Encoding)
    requires p <= q && 0 < n && q + n <= |s| && forall k :: q < k < q + n ==> !Shows(s, k, enc)
    ensures Chars(s, p, q + n, enc) == Chars(s, p, q, enc) + if Shows(s, q, enc) then 1 else 0
    decreases n
  {
    if n > 1 { CharsOn(s, p, q, n - 1, enc); }
  }

  lemma BreakStep(s: string, x: Spot, enc: Encoding, tabsize: int)
    requires x.p < |s| && tabsize >= 1 && IsBreak(s[x.p]) && IsText(s, x.p, enc)
    ensures Step(s, x, enc, tabsize) == Spot(BreakEnd(s, x.p), x.row + 1, 0) && IsText(s, BreakEnd(s, x.p), enc)
  {}

  /** A character that is no line break and no tab. */
  lemma CharStep(s: string, x: Spot, enc: Encoding, tabsize: int)
    requires x.p < |s| && tabsize >= 1 && !IsBreak(s[x.p]) && IsText(s, x.p, enc)
    ensures var y := Step(s, x, enc, tabsize);
            && x.p < y.p <= |s| && y.row == x.row && IsText(s, y.p, enc)
            && (forall k :: x.p < k < y.p ==> !IsBreak(s[k]) && !Shows(s, k, enc))
            && (s[x.p] != '\t' ==> y.col == x.col + if Shows(s, x.p, enc) then 1 else 0)
  {}

  /** In single bytes, and in whole characters of UTF-8, the walk halts, and the
      row counts the line breaks. */
  lemma {:induction false} RowsAreBreaks(s: string, x: Spot, now: nat, enc: Encoding, tabsize: int)
    requires tabsize >= 1 && x.p <= |s| && now <= |s| && IsText(s, x.p, enc)
    ensures Halts(s, x, now, enc, tabsize)
    ensures Walk(s, x, now, enc, tabsize).row == x.row + Breaks(s, x.p, now)
    decreases now - x.p
  {
    hide Step, IsText;
    if x.p < now {
      var y := Step(s, x, enc, tabsize);
      NeverStuck(s, x.p, enc);
      if IsBreak(s[x.p]) {
        BreakStep(s, x, enc, tabsize);
      } else {
        CharStep(s, x, enc, tabsize);
        NoBreaks(s, 0, x.p, y.p, now);
      }
      RowsAreBreaks(s, y, now, enc, tabsize);
    }
  }

  lemma NeverStuck(s: string, p: nat, enc: Encoding)
    requires p < |s| && IsText(s, p, enc)
    ensures !Stuck(s, p, enc)
  {}

  /** And without tabs the column counts the characters since the last one that
      take a column. */
  lemma {:induction false} ColumnsAreChars(
      s: string, b: nat, x: Spot, now: nat, enc: Encoding, tabsize: int, first: int)
    requires tabsize >= 1 && b <= x.p <= |s| && now <= |s| && IsText(s, x.p, enc)
    requires (forall k :: x.p <= k < now ==> s[k] != '\t') && x.col == first + Chars(s, b, x.p, enc)
    ensures var y, l := Walk(s, x, now, enc, tabsize), Line(s, b, x.p, now);
            && l <= y.p <= |s|
            && y.col == Chars(s, l, y.p, enc) + if Breaks(s, x.p, now) == 0 then first else 0
    decreases now - x.p
  {
    hide Step, IsText, Shows;
    if x.p < now {
      var y := Step(s, x, enc, tabsize);
      if IsBreak(s[x.p]) {
        BreakStep(s, x, enc, tabsize);
        ColumnsAreChars(s, y.p, y, now, enc, tabsize, 0);
      } else {
        CharStep(s, x, enc, tabsize);
        NoBreaks(s, b, x.p, y.p, now);
        CharsOn(s, b, x.p, y.p - x.p, enc);
        ColumnsAreChars(s, b, y, now, enc, tabsize, first);
      }
    }
  }

  /** A tab goes to the next tab stop: the first multiple of the tab size that is
      greater. */
  predicate TabStop(col: int, from: int, tabsize: int)
    requires tabsize >= 1
  {
    col % tabsize == 0 && from < col <= from + tabsize
  }

  lemma TabStops(s: string, x: Spot, enc: Encoding, tabsize: int)
    requires x.p < |s| && s[x.p] == '\t' && tabsize >= 1 && x.col >= 0
    ensures var y := Step(s, x, enc, tabsize);
            y.p == x.p + 1 && y.row == x.row && TabStop(y.col, x.col, tabsize)
    ensures var y := Step(s, x, enc, tabsize); forall c :: TabStop(c, x.col, tabsize) ==> c == y.col
  {
    var y, k := Step(s, x, enc, tabsize), x.col / tabsize;
    assert x.col == k * tabsize + x.col % tabsize && y.col == (k + 1) * tabsize == k * tabsize + tabsize;
    StopOf(k + 1, tabsize);
    forall c | TabStop(c, x.col, tabsize) ensures c == y.col {
      var i := c / tabsize;
      assert c == i * tabsize;
      Between(i, k, tabsize);
    }
  }

  /** A column in front of the first counts as the first. */
  lemma TabInFront(s: string, x: Spot, enc: Encoding, tabsize: int)
    requires x.p < |s| && s[x.p] == '\t' && -tabsize < x.col < 0
    ensures Step(s, x, enc, tabsize) == Spot(x.p + 1, x.row, tabsize)
  {
    assert -x.col / tabsize == 0;
  }

  lemma StopOf(k: int, tabsize: int)
    requires tabsize >= 1
    ensures (k * tabsize) % tabsize == 0
  {
    var q, r := (k * tabsize) / tabsize, (k * tabsize) % tabsize;
    assert (k - q) * tabsize == r;
    assert k - q >= 1 ==> (k - q) * tabsize >= tabsize;
    assert k - q <= -1 ==> (k - q) * tabsize <= -tabsize;
  }

  lemma Between(i: int, k: int, tabsize: int)
    requires tabsize >= 1 && k * tabsize < i * tabsize < (k + 2) * tabsize
    ensures i == k + 1
  {
    assert i <= k ==> (k - i) * tabsize >= 0;
    assert i >= k + 2 ==> (i - (k + 2)) * tabsize >= 0;
  }

  /** The column behind a tab, when no other tab and no line break follows: the tab stop
      and the characters since. */
  lemma ColumnsBehindTab(s: string, x: Spot, now: nat, enc: Encoding, tabsize: int, stop: int)
    requires x.p < now <= |s| && s[x.p] == '\t' && tabsize >= 1 && x.col >= 0 && IsText(s, x.p, enc)
    requires (forall k :: x.p < k < now ==> s[k] != '\t' && !IsBreak(s[k])) && TabStop(stop, x.col, tabsize)
    ensures var y := Walk(s, x, now, enc, tabsize);
            x.p + 1 <= y.p <= |s| && y.row == x.row && y.col == stop + Chars(s, x.p + 1, y.p, enc)
  {
    hide Step;
    var y := Step(s, x, enc, tabsize);
    TabStops(s, x, enc, tabsize);
    CharStep(s, x, enc, tabsize);
    WalkOn(s, x, now, enc, tabsize);
    ColumnsAreChars(s, y.p, y, now, enc, tabsize, stop);
    RowsAreBreaks(s, y, now, enc, tabsize);
    NoBreaks(s, y.p, y.p, now, now);
  }
}
