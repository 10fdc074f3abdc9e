/** What PutString writes is what ReadText reads back: exactly when the text
    holds no "&#x". */
module XmlEscaping {
  import opened CStrings
  import opened XmlText

  /** The end tags TinyXML reads escaped text up to. */
  predicate IsTextTag(tag: string) {
    tag == "\"" || tag == "'" || tag == "<"
  }

  /** From `i` on, every lead byte is followed by as many continuation bytes
      as `utf8ByteTable` asks for. */
  predicate WellFormed(v: string, i: nat)
    requires i <= |v|
    decreases |v| - i
  {
    i == |v| ||
    (var n := ByteLen(v[i]);
     && i + n <= |v|
     && (forall k :: i < k < i + n ==> 0x80 <= v[k] as int <= 0xBF)
     && WellFormed(v, i + n))
  }

  predicate Readable(v: string, i: nat, enc: Encoding)
    requires i <= |v|
  {
    enc.Utf8? ==> WellFormed(v, i)
  }

  /** The number of characters of `v` that GetChar takes at `i`. */
  function Unit(v: string, i: nat, enc: Encoding): nat
    requires i < |v|
  {
    if enc.Utf8? then ByteLen(v[i]) else 1
  }

  /** An ASCII character is never inside a multi-byte sequence. */
  lemma {:induction false} WellFormedAt(v: string, i: nat, j: nat)
    requires i <= j < |v| && WellFormed(v, i) && v[j] as int < 0x80
    ensures WellFormed(v, j)
    decreases |v| - i
  {
    if i < j {
      assert !(i < j < i + ByteLen(v[i]));
      WellFormedAt(v, i + ByteLen(v[i]), j);
    }
  }

  // ---------- one character ----------

  lemma DigitBack(d: nat)
    requires d < 16
    ensures DigitOf(HexDigit(d), 16) == Some(d) && HexDigit(d) != 'x'
  {}

  /** Two hexadecimal digits in front of ';', read back by the digit loop. */
  lemma TwoDigits(s: string, lo: nat, semi: nat, c: char)
    requires c as int < 32 && lo + 3 <= semi < |s|
    requires s[semi - 1] == HexDigit(c as int % 16) && s[semi - 2] == HexDigit(c as int / 16)
    requires s[semi - 3] == s[lo] == 'x'
    ensures RefLoop(s, lo, semi - 1, 16, 1, 0) == Some(c as nat)
  {
    hide DigitOf;
    var low, high := c as int % 16, c as int / 16;
    DigitBack(low);
    DigitBack(high);
    assert RefLoop(s, lo, semi - 1, 16, 1, 0) == RefLoop(s, lo, semi - 2, 16, 16, low);
    assert RefLoop(s, lo, semi - 2, 16, 16, low) == RefLoop(s, lo, semi - 3, 16, 256, low + 16 * high);
  }

  lemma ReadControl(s: string, p: nat, c: char, enc: Encoding)
    requires c as int < 32 && Has(s, p, EscapeChar(c))
    ensures Char(s, p, enc) == Chunk([c], At(p + 6))
  {
    var t := EscapeChar(c);
    HasChar(s, p, t, 0);
    HasChar(s, p, t, 1);
    HasChar(s, p, t, 2);
    HasChar(s, p, t, 3);
    HasChar(s, p, t, 4);
    HasChar(s, p, t, 5);
    var q := IndexFrom(s, p + 3, ';');
    assert q != p + 3 && q != p + 4 && q <= p + 5;
    TwoDigits(s, p + 2, p + 5, c);
  }

  lemma ReadEscaped(s: string, p: nat, c: char, enc: Encoding)
    requires Has(s, p, EscapeChar(c)) && (enc.Utf8? ==> ByteLen(c) == 1)
    ensures Char(s, p, enc) == Chunk([c], At(p + |EscapeChar(c)|))
  {
    match c
    case '&' => assert EscapeChar(c) == ENTITIES[0].0; EntityAt(s, p, 0, enc);
    case '<' => assert EscapeChar(c) == ENTITIES[1].0; EntityAt(s, p, 1, enc);
    case '>' => assert EscapeChar(c) == ENTITIES[2].0; EntityAt(s, p, 2, enc);
    case '"' => assert EscapeChar(c) == ENTITIES[3].0; EntityAt(s, p, 3, enc);
    case '\'' => assert EscapeChar(c) == ENTITIES[4].0; EntityAt(s, p, 4, enc);
    case _ =>
      HasChar(s, p, EscapeChar(c), 0);
      if c as int < 32 {
        ReadControl(s, p, c, enc);
      }
  }

  /** The bytes above ASCII are written as they are. */
  lemma PutOne(v: string, j: nat)
    requires j < |v| && v[j] as int >= 0x80
    ensures PutFrom(v, j) == [v[j]] + PutFrom(v, j + 1)
  {}

  lemma {:induction false} PutRaw(v: string, i: nat, n: nat)
    requires i + n <= |v| && (forall k :: i <= k < i + n ==> v[k] as int >= 0x80)
    ensures PutFrom(v, i) == v[i..i + n] + PutFrom(v, i + n)
    decreases n
  {
    hide PutFrom;
    if n > 0 {
      PutRaw(v, i, n - 1);
      var j := i + n - 1;
      PutOne(v, j);
      Assoc(v[i..j], [v[j]], PutFrom(v, j + 1));
      assert v[i..j + 1] == v[i..j] + [v[j]];
    } else {
      assert v[i..i] + PutFrom(v, i) == PutFrom(v, i);
    }
  }

  /** What PutString writes for the characters GetChar takes at `i`. */
  function Piece(v: string, i: nat, enc: Encoding): string
    requires i < |v| && Readable(v, i, enc)
  {
    if Unit(v, i, enc) == 1 then EscapeChar(v[i]) else v[i..i + Unit(v, i, enc)]
  }

  lemma PutStep(v: string, i: nat, enc: Encoding)
    requires i < |v| && Readable(v, i, enc) && !HexRefAt(v, i)
    ensures Readable(v, i + Unit(v, i, enc), enc)
    ensures PutFrom(v, i) == Piece(v, i, enc) + PutFrom(v, i + Unit(v, i, enc))
  {
    hide PutFrom, EscapeChar;
    if Unit(v, i, enc) > 1 {
      PutRaw(v, i, Unit(v, i, enc));
    } else {
      PutNext(v, i);
    }
  }

  lemma PutNext(v: string, i: nat)
    requires i < |v| && !HexRefAt(v, i)
    ensures PutFrom(v, i) == EscapeChar(v[i]) + PutFrom(v, i + 1)
  {
    hide EscapeChar;
  }

  /** Unless a hexadecimal reference starts here, reading one character of the
      written text gives that character back and moves past its piece. */
  lemma ReadPiece(s: string, p: nat, v: string, i: nat, enc: Encoding)
    requires i < |v| && Readable(v, i, enc) && Has(s, p, Piece(v, i, enc))
    ensures 0 < |Piece(v, i, enc)| <= |s| - p
    ensures Char(s, p, enc) == Chunk(v[i..i + Unit(v, i, enc)], At(p + |Piece(v, i, enc)|))
  {
    if Unit(v, i, enc) == 1 {
      ReadEscaped(s, p, v[i], enc);
      assert v[i..i + 1] == [v[i]];
    } else {
      ReadBytes(s, p, v[i..i + Unit(v, i, enc)]);
    }
  }

  /** A multi-byte sequence is taken as it is. */
  lemma ReadBytes(s: string, p: nat, t: string)
    requires t != "" && ByteLen(t[0]) == |t| > 1 && Has(s, p, t)
    ensures p + |t| <= |s| && Char(s, p, Utf8) == Chunk(t, At(p + |t|))
  {
    HasChar(s, p, t, 0);
  }

  /** No piece starts like an end tag. */
  lemma PieceIsNoTag(s: string, p: nat, v: string, i: nat, enc: Encoding, tag: string)
    requires i < |v| && Readable(v, i, enc) && IsTextTag(tag)
    requires Has(s, p, Piece(v, i, enc))
    ensures !Has(s, p, tag)
  {
    var piece := Piece(v, i, enc);
    assert |piece| > 0 && piece[0] != tag[0] && |tag| == 1;
    HasOther(s, p, piece, tag, 0);
  }

  lemma PutEnd(v: string)
    ensures PutFrom(v, |v|) == ""
  {}

  predicate NoHexRef(v: string, i: nat)
    requires i <= |v|
    decreases |v| - i
  {
    i == |v| || (!HexRefAt(v, i) && NoHexRef(v, i + 1))
  }

  lemma {:induction false} NoHexRefAt(v: string, i: nat, j: nat)
    requires i <= j <= |v| && NoHexRef(v, i)
    ensures NoHexRef(v, j)
    decreases |v| - i
  {
    if i < j { NoHexRefAt(v, i + 1, j); }
  }

  /** A reference starts with an ASCII character. */
  lemma UnitNoRef(v: string, i: nat, n: nat, enc: Encoding)
    requires i < |v| && Readable(v, i, enc) && n == Unit(v, i, enc) && !HexRefAt(v, i)
    ensures i + n <= |v| && (NoHexRef(v, i + n) ==> NoHexRef(v, i))
  {
    if NoHexRef(v, i + n) {
      var k := i + n;
      while k > i
        invariant i <= k <= i + n && NoHexRef(v, k)
      {
        k := k - 1;
      }
    }
  }

  /** Reading the written text takes the characters of `v` one unit at a time:
      `n` characters of `v` for `w` characters of the written text. */
  lemma ReadUnit(s: string, p: nat, v: string, i: nat, enc: Encoding) returns (n: nat, w: nat)
    requires i < |v| && Readable(v, i, enc) && !HexRefAt(v, i) && Has(s, p, PutFrom(v, i))
    ensures 0 < n == Unit(v, i, enc) <= |v| - i && Readable(v, i + n, enc)
    ensures 0 < w <= |s| - p && |PutFrom(v, i)| == w + |PutFrom(v, i + n)|
    ensures Has(s, p + w, PutFrom(v, i + n))
    ensures Char(s, p, enc) == Chunk(v[i..i + n], At(p + w))
    ensures forall tag | IsTextTag(tag) :: !Has(s, p, tag)
    ensures NoHexRef(v, i + n) ==> NoHexRef(v, i)
  {
    hide Char, Has, Piece, PutFrom, NoHexRef;
    var piece := Piece(v, i, enc);
    n, w := Unit(v, i, enc), |piece|;
    PutStep(v, i, enc);
    HasSplit(s, p, piece, PutFrom(v, i + n));
    ReadPiece(s, p, v, i, enc);
    UnitNoRef(v, i, n, enc);
    forall tag | IsTextTag(tag) ensures !Has(s, p, tag) {
      PieceIsNoTag(s, p, v, i, enc, tag);
    }
  }

  // ---------- white space kept ----------

  lemma KeepStep(s: string, p: nat, tag: string, enc: Encoding, text: string, q: nat)
    requires p < |s| && !Has(s, p, tag) && q <= |s|
    requires Char(s, p, enc) == Chunk(text, At(q))
    ensures var rest := ReadKeep(s, q, tag, enc);
            ReadKeep(s, p, tag, enc) == Chunk(text + rest.text, rest.next)
  {}

  lemma {:induction false} PutThenRead(s: string, p: nat, v: string, i: nat, tag: string, enc: Encoding)
    requires i <= |v| && Readable(v, i, enc) && IsTextTag(tag)
    requires NoHexRef(v, i)
    requires Has(s, p, PutFrom(v, i)) && Has(s, p + |PutFrom(v, i)|, tag)
    ensures ReadKeep(s, p, tag, enc) == Chunk(v[i..], At(p + |PutFrom(v, i)|))
    decreases |v| - i
  {
    hide PutFrom, Has, Char;
    PutEnd(v);
    if i < |v| {
      var n, w := ReadUnit(s, p, v, i, enc);
      KeepStep(s, p, tag, enc, v[i..i + n], p + w);
      NoHexRefAt(v, i, i + n);
      PutThenRead(s, p + w, v, i + n, tag, enc);
      assert v[i..] == v[i..i + n] + v[i + n..];
    }
  }

  // ---------- references copied through ----------

  /** The reference copied at `i` stands in the input as it is, and the copy
      holds no ';'. */
  lemma PassedRef(s: string, p: nat, v: string, i: nat)
    requires HexRefAt(v, i) && Has(s, p, PutFrom(v, i))
    ensures var j := PassEnd(v, i);
            && i + 2 <= j && |PutFrom(v, i)| == j - i + |PutFrom(v, j)|
            && Has(s, p + j - i, PutFrom(v, j))
            && s[p] == '&' && p + 2 < |s| && s[p + 1] == '#' && s[p + 2] == 'x'
            && forall q :: p <= q < p + j - i ==> s[q] != ';'
  {
    var j := PassEnd(v, i);
    PassEndStart(v, i);
    HasSplit(s, p, v[i..j], PutFrom(v, j));
    HasChar(s, p, v[i..j], 0);
    HasChar(s, p, v[i..j], 1);
    if j > i + 2 {
      HasChar(s, p, v[i..j], 2);
    } else {
      assert PutFrom(v, j) == EscapeChar('x') + PutFrom(v, j + 1);
      HasChar(s, p + j - i, PutFrom(v, j), 0);
    }
    forall q | p <= q < p + j - i ensures s[q] != ';' {
      HasChar(s, p, v[i..j], q - p);
    }
  }

  /** What is written behind a copied reference. */
  lemma PassedTail(v: string, i: nat)
    requires HexRefAt(v, i)
    ensures var j := PassEnd(v, i);
            && (PutFrom(v, j) == if v[j] == ';' then ";" + PutFrom(v, j + 1) else EscapeChar(v[j]))
            && (|EscapeChar(v[j])| > 1 ==> j > i + 2)
  {
    PassEndStart(v, i);
    PutEnd(v);
    var j := PassEnd(v, i);
    if v[j] != ';' {
      assert EscapeChar(v[j]) + "" == EscapeChar(v[j]);
    }
  }

  lemma PassEndStart(v: string, i: nat)
    requires HexRefAt(v, i)
    ensures var j := PassEnd(v, i);
            && i + 2 <= j && (v[j] == ';' || j == |v| - 1)
            && forall k :: i <= k < j ==> v[k] != ';'
  {
    PassEndSpec(v, i);
  }

  lemma {:induction false} PassEndSpec(v: string, i: nat)
    requires i + 1 < |v|
    ensures var j := PassEnd(v, i);
            (v[j] == ';' || j == |v| - 1) && forall k :: i < k < j ==> v[k] != ';'
    decreases |v| - i
  {
    if v[i + 1] != ';' && i + 2 < |v| { PassEndSpec(v, i + 1); }
  }

  /** A numeric reference yields at most four characters, and only one when it
      has no digits. */
  lemma RefText(s: string, p: nat, enc: Encoding)
    requires p + 2 < |s| && s[p + 1] == '#' && s[p + 2] == 'x'
    ensures |NumericRef(s, p, enc).text| <= 4
    ensures NumericRef(s, p, enc).next.At? ==>
              p + 3 < |s| && NumericRef(s, p, enc).next.pos == IndexFrom(s, p + 3, ';') + 1 <= |s|
    ensures NumericRef(s, p, enc).next == At(p + 4) ==> |NumericRef(s, p, enc).text| == 1
  {}

  /** Nothing an ordinary character is escaped to ends in a hexadecimal digit
      and ';', so the digit loop rejects it; a control character it reads back. */
  lemma RefInEscape(s: string, p: nat, semi: nat, c: char, enc: Encoding)
    requires p + 2 < |s| && s[p + 1] == '#' && s[p + 2] == 'x' && p + 3 < |s|
    requires semi == IndexFrom(s, p + 3, ';') && |EscapeChar(c)| > 1
    requires p + 3 + |EscapeChar(c)| <= semi + 1 <= |s|
    requires Has(s, semi + 1 - |EscapeChar(c)|, EscapeChar(c))
    ensures NumericRef(s, p, enc).next.At? ==> |NumericRef(s, p, enc).text| == 1
  {
    var e := EscapeChar(c);
    var at := semi + 1 - |e|;
    HasChar(s, at, e, |e| - 2);
    if c as int < 32 {
      HasChar(s, at, e, 2);
      HasChar(s, at, e, 3);
      TwoDigits(s, p + 2, semi, c);
    } else {
      EscapeEnds(c);
    }
  }

  lemma EscapeEnds(c: char)
    requires |EscapeChar(c)| > 1 && c as int >= 32
    ensures var e := EscapeChar(c); |e| > 3 && DigitOf(e[|e| - 2], 16).None? && e[|e| - 2] != 'x'
  {
    match c
    case '&' => assert EscapeChar(c) == "&amp;";
    case '<' => assert EscapeChar(c) == "&lt;";
    case '>' => assert EscapeChar(c) == "&gt;";
    case '"' => assert EscapeChar(c) == "&quot;";
    case '\'' => assert EscapeChar(c) == "&apos;";
    case _ =>
  }

  /** The copied reference ends at its own ';'. */
  lemma ClosedRef(s: string, p: nat, v: string, i: nat, enc: Encoding)
    requires i < |v| && Readable(v, i, enc) && HexRefAt(v, i) && v[PassEnd(v, i)] == ';'
    requires Has(s, p, PutFrom(v, i))
    ensures var j := PassEnd(v, i);
            && Has(s, p + j - i + 1, PutFrom(v, j + 1)) && Readable(v, j + 1, enc)
            && |PutFrom(v, i)| == j - i + 1 + |PutFrom(v, j + 1)|
            && p + 2 < |s| && s[p + 1] == '#'
    ensures var j, c := PassEnd(v, i), NumericRef(s, p, enc);
            c.next.At? ==> c.next.pos == p + j - i + 1 && |c.text| < j + 1 - i
  {
    hide PutFrom, Has, EscapeChar, NumericRef, PassEnd;
    var j := PassEnd(v, i);
    PassEndStart(v, i);
    PassedRef(s, p, v, i);
    PassedTail(v, i);
    HasSplit(s, p + j - i, ";", PutFrom(v, j + 1));
    HasChar(s, p + j - i, ";", 0);
    if enc.Utf8? { WellFormedAt(v, i, j); }
    assert j != i + 2;
    FirstAt(s, p + 3, p + j - i, ';');
    RefText(s, p, enc);
  }

  lemma FirstAt(s: string, p: nat, q: nat, c: char)
    requires p <= q < |s| && s[q] == c && forall k :: p <= k < q ==> s[k] != c
    ensures IndexFrom(s, p, c) == q
  {}

  /** No ';' follows in the text: all but its last character are copied. */
  lemma OpenRef(s: string, p: nat, v: string, i: nat, enc: Encoding)
    requires HexRefAt(v, i) && v[PassEnd(v, i)] != ';' && Has(s, p, PutFrom(v, i))
    ensures p + 2 < |s| && s[p + 1] == '#'
    ensures var c, end := NumericRef(s, p, enc), p + |PutFrom(v, i)|;
            && (c.next.At? ==> end <= c.next.pos <= |s|)
            && (c.next == At(end) ==> |c.text| == 1)
  {
    hide PutFrom, NumericRef, EscapeChar, Has;
    var j, end := PassEnd(v, i), p + |PutFrom(v, i)|;
    PassEndStart(v, i);
    PassedRef(s, p, v, i);
    PassedTail(v, i);
    RefText(s, p, enc);
    if NumericRef(s, p, enc).next.At? {
      var e, at, semi := EscapeChar(v[j]), p + j - i, IndexFrom(s, p + 3, ';');
      if semi < end {
        HasChar(s, at, e, semi - at);
        LastSemicolon(v[j], semi - at);
        assert semi == at + |e| - 1;
        RefInEscape(s, p, semi, v[j], enc);
      }
    }
  }

  lemma LastSemicolon(c: char, k: nat)
    requires c != ';' && k < |EscapeChar(c)| && EscapeChar(c)[k] == ';'
    ensures |EscapeChar(c)| > 1 && k == |EscapeChar(c)| - 1
  {}

  lemma CopiedRef(s: string, p: nat, v: string, i: nat, enc: Encoding)
    requires i < |v| && Readable(v, i, enc) && HexRefAt(v, i) && Has(s, p, PutFrom(v, i))
    ensures p + 2 < |s| && s[p + 1] == '#' && Char(s, p, enc) == NumericRef(s, p, enc)
    ensures forall tag | IsTextTag(tag) :: !Has(s, p, tag)
  {
    PassedRef(s, p, v, i);
    forall tag | IsTextTag(tag) ensures !Has(s, p, tag) {
      if Has(s, p, tag) { HasChar(s, p, tag, 0); }
    }
  }

  lemma KeepRef(s: string, p: nat, tag: string, enc: Encoding)
    requires p < |s| && !Has(s, p, tag)
    ensures var c, r := Char(s, p, enc), ReadKeep(s, p, tag, enc);
            r.next.At? ==>
            && c.next.At? && c.next.pos <= |s| && r.next == ReadKeep(s, c.next.pos, tag, enc).next
            && |r.text| == |c.text| + |ReadKeep(s, c.next.pos, tag, enc).text|
  {
    hide Char, Has;
  }

  lemma ClosedKeep(s: string, p: nat, v: string, i: nat, tag: string, enc: Encoding) returns (k: nat)
    requires i < |v| && Readable(v, i, enc) && HexRefAt(v, i) && v[PassEnd(v, i)] == ';' && IsTextTag(tag)
    requires Has(s, p, PutFrom(v, i))
    ensures var j := PassEnd(v, i);
            && i < j && Readable(v, j + 1, enc) && k <= |s| && Has(s, k, PutFrom(v, j + 1))
            && p + |PutFrom(v, i)| == k + |PutFrom(v, j + 1)|
            && (ReadKeep(s, p, tag, enc).next.At? ==>
                  && ReadKeep(s, p, tag, enc).next == ReadKeep(s, k, tag, enc).next
                  && |ReadKeep(s, p, tag, enc).text| < j + 1 - i + |ReadKeep(s, k, tag, enc).text|)
  {
    hide PutFrom, Char, ReadKeep, NumericRef, Readable, PassEnd;
    PassEndStart(v, i);
    CopiedRef(s, p, v, i, enc);
    ClosedRef(s, p, v, i, enc);
    k := p + PassEnd(v, i) - i + 1;
    KeepRef(s, p, tag, enc);
  }

  lemma OpenKeep(s: string, p: nat, v: string, i: nat, tag: string, enc: Encoding)
    requires i < |v| && Readable(v, i, enc) && HexRefAt(v, i) && v[PassEnd(v, i)] != ';' && IsTextTag(tag)
    requires Has(s, p, PutFrom(v, i)) && Has(s, p + |PutFrom(v, i)|, tag)
    ensures ReadKeep(s, p, tag, enc).next == At(p + |PutFrom(v, i)|) ==> |ReadKeep(s, p, tag, enc).text| < |v| - i
  {
    hide PutFrom, Has, Char, ReadKeep, NumericRef, Readable, PassEnd;
    var end := p + |PutFrom(v, i)|;
    CopiedRef(s, p, v, i, enc);
    OpenRef(s, p, v, i, enc);
    KeepRef(s, p, tag, enc);
    KeepEnd(s, end, tag, enc);
  }

  lemma KeepEnd(s: string, p: nat, tag: string, enc: Encoding)
    requires Has(s, p, tag)
    ensures p <= |s| && ReadKeep(s, p, tag, enc) == Chunk("", At(p))
  {}

  /** The reading of a text that PutString copied a reference into ends at the
      right place only with fewer characters than were written. */
  lemma {:induction false} RefsShrink(s: string, p: nat, v: string, i: nat, tag: string, enc: Encoding)
    requires i <= |v| && Readable(v, i, enc) && IsTextTag(tag)
    requires Has(s, p, PutFrom(v, i)) && Has(s, p + |PutFrom(v, i)|, tag)
    ensures var r := ReadKeep(s, p, tag, enc);
            r.next == At(p + |PutFrom(v, i)|) ==>
              |r.text| <= |v| - i && (!NoHexRef(v, i) ==> |r.text| < |v| - i)
    decreases |v| - i
  {
    hide PutFrom, Has, Char, ReadKeep, Readable, PassEnd;
    PutEnd(v);
    if i == |v| {
      assert p + |PutFrom(v, i)| == p;
      KeepEnd(s, p, tag, enc);
    } else {
      if HexRefAt(v, i) {
        if v[PassEnd(v, i)] == ';' {
          var k := ClosedKeep(s, p, v, i, tag, enc);
          RefsShrink(s, k, v, PassEnd(v, i) + 1, tag, enc);
        } else {
          OpenKeep(s, p, v, i, tag, enc);
        }
      } else {
        var n, w := ReadUnit(s, p, v, i, enc);
        KeepStep(s, p, tag, enc, v[i..i + n], p + w);
        RefsShrink(s, p + w, v, i + n, tag, enc);
      }
    }
  }

  // ---------- the law ----------

  /** Neither a terminator nor a carriage return, which is what keeps a text
      whole through a file. */
  predicate Clean(s: string) {
    forall k :: 0 <= k < |s| ==> s[k] != '\0' && s[k] != '\r'
  }

  lemma {:induction false} PutIsClean(v: string, i: nat)
    requires i <= |v| && NoHexRef(v, i)
    ensures Clean(PutFrom(v, i)) && Shown(PutFrom(v, i)) == PutFrom(v, i)
    decreases |v| - i
  {
    hide Shown;
    if i < |v| {
      PutIsClean(v, i + 1);
      assert Clean(EscapeChar(v[i]));
    }
    ShownWhole(PutFrom(v, i));
  }

  lemma {:induction false} NoHexRefMeans(v: string, i: nat)
    requires i <= |v|
    ensures NoHexRef(v, i) <==> forall k :: i <= k < |v| ==> !HexRefAt(v, k)
    decreases |v| - i
  {
    if i < |v| { NoHexRefMeans(v, i + 1); }
  }

  /** The text between two tags, written by PutString, is read back by ReadText
      as it was, up to its own end tag, if and only if it holds no "&#x". */
  lemma EscapingRoundTrip(pre: string, v: string, tag: string, post: string, enc: Encoding)
    requires IsTextTag(tag) && Readable(v, 0, enc)
    ensures Text(pre + Put(v) + tag + post, |pre|, false, tag, enc)
            == Chunk(v, At(|pre| + |Put(v)| + |tag|))
            <==> !HasHexRef(v)
  {
    hide PutFrom, Has, ReadKeep, NoHexRef;
    var s := pre + Put(v) + tag + post;
    HasBetween(pre, Put(v), tag, post);
    NoHexRefMeans(v, 0);
    assert v[0..] == v;
    if NoHexRef(v, 0) {
      PutThenRead(s, |pre|, v, 0, tag, enc);
    } else {
      RefsShrink(s, |pre|, v, 0, tag, enc);
    }
  }
}
