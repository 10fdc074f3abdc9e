/** Reading escaped text with white space condensed, TinyXML's default. */
module XmlCondense {
  import opened CStrings
  import opened XmlText
  import opened XmlEscaping

  /** The text with every run of spaces made one space and the spaces at the
      end dropped; `gap` says that a space was passed just before `i`. Other
      white space is written as a character reference and is not touched. */
  function Squeeze(v: string, i: nat, gap: bool): string
    requires i <= |v|
    decreases |v| - i
  {
    if i == |v| then ""
    else if v[i] == ' ' then Squeeze(v, i + 1, true)
    else (if gap then " " else "") + [v[i]] + Squeeze(v, i + 1, false)
  }

  /** No space at either end and no two spaces together. */
  predicate Tidy(v: string) {
    v == "" || (v[0] != ' ' && SingleSpaced(v))
  }

  predicate SingleSpaced(v: string)
    requires v != ""
  {
    v[|v| - 1] != ' ' && forall k :: 0 <= k < |v| - 1 ==> !TwoSpaces(v, k)
  }

  predicate TwoSpaces(v: string, k: nat) {
    k + 1 < |v| && v[k] == ' ' && v[k + 1] == ' '
  }

  predicate AllWhite(s: string, p: nat, q: nat) {
    p <= q <= |s| && forall k :: p <= k < q ==> IsWhite(s[k])
  }

  lemma {:induction false} SqueezeUnit(v: string, i: nat, n: nat, gap: bool)
    requires 0 < n <= |v| - i && forall k :: i <= k < i + n ==> v[k] != ' '
    ensures Squeeze(v, i, gap) == (if gap then " " else "") + v[i..i + n] + Squeeze(v, i + n, false)
    decreases n
  {
    var space, rest := if gap then " " else "", Squeeze(v, i + n, false);
    if n == 1 {
      assert v[i..i + 1] == [v[i]];
    } else {
      SqueezeUnit(v, i, n - 1, gap);
      var j := i + n - 1;
      assert Squeeze(v, j, false) == [v[j]] + rest;
      assert v[i..j + 1] == v[i..j] + [v[j]];
      Assoc(space + v[i..j], [v[j]], rest);
      Assoc(space, v[i..j], [v[j]]);
    }
  }

  lemma {:induction false} TrailingWhite(s: string, p: nat, q: nat, tag: string, enc: Encoding, gap: bool)
    requires AllWhite(s, p, q) && Has(s, q, tag) && tag == "<"
    ensures ReadCondensed(s, p, tag, enc, gap) == Chunk("", At(q))
    decreases q - p
  {
    if p < q {
      if Has(s, p, tag) { HasChar(s, p, tag, 0); }
      TrailingWhite(s, p + 1, q, tag, enc, true);
    }
  }

  lemma CondenseUnit(s: string, p: nat, tag: string, enc: Encoding, gap: bool, text: string, q: nat)
    requires p < |s| && !Has(s, p, tag) && !IsWhite(s[p]) && q <= |s|
    requires Char(s, p, enc) == Chunk(text, At(q))
    ensures var rest := ReadCondensed(s, q, tag, enc, false);
            ReadCondensed(s, p, tag, enc, gap) == Chunk((if gap then " " else "") + text + rest.text, rest.next)
  {
    Assoc(if gap then " " else "", text, ReadCondensed(s, q, tag, enc, false).text);
  }

  lemma CondenseWhite(s: string, p: nat, tag: string, enc: Encoding, gap: bool)
    requires p < |s| && !Has(s, p, tag) && IsWhite(s[p])
    ensures ReadCondensed(s, p, tag, enc, gap) == ReadCondensed(s, p + 1, tag, enc, true)
  {}

  /** White space in the written text is always a space of the original. */
  lemma FirstWritten(s: string, p: nat, v: string, i: nat, enc: Encoding)
    requires i < |v| && !HexRefAt(v, i) && Has(s, p, PutFrom(v, i))
    ensures p < |s| && s[p] != '<' && (IsWhite(s[p]) <==> v[i] == ' ')
    ensures v[i] == ' ' ==> Has(s, p + 1, PutFrom(v, i + 1)) && |PutFrom(v, i)| == 1 + |PutFrom(v, i + 1)|
  {
    assert PutFrom(v, i) == EscapeChar(v[i]) + PutFrom(v, i + 1);
    HasSplit(s, p, EscapeChar(v[i]), PutFrom(v, i + 1));
    HasChar(s, p, EscapeChar(v[i]), 0);
  }

  /** One unit that is no space: reading and squeezing take the same step. */
  lemma WordUnit(s: string, p: nat, v: string, i: nat, enc: Encoding, gap: bool) returns (n: nat, w: nat)
    requires i < |v| && Readable(v, i, enc) && NoHexRef(v, i) && v[i] != ' ' && Has(s, p, PutFrom(v, i))
    ensures 0 < n <= |v| - i && Readable(v, i + n, enc) && NoHexRef(v, i + n)
    ensures Has(s, p + w, PutFrom(v, i + n)) && |PutFrom(v, i)| == w + |PutFrom(v, i + n)| && p + w <= |s|
    ensures var space := if gap then " " else "";
            var rest := ReadCondensed(s, p + w, "<", enc, false);
            && ReadCondensed(s, p, "<", enc, gap) == Chunk(space + v[i..i + n] + rest.text, rest.next)
            && Squeeze(v, i, gap) == space + v[i..i + n] + Squeeze(v, i + n, false)
  {
    hide PutFrom, Has, Char, IsWhite, ReadCondensed, Squeeze, Readable;
    FirstWritten(s, p, v, i, enc);
    n, w := ReadUnit(s, p, v, i, enc);
    assert !Has(s, p, "<");
    UnitHasNoSpace(v, i, enc);
    NoHexRefAt(v, i, i + n);
    SqueezeUnit(v, i, n, gap);
    CondenseUnit(s, p, "<", enc, gap, v[i..i + n], p + w);
  }

  lemma {:induction false} PutThenCondense(
      s: string, p: nat, v: string, i: nat, q: nat, enc: Encoding, gap: bool)
    requires i <= |v| && Readable(v, i, enc) && NoHexRef(v, i)
    requires Has(s, p, PutFrom(v, i)) && AllWhite(s, p + |PutFrom(v, i)|, q) && Has(s, q, "<")
    ensures ReadCondensed(s, p, "<", enc, gap) == Chunk(Squeeze(v, i, gap), At(q))
    decreases |v| - i
  {
    hide PutFrom, Has, Char, AllWhite, ReadCondensed, Squeeze, Readable, NoHexRef;
    PutEnd(v);
    SqueezeEnd(v, gap);
    if i == |v| {
      TrailingWhite(s, p, q, "<", enc, gap);
    } else if v[i] == ' ' {
      SpaceStep(s, p, v, i, enc, gap);
      PutThenCondense(s, p + 1, v, i + 1, q, enc, true);
    } else {
      var n, w := WordUnit(s, p, v, i, enc, gap);
      PutThenCondense(s, p + w, v, i + n, q, enc, false);
    }
  }

  lemma SqueezeEnd(v: string, gap: bool)
    ensures Squeeze(v, |v|, gap) == ""
  {}

  lemma SpaceStep(s: string, p: nat, v: string, i: nat, enc: Encoding, gap: bool)
    requires i < |v| && Readable(v, i, enc) && NoHexRef(v, i) && v[i] == ' ' && Has(s, p, PutFrom(v, i))
    ensures Readable(v, i + 1, enc) && NoHexRef(v, i + 1)
    ensures p < |s| && Has(s, p + 1, PutFrom(v, i + 1)) && |PutFrom(v, i)| == 1 + |PutFrom(v, i + 1)|
    ensures ReadCondensed(s, p, "<", enc, gap) == ReadCondensed(s, p + 1, "<", enc, true)
    ensures Squeeze(v, i, gap) == Squeeze(v, i + 1, true)
  {
    hide PutFrom, Has, Char, ReadCondensed, IsWhite;
    FirstWritten(s, p, v, i, enc);
    var n, w := ReadUnit(s, p, v, i, enc);
    assert !Has(s, p, "<");
    SpaceUnit(v, i, enc);
    CondenseWhite(s, p, "<", enc, gap);
  }

  lemma SpaceUnit(v: string, i: nat, enc: Encoding)
    requires i < |v| && v[i] == ' ' && Readable(v, i, enc)
    ensures Readable(v, i + 1, enc)
  {}

  lemma UnitHasNoSpace(v: string, i: nat, enc: Encoding)
    requires i < |v| && v[i] != ' ' && Readable(v, i, enc)
    ensures i + Unit(v, i, enc) <= |v| && forall k :: i <= k < i + Unit(v, i, enc) ==> v[k] != ' '
  {}

  // ---------- what is lost ----------

  /** The squeezed text is tidy behind the gap it may start with. */
  lemma {:induction false} SqueezedIsTidy(v: string, i: nat, gap: bool)
    requires i <= |v|
    ensures var t := Squeeze(v, i, gap);
            t != "" ==> && SingleSpaced(t)
                        && (gap ==> |t| > 1 && t[0] == ' ' && t[1] != ' ')
                        && (!gap && v[i] != ' ' ==> t[0] == v[i])
    decreases |v| - i
  {
    if i < |v| {
      if v[i] == ' ' {
        SqueezedIsTidy(v, i + 1, true);
        var t := Squeeze(v, i + 1, true);
        assert Squeeze(v, i, gap) == t;
      } else {
        SqueezedIsTidy(v, i + 1, false);
        var t := Squeeze(v, i + 1, false);
        assert Squeeze(v, i, gap) == (if gap then [' ', v[i]] else [v[i]]) + t;
        PrependWord(gap, v[i], t);
        if t != "" && i + 1 < |v| && v[i + 1] == ' ' {
          assert Squeeze(v, i + 1, false) == Squeeze(v, i + 2, true);
          SqueezedIsTidy(v, i + 2, true);
        }
      }
    }
  }

  lemma PrependWord(gap: bool, c: char, t: string)
    requires c != ' ' && (t != "" ==> SingleSpaced(t))
    ensures SingleSpaced((if gap then [' ', c] else [c]) + t)
  {
    var x := if gap then [' ', c] else [c];
    var u := x + t;
    forall k | 0 <= k < |u| - 1 ensures !TwoSpaces(u, k) {
      if k >= |x| {
        assert !TwoSpaces(t, k - |x|);
      }
    }
  }

  lemma {:induction false} TidyStays(v: string, i: nat, gap: bool)
    requires v != "" && i <= |v| && SingleSpaced(v)
    requires gap ==> 0 < i < |v| && v[i - 1] == ' '
    ensures Squeeze(v, i, gap) == (if gap then " " else "") + v[i..]
    decreases |v| - i
  {
    if i < |v| {
      if v[i] == ' ' {
        assert i > 0 ==> !TwoSpaces(v, i - 1);
        TidyStays(v, i + 1, true);
        assert v[i..] == [' '] + v[i + 1..];
      } else {
        TidyStays(v, i + 1, false);
        assert v[i..] == [v[i]] + v[i + 1..];
      }
    }
  }

  // ---------- what is skipped in front ----------

  /** Where the text goes on behind spaces and byte order marks. */
  function Front(v: string, i: nat, enc: Encoding): (j: nat)
    requires i <= |v|
    ensures i <= j <= |v|
    decreases |v| - i
  {
    if i < |v| && v[i] == ' ' then Front(v, i + 1, enc)
    else if enc.Utf8? && IsBom(v, i) then Front(v, i + 3, enc)
    else i
  }

  /** A byte order mark is written as it is. */
  lemma WrittenBom(s: string, p: nat, v: string, i: nat)
    requires IsBom(v, i) && Has(s, p, PutFrom(v, i)) && WellFormed(v, i)
    ensures i + 3 <= |v| && p + 3 <= |s| && IsBom(s, p) && !IsWhite(s[p]) && WellFormed(v, i + 3)
    ensures Has(s, p + 3, PutFrom(v, i + 3)) && |PutFrom(v, i)| == 3 + |PutFrom(v, i + 3)|
  {
    hide PutFrom;
    PutRaw(v, i, 3);
    HasSplit(s, p, v[i..i + 3], PutFrom(v, i + 3));
    HasChar(s, p, v[i..i + 3], 0);
    HasChar(s, p, v[i..i + 3], 1);
    HasChar(s, p, v[i..i + 3], 2);
  }

  lemma WrittenRef(s: string, p: nat, v: string, i: nat, enc: Encoding)
    requires HexRefAt(v, i) && Has(s, p, PutFrom(v, i))
    ensures p < |s| && Skip(s, p, enc) == p
  {
    PassedRef(s, p, v, i);
  }

  /** Skipping in the written text goes where the text goes on, or through the
      white space behind it. */
  lemma {:induction false} SkipInto(s: string, p: nat, v: string, i: nat, q: nat, enc: Encoding) returns (k: nat)
    requires i <= |v| && Readable(v, i, enc)
    requires Has(s, p, PutFrom(v, i)) && AllWhite(s, p + |PutFrom(v, i)|, q) && Has(s, q, "<")
    ensures p <= |s| && Skip(s, p, enc) == k && Readable(v, Front(v, i, enc), enc)
    ensures Has(s, k, PutFrom(v, Front(v, i, enc))) && AllWhite(s, k + |PutFrom(v, Front(v, i, enc))|, q)
    decreases |v| - i
  {
    hide PutFrom, Has, AllWhite, Skip, HexRefAt, IsWhite;
    PutEnd(v);
    if i == |v| {
      k := q;
      SkipGap(s, p, q, enc);
      NothingAt(s, q);
    } else if v[i] == ' ' {
      SkipSpace(s, p, v, i, enc);
      SpaceUnit(v, i, enc);
      k := SkipInto(s, p + 1, v, i + 1, q, enc);
    } else if enc.Utf8? && IsBom(v, i) {
      WrittenBom(s, p, v, i);
      SkipMark(s, p, enc);
      k := SkipInto(s, p + 3, v, i + 3, q, enc);
    } else {
      k := p;
      if HexRefAt(v, i) { WrittenRef(s, p, v, i, enc); } else { NothingToSkip(s, p, v, i, enc); }
    }
  }

  lemma {:induction false} SkipGap(s: string, p: nat, q: nat, enc: Encoding)
    requires AllWhite(s, p, q) && Has(s, q, "<")
    ensures Skip(s, p, enc) == q
    decreases q - p
  {
    if p < q {
      SkipGap(s, p + 1, q, enc);
    } else {
      HasChar(s, q, "<", 0);
    }
  }

  lemma NothingAt(s: string, q: nat)
    requires Has(s, q, "<")
    ensures Has(s, q, "") && AllWhite(s, q, q)
  {}

  lemma SkipSpace(s: string, p: nat, v: string, i: nat, enc: Encoding)
    requires i < |v| && v[i] == ' ' && Has(s, p, PutFrom(v, i))
    ensures p < |s| && Skip(s, p, enc) == Skip(s, p + 1, enc)
    ensures Has(s, p + 1, PutFrom(v, i + 1)) && |PutFrom(v, i)| == 1 + |PutFrom(v, i + 1)|
  {
    hide PutFrom, Has;
    FirstWritten(s, p, v, i, enc);
  }

  lemma SkipMark(s: string, p: nat, enc: Encoding)
    requires p + 3 <= |s| && IsBom(s, p) && enc.Utf8?
    ensures Skip(s, p, enc) == Skip(s, p + 3, enc)
  {}

  // ---------- the law ----------

  lemma {:induction false} SqueezeBound(v: string, i: nat, gap: bool)
    requires i <= |v|
    ensures |Squeeze(v, i, gap)| <= |v| - i + if gap then 1 else 0
    decreases |v| - i
  {
    if i < |v| { SqueezeBound(v, i + 1, v[i] == ' '); }
  }

  /** A space, whatever follows it. */
  lemma SpaceRead(s: string, p: nat, v: string, i: nat, enc: Encoding, gap: bool)
    requires i < |v| && v[i] == ' ' && Has(s, p, PutFrom(v, i))
    ensures p < |s| && Has(s, p + 1, PutFrom(v, i + 1)) && |PutFrom(v, i)| == 1 + |PutFrom(v, i + 1)|
    ensures ReadCondensed(s, p, "<", enc, gap) == ReadCondensed(s, p + 1, "<", enc, true)
  {
    hide PutFrom, Has, ReadCondensed, IsWhite;
    FirstWritten(s, p, v, i, enc);
    if Has(s, p, "<") { HasChar(s, p, "<", 0); }
    CondenseWhite(s, p, "<", enc, gap);
  }

  /** A copied reference that ends at its own ';'. */
  lemma ClosedShrinks(s: string, p: nat, v: string, i: nat, enc: Encoding, gap: bool) returns (k: nat)
    requires i < |v| && Readable(v, i, enc) && HexRefAt(v, i) && v[PassEnd(v, i)] == ';'
    requires Has(s, p, PutFrom(v, i))
    ensures var j, r := PassEnd(v, i), ReadCondensed(s, p, "<", enc, gap);
            && i < j && Readable(v, j + 1, enc) && k <= |s| && Has(s, k, PutFrom(v, j + 1))
            && p + |PutFrom(v, i)| == k + |PutFrom(v, j + 1)|
            && (r.next.At? ==>
                  && r.next == ReadCondensed(s, k, "<", enc, false).next
                  && |r.text| < (if gap then 1 else 0) + (j + 1 - i) + |ReadCondensed(s, k, "<", enc, false).text|)
  {
    hide PutFrom, Has, Char, ReadCondensed, NumericRef, IsWhite;
    var j := PassEnd(v, i);
    PassEndStart(v, i);
    PassedRef(s, p, v, i);
    CopiedRef(s, p, v, i, enc);
    ClosedRef(s, p, v, i, enc);
    k := p + j - i + 1;
    NotWhite(s, p);
    CondenseRef(s, p, enc, gap);
  }

  lemma NotWhite(s: string, p: nat)
    requires p < |s| && s[p] == '&'
    ensures !IsWhite(s[p])
  {}

  lemma CondenseRef(s: string, p: nat, enc: Encoding, gap: bool)
    requires p < |s| && !Has(s, p, "<") && !IsWhite(s[p])
    ensures var c, r := Char(s, p, enc), ReadCondensed(s, p, "<", enc, gap);
            r.next.At? ==>
            && c.next.At? && c.next.pos <= |s| && r.next == ReadCondensed(s, c.next.pos, "<", enc, false).next
            && |r.text| == (if gap then 1 else 0) + |c.text| + |ReadCondensed(s, c.next.pos, "<", enc, false).text|
  {
    hide Char, IsWhite;
  }

  /** One that does not end in the text takes all of it, or what is behind. */
  lemma OpenShrinks(s: string, p: nat, v: string, i: nat, q: nat, enc: Encoding, gap: bool)
    requires HexRefAt(v, i) && v[PassEnd(v, i)] != ';' && Has(s, p, PutFrom(v, i))
    requires AllWhite(s, p + |PutFrom(v, i)|, q) && Has(s, q, "<")
    ensures var r := ReadCondensed(s, p, "<", enc, gap);
            r.next == At(q) ==> |r.text| < |v| - i + if gap then 1 else 0
  {
    hide PutFrom, Has, Char, ReadCondensed, NumericRef, IsWhite;
    PassedRef(s, p, v, i);
    var end, c := p + |PutFrom(v, i)|, Char(s, p, enc);
    PassEndStart(v, i);
    OpenRef(s, p, v, i, enc);
    RefChar(s, p, enc);
    NotWhite(s, p);
    if Has(s, p, "<") { HasChar(s, p, "<", 0); }
    CondenseRef(s, p, enc, gap);
    if c.next.At? && c.next.pos <= q {
      EndsInGap(s, p, end, q, enc);
      TrailingWhite(s, end, q, "<", enc, false);
    }
  }

  lemma RefChar(s: string, p: nat, enc: Encoding)
    requires p + 2 < |s| && s[p] == '&' && s[p + 1] == '#'
    ensures Char(s, p, enc) == NumericRef(s, p, enc)
  {}

  /** White space holds no ';'. */
  lemma EndsInGap(s: string, p: nat, end: nat, q: nat, enc: Encoding)
    requires p + 2 < |s| && s[p + 1] == '#' && s[p + 2] == 'x' && AllWhite(s, end, q)
    requires NumericRef(s, p, enc).next.At? && end <= NumericRef(s, p, enc).next.pos <= q
    ensures NumericRef(s, p, enc).next.pos == end
  {
    hide NumericRef;
    RefText(s, p, enc);
    var semi := IndexFrom(s, p + 3, ';');
    assert !IsWhite(s[semi]);
  }

  /** Reading a written text with white space condensed never gives more than
      was written, and less when a reference was copied through. */
  lemma {:induction false} CondensedShrinks(
      s: string, p: nat, v: string, i: nat, q: nat, enc: Encoding, gap: bool)
    requires i <= |v| && Readable(v, i, enc)
    requires Has(s, p, PutFrom(v, i)) && AllWhite(s, p + |PutFrom(v, i)|, q) && Has(s, q, "<")
    ensures var r, most := ReadCondensed(s, p, "<", enc, gap), |v| - i + if gap then 1 else 0;
            r.next == At(q) ==> |r.text| <= most && (!NoHexRef(v, i) ==> |r.text| < most)
    decreases |v| - i
  {
    hide PutFrom, Has, Char, AllWhite, ReadCondensed, IsWhite, Readable, PassEnd;
    PutEnd(v);
    if i == |v| {
      TrailingWhite(s, p, q, "<", enc, gap);
    } else if HexRefAt(v, i) {
      if v[PassEnd(v, i)] == ';' {
        var k := ClosedShrinks(s, p, v, i, enc, gap);
        CondensedShrinks(s, k, v, PassEnd(v, i) + 1, q, enc, false);
      } else {
        OpenShrinks(s, p, v, i, q, enc, gap);
      }
    } else if v[i] == ' ' {
      SpaceRead(s, p, v, i, enc, gap);
      SpaceUnit(v, i, enc);
      CondensedShrinks(s, p + 1, v, i + 1, q, enc, true);
    } else {
      FirstWritten(s, p, v, i, enc);
      var n, w := ReadUnit(s, p, v, i, enc);
      assert !Has(s, p, "<");
      CondenseUnit(s, p, "<", enc, gap, v[i..i + n], p + w);
      CondensedShrinks(s, p + w, v, i + n, q, enc, false);
    }
  }

  /** Text in front of white space and '<', written by PutString and read with
      white space condensed, comes back as it was if and only if it holds no
      "&#x", is tidy and does not begin with what is skipped as a byte order mark.
      Without "&#x" it comes back squeezed, behind what is skipped in front. */
  lemma CondensedRoundTrip(pre: string, v: string, gap: string, post: string, enc: Encoding)
    requires Readable(v, 0, enc) && AllWhite(gap, 0, |gap|)
    ensures var r, end := Text(pre + Put(v) + (gap + "<") + post, |pre|, true, "<", enc),
                          |pre| + |Put(v)| + |gap| + 1;
            && (r == Chunk(v, At(end)) <==> !HasHexRef(v) && Tidy(v) && !(enc.Utf8? && IsBom(v, 0)))
            && (!HasHexRef(v) ==> r == Chunk(Squeeze(v, Front(v, 0, enc), false), At(end)))
  {
    hide PutFrom, Has, ReadCondensed, Squeeze, NoHexRef, IsWhite, Skip, Readable, HexRefAt, AllWhite, Front, Tidy;
    var s, j := pre + Put(v) + (gap + "<") + post, Front(v, 0, enc);
    NoHexRefMeans(v, 0);
    var q := WhiteBetween(pre, Put(v), gap, post);
    var k := SkipInto(s, |pre|, v, 0, q, enc);
    FrontStays(v, enc);
    if NoHexRef(v, 0) {
      NoHexRefAt(v, 0, j);
      PutThenCondense(s, k, v, j, q, enc, false);
      SqueezeBound(v, j, false);
      if j == 0 { TidyComesBack(v); } else { NotTidy(v); }
    } else {
      FrontKeepsRefs(v, 0, enc);
      CondensedShrinks(s, k, v, j, q, enc, false);
    }
  }

  lemma FrontStays(v: string, enc: Encoding)
    ensures Front(v, 0, enc) == 0 <==> v == "" || (v[0] != ' ' && !(enc.Utf8? && IsBom(v, 0)))
  {}

  lemma NotTidy(v: string)
    ensures v != "" && v[0] == ' ' ==> !Tidy(v)
  {}

  lemma TidyComesBack(v: string)
    requires v == "" || v[0] != ' '
    ensures Squeeze(v, 0, false) == v <==> Tidy(v)
  {
    hide Squeeze, SingleSpaced;
    SqueezedIsTidy(v, 0, false);
    SqueezeEnd(v, false);
    if Tidy(v) && v != "" {
      TidyStays(v, 0, false);
      assert "" + v[0..] == v;
    }
  }

  lemma {:induction false} FrontKeepsRefs(v: string, i: nat, enc: Encoding)
    requires i <= |v|
    ensures NoHexRef(v, Front(v, i, enc)) ==> NoHexRef(v, i)
    decreases |v| - i
  {
    if i < |v| && v[i] == ' ' {
      FrontKeepsRefs(v, i + 1, enc);
    } else if enc.Utf8? && IsBom(v, i) {
      FrontKeepsRefs(v, i + 3, enc);
      if NoHexRef(v, i + 3) { assert NoHexRef(v, i + 2) && NoHexRef(v, i + 1); }
    }
  }

  lemma WhiteBetween(pre: string, a: string, gap: string, post: string) returns (q: nat)
    requires AllWhite(gap, 0, |gap|)
    ensures var s := pre + a + (gap + "<") + post;
            && q == |pre| + |a| + |gap| && Has(s, |pre|, a) && AllWhite(s, |pre| + |a|, q) && Has(s, q, "<")
  {
    var s := pre + a + (gap + "<") + post;
    HasBetween(pre, a, gap + "<", post);
    q := |pre| + |a| + |gap|;
    HasSplit(s, |pre| + |a|, gap, "<");
    forall k | |pre| + |a| <= k < q ensures IsWhite(s[k]) {
      HasChar(s, |pre| + |a|, gap, k - |pre| - |a|);
    }
  }

  /** Text that starts with no white space is not skipped into. */
  lemma NothingToSkip(s: string, p: nat, v: string, i: nat, enc: Encoding)
    requires i < |v| && Readable(v, i, enc) && !HexRefAt(v, i) && Has(s, p, PutFrom(v, i))
    requires v[i] != ' ' && !(enc.Utf8? && IsBom(v, i))
    ensures p < |s| && Skip(s, p, enc) == p
  {
    hide PutFrom, Has, HexRefAt, IsBom, Readable;
    FirstWritten(s, p, v, i, enc);
    if enc.Utf8? && IsBom(s, p) { MarkWritten(s, p, v, i); }
  }

  /** A byte order mark in the written text stands in the text. */
  lemma MarkWritten(s: string, p: nat, v: string, i: nat)
    requires i < |v| && Readable(v, i, Utf8) && !HexRefAt(v, i) && Has(s, p, PutFrom(v, i)) && IsBom(s, p)
    ensures IsBom(v, i)
  {
    hide PutFrom, Has, EscapeChar;
    PutNext(v, i);
    FirstEscaped(v[i]);
    HasSplit(s, p, EscapeChar(v[i]), PutFrom(v, i + 1));
    HasChar(s, p, EscapeChar(v[i]), 0);
    PutRaw(v, i, 3);
    HasSplit(s, p, v[i..i + 3], PutFrom(v, i + 3));
    HasChar(s, p, v[i..i + 3], 1);
    HasChar(s, p, v[i..i + 3], 2);
  }

  lemma FirstEscaped(c: char)
    ensures EscapeChar(c) != "" && (EscapeChar(c)[0] == c || EscapeChar(c)[0] == '&')
  {}
}
