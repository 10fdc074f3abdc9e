/** Exactly which documents survive Print and Parse. */
module XmlExact {
  import opened CStrings
  import opened XmlText
  import opened XmlEscaping
  import opened XmlCondense
  import opened XmlTree
  import opened XmlParser
  import opened XmlShape
  import opened XmlRoundTrip

  // ---------- references that end in their own string ----------

  /** From `i` on, every "&#x" that PutString copies has its ';', with no NUL in
      front of it. */
  predicate Closed(v: string, i: nat)
    requires i <= |v|
    decreases |v| - i
  {
    if i == |v| then true
    else if HexRefAt(v, i) then
      var j := PassEnd(v, i);
      v[j] == ';' && '\0' !in v[i..j] && Closed(v, j + 1)
    else Closed(v, i + 1)
  }

  /** Well formed, and no reference runs on behind the string. */
  predicate Plain(v: string, enc: Encoding) {
    Readable(v, 0, enc) && Closed(v, 0)
  }

  lemma ClosedUnit(v: string, i: nat, enc: Encoding)
    requires i < |v| && Readable(v, i, enc) && Closed(v, i) && !HexRefAt(v, i)
    ensures i + Unit(v, i, enc) <= |v| && Closed(v, i + Unit(v, i, enc))
  {
    var n, k := Unit(v, i, enc), i + 1;
    while k < i + n
      invariant i < k <= i + n <= |v| && Closed(v, k)
    {
      assert !HexRefAt(v, k);
      k := k + 1;
    }
  }

  lemma {:induction false} PutHasNoNul(v: string, i: nat)
    requires i <= |v| && Closed(v, i)
    ensures '\0' !in PutFrom(v, i) && Shown(PutFrom(v, i)) == PutFrom(v, i)
    decreases |v| - i
  {
    hide Shown, EscapeChar;
    ShownWhole(PutFrom(v, i));
    if i < |v| {
      if HexRefAt(v, i) {
        var j := PassEnd(v, i);
        PutHasNoNul(v, j + 1);
        PassedTail(v, i);
      } else {
        EscapeHasNoNul(v[i]);
        PutHasNoNul(v, i + 1);
      }
    }
  }

  lemma EscapeHasNoNul(c: char)
    ensures '\0' !in EscapeChar(c)
  {}

  // ---------- text read with white space kept ----------

  predicate EndsWith(a: string, b: string) {
    |b| <= |a| && a[|a| - |b|..] == b
  }

  lemma EndsBehind(x: string, a: string, b: string)
    ensures EndsWith(a, b) ==> EndsWith(x + a, b)
  {}

  lemma KeepHead(s: string, p: nat, tag: string, enc: Encoding)
    requires p < |s| && !Has(s, p, tag)
    ensures var c, r := Char(s, p, enc), ReadKeep(s, p, tag, enc);
            r.next.At? ==>
            && c.next.At? && c.next.pos <= |s| && r.next == ReadKeep(s, c.next.pos, tag, enc).next
            && r.text == c.text + ReadKeep(s, c.next.pos, tag, enc).text
  {
    hide Char, Has;
  }

  lemma WhiteChar(s: string, p: nat, tag: string, enc: Encoding)
    requires p < |s| && IsWhite(s[p]) && IsTextTag(tag)
    ensures Char(s, p, enc) == Chunk([s[p]], At(p + 1)) && !Has(s, p, tag)
  {
    if Has(s, p, tag) { HasChar(s, p, tag, 0); }
  }

  lemma {:induction false} GapRead(s: string, p: nat, q: nat, tag: string, enc: Encoding)
    requires AllWhite(s, p, q) && Has(s, q, tag) && IsTextTag(tag)
    ensures ReadKeep(s, p, tag, enc) == Chunk(s[p..q], At(q))
    decreases q - p
  {
    hide Has, Char, IsWhite, ReadKeep;
    KeepEnd(s, q, tag, enc);
    if p < q {
      WhiteChar(s, p, tag, enc);
      GapRead(s, p + 1, q, tag, enc);
      KeepStep(s, p, tag, enc, [s[p]], p + 1);
      assert s[p..q] == [s[p]] + s[p + 1..q];
    }
  }

  /** From `i` on the text is what it should be, or in front of `u` ends so. */
  predicate TailIs(text: string, v: string, i: nat, u: nat, gap: string)
    requires i <= |v| && u <= |v|
  {
    if i < u then EndsWith(text, v[u..] + gap) else text == v[i..] + gap
  }

  /** Reading a written text and white space behind it ends in front of the tag, if
      at all, with the white space at the end of the text and that behind it. */
  lemma {:induction false} KeptTail(
      s: string, p: nat, v: string, i: nat, u: nat, q: nat, tag: string, enc: Encoding)
    requires i <= |v| && u <= |v| && AllWhite(v, u, |v|) && Readable(v, i, enc) && Closed(v, i) && IsTextTag(tag)
    requires Has(s, p, PutFrom(v, i)) && AllWhite(s, p + |PutFrom(v, i)|, q) && Has(s, q, tag)
    ensures var r := ReadKeep(s, p, tag, enc);
            r.next.At? ==>
              r.next == At(q) && TailIs(r.text, v, i, u, s[p + |PutFrom(v, i)|..q])
    decreases |v| - i
  {
    hide PutFrom, Has, Char, ReadKeep, Readable, PassEnd, AllWhite, IsWhite, Closed, TailIs, NumericRef;
    PutEnd(v);
    HasFits(s, p, PutFrom(v, i));
    WhiteFits(s, p + |PutFrom(v, i)|, q);
    var r, gap := ReadKeep(s, p, tag, enc), s[p + |PutFrom(v, i)|..q];
    if i == |v| {
      GapRead(s, p, q, tag, enc);
      TailEnds(v, u, gap);
    } else if HexRefAt(v, i) {
      KeptRef(s, p, v, i, u, enc);
      CopiedRef(s, p, v, i, enc);
      KeepHead(s, p, tag, enc);
      var j := PassEnd(v, i);
      if r.next.At? {
        var k := p + j - i + 1;
        KeptTail(s, k, v, j + 1, u, q, tag, enc);
        PieceAndTail(Char(s, p, enc).text, ReadKeep(s, k, tag, enc).text, v, i, j + 1, u, gap);
      }
    } else {
      var n, w := ReadUnit(s, p, v, i, enc);
      KeepStep(s, p, tag, enc, v[i..i + n], p + w);
      ClosedUnit(v, i, enc);
      KeptTail(s, p + w, v, i + n, u, q, tag, enc);
      UnitAndTail(v, i, u, enc, ReadKeep(s, p + w, tag, enc).text, gap);
    }
  }

  lemma TailEnds(v: string, u: nat, gap: string)
    requires u <= |v|
    ensures TailIs(gap, v, |v|, u, gap)
  {
    assert v[|v|..] + gap == gap;
  }

  /** A reference with its ';' lies in front of the white space at the end. */
  lemma KeptRef(s: string, p: nat, v: string, i: nat, u: nat, enc: Encoding)
    requires i < |v| && u <= |v| && AllWhite(v, u, |v|) && Readable(v, i, enc) && Closed(v, i) && HexRefAt(v, i)
    requires Has(s, p, PutFrom(v, i))
    ensures var j := PassEnd(v, i);
            && i < j < u && Closed(v, j + 1) && Readable(v, j + 1, enc) && p + 2 < |s| && s[p + 1] == '#'
            && Has(s, p + j - i + 1, PutFrom(v, j + 1)) && |PutFrom(v, i)| == j - i + 1 + |PutFrom(v, j + 1)|
            && (NumericRef(s, p, enc).next.At? ==> NumericRef(s, p, enc).next.pos == p + j - i + 1)
  {
    hide PutFrom, Has, NumericRef, PassEnd;
    ClosedRef(s, p, v, i, enc);
    PassEndStart(v, i);
    assert !IsWhite(v[PassEnd(v, i)]);
  }

  /** One unit in front of what ends as it should. */
  lemma UnitAndTail(v: string, i: nat, u: nat, enc: Encoding, rest: string, gap: string)
    requires i < |v| && u <= |v| && AllWhite(v, u, |v|) && Readable(v, i, enc)
    requires i + Unit(v, i, enc) <= |v|
    ensures var n := Unit(v, i, enc); TailIs(rest, v, i + n, u, gap) ==> TailIs(v[i..i + n] + rest, v, i, u, gap)
  {
    var n := Unit(v, i, enc);
    if u <= i {
      assert n == 1 by { assert IsWhite(v[i]); }
      assert v[i..] + gap == v[i..i + 1] + (v[i + 1..] + gap);
    } else {
      if u < |v| { assert IsWhite(v[u]); }
      assert forall k :: i < k < i + n ==> !IsWhite(v[k]);
      PieceAndTail(v[i..i + n], rest, v, i, i + n, u, gap);
    }
  }

  lemma PieceAndTail(piece: string, rest: string, v: string, i: nat, j: nat, u: nat, gap: string)
    requires i < u && j <= u <= |v|
    ensures TailIs(rest, v, j, u, gap) ==> TailIs(piece + rest, v, i, u, gap)
  {
    EndsBehind(piece, rest, v[u..] + gap);
    EndsBehind("", v[u..] + gap, v[u..] + gap);
  }

  /** Where the white space at the end of the text starts. */
  function WhiteFrom(v: string, n: nat): (u: nat)
    requires n <= |v| && AllWhite(v, n, |v|)
    ensures u <= n && AllWhite(v, u, |v|) && (u > 0 ==> !IsWhite(v[u - 1]))
  {
    if n > 0 && IsWhite(v[n - 1]) then WhiteFrom(v, n - 1) else n
  }

  lemma NoLongerTail(v: string, u: nat, gap: string)
    requires u <= |v| && AllWhite(v, u, |v|) && (u > 0 ==> !IsWhite(v[u - 1])) && AllWhite(gap, 0, |gap|)
    ensures TailIs(v, v, 0, u, gap) ==> gap == ""
  {
    var t := v[u..] + gap;
    assert forall k :: 0 <= k < |t| ==> IsWhite(t[k]);
    if EndsWith(v, t) {
      forall k | |v| - |t| <= k < |v| ensures IsWhite(v[k]) {
        assert v[|v| - |t|..][k - (|v| - |t|)] == v[k];
      }
    }
  }

  /** A text or a value comes back only when nothing is written behind it in front of
      its tag, and when it holds no "&#x". */
  lemma KeptBack(s: string, p: nat, v: string, q: nat, tag: string, enc: Encoding)
    requires Plain(v, enc) && IsTextTag(tag)
    requires Has(s, p, Put(v)) && AllWhite(s, p + |Put(v)|, q) && Has(s, q, tag)
    ensures p <= |s|
    ensures var r := ReadKeep(s, p, tag, enc);
            r.next.At? && r.text == v ==> q == p + |Put(v)| && NoHexRef(v, 0)
  {
    hide PutFrom, Has, ReadKeep, Readable, Closed, TailIs, NoHexRef, IsWhite;
    var end, u := p + |Put(v)|, WhiteFrom(v, |v|);
    HasFits(s, p, Put(v));
    KeptTail(s, p, v, 0, u, q, tag, enc);
    GapIsWhite(s, end, q);
    NoLongerTail(v, u, s[end..q]);
    if q == end { RefsShrink(s, p, v, 0, tag, enc); }
  }

  lemma GapIsWhite(s: string, p: nat, q: nat)
    requires AllWhite(s, p, q)
    ensures p <= q <= |s| && AllWhite(s[p..q], 0, q - p)
  {}

  // ---------- text read with white space condensed ----------

  lemma {:induction false} ClosedFront(v: string, i: nat, enc: Encoding)
    requires i <= |v| && Closed(v, i)
    ensures Closed(v, Front(v, i, enc))
    decreases |v| - i
  {
    if i < |v| && v[i] == ' ' {
      ClosedFront(v, i + 1, enc);
    } else if enc.Utf8? && IsBom(v, i) {
      assert Closed(v, i + 1) && Closed(v, i + 2);
      ClosedFront(v, i + 3, enc);
    }
  }

  /** Reading ends in front of the tag, if at all. */
  lemma {:induction false} CondensedEnds(
      s: string, p: nat, v: string, i: nat, q: nat, enc: Encoding, gap: bool)
    requires i <= |v| && Readable(v, i, enc) && Closed(v, i)
    requires Has(s, p, PutFrom(v, i)) && AllWhite(s, p + |PutFrom(v, i)|, q) && Has(s, q, "<")
    ensures p <= |s|
    ensures var r := ReadCondensed(s, p, "<", enc, gap); r.next.At? ==> r.next == At(q)
    decreases |v| - i
  {
    hide PutFrom, Has, Char, AllWhite, ReadCondensed, IsWhite, Readable, PassEnd, Closed;
    PutEnd(v);
    HasFits(s, p, PutFrom(v, i));
    if i == |v| {
      TrailingWhite(s, p, q, "<", enc, gap);
    } else if HexRefAt(v, i) {
      ClosedHere(v, i);
      var k := ClosedShrinks(s, p, v, i, enc, gap);
      CondensedEnds(s, k, v, PassEnd(v, i) + 1, q, enc, false);
    } else if v[i] == ' ' {
      SpaceRead(s, p, v, i, enc, gap);
      SpaceUnit(v, i, enc);
      ClosedHere(v, i);
      CondensedEnds(s, p + 1, v, i + 1, q, enc, true);
    } else {
      FirstWritten(s, p, v, i, enc);
      var n, w := ReadUnit(s, p, v, i, enc);
      assert !Has(s, p, "<");
      CondenseUnit(s, p, "<", enc, gap, v[i..i + n], p + w);
      ClosedUnit(v, i, enc);
      CondensedEnds(s, p + w, v, i + n, q, enc, false);
    }
  }

  lemma ClosedHere(v: string, i: nat)
    requires i < |v| && Closed(v, i)
    ensures if HexRefAt(v, i) then v[PassEnd(v, i)] == ';' && Closed(v, PassEnd(v, i) + 1) else Closed(v, i + 1)
  {}

  /** A text comes back only when it holds no "&#x", is tidy and does not begin with
      what is skipped as a byte order mark. */
  lemma CondensedBack(s: string, p: nat, v: string, q: nat, enc: Encoding)
    requires Plain(v, enc) && Has(s, p, Put(v)) && AllWhite(s, p + |Put(v)|, q) && Has(s, q, "<")
    ensures p <= |s|
    ensures var r := ReadCondensed(s, Skip(s, p, enc), "<", enc, false);
            r.next.At? && r.text == v ==> NoHexRef(v, 0) && Tidy(v) && !(enc.Utf8? && IsBom(v, 0))
  {
    hide PutFrom, Has, ReadCondensed, Squeeze, NoHexRef, IsWhite, Skip, Readable, HexRefAt, AllWhite, Front, Tidy;
    hide Closed;
    var j := Front(v, 0, enc);
    var k := SkipInto(s, p, v, 0, q, enc);
    FrontStays(v, enc);
    ClosedFront(v, 0, enc);
    CondensedEnds(s, k, v, j, q, enc, false);
    if NoHexRef(v, 0) {
      NoHexRefAt(v, 0, j);
      PutThenCondense(s, k, v, j, q, enc, false);
      SqueezeBound(v, j, false);
      if j == 0 { TidyComesBack(v); }
    } else {
      FrontKeepsRefs(v, 0, enc);
      CondensedShrinks(s, k, v, j, q, enc, false);
    }
  }

  // ---------- attributes ----------

  predicate PlainAttrs(attrs: seq<Attr>, enc: Encoding) {
    forall i :: 0 <= i < |attrs| ==> Plain(attrs[i].value, enc)
  }

  lemma ValueBack(s: string, p: nat, v: string, enc: Encoding)
    requires Plain(v, enc) && Has(s, p, QuoteFor(v) + Put(v) + QuoteFor(v))
    ensures p < |s| && (s[p] == '"' || s[p] == '\'')
    ensures AttrValue(s, p, enc).Ok? && AttrValue(s, p, enc).value == v ==> NoHexRef(v, 0)
  {
    hide PutFrom, Has, ReadKeep, NoHexRef, Readable, Closed;
    var quote := QuoteFor(v);
    HasSplit(s, p, quote + Put(v), quote);
    HasSplit(s, p, quote, Put(v));
    HasFits(s, p, quote);
    HasChar(s, p, quote, 0);
    var end := p + 1 + |Put(v)|;
    NothingWhite(s, end, quote);
    KeptBack(s, p + 1, v, end, quote, enc);
    assert [s[p]] == quote;
  }

  lemma NothingWhite(s: string, q: nat, tag: string)
    requires Has(s, q, tag)
    ensures AllWhite(s, q, q)
  {}

  lemma AttrBack(s: string, p: nat, a: Attr, m: Mode)
    requires IsName(a.name, m.enc) && Plain(a.value, m.enc) && Has(s, p, PrintAttr(a))
    ensures p < |s| && NameStart(s[p]) && Skip(s, p, m.enc) == p
    ensures ParseAttr(s, p, m.enc).Ok? && ParseAttr(s, p, m.enc).value == a ==> ValidAttr(a, m)
  {
    hide PutFrom, Has, NameEnd, AttrValue, NoHexRef, Readable, Closed, Shown, PrintAttr;
    var value := QuoteFor(a.value) + Put(a.value) + QuoteFor(a.value);
    PlainAttr(a, m.enc);
    var eq := p + |a.name|;
    HasSplit(s, p, a.name + "=", value);
    HasSplit(s, p, a.name, "=");
    HasChar(s, eq, "=", 0);
    HasFits(s, eq, "=");
    NameAt(s, p, a.name, m.enc);
    NameNotSkipped(s, p, a.name, m.enc);
    ValueBack(s, eq + 1, a.value, m.enc);
    assert Skip(s, eq, m.enc) == eq && Skip(s, eq + 1, m.enc) == eq + 1;
  }

  lemma PlainAttr(a: Attr, enc: Encoding)
    requires IsName(a.name, enc) && Plain(a.value, enc)
    ensures PrintAttr(a) == a.name + "=" + (QuoteFor(a.value) + Put(a.value) + QuoteFor(a.value))
  {
    hide PutFrom, Readable, Shown, Closed;
    PutName(a.name, 0);
    ShownName(a.name, enc);
    PutHasNoNul(a.value, 0);
  }

  /** One turn of the attribute loop of an element that is read. */
  lemma NextAttr(s: string, p: nat, m: Mode, name: string, read: seq<Attr>)
    requires p < |s| && NameStart(s[p]) && Skip(s, p, m.enc) == p
    requires IsName(name, m.enc) && ShapedAttrs(read, m.enc) && ParseRest(s, p, m, name, read).Ok?
    ensures var r, a := ParseRest(s, p, m, name, read), ParseAttr(s, p, m.enc);
            && a.Ok? && a.next < |s| && r == ParseRest(s, a.next, m, name, read + [a.value])
            && r.value.Element? && read + [a.value] <= r.value.attrs
  {
    hide ParseAttr, ParseValue, ShapedAttrs, HasAttr, IsName;
    var a := ParseAttr(s, p, m.enc);
    if a.Ok? && a.next < |s| && !HasAttr(read, a.value.name) {
      AttrShaped(s, p, m.enc);
      OneMoreAttr(read, a.value, m.enc);
      RestShaped(s, a.next, m, name, read + [a.value]);
    }
  }

  lemma ShapedNext(read: seq<Attr>, attrs: seq<Attr>, enc: Encoding)
    requires attrs != [] && ShapedAttrs(read + attrs, enc)
    ensures ShapedAttrs(read, enc) && IsName(attrs[0].name, enc) && !HasAttr(read, attrs[0].name)
    ensures read + attrs == (read + [attrs[0]]) + attrs[1..]
  {
    hide HasAttr, IsName;
    var all := read + attrs;
    assert all[|read|] == attrs[0] && all[..|read|] == read;
    forall i | 0 <= i < |read| ensures IsName(read[i].name, enc) && !HasAttr(read[..i], read[i].name) {
      assert all[i] == read[i] && all[..i] == read[..i];
    }
  }

  lemma OneMoreValid(read: seq<Attr>, a: Attr, m: Mode)
    requires ValidAttrs(read, m) && ValidAttr(a, m) && !HasAttr(read, a.name)
    ensures ValidAttrs(read + [a], m)
  {
    hide HasAttr, ValidAttr;
    var all := read + [a];
    forall i | 0 <= i < |all| ensures ValidAttr(all[i], m) && !HasAttr(all[..i], all[i].name) {
      assert all[..i] == read[..i];
    }
  }

  /** Attributes that are read as they were written have values without "&#x". */
  lemma {:induction false} AttrsBack(s: string, p: nat, attrs: seq<Attr>, read: seq<Attr>, name: string, m: Mode)
    requires Has(s, p, PrintAttrs(attrs)) && p + |PrintAttrs(attrs)| < |s| && IsName(name, m.enc)
    requires ShapedAttrs(read + attrs, m.enc) && ValidAttrs(read, m) && PlainAttrs(attrs, m.enc)
    requires var r := ParseRest(s, p, m, name, read);
             r.Ok? && r.value.Element? && r.value.attrs == read + attrs
    ensures ValidAttrs(read + attrs, m)
    decreases attrs
  {
    hide Has, PrintAttr, ParseAttr, ParseValue, ParseRest, ValidAttr, IsName, Plain, ShapedAttrs, ValidAttrs, HasAttr;
    if attrs == [] {
      assert read + attrs == read;
    } else {
      var a, rest := attrs[0], PrintAttrs(attrs[1..]);
      HasSplit(s, p, " " + PrintAttr(a), rest);
      HasSplit(s, p, " ", PrintAttr(a));
      HasChar(s, p, " ", 0);
      ShapedNext(read, attrs, m.enc);
      AttrBack(s, p + 1, a, m);
      PastBlank(s, p, m, name, read);
      NextAttr(s, p + 1, m, name, read);
      assert (read + attrs)[|read|] == a;
      AttrAt(s, p + 1, a, m);
      OneMoreValid(read, a, m);
      AttrsBack(s, p + 1 + |PrintAttr(a)|, attrs[1..], read + [a], name, m);
    }
  }

  lemma PastBlank(s: string, p: nat, m: Mode, name: string, attrs: seq<Attr>)
    requires p + 1 < |s| && s[p] == ' ' && Skip(s, p + 1, m.enc) == p + 1
    ensures ParseRest(s, p, m, name, attrs) == ParseRest(s, p + 1, m, name, attrs)
  {
    hide ParseAttr, ParseValue, HasAttr;
  }

  // ---------- elements ----------

  predicate PlainTree(t: Tree, enc: Encoding)
    decreases t
  {
    match t
    case TextNode(text, cdata) => !cdata && Plain(text, enc)
    case Element(_, attrs, kids) => PlainAttrs(attrs, enc) && PlainKids(kids, enc)
  }

  predicate PlainKids(kids: seq<Tree>, enc: Encoding)
    decreases kids
  {
    kids == [] || (PlainTree(kids[0], enc) && PlainKids(kids[1..], enc))
  }

  /** The printed children start at `from`, the parser stands at `p`, and "</" stands
      at `end`. `lone` says that they are one text with nothing behind it; behind any
      others white space is written. */
  predicate KidsPrinted(
      s: string, from: nat, p: nat, kids: seq<Tree>, depth: nat, end: nat, m: Mode, lone: bool) {
    && Has(s, from, PrintKids(kids, depth))
    && AllWhite(s, from + |PrintKids(kids, depth)|, end) && Has(s, end, "</")
    && p <= |s| && from <= p <= (if kids == [] then end else from + Lead(kids, depth))
    && ShapedKids(kids, m.enc) && Apart(kids) && PlainKids(kids, m.enc)
    && if lone then |kids| == 1 && kids[0].TextNode? && end == from + |PrintKids(kids, depth)|
       else kids != [] ==> end > from + |PrintKids(kids, depth)|
  }

  predicate AllElements(kids: seq<Tree>) {
    forall i :: 0 <= i < |kids| ==> kids[i].Element?
  }

  lemma PlainText(t: Tree, depth: nat, enc: Encoding)
    requires t.TextNode? && PlainTree(t, enc)
    ensures Plain(t.text, enc) && Print(t, depth) == Put(t.text)
  {
    hide PutFrom, Shown;
    PutHasNoNul(t.text, 0);
  }

  lemma PrintedElement(s: string, from: nat, p: nat, kids: seq<Tree>, depth: nat, end: nat, m: Mode, lone: bool)
    requires KidsPrinted(s, from, p, kids, depth, end, m, lone) && kids != [] && kids[0].Element?
    ensures Shaped(kids[0], m.enc) && PlainTree(kids[0], m.enc) && !lone
    ensures var b, body := from + Lead(kids, depth), PrintBody(kids[0], depth);
            && AllWhite(s, p, b) && Has(s, b, body) && Has(s, b, "<")
            && KidsPrinted(s, b + |body|, b + |body|, kids[1..], depth, end, m, false)
  {
    hide PrintBody, Shaped, PlainTree, Has, AllWhite, PrintKids, Lead, Apart;
    LeadAt(s, from, kids, depth);
    ApartRest(kids);
    var b, body := from + Lead(kids, depth), PrintBody(kids[0], depth);
    WhiteSub(s, from, p, b);
    HasFits(s, b, body);
    HasFits(s, b + |body|, PrintKids(kids[1..], depth));
    WhiteFits(s, b + |body| + |PrintKids(kids[1..], depth)|, end);
    NoKidsText(depth);
    ElementStarts(s, b, kids[0], depth);
  }

  lemma ApartRest(kids: seq<Tree>)
    requires kids != [] && Apart(kids)
    ensures Apart(kids[1..]) && (kids[0].TextNode? && kids[1..] != [] ==> kids[1..][0].Element?)
  {
    var rest := kids[1..];
    if rest != [] { assert rest[0] == kids[0 + 1]; }
    forall i | 0 <= i < |rest| - 1 ensures rest[i].Element? || rest[i + 1].Element? {
      assert kids[i + 1].Element? || kids[(i + 1) + 1].Element?;
    }
  }

  lemma PrintedText(s: string, from: nat, kids: seq<Tree>, depth: nat, end: nat, m: Mode, lone: bool)
    requires KidsPrinted(s, from, from, kids, depth, end, m, lone) && kids != [] && kids[0].TextNode?
    ensures Shaped(kids[0], m.enc) && !kids[0].cdata && Plain(kids[0].text, m.enc) && Has(s, from, Put(kids[0].text))
    ensures var next, rest := from + |Put(kids[0].text)|, kids[1..];
            var stop := Stop(next, rest, depth, end);
            && AllWhite(s, next, stop) && Has(s, stop, "<") && (lone <==> next == stop)
            && (rest == [] ==> Has(s, stop, "</"))
            && (rest != [] ==> rest[0].Element? && Has(s, stop, PrintBody(rest[0], depth)))
            && KidsPrinted(s, next, stop, rest, depth, end, m, false)
  {
    hide PrintBody, Shaped, Plain, PutFrom, Has, PrintKids, AllWhite, Apart;
    var v, rest := kids[0].text, kids[1..];
    var next := from + |Put(v)|;
    PlainText(kids[0], depth, m.enc);
    PrintFirst(kids, depth);
    HasSplit(s, from, Put(v), PrintKids(rest, depth));
    ApartRest(kids);
    NoKidsText(depth);
    WhiteFits(s, next + |PrintKids(rest, depth)|, end);
    if rest == [] {
      assert "</" == "<" + "/";
      HasSplit(s, end, "<", "/");
    } else {
      LeadAt(s, next, rest, depth);
      ElementStarts(s, next + Lead(rest, depth), rest[0], depth);
      HasFits(s, next + Lead(rest, depth), "<");
    }
  }

  lemma PrintFirst(kids: seq<Tree>, depth: nat)
    requires kids != [] && kids[0].TextNode?
    ensures PrintKids(kids, depth) == Print(kids[0], depth) + PrintKids(kids[1..], depth)
  {
    hide Print;
    assert "" + Print(kids[0], depth) == Print(kids[0], depth);
  }

  /** Where a text is the first child, it was read as that text. */
  lemma FirstText(s: string, p: nat, v: string, m: Mode)
    requires p <= |s| && ParseValue(s, p, m).Ok?
    requires var kids := ParseValue(s, p, m).value; kids != [] && kids[0] == TextNode(v, false)
    ensures p < |s| && Skip(s, p, m.enc) < |s| && s[Skip(s, p, m.enc)] != '<'
    ensures var c := Text(s, if m.condense then Skip(s, p, m.enc) else p, m.condense, "<", m.enc);
            c.next.At? && c.text == v
  {
    hide ParseElement, Text, Has, OpensElement, IsBlank, Shaped, Apart;
    var q := Skip(s, p, m.enc);
    if p < |s| && q < |s| {
      if s[q] != '<' {
        var c := Text(s, if m.condense then q else p, m.condense, "<", m.enc);
        SkipKeepsTag(s, p, m.enc);
        TextMoves(s, p, q, m);
        TextStops(s, if m.condense then q else p, m.condense, m.enc);
        if c.next.At? { ValueShaped(s, c.next.pos - 1, m); }
      } else if !Has(s, q, "</") && OpensElement(s, q) {
        ElementShaped(s, q, m);
      }
    }
  }

  /** A text that is read as the text it was written for. */
  lemma TextBack(s: string, p: nat, v: string, stop: nat, m: Mode)
    requires Plain(v, m.enc) && !IsBlank(v) && Has(s, p, Put(v)) && AllWhite(s, p + |Put(v)|, stop) && Has(s, stop, "<")
    requires p <= |s| && ParseValue(s, p, m).Ok?
    requires var kids := ParseValue(s, p, m).value; kids != [] && kids[0] == TextNode(v, false)
    ensures ValidText(v, m) && (!m.condense ==> stop == p + |Put(v)|)
  {
    hide PutFrom, Has, ReadKeep, ReadCondensed, AllWhite, ParseValue, NoHexRef, Closed, Tidy, IsBlank, Front, Skip;
    FirstText(s, p, v, m);
    if m.condense {
      SkipTwice(s, p, m.enc);
      CondensedBack(s, p, v, stop, m.enc);
    } else {
      KeptBack(s, p, v, stop, "<", m.enc);
      NotAllSkipped(s, p, v, stop, m.enc);
    }
  }

  lemma NotAllSkipped(s: string, p: nat, v: string, stop: nat, enc: Encoding)
    requires Readable(v, 0, enc) && Has(s, p, Put(v)) && AllWhite(s, p + |Put(v)|, stop) && Has(s, stop, "<")
    requires p <= |s| && Skip(s, p, enc) < |s| && s[Skip(s, p, enc)] != '<'
    ensures Front(v, 0, enc) < |v|
  {
    hide PutFrom, Has, Skip, Front, Readable;
    PutEnd(v);
    SkipStops(s, p, enc);
    HasChar(s, stop, "<", 0);
    var k := SkipInto(s, p, v, 0, stop, enc);
    assert IsWhite(s[k]) || k >= stop || Front(v, 0, enc) < |v|;
  }

  // ---------- the law for elements ----------

  /** An element at the start of the children that are read. */
  lemma FirstElement(s: string, p: nat, b: nat, t: Tree, depth: nat, m: Mode)
    requires t.Element? && IsName(t.name, m.enc) && AllWhite(s, p, b) && Has(s, b, PrintBody(t, depth))
    requires p <= |s| && ParseValue(s, p, m).Ok?
    ensures p <= b < |s| && ParseElement(s, b, m).Ok? && ParseElement(s, b, m).value.Element?
    ensures var e := ParseElement(s, b, m);
            && ParseValue(s, e.next, m).Ok?
            && ParseValue(s, p, m).value == [e.value] + ParseValue(s, e.next, m).value
  {
    hide ParseElement, PrintBody, Has, AllWhite, Skip, IsName, Shaped;
    WhiteFits(s, p, b);
    ElementOpens(s, b, t, depth, m);
    SkipWhite(s, p, b, m.enc);
    ElementShaped(s, b, m);
  }

  /** What a printed element begins with. */
  lemma ElementOpens(s: string, b: nat, t: Tree, depth: nat, m: Mode)
    requires t.Element? && IsName(t.name, m.enc) && Has(s, b, PrintBody(t, depth))
    ensures b + 1 < |s| && s[b] == '<' && NameStart(s[b + 1]) && !Has(s, b, "</")
  {
    hide PrintAttrs, PrintContent, Has;
    var rest := PrintAttrs(t.attrs) + PrintContent(t, depth);
    ShownName(t.name, m.enc);
    assert PrintBody(t, depth) == "<" + (t.name + rest);
    HasSplit(s, b, "<", t.name + rest);
    HasSplit(s, b + 1, t.name, rest);
    HasChar(s, b, "<", 0);
    HasChar(s, b + 1, t.name, 0);
    HasFits(s, b, PrintBody(t, depth));
    HasOther(s, b, "<" + (t.name + rest), "</", 1);
  }

  /** Children that are read as they were written. */
  lemma {:induction false} KidsBack(
      s: string, from: nat, p: nat, kids: seq<Tree>, depth: nat, end: nat, m: Mode, lone: bool)
    requires KidsPrinted(s, from, p, kids, depth, end, m, lone)
    requires ParseValue(s, p, m).Ok? && ParseValue(s, p, m).value == kids
    ensures ValidKids(kids, m) && (m.condense || lone || AllElements(kids))
    decreases kids
  {
    hide KidsPrinted, ParseValue, PrintBody, Has, AllWhite, ValidTree, ValidText, ParseElement, Plain, IsName, IsBlank;
    if kids != [] {
      var rest := kids[1..];
      assert [kids[0]] + rest == kids;
      if kids[0].Element? {
        var b := from + Lead(kids, depth);
        var next := b + |PrintBody(kids[0], depth)|;
        PrintedElement(s, from, p, kids, depth, end, m, lone);
        ShapedName(kids[0], m.enc);
        FirstElement(s, p, b, kids[0], depth, m);
        ElementBack(s, b, kids[0], depth, m);
        ElementAt(s, b, kids[0], depth, m);
        KidsBack(s, next, next, rest, depth, end, m, false);
      } else {
        FromIs(s, from, p, kids, depth, end, m, lone);
        PrintedText(s, from, kids, depth, end, m, lone);
        var next := from + |Put(kids[0].text)|;
        var stop := Stop(next, rest, depth, end);
        TextBack(s, from, kids[0].text, stop, m);
        TextIsValid(kids[0], m);
        if m.condense {
          CondensedKid(s, from, kids[0].text, stop, m);
          KidsBack(s, next, stop, rest, depth, end, m, false);
        }
      }
    }
  }

  lemma ShapedName(t: Tree, enc: Encoding)
    requires t.Element? && Shaped(t, enc)
    ensures IsName(t.name, enc) && ShapedAttrs(t.attrs, enc) && ShapedKids(t.kids, enc) && Apart(t.kids)
  {}

  lemma FromIs(s: string, from: nat, p: nat, kids: seq<Tree>, depth: nat, end: nat, m: Mode, lone: bool)
    requires KidsPrinted(s, from, p, kids, depth, end, m, lone) && kids != [] && kids[0].TextNode?
    ensures p == from && !IsBlank(kids[0].text) && !kids[0].cdata && (lone ==> kids[1..] == [])
  {
    assert Shaped(kids[0], m.enc);
  }

  lemma TextIsValid(t: Tree, m: Mode)
    requires t.TextNode? && !t.cdata && ValidText(t.text, m)
    ensures ValidTree(t, m)
  {}

  /** '>' stands in front of the children. */
  lemma PrintedKids(s: string, p: nat, t: Tree, depth: nat, m: Mode, d: nat) returns (end: nat)
    requires t.Element? && t.kids != [] && Shaped(t, m.enc) && PlainTree(t, m.enc)
    requires p < |s| && Has(s, p, PrintContent(t, depth))
    requires d == if |t.kids| == 1 && t.kids[0].TextNode? then 0 else depth + 1
    ensures s[p] == '>' && KidsPrinted(s, p + 1, p + 1, t.kids, d, end, m, d == 0)
  {
    hide PrintBody, Shaped, PlainTree, Has, PrintKids, Apart, PrintContent, AllWhite, IsName, PlainAttrs;
    ShapedName(t, m.enc);
    KidsArePlain(t, m.enc);
    var tag := EndTag(t.name);
    var printed, gap := PrintKids(t.kids, d), if d == 0 then "" else "\n" + Indent(depth);
    ContentParts(t, depth, m.enc, d);
    LeadIsWhite(depth);
    end := p + 1 + |printed| + |gap|;
    HasSplit(s, p, ">" + (printed + gap), tag);
    HasSplit(s, p, ">", printed + gap);
    HasSplit(s, p + 1, printed, gap);
    HasChar(s, p, ">", 0);
    HasFits(s, p + 1, printed + gap);
    GapAt(s, p + 1 + |printed|, gap);
    assert tag == "</" + (t.name + ">");
    HasSplit(s, end, "</", t.name + ">");
  }

  lemma GapAt(s: string, p: nat, gap: string)
    requires Has(s, p, gap) && (gap == "" || AllWhite(gap, 0, |gap|))
    ensures AllWhite(s, p, p + |gap|)
  {
    if gap != "" { WhiteAt(s, p, gap); }
  }

  lemma ContentParts(t: Tree, depth: nat, enc: Encoding, d: nat)
    requires t.Element? && t.kids != [] && IsName(t.name, enc) && PlainKids(t.kids, enc)
    requires d == if |t.kids| == 1 && t.kids[0].TextNode? then 0 else depth + 1
    ensures PrintContent(t, depth) ==
      ">" + (PrintKids(t.kids, d) + (if d == 0 then "" else "\n" + Indent(depth))) + EndTag(t.name)
  {
    hide Print, PrintKids, PlainTree, IsName;
    ShownName(t.name, enc);
    if d == 0 {
      PrintFirst(t.kids, d);
      NoKidsText(d);
      PlainText(t.kids[0], d, enc);
      PlainText(t.kids[0], depth + 1, enc);
      assert t.kids[1..] == [];
    }
  }

  lemma KidsArePlain(t: Tree, enc: Encoding)
    requires t.Element? && PlainTree(t, enc)
    ensures PlainAttrs(t.attrs, enc) && PlainKids(t.kids, enc)
    ensures t.kids != [] ==> PlainTree(t.kids[0], enc)
  {}

  /** An element that is read as it was written is valid. */
  lemma {:induction false} ElementBack(s: string, p: nat, t: Tree, depth: nat, m: Mode)
    requires t.Element? && Shaped(t, m.enc) && PlainTree(t, m.enc) && Has(s, p, PrintBody(t, depth))
    requires p <= |s| && ParseElement(s, p, m).Ok? && ParseElement(s, p, m).value == t
    ensures ValidTree(t, m)
    decreases t, 1
  {
    hide ParseElement, ParseRest, PrintAttrs, PrintContent, PrintBody, Has, Shaped, PlainTree, ValidTree, IsName;
    hide ShapedAttrs, PlainAttrs, ValidAttrs, ShapedKids, PlainKids;
    var n := p + 1 + |t.name|;
    ShapedName(t, m.enc);
    KidsArePlain(t, m.enc);
    ElementParts(s, p, t, depth, m);
    assert [] + t.attrs == t.attrs;
    NoAttrs(m);
    AttrsBack(s, n, t.attrs, [], t.name, m);
    AttrsAt(s, n, t.attrs, [], t.name, m);
    ContentBack(s, n + |PrintAttrs(t.attrs)|, t, depth, m);
  }

  lemma NoAttrs(m: Mode)
    ensures ValidAttrs([], m)
  {}

  lemma {:induction false} ContentBack(s: string, p: nat, t: Tree, depth: nat, m: Mode)
    requires t.Element? && Shaped(t, m.enc) && PlainTree(t, m.enc) && ValidAttrs(t.attrs, m)
    requires p < |s| && Has(s, p, PrintContent(t, depth))
    requires var r := ParseRest(s, p, m, t.name, t.attrs); r.Ok? && r.value == t
    ensures ValidTree(t, m)
    decreases t, 0
  {
    hide ParseValue, ParseAttr, PrintKids, Has, KidsPrinted, Shaped, PlainTree, IsName, PrintContent;
    ShapedName(t, m.enc);
    if t.kids != [] {
      var d := if |t.kids| == 1 && t.kids[0].TextNode? then 0 else depth + 1;
      var end := PrintedKids(s, p, t, depth, m, d);
      assert Skip(s, p, m.enc) == p;
      KidsBack(s, p + 1, p + 1, t.kids, d, end, m, d == 0);
    }
  }

  // ---------- the law for documents ----------

  predicate PlainRoots(roots: seq<Tree>, enc: Encoding) {
    forall i :: 0 <= i < |roots| ==> PlainTree(roots[i], enc)
  }

  lemma {:induction false} RootsBack(s: string, p: nat, roots: seq<Tree>, m: Mode)
    requires ShapedRoots(roots, m.enc) && PlainRoots(roots, m.enc)
    requires Has(s, p, PrintDocument(roots)) && p + |PrintDocument(roots)| == |s|
    requires ParseRoots(s, p, m).Ok? && ParseRoots(s, p, m).value == roots
    ensures ValidRoots(roots, m)
    decreases roots
  {
    hide PrintBody, ParseElement, Has, ValidTree, Shaped, PlainTree, IsName;
    if roots != [] {
      var body, rest := PrintBody(roots[0], 0), PrintDocument(roots[1..]);
      assert PrintDocument(roots) == body + "\n" + rest;
      HasSplit(s, p, body + "\n", rest);
      HasSplit(s, p, body, "\n");
      HasChar(s, p + |body|, "\n", 0);
      ShapedName(roots[0], m.enc);
      RootStarts(s, p, roots[0], 0, m);
      assert roots[0] == ParseElement(s, p, m).value;
      ElementBack(s, p, roots[0], 0, m);
      ElementAt(s, p, roots[0], 0, m);
      SkipNewline(s, p + |body|, m.enc);
      RootsBack(s, p + |body| + 1, roots[1..], m);
    }
  }

  /** Exactly the valid documents survive: when every string is well formed and every
      "&#x" in it has its ';', the text that Print writes is parsed back to the
      document, to its end, if and only if names are names and those of attributes
      differ, no value holds "&#x", and no text does, is blank, stands next to
      another, or is changed by the way white space is read. */
  lemma SurvivesExactly(roots: seq<Tree>, m: Mode)
    requires PlainRoots(roots, m.enc)
    ensures ParseDocument(PrintDocument(roots), m) == Ok(roots, |PrintDocument(roots)|)
        <==> roots != [] && ValidRoots(roots, m)
  {
    hide PrintDocument, ParseRoots, PlainRoots, ValidRoots, ShapedRoots;
    var s := PrintDocument(roots);
    if roots != [] && ValidRoots(roots, m) {
      DocumentRoundTrip(roots, m);
    } else if ParseDocument(s, m).Ok? && ParseDocument(s, m).value == roots {
      assert s[0..|s|] == s;
      RootsShaped(s, 0, m);
      RootsBack(s, 0, roots, m);
    }
  }

  // ---------- a reference that does not end in its own string ----------

  const OPEN: Attr := Attr("b", "&#x")
  const TAKEN: Attr := Attr("c", "x26;#x")
  const OPEN_TEXT: string := "<a b=\"&#x\" c=\"x26;#x\" />\n"

  /** The value "&#x" comes back, but what makes it so is the next attribute, which is
      lost. */
  lemma OpenReference(m: Mode)
    ensures PrintDocument([Element("a", [OPEN, TAKEN], [])]) == OPEN_TEXT
    ensures ParseDocument(OPEN_TEXT, m) == Ok([Element("a", [OPEN], [])], |OPEN_TEXT|)
  {
    hide PrintDocument, ParseDocument;
    OpenPrinted();
    OpenParsed(OPEN_TEXT, m);
  }

  lemma {:induction false} PutCopies(v: string, i: nat)
    requires i <= |v| && forall k :: 0 <= k < |v| ==> EscapeChar(v[k]) == [v[k]]
    ensures PutFrom(v, i) == v[i..]
    decreases |v| - i
  {
    if i < |v| {
      assert !HexRefAt(v, i);
      PutCopies(v, i + 1);
      assert v[i..] == [v[i]] + v[i + 1..];
    }
  }

  lemma OpenPrinted()
    ensures PrintDocument([Element("a", [OPEN, TAKEN], [])]) == OPEN_TEXT
  {
    hide PrintBody;
    var t := Element("a", [OPEN, TAKEN], []);
    OpenBody(t);
    assert [t][1..] == [] && PrintDocument([]) == "" && Indent(0) == "";
    assert PrintDocument([t]) == Print(t, 0) + "\n" + "";
  }

  lemma OpenBody(t: Tree)
    requires t == Element("a", [OPEN, TAKEN], [])
    ensures PrintBody(t, 0) == "<a b=\"&#x\" c=\"x26;#x\" />"
  {
    hide Shown, PrintAttrs;
    OpenAttrs();
    ShownWhole("a");
    assert PrintContent(t, 0) == " />";
  }

  lemma OpenAttrs()
    ensures PrintAttrs([OPEN, TAKEN]) == " b=\"&#x\" c=\"x26;#x\""
  {
    hide PrintAttr;
    OpenPrints();
    TakenPrints();
    assert [OPEN, TAKEN][1..] == [TAKEN] && [TAKEN][1..] == [];
    assert PrintAttrs([TAKEN]) == " c=\"x26;#x\"";
  }

  lemma OpenPrints()
    ensures PrintAttr(OPEN) == "b=\"&#x\""
  {
    hide Shown, PutFrom;
    PutOpen();
    PutCopies("b", 0);
    assert "b"[0..] == "b";
    ShownWhole("b");
    ShownWhole("&#x");
  }

  lemma TakenPrints()
    ensures PrintAttr(TAKEN) == "c=\"x26;#x\""
  {
    hide Shown, PutFrom;
    PutCopies("c", 0);
    PutCopies(TAKEN.value, 0);
    assert "c"[0..] == "c" && TAKEN.value[0..] == "x26;#x";
    ShownWhole("c");
    ShownWhole("x26;#x");
  }

  lemma PutOpen()
    ensures Put("&#x") == "&#x"
  {
    var v := "&#x";
    assert PassEnd(v, 1) == 2 && PassEnd(v, 0) == 2;
    assert PutFrom(v, 2) == "x" by { assert PutFrom(v, 3) == ""; }
    assert v[0..2] == "&#";
  }

  lemma OpenParsed(s: string, m: Mode)
    requires s == OPEN_TEXT
    ensures ParseDocument(s, m) == Ok([Element("a", [OPEN], [])], |s|)
  {
    hide ParseElement;
    assert |s| == 25 && s[0] == '<' && s[1] == 'a' && s[2] == ' ' && s[3] == 'b' && s[4] == '=' && s[5] == '"';
    assert s[6] == '&' && s[7] == '#' && s[8] == 'x' && s[9] == '"' && s[10] == ' ' && s[11] == 'c' && s[12] == '=';
    assert s[13] == '"' && s[14] == 'x' && s[15] == '2' && s[16] == '6' && s[17] == ';' && s[18] == '#';
    assert s[19] == 'x' && s[20] == '"' && s[21] == ' ' && s[22] == '/' && s[23] == '>' && s[24] == '\n';
    OpenElement(s, m);
    OpenDocument(s, m);
  }

  lemma OpenDocument(s: string, m: Mode)
    requires |s| == 25 && s[0] == '<' && s[1] == 'a' && s[24] == '\n'
    requires ParseElement(s, 0, m) == Ok(Element("a", [OPEN], []), 24)
    ensures ParseDocument(s, m) == Ok([Element("a", [OPEN], [])], 25)
  {
    hide ParseElement;
    var t := Element("a", [OPEN], []);
    assert Skip(s, 0, m.enc) == 0 && Skip(s, 24, m.enc) == 25;
    assert ParseRoots(s, 24, m) == Ok([], 25) && [t] + [] == [t];
    assert ParseRoots(s, 0, m) == Ok([t], 25);
  }

  lemma OpenElement(s: string, m: Mode)
    requires |s| == 25 && s[0] == '<' && s[1] == 'a' && s[2] == ' ' && s[3] == 'b' && s[4] == '=' && s[5] == '"'
    requires s[6] == '&' && s[7] == '#' && s[8] == 'x' && s[9] == '"' && s[10] == ' ' && s[11] == 'c' && s[12] == '='
    requires s[13] == '"' && s[14] == 'x' && s[15] == '2' && s[16] == '6' && s[17] == ';' && s[18] == '#'
    requires s[19] == 'x' && s[20] == '"' && s[21] == ' ' && s[22] == '/' && s[23] == '>'
    ensures ParseElement(s, 0, m) == Ok(Element("a", [OPEN], []), 24)
  {
    hide ParseValue, ParseAttr;
    OpenRead(s, m.enc);
    OpenValue(s, m.enc);
    OpenAttr(s, m.enc);
    assert Skip(s, 0, m.enc) == 0 && Skip(s, 1, m.enc) == 1;
    assert Skip(s, 3, m.enc) == 3 && Skip(s, 22, m.enc) == 22;
    assert Skip(s, 2, m.enc) == 3 && Skip(s, 21, m.enc) == 22;
    assert NameEnd(s, 2) == 2 && s[1..2] == "a" && [] + [OPEN] == [OPEN];
    assert ParseRest(s, 21, m, "a", [OPEN]) == Ok(Element("a", [OPEN], []), 24);
    assert ParseRest(s, 2, m, "a", []) == Ok(Element("a", [OPEN], []), 24);
  }

  lemma OpenAttr(s: string, enc: Encoding)
    requires |s| == 25 && s[3] == 'b' && s[4] == '=' && s[5] == '"' && AttrValue(s, 5, enc) == Ok("&#x", 21)
    ensures ParseAttr(s, 3, enc) == Ok(OPEN, 21)
  {
    hide AttrValue;
    assert s[3..4] == "b" && NameEnd(s, 4) == 4;
    assert Skip(s, 3, enc) == 3 && Skip(s, 4, enc) == 4 && Skip(s, 5, enc) == 5;
  }

  lemma OpenValue(s: string, enc: Encoding)
    requires |s| == 25 && s[5] == '"' && s[6] == '&' && s[18] == '#' && s[19] == 'x' && s[20] == '"'
    requires Char(s, 6, enc) == Chunk("&", At(18))
    ensures AttrValue(s, 5, enc) == Ok("&#x", 21)
  {
    hide NumericRef, ReadKeep;
    assert Char(s, 18, enc) == Chunk("#", At(19)) && Char(s, 19, enc) == Chunk("x", At(20));
    KeepEnd(s, 20, "\"", enc);
    KeepStep(s, 19, "\"", enc, "x", 20);
    KeepStep(s, 18, "\"", enc, "#", 19);
    KeepStep(s, 6, "\"", enc, "&", 18);
    assert "&" + ("#" + ("x" + "")) == "&#x";
  }

  lemma OpenRead(s: string, enc: Encoding)
    requires |s| == 25 && s[6] == '&' && s[7] == '#' && s[8] == 'x' && s[14] == 'x' && s[15] == '2' && s[16] == '6'
    requires s[17] == ';' && forall k :: 9 <= k < 17 ==> s[k] != ';'
    ensures Char(s, 6, enc) == Chunk("&", At(18))
  {
    hide RefLoop, IndexFrom;
    FirstAt(s, 9, 17, ';');
    OpenDigits(s);
    RefChar(s, 6, enc);
  }

  lemma OpenDigits(s: string)
    requires |s| == 25 && s[8] == 'x' && s[14] == 'x' && s[15] == '2' && s[16] == '6'
    ensures RefLoop(s, 8, 16, 16, 1, 0) == Some(38)
  {
    hide DigitOf, RefLoop;
    DigitBack(2);
    DigitBack(6);
    DigitStep(s, 8, 16, 16, 1, 0, 6);
    DigitStep(s, 8, 15, 16, 16, 6, 2);
    DigitsEnd(s, 8, 14, 16, 256, 38);
  }

  lemma DigitStep(s: string, lo: nat, q: nat, base: nat, mult: nat, sum: nat, d: nat)
    requires lo < q < |s| && s[q] != s[lo] && DigitOf(s[q], base) == Some(d)
    ensures RefLoop(s, lo, q, base, mult, sum)
         == RefLoop(s, lo, q - 1, base, mult * base % M32, (sum + mult * d % M32) % M64)
  {
    hide DigitOf;
  }

  lemma DigitsEnd(s: string, lo: nat, q: nat, base: nat, mult: nat, sum: nat)
    requires lo <= q < |s| && s[q] == s[lo]
    ensures RefLoop(s, lo, q, base, mult, sum) == Some(sum)
  {}
}
