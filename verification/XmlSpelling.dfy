/** What the parser makes of text that Print would not write: any white space between
    the parts of a tag, and every way to write a value. */
module XmlSpelling {
  import opened CStrings
  import opened XmlText
  import opened XmlEscaping
  import opened XmlCondense
  import opened XmlTree
  import opened XmlParser
  import opened XmlRoundTrip

  // ---------- characters ----------

  predicate Blank(c: char) {
    c in " \t\n\r" + [11 as char, 12 as char]
  }

  predicate Blanks(w: string) {
    forall k :: 0 <= k < |w| ==> Blank(w[k])
  }

  predicate Letter(c: char) {
    'a' <= c <= 'z' || 'A' <= c <= 'Z' || c as int >= 127
  }

  /** A letter or '_', and then letters, digits and four other characters. */
  predicate NameText(n: string) {
    && n != "" && (Letter(n[0]) || n[0] == '_')
    && forall k :: 0 <= k < |n| ==> Letter(n[k]) || '0' <= n[k] <= '9' || n[k] in "_-.:"
  }

  /** The bytes EF BB BF, EF BF BE or EF BF BF. */
  predicate Mark(n: string) {
    |n| >= 3 && n[0] as int == 0xEF
    && ((n[1] as int == 0xBB && n[2] as int == 0xBF) || (n[1] as int == 0xBF && n[2] as int in {0xBE, 0xBF}))
  }

  /** A name that does not begin with what is skipped as a mark. */
  predicate Fine(n: string, enc: Encoding) {
    NameText(n) && !(enc.Utf8? && Mark(n))
  }

  lemma FineIsName(n: string, enc: Encoding)
    ensures Fine(n, enc) <==> IsName(n, enc)
  {
    if NameText(n) {
      forall k | 0 <= k < |n| ensures NameChar(n[k]) {}
    }
    if IsName(n, enc) {
      forall k | 0 <= k < |n| ensures Letter(n[k]) || '0' <= n[k] <= '9' || n[k] in "_-.:" { assert NameChar(n[k]); }
    }
  }

  lemma BlanksAt(s: string, p: nat, w: string)
    requires Has(s, p, w) && Blanks(w)
    ensures AllWhite(s, p, p + |w|)
  {
    forall k | p <= k < p + |w| ensures IsWhite(s[k]) {
      HasChar(s, p, w, k - p);
      assert Blank(w[k - p]);
    }
  }

  /** Blanks in front of an ASCII character that is none are skipped. */
  lemma PastBlanks(s: string, p: nat, w: string, enc: Encoding)
    requires Has(s, p, w) && Blanks(w) && p + |w| < |s|
    requires !Blank(s[p + |w|]) && !(enc.Utf8? && IsBom(s, p + |w|))
    ensures Skip(s, p, enc) == p + |w|
  {
    BlanksAt(s, p, w);
    assert IsWhite(s[p + |w|]) <==> Blank(s[p + |w|]);
    SkipWhite(s, p, p + |w|, enc);
  }

  // ---------- values ----------

  /** A value between quotes, escaped or as it is, or without quotes. */
  datatype Form = Escaped(quote: char) | Raw(quote: char) | Bare

  function Spelled(v: string, form: Form): string {
    match form
    case Escaped(quote) => [quote] + Put(v) + [quote]
    case Raw(quote) => [quote] + v + [quote]
    case Bare => v
  }

  predicate Quote(c: char) {
    c == '"' || c == '\''
  }

  /** Ends a value without quotes. */
  predicate EndsBare(c: char) {
    Blank(c) || c == '/' || c == '>'
  }

  /** The value can be written like that. */
  predicate CanSpell(v: string, form: Form, enc: Encoding) {
    match form
    case Escaped(quote) => Quote(quote) && !HasHexRef(v) && Readable(v, 0, enc)
    case Raw(quote) => Quote(quote) && quote !in v && '&' !in v && Readable(v, 0, enc)
    case Bare => v != "" && !(enc.Utf8? && Mark(v)) && forall k :: 0 <= k < |v| ==> !EndsBare(v[k]) && !Quote(v[k])
  }

  lemma {:induction false} RawRead(s: string, p: nat, v: string, i: nat, tag: string, enc: Encoding)
    requires i <= |v| && Readable(v, i, enc) && '&' !in v && IsTextTag(tag) && tag[0] !in v
    requires Has(s, p, v[i..]) && Has(s, p + |v| - i, tag)
    ensures ReadKeep(s, p, tag, enc) == Chunk(v[i..], At(p + |v| - i))
    decreases |v| - i
  {
    hide Has, Char, ReadKeep, Readable;
    HasFits(s, p + |v| - i, tag);
    if i == |v| {
      KeepEnd(s, p, tag, enc);
    } else {
      var n := Unit(v, i, enc);
      RawUnit(s, p, v, i, tag, enc);
      KeepStep(s, p, tag, enc, v[i..i + n], p + n);
      RawRead(s, p + n, v, i + n, tag, enc);
      Sliced(v, i, n);
    }
  }

  lemma Sliced(v: string, i: nat, n: nat)
    requires i + n <= |v|
    ensures v[i..] == v[i..i + n] + v[i + n..]
  {}

  lemma TagFirst(s: string, p: nat, tag: string)
    ensures Has(s, p, tag) && tag != "" ==> p < |s| && s[p] == tag[0]
  {
    if Has(s, p, tag) && tag != "" { HasChar(s, p, tag, 0); }
  }

  lemma RawUnit(s: string, p: nat, v: string, i: nat, tag: string, enc: Encoding)
    requires i < |v| && Readable(v, i, enc) && '&' !in v && IsTextTag(tag) && tag[0] !in v && Has(s, p, v[i..])
    ensures var n := Unit(v, i, enc);
            && 0 < n <= |v| - i && Readable(v, i + n, enc) && p + n <= |s| && Has(s, p + n, v[i + n..])
            && Char(s, p, enc) == Chunk(v[i..i + n], At(p + n)) && !Has(s, p, tag)
  {
    var n := Unit(v, i, enc);
    assert v[i..] == v[i..i + n] + v[i + n..];
    HasSplit(s, p, v[i..i + n], v[i + n..]);
    HasChar(s, p, v[i..], 0);
    assert s[p] == v[i] && v[i] in v;
    TagFirst(s, p, tag);
    assert s[p..p + n] == v[i..i + n];
    if n == 1 { assert v[i..i + 1] == [s[p]]; }
  }

  /** Between quotes the value is read back. */
  lemma QuotedValue(s: string, p: nat, v: string, form: Form, enc: Encoding)
    requires !form.Bare? && CanSpell(v, form, enc) && Has(s, p, Spelled(v, form))
    ensures p < |s| && s[p] == form.quote && AttrValue(s, p, enc) == Ok(v, p + |Spelled(v, form)|)
  {
    hide PutFrom, Has, ReadKeep, Readable, NoHexRef, HasHexRef;
    var tag, inner := [form.quote], if form.Escaped? then Put(v) else v;
    HasSplit(s, p, tag + inner, tag);
    HasSplit(s, p, tag, inner);
    HasFits(s, p, tag);
    HasFits(s, p + 1 + |inner|, tag);
    HasChar(s, p, tag, 0);
    assert v[0..] == v && IsTextTag(tag);
    if form.Escaped? {
      NoHexRefMeans(v, 0);
      NoRefIn(v);
      PutThenRead(s, p + 1, v, 0, tag, enc);
    } else {
      RawRead(s, p + 1, v, 0, tag, enc);
    }
  }

  lemma NoRefIn(v: string)
    requires !HasHexRef(v)
    ensures forall k :: 0 <= k < |v| ==> !HexRefAt(v, k)
  {}

  lemma {:induction false} BareRead(s: string, p: nat, v: string, i: nat)
    requires i <= |v| && forall k :: 0 <= k < |v| ==> !EndsBare(v[k]) && !Quote(v[k])
    requires Has(s, p, v[i..]) && (p + |v| - i < |s| ==> EndsBare(s[p + |v| - i]))
    ensures p <= |s| && XmlParser.Bare(s, p) == Ok(v[i..], p + |v| - i)
    decreases |v| - i
  {
    hide Has;
    HasFits(s, p, v[i..]);
    if i < |v| {
      assert v[i..] == [v[i]] + v[i + 1..];
      HasSplit(s, p, [v[i]], v[i + 1..]);
      HasChar(s, p, v[i..], 0);
      assert s[p] == v[i];
      BareRead(s, p + 1, v, i + 1);
    }
  }

  // ---------- attributes ----------

  /** An attribute with the white space in front of it and around its '='. */
  datatype SpeltAttr = SpeltAttr(front: string, attr: Attr, left: string, right: string, form: Form)

  function Head(a: SpeltAttr): string {
    a.attr.name + a.left + "=" + a.right
  }

  function SpellAttr(a: SpeltAttr): string {
    a.front + (Head(a) + Spelled(a.attr.value, a.form))
  }

  predicate GoodAttr(a: SpeltAttr, enc: Encoding) {
    && Blanks(a.front) && Blanks(a.left) && Blanks(a.right)
    && Fine(a.attr.name, enc) && CanSpell(a.attr.value, a.form, enc)
  }

  /** A value without quotes must be ended by what follows. */
  predicate EndsAt(s: string, q: nat, form: Form) {
    form.Bare? && q < |s| ==> EndsBare(s[q])
  }

  /** Where the parts of an attribute stand. */
  lemma PartsAt(s: string, p: nat, a: SpeltAttr)
    requires Has(s, p, SpellAttr(a))
    ensures var n := p + |a.front|;
            var eq := n + |a.attr.name| + |a.left|;
            && Has(s, p, a.front) && Has(s, n, a.attr.name) && Has(s, n + |a.attr.name|, a.left)
            && eq < |s| && s[eq] == '=' && Has(s, eq + 1, a.right)
            && Has(s, eq + 1 + |a.right|, Spelled(a.attr.value, a.form))
            && p + |SpellAttr(a)| == eq + 1 + |a.right| + |Spelled(a.attr.value, a.form)|
  {
    hide Spelled;
    var name, value := a.attr.name, Spelled(a.attr.value, a.form);
    HasSplit(s, p, a.front, Head(a) + value);
    var n := p + |a.front|;
    HasSplit(s, n, Head(a), value);
    HasSplit(s, n, name + a.left + "=", a.right);
    HasSplit(s, n, name + a.left, "=");
    HasSplit(s, n, name, a.left);
    var eq := n + |name| + |a.left|;
    HasChar(s, eq, "=", 0);
  }

  lemma NameStops(s: string, p: nat, a: SpeltAttr, enc: Encoding)
    requires GoodAttr(a, enc) && Has(s, p, SpellAttr(a))
    ensures var e := p + |a.front| + |a.attr.name|;
            e < |s| && !NameChar(s[e]) && s[e] as int < 0x80
  {
    hide SpellAttr, Has, CanSpell, Fine, Spelled;
    PartsAt(s, p, a);
    if a.left != "" {
      HasChar(s, p + |a.front| + |a.attr.name|, a.left, 0);
      BlankFirst(a.left);
    }
  }

  lemma BlankFirst(w: string)
    requires Blanks(w) && w != ""
    ensures Blank(w[0]) && !NameChar(w[0]) && w[0] as int < 0x80
  {}

  lemma FirstOfValue(s: string, p: nat, v: string, form: Form, enc: Encoding)
    requires CanSpell(v, form, enc) && Has(s, p, Spelled(v, form)) && EndsAt(s, p + |Spelled(v, form)|, form)
    ensures p < |s| && !Blank(s[p]) && !(enc.Utf8? && IsBom(s, p))
  {
    hide PutFrom, Mark, Has;
    HasFits(s, p, Spelled(v, form));
    HasChar(s, p, Spelled(v, form), 0);
    if form.Bare? { MarkStarts(s, p, v); }
  }

  /** A mark in the text in front of the end of a value lies within the value. */
  lemma MarkStarts(s: string, p: nat, v: string)
    requires Has(s, p, v) && v != "" && (p + |v| < |s| ==> EndsBare(s[p + |v|]))
    ensures IsBom(s, p) ==> Mark(v)
  {
    hide Has;
    HasFits(s, p, v);
    HasChar(s, p, v, 0);
    if |v| > 1 { HasChar(s, p, v, 1); }
    if |v| > 2 { HasChar(s, p, v, 2); }
  }

  /** An attribute, however it is spelled, is read as that attribute, and reading ends
      behind its value. */
  lemma AttrSpelled(s: string, p: nat, a: SpeltAttr, enc: Encoding)
    requires GoodAttr(a, enc) && Has(s, p, SpellAttr(a)) && EndsAt(s, p + |SpellAttr(a)|, a.form)
    ensures p <= |s| && ParseAttr(s, p, enc) == Ok(a.attr, p + |SpellAttr(a)|)
    ensures p + |a.front| < |s| && Skip(s, p, enc) == p + |a.front| && NameStart(s[p + |a.front|])
  {
    hide Has, NameEnd, AttrValue, SpellAttr, Spelled, IsName, CanSpell, IsBom, Blanks, Fine, Skip, EndsAt;
    var name, v, form := a.attr.name, a.attr.value, a.form;
    PartsAt(s, p, a);
    NameStops(s, p, a, enc);
    FineIsName(name, enc);
    var n := p + |a.front|;
    var eq := n + |name| + |a.left|;
    var q := eq + 1 + |a.right|;
    NameAt(s, n, name, enc);
    NameNotSkipped(s, n, name, enc);
    SkipFront(s, p, a.front, enc);
    NotBlankEq();
    NoBomHere(s, eq);
    PastBlanks(s, n + |name|, a.left, enc);
    FirstOfValue(s, q, v, form, enc);
    PastBlanks(s, eq + 1, a.right, enc);
    ValueSpelled(s, q, v, form, enc);
    AttrIs(s, p, n, n + |name|, eq, q, a, enc);
  }

  lemma NotBlankEq()
    ensures !Blank('=')
  {}

  /** The parts of an attribute make it up. */
  lemma AttrIs(s: string, p: nat, n: nat, e: nat, eq: nat, q: nat, a: SpeltAttr, enc: Encoding)
    requires p <= n < e <= eq < q < |s| && Skip(s, p, enc) == n && Name(s, n) == Some(e) && s[n..e] == a.attr.name
    requires Skip(s, e, enc) == eq && s[eq] == '=' && Skip(s, eq + 1, enc) == q
    requires AttrValue(s, q, enc) == Ok(a.attr.value, p + |SpellAttr(a)|)
    ensures ParseAttr(s, p, enc) == Ok(a.attr, p + |SpellAttr(a)|)
  {
    hide Skip, NameEnd, AttrValue, SpellAttr;
  }

  lemma NoBomHere(s: string, p: nat)
    requires p < |s| && s[p] as int < 0x80
    ensures !IsBom(s, p)
  {}

  lemma SkipFront(s: string, p: nat, w: string, enc: Encoding)
    requires Has(s, p, w) && Blanks(w) && p + |w| < |s| && NameStart(s[p + |w|])
    requires Skip(s, p + |w|, enc) == p + |w|
    ensures Skip(s, p, enc) == p + |w|
  {
    hide IsBom;
    SkipAgain(s, p + |w|, enc);
    PastBlanks(s, p, w, enc);
  }

  lemma SkipAgain(s: string, p: nat, enc: Encoding)
    requires p < |s| && Skip(s, p, enc) == p
    ensures !(enc.Utf8? && IsBom(s, p))
  {}

  lemma ValueSpelled(s: string, p: nat, v: string, form: Form, enc: Encoding)
    requires CanSpell(v, form, enc) && Has(s, p, Spelled(v, form)) && EndsAt(s, p + |Spelled(v, form)|, form)
    ensures p < |s| && AttrValue(s, p, enc) == Ok(v, p + |Spelled(v, form)|)
  {
    hide PutFrom, HasHexRef, Readable;
    HasFits(s, p, Spelled(v, form));
    if form.Bare? {
      assert v[0..] == v;
      HasChar(s, p, v, 0);
      BareRead(s, p, v, 0);
    } else {
      QuotedValue(s, p, v, form, enc);
    }
  }

  /** Something else than a name is refused, a name without a '=' behind it, and a value
      without quotes that has one inside. */
  lemma NoName(s: string, p: nat, front: string, enc: Encoding)
    requires Has(s, p, front) && Blanks(front)
    requires var q := p + |front|;
             q < |s| && s[q] as int < 127 && !Blank(s[q]) && !Letter(s[q]) && s[q] != '_'
    ensures ParseAttr(s, p, enc) == Fail(Some(ReadingAttributes))
  {
    NoBomHere(s, p + |front|);
    PastBlanks(s, p, front, enc);
  }

  lemma NoEquals(s: string, p: nat, name: string, left: string, enc: Encoding)
    requires Fine(name, enc) && Blanks(left) && Has(s, p, name + left)
    requires var q := p + |name + left|;
             q < |s| && s[q] as int < 127 && !Blank(s[q]) && s[q] != '=' && (left == "" ==> !NameText("_" + [s[q]]))
    ensures ParseAttr(s, p, enc) == Fail(Some(ReadingAttributes))
  {
    hide Has, NameEnd, AttrValue, IsName, IsBom;
    var n, q := p + |name|, p + |name + left|;
    HasSplit(s, p, name, left);
    FineIsName(name, enc);
    if left == "" {
      NotInName(s[q]);
    } else {
      HasChar(s, n, left, 0);
      assert Blank(left[0]);
    }
    NameAt(s, p, name, enc);
    NameNotSkipped(s, p, name, enc);
    NoBomHere(s, q);
    PastBlanks(s, n, left, enc);
  }

  lemma NotInName(c: char)
    requires !NameText("_" + [c])
    ensures !NameChar(c)
  {
    var n := "_" + [c];
    assert n[0] == '_' && n[1] == c;
    assert NameText(n) <==> Letter(c) || '0' <= c <= '9' || c in "_-.:";
  }

  lemma {:induction false} QuoteInside(s: string, p: nat, v: string, i: nat)
    requires i <= |v| && (forall k :: 0 <= k < |v| ==> !EndsBare(v[k]) && !Quote(v[k]))
    requires Has(s, p, v[i..]) && p + |v| - i < |s| && Quote(s[p + |v| - i])
    ensures XmlParser.Bare(s, p) == Fail(Some(ReadingAttributes))
    decreases |v| - i
  {
    hide Has;
    if i < |v| {
      assert v[i..] == [v[i]] + v[i + 1..];
      HasSplit(s, p, [v[i]], v[i + 1..]);
      HasChar(s, p, v[i..], 0);
      assert s[p] == v[i];
      QuoteInside(s, p + 1, v, i + 1);
    }
  }

  /** Name and '=' of an attribute, and where its value begins. */
  lemma HeadRead(s: string, p: nat, a: SpeltAttr, more: string, enc: Encoding)
    requires GoodAttr(a, enc) && Has(s, p, a.front + (Head(a) + more))
    requires var q := p + |a.front| + |Head(a)|; q < |s| && s[q] as int < 0x80 && !Blank(s[q])
    ensures var q := p + |a.front| + |Head(a)|;
            && p + |a.front| < |s| && Skip(s, p, enc) == p + |a.front| && NameStart(s[p + |a.front|])
            && (AttrValue(s, q, enc) == Fail(None) ==> ParseAttr(s, p, enc) == Fail(None))
            && (AttrValue(s, q, enc) == Ok("", q) ==> ParseAttr(s, p, enc) == Ok(Attr(a.attr.name, ""), q))
  {
    hide Has, NameEnd, AttrValue, IsName, IsBom, Blanks, Fine, Skip, CanSpell, ParseAttr, NameStart, NameChar;
    var name := a.attr.name;
    var n := p + |a.front|;
    var e := n + |name|;
    var eq := e + |a.left|;
    HasSplit(s, p, a.front, Head(a) + more);
    HasSplit(s, n, Head(a), more);
    HasSplit(s, n, name + a.left + "=", a.right);
    HasSplit(s, n, name + a.left, "=");
    HasSplit(s, n, name, a.left);
    HasFits(s, eq, "=");
    HasChar(s, eq, "=", 0);
    FineIsName(name, enc);
    LeftEnds(s, e, a.left);
    NameAt(s, n, name, enc);
    NameNotSkipped(s, n, name, enc);
    SkipFront(s, p, a.front, enc);
    NotBlankEq();
    NoBomHere(s, eq);
    PastBlanks(s, e, a.left, enc);
    NoBomHere(s, eq + 1 + |a.right|);
    PastBlanks(s, eq + 1, a.right, enc);
    HeadIs(s, p, n, e, eq, eq + 1 + |a.right|, name, enc);
  }

  lemma HeadIs(s: string, p: nat, n: nat, e: nat, eq: nat, q: nat, name: string, enc: Encoding)
    requires p <= n < e <= eq < q < |s| && Skip(s, p, enc) == n && Name(s, n) == Some(e) && s[n..e] == name
    requires Skip(s, e, enc) == eq && s[eq] == '=' && Skip(s, eq + 1, enc) == q
    ensures AttrValue(s, q, enc) == Fail(None) ==> ParseAttr(s, p, enc) == Fail(None)
    ensures AttrValue(s, q, enc) == Ok("", q) ==> ParseAttr(s, p, enc) == Ok(Attr(name, ""), q)
  {
    hide Skip, NameEnd, AttrValue;
  }

  lemma LeftEnds(s: string, e: nat, left: string)
    requires Has(s, e, left) && Blanks(left) && e + |left| < |s| && s[e + |left|] == '='
    ensures e < |s| && !NameChar(s[e]) && s[e] as int < 0x80
  {
    if left != "" {
      HasChar(s, e, left, 0);
      BlankFirst(left);
    }
  }

  /** Without quotes a value may also be empty, in front of a slash or ">". */
  lemma EmptyValue(s: string, p: nat, a: SpeltAttr, enc: Encoding)
    requires GoodAttr(a, enc) && Has(s, p, a.front + Head(a))
    requires var q := p + |a.front + Head(a)|; q < |s| && (s[q] == '/' || s[q] == '>')
    ensures p <= |s| && ParseAttr(s, p, enc) == Ok(Attr(a.attr.name, ""), p + |a.front + Head(a)|)
  {
    hide Has, GoodAttr, Skip, ParseAttr;
    HasFits(s, p, a.front + Head(a));
    assert Head(a) + "" == Head(a);
    HeadRead(s, p, a, "", enc);
  }

  // ---------- the attribute loop ----------

  function SpellAttrs(attrs: seq<SpeltAttr>): string {
    if attrs == [] then "" else SpellAttr(attrs[0]) + SpellAttrs(attrs[1..])
  }

  function AttrsOf(attrs: seq<SpeltAttr>): (r: seq<Attr>)
    ensures |r| == |attrs| && forall i :: 0 <= i < |attrs| ==> r[i] == attrs[i].attr
  {
    if attrs == [] then [] else [attrs[0].attr] + AttrsOf(attrs[1..])
  }

  /** Every attribute is spelled well, and one without quotes has white space behind it
      when another one follows. */
  predicate GoodAttrs(attrs: seq<SpeltAttr>, enc: Encoding) {
    && (forall i :: 0 <= i < |attrs| ==> GoodAttr(attrs[i], enc))
    && forall i :: 0 <= i < |attrs| - 1 ==> attrs[i].form.Bare? ==> attrs[i + 1].front != ""
  }

  /** No two attributes have the same name. */
  predicate Different(attrs: seq<Attr>) {
    forall i, j :: 0 <= i < j < |attrs| ==> attrs[i].name != attrs[j].name
  }

  /** What stands behind the attributes ends the last one. */
  predicate AttrsEnd(s: string, q: nat, attrs: seq<SpeltAttr>) {
    attrs != [] ==> EndsAt(s, q, attrs[|attrs| - 1].form)
  }

  /** What stands behind the first attribute ends it. */
  lemma FirstEnds(s: string, p: nat, attrs: seq<SpeltAttr>, enc: Encoding)
    requires attrs != [] && GoodAttrs(attrs, enc) && Has(s, p, SpellAttrs(attrs))
    requires AttrsEnd(s, p + |SpellAttrs(attrs)|, attrs)
    ensures EndsAt(s, p + |SpellAttr(attrs[0])|, attrs[0].form)
    ensures GoodAttrs(attrs[1..], enc) && AttrsEnd(s, p + |SpellAttrs(attrs)|, attrs[1..])
    ensures Has(s, p, SpellAttr(attrs[0])) && Has(s, p + |SpellAttr(attrs[0])|, SpellAttrs(attrs[1..]))
  {
    hide Has, GoodAttr, Head, Spelled;
    var rest := attrs[1..];
    HasSplit(s, p, SpellAttr(attrs[0]), SpellAttrs(rest));
    assert forall i :: 0 <= i < |rest| ==> rest[i] == attrs[i + 1];
    var q := p + |SpellAttr(attrs[0])|;
    if rest != [] && attrs[0].form.Bare? {
      assert attrs[0 + 1].front != "";
      HasSplit(s, q, SpellAttr(rest[0]), SpellAttrs(rest[1..]));
      HasSplit(s, q, rest[0].front, Head(rest[0]) + Spelled(rest[0].attr.value, rest[0].form));
      HasChar(s, q, rest[0].front, 0);
      FrontBlank(rest[0], enc);
    }
  }

  lemma FrontBlank(a: SpeltAttr, enc: Encoding)
    requires GoodAttr(a, enc) && a.front != ""
    ensures Blank(a.front[0])
  {}

  /** The loop takes spelled attributes one after the other, behind any already read. */
  lemma {:induction false} AttrsSpelled(
      s: string, p: nat, attrs: seq<SpeltAttr>, read: seq<Attr>, name: string, m: Mode)
    requires GoodAttrs(attrs, m.enc) && Different(read + AttrsOf(attrs))
    requires Has(s, p, SpellAttrs(attrs)) && p + |SpellAttrs(attrs)| < |s|
    requires AttrsEnd(s, p + |SpellAttrs(attrs)|, attrs)
    ensures ParseRest(s, p, m, name, read)
         == ParseRest(s, p + |SpellAttrs(attrs)|, m, name, read + AttrsOf(attrs))
    decreases |attrs|
  {
    hide Has, SpellAttr, ParseAttr, ParseRest, GoodAttr, EndsAt;
    if attrs == [] {
      assert read + AttrsOf(attrs) == read;
    } else {
      var a, next := attrs[0], p + |SpellAttr(attrs[0])|;
      FirstEnds(s, p, attrs, m.enc);
      GoodFirst(attrs, m.enc);
      AttrSpelled(s, p, a, m.enc);
      HasFits(s, next, SpellAttrs(attrs[1..]));
      NextIsNew(read, attrs);
      OneTurn(s, p, a, read, name, m);
      AttrsSpelled(s, next, attrs[1..], read + [a.attr], name, m);
    }
  }

  lemma GoodFirst(attrs: seq<SpeltAttr>, enc: Encoding)
    requires attrs != [] && GoodAttrs(attrs, enc)
    ensures GoodAttr(attrs[0], enc)
  {}

  lemma {:induction false} NextIsNew(read: seq<Attr>, attrs: seq<SpeltAttr>)
    requires attrs != [] && Different(read + AttrsOf(attrs))
    ensures !HasAttr(read, attrs[0].attr.name)
    ensures read + AttrsOf(attrs) == (read + [attrs[0].attr]) + AttrsOf(attrs[1..])
  {
    var all := read + AttrsOf(attrs);
    assert all[|read|] == attrs[0].attr;
    forall i | 0 <= i < |read| ensures read[i].name != attrs[0].attr.name { assert all[i] == read[i]; }
  }

  /** One turn of the loop. */
  lemma OneTurn(s: string, p: nat, a: SpeltAttr, read: seq<Attr>, name: string, m: Mode)
    requires p + |a.front| < |s| && Skip(s, p, m.enc) == p + |a.front| && NameStart(s[p + |a.front|])
    requires p + |SpellAttr(a)| < |s| && ParseAttr(s, p, m.enc) == Ok(a.attr, p + |SpellAttr(a)|)
    requires !HasAttr(read, a.attr.name)
    ensures ParseRest(s, p, m, name, read) == ParseRest(s, p + |SpellAttr(a)|, m, name, read + [a.attr])
  {
    hide ParseRest, ParseAttr, SpellAttr, HasAttr, Skip;
    SkipTwice(s, p, m.enc);
    SameAttr(s, p, m.enc);
    TakesAttr(s, p, p + |a.front|, a.attr, p + |SpellAttr(a)|, read, name, m);
  }

  lemma TakesAttr(s: string, p: nat, q: nat, a: Attr, next: nat, read: seq<Attr>, name: string, m: Mode)
    requires p <= q < |s| && Skip(s, p, m.enc) == q && NameStart(s[q]) && next < |s|
    requires ParseAttr(s, q, m.enc) == Ok(a, next) && !HasAttr(read, a.name)
    ensures ParseRest(s, p, m, name, read) == ParseRest(s, next, m, name, read + [a])
  {
    hide ParseValue, ParseAttr, HasAttr, Skip;
  }

  lemma SameAttr(s: string, p: nat, enc: Encoding)
    requires p <= |s| && Skip(s, Skip(s, p, enc), enc) == Skip(s, p, enc)
    ensures ParseAttr(s, Skip(s, p, enc), enc) == ParseAttr(s, p, enc)
  {
    hide Name, AttrValue, Skip;
  }

  // ---------- texts that are not escaped ----------

  /** Words, with the text in front of each and behind the last. */
  function ProseText(words: seq<string>, gaps: seq<string>): string
    decreases |words|
  {
    (if gaps == [] then "" else gaps[0])
    + if words == [] then "" else words[0] + ProseText(words[1..], if gaps == [] then [] else gaps[1..])
  }

  function OneBlank(words: seq<string>): string {
    if words == [] then "" else if |words| == 1 then words[0] else words[0] + " " + OneBlank(words[1..])
  }

  /** Not empty and with no white space, '&' or '<'. */
  predicate IsWord(w: string, enc: Encoding) {
    && w != "" && Readable(w, 0, enc)
    && forall k :: 0 <= k < |w| ==> !Blank(w[k]) && w[k] != '&' && w[k] != '<'
  }

  /** White space separates the words, and the first does not begin with what is skipped
      as a mark. */
  predicate IsProse(words: seq<string>, gaps: seq<string>, enc: Encoding) {
    && words != [] && |gaps| == |words| + 1 && !(enc.Utf8? && Mark(words[0]))
    && AreWords(words, gaps, enc)
  }

  predicate AreWords(words: seq<string>, gaps: seq<string>, enc: Encoding)
    requires |gaps| == |words| + 1
  {
    && (forall i :: 0 <= i < |gaps| ==> Blanks(gaps[i])) && (forall i :: 0 <= i < |words| ==> IsWord(words[i], enc))
    && forall i :: 1 <= i < |words| ==> gaps[i] != ""
  }

  /** A text that begins with what is neither skipped nor read as something else. */
  predicate Solid(t: string, enc: Encoding) {
    t != "" && !Blank(t[0]) && !(enc.Utf8? && Mark(t)) && '&' !in t && '<' !in t
  }

  lemma MarkAt(s: string, p: nat, t: string)
    requires Has(s, p, t) && t != "" && p + |t| < |s| && (s[p + |t|] as int < 0x80)
    ensures IsBom(s, p) <==> Mark(t)
  {
    HasChar(s, p, t, 0);
    if |t| > 1 { HasChar(s, p, t, 1); }
    if |t| > 2 { HasChar(s, p, t, 2); }
  }

  /** A word is read as it is, behind one blank where white space was passed. */
  lemma {:induction false} WordRead(s: string, p: nat, w: string, i: nat, enc: Encoding, gap: bool)
    requires i < |w| && Readable(w, i, enc) && Has(s, p, w[i..])
    requires forall k :: 0 <= k < |w| ==> !Blank(w[k]) && w[k] != '&' && w[k] != '<'
    ensures p + |w| - i <= |s|
    ensures var rest := ReadCondensed(s, p + |w| - i, "<", enc, false);
            ReadCondensed(s, p, "<", enc, gap) == Chunk((if gap then " " else "") + w[i..] + rest.text, rest.next)
    decreases |w| - i
  {
    hide Has, Char, ReadCondensed, Readable, IsWhite;
    HasFits(s, p, w[i..]);
    var n := Unit(w, i, enc);
    RawUnit(s, p, w, i, "<", enc);
    NotBlankHere(s, p, w, i);
    CondenseUnit(s, p, "<", enc, gap, w[i..i + n], p + n);
    Sliced(w, i, n);
    var rest := ReadCondensed(s, p + |w| - i, "<", enc, false);
    if i + n < |w| { WordRead(s, p + n, w, i + n, enc, false); }
    Glue(if gap then " " else "", w[i..i + n], w[i + n..], rest.text);
  }

  lemma Glue(space: string, a: string, b: string, rest: string)
    ensures space + a + ("" + b + rest) == space + (a + b) + rest
    ensures b == "" ==> space + a + rest == space + (a + b) + rest
  {
    assert "" + b == b;
    Assoc(space, a, b);
    Assoc(space + a, b, rest);
  }

  lemma NotBlankHere(s: string, p: nat, w: string, i: nat)
    requires i < |w| && Has(s, p, w[i..]) && !Blank(w[i])
    ensures p < |s| && !IsWhite(s[p])
  {
    HasChar(s, p, w[i..], 0);
  }

  lemma {:induction false} GapPassed(s: string, p: nat, q: nat, enc: Encoding, gap: bool)
    requires AllWhite(s, p, q) && p < q
    ensures p <= |s| && q <= |s| && ReadCondensed(s, p, "<", enc, gap) == ReadCondensed(s, q, "<", enc, true)
    decreases q - p
  {
    hide ReadCondensed;
    TagFirst(s, p, "<");
    CondenseWhite(s, p, "<", enc, gap);
    if p + 1 < q { GapPassed(s, p + 1, q, enc, true); }
  }

  /** The parts of prose in place. */
  lemma ProseParts(s: string, p: nat, words: seq<string>, gaps: seq<string>, enc: Encoding)
    requires |gaps| == |words| + 1 && words != [] && AreWords(words, gaps, enc) && Has(s, p, ProseText(words, gaps))
    ensures var q := p + |gaps[0]|;
            && Has(s, p, gaps[0]) && Has(s, q, words[0]) && AllWhite(s, p, q) && IsWord(words[0], enc)
            && Has(s, q + |words[0]|, ProseText(words[1..], gaps[1..])) && AreWords(words[1..], gaps[1..], enc)
            && p + |ProseText(words, gaps)| == q + |words[0]| + |ProseText(words[1..], gaps[1..])|
            && Blanks(gaps[1]) && (|words| > 1 ==> gaps[1] == gaps[1..][0] != "")
  {
    hide Has, IsWord, Blanks, AreWords, ProseText, AllWhite;
    var rest := ProseText(words[1..], gaps[1..]);
    ProseIs(words, gaps);
    WordsRest(words, gaps, enc);
    HasSplit(s, p, gaps[0], words[0] + rest);
    HasSplit(s, p + |gaps[0]|, words[0], rest);
    BlanksAt(s, p, gaps[0]);
  }

  lemma ProseIs(words: seq<string>, gaps: seq<string>)
    requires |gaps| == |words| + 1 && words != []
    ensures ProseText(words, gaps) == gaps[0] + (words[0] + ProseText(words[1..], gaps[1..]))
  {}

  lemma WordsRest(words: seq<string>, gaps: seq<string>, enc: Encoding)
    requires |gaps| == |words| + 1 && words != [] && AreWords(words, gaps, enc)
    ensures AreWords(words[1..], gaps[1..], enc) && IsWord(words[0], enc) && Blanks(gaps[0]) && Blanks(gaps[1])
    ensures |words| > 1 ==> gaps[1] == gaps[1..][0] != ""
  {
    hide IsWord, Blanks;
    assert forall i :: 0 <= i < |words[1..]| ==> words[1..][i] == words[i + 1];
    assert forall i :: 0 <= i < |gaps[1..]| ==> gaps[1..][i] == gaps[i + 1];
  }

  /** Behind a word: every further one with one blank in front. */
  lemma {:induction false} ProseRead(s: string, p: nat, words: seq<string>, gaps: seq<string>, enc: Encoding)
    requires |gaps| == |words| + 1 && AreWords(words, gaps, enc) && Has(s, p, ProseText(words, gaps))
    requires (words != [] ==> gaps[0] != "") && Has(s, p + |ProseText(words, gaps)|, "<")
    ensures p <= |s|
    ensures ReadCondensed(s, p, "<", enc, false)
         == Chunk(if words == [] then "" else " " + OneBlank(words), At(p + |ProseText(words, gaps)|))
    decreases |words|
  {
    hide Has, ReadCondensed, IsWord, AreWords, Blanks, Readable, ProseText, OneBlank;
    HasFits(s, p, ProseText(words, gaps));
    if words == [] {
      LastGap(s, p, gaps, enc);
    } else {
      ProseParts(s, p, words, gaps, enc);
      var q := p + |gaps[0]|;
      GapPassed(s, p, q, enc, false);
      WholeWord(s, q, words[0], enc, true);
      ProseRead(s, q + |words[0]|, words[1..], gaps[1..], enc);
      BlankInFront(words);
    }
  }

  lemma BlankInFront(words: seq<string>)
    requires words != []
    ensures " " + OneBlank(words) == " " + words[0] + if words[1..] == [] then "" else " " + OneBlank(words[1..])
  {
    if |words| > 1 {
      Assoc(words[0], " ", OneBlank(words[1..]));
      Assoc(" ", words[0], " " + OneBlank(words[1..]));
    } else {
      assert " " + words[0] + "" == " " + words[0];
    }
  }

  lemma LastGap(s: string, p: nat, gaps: seq<string>, enc: Encoding)
    requires |gaps| == 1 && AreWords([], gaps, enc) && Has(s, p, ProseText([], gaps))
    requires Has(s, p + |ProseText([], gaps)|, "<")
    ensures p <= |s|
    ensures ReadCondensed(s, p, "<", enc, false) == Chunk("", At(p + |ProseText([], gaps)|))
  {
    hide Has, ReadCondensed, AreWords, ProseText, AllWhite, Blanks;
    OnlyGap(gaps, enc);
    BlanksAt(s, p, gaps[0]);
    WhiteFits(s, p, p + |gaps[0]|);
    TrailingWhite(s, p, p + |gaps[0]|, "<", enc, false);
  }

  lemma OnlyGap(gaps: seq<string>, enc: Encoding)
    requires |gaps| == 1 && AreWords([], gaps, enc)
    ensures ProseText([], gaps) == gaps[0] && Blanks(gaps[0])
  {
    assert gaps[0] + "" == gaps[0];
  }

  lemma WholeWord(s: string, p: nat, w: string, enc: Encoding, gap: bool)
    requires IsWord(w, enc) && Has(s, p, w)
    ensures p + |w| <= |s|
    ensures var rest := ReadCondensed(s, p + |w|, "<", enc, false);
            ReadCondensed(s, p, "<", enc, gap) == Chunk((if gap then " " else "") + w + rest.text, rest.next)
  {
    hide ReadCondensed, Has, Readable;
    assert w[0..] == w;
    WordRead(s, p, w, 0, enc, gap);
  }

  /** A text of words: one blank for every run of white space between them. */
  lemma ProseValue(s: string, p: nat, words: seq<string>, gaps: seq<string>, m: Mode)
    requires m.condense && IsProse(words, gaps, m.enc) && Has(s, p, ProseText(words, gaps))
    requires Has(s, p + |ProseText(words, gaps)|, "</")
    ensures p <= |s|
    ensures ParseValue(s, p, m) == Ok([TextNode(OneBlank(words), false)], p + |ProseText(words, gaps)|)
  {
    hide Has, ReadCondensed, AreWords, Blanks, Readable, ParseElement, OneBlank, ProseText, IsBom, Mark, Skip, IsBlank;
    var end, q := p + |ProseText(words, gaps)|, p + |gaps[0]|;
    assert "</" == "<" + "/";
    HasSplit(s, end, "<", "/");
    HasFits(s, end, "</");
    ProseParts(s, p, words, gaps, m.enc);
    ProseStarts(s, q, words, gaps, m.enc);
    SkipWhite(s, p, q, m.enc);
    SkipTwice(s, p, m.enc);
    WholeWord(s, q, words[0], m.enc, false);
    ProseRead(s, q + |words[0]|, words[1..], gaps[1..], m.enc);
    FirstOfProse(words);
    assert Text(s, q, true, "<", m.enc) == Chunk(OneBlank(words), At(end + 1));
    TextThenEnd(s, p, q, OneBlank(words), end, m);
  }

  /** What stands at the first word is not skipped. */
  lemma ProseStarts(s: string, q: nat, words: seq<string>, gaps: seq<string>, enc: Encoding)
    requires IsProse(words, gaps, enc) && Has(s, q, words[0]) && IsWord(words[0], enc)
    requires Blanks(gaps[1]) && (|words| > 1 ==> gaps[1] != "")
    requires Has(s, q + |words[0]|, ProseText(words[1..], gaps[1..]))
    requires Has(s, q + |words[0]| + |ProseText(words[1..], gaps[1..])|, "<")
    ensures q < |s| && !IsWhite(s[q]) && !(enc.Utf8? && IsBom(s, q)) && s[q] != '<'
  {
    hide Readable, ProseText, AreWords, Has, IsBom, Mark;
    var next := q + |words[0]|;
    AsciiBehind(s, next, words, gaps);
    HasChar(s, q, words[0], 0);
    MarkAt(s, q, words[0]);
  }

  /** Behind the first word stands white space or the tag. */
  lemma AsciiBehind(s: string, next: nat, words: seq<string>, gaps: seq<string>)
    requires words != [] && |gaps| == |words| + 1 && Blanks(gaps[1]) && (|words| > 1 ==> gaps[1] != "")
    requires Has(s, next, ProseText(words[1..], gaps[1..]))
    requires Has(s, next + |ProseText(words[1..], gaps[1..])|, "<")
    ensures next < |s| && s[next] as int < 0x80
  {
    hide Has;
    var rest := ProseText(words[1..], gaps[1..]);
    HasFits(s, next + |rest|, "<");
    HasChar(s, next + |rest|, "<", 0);
    if gaps[1] != "" {
      assert rest[0] == gaps[1][0] && Blank(gaps[1][0]);
      HasChar(s, next, rest, 0);
    } else {
      assert words[1..] == [] && rest == "";
    }
  }

  lemma FirstOfProse(words: seq<string>)
    requires words != [] && words[0] != "" && !Blank(words[0][0])
    ensures !IsBlank(OneBlank(words))
    ensures OneBlank(words) == words[0] + if |words| > 1 then " " + OneBlank(words[1..]) else ""
  {
    hide IsBlank, OneBlank;
    OneBlankIs(words);
    FirstBlack(OneBlank(words));
  }

  lemma OneBlankIs(words: seq<string>)
    requires words != []
    ensures OneBlank(words) == words[0] + if |words| > 1 then " " + OneBlank(words[1..]) else ""
  {
    if |words| > 1 { Assoc(words[0], " ", OneBlank(words[1..])); }
    assert words[0] + "" == words[0];
  }

  lemma FirstBlack(t: string)
    requires t != "" && !Blank(t[0])
    ensures !IsBlank(t)
  {
    assert !IsWhite(t[0]);
  }

  /** A text in front of an end tag is the only child. */
  lemma TextThenEnd(s: string, p: nat, q: nat, text: string, end: nat, m: Mode)
    requires p < |s| && q == Skip(s, p, m.enc) < |s| && s[q] != '<' && !IsBlank(text) && Has(s, end, "</")
    requires Text(s, if m.condense then q else p, m.condense, "<", m.enc) == Chunk(text, At(end + 1))
    ensures ParseValue(s, p, m) == Ok([TextNode(text, false)], end)
  {
    hide ParseElement, Has, Text, IsBlank, Skip;
    HasFits(s, end, "</");
    NothingWhite(s, end);
    NoMoreKids(s, end, end, m);
    assert [TextNode(text, false)] + [] == [TextNode(text, false)];
  }

  /** A text as it is, where white space is kept. */
  lemma KeptValue(s: string, p: nat, blanks: string, raw: string, m: Mode)
    requires !m.condense && Blanks(blanks) && Readable(blanks + raw, 0, m.enc) && Solid(raw, m.enc)
    requires Has(s, p, blanks + raw) && Has(s, p + |blanks + raw|, "</")
    ensures p <= |s| && ParseValue(s, p, m) == Ok([TextNode(blanks + raw, false)], p + |blanks + raw|)
  {
    hide Has, ReadKeep, Readable, ParseElement, Skip, IsBom;
    var t, q, end := blanks + raw, p + |blanks|, p + |blanks + raw|;
    assert "</" == "<" + "/";
    HasSplit(s, end, "<", "/");
    HasFits(s, end, "</");
    HasChar(s, end, "<", 0);
    HasSplit(s, p, blanks, raw);
    HasChar(s, q, raw, 0);
    MarkAt(s, q, raw);
    PastBlanks(s, p, blanks, m.enc);
    NoneOf(blanks, raw);
    assert t[0..] == t;
    RawRead(s, p, t, 0, "<", m.enc);
    SolidText(blanks, raw);
    assert Text(s, p, false, "<", m.enc) == Chunk(t, At(end + 1));
    TextThenEnd(s, p, q, t, end, m);
  }

  lemma NoneOf(blanks: string, raw: string)
    requires Blanks(blanks) && '&' !in raw && '<' !in raw
    ensures '&' !in blanks + raw && '<' !in blanks + raw
  {
    assert forall k :: 0 <= k < |blanks| ==> Blank(blanks[k]);
  }

  lemma SolidText(blanks: string, raw: string)
    requires raw != "" && !Blank(raw[0])
    ensures !IsBlank(blanks + raw)
  {
    assert (blanks + raw)[|blanks|] == raw[0];
  }

  // ---------- elements ----------

  /** An element as it is spelled: its name, its attributes, the white space behind
      them, and what follows. Each child has white space in front of it. */
  datatype Spelt = Spelt(name: string, attrs: seq<SpeltAttr>, space: string, body: Body)

  /** "/>"; or children, white space and the end tag; or one text: escaped between white
      space, or as it is, where white space is kept, or words with white space in front
      of each and behind the last, where it is condensed. */
  datatype Body =
    | Closed
    | Filled(kids: seq<Kid>, gap: string)
    | OnlyText(front: string, text: string, back: string)
    | Kept(blanks: string, raw: string)
    | Prose(words: seq<string>, gaps: seq<string>)

  datatype Kid = Kid(gap: string, elem: Spelt)

  function Spell(t: Spelt): string
    decreases t, 1
  {
    "<" + t.name + SpellAttrs(t.attrs) + (t.space + SpellBody(t))
  }

  function SpellBody(t: Spelt): string
    decreases t, 0
  {
    match t.body
    case Closed => "/>"
    case Filled(kids, gap) => ">" + (SpellKids(kids) + gap) + ("</" + t.name + ">")
    case OnlyText(front, text, back) => ">" + (front + Put(text) + back) + ("</" + t.name + ">")
    case Kept(blanks, raw) => ">" + (blanks + raw) + ("</" + t.name + ">")
    case Prose(words, gaps) => ">" + ProseText(words, gaps) + ("</" + t.name + ">")
  }

  function SpellKids(kids: seq<Kid>): string
    decreases kids
  {
    if kids == [] then "" else kids[0].gap + Spell(kids[0].elem) + SpellKids(kids[1..])
  }

  /** The tree that is meant. */
  function TreeOf(t: Spelt): Tree
    decreases t
  {
    Element(t.name, AttrsOf(t.attrs),
            match t.body
            case Closed => []
            case Filled(kids, gap) => TreesOf(kids)
            case OnlyText(front, text, back) => [TextNode(text, false)]
            case Kept(blanks, raw) => [TextNode(blanks + raw, false)]
            case Prose(words, gaps) => [TextNode(OneBlank(words), false)])
  }

  function TreesOf(kids: seq<Kid>): (r: seq<Tree>)
    ensures |r| == |kids|
    decreases kids
  {
    if kids == [] then [] else [TreeOf(kids[0].elem)] + TreesOf(kids[1..])
  }

  predicate Good(t: Spelt, m: Mode)
    decreases t
  {
    && Fine(t.name, m.enc) && GoodAttrs(t.attrs, m.enc) && Different(AttrsOf(t.attrs)) && Blanks(t.space)
    && (t.attrs != [] ==> t.attrs[0].front != "")
    && match t.body
       case Closed => true
       case Filled(kids, gap) => Blanks(gap) && GoodKids(kids, m)
       case OnlyText(front, text, back) =>
         ValidText(text, m) && Blanks(front) && Blanks(back) && (!m.condense ==> front == "" && back == "")
       case Kept(blanks, raw) => !m.condense && Blanks(blanks) && Readable(blanks + raw, 0, m.enc) && Solid(raw, m.enc)
       case Prose(words, gaps) => m.condense && IsProse(words, gaps, m.enc)
  }

  predicate GoodKids(kids: seq<Kid>, m: Mode)
    decreases kids
  {
    kids == [] || (Blanks(kids[0].gap) && Good(kids[0].elem, m) && GoodKids(kids[1..], m))
  }

  /** What stands behind the attributes ends them, and the name. */
  lemma TagGoesOn(s: string, q: nat, t: Spelt)
    requires Blanks(t.space) && Has(s, q, t.space + SpellBody(t))
    ensures q < |s| && EndsBare(s[q])
    ensures var b := q + |t.space|;
            b < |s| && Has(s, b, SpellBody(t)) && (s[b] == '/' || s[b] == '>') && (s[b] == '/' <==> t.body.Closed?)
  {
    hide SpellKids, Put, Has;
    HasSplit(s, q, t.space, SpellBody(t));
    var b := q + |t.space|;
    HasFits(s, b, SpellBody(t));
    HasChar(s, b, SpellBody(t), 0);
    if t.space != "" { HasChar(s, q, t.space, 0); }
  }

  lemma NameGoesOn(s: string, n: nat, t: Spelt, m: Mode)
    requires Good(t, m) && Has(s, n, SpellAttrs(t.attrs))
    requires n + |SpellAttrs(t.attrs)| < |s| && EndsBare(s[n + |SpellAttrs(t.attrs)|])
    ensures n < |s| && !NameChar(s[n]) && s[n] as int < 0x80
  {
    hide GoodKids, Spelled, CanSpell;
    if t.attrs != [] {
      FirstOfAttrs(t.attrs, m.enc);
      HasChar(s, n, SpellAttrs(t.attrs), 0);
    }
  }

  lemma FirstOfAttrs(attrs: seq<SpeltAttr>, enc: Encoding)
    requires attrs != [] && GoodAttrs(attrs, enc) && attrs[0].front != ""
    ensures SpellAttrs(attrs) != "" && Blank(SpellAttrs(attrs)[0])
  {
    hide Head, Spelled;
    FrontBlank(attrs[0], enc);
  }

  /** Where the parts of a start tag stand. */
  lemma TagParts(s: string, p: nat, t: Spelt)
    requires Has(s, p, Spell(t))
    ensures var n := p + 1 + |t.name|;
            var q := n + |SpellAttrs(t.attrs)|;
            && p < |s| && s[p] == '<' && Has(s, p + 1, t.name) && Has(s, n, SpellAttrs(t.attrs))
            && Has(s, q, t.space + SpellBody(t)) && p + |Spell(t)| == q + |t.space| + |SpellBody(t)|
  {
    hide Has, SpellAttrs, SpellBody;
    var tail := t.space + SpellBody(t);
    HasSplit(s, p, "<" + t.name + SpellAttrs(t.attrs), tail);
    HasSplit(s, p, "<" + t.name, SpellAttrs(t.attrs));
    HasSplit(s, p, "<", t.name);
    HasFits(s, p, "<");
    HasChar(s, p, "<", 0);
  }

  /** The '<' and the name. */
  lemma NameSpelled(s: string, p: nat, name: string, m: Mode)
    requires Fine(name, m.enc) && p < |s| && s[p] == '<' && Has(s, p + 1, name)
    requires p + 1 + |name| < |s| && !NameChar(s[p + 1 + |name|]) && s[p + 1 + |name|] as int < 0x80
    ensures NameStart(s[p + 1]) && Skip(s, p, m.enc) == p
    ensures ParseElement(s, p, m) == ParseRest(s, p + 1 + |name|, m, name, [])
  {
    hide Has, ParseRest, NameEnd, IsName;
    FineIsName(name, m.enc);
    NameAt(s, p + 1, name, m.enc);
    NameNotSkipped(s, p + 1, name, m.enc);
    NoBomHere(s, p);
  }

  /** The start of an element up to what follows its attributes. */
  lemma StartSpelled(s: string, p: nat, t: Spelt, m: Mode)
    requires Good(t, m) && Has(s, p, Spell(t))
    ensures var n := p + 1 + |t.name|;
            var b := n + |SpellAttrs(t.attrs)| + |t.space|;
            && p + 1 < |s| && s[p] == '<' && NameStart(s[p + 1]) && Skip(s, p, m.enc) == p
            && b < |s| && Has(s, b, SpellBody(t)) && p + |Spell(t)| == b + |SpellBody(t)|
            && (s[b] == '/' <==> t.body.Closed?) && (s[b] == '>' <==> !t.body.Closed?)
            && ParseElement(s, p, m) == ParseRest(s, b, m, t.name, AttrsOf(t.attrs))
  {
    hide Has, SpellAttrs, SpellBody, Spell, ParseElement, ParseRest, Good, EndsBare, Blanks, Fine, Skip, NameChar;
    var n := p + 1 + |t.name|;
    var q := n + |SpellAttrs(t.attrs)|;
    TagParts(s, p, t);
    GoodMeans(t, m);
    TagGoesOn(s, q, t);
    NameGoesOn(s, n, t, m);
    NameSpelled(s, p, t.name, m);
    assert [] + AttrsOf(t.attrs) == AttrsOf(t.attrs);
    AttrsSpelled(s, n, t.attrs, [], t.name, m);
    SpaceSpelled(s, q, t, AttrsOf(t.attrs), m);
  }

  lemma GoodMeans(t: Spelt, m: Mode)
    requires Good(t, m)
    ensures Fine(t.name, m.enc) && GoodAttrs(t.attrs, m.enc) && Different(AttrsOf(t.attrs)) && Blanks(t.space)
    ensures forall s, q :: 0 <= q < |s| && EndsBare(s[q]) ==> AttrsEnd(s, q, t.attrs)
  {}

  lemma SpaceSpelled(s: string, q: nat, t: Spelt, attrs: seq<Attr>, m: Mode)
    requires Blanks(t.space) && Has(s, q, t.space + SpellBody(t)) && q < |s|
    ensures var b := q + |t.space|;
            b < |s| && ParseRest(s, q, m, t.name, attrs) == ParseRest(s, b, m, t.name, attrs)
  {
    hide SpellBody, ParseAttr, ParseValue, Has;
    TagGoesOn(s, q, t);
    var b := q + |t.space|;
    HasSplit(s, q, t.space, SpellBody(t));
    NoBomHere(s, b);
    PastBlanks(s, q, t.space, m.enc);
    SkipTwice(s, q, m.enc);
  }

  // ---------- what stands between the tags ----------

  /** White space in front of a '<'. */
  lemma ToTag(s: string, p: nat, w: string, m: Mode)
    requires Has(s, p, w) && Blanks(w) && p + |w| < |s| && s[p + |w|] == '<'
    ensures Skip(s, p, m.enc) == p + |w| && AllWhite(s, p, p + |w|)
  {
    NoBomHere(s, p + |w|);
    PastBlanks(s, p, w, m.enc);
    BlanksAt(s, p, w);
  }

  /** A child behind white space. */
  lemma KidSpelled(s: string, p: nat, kid: Kid, m: Mode)
    requires Blanks(kid.gap) && Good(kid.elem, m) && Has(s, p, kid.gap + Spell(kid.elem))
    requires var b := p + |kid.gap|;
             b <= |s| && ParseElement(s, b, m) == Ok(TreeOf(kid.elem), b + |Spell(kid.elem)|)
    ensures p <= |s|
    ensures var next := p + |kid.gap + Spell(kid.elem)|;
            next <= |s| && ParseValue(s, p, m) == Prepend([TreeOf(kid.elem)], ParseValue(s, next, m))
  {
    hide ParseElement, Has, Spell, Good, TreeOf, Blanks, SpellAttrs, SpellBody, AttrsOf, IsBom, ParseRest;
    var b := p + |kid.gap|;
    HasSplit(s, p, kid.gap, Spell(kid.elem));
    HasFits(s, b, Spell(kid.elem));
    StartSpelled(s, b, kid.elem, m);
    ToTag(s, p, kid.gap, m);
    NoEndTag(s, b);
  }

  lemma NoEndTag(s: string, p: nat)
    requires p + 1 < |s| && NameStart(s[p + 1])
    ensures !Has(s, p, "</")
  {
    if Has(s, p, "</") { HasChar(s, p, "</", 1); }
  }

  /** Children with white space between them, in front of "</". */
  lemma {:induction false} KidsSpelled(s: string, p: nat, kids: seq<Kid>, gap: string, m: Mode)
    requires GoodKids(kids, m) && Blanks(gap) && Has(s, p, SpellKids(kids) + gap)
    requires Has(s, p + |SpellKids(kids) + gap|, "</")
    ensures p <= |s| && ParseValue(s, p, m) == Ok(TreesOf(kids), p + |SpellKids(kids) + gap|)
    decreases kids, 0
  {
    hide ParseValue, ParseElement, Has, Spell, Good, TreeOf, Blanks;
    var end := p + |SpellKids(kids) + gap|;
    HasFits(s, end, "</");
    if kids == [] {
      assert SpellKids(kids) + gap == gap;
      BlanksAt(s, p, gap);
      NoMoreKids(s, p, end, m);
    } else {
      var kid, rest := kids[0], SpellKids(kids[1..]) + gap;
      var first := kid.gap + Spell(kid.elem);
      assert SpellKids(kids) + gap == first + rest;
      HasSplit(s, p, first, rest);
      HasSplit(s, p, kid.gap, Spell(kid.elem));
      ElementSpelled(s, p + |kid.gap|, kid.elem, m);
      KidSpelled(s, p, kid, m);
      KidsSpelled(s, p + |first|, kids[1..], gap, m);
    }
  }

  /** One text, with white space around it where that is condensed. */
  lemma TextSpelled(s: string, p: nat, front: string, text: string, back: string, m: Mode)
    requires ValidText(text, m) && Blanks(front) && Blanks(back) && (!m.condense ==> front == "" && back == "")
    requires Has(s, p, front + Put(text) + back) && Has(s, p + |front + Put(text) + back|, "</")
    ensures p <= |s| && ParseValue(s, p, m) == Ok([TextNode(text, false)], p + |front + Put(text) + back|)
  {
    hide ParseValue, Has, PutFrom, ValidText, Blanks;
    var end, q := p + |front + Put(text) + back|, p + |front|;
    HasFits(s, end, "</");
    if m.condense {
      HasSplit(s, p, front + Put(text), back);
      HasSplit(s, p, front, Put(text));
      BlanksAt(s, q + |Put(text)|, back);
      assert "</" == "<" + "/";
      HasSplit(s, end, "<", "/");
      CondensedKid(s, q, text, end, m);
      NothingWhite(s, end);
      NoMoreKids(s, end, end, m);
      assert [TextNode(text, false)] + [] == [TextNode(text, false)];
      TextPastBlanks(s, p, front, text, m);
    } else {
      assert front + Put(text) + back == Put(text);
      KeptText(s, p, text, m);
    }
  }

  lemma NothingWhite(s: string, q: nat)
    requires q <= |s|
    ensures AllWhite(s, q, q)
  {}

  /** White space in front of a condensed text makes no difference. */
  lemma TextPastBlanks(s: string, p: nat, front: string, text: string, m: Mode)
    requires m.condense && ValidText(text, m) && Blanks(front) && Has(s, p, front) && Has(s, p + |front|, Put(text))
    ensures p + |front| <= |s| && ParseValue(s, p, m) == ParseValue(s, p + |front|, m)
  {
    hide Has, PutFrom, Readable, NoHexRef, ParseElement, ReadCondensed, IsBom;
    var q := p + |front|;
    assert text != "" && text[0] != ' ';
    NoRefHere(text, 0);
    NothingToSkip(s, q, text, 0, m.enc);
    FirstWritten(s, q, text, 0, m.enc);
    BlanksAt(s, p, front);
    SkipAgain(s, q, m.enc);
    SkipWhite(s, p, q, m.enc);
  }

  // ---------- elements and documents ----------

  /** An element, however it is spelled, is read as the tree that is meant, and reading
      ends behind it. */
  lemma {:induction false} ElementSpelled(s: string, p: nat, t: Spelt, m: Mode)
    requires Good(t, m) && Has(s, p, Spell(t))
    ensures p <= |s| && ParseElement(s, p, m) == Ok(TreeOf(t), p + |Spell(t)|)
    decreases t, 1
  {
    hide ParseElement, ParseRest, Has, Spell, SpellAttrs, Put, ValidText, Good, ProseText, OneBlank, IsProse, Solid;
    hide ParseValue, Readable, Blanks;
    var b := p + 1 + |t.name| + |SpellAttrs(t.attrs)| + |t.space|;
    StartSpelled(s, p, t, m);
    BodyGood(t, m);
    match t.body
    case Closed =>
      ClosedSpelled(s, b, t.name, AttrsOf(t.attrs), m);
    case Filled(kids, gap) =>
      InnerAt(s, b, SpellKids(kids) + gap, t.name);
      KidsSpelled(s, b + 1, kids, gap, m);
      EndSpelled(s, b, t.name, AttrsOf(t.attrs), TreesOf(kids), SpellKids(kids) + gap, m);
    case _ =>
      TextBody(s, b, t, m);
  }

  /** A body that is one text. */
  lemma TextBody(s: string, b: nat, t: Spelt, m: Mode)
    requires Good(t, m) && !t.body.Closed? && !t.body.Filled? && b < |s| && Has(s, b, SpellBody(t))
    ensures ParseRest(s, b, m, t.name, AttrsOf(t.attrs)) == Ok(TreeOf(t), b + |SpellBody(t)|)
  {
    hide ParseRest, Has, SpellAttrs, Put, ValidText, Good, ProseText, OneBlank, IsProse, Solid;
    hide ParseValue, Readable, Blanks;
    BodyGood(t, m);
    match t.body
    case OnlyText(front, text, back) =>
      InnerAt(s, b, front + Put(text) + back, t.name);
      TextSpelled(s, b + 1, front, text, back, m);
      EndSpelled(s, b, t.name, AttrsOf(t.attrs), [TextNode(text, false)], front + Put(text) + back, m);
    case Kept(blanks, raw) =>
      InnerAt(s, b, blanks + raw, t.name);
      KeptValue(s, b + 1, blanks, raw, m);
      EndSpelled(s, b, t.name, AttrsOf(t.attrs), [TextNode(blanks + raw, false)], blanks + raw, m);
    case Prose(words, gaps) =>
      InnerAt(s, b, ProseText(words, gaps), t.name);
      ProseValue(s, b + 1, words, gaps, m);
      EndSpelled(s, b, t.name, AttrsOf(t.attrs), [TextNode(OneBlank(words), false)], ProseText(words, gaps), m);
  }

  lemma BodyGood(t: Spelt, m: Mode)
    requires Good(t, m)
    ensures t.body.Filled? ==> Blanks(t.body.gap) && GoodKids(t.body.kids, m)
    ensures t.body.OnlyText? ==>
      && ValidText(t.body.text, m) && Blanks(t.body.front) && Blanks(t.body.back)
      && (!m.condense ==> t.body.front == "" && t.body.back == "")
    ensures t.body.Kept? ==>
      && !m.condense && Blanks(t.body.blanks) && Readable(t.body.blanks + t.body.raw, 0, m.enc)
      && Solid(t.body.raw, m.enc)
    ensures t.body.Prose? ==> m.condense && IsProse(t.body.words, t.body.gaps, m.enc)
  {}

  lemma ClosedSpelled(s: string, b: nat, name: string, attrs: seq<Attr>, m: Mode)
    requires b < |s| && Has(s, b, "/>")
    ensures ParseRest(s, b, m, name, attrs) == Ok(Element(name, attrs, []), b + 2)
  {
    hide ParseAttr, ParseValue;
    HasChar(s, b, "/>", 0);
    HasChar(s, b, "/>", 1);
    assert Skip(s, b, m.enc) == b by { NoBomHere(s, b); }
  }

  /** Between '>' and the end tag. */
  lemma InnerAt(s: string, b: nat, inner: string, name: string)
    requires Has(s, b, ">" + inner + ("</" + name + ">"))
    ensures b < |s| && s[b] == '>' && Has(s, b + 1, inner) && Has(s, b + 1 + |inner|, "</")
    ensures Has(s, b + 1 + |inner|, "</" + name + ">")
  {
    HasSplit(s, b, ">" + inner, "</" + name + ">");
    HasSplit(s, b, ">", inner);
    HasChar(s, b, ">", 0);
    assert "</" + name + ">" == "</" + (name + ">");
    HasSplit(s, b + 1 + |inner|, "</", name + ">");
  }

  lemma EndSpelled(s: string, b: nat, name: string, attrs: seq<Attr>, kids: seq<Tree>, inner: string, m: Mode)
    requires Has(s, b, ">" + inner + ("</" + name + ">")) && b < |s|
    requires b + 1 <= |s| && ParseValue(s, b + 1, m) == Ok(kids, b + 1 + |inner|)
    ensures ParseRest(s, b, m, name, attrs) == Ok(Element(name, attrs, kids), b + |">" + inner + ("</" + name + ">")|)
  {
    hide ParseAttr, ParseValue, Has;
    InnerAt(s, b, inner, name);
    HasFits(s, b + 1 + |inner|, "</" + name + ">");
    assert Skip(s, b, m.enc) == b by { NoBomHere(s, b); }
  }

  function SpellDocument(roots: seq<Kid>, gap: string): string {
    SpellKids(roots) + gap
  }

  /** A root behind white space. */
  lemma RootSpelled(s: string, p: nat, kid: Kid, m: Mode)
    requires Blanks(kid.gap) && Good(kid.elem, m) && Has(s, p, kid.gap) && Has(s, p + |kid.gap|, Spell(kid.elem))
    ensures p <= |s|
    ensures var next := p + |kid.gap| + |Spell(kid.elem)|;
            next <= |s| && ParseRoots(s, p, m) == Prepend([TreeOf(kid.elem)], ParseRoots(s, next, m))
  {
    hide ParseElement, Has, Spell, Good, TreeOf, Blanks, IsBom, SpellAttrs, SpellBody, AttrsOf, ParseRest;
    var b := p + |kid.gap|;
    HasFits(s, b, Spell(kid.elem));
    ElementSpelled(s, b, kid.elem, m);
    StartSpelled(s, b, kid.elem, m);
    ToTag(s, p, kid.gap, m);
  }

  lemma {:induction false} RootsSpelled(s: string, p: nat, roots: seq<Kid>, gap: string, m: Mode)
    requires GoodKids(roots, m) && Blanks(gap) && Has(s, p, SpellDocument(roots, gap))
    requires p + |SpellDocument(roots, gap)| == |s|
    ensures ParseRoots(s, p, m) == Ok(TreesOf(roots), |s|)
    decreases roots
  {
    hide ParseRoots, Has, Spell, Good, TreeOf, Blanks;
    if roots == [] {
      assert SpellDocument(roots, gap) == gap;
      NothingMore(s, p, gap, m);
    } else {
      var kid, rest := roots[0], SpellDocument(roots[1..], gap);
      var first := kid.gap + Spell(kid.elem);
      assert SpellDocument(roots, gap) == first + rest;
      HasSplit(s, p, first, rest);
      HasSplit(s, p, kid.gap, Spell(kid.elem));
      RootSpelled(s, p, kid, m);
      RootsSpelled(s, p + |first|, roots[1..], gap, m);
    }
  }

  lemma NothingMore(s: string, p: nat, gap: string, m: Mode)
    requires Blanks(gap) && Has(s, p, gap) && p + |gap| == |s|
    ensures ParseRoots(s, p, m) == Ok([], |s|)
  {
    BlanksAt(s, p, gap);
    SkipWhite(s, p, |s|, m.enc);
  }

  /** A document of elements, with any white space in and between the tags and any
      spelling of the values, is read as the trees that are meant, to its end. */
  lemma DocumentSpelled(roots: seq<Kid>, gap: string, m: Mode)
    requires roots != [] && GoodKids(roots, m) && Blanks(gap)
    ensures var s := SpellDocument(roots, gap); ParseDocument(s, m) == Ok(TreesOf(roots), |s|)
  {
    hide ParseRoots, GoodKids, Blanks, SpellBody, SpellAttrs;
    var s := SpellDocument(roots, gap);
    assert s[0..|s|] == s;
    RootsSpelled(s, 0, roots, gap, m);
    assert s != "" by { assert Spell(roots[0].elem) != ""; }
  }
}
