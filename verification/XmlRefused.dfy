/** The errors of documents that go wrong in a tag, whatever stands behind, and what is
    left of them. */
module XmlRefused {
  import opened CStrings
  import opened XmlText
  import opened XmlEscaping
  import opened XmlTree
  import opened XmlParser
  import opened XmlRoundTrip
  import opened XmlBuilt
  import opened XmlSpelling
  import opened XmlCut

  /** An element up to where it goes wrong. Three end with the text: in the name, in white
      space behind it, or behind an attribute. In the others what follows is wrong: it is
      no name, no '=' behind a name, no ';' behind the "&#" in a value, no '>' behind a
      slash, or another end tag. */
  datatype Defect =
    | EndsInName
    | EndsInSpace(space: string)
    | EndsInAttr(last: SpeltAttr)
    | NotName(space: string)
    | NotEqual(space: string, name: string, left: string)
    | OpenReference(last: SpeltAttr)
    | LoneSlash(space: string)
    | OtherEnd(space: string, kids: seq<Kid>, gap: string)

  datatype Broken = Broken(name: string, attrs: seq<SpeltAttr>, defect: Defect)

  function DefectText(d: Defect): string {
    match d
    case EndsInName => ""
    case EndsInSpace(space) => space
    case EndsInAttr(last) => SpellAttr(last)
    case NotName(space) => space
    case NotEqual(space, name, left) => space + (name + left)
    case OpenReference(last) => last.front + (Head(last) + OpenValue(last))
    case LoneSlash(space) => space + "/"
    case OtherEnd(space, kids, gap) => space + (">" + (SpellKids(kids) + gap) + "</")
  }

  /** A quote, the value, and a reference that is not closed. */
  function OpenValue(a: SpeltAttr): string {
    (if a.form.Bare? then "" else [a.form.quote]) + (a.attr.value + "&#")
  }

  function BrokenText(t: Broken): string {
    "<" + t.name + SpellAttrs(t.attrs) + DefectText(t.defect)
  }

  /** What stands behind is as wrong as it should be. */
  predicate GoesWrong(t: Broken, tail: string, m: Mode) {
    match t.defect
    case EndsInName => tail == "" && t.attrs == []
    case EndsInSpace(space) => tail == "" && space != "" && Blanks(space)
    case EndsInAttr(last) => tail == "" && last.front != "" && GoodAttr(last, m.enc)
    case NotName(space) => space != "" && Blanks(space) && Wrong(tail) && !Letter(tail[0]) && tail[0] !in "_/>"
    case NotEqual(space, name, left) =>
      && space != "" && Blanks(space) && Fine(name, m.enc) && Blanks(left)
      && Wrong(tail) && tail[0] != '=' && (left == "" ==> !NameText("_" + [tail[0]]))
    case OpenReference(last) =>
      last.front != "" && GoodAttr(last, m.enc) && last.form.Raw? && tail != "" && ';' !in tail
    case LoneSlash(space) => Blanks(space) && (tail == "" || tail[0] != '>')
    case OtherEnd(space, kids, gap) => Blanks(space) && GoodKids(kids, m) && Blanks(gap) && !(t.name + ">" <= tail)
  }

  predicate Wrong(tail: string) {
    tail != "" && tail[0] as int < 127 && !Blank(tail[0])
  }

  /** The start tag as far as it goes is in order. */
  predicate GoodStart(t: Broken, m: Mode) {
    && Fine(t.name, m.enc) && GoodAttrs(t.attrs, m.enc) && Different(AttrsOf(t.attrs))
    && (t.attrs != [] ==> t.attrs[0].front != "")
  }

  function ErrorOf(d: Defect): Error {
    match d
    case EndsInName => FailedToReadElementName
    case EndsInSpace(_) => ReadingAttributes
    case EndsInAttr(_) => ParsingElement
    case NotName(_) => ReadingAttributes
    case NotEqual(_, _, _) => ReadingAttributes
    case OpenReference(_) => ParsingElement
    case LoneSlash(_) => ParsingEmpty
    case OtherEnd(_, _, _) => ReadingEndTag
  }

  /** What is left of it: an attribute that ends the text is lost, and the children that
      are closed stay. */
  function BrokenTree(t: Broken): Tree {
    Element(t.name, AttrsOf(t.attrs), if t.defect.OtherEnd? then TreesOf(t.defect.kids) else [])
  }

  /** A tree in the open elements around it. */
  function Around(path: seq<Level>, t: Tree): Tree
    decreases |path|
  {
    if path == [] then t
    else Element(path[0].name, AttrsOf(path[0].attrs), TreesOf(path[0].kids) + [Around(path[1..], t)])
  }

  // ---------- the start tag ----------

  function LevelOf(t: Broken): Level {
    Level(t.name, t.attrs, "", [], "")
  }

  lemma LevelIsGood(t: Broken, m: Mode)
    requires GoodStart(t, m)
    ensures Good(AsSpelt(LevelOf(t)), m)
  {
    hide Fine, GoodAttrs, Different;
  }

  /** The parts of a broken element in place. */
  lemma BrokenParts(s: string, p: nat, t: Broken)
    requires Has(s, p, BrokenText(t))
    ensures var n := p + 1 + |t.name|;
            && p < |s| && s[p] == '<' && Has(s, p + 1, t.name) && Has(s, n, SpellAttrs(t.attrs))
            && Has(s, n + |SpellAttrs(t.attrs)|, DefectText(t.defect))
            && p + |BrokenText(t)| == n + |SpellAttrs(t.attrs)| + |DefectText(t.defect)|
  {
    hide Has, SpellAttrs, DefectText;
    HasSplit(s, p, "<" + t.name + SpellAttrs(t.attrs), DefectText(t.defect));
    HasSplit(s, p, "<" + t.name, SpellAttrs(t.attrs));
    HasSplit(s, p, "<", t.name);
    HasFits(s, p, "<");
    HasChar(s, p, "<", 0);
  }

  /** Name and attributes are read where something ends them. */
  lemma StartRead(s: string, p: nat, t: Broken, m: Mode)
    requires GoodStart(t, m) && Has(s, p, BrokenText(t))
    requires var q := p + 1 + |t.name| + |SpellAttrs(t.attrs)|; q < |s| && EndsBare(s[q])
    ensures var q := p + 1 + |t.name| + |SpellAttrs(t.attrs)|;
            && p + 1 < |s| && s[p] == '<' && NameStart(s[p + 1]) && Skip(s, p, m.enc) == p
            && ParseElement(s, p, m) == ParseRest(s, q, m, t.name, AttrsOf(t.attrs))
            && BuiltElement(s, p, m) == BuiltRest(s, q, m, t.name, AttrsOf(t.attrs))
  {
    hide Has, SpellAttrs, ParseElement, ParseRest, Good, EndsBare, Fine, BrokenText, DefectText, NameChar, Skip;
    hide BuiltElement, BuiltRest, AttrsOf, GoodStart, Blanks;
    BrokenParts(s, p, t);
    LevelIsGood(t, m);
    GoodName(t, m);
    NameEnds(s, p + 1 + |t.name|, LevelOf(t), m);
    NameSpelled(s, p, t.name, m);
    NameBuilt(s, p, t.name, m);
    AttrsPassed(s, p + 1 + |t.name|, LevelOf(t), m);
  }

  lemma FirstIsBlank(s: string, q: nat, space: string)
    requires space != "" && Blanks(space) && Has(s, q, space)
    ensures q < |s| && EndsBare(s[q])
  {
    HasFits(s, q, space);
    HasChar(s, q, space, 0);
    assert Blank(space[0]);
  }

  // ---------- the defects ----------

  lemma InSpace(s: string, q: nat, space: string, m: Mode, name: string, attrs: seq<Attr>)
    requires Has(s, q, space) && Blanks(space) && q + |space| == |s| && q < |s|
    ensures ParseRest(s, q, m, name, attrs) == Fail(Some(ReadingAttributes))
    ensures BuiltRest(s, q, m, name, attrs) == Element(name, attrs, [])
  {
    hide ParseAttr, ParseValue, BuiltValue, Has;
    BlanksAt(s, q, space);
    SkipWhite(s, q, |s|, m.enc);
  }

  lemma BehindAttr(s: string, q: nat, a: SpeltAttr, m: Mode, name: string, attrs: seq<Attr>)
    requires GoodAttr(a, m.enc) && Has(s, q, SpellAttr(a)) && q + |SpellAttr(a)| == |s| && q < |s|
    ensures ParseRest(s, q, m, name, attrs) == Fail(Some(ParsingElement))
    ensures BuiltRest(s, q, m, name, attrs) == Element(name, attrs, [])
  {
    hide ParseAttr, ParseValue, BuiltValue, Has, SpellAttr, GoodAttr, HasAttr;
    AttrSpelled(s, q, a, m.enc);
    SkipTwice(s, q, m.enc);
    SameAttr(s, q, m.enc);
  }

  /** Behind white space something stands that is no name. */
  lemma NoNameThere(s: string, q: nat, space: string, m: Mode, name: string, attrs: seq<Attr>)
    requires Has(s, q, space) && Blanks(space) && q + |space| < |s|
    requires var c := s[q + |space|];
             c as int < 127 && !Blank(c) && !Letter(c) && c !in "_/>"
    ensures ParseRest(s, q, m, name, attrs) == Fail(Some(ReadingAttributes))
    ensures BuiltRest(s, q, m, name, attrs) == Element(name, attrs, [])
  {
    hide ParseAttr, ParseValue, BuiltValue, Has, IsBom;
    var b := q + |space|;
    NoBomHere(s, b);
    PastBlanks(s, q, space, m.enc);
    assert s[b] != '/' && s[b] != '>' && s[b] != '_';
    assert Has(s, b, "") by { WholeNothing(s, b); }
    NoName(s, b, "", m.enc);
  }

  lemma WholeNothing(s: string, b: nat)
    ensures b <= |s| ==> Has(s, b, "")
  {}

  lemma NoEqualsThere(
      s: string, q: nat, space: string, n: string, left: string, m: Mode, name: string, attrs: seq<Attr>)
    requires Has(s, q, space + (n + left)) && Blanks(space) && Fine(n, m.enc) && Blanks(left)
    requires var e := q + |space + (n + left)|;
             e < |s| && s[e] as int < 127 && !Blank(s[e]) && s[e] != '='
             && (left == "" ==> !NameText("_" + [s[e]]))
    ensures ParseRest(s, q, m, name, attrs) == Fail(Some(ReadingAttributes))
    ensures BuiltRest(s, q, m, name, attrs) == Element(name, attrs, [])
  {
    hide ParseAttr, ParseValue, BuiltValue, Has, IsBom, Fine, Blanks, Skip;
    var b := q + |space|;
    HasSplit(s, q, space, n + left);
    HasSplit(s, b, n, left);
    NoEquals(s, b, n, left, m.enc);
    NameThere(s, b, n, left, m.enc);
    SkipFront(s, q, space, m.enc);
  }

  /** A name is not skipped. */
  lemma NameThere(s: string, b: nat, n: string, left: string, enc: Encoding)
    requires Has(s, b, n) && Has(s, b + |n|, left) && Fine(n, enc) && Blanks(left)
    requires b + |n| + |left| < |s| && s[b + |n| + |left|] as int < 127
    ensures b < |s| && Skip(s, b, enc) == b && NameStart(s[b]) && s[b] != '/' && s[b] != '>'
  {
    hide Has, Mark;
    FineIsName(n, enc);
    HasChar(s, b, n, 0);
    if left != "" {
      HasChar(s, b + |n|, left, 0);
      assert Blank(left[0]);
    }
    NameNotSkipped(s, b, n, enc);
  }

  /** A value as it is, and what follows. */
  lemma {:induction false} RawThen(s: string, p: nat, v: string, i: nat, tag: string, enc: Encoding)
    requires i <= |v| && Readable(v, i, enc) && '&' !in v && IsTextTag(tag) && tag[0] !in v && Has(s, p, v[i..])
    ensures p + |v| - i <= |s|
    ensures var rest := ReadKeep(s, p + |v| - i, tag, enc);
            ReadKeep(s, p, tag, enc) == Chunk(v[i..] + rest.text, rest.next)
    decreases |v| - i
  {
    hide Has, Char, ReadKeep, Readable;
    HasFits(s, p, v[i..]);
    var rest := ReadKeep(s, p + |v| - i, tag, enc);
    if i == |v| {
      assert v[i..] + rest.text == rest.text;
    } else {
      var n := Unit(v, i, enc);
      RawUnit(s, p, v, i, tag, enc);
      KeepStep(s, p, tag, enc, v[i..i + n], p + n);
      RawThen(s, p + n, v, i + n, tag, enc);
      Sliced(v, i, n);
      Assoc(v[i..i + n], v[i + n..], rest.text);
    }
  }

  lemma RefIsOpen(s: string, p: nat, tag: string, enc: Encoding)
    requires Has(s, p, "&#") && p + 2 < |s| && (forall k :: p + 2 <= k < |s| ==> s[k] != ';')
    requires tag != "" && tag[0] != '&'
    ensures ReadKeep(s, p, tag, enc).next == Null
  {
    hide RefLoop;
    HasChar(s, p, "&#", 0);
    HasChar(s, p, "&#", 1);
    TagFirst(s, p, tag);
    assert Char(s, p, enc) == Chunk("", Null);
  }

  /** A value with an open reference fails without an error. */
  lemma ValueIsOpen(s: string, q: nat, a: SpeltAttr, enc: Encoding)
    requires a.form.Raw? && CanSpell(a.attr.value, a.form, enc) && Has(s, q, OpenValue(a))
    requires var r := q + |OpenValue(a)|; r < |s| && forall k :: r <= k < |s| ==> s[k] != ';'
    ensures q < |s| && s[q] == a.form.quote && AttrValue(s, q, enc) == Fail(None)
  {
    hide Has, ReadKeep, Readable;
    var tag, v := [a.form.quote], a.attr.value;
    HasSplit(s, q, tag, v + "&#");
    HasSplit(s, q + 1, v, "&#");
    HasFits(s, q, tag);
    HasChar(s, q, tag, 0);
    assert v[0..] == v && IsTextTag(tag);
    RawThen(s, q + 1, v, 0, tag, enc);
    RefIsOpen(s, q + 1 + |v|, tag, enc);
  }

  lemma OpenThere(s: string, q: nat, a: SpeltAttr, m: Mode, name: string, attrs: seq<Attr>)
    requires a.form.Raw? && GoodAttr(a, m.enc) && Has(s, q, a.front + (Head(a) + OpenValue(a)))
    requires var r := q + |a.front + (Head(a) + OpenValue(a))|; r < |s| && forall k :: r <= k < |s| ==> s[k] != ';'
    ensures ParseRest(s, q, m, name, attrs) == Fail(Some(ParsingElement))
    ensures BuiltRest(s, q, m, name, attrs) == Element(name, attrs, [])
  {
    hide ParseAttr, ParseValue, BuiltValue, Has, AttrValue, OpenValue, CanSpell, Blanks, Fine, Skip;
    var v := q + |a.front| + |Head(a)|;
    HasSplit(s, q, a.front, Head(a) + OpenValue(a));
    HasSplit(s, q + |a.front|, Head(a), OpenValue(a));
    ValueIsOpen(s, v, a, m.enc);
    RawIsQuoted(a, m.enc);
    QuoteIsPlain(a.form.quote);
    HeadRead(s, q, a, OpenValue(a), m.enc);
    SkipTwice(s, q, m.enc);
    SameAttr(s, q, m.enc);
  }

  lemma QuoteIsPlain(c: char)
    requires Quote(c)
    ensures c as int < 0x80 && !Blank(c)
  {}

  lemma RawIsQuoted(a: SpeltAttr, enc: Encoding)
    requires a.form.Raw? && GoodAttr(a, enc)
    ensures Quote(a.form.quote)
  {}

  lemma SlashThere(s: string, q: nat, space: string, m: Mode, name: string, attrs: seq<Attr>)
    requires Has(s, q, space + "/") && Blanks(space) && q < |s|
    requires var b := q + |space|; b + 1 < |s| ==> s[b + 1] != '>'
    ensures ParseRest(s, q, m, name, attrs) == Fail(Some(ParsingEmpty))
    ensures BuiltRest(s, q, m, name, attrs) == Element(name, attrs, [])
  {
    hide ParseAttr, ParseValue, BuiltValue, Has, IsBom;
    var b := q + |space|;
    HasSplit(s, q, space, "/");
    HasFits(s, b, "/");
    HasChar(s, b, "/", 0);
    NoBomHere(s, b);
    PastBlanks(s, q, space, m.enc);
  }

  lemma OtherEndThere(
      s: string, q: nat, space: string, kids: seq<Kid>, gap: string, m: Mode, name: string, attrs: seq<Attr>)
    requires Has(s, q, space + (">" + (SpellKids(kids) + gap) + "</")) && Blanks(space) && q < |s|
    requires GoodKids(kids, m) && Blanks(gap)
    requires !Has(s, q + |space| + 1 + |SpellKids(kids) + gap|, EndTag(name))
    ensures ParseRest(s, q, m, name, attrs) == Fail(Some(ReadingEndTag))
    ensures BuiltRest(s, q, m, name, attrs) == Element(name, attrs, TreesOf(kids))
  {
    hide ParseAttr, ParseValue, BuiltValue, Has, IsBom, SpellKids, GoodKids, Blanks, EndTag, TreesOf;
    var b, inner := q + |space|, SpellKids(kids) + gap;
    HasSplit(s, q, space, ">" + inner + "</");
    HasSplit(s, b, ">" + inner, "</");
    HasSplit(s, b, ">", inner);
    HasFits(s, b + 1 + |inner|, "</");
    HasChar(s, b, ">", 0);
    KidsSpelled(s, b + 1, kids, gap, m);
    ClosedKidsBuilt(s, b + 1, kids, gap, m);
    NoBomHere(s, b);
    PastBlanks(s, q, space, m.enc);
  }

  /** The children in front of an end tag. */
  lemma ClosedKidsBuilt(s: string, p: nat, kids: seq<Kid>, gap: string, m: Mode)
    requires GoodKids(kids, m) && Blanks(gap) && Has(s, p, SpellKids(kids) + gap)
    requires Has(s, p + |SpellKids(kids) + gap|, "</")
    ensures p <= |s| && BuiltValue(s, p, m) == TreesOf(kids)
  {
    hide Has, SpellKids, GoodKids, Blanks, TreesOf, ParseValue, BuiltValue;
    var q, end := p + |SpellKids(kids)|, p + |SpellKids(kids) + gap|;
    HasSplit(s, p, SpellKids(kids), gap);
    HasFits(s, end, "</");
    HasChar(s, end, "</", 0);
    HasChar(s, end, "</", 1);
    KidsBuilt(s, p, kids, m);
    ToTag(s, q, gap, m);
    NoneBuilt(s, q, end, m);
    assert TreesOf(kids) + [] == TreesOf(kids);
  }

  lemma NoneBuilt(s: string, q: nat, end: nat, m: Mode)
    requires q <= end && end + 1 < |s| && Skip(s, q, m.enc) == end && s[end] == '<' && s[end + 1] == '/'
    ensures BuiltValue(s, q, m) == []
  {
    hide Skip;
  }

  /** What stands behind "</" is the rest of the end tag, if that is there. */
  lemma ThatTag(s: string, e: nat, name: string, tail: string)
    requires e + 2 <= |s| && s[e + 2..] == tail
    ensures Has(s, e, EndTag(name)) ==> name + ">" <= tail
  {
    if Has(s, e, EndTag(name)) {
      assert EndTag(name) == "</" + (name + ">");
      HasSplit(s, e, "</", name + ">");
      assert s[e + 2..][..|name| + 1] == name + ">";
    }
  }

  lemma {:induction false} NameToEnd(s: string, p: nat)
    requires p <= |s| && forall k :: p <= k < |s| ==> NameChar(s[k])
    ensures NameEnd(s, p) == |s|
    decreases |s| - p
  {
    if p < |s| { NameToEnd(s, p + 1); }
  }

  /** The text ends in the name. */
  lemma InName(s: string, p: nat, name: string, m: Mode)
    requires Fine(name, m.enc) && Has(s, p, "<" + name) && p + 1 + |name| == |s|
    ensures p + 1 < |s| && s[p] == '<' && NameStart(s[p + 1]) && Skip(s, p, m.enc) == p
    ensures ParseElement(s, p, m) == Fail(Some(FailedToReadElementName))
    ensures BuiltElement(s, p, m) == Element(name, [], [])
  {
    hide Has, NameEnd, ParseRest, BuiltRest, IsName, Fine;
    HasSplit(s, p, "<", name);
    HasChar(s, p, "<", 0);
    NameIsThere(s, p + 1, name, m);
    NotMarked(s, p + 1, name, m.enc);
    NoBomHere(s, p);
  }

  lemma NameIsThere(s: string, p: nat, name: string, m: Mode)
    requires Fine(name, m.enc) && Has(s, p, name) && p + |name| == |s|
    ensures p < |s| && NameStart(s[p]) && Name(s, p) == Some(|s|) && s[p..] == name
  {
    hide Has, NameEnd;
    FineIsName(name, m.enc);
    forall k | p <= k < |s| ensures NameChar(s[k]) { HasChar(s, p, name, k - p); }
    HasChar(s, p, name, 0);
    NameToEnd(s, p + 1);
    assert s[p..] == name by { HasRest(s, p, name); }
  }

  lemma NotMarked(s: string, p: nat, name: string, enc: Encoding)
    requires Fine(name, enc) && Has(s, p, name) && p + |name| == |s|
    ensures Skip(s, p, enc) == p
  {
    HasChar(s, p, name, 0);
    if |name| > 1 { HasChar(s, p, name, 1); }
    if |name| > 2 { HasChar(s, p, name, 2); }
  }

  /** A broken element at its '<'. */
  lemma BrokenFails(s: string, p: nat, t: Broken, tail: string, m: Mode)
    requires GoodStart(t, m) && GoesWrong(t, tail, m) && Has(s, p, BrokenText(t))
    requires var e := p + |BrokenText(t)|; e <= |s| && s[e..] == tail
    ensures p + 1 < |s| && s[p] == '<' && NameStart(s[p + 1]) && Skip(s, p, m.enc) == p
    ensures ParseElement(s, p, m) == Fail(Some(ErrorOf(t.defect))) && BuiltElement(s, p, m) == BrokenTree(t)
  {
    hide BuiltElement, BuiltRest, TreesOf, AttrsOf;
    hide ParseElement, ParseRest, Has, SpellAttrs, SpellAttr, SpellKids, BrokenText, Blanks, EndsBare, Skip;
    hide GoodStart, Fine, GoodAttr, GoodKids, Letter, NameText;
    var q, attrs, e := p + 1 + |t.name| + |SpellAttrs(t.attrs)|, AttrsOf(t.attrs), p + |BrokenText(t)|;
    BrokenParts(s, p, t);
    assert tail != "" ==> e < |s| && s[e] == tail[0];
    if t.defect.EndsInName? {
      NoAttrsText(t);
      GoodName(t, m);
      InName(s, p, t.name, m);
    } else {
      DefectEnds(s, q, t, tail, m);
      StartRead(s, p, t, m);
      match t.defect
      case EndsInSpace(space) => InSpace(s, q, space, m, t.name, attrs);
      case EndsInAttr(last) => BehindAttr(s, q, last, m, t.name, attrs);
      case NotName(space) => NoNameThere(s, q, space, m, t.name, attrs);
      case NotEqual(space, name, left) => NoEqualsThere(s, q, space, name, left, m, t.name, attrs);
      case OpenReference(last) =>
        NoneBehind(s, e, tail);
        OpenThere(s, q, last, m, t.name, attrs);
      case LoneSlash(space) => SlashThere(s, q, space, m, t.name, attrs);
      case OtherEnd(space, kids, gap) => OtherEndFails(s, q, t, tail, m);
    }
  }

  lemma NoneBehind(s: string, e: nat, tail: string)
    requires e <= |s| && s[e..] == tail && ';' !in tail
    ensures forall k :: e <= k < |s| ==> s[k] != ';'
  {
    forall k | e <= k < |s| ensures s[k] != ';' { assert s[k] == tail[k - e]; }
  }

  lemma OtherEndFails(s: string, q: nat, t: Broken, tail: string, m: Mode)
    requires GoesWrong(t, tail, m) && t.defect.OtherEnd? && Has(s, q, DefectText(t.defect)) && q < |s|
    requires var e := q + |DefectText(t.defect)|; e <= |s| && s[e..] == tail
    ensures ParseRest(s, q, m, t.name, AttrsOf(t.attrs)) == Fail(Some(ReadingEndTag))
    ensures BuiltRest(s, q, m, t.name, AttrsOf(t.attrs)) == BrokenTree(t)
  {
    hide ParseRest, BuiltRest, TreesOf, AttrsOf, Has, SpellKids, GoodKids, Blanks, EndTag;
    var d := t.defect;
    NotThatTag(s, q, d.space, SpellKids(d.kids) + d.gap, t.name, tail);
    OtherEndThere(s, q, d.space, d.kids, d.gap, m, t.name, AttrsOf(t.attrs));
  }

  lemma NoAttrsText(t: Broken)
    requires t.attrs == [] && t.defect.EndsInName?
    ensures BrokenText(t) == "<" + t.name && AttrsOf(t.attrs) == []
  {
    assert "<" + t.name + "" + "" == "<" + t.name;
  }

  lemma GoodName(t: Broken, m: Mode)
    requires GoodStart(t, m)
    ensures Fine(t.name, m.enc)
  {}

  lemma NotThatTag(s: string, q: nat, space: string, inner: string, name: string, tail: string)
    requires !(name + ">" <= tail)
    requires var e := q + |space + (">" + inner + "</")|; e <= |s| && s[e..] == tail
    ensures !Has(s, q + |space| + 1 + |inner|, EndTag(name))
  {
    hide Has;
    ThatTag(s, q + |space| + 1 + |inner|, name, tail);
  }

  /** What follows the attributes ends them. */
  lemma DefectEnds(s: string, q: nat, t: Broken, tail: string, m: Mode)
    requires GoesWrong(t, tail, m) && !t.defect.EndsInName? && Has(s, q, DefectText(t.defect))
    ensures q < |s| && EndsBare(s[q])
  {
    hide Has, SpellKids, Fine, GoodAttr, GoodKids;
    match t.defect
    case EndsInSpace(space) => FirstIsBlank(s, q, space);
    case EndsInAttr(last) =>
      HasSplit(s, q, last.front, Head(last) + Spelled(last.attr.value, last.form));
      FrontIsBlank(last, m.enc);
      FirstIsBlank(s, q, last.front);
    case NotName(space) => FirstIsBlank(s, q, space);
    case NotEqual(space, name, left) =>
      HasSplit(s, q, space, name + left);
      FirstIsBlank(s, q, space);
    case OpenReference(last) =>
      HasSplit(s, q, last.front, Head(last) + OpenValue(last));
      FrontIsBlank(last, m.enc);
      FirstIsBlank(s, q, last.front);
    case LoneSlash(space) => BlankOr(s, q, space, "/");
    case OtherEnd(space, kids, gap) => BlankOr(s, q, space, ">" + (SpellKids(kids) + gap) + "</");
  }

  lemma FrontIsBlank(a: SpeltAttr, enc: Encoding)
    requires GoodAttr(a, enc)
    ensures Blanks(a.front)
  {}

  lemma BlankOr(s: string, q: nat, space: string, more: string)
    requires Has(s, q, space + more) && Blanks(space) && more != "" && EndsBare(more[0])
    ensures q < |s| && EndsBare(s[q])
  {
    HasSplit(s, q, space, more);
    if space != "" {
      FirstIsBlank(s, q, space);
    } else {
      HasFits(s, q, more);
      HasChar(s, q, more, 0);
    }
  }

  // ---------- what it stands in ----------

  /** A child that fails with an error behind closed ones. */
  lemma ChildFails(s: string, p: nat, kids: seq<Kid>, gap: string, e: Error, m: Mode)
    requires GoodKids(kids, m) && Blanks(gap) && Has(s, p, SpellKids(kids) + gap)
    requires var c := p + |SpellKids(kids) + gap|;
             && c + 1 < |s| && s[c] == '<' && NameStart(s[c + 1]) && ParseElement(s, c, m) == Fail(Some(e))
    ensures p <= |s| && ParseValue(s, p, m) == Fail(Some(e))
    ensures BuiltValue(s, p, m)
         == TreesOf(kids) + [BuiltElement(s, p + |SpellKids(kids) + gap|, m)]
  {
    hide ParseElement, BuiltElement, ParseValue, BuiltValue, Has, SpellKids, GoodKids, Blanks, TreesOf, NameStart;
    var q, c := p + |SpellKids(kids)|, p + |SpellKids(kids) + gap|;
    HasSplit(s, p, SpellKids(kids), gap);
    KidsBuilt(s, p, kids, m);
    ToTag(s, q, gap, m);
    NoEndTag(s, c);
    NextFails(s, q, c, e, m);
  }

  lemma NextFails(s: string, q: nat, c: nat, e: Error, m: Mode)
    requires q < |s| && Skip(s, q, m.enc) == c && c + 1 < |s| && s[c] == '<' && NameStart(s[c + 1])
    requires !Has(s, c, "</") && ParseElement(s, c, m) == Fail(Some(e))
    ensures ParseValue(s, q, m) == Fail(Some(e)) && BuiltValue(s, q, m) == [BuiltElement(s, c, m)]
  {
    hide ParseElement, BuiltElement, Skip, Has;
  }

  /** And the open element around it fails with that error. */
  lemma ContentFails(s: string, b: nat, e: Error, m: Mode, name: string, attrs: seq<Attr>)
    requires b < |s| && s[b] == '>' && Skip(s, b, m.enc) == b && ParseValue(s, b + 1, m) == Fail(Some(e))
    ensures ParseRest(s, b, m, name, attrs) == Fail(Some(e))
    ensures BuiltRest(s, b, m, name, attrs) == Element(name, attrs, BuiltValue(s, b + 1, m))
  {
    hide ParseValue, ParseAttr, Skip, BuiltValue;
  }

  lemma {:induction false} OpenFails(s: string, p: nat, path: seq<Level>, e: Error, m: Mode)
    requires GoodPath(path, m) && Has(s, p, OpenText(path))
    requires var c := p + |OpenText(path)|;
             && c + 1 < |s| && s[c] == '<' && NameStart(s[c + 1]) && ParseElement(s, c, m) == Fail(Some(e))
    ensures p + 1 < |s| && s[p] == '<' && NameStart(s[p + 1]) && ParseElement(s, p, m) == Fail(Some(e))
    ensures BuiltElement(s, p, m) == Around(path, BuiltElement(s, p + |OpenText(path)|, m))
    decreases |path|
  {
    hide ParseElement, BuiltElement, Has, NameStart, OpenText, GoodPath, TreesOf, AttrsOf;
    PathRest(path, m);
    var c := OpenWhere(s, p, path, m);
    if |path| == 1 {
      NoOpenText();
    } else {
      OpenFails(s, c, path[1..], e, m);
    }
    OneOpenFails(s, p, path, e, m);
  }

  lemma PathRest(path: seq<Level>, m: Mode)
    requires GoodPath(path, m)
    ensures path != [] && (|path| > 1 ==> GoodPath(path[1..], m))
    ensures |path| == 1 ==> path[1..] == []
  {
    hide Good;
    assert forall i :: 0 <= i < |path[1..]| ==> path[1..][i] == path[i + 1];
  }

  /** Where the child of the outermost element begins that is open or fails. */
  lemma OpenWhere(s: string, p: nat, path: seq<Level>, m: Mode) returns (c: nat)
    requires GoodPath(path, m) && Has(s, p, OpenText(path))
    ensures c == p + 2 + |path[0].name| + |SpellAttrs(path[0].attrs)| + |path[0].space|
                   + |SpellKids(path[0].kids) + path[0].gap|
    ensures p + |OpenText(path)| == c + |OpenText(path[1..])| && Has(s, c, OpenText(path[1..]))
    ensures |path| == 1 ==> path[1..] == []
  {
    hide Has, Good, OpenText, SpellAttrs, SpellKids;
    OpenParts(s, p, path);
    var l := path[0];
    c := p + 2 + |l.name| + |SpellAttrs(l.attrs)| + |l.space| + |SpellKids(l.kids) + l.gap|;
  }

  lemma OneOpenFails(s: string, p: nat, path: seq<Level>, e: Error, m: Mode)
    requires GoodPath(path, m) && Has(s, p, OpenText(path))
    requires var l := path[0];
             var c := p + 2 + |l.name| + |SpellAttrs(l.attrs)| + |l.space| + |SpellKids(l.kids) + l.gap|;
             && c + 1 < |s| && s[c] == '<' && NameStart(s[c + 1]) && ParseElement(s, c, m) == Fail(Some(e))
    ensures p + 1 < |s| && s[p] == '<' && NameStart(s[p + 1]) && ParseElement(s, p, m) == Fail(Some(e))
    ensures var l := path[0];
            var c := p + 2 + |l.name| + |SpellAttrs(l.attrs)| + |l.space| + |SpellKids(l.kids) + l.gap|;
            BuiltElement(s, p, m) == Element(l.name, AttrsOf(l.attrs), TreesOf(l.kids) + [BuiltElement(s, c, m)])
  {
    hide ParseElement, ParseRest, ParseValue, Has, Good, Skip, OpenText, SpellAttrs, AttrsOf, Blanks, GoodKids;
    hide SpellKids, NameStart, GoodPath, BuiltElement, BuiltRest, BuiltValue, TreesOf;
    PathFirst(path, m);
    var l := path[0];
    var b := p + 1 + |l.name| + |SpellAttrs(l.attrs)| + |l.space|;
    OpenStart(s, p, path, m);
    KidsPlace(s, p, path);
    ChildFails(s, b + 1, l.kids, l.gap, e, m);
    ContentFails(s, b, e, m, l.name, AttrsOf(l.attrs));
  }

  lemma PathFirst(path: seq<Level>, m: Mode)
    requires GoodPath(path, m)
    ensures path != [] && Blanks(path[0].gap) && GoodKids(path[0].kids, m)
  {
    hide Good;
    BodyGood(AsSpelt(path[0]), m);
  }

  lemma KidsPlace(s: string, p: nat, path: seq<Level>)
    requires path != [] && Has(s, p, OpenText(path))
    ensures var l := path[0];
            Has(s, p + 2 + |l.name| + |SpellAttrs(l.attrs)| + |l.space|, SpellKids(l.kids) + l.gap)
  {
    hide Has, OpenText, SpellAttrs, SpellKids;
    OpenParts(s, p, path);
  }

  /** Roots that are read in front of one that fails. */
  lemma {:induction false} RootFails(s: string, p: nat, roots: seq<Kid>, gap: string, e: Error, m: Mode)
    requires GoodKids(roots, m) && Blanks(gap) && Has(s, p, SpellKids(roots)) && Has(s, p + |SpellKids(roots)|, gap)
    requires var c := p + |SpellKids(roots)| + |gap|;
             && c + 1 < |s| && s[c] == '<' && NameStart(s[c + 1]) && ParseElement(s, c, m) == Fail(Some(e))
    ensures p <= |s| && ParseRoots(s, p, m) == Fail(Some(e))
    ensures BuiltRoots(s, p, m) == TreesOf(roots) + [BuiltElement(s, p + |SpellKids(roots)| + |gap|, m)]
    decreases roots
  {
    hide ParseElement, ParseRoots, BuiltElement, BuiltRoots, Has, Spell, Good, TreeOf, Blanks, NameStart;
    if roots == [] {
      ToTag(s, p, gap, m);
      FirstFails(s, p, p + |gap|, e, m);
      assert [] + BuiltRoots(s, p, m) == BuiltRoots(s, p, m);
    } else {
      var kid, rest := roots[0], roots[1..];
      var first := kid.gap + Spell(kid.elem);
      HasSplit(s, p, first, SpellKids(rest));
      HasSplit(s, p, kid.gap, Spell(kid.elem));
      RootSpelled(s, p, kid, m);
      RootBuilt(s, p, kid, m);
      RootFails(s, p + |first|, rest, gap, e, m);
      var last := [BuiltElement(s, p + |SpellKids(roots)| + |gap|, m)];
      assert [TreeOf(kid.elem)] + (TreesOf(rest) + last) == ([TreeOf(kid.elem)] + TreesOf(rest)) + last;
    }
  }

  /** A root that is read is left whole. */
  lemma RootBuilt(s: string, p: nat, kid: Kid, m: Mode)
    requires Blanks(kid.gap) && Good(kid.elem, m) && Has(s, p, kid.gap) && Has(s, p + |kid.gap|, Spell(kid.elem))
    ensures p <= |s|
    ensures var next := p + |kid.gap| + |Spell(kid.elem)|;
            next <= |s| && BuiltRoots(s, p, m) == [TreeOf(kid.elem)] + BuiltRoots(s, next, m)
  {
    hide ParseElement, BuiltElement, Has, Spell, Good, TreeOf, Blanks, IsBom, SpellAttrs, SpellBody, AttrsOf;
    hide ParseRest, Skip, NameStart;
    var b := p + |kid.gap|;
    HasFits(s, b, Spell(kid.elem));
    ElementSpelled(s, b, kid.elem, m);
    ElementIsBuilt(s, b, m);
    StartSpelled(s, b, kid.elem, m);
    ToTag(s, p, kid.gap, m);
  }

  lemma FirstFails(s: string, p: nat, c: nat, e: Error, m: Mode)
    requires p <= |s| && Skip(s, p, m.enc) == c && c + 1 < |s| && s[c] == '<' && NameStart(s[c + 1])
    requires ParseElement(s, c, m) == Fail(Some(e))
    ensures ParseRoots(s, p, m) == Fail(Some(e)) && BuiltRoots(s, p, m) == [BuiltElement(s, c, m)]
  {
    hide ParseElement, BuiltElement, Skip;
  }

  // ---------- the law ----------

  /** A document with an element that goes wrong, behind any roots and in any open
      elements, is refused with the error of that defect, whatever stands behind it. What
      is left is the tree up to there. */
  lemma Refused(roots: seq<Kid>, gap: string, path: seq<Level>, t: Broken, tail: string, m: Mode)
    requires GoodKids(roots, m) && Blanks(gap) && (path == [] || GoodPath(path, m))
    requires GoodStart(t, m) && GoesWrong(t, tail, m)
    ensures var s := SpellKids(roots) + (gap + (OpenText(path) + (BrokenText(t) + tail)));
            && ParseDocument(s, m) == Fail(Some(ErrorOf(t.defect)))
            && BuiltRoots(s, 0, m) == TreesOf(roots) + [Around(path, BrokenTree(t))]
  {
    hide BuiltElement, BuiltRoots, BrokenTree, TreesOf, NameStart;
    hide ParseElement, ParseRoots, Has, SpellKids, OpenText, BrokenText, GoodKids, Blanks, GoodPath, GoodStart;
    hide GoesWrong, ErrorOf, Skip;
    var inner := OpenText(path) + (BrokenText(t) + tail);
    var s, b := SpellKids(roots) + (gap + inner), |SpellKids(roots)| + |gap|;
    var c := b + |OpenText(path)|;
    Pieces(SpellKids(roots), gap, OpenText(path), BrokenText(t), tail);
    BrokenFails(s, c, t, tail, m);
    if path == [] { NoOpenText(); } else { OpenFails(s, b, path, ErrorOf(t.defect), m); }
    RootFails(s, 0, roots, gap, ErrorOf(t.defect), m);
  }

  /** Where the pieces of a text stand. */
  lemma Pieces(a: string, b: string, c: string, d: string, tail: string)
    ensures var s := a + (b + (c + (d + tail)));
            && Has(s, 0, a) && Has(s, |a|, b) && Has(s, |a| + |b|, c) && Has(s, |a| + |b| + |c|, d)
            && |a| + |b| + |c| + |d| <= |s| && s[|a| + |b| + |c| + |d|..] == tail
  {
    hide Has;
    var s := a + (b + (c + (d + tail)));
    WholeText(s);
    HasSplit(s, 0, a, b + (c + (d + tail)));
    HasSplit(s, |a|, b, c + (d + tail));
    HasSplit(s, |a| + |b|, c, d + tail);
    HasSplit(s, |a| + |b| + |c|, d, tail);
    HasRest(s, |a| + |b| + |c| + |d|, tail);
  }

  lemma HasRest(s: string, p: nat, t: string)
    requires Has(s, p, t) && p + |t| == |s|
    ensures p <= |s| && s[p..] == t
  {}
}
