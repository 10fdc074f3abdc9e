/** What is read, and what is left, of a document that ends before its end tags. */
module XmlCut {
  import opened CStrings
  import opened XmlText
  import opened XmlTree
  import opened XmlParser
  import opened XmlRoundTrip
  import opened XmlBuilt
  import opened XmlSpelling

  /** An element that is open where the text ends: its start tag, the children that are
      closed, and the white space behind them. */
  datatype Level = Level(name: string, attrs: seq<SpeltAttr>, space: string, kids: seq<Kid>, gap: string)

  /** The element without an end tag, as if nothing more was in it. */
  function AsSpelt(l: Level): Spelt {
    Spelt(l.name, l.attrs, l.space, Filled(l.kids, l.gap))
  }

  /** Each element is open in the one in front of it. */
  function OpenText(path: seq<Level>): string
    decreases |path|
  {
    if path == [] then ""
    else
      var l := path[0];
      "<" + l.name + SpellAttrs(l.attrs) + (l.space + ">") + ((SpellKids(l.kids) + l.gap) + OpenText(path[1..]))
  }

  /** The tree as far as it was written. */
  function OpenTree(path: seq<Level>): Tree
    requires path != []
    decreases |path|
  {
    Element(path[0].name, AttrsOf(path[0].attrs),
            TreesOf(path[0].kids) + if |path| == 1 then [] else [OpenTree(path[1..])])
  }

  predicate GoodPath(path: seq<Level>, m: Mode) {
    path != [] && forall i :: 0 <= i < |path| ==> Good(AsSpelt(path[i]), m)
  }

  /** The innermost element has no error when white space ends the text; all others
      have, and so has it when nothing stands behind the last tag. */
  function CutError(path: seq<Level>): Option<Error>
    requires path != []
  {
    if |path| == 1 && path[0].gap != "" then None else Some(ReadingElementValue)
  }

  // ---------- the start tag ----------

  /** Where the parts of an open element stand. */
  lemma OpenParts(s: string, p: nat, path: seq<Level>)
    requires path != [] && Has(s, p, OpenText(path))
    ensures var l := path[0];
            var n := p + 1 + |l.name|;
            var q := n + |SpellAttrs(l.attrs)|;
            var b := q + |l.space|;
            && p < |s| && s[p] == '<' && Has(s, p + 1, l.name) && Has(s, n, SpellAttrs(l.attrs))
            && Has(s, q, l.space) && b < |s| && s[b] == '>' && Has(s, b + 1, SpellKids(l.kids) + l.gap)
            && Has(s, b + 1 + |SpellKids(l.kids) + l.gap|, OpenText(path[1..]))
            && p + |OpenText(path)| == b + 1 + |SpellKids(l.kids) + l.gap| + |OpenText(path[1..])|
  {
    hide Has, SpellAttrs, SpellKids;
    var l := path[0];
    var inner, rest := SpellKids(l.kids) + l.gap, OpenText(path[1..]);
    var n := p + 1 + |l.name|;
    var q := n + |SpellAttrs(l.attrs)|;
    HasSplit(s, p, "<" + l.name + SpellAttrs(l.attrs) + (l.space + ">"), inner + rest);
    HasSplit(s, p, "<" + l.name + SpellAttrs(l.attrs), l.space + ">");
    HasSplit(s, p, "<" + l.name, SpellAttrs(l.attrs));
    HasSplit(s, p, "<", l.name);
    HasSplit(s, q, l.space, ">");
    HasSplit(s, q + |l.space| + 1, inner, rest);
    HasFits(s, q + |l.space|, ">");
    HasChar(s, q + |l.space|, ">", 0);
    HasChar(s, p, "<", 0);
  }

  /** One turn of the attribute loop, for what is left. */
  lemma BuiltTurn(s: string, p: nat, a: SpeltAttr, read: seq<Attr>, name: string, m: Mode)
    requires p + |a.front| < |s| && Skip(s, p, m.enc) == p + |a.front| && NameStart(s[p + |a.front|])
    requires p + |SpellAttr(a)| < |s| && ParseAttr(s, p, m.enc) == Ok(a.attr, p + |SpellAttr(a)|)
    requires !HasAttr(read, a.attr.name)
    ensures BuiltRest(s, p, m, name, read) == BuiltRest(s, p + |SpellAttr(a)|, m, name, read + [a.attr])
  {
    hide BuiltRest, ParseAttr, SpellAttr, HasAttr, Skip;
    SkipTwice(s, p, m.enc);
    SameAttr(s, p, m.enc);
    KeepsAttr(s, p, p + |a.front|, a.attr, p + |SpellAttr(a)|, read, name, m);
  }

  lemma KeepsAttr(s: string, p: nat, q: nat, a: Attr, next: nat, read: seq<Attr>, name: string, m: Mode)
    requires p <= q < |s| && Skip(s, p, m.enc) == q && NameStart(s[q]) && next < |s|
    requires ParseAttr(s, q, m.enc) == Ok(a, next) && !HasAttr(read, a.name)
    ensures BuiltRest(s, p, m, name, read) == BuiltRest(s, next, m, name, read + [a])
  {
    hide BuiltValue, ParseAttr, HasAttr, Skip;
  }

  lemma {:induction false} BuiltAttrs(
      s: string, p: nat, attrs: seq<SpeltAttr>, read: seq<Attr>, name: string, m: Mode)
    requires GoodAttrs(attrs, m.enc) && Different(read + AttrsOf(attrs))
    requires Has(s, p, SpellAttrs(attrs)) && p + |SpellAttrs(attrs)| < |s|
    requires AttrsEnd(s, p + |SpellAttrs(attrs)|, attrs)
    ensures BuiltRest(s, p, m, name, read)
         == BuiltRest(s, p + |SpellAttrs(attrs)|, m, name, read + AttrsOf(attrs))
    decreases |attrs|
  {
    hide Has, SpellAttr, ParseAttr, BuiltRest, GoodAttr, EndsAt;
    if attrs == [] {
      assert read + AttrsOf(attrs) == read;
    } else {
      var a, next := attrs[0], p + |SpellAttr(attrs[0])|;
      FirstEnds(s, p, attrs, m.enc);
      GoodFirst(attrs, m.enc);
      AttrSpelled(s, p, a, m.enc);
      HasFits(s, next, SpellAttrs(attrs[1..]));
      NextIsNew(read, attrs);
      BuiltTurn(s, p, a, read, name, m);
      BuiltAttrs(s, next, attrs[1..], read + [a.attr], name, m);
    }
  }

  /** What ends the attributes of an open element. */
  lemma TagEnds(s: string, q: nat, space: string)
    requires Has(s, q, space) && Blanks(space) && q + |space| < |s| && s[q + |space|] == '>'
    ensures q < |s| && EndsBare(s[q])
  {
    if space != "" {
      HasChar(s, q, space, 0);
      assert Blank(space[0]);
    }
  }

  lemma NameEnds(s: string, n: nat, l: Level, m: Mode)
    requires Good(AsSpelt(l), m) && Has(s, n, SpellAttrs(l.attrs))
    requires n + |SpellAttrs(l.attrs)| < |s| && EndsBare(s[n + |SpellAttrs(l.attrs)|])
    ensures n < |s| && !NameChar(s[n]) && s[n] as int < 0x80
  {
    NameGoesOn(s, n, AsSpelt(l), m);
  }

  /** The start tag is read up to its '>', and both what is read and what is left go on
      there. */
  lemma OpenStart(s: string, p: nat, path: seq<Level>, m: Mode)
    requires GoodPath(path, m) && Has(s, p, OpenText(path))
    ensures var l := path[0];
            var b := p + 1 + |l.name| + |SpellAttrs(l.attrs)| + |l.space|;
            && p + 1 < |s| && s[p] == '<' && NameStart(s[p + 1]) && Skip(s, p, m.enc) == p
            && b < |s| && s[b] == '>' && Skip(s, b, m.enc) == b
            && ParseElement(s, p, m) == ParseRest(s, b, m, l.name, AttrsOf(l.attrs))
            && BuiltElement(s, p, m) == BuiltRest(s, b, m, l.name, AttrsOf(l.attrs))
  {
    hide Has, SpellAttrs, OpenText, ParseElement, ParseRest, BuiltElement, BuiltRest, Good, EndsBare, Blanks, Fine;
    hide Skip, NameChar, IsBom, AttrsOf;
    var l := path[0];
    var n := p + 1 + |l.name|;
    var q := n + |SpellAttrs(l.attrs)|;
    var b := q + |l.space|;
    OpenParts(s, p, path);
    GoodMeans(AsSpelt(l), m);
    TagEnds(s, q, l.space);
    NameEnds(s, n, l, m);
    NameSpelled(s, p, l.name, m);
    NameBuilt(s, p, l.name, m);
    AttrsPassed(s, n, l, m);
    SpacePassed(s, q, l.space, l.name, AttrsOf(l.attrs), m);
  }

  lemma AttrsPassed(s: string, n: nat, l: Level, m: Mode)
    requires Good(AsSpelt(l), m) && Has(s, n, SpellAttrs(l.attrs))
    requires n + |SpellAttrs(l.attrs)| < |s| && EndsBare(s[n + |SpellAttrs(l.attrs)|])
    ensures var q, attrs := n + |SpellAttrs(l.attrs)|, AttrsOf(l.attrs);
            && ParseRest(s, n, m, l.name, []) == ParseRest(s, q, m, l.name, attrs)
            && BuiltRest(s, n, m, l.name, []) == BuiltRest(s, q, m, l.name, attrs)
  {
    hide Has, SpellAttrs, ParseRest, BuiltRest, Good, EndsBare, GoodAttrs, Different;
    GoodMeans(AsSpelt(l), m);
    assert [] + AttrsOf(l.attrs) == AttrsOf(l.attrs);
    AttrsSpelled(s, n, l.attrs, [], l.name, m);
    BuiltAttrs(s, n, l.attrs, [], l.name, m);
  }

  lemma NameBuilt(s: string, p: nat, name: string, m: Mode)
    requires Fine(name, m.enc) && p < |s| && s[p] == '<' && Has(s, p + 1, name)
    requires p + 1 + |name| < |s| && !NameChar(s[p + 1 + |name|]) && s[p + 1 + |name|] as int < 0x80
    ensures BuiltElement(s, p, m) == BuiltRest(s, p + 1 + |name|, m, name, [])
  {
    hide Has, BuiltRest, NameEnd, IsName;
    FineIsName(name, m.enc);
    NameAt(s, p + 1, name, m.enc);
    NameNotSkipped(s, p + 1, name, m.enc);
    NoBomHere(s, p);
  }

  lemma SpacePassed(s: string, q: nat, space: string, name: string, attrs: seq<Attr>, m: Mode)
    requires Has(s, q, space) && Blanks(space) && q + |space| < |s| && s[q + |space|] == '>'
    ensures Skip(s, q + |space|, m.enc) == q + |space|
    ensures ParseRest(s, q, m, name, attrs) == ParseRest(s, q + |space|, m, name, attrs)
    ensures BuiltRest(s, q, m, name, attrs) == BuiltRest(s, q + |space|, m, name, attrs)
  {
    hide ParseAttr, ParseValue, BuiltValue, Has;
    NoBomHere(s, q + |space|);
    PastBlanks(s, q, space, m.enc);
    SkipTwice(s, q, m.enc);
  }

  // ---------- what stands in an open element ----------

  lemma KidBuilt(s: string, p: nat, kid: Kid, m: Mode)
    requires Blanks(kid.gap) && Good(kid.elem, m) && Has(s, p, kid.gap + Spell(kid.elem))
    ensures p <= |s|
    ensures var next := p + |kid.gap + Spell(kid.elem)|;
            next <= |s|
            && ParseValue(s, p, m) == Prepend([TreeOf(kid.elem)], ParseValue(s, next, m))
            && BuiltValue(s, p, m) == [TreeOf(kid.elem)] + BuiltValue(s, next, m)
  {
    hide ParseElement, BuiltElement, Has, Spell, Good, TreeOf, Blanks, SpellAttrs, SpellBody, AttrsOf, IsBom, ParseRest;
    hide BuiltValue, ParseValue, Skip;
    var b := p + |kid.gap|;
    HasSplit(s, p, kid.gap, Spell(kid.elem));
    HasFits(s, b, Spell(kid.elem));
    ElementSpelled(s, b, kid.elem, m);
    ElementIsBuilt(s, b, m);
    StartSpelled(s, b, kid.elem, m);
    ToTag(s, p, kid.gap, m);
    KidSpelled(s, p, kid, m);
    NextBuilt(s, p, b, m);
  }

  /** A child at a '<' behind white space. */
  lemma NextBuilt(s: string, p: nat, b: nat, m: Mode)
    requires p < |s| && Skip(s, p, m.enc) == b && b + 1 < |s| && s[b] == '<' && NameStart(s[b + 1])
    requires ParseElement(s, b, m).Ok?
    ensures BuiltValue(s, p, m) == [BuiltElement(s, b, m)] + BuiltValue(s, ParseElement(s, b, m).next, m)
  {
    hide Skip, ParseElement, BuiltElement;
  }

  /** Closed children in front of `q`. */
  lemma {:induction false} KidsBuilt(s: string, p: nat, kids: seq<Kid>, m: Mode)
    requires GoodKids(kids, m) && Has(s, p, SpellKids(kids))
    ensures var q := p + |SpellKids(kids)|;
            p <= q <= |s|
            && ParseValue(s, p, m) == Prepend(TreesOf(kids), ParseValue(s, q, m))
            && BuiltValue(s, p, m) == TreesOf(kids) + BuiltValue(s, q, m)
    decreases kids
  {
    hide ParseValue, BuiltValue, Has, Spell, Good, TreeOf, Blanks;
    HasFits(s, p, SpellKids(kids));
    var q := p + |SpellKids(kids)|;
    if kids == [] {
      PrependNothing(ParseValue(s, q, m));
      assert [] + BuiltValue(s, q, m) == BuiltValue(s, q, m);
    } else {
      var kid, rest := kids[0], kids[1..];
      var first := kid.gap + Spell(kid.elem);
      HasSplit(s, p, first, SpellKids(rest));
      KidBuilt(s, p, kid, m);
      KidsBuilt(s, p + |first|, rest, m);
      PrependTwice([TreeOf(kid.elem)], TreesOf(rest), ParseValue(s, q, m));
      assert [TreeOf(kid.elem)] + (TreesOf(rest) + BuiltValue(s, q, m))
          == ([TreeOf(kid.elem)] + TreesOf(rest)) + BuiltValue(s, q, m);
    }
  }

  lemma PrependNothing(r: Result<seq<Tree>>)
    ensures Prepend([], r) == r
  {
    if r.Ok? { assert [] + r.value == r.value; }
  }

  lemma PrependTwice(a: seq<Tree>, b: seq<Tree>, r: Result<seq<Tree>>)
    ensures Prepend(a, Prepend(b, r)) == Prepend(a + b, r)
  {
    if r.Ok? { assert a + (b + r.value) == (a + b) + r.value; }
  }

  /** The end of the text, behind white space. */
  lemma NothingLeft(s: string, q: nat, gap: string, m: Mode)
    requires Has(s, q, gap) && Blanks(gap) && q + |gap| == |s|
    ensures ParseValue(s, q, m) == if gap == "" then Fail(Some(ReadingElementValue)) else Ok([], |s|)
    ensures BuiltValue(s, q, m) == []
  {
    BlanksAt(s, q, gap);
    if gap != "" { SkipWhite(s, q, |s|, m.enc); }
  }

  /** An open child behind white space fails, and so does what it stands in. */
  lemma OpenChild(s: string, q: nat, gap: string, path: seq<Level>, m: Mode)
    requires path != [] && Has(s, q, gap) && Blanks(gap) && Has(s, q + |gap|, OpenText(path)) && GoodPath(path, m)
    requires var b := q + |gap|;
             b <= |s| && ParseElement(s, b, m) == Fail(CutError(path)) && BuiltElement(s, b, m) == OpenTree(path)
    ensures q <= |s| && ParseValue(s, q, m) == Fail(Some(ReadingElementValue))
    ensures BuiltValue(s, q, m) == [OpenTree(path)]
  {
    hide ParseElement, BuiltElement, Has, OpenText, OpenTree, GoodPath, SpellAttrs, AttrsOf, ParseRest, BuiltRest;
    var b := q + |gap|;
    OpenStart(s, b, path, m);
    ToTag(s, q, gap, m);
    NoEndTag(s, b);
    assert [OpenTree(path)] + [] == [OpenTree(path)];
  }

  // ---------- the law ----------

  /** Behind the '>' of the outermost element. */
  lemma ContentOpen(s: string, b: nat, path: seq<Level>, m: Mode)
    requires GoodPath(path, m) && b < |s| && s[b] == '>' && Skip(s, b, m.enc) == b
    requires var l := path[0];
             && ParseValue(s, b + 1, m)
                == (if CutError(path) == None then Ok(TreesOf(l.kids), |s|) else Fail(Some(ReadingElementValue)))
             && BuiltValue(s, b + 1, m)
                == TreesOf(l.kids) + if |path| == 1 then [] else [OpenTree(path[1..])]
    ensures ParseRest(s, b, m, path[0].name, AttrsOf(path[0].attrs)) == Fail(CutError(path))
    ensures BuiltRest(s, b, m, path[0].name, AttrsOf(path[0].attrs)) == OpenTree(path)
  {
    hide ParseValue, BuiltValue, ParseAttr, Has, TreesOf, AttrsOf;
  }

  lemma {:induction false} OpenElement(s: string, p: nat, path: seq<Level>, m: Mode)
    requires GoodPath(path, m) && Has(s, p, OpenText(path)) && p + |OpenText(path)| == |s|
    ensures p <= |s| && ParseElement(s, p, m) == Fail(CutError(path)) && BuiltElement(s, p, m) == OpenTree(path)
    decreases |path|
  {
    hide ParseElement, ParseRest, ParseValue, BuiltElement, BuiltRest, BuiltValue, Has, Good, Skip, OpenText, OpenTree;
    hide SpellAttrs, AttrsOf, TreesOf, Blanks;
    var l, rest := path[0], path[1..];
    var b := p + 1 + |l.name| + |SpellAttrs(l.attrs)| + |l.space|;
    var q := b + 1 + |SpellKids(l.kids)|;
    OpenStart(s, p, path, m);
    OpenParts(s, p, path);
    HasSplit(s, b + 1, SpellKids(l.kids), l.gap);
    BodyGood(AsSpelt(l), m);
    KidsBuilt(s, b + 1, l.kids, m);
    if rest == [] {
      NoOpenText();
      NothingLeft(s, q, l.gap, m);
      assert TreesOf(l.kids) + [] == TreesOf(l.kids);
    } else {
      assert forall i :: 0 <= i < |rest| ==> rest[i] == path[i + 1];
      OpenElement(s, q + |l.gap|, rest, m);
      OpenChild(s, q, l.gap, rest, m);
    }
    ContentOpen(s, b, path, m);
  }

  lemma NoOpenText()
    ensures OpenText([]) == ""
  {}

  /** A document that ends in open elements is not read. What is left is the tree as far
      as it was written; and an error is recorded, unless one element is open and white
      space ends the text. */
  lemma DocumentCut(path: seq<Level>, m: Mode)
    requires GoodPath(path, m)
    ensures var s := OpenText(path);
            ParseDocument(s, m) == Fail(CutError(path)) && BuiltRoots(s, 0, m) == [OpenTree(path)]
  {
    hide ParseElement, BuiltElement, OpenText, OpenTree, Good, Has, SpellAttrs, AttrsOf, ParseRest, BuiltRest, Skip;
    var s := OpenText(path);
    WholeText(s);
    OpenElement(s, 0, path, m);
    OpenStart(s, 0, path, m);
    assert [OpenTree(path)] + [] == [OpenTree(path)];
  }

  // ---------- where a document ends ----------

  /** The last root that is read ends in front of the white space that ends the text. */
  lemma {:induction false} LastEnds(s: string, p: nat, roots: seq<Kid>, gap: string, m: Mode)
    requires GoodKids(roots, m) && Blanks(gap) && Has(s, p, SpellKids(roots)) && Has(s, p + |SpellKids(roots)|, gap)
    requires p + |SpellKids(roots)| + |gap| == |s|
    ensures p <= |s| && LastRootEnd(s, p, m) == |s| - |gap|
    decreases roots
  {
    hide LastRootEnd, Has, Spell, Good, Blanks;
    if roots == [] {
      NoRootLeft(s, p, gap, m);
    } else {
      var kid, rest := roots[0], roots[1..];
      var first := kid.gap + Spell(kid.elem);
      HasSplit(s, p, first, SpellKids(rest));
      HasSplit(s, p, kid.gap, Spell(kid.elem));
      OneRootEnds(s, p, kid, m);
      LastEnds(s, p + |first|, rest, gap, m);
    }
  }

  lemma NoRootLeft(s: string, p: nat, gap: string, m: Mode)
    requires Has(s, p, gap) && Blanks(gap) && p + |gap| == |s|
    ensures LastRootEnd(s, p, m) == p
  {
    BlanksAt(s, p, gap);
    SkipWhite(s, p, |s|, m.enc);
  }

  lemma OneRootEnds(s: string, p: nat, kid: Kid, m: Mode)
    requires Blanks(kid.gap) && Good(kid.elem, m) && Has(s, p, kid.gap) && Has(s, p + |kid.gap|, Spell(kid.elem))
    ensures p <= |s|
    ensures var next := p + |kid.gap| + |Spell(kid.elem)|;
            next <= |s| && LastRootEnd(s, p, m) == LastRootEnd(s, next, m)
  {
    hide ParseElement, Has, Spell, Good, Blanks, IsBom, SpellAttrs, SpellBody, AttrsOf, ParseRest, Skip, NameStart;
    var b := p + |kid.gap|;
    HasFits(s, b, Spell(kid.elem));
    ElementSpelled(s, b, kid.elem, m);
    StartSpelled(s, b, kid.elem, m);
    ToTag(s, p, kid.gap, m);
  }

  /** So nothing is returned for a document that is read, when it ends in its last tag. */
  lemma DocumentEnds(roots: seq<Kid>, gap: string, m: Mode)
    requires GoodKids(roots, m) && Blanks(gap)
    ensures LastRootEnd(SpellDocument(roots, gap), 0, m) == |SpellDocument(roots, gap)| <==> gap == ""
  {
    hide GoodKids, Blanks, SpellKids, LastRootEnd;
    var s := SpellDocument(roots, gap);
    WholeText(s);
    HasSplit(s, 0, SpellKids(roots), gap);
    LastEnds(s, 0, roots, gap, m);
  }

  lemma WholeText(s: string)
    ensures Has(s, 0, s)
  {
    assert s[0..|s|] == s;
  }
}
