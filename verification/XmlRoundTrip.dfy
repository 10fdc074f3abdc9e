/** Print followed by Parse is the identity on element trees. */
module XmlRoundTrip {
  import opened CStrings
  import opened XmlText
  import opened XmlEscaping
  import opened XmlCondense
  import opened XmlTree
  import opened XmlParser

  // ---------- names and white space in place ----------

  lemma {:induction false} SkipWhite(s: string, p: nat, q: nat, enc: Encoding)
    requires AllWhite(s, p, q) && (q < |s| ==> !IsWhite(s[q]) && !(enc.Utf8? && IsBom(s, q)))
    ensures Skip(s, p, enc) == q
    decreases q - p
  {
    if p < q { SkipWhite(s, p + 1, q, enc); }
  }

  /** The name at `p` ends where it should when no name character follows. */
  lemma NameAt(s: string, p: nat, name: string, enc: Encoding)
    requires Has(s, p, name) && IsName(name, enc)
    requires p + |name| < |s| && !NameChar(s[p + |name|])
    ensures Name(s, p) == Some(p + |name|) && s[p..p + |name|] == name && NameStart(s[p])
  {
    HasChar(s, p, name, 0);
    forall k | p <= k < p + |name| ensures NameChar(s[k]) {
      HasChar(s, p, name, k - p);
    }
    NameEndIs(s, p + 1, p + |name|);
  }

  lemma {:induction false} NameEndIs(s: string, p: nat, q: nat)
    requires p <= q < |s| && !NameChar(s[q]) && forall k :: p <= k < q ==> NameChar(s[k])
    ensures NameEnd(s, p) == q
    decreases q - p
  {
    if p < q { NameEndIs(s, p + 1, q); }
  }

  /** A name is not skipped into, neither as white space nor as a byte order
      mark, provided ASCII follows it. */
  lemma NameNotSkipped(s: string, p: nat, name: string, enc: Encoding)
    requires Has(s, p, name) && IsName(name, enc)
    requires p + |name| < |s| && s[p + |name|] as int < 0x80
    ensures Skip(s, p, enc) == p
  {
    HasChar(s, p, name, 0);
    if |name| > 1 { HasChar(s, p, name, 1); }
    if |name| > 2 { HasChar(s, p, name, 2); }
  }

  lemma {:induction false} PutName(name: string, i: nat)
    requires i <= |name| && forall k :: 0 <= k < |name| ==> NameChar(name[k])
    ensures PutFrom(name, i) == name[i..]
    decreases |name| - i
  {
    if i < |name| {
      assert NameChar(name[i]);
      assert EscapeChar(name[i]) == [name[i]];
      PutName(name, i + 1);
      assert name[i..] == [name[i]] + name[i + 1..];
    }
  }

  // ---------- attributes ----------

  /** A quoted value is read back whole, up to the position behind its quote. */
  lemma ValueAt(s: string, p: nat, v: string, enc: Encoding)
    requires NoHexRef(v, 0) && Readable(v, 0, enc)
    requires Has(s, p, QuoteFor(v) + Put(v) + QuoteFor(v))
    ensures p < |s| && (s[p] == '"' || s[p] == '\'')
    ensures AttrValue(s, p, enc) == Ok(v, p + |QuoteFor(v) + Put(v) + QuoteFor(v)|)
  {
    hide PutFrom, Has, ReadKeep, NoHexRef, Readable;
    var quote := QuoteFor(v);
    HasSplit(s, p, quote + Put(v), quote);
    HasSplit(s, p, quote, Put(v));
    HasChar(s, p, quote, 0);
    HasFits(s, p + 1 + |Put(v)|, quote);
    PutThenRead(s, p + 1, v, 0, quote, enc);
    assert [s[p]] == quote && v[0..] == v;
  }

  lemma HasFits(s: string, p: nat, t: string)
    requires Has(s, p, t)
    ensures p + |t| <= |s|
  {}

  lemma AttrText(a: Attr, m: Mode)
    requires ValidAttr(a, m)
    ensures PrintAttr(a) == a.name + "=" + (QuoteFor(a.value) + Put(a.value) + QuoteFor(a.value))
  {
    hide PutFrom, NoHexRef, Readable, Shown;
    PutName(a.name, 0);
    ShownName(a.name, m.enc);
    PutIsClean(a.value, 0);
  }

  lemma AttrAt(s: string, p: nat, a: Attr, m: Mode)
    requires ValidAttr(a, m) && Has(s, p, PrintAttr(a))
    ensures p < |s| && NameStart(s[p]) && Skip(s, p, m.enc) == p
    ensures ParseAttr(s, p, m.enc) == Ok(a, p + |PrintAttr(a)|)
  {
    hide PutFrom, Has, NameEnd, AttrValue, NoHexRef, Readable, PrintAttr, Shown;
    var value := QuoteFor(a.value) + Put(a.value) + QuoteFor(a.value);
    AttrText(a, m);
    var eq := p + |a.name|;
    HasSplit(s, p, a.name + "=", value);
    HasSplit(s, p, a.name, "=");
    HasChar(s, eq, "=", 0);
    HasFits(s, eq, "=");
    NameAt(s, p, a.name, m.enc);
    NameNotSkipped(s, p, a.name, m.enc);
    ValueAt(s, eq + 1, a.value, m.enc);
    assert Skip(s, eq, m.enc) == eq && Skip(s, eq + 1, m.enc) == eq + 1;
  }

  /** The attribute loop takes the printed attributes one after the other. */
  lemma {:induction false} AttrsAt(s: string, p: nat, attrs: seq<Attr>, read: seq<Attr>, name: string, m: Mode)
    requires Has(s, p, PrintAttrs(attrs)) && p + |PrintAttrs(attrs)| < |s|
    requires ValidAttrs(read + attrs, m)
    ensures ParseRest(s, p, m, name, read)
         == ParseRest(s, p + |PrintAttrs(attrs)|, m, name, read + attrs)
    decreases attrs
  {
    hide Has, PrintAttr, ParseAttr, ParseValue;
    if attrs == [] {
      assert read + attrs == read;
    } else {
      var a, next := attrs[0], p + 1 + |PrintAttr(attrs[0])|;
      HasSplit(s, p, " " + PrintAttr(a), PrintAttrs(attrs[1..]));
      HasSplit(s, p, " ", PrintAttr(a));
      HasChar(s, p, " ", 0);
      ValidAttrsNext(read, attrs, m);
      AttrAt(s, p + 1, a, m);
      assert Skip(s, p, m.enc) == p + 1;
      AttrsAt(s, next, attrs[1..], read + [a], name, m);
    }
  }

  lemma ValidAttrsNext(read: seq<Attr>, attrs: seq<Attr>, m: Mode)
    requires attrs != [] && ValidAttrs(read + attrs, m)
    ensures ValidAttr(attrs[0], m) && !HasAttr(read, attrs[0].name)
    ensures read + attrs == (read + [attrs[0]]) + attrs[1..]
  {
    var i := |read|;
    assert (read + attrs)[i] == attrs[0] && (read + attrs)[..i] == read;
  }

  // ---------- children ----------

  /** Where the first child starts, in front of white space the parser passes. */
  function Lead(kids: seq<Tree>, depth: nat): nat {
    if kids != [] && kids[0].Element? then |"\n" + Indent(depth)| else 0
  }

  lemma {:induction false} SpacesAreWhite(n: nat)
    ensures |Spaces(n)| == n && AllWhite(Spaces(n), 0, n)
  {
    if n > 0 { SpacesAreWhite(n - 1); }
  }

  lemma LeadIsWhite(depth: nat)
    ensures var w := "\n" + Indent(depth); AllWhite(w, 0, |w|)
  {
    SpacesAreWhite(4 * depth);
  }

  lemma WhiteAt(s: string, p: nat, w: string)
    requires Has(s, p, w) && AllWhite(w, 0, |w|)
    ensures AllWhite(s, p, p + |w|)
  {
    forall k | p <= k < p + |w| ensures IsWhite(s[k]) {
      HasChar(s, p, w, k - p);
    }
  }

  /** The printed children start at `from`; the parser stands at `p`, somewhere
      in the white space in front of the first; `end` is where "</" stands. */
  predicate KidsReady(s: string, from: nat, p: nat, kids: seq<Tree>, depth: nat, end: nat, m: Mode) {
    && Has(s, from, PrintKids(kids, depth))
    && AllWhite(s, from + |PrintKids(kids, depth)|, end) && Has(s, end, "</")
    && p <= |s| && from <= p <= (if kids == [] then end else from + Lead(kids, depth))
    && ValidKids(kids, m) && ValidLayout(kids, m)
    && (!m.condense && kids != [] && kids[0].TextNode? ==> end == from + |PrintKids(kids, depth)|)
  }

  /** "</" is met behind white space. */
  lemma NoMoreKids(s: string, p: nat, end: nat, m: Mode)
    requires AllWhite(s, p, end) && Has(s, end, "</")
    ensures ParseValue(s, p, m) == Ok([], end)
  {
    HasFits(s, end, "</");
    HasChar(s, end, "</", 0);
    SkipWhite(s, p, end, m.enc);
  }

  /** A printed element met behind white space is parsed as a child. */
  lemma ElementKid(s: string, p: nat, b: nat, t: Tree, depth: nat, m: Mode)
    requires t.Element? && ValidTree(t, m) && AllWhite(s, p, b) && Has(s, b, PrintBody(t, depth))
    requires ParseElement(s, b, m) == Ok(t, b + |PrintBody(t, depth)|)
    ensures p <= b < |s| && s[b] == '<'
    ensures ParseValue(s, p, m) == Prepend([t], ParseValue(s, b + |PrintBody(t, depth)|, m))
  {
    hide ParseElement, PrintAttrs, PrintContent, NoHexRef;
    var rest := PrintAttrs(t.attrs) + PrintContent(t, depth);
    ShownName(t.name, m.enc);
    assert PrintBody(t, depth) == "<" + (t.name + rest);
    HasSplit(s, b, "<", t.name + rest);
    HasSplit(s, b + 1, t.name, rest);
    HasChar(s, b, "<", 0);
    HasChar(s, b + 1, t.name, 0);
    HasFits(s, b, PrintBody(t, depth));
    SkipWhite(s, p, b, m.enc);
    HasOther(s, b, "<" + (t.name + rest), "</", 1);
  }

  /** A text whose white space is condensed, up to the '<' at `stop`. */
  lemma CondensedKid(s: string, p: nat, v: string, stop: nat, m: Mode)
    requires m.condense && ValidText(v, m) && Has(s, p, Put(v))
    requires AllWhite(s, p + |Put(v)|, stop) && Has(s, stop, "<")
    ensures ParseValue(s, p, m) == Prepend([TextNode(v, false)], ParseValue(s, stop, m))
  {
    hide PutFrom, Has, ReadCondensed, NoHexRef, Readable, ParseElement, Squeeze, SingleSpaced;
    assert v != "" && v[0] != ' ' && !(m.enc.Utf8? && IsBom(v, 0));
    NoRefHere(v, 0);
    NothingToSkip(s, p, v, 0, m.enc);
    FirstWritten(s, p, v, 0, m.enc);
    PutThenCondense(s, p, v, 0, stop, m.enc, false);
    TidyStays(v, 0, false);
    assert "" + v[0..] == v;
    assert Text(s, p, true, "<", m.enc) == Chunk(v, At(stop + 1));
  }

  lemma NoRefHere(v: string, i: nat)
    requires i < |v| && NoHexRef(v, i)
    ensures !HexRefAt(v, i)
  {}

  /** Skipping into a text that does not vanish stops at one of its
      characters. */
  lemma SolidSkip(s: string, p: nat, v: string, end: nat, enc: Encoding)
    requires NoHexRef(v, 0) && Readable(v, 0, enc) && Front(v, 0, enc) < |v|
    requires Has(s, p, Put(v)) && end == p + |Put(v)| && Has(s, end, "<")
    ensures p < |s| && Skip(s, p, enc) < |s| && s[Skip(s, p, enc)] != '<'
  {
    hide PutFrom, Has, Skip, Readable;
    var j := Front(v, 0, enc);
    NothingAt(s, end);
    var k := SkipInto(s, p, v, 0, end, enc);
    NoHexRefAt(v, 0, j);
    NoRefHere(v, j);
    FirstWritten(s, k, v, j, enc);
  }

  /** A text that keeps its white space, right in front of the end tag. */
  lemma KeptText(s: string, p: nat, v: string, m: Mode)
    requires !m.condense && ValidText(v, m) && Has(s, p, Put(v)) && Has(s, p + |Put(v)|, "</")
    ensures ParseValue(s, p, m) == Ok([TextNode(v, false)], p + |Put(v)|)
  {
    hide PutFrom, Has, ReadKeep, NoHexRef, Readable, ParseElement;
    var end := p + |Put(v)|;
    assert "</" == "<" + "/";
    HasSplit(s, end, "<", "/");
    SolidSkip(s, p, v, end, m.enc);
    PutThenRead(s, p, v, 0, "<", m.enc);
    assert v[0..] == v;
    assert Text(s, p, false, "<", m.enc) == Chunk(v, At(end + 1));
    assert AllWhite(s, end, end) by { HasFits(s, end, "</"); }
    NoMoreKids(s, end, end, m);
    assert [TextNode(v, false)] + [] == [TextNode(v, false)];
  }

  // ---------- the law for elements ----------

  lemma LeadAt(s: string, from: nat, kids: seq<Tree>, depth: nat)
    requires kids != [] && kids[0].Element? && Has(s, from, PrintKids(kids, depth))
    ensures var b, body := from + Lead(kids, depth), PrintBody(kids[0], depth);
            && AllWhite(s, from, b) && Has(s, b, body)
            && Has(s, b + |body|, PrintKids(kids[1..], depth))
            && from + |PrintKids(kids, depth)| == b + |body| + |PrintKids(kids[1..], depth)|
  {
    hide PrintBody, Has;
    var lead, body, rest := "\n" + Indent(depth), PrintBody(kids[0], depth), PrintKids(kids[1..], depth);
    assert PrintKids(kids, depth) == lead + body + rest;
    HasSplit(s, from, lead + body, rest);
    HasSplit(s, from, lead, body);
    LeadIsWhite(depth);
    WhiteAt(s, from, lead);
  }

  lemma ReadyElement(s: string, from: nat, p: nat, kids: seq<Tree>, depth: nat, end: nat, m: Mode)
    requires KidsReady(s, from, p, kids, depth, end, m) && kids != [] && kids[0].Element?
    ensures ValidTree(kids[0], m)
    ensures var b, body := from + Lead(kids, depth), PrintBody(kids[0], depth);
            && AllWhite(s, p, b) && Has(s, b, body)
            && KidsReady(s, b + |body|, b + |body|, kids[1..], depth, end, m)
  {
    hide PrintBody, ValidTree, Has, AllWhite, PrintKids, ValidLayout, Lead;
    LeadAt(s, from, kids, depth);
    LayoutRest(kids, m);
    var b, body := from + Lead(kids, depth), PrintBody(kids[0], depth);
    WhiteSub(s, from, p, b);
    HasFits(s, b, body);
    HasFits(s, b + |body|, PrintKids(kids[1..], depth));
    WhiteFits(s, b + |body| + |PrintKids(kids[1..], depth)|, end);
    NoKidsText(depth);
  }

  lemma WhiteSub(s: string, from: nat, p: nat, q: nat)
    requires AllWhite(s, from, q) && from <= p <= q
    ensures AllWhite(s, p, q)
  {}

  lemma WhiteFits(s: string, p: nat, q: nat)
    requires AllWhite(s, p, q)
    ensures p <= q <= |s|
  {}

  lemma NoKidsText(depth: nat)
    ensures PrintKids([], depth) == ""
  {}

  lemma LayoutRest(kids: seq<Tree>, m: Mode)
    requires kids != [] && ValidLayout(kids, m)
    ensures ValidLayout(kids[1..], m)
    ensures !m.condense && kids[1..] != [] ==> kids[1..][0].Element?
    ensures !m.condense && kids[0].TextNode? ==> kids[1..] == []
    ensures m.condense && kids[0].TextNode? && kids[1..] != [] ==> kids[1..][0].Element?
  {
    var rest := kids[1..];
    forall i | 0 <= i < |rest| ensures rest[i] == kids[i + 1] {}
    if m.condense {
      forall i | 0 <= i < |rest| - 1 ensures rest[i].Element? || rest[i + 1].Element? {
        assert kids[i + 1].Element? || kids[i + 2].Element?;
      }
    }
  }

  /** Where the parser stands after a text in front of `rest`. */
  function Stop(next: nat, rest: seq<Tree>, depth: nat, end: nat): nat {
    if rest == [] then end else next + Lead(rest, depth)
  }

  lemma ReadyText(s: string, from: nat, kids: seq<Tree>, depth: nat, end: nat, m: Mode)
    requires KidsReady(s, from, from, kids, depth, end, m) && kids != [] && kids[0].TextNode?
    ensures !kids[0].cdata && ValidText(kids[0].text, m) && Has(s, from, Put(kids[0].text))
    ensures var next, rest := from + |Put(kids[0].text)|, kids[1..];
            var stop := Stop(next, rest, depth, end);
            && AllWhite(s, next, stop) && Has(s, stop, "<")
            && (!m.condense ==> rest == [] && end == next && Has(s, end, "</"))
            && (m.condense ==> KidsReady(s, next, stop, rest, depth, end, m))
  {
    hide PrintBody, ValidText, ValidTree, PutFrom, Has, PrintKids, AllWhite, ValidLayout;
    var v, rest := kids[0].text, kids[1..];
    var next := from + |Put(v)|;
    TextFirst(kids, depth, m);
    HasSplit(s, from, Put(v), PrintKids(rest, depth));
    LayoutRest(kids, m);
    if rest == [] {
      assert "</" == "<" + "/";
      HasSplit(s, end, "<", "/");
      ReadyNone(s, next, end, depth, m);
    } else {
      LeadAt(s, next, rest, depth);
      ElementStarts(s, next + Lead(rest, depth), rest[0], depth);
      HasFits(s, next + Lead(rest, depth), "<");
    }
  }

  lemma ReadyNone(s: string, p: nat, end: nat, depth: nat, m: Mode)
    requires AllWhite(s, p, end) && Has(s, end, "</")
    ensures KidsReady(s, p, end, [], depth, end, m)
  {}

  lemma TextFirst(kids: seq<Tree>, depth: nat, m: Mode)
    requires kids != [] && kids[0].TextNode? && ValidKids(kids, m)
    ensures PrintKids(kids, depth) == Put(kids[0].text) + PrintKids(kids[1..], depth)
    ensures !kids[0].cdata && ValidText(kids[0].text, m) && ValidKids(kids[1..], m)
    ensures kids[1..] == [] ==> PrintKids(kids[1..], depth) == ""
  {
    hide Print, PrintKids, PutFrom, ValidText, ValidLayout;
    TextPrints(kids[0], depth, m);
    TextThenRest(kids, depth);
    NoKidsText(depth);
  }

  lemma TextThenRest(kids: seq<Tree>, depth: nat)
    requires kids != [] && kids[0].TextNode?
    ensures PrintKids(kids, depth) == Print(kids[0], depth) + PrintKids(kids[1..], depth)
  {
    hide Print;
    assert "" + Print(kids[0], depth) == Print(kids[0], depth);
  }

  lemma TextPrints(t: Tree, depth: nat, m: Mode)
    requires t.TextNode? && ValidTree(t, m)
    ensures Print(t, depth) == Put(t.text)
  {
    PutIsClean(t.text, 0);
  }

  lemma ElementStarts(s: string, p: nat, t: Tree, depth: nat)
    requires t.Element? && Has(s, p, PrintBody(t, depth))
    ensures Has(s, p, "<")
  {
    hide Has, PrintAttrs, PrintContent;
    var rest := Shown(t.name) + PrintAttrs(t.attrs) + PrintContent(t, depth);
    assert PrintBody(t, depth) == "<" + rest;
    HasSplit(s, p, "<", rest);
  }

  /** The children of a printed element are read back. */
  lemma {:induction false} KidsAt(s: string, from: nat, p: nat, kids: seq<Tree>, depth: nat, end: nat, m: Mode)
    requires KidsReady(s, from, p, kids, depth, end, m)
    ensures ParseValue(s, p, m) == Ok(kids, end)
    decreases kids
  {
    hide KidsReady, ParseValue, PrintBody, Has, AllWhite, ValidTree, ValidText, ParseElement;
    KidsNow(s, from, p, kids, depth, end, m);
    if kids == [] {
      NoMoreKids(s, p, end, m);
    } else {
      var rest := kids[1..];
      assert [kids[0]] + rest == kids;
      if kids[0].Element? {
        var b := from + Lead(kids, depth);
        var next := b + |PrintBody(kids[0], depth)|;
        ReadyElement(s, from, p, kids, depth, end, m);
        ElementAt(s, b, kids[0], depth, m);
        ElementKid(s, p, b, kids[0], depth, m);
        KidsAt(s, next, next, rest, depth, end, m);
      } else {
        var next := from + |Put(kids[0].text)|;
        var stop := Stop(next, rest, depth, end);
        ReadyText(s, from, kids, depth, end, m);
        if m.condense {
          CondensedKid(s, from, kids[0].text, stop, m);
          KidsAt(s, next, stop, rest, depth, end, m);
        } else {
          KeptText(s, from, kids[0].text, m);
          assert kids == [kids[0]];
        }
      }
    }
  }

  lemma KidsNow(s: string, from: nat, p: nat, kids: seq<Tree>, depth: nat, end: nat, m: Mode)
    requires KidsReady(s, from, p, kids, depth, end, m)
    ensures p <= |s| && (kids == [] ==> AllWhite(s, p, end) && Has(s, end, "</"))
    ensures kids != [] && kids[0].TextNode? ==> p == from
  {}

  // ---------- the law for elements ----------

  /** The '<' and the name: what is left is the attribute loop. */
  lemma ElementParts(s: string, p: nat, t: Tree, depth: nat, m: Mode)
    requires t.Element? && IsName(t.name, m.enc) && Has(s, p, PrintBody(t, depth))
    ensures var attrs := PrintAttrs(t.attrs);
            var n := p + 1 + |t.name|;
            && Has(s, n, attrs) && n + |attrs| < |s| && Has(s, n + |attrs|, PrintContent(t, depth))
            && ParseElement(s, p, m) == ParseRest(s, n, m, t.name, [])
            && p + |PrintBody(t, depth)| == n + |attrs| + |PrintContent(t, depth)|
  {
    hide Has, PrintAttrs, PrintContent, ParseRest, NameEnd;
    var attrs, content := PrintAttrs(t.attrs), PrintContent(t, depth);
    ShownName(t.name, m.enc);
    var n := p + 1 + |t.name|;
    HasSplit(s, p, "<" + t.name + attrs, content);
    HasSplit(s, p, "<" + t.name, attrs);
    HasSplit(s, p, "<", t.name);
    HasChar(s, p, "<", 0);
    HasFits(s, n + |attrs|, content);
    ContentStarts(s, n, t, depth);
    NameAt(s, p + 1, t.name, m.enc);
    NameNotSkipped(s, p + 1, t.name, m.enc);
    assert Skip(s, p, m.enc) == p;
  }

  /** A name is followed by a space or by '>'. */
  lemma ContentStarts(s: string, n: nat, t: Tree, depth: nat)
    requires t.Element?
    requires Has(s, n, PrintAttrs(t.attrs)) && Has(s, n + |PrintAttrs(t.attrs)|, PrintContent(t, depth))
    ensures n + |PrintAttrs(t.attrs)| < |s| && n < |s| && (s[n] == ' ' || s[n] == '>')
  {
    hide PrintAttr, PrintKids, PutFrom;
    var attrs, content := PrintAttrs(t.attrs), PrintContent(t, depth);
    assert content[0] == ' ' || content[0] == '>';
    HasChar(s, n + |attrs|, content, 0);
    if attrs != "" { HasChar(s, n, attrs, 0); }
  }

  /** Behind the attributes: an empty tag, or children and the end tag. */
  lemma {:induction false} ContentAt(s: string, p: nat, t: Tree, depth: nat, m: Mode)
    requires t.Element? && ValidTree(t, m) && p < |s| && Has(s, p, PrintContent(t, depth))
    ensures ParseRest(s, p, m, t.name, t.attrs) == Ok(t, p + |PrintContent(t, depth)|)
    decreases t, 0
  {
    hide ParseValue, ParseAttr, PrintKids, Has, KidsReady;
    if t.kids == [] {
      EmptyTag(s, p, t, m);
    } else {
      var d := if |t.kids| == 1 && t.kids[0].TextNode? then 0 else depth + 1;
      var end := FilledTag(s, p, t, depth, m, d);
      KidsAt(s, p + 1, p + 1, t.kids, d, end, m);
      CloseTag(s, p, t, end, m);
    }
  }

  lemma EmptyTag(s: string, p: nat, t: Tree, m: Mode)
    requires t.Element? && t.kids == [] && Has(s, p, " />")
    ensures p < |s| && ParseRest(s, p, m, t.name, t.attrs) == Ok(t, p + 3)
  {
    HasChar(s, p, " />", 0);
    HasChar(s, p, " />", 1);
    HasChar(s, p, " />", 2);
    assert Skip(s, p, m.enc) == p + 1;
  }

  /** '>' stands in front of children that are ready to be read. */
  lemma FilledTag(s: string, p: nat, t: Tree, depth: nat, m: Mode, d: nat) returns (end: nat)
    requires t.Element? && t.kids != [] && ValidTree(t, m) && Has(s, p, PrintContent(t, depth))
    requires d == if |t.kids| == 1 && t.kids[0].TextNode? then 0 else depth + 1
    ensures p < |s| && s[p] == '>' && KidsReady(s, p + 1, p + 1, t.kids, d, end, m)
    ensures Has(s, end, EndTag(t.name)) && p + |PrintContent(t, depth)| == end + |EndTag(t.name)|
  {
    hide PrintBody, ValidTree, PutFrom, Has, PrintKids, ValidLayout;
    TreeKids(t, m);
    ShownName(t.name, m.enc);
    var kids, tag := t.kids, EndTag(t.name);
    var printed, gap := PrintKids(kids, d), if d == 0 then "" else "\n" + Indent(depth);
    if d == 0 {
      TextFirst(kids, d, m);
      TextPrints(kids[0], depth + 1, m);
    } else {
      LeadIsWhite(depth);
    }
    assert PrintContent(t, depth) == ">" + (printed + gap) + tag;
    end := p + 1 + |printed| + |gap|;
    HasSplit(s, p, ">" + (printed + gap), tag);
    HasSplit(s, p, ">", printed + gap);
    HasSplit(s, p + 1, printed, gap);
    HasFits(s, p, ">");
    HasChar(s, p, ">", 0);
    HasFits(s, p + 1, printed + gap);
    WhiteAt(s, p + 1 + |printed|, gap);
    assert tag == "</" + (t.name + ">");
    HasSplit(s, end, "</", t.name + ">");
  }

  lemma TreeKids(t: Tree, m: Mode)
    requires t.Element? && ValidTree(t, m)
    ensures ValidKids(t.kids, m) && ValidLayout(t.kids, m) && IsName(t.name, m.enc)
  {}

  lemma EndTagStarts(name: string)
    ensures EndTag(name) != ""
  {}

  lemma CloseTag(s: string, p: nat, t: Tree, end: nat, m: Mode)
    requires t.Element? && p < |s| && s[p] == '>' && p + 1 <= |s|
    requires Has(s, end, EndTag(t.name)) && ParseValue(s, p + 1, m) == Ok(t.kids, end)
    ensures ParseRest(s, p, m, t.name, t.attrs) == Ok(t, end + |EndTag(t.name)|)
  {
    hide ParseValue, ParseAttr, EndTag, Has;
    HasFits(s, end, EndTag(t.name));
    assert EndTag(t.name) != "" by { EndTagStarts(t.name); }
    assert Skip(s, p, m.enc) == p;
  }

  /** The law for one element: the text Print writes for it, anywhere in the
      input, is parsed back to it, and parsing ends where the text ends. */
  lemma {:induction false} ElementAt(s: string, p: nat, t: Tree, depth: nat, m: Mode)
    requires t.Element? && ValidTree(t, m) && Has(s, p, PrintBody(t, depth))
    ensures p <= |s| && ParseElement(s, p, m) == Ok(t, p + |PrintBody(t, depth)|)
    decreases t, 1
  {
    hide ParseElement, ParseRest, PrintAttrs, PrintContent, PrintBody, Has;
    var n := p + 1 + |t.name|;
    TreeKids(t, m);
    ElementParts(s, p, t, depth, m);
    assert [] + t.attrs == t.attrs;
    AttrsAt(s, n, t.attrs, [], t.name, m);
    ContentAt(s, n + |PrintAttrs(t.attrs)|, t, depth, m);
  }

  lemma {:induction false} PrintAttrsJoin(front: seq<Attr>, more: seq<Attr>)
    ensures PrintAttrs(front + more) == PrintAttrs(front) + PrintAttrs(more)
  {
    hide PrintAttr, PrintAttrs;
    if front == [] {
      assert front + more == more;
      assert PrintAttrs(front) == "" by { AttrsText(front); }
    } else {
      PrintAttrsJoin(front[1..], more);
      assert (front + more)[1..] == front[1..] + more;
      AttrsText(front);
      AttrsText(front + more);
      Assoc(" " + PrintAttr(front[0]), PrintAttrs(front[1..]), PrintAttrs(more));
    }
  }

  lemma AttrsText(attrs: seq<Attr>)
    ensures PrintAttrs(attrs) == if attrs == [] then "" else " " + PrintAttr(attrs[0]) + PrintAttrs(attrs[1..])
  {}

  /** An element that repeats an attribute name is not read back, and what it
      fails with is no error at all. */
  lemma RepeatedAttributeIsSilent(s: string, p: nat, t: Tree, depth: nat, front: seq<Attr>, more: seq<Attr>, m: Mode)
    requires t.Element? && IsName(t.name, m.enc) && t.attrs == front + more && more != []
    requires ValidAttrs(front, m) && ValidAttr(more[0], m) && HasAttr(front, more[0].name)
    requires Has(s, p, PrintBody(t, depth))
    ensures p <= |s| && ParseElement(s, p, m) == Fail(None)
  {
    hide ParseElement, ParseRest, PrintAttrs, PrintContent, PrintBody, Has, ValidAttrs;
    var n := p + 1 + |t.name|;
    var q := n + |PrintAttrs(front)|;
    ElementParts(s, p, t, depth, m);
    HasFits(s, p, PrintBody(t, depth));
    PrintAttrsJoin(front, more);
    HasSplit(s, n, PrintAttrs(front), PrintAttrs(more));
    RepeatedStops(s, q, more, front, t.name, m);
    assert [] + front == front;
    AttrsAt(s, n, front, [], t.name, m);
  }

  lemma RepeatedStops(s: string, q: nat, more: seq<Attr>, read: seq<Attr>, name: string, m: Mode)
    requires more != [] && ValidAttr(more[0], m) && HasAttr(read, more[0].name)
    requires Has(s, q, PrintAttrs(more)) && q + |PrintAttrs(more)| < |s|
    ensures q < |s| && ParseRest(s, q, m, name, read) == Fail(None)
  {
    hide PrintAttr, ParseAttr, ParseValue, Has, HasAttr;
    var a, rest := more[0], PrintAttrs(more[1..]);
    HasSplit(s, q, " " + PrintAttr(a), rest);
    HasSplit(s, q, " ", PrintAttr(a));
    HasChar(s, q, " ", 0);
    AttrAt(s, q + 1, a, m);
    assert Skip(s, q, m.enc) == q + 1;
  }

  // ---------- the law for documents ----------

  predicate ValidRoots(roots: seq<Tree>, m: Mode) {
    forall i :: 0 <= i < |roots| ==> roots[i].Element? && ValidTree(roots[i], m)
  }

  lemma {:induction false} RootsAt(s: string, p: nat, roots: seq<Tree>, m: Mode)
    requires ValidRoots(roots, m) && Has(s, p, PrintDocument(roots)) && p + |PrintDocument(roots)| == |s|
    ensures ParseRoots(s, p, m) == Ok(roots, |s|)
    decreases roots
  {
    hide PrintBody, ParseElement, Has, ValidTree;
    if roots != [] {
      var body, rest := PrintBody(roots[0], 0), PrintDocument(roots[1..]);
      assert PrintDocument(roots) == body + "\n" + rest;
      HasSplit(s, p, body + "\n", rest);
      HasSplit(s, p, body, "\n");
      HasChar(s, p + |body|, "\n", 0);
      TreeKids(roots[0], m);
      ElementAt(s, p, roots[0], 0, m);
      RootStarts(s, p, roots[0], 0, m);
      SkipNewline(s, p + |body|, m.enc);
      RootsAt(s, p + |body| + 1, roots[1..], m);
      assert [roots[0]] + roots[1..] == roots;
    }
  }

  lemma RootStarts(s: string, p: nat, t: Tree, depth: nat, m: Mode)
    requires t.Element? && IsName(t.name, m.enc) && Has(s, p, PrintBody(t, depth))
    ensures p < |s| && s[p] == '<' && Skip(s, p, m.enc) == p && OpensElement(s, p)
  {
    hide PrintAttrs, PrintContent, Has;
    var rest := PrintAttrs(t.attrs) + PrintContent(t, depth);
    ShownName(t.name, m.enc);
    assert PrintBody(t, depth) == "<" + (t.name + rest);
    HasSplit(s, p, "<", t.name + rest);
    HasSplit(s, p + 1, t.name, rest);
    HasFits(s, p, PrintBody(t, depth));
    HasChar(s, p, "<", 0);
    HasChar(s, p + 1, t.name, 0);
  }

  lemma SkipNewline(s: string, p: nat, enc: Encoding)
    requires p < |s| && s[p] == '\n'
    ensures Skip(s, p, enc) == Skip(s, p + 1, enc)
  {}

  /** Print then Parse: for every document of valid elements, in either
      encoding and with white space condensed or kept, the parser rebuilds
      names, attributes in order, values, texts and nesting, to the end. */
  lemma DocumentRoundTrip(roots: seq<Tree>, m: Mode)
    requires roots != [] && ValidRoots(roots, m)
    ensures ParseDocument(PrintDocument(roots), m) == Ok(roots, |PrintDocument(roots)|)
  {
    var s := PrintDocument(roots);
    assert s[0..|s|] == s;
    RootsAt(s, 0, roots, m);
  }

  /** A document of one element that repeats an attribute name is not read, and no
      error is recorded. */
  lemma RepeatedAttributeDocument(t: Tree, front: seq<Attr>, more: seq<Attr>, m: Mode)
    requires t.Element? && IsName(t.name, m.enc) && t.attrs == front + more && more != []
    requires ValidAttrs(front, m) && ValidAttr(more[0], m) && HasAttr(front, more[0].name)
    ensures ParseDocument(PrintDocument([t]), m) == Fail(None)
  {
    hide PrintBody, ParseElement, Has, IsName, ValidAttrs, HasAttr;
    var s := PrintDocument([t]);
    OneRoot(t);
    RepeatedAttributeIsSilent(s, 0, t, 0, front, more, m);
    RootStarts(s, 0, t, 0, m);
  }

  lemma OneRoot(t: Tree)
    requires t.Element?
    ensures Has(PrintDocument([t]), 0, PrintBody(t, 0))
  {
    hide PrintBody, Has;
    var body, s := PrintBody(t, 0), PrintDocument([t]);
    assert Indent(0) == "" && [t][1..] == [];
    assert Print(t, 0) == "" + body == body && PrintDocument([]) == "";
    assert s == body + "\n" + "" == "" + body + "\n";
    HasBetween("", body, "\n", "");
    assert "" + body + "\n" + "" == s;
  }

  /** A copy is cut at a NUL: a text with such a reference is read, in every mode,
      into a tree whose copy has lost the end of an attribute value. */
  lemma CopyCutsAtNul(m: Mode)
    ensures var t := Element("a", [Attr("b", "x\0y")], []);
            && ParseDocument(PrintDocument([t]), m) == Ok([t], |PrintDocument([t])|)
            && CopyTree(t) == Element("a", [Attr("b", "x")], [])
  {
    hide ParseDocument, PrintDocument, Shown, SeenAttrs, CopyAttrs, Put;
    var attrs := [Attr("b", "x\0y")];
    assert ValidAttr(attrs[0], m) && attrs[..0] == [];
    DocumentRoundTrip([Element("a", attrs, [])], m);
    ShownUpTo("a", "");
    ShownUpTo("b", "");
    ShownUpTo("x", "\0y");
    assert "a" + "" == "a" && "b" + "" == "b" && "x" + "\0y" == "x\0y";
    SeenIs(attrs);
    assert CopyAttrs(SeenAttrs(attrs)) == [Attr("b", "x")];
  }

  lemma ShownUpTo(front: CString, rest: string)
    requires rest == "" || rest[0] == '\0'
    ensures Shown(front + rest) == front
  {
    if front == "" {
      assert front + rest == rest;
    } else {
      assert (front + rest)[1..] == front[1..] + rest;
      ShownUpTo(front[1..], rest);
    }
  }

  /** Nothing but a document's own text is read back: two valid documents that
      print alike are the same. */
  lemma PrintIsInjective(a: seq<Tree>, b: seq<Tree>, m: Mode)
    requires ValidRoots(a, m) && ValidRoots(b, m) && a != [] && b != []
    requires PrintDocument(a) == PrintDocument(b)
    ensures a == b
  {
    DocumentRoundTrip(a, m);
    DocumentRoundTrip(b, m);
  }
}
