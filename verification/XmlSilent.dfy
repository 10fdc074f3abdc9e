/** When parsing fails without an error being recorded. */
module XmlSilent {
  import opened CStrings
  import opened XmlText
  import opened XmlTree
  import opened XmlParser
  import R = XmlRoundTrip

  // ---------- one element ----------

  /** How the attributes of a start tag end: a name is repeated, the tag opens
      content or is empty, or something else is wrong. */
  datatype Tag = Repeats | Opens(content: nat) | Empty | Broken

  function ScanTag(s: string, p: nat, m: Mode, attrs: seq<Attr>): (t: Tag)
    requires p < |s|
    ensures t.Opens? ==> p < t.content <= |s|
    decreases |s| - p
  {
    var q := Skip(s, p, m.enc);
    if q == |s| then Broken
    else if s[q] == '/' then if CharAt(s, q + 1) == '>' then Empty else Broken
    else if s[q] == '>' then Opens(q + 1)
    else
      match ParseAttr(s, q, m.enc)
      case Ok(a, next) =>
        if next == |s| then Broken
        else if HasAttr(attrs, a.name) then Repeats
        else ScanTag(s, next, m, attrs + [a])
      case _ => Broken
  }

  /** The position behind the next text or element, if there is one and it can be
      read. */
  function NextChild(s: string, p: nat, m: Mode): (next: Option<nat>)
    requires p < |s| && Skip(s, p, m.enc) < |s|
    ensures next.Some? ==> p < next.value <= |s|
  {
    var q := Skip(s, p, m.enc);
    if s[q] != '<' then
      SkipKeepsTag(s, p, m.enc);
      var c := Text(s, if m.condense then q else p, m.condense, "<", m.enc);
      if c.next.At? then Some(c.next.pos - 1) else None
    else if OpensElement(s, q) then
      var r := ParseElement(s, q, m);
      if r.Ok? then Some(r.next) else None
    else None
  }

  /** Behind some children the text ends in white space. */
  predicate RunsOut(s: string, p: nat, m: Mode)
    requires p <= |s|
    decreases |s| - p
  {
    && p < |s|
    && (Skip(s, p, m.enc) == |s|
        || (NextChild(s, p, m).Some? && RunsOut(s, NextChild(s, p, m).value, m)))
  }

  /** The element at `p` repeats an attribute name in its own start tag, or has
      content that runs to the end of the text through white space. */
  predicate SilentElement(s: string, p: nat, m: Mode)
    requires p <= |s|
  {
    var q := Skip(s, p, m.enc);
    CharAt(s, q) == '<' &&
    (var n := Skip(s, q + 1, m.enc);
     var end := Name(s, n);
     end.Some? && end.value < |s| && SilentTag(s, ScanTag(s, end.value, m, []), m))
  }

  predicate SilentTag(s: string, t: Tag, m: Mode)
    requires t.Opens? ==> t.content <= |s|
  {
    t.Repeats? || (t.Opens? && RunsOut(s, t.content, m))
  }

  lemma NoEndTag(s: string, q: nat)
    requires OpensElement(s, q)
    ensures !Has(s, q, "</")
  {
    if Has(s, q, "</") { HasChar(s, q, "</", 1); }
  }

  lemma ValueNext(s: string, p: nat, m: Mode)
    requires p < |s| && Skip(s, p, m.enc) < |s|
    ensures var next, r := NextChild(s, p, m), ParseValue(s, p, m);
            && (next.Some? ==> exists kids :: r == Prepend(kids, ParseValue(s, next.value, m)))
            && (next.None? ==> r != Fail(None) && !(r.Ok? && r.next == |s|))
  {
    hide ParseElement, Text, Skip, NameStart;
    var q := Skip(s, p, m.enc);
    if s[q] != '<' {
      SkipKeepsTag(s, p, m.enc);
      var c := Text(s, if m.condense then q else p, m.condense, "<", m.enc);
      if c.next.At? { assert ParseValue(s, p, m) == Prepend(Linked(c.text), ParseValue(s, c.next.pos - 1, m)); }
    } else if OpensElement(s, q) {
      NoEndTag(s, q);
      var r := ParseElement(s, q, m);
      if r.Ok? { assert ParseValue(s, p, m) == Prepend([r.value], ParseValue(s, r.next, m)); }
    }
  }

  /** Content never fails without an error, and it is read to the end of the text
      exactly when it runs out in white space. */
  lemma {:induction false} ContentIsLoud(s: string, p: nat, m: Mode)
    requires p <= |s|
    ensures ParseValue(s, p, m) != Fail(None)
    ensures ParseValue(s, p, m).Ok? && ParseValue(s, p, m).next == |s| <==> RunsOut(s, p, m)
    decreases |s| - p
  {
    hide ParseElement, Text, NextChild, Skip;
    if p < |s| && Skip(s, p, m.enc) < |s| {
      ValueNext(s, p, m);
      var next := NextChild(s, p, m);
      if next.Some? { ContentIsLoud(s, next.value, m); }
    }
  }

  lemma {:induction false} RestIsSilent(s: string, p: nat, m: Mode, name: string, attrs: seq<Attr>)
    requires p < |s|
    ensures ParseRest(s, p, m, name, attrs) == Fail(None) <==> SilentTag(s, ScanTag(s, p, m, attrs), m)
    decreases |s| - p
  {
    hide ParseValue, ParseAttr, Skip, RunsOut, Has;
    var q := Skip(s, p, m.enc);
    if q < |s| && s[q] != '/' {
      if s[q] == '>' {
        ContentIsLoud(s, q + 1, m);
      } else {
        var r := ParseAttr(s, q, m.enc);
        if r.Ok? && r.next < |s| && !HasAttr(attrs, r.value.name) {
          RestIsSilent(s, r.next, m, name, attrs + [r.value]);
        }
      }
    }
  }

  /** An element fails without an error exactly in these two ways. */
  lemma ElementIsSilent(s: string, p: nat, m: Mode)
    requires p <= |s|
    ensures ParseElement(s, p, m) == Fail(None) <==> SilentElement(s, p, m)
  {
    hide ParseRest, Skip, ScanTag, SilentTag, NameEnd;
    var q := Skip(s, p, m.enc);
    if q < |s| && s[q] == '<' {
      var n := Skip(s, q + 1, m.enc);
      var end := Name(s, n);
      if end.Some? && end.value < |s| { RestIsSilent(s, end.value, m, s[n..end.value], []); }
    }
  }

  // ---------- nested elements ----------

  /** `c` is where the content from `p` stands after some children. */
  predicate Reaches(s: string, p: nat, c: nat, m: Mode)
    requires p <= |s|
    decreases |s| - p
  {
    || c == p
    || (p < |s| && Skip(s, p, m.enc) < |s| && NextChild(s, p, m).Some? && Reaches(s, NextChild(s, p, m).value, c, m))
  }

  /** A child that fails without an error makes its parent record one, and so does
      any element around it. */
  lemma {:induction false} NestedIsReported(s: string, p: nat, c: nat, m: Mode)
    requires p <= |s| && c < |s| && Reaches(s, p, c, m)
    requires var q := Skip(s, c, m.enc); OpensElement(s, q) && SilentElement(s, q, m)
    ensures ParseValue(s, p, m) == Fail(Some(ReadingElementValue))
    decreases |s| - p
  {
    hide ParseElement, SilentElement, NextChild, Skip, NameStart, Text;
    if p == c {
      var q := Skip(s, c, m.enc);
      ElementIsSilent(s, q, m);
      NoEndTag(s, q);
    } else {
      ValueNext(s, p, m);
      NestedIsReported(s, NextChild(s, p, m).value, c, m);
    }
  }

  lemma {:induction false} OpensFails(s: string, p: nat, m: Mode, name: string, attrs: seq<Attr>, e: Option<Error>)
    requires p < |s|
    requires var t := ScanTag(s, p, m, attrs); t.Opens? && ParseValue(s, t.content, m) == Fail(e)
    ensures ParseRest(s, p, m, name, attrs) == Fail(e)
    decreases |s| - p
  {
    hide ParseValue, ParseAttr, Skip;
    var q := Skip(s, p, m.enc);
    if s[q] != '>' {
      var r := ParseAttr(s, q, m.enc);
      OpensFails(s, r.next, m, name, attrs + [r.value], e);
    }
  }

  /** The element around such content fails with that error. */
  lemma NestedElementIsReported(s: string, p: nat, end: nat, c: nat, m: Mode)
    requires p < |s| && s[p] == '<' && Name(s, Skip(s, p + 1, m.enc)) == Some(end) && end < |s|
    requires var t := ScanTag(s, end, m, []); t.Opens? && Reaches(s, t.content, c, m)
    requires c < |s| && OpensElement(s, Skip(s, c, m.enc)) && SilentElement(s, Skip(s, c, m.enc), m)
    ensures ParseElement(s, p, m) == Fail(Some(ReadingElementValue))
  {
    hide ParseRest, ParseValue, ScanTag, SilentElement, Reaches, NameEnd;
    var n := Skip(s, p + 1, m.enc);
    SkipTwice(s, p, m.enc);
    NestedIsReported(s, ScanTag(s, end, m, []).content, c, m);
    OpensFails(s, end, m, s[n..end], [], Some(ReadingElementValue));
  }

  // ---------- documents ----------

  /** The first top level element that fails does so without an error. */
  predicate Silent(s: string, p: nat, m: Mode)
    requires p <= |s|
    decreases |s| - p
  {
    var q := Skip(s, p, m.enc);
    OpensElement(s, q) &&
    match ParseElement(s, q, m)
    case Ok(_, next) => Silent(s, next, m)
    case Fail(_) => SilentElement(s, q, m)
    case _ => false
  }

  lemma {:induction false} RootsAreSilent(s: string, p: nat, m: Mode)
    requires p <= |s|
    ensures ParseRoots(s, p, m) == Fail(None) <==> Silent(s, p, m)
    decreases |s| - p
  {
    hide ParseElement, SilentElement, Skip, NameStart;
    var q := Skip(s, p, m.enc);
    if OpensElement(s, q) {
      ElementIsSilent(s, q, m);
      var r := ParseElement(s, q, m);
      if r.Ok? { RootsAreSilent(s, r.next, m); }
    }
  }

  /** A document is not read and no error recorded exactly when the first top
      level element that fails repeats an attribute name in its own start tag, or
      has content that runs to the end of the text through white space. */
  lemma DocumentIsSilent(s: string, m: Mode)
    ensures ParseDocument(s, m) == Fail(None) <==> Silent(s, 0, m)
  {
    hide ParseElement, SilentElement, NameStart, Silent, ParseRoots;
    RootsAreSilent(s, 0, m);
    if s == "" { NothingIsLoud(m); }
  }

  lemma NothingIsLoud(m: Mode)
    ensures !Silent("", 0, m)
  {
    hide ParseElement, SilentElement, NameStart;
  }

  /** The white space of "<a> " is enough. */
  lemma UnclosedIsSilent(s: string, n: nat, m: Mode)
    requires 0 < n && n + 1 < |s| && CharAt(s, 0) == '<' && NameStart(s[1]) && Name(s, 1) == Some(n)
    requires s[n] == '>' && Skip(s, n + 1, m.enc) == |s|
    requires m.enc.Utf8? ==> !IsBom(s, 1)
    ensures ParseDocument(s, m) == Fail(None)
  {
    assert Skip(s, 0, m.enc) == 0 && !IsWhite(s[1]) && Skip(s, 1, m.enc) == 1 && Skip(s, n, m.enc) == n;
    assert ScanTag(s, n, m, []) == Opens(n + 1) && RunsOut(s, n + 1, m);
    assert SilentElement(s, 0, m);
    ElementIsSilent(s, 0, m);
    DocumentIsSilent(s, m);
  }

  /** An element that repeats an attribute name, as the only child of another. */
  lemma NestedRepeatIsReported(name: string, t: Tree, front: seq<Attr>, more: seq<Attr>, m: Mode)
    requires IsName(name, m.enc) && t.Element? && IsName(t.name, m.enc) && t.attrs == front + more && more != []
    requires ValidAttrs(front, m) && ValidAttr(more[0], m) && HasAttr(front, more[0].name)
    ensures ParseDocument(PrintDocument([Element(name, [], [t])]), m) == Fail(Some(ReadingElementValue))
  {
    hide PrintBody, ParseElement, ParseRest, SilentElement, Has, IsName, ValidAttrs, HasAttr, PrintKids, NameStart;
    var e := Element(name, [], [t]);
    var s, n := PrintDocument([e]), 1 + |name|;
    R.OneRoot(e);
    R.RootStarts(s, 0, e, 0, m);
    R.ElementParts(s, 0, e, 0, m);
    ContentParts(s, n, e);
    R.LeadAt(s, n + 1, [t], 1);
    var b := n + 1 + R.Lead([t], 1);
    R.RepeatedAttributeIsSilent(s, b, t, 1, front, more, m);
    R.RootStarts(s, b, t, 1, m);
    R.SkipWhite(s, n + 1, b, m.enc);
    ElementIsSilent(s, b, m);
    NameOf(s, e, m);
    assert Skip(s, n, m.enc) == n && ScanTag(s, n, m, []) == Opens(n + 1);
    NestedElementIsReported(s, 0, n, n + 1, m);
  }

  lemma ContentParts(s: string, n: nat, e: Tree)
    requires e.Element? && |e.kids| == 1 && e.kids[0].Element? && Has(s, n, PrintContent(e, 0))
    ensures n < |s| && s[n] == '>' && Has(s, n + 1, PrintKids(e.kids, 1))
  {
    hide PrintKids, Has;
    var kids, end := PrintKids(e.kids, 1), "\n" + Indent(0);
    HasSplit(s, n, ">", kids + end + EndTag(Shown(e.name)));
    HasSplit(s, n + 1, kids + end, EndTag(Shown(e.name)));
    HasSplit(s, n + 1, kids, end);
    R.HasFits(s, n, ">");
    HasChar(s, n, ">", 0);
  }

  lemma NameOf(s: string, e: Tree, m: Mode)
    requires e.Element? && IsName(e.name, m.enc) && Has(s, 0, PrintBody(e, 0)) && e.attrs == []
    requires 1 + |e.name| < |s| && s[1 + |e.name|] == '>'
    ensures |s| > 1 && Name(s, Skip(s, 1, m.enc)) == Some(1 + |e.name|)
  {
    hide Has, PrintContent, NameEnd;
    ShownName(e.name, m.enc);
    HasSplit(s, 0, "<" + e.name + PrintAttrs([]), PrintContent(e, 0));
    HasSplit(s, 0, "<" + e.name, PrintAttrs([]));
    HasSplit(s, 0, "<", e.name);
    R.NameAt(s, 1, e.name, m.enc);
    R.NameNotSkipped(s, 1, e.name, m.enc);
  }
}
