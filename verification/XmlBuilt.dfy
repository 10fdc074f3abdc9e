/** What a Parse method leaves in the nodes, also when parsing fails. */
module XmlBuilt {
  import opened CStrings
  import opened XmlText
  import opened XmlTree
  import opened XmlParser
  import XmlAttributes
  import R = XmlRoundTrip

  /** The element as far as it was read. */
  function BuiltElement(s: string, p: nat, m: Mode): Tree
    requires p <= |s|
    decreases |s| - p, 2
  {
    var q := Skip(s, p, m.enc);
    if q == |s| || s[q] != '<' then Element("", [], [])
    else
      var n := Skip(s, q + 1, m.enc);
      var end := Name(s, n);
      if end.None? then Element("", [], [])
      else if end.value == |s| then Element(s[n..], [], [])
      else BuiltRest(s, end.value, m, s[n..end.value], [])
  }

  /** A repeated attribute name overwrites, and everything behind it is lost. */
  function BuiltRest(s: string, p: nat, m: Mode, name: string, attrs: seq<Attr>): Tree
    requires p < |s|
    decreases |s| - p, 1
  {
    var q := Skip(s, p, m.enc);
    if q == |s| || s[q] == '/' then Element(name, attrs, [])
    else if s[q] == '>' then Element(name, attrs, BuiltValue(s, q + 1, m))
    else
      match ParseAttr(s, q, m.enc)
      case Ok(a, next) =>
        if next == |s| then Element(name, attrs, [])
        else if HasAttr(attrs, a.name) then Element(name, XmlAttributes.SetAttr(attrs, a.name, Shown(a.value)), [])
        else BuiltRest(s, next, m, name, attrs + [a])
      case _ => Element(name, attrs, [])
  }

  /** Children are linked whether they could be read or not. */
  function BuiltValue(s: string, p: nat, m: Mode): seq<Tree>
    requires p <= |s|
    decreases |s| - p, 3
  {
    if p == |s| then []
    else
      var q := Skip(s, p, m.enc);
      if q == |s| then []
      else if s[q] != '<' then
        SkipKeepsTag(s, p, m.enc);
        var c := Text(s, if m.condense then q else p, m.condense, "<", m.enc);
        Linked(c.text) + if c.next.At? then BuiltValue(s, c.next.pos - 1, m) else []
      else if !OpensElement(s, q) then []
      else
        var r := ParseElement(s, q, m);
        [BuiltElement(s, q, m)] + if r.Ok? then BuiltValue(s, r.next, m) else []
  }

  function BuiltRoots(s: string, p: nat, m: Mode): seq<Tree>
    requires p <= |s|
    decreases |s| - p
  {
    var q := Skip(s, p, m.enc);
    if !OpensElement(s, q) then []
    else
      var r := ParseElement(s, q, m);
      [BuiltElement(s, q, m)] + if r.Ok? then BuiltRoots(s, r.next, m) else []
  }

  /** Where the last root ends that could be read. */
  function LastRootEnd(s: string, p: nat, m: Mode): (e: nat)
    requires p <= |s|
    ensures p <= e <= |s|
    decreases |s| - p
  {
    var q := Skip(s, p, m.enc);
    if !OpensElement(s, q) then p
    else
      var r := ParseElement(s, q, m);
      if r.Ok? then LastRootEnd(s, r.next, m) else p
  }

  // ---------- what could be read is what is left ----------

  lemma {:induction false} ElementIsBuilt(s: string, p: nat, m: Mode)
    requires p <= |s|
    ensures ParseElement(s, p, m).Ok? ==> ParseElement(s, p, m).value == BuiltElement(s, p, m)
    decreases |s| - p, 2
  {
    hide Skip, NameEnd, ParseRest, BuiltRest;
    var q := Skip(s, p, m.enc);
    if q < |s| && s[q] == '<' {
      var n := Skip(s, q + 1, m.enc);
      var end := Name(s, n);
      if end.Some? && end.value < |s| { RestIsBuilt(s, end.value, m, s[n..end.value], []); }
    }
  }

  lemma {:induction false} RestIsBuilt(s: string, p: nat, m: Mode, name: string, attrs: seq<Attr>)
    requires p < |s|
    ensures var r := ParseRest(s, p, m, name, attrs); r.Ok? ==> r.value == BuiltRest(s, p, m, name, attrs)
    decreases |s| - p, 1
  {
    hide Skip, ParseAttr, ParseValue, BuiltValue, Has, HasAttr;
    var q := Skip(s, p, m.enc);
    if q < |s| && s[q] != '/' {
      if s[q] == '>' {
        ValueIsBuilt(s, q + 1, m);
      } else {
        var r := ParseAttr(s, q, m.enc);
        if r.Ok? && r.next < |s| && !HasAttr(attrs, r.value.name) {
          RestIsBuilt(s, r.next, m, name, attrs + [r.value]);
        }
      }
    }
  }

  lemma {:induction false} ValueIsBuilt(s: string, p: nat, m: Mode)
    requires p <= |s|
    ensures ParseValue(s, p, m).Ok? ==> ParseValue(s, p, m).value == BuiltValue(s, p, m)
    decreases |s| - p, 3
  {
    hide Skip, Text, ParseElement, BuiltElement, NameStart, Linked;
    if p < |s| {
      var q := Skip(s, p, m.enc);
      if q < |s| {
        if s[q] != '<' {
          TextMoves(s, p, q, m);
          var c := Text(s, if m.condense then q else p, m.condense, "<", m.enc);
          if c.next.At? { ValueIsBuilt(s, c.next.pos - 1, m); }
        } else if Has(s, q, "</") {
          HasChar(s, q, "</", 1);
          SlashStartsNone();
        } else if OpensElement(s, q) {
          ElementIsBuilt(s, q, m);
          var r := ParseElement(s, q, m);
          if r.Ok? { ValueIsBuilt(s, r.next, m); }
        }
      }
    }
  }

  lemma SlashStartsNone()
    ensures !NameStart('/')
  {}

  lemma {:induction false} RootsAreBuilt(s: string, p: nat, m: Mode)
    requires p <= |s|
    ensures ParseRoots(s, p, m).Ok? ==> ParseRoots(s, p, m).value == BuiltRoots(s, p, m)
    decreases |s| - p
  {
    hide Skip, ParseElement, BuiltElement, NameStart;
    var q := Skip(s, p, m.enc);
    if OpensElement(s, q) {
      ElementIsBuilt(s, q, m);
      var r := ParseElement(s, q, m);
      if r.Ok? { RootsAreBuilt(s, r.next, m); }
    }
  }

  // ---------- what is left of a repeated attribute ----------

  /** The attribute loop takes printed attributes one after the other. */
  lemma {:induction false} BuiltAttrsAt(s: string, p: nat, attrs: seq<Attr>, read: seq<Attr>, name: string, m: Mode)
    requires Has(s, p, PrintAttrs(attrs)) && p + |PrintAttrs(attrs)| < |s|
    requires ValidAttrs(read + attrs, m)
    ensures BuiltRest(s, p, m, name, read)
         == BuiltRest(s, p + |PrintAttrs(attrs)|, m, name, read + attrs)
    decreases attrs
  {
    hide Has, PrintAttr, ParseAttr, BuiltValue;
    if attrs == [] {
      assert read + attrs == read;
    } else {
      var a, next := attrs[0], p + 1 + |PrintAttr(attrs[0])|;
      HasSplit(s, p, " " + PrintAttr(a), PrintAttrs(attrs[1..]));
      HasSplit(s, p, " ", PrintAttr(a));
      HasChar(s, p, " ", 0);
      R.ValidAttrsNext(read, attrs, m);
      R.AttrAt(s, p + 1, a, m);
      assert Skip(s, p, m.enc) == p + 1;
      BuiltAttrsAt(s, next, attrs[1..], read + [a], name, m);
    }
  }

  lemma BuiltParts(s: string, p: nat, t: Tree, depth: nat, m: Mode)
    requires t.Element? && IsName(t.name, m.enc) && Has(s, p, PrintBody(t, depth))
    ensures var n := p + 1 + |t.name|;
            n < |s| && p <= |s| && BuiltElement(s, p, m) == BuiltRest(s, n, m, t.name, [])
  {
    hide Has, PrintAttrs, PrintContent, BuiltRest, ParseRest, NameEnd;
    R.ElementParts(s, p, t, depth, m);
    var attrs, content := PrintAttrs(t.attrs), PrintContent(t, depth);
    ShownName(t.name, m.enc);
    var n := p + 1 + |t.name|;
    HasSplit(s, p, "<" + t.name + attrs, content);
    HasSplit(s, p, "<" + t.name, attrs);
    HasSplit(s, p, "<", t.name);
    HasChar(s, p, "<", 0);
    R.ContentStarts(s, n, t, depth);
    R.NameAt(s, p + 1, t.name, m.enc);
    R.NameNotSkipped(s, p + 1, t.name, m.enc);
    assert Skip(s, p, m.enc) == p;
  }

  lemma RepeatedOverwrites(s: string, q: nat, more: seq<Attr>, read: seq<Attr>, name: string, m: Mode)
    requires more != [] && ValidAttr(more[0], m) && HasAttr(read, more[0].name)
    requires Has(s, q, PrintAttrs(more)) && q + |PrintAttrs(more)| < |s|
    ensures q < |s| && BuiltRest(s, q, m, name, read)
         == Element(name, XmlAttributes.SetAttr(read, more[0].name, Shown(more[0].value)), [])
  {
    hide PrintAttr, ParseAttr, BuiltValue, Has, HasAttr;
    var a, rest := more[0], PrintAttrs(more[1..]);
    HasSplit(s, q, " " + PrintAttr(a), rest);
    HasSplit(s, q, " ", PrintAttr(a));
    HasChar(s, q, " ", 0);
    R.AttrAt(s, q + 1, a, m);
    R.HasFits(s, q + 1, PrintAttr(a));
    assert Skip(s, q, m.enc) == q + 1;
  }

  lemma RepeatedIsBuilt(s: string, p: nat, t: Tree, depth: nat, front: seq<Attr>, more: seq<Attr>, m: Mode)
    requires t.Element? && IsName(t.name, m.enc) && t.attrs == front + more && more != []
    requires ValidAttrs(front, m) && ValidAttr(more[0], m) && HasAttr(front, more[0].name)
    requires Has(s, p, PrintBody(t, depth))
    ensures p <= |s| && BuiltElement(s, p, m)
         == Element(t.name, XmlAttributes.SetAttr(front, more[0].name, Shown(more[0].value)), [])
  {
    hide PrintBody, ParseElement, BuiltElement, BuiltRest, PrintAttrs, Has, ValidAttrs, HasAttr, XmlAttributes.SetAttr;
    var n := p + 1 + |t.name|;
    R.ElementParts(s, p, t, depth, m);
    R.PrintAttrsJoin(front, more);
    HasSplit(s, n, PrintAttrs(front), PrintAttrs(more));
    BuiltParts(s, p, t, depth, m);
    assert [] + front == front;
    BuiltAttrsAt(s, n, front, [], t.name, m);
    RepeatedOverwrites(s, n + |PrintAttrs(front)|, more, front, t.name, m);
  }

  /** A document of one element that repeats an attribute name is loaded without
      an error into an element that has the first attributes, the repeated one
      overwritten, and nothing of the rest. */
  lemma RepeatedAttributeIsKept(t: Tree, front: seq<Attr>, more: seq<Attr>, m: Mode)
    requires t.Element? && IsName(t.name, m.enc) && t.attrs == front + more && more != []
    requires ValidAttrs(front, m) && ValidAttr(more[0], m) && HasAttr(front, more[0].name)
    ensures var s := PrintDocument([t]);
            && ParseDocument(s, m) == Fail(None)
            && BuiltRoots(s, 0, m)
               == [Element(t.name, XmlAttributes.SetAttr(front, more[0].name, Shown(more[0].value)), [])]
  {
    hide PrintBody, ParseElement, BuiltElement, PrintDocument, Has, IsName, ValidAttrs, HasAttr, XmlAttributes.SetAttr;
    var s := PrintDocument([t]);
    R.OneRoot(t);
    R.RootStarts(s, 0, t, 0, m);
    R.RepeatedAttributeIsSilent(s, 0, t, 0, front, more, m);
    RepeatedIsBuilt(s, 0, t, 0, front, more, m);
  }
}
