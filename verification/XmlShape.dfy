/** What every tree the parser yields is like, whatever the input. */
module XmlShape {
  import opened CStrings
  import opened XmlText
  import opened XmlTree
  import opened XmlParser

  predicate ShapedAttrs(attrs: seq<Attr>, enc: Encoding) {
    forall i :: 0 <= i < |attrs| ==> IsName(attrs[i].name, enc) && !HasAttr(attrs[..i], attrs[i].name)
  }

  /** No two texts stand next to each other. */
  predicate Apart(kids: seq<Tree>) {
    forall i :: 0 <= i < |kids| - 1 ==> kids[i].Element? || kids[i + 1].Element?
  }

  /** Names are names, those of attributes differ, and no text is blank or stands
      next to another. */
  predicate Shaped(t: Tree, enc: Encoding)
    decreases t
  {
    match t
    case TextNode(text, cdata) => !cdata && !IsBlank(text)
    case Element(name, attrs, kids) =>
      IsName(name, enc) && ShapedAttrs(attrs, enc) && Apart(kids) && ShapedKids(kids, enc)
  }

  predicate ShapedKids(kids: seq<Tree>, enc: Encoding)
    decreases kids
  {
    kids == [] || (Shaped(kids[0], enc) && ShapedKids(kids[1..], enc))
  }

  /** The first child is no text. */
  predicate NoTextFirst(kids: seq<Tree>) {
    kids == [] || kids[0].Element?
  }

  lemma PrependShaped(t: Tree, rest: seq<Tree>, enc: Encoding)
    requires Shaped(t, enc) && ShapedKids(rest, enc) && Apart(rest) && (t.Element? || NoTextFirst(rest))
    ensures ShapedKids([t] + rest, enc) && Apart([t] + rest)
  {
    assert ([t] + rest)[1..] == rest;
  }

  // ---------- names ----------

  lemma {:induction false} SkipStops(s: string, p: nat, enc: Encoding)
    requires p <= |s|
    ensures var q := Skip(s, p, enc); q < |s| ==> !IsWhite(s[q]) && !(enc.Utf8? && IsBom(s, q))
    decreases |s| - p
  {
    if p < |s| && IsWhite(s[p]) {
      SkipStops(s, p + 1, enc);
    } else if enc.Utf8? && IsBom(s, p) {
      SkipStops(s, p + 3, enc);
    }
  }

  lemma {:induction false} NameEndChars(s: string, p: nat)
    requires p <= |s|
    ensures forall k :: p <= k < NameEnd(s, p) ==> NameChar(s[k])
    decreases |s| - p
  {
    if p < |s| && NameChar(s[p]) { NameEndChars(s, p + 1); }
  }

  lemma NameIsName(s: string, p: nat, enc: Encoding)
    requires p <= |s| && Name(s, p).Some? && !(enc.Utf8? && IsBom(s, p))
    ensures IsName(s[p..Name(s, p).value], enc)
  {
    hide NameEnd;
    NameEndChars(s, p + 1);
    NameStartIsChar(s[p]);
    var name := s[p..Name(s, p).value];
    assert forall k :: 0 <= k < |name| ==> name[k] == s[p + k];
  }

  lemma AttrShaped(s: string, p: nat, enc: Encoding)
    requires p <= |s| && ParseAttr(s, p, enc).Ok?
    ensures IsName(ParseAttr(s, p, enc).value.name, enc)
  {
    hide IsName, Name, IsBom;
    SkipStops(s, p, enc);
    NameIsName(s, Skip(s, p, enc), enc);
  }

  lemma OneMoreAttr(attrs: seq<Attr>, a: Attr, enc: Encoding)
    requires ShapedAttrs(attrs, enc) && IsName(a.name, enc) && !HasAttr(attrs, a.name)
    ensures ShapedAttrs(attrs + [a], enc)
  {
    var all := attrs + [a];
    forall i | 0 <= i < |all| ensures IsName(all[i].name, enc) && !HasAttr(all[..i], all[i].name) {
      assert all[..i] == attrs[..i];
    }
  }

  // ---------- texts ----------

  lemma {:induction false} KeepStops(s: string, p: nat, tag: string, enc: Encoding)
    requires p <= |s|
    ensures var r := ReadKeep(s, p, tag, enc); r.next.At? ==> r.next.pos == |s| || Has(s, r.next.pos, tag)
    decreases |s| - p
  {
    hide Has, Char;
    if p < |s| && !Has(s, p, tag) {
      var c := Char(s, p, enc);
      if c.next.At? && c.next.pos <= |s| { KeepStops(s, c.next.pos, tag, enc); }
    }
  }

  lemma {:induction false} CondensedStops(s: string, p: nat, tag: string, enc: Encoding, gap: bool)
    requires p <= |s|
    ensures var r := ReadCondensed(s, p, tag, enc, gap); r.next.At? ==> r.next.pos == |s| || Has(s, r.next.pos, tag)
    decreases |s| - p
  {
    hide Has, Char, IsWhite;
    if p < |s| && !Has(s, p, tag) {
      if IsWhite(s[p]) {
        CondensedStops(s, p + 1, tag, enc, true);
      } else {
        var c := Char(s, p, enc);
        if c.next.At? && c.next.pos <= |s| { CondensedStops(s, c.next.pos, tag, enc, false); }
      }
    }
  }

  /** Behind a text stands a tag, or nothing. */
  lemma TextStops(s: string, p: nat, trim: bool, enc: Encoding)
    requires p <= |s|
    ensures var c := Text(s, p, trim, "<", enc);
            c.next.At? ==> var q := c.next.pos - 1; q == |s| || (q < |s| && s[q] == '<')
  {
    hide Has, ReadKeep, ReadCondensed;
    KeepStops(s, p, "<", enc);
    CondensedStops(s, Skip(s, p, enc), "<", enc, false);
    var c := Text(s, p, trim, "<", enc);
    if c.next.At? && Has(s, c.next.pos - 1, "<") {
      HasChar(s, c.next.pos - 1, "<", 0);
      HasLength(s, c.next.pos - 1, "<");
    }
  }

  lemma HasLength(s: string, p: nat, t: string)
    requires Has(s, p, t)
    ensures p + |t| <= |s|
  {}

  // ---------- trees ----------

  lemma {:induction false} ElementShaped(s: string, p: nat, m: Mode)
    requires p <= |s|
    ensures var r := ParseElement(s, p, m); r.Ok? ==> r.value.Element? && Shaped(r.value, m.enc)
    decreases |s| - p, 2
  {
    hide ParseRest, IsName, Shaped, Name, IsBom;
    var q := Skip(s, p, m.enc);
    if q < |s| && s[q] == '<' {
      var n := Skip(s, q + 1, m.enc);
      SkipStops(s, q + 1, m.enc);
      var end := Name(s, n);
      if end.Some? && end.value < |s| {
        NameIsName(s, n, m.enc);
        RestShaped(s, end.value, m, s[n..end.value], []);
      }
    }
  }

  lemma {:induction false} RestShaped(s: string, p: nat, m: Mode, name: string, attrs: seq<Attr>)
    requires p < |s| && IsName(name, m.enc) && ShapedAttrs(attrs, m.enc)
    ensures var r := ParseRest(s, p, m, name, attrs);
            r.Ok? ==> r.value.Element? && Shaped(r.value, m.enc) && r.value.name == name && attrs <= r.value.attrs
    decreases |s| - p, 1
  {
    hide ParseValue, ParseAttr, IsName, ShapedAttrs, HasAttr, Has, Apart, EndTag;
    var q := Skip(s, p, m.enc);
    if q < |s| && s[q] == '>' {
      ValueShaped(s, q + 1, m);
    } else if q < |s| && s[q] != '/' {
      var a := ParseAttr(s, q, m.enc);
      if a.Ok? && a.next < |s| && !HasAttr(attrs, a.value.name) {
        AttrShaped(s, q, m.enc);
        OneMoreAttr(attrs, a.value, m.enc);
        RestShaped(s, a.next, m, name, attrs + [a.value]);
      }
    }
    NoneApart();
  }

  lemma NoneApart()
    ensures Apart([])
  {}

  lemma {:induction false} ValueShaped(s: string, p: nat, m: Mode)
    requires p <= |s|
    ensures var r := ParseValue(s, p, m);
            r.Ok? ==> && ShapedKids(r.value, m.enc) && Apart(r.value)
                      && (p == |s| || s[p] == '<' ==> NoTextFirst(r.value))
    decreases |s| - p, 3
  {
    hide ParseElement, Text, Has, Apart, Shaped, OpensElement, IsBlank;
    NoneApart();
    if p < |s| {
      var q := Skip(s, p, m.enc);
      if q < |s| && s[q] != '<' {
        SkipKeepsTag(s, p, m.enc);
        TextMoves(s, p, q, m);
        var c := Text(s, if m.condense then q else p, m.condense, "<", m.enc);
        TextStops(s, if m.condense then q else p, m.condense, m.enc);
        if c.next.At? {
          ValueShaped(s, c.next.pos - 1, m);
          var rest := ParseValue(s, c.next.pos - 1, m);
          if rest.Ok? { LinkedShaped(c.text, rest.value, m.enc); }
        }
      } else if q < |s| && !Has(s, q, "</") && OpensElement(s, q) {
        ElementShaped(s, q, m);
        var t := ParseElement(s, q, m);
        if t.Ok? {
          ValueShaped(s, t.next, m);
          var rest := ParseValue(s, t.next, m);
          if rest.Ok? { PrependShaped(t.value, rest.value, m.enc); }
        }
      }
    }
  }

  lemma LinkedShaped(text: string, rest: seq<Tree>, enc: Encoding)
    requires ShapedKids(rest, enc) && Apart(rest) && NoTextFirst(rest)
    ensures ShapedKids(Linked(text) + rest, enc) && Apart(Linked(text) + rest)
  {
    hide IsBlank, Apart, NoTextFirst;
    if IsBlank(text) {
      assert Linked(text) + rest == rest;
    } else {
      PrependShaped(TextNode(text, false), rest, enc);
    }
  }

  predicate ShapedRoots(roots: seq<Tree>, enc: Encoding) {
    forall i :: 0 <= i < |roots| ==> roots[i].Element? && Shaped(roots[i], enc)
  }

  /** The roots of a parsed document are elements, and shaped like that. */
  lemma {:induction false} RootsShaped(s: string, p: nat, m: Mode)
    requires p <= |s|
    ensures var r := ParseRoots(s, p, m); r.Ok? ==> ShapedRoots(r.value, m.enc)
    decreases |s| - p
  {
    hide ParseElement, Shaped, OpensElement;
    var q := Skip(s, p, m.enc);
    if q < |s| && s[q] == '<' && OpensElement(s, q) {
      ElementShaped(s, q, m);
      var t := ParseElement(s, q, m);
      if t.Ok? { RootsShaped(s, t.next, m); }
    }
  }
}
