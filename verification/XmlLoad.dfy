/** Parsing into nodes on the heap. Every method ends as the functions of
    XmlParser say, and leaves what those of XmlBuilt say, well formed even when
    it fails. */
module XmlLoad {
  import opened CStrings
  import opened XmlText
  import opened XmlTree
  import P = XmlParser
  import B = XmlBuilt
  import opened XmlAttributes
  import opened XmlDom

  /** The pointer a Parse method returns; parsing is not followed past the end
      of the string or into markup other than elements. */
  datatype Cursor = To(pos: nat) | Failed | PastEnd | OtherMarkup

  function CursorOf<T>(r: P.Result<T>): Cursor {
    match r
    case Ok(_, next) => To(next)
    case Fail(_) => Failed
    case Undefined => PastEnd
    case Unmodelled => OtherMarkup
  }

  /** The error recorded after `r`: the first one stays. */
  function Recorded<T>(before: Option<P.Error>, r: P.Result<T>): Option<P.Error> {
    if before.None? && r.Fail? then r.error else before
  }

  /** What a document has besides its tree: the error, and whether a byte order
      mark was found. */
  class Errors {
    var error: Option<P.Error>
    var useMicrosoftBOM: bool

    constructor ()
      ensures error == None && !useMicrosoftBOM
    {
      error, useMicrosoftBOM := None, false;
    }

    method SetError(e: P.Error)
      modifies this`error
      ensures error == if old(error).None? then Some(e) else old(error)
    {
      if error.None? { error := Some(e); }
    }
  }

  method ReadName(s: CString, p: nat) returns (r: Option<nat>)
    requires p <= |s|
    ensures r == P.Name(s, p)
  {
    if !NameStart(CharAt(s, p)) { return None; }
    var q := p;
    P.NameStartIsChar(CharAt(s, p));
    while NameChar(CharAt(s, q))
      invariant p <= q <= |s| && P.NameEnd(s, q) == P.NameEnd(s, p)
      decreases |s| - q
    {
      q := q + 1;
    }
    r := Some(q);
  }

  /** An attribute value without quotes. */
  method ReadBare(s: CString, p: nat, errors: Errors) returns (value: string, c: Cursor)
    requires p <= |s|
    modifies errors`error
    ensures var r := P.Bare(s, p);
            c == CursorOf(r) && errors.error == Recorded(old(errors.error), r) && (r.Ok? ==> value == r.value)
  {
    var q := p;
    value := "";
    BareStart(P.Bare(s, p));
    while CharAt(s, q) != '\0' && !IsWhite(s[q]) && s[q] != '/' && s[q] != '>'
      invariant p <= q <= |s| && errors.error == old(errors.error)
      invariant P.Bare(s, p) == BareFrom(value, P.Bare(s, q))
      decreases |s| - q
    {
      if s[q] == '\'' || s[q] == '"' {
        errors.SetError(P.ReadingAttributes);
        return value, Failed;
      }
      BareNext(value, s[q], P.Bare(s, q + 1));
      value := value + [s[q]];
      q := q + 1;
    }
    c := To(q);
  }

  lemma BareStart(r: P.Result<string>)
    ensures BareFrom("", r) == r
  {
    if r.Ok? { assert "" + r.value == r.value; }
  }

  lemma BareNext(value: string, c: char, r: P.Result<string>)
    ensures BareFrom(value, BareFrom([c], r)) == BareFrom(value + [c], r)
  {
    if r.Ok? { Assoc(value, [c], r.value); }
  }

  function BareFrom(value: string, r: P.Result<string>): P.Result<string> {
    match r
    case Ok(rest, next) => P.Ok(value + rest, next)
    case _ => r
  }

  method ReadAttrValue(s: CString, p: nat, enc: Encoding, errors: Errors) returns (value: string, c: Cursor)
    requires p < |s|
    modifies errors`error
    ensures var r := P.AttrValue(s, p, enc);
            c == CursorOf(r) && errors.error == Recorded(old(errors.error), r) && (r.Ok? ==> value == r.value)
  {
    if s[p] == '\'' || s[p] == '"' {
      var chunk := ReadText(s, p + 1, false, [s[p]], enc);
      value := chunk.text;
      c := match chunk.next
        case Null => Failed
        case Wild => PastEnd
        case At(q) => if q > |s| then PastEnd else To(q);
    } else {
      value, c := ReadBare(s, p, errors);
    }
  }

  /** TiXmlAttribute::Parse. */
  method ReadAttribute(attrib: Attribute, s: CString, p: nat, enc: Encoding, errors: Errors) returns (c: Cursor)
    requires p <= |s|
    modifies attrib`name, attrib`value, errors`error
    ensures var r := P.ParseAttr(s, p, enc);
            && c == CursorOf(r) && errors.error == Recorded(old(errors.error), r)
            && (r.Ok? ==> r.value == Attr(attrib.name, attrib.value))
  {
    hide P.AttrValue, Skip, P.NameEnd;
    var at := SkipWhiteSpace(s, p, enc);
    if at.Null? || at.pos == |s| { return Failed; }
    var q := at.pos;
    var name := ReadName(s, q);
    if name.None? || name.value == |s| {
      errors.SetError(P.ReadingAttributes);
      return Failed;
    }
    attrib.name := s[q..name.value];
    at := SkipWhiteSpace(s, name.value, enc);
    if CharAt(s, at.pos) != '=' {
      errors.SetError(P.ReadingAttributes);
      return Failed;
    }
    at := SkipWhiteSpace(s, at.pos + 1, enc);
    if at.Null? || at.pos == |s| {
      errors.SetError(P.ReadingAttributes);
      return Failed;
    }
    var value;
    value, c := ReadAttrValue(s, at.pos, enc, errors);
    attrib.value := value;
  }

  /** Adds an attribute, unless there is one of that name, which then is
      overwritten. */
  method AddAttribute(node: Node, attrib: Attribute) returns (added: bool)
    requires node.Valid() && attrib !in node.parts
    modifies node`parts, node.attributeSet.Repr(), attrib`next, attrib`prev
    ensures node.Valid() && node.parts - {attrib} == old(node.parts)
    ensures added == !HasAttr(old(node.attributeSet.Attrs()), attrib.name)
    ensures added ==>
      node.attributeSet.Attrs() == old(node.attributeSet.Attrs()) + [Attr(attrib.name, attrib.value)]
    ensures !added ==>
      node.attributeSet.Attrs() == SetAttr(old(node.attributeSet.Attrs()), attrib.name, Shown(attrib.value))
    ensures attrib.name == old(attrib.name) && attrib.value == old(attrib.value)
  {
    hide Node.Valid, AttributeSet.Valid, AttrsOf, HasAttr, IndexOf, SetAttr, Shown;
    node.Ends();
    var found := node.attributeSet.Find(attrib.name);
    added := found == null;
    if found != null {
      Overwrite(node, found, Shown(attrib.value));
    } else {
      Append(node, attrib);
    }
  }

  method Overwrite(node: Node, found: Attribute, value: string)
    requires node.Valid() && found in node.attributeSet.items
    modifies found`value
    ensures node.Valid()
    ensures node.attributeSet.Attrs() == SetAttr(old(node.attributeSet.Attrs()), found.name, value)
  {
    hide Node.Valid, Node.Linked, Node.Forest, AttributeSet.Valid, AttrsOf, SetAttr;
    node.Open();
    node.attributeSet.Overwrite(found, value);
    node.Close();
  }

  method Append(node: Node, attrib: Attribute)
    requires node.Valid() && attrib !in node.parts && !HasAttr(node.attributeSet.Attrs(), attrib.name)
    modifies node`parts, node.attributeSet.Repr(), attrib`next, attrib`prev
    ensures node.Valid() && node.parts == old(node.parts) + {attrib}
    ensures node.attributeSet.Attrs() == old(node.attributeSet.Attrs()) + [Attr(attrib.name, attrib.value)]
    ensures attrib.name == old(attrib.name) && attrib.value == old(attrib.value)
  {
    hide Node.Valid, Node.Linked, Node.Forest, AttributeSet.Valid, AttrsOf, HasAttr;
    node.Open();
    ghost var others := node.parts - node.attributeSet.Repr();
    node.attributeSet.Add(attrib);
    node.parts := node.parts + {attrib};
    assert node.parts - node.attributeSet.Repr() == others;
    node.Close();
  }

  /** An element that Identify has just made. */
  ghost predicate Bare(node: Node)
    reads node, node.nodes, node.parts
  {
    && node.kind.ElementKind? && node.nodes == {node} && node.Valid()
    && node.kids == [] && node.kidTrees == []
  }

  /** TiXmlElement::Parse. */
  method ReadElement(node: Node, s: CString, p: nat, m: Mode, errors: Errors) returns (c: Cursor)
    requires p <= |s| && Bare(node) && node.value == "" && node.attributeSet.Attrs() == [] && errors !in node.parts
    modifies node`value, node`parts, node`nodes, node`kids, node`kidTrees, node`firstChild, node`lastChild
    modifies node.parts, errors`error
    ensures node.Valid() && fresh(node.nodes - {node}) && fresh(node.parts - old(node.parts))
    ensures var r := P.ParseElement(s, p, m);
            && c == CursorOf(r) && (r.Ok? ==> node.Tree() == r.value)
            && (r.Ok? || r.Fail? ==>
                  && errors.error == Recorded(old(errors.error), r)
                  && node.Tree() == B.BuiltElement(s, p, m))
    decreases |s| - p, 2, 0
  {
    hide Node.Valid, P.ParseElement, B.BuiltElement, P.ParseRest, B.BuiltRest, AttributeSet.Attrs, AttributeSet.Repr;
    B.ElementIsBuilt(s, p, m);
    var end := ReadStart(node, s, p, m, errors);
    if end.None? { return Failed; }
    c := ReadRest(node, s, end.value, m, errors);
  }

  /** The part up to the end of the name. */
  method ReadStart(node: Node, s: CString, p: nat, m: Mode, errors: Errors) returns (end: Option<nat>)
    requires p <= |s| && Bare(node) && node.value == "" && errors !in node.parts
    modifies node`value, errors`error
    ensures Bare(node) && '\0' !in node.value && node.attributeSet.Attrs() == old(node.attributeSet.Attrs())
    ensures var r, built := P.ParseElement(s, p, m), B.BuiltElement(s, p, m);
            if end.None? then
              r.Fail? && errors.error == Recorded(old(errors.error), r) && built == Element(node.value, [], [])
            else
              && p < end.value < |s| && errors.error == old(errors.error)
              && r == P.ParseRest(s, end.value, m, node.value, [])
              && built == B.BuiltRest(s, end.value, m, node.value, [])
  {
    hide Node.Valid, Skip, P.NameEnd, P.ParseRest, B.BuiltRest, AttributeSet.Attrs;
    var at := SkipWhiteSpace(s, p, m.enc);
    if at.Null? || CharAt(s, at.pos) != '<' {
      errors.SetError(P.ParsingElement);
      return None;
    }
    at := SkipWhiteSpace(s, at.pos + 1, m.enc);
    end := None;
    if at.At? { end := ReadName(s, at.pos); }
    if end.Some? { SetName(node, s[at.pos..end.value]); }
    if end.None? || CharAt(s, end.value) == '\0' {
      errors.SetError(P.FailedToReadElementName);
      return None;
    }
  }

  method SetName(node: Node, name: string)
    requires Bare(node)
    modifies node`value
    ensures Bare(node) && node.value == name && node.attributeSet.Attrs() == old(node.attributeSet.Attrs())
  {
    hide Node.Linked, Node.Forest, AttributeSet.Valid;
    node.value := name;
  }

  /** The attribute loop. */
  method ReadRest(node: Node, s: CString, p: nat, m: Mode, errors: Errors) returns (c: Cursor)
    requires p < |s| && Bare(node) && node.attributeSet.Attrs() == []
    requires '\0' !in node.value && errors !in node.parts
    modifies node`parts, node`nodes, node`kids, node`kidTrees, node`firstChild, node`lastChild
    modifies node.parts, errors`error
    ensures node.Valid() && fresh(node.nodes - {node}) && fresh(node.parts - old(node.parts))
    ensures var r := P.ParseRest(s, p, m, node.value, []);
            && c == CursorOf(r)
            && (r.Ok? || r.Fail? ==>
                  && errors.error == Recorded(old(errors.error), r)
                  && node.Tree() == B.BuiltRest(s, p, m, node.value, []))
    decreases |s| - p, 1
  {
    hide Node.Valid, Skip, P.ParseAttr, P.ParseValue, B.BuiltValue, AttributeSet.Attrs, HasAttr, Has;
    var i := p;
    c := Failed;
    while CharAt(s, i) != '\0'
      invariant p <= i < |s| && Bare(node) && errors.error == old(errors.error)
      invariant fresh(node.parts - old(node.parts)) && errors !in node.parts
      invariant P.ParseRest(s, i, m, node.value, node.attributeSet.Attrs())
             == P.ParseRest(s, p, m, node.value, [])
      invariant B.BuiltRest(s, i, m, node.value, node.attributeSet.Attrs())
             == B.BuiltRest(s, p, m, node.value, [])
      decreases |s| - i
    {
      var at := SkipWhiteSpace(s, i, m.enc);
      var q := at.pos;
      if CharAt(s, q) == '\0' {
        errors.SetError(P.ReadingAttributes);
        return Failed;
      } else if s[q] == '/' {
        if CharAt(s, q + 1) != '>' {
          errors.SetError(P.ParsingEmpty);
          return Failed;
        }
        return To(q + 2);
      } else if s[q] == '>' {
        c := ReadContent(node, s, i, q, m, errors);
        return;
      } else {
        c := ReadNextAttribute(node, s, i, q, m, errors);
        if !c.To? { return; }
        i := c.pos;
      }
    }
  }

  /** The children and the end tag. */
  method ReadContent(node: Node, s: CString, i: nat, q: nat, m: Mode, errors: Errors) returns (c: Cursor)
    requires i < |s| && q == Skip(s, i, m.enc) < |s| && s[q] == '>' && Bare(node)
    requires '\0' !in node.value && errors !in node.parts
    modifies node`parts, node`nodes, node`kids, node`kidTrees, node`firstChild, node`lastChild, errors`error
    ensures node.Valid() && fresh(node.nodes - {node}) && fresh(node.parts - old(node.parts))
    ensures var attrs := old(node.attributeSet.Attrs());
            var r := P.ParseRest(s, i, m, node.value, attrs);
            && c == CursorOf(r)
            && (r.Ok? || r.Fail? ==>
                  && errors.error == Recorded(old(errors.error), r)
                  && node.Tree() == B.BuiltRest(s, i, m, node.value, attrs))
    decreases |s| - q, 0
  {
    hide Node.Valid, Skip, P.ParseAttr, P.ParseValue, B.BuiltValue, AttributeSet.Attrs, HasAttr, Has;
    c := ReadValue(node, s, q + 1, m, errors);
    if c.To? { c := ReadEndTag(node.value, s, c.pos, errors); }
  }

  /** One attribute in front of the remaining ones. An attribute that is there
      already makes parsing fail without an error. */
  method ReadNextAttribute(node: Node, s: CString, i: nat, q: nat, m: Mode, errors: Errors) returns (c: Cursor)
    requires i < |s| && q == Skip(s, i, m.enc) < |s| && s[q] != '/' && s[q] != '>'
    requires Bare(node) && errors !in node.parts
    modifies node`parts, node.parts, errors`error
    ensures Bare(node) && fresh(node.parts - old(node.parts))
    ensures var r := P.ParseRest(s, i, m, node.value, old(node.attributeSet.Attrs()));
            if c.To? then
              && i < c.pos < |s| && errors.error == old(errors.error)
              && r == P.ParseRest(s, c.pos, m, node.value, node.attributeSet.Attrs())
            else c == CursorOf(r) && (c.Failed? ==> errors.error == Recorded(old(errors.error), r))
    ensures var built := B.BuiltRest(s, i, m, node.value, old(node.attributeSet.Attrs()));
            && (c.To? ==> built == B.BuiltRest(s, c.pos, m, node.value, node.attributeSet.Attrs()))
            && (c.Failed? ==> built == Element(node.value, node.attributeSet.Attrs(), []))
  {
    hide Node.Valid, Skip, P.ParseAttr, P.ParseValue, B.BuiltValue, HasAttr, AttributeSet.Attrs, SetAttr, Shown;
    var attrib := new Attribute("", "");
    c := ReadAttribute(attrib, s, q, m.enc, errors);
    if c.Failed? || (c.To? && CharAt(s, c.pos) == '\0') {
      errors.SetError(P.ParsingElement);
      return Failed;
    }
    if !c.To? { return; }
    var added := AddAttribute(node, attrib);
    if !added { c := Failed; }
  }

  method ReadEndTag(name: CString, s: CString, p: nat, errors: Errors) returns (c: Cursor)
    requires p <= |s|
    modifies errors`error
    ensures var tag := EndTag(name);
            if p == |s| then c == Failed && errors.error == old(errors.error)
            else if Has(s, p, tag) then c == To(p + |tag|) && errors.error == old(errors.error)
            else c == Failed && errors.error == Recorded<int>(old(errors.error), P.Fail(Some(P.ReadingEndTag)))
  {
    if CharAt(s, p) == '\0' { return Failed; }
    var same := StartsWith(s, p, EndTag(name), false);
    if same { return To(p + |EndTag(name)|); }
    errors.SetError(P.ReadingEndTag);
    c := Failed;
  }

  /** TiXmlElement::ReadValue. */
  method ReadValue(node: Node, s: CString, p: nat, m: Mode, errors: Errors) returns (c: Cursor)
    requires p <= |s| && node.Valid() && node.kind.ElementKind? && node.nodes == {node} && errors !in node.parts
    requires node.kids == [] && node.kidTrees == []
    modifies node`parts, node`nodes, node`kids, node`kidTrees, node`firstChild, node`lastChild, errors`error
    ensures node.Valid() && fresh(node.nodes - {node}) && fresh(node.parts - old(node.parts))
    ensures var r := P.ParseValue(s, p, m);
            && c == CursorOf(r)
            && (r.Ok? || r.Fail? ==>
                  && errors.error == Recorded(old(errors.error), r)
                  && node.kidTrees == B.BuiltValue(s, p, m))
    decreases |s| - p, 4
  {
    hide Node.Valid, Node.Tree, Skip, P.ParseValue, P.Prepend, B.BuiltValue;
    var from := p;
    var at := SkipWhiteSpace(s, from, m.enc);
    PrependNone(P.ParseValue(s, p, m));
    while at.At? && CharAt(s, at.pos) != '\0'
      invariant p <= from <= |s| && at == if from == |s| then Null else At(Skip(s, from, m.enc))
      invariant node.Valid() && errors.error == old(errors.error)
      invariant fresh(node.nodes - {node}) && fresh(node.parts - old(node.parts)) && errors !in node.parts
      invariant P.Prepend(node.kidTrees, P.ParseValue(s, from, m)) == P.ParseValue(s, p, m)
      invariant node.kidTrees + B.BuiltValue(s, from, m) == B.BuiltValue(s, p, m)
      decreases |s| - from
    {
      var closing := StartsWith(s, at.pos, "</", false);
      if closing {
        NothingMore(node.kidTrees, s, from, m);
        return To(at.pos);
      }
      ghost var before := node.kidTrees;
      ghost var more;
      node.KidsIn();
      c, more := ReadNext(node, s, from, at.pos, m, errors);
      if !c.To? {
        NoValue(before, P.ParseValue(s, from, m));
        return;
      }
      PrependTwo(before, more, P.ParseValue(s, c.pos, m));
      Join(before, more, B.BuiltValue(s, c.pos, m));
      from := c.pos;
      at := SkipWhiteSpace(s, from, m.enc);
    }
    NothingMore(node.kidTrees, s, from, m);
    if at.Null? {
      errors.SetError(P.ReadingElementValue);
      c := Failed;
    } else {
      c := To(at.pos);
    }
  }

  /** The end of the children: "</", or only white space before the terminator,
      or the terminator itself. */
  lemma NothingMore(kids: seq<Tree>, s: string, p: nat, m: Mode)
    requires p <= |s|
    ensures p == |s| ==>
      P.Prepend(kids, P.ParseValue(s, p, m)) == P.Fail(Some(P.ReadingElementValue))
    ensures p < |s| && (Skip(s, p, m.enc) == |s| || Has(s, Skip(s, p, m.enc), "</")) ==>
      P.Prepend(kids, P.ParseValue(s, p, m)) == P.Ok(kids, Skip(s, p, m.enc))
    ensures p == |s| || Skip(s, p, m.enc) == |s| || Has(s, Skip(s, p, m.enc), "</") ==>
      kids + B.BuiltValue(s, p, m) == kids
  {
    hide Skip;
    if Has(s, Skip(s, p, m.enc), "</") {
      HasChar(s, Skip(s, p, m.enc), "</", 0);
      HasChar(s, Skip(s, p, m.enc), "</", 1);
    }
    assert kids + [] == kids;
  }

  lemma Join(a: seq<Tree>, b: seq<Tree>, c: seq<Tree>)
    ensures (a + b) + c == a + (b + c)
  {}

  lemma NoValue(kids: seq<Tree>, r: P.Result<seq<Tree>>)
    ensures !r.Ok? ==> P.Prepend(kids, r) == r
  {}

  /** One text or element in front of the remaining children. */
  method ReadNext(node: Node, s: CString, from: nat, at: nat, m: Mode, errors: Errors)
    returns (c: Cursor, ghost more: seq<Tree>)
    requires from < |s| && at == Skip(s, from, m.enc) < |s| && !Has(s, at, "</")
    requires node.Valid() && node.kind.ElementKind? && errors !in node.parts
    modifies node`parts, node`nodes, node`kids, node`kidTrees, node`firstChild, node`lastChild, node.kids`next
    modifies errors`error
    ensures node.Valid() && fresh(node.nodes - old(node.nodes)) && fresh(node.parts - old(node.parts))
    ensures var r := P.ParseValue(s, from, m);
            if c.To? then
              && from < c.pos <= |s| && errors.error == old(errors.error)
              && node.kidTrees == old(node.kidTrees) + more
              && r == P.Prepend(more, P.ParseValue(s, c.pos, m))
              && B.BuiltValue(s, from, m) == more + B.BuiltValue(s, c.pos, m)
            else c == CursorOf(r) && (c.Failed? ==>
              && errors.error == Recorded(old(errors.error), r)
              && node.kidTrees == old(node.kidTrees) + B.BuiltValue(s, from, m))
    decreases |s| - from, 3, 1
  {
    hide Node.Valid, Skip, P.ParseElement, B.BuiltElement, Text, P.Linked, NameStart, P.Prepend;
    hide P.ParseValue, B.BuiltValue, Has;
    more := [];
    if CharAt(s, at) != '<' {
      NextText(s, from, at, m);
      c := ReadTextNode(node, s, if m.condense then at else from, m);
      if c.Failed? { errors.SetError(P.ReadingElementValue); }
      more := P.Linked(Text(s, if m.condense then at else from, m.condense, "<", m.enc).text);
    } else if NameStart(CharAt(s, at + 1)) {
      NextElement(s, from, at, m);
      c := ReadChild(node, s, at, m, errors);
      if c.Failed? { errors.SetError(P.ReadingElementValue); }
      if c.To? { more := [B.BuiltElement(s, at, m)]; }
    } else {
      NextOther(s, from, at, m);
      c := OtherMarkup;
    }
  }

  lemma NextText(s: string, from: nat, at: nat, m: Mode)
    requires from < |s| && at == Skip(s, from, m.enc) < |s| && s[at] != '<'
    ensures var c := Text(s, if m.condense then at else from, m.condense, "<", m.enc);
            var r, built := P.ParseValue(s, from, m), B.BuiltValue(s, from, m);
            if c.next.At? then
              && from < c.next.pos - 1 <= |s|
              && r == P.Prepend(P.Linked(c.text), P.ParseValue(s, c.next.pos - 1, m))
              && built == P.Linked(c.text) + B.BuiltValue(s, c.next.pos - 1, m)
            else if c.next.Wild? then r == P.Undefined
            else r == P.Fail(Some(P.ReadingElementValue)) && built == P.Linked(c.text)
  {
    hide Skip, Text, P.Linked, P.Prepend;
    P.TextMoves(s, from, at, m);
    var c := Text(s, if m.condense then at else from, m.condense, "<", m.enc);
    assert P.Linked(c.text) + [] == P.Linked(c.text);
  }

  lemma NextElement(s: string, from: nat, at: nat, m: Mode)
    requires from < |s| && at == Skip(s, from, m.enc) < |s| && s[at] == '<' && NameStart(CharAt(s, at + 1))
    ensures var e, r, built := P.ParseElement(s, at, m), P.ParseValue(s, from, m), B.BuiltValue(s, from, m);
            if e.Ok? then
              && r == P.Prepend([B.BuiltElement(s, at, m)], P.ParseValue(s, e.next, m))
              && built == [B.BuiltElement(s, at, m)] + B.BuiltValue(s, e.next, m)
            else if e.Fail? then
              && r == P.Blame(P.Fail(e.error), P.ReadingElementValue) && built == [B.BuiltElement(s, at, m)]
            else r == if e.Undefined? then P.Undefined else P.Unmodelled
  {
    hide Skip, P.ParseElement, B.BuiltElement, P.Prepend;
    if Has(s, at, "</") {
      HasChar(s, at, "</", 1);
      B.SlashStartsNone();
    }
    B.ElementIsBuilt(s, at, m);
    assert [B.BuiltElement(s, at, m)] + [] == [B.BuiltElement(s, at, m)];
  }

  lemma NextOther(s: string, from: nat, at: nat, m: Mode)
    requires from < |s| && at == Skip(s, from, m.enc) < |s| && s[at] == '<'
    requires !Has(s, at, "</") && !NameStart(CharAt(s, at + 1))
    ensures P.ParseValue(s, from, m) == P.Unmodelled
  {
    hide Skip, NameStart, Has;
  }

  /** A text up to the next '<', linked unless it is blank. */
  method ReadTextNode(node: Node, s: CString, p: nat, m: Mode) returns (c: Cursor)
    requires p <= |s| && node.Valid() && node.kind.ElementKind?
    modifies node`parts, node`nodes, node`kids, node`kidTrees, node`firstChild, node`lastChild, node.kids`next
    ensures node.Valid() && fresh(node.nodes - old(node.nodes)) && fresh(node.parts - old(node.parts))
    ensures var chunk := Text(s, p, m.condense, "<", m.enc);
            match chunk.next
            case Null => c == Failed && node.kidTrees == old(node.kidTrees) + P.Linked(chunk.text)
            case Wild => c == PastEnd
            case At(end) => c == To(end - 1) && node.kidTrees == old(node.kidTrees) + P.Linked(chunk.text)
  {
    hide Node.Valid, Node.Tree, Text, IsBlank;
    var textNode := new Node(TextKind, "");
    var chunk := ReadText(s, p, m.condense, "<", m.enc);
    textNode.SetValue(chunk.text, false);
    if chunk.next.Wild? { return PastEnd; }
    LinkText(node, textNode);
    c := if chunk.next.Null? then Failed else To(chunk.next.pos - 1);
  }

  method LinkText(node: Node, textNode: Node)
    requires node.Valid() && node.kind.ElementKind? && textNode.Valid() && textNode.kind.TextKind? && !textNode.cdata
    requires textNode.nodes !! node.nodes && textNode.parts !! node.parts && textNode.parent == null
    modifies node`parts, node`nodes, node`kids, node`kidTrees, node`firstChild, node`lastChild, node.kids`next
    modifies textNode`parent, textNode`prev, textNode`next
    ensures node.Valid() && node.kidTrees == old(node.kidTrees) + P.Linked(textNode.value)
    ensures node.nodes <= old(node.nodes) + textNode.nodes && node.parts <= old(node.parts) + textNode.parts
  {
    hide Node.Valid, Node.Tree, IsBlank;
    TextIs(textNode);
    var blank := Blank(textNode.value);
    if !blank {
      var linked := node.LinkEndChild(textNode);
    }
  }

  lemma TextIs(node: Node)
    requires node.kind.TextKind?
    ensures node.Tree() == TextNode(node.value, node.cdata)
  {}

  method Blank(value: string) returns (r: bool)
    ensures r == IsBlank(value)
  {
    for i := 0 to |value|
      invariant forall k :: 0 <= k < i ==> IsWhite(value[k])
    {
      if !IsWhite(value[i]) { return false; }
    }
    r := true;
  }

  /** An element among the children: what Identify makes is parsed and linked,
      even when parsing fails. */
  method ReadChild(node: Node, s: CString, p: nat, m: Mode, errors: Errors) returns (c: Cursor)
    requires p <= |s| && node.Valid() && !node.kind.TextKind? && errors !in node.parts
    modifies node`parts, node`nodes, node`kids, node`kidTrees, node`firstChild, node`lastChild, node.kids`next
    modifies errors`error
    ensures node.Valid() && fresh(node.nodes - old(node.nodes)) && fresh(node.parts - old(node.parts))
    ensures var r := P.ParseElement(s, p, m);
            && c == CursorOf(r)
            && (r.Ok? || r.Fail? ==>
                  && errors.error == Recorded(old(errors.error), r)
                  && node.kidTrees == old(node.kidTrees) + [B.BuiltElement(s, p, m)])
    decreases |s| - p, 3, 0
  {
    hide Node.Valid, Node.Tree, P.ParseElement, B.BuiltElement;
    var child;
    child, c := NewElement(node, s, p, m, errors);
    if c.PastEnd? || c.OtherMarkup? { return; }
    var linked := node.LinkEndChild(child);
  }

  method NewElement(node: Node, s: CString, p: nat, m: Mode, errors: Errors) returns (child: Node, c: Cursor)
    requires p <= |s|
    modifies errors`error
    ensures child.Valid() && child.kind.ElementKind? && child.parent == node
    ensures fresh(child) && fresh(child.nodes) && fresh(child.parts)
    ensures var r := P.ParseElement(s, p, m);
            && c == CursorOf(r)
            && (r.Ok? || r.Fail? ==>
                  && errors.error == Recorded(old(errors.error), r)
                  && child.Tree() == B.BuiltElement(s, p, m))
    decreases |s| - p, 2, 1
  {
    hide Node.Valid, P.ParseElement, B.BuiltElement;
    child := new Node(ElementKind, "");
    child.parent := node;
    c := ReadElement(child, s, p, m, errors);
  }

  lemma PrependNone(r: P.Result<seq<Tree>>)
    ensures P.Prepend([], r) == r
  {
    if r.Ok? { assert [] + r.value == r.value; }
  }

  lemma PrependTwo(a: seq<Tree>, b: seq<Tree>, r: P.Result<seq<Tree>>)
    ensures P.Prepend(a, P.Prepend(b, r)) == P.Prepend(a + b, r)
  {
    if r.Ok? { assert (a + b) + r.value == a + (b + r.value); }
  }
}
