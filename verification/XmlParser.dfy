/** What TinyXML's recursive descent parser makes of a string of elements and
    text. Declarations, comments, CDATA sections and unknown tags are left to
    the outcome `Unmodelled`. */
module XmlParser {
  import opened CStrings
  import opened XmlText
  import opened XmlTree

  datatype Error =
    | ParsingElement | FailedToReadElementName | ReadingElementValue | ReadingAttributes
    | ParsingEmpty | ReadingEndTag | DocumentEmpty

  /** Null is a failure with the error that was set first, if one was set at
      all; `Undefined` is a read past the terminator. */
  datatype Result<T> =
    | Ok(value: T, next: nat)
    | Fail(error: Option<Error>)
    | Undefined
    | Unmodelled

  /** A failure that gets `e` set unless an error was set before. */
  function Blame<T>(r: Result<T>, e: Error): Result<T> {
    if r == Fail(None) then Fail(Some(e)) else r
  }

  function NameEnd(s: string, p: nat): (q: nat)
    requires p <= |s|
    ensures p <= q <= |s|
    decreases |s| - p
  {
    if p < |s| && NameChar(s[p]) then NameEnd(s, p + 1) else p
  }

  /** ReadName: the position behind the name at `p`. */
  function Name(s: string, p: nat): (r: Option<nat>)
    requires p <= |s|
    ensures r.Some? ==> p < r.value <= |s|
  {
    if p < |s| && NameStart(s[p]) then Some(NameEnd(s, p + 1)) else None
  }

  lemma NameStartIsChar(c: char)
    requires NameStart(c)
    ensures NameChar(c)
  {}

  /** An attribute value without quotes. */
  function Bare(s: string, p: nat): (r: Result<string>)
    requires p <= |s|
    ensures r.Ok? ==> p <= r.next <= |s|
    decreases |s| - p
  {
    if p == |s| || IsWhite(s[p]) || s[p] == '/' || s[p] == '>' then Ok("", p)
    else if s[p] == '\'' || s[p] == '"' then Fail(Some(ReadingAttributes))
    else
      match Bare(s, p + 1)
      case Ok(v, q) => Ok([s[p]] + v, q)
      case r => r
  }

  function AttrValue(s: string, p: nat, enc: Encoding): (r: Result<string>)
    requires p < |s|
    ensures r.Ok? ==> p <= r.next <= |s|
  {
    if s[p] == '\'' || s[p] == '"' then
      var c := Text(s, p + 1, false, [s[p]], enc);
      match c.next
      case Null => Fail(None)
      case Wild => Undefined
      case At(q) => if q > |s| then Undefined else Ok(c.text, q)
    else Bare(s, p)
  }

  /** TiXmlAttribute::Parse. */
  function ParseAttr(s: string, p: nat, enc: Encoding): (r: Result<Attr>)
    requires p <= |s|
    ensures r.Ok? ==> p < r.next <= |s|
  {
    var q := Skip(s, p, enc);
    if q == |s| then Fail(None)
    else
      var name := Name(s, q);
      if name.None? || name.value == |s| then Fail(Some(ReadingAttributes))
      else
        var eq := Skip(s, name.value, enc);
        if eq == |s| || s[eq] != '=' then Fail(Some(ReadingAttributes))
        else
          var v := Skip(s, eq + 1, enc);
          if v == |s| then Fail(Some(ReadingAttributes))
          else
            match AttrValue(s, v, enc)
            case Ok(value, next) => Ok(Attr(s[q..name.value], value), next)
            case Fail(e) => Fail(e)
            case Undefined => Undefined
            case Unmodelled => Unmodelled
  }

  /** A '<' that Identify takes for the start of an element. */
  predicate OpensElement(s: string, p: nat) {
    CharAt(s, p) == '<' && NameStart(CharAt(s, p + 1))
  }

  /** TiXmlElement::Parse. */
  function ParseElement(s: string, p: nat, m: Mode): (r: Result<Tree>)
    requires p <= |s|
    ensures r.Ok? ==> p < r.next <= |s|
    decreases |s| - p, 2
  {
    var q := Skip(s, p, m.enc);
    if q == |s| || s[q] != '<' then Fail(Some(ParsingElement))
    else
      var n := Skip(s, q + 1, m.enc);
      var end := Name(s, n);
      if end.None? || end.value == |s| then Fail(Some(FailedToReadElementName))
      else ParseRest(s, end.value, m, s[n..end.value], [])
  }

  /** The attribute loop of TiXmlElement::Parse and what follows it. */
  function ParseRest(s: string, p: nat, m: Mode, name: string, attrs: seq<Attr>): (r: Result<Tree>)
    requires p < |s|
    ensures r.Ok? ==> p < r.next <= |s|
    decreases |s| - p, 1
  {
    var q := Skip(s, p, m.enc);
    if q == |s| then Fail(Some(ReadingAttributes))
    else if s[q] == '/' then
      if CharAt(s, q + 1) == '>' then Ok(Element(name, attrs, []), q + 2)
      else Fail(Some(ParsingEmpty))
    else if s[q] == '>' then
      match ParseValue(s, q + 1, m)
      case Ok(kids, e) =>
        if e == |s| then Fail(None)
        else if Has(s, e, EndTag(name)) then Ok(Element(name, attrs, kids), e + |EndTag(name)|)
        else Fail(Some(ReadingEndTag))
      case Fail(e) => Fail(e)
      case Undefined => Undefined
      case Unmodelled => Unmodelled
    else
      match ParseAttr(s, q, m.enc)
      case Ok(a, next) =>
        if next == |s| then Fail(Some(ParsingElement))
        else if HasAttr(attrs, a.name) then Fail(None)
        else ParseRest(s, next, m, name, attrs + [a])
      case Fail(e) => Blame(Fail(e), ParsingElement)
      case Undefined => Undefined
      case Unmodelled => Unmodelled
  }

  function Prepend(kids: seq<Tree>, r: Result<seq<Tree>>): Result<seq<Tree>> {
    match r
    case Ok(rest, next) => Ok(kids + rest, next)
    case _ => r
  }

  function Linked(text: string): seq<Tree> {
    if IsBlank(text) then [] else [TextNode(text, false)]
  }

  /** TiXmlElement::ReadValue: the children up to "</" or the terminator. */
  function ParseValue(s: string, p: nat, m: Mode): (r: Result<seq<Tree>>)
    requires p <= |s|
    ensures r.Ok? ==> p <= r.next <= |s|
    decreases |s| - p, 3
  {
    if p == |s| then Fail(Some(ReadingElementValue))
    else
      var q := Skip(s, p, m.enc);
      if q == |s| then Ok([], q)
      else if s[q] != '<' then
        SkipKeepsTag(s, p, m.enc);
        var c := Text(s, if m.condense then q else p, m.condense, "<", m.enc);
        match c.next
        case Null => Fail(Some(ReadingElementValue))
        case Wild => Undefined
        case At(end) =>
          Prepend(Linked(c.text), ParseValue(s, end - 1, m))
      else if Has(s, q, "</") then Ok([], q)
      else if !OpensElement(s, q) then Unmodelled
      else
        match ParseElement(s, q, m)
        case Ok(t, next) => Prepend([t], ParseValue(s, next, m))
        case Fail(e) => Blame(Fail(e), ReadingElementValue)
        case Undefined => Undefined
        case Unmodelled => Unmodelled
  }

  /** Skipping never passes a '<', so text read from before the white space is
      at least one character long. */
  lemma SkipKeepsTag(s: string, p: nat, enc: Encoding)
    requires p < |s| && Skip(s, p, enc) < |s| && s[Skip(s, p, enc)] != '<'
    ensures s[p] != '<' && !Has(s, p, "<") && !Has(s, Skip(s, p, enc), "<")
    ensures Skip(s, Skip(s, p, enc), enc) == Skip(s, p, enc)
  {
    SkipTwice(s, p, enc);
  }

  lemma TextMoves(s: string, from: nat, at: nat, m: Mode)
    requires from < |s| && at == Skip(s, from, m.enc) < |s| && s[at] != '<'
    ensures var c := Text(s, if m.condense then at else from, m.condense, "<", m.enc);
            c.next.At? ==> from < c.next.pos - 1 <= |s|
  {
    SkipKeepsTag(s, from, m.enc);
  }

  lemma {:induction false} SkipTwice(s: string, p: nat, enc: Encoding)
    requires p <= |s|
    ensures Skip(s, Skip(s, p, enc), enc) == Skip(s, p, enc)
    ensures p < |s| && s[p] == '<' ==> Skip(s, p, enc) == p
    decreases |s| - p
  {
    if p < |s| && IsWhite(s[p]) {
      SkipTwice(s, p + 1, enc);
    } else if enc.Utf8? && IsBom(s, p) {
      SkipTwice(s, p + 3, enc);
    }
  }

  /** The loop of TiXmlDocument::Parse. */
  function ParseRoots(s: string, p: nat, m: Mode): (r: Result<seq<Tree>>)
    requires p <= |s|
    ensures r.Ok? ==> p <= r.next <= |s|
    decreases |s| - p
  {
    var q := Skip(s, p, m.enc);
    if q == |s| || s[q] != '<' then Ok([], q)
    else if !OpensElement(s, q) then Unmodelled
    else
      match ParseElement(s, q, m)
      case Ok(t, next) => Prepend([t], ParseRoots(s, next, m))
      case Fail(e) => Fail(e)
      case Undefined => Undefined
      case Unmodelled => Unmodelled
  }

  /** TiXmlDocument::Parse. */
  function ParseDocument(s: string, m: Mode): Result<seq<Tree>> {
    if s == "" then Fail(Some(DocumentEmpty))
    else
      var r := ParseRoots(s, 0, m);
      if r.Ok? && r.value == [] then Fail(Some(DocumentEmpty)) else r
  }
}
