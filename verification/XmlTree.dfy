/** The element trees of TinyXML as values, and what Print writes for them. */
module XmlTree {
  import opened CStrings
  import opened XmlText
  import opened XmlEscaping
  import opened XmlCondense

  /** How a document is read: the encoding of its bytes, and whether white
      space is condensed (the default) or kept. */
  datatype Mode = Mode(enc: Encoding, condense: bool)

  datatype Attr = Attr(name: string, value: string)

  datatype Tree = Element(name: string, attrs: seq<Attr>, kids: seq<Tree>) | TextNode(text: string, cdata: bool)

  // ---------- printing ----------

  function Spaces(n: nat): string {
    if n == 0 then "" else " " + Spaces(n - 1)
  }

  function Indent(depth: nat): string {
    Spaces(4 * depth)
  }

  /** The search for a quote ends at a NUL. */
  function QuoteFor(value: string): string {
    if '"' in Shown(value) then "'" else "\""
  }

  function PrintAttr(a: Attr): string {
    Shown(Put(a.name)) + "=" + (QuoteFor(a.value) + Shown(Put(a.value)) + QuoteFor(a.value))
  }

  function PrintAttrs(attrs: seq<Attr>): string {
    if attrs == [] then "" else " " + PrintAttr(attrs[0]) + PrintAttrs(attrs[1..])
  }

  /** An element from its '<' on; `depth` indents its children and end tag. */
  function PrintBody(t: Tree, depth: nat): string
    requires t.Element?
    decreases t, 1
  {
    "<" + Shown(t.name) + PrintAttrs(t.attrs) + PrintContent(t, depth)
  }

  function EndTag(name: string): string {
    "</" + name + ">"
  }

  function PrintContent(t: Tree, depth: nat): string
    requires t.Element?
    decreases t, 0
  {
    if t.kids == [] then " />"
    else if |t.kids| == 1 && t.kids[0].TextNode? then
      ">" + Print(t.kids[0], depth + 1) + EndTag(Shown(t.name))
    else
      ">" + (PrintKids(t.kids, depth + 1) + ("\n" + Indent(depth)) + EndTag(Shown(t.name)))
  }

  function Print(t: Tree, depth: nat): string
    decreases t, 2
  {
    match t
    case Element(_, _, _) => Indent(depth) + PrintBody(t, depth)
    case TextNode(text, cdata) =>
      if cdata then "\n" + Indent(depth) + "<![CDATA[" + Shown(text) + "]]>\n" else Shown(Put(text))
  }

  function PrintKids(kids: seq<Tree>, depth: nat): string
    decreases kids
  {
    if kids == [] then ""
    else (if kids[0].Element? then "\n" else "") + Print(kids[0], depth) + PrintKids(kids[1..], depth)
  }

  function PrintDocument(roots: seq<Tree>): string {
    if roots == [] then "" else Print(roots[0], 0) + "\n" + PrintDocument(roots[1..])
  }

  // ---------- what iteration over the attributes sees ----------

  /** An attribute without name and value is taken for the sentinel and ends
      the iteration, unless it is the first one. */
  function SeenAttrs(attrs: seq<Attr>): seq<Attr> {
    if attrs == [] then [] else [attrs[0]] + SeenTail(attrs[1..])
  }

  function SeenTail(attrs: seq<Attr>): seq<Attr> {
    if attrs == [] || attrs[0] == Attr("", "") then [] else [attrs[0]] + SeenTail(attrs[1..])
  }

  /** What is seen is a front part, and where it stops short stands an
      attribute without name and value. */
  lemma {:induction false} SeenTailIs(attrs: seq<Attr>)
    ensures var n := |SeenTail(attrs)|;
            && n <= |attrs| && SeenTail(attrs) == attrs[..n]
            && (n < |attrs| ==> attrs[n] == Attr("", ""))
            && forall k :: 0 <= k < n ==> attrs[k] != Attr("", "")
  {
    if attrs != [] && attrs[0] != Attr("", "") {
      SeenTailIs(attrs[1..]);
      var n := |SeenTail(attrs[1..])|;
      assert attrs[..n + 1] == [attrs[0]] + attrs[1..][..n];
      assert forall k :: 1 <= k < n + 1 ==> attrs[k] == attrs[1..][k - 1];
    }
  }

  lemma SeenIs(attrs: seq<Attr>)
    ensures var n := |SeenAttrs(attrs)|;
            && n <= |attrs| && SeenAttrs(attrs) == attrs[..n]
            && (n < |attrs| ==> 0 < n && attrs[n] == Attr("", ""))
            && (attrs != [] ==> 0 < n) && forall k :: 1 <= k < n ==> attrs[k] != Attr("", "")
  {
    if attrs != [] {
      SeenTailIs(attrs[1..]);
      var n := |SeenTail(attrs[1..])|;
      assert attrs[..n + 1] == [attrs[0]] + attrs[1..][..n];
      assert forall k :: 1 <= k < n + 1 ==> attrs[k] == attrs[1..][k - 1];
    }
  }

  function SeenTree(t: Tree): Tree
    decreases t
  {
    match t
    case TextNode(_, _) => t
    case Element(name, attrs, kids) => Element(name, SeenAttrs(attrs), SeenKids(kids))
  }

  function SeenKids(kids: seq<Tree>): (r: seq<Tree>)
    ensures |r| == |kids| && forall i :: 0 <= i < |kids| ==> r[i] == SeenTree(kids[i])
    decreases kids
  {
    if kids == [] then [] else [SeenTree(kids[0])] + SeenKids(kids[1..])
  }

  /** Iteration shows all attributes of the tree. */
  predicate AllSeen(t: Tree)
    decreases t, 1
  {
    t.TextNode? || ((forall i :: 1 <= i < |t.attrs| ==> t.attrs[i] != Attr("", "")) && AllKidsSeen(t.kids))
  }

  predicate AllKidsSeen(kids: seq<Tree>)
    decreases kids
  {
    kids == [] || (AllSeen(kids[0]) && AllKidsSeen(kids[1..]))
  }

  /** A tree is seen whole exactly when no attribute but a first one is without
      name and value. */
  lemma {:induction false} SeenWhole(t: Tree)
    ensures SeenTree(t) == t <==> AllSeen(t)
    decreases t, 1
  {
    if t.Element? {
      AttrsSeenWhole(t.attrs);
      SeenKidsWhole(t.kids);
    }
  }

  lemma AttrsSeenWhole(attrs: seq<Attr>)
    ensures SeenAttrs(attrs) == attrs <==> forall i :: 1 <= i < |attrs| ==> attrs[i] != Attr("", "")
  {
    SeenIs(attrs);
    if SeenAttrs(attrs) != attrs {
      assert attrs[|SeenAttrs(attrs)|] == Attr("", "");
    }
  }

  lemma {:induction false} SeenKidsWhole(kids: seq<Tree>)
    ensures SeenKids(kids) == kids <==> AllKidsSeen(kids)
    decreases kids
  {
    if kids != [] {
      SeenWhole(kids[0]);
      SeenKidsWhole(kids[1..]);
      assert SeenKids(kids) == [SeenTree(kids[0])] + SeenKids(kids[1..]);
      assert kids == [kids[0]] + kids[1..];
      assert SeenKids(kids)[1..] == SeenKids(kids[1..]) && SeenKids(kids)[0] == SeenTree(kids[0]);
    }
  }

  // ---------- what a copy holds ----------

  /** Names and values are handed on as C strings, so a copy has what stands in
      front of their first NUL. */
  function CopyAttrs(attrs: seq<Attr>): (r: seq<Attr>)
    ensures |r| == |attrs|
    ensures forall i :: 0 <= i < |attrs| ==> r[i] == Attr(Shown(attrs[i].name), Shown(attrs[i].value))
  {
    if attrs == [] then [] else [Attr(Shown(attrs[0].name), Shown(attrs[0].value))] + CopyAttrs(attrs[1..])
  }

  function CopyTree(t: Tree): Tree
    decreases t
  {
    match t
    case TextNode(text, cdata) => TextNode(Shown(text), cdata)
    case Element(name, attrs, kids) => Element(Shown(name), CopyAttrs(SeenAttrs(attrs)), CopyKids(kids))
  }

  function CopyKids(kids: seq<Tree>): (r: seq<Tree>)
    ensures |r| == |kids| && forall i :: 0 <= i < |kids| ==> r[i] == CopyTree(kids[i])
    decreases kids
  {
    if kids == [] then [] else [CopyTree(kids[0])] + CopyKids(kids[1..])
  }

  /** No element name, text, attribute name or attribute value holds a NUL. */
  predicate NulFree(t: Tree)
    decreases t, 1
  {
    match t
    case TextNode(text, _) => '\0' !in text
    case Element(name, attrs, kids) => '\0' !in name && NulFreeAttrs(attrs) && NulFreeKids(kids)
  }

  predicate NulFreeAttrs(attrs: seq<Attr>) {
    forall i :: 0 <= i < |attrs| ==> '\0' !in attrs[i].name && '\0' !in attrs[i].value
  }

  predicate NulFreeKids(kids: seq<Tree>)
    decreases kids
  {
    kids == [] || (NulFree(kids[0]) && NulFreeKids(kids[1..]))
  }

  lemma CopyAttrsWhole(attrs: seq<Attr>)
    ensures CopyAttrs(SeenAttrs(attrs)) == attrs <==> SeenAttrs(attrs) == attrs && NulFreeAttrs(attrs)
  {
    hide Shown, SeenAttrs, CopyAttrs;
    SeenIs(attrs);
    var copied := CopyAttrs(SeenAttrs(attrs));
    if SeenAttrs(attrs) == attrs {
      forall i | 0 <= i < |attrs|
        ensures copied[i] == attrs[i] <==> '\0' !in attrs[i].name && '\0' !in attrs[i].value
      {
        ShownWhole(attrs[i].name);
        ShownWhole(attrs[i].value);
      }
    } else {
      assert |copied| < |attrs|;
    }
  }

  /** A copy is the whole tree exactly when iteration shows all of it and nothing
      in it holds a NUL. */
  lemma {:induction false} CopyWhole(t: Tree)
    ensures CopyTree(t) == t <==> AllSeen(t) && NulFree(t)
    decreases t, 1
  {
    hide Shown, SeenAttrs, CopyAttrs, NulFreeAttrs;
    match t
    case TextNode(text, _) => ShownWhole(text);
    case Element(name, attrs, kids) =>
      ShownWhole(name);
      CopyAttrsWhole(attrs);
      AttrsSeenWhole(attrs);
      CopyKidsWhole(kids);
  }

  lemma {:induction false} CopyKidsWhole(kids: seq<Tree>)
    ensures CopyKids(kids) == kids <==> AllKidsSeen(kids) && NulFreeKids(kids)
    decreases kids
  {
    hide CopyTree, AllSeen, NulFree;
    if kids != [] {
      CopyWhole(kids[0]);
      CopyKidsWhole(kids[1..]);
      ConsIs(CopyTree(kids[0]), CopyKids(kids[1..]), kids);
    }
  }

  lemma ConsIs<T>(x: T, rest: seq<T>, list: seq<T>)
    requires list != []
    ensures [x] + rest == list <==> x == list[0] && rest == list[1..]
  {
    if [x] + rest == list { assert ([x] + rest)[1..] == rest; }
    if x == list[0] && rest == list[1..] { assert list == [list[0]] + list[1..]; }
  }

  // ---------- names ----------

  predicate IsLetter(c: char) {
    'a' <= c <= 'z' || 'A' <= c <= 'Z'
  }

  /** Every byte from 127 on counts as a letter. */
  predicate IsAlpha(c: char) {
    if c as int < 127 then IsLetter(c) else true
  }

  predicate IsAlphaNum(c: char) {
    if c as int < 127 then IsLetter(c) || '0' <= c <= '9' else true
  }

  predicate NameStart(c: char) {
    IsAlpha(c) || c == '_'
  }

  predicate NameChar(c: char) {
    IsAlphaNum(c) || c == '_' || c == '-' || c == '.' || c == ':'
  }

  predicate IsName(n: string, enc: Encoding) {
    && n != "" && NameStart(n[0]) && (forall k :: 0 <= k < |n| ==> NameChar(n[k]))
    && !(enc.Utf8? && IsBom(n, 0))
  }

  lemma ShownName(name: string, enc: Encoding)
    requires IsName(name, enc)
    ensures Shown(name) == name
  {
    assert forall k :: 0 <= k < |name| ==> NameChar(name[k]) ==> name[k] != '\0';
    ShownWhole(name);
  }

  // ---------- the trees that survive ----------

  predicate IsBlank(v: string) {
    forall k :: 0 <= k < |v| ==> IsWhite(v[k])
  }

  /** Not only white space; tidy when white space is condensed, and otherwise not only
      what is skipped in front of a text. */
  predicate ValidText(v: string, m: Mode) {
    && !IsBlank(v) && NoHexRef(v, 0) && Readable(v, 0, m.enc)
    && if m.condense then Tidy(v) && !(m.enc.Utf8? && IsBom(v, 0)) else Front(v, 0, m.enc) < |v|
  }

  predicate ValidAttr(a: Attr, m: Mode) {
    IsName(a.name, m.enc) && NoHexRef(a.value, 0) && Readable(a.value, 0, m.enc)
  }

  predicate HasAttr(attrs: seq<Attr>, name: string) {
    exists i :: 0 <= i < |attrs| && attrs[i].name == name
  }

  predicate ValidAttrs(attrs: seq<Attr>, m: Mode) {
    forall i :: 0 <= i < |attrs| ==> ValidAttr(attrs[i], m) && !HasAttr(attrs[..i], attrs[i].name)
  }

  /** Elements may stand next to each other and, when white space is condensed,
      next to texts; a text that keeps its white space must be the only child. */
  predicate ValidLayout(kids: seq<Tree>, m: Mode) {
    if m.condense then forall i :: 0 <= i < |kids| - 1 ==> kids[i].Element? || kids[i + 1].Element?
    else (|kids| == 1 || forall i :: 0 <= i < |kids| ==> kids[i].Element?)
  }

  predicate ValidTree(t: Tree, m: Mode)
    decreases t
  {
    match t
    case TextNode(text, cdata) => !cdata && ValidText(text, m)
    case Element(name, attrs, kids) =>
      IsName(name, m.enc) && ValidAttrs(attrs, m) && ValidLayout(kids, m) && ValidKids(kids, m)
  }

  predicate ValidKids(kids: seq<Tree>, m: Mode)
    decreases kids
  {
    kids == [] || (ValidTree(kids[0], m) && ValidKids(kids[1..], m))
  }
}
