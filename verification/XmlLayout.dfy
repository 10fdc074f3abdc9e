/** The lines that are written for a document, one for each tag. */
module XmlLayout {
  import opened CStrings
  import opened XmlText
  import opened XmlEscaping
  import opened XmlTree
  import opened XmlRoundTrip

  /** Four blanks for each level. */
  function Pad(depth: nat): string {
    seq(4 * depth, _ => ' ')
  }

  /** An apostrophe on both sides when there is a quotation mark in the value, and else
      quotation marks. */
  function AttrText(a: Attr): string {
    if '"' in a.value then " " + a.name + "='" + Put(a.value) + "'" else " " + a.name + "=\"" + Put(a.value) + "\""
  }

  function AttrsText(attrs: seq<Attr>): string {
    if attrs == [] then "" else AttrText(attrs[0]) + AttrsText(attrs[1..])
  }

  /** An element without content is one line, and so is one with a text; the children of
      others stand between the lines of their tags, one level deeper. */
  function LinesOf(t: Tree, depth: nat): seq<string>
    requires t.Element?
    decreases t
  {
    var tag := Pad(depth) + "<" + t.name + AttrsText(t.attrs);
    if t.kids == [] then [tag + " />"]
    else if t.kids[0].TextNode? then [tag + ">" + Put(t.kids[0].text) + "</" + t.name + ">"]
    else [tag + ">"] + KidLines(t.kids, depth + 1) + [Pad(depth) + "</" + t.name + ">"]
  }

  function KidLines(kids: seq<Tree>, depth: nat): seq<string>
    decreases kids
  {
    if kids == [] then [] else (if kids[0].Element? then LinesOf(kids[0], depth) else []) + KidLines(kids[1..], depth)
  }

  /** The lines with a line feed behind each. */
  function Fed(lines: seq<string>): string {
    if lines == [] then "" else lines[0] + "\n" + Fed(lines[1..])
  }

  /** Nothing in it is cut at a NUL or copied through, and a text stands alone. */
  predicate Plain(t: Tree)
    decreases t
  {
    match t
    case TextNode(text, cdata) => !cdata && NoHexRef(text, 0)
    case Element(name, attrs, kids) =>
      && IsName(name, Legacy) && (forall i :: 0 <= i < |attrs| ==> PlainAttr(attrs[i]))
      && (|kids| == 1 || forall i :: 0 <= i < |kids| ==> kids[i].Element?) && PlainKids(kids)
  }

  predicate PlainAttr(a: Attr) {
    IsName(a.name, Legacy) && NoHexRef(a.value, 0) && '\0' !in a.value
  }

  predicate PlainKids(kids: seq<Tree>)
    decreases kids
  {
    kids == [] || (Plain(kids[0]) && PlainKids(kids[1..]))
  }

  // ---------- proofs ----------

  lemma {:induction false} SpacesPad(n: nat)
    ensures Spaces(n) == seq(n, _ => ' ')
  {
    if n > 0 {
      SpacesPad(n - 1);
      assert " " + seq(n - 1, _ => ' ') == seq(n, _ => ' ');
    }
  }

  lemma IndentIs(depth: nat)
    ensures Indent(depth) == Pad(depth)
  {
    SpacesPad(4 * depth);
  }

  lemma AttrPrinted(a: Attr)
    requires PlainAttr(a)
    ensures " " + PrintAttr(a) == AttrText(a)
  {
    hide PutFrom, Shown;
    PutName(a.name, 0);
    ShownName(a.name, Legacy);
    ShownWhole(a.value);
    PutIsClean(a.value, 0);
    assert a.name[0..] == a.name;
    var q := QuoteFor(a.value);
    assert " " + PrintAttr(a) == " " + a.name + ("=" + q) + Put(a.value) + q;
    assert "=" + "'" == "='" && "=" + "\"" == "=\"";
  }

  lemma {:induction false} AttrsPrinted(attrs: seq<Attr>)
    requires forall i :: 0 <= i < |attrs| ==> PlainAttr(attrs[i])
    ensures PrintAttrs(attrs) == AttrsText(attrs)
  {
    hide PrintAttr, AttrText, PlainAttr;
    if attrs != [] {
      AttrPrinted(attrs[0]);
      AttrsPrinted(attrs[1..]);
    }
  }

  lemma {:induction false} FedJoin(a: seq<string>, b: seq<string>)
    ensures Fed(a + b) == Fed(a) + Fed(b)
  {
    if a == [] {
      assert a + b == b;
    } else {
      FedJoin(a[1..], b);
      assert (a + b)[1..] == a[1..] + b;
    }
  }

  lemma FedOne(line: string)
    ensures Fed([line]) == line + "\n"
  {
    assert Fed([line]) == line + "\n" + Fed([]);
  }

  lemma PlainParts(t: Tree)
    requires t.Element? && Plain(t)
    ensures Shown(t.name) == t.name && PrintAttrs(t.attrs) == AttrsText(t.attrs) && PlainKids(t.kids)
    ensures t.kids != [] && t.kids[0].TextNode? ==> |t.kids| == 1 && Plain(t.kids[0])
    ensures t.kids == [] || t.kids[0].TextNode? || forall i :: 0 <= i < |t.kids| ==> t.kids[i].Element?
  {
    ShownName(t.name, Legacy);
    AttrsPrinted(t.attrs);
  }

  lemma TextPrinted(t: Tree, depth: nat)
    requires t.TextNode? && Plain(t)
    ensures Print(t, depth) == Put(t.text)
  {
    PutIsClean(t.text, 0);
  }

  /** The text printed for an element is its lines. */
  lemma {:induction false} ElementPrinted(t: Tree, depth: nat)
    requires t.Element? && Plain(t)
    ensures Print(t, depth) + "\n" == Fed(LinesOf(t, depth))
    decreases t, 1
  {
    hide Put, Plain, PrintAttrs, AttrsText, Indent, Pad;
    IndentIs(depth);
    PlainParts(t);
    var tag := Pad(depth) + "<" + t.name + AttrsText(t.attrs);
    assert Print(t, depth) == tag + PrintContent(t, depth) by {
      assert Pad(depth) + ("<" + t.name + AttrsText(t.attrs) + PrintContent(t, depth))
          == tag + PrintContent(t, depth);
    }
    if t.kids == [] {
      FedOne(tag + " />");
    } else if t.kids[0].TextNode? {
      TextPrinted(t.kids[0], depth + 1);
      OneLine(tag, Put(t.kids[0].text), t.name);
    } else {
      KidsPrinted(t.kids, depth + 1);
      ManyLines(tag, KidLines(t.kids, depth + 1), PrintKids(t.kids, depth + 1), Pad(depth), t.name);
    }
  }

  lemma OneLine(tag: string, text: string, name: string)
    ensures tag + (">" + text + EndTag(name)) + "\n" == Fed([tag + ">" + text + "</" + name + ">"])
  {
    FedOne(tag + ">" + text + "</" + name + ">");
  }

  lemma ManyLines(tag: string, lines: seq<string>, kids: string, pad: string, name: string)
    requires kids + "\n" == "\n" + Fed(lines)
    ensures tag + (">" + (kids + ("\n" + pad) + EndTag(name))) + "\n"
         == Fed([tag + ">"] + lines + [pad + "</" + name + ">"])
  {
    var last := pad + "</" + name + ">";
    FedJoin([tag + ">"] + lines, [last]);
    FedJoin([tag + ">"], lines);
    FedOne(tag + ">");
    FedOne(last);
    assert tag + (">" + (kids + ("\n" + pad) + EndTag(name))) + "\n" == tag + ">" + (kids + "\n") + last + "\n";
    assert tag + ">" + ("\n" + Fed(lines)) + last + "\n" == (tag + ">" + "\n") + Fed(lines) + (last + "\n");
  }

  lemma {:induction false} KidsPrinted(kids: seq<Tree>, depth: nat)
    requires PlainKids(kids) && forall i :: 0 <= i < |kids| ==> kids[i].Element?
    ensures PrintKids(kids, depth) + "\n" == "\n" + Fed(KidLines(kids, depth))
    decreases kids
  {
    hide Plain, LinesOf, Print;
    if kids != [] {
      ElementPrinted(kids[0], depth);
      KidsPrinted(kids[1..], depth);
      FedJoin(LinesOf(kids[0], depth), KidLines(kids[1..], depth));
      var first, rest := Print(kids[0], depth), PrintKids(kids[1..], depth);
      assert "\n" + first + rest + "\n" == "\n" + first + (rest + "\n");
      assert "\n" + first + ("\n" + Fed(KidLines(kids[1..], depth)))
          == "\n" + ((first + "\n") + Fed(KidLines(kids[1..], depth)));
    }
  }

  /** A CDATA section is written on a line of its own, between its marks and not escaped. */
  lemma SectionPrinted(text: string, depth: nat)
    requires '\0' !in text
    ensures Print(TextNode(text, true), depth) == "\n" + Pad(depth) + "<![CDATA[" + text + "]]>\n"
  {
    IndentIs(depth);
    ShownWhole(text);
    assert "\n" + Pad(depth) + "<![CDATA[" + text + "]]>\n" == "\n" + Pad(depth) + ("<![CDATA[" + text + "]]>\n");
  }

  /** A document is written as the lines of its elements. */
  lemma {:induction false} DocumentPrinted(roots: seq<Tree>)
    requires PlainKids(roots) && forall i :: 0 <= i < |roots| ==> roots[i].Element?
    ensures PrintDocument(roots) == Fed(KidLines(roots, 0))
    decreases roots
  {
    hide Plain, LinesOf, Print;
    if roots != [] {
      ElementPrinted(roots[0], 0);
      DocumentPrinted(roots[1..]);
      FedJoin(LinesOf(roots[0], 0), KidLines(roots[1..], 0));
    }
  }
}
