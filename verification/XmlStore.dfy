/** Writing a document of nodes on the heap, and the line endings of a file
    that is read back. */
module XmlStore {
  import opened CStrings
  import opened XmlText
  import opened XmlTree
  import opened XmlAttributes
  import opened XmlDom

  method WriteIndent(depth: nat, before: string) returns (out: string)
    ensures out == before + Indent(depth)
  {
    out := before;
    for i := 0 to depth
      invariant out == before + Indent(i)
    {
      SpacesAdd(4 * i, 4);
      out := out + "    ";
    }
  }

  lemma {:induction false} SpacesAdd(m: nat, n: nat)
    ensures Spaces(m) + Spaces(n) == Spaces(m + n)
    ensures n == 4 ==> Spaces(n) == "    "
  {
    if m > 0 { SpacesAdd(m - 1, n); }
    assert Spaces(4) == " " + (" " + (" " + (" " + Spaces(0))));
  }

  method PrintAttribute(a: Attribute, before: string) returns (out: string)
    ensures out == before + PrintAttr(Attr(a.name, a.value))
  {
    var n := PutString(a.name, "");
    var v := PutString(a.value, "");
    assert n == Put(a.name) && v == Put(a.value);
    if '"' !in Shown(a.value) {
      out := before + (Shown(n) + "=" + ("\"" + Shown(v) + "\""));
    } else {
      out := before + (Shown(n) + "=" + ("'" + Shown(v) + "'"));
    }
  }

  /** What iteration shows of the attributes, each behind a space. */
  method PrintAttributes(attributes: AttributeSet, before: string) returns (out: string)
    requires attributes.Valid()
    ensures out == before + PrintAttrs(SeenAttrs(attributes.Attrs()))
  {
    hide AttributeSet.Valid, AttrsOf, SeenAttrs, PrintAttr, PrintAttrs;
    ghost var all := attributes.Attrs();
    ghost var seen := SeenAttrs(all);
    SeenIs(all);
    attributes.NamesDiffer();
    ghost var i := 0;
    var attrib := attributes.First();
    out := before;
    assert seen[0..] == seen;
    while attrib != null
      invariant 0 <= i <= |seen| && attrib == if i < |seen| then attributes.items[i] else null
      invariant out + PrintAttrs(seen[i..]) == before + PrintAttrs(seen)
      decreases |seen| - i
    {
      attributes.AttrAt(i);
      if i + 1 < |all| { attributes.AttrAt(i + 1); }
      attributes.After(i);
      PrintAttrsNext(seen, i);
      out := out + " ";
      out := PrintAttribute(attrib, out);
      attrib := attrib.Next();
      i := i + 1;
    }
    PrintAttrsNone(seen);
  }

  lemma PrintAttrsNone(attrs: seq<Attr>)
    ensures PrintAttrs(attrs[|attrs|..]) == ""
  {}

  lemma PrintAttrsNext(attrs: seq<Attr>, i: nat)
    requires i < |attrs|
    ensures PrintAttrs(attrs[i..]) == " " + PrintAttr(attrs[i]) + PrintAttrs(attrs[i + 1..])
  {
    assert attrs[i..][1..] == attrs[i + 1..];
  }

  method PrintText(node: Node, depth: nat, before: string) returns (out: string)
    requires node.kind.TextKind?
    ensures out == before + Print(TextNode(node.value, node.cdata), depth)
  {
    if node.cdata {
      out := before + "\n";
      out := WriteIndent(depth, out);
      out := out + ("<![CDATA[" + Shown(node.value) + "]]>\n");
    } else {
      var buffer := PutString(node.value, "");
      assert buffer == Put(node.value);
      out := before + Shown(buffer);
    }
  }

  method PrintNode(node: Node, depth: nat, before: string) returns (out: string)
    requires node.Valid() && !node.kind.DocumentKind?
    ensures out == before + Print(SeenTree(node.Tree()), depth)
    decreases node.nodes, 2
  {
    hide Node.Valid, Print;
    if node.kind.TextKind? {
      out := PrintText(node, depth, before);
    } else {
      out := PrintElement(node, depth, before);
    }
  }

  method PrintElement(node: Node, depth: nat, before: string) returns (out: string)
    requires node.Valid() && node.kind.ElementKind?
    ensures out == before + Print(SeenTree(node.Tree()), depth)
    decreases node.nodes, 1, 1
  {
    hide Node.Valid, PrintAttrs, PrintContent, SeenKids, SeenAttrs, AttributeSet.Valid, AttributeSet.Attrs;
    hide Indent, Print;
    node.Ends();
    ElementText(SeenTree(node.Tree()), depth, before);
    out := WriteIndent(depth, before);
    out := out + ("<" + Shown(node.value));
    out := PrintAttributes(node.attributeSet, out);
    assert out == before + Indent(depth)
                + ("<" + Shown(node.value) + PrintAttrs(SeenAttrs(node.attributeSet.Attrs())));
    out := PrintLayout(node, depth, out);
  }

  /** The three layouts: an empty tag, a text between the tags, or every child
      on its own line. */
  method PrintLayout(node: Node, depth: nat, before: string) returns (out: string)
    requires node.Valid() && node.kind.ElementKind?
    ensures out == before + PrintContent(SeenTree(node.Tree()), depth)
    decreases node.nodes, 1, 0
  {
    hide Node.Valid, PrintKids, SeenKids, SeenAttrs, AttributeSet.Valid, AttributeSet.Attrs, Indent, Print;
    node.Ends();
    ghost var t := SeenTree(node.Tree());
    var kid := node.firstChild;
    if kid == null {
      out := before + " />";
    } else {
      node.KidAt(0);
      KindOf(kid);
      OneChild(node);
      if kid == node.lastChild && kid.kind.TextKind? {
        out := before + ">";
        out := PrintNode(kid, depth + 1, out);
        out := out + EndTag(Shown(node.value));
        assert out == before + (">" + Print(t.kids[0], depth + 1) + EndTag(Shown(t.name)));
      } else {
        out := before + ">";
        out := PrintChildren(node, depth + 1, out);
        out := out + "\n";
        out := WriteIndent(depth, out);
        out := out + EndTag(Shown(node.value));
        assert out == before + (">" + (PrintKids(t.kids, depth + 1) + ("\n" + Indent(depth)) + EndTag(Shown(t.name))));
      }
    }
  }

  lemma ElementText(t: Tree, depth: nat, before: string)
    requires t.Element?
    ensures before + Print(t, depth)
         == before + Indent(depth) + ("<" + Shown(t.name) + PrintAttrs(t.attrs)) + PrintContent(t, depth)
  {
    hide PrintAttrs, PrintContent, Indent;
  }

  lemma OneChild(node: Node)
    requires node.Valid() && node.kids != []
    ensures node.firstChild == node.lastChild <==> |node.kids| == 1
  {
    hide Node.Forest;
    if node.firstChild == node.lastChild { DistinctEnds(node.kids); }
  }

  lemma DistinctEnds<T>(s: seq<T>)
    requires Distinct(s) && s != [] && s[0] == s[|s| - 1]
    ensures |s| == 1
  {}

  method PrintChildren(node: Node, depth: nat, before: string) returns (out: string)
    requires node.Valid()
    ensures out == before + PrintKids(SeenKids(node.kidTrees), depth)
    decreases node.nodes, 0
  {
    hide Node.Valid, Node.Tree, SeenTree, SeenKids, Print, AttributeSet.Valid;
    node.Ends();
    ghost var seen, i := SeenKids(node.kidTrees), 0;
    out := before;
    var kid := node.firstChild;
    while kid != null
      invariant 0 <= i <= |node.kids| && kid == node.Kid(i)
      invariant out + PrintKids(seen[i..], depth) == before + PrintKids(seen, depth)
      decreases |node.kids| - i
    {
      node.KidAt(i);
      KindOf(kid);
      PrintKidsNext(seen, i, depth);
      if !kid.kind.TextKind? {
        out := out + "\n";
      }
      out := PrintNode(kid, depth, out);
      kid := kid.next;
      i := i + 1;
    }
    assert seen[i..] == [];
  }

  lemma KindOf(node: Node)
    ensures SeenTree(node.Tree()).TextNode? <==> node.kind.TextKind?
  {}

  lemma PrintKidsNext(kids: seq<Tree>, i: nat, depth: nat)
    requires i < |kids|
    ensures PrintKids(kids[i..], depth)
         == (if kids[i].Element? then "\n" else "") + Print(kids[i], depth) + PrintKids(kids[i + 1..], depth)
  {
    hide Print;
    assert kids[i..][1..] == kids[i + 1..];
  }

  lemma PrintDocumentNext(roots: seq<Tree>, i: nat)
    requires i < |roots|
    ensures PrintDocument(roots[i..]) == Print(roots[i], 0) + "\n" + PrintDocument(roots[i + 1..])
  {
    hide Print;
    assert roots[i..][1..] == roots[i + 1..];
  }

  /** TiXmlDocument::SaveFile, as the text of the file. */
  method Save(document: Node, useMicrosoftBOM: bool) returns (out: string)
    requires document.Valid() && document.kind.DocumentKind?
    ensures out == (if useMicrosoftBOM then Bom() else "") + PrintDocument(SeenKids(document.kidTrees))
    ensures Bom() == [0xEF as char, 0xBB as char, 0xBF as char]
  {
    hide Node.Valid, Node.Tree, SeenTree, SeenKids, Print, AttributeSet.Valid;
    out := if useMicrosoftBOM then Bom() else "";
    ghost var before := out;
    document.Ends();
    ghost var seen, i := SeenKids(document.kidTrees), 0;
    var node := document.firstChild;
    while node != null
      invariant 0 <= i <= |document.kids| && node == document.Kid(i)
      invariant out + PrintDocument(seen[i..]) == before + PrintDocument(seen)
      decreases |document.kids| - i
    {
      document.KidAt(i);
      PrintDocumentNext(seen, i);
      out := PrintNode(node, 0, out);
      out := out + "\n";
      node := node.next;
      i := i + 1;
    }
    assert seen[i..] == [];
  }

  function Bom(): string {
    [0xEF as char, 0xBB as char, 0xBF as char]
  }
}
