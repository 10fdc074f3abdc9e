/** Files: a document saved and loaded again is the same document. */
module XmlFile {
  import opened CStrings
  import opened XmlText
  import opened XmlEscaping
  import opened XmlTree
  import P = XmlParser
  import B = XmlBuilt
  import opened XmlRoundTrip
  import opened XmlAttributes
  import opened XmlDom
  import opened XmlStore
  import opened XmlLoad
  import S = XmlSilent

  // ---------- line endings ----------

  /** Every CR LF, and every CR on its own, becomes one LF. */
  function Lines(s: string, p: nat): string
    requires p <= |s|
    decreases |s| - p
  {
    if p == |s| then ""
    else if s[p] == '\r' then "\n" + Lines(s, if CharAt(s, p + 1) == '\n' then p + 2 else p + 1)
    else [s[p]] + Lines(s, p + 1)
  }

  /** What comes out has no carriage return; and only a text without any comes
      out as it went in. */
  lemma {:induction false} LinesHaveNoReturn(s: string, p: nat)
    requires p <= |s|
    ensures '\r' !in Lines(s, p)
    ensures Lines(s, p) == s[p..] <==> '\r' !in s[p..]
    decreases |s| - p
  {
    if p < |s| {
      assert s[p..] == [s[p]] + s[p + 1..];
      if s[p] == '\r' {
        LinesHaveNoReturn(s, if CharAt(s, p + 1) == '\n' then p + 2 else p + 1);
      } else {
        LinesHaveNoReturn(s, p + 1);
      }
    }
  }

  /** The loop of LoadFile, which appends whole runs of characters. */
  method Normalize(buf: CString) returns (data: string)
    ensures data == Lines(buf, 0)
  {
    data := "";
    var p, lastPos := 0, 0;
    while CharAt(buf, p) != '\0'
      invariant 0 <= lastPos <= p <= |buf|
      invariant data + buf[lastPos..p] + Lines(buf, p) == Lines(buf, 0)
      decreases |buf| - p
    {
      ghost var run := buf[lastPos..p];
      assert buf[lastPos..p + 1] == run + [buf[p]];
      if buf[p] == '\n' {
        Regroup(data, run, "\n", Lines(buf, p + 1));
        data := data + buf[lastPos..p + 1];
        p := p + 1;
        lastPos := p;
      } else if buf[p] == '\r' {
        var next := if CharAt(buf, p + 1) == '\n' then p + 2 else p + 1;
        Regroup(data, run, "\n", Lines(buf, next));
        if p - lastPos > 0 { data := data + buf[lastPos..p]; }
        data := data + "\n";
        p := next;
        lastPos := p;
      } else {
        Regroup(data, run, [buf[p]], Lines(buf, p + 1));
        p := p + 1;
      }
    }
    data := data + buf[lastPos..p];
  }

  /** A line break, and what is written for it. */
  datatype Break = Lf | CrLf | Cr

  function BreakText(b: Break): string {
    match b
    case Lf => "\n"
    case CrLf => "\r\n"
    case Cr => "\r"
  }

  /** Lines with a break behind each, and what stands behind the last one. */
  function Broken(lines: seq<(string, Break)>, last: string): string {
    if lines == [] then last else lines[0].0 + BreakText(lines[0].1) + Broken(lines[1..], last)
  }

  function Fed(lines: seq<(string, Break)>, last: string): string {
    if lines == [] then last else lines[0].0 + "\n" + Fed(lines[1..], last)
  }

  predicate IsLine(t: string) {
    '\r' !in t && '\n' !in t
  }

  /** No line holds a break, and no LF stands right behind a CR alone. */
  predicate AreLines(lines: seq<(string, Break)>, last: string) {
    IsLine(last)
    && (lines != [] ==>
          && IsLine(lines[0].0) && AreLines(lines[1..], last)
          && (lines[0].1.Cr? && |lines| > 1 && lines[1].0 == "" ==> !lines[1].1.Lf?))
  }

  lemma {:induction false} LineStays(t: string, rest: string, p: nat)
    requires p <= |t| && '\r' !in t
    ensures Lines(t + rest, p) == t[p..] + Lines(t + rest, |t|)
    decreases |t| - p
  {
    if p < |t| {
      LineStays(t, rest, p + 1);
      assert t[p..] == [t[p]] + t[p + 1..] && (t + rest)[p] == t[p];
    }
  }

  lemma {:induction false} LinesBehind(a: string, b: string, p: nat)
    requires p <= |b|
    ensures Lines(a + b, |a| + p) == Lines(b, p)
    decreases |b| - p
  {
    hide CharAt;
    if p < |b| {
      CharBehind(a, b, p);
      CharBehind(a, b, p + 1);
      LinesNext(b, p);
      LinesNext(a + b, |a| + p);
      LinesBehind(a, b, LineStep(b, p));
    }
  }

  /** Where reading goes on. */
  function LineStep(s: string, p: nat): (q: nat)
    requires p < |s|
    ensures p < q <= |s|
  {
    if s[p] == '\r' && CharAt(s, p + 1) == '\n' then p + 2 else p + 1
  }

  lemma LinesNext(s: string, p: nat)
    requires p < |s|
    ensures Lines(s, p) == (if s[p] == '\r' then "\n" else [s[p]]) + Lines(s, LineStep(s, p))
  {
    hide CharAt;
  }

  lemma CharBehind(a: string, b: string, p: nat)
    ensures CharAt(a + b, |a| + p) == CharAt(b, p)
    ensures p < |b| ==> (a + b)[|a| + p] == b[p]
  {}

  /** Every kind of line break becomes one LF, and nothing else changes. */
  lemma {:induction false} BreaksBecomeFeeds(lines: seq<(string, Break)>, last: string)
    requires AreLines(lines, last)
    ensures Lines(Broken(lines, last), 0) == Fed(lines, last)
    decreases |lines|
  {
    hide Lines;
    if lines == [] {
      LinesHaveNoReturn(last, 0);
      assert last[0..] == last;
    } else {
      var t, gap, rest := lines[0].0, BreakText(lines[0].1), Broken(lines[1..], last);
      assert Broken(lines, last) == t + (gap + rest);
      BreaksBecomeFeeds(lines[1..], last);
      LineStays(t, gap + rest, 0);
      assert t[0..] == t;
      LinesBehind(t, gap + rest, 0);
      LinesBehind(gap, rest, 0);
      if lines[0].1.Cr? { RestFirst(lines, last); }
      OneBreak(lines[0].1, rest);
      assert t + ("\n" + Fed(lines[1..], last)) == t + "\n" + Fed(lines[1..], last);
    }
  }

  /** Where a CR stands alone no LF follows. */
  lemma RestFirst(lines: seq<(string, Break)>, last: string)
    requires lines != [] && AreLines(lines, last) && lines[0].1.Cr?
    ensures CharAt(Broken(lines[1..], last), 0) != '\n'
  {
    if |lines| > 1 {
      assert lines[1..][0] == lines[1];
    }
  }

  lemma OneBreak(b: Break, rest: string)
    requires b.Cr? ==> CharAt(rest, 0) != '\n'
    ensures Lines(BreakText(b) + rest, 0) == "\n" + Lines(BreakText(b) + rest, |BreakText(b)|)
  {}

  lemma Regroup(a: string, b: string, c: string, d: string)
    ensures a + b + (c + d) == a + (b + c) + d
    ensures a + b + (c + d) == (if b == "" then a else a + b) + c + "" + d
    ensures a + (b + c) + "" + d == a + (b + c) + d
  {}

  // ---------- documents ----------

  datatype Asked = Unknown | Known(enc: Encoding)

  /** An encoding that was not given is UTF-8 if the bytes say so. */
  function Detected(s: string, asked: Asked): Encoding {
    if asked.Known? then asked.enc else if Has(s, 0, Bom()) then Utf8 else Legacy
  }

  method Clear(node: Node)
    requires node.Valid()
    modifies node`parts, node`nodes, node`kids, node`kidTrees, node`firstChild, node`lastChild
    ensures node.Valid() && node.kids == [] && node.kidTrees == [] && node.nodes == {node}
    ensures node.parts <= old(node.parts)
  {
    hide AttributeSet.Valid, Node.Forest;
    NoForest();
    node.firstChild, node.lastChild := null, null;
    node.kids, node.kidTrees, node.nodes, node.parts := [], [], {node}, node.attributeSet.Repr();
    assert node.nodes - {node} == {} && node.parts - node.attributeSet.Repr() == {};
  }

  lemma NoForest()
    ensures Node.Forest([], [], {}, {})
  {}

  /** TiXmlDocument::Parse, with the children built so far linked in whatever
      happens. The position it returns is null after a failure, and also when an
      element ends the text. A byte order mark that decides the encoding is
      remembered. */
  method ReadDocument(document: Node, s: CString, asked: Asked, condense: bool, errors: Errors)
    returns (c: Cursor, end: Ptr)
    requires document.Valid() && document.kind.DocumentKind? && document.nodes == {document}
    requires document.kids == [] && document.kidTrees == [] && errors !in document.parts
    modifies document`parts, document`nodes, document`kids, document`kidTrees
    modifies document`firstChild, document`lastChild, errors
    ensures document.Valid() && fresh(document.nodes - {document}) && fresh(document.parts - old(document.parts))
    ensures var r := P.ParseDocument(s, Mode(Detected(s, asked), condense));
            && c == CursorOf(r) && (r.Ok? ==> document.kidTrees == r.value && errors.error == None)
            && (r.Fail? ==> errors.error == r.error && end.Null?)
            && (r.Ok? ==> end == EndOf(s, Mode(Detected(s, asked), condense), r.next))
    ensures var m := Mode(Detected(s, asked), condense);
            P.ParseDocument(s, m).Ok? || P.ParseDocument(s, m).Fail? ==> document.kidTrees == B.BuiltRoots(s, 0, m)
    ensures errors.useMicrosoftBOM == (old(errors.useMicrosoftBOM) || (asked.Unknown? && Has(s, 0, Bom())))
  {
    hide Node.Valid, P.ParseRoots, B.BuiltRoots, B.LastRootEnd, NameStart, Has;
    NothingBuilt(Mode(Detected(s, asked), condense));
    errors.error := None;
    if CharAt(s, 0) == '\0' {
      errors.SetError(P.DocumentEmpty);
      return Failed, Null;
    }
    var bom := StartsWith(s, 0, Bom(), false);
    var enc := if asked.Known? then asked.enc else if bom then Utf8 else Legacy;
    if asked.Unknown? && bom { errors.useMicrosoftBOM := true; }
    c, end := ReadRoots(document, s, Mode(enc, condense), errors);
    document.Ends();
    if c.To? && document.firstChild == null {
      errors.SetError(P.DocumentEmpty);
      c, end := Failed, Null;
    }
  }

  lemma NothingBuilt(m: Mode)
    ensures B.BuiltRoots("", 0, m) == [] && !Has("", 0, Bom())
  {}

  /** Nothing is returned when the last element ends the text. */
  function EndOf(s: string, m: Mode, next: nat): Ptr {
    if B.LastRootEnd(s, 0, m) == |s| then Null else At(next)
  }

  /** The loop over the top level elements. */
  method ReadRoots(document: Node, s: CString, m: Mode, errors: Errors) returns (c: Cursor, end: Ptr)
    requires s != "" && document.Valid() && document.kind.DocumentKind? && document.nodes == {document}
    requires document.kids == [] && document.kidTrees == [] && errors !in document.parts
    modifies document`parts, document`nodes, document`kids, document`kidTrees
    modifies document`firstChild, document`lastChild, errors`error
    ensures document.Valid() && fresh(document.nodes - {document}) && fresh(document.parts - old(document.parts))
    ensures var r := P.ParseRoots(s, 0, m);
            && c == CursorOf(r) && (r.Ok? ==> document.kidTrees == r.value)
            && (r.Ok? || r.Fail? ==>
                  && errors.error == Recorded(old(errors.error), r)
                  && document.kidTrees == B.BuiltRoots(s, 0, m))
            && (r.Fail? ==> end.Null?) && (r.Ok? ==> end == EndOf(s, m, r.next))
  {
    hide Node.Valid, Node.Tree, Skip, P.ParseRoots, P.ParseElement, P.Prepend, NameStart, Has;
    hide B.BuiltRoots, B.BuiltElement, B.LastRootEnd;
    B.RootsAreBuilt(s, 0, m);
    end := Null;
    var from := 0;
    var at := SkipWhiteSpace(s, from, m.enc);
    PrependNone(P.ParseRoots(s, 0, m));
    while at.At? && CharAt(s, at.pos) == '<' && NameStart(CharAt(s, at.pos + 1))
      invariant 0 <= from <= |s| && at == if from == |s| then Null else At(Skip(s, from, m.enc))
      invariant document.Valid() && errors.error == old(errors.error)
      invariant fresh(document.nodes - {document}) && fresh(document.parts - old(document.parts))
      invariant errors !in document.parts
      invariant P.Prepend(document.kidTrees, P.ParseRoots(s, from, m)) == P.ParseRoots(s, 0, m)
      invariant document.kidTrees + B.BuiltRoots(s, from, m) == B.BuiltRoots(s, 0, m)
      invariant B.LastRootEnd(s, from, m) == B.LastRootEnd(s, 0, m)
      decreases |s| - from
    {
      RootNext(document.kidTrees, s, from, m);
      document.KidsIn();
      c := ReadChild(document, s, at.pos, m, errors);
      if !c.To? { return; }
      from := c.pos;
      at := SkipWhiteSpace(s, from, m.enc);
    }
    RootsEnd(document.kidTrees, s, from, m);
    SkipAtEnd(s, m.enc);
    end := at;
    c := if at.Null? then To(|s|) else if CharAt(s, at.pos) == '<' then OtherMarkup else To(at.pos);
  }

  lemma SkipAtEnd(s: string, enc: Encoding)
    ensures Skip(s, |s|, enc) == |s|
  {}

  /** An element in front of the remaining ones. */
  lemma RootNext(roots: seq<Tree>, s: string, p: nat, m: Mode)
    requires p < |s|
    ensures var q := Skip(s, p, m.enc);
            CharAt(s, q) == '<' && NameStart(CharAt(s, q + 1)) ==>
              var r, all := P.ParseElement(s, q, m), P.Prepend(roots, P.ParseRoots(s, p, m));
              var built, more := B.BuiltElement(s, q, m), roots + B.BuiltRoots(s, p, m);
              match r
              case Ok(t, next) =>
                && all == P.Prepend(roots + [built], P.ParseRoots(s, next, m))
                && more == roots + [built] + B.BuiltRoots(s, next, m)
                && B.LastRootEnd(s, p, m) == B.LastRootEnd(s, next, m)
              case Fail(e) => all == P.Fail(e) && more == roots + [built]
              case Undefined => all == P.Undefined
              case Unmodelled => all == P.Unmodelled
  {
    hide Skip, P.ParseElement, B.BuiltElement, NameStart;
    var q := Skip(s, p, m.enc);
    if CharAt(s, q) == '<' && NameStart(CharAt(s, q + 1)) {
      B.ElementIsBuilt(s, q, m);
      var built := B.BuiltElement(s, q, m);
      match P.ParseElement(s, q, m)
      case Ok(t, next) =>
        PrependTwo(roots, [t], P.ParseRoots(s, next, m));
        assert roots + ([built] + B.BuiltRoots(s, next, m)) == roots + [built] + B.BuiltRoots(s, next, m);
      case Fail(_) => assert roots + ([built] + []) == roots + [built];
      case _ =>
    }
  }

  /** The end of the roots: anything but a '<'. */
  lemma RootsEnd(roots: seq<Tree>, s: string, p: nat, m: Mode)
    requires p <= |s|
    ensures var q := Skip(s, p, m.enc);
            var all := P.Prepend(roots, P.ParseRoots(s, p, m));
            && (CharAt(s, q) != '<' ==> all == P.Ok(roots, q))
            && (CharAt(s, q) == '<' && !NameStart(CharAt(s, q + 1)) ==> all == P.Unmodelled)
            && (CharAt(s, q) != '<' ==> roots + B.BuiltRoots(s, p, m) == roots && B.LastRootEnd(s, p, m) == p)
  {
    hide Skip, P.ParseElement, B.BuiltElement, NameStart;
    assert roots + [] == roots;
  }

  /** TiXmlDocument::LoadFile on the bytes of a file. The answer is whether no
      error was recorded, which is not always whether parsing went well; what was
      read by then is in the document in any case. */
  method LoadFile(document: Node, file: string, asked: Asked, condense: bool, errors: Errors) returns (ok: bool)
    requires document.Valid() && document.kind.DocumentKind? && errors !in document.parts
    modifies document`parts, document`nodes, document`kids, document`kidTrees
    modifies document`firstChild, document`lastChild, errors
    ensures document.Valid() && ok == errors.error.None?
    ensures var s := Lines(Shown(file), 0);
            var r := P.ParseDocument(s, Mode(Detected(s, asked), condense));
            && (r.Ok? ==> ok && document.kidTrees == r.value)
            && (r.Fail? && file != "" ==> errors.error == r.error)
            && (file == "" ==> !ok)
            && ((r.Ok? || r.Fail?) && file != "" ==>
                && (ok <==> r.Ok? || S.Silent(s, 0, Mode(Detected(s, asked), condense)))
                && document.kidTrees == B.BuiltRoots(s, 0, Mode(Detected(s, asked), condense)))
            && errors.useMicrosoftBOM == (old(errors.useMicrosoftBOM) || (asked.Unknown? && Has(s, 0, Bom())))
  {
    hide Node.Valid, P.ParseRoots, B.BuiltRoots, Has, Lines, Shown, S.Silent;
    Clear(document);
    EmptyFile();
    if |file| == 0 {
      errors.SetError(P.DocumentEmpty);
      return false;
    }
    var data := Normalize(Shown(file));
    LinesHaveNoNul(Shown(file), 0);
    S.DocumentIsSilent(data, Mode(Detected(data, asked), condense));
    var c, end := ReadDocument(document, data, asked, condense, errors);
    ok := errors.error.None?;
  }

  lemma EmptyFile()
    ensures Lines(Shown(""), 0) == "" && !Has("", 0, Bom())
  {}

  lemma {:induction false} LinesHaveNoNul(s: CString, p: nat)
    requires p <= |s|
    ensures '\0' !in Lines(s, p)
    decreases |s| - p
  {
    if p < |s| {
      LinesHaveNoNul(s, if s[p] == '\r' && CharAt(s, p + 1) == '\n' then p + 2 else p + 1);
    }
  }

  // ---------- the law ----------

  /** What SaveFile writes. */
  function Saved(roots: seq<Tree>, useMicrosoftBOM: bool): string {
    (if useMicrosoftBOM then Bom() else "") + PrintDocument(roots)
  }

  /** The text of a valid document passes through a file unchanged. */
  lemma {:induction false} PrintDocumentIsClean(roots: seq<Tree>, m: Mode)
    requires ValidRoots(roots, m)
    ensures Clean(PrintDocument(roots))
  {
    hide Print, ValidTree;
    if roots != [] {
      PrintIsClean(roots[0], 0, m);
      PrintDocumentIsClean(roots[1..], m);
    }
  }

  lemma {:induction false} SpacesAreClean(n: nat)
    ensures Clean(Spaces(n))
  {
    if n > 0 { SpacesAreClean(n - 1); }
  }

  lemma NameIsClean(name: string, enc: Encoding)
    requires IsName(name, enc)
    ensures Clean(name) && Clean(EndTag(name)) && Shown(name) == name
  {
    ShownName(name, enc);
    assert forall k :: 0 <= k < |name| ==> NameChar(name[k]);
  }

  lemma {:induction false} AttrsAreClean(attrs: seq<Attr>, m: Mode)
    requires forall i :: 0 <= i < |attrs| ==> ValidAttr(attrs[i], m)
    ensures Clean(PrintAttrs(attrs))
  {
    hide PutFrom, PrintAttr, IsName, NoHexRef, Readable;
    if attrs != [] {
      var a := attrs[0];
      AttrText(a, m);
      NameIsClean(a.name, m.enc);
      PutIsClean(a.value, 0);
      AttrsAreClean(attrs[1..], m);
    }
  }

  lemma {:induction false} PrintIsClean(t: Tree, depth: nat, m: Mode)
    requires ValidTree(t, m)
    ensures Clean(Print(t, depth))
    decreases t, 1
  {
    hide PrintAttrs, PrintKids, PrintContent, IsName, PutFrom, NoHexRef, Spaces, ValidAttr, Shown;
    match t
    case TextNode(text, _) => PutIsClean(text, 0);
    case Element(name, attrs, kids) =>
      NameIsClean(name, m.enc);
      AttrsAreClean(attrs, m);
      SpacesAreClean(4 * depth);
      KidsAreClean(kids, depth + 1, m);
      if kids != [] { PrintIsClean(kids[0], depth + 1, m); }
      CleanContent(t, depth);
      assert Clean("<" + Shown(name) + PrintAttrs(attrs));
      assert Print(t, depth) == Indent(depth) + ("<" + Shown(name) + PrintAttrs(attrs) + PrintContent(t, depth));
  }

  lemma CleanContent(t: Tree, depth: nat)
    requires t.Element? && Clean(EndTag(Shown(t.name))) && Clean(Indent(depth))
    requires Clean(PrintKids(t.kids, depth + 1)) && (t.kids != [] ==> Clean(Print(t.kids[0], depth + 1)))
    ensures Clean(PrintContent(t, depth))
  {
    hide PrintKids, Print, Indent, Shown;
  }

  lemma {:induction false} KidsAreClean(kids: seq<Tree>, depth: nat, m: Mode)
    requires ValidKids(kids, m)
    ensures Clean(PrintKids(kids, depth))
    decreases kids
  {
    hide Print, ValidTree;
    if kids != [] {
      PrintIsClean(kids[0], depth, m);
      KidsAreClean(kids[1..], depth, m);
    }
  }

  /** SaveFile then LoadFile: with the same encoding, or with none given if a
      byte order mark tells it, every valid document is read back from its
      file. */
  lemma FileRoundTrip(roots: seq<Tree>, bom: bool, asked: Asked, m: Mode)
    requires roots != [] && ValidRoots(roots, m)
    requires bom ==> m.enc.Utf8?
    requires if asked.Known? then asked.enc == m.enc else m.enc.Utf8? <==> bom
    ensures var file := Saved(roots, bom);
            var s := Lines(Shown(file), 0);
            && s == file && Detected(s, asked) == m.enc
            && P.ParseDocument(s, m) == P.Ok(roots, |file|)
  {
    hide P.ParseRoots, PrintDocument, ValidRoots, Lines;
    var text, file := PrintDocument(roots), Saved(roots, bom);
    PrintDocumentIsClean(roots, m);
    ShownWhole(file);
    LinesHaveNoReturn(file, 0);
    assert file[0..] == file;
    DocumentStarts(roots, m);
    HasSplit(file, |file| - |text|, text, "");
    RootsAt(file, |file| - |text|, roots, m);
    if bom {
      BomIsSkipped(file, m);
      assert Has(file, 0, Bom());
    }
  }

  lemma BomIsSkipped(s: string, m: Mode)
    requires m.enc.Utf8? && Has(s, 0, Bom())
    ensures P.ParseRoots(s, 0, m) == P.ParseRoots(s, 3, m)
  {
    assert s[..3] == Bom() && s[0] == Bom()[0] && s[1] == Bom()[1] && s[2] == Bom()[2];
    assert Skip(s, 0, m.enc) == Skip(s, 3, m.enc);
  }

  lemma DocumentStarts(roots: seq<Tree>, m: Mode)
    requires roots != [] && ValidRoots(roots, m)
    ensures PrintDocument(roots) != "" && PrintDocument(roots)[0] == '<'
  {
    hide PrintAttrs, PrintContent;
    assert Print(roots[0], 0) == PrintBody(roots[0], 0);
  }

  /** Iteration shows every attribute of a valid tree. */
  lemma {:induction false} ValidIsSeen(t: Tree, m: Mode)
    requires ValidTree(t, m)
    ensures SeenTree(t) == t
    decreases t, 1
  {
    hide NoHexRef, Readable;
    if t.Element? {
      SeenIs(t.attrs);
      KidsAreSeen(t.kids, m);
    }
  }

  lemma {:induction false} KidsAreSeen(kids: seq<Tree>, m: Mode)
    requires ValidKids(kids, m)
    ensures SeenKids(kids) == kids
    decreases kids
  {
    if kids != [] {
      ValidIsSeen(kids[0], m);
      KidsAreSeen(kids[1..], m);
    }
  }

  lemma {:induction false} RootsAreSeen(roots: seq<Tree>, m: Mode)
    requires ValidRoots(roots, m)
    ensures SeenKids(roots) == roots
  {
    hide ValidTree, SeenTree;
    if roots != [] {
      ValidIsSeen(roots[0], m);
      RootsAreSeen(roots[1..], m);
    }
  }

  /** The law on the heap: a document built by whatever calls, saved and loaded
      into another one, is there again, and when that one detects the encoding it
      will be saved with a byte order mark if it was. */
  method SaveAndLoad(document: Node, other: Node, bom: bool, asked: Asked, m: Mode, errors: Errors)
    returns (ok: bool)
    requires document.Valid() && document.kind.DocumentKind? && other.kind.DocumentKind? && other.Valid()
    requires document.nodes !! other.nodes && document.parts !! other.parts
    requires errors !in document.parts && errors !in other.parts
    requires document.kidTrees != [] && ValidRoots(document.kidTrees, m)
    requires bom ==> m.enc.Utf8?
    requires if asked.Known? then asked.enc == m.enc else m.enc.Utf8? <==> bom
    modifies other`parts, other`nodes, other`kids, other`kidTrees, other`firstChild, other`lastChild, errors
    ensures document.Valid() && other.Valid()
    ensures ok && other.kidTrees == document.kidTrees == old(document.kidTrees)
    ensures asked.Unknown? ==> errors.useMicrosoftBOM == (old(errors.useMicrosoftBOM) || bom)
  {
    hide Node.Valid, P.ParseDocument, PrintDocument, ValidRoots, Lines, SeenKids, Shown, Has;
    RootsAreSeen(document.kidTrees, m);
    FileRoundTrip(document.kidTrees, bom, asked, m);
    var file := Save(document, bom);
    ok := LoadFile(other, file, asked, m.condense, errors);
  }
}
