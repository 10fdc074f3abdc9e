/** Any sequence of edits of a document, at any depth. */
module XmlEdits {
  import opened CStrings
  import opened XmlTree
  import opened XmlAttributes
  import opened XmlDom

  /** What is done to a node: a node of the caller's is linked in at the end, a
      copy of a node goes to the end, to a place beside the child of some index
      or into its place, a child is removed, an attribute is set. */
  datatype Edit =
    | Link | End | Before(at: nat) | After(at: nat) | Replace(at: nat) | Remove(at: nat)
    | Set(name: CString, value: CString)

  predicate Copies(e: Edit) {
    e.End? || e.Before? || e.After? || e.Replace?
  }

  predicate Takes(e: Edit) {
    Copies(e) || e.Link?
  }

  /** The same edits on a list; nothing is inserted when nothing is given. */
  function Edited<T>(list: seq<T>, e: Edit, x: Option<T>): seq<T> {
    if Takes(e) && x.None? then list
    else
      match e
      case Link | End => list + [x.value]
      case Before(i) => if i < |list| then Insert(list, i, x.value) else list
      case After(i) => if i < |list| then Insert(list, i + 1, x.value) else list
      case Replace(i) => if i < |list| then list[i := x.value] else list
      case Remove(i) => if i < |list| then Without(list, i) else list
      case Set(_, _) => list
  }

  function EditedAttrs(attrs: seq<Attr>, e: Edit): seq<Attr> {
    if e.Set? then SetAttr(attrs, e.name, e.value) else attrs
  }

  /** What a node has to give: itself or a copy, and a document nothing. */
  ghost function Given(e: Edit, source: Node): Option<Tree>
    reads source`value, source`cdata, source`kidTrees, source.attributeSet, source.attributeSet.Repr()
  {
    if source.kind.DocumentKind? then None
    else Some(if e.Link? then source.Tree() else CopyTree(source.Tree()))
  }

  /** What a linked node brings along. */
  ghost function Brought(e: Edit, source: Node): set<Node>
    reads source`nodes
  {
    if e.Link? then source.nodes else {}
  }

  ghost function BroughtParts(e: Edit, source: Node): set<object>
    reads source`parts
  {
    if e.Link? then source.parts else {}
  }

  ghost predicate AreApart(a: Node, b: Node)
    reads a`nodes, a`parts, b`nodes, b`parts
  {
    a.nodes !! b.nodes && a.parts !! b.parts
  }

  /** The child of that index, found along the links. */
  method ChildAt(node: Node, at: nat) returns (child: Node?)
    requires node.Valid()
    ensures child == node.Kid(at) && |node.kidTrees| == |node.kids|
    ensures child != null ==> child.parent == node && child in node.kids
    ensures child != null ==> forall j :: 0 <= j < |node.kids| && node.kids[j] == child ==> j == at
  {
    hide Node.Valid;
    node.Ends();
    child := node.firstChild;
    var i := 0;
    while child != null && i < at
      invariant 0 <= i <= |node.kids| && i <= at && child == node.Kid(i)
      decreases |node.kids| - i
    {
      node.KidAt(i);
      child := child.next;
      i := i + 1;
    }
    if child != null {
      node.KidAt(i);
      node.KidOnce(i);
    }
  }

  /** One edit of a node that is no text. The source of a copy may be anywhere,
      also in the tree that is edited. */
  method Apply(node: Node, e: Edit, source: Node)
    requires node.Valid() && !node.kind.TextKind? && (e.Set? ==> node.kind.ElementKind?)
    requires (Takes(e) ==> source.Valid()) && (e.Replace? ==> !source.kind.DocumentKind?)
    requires e.Link? ==> source.parent == null && AreApart(source, node)
    modifies node`firstChild, node`lastChild, node`kids, node`kidTrees, node`nodes, node`parts
    modifies node.kids`prev, node.kids`next, node.parts
    modifies (if e.Link? then {source} else {})`parent, (if e.Link? then {source} else {})`prev
    modifies (if e.Link? then {source} else {})`next
    ensures node.Valid()
    ensures fresh(node.nodes - old(node.nodes) - old(Brought(e, source)))
    ensures fresh(node.parts - old(node.parts) - old(BroughtParts(e, source)))
    ensures node.Tree() == EditedTree(old(node.Tree()), [], e, old(Given(e, source)))
  {
    hide Node.Valid, AttributeSet.Attrs, AttributeSet.Valid, AttributeSet.Repr, SetAttr;
    hide CopyTree, Insert, Without;
    if e.Set? {
      node.SetAttribute(e.name, e.value);
    } else {
      EditChildren(node, e, source);
    }
  }

  method EditChildren(node: Node, e: Edit, source: Node)
    requires node.Valid() && !node.kind.TextKind? && !e.Set?
    requires (Takes(e) ==> source.Valid()) && (e.Replace? ==> !source.kind.DocumentKind?)
    requires e.Link? ==> source.parent == null && AreApart(source, node)
    modifies node`firstChild, node`lastChild, node`kids, node`kidTrees, node`nodes, node`parts
    modifies node.kids`prev, node.kids`next
    modifies (if e.Link? then {source} else {})`parent, (if e.Link? then {source} else {})`prev
    modifies (if e.Link? then {source} else {})`next
    ensures node.Valid()
    ensures fresh(node.nodes - old(node.nodes) - old(Brought(e, source)))
    ensures fresh(node.parts - old(node.parts) - old(BroughtParts(e, source)))
    ensures node.kidTrees == Edited(old(node.kidTrees), e, old(Given(e, source)))
  {
    hide Node.Valid, Node.Tree, CopyTree, Insert, Without;
    if e.Before? || e.After? || e.Replace? {
      EditBeside(node, e, source);
    } else {
      match e {
        case Link =>
          var r := node.LinkEndChild(source);
        case End =>
          var r := node.InsertEndChild(source);
        case Remove(at) =>
          var child := ChildAt(node, at);
          if child != null { var r, i := node.RemoveChild(child); }
      }
    }
  }

  method EditBeside(node: Node, e: Edit, source: Node)
    requires node.Valid() && !node.kind.TextKind? && (e.Before? || e.After? || e.Replace?)
    requires source.Valid() && (e.Replace? ==> !source.kind.DocumentKind?)
    modifies node`firstChild, node`lastChild, node`kids, node`kidTrees, node`nodes, node`parts
    modifies node.kids`prev, node.kids`next
    ensures node.Valid() && fresh(node.nodes - old(node.nodes)) && fresh(node.parts - old(node.parts))
    ensures node.kidTrees == Edited(old(node.kidTrees), e, old(Given(e, source)))
  {
    hide Node.Valid, Node.Tree, CopyTree, Insert, Without;
    var child := ChildAt(node, e.at);
    if child != null {
      ghost var i;
      var r;
      match e {
        case Before(at) => r, i := node.InsertBeforeChild(child, source);
        case After(at) => r, i := node.InsertAfterChild(child, source);
        case Replace(at) => r, i := node.ReplaceChild(child, source);
      }
    }
  }

  /** The edit of the node that a path leads to; a path that leads nowhere or to
      a text changes nothing. */
  function EditedTree(t: Tree, path: seq<nat>, e: Edit, x: Option<Tree>): Tree
    decreases |path|
  {
    if t.TextNode? then t
    else if path == [] then Element(t.name, EditedAttrs(t.attrs, e), Edited(t.kids, e, x))
    else if path[0] < |t.kids| then
      t.(kids := t.kids[path[0] := EditedTree(t.kids[path[0]], path[1..], e, x)])
    else t
  }

  /** An edit at any depth keeps the whole tree well formed and changes nothing
      but the node it is about. */
  method EditAt(node: Node, path: seq<nat>, e: Edit, source: Node)
    requires node.Valid() && (e.Set? && path == [] ==> !node.kind.DocumentKind?)
    requires (Takes(e) ==> source.Valid()) && (e.Replace? ==> !source.kind.DocumentKind?)
    requires e.Link? ==> source.parent == null && AreApart(source, node)
    modifies node.nodes`firstChild, node.nodes`lastChild, node.nodes`kids, node.nodes`kidTrees
    modifies node.nodes`nodes, node.nodes`parts, (node.nodes - {node})`prev, (node.nodes - {node})`next
    modifies node.parts
    modifies (if e.Link? then {source} else {})`parent, (if e.Link? then {source} else {})`prev
    modifies (if e.Link? then {source} else {})`next
    ensures node.Valid()
    ensures fresh(node.nodes - old(node.nodes) - old(Brought(e, source)))
    ensures fresh(node.parts - old(node.parts) - old(BroughtParts(e, source)))
    ensures node.Tree() == EditedTree(old(node.Tree()), path, e, old(Given(e, source)))
    decreases |path|
  {
    hide Node.Valid, CopyTree, Edited, EditedAttrs, AttributeSet.Valid, AttributeSet.Attrs, AttributeSet.Repr;
    node.Ends();
    node.KidsIn();
    if node.kind.TextKind? { return; }
    if path == [] {
      Apply(node, e, source);
    } else {
      var child := ChildAt(node, path[0]);
      if child != null { EditBelow(node, path, child, e, source); }
    }
  }

  lemma OthersKept<T>(s: seq<T>, i: nat)
    requires i < |s|
    ensures forall x :: x in s && x != s[i] ==> x in Without(s, i)
  {
    forall x | x in s && x != s[i] ensures x in Without(s, i) {
      var j :| 0 <= j < |s| && s[j] == x;
      assert Without(s, i)[if j < i then j else j - 1] == x;
    }
  }

  /** Once a child is edited its parent takes up the new subtree. */
  method EditBelow(node: Node, path: seq<nat>, child: Node, e: Edit, source: Node)
    requires node.Valid() && !node.kind.TextKind?
    requires (Takes(e) ==> source.Valid()) && (e.Replace? ==> !source.kind.DocumentKind?)
    requires e.Link? ==> source.parent == null && AreApart(source, node)
    requires path != [] && path[0] < |node.kids| == |node.kidTrees| && node.kids[path[0]] == child
    modifies node.nodes`firstChild, node.nodes`lastChild, node.nodes`kids, node.nodes`kidTrees
    modifies node.nodes`nodes, node.nodes`parts, (node.nodes - {node})`prev, (node.nodes - {node})`next
    modifies node.parts
    modifies (if e.Link? then {source} else {})`parent, (if e.Link? then {source} else {})`prev
    modifies (if e.Link? then {source} else {})`next
    ensures node.Valid()
    ensures fresh(node.nodes - old(node.nodes) - old(Brought(e, source)))
    ensures fresh(node.parts - old(node.parts) - old(BroughtParts(e, source)))
    ensures path[0] < |old(node.kidTrees)| && node.value == old(node.value)
    ensures node.kidTrees == old(node.kidTrees)[path[0] :=
              EditedTree(old(node.kidTrees)[path[0]], path[1..], e, old(Given(e, source)))]
    ensures node.attributeSet.Attrs() == old(node.attributeSet.Attrs())
    decreases |path|, 0
  {
    hide Node.Valid, Node.Linked, Node.Own, Node.Forest, Node.Tree, AttributeSet.Attrs, AttributeSet.Repr;
    hide AttributeSet.Valid, CopyTree, EditedTree, Insert, Without;
    ghost var i, below, pieces := path[0], child.nodes, child.parts;
    ParentOf(node, child, i);
    label before:
    EditAt(child, path[1..], e, source);
    Untouched@before(node.attributeSet);
    Rejoin(node, child, i, below, pieces);
  }

  /** The ghost side of taking up the changed subtree of child `i`. */
  ghost method Rejoin(node: Node, child: Node, i: nat, below: set<Node>, pieces: set<object>)
    requires i < |node.kids| && node.kids[i] == child && node.Linked() && i < |node.kidTrees|
    requires child.Valid() && !child.kind.DocumentKind? && !node.kind.TextKind? && node in node.nodes - below
    requires child.nodes !! node.nodes - below && child.parts !! node.parts - pieces
    requires node.attributeSet in node.parts - pieces && node.attributeSet.Repr() <= node.parts - pieces
    requires node.attributeSet.Valid() && forall o :: o in node.parts ==> !(o is Node)
    requires forall k :: k in node.kids && k != child ==> k in node.nodes && k != node && k !in below
    requires Node.Forest(Without(node.kids, i), Without(node.kidTrees, i), node.nodes - below - {node},
                         node.parts - pieces - node.attributeSet.Repr())
    modifies node`kidTrees, node`nodes, node`parts
    ensures node.Valid() && node.kidTrees == old(node.kidTrees)[i := child.Tree()]
    ensures node.nodes == old(node.nodes) - below + child.nodes
    ensures node.parts == old(node.parts) - pieces + child.parts
  {
    hide Node.Valid, Node.Linked, Node.Own, Node.Forest, Node.Tree, AttributeSet.Repr;
    hide AttributeSet.Valid, Insert, Without;
    node.SwapIs(node.kidTrees, i, child.Tree());
    node.kidTrees := Without(node.kidTrees, i);
    node.nodes, node.parts := node.nodes - below, node.parts - pieces;
    Owns(node);
    node.Adopt(child, i);
  }

  /** What a parent has apart from the subtree of child `i`. */
  lemma ParentOf(node: Node, child: Node, i: nat)
    requires node.Valid() && i < |node.kids| && node.kids[i] == child
    ensures node.Linked() && i < |node.kidTrees| && node.kidTrees[i] == child.Tree()
    ensures node.attributeSet.Valid() && node.attributeSet in node.parts - child.parts
    ensures node.attributeSet.Repr() <= node.parts - child.parts
    ensures forall o :: o in node.parts ==> !(o is Node)
    ensures child.Valid() && !child.kind.DocumentKind? && node in node.nodes - child.nodes
    ensures child.nodes <= node.nodes && child.parts <= node.parts
    ensures forall k :: k in node.kids && k != child ==> k in node.nodes && k != node && k !in child.nodes
    ensures Node.Forest(Without(node.kids, i), Without(node.kidTrees, i), node.nodes - child.nodes - {node},
                        node.parts - child.parts - node.attributeSet.Repr())
  {
    hide Node.Valid, Node.Linked, Node.Forest, Node.Tree, AttributeSet.Valid, Distinct, Without;
    node.KidAt(i);
    node.Open();
    node.KidsDiffer();
    ghost var all, pieces := node.nodes - {node}, node.parts - node.attributeSet.Repr();
    node.RemovedInside(node.kids, node.kidTrees, all, pieces, i);
    node.ForestRemove(node.kids, node.kidTrees, all, pieces, i);
    OthersKept(node.kids, i);
    assert all - child.nodes == node.nodes - child.nodes - {node};
    assert pieces - child.parts == node.parts - child.parts - node.attributeSet.Repr();
  }

  twostate lemma Untouched(a: AttributeSet)
    requires old(a.Valid()) && forall o :: o in old(a.Repr()) ==> unchanged(o)
    ensures a.Valid() && a.Attrs() == old(a.Attrs()) && a.Repr() == old(a.Repr())
  {
    hide AttributeSet.Linked, DistinctNames, AttrsOf;
    assert a in old(a.Repr()) && a.sentinel in old(a.Repr());
    assert unchanged(a);
    forall i | 0 <= i < |a.items| ensures unchanged(a.items[i]) {
      assert a.items[i] in a.items && a.items[i] in old(a.Repr());
    }
    assert unchanged(a.sentinel) && unchanged(a.items);
  }

  lemma Owns(node: Node)
    requires node in node.nodes && node.attributeSet in node.parts && node.attributeSet.Repr() <= node.parts
    requires node.attributeSet.Valid() && !node.kind.TextKind? && forall o :: o in node.parts ==> !(o is Node)
    ensures node.Own()
  {}

  // ---------- sequences of edits ----------

  /** A node of the caller's, or the node of the document that a path leads to. */
  datatype Source = Outside(node: Node) | Inside(path: seq<nat>)

  /** An edit, the node it is for and what it takes, if it takes something. */
  datatype Step = Step(path: seq<nat>, edit: Edit, source: Source)

  function TreeAt(t: Tree, path: seq<nat>): Option<Tree>
    decreases |path|
  {
    if path == [] then Some(t)
    else if t.Element? && path[0] < |t.kids| then TreeAt(t.kids[path[0]], path[1..])
    else None
  }

  /** What a step takes: what an outside node has to give, or a copy of what is
      found in the tree as it is by then, which is not the document itself. */
  function Taken(t: Tree, document: bool, step: Step, given: Option<Tree>): Option<Tree> {
    if step.source.Outside? then given
    else if document && step.source.path == [] then None
    else
      var x := TreeAt(t, step.source.path);
      if x.Some? then Some(CopyTree(x.value)) else None
  }

  /** The edits of a sequence one after the other. */
  function AllEdited(t: Tree, document: bool, steps: seq<Step>, given: seq<Option<Tree>>): Tree
    requires |given| == |steps|
    decreases |steps|
  {
    if steps == [] then t
    else
      var n := |steps| - 1;
      var s := AllEdited(t, document, steps[..n], given[..n]);
      EditedTree(s, steps[n].path, steps[n].edit, Taken(s, document, steps[n], given[n]))
  }

  method NodeAt(node: Node, path: seq<nat>) returns (r: Node?)
    requires node.Valid()
    ensures r == null ==> TreeAt(node.Tree(), path) == None
    ensures r != null ==> r.Valid() && TreeAt(node.Tree(), path) == Some(r.Tree())
    ensures r != null && path != [] ==> !r.kind.DocumentKind?
    ensures path == [] ==> r == node
    decreases |path|
  {
    hide Node.Valid, AttributeSet.Attrs;
    if path == [] { return node; }
    node.Ends();
    var child := ChildAt(node, path[0]);
    if child == null { return null; }
    node.KidAt(path[0]);
    r := NodeAt(child, path[1..]);
  }

  predicate Links(step: Step) {
    step.edit.Link? && step.source.Outside?
  }

  predicate TakesOutside(step: Step) {
    Takes(step.edit) && step.source.Outside?
  }

  /** An outside node that a step can take, and what it gives. */
  ghost predicate Ready(step: Step, given: Option<Tree>)
    requires step.source.Outside?
    reads step.source.node, step.source.node.nodes, step.source.node.parts
    reads step.source.node.attributeSet, step.source.node.attributeSet.Repr()
    ensures Ready(step, given) ==>
      var source := step.source.node;
      && source in source.nodes && source.attributeSet in source.parts
      && source.attributeSet.Repr() <= source.parts && forall o :: o in source.parts ==> !(o is Node)
  {
    var source := step.source.node;
    && source.Valid() && Given(step.edit, source) == given
    && (step.edit.Replace? ==> !source.kind.DocumentKind?) && (step.edit.Link? ==> source.parent == null)
  }

  /** A document takes no attributes and is not put into its own place, and only
      a node of the caller's is linked. */
  predicate Allowed(step: Step, document: bool) {
    && (step.edit.Set? && step.path == [] ==> !document)
    && (step.edit.Replace? && step.source == Inside([]) ==> !document)
    && (step.edit.Link? ==> step.source.Outside?)
  }

  ghost function Moved(step: Step): set<Node> {
    if Links(step) then {step.source.node} else {}
  }

  method TakeStep(node: Node, step: Step, ghost given: Option<Tree>)
    requires node.Valid() && Allowed(step, node.kind.DocumentKind?)
    requires TakesOutside(step) ==> Ready(step, given)
    requires Links(step) ==> AreApart(step.source.node, node)
    modifies node.nodes`firstChild, node.nodes`lastChild, node.nodes`kids, node.nodes`kidTrees
    modifies node.nodes`nodes, node.nodes`parts, (node.nodes - {node})`prev, (node.nodes - {node})`next
    modifies node.parts, Moved(step)`parent, Moved(step)`prev, Moved(step)`next
    ensures node.Valid()
    ensures TakesOutside(step) ==>
      && fresh(node.nodes - old(node.nodes) - old(Brought(step.edit, step.source.node)))
      && fresh(node.parts - old(node.parts) - old(BroughtParts(step.edit, step.source.node)))
    ensures !Links(step) ==> fresh(node.nodes - old(node.nodes)) && fresh(node.parts - old(node.parts))
    ensures node.Tree()
         == EditedTree(old(node.Tree()), step.path, step.edit,
                       Taken(old(node.Tree()), node.kind.DocumentKind?, step, given))
  {
    hide Node.Valid, Node.Tree, CopyTree, EditedTree, TreeAt;
    var source: Node? := node;
    if Takes(step.edit) {
      if step.source.Outside? {
        source := step.source.node;
      } else {
        source := NodeAt(node, step.source.path);
      }
    }
    ghost var t, x := node.Tree(), Taken(node.Tree(), node.kind.DocumentKind?, step, given);
    if source == null {
      NothingTaken(t, step.path, step.edit);
    } else {
      if !Takes(step.edit) { NothingNeeded(t, step.path, step.edit, x, Given(step.edit, source)); }
      EditAt(node, step.path, step.edit, source);
    }
  }

  /** When nothing is found nothing happens. */
  lemma {:induction false} NothingTaken(t: Tree, path: seq<nat>, e: Edit)
    requires Takes(e)
    ensures EditedTree(t, path, e, None) == t
    decreases |path|
  {
    if t.Element? && path != [] && path[0] < |t.kids| { NothingTaken(t.kids[path[0]], path[1..], e); }
  }

  lemma {:induction false} NothingNeeded(t: Tree, path: seq<nat>, e: Edit, x: Option<Tree>, y: Option<Tree>)
    requires !Takes(e)
    ensures EditedTree(t, path, e, x) == EditedTree(t, path, e, y)
    decreases |path|
  {
    if t.Element? && path != [] && path[0] < |t.kids| { NothingNeeded(t.kids[path[0]], path[1..], e, x, y); }
  }

  /** What the outside nodes are made of. */
  lemma Owned(steps: seq<Step>) returns (nodes: seq<set<Node>>, parts: seq<set<object>>)
    ensures |nodes| == |parts| == |steps|
    ensures forall i :: 0 <= i < |steps| && TakesOutside(steps[i]) ==>
              nodes[i] == steps[i].source.node.nodes && parts[i] == steps[i].source.node.parts
    decreases |steps|
  {
    if steps == [] {
      nodes, parts := [], [];
    } else {
      var n := |steps| - 1;
      nodes, parts := Owned(steps[..n]);
      if TakesOutside(steps[n]) {
        nodes, parts := nodes + [steps[n].source.node.nodes], parts + [steps[n].source.node.parts];
      } else {
        nodes, parts := nodes + [{}], parts + [{}];
      }
    }
  }

  lemma NoneEdited(t: Tree, document: bool)
    ensures AllEdited(t, document, [], []) == t
  {}

  lemma OneMore(t: Tree, document: bool, steps: seq<Step>, given: seq<Option<Tree>>, n: nat)
    requires n < |steps| == |given|
    ensures var s := AllEdited(t, document, steps[..n], given[..n]);
            AllEdited(t, document, steps[..n + 1], given[..n + 1])
            == EditedTree(s, steps[n].path, steps[n].edit, Taken(s, document, steps[n], given[n]))
  {
    hide EditedTree, Taken;
    assert steps[..n + 1][..n] == steps[..n] && given[..n + 1][..n] == given[..n];
  }

  lemma IsApart(a: Node, b: Node)
    requires a.nodes !! b.nodes && a.parts !! b.parts
    ensures AreApart(a, b)
  {}

  lemma ApartMeans(node: Node, steps: seq<Step>)
    ensures forall i :: 0 <= i < |steps| && TakesOutside(steps[i]) && AreApart(steps[i].source.node, node) ==>
              steps[i].source.node.nodes !! node.nodes && steps[i].source.node.parts !! node.parts
    ensures forall i, j :: 0 <= i < j < |steps| && Links(steps[i]) && TakesOutside(steps[j])
                           && AreApart(steps[i].source.node, steps[j].source.node) ==>
              && steps[i].source.node.nodes !! steps[j].source.node.nodes
              && steps[i].source.node.parts !! steps[j].source.node.parts
  {}

  /** Every sequence of edits, at whatever depths, keeps the document well formed
      and does to it what the same edits do to the tree it stands for. A copy may
      be taken from an outside node or from the document itself as it is by then;
      a node is linked once and from then on belongs to the document. */
  method EditAll(node: Node, steps: seq<Step>, ghost given: seq<Option<Tree>>,
                 ghost mine: set<Node>, ghost pieces: set<object>)
    requires node.Valid() && |given| == |steps|
    requires forall i :: 0 <= i < |steps| ==> Allowed(steps[i], node.kind.DocumentKind?)
    requires forall i :: 0 <= i < |steps| && TakesOutside(steps[i]) ==>
               Ready(steps[i], given[i]) && AreApart(steps[i].source.node, node)
    requires forall i, j :: 0 <= i < j < |steps| && Links(steps[i]) && TakesOutside(steps[j]) ==>
               AreApart(steps[i].source.node, steps[j].source.node)
    requires forall i :: 0 <= i < |steps| && Links(steps[i]) ==>
               steps[i].source.node.nodes <= mine && steps[i].source.node.parts <= pieces
    requires node !in mine
    modifies node.nodes`firstChild, node.nodes`lastChild, node.nodes`kids, node.nodes`kidTrees
    modifies node.nodes`nodes, node.nodes`parts, (node.nodes - {node})`prev, (node.nodes - {node})`next
    modifies node.parts, mine, pieces
    ensures node.Valid() && node.Linked()
    ensures node.Tree() == AllEdited(old(node.Tree()), node.kind.DocumentKind?, steps, given)
  {
    hide Node.Valid, Node.Tree, CopyTree, EditedTree, Ready, Taken, Allowed, AllEdited, AreApart;
    NoneEdited(node.Tree(), node.kind.DocumentKind?);
    ApartMeans(node, steps);
    ghost var nodes, parts := Owned(steps);
    var n := 0;
    while n < |steps|
      invariant 0 <= n <= |steps| && node.Valid()
      invariant fresh(node.nodes - old(node.nodes) - mine) && fresh(node.parts - old(node.parts) - pieces)
      invariant forall i :: n <= i < |steps| && TakesOutside(steps[i]) ==>
                  && Ready(steps[i], given[i])
                  && nodes[i] == steps[i].source.node.nodes && parts[i] == steps[i].source.node.parts
                  && nodes[i] !! node.nodes && parts[i] !! node.parts
      invariant node.Tree() == AllEdited(old(node.Tree()), node.kind.DocumentKind?, steps[..n], given[..n])
    {
      OneMore(old(node.Tree()), node.kind.DocumentKind?, steps, given, n);
      if Links(steps[n]) { IsApart(steps[n].source.node, node); }
      TakeStep(node, steps[n], given[n]);
      n := n + 1;
    }
    assert steps[..n] == steps && given[..n] == given;
    node.Open();
  }
}
