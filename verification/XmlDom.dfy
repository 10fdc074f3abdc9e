/** The document object model of TinyXML on the heap: nodes with a doubly linked
    list of children each. */
module XmlDom {
  import opened CStrings
  import opened XmlTree
  import opened XmlAttributes

  datatype Kind = DocumentKind | ElementKind | TextKind

  class Node {
    const kind: Kind
    const attributeSet: AttributeSet
    var value: string
    var cdata: bool
    var parent: Node?
    var prev: Node?
    var next: Node?
    var firstChild: Node?
    var lastChild: Node?

    ghost var kids: seq<Node>        // the list of children
    ghost var kidTrees: seq<Tree>    // and what they stand for
    ghost var nodes: set<Node>       // this node and its descendants
    ghost var parts: set<object>     // the objects of their attribute lists

    /** The sibling list of the children: prev and next are inverse, the ends
        are firstChild and lastChild, and every parent points here. */
    ghost predicate Linked()
      reads this`kids, this`firstChild, this`lastChild, kids`parent, kids`prev, kids`next
    {
      && Distinct(kids) && firstChild == Kid(0) && lastChild == Kid(|kids| - 1)
      && (forall i :: 0 <= i < |kids| ==> LinkedAt(i))
    }

    ghost predicate LinkedAt(i: nat)
      requires i < |kids|
      reads this`kids, kids`parent, kids`prev, kids`next
    {
      kids[i].parent == this && kids[i].prev == Kid(i - 1) && kids[i].next == Kid(i + 1)
    }

    ghost function Kid(i: int): Node?
      reads this`kids
    {
      if 0 <= i < |kids| then kids[i] else null
    }

    /** The tree this node stands for. */
    ghost function Tree(): Tree
      reads this`value, this`cdata, this`kidTrees, attributeSet, attributeSet.Repr()
    {
      if kind.TextKind? then TextNode(value, cdata)
      else Element(value, attributeSet.Attrs(), kidTrees)
    }

    /** A well-formed tree. It does not depend on where the root is linked in. */
    ghost predicate Valid()
      reads this`value, this`cdata, this`firstChild, this`lastChild, this`kids, this`kidTrees
      reads this`nodes, this`parts
      reads nodes`value, nodes`cdata, nodes`firstChild, nodes`lastChild, nodes`kids, nodes`kidTrees
      reads nodes`nodes, nodes`parts
      reads (nodes - {this})`parent, (nodes - {this})`prev, (nodes - {this})`next
      reads parts
      ensures Valid() ==> this in nodes && attributeSet in parts && attributeSet.Repr() <= parts
      ensures Valid() ==> forall o :: o in parts ==> !(o is Node)
      decreases nodes, 1
    {
      Own() && (forall k :: k in kids ==> k in nodes && k != this) && Linked()
      && Forest(kids, kidTrees, nodes - {this}, parts - attributeSet.Repr())
    }

    /** This node's own share: its attributes are in order and are its own. */
    ghost predicate Own()
      reads this`kids, this`nodes, this`parts, parts
    {
      && this in nodes && (forall o :: o in parts ==> !(o is Node))
      && attributeSet in parts && attributeSet.Repr() <= parts && attributeSet.Valid()
      && (kind.TextKind? ==> kids == [])
    }

    /** The nodes `ks` are roots of well-formed trees that stand for `trees`,
        made of the given objects and apart from each other. It does not depend
        on how these roots are linked to each other. */
    static ghost predicate Forest(ks: seq<Node>, trees: seq<Tree>, all: set<Node>, pieces: set<object>)
      reads all`value, all`cdata, all`firstChild, all`lastChild, all`kids, all`kidTrees
      reads all`nodes, all`parts
      reads (set n | n in all && n !in ks)`parent, (set n | n in all && n !in ks)`prev
      reads (set n | n in all && n !in ks)`next
      reads pieces
      decreases all, 2
    {
      && (forall k :: k in ks ==> k in all) && Placed(ks, all, pieces) && Apart(ks)
      && (forall k :: k in ks ==> k.Valid() && k.attributeSet.Repr() <= pieces)
      && Match(ks, trees, pieces)
    }

    static ghost predicate Placed(ks: seq<Node>, all: set<Node>, pieces: set<object>)
      reads ks`nodes, ks`parts
    {
      forall k :: k in ks ==>
        k in all && !k.kind.DocumentKind? && k in k.nodes && k.nodes <= all && k.parts <= pieces
    }

    static ghost predicate Apart(ks: seq<Node>)
      reads ks`nodes, ks`parts
    {
      forall a, b :: a in ks && b in ks && a != b ==> a.nodes !! b.nodes && a.parts !! b.parts
    }

    static ghost predicate Match(ks: seq<Node>, trees: seq<Tree>, pieces: set<object>)
      requires forall k :: k in ks ==> k.attributeSet in pieces && k.attributeSet.Repr() <= pieces
      reads ks`value, ks`cdata, ks`kidTrees, pieces
    {
      |trees| == |ks| && forall i :: 0 <= i < |ks| ==> ks[i] in ks && trees[i] == ks[i].Tree()
    }

    lemma Open()
      requires Valid()
      ensures Own() && Linked() && Forest(kids, kidTrees, nodes - {this}, parts - attributeSet.Repr())
      ensures forall k :: k in kids ==> k in nodes && k != this
    {}

    lemma Close()
      requires Own() && Linked() && (forall k :: k in kids ==> k in nodes && k != this)
      requires Forest(kids, kidTrees, nodes - {this}, parts - attributeSet.Repr())
      ensures Valid()
    {}

    static lemma ForestLength(ks: seq<Node>, trees: seq<Tree>, all: set<Node>, pieces: set<object>)
      requires Forest(ks, trees, all, pieces)
      ensures |trees| == |ks|
    {}

    /** One more tree, apart from the others. */
    static lemma ForestInsert(ks: seq<Node>, trees: seq<Tree>, all: set<Node>, pieces: set<object>, i: nat, k: Node)
      requires Forest(ks, trees, all, pieces) && i <= |ks|
      requires k.Valid() && !k.kind.DocumentKind? && k.nodes !! all && k.parts !! pieces
      ensures |trees| == |ks|
      ensures Forest(Insert(ks, i, k), Insert(trees, i, k.Tree()), all + k.nodes, pieces + k.parts)
    {
      hide Node.Valid, Node.Tree, Node.Placed, Node.Apart, Node.Match, Insert;
      ForestLength(ks, trees, all, pieces);
      var more := Insert(ks, i, k);
      InsertWithout(ks, i, k);
      InsertPlaced(ks, more, k, all, pieces);
      InsertMatches(ks, trees, i, k, pieces);
    }

    static lemma InsertPlaced(ks: seq<Node>, more: seq<Node>, k: Node, all: set<Node>, pieces: set<object>)
      requires forall x :: x in more <==> x in ks || x == k
      requires Placed(ks, all, pieces) && Apart(ks)
      requires !k.kind.DocumentKind? && k in k.nodes && k.nodes !! all && k.parts !! pieces
      ensures Placed(more, all + k.nodes, pieces + k.parts) && Apart(more)
    {}

    static lemma InsertMatches(ks: seq<Node>, trees: seq<Tree>, i: nat, k: Node, pieces: set<object>)
      requires k.attributeSet in k.parts && k.attributeSet.Repr() <= k.parts
      requires forall x :: x in ks ==> x.attributeSet in pieces && x.attributeSet.Repr() <= pieces
      requires i <= |ks| == |trees| && Match(ks, trees, pieces)
      ensures Match(Insert(ks, i, k), Insert(trees, i, k.Tree()), pieces + k.parts)
    {
      hide Node.Tree;
      var more := Insert(ks, i, k);
      forall j | 0 <= j < |more| ensures Insert(trees, i, k.Tree())[j] == more[j].Tree() {
        if j != i { assert more[j] == ks[if j < i then j else j - 1]; }
      }
    }

    /** One tree fewer. */
    static lemma ForestRemove(ks: seq<Node>, trees: seq<Tree>, all: set<Node>, pieces: set<object>, i: nat)
      requires Forest(ks, trees, all, pieces) && i < |ks|
      requires Distinct(ks)
      ensures |trees| == |ks|
      ensures Forest(Without(ks, i), Without(trees, i), all - ks[i].nodes, pieces - ks[i].parts)
    {
      hide Node.Valid, Node.Tree, Node.Placed, Node.Apart, Node.Match;
      ForestLength(ks, trees, all, pieces);
      RemovePlaced(ks, i, all, pieces);
      RemoveMatches(ks, trees, i, pieces, pieces - ks[i].parts);
    }

    static lemma RemovePlaced(ks: seq<Node>, i: nat, all: set<Node>, pieces: set<object>)
      requires i < |ks| && Placed(ks, all, pieces) && Apart(ks)
      requires Distinct(ks)
      ensures forall x :: x in Without(ks, i) ==> x in ks && x in all - ks[i].nodes && x.parts <= pieces - ks[i].parts
      ensures Placed(Without(ks, i), all - ks[i].nodes, pieces - ks[i].parts) && Apart(Without(ks, i))
    {
      var fewer, k := Without(ks, i), ks[i];
      forall x | x in fewer ensures x in ks && x != k && x.nodes !! k.nodes && x.parts !! k.parts {
        var j :| 0 <= j < |fewer| && fewer[j] == x;
        assert x == ks[if j < i then j else j + 1];
      }
    }

    static lemma RemoveMatches(ks: seq<Node>, trees: seq<Tree>, i: nat, pieces: set<object>, left: set<object>)
      requires i < |ks| && |trees| == |ks|
      requires forall k :: k in ks ==> k.attributeSet in pieces && k.attributeSet.Repr() <= pieces
      requires forall k :: k in Without(ks, i) ==> k.attributeSet in left && k.attributeSet.Repr() <= left
      requires Match(ks, trees, pieces)
      ensures Match(Without(ks, i), Without(trees, i), left)
    {
      hide Node.Tree;
      var fewer := Without(ks, i);
      forall j | 0 <= j < |fewer| ensures Without(trees, i)[j] == fewer[j].Tree() {
        assert fewer[j] == ks[if j < i then j else j + 1];
      }
    }

    constructor (kind: Kind, value: string)
      ensures Valid() && nodes == {this} && fresh(parts)
      ensures this.kind == kind && this.value == value && !cdata
      ensures kids == [] && kidTrees == [] && attributeSet.Attrs() == []
      ensures parent == null && prev == null && next == null
    {
      this.kind, this.value, cdata := kind, value, false;
      parent, prev, next, firstChild, lastChild := null, null, null, null, null;
      attributeSet := new AttributeSet();
      kids, kidTrees := [], [];
      nodes := {this};
      new;
      parts := attributeSet.Repr();
    }

    /** Appends a node that belongs to no other tree. A document cannot be
        linked; the node is then given up and null returned. */
    method LinkEndChild(node: Node) returns (r: Node?)
      requires Valid() && !kind.TextKind?
      requires node.Valid() && node.nodes !! nodes && node.parts !! parts
      requires node.parent == null || node.parent == this
      modifies this`firstChild, this`lastChild, this`kids, this`kidTrees, this`nodes, this`parts
      modifies kids`next, node`parent, node`prev, node`next
      ensures Valid()
      ensures node.kind.DocumentKind? ==>
        && r == null && kids == old(kids) && kidTrees == old(kidTrees)
        && nodes == old(nodes) && parts == old(parts)
      ensures !node.kind.DocumentKind? ==>
        && r == node && kids == old(kids) + [node] && kidTrees == old(kidTrees) + [old(node.Tree())]
        && nodes == old(nodes) + node.nodes && parts == old(parts) + node.parts
    {
      hide Valid, Linked, AttributeSet.Valid, Tree, Forest;
      if node.kind.DocumentKind? { return null; }
      Open();
      LinkLast(node);
      assert Forest(old(kids), kidTrees, nodes - {this}, parts - attributeSet.Repr());
      InsertLast(old(kids), node);
      InsertWithout(old(kids), |old(kids)|, node);
      ForestLength(old(kids), kidTrees, nodes - {this}, parts - attributeSet.Repr());
      InsertLast(kidTrees, node.Tree());
      Adopt(node, |kids| - 1);
      return node;
    }

    /** The ghost side of linking `node` in as child `i`. */
    ghost method Adopt(node: Node, i: nat)
      requires i < |kids| && kids[i] == node && !kind.TextKind? && Own() && Linked()
      requires forall k :: k in kids && k != node ==> k in nodes && k != this
      requires Forest(Without(kids, i), kidTrees, nodes - {this}, parts - attributeSet.Repr())
      requires node.Valid() && !node.kind.DocumentKind? && node.nodes !! nodes && node.parts !! parts
      modifies this`kidTrees, this`nodes, this`parts
      ensures Valid() && i <= |old(kidTrees)| && kidTrees == Insert(old(kidTrees), i, node.Tree())
      ensures nodes == old(nodes) + node.nodes && parts == old(parts) + node.parts
    {
      hide Valid, Linked, AttributeSet.Valid, Tree, Forest, Insert, Without;
      ghost var rest := Without(kids, i);
      RestoreKid(kids, i);
      ForestInsert(rest, kidTrees, nodes - {this}, parts - attributeSet.Repr(), i, node);
      kidTrees := Insert(kidTrees, i, node.Tree());
      nodes, parts := nodes + node.nodes, parts + node.parts;
      assert nodes - {this} == old(nodes - {this}) + node.nodes;
      assert parts - attributeSet.Repr() == old(parts - attributeSet.Repr()) + node.parts;
      Close();
    }

    static lemma RestoreKid(ks: seq<Node>, i: nat)
      requires i < |ks|
      ensures |Without(ks, i)| == |ks| - 1 && Insert(Without(ks, i), i, ks[i]) == ks
    {}

    static ghost function At(ks: seq<Node>, i: int): Node? {
      if 0 <= i < |ks| then ks[i] else null
    }

    /** Node `j` of the old list, once `node` stands between `i - 1` and `i`. */
    ghost predicate SplicedAt(was: seq<Node>, i: nat, node: Node, j: nat)
      requires j < |was|
      reads was`parent, was`prev, was`next
    {
      && was[j].parent == this
      && was[j].prev == (if j == i then node else At(was, j - 1))
      && was[j].next == (if j + 1 == i then node else At(was, j + 1))
    }

    lemma Spliced(was: seq<Node>, i: nat, node: Node)
      requires i <= |was| && kids == Insert(was, i, node) && Distinct(was) && node !in was
      requires forall j :: 0 <= j < |was| ==> SplicedAt(was, i, node, j)
      requires node.parent == this && node.prev == At(was, i - 1) && node.next == At(was, i)
      requires firstChild == Kid(0) && lastChild == Kid(|kids| - 1)
      ensures Linked()
    {
      hide Distinct;
      DistinctInsert(was, i, node);
      forall k | 0 <= k < |kids| ensures LinkedAt(k) {
        if k != i {
          assert SplicedAt(was, i, node, if k < i then k else k - 1);
        }
      }
    }

    /** Node `j` of the old list, once node `i` is taken out. */
    ghost predicate CutAt(was: seq<Node>, i: nat, j: nat)
      requires j < |was|
      reads was`parent, was`prev, was`next
    {
      && was[j].parent == this
      && was[j].prev == At(was, if j == i + 1 then i - 1 else j - 1)
      && was[j].next == At(was, if j + 1 == i then i + 1 else j + 1)
    }

    lemma Cut(was: seq<Node>, i: nat)
      requires i < |was| && kids == Without(was, i) && Distinct(was)
      requires forall j :: 0 <= j < |was| && j != i ==> CutAt(was, i, j)
      requires firstChild == Kid(0) && lastChild == Kid(|kids| - 1)
      ensures Linked()
    {
      hide Distinct;
      DistinctWithout(was, i);
      forall k | 0 <= k < |kids| ensures LinkedAt(k) {
        assert CutAt(was, i, if k < i then k else k + 1);
      }
    }

    method LinkLast(node: Node)
      requires Linked() && node !in kids && node != this
      modifies this`firstChild, this`lastChild, this`kids, kids`next, node`parent, node`prev, node`next
      ensures Linked() && kids == old(kids) + [node]
    {
      hide Distinct, Without;
      ghost var was := kids;
      node.parent := this;
      node.prev := lastChild;
      node.next := null;
      if lastChild != null {
        lastChild.next := node;
      } else {
        firstChild := node;
      }
      lastChild := node;
      kids := kids + [node];
      InsertLast(was, node);
      forall j | 0 <= j < |was| ensures SplicedAt(was, |was|, node, j) {
        assert old(LinkedAt(j));
        if j + 1 != |was| { DistinctAt(was, j, |was| - 1); }
      }
      Spliced(was, |was|, node);
    }

    method LinkBefore(beforeThis: Node, node: Node, ghost i: nat)
      requires Linked() && i < |kids| && kids[i] == beforeThis && node !in kids && node != this
      modifies this`firstChild, this`kids, kids`prev, kids`next, node`parent, node`prev, node`next
      ensures Linked() && kids == Insert(old(kids), i, node)
    {
      hide Distinct, Without;
      ghost var was := kids;
      assert LinkedAt(i) && (i > 0 ==> LinkedAt(i - 1));
      node.parent := this;
      node.next := beforeThis;
      node.prev := beforeThis.prev;
      if beforeThis.prev != null {
        beforeThis.prev.next := node;
      } else {
        firstChild := node;
      }
      beforeThis.prev := node;
      kids := Insert(was, i, node);
      forall j | 0 <= j < |was| ensures SplicedAt(was, i, node, j) {
        assert old(LinkedAt(j));
        if j != i { DistinctAt(was, j, i); }
        if j + 1 != i && i > 0 { DistinctAt(was, j, i - 1); }
      }
      Spliced(was, i, node);
    }

    method LinkAfter(afterThis: Node, node: Node, ghost i: nat)
      requires Linked() && i < |kids| && kids[i] == afterThis && node !in kids && node != this
      modifies this`lastChild, this`kids, kids`prev, kids`next, node`parent, node`prev, node`next
      ensures Linked() && kids == Insert(old(kids), i + 1, node)
    {
      hide Distinct, Without;
      ghost var was := kids;
      assert LinkedAt(i) && (i + 1 < |kids| ==> LinkedAt(i + 1));
      node.parent := this;
      node.prev := afterThis;
      node.next := afterThis.next;
      if afterThis.next != null {
        afterThis.next.prev := node;
      } else {
        lastChild := node;
      }
      afterThis.next := node;
      kids := Insert(was, i + 1, node);
      ghost var at := i + 1;
      forall j | 0 <= j < |was| ensures SplicedAt(was, at, node, j) {
        assert old(LinkedAt(j));
        if j != i { DistinctAt(was, j, i); }
        if j != i + 1 < |was| { DistinctAt(was, j, i + 1); }
      }
      Spliced(was, at, node);
    }

    /** Puts `node` in the place of child `i`. */
    method Exchange(replaceThis: Node, node: Node, ghost i: nat)
      requires Linked() && i < |kids| && kids[i] == replaceThis && node !in kids && node != this
      modifies this`firstChild, this`lastChild, this`kids, kids`prev, kids`next
      modifies node`parent, node`prev, node`next
      ensures Linked() && kids == old(kids)[i := node]
    {
      ghost var was := kids;
      assert LinkedAt(i);
      node.next := replaceThis.next;
      node.prev := replaceThis.prev;
      if replaceThis.next != null {
        replaceThis.next.prev := node;
      } else {
        lastChild := node;
      }
      if replaceThis.prev != null {
        replaceThis.prev.next := node;
      } else {
        firstChild := node;
      }
      node.parent := this;
      kids := was[i := node];
      forall k | 0 <= k < |kids| ensures LinkedAt(k) {
        if k != i {
          assert kids[k] == was[k] && old(LinkedAt(k));
        }
      }
    }

    method Unlink(removeThis: Node, ghost i: nat)
      requires Linked() && i < |kids| && kids[i] == removeThis
      modifies this`firstChild, this`lastChild, this`kids, kids`prev, kids`next
      ensures Linked() && kids == Without(old(kids), i)
    {
      hide Distinct;
      ghost var was := kids;
      assert LinkedAt(i);
      if removeThis.next != null {
        removeThis.next.prev := removeThis.prev;
      } else {
        lastChild := removeThis.prev;
      }
      if removeThis.prev != null {
        removeThis.prev.next := removeThis.next;
      } else {
        firstChild := removeThis.next;
      }
      kids := Without(was, i);
      forall j | 0 <= j < |was| && j != i ensures CutAt(was, i, j) {
        assert old(LinkedAt(j));
        if j + 1 != i && i > 0 { DistinctAt(was, j, i - 1); }
        if j != i + 1 < |was| { DistinctAt(was, j, i + 1); }
      }
      Cut(was, i);
    }

    // ---------- copying ----------

    /** What a walk along the children meets. */
    lemma KidAt(i: nat)
      requires Valid() && i < |kids|
      ensures |kidTrees| == |kids| && kids[i].Valid() && kidTrees[i] == kids[i].Tree()
      ensures kids[i].nodes <= nodes - {this} && kids[i].parts <= parts && !kids[i].kind.DocumentKind?
      ensures kids[i].next == Kid(i + 1) && kids[i].parent == this
    {
      hide AttributeSet.Valid;
      assert LinkedAt(i) && kids[i] in kids;
    }

    lemma KidsDiffer()
      requires Linked()
      ensures Distinct(kids)
    {}

    lemma KidOnce(i: nat)
      requires Valid() && i < |kids|
      ensures forall j :: 0 <= j < |kids| && kids[j] == kids[i] ==> j == i
    {
      hide Forest;
    }

    lemma KidsIn()
      requires Valid()
      ensures forall i :: 0 <= i < |kids| ==> kids[i] in nodes - {this}
    {
      forall i | 0 <= i < |kids| ensures kids[i] in nodes - {this} {
        assert kids[i] in kids;
      }
    }

    lemma Ends()
      requires Valid()
      ensures |kidTrees| == |kids| && firstChild == Kid(0) && lastChild == Kid(|kids| - 1)
      ensures attributeSet.Valid() && this in nodes && (kind.TextKind? ==> kids == [])
    {}

    /** Overwrites the attribute of that name or appends one. */
    method SetAttribute(name: CString, value: CString)
      requires Valid()
      modifies this`parts, attributeSet.Repr()
      ensures Valid() && fresh(parts - old(parts))
      ensures forall o :: o in attributeSet.Repr() ==> o in old(attributeSet.Repr()) || fresh(o)
      ensures attributeSet.Attrs() == SetAttr(old(attributeSet.Attrs()), name, value)
    {
      hide Valid, Linked, Forest, AttributeSet.Valid, AttributeSet.Attrs;
      Open();
      ghost var others := parts - attributeSet.Repr();
      ghost var added := attributeSet.Set(name, value);
      parts := parts + added;
      assert parts - attributeSet.Repr() == others;
      Close();
    }

    /** Clone: a copy of the tree in new objects, apart from this one, which is
        left as it was. */
    method Clone() returns (c: Node)
      requires Valid()
      ensures c.Valid() && c.kind == kind && c.Tree() == CopyTree(Tree())
      ensures c.value == Shown(value) && c.cdata == cdata && c.kidTrees == CopyKids(kidTrees)
      ensures fresh(c) && fresh(c.nodes) && fresh(c.parts)
      ensures c.parent == null && c.prev == null && c.next == null
      decreases nodes, 2
    {
      hide Valid, Tree, CopyKids, CopyTree, Shown;
      c := new Node(kind, Shown(value));
      CopyTo(c);
    }

    method CopyTo(target: Node)
      requires Valid() && target.Valid() && target.kind == kind
      requires target.kids == [] && target.attributeSet.Attrs() == []
      requires target.nodes == {target} && target !in nodes && target.parts !! parts
      modifies target`value, target`cdata, target`parts, target`nodes, target`kids, target`kidTrees
      modifies target`firstChild, target`lastChild
      modifies target.attributeSet.Repr()
      ensures target.Valid() && target.Tree() == CopyTree(Tree())
      ensures target.value == Shown(value) && target.cdata == cdata && target.kidTrees == CopyKids(kidTrees)
      ensures fresh(target.nodes - {target}) && fresh(target.parts - old(target.parts))
      decreases nodes, 1
    {
      hide Valid, Linked, Forest, AttributeSet.Valid, CopyKids, SeenAttrs, CopyAttrs, AttributeSet.Attrs, Shown;
      Ends();
      target.SetValue(Shown(value), cdata);
      CopyAttributes(target);
      CopyChildren(target);
    }

    method SetValue(value: string, cdata: bool)
      requires Valid()
      modifies this`value, this`cdata
      ensures Valid() && this.value == value && this.cdata == cdata
    {
      hide Linked, Forest, AttributeSet.Valid;
      this.value, this.cdata := value, cdata;
    }

    method CopyAttributes(target: Node)
      requires Valid() && target.Valid() && target.attributeSet.Attrs() == []
      requires target !in nodes && target.parts !! parts
      modifies target`parts, target.attributeSet.Repr()
      ensures target.Valid() && fresh(target.parts - old(target.parts))
      ensures target.attributeSet.Attrs() == CopyAttrs(SeenAttrs(attributeSet.Attrs()))
    {
      hide Valid, Linked, Forest, AttributeSet.Valid, AttributeSet.Attrs, SeenAttrs, CopyAttrs;
      Ends();
      target.Open();
      ghost var others := target.parts - target.attributeSet.Repr();
      ghost var added := attributeSet.CopyTo(target.attributeSet);
      target.parts := target.parts + added;
      assert target.parts - target.attributeSet.Repr() == others;
      target.Close();
    }

    method CopyChildren(target: Node)
      requires Valid() && target.Valid() && target.kids == [] && (target.kind.TextKind? ==> kids == [])
      requires target.nodes == {target} && target !in nodes && target.parts !! parts
      modifies target`parts, target`nodes, target`kids, target`kidTrees, target`firstChild, target`lastChild
      ensures target.Valid() && target.kidTrees == CopyKids(kidTrees)
      ensures fresh(target.nodes - {target}) && fresh(target.parts - old(target.parts))
      decreases nodes, 0
    {
      hide Valid, Linked, Forest, AttributeSet.Valid, Tree, CopyKids, Own, AttributeSet.Attrs;
      Ends();
      target.Ends();
      ghost var copies, i := CopyKids(kidTrees), 0;
      var node := firstChild;
      while node != null
        invariant 0 <= i <= |kids| && node == Kid(i)
        invariant target.Valid() && target.kidTrees == copies[..i]
        invariant fresh(target.nodes - {target}) && fresh(target.parts - old(target.parts))
        decreases |kids| - i
      {
        KidAt(i);
        TakeNext(copies, i);
        target.KidsIn();
        node.CopyInto(target);
        node := node.next;
        i := i + 1;
      }
    }

    /** A copy as the last child of `target`. */
    method CopyInto(target: Node)
      requires Valid() && !kind.DocumentKind? && target.Valid() && !target.kind.TextKind?
      modifies target`parts, target`nodes, target`kids, target`kidTrees, target`firstChild, target`lastChild
      modifies target.kids`next
      ensures target.Valid() && target.kidTrees == old(target.kidTrees) + [CopyTree(old(Tree()))]
      ensures fresh(target.nodes - old(target.nodes)) && fresh(target.parts - old(target.parts))
      decreases nodes, 3
    {
      hide Valid, Tree, CopyTree, Shown;
      var copy := Clone();
      var linked := target.LinkEndChild(copy);
    }

    // ---------- editing the children ----------

    method InsertEndChild(addThis: Node) returns (r: Node?)
      requires Valid() && !kind.TextKind? && addThis.Valid()
      modifies this`firstChild, this`lastChild, this`kids, this`kidTrees, this`nodes, this`parts, kids`next
      ensures fresh(nodes - old(nodes)) && fresh(parts - old(parts))
      ensures Valid()
      ensures addThis.kind.DocumentKind? ==> r == null && kids == old(kids) && kidTrees == old(kidTrees)
      ensures !addThis.kind.DocumentKind? ==>
        && r != null && fresh(r) && kids == old(kids) + [r]
        && kidTrees == old(kidTrees) + [CopyTree(old(addThis.Tree()))]
    {
      hide Valid, Linked, Forest, Tree, CopyTree, Insert;
      if addThis.kind.DocumentKind? { return null; }
      var node := addThis.Clone();
      r := LinkEndChild(node);
    }

    /** Links a copy of `addThis` in front of a child of this node. */
    method InsertBeforeChild(beforeThis: Node?, addThis: Node) returns (r: Node?, ghost i: nat)
      requires Valid() && addThis.Valid()
      requires beforeThis != null && beforeThis.parent == this ==> beforeThis in kids
      modifies this`firstChild, this`kids, this`kidTrees, this`nodes, this`parts, kids`prev, kids`next
      ensures fresh(nodes - old(nodes)) && fresh(parts - old(parts))
      ensures Valid()
      ensures beforeThis == null || old(beforeThis.parent) != this || addThis.kind.DocumentKind? ==>
        r == null && kids == old(kids) && kidTrees == old(kidTrees)
      ensures beforeThis != null && old(beforeThis.parent) == this && !addThis.kind.DocumentKind? ==>
        && r != null && fresh(r) && i < |old(kids)| == |old(kidTrees)| && old(kids)[i] == beforeThis
        && kids == Insert<Node>(old(kids), i, r)
        && kidTrees == Insert(old(kidTrees), i, CopyTree(old(addThis.Tree())))
    {
      hide Valid, Linked, Forest, Tree, CopyTree, Insert;
      i := 0;
      if beforeThis == null || beforeThis.parent != this { return null, 0; }
      if addThis.kind.DocumentKind? { return null, 0; }
      var node := addThis.Clone();
      i := PlaceBefore(beforeThis, node);
      r := node;
    }

    method PlaceBefore(beforeThis: Node, node: Node) returns (ghost i: nat)
      requires Valid() && beforeThis in kids
      requires node.Valid() && !node.kind.DocumentKind? && node.nodes !! nodes && node.parts !! parts
      modifies this`firstChild, this`kids, this`kidTrees, this`nodes, this`parts, kids`prev, kids`next
      modifies node`parent, node`prev, node`next
      ensures nodes <= old(nodes) + node.nodes && parts <= old(parts) + node.parts
      ensures Valid() && i < |old(kids)| == |old(kidTrees)| && old(kids)[i] == beforeThis
      ensures kids == Insert(old(kids), i, node) && kidTrees == Insert(old(kidTrees), i, node.Tree())
    {
      hide Valid, Linked, Forest, Tree, Insert, Without, AttributeSet.Valid;
      Open();
      Ends();
      i :| 0 <= i < |kids| && kids[i] == beforeThis;
      LinkBefore(beforeThis, node, i);
      InsertWithout(old(kids), i, node);
      Adopt(node, i);
    }

    method InsertAfterChild(afterThis: Node?, addThis: Node) returns (r: Node?, ghost i: nat)
      requires Valid() && addThis.Valid()
      requires afterThis != null && afterThis.parent == this ==> afterThis in kids
      modifies this`lastChild, this`kids, this`kidTrees, this`nodes, this`parts, kids`prev, kids`next
      ensures fresh(nodes - old(nodes)) && fresh(parts - old(parts))
      ensures Valid()
      ensures afterThis == null || old(afterThis.parent) != this || addThis.kind.DocumentKind? ==>
        r == null && kids == old(kids) && kidTrees == old(kidTrees)
      ensures afterThis != null && old(afterThis.parent) == this && !addThis.kind.DocumentKind? ==>
        && r != null && fresh(r) && i < |old(kids)| == |old(kidTrees)| && old(kids)[i] == afterThis
        && kids == Insert<Node>(old(kids), i + 1, r)
        && kidTrees == Insert(old(kidTrees), i + 1, CopyTree(old(addThis.Tree())))
    {
      hide Valid, Linked, Forest, Tree, CopyTree, Insert;
      i := 0;
      if afterThis == null || afterThis.parent != this { return null, 0; }
      if addThis.kind.DocumentKind? { return null, 0; }
      var node := addThis.Clone();
      i := PlaceAfter(afterThis, node);
      r := node;
    }

    method PlaceAfter(afterThis: Node, node: Node) returns (ghost i: nat)
      requires Valid() && afterThis in kids
      requires node.Valid() && !node.kind.DocumentKind? && node.nodes !! nodes && node.parts !! parts
      modifies this`lastChild, this`kids, this`kidTrees, this`nodes, this`parts, kids`prev, kids`next
      modifies node`parent, node`prev, node`next
      ensures nodes <= old(nodes) + node.nodes && parts <= old(parts) + node.parts
      ensures Valid() && i < |old(kids)| == |old(kidTrees)| && old(kids)[i] == afterThis
      ensures kids == Insert(old(kids), i + 1, node) && kidTrees == Insert(old(kidTrees), i + 1, node.Tree())
    {
      hide Valid, Linked, Forest, Tree, Insert, Without, AttributeSet.Valid;
      Open();
      Ends();
      i :| 0 <= i < |kids| && kids[i] == afterThis;
      LinkAfter(afterThis, node, i);
      InsertWithout(old(kids), i + 1, node);
      Adopt(node, i + 1);
    }

    /** Puts a copy of `withThis` in the place of a child, whose subtree is given
        up. Unlike the insertions it does not refuse a document: the list of
        children is in order all the same, but what comes of it is no tree of a
        document, elements and texts. */
    method ReplaceChild(replaceThis: Node, withThis: Node) returns (r: Node?, ghost i: nat)
      requires Valid() && withThis.Valid()
      requires replaceThis.parent == this ==> replaceThis in kids
      modifies this`firstChild, this`lastChild, this`kids, this`kidTrees, this`nodes, this`parts
      modifies kids`prev, kids`next
      ensures fresh(nodes - old(nodes)) && fresh(parts - old(parts))
      ensures Linked() && (Valid() <==> old(replaceThis.parent) != this || !withThis.kind.DocumentKind?)
      ensures old(replaceThis.parent) != this ==> r == null && kids == old(kids) && kidTrees == old(kidTrees)
      ensures old(replaceThis.parent) == this ==>
        && r != null && fresh(r) && i < |old(kids)| == |old(kidTrees)| && old(kids)[i] == replaceThis
        && kids == old(kids)[i := r] && kidTrees == old(kidTrees)[i := CopyTree(old(withThis.Tree()))]
    {
      hide Valid, Linked, Forest, Tree, CopyTree, Insert;
      i := 0;
      if replaceThis.parent != this { Open(); return null, 0; }
      var node := withThis.Clone();
      i := PlaceInstead(replaceThis, node);
      r := node;
    }

    method PlaceInstead(replaceThis: Node, node: Node) returns (ghost i: nat)
      requires Valid() && replaceThis in kids
      requires node.Valid() && node.nodes !! nodes && node.parts !! parts
      modifies this`firstChild, this`lastChild, this`kids, this`kidTrees, this`nodes, this`parts
      modifies kids`prev, kids`next, node`parent, node`prev, node`next
      ensures nodes <= old(nodes) + node.nodes && parts <= old(parts) + node.parts
      ensures Linked() && (Valid() <==> !node.kind.DocumentKind?)
      ensures i < |old(kids)| == |old(kidTrees)| && old(kids)[i] == replaceThis
      ensures kids == old(kids)[i := node] && kidTrees == old(kidTrees)[i := node.Tree()]
    {
      hide Valid, Linked, Forest, Tree, Insert, Without, AttributeSet.Valid;
      Open();
      Ends();
      i :| 0 <= i < |kids| && kids[i] == replaceThis;
      Exchange(replaceThis, node, i);
      Renew(old(kids), node, i);
    }

    /** The ghost side of `node` in the place of what was child `i`. */
    ghost method Renew(was: seq<Node>, node: Node, i: nat)
      requires i < |was| == |kidTrees| && Own() && Linked() && Distinct(was) && kids == was[i := node]
      requires forall k :: k in was ==> k in nodes && k != this
      requires Forest(was, kidTrees, nodes - {this}, parts - attributeSet.Repr()) && !kind.TextKind?
      requires node.Valid() && node.nodes !! nodes && node.parts !! parts
      modifies this`kidTrees, this`nodes, this`parts
      ensures nodes <= old(nodes) + node.nodes && parts <= old(parts) + node.parts
      ensures Valid() <==> !node.kind.DocumentKind?
      ensures kidTrees == old(kidTrees)[i := node.Tree()]
    {
      hide Valid, Linked, Forest, Tree, Insert, Without, AttributeSet.Valid, Distinct;
      SwapIs(was, i, node);
      SwapIs(kidTrees, i, node.Tree());
      GiveUp(was, i);
      if node.kind.DocumentKind? {
        kidTrees := Insert(kidTrees, i, node.Tree());
        nodes, parts := nodes + node.nodes, parts + node.parts;
        NoDocuments(i);
      } else {
        Adopt(node, i);
      }
    }

    lemma NoDocuments(i: nat)
      requires i < |kids|
      ensures Valid() ==> !kids[i].kind.DocumentKind?
    {
      if Valid() { KidAt(i); }
    }

    static lemma SwapIs<T>(s: seq<T>, i: nat, x: T)
      requires i < |s|
      ensures Without(s[i := x], i) == Without(s, i) && i <= |Without(s, i)|
      ensures Insert(Without(s, i), i, x) == s[i := x]
      ensures forall y :: y in s[i := x] && y != x ==> y in Without(s, i)
    {
      forall y | y in s[i := x] && y != x ensures y in Without(s, i) {
        var j :| 0 <= j < |s| && s[i := x][j] == y;
        assert Without(s, i)[if j < i then j else j - 1] == y;
      }
    }

    method RemoveChild(removeThis: Node) returns (r: bool, ghost i: nat)
      requires Valid() && (removeThis.parent == this ==> removeThis in kids)
      modifies this`firstChild, this`lastChild, this`kids, this`kidTrees, this`nodes, this`parts
      modifies kids`prev, kids`next
      ensures fresh(nodes - old(nodes)) && fresh(parts - old(parts))
      ensures Valid() && r == (old(removeThis.parent) == this)
      ensures !r ==> kids == old(kids) && kidTrees == old(kidTrees)
      ensures r ==>
        && i < |old(kids)| == |old(kidTrees)| && old(kids)[i] == removeThis
        && kids == Without(old(kids), i) && kidTrees == Without(old(kidTrees), i)
    {
      hide Valid, Linked, Forest, Tree, AttributeSet.Valid, Without;
      i := 0;
      if removeThis.parent != this { return false, 0; }
      Open();
      Ends();
      i :| 0 <= i < |kids| && kids[i] == removeThis;
      Unlink(removeThis, i);
      GiveUp(old(kids), i);
      Close();
      r := true;
    }

    /** The ghost side of deleting the subtree of what was child `i`. */
    ghost method GiveUp(was: seq<Node>, i: nat)
      requires i < |was| == |kidTrees| && Own() && Distinct(was)
      requires forall k :: k in was ==> k in nodes && k != this
      requires Forest(was, kidTrees, nodes - {this}, parts - attributeSet.Repr())
      modifies this`kidTrees, this`nodes, this`parts
      ensures Own() && forall k :: k in Without(was, i) ==> k in nodes && k != this
      ensures Forest(Without(was, i), kidTrees, nodes - {this}, parts - attributeSet.Repr())
      ensures kidTrees == Without(old(kidTrees), i)
      ensures nodes == old(nodes) - was[i].nodes && parts == old(parts) - was[i].parts
    {
      hide Valid, AttributeSet.Valid, Tree, Forest, Distinct;
      ForestRemove(was, kidTrees, nodes - {this}, parts - attributeSet.Repr(), i);
      RemovedInside(was, kidTrees, nodes - {this}, parts - attributeSet.Repr(), i);
      ghost var k := was[i];
      kidTrees := Without(kidTrees, i);
      nodes, parts := nodes - k.nodes, parts - k.parts;
      assert nodes - {this} == old(nodes - {this}) - k.nodes;
      assert parts - attributeSet.Repr() == old(parts - attributeSet.Repr()) - k.parts;
    }

    static lemma RemovedInside(ks: seq<Node>, trees: seq<Tree>, all: set<Node>, pieces: set<object>, i: nat)
      requires Forest(ks, trees, all, pieces) && i < |ks| && Distinct(ks)
      ensures ks[i].nodes <= all && ks[i].parts <= pieces
      ensures forall k :: k in Without(ks, i) ==> k in ks && k !in ks[i].nodes
    {
      hide Node.Valid, Node.Match;
      RemovePlaced(ks, i, all, pieces);
    }
  }
}
