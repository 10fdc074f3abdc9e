/** The attributes of an element: a ring of nodes through a sentinel. */
module XmlAttributes {
  import opened CStrings
  import opened XmlTree

  /** An attribute. Its name is read by ReadName or set from a `const char*`, so
      it holds no NUL; its value may. */
  class Attribute {
    var name: CString
    var value: string
    var prev: Attribute?
    var next: Attribute?

    constructor (name: CString, value: string)
      ensures this.name == name && this.value == value
    {
      this.name, this.value := name, value;
      prev, next := null, null;
    }

    /** Reading on, one recognises the sentinel by its empty name and value. */
    method Next() returns (a: Attribute?)
      requires next != null
      ensures a == if next.name == "" && next.value == "" then null else next
    {
      if next.value == "" && next.name == "" { return null; }
      a := next;
    }
  }

  /** The attribute values of the nodes of a list. */
  ghost function AttrsOf(items: seq<Attribute>): (attrs: seq<Attr>)
    reads items`name, items`value
    ensures |attrs| == |items|
    ensures forall i :: 0 <= i < |items| ==> attrs[i] == Attr(items[i].name, items[i].value)
  {
    if items == [] then [] else [Attr(items[0].name, items[0].value)] + AttrsOf(items[1..])
  }

  function Without<T>(s: seq<T>, i: nat): seq<T>
    requires i < |s|
  {
    s[..i] + s[i + 1..]
  }

  function Insert<T>(s: seq<T>, i: nat, x: T): seq<T>
    requires i <= |s|
  {
    s[..i] + [x] + s[i..]
  }

  lemma InsertWithout<T>(s: seq<T>, i: nat, x: T)
    requires i <= |s|
    ensures |Insert(s, i, x)| == |s| + 1 && Insert(s, i, x)[i] == x && Without(Insert(s, i, x), i) == s
    ensures forall y :: y in Insert(s, i, x) <==> y in s || y == x
  {}

  lemma InsertLast<T>(s: seq<T>, x: T)
    ensures Insert(s, |s|, x) == s + [x]
  {}

  lemma TakeNext<T>(s: seq<T>, i: nat)
    requires i < |s|
    ensures s[..i + 1] == s[..i] + [s[i]]
  {}

  predicate Distinct<T(==)>(s: seq<T>) {
    forall i, j :: 0 <= i < j < |s| ==> s[i] != s[j]
  }

  lemma DistinctAt<T>(s: seq<T>, i: nat, j: nat)
    requires Distinct(s) && i < |s| && j < |s| && i != j
    ensures s[i] != s[j]
  {}

  lemma DistinctInsert<T>(s: seq<T>, i: nat, x: T)
    requires Distinct(s) && i <= |s| && x !in s
    ensures var r := Insert(s, i, x);
            && |r| == |s| + 1 && Distinct(r) && r[i] == x
            && forall k :: 0 <= k < |r| && k != i ==> r[k] == s[if k < i then k else k - 1]
  {}

  lemma DistinctWithout<T>(s: seq<T>, i: nat)
    requires Distinct(s) && i < |s|
    ensures var r := Without(s, i);
            Distinct(r) && s[i] !in r && forall k :: 0 <= k < |r| ==> r[k] == s[if k < i then k else k + 1]
  {}

  /** The position of the first attribute of that name, or the length. */
  function IndexOf(attrs: seq<Attr>, name: string): (i: nat)
    ensures i <= |attrs| && (i < |attrs| <==> HasAttr(attrs, name))
    ensures i < |attrs| ==> attrs[i].name == name
    ensures !HasAttr(attrs[..i], name)
  {
    if attrs == [] then 0
    else if attrs[0].name == name then 0
    else
      assert attrs == [attrs[0]] + attrs[1..];
      var i := 1 + IndexOf(attrs[1..], name);
      assert forall k :: 1 <= k < |attrs| ==> attrs[k] == attrs[1..][k - 1];
      assert forall k :: 1 <= k < i ==> attrs[k] == attrs[1..][..i - 1][k - 1];
      i
  }

  predicate DistinctNames(attrs: seq<Attr>) {
    forall i, j :: 0 <= i < j < |attrs| ==> attrs[i].name != attrs[j].name
  }

  lemma AttrsWithout(items: seq<Attribute>, i: nat)
    requires i < |items|
    ensures AttrsOf(Without(items, i)) == Without(AttrsOf(items), i)
  {
    hide AttrsOf;
    var kept, attrs := Without(items, i), AttrsOf(items);
    forall k | 0 <= k < |kept| ensures AttrsOf(kept)[k] == Without(attrs, i)[k] {
      assert kept[k] == items[if k < i then k else k + 1];
    }
  }

  lemma NamesWithout(attrs: seq<Attr>, i: nat)
    requires i < |attrs| && DistinctNames(attrs)
    ensures DistinctNames(Without(attrs, i))
  {
    var rest := Without(attrs, i);
    forall j, k | 0 <= j < k < |rest| ensures rest[j].name != rest[k].name {
      assert rest[j] == attrs[if j < i then j else j + 1];
      assert rest[k] == attrs[if k < i then k else k + 1];
    }
  }

  /** SetAttribute on the abstract list: overwrite in place, or append. */
  function SetAttr(attrs: seq<Attr>, name: string, value: string): seq<Attr> {
    var i := IndexOf(attrs, name);
    if i < |attrs| then attrs[i := Attr(name, value)] else attrs + [Attr(name, value)]
  }

  /** Setting the attributes of a list one by one rebuilds the list. */
  lemma SetNext(attrs: seq<Attr>, i: nat)
    requires i < |attrs| && DistinctNames(attrs)
    ensures SetAttr(attrs[..i], attrs[i].name, attrs[i].value) == attrs[..i + 1]
  {
    assert !HasAttr(attrs[..i], attrs[i].name);
  }

  lemma IndexIs(attrs: seq<Attr>, i: nat)
    requires i < |attrs| && DistinctNames(attrs)
    ensures IndexOf(attrs, attrs[i].name) == i
  {}

  lemma OverwriteIs(was: seq<Attr>, now: seq<Attr>, name: string, value: string)
    requires |now| == |was| && IndexOf(was, name) < |was|
    requires forall k :: 0 <= k < |was| ==>
      now[k] == if k == IndexOf(was, name) then Attr(name, value) else was[k]
    ensures now == SetAttr(was, name, value)
    ensures DistinctNames(was) ==> DistinctNames(now)
  {
    assert forall k :: 0 <= k < |was| ==> now[k].name == was[k].name;
  }

  class AttributeSet {
    const sentinel: Attribute
    ghost var items: seq<Attribute>

    /** The i-th node of the ring, the sentinel being at both ends. */
    ghost function Node(i: int): Attribute
      reads this`items
    {
      if 0 <= i < |items| then items[i] else sentinel
    }

    /** The links run through the sentinel and the items, in both directions. */
    ghost predicate Linked()
      reads this`items, sentinel`next, sentinel`prev, items`next, items`prev
    {
      && sentinel !in items
      && Distinct(items)
      && sentinel.next == Node(0) && sentinel.prev == Node(|items| - 1)
      && (forall i :: 0 <= i < |items| ==> LinkedAt(i))
    }

    ghost predicate LinkedAt(i: nat)
      requires i < |items|
      reads this`items, items`next, items`prev
    {
      items[i].next == Node(i + 1) && items[i].prev == Node(i - 1)
    }

    ghost predicate Valid()
      reads this, sentinel, items
    {
      Linked() && sentinel.name == "" && sentinel.value == "" && DistinctNames(AttrsOf(items))
    }

    ghost function Repr(): set<object>
      reads this
    {
      {this, sentinel} + (set a | a in items)
    }

    ghost function Attrs(): seq<Attr>
      reads this, items
    {
      AttrsOf(items)
    }

    lemma NotTheSentinel()
      requires Valid()
      ensures Linked() && sentinel !in items && Distinct(items) && DistinctNames(Attrs()) && |Attrs()| == |items|
      ensures forall k :: 0 <= k < |items| ==> Attrs()[k] == Attr(items[k].name, items[k].value)
    {
      hide DistinctNames, LinkedAt;
    }

    /** What following the links from an attribute leads to. */
    lemma After(i: nat)
      requires Valid() && i < |items|
      ensures items[i].next == Node(i + 1) && sentinel.name == "" && sentinel.value == ""
    {
      assert LinkedAt(i);
    }

    lemma AttrAt(i: nat)
      requires i < |items|
      ensures |Attrs()| == |items| && Attrs()[i] == Attr(items[i].name, items[i].value)
    {}

    lemma NamesDiffer()
      requires Valid()
      ensures DistinctNames(Attrs()) && |Attrs()| == |items|
    {}

    constructor ()
      ensures Valid() && items == [] && Attrs() == [] && fresh(sentinel)
    {
      sentinel := new Attribute("", "");
      items := [];
      new;
      sentinel.next := sentinel;
      sentinel.prev := sentinel;
    }

    /** Links a node in front of the sentinel, at the end of the list. */
    method Link(addMe: Attribute)
      requires Linked() && addMe !in items && addMe != sentinel
      modifies this`items, sentinel`next, sentinel`prev, items`next, addMe`next, addMe`prev
      ensures Linked() && items == old(items) + [addMe]
    {
      ghost var was := items;
      assert |was| > 0 ==> LinkedAt(|was| - 1);
      addMe.next := sentinel;
      addMe.prev := sentinel.prev;
      sentinel.prev.next := addMe;
      sentinel.prev := addMe;
      items := items + [addMe];
      forall k | 0 <= k < |items| ensures LinkedAt(k) {
        if k < |was| {
          assert items[k] == was[k] && old(LinkedAt(k));
        }
      }
    }

    method Add(addMe: Attribute)
      requires Valid() && addMe !in items && addMe != sentinel
      requires !HasAttr(Attrs(), addMe.name)
      modifies this`items, sentinel`next, sentinel`prev, items`next, addMe`next, addMe`prev
      ensures Valid() && items == old(items) + [addMe]
      ensures Attrs() == old(Attrs()) + [Attr(addMe.name, addMe.value)]
    {
      Link(addMe);
      assert Attrs() == old(Attrs()) + [Attr(addMe.name, addMe.value)];
    }

    /** Looks the node up along the ring and takes it out. */
    method Remove(removeMe: Attribute) returns (ghost i: nat)
      requires Valid()
      modifies this`items, sentinel`next, sentinel`prev, items`next, items`prev
      ensures Valid() && i <= |old(items)|
      ensures removeMe !in old(items) ==> items == old(items) && Attrs() == old(Attrs())
      ensures removeMe in old(items) ==>
        && i < |old(items)| && old(items)[i] == removeMe
        && items == Without(old(items), i) && Attrs() == Without(old(Attrs()), i)
        && removeMe !in items && removeMe.next == null && removeMe.prev == null
    {
      var node := sentinel.next;
      i := 0;
      while node != sentinel && node != removeMe
        invariant 0 <= i <= |items| && node == Node(i)
        invariant forall k :: 0 <= k < i ==> items[k] != removeMe
        decreases |items| - i
      {
        assert LinkedAt(i);
        node := node.next;
        i := i + 1;
      }
      if node != sentinel {
        RemoveAt(node, i);
      }
    }

    method RemoveAt(node: Attribute, ghost i: nat)
      requires Valid() && i < |items| && items[i] == node
      modifies this`items, sentinel`next, sentinel`prev, items`next, items`prev
      ensures Valid() && items == Without(old(items), i) && Attrs() == Without(old(Attrs()), i)
      ensures node !in items && node.next == null && node.prev == null
    {
      hide Linked, DistinctNames, AttrsOf;
      Unlink(node, i);
      AttrsWithout(old(items), i);
      NamesWithout(old(Attrs()), i);
    }

    method Unlink(node: Attribute, ghost i: nat)
      requires Linked() && i < |items| && items[i] == node
      modifies this`items, sentinel`next, sentinel`prev, items`next, items`prev
      ensures Linked() && items == Without(old(items), i)
      ensures node !in items && node.next == null && node.prev == null
    {
      ghost var was := items;
      assert LinkedAt(i);
      node.prev.next := node.next;
      node.next.prev := node.prev;
      node.next := null;
      node.prev := null;
      items := Without(was, i);
      DistinctWithout(was, i);
      forall k | 0 <= k < |items| ensures LinkedAt(k) {
        var j := if k < i then k else k + 1;
        assert items[k] == was[j] && old(LinkedAt(j));
      }
    }

    method Find(name: CString) returns (a: Attribute?)
      requires Valid()
      ensures var i := IndexOf(Attrs(), name);
              a == if i < |items| then items[i] else null
      ensures a == null ==> !HasAttr(Attrs(), name)
      ensures a != null ==> a in items && a.name == name
    {
      a := sentinel.next;
      ghost var i := 0;
      while a != sentinel && a.name != name
        invariant 0 <= i <= |items| && a == Node(i)
        invariant forall k :: 0 <= k < i ==> items[k].name != name
        decreases |items| - i
      {
        assert LinkedAt(i);
        a := a.next;
        i := i + 1;
      }
      if a == sentinel { a := null; }
    }

    /** SetValue on the first attribute of its name. */
    method Overwrite(node: Attribute, value: string)
      requires Valid() && node in items
      modifies node`value
      ensures Valid() && Attrs() == SetAttr(old(Attrs()), node.name, value)
    {
      hide Linked, SetAttr, DistinctNames, IndexOf, AttrsOf;
      NotTheSentinel();
      ghost var was := Attrs();
      ghost var i :| 0 <= i < |items| && items[i] == node;
      IndexIs(was, i);
      node.value := value;
      assert forall k :: 0 <= k < |items| && items[k] == node ==> k == i;
      OverwriteIs(was, Attrs(), node.name, value);
    }

    /** SetAttribute: overwrites the attribute of that name or adds one. */
    method Set(name: CString, value: CString) returns (ghost added: set<Attribute>)
      requires Valid()
      modifies Repr()
      ensures Valid() && Attrs() == SetAttr(old(Attrs()), name, value)
      ensures fresh(added) && Repr() == old(Repr()) + added
    {
      hide Linked, DistinctNames, AttrsOf, IndexOf, HasAttr;
      var node := Find(name);
      if node != null {
        Overwrite(node, value);
        added := {};
      } else {
        var attrib := new Attribute(name, value);
        Add(attrib);
        added := {attrib};
      }
    }

    /** The first attribute; here the sentinel is recognised by its address. */
    method First() returns (a: Attribute?)
      requires Valid()
      ensures a == if items == [] then null else items[0]
    {
      a := if sentinel.next == sentinel then null else sentinel.next;
    }

    lemma Inside()
      ensures this in Repr() && sentinel in Repr() && forall i :: 0 <= i < |items| ==> items[i] in Repr()
    {}

    /** Sets one attribute, and reads on. The value is handed on by Value(). */
    method CopyOne(target: AttributeSet, attribute: Attribute, ghost i: nat, ghost copied: seq<Attr>)
      returns (next: Attribute?, ghost added: set<Attribute>)
      requires Valid() && target.Valid() && Repr() !! target.Repr()
      requires i < |items| && items[i] == attribute && DistinctNames(copied)
      requires i < |copied| && copied[i] == Attr(attribute.name, Shown(attribute.value))
      requires target.Attrs() == copied[..i]
      modifies target.Repr()
      ensures target.Valid() && target.Attrs() == copied[..i + 1]
      ensures fresh(added) && target.Repr() == old(target.Repr()) + added && Repr() !! target.Repr()
      ensures next ==
        if i + 1 < |items| && (items[i + 1].name != "" || items[i + 1].value != "") then items[i + 1] else null
    {
      hide Valid, Linked, AttrsOf, DistinctNames, SetAttr, Shown;
      NamesDiffer();
      SetNext(copied, i);
      After(i);
      added := target.Set(attribute.name, Shown(attribute.value));
      next := attribute.Next();
    }

    /** What the set becomes when it is copied. */
    lemma CopiesDiffer()
      requires Valid()
      ensures var copied := CopyAttrs(SeenAttrs(Attrs()));
              && |copied| <= |items| && DistinctNames(copied)
              && forall i :: 0 <= i < |copied| ==> copied[i] == Attr(items[i].name, Shown(items[i].value))
    {
      hide Linked, Shown, SeenAttrs, CopyAttrs;
      SeenIs(Attrs());
      forall i | 0 <= i < |items| ensures Shown(items[i].name) == items[i].name { ShownWhole(items[i].name); }
    }

    /** Sets every attribute that iteration shows in an empty set. */
    method CopyTo(target: AttributeSet) returns (ghost added: set<Attribute>)
      requires Valid() && target.Valid() && target.Attrs() == [] && Repr() !! target.Repr()
      modifies target.Repr()
      ensures target.Valid() && target.Attrs() == CopyAttrs(SeenAttrs(Attrs()))
      ensures fresh(added) && target.Repr() == old(target.Repr()) + added
    {
      hide Valid, Linked, AttrsOf, SeenAttrs, CopyAttrs, DistinctNames, SetAttr, Repr, Shown;
      ghost var all := Attrs();
      ghost var copied := CopyAttrs(SeenAttrs(all));
      SeenIs(all);
      CopiesDiffer();
      Inside();
      NamesDiffer();
      target.NamesDiffer();
      added := {};
      ghost var n, i := |copied|, 0;
      var attribute := First();
      while attribute != null
        invariant 0 <= i <= n && attribute == if i < n then items[i] else null
        invariant target.Valid() && target.Attrs() == copied[..i] && Repr() !! target.Repr()
        invariant fresh(added) && target.Repr() == old(target.Repr()) + added
        decreases n - i
      {
        if i + 1 < |all| { AttrAt(i + 1); }
        ghost var more;
        attribute, more := CopyOne(target, attribute, i, copied);
        added := added + more;
        i := i + 1;
      }
    }
  }
}
