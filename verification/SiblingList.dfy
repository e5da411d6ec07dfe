/** The intrusive sibling lists of XMLNode: every node links its children through their
    own fields. */
module SiblingList {
  /** The element at `i`, or null outside of the sequence. */
  function At(s: seq<Node>, i: int): Node? {
    if 0 <= i < |s| then s[i] else null
  }

  function Remove(s: seq<Node>, i: nat): (r: seq<Node>)
    requires i < |s|
    ensures |r| == |s| - 1
    ensures forall k | 0 <= k < |r| :: r[k] == if k < i then s[k] else s[k + 1]
  {
    s[..i] + s[i + 1..]
  }

  class Node {
    const document: nat
    var parent: Node?
    var prev: Node?
    var next: Node?
    var firstChild: Node?
    var lastChild: Node?
    /** The children as one sequence, and the node's place among its siblings. */
    ghost var kids: seq<Node>
    ghost var index: int

    constructor (document: nat)
      ensures this.document == document && parent == null && kids == [] && Valid({this})
    {
      this.document := document;
      parent, prev, next, firstChild, lastChild := null, null, null, null, null;
      kids, index := [], 0;
    }

    /** A node is where its parent's sequence says, between its neighbours. */
    ghost predicate Up(all: set<Node>)
      requires this in all
      reads all
    {
      if parent == null then prev == null && next == null
      else
        && parent in all && 0 <= index < |parent.kids| && parent.kids[index] == this
        && prev == At(parent.kids, index - 1) && next == At(parent.kids, index + 1)
    }

    ghost predicate Down(all: set<Node>)
      requires this in all
      reads all
    {
      && firstChild == At(kids, 0) && lastChild == At(kids, |kids| - 1)
      && forall i | 0 <= i < |kids| :: kids[i] in all && kids[i].parent == this && kids[i].index == i
    }

    /** The neighbours of a node. */
    lemma Neighbours(child: Node, all: set<Node>)
      requires this in all && child in all && Valid(all) && child.parent == this
      ensures 0 <= child.index < |kids| && kids[child.index] == child
      ensures child.prev == At(kids, child.index - 1) && child.next == At(kids, child.index + 1)
      ensures firstChild == At(kids, 0) && lastChild == At(kids, |kids| - 1)
      ensures forall n <- kids :: n in all && n.parent == this
      ensures forall k | 0 <= k < |kids| :: kids[k] in all && kids[k].index == k
      ensures child == firstChild <==> child.index == 0
      ensures child == lastChild <==> child.index == |kids| - 1
    {
      assert child.Up(all) && Down(all);
    }

    /** The pointer updates of XMLNode::Unlink, field by field. */
    method UnlinkPointers(child: Node, ghost all: set<Node>)
      requires this in all && child in all && child.parent == this
      requires child.prev == null || child.prev in all
      requires child.next == null || child.next in all
      requires child == firstChild ==> child.prev == null
      requires child == lastChild ==> child.next == null
      requires child.prev != child && child.next != child
      modifies all`parent, all`prev, all`next, this`firstChild, this`lastChild
      ensures firstChild == (if child == old(firstChild) then old(child.next) else old(firstChild))
      ensures lastChild == (if child == old(lastChild) then old(child.prev) else old(lastChild))
      ensures forall n <- all :: n.parent == if n == child then null else old(n.parent)
      ensures forall n <- all ::
                n.prev == if n == child then null else if n == old(child.next) then old(child.prev) else old(n.prev)
      ensures forall n <- all ::
                n.next == if n == child then null else if n == old(child.prev) then old(child.next) else old(n.next)
    {
      if child == firstChild {
        firstChild := firstChild.next;
      }
      if child == lastChild {
        lastChild := lastChild.prev;
      }
      if child.prev != null {
        child.prev.next := child.next;
      }
      if child.next != null {
        child.next.prev := child.prev;
      }
      child.next := null;
      child.prev := null;
      child.parent := null;
    }

    ghost method RemoveKid(i: nat, all: set<Node>)
      requires this in all && i < |kids| && forall n <- kids :: n in all
      modifies this`kids, all`index
      ensures kids == Remove(old(kids), i)
      ensures forall n <- all :: n.index == if n in old(kids)[i + 1..] then old(n.index) - 1 else old(n.index)
    {
      var rest := kids[i + 1..];
      assert forall n <- rest :: n in kids;
      kids := Remove(kids, i);
      forall n | n in rest {
        n.index := n.index - 1;
      }
    }

    /** XMLNode::Unlink: the child leaves its parent's sequence. */
    method Unlink(child: Node, ghost all: set<Node>)
      requires this in all && child in all && Valid(all) && child.parent == this
      modifies all
      ensures Valid(all) && child.parent == null && 0 <= old(child.index) < |old(kids)|
      ensures kids == Remove(old(kids), old(child.index))
      ensures forall n <- all | n != this :: n.kids == old(n.kids)
      ensures forall n <- all | n != child :: n.parent == old(n.parent)
    {
      hide Valid, Up, Down;
      Neighbours(child, all);
      ghost var i := child.index;
      UnlinkPointers(child, all);
      RemoveKid(i, all);
      StillValid(Focus(this, child, child, i, all));
    }

    // ------------------------------------------------------------- inserting

    lemma Members(all: set<Node>)
      requires this in all && Valid(all)
      ensures firstChild == At(kids, 0) && lastChild == At(kids, |kids| - 1)
      ensures forall k | 0 <= k < |kids| :: kids[k] in all && kids[k].parent == this && kids[k].index == k
    {
      assert Down(all);
    }

    lemma NotAKid(x: Node, all: set<Node>)
      requires this in all && x in all && Valid(all) && x.parent == null
      ensures x !in kids && x.prev == null && x.next == null
    {
      assert Down(all) && x.Up(all);
    }

    /** The pointer updates of InsertEndChild. */
    method LinkEnd(x: Node, ghost all: set<Node>)
      requires this in all && x in all && (lastChild == null <==> firstChild == null)
      requires lastChild == null || (lastChild in all && lastChild != x)
      requires lastChild != null ==> lastChild.next == null
      modifies all`parent, all`prev, all`next, this`firstChild, this`lastChild
      ensures firstChild == (if old(lastChild) == null then x else old(firstChild))
      ensures lastChild == x
      ensures forall n <- all :: n.parent == if n == x then this else old(n.parent)
      ensures forall n <- all ::
                n.prev == if n == x then old(lastChild) else old(n.prev)
      ensures forall n <- all ::
                n.next == if n == x then null else if n == old(lastChild) then x else old(n.next)
    {
      if lastChild != null {
        lastChild.next := x;
        x.prev := lastChild;
        lastChild := x;
        x.next := null;
      } else {
        firstChild, lastChild := x, x;
        x.prev := null;
        x.next := null;
      }
      x.parent := this;
    }

    /** The pointer updates of InsertFirstChild. */
    method LinkFirst(x: Node, ghost all: set<Node>)
      requires this in all && x in all && (lastChild == null <==> firstChild == null)
      requires firstChild == null || (firstChild in all && firstChild != x)
      requires x.prev == null && x.next == null
      modifies all`parent, all`prev, all`next, this`firstChild, this`lastChild
      ensures firstChild == x
      ensures lastChild == (if old(firstChild) == null then x else old(lastChild))
      ensures forall n <- all :: n.parent == if n == x then this else old(n.parent)
      ensures forall n <- all ::
                n.prev == if n == x then null else if n == old(firstChild) then x else old(n.prev)
      ensures forall n <- all ::
                n.next == if n == x then old(firstChild) else old(n.next)
    {
      if firstChild != null {
        firstChild.prev := x;
        x.next := firstChild;
        firstChild := x;
        x.prev := null;
      } else {
        firstChild, lastChild := x, x;
        x.prev := null;
        x.next := null;
      }
      x.parent := this;
    }

    /** The pointer updates of InsertAfterChild. */
    method LinkAfter(afterThis: Node, x: Node, ghost all: set<Node>)
      requires this in all && x in all && afterThis in all && afterThis != x && afterThis.next != null
      requires afterThis.next in all && afterThis.next != x && afterThis.next != afterThis
      modifies all`parent, all`prev, all`next, this`firstChild, this`lastChild
      ensures firstChild == old(firstChild)
      ensures lastChild == old(lastChild)
      ensures forall n <- all :: n.parent == if n == x then this else old(n.parent)
      ensures forall n <- all ::
                n.prev == if n == x then afterThis else if n == old(afterThis.next) then x else old(n.prev)
      ensures forall n <- all ::
                n.next == if n == x then old(afterThis.next) else if n == afterThis then x else old(n.next)
    {
      x.prev := afterThis;
      x.next := afterThis.next;
      afterThis.next.prev := x;
      afterThis.next := x;
      x.parent := this;
    }

    ghost method AddKid(x: Node, i: nat, all: set<Node>)
      requires this in all && x in all && i <= |kids| && x !in kids && forall n <- kids :: n in all
      modifies this`kids, all`index
      ensures kids == Insert(old(kids), i, x)
      ensures forall n <- all ::
                n.index == if n == x then i else if n in old(kids)[i..] then old(n.index) + 1 else old(n.index)
    {
      var rest := kids[i..];
      assert forall n <- rest :: n in kids;
      kids := Insert(kids, i, x);
      forall n | n in rest {
        n.index := n.index + 1;
      }
      x.index := i;
    }

    method AppendKid(x: Node, ghost all: set<Node>)
      requires this in all && x in all && Valid(all) && x.parent == null
      modifies all
      ensures Valid(all) && x.parent == this && kids == old(kids) + [x]
      ensures forall n <- all | n != this :: n.kids == old(n.kids)
      ensures forall n <- all | n != x :: n.parent == old(n.parent)
    {
      hide Valid, Up, Down;
      Members(all);
      NotAKid(x, all);
      LastHasNoNext(all);
      ghost var i := |kids|;
      LinkEnd(x, all);
      AddKid(x, i, all);
      InsertedValid(Focus(this, x, x, i, all));
      assert Insert(old(kids), i, x) == old(kids) + [x];
    }

    method PrependKid(x: Node, ghost all: set<Node>)
      requires this in all && x in all && Valid(all) && x.parent == null
      modifies all
      ensures Valid(all) && x.parent == this && kids == [x] + old(kids)
      ensures forall n <- all | n != this :: n.kids == old(n.kids)
      ensures forall n <- all | n != x :: n.parent == old(n.parent)
    {
      hide Valid, Up, Down;
      Members(all);
      NotAKid(x, all);
      LinkFirst(x, all);
      AddKid(x, 0, all);
      InsertedValid(Focus(this, x, x, 0, all));
      assert Insert(old(kids), 0, x) == [x] + old(kids);
    }

    lemma LastHasNoNext(all: set<Node>)
      requires this in all && Valid(all)
      ensures lastChild != null ==> lastChild.next == null
    {
      assert Down(all);
      if lastChild != null {
        assert lastChild.Up(all);
      }
    }

    // --------------------------------------------------------- the operations

    /** InsertChildPreamble: a node that has a parent leaves it. */
    method Preamble(addThis: Node, ghost all: set<Node>)
      requires this in all && addThis in all && Valid(all)
      modifies all
      ensures Valid(all) && addThis.parent == null
      ensures old(addThis.parent) != null ==> old(addThis.parent) in all
      ensures forall n <- all :: n.kids == old(n.Without(addThis))
      ensures forall n <- all | n != addThis :: n.parent == old(n.parent)
    {
      ParentThere(addThis, all);
      if addThis.parent != null {
        addThis.parent.Unlink(addThis, all);
      }
    }

    lemma ParentThere(n: Node, all: set<Node>)
      requires n in all && Valid(all)
      ensures n.parent != null ==> n.parent in all && 0 <= n.index < |n.parent.kids| && n.parent.kids[n.index] == n
    {
      assert n.Up(all);
    }

    /** The children of this node without `x`. */
    ghost function Without(x: Node): seq<Node>
      reads this, x
    {
      if x.parent == this && 0 <= x.index < |kids| then Remove(kids, x.index) else kids
    }

    method InsertEndChild(addThis: Node, ghost all: set<Node>) returns (r: Node?)
      requires this in all && addThis in all && Valid(all)
      modifies all
      ensures Valid(all) && (r == null <==> addThis.document != document) && (r != null ==> r == addThis)
      ensures r == null ==> forall n <- all :: n.kids == old(n.kids)
      ensures r != null ==> kids == old(Without(addThis)) + [addThis] && addThis.parent == this
      ensures r != null ==> forall n <- all | n != this :: n.kids == old(n.Without(addThis))
      ensures forall n <- all | n != addThis :: n.parent == old(n.parent)
    {
      if addThis.document != document {
        return null;
      }
      hide Valid, Without;
      Preamble(addThis, all);
      AppendKid(addThis, all);
      r := addThis;
    }

    method InsertFirstChild(addThis: Node, ghost all: set<Node>) returns (r: Node?)
      requires this in all && addThis in all && Valid(all)
      modifies all
      ensures Valid(all) && (r == null <==> addThis.document != document) && (r != null ==> r == addThis)
      ensures r == null ==> forall n <- all :: n.kids == old(n.kids)
      ensures r != null ==> kids == [addThis] + old(Without(addThis)) && addThis.parent == this
      ensures r != null ==> forall n <- all | n != this :: n.kids == old(n.Without(addThis))
      ensures forall n <- all | n != addThis :: n.parent == old(n.parent)
    {
      if addThis.document != document {
        return null;
      }
      hide Valid, Without;
      Preamble(addThis, all);
      PrependKid(addThis, all);
      r := addThis;
    }

    /** InsertAfterChild. When the node to be moved is the last child and already comes right
        after the other, taking it out leaves nothing to link it in front of, and the source
        follows a null pointer: exactly then the result is Broken. */
    method InsertAfterChild(afterThis: Node, addThis: Node, ghost all: set<Node>) returns (r: Outcome)
      requires this in all && addThis in all && afterThis in all && Valid(all)
      modifies all
      ensures Valid(all)
      ensures r == Refused <==> addThis.document != document || old(afterThis.parent) != this
      ensures r == Broken <==>
                addThis.document == document && old(afterThis.parent) == this
                && old(afterThis.next) == addThis && old(addThis.next) == null
      ensures r == Refused || afterThis == addThis ==> forall n <- all :: n.kids == old(n.kids)
      ensures r == Done && afterThis != addThis ==>
                && 0 <= afterThis.index < |old(Without(addThis))|
                && old(Without(addThis))[afterThis.index] == afterThis
                && kids == Insert(old(Without(addThis)), afterThis.index + 1, addThis)
      ensures r == Done && afterThis != addThis ==>
                forall n <- all | n != this :: n.kids == old(n.Without(addThis))
    {
      hide Valid, Without, Node.Up, Node.Down, Insert;
      if addThis.document != document || afterThis.parent != this {
        return Refused;
      }
      if afterThis == addThis {
        OwnNext(afterThis, all);
        return Done;
      }
      var broken := InsertAfterOther(afterThis, addThis, all);
      r := if broken then Broken else Done;
    }

    method InsertAfterOther(afterThis: Node, addThis: Node, ghost all: set<Node>) returns (broken: bool)
      requires this in all && addThis in all && afterThis in all && Valid(all)
      requires addThis.document == document && afterThis.parent == this && afterThis != addThis
      modifies all
      ensures Valid(all)
      ensures broken <==> old(afterThis.next) == addThis && old(addThis.next) == null
      ensures !broken ==>
                && 0 <= afterThis.index < |old(Without(addThis))|
                && old(Without(addThis))[afterThis.index] == afterThis
                && kids == Insert(old(Without(addThis)), afterThis.index + 1, addThis)
      ensures !broken ==> forall n <- all | n != this :: n.kids == old(n.Without(addThis))
    {
      hide Valid, Without, Node.Up, Node.Down, Insert;
      ghost var k := Place(afterThis, addThis, all);
      if afterThis.next == null {
        EndAfter(afterThis, addThis, k, all);
        broken := false;
      } else {
        broken := MoveAfter(afterThis, addThis, k, all);
      }
    }

    /** Behind the last child. */
    method EndAfter(afterThis: Node, addThis: Node, ghost k: nat, ghost all: set<Node>)
      requires this in all && addThis in all && afterThis in all && Valid(all) && addThis.document == document
      requires k == |Without(addThis)| - 1 && Without(addThis)[k] == afterThis
      modifies all
      ensures Valid(all) && afterThis.index == k && kids == Insert(old(Without(addThis)), k + 1, addThis)
      ensures forall n <- all | n != this :: n.kids == old(n.Without(addThis))
    {
      hide Valid, Without, Node.Up, Node.Down, Insert;
      ghost var rest := Without(addThis);
      var added := InsertEndChild(addThis, all);
      assert kids[k] == afterThis;
      IndexIs(afterThis, k, all);
      AppendedAt(rest, addThis);
    }

    method MoveAfter(afterThis: Node, addThis: Node, ghost k: nat, ghost all: set<Node>) returns (broken: bool)
      requires this in all && addThis in all && afterThis in all && Valid(all)
      requires k < |Without(addThis)| && Without(addThis)[k] == afterThis
      modifies all
      ensures Valid(all) && (broken <==> k == |old(Without(addThis))| - 1)
      ensures !broken ==> afterThis.index == k && kids == Insert(old(Without(addThis)), k + 1, addThis)
      ensures !broken ==> forall n <- all | n != this :: n.kids == old(n.Without(addThis))
    {
      hide Valid, Without, Node.Up, Node.Down, Insert;
      Preamble(addThis, all);
      IndexIs(afterThis, k, all);
      NextIs(afterThis, all);
      if afterThis.next == null {
        return true;
      }
      KidAfter(afterThis, addThis, all);
      IndexIs(afterThis, k, all);
      broken := false;
    }

    lemma OwnNext(n: Node, all: set<Node>)
      requires n in all && Valid(all) && n.parent != null
      ensures n.next != n
    {
      assert n.Up(all) && n.parent.Down(all);
    }

    /** Where `afterThis` is once `addThis` has left, and when it is then the last one. */
    lemma Place(afterThis: Node, addThis: Node, all: set<Node>) returns (k: nat)
      requires this in all && afterThis in all && addThis in all && Valid(all)
      requires afterThis.parent == this && afterThis != addThis
      ensures k < |Without(addThis)| && Without(addThis)[k] == afterThis
      ensures afterThis.next == null ==> k == |Without(addThis)| - 1
      ensures k == |Without(addThis)| - 1
              <==> afterThis.next == null || (afterThis.next == addThis && addThis.next == null)
    {
      assert afterThis.Up(all) && addThis.Up(all) && Down(all);
      var j := afterThis.index;
      k := j;
      if addThis.parent == this {
        assert addThis.index != j;
        RemoveAt(kids, addThis.index, j);
        k := if j < addThis.index then j else j - 1;
      } else {
        assert addThis !in kids;
        assert afterThis.next != addThis;
      }
    }

    lemma IndexIs(n: Node, k: nat, all: set<Node>)
      requires this in all && n in all && Valid(all) && k < |kids| && kids[k] == n
      ensures n.index == k && n.parent == this
    {
      assert Down(all);
    }

    lemma NextIs(n: Node, all: set<Node>)
      requires this in all && n in all && Valid(all) && n.parent == this
      ensures 0 <= n.index < |kids| && (n.next == null <==> n.index == |kids| - 1)
      ensures n.next == At(kids, n.index + 1) && (n.next != null ==> n.next in all && n.next != n)
    {
      assert n.Up(all) && Down(all);
    }

    method KidAfter(afterThis: Node, x: Node, ghost all: set<Node>)
      requires this in all && x in all && afterThis in all && Valid(all) && x.parent == null
      requires afterThis.parent == this && afterThis.next != null && 0 <= afterThis.index < |kids|
      modifies all
      ensures Valid(all) && x.parent == this && kids == Insert(old(kids), old(afterThis.index) + 1, x)
      ensures 0 <= old(afterThis.index) < |kids| && kids[old(afterThis.index)] == afterThis
      ensures forall n <- all | n != this :: n.kids == old(n.kids)
      ensures forall n <- all | n != x :: n.parent == old(n.parent)
    {
      hide Valid, Node.Up, Node.Down;
      Members(all);
      NotAKid(x, all);
      NextIs(afterThis, all);
      ParentThere(afterThis, all);
      ghost var i := afterThis.index + 1;
      assert afterThis == At(kids, i - 1) && afterThis.next == At(kids, i);
      LinkAfter(afterThis, x, all);
      AddKid(x, i, all);
      InsertedValid(Focus(this, x, x, i, all));
    }

    method DeleteChild(node: Node, ghost all: set<Node>)
      requires this in all && node in all && Valid(all) && node.parent == this
      modifies all
      ensures Valid(all) && node.parent == null && node.prev == null && node.next == null
      ensures 0 <= old(node.index) < |old(kids)| && kids == Remove(old(kids), old(node.index))
      ensures forall n <- all | n != this :: n.kids == old(n.kids)
    {
      Unlink(node, all);
      NotAKid(node, all);
    }

  }

  lemma AppendedAt(s: seq<Node>, x: Node)
    ensures Insert(s, |s|, x) == s + [x]
  {
  }

  lemma RemoveAt(s: seq<Node>, i: nat, j: nat)
    requires i < |s| && j < |s| && i != j
    ensures
      var r, k := Remove(s, i), if j < i then j else j - 1;
      && k < |r| && r[k] == s[j]
      && At(r, k - 1) == (if j == i + 1 then At(s, i - 1) else At(s, j - 1))
      && At(r, k + 1) == (if j == i - 1 then At(s, i + 1) else At(s, j + 1))
  {
  }

  predicate Distinct(s: seq<Node>) {
    forall a, b | 0 <= a < |s| && 0 <= b < |s| && s[a] == s[b] :: a == b
  }

  lemma InTail(s: seq<Node>, i: nat, j: nat)
    requires i <= |s| && j < |s| && Distinct(s)
    ensures s[j] in s[i..] <==> j >= i
  {
    if j >= i {
      assert s[i..][j - i] == s[j];
    }
    assert forall k | 0 <= k < |s| - i :: s[i..][k] == s[i + k];
  }

  /** A change at parent `p` and child `x`, place `i`, as it is seen from node `n`. */
  datatype Focus = Focus(p: Node, x: Node, n: Node, i: nat, all: set<Node>)

  datatype Outcome = Refused | Done | Broken

  /** What linking in changes, field by field. */
  twostate predicate Inserted(p: Node, x: Node, i: nat, all: set<Node>)
    requires p in all && x in all
    reads all
  {
    && i <= |old(p.kids)| && x !in old(p.kids) && p.kids == Insert(old(p.kids), i, x)
    && p.firstChild == (if i == 0 then x else old(p.firstChild))
    && p.lastChild == (if i == |old(p.kids)| then x else old(p.lastChild))
    && forall n <- all ::
      && n.parent == (if n == x then p else old(n.parent))
      && n.prev == (if n == x then At(old(p.kids), i - 1) else if n == At(old(p.kids), i) then x else old(n.prev))
      && n.next == (if n == x then At(old(p.kids), i) else if n == At(old(p.kids), i - 1) then x else old(n.next))
      && n.index == (if n == x then i else if n in old(p.kids)[i..] then old(n.index) + 1 else old(n.index))
      && (n != p ==> n.kids == old(n.kids) && n.firstChild == old(n.firstChild) && n.lastChild == old(n.lastChild))
  }

  function Insert(s: seq<Node>, i: nat, x: Node): (r: seq<Node>)
    requires i <= |s|
    ensures |r| == |s| + 1
    ensures forall k | 0 <= k < |r| :: r[k] == if k < i then s[k] else if k == i then x else s[k - 1]
  {
    s[..i] + [x] + s[i..]
  }

  lemma InsertAt(s: seq<Node>, i: nat, x: Node, j: nat)
    requires i <= |s| && j < |s|
    ensures
      var r, k := Insert(s, i, x), if j < i then j else j + 1;
      && k < |r| && r[k] == s[j]
      && At(r, k - 1) == (if j == i then x else At(s, j - 1))
      && At(r, k + 1) == (if j == i - 1 then x else At(s, j + 1))
  {
  }



  /** What Unlink changes, field by field. */
  twostate predicate Unlinked(p: Node, child: Node, all: set<Node>)
    requires p in all && child in all
    reads all
  {
    && 0 <= old(child.index) < |old(p.kids)| && p.kids == Remove(old(p.kids), old(child.index))
    && p.firstChild == (if child == old(p.firstChild) then old(child.next) else old(p.firstChild))
    && p.lastChild == (if child == old(p.lastChild) then old(child.prev) else old(p.lastChild))
    && forall n <- all ::
      && n.parent == (if n == child then null else old(n.parent))
      && n.prev == (if n == child then null else if n == old(child.next) then old(child.prev) else old(n.prev))
      && n.next == (if n == child then null else if n == old(child.prev) then old(child.next) else old(n.next))
      && n.index == (if n in old(p.kids)[old(child.index) + 1..] then old(n.index) - 1 else old(n.index))
      && (n != p ==> n.kids == old(n.kids) && n.firstChild == old(n.firstChild) && n.lastChild == old(n.lastChild))
  }

  twostate lemma InsertedValid(f: Focus)
    requires f.p in f.all && f.x in f.all && old(Valid(f.all)) && old(f.x.parent) == null
    requires Inserted(f.p, f.x, f.i, f.all)
    ensures Valid(f.all)
  {
    var p, x, all := f.p, f.x, f.all;
    forall n | n in all ensures n.Up(all) && n.Down(all) {
      hide Node.Up, Node.Down, Inserted;
      InsertedUp(Focus(p, x, n, f.i, all));
      InsertedDown(Focus(p, x, n, f.i, all));
    }
  }

  twostate lemma InsertedUp(f: Focus)
    requires f.p in f.all && f.x in f.all && f.n in f.all && old(f.x.parent) == null
    requires old(f.n.Up(f.all)) && old(f.p.Down(f.all)) && Inserted(f.p, f.x, f.i, f.all)
    ensures f.n.Up(f.all)
  {
    if f.n == f.x {
      assert f.p.kids[f.i] == f.x;
    } else if old(f.n.parent) == f.p {
      InsertedSiblingUp(f);
    } else {
      InsertedStrangerUp(f);
    }
  }

  twostate lemma InsertedStrangerUp(f: Focus)
    requires f.p in f.all && f.x in f.all && f.n in f.all && old(f.x.parent) == null
    requires f.n != f.x && old(f.n.parent) != f.p
    requires old(f.n.Up(f.all)) && old(f.p.Down(f.all)) && Inserted(f.p, f.x, f.i, f.all)
    ensures f.n.Up(f.all)
  {
    var i: int := f.i;
    var was := old(f.p.kids);
    assert f.n !in was;
    assert forall y <- was[i..] :: y in was;
    assert f.n != At(was, i) && f.n != At(was, i - 1);
  }

  twostate lemma InsertedSiblingUp(f: Focus)
    requires f.p in f.all && f.x in f.all && f.n in f.all && old(f.x.parent) == null && old(f.n.parent) == f.p
    requires old(f.n.Up(f.all)) && old(f.p.Down(f.all)) && Inserted(f.p, f.x, f.i, f.all)
    ensures f.n.Up(f.all)
  {
    var p, x, n, all := f.p, f.x, f.n, f.all;
    var i: int := f.i;
    hide Insert, At;
    var j, was := old(n.index), old(p.kids);
    var k := if j < i then j else j + 1;
    assert was[j] == n;
    InsertAt(was, i, x, j);
    assert Distinct(was);
    InTail(was, i, j);
    AtNeighbour(was, i, j);
    AtNeighbour(was, i - 1, j);
    assert n.index == k && n.parent == p && p.kids == Insert(was, i, x);
    assert n.prev == At(p.kids, k - 1) && n.next == At(p.kids, k + 1);
  }

  twostate lemma InsertedDown(f: Focus)
    requires f.p in f.all && f.x in f.all && f.n in f.all && old(f.x.parent) == null
    requires old(f.n.Down(f.all)) && old(f.p.Down(f.all)) && Inserted(f.p, f.x, f.i, f.all)
    ensures f.n.Down(f.all)
  {
    var p, x, n, all := f.p, f.x, f.n, f.all;
    var was := old(p.kids);
    if n == p {
      KidsMadeRoom(f);
    } else {
      assert forall y <- was[f.i..] :: y in was;
      forall k | 0 <= k < |n.kids| ensures n.kids[k] in all && n.kids[k].parent == n && n.kids[k].index == k {
        assert old(n.kids[k].parent) == n;
        assert n.kids[k] !in was;
      }
    }
  }

  twostate lemma KidsMadeRoom(f: Focus)
    requires f.p in f.all && f.x in f.all && old(f.x.parent) == null
    requires old(f.p.Down(f.all)) && Inserted(f.p, f.x, f.i, f.all)
    ensures f.p.Down(f.all)
  {
    hide Distinct;
    var p, x, all := f.p, f.x, f.all;
    var was := old(p.kids);
    OldDistinct(was);
    forall k | 0 <= k < |p.kids| ensures p.kids[k] in all && p.kids[k].parent == p && p.kids[k].index == k {
      if k != f.i {
        var j := if k < f.i then k else k - 1;
        assert p.kids[k] == was[j] && was[j] in all;
        assert old(was[j].index) == j && old(was[j].parent) == p;
        InTail(was, f.i, j);
      }
    }
  }

  twostate lemma StillValid(f: Focus)
    requires f.p in f.all && f.x in f.all && old(Valid(f.all)) && old(f.x.parent) == f.p
    requires Unlinked(f.p, f.x, f.all)
    ensures Valid(f.all)
  {
    var p, x, all := f.p, f.x, f.all;
    forall n | n in all ensures n.Up(all) && n.Down(all) {
      hide Node.Up, Node.Down, Unlinked;
      StillUp(Focus(p, x, n, f.i, all));
      StillDown(Focus(p, x, n, f.i, all));
    }
  }

  twostate lemma StillUp(f: Focus)
    requires f.p in f.all && f.x in f.all && f.n in f.all && old(f.x.parent) == f.p
    requires old(f.n.Up(f.all)) && old(f.x.Up(f.all)) && old(f.p.Down(f.all)) && Unlinked(f.p, f.x, f.all)
    ensures f.n.Up(f.all)
  {
    if f.n != f.x {
      if old(f.n.parent) == f.p {
        SiblingUp(f);
      } else {
        StrangerUp(f);
      }
    }
  }

  /** A node with another parent, or none, stays where it is. */
  twostate lemma StrangerUp(f: Focus)
    requires f.p in f.all && f.x in f.all && f.n in f.all && old(f.x.parent) == f.p && f.n != f.x
    requires old(f.n.parent) != f.p
    requires old(f.n.Up(f.all)) && old(f.x.Up(f.all)) && old(f.p.Down(f.all)) && Unlinked(f.p, f.x, f.all)
    ensures f.n.Up(f.all)
  {
    var i, was := old(f.x.index), old(f.p.kids);
    assert f.n !in was;
    assert forall y <- was[i + 1..] :: y in was;
    assert f.n != old(f.x.next) && f.n != old(f.x.prev);
  }

  twostate lemma SiblingUp(f: Focus)
    requires f.p in f.all && f.x in f.all && f.n in f.all && old(f.x.parent) == f.p && f.n != f.x
    requires old(f.n.parent) == f.p
    requires old(f.n.Up(f.all)) && old(f.x.Up(f.all)) && old(f.p.Down(f.all)) && Unlinked(f.p, f.x, f.all)
    ensures f.n.Up(f.all)
  {
    var p, x, n, all := f.p, f.x, f.n, f.all;
    hide Remove, At;
    var i, j, was := old(x.index), old(n.index), old(p.kids);
    var k := if j < i then j else j - 1;
    assert was[j] == n && was[i] == x;
    RemoveAt(was, i, j);
    assert Distinct(was);
    InTail(was, i + 1, j);
    AtNeighbour(was, i + 1, j);
    AtNeighbour(was, i - 1, j);
    assert n.index == k && n.parent == p && p.kids == Remove(was, i);
    assert n.prev == At(p.kids, k - 1) && n.next == At(p.kids, k + 1);
  }

  twostate lemma StillDown(f: Focus)
    requires f.p in f.all && f.x in f.all && f.n in f.all && old(f.x.parent) == f.p
    requires old(f.n.Down(f.all)) && old(f.x.Up(f.all)) && old(f.p.Down(f.all)) && Unlinked(f.p, f.x, f.all)
    ensures f.n.Down(f.all)
  {
    var p, x, n, all := f.p, f.x, f.n, f.all;
    var i, was := old(x.index), old(p.kids);
    if n == p {
      KidsStillThere(f);
    } else {
      assert forall y <- was[i + 1..] :: y in was;
      forall k | 0 <= k < |n.kids| ensures n.kids[k] in all && n.kids[k].parent == n && n.kids[k].index == k {
        assert old(n.kids[k].parent) == n;
        assert n.kids[k] !in was;
      }
    }
  }

  twostate lemma KidsStillThere(f: Focus)
    requires f.p in f.all && f.x in f.all && old(f.x.parent) == f.p
    requires old(f.x.Up(f.all)) && old(f.p.Down(f.all)) && Unlinked(f.p, f.x, f.all)
    ensures f.p.Down(f.all)
  {
    hide Distinct;
    OldDistinct(old(f.p.kids));
    EndsRight(f);
    forall k | 0 <= k < |f.p.kids|
      ensures f.p.kids[k] in f.all && f.p.kids[k].parent == f.p && f.p.kids[k].index == k
    {
      KidMoved(Focus(f.p, f.x, f.n, k, f.all));
    }
  }

  twostate lemma EndsRight(f: Focus)
    requires f.p in f.all && f.x in f.all && old(f.x.parent) == f.p && Distinct(old(f.p.kids))
    requires old(f.x.Up(f.all)) && old(f.p.Down(f.all)) && Unlinked(f.p, f.x, f.all)
    ensures f.p.firstChild == At(f.p.kids, 0) && f.p.lastChild == At(f.p.kids, |f.p.kids| - 1)
  {
    var i, was := old(f.x.index), old(f.p.kids);
    AtNeighbour(was, 0, i);
    AtNeighbour(was, |was| - 1, i);
    assert was[i] == f.x && f.p.kids == Remove(was, i);
  }

  twostate lemma KidMoved(f: Focus)
    requires f.p in f.all && f.x in f.all && old(f.x.parent) == f.p && Distinct(old(f.p.kids))
    requires old(f.x.Up(f.all)) && old(f.p.Down(f.all)) && Unlinked(f.p, f.x, f.all) && f.i < |f.p.kids|
    ensures f.p.kids[f.i] in f.all && f.p.kids[f.i].parent == f.p && f.p.kids[f.i].index == f.i
  {
    hide At;
    var i, was := old(f.x.index), old(f.p.kids);
    var j := if f.i < i then f.i else f.i + 1;
    assert was[i] == f.x && f.p.kids == Remove(was, i);
    assert f.p.kids[f.i] == was[j];
    assert old(f.p.kids[j]) in f.all && old(f.p.kids[j].index) == j && old(f.p.kids[j].parent) == f.p;
    InTail(was, i + 1, j);
  }

  twostate lemma OldDistinct(s: seq<Node>)
    requires forall k | 0 <= k < |s| :: old(s[k].index) == k
    ensures Distinct(s)
  {
  }

  /** Only a neighbour is what a neighbour's pointer points to. */
  lemma AtNeighbour(s: seq<Node>, i: int, j: nat)
    requires j < |s| && Distinct(s)
    ensures s[j] == At(s, i) <==> j == i
  {
  }

  /** All nodes are linked up as their sequences say. */
  ghost predicate Valid(all: set<Node>)
    reads all
  {
    forall n <- all :: n.Up(all) && n.Down(all)
  }

  /** No sequence holds a node twice, and no two sequences share one. */
  lemma OnePlace(all: set<Node>, p: Node, i: nat, q: Node, j: nat)
    requires p in all && q in all && Valid(all)
    requires i < |p.kids| && j < |q.kids| && p.kids[i] == q.kids[j]
    ensures p == q && i == j
  {
    assert p.Down(all) && q.Down(all);
  }

  lemma FreshNodesValid(p: Node, a: Node, b: Node)
    requires Valid({p}) && Valid({a}) && Valid({b})
    requires p.parent == null && a.parent == null && b.parent == null
    requires p.kids == [] && a.kids == [] && b.kids == []
    ensures Valid({p, a, b})
  {
    assert p in {p} && a in {a} && b in {b};
    assert p.Up({p}) && p.Down({p}) && a.Up({a}) && a.Down({a}) && b.Up({b}) && b.Down({b});
  }

  method ThreeNodes(document: nat) returns (p: Node, a: Node, b: Node)
    ensures fresh({p, a, b}) && p != a && a != b && b != p && Valid({p, a, b})
    ensures p.document == a.document == b.document == document
    ensures p.kids == [] && a.parent == null && b.parent == null
  {
    p := new Node(document);
    a := new Node(document);
    b := new Node(document);
    FreshNodesValid(p, a, b);
  }

  method TwoChildren(document: nat) returns (p: Node, a: Node, b: Node)
    ensures fresh({p, a, b}) && Valid({p, a, b}) && p.kids == [a, b]
    ensures p.document == a.document == b.document == document
  {
    hide Valid;
    p, a, b := ThreeNodes(document);
    var first := p.InsertEndChild(a, {p, a, b});
    assert p.kids == [a] && b.parent == null;
    var second := p.InsertEndChild(b, {p, a, b});
    assert p.kids == [a, b];
  }

  /** A state in which InsertAfterChild breaks: of two children, the last is to be moved
      behind the first, where it already is. */
  method LastBehindFirst(document: nat) returns (r: Outcome)
    ensures r == Broken
  {
    hide Valid, Node.Without;
    var p, a, b := TwoChildren(document);
    ghost var all := {p, a, b};
    p.IndexIs(a, 0, all);
    p.NextIs(a, all);
    p.IndexIs(b, 1, all);
    p.NextIs(b, all);
    r := p.InsertAfterChild(a, b, all);
  }
}
