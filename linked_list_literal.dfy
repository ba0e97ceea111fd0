/**
 A model of the template class JJC::LinkedList<T> of LinkedListLiteral.h: a doubly-linked
 list that owns its nodes, keeps a head pointer, a tail pointer and a size counter, and
 applies two registered callbacks to every element from head to tail.

 The public view of a list is the ghost sequence Contents (the data from head to tail);
 the ghost sequence nodes lists the node objects in the same order, and Valid() ties the
 real fields (firstNode, lastNode, llSize and the prev/next links) to both.
 */
module LinkedListLiteral {

  /** The error the source reports with its "non-fatal error: out of bounds" message. */
  datatype Error = OutOfBounds

  datatype Result<T> = Ok(value: T) | Err(error: Error)

  datatype Option<T> = None | Some(value: T)

  /** Applies f to every element, keeping the order. */
  function MapSeq<T>(f: T -> T, s: seq<T>): (r: seq<T>)
    ensures |r| == |s|
    ensures forall i :: 0 <= i < |s| ==> r[i] == f(s[i])
  {
    if s == [] then [] else [f(s[0])] + MapSeq(f, s[1..])
  }

  /** The elements of s from last to first. */
  function Reversed<T>(s: seq<T>): (r: seq<T>)
    ensures |r| == |s|
    ensures forall i :: 0 <= i < |s| ==> r[i] == s[|s| - 1 - i]
  {
    if s == [] then [] else Reversed(s[1..]) + [s[0]]
  }

  /** One cell of the chain. The C++ constructor leaves prev and next uninitialised;
      here they start out null and the list sets them right after allocation. */
  class Node<T> {
    var prev: Node?<T>
    var next: Node?<T>
    var datum: T

    constructor (d: T)
      ensures datum == d && prev == null && next == null
    {
      datum := d;
      prev := null;
      next := null;
    }
  }

  class LinkedList<T> {
    // public view of the class:
    ghost var Contents: seq<T>      // the data from head to tail
    ghost var nodes: seq<Node<T>>   // the nodes from head to tail
    ghost var Repr: set<object>     // this object and the nodes it owns

    // the fields of the C++ class:
    var callbackPtr: T -> T         // callback by pointer, as the new value it writes
    var callbackLit: T -> ()        // callback by value; its effects lie outside the model
    var callbackPtrSet: bool
    var callbackLitSet: bool
    var llSize: int
    var userNodeSet: bool
    var firstNode: Node?<T>
    var lastNode: Node?<T>
    var userNode: Node?<T>

    /** The shape of the chain: every node is owned, no node occurs twice, the size
        counter counts the nodes, the ends are the first and last node (null when
        empty), the head's prev and the tail's next are null and prev mirrors next. */
    ghost predicate Linked()
      reads this, Repr
    {
      && this in Repr
      && (forall i :: 0 <= i < |nodes| ==> nodes[i] in Repr)
      && (forall i, j :: 0 <= i < j < |nodes| ==> nodes[i] != nodes[j])
      && llSize == |nodes|
      && (|nodes| == 0 ==> firstNode == null && lastNode == null)
      && (|nodes| > 0 ==>
            && firstNode == nodes[0] && lastNode == nodes[|nodes| - 1]
            && nodes[0].prev == null && nodes[|nodes| - 1].next == null)
      && (forall i, j :: 0 <= i && j == i + 1 < |nodes| ==> nodes[i].next == nodes[j] && nodes[j].prev == nodes[i])
    }

    /** The object invariant: a well-linked chain whose data is Contents. No operation
        of the class ever sets user_node_set, so it stays false. */
    ghost predicate Valid()
      reads this, Repr
    {
      && Linked()
      && |Contents| == |nodes|
      && (forall i :: 0 <= i < |nodes| ==> nodes[i].datum == Contents[i])
      && !userNodeSet
    }

    /** The node k steps along next from n (the walk stops at null). */
    ghost function Walk(n: Node?<T>, k: nat): Node?<T>
      reads this, Repr
    {
      if k == 0 || n == null || n !in Repr then n else Walk(n.next, k - 1)
    }

    /** The node k steps along prev from n. */
    ghost function WalkBack(n: Node?<T>, k: nat): Node?<T>
      reads this, Repr
    {
      if k == 0 || n == null || n !in Repr then n else WalkBack(n.prev, k - 1)
    }

    /** The data of at most k nodes met walking along next from n. */
    ghost function ReadForward(n: Node?<T>, k: nat): seq<T>
      reads this, Repr
    {
      if k == 0 || n == null || n !in Repr then [] else [n.datum] + ReadForward(n.next, k - 1)
    }

    /** The data of at most k nodes met walking along prev from n. */
    ghost function ReadBackward(n: Node?<T>, k: nat): seq<T>
      reads this, Repr
    {
      if k == 0 || n == null || n !in Repr then [] else [n.datum] + ReadBackward(n.prev, k - 1)
    }

    /** The node at position i, or null just past the tail. */
    ghost function NodeAt(i: nat): Node?<T>
      reads this
      requires i <= |nodes|
    {
      if i < |nodes| then nodes[i] else null
    }

    /** Default constructor: an empty list with no callback set. */
    constructor ()
      ensures Valid() && fresh(Repr)
      ensures Contents == []
      ensures !callbackPtrSet && !callbackLitSet && userNode == null
    {
      callbackPtr := x => x;
      callbackLit := x => ();
      callbackLitSet := false;
      callbackPtrSet := false;
      firstNode := null;
      lastNode := null;
      userNode := null;
      userNodeSet := false;
      llSize := 0;
      Contents, nodes, Repr := [], [], {this};
    }

    /** Sized constructor: initSize elements, each the value zero that stands for (T)0.
        The first phase gives every field the value the class's member initialisers and
        the initSize == 0 branch give it; the other branches then append. A negative
        size takes neither branch and leaves an empty list. */
    constructor Sized(initSize: int, zero: T)
      ensures Valid() && fresh(Repr)
      ensures Contents == seq(if initSize < 0 then 0 else initSize, _ => zero)
      ensures !callbackPtrSet && !callbackLitSet
    {
      callbackPtr := x => x;
      callbackLit := x => ();
      callbackLitSet := false;
      callbackPtrSet := false;
      firstNode := null;
      lastNode := null;
      userNode := null;
      userNodeSet := false;
      llSize := 0;
      Contents, nodes, Repr := [], [], {this};
      new;
      if initSize == 1 {
        var code := AddToEnd(zero);
      } else if initSize > 1 {
        for i := 0 to initSize
          invariant Valid() && fresh(Repr)
          invariant Contents == seq(i, _ => zero)
          invariant !callbackPtrSet && !callbackLitSet
        {
          var code := AddToEnd(zero);
        }
      }
    }

    /** Appends data after the tail; on an empty list the new node is both head and tail. */
    method AddToEnd(data: T) returns (r: int)
      requires Valid()
      modifies Repr - {this}, `firstNode, `lastNode, `llSize, `Contents, `nodes, `Repr
      ensures Valid() && fresh(Repr - old(Repr))
      ensures Contents == old(Contents) + [data]
      ensures |old(Contents)| == 0 ==> firstNode == lastNode == nodes[0]
      ensures r == 0
    {
      if llSize == 0 {
        firstNode := new Node(data);
        lastNode := firstNode;
        firstNode.prev := null;
        firstNode.next := null;
        llSize := 1;
        Contents, nodes, Repr := [data], [firstNode], Repr + {firstNode};
        return 0;
      } else if llSize > 0 {
        lastNode.next := new Node(data);
        var tempPtr := lastNode;
        lastNode := lastNode.next;
        lastNode.prev := tempPtr;
        lastNode.next := null;
        llSize := llSize + 1;
        Contents, nodes, Repr := Contents + [data], nodes + [lastNode], Repr + {lastNode};
        return 0;
      } else {
        // the source prints OUT_OF_BOUNDS and returns 1; Valid() rules this branch out
        assert false;
        return 1;
      }
    }

    /** Prepends data before the head. On an empty list it delegates to AddToEnd and then
        falls through to the final return, so it reports 1 although the element was added. */
    method AddToBegin(data: T) returns (r: int)
      requires Valid()
      modifies Repr - {this}, `firstNode, `lastNode, `llSize, `Contents, `nodes, `Repr
      ensures Valid() && fresh(Repr - old(Repr))
      ensures Contents == [data] + old(Contents)
      ensures r == if |old(Contents)| == 0 then 1 else 0
    {
      if llSize == 0 {
        var code := AddToEnd(data);
      } else if llSize > 0 {
        firstNode.prev := new Node(data);
        var tempPtr := firstNode;
        firstNode := firstNode.prev;
        firstNode.next := tempPtr;
        firstNode.prev := null;
        llSize := llSize + 1;
        Contents, nodes, Repr := [data] + Contents, [firstNode] + nodes, Repr + {firstNode};
        return 0;
      } else {
        // the source prints OUT_OF_BOUNDS here; Valid() rules this branch out
        assert false;
      }
      return 1;
    }

    /** Removes the tail node. An empty list is left as it is (the source only prints a
        diagnostic); removing the sole node nulls both ends and the cursor. */
    method RemoveEnd()
      requires Valid()
      modifies Repr - {this}, `firstNode, `lastNode, `llSize, `userNode, `Contents, `nodes, `Repr
      ensures Valid() && Repr <= old(Repr)
      ensures Contents == if |old(Contents)| == 0 then old(Contents) else old(Contents)[..|old(Contents)| - 1]
      ensures |old(Contents)| == 1 ==> firstNode == null && lastNode == null && userNode == null
      ensures |old(Contents)| != 1 ==> userNode == old(userNode)
    {
      if llSize == 0 {
        // the source prints OUT_OF_BOUNDS; nothing changes
      } else if llSize == 1 {
        // the source deletes the node but leaves first_node dangling, although its
        // comment says both ends must be made NULL; this follows the comment
        var tempPtr := firstNode;
        firstNode := null;
        lastNode := null;
        llSize := 0;
        userNode := null;
        Contents, nodes, Repr := [], [], Repr - {tempPtr};
      } else if llSize > 1 {
        var tempPtr := lastNode;
        ghost var rest := nodes[..|nodes| - 1];
        assert tempPtr.prev == rest[|rest| - 1];
        assert forall i :: 0 <= i < |rest| ==> rest[i] != tempPtr;
        lastNode := lastNode.prev;  // the source names the field prev_node, which does not exist
        lastNode.next := null;
        llSize := llSize - 1;
        Contents, nodes, Repr := Contents[..|Contents| - 1], rest, Repr - {tempPtr};
        assert Linked();
      }
    }

    /** Removes the head node; below two elements it does exactly what RemoveEnd does. */
    method RemoveBegin()
      requires Valid()
      modifies Repr - {this}, `firstNode, `lastNode, `llSize, `userNode, `Contents, `nodes, `Repr
      ensures Valid() && Repr <= old(Repr)
      ensures Contents == if |old(Contents)| == 0 then old(Contents) else old(Contents)[1..]
      ensures |old(Contents)| == 1 ==> firstNode == null && lastNode == null && userNode == null
      ensures |old(Contents)| != 1 ==> userNode == old(userNode)
    {
      if llSize < 2 {
        RemoveEnd();
      } else if llSize >= 2 {
        var tempPtr := firstNode;
        ghost var rest := nodes[1..];
        assert tempPtr.next == rest[0];
        assert forall i :: 0 <= i < |rest| ==> rest[i] != tempPtr;
        firstNode := firstNode.next;
        firstNode.prev := null;
        llSize := llSize - 1;
        Contents, nodes, Repr := Contents[1..], rest, Repr - {tempPtr};
        assert Linked();
      }
    }

    /** The size counter, which is the number of elements. */
    method GetSize() returns (r: int)
      requires Valid()
      ensures r == |Contents|
    {
      return llSize;
    }

    /** Applies the callback by pointer to every element from head to tail, when one is
        set and the list is not empty; otherwise nothing changes. */
    method MakeCallbackPtr()
      requires Valid()
      modifies Repr - {this}, `Contents
      ensures Valid()
      ensures Contents == if callbackPtrSet && |old(Contents)| > 0
                          then MapSeq(callbackPtr, old(Contents)) else old(Contents)
    {
      if callbackPtrSet {
        if llSize > 0 {
          var tempNode := firstNode;
          ghost var k := 0;
          while tempNode != null
            invariant 0 <= k <= |nodes|
            invariant tempNode == NodeAt(k)
            invariant unchanged(this)
            invariant forall i :: 0 <= i < |nodes| ==> nodes[i].next == old(nodes[i].next) && nodes[i].prev == old(nodes[i].prev)
            invariant forall i :: 0 <= i < |nodes| ==> nodes[i].datum == if i < k then callbackPtr(Contents[i]) else Contents[i]
            decreases |nodes| - k
          {
            tempNode.datum := callbackPtr(tempNode.datum);
            tempNode := tempNode.next;
            k := k + 1;
          }
          Contents := MapSeq(callbackPtr, Contents);
          DataRewriteKeepsValid();
        } else {
          // the source prints OUT_OF_BOUNDS
        }
      } else {
        // the source prints OUT_OF_BOUNDS
      }
    }

    /** Rewriting the data held in the nodes, and nothing else, keeps the list valid
        once Contents records the new data. */
    twostate lemma DataRewriteKeepsValid()
      requires old(Valid())
      requires unchanged(`nodes, `Repr, `llSize, `firstNode, `lastNode, `userNodeSet)
      requires forall i :: 0 <= i < |nodes| ==> nodes[i].next == old(nodes[i].next) && nodes[i].prev == old(nodes[i].prev)
      requires |Contents| == |nodes|
      requires forall i :: 0 <= i < |nodes| ==> nodes[i].datum == Contents[i]
      ensures Valid()
    {
    }

    /** Passes a copy of every element, from head to tail, to the callback by value, when
        one is set and the list is not empty. The list is not changed; the result is the
        sequence of arguments the callback received, in call order. */
    method MakeCallbackLit() returns (calls: seq<T>)
      requires Valid()
      ensures calls == if callbackLitSet && |Contents| > 0 then Contents else []
    {
      calls := [];
      if callbackLitSet {
        if llSize > 0 {
          var tempNode := firstNode;
          ghost var k := 0;
          while tempNode != null
            invariant 0 <= k <= |nodes|
            invariant tempNode == NodeAt(k)
            invariant calls == Contents[..k]
            decreases |nodes| - k
          {
            calls := calls + [tempNode.datum];
            tempNode := tempNode.next;
            k := k + 1;
          }
        } else {
          // the source prints OUT_OF_BOUNDS
        }
      } else {
        // the source prints OUT_OF_BOUNDS
      }
    }

    /** Registers the callback by pointer, replacing any earlier one. */
    method SetCallbackPtr(f: T -> T)
      requires Valid()
      modifies `callbackPtr, `callbackPtrSet
      ensures Valid()
      ensures callbackPtr == f && callbackPtrSet
    {
      callbackPtr := f;
      callbackPtrSet := true;
    }

    /** Registers the callback by value, replacing any earlier one. */
    method SetCallbackLit(f: T -> ())
      requires Valid()
      modifies `callbackLit, `callbackLitSet
      ensures Valid()
      ensures callbackLit == f && callbackLitSet
    {
      callbackLit := f;
      callbackLitSet := true;
    }

    /** The element at zero-based index, reached by walking index steps from the head;
        any index outside [0, size) is the out-of-bounds error. */
    method At(index: int) returns (r: Result<T>)
      requires Valid()
      ensures 0 <= index < |Contents| ==> r == Ok(Contents[index])
      ensures !(0 <= index < |Contents|) ==> r == Err(OutOfBounds)
    {
      if index >= 0 && index < llSize {
        var tempNode := firstNode;
        for i := 0 to index
          invariant tempNode == nodes[i]
        {
          tempNode := tempNode.next;
        }
        return Ok(tempNode.datum);
      } else {
        // the source prints OUT_OF_BOUNDS and returns no value
        return Err(OutOfBounds);
      }
    }

    /** A copy of the data from head to tail; None (the source's NULL) on an empty list.
        The source pushes into a vector pointer it never allocates; this is the
        evidently intended result. */
    method GetDataVec() returns (r: Option<seq<T>>)
      requires Valid()
      ensures |Contents| > 0 ==> r == Some(Contents)
      ensures |Contents| == 0 ==> r == None
    {
      if llSize > 0 {
        var thisVec: seq<T> := [];
        var tempNode := firstNode;
        ghost var k := 0;
        while tempNode != null
          invariant 0 <= k <= |nodes|
          invariant tempNode == NodeAt(k)
          invariant thisVec == Contents[..k]
          decreases |nodes| - k
        {
          thisVec := thisVec + [tempNode.datum];
          tempNode := tempNode.next;
          k := k + 1;
        }
        assert k == |nodes| && Contents[..k] == Contents;
        return Some(thisVec);
      } else {
        return None;
      }
    }

    /** Whether the cursor is set. No operation ever sets the flag, so the answer is
        always false. */
    method UserNodeIsSet() returns (r: bool)
      requires Valid()
      ensures !r
    {
      return userNodeSet;
    }

    /** Walking m steps along next from position i lands on position i + m. */
    lemma {:induction false} WalkForward(i: nat, m: nat)
      requires Valid()
      requires i + m <= |nodes|
      ensures Walk(NodeAt(i), m) == NodeAt(i + m)
      decreases m
    {
      if m > 0 {
        assert NodeAt(i) == nodes[i];
        assert nodes[i].next == NodeAt(i + 1);
        WalkForward(i + 1, m - 1);
      }
    }

    /** Walking m steps along prev from position i lands on position i - m, or on null
        one step before the head. */
    lemma {:induction false} WalkBackward(i: nat, m: nat)
      requires Valid()
      requires i < |nodes| && m <= i + 1
      ensures WalkBack(nodes[i], m) == if m <= i then nodes[i - m] else null
      decreases m
    {
      if m > 0 {
        if i == 0 {
          assert nodes[0].prev == null;
        } else {
          assert nodes[i].prev == nodes[i - 1];
          WalkBackward(i - 1, m - 1);
        }
      }
    }

    /** Following next from the head visits exactly llSize distinct nodes, the nodes of
        the list in order, and then reaches null. */
    lemma HeadWalkVisitsSizeNodes()
      requires Valid()
      ensures Walk(firstNode, llSize) == null
      ensures forall k :: 0 <= k < llSize ==> Walk(firstNode, k) == nodes[k]
      ensures forall k, l :: 0 <= k < l < llSize ==> Walk(firstNode, k) != Walk(firstNode, l)
    {
      assert firstNode == NodeAt(0);
      WalkForward(0, llSize);
      forall k | 0 <= k < llSize
        ensures Walk(firstNode, k) == nodes[k]
      {
        WalkForward(0, k);
      }
    }

    /** Following prev from the tail visits the same nodes in reverse order and then
        reaches null. */
    lemma TailWalkVisitsSizeNodes()
      requires Valid()
      ensures WalkBack(lastNode, llSize) == null
      ensures forall k :: 0 <= k < llSize ==> WalkBack(lastNode, k) == nodes[llSize - 1 - k]
    {
      if llSize > 0 {
        WalkBackward(llSize - 1, llSize);
        forall k | 0 <= k < llSize
          ensures WalkBack(lastNode, k) == nodes[llSize - 1 - k]
        {
          WalkBackward(llSize - 1, k);
        }
      }
    }

    /** Reading m elements along next from position i yields Contents[i..i + m]. */
    lemma {:induction false} ReadForwardFrom(i: nat, m: nat)
      requires Valid()
      requires i + m <= |nodes|
      ensures ReadForward(NodeAt(i), m) == Contents[i..i + m]
      decreases m
    {
      if m > 0 {
        assert NodeAt(i) == nodes[i];
        assert nodes[i].next == NodeAt(i + 1);
        ReadForwardFrom(i + 1, m - 1);
        assert Contents[i..i + m] == [Contents[i]] + Contents[i + 1..i + m];
      }
    }

    /** Reading m elements along prev from position i yields Contents[i - m + 1..i + 1]
        in reverse. */
    lemma {:induction false} ReadBackwardFrom(i: nat, m: nat)
      requires Valid()
      requires i < |nodes| && m <= i + 1
      ensures ReadBackward(nodes[i], m) == Reversed(Contents[i + 1 - m..i + 1])
      decreases m
    {
      if m > 0 {
        var before := Contents[i + 1 - m..i];
        assert Contents[i + 1 - m..i + 1] == before + [Contents[i]];
        assert ReadBackward(nodes[i], m) == [Contents[i]] + ReadBackward(nodes[i].prev, m - 1);
        assert ReadBackward(nodes[i].prev, m - 1) == Reversed(before) by {
          if i == 0 {
            assert nodes[0].prev == null;
          } else {
            assert nodes[i].prev == nodes[i - 1];
            ReadBackwardFrom(i - 1, m - 1);
          }
        }
        ReversedOfSnoc(before, Contents[i]);
      }
    }

    /** The data read from head to tail is Contents, and the data read from tail to head
        is Contents reversed. */
    lemma BothWalksReadContents()
      requires Valid()
      ensures ReadForward(firstNode, llSize) == Contents
      ensures ReadBackward(lastNode, llSize) == Reversed(Contents)
    {
      assert firstNode == NodeAt(0);
      ReadForwardFrom(0, llSize);
      assert Contents[0..llSize] == Contents;
      if llSize > 0 {
        ReadBackwardFrom(llSize - 1, llSize);
        assert Contents[0..llSize] == Contents;
      }
    }

    /** The shape of the two ends: the list is empty iff both ends are null, has one
        element iff both ends are the same node, and otherwise has distinct ends. */
    lemma EndsMatchSize()
      requires Valid()
      ensures llSize == 0 <==> firstNode == null && lastNode == null
      ensures llSize == 1 <==> firstNode != null && firstNode == lastNode
      ensures llSize > 1 ==> firstNode != null && lastNode != null && firstNode != lastNode
    {
      if llSize > 1 {
        assert nodes[0] != nodes[llSize - 1];
      }
    }
  }

  /** Reversing s + [x] puts x first. */
  lemma {:induction false} ReversedOfSnoc<T>(s: seq<T>, x: T)
    ensures Reversed(s + [x]) == [x] + Reversed(s)
    decreases |s|
  {
    if s != [] {
      assert (s + [x])[1..] == s[1..] + [x];
      ReversedOfSnoc(s[1..], x);
    }
  }

  /** Reading one element with At agrees with the copy GetDataVec makes: At succeeds
      exactly on the indices of that copy and returns the element stored there. */
  method AtAgreesWithDataVec<T>(l: LinkedList<T>, index: int) returns (a: Result<T>, v: Option<seq<T>>)
    requires l.Valid()
    ensures a.Ok? <==> v.Some? && 0 <= index < |v.value|
    ensures a.Ok? ==> a.value == v.value[index]
  {
    a := l.At(index);
    v := l.GetDataVec();
  }

  /** Removing the tail undoes appending. */
  method AddToEndThenRemoveEnd<T>(l: LinkedList<T>, x: T)
    requires l.Valid()
    modifies l.Repr
    ensures l.Valid() && l.Contents == old(l.Contents)
  {
    var r := l.AddToEnd(x);
    l.RemoveEnd();
  }

  /** Removing the head undoes prepending. */
  method AddToBeginThenRemoveBegin<T>(l: LinkedList<T>, y: T)
    requires l.Valid()
    modifies l.Repr
    ensures l.Valid() && l.Contents == old(l.Contents)
  {
    var r := l.AddToBegin(y);
    l.RemoveBegin();
  }

  /** The scenario of a fresh empty list filled and drained at both ends. */
  method Scenario()
  {
    var l := new LinkedList<int>();
    var r := l.AddToEnd(5);
    r := l.AddToBegin(3);
    assert r == 0;
    r := l.AddToEnd(7);
    assert l.Contents == [3, 5, 7];
    var v := l.GetDataVec();
    assert v == Some([3, 5, 7]);
    var x := l.At(1);
    assert x == Ok(5);
    var n := l.GetSize();
    assert n == 3;
    l.RemoveBegin();
    assert l.Contents == [5, 7];
    l.RemoveEnd();
    assert l.Contents == [5];
    l.RemoveEnd();
    assert l.Contents == [];
    v := l.GetDataVec();
    assert v == None;
    l.RemoveEnd();
    n := l.GetSize();
    assert n == 0;
    x := l.At(0);
    assert x == Err(OutOfBounds);
  }
}
