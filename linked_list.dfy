/**
 * The singly linked list of bids in LinkedList/LinkedList.cpp, modelled on what its
 * code does rather than on what its comments announce: `Append` only links a node
 * into an empty list, `size` is never updated, `tail` is never set, `PrintList`
 * assigns null to `head` in its condition, and `Remove` follows its own loop.
 */
module LinkedBids {
  import opened Bids

  /** Index of the first bid, head to tail, whose id is `id`; `|s|` when there is none. */
  function FirstMatch(s: seq<Bid>, id: string): (k: nat)
    ensures k <= |s|
    ensures forall j :: 0 <= j < k ==> s[j].bidId != id
    ensures k < |s| ==> s[k].bidId == id
  {
    if s == [] then 0
    else if s[0].bidId == id then 0
    else 1 + FirstMatch(s[1..], id)
  }

  /** The first match is the index before which no bid has the id and at which one has it. */
  lemma {:induction false} FirstMatchIs(s: seq<Bid>, id: string, k: nat)
    requires k <= |s|
    requires forall j :: 0 <= j < k ==> s[j].bidId != id
    requires k < |s| ==> s[k].bidId == id
    ensures FirstMatch(s, id) == k
  {
    if s != [] && s[0].bidId != id {
      FirstMatchIs(s[1..], id, k - 1);
    }
  }

  /** Reference definition: `s` without its first bid whose id is `id`. */
  function RemoveFirst(s: seq<Bid>, id: string): (r: seq<Bid>)
    ensures |r| == if FirstMatch(s, id) < |s| then |s| - 1 else |s|
  {
    if s == [] then []
    else if s[0].bidId == id then s[1..]
    else [s[0]] + RemoveFirst(s[1..], id)
  }

  /** Removal takes out exactly the bid at the first match and keeps the rest in order. */
  lemma {:induction false} RemoveFirstAt(s: seq<Bid>, id: string)
    ensures var k := FirstMatch(s, id);
      RemoveFirst(s, id) == if k < |s| then s[..k] + s[k + 1..] else s
  {
    if s != [] && s[0].bidId != id {
      RemoveFirstAt(s[1..], id);
      var k := FirstMatch(s[1..], id);
      if k < |s| - 1 {
        assert s[..k + 1] == [s[0]] + s[1..][..k];
        assert s[k + 2..] == s[1..][k + 1..];
      } else {
        assert s == [s[0]] + s[1..];
      }
    }
  }

  /** Exactly one bid goes when some bid has the id; none otherwise. */
  lemma RemoveFirstMultiset(s: seq<Bid>, id: string)
    ensures var k := FirstMatch(s, id);
      if k < |s| then multiset(RemoveFirst(s, id)) + multiset{s[k]} == multiset(s)
      else RemoveFirst(s, id) == s
  {
    RemoveFirstAt(s, id);
    var k := FirstMatch(s, id);
    if k < |s| {
      assert s == s[..k] + [s[k]] + s[k + 1..];
    }
  }

  /** What `Remove` reports on the console, as a value. */
  datatype Removal = ListEmpty | Deleted | NoSuchRecord

  class Node {
    var bid: Bid
    var next: Node?

    /** `Node(Bid aBid)`: holds `b` and links to nothing. */
    constructor (b: Bid)
      ensures bid == b && next == null
    {
      bid := b;
      next := null;
    }
  }

  class LinkedList {
    var head: Node?
    var tail: Node?
    var size: int

    /** The chain from `head`, in order, and the bids it holds. */
    ghost var nodes: seq<Node>
    ghost var Contents: seq<Bid>
    /** The list and every node it ever linked; unlinked nodes stay (the source leaks them). */
    ghost var Repr: set<object>

    /**
     * The chain from `head` is exactly `nodes`: finite, without repeated nodes (so
     * acyclic), ending in null. `tail` and `size` keep the values the constructor and
     * the member initializer gave them, since no method assigns them.
     */
    ghost predicate Valid()
      reads this, Repr
    {
      && this in Repr
      && |nodes| == |Contents|
      && (forall k :: 0 <= k < |nodes| ==> nodes[k] in Repr)
      && (forall k :: 0 <= k < |nodes| ==> nodes[k].bid == Contents[k])
      && (forall k {:trigger nodes[k].next} :: 0 <= k < |nodes| - 1 ==> nodes[k].next == nodes[k + 1])
      && (nodes != [] ==> nodes[|nodes| - 1].next == null)
      && (forall j, k :: 0 <= j < k < |nodes| ==> nodes[j] != nodes[k])
      && head == (if nodes == [] then null else nodes[0])
      && tail == null
      && size == 0
    }

    constructor ()
      ensures Valid() && fresh(Repr)
      ensures Contents == []
    {
      head := null;
      tail := null;
      size := 0;
      nodes, Contents, Repr := [], [], {this};
    }

    /**
     * The destructor's walk: it visits every node exactly once, head to tail, and
     * stops. The `delete` of each visited node is not modelled.
     */
    method Destroy() returns (ghost released: seq<Node>)
      requires Valid()
      ensures released == nodes
    {
      var current := head;
      ghost var i := 0;
      released := [];
      while current != null
        invariant 0 <= i <= |nodes|
        invariant current == (if i < |nodes| then nodes[i] else null)
        invariant released == nodes[..i]
        decreases |nodes| - i
      {
        var temp := current;
        current := current.next;
        released := released + [temp];
        i := i + 1;
      }
      assert nodes[..i] == nodes;
    }

    /**
     * Links a new node only into an empty list. On a non-empty list the loop stops
     * at the last node and nothing is linked, contrary to the comment above the
     * function ("Append a new bid to the end of the list"). Neither branch touches
     * `size`, contrary to the comment at the end of the body that asks for the size
     * count to go up.
     */
    method Append(bid: Bid)
      requires Valid()
      modifies this
      ensures Valid() && fresh(Repr - old(Repr))
      ensures old(Contents) == [] ==> Contents == [bid]
      ensures old(Contents) != [] ==> Contents == old(Contents)
    {
      if head == null {
        var n := new Node(bid);
        head := n;
        nodes, Contents, Repr := [n], [bid], Repr + {n};
      } else {
        var temp := head;
        var current: Node? := null;
        ghost var i := 0;
        while temp != null
          invariant 0 <= i <= |nodes|
          invariant temp == (if i < |nodes| then nodes[i] else null)
          invariant 0 < i ==> current == nodes[i - 1]
          decreases |nodes| - i
        {
          current := temp;
          temp := temp.next;
          i := i + 1;
        }
        // The loop leaves `current` at the last node; no new node follows it.
        assert current == nodes[|nodes| - 1] && current.next == null;
      }
    }

    /**
     * The new bid comes first and the old bids follow it in their order. `size` is
     * left alone, contrary to the comment at the end of the body that asks for the
     * size count to go up.
     */
    method Prepend(bid: Bid)
      requires Valid()
      modifies this
      ensures Valid() && fresh(Repr - old(Repr))
      ensures Contents == [bid] + old(Contents)
    {
      if head == null {
        var n := new Node(bid);
        head := n;
        nodes, Contents, Repr := [n], [bid], Repr + {n};
      } else {
        var temp := head;
        var n := new Node(bid);
        head := n;
        n.next := temp;
        nodes, Contents, Repr := [n] + nodes, [bid] + Contents, Repr + {n};
      }
    }

    /** The printing loop of `PrintList`: every bid of the chain from `head`, in order. */
    method Show() returns (shown: seq<Bid>)
      requires Valid()
      ensures shown == Contents
    {
      var temp := head;
      ghost var i := 0;
      shown := [];
      while temp != null
        invariant 0 <= i <= |nodes|
        invariant temp == (if i < |nodes| then nodes[i] else null)
        invariant shown == Contents[..i]
        decreases |nodes| - i
      {
        shown := shown + [temp.bid];
        temp := temp.next;
        i := i + 1;
      }
      assert Contents[..i] == Contents;
    }

    /**
     * `if (head = nullptr)` assigns null to `head` and tests the null it assigned, so
     * the "no items" message is never printed, the walk starts from null and prints
     * nothing, and the list is left empty (its nodes are leaked, not freed).
     */
    method PrintList() returns (shown: seq<Bid>, reportedEmpty: bool)
      requires Valid()
      modifies this
      ensures Valid() && Repr == old(Repr)
      ensures Contents == [] && shown == [] && !reportedEmpty
    {
      head := null;
      nodes, Contents := [], [];
      shown, reportedEmpty := [], false;
      if head != null {
        reportedEmpty := true;
      } else {
        shown := Show();
      }
    }

    /**
     * The walk of `Remove`, up to the point where it writes: the node holding the
     * first bid whose id is `id` (index `k`) and the node before it, or null for the
     * match when no bid has the id. On a one-node list whose id differs the source
     * reads through a null pointer, so callers must not ask for that. Past the head
     * the cursor only ever rests on nodes whose id differs, so the branch that
     * matches a node other than the head (which would loop forever) is never reached.
     */
    method Locate(id: string) returns (previous: Node?, found: Node?, ghost k: nat)
      requires Valid()
      requires !(|Contents| == 1 && Contents[0].bidId != id)
      ensures k == FirstMatch(Contents, id)
      ensures found == (if k < |nodes| then nodes[k] else null)
      ensures previous == (if 0 < k < |nodes| then nodes[k - 1] else null)
    {
      var temp := head;
      previous, found, k := null, null, |nodes|;
      ghost var i := 0;
      while temp != null
        invariant i <= |nodes|
        invariant temp == (if i < |nodes| then nodes[i] else null)
        invariant 0 < i ==> i + 1 < |nodes| && Contents[i].bidId != id
        invariant forall j :: 0 <= j < i ==> Contents[j].bidId != id
        invariant previous == null && found == null && k == |nodes|
        decreases |nodes| - i
      {
        if temp.bid.bidId == id {
          if temp == head {
            found, k := temp, 0;
            break;
          }
        } else {
          var current := temp;
          temp := temp.next;
          if temp.bid.bidId == id {
            previous, found, k := current, temp, i + 1;
            break;
          }
          if temp.bid.bidId != id && temp.next == null {
            LastNode(i + 1);
            break;
          }
          i := i + 1;
        }
      }
      FirstMatchIs(Contents, id, k);
    }

    /**
     * Unlinks the first node whose id is `id`: `head = head->next` when it is the
     * head, `current->next = temp->next` when it follows node `current`, and nothing
     * when no bid has the id. The report is which of the three messages is printed.
     */
    method Remove(id: string) returns (report: Removal)
      requires Valid()
      requires !(|Contents| == 1 && Contents[0].bidId != id)
      modifies Repr
      ensures Valid() && Repr == old(Repr)
      ensures Contents == RemoveFirst(old(Contents), id)
      ensures report == (if old(Contents) == [] then ListEmpty
                         else if FirstMatch(old(Contents), id) < |old(Contents)| then Deleted
                         else NoSuchRecord)
    {
      var previous, found, k := Locate(id);
      ghost var before := Contents;
      RemoveFirstAt(before, id);
      if found == null {
        report := if head == null then ListEmpty else NoSuchRecord;
      } else if previous == null {
        UnlinkHead();
        report := Deleted;
        assert before[..0] + before[1..] == before[1..];
      } else {
        Unlink(k - 1, previous, found);
        report := Deleted;
      }
    }

    /** Only the last node of the chain links to null. */
    lemma LastNode(k: nat)
      requires Valid() && k < |nodes| && nodes[k].next == null
      ensures k == |nodes| - 1
    {
    }

    /** `head = head->next`: the chain starts at the second node. */
    method UnlinkHead()
      requires Valid() && head != null
      modifies this
      ensures Valid() && Repr == old(Repr)
      ensures nodes == old(nodes[1..]) && Contents == old(Contents[1..])
    {
      head := head.next;
      nodes, Contents := nodes[1..], Contents[1..];
    }

    /**
     * `current->next = temp->next` for the node `temp` that follows node `i`: the
     * chain now skips `temp`, and every other node keeps its place.
     */
    method Unlink(ghost i: nat, current: Node, temp: Node)
      requires Valid()
      requires i + 1 < |nodes| && current == nodes[i] && temp == nodes[i + 1]
      modifies this, current
      ensures Valid() && Repr == old(Repr)
      ensures nodes == old(nodes[..i + 1] + nodes[i + 2..])
      ensures Contents == old(Contents[..i + 1] + Contents[i + 2..])
    {
      current.next := temp.next;
      nodes, Contents := nodes[..i + 1] + nodes[i + 2..], Contents[..i + 1] + Contents[i + 2..];
    }

    /** The bid of the first node whose id is `id`, or `Bid()` when there is none. */
    method Search(id: string) returns (found: Bid)
      requires Valid()
      ensures var k := FirstMatch(Contents, id);
        found == if k < |Contents| then Contents[k] else DefaultBid()
    {
      var temp := head;
      var returnBid := DefaultBid();
      if temp == null {
        return returnBid;
      } else {
        ghost var i := 0;
        while temp != null
          invariant 0 <= i <= |nodes|
          invariant temp == (if i < |nodes| then nodes[i] else null)
          invariant forall j :: 0 <= j < i ==> Contents[j].bidId != id
          invariant returnBid == DefaultBid()
          decreases |nodes| - i
        {
          if temp.bid.bidId == id {
            returnBid := temp.bid;
            break;
          }
          temp := temp.next;
          i := i + 1;
        }
      }
      return returnBid;
    }

    /**
     * Always 0: `size` keeps its initial value, so on a non-empty list it is not
     * the number of elements that the comment above the function promises.
     */
    method Size() returns (n: int)
      requires Valid()
      ensures n == 0
      ensures Contents != [] ==> n != |Contents|
    {
      n := size;
    }
  }

  /** A client sequence of calls: the second `Append` is lost and `PrintList` empties the list. */
  method AppendThenPrint(a: Bid, b: Bid)
  {
    var list := new LinkedList();
    list.Append(a);
    list.Append(b);
    assert list.Contents == [a];
    list.Prepend(b);
    assert list.Contents == [b, a];
    var n := list.Size();
    assert n == 0;
    var shown, reportedEmpty := list.PrintList();
    assert list.Contents == [] && shown == [];
    var found := list.Search(a.bidId);
    assert found == DefaultBid();
  }
}
