/**
 * The in-place sorts of VectorSorting/VectorSorting.cpp over a vector of bids
 * (an `array<Bid>` here), ordered by title with `std::string::compare`.
 * Selection sort sorts. Quicksort permutes its range and terminates, but its
 * partition reads the pivot through its index after swaps have moved it, so it
 * does not always sort: `QuickSortCounterexample` shows an input it leaves unsorted.
 */
module VectorSorting {
  import opened Bids
  import opened Lex

  /** Titles never decrease from left to right. */
  predicate SortedByTitle(s: seq<Bid>)
  {
    forall i, j :: 0 <= i < j < |s| ==> LessEq(s[i].title, s[j].title)
  }

  /** `swap(bids[i], bids[j])` on the vector's contents. */
  function Swap(s: seq<Bid>, i: nat, j: nat): (r: seq<Bid>)
    requires i < |s| && j < |s|
    ensures |r| == |s|
  {
    s[i := s[j]][j := s[i]]
  }

  lemma SwapPermutes(s: seq<Bid>, i: nat, j: nat)
    requires i < |s| && j < |s|
    ensures multiset(Swap(s, i, j)) == multiset(s)
  {
    var t := s[i := s[j]];
    assert multiset(t) == multiset(s) - multiset{s[i]} + multiset{s[j]};
    assert multiset(t[j := s[i]]) == multiset(t) - multiset{t[j]} + multiset{s[i]};
  }

  //===========================================================================
  // Selection sort
  //===========================================================================

  /** `smallest` is the earliest index of a least title in `[place, |s|)`. */
  ghost predicate LeastFrom(s: seq<Bid>, place: nat, smallest: nat)
  {
    && place <= smallest < |s|
    && (forall k :: place <= k < |s| ==> LessEq(s[smallest].title, s[k].title))
    && (forall k :: place <= k < smallest ==> Less(s[smallest].title, s[k].title))
  }

  /**
   * The invariant of `selectionSort`'s outer loop: the first `place` titles are
   * in order, and none of them is above a title after them.
   */
  ghost predicate SortedUpTo(s: seq<Bid>, place: nat)
  {
    && place <= |s|
    && (forall i, j :: 0 <= i < j < place ==> LessEq(s[i].title, s[j].title))
    && (forall i, j :: 0 <= i < place <= j < |s| ==> LessEq(s[i].title, s[j].title))
  }

  /**
   * The inner loop of `selectionSort`: `smallest` ends at the earliest index of a
   * least title in `[place, n)`, because its test is a strict `<`.
   */
  method SmallestFrom(bids: array<Bid>, place: nat) returns (smallest: nat)
    requires place < bids.Length
    ensures LeastFrom(bids[..], place, smallest)
  {
    smallest := place;
    LessIrreflexive(bids[place].title);
    for j := place + 1 to bids.Length
      invariant place <= smallest < j
      invariant forall k :: place <= k < j ==> LessEq(bids[smallest].title, bids[k].title)
      invariant forall k :: place <= k < smallest ==> Less(bids[smallest].title, bids[k].title)
    {
      if Less(bids[j].title, bids[smallest].title) {
        forall k | place <= k < j
          ensures Less(bids[j].title, bids[k].title) && LessEq(bids[j].title, bids[k].title)
        {
          LessLessEqTransitive(bids[j].title, bids[smallest].title, bids[k].title);
          LessAsymmetric(bids[j].title, bids[k].title);
        }
        LessIrreflexive(bids[j].title);
        smallest := j;
      }
    }
  }

  /** `swap(bids[i], bids[j])`. */
  method SwapElements(bids: array<Bid>, i: nat, j: nat)
    requires i < bids.Length && j < bids.Length
    modifies bids
    ensures bids[..] == Swap(old(bids[..]), i, j)
  {
    bids[i], bids[j] := bids[j], bids[i];
  }

  /**
   * One round of `selectionSort`: swapping a least title of `[place, n)` into
   * `place` extends the sorted prefix by one and keeps it below the rest.
   */
  lemma SelectionStep(s: seq<Bid>, place: nat, smallest: nat)
    requires SortedUpTo(s, place) && LeastFrom(s, place, smallest)
    ensures multiset(Swap(s, place, smallest)) == multiset(s)
    ensures SortedUpTo(Swap(s, place, smallest), place + 1)
  {
    SwapPermutes(s, place, smallest);
    var t := Swap(s, place, smallest);
    assert t[place] == s[smallest];
    forall i, j | 0 <= i < place + 1 <= j < |s|
      ensures LessEq(t[i].title, t[j].title)
    {
      if i < place {
        assert t[i] == s[i];
      } else {
        assert t[j] == s[j] || t[j] == s[place];
      }
    }
    forall i, j | 0 <= i < j < place + 1
      ensures LessEq(t[i].title, t[j].title)
    {
      assert t[i] == s[i];
    }
  }

  /**
   * `selectionSort`: for each `place`, the least title of `[place, n)` is
   * swapped into `place` unless it is already there.
   */
  method SelectionSort(bids: array<Bid>)
    modifies bids
    ensures SortedByTitle(bids[..])
    ensures multiset(bids[..]) == multiset(old(bids[..]))
  {
    var largest := bids.Length;
    for place := 0 to largest
      invariant multiset(bids[..]) == multiset(old(bids[..]))
      invariant SortedUpTo(bids[..], place)
    {
      var smallest := SmallestFrom(bids, place);
      ghost var before := bids[..];
      SelectionStep(before, place, smallest);
      if smallest != place {
        SwapElements(bids, place, smallest);
      } else {
        assert before == Swap(before, place, smallest);
      }
      assert bids[..] == Swap(before, place, smallest);
    }
    assert SortedUpTo(bids[..], largest);
  }

  //===========================================================================
  // Quicksort, as functions of the vector's contents
  //===========================================================================

  /** `int pivot = (begin + (end - begin) / 2)`: the index, not the title, is kept. */
  function Pivot(begin: int, end: int): (p: int)
    ensures begin <= end ==> begin <= p <= end
    ensures begin < end ==> p < end
  {
    begin + (end - begin) / 2
  }

  /**
   * `while (bids[l].title.compare(bids[pivot].title) < 0) ++l;` It stops at the
   * first index from `l` whose title is not below the current pivot title. The
   * ghost argument `su` is a sentinel: an index ahead of `l` whose title is not
   * below the pivot title, so the scan never passes it. The function also stops
   * at `su` outright; `Partition` shows that this never cuts a scan short of
   * where the loop in the code stops.
   */
  ghost function ScanUp(s: seq<Bid>, l: nat, p: nat, su: nat): (r: nat)
    requires p < |s| && l <= su < |s|
    ensures l <= r <= su
    decreases su - l
  {
    if l < su && Less(s[l].title, s[p].title) then ScanUp(s, l + 1, p, su) else l
  }

  /** `while (bids[pivot].title.compare(bids[h].title) < 0) --h;`, with sentinel `sd` behind `h`. */
  ghost function ScanDown(s: seq<Bid>, h: nat, p: nat, sd: nat): (r: nat)
    requires p < |s| && sd <= h < |s|
    ensures sd <= r <= h
    decreases h - sd
  {
    if sd < h && Less(s[p].title, s[h].title) then ScanDown(s, h - 1, p, sd) else h
  }

  /**
   * After `swap(bids[l], bids[h])` the two swapped positions are sentinels for the
   * title now at the pivot index, whether or not the swap moved the pivot.
   */
  lemma SwapMakesSentinels(s: seq<Bid>, p: nat, l: nat, h: nat)
    requires p < |s| && l < h < |s|
    requires LessEq(s[p].title, s[l].title) && LessEq(s[h].title, s[p].title)
    ensures var t := Swap(s, l, h);
      LessEq(t[p].title, t[h].title) && LessEq(t[l].title, t[p].title)
  {
    LessIrreflexive(s[l].title);
    LessIrreflexive(s[h].title);
  }

  /**
   * The `while (!finished)` loop of `partition` from cursors `l` and `h`, with
   * the contents it leaves and the `h` it returns. The requires are what holds at
   * the top of every round: the cursors lie in `[begin, end]`, with sentinel `su`
   * ahead of `l` and sentinel `sd` behind `h` (both the pivot index before the
   * first swap, the two swapped positions after each swap).
   */
  ghost function PartitionLoop(s: seq<Bid>, begin: nat, end: nat, p: nat, l: nat, h: nat, su: nat, sd: nat): (r: (seq<Bid>, int))
    requires begin <= p < end < |s|
    requires begin <= l <= su <= end && begin <= sd <= h <= end && l <= h + 1
    requires h < end || su == p
    ensures |r.0| == |s| && begin <= r.1 < end
    decreases h - l + 2
  {
    var l' := ScanUp(s, l, p, su);
    var h' := ScanDown(s, h, p, sd);
    if l' >= h' then (s, h')
    else PartitionLoop(Swap(s, l', h'), begin, end, p, l' + 1, h' - 1, h', l')
  }

  /** One round of the `while (!finished)` loop, given where its two scans stop. */
  lemma PartitionLoopStep(s: seq<Bid>, begin: nat, end: nat, p: nat, l: nat, h: nat, su: nat, sd: nat, l': nat, h': nat)
    requires begin <= p < end < |s|
    requires begin <= l <= su <= end && begin <= sd <= h <= end && l <= h + 1
    requires h < end || su == p
    requires l' == ScanUp(s, l, p, su) && h' == ScanDown(s, h, p, sd)
    ensures l' >= h' ==> PartitionLoop(s, begin, end, p, l, h, su, sd) == (s, h')
    ensures l' < h' ==>
      PartitionLoop(s, begin, end, p, l, h, su, sd) == PartitionLoop(Swap(s, l', h'), begin, end, p, l' + 1, h' - 1, h', l')
  {
  }

  /** `partition(bids, begin, end)`: the rearranged contents and the split index. */
  ghost function Partitioned(s: seq<Bid>, begin: nat, end: nat): (r: (seq<Bid>, int))
    requires begin < end < |s|
    ensures |r.0| == |s| && begin <= r.1 < end
  {
    var p := Pivot(begin, end);
    PartitionLoop(s, begin, end, p, begin, end, p, p)
  }

  /** `quickSort(bids, begin, end)`: nothing happens unless `begin < end`. */
  ghost function QuickSorted(s: seq<Bid>, begin: int, end: int): (r: seq<Bid>)
    requires begin < end ==> 0 <= begin && end < |s|
    ensures |r| == |s|
    decreases end - begin
  {
    if begin >= end then s
    else
      var r := Partitioned(s, begin, end);
      QuickSorted(QuickSorted(r.0, begin, r.1), r.1 + 1, end)
  }

  /** Two contents agree outside `[begin, end]`. */
  ghost predicate SameOutside(s: seq<Bid>, t: seq<Bid>, begin: int, end: int)
  {
    |s| == |t| && forall k :: 0 <= k < |s| && !(begin <= k <= end) ==> s[k] == t[k]
  }

  /** Partitioning only swaps elements. */
  lemma {:induction false} PartitionLoopPermutes(s: seq<Bid>, begin: nat, end: nat, p: nat, l: nat, h: nat, su: nat, sd: nat)
    requires begin <= p < end < |s|
    requires begin <= l <= su <= end && begin <= sd <= h <= end && l <= h + 1
    requires h < end || su == p
    ensures multiset(PartitionLoop(s, begin, end, p, l, h, su, sd).0) == multiset(s)
    decreases h - l + 2
  {
    var l' := ScanUp(s, l, p, su);
    var h' := ScanDown(s, h, p, sd);
    if l' < h' {
      var t := Swap(s, l', h');
      SwapPermutes(s, l', h');
      PartitionLoopPermutes(t, begin, end, p, l' + 1, h' - 1, h', l');
    }
  }

  /** Partitioning leaves everything outside `[begin, end]` where it was. */
  lemma {:induction false} PartitionLoopFrame(s: seq<Bid>, begin: nat, end: nat, p: nat, l: nat, h: nat, su: nat, sd: nat)
    requires begin <= p < end < |s|
    requires begin <= l <= su <= end && begin <= sd <= h <= end && l <= h + 1
    requires h < end || su == p
    ensures SameOutside(PartitionLoop(s, begin, end, p, l, h, su, sd).0, s, begin, end)
    decreases h - l + 2
  {
    var l' := ScanUp(s, l, p, su);
    var h' := ScanDown(s, h, p, sd);
    if l' < h' {
      PartitionLoopFrame(Swap(s, l', h'), begin, end, p, l' + 1, h' - 1, h', l');
    }
  }

  /** Agreement outside a range carries over to any range around it, and composes. */
  lemma SameOutsideTrans(r: seq<Bid>, t: seq<Bid>, s: seq<Bid>, b1: int, e1: int, begin: int, end: int)
    requires begin <= b1 && e1 <= end
    requires SameOutside(r, t, b1, e1) && SameOutside(t, s, begin, end)
    ensures SameOutside(r, s, begin, end)
  {
  }

  /** Quicksort only permutes: `r` is the result of `quickSort(s, begin, end)`. */
  lemma {:induction false} QuickSortedPermutes(s: seq<Bid>, begin: int, end: int, r: seq<Bid>)
    requires begin < end ==> 0 <= begin && end < |s|
    requires r == QuickSorted(s, begin, end)
    ensures multiset(r) == multiset(s)
    decreases end - begin
  {
    if begin < end {
      var p := Pivot(begin, end);
      PartitionLoopPermutes(s, begin, end, p, begin, end, p, p);
      var q := Partitioned(s, begin, end);
      var left := QuickSorted(q.0, begin, q.1);
      QuickSortedPermutes(q.0, begin, q.1, left);
      QuickSortedPermutes(left, q.1 + 1, end, r);
    }
  }

  /** Quicksort leaves everything outside `[begin, end]` where it was. */
  lemma {:induction false} QuickSortedFrame(s: seq<Bid>, begin: int, end: int, r: seq<Bid>)
    requires begin < end ==> 0 <= begin && end < |s|
    requires r == QuickSorted(s, begin, end)
    ensures SameOutside(r, s, begin, end)
    decreases end - begin
  {
    if begin < end {
      var p := Pivot(begin, end);
      PartitionLoopFrame(s, begin, end, p, begin, end, p, p);
      var q := Partitioned(s, begin, end);
      var left := QuickSorted(q.0, begin, q.1);
      QuickSortedFrame(q.0, begin, q.1, left);
      QuickSortedFrame(left, q.1 + 1, end, r);
      SameOutsideTrans(left, q.0, s, begin, q.1, begin, end);
      SameOutsideTrans(r, left, s, q.1 + 1, end, begin, end);
    }
  }

  //===========================================================================
  // Quicksort, in place
  //===========================================================================

  /**
   * `while (bids[l].title.compare(bids[pivot].title) < 0) ++l;`: the sentinel
   * `su` stops the loop, so it ends where `ScanUp` does.
   */
  method ScanUpFrom(bids: array<Bid>, l: nat, pivot: nat, ghost su: nat) returns (l': nat)
    requires pivot < bids.Length && l <= su < bids.Length
    requires LessEq(bids[pivot].title, bids[su].title)
    ensures l' == ScanUp(bids[..], l, pivot, su)
  {
    l' := l;
    while Less(bids[l'].title, bids[pivot].title)
      invariant l <= l' <= su
      invariant ScanUp(bids[..], l', pivot, su) == ScanUp(bids[..], l, pivot, su)
      decreases su - l'
    {
      l' := l' + 1;
    }
  }

  /** `while (bids[pivot].title.compare(bids[h].title) < 0) --h;`, stopped by the sentinel `sd`. */
  method ScanDownFrom(bids: array<Bid>, h: nat, pivot: nat, ghost sd: nat) returns (h': nat)
    requires pivot < bids.Length && sd <= h < bids.Length
    requires LessEq(bids[sd].title, bids[pivot].title)
    ensures h' == ScanDown(bids[..], h, pivot, sd)
  {
    h' := h;
    while Less(bids[pivot].title, bids[h'].title)
      invariant sd <= h' <= h
      invariant ScanDown(bids[..], h', pivot, sd) == ScanDown(bids[..], h, pivot, sd)
      decreases h' - sd
    {
      h' := h' - 1;
    }
  }

  /**
   * What holds at the top of every round of `partition`'s `while (!finished)`
   * loop: the requires of `PartitionLoop`, and sentinels `su` ahead of `l` and
   * `sd` behind `h` for the title at the pivot index.
   */
  ghost predicate RoundReady(s: seq<Bid>, begin: nat, end: nat, p: nat, l: nat, h: nat, su: nat, sd: nat)
  {
    && begin <= p < end < |s|
    && begin <= l <= su <= end && begin <= sd <= h <= end && l <= h + 1
    && (h < end || su == p)
    && LessEq(s[p].title, s[su].title) && LessEq(s[sd].title, s[p].title)
  }

  /**
   * With a sentinel `su`, the upward scan passes only titles below the pivot
   * title and stops at one that is not.
   */
  lemma {:induction false} ScanUpStops(s: seq<Bid>, l: nat, p: nat, su: nat)
    requires p < |s| && l <= su < |s| && LessEq(s[p].title, s[su].title)
    ensures LessEq(s[p].title, s[ScanUp(s, l, p, su)].title)
    ensures forall k :: l <= k < ScanUp(s, l, p, su) ==> Less(s[k].title, s[p].title)
    decreases su - l
  {
    if l < su && Less(s[l].title, s[p].title) {
      ScanUpStops(s, l + 1, p, su);
    }
  }

  /**
   * With a sentinel `sd`, the downward scan passes only titles above the pivot
   * title and stops at one that is not.
   */
  lemma {:induction false} ScanDownStops(s: seq<Bid>, h: nat, p: nat, sd: nat)
    requires p < |s| && sd <= h < |s| && LessEq(s[sd].title, s[p].title)
    ensures LessEq(s[ScanDown(s, h, p, sd)].title, s[p].title)
    ensures forall k :: ScanDown(s, h, p, sd) < k <= h ==> Less(s[p].title, s[k].title)
    decreases h - sd
  {
    if sd < h && Less(s[p].title, s[h].title) {
      ScanDownStops(s, h - 1, p, sd);
    }
  }

  /** After the swap, the next round starts ready, with the cursors closer. */
  lemma RoundAfterSwap(s: seq<Bid>, begin: nat, end: nat, p: nat, l: nat, h: nat, su: nat, sd: nat)
    requires RoundReady(s, begin, end, p, l, h, su, sd)
    requires ScanUp(s, l, p, su) < ScanDown(s, h, p, sd)
    ensures var l', h' := ScanUp(s, l, p, su), ScanDown(s, h, p, sd);
      RoundReady(Swap(s, l', h'), begin, end, p, l' + 1, h' - 1, h', l') && (h' - 1) - (l' + 1) < h - l
  {
    ScanUpStops(s, l, p, su);
    ScanDownStops(s, h, p, sd);
    SwapMakesSentinels(s, p, ScanUp(s, l, p, su), ScanDown(s, h, p, sd));
  }

  /**
   * The invariant of `partition`'s loop, against the partition `target` of the
   * original contents: while it is unfinished, the rest of `PartitionLoop` from the
   * current state yields `target`; once finished, the state is `target`.
   */
  ghost predicate LoopState(s: seq<Bid>, target: (seq<Bid>, int), begin: nat, end: nat, p: nat, l: nat, h: nat, su: nat, sd: nat, finished: bool)
  {
    if finished then (s, h as int) == target
    else
      && RoundReady(s, begin, end, p, l, h, su, sd)
      && PartitionLoop(s, begin, end, p, l, h, su, sd) == target
  }

  /** A round whose scans meet, at `a` and `b`, ends the loop in the state `target`. */
  lemma LoopStateFinish(s: seq<Bid>, target: (seq<Bid>, int), begin: nat, end: nat, p: nat, l: nat, h: nat, su: nat, sd: nat, a: nat, b: nat)
    requires LoopState(s, target, begin, end, p, l, h, su, sd, false)
    requires a == ScanUp(s, l, p, su) && b == ScanDown(s, h, p, sd) && a >= b
    ensures LoopState(s, target, begin, end, p, a, b, su, sd, true)
  {
    PartitionLoopStep(s, begin, end, p, l, h, su, sd, a, b);
  }

  /** A round whose scans stop at `a < b` swaps them, keeps `LoopState` and brings the cursors closer. */
  lemma LoopStateSwap(s: seq<Bid>, target: (seq<Bid>, int), begin: nat, end: nat, p: nat, l: nat, h: nat, su: nat, sd: nat, a: nat, b: nat, t: seq<Bid>)
    requires LoopState(s, target, begin, end, p, l, h, su, sd, false)
    requires a == ScanUp(s, l, p, su) && b == ScanDown(s, h, p, sd) && a < b
    requires t == Swap(s, a, b)
    ensures LoopState(t, target, begin, end, p, a + 1, b - 1, b, a, false) && (b - 1) - (a + 1) < h - l
  {
    PartitionLoopStep(s, begin, end, p, l, h, su, sd, a, b);
    RoundAfterSwap(s, begin, end, p, l, h, su, sd);
  }

  /**
   * One round of `partition`'s loop: both scans, then either `finished = true`
   * or a swap and `++l; --h;`.
   */
  method PartitionRound(bids: array<Bid>, ghost target: (seq<Bid>, int), begin: nat, end: nat, pivot: nat, l: nat, h: nat, ghost su: nat, ghost sd: nat)
    returns (l': nat, h': nat, finished: bool, ghost su': nat, ghost sd': nat)
    requires LoopState(bids[..], target, begin, end, pivot, l, h, su, sd, false)
    modifies bids
    ensures LoopState(bids[..], target, begin, end, pivot, l', h', su', sd', finished)
    ensures !finished ==> h' - l' < h - l
  {
    ghost var s := bids[..];
    l' := ScanUpFrom(bids, l, pivot, su);
    h' := ScanDownFrom(bids, h, pivot, sd);
    if l' >= h' {
      LoopStateFinish(s, target, begin, end, pivot, l, h, su, sd, l', h');
      finished := true;
      su', sd' := su, sd;
    } else {
      finished := false;
      SwapElements(bids, l', h');
      LoopStateSwap(s, target, begin, end, pivot, l, h, su, sd, l', h', bids[..]);
      su', sd' := h', l';
      l', h' := l' + 1, h' - 1;
    }
  }

  /**
   * `partition`: every index it reads stays within `[begin, end]`, and the split
   * it returns satisfies `begin <= h < end`, so both halves are strictly smaller.
   */
  method Partition(bids: array<Bid>, begin: int, end: int) returns (h: int)
    requires 0 <= begin < end < bids.Length
    modifies bids
    ensures (bids[..], h) == Partitioned(old(bids[..]), begin, end)
    ensures begin <= h < end
  {
    var l: nat := begin;
    var hi: nat := end;
    var pivot: nat := begin + (end - begin) / 2;
    var finished := false;
    LessIrreflexive(bids[pivot].title);
    ghost var su, sd := pivot, pivot;
    ghost var target := Partitioned(bids[..], begin, end);
    while !finished
      invariant LoopState(bids[..], target, begin, end, pivot, l, hi, su, sd, finished)
      decreases !finished, hi - l + 2
    {
      l, hi, finished, su, sd := PartitionRound(bids, target, begin, end, pivot, l, hi, su, sd);
    }
    h := hi;
  }

  /**
   * `quickSort`: returns at once when `begin >= end` (the call `quickSort(bids, 0,
   * bids.size() - 1)` on an empty vector passes `end == -1`), and otherwise
   * recurses on `[begin, middle]` and `[middle + 1, end]`, both strictly smaller.
   * The result is `QuickSorted` of the old contents, which `QuickSortedPermutes`
   * and `QuickSortedFrame` show permutes `[begin, end]` and nothing else.
   */
  method QuickSort(bids: array<Bid>, begin: int, end: int)
    requires begin < end ==> 0 <= begin && end < bids.Length
    modifies bids
    ensures bids[..] == QuickSorted(old(bids[..]), begin, end)
    decreases end - begin
  {
    var middle: nat := 0;
    if begin >= end {
      return;
    }
    middle := Partition(bids, begin, end);
    QuickSort(bids, begin, middle);
    QuickSort(bids, middle + 1, end);
  }

  //===========================================================================
  // Quicksort does not sort
  //===========================================================================

  function Titled(t: string): Bid
  {
    Bid("", t, "", 0.0)
  }

  /**
   * On titles C, D, B, A: `partition(0, 3)` takes the pivot index 1 (title D),
   * swaps positions 1 and 3, and then compares against the title A now at index 1,
   * returning 1. Sorting `[C, A]` and `[B, D]` separately yields A, C, B, D.
   */
  lemma QuickSortCounterexample()
    ensures QuickSorted([Titled("C"), Titled("D"), Titled("B"), Titled("A")], 0, 3)
         == [Titled("A"), Titled("C"), Titled("B"), Titled("D")]
  {
    var a, b, c, d := Titled("A"), Titled("B"), Titled("C"), Titled("D");
    var s := [c, d, b, a];
    assert Less("A", "B") && Less("A", "C") && Less("A", "D") && Less("B", "C") && Less("B", "D") && Less("C", "D");
    assert !Less("A", "A") && !Less("B", "B") && !Less("C", "C") && !Less("D", "D");
    assert !Less("D", "A") && !Less("C", "A") && !Less("B", "A");
    // partition(0, 3): the pivot index is 1, title D
    assert ScanUp(s, 0, 1, 1) == 1;
    assert ScanDown(s, 3, 1, 1) == 3;
    var s1 := [c, a, b, d];
    assert Swap(s, 1, 3) == s1;
    // the title at the pivot index is now A
    assert ScanUp(s1, 2, 1, 3) == 2;
    assert ScanDown(s1, 2, 1, 1) == 1;
    assert PartitionLoop(s1, 0, 3, 1, 2, 2, 3, 1) == (s1, 1);
    assert Partitioned(s, 0, 3) == (s1, 1);
    // quickSort(0, 1)
    assert ScanUp(s1, 0, 0, 0) == 0;
    assert ScanDown(s1, 1, 0, 0) == 1;
    var s2 := [a, c, b, d];
    assert Swap(s1, 0, 1) == s2;
    assert ScanUp(s2, 1, 0, 1) == 1;
    assert ScanDown(s2, 0, 0, 0) == 0;
    assert PartitionLoop(s2, 0, 1, 0, 1, 0, 1, 0) == (s2, 0);
    assert Partitioned(s1, 0, 1) == (s2, 0);
    assert QuickSorted(s1, 0, 1) == s2;
    // quickSort(2, 3)
    assert ScanUp(s2, 2, 2, 2) == 2;
    assert ScanDown(s2, 3, 2, 2) == 2;
    assert Partitioned(s2, 2, 3) == (s2, 2);
    assert QuickSorted(s2, 2, 3) == s2;
  }

  lemma QuickSortIsNotASort()
    ensures !SortedByTitle(QuickSorted([Titled("C"), Titled("D"), Titled("B"), Titled("A")], 0, 3))
  {
    QuickSortCounterexample();
    var r := [Titled("A"), Titled("C"), Titled("B"), Titled("D")];
    assert Less("B", "C");
    assert !LessEq(r[1].title, r[2].title);
  }

  /** Both sorts applied to copies of the same vector give different results. */
  method SortsDisagree()
  {
    var input := [Titled("C"), Titled("D"), Titled("B"), Titled("A")];
    var x := new Bid[4](i requires 0 <= i < 4 => input[i]);
    var y := new Bid[4](i requires 0 <= i < 4 => input[i]);
    assert x[..] == input && y[..] == input;
    SelectionSort(x);
    QuickSort(y, 0, 3);
    QuickSortIsNotASort();
    assert SortedByTitle(x[..]) && !SortedByTitle(y[..]);
  }
}
