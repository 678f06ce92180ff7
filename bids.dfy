/**
 * The bid record that LinkedList/LinkedList.cpp and VectorSorting/VectorSorting.cpp
 * each declare identically, and the character-stripping step of their identical
 * `strToDouble` helpers.
 */
module Bids {

  /**
   * One bid. The amount is a C++ `double`; it is only carried from record to record
   * and never compared or computed with, so it is modelled as a `real`.
   */
  datatype Bid = Bid(bidId: string, title: string, fund: string, amount: real)

  /**
   * What `Bid()` builds: empty strings and an amount of 0.0. Its empty id is what
   * callers test to tell a failed search from a found bid.
   */
  function DefaultBid(): (b: Bid)
    ensures b.bidId == [] && b.amount == 0.0
  {
    Bid("", "", "", 0.0)
  }

  /** The string that remains once every occurrence of `ch` is erased. */
  function Strip(s: string, ch: char): (r: string)
    ensures |r| <= |s|
    ensures forall i :: 0 <= i < |r| ==> r[i] != ch
  {
    if s == [] then []
    else if s[0] == ch then Strip(s[1..], ch)
    else [s[0]] + Strip(s[1..], ch)
  }

  /** Stripping keeps every other character as often as it occurs and drops `ch` entirely. */
  lemma {:induction false} StripMultiset(s: string, ch: char)
    ensures multiset(Strip(s, ch)) == multiset(s)[ch := 0]
  {
    if s != [] {
      assert s == [s[0]] + s[1..];
      StripMultiset(s[1..], ch);
    }
  }

  /** Stripping distributes over concatenation: what is kept keeps its order. */
  lemma {:induction false} StripAppend(x: string, y: string, ch: char)
    ensures Strip(x + y, ch) == Strip(x, ch) + Strip(y, ch)
  {
    if x == [] {
      assert x + y == y;
    } else {
      assert (x + y)[1..] == x[1..] + y;
      StripAppend(x[1..], y, ch);
    }
  }

  /** A string with no `ch` in it is left exactly as it is. */
  lemma {:induction false} StripNoOccurrence(s: string, ch: char)
    requires forall i :: 0 <= i < |s| ==> s[i] != ch
    ensures Strip(s, ch) == s
  {
    if s != [] {
      StripNoOccurrence(s[1..], ch);
    }
  }

  lemma StripIdempotent(s: string, ch: char)
    ensures Strip(Strip(s, ch), ch) == Strip(s, ch)
  {
    StripNoOccurrence(Strip(s, ch), ch);
  }

  /**
   * `std::remove(a.begin(), a.end(), ch)`: moves every character other than `ch`
   * to the front, in order, and returns the new logical end. The characters from
   * that end on are what `erase` then cuts off.
   */
  method RemoveInPlace(a: array<char>, ch: char) returns (len: nat)
    modifies a
    ensures len <= a.Length
    ensures a[..len] == Strip(old(a[..]), ch)
  {
    ghost var s := a[..];
    var w := 0;
    var r := 0;
    while r < a.Length
      invariant 0 <= w <= r <= a.Length
      invariant a[..w] == Strip(s[..r], ch)
      invariant forall k :: r <= k < a.Length ==> a[k] == s[k]
    {
      assert s[..r + 1] == s[..r] + [s[r]];
      StripAppend(s[..r], [s[r]], ch);
      ghost var kept := a[..w];
      if a[r] != ch {
        a[w] := a[r];
        assert a[..w + 1] == kept + [s[r]];
        w := w + 1;
      }
      r := r + 1;
    }
    assert s[..r] == s;
    len := w;
  }

  /**
   * The first line of `strToDouble`: `str` is taken by value, so the caller's
   * string is untouched and the stripped copy is what `atof` then reads.
   */
  method StripChar(str: string, ch: char) returns (stripped: string)
    ensures stripped == Strip(str, ch)
  {
    var a := new char[|str|](i requires 0 <= i < |str| => str[i]);
    assert a[..] == str;
    var len := RemoveInPlace(a, ch);
    stripped := a[..len];
  }
}
