/**
 * `arrayMove(array, from, to)` of @dnd-kit/sortable, which the canvas uses for
 * every reorder. The helper is not part of the repository; it is defined here
 * after the published library: copy the array, cut the item at `from` out with
 * `splice`, and splice it back in at `to`. The target index is computed from
 * the length BEFORE the cut (a negative `to` counts from the end of the full
 * array), and both calls normalise their start index the way JavaScript's
 * `Array.prototype.splice` does: a negative start counts from the end, and an
 * out-of-range start is clamped. In particular `from == -1`, which is what
 * `findIndex` yields for a missing id, cuts out the LAST item.
 */
module ArrayMoves {

  /** The start position `Array.prototype.splice(start, ...)` uses on an array of length `len`. */
  function SpliceStart(len: nat, start: int): (r: nat)
    ensures r <= len
    ensures 0 <= start <= len ==> r == start
    ensures start < 0 && -start <= len ==> r == len + start
    ensures start < 0 && -start > len ==> r == 0
    ensures start > len ==> r == len
  {
    if start < 0 then (if len + start < 0 then 0 else len + start)
    else if start > len then len
    else start
  }

  /** The position the item is cut from. */
  function MovedFrom(len: nat, from: int): (f: nat)
    requires len > 0 && from < len
    ensures f < len
    ensures from == -1 ==> f == len - 1
  {
    SpliceStart(len, from)
  }

  /** The position the item is spliced back in at, in the array after the cut. */
  function MovedTo(len: nat, to: int): (t: nat)
    requires len > 0
    ensures t < len
    ensures 0 <= to < len ==> t == to
    ensures to == -1 ==> t == len - 1
  {
    SpliceStart(len - 1, if to < 0 then len + to else to)
  }

  /**
   * Where the item at position `k` of the result comes from, when the item at
   * `f` is moved to `t`: the moved item lands at `t`, and the items between the
   * two positions shift by one towards `f`.
   */
  function MoveSource(k: nat, f: nat, t: nat): nat
  {
    if k == t then f
    else if f <= k < t then k + 1
    else if t < k <= f then k - 1
    else k
  }

  /** Cuts the item at `f` out and splices it back in at `t`. */
  function MoveItem<T>(s: seq<T>, f: nat, t: nat): seq<T>
    requires f < |s| && t < |s|
  {
    var rest := s[..f] + s[f + 1..];
    rest[..t] + [s[f]] + rest[t..]
  }

  lemma {:induction false} MoveItemAt<T>(s: seq<T>, f: nat, t: nat, k: nat)
    requires f < |s| && t < |s| && k < |s|
    ensures |MoveItem(s, f, t)| == |s|
    ensures MoveSource(k, f, t) < |s| && MoveItem(s, f, t)[k] == s[MoveSource(k, f, t)]
  {
    var rest := s[..f] + s[f + 1..];
    assert |rest| == |s| - 1;
    if k < t {
      assert MoveItem(s, f, t)[k] == rest[k];
    } else if k > t {
      assert MoveItem(s, f, t)[k] == rest[k - 1];
    }
  }

  lemma {:induction false} MoveItemPermutes<T>(s: seq<T>, f: nat, t: nat)
    requires f < |s| && t < |s|
    ensures multiset(MoveItem(s, f, t)) == multiset(s)
  {
    var rest := s[..f] + s[f + 1..];
    calc {
      multiset(s);
      { assert s == s[..f] + [s[f]] + s[f + 1..]; }
      multiset(s[..f]) + multiset{s[f]} + multiset(s[f + 1..]);
      multiset(rest) + multiset{s[f]};
      { assert rest == rest[..t] + rest[t..]; }
      multiset(rest[..t]) + multiset(rest[t..]) + multiset{s[f]};
      multiset(rest[..t] + [s[f]] + rest[t..]);
    }
  }

  function ArrayMove<T>(s: seq<T>, from: int, to: int): (r: seq<T>)
    requires |s| > 0 && from < |s|
    ensures |r| == |s|
    ensures multiset(r) == multiset(s)
    ensures forall k :: 0 <= k < |r| ==>
      MoveSource(k, MovedFrom(|s|, from), MovedTo(|s|, to)) < |s| &&
      r[k] == s[MoveSource(k, MovedFrom(|s|, from), MovedTo(|s|, to))]
  {
    var f, t := MovedFrom(|s|, from), MovedTo(|s|, to);
    assert forall k :: 0 <= k < |s| ==>
      MoveSource(k, f, t) < |s| && MoveItem(s, f, t)[k] == s[MoveSource(k, f, t)] by {
      forall k | 0 <= k < |s| ensures MoveSource(k, f, t) < |s| && MoveItem(s, f, t)[k] == s[MoveSource(k, f, t)] {
        MoveItemAt(s, f, t, k);
      }
    }
    MoveItemPermutes(s, f, t);
    MoveItem(s, f, t)
  }

  /** Moving an item onto its own position leaves the array as it is. */
  lemma {:induction false} ArrayMoveInPlace<T>(s: seq<T>, i: nat)
    requires i < |s|
    ensures ArrayMove(s, i, i) == s
  {
    var r := ArrayMove(s, i, i);
    assert forall k :: 0 <= k < |s| ==> r[k] == s[k];
  }

  /** Array-move, not swap: moving A onto C in [A, B, C] gives [B, C, A]. */
  lemma {:induction false} ArrayMoveIsNotSwap()
    ensures ArrayMove(['A', 'B', 'C'], 0, 2) == ['B', 'C', 'A']
  {
    var r := ArrayMove(['A', 'B', 'C'], 0, 2);
    assert r[0] == 'B' && r[1] == 'C' && r[2] == 'A';
  }

  /** A missing source index (-1) moves the last item, whatever the target. */
  lemma {:induction false} ArrayMoveMissingSource<T>(s: seq<T>, to: int)
    requires |s| > 0
    ensures ArrayMove(s, -1, to)[MovedTo(|s|, to)] == s[|s| - 1]
  {
  }
}
