/**
 The batch collector of `ts_match_locs_array_byid`: drains a fresh cursor into a flat
 buffer of (offset, length) pairs that starts with room for six matches and grows by a
 truncated factor of 1.5 whenever it is full.
 */
module Collector {
  import opened HeadlineWords
  import opened Cursor

  /** The initial capacity, in matches, of the buffer (`num_matches_allocd`). */
  const InitialCapacity: nat := 6

  /** `num_matches_allocd *= 1.5` on a non-negative integer: the product truncated. */
  function Grow(cap: nat): (r: nat)
    ensures 2 * r <= 3 * cap < 2 * r + 2
    ensures cap >= 2 ==> r > cap
  {
    cap * 3 / 2
  }

  /** Capacity after `n` growths from the initial capacity. */
  function CapacityAfter(n: nat): nat
  {
    if n == 0 then InitialCapacity else Grow(CapacityAfter(n - 1))
  }

  /** From the initial capacity on, every growth strictly increases the capacity. */
  lemma {:induction false} CapacityIncreases(n: nat)
    ensures CapacityAfter(n) >= InitialCapacity + n
    ensures CapacityAfter(n + 1) > CapacityAfter(n)
  {
    if n > 0 {
      CapacityIncreases(n - 1);
    }
  }

  /** The first capacities are 6, 9, 13, 19 and 28. */
  lemma CapacitySequence()
    ensures CapacityAfter(1) == 9 && CapacityAfter(2) == 13 && CapacityAfter(3) == 19 && CapacityAfter(4) == 28
  {
  }

  /** `repalloc`: a new buffer of `newLength` slots whose first slots hold the old buffer. */
  method Reallocate(elems: array<int>, newLength: nat) returns (r: array<int>)
    requires elems.Length <= newLength
    ensures fresh(r) && r.Length == newLength
    ensures forall j :: 0 <= j < elems.Length ==> r[j] == elems[j]
  {
    r := new int[newLength];
    for i := 0 to elems.Length
      invariant forall j :: 0 <= j < i ==> r[j] == elems[j]
    {
      r[i] := elems[i];
    }
  }

  /** Stores match number `n` in slots 2n and 2n+1, first growing the buffer if it is full. */
  method Append(elems: array<int>, cap: nat, n: nat, loc: Location) returns (buf: array<int>, newCap: nat)
    requires InitialCapacity <= cap && elems.Length == 2 * cap && n <= cap
    modifies elems
    ensures newCap == if n >= cap then Grow(cap) else cap
    ensures InitialCapacity <= newCap && buf.Length == 2 * newCap && n < newCap
    ensures if n >= cap then fresh(buf) else buf == elems
    ensures forall j :: 0 <= j < 2 * n ==> buf[j] == old(elems[j])
    ensures buf[2 * n] == loc.offset && buf[2 * n + 1] == loc.len
  {
    buf, newCap := elems, cap;
    if n >= cap {
      newCap := Grow(cap);
      buf := Reallocate(elems, 2 * newCap);
    }
    buf[n * 2] := loc.offset;
    buf[n * 2 + 1] := loc.len;
  }

  /** Runs the highlighter's words through a fresh cursor and collects every match:
      match i has its offset in slot 2i and its length in slot 2i+1 of the result,
      which has exactly `numMatches` rows of two columns. */
  method MatchLocsArray(ws: seq<WordEntry>, p: Policy) returns (numMatches: nat, result: seq<int>)
    ensures numMatches == |Matches(ws, p, |ws|)|
    ensures |result| == 2 * numMatches
    ensures forall i :: 0 <= i < numMatches ==>
              result[2 * i] == Matches(ws, p, |ws|)[i].offset && result[2 * i + 1] == Matches(ws, p, |ws|)[i].len
  {
    var cap := InitialCapacity;
    var elems := new int[2 * cap];
    var mdata := new MatchCursor.Setup(ws, p);
    numMatches := 0;
    ghost var got: seq<Location> := [];
    ghost var growths: nat := 0;
    while true
      invariant mdata.Valid() && mdata.words == ws && mdata.policy == p
      invariant fresh(elems) && InitialCapacity <= cap && elems.Length == 2 * cap && numMatches <= cap
      invariant cap == CapacityAfter(growths)
      invariant mdata.Emitted() == got && |got| == numMatches
      invariant forall i :: 0 <= i < numMatches ==> elems[2 * i] == got[i].offset && elems[2 * i + 1] == got[i].len
      decreases |ws| - mdata.curWord
    {
      var found, loc := mdata.NextMatch();
      if !found {
        break;
      }
      if numMatches >= cap {
        growths := growths + 1;
      }
      elems, cap := Append(elems, cap, numMatches, loc);
      numMatches := numMatches + 1;
      got := got + [loc];
    }
    result := elems[..2 * numMatches];
  }
}
