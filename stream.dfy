/**
 The row-at-a-time variant `ts_match_locs_byid` of zulip_tsearch.c. Its first call
 builds a cursor and keeps it in the per-query slot (`funcctx->user_fctx`); every call,
 the first included, resumes that cursor, asks it for one more match and returns that
 match as a row, or signals that the set is done.
 */
module Streaming {
  import opened HeadlineWords
  import opened Cursor
  import Collector

  datatype Option<T> = None | Some(value: T)

  class MatchStream {
    /** The cursor kept across calls. */
    const mdata: MatchCursor

    ghost predicate Valid()
      reads this, mdata
    {
      mdata.Valid() && mdata.policy == SkipOnly
    }

    /** The rows returned so far. */
    ghost function Delivered(): seq<Location>
      reads this, mdata
      requires Valid()
    {
      mdata.Emitted()
    }

    /** The first-call branch: set up the cursor over the highlighter's words. */
    constructor FirstCall(ws: seq<WordEntry>)
      ensures Valid() && fresh(mdata)
      ensures mdata.words == ws && mdata.curWord == 0
      ensures Delivered() == []
    {
      mdata := new MatchCursor.Setup(ws, SkipOnly);
    }

    /** One call: resume the stored cursor and return at most one row. Once the cursor
        is exhausted every further call returns `None` and changes nothing. */
    method PerCall() returns (row: Option<Location>)
      requires Valid()
      modifies mdata
      ensures Valid()
      ensures Delivered() == old(Delivered()) + (if row.Some? then [row.value] else [])
      ensures row.Some? ==> old(mdata.curWord) < mdata.curWord
      ensures row.None? ==> mdata.curWord == |mdata.words|
      ensures old(mdata.curWord) == |mdata.words| ==> row.None? && mdata.curWord == old(mdata.curWord)
    {
      var found, loc := mdata.NextMatch();
      if found {
        row := Some(loc);
      } else {
        row := None;
      }
    }
  }

  /** Calls the row-at-a-time function until it signals done; the rows are exactly the
      matches of the zulip_tsearch.c rule, in order. */
  method MatchLocs(ws: seq<WordEntry>) returns (rows: seq<Location>)
    ensures rows == Matches(ws, SkipOnly, |ws|)
  {
    var srf := new MatchStream.FirstCall(ws);
    rows := [];
    var done := false;
    while !done
      invariant srf.Valid() && srf.mdata.words == ws
      invariant rows == srf.Delivered()
      invariant done ==> srf.mdata.curWord == |ws|
      decreases |ws| - srf.mdata.curWord, !done
    {
      var row := srf.PerCall();
      match row
      case Some(loc) => rows := rows + [loc];
      case None => done := true;
    }
  }

  /** Streaming to exhaustion and collecting in one batch give the same matches in the
      same order. */
  method StreamMatchesBatch(ws: seq<WordEntry>) returns (rows: seq<Location>, numMatches: nat, flat: seq<int>)
    ensures |rows| == numMatches && |flat| == 2 * numMatches
    ensures forall i :: 0 <= i < numMatches ==> flat[2 * i] == rows[i].offset && flat[2 * i + 1] == rows[i].len
  {
    rows := MatchLocs(ws);
    numMatches, flat := Collector.MatchLocsArray(ws, SkipOnly);
  }
}
