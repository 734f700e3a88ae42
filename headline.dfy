/**
 The annotated headline words that the highlighter hands to the match-location
 extractor, the two exclusion policies of the extractor's revisions, and the
 specification of what a left-to-right walk over the words reports.

 The specification functions take a prefix length `k`: they describe the walk
 after it has examined the words `ws[0]`, ..., `ws[k - 1]`.
 */
module HeadlineWords {

  /** One headline word entry: its length in bytes of the document text (C `char`s)
      and the three flags the extractor inspects. */
  datatype WordEntry = WordEntry(len: nat, selected: bool, skip: bool, repeated: bool)

  /** The exclusion rule of each revision of the extractor:
      `SkipOrRepeated` is the rule of tsearch_extras.c, `SkipOnly` that of zulip_tsearch.c. */
  datatype Policy = SkipOrRepeated | SkipOnly

  /** A reported match: its offset and its length, both counted in bytes of the
      document text. */
  datatype Location = Location(offset: nat, len: nat)

  /** An excluded entry neither advances the running offset nor is reported. */
  predicate Excluded(w: WordEntry, p: Policy)
  {
    w.skip || (p == SkipOrRepeated && w.repeated)
  }

  /** What an entry adds to the running offset (`char_offset`, a count of bytes). */
  function Advance(w: WordEntry, p: Policy): nat
  {
    if Excluded(w, p) then 0 else w.len
  }

  /** An entry the walk stops at and reports. */
  predicate Reported(w: WordEntry, p: Policy)
  {
    !Excluded(w, p) && w.selected
  }

  /** The running offset, in bytes, after examining the first `k` entries. */
  function Consumed(ws: seq<WordEntry>, p: Policy, k: nat): nat
    requires k <= |ws|
  {
    if k == 0 then 0 else Consumed(ws, p, k - 1) + Advance(ws[k - 1], p)
  }

  /** The matches reported while examining the first `k` entries, in emission order. */
  function Matches(ws: seq<WordEntry>, p: Policy, k: nat): seq<Location>
    requires k <= |ws|
  {
    if k == 0 then []
    else
      Matches(ws, p, k - 1) +
      (if Reported(ws[k - 1], p) then [Location(Consumed(ws, p, k - 1), ws[k - 1].len)] else [])
  }

  /** The indices of the reported entries among the first `k`, in increasing order. */
  function ReportedIndices(ws: seq<WordEntry>, p: Policy, k: nat): seq<nat>
    requires k <= |ws|
  {
    if k == 0 then []
    else ReportedIndices(ws, p, k - 1) + (if Reported(ws[k - 1], p) then [k - 1] else [])
  }

  /** The sum of the lengths of the first `k` entries, excluded or not. */
  function SumLen(ws: seq<WordEntry>, k: nat): nat
    requires k <= |ws|
  {
    if k == 0 then 0 else SumLen(ws, k - 1) + ws[k - 1].len
  }

  /** The first index at or after `from` whose entry is reported, or `|ws|` if there is none. */
  function NextReported(ws: seq<WordEntry>, p: Policy, from: nat): (r: nat)
    requires from <= |ws|
    ensures from <= r <= |ws|
    ensures r < |ws| ==> Reported(ws[r], p)
    ensures forall i :: from <= i < r ==> !Reported(ws[i], p)
    decreases |ws| - from
  {
    if from == |ws| then |ws|
    else if Reported(ws[from], p) then from
    else NextReported(ws, p, from + 1)
  }

  /** `NextReported` is the first reported index: the one the scan stops at. */
  lemma NextReportedIs(ws: seq<WordEntry>, p: Policy, from: nat, k: nat)
    requires from <= k <= |ws|
    requires k < |ws| ==> Reported(ws[k], p)
    requires forall i :: from <= i < k ==> !Reported(ws[i], p)
    ensures NextReported(ws, p, from) == k
  {
  }

  /** The running offset never decreases as more entries are examined. */
  lemma {:induction false} ConsumedMonotone(ws: seq<WordEntry>, p: Policy, i: nat, j: nat)
    requires i <= j <= |ws|
    ensures Consumed(ws, p, i) <= Consumed(ws, p, j)
    decreases j - i
  {
    if i < j {
      ConsumedMonotone(ws, p, i, j - 1);
    }
  }

  /** The running offset is at most the total length of the entries examined, and equals
      it when none of them is excluded. */
  lemma {:induction false} ConsumedBound(ws: seq<WordEntry>, p: Policy, k: nat)
    requires k <= |ws|
    ensures Consumed(ws, p, k) <= SumLen(ws, k)
    ensures (forall i :: 0 <= i < k ==> !Excluded(ws[i], p)) ==> Consumed(ws, p, k) == SumLen(ws, k)
  {
    if k > 0 {
      ConsumedBound(ws, p, k - 1);
    }
  }

  /** The reported indices are exactly the reported entries, strictly increasing. */
  lemma {:induction false} ReportedIndicesSpec(ws: seq<WordEntry>, p: Policy, k: nat)
    requires k <= |ws|
    ensures forall n :: 0 <= n < |ReportedIndices(ws, p, k)| ==>
              ReportedIndices(ws, p, k)[n] < k && Reported(ws[ReportedIndices(ws, p, k)[n]], p)
    ensures forall n, m :: 0 <= n < m < |ReportedIndices(ws, p, k)| ==>
              ReportedIndices(ws, p, k)[n] < ReportedIndices(ws, p, k)[m]
    ensures forall i :: 0 <= i < k && Reported(ws[i], p) ==> i in ReportedIndices(ws, p, k)
  {
    if k > 0 {
      ReportedIndicesSpec(ws, p, k - 1);
    }
  }

  /** Match n is the entry at the n-th reported index, at the offset consumed by all
      entries before it and with that entry's own length. */
  lemma {:induction false} MatchesAt(ws: seq<WordEntry>, p: Policy, k: nat)
    requires k <= |ws|
    ensures |Matches(ws, p, k)| == |ReportedIndices(ws, p, k)|
    ensures forall n :: 0 <= n < |Matches(ws, p, k)| ==>
              ReportedIndices(ws, p, k)[n] < k &&
              Matches(ws, p, k)[n] == Location(Consumed(ws, p, ReportedIndices(ws, p, k)[n]),
                                               ws[ReportedIndices(ws, p, k)[n]].len)
  {
    if k > 0 {
      MatchesAt(ws, p, k - 1);
    }
  }

  /** Every match ends no later than the offset after the examined entries, and no later
      than the next match starts; so offsets are non-decreasing. */
  lemma {:induction false} MatchesOrdered(ws: seq<WordEntry>, p: Policy, k: nat)
    requires k <= |ws|
    ensures forall n :: 0 <= n < |Matches(ws, p, k)| ==>
              Matches(ws, p, k)[n].offset + Matches(ws, p, k)[n].len <= Consumed(ws, p, k)
    ensures forall n, m :: 0 <= n < m < |Matches(ws, p, k)| ==>
              Matches(ws, p, k)[n].offset + Matches(ws, p, k)[n].len <= Matches(ws, p, k)[m].offset
  {
    if k > 0 {
      MatchesOrdered(ws, p, k - 1);
    }
  }

  /** Offsets of reported matches are non-decreasing. */
  lemma OffsetsNonDecreasing(ws: seq<WordEntry>, p: Policy, n: nat, m: nat)
    requires n <= m < |Matches(ws, p, |ws|)|
    ensures Matches(ws, p, |ws|)[n].offset <= Matches(ws, p, |ws|)[m].offset
  {
    MatchesOrdered(ws, p, |ws|);
  }

  /** With no excluded entry, every selected entry is reported, at the sum of the lengths
      of all entries before it. */
  lemma NoExclusionPrefixSums(ws: seq<WordEntry>, p: Policy)
    requires forall i :: 0 <= i < |ws| ==> !Excluded(ws[i], p)
    ensures forall i :: 0 <= i < |ws| && ws[i].selected ==> i in ReportedIndices(ws, p, |ws|)
    ensures |Matches(ws, p, |ws|)| == |ReportedIndices(ws, p, |ws|)|
    ensures forall n :: 0 <= n < |Matches(ws, p, |ws|)| ==>
              ReportedIndices(ws, p, |ws|)[n] < |ws| &&
              ws[ReportedIndices(ws, p, |ws|)[n]].selected &&
              Matches(ws, p, |ws|)[n] == Location(SumLen(ws, ReportedIndices(ws, p, |ws|)[n]),
                                                  ws[ReportedIndices(ws, p, |ws|)[n]].len)
  {
    MatchesAt(ws, p, |ws|);
    ReportedIndicesSpec(ws, p, |ws|);
    forall n | 0 <= n < |Matches(ws, p, |ws|)|
      ensures Consumed(ws, p, ReportedIndices(ws, p, |ws|)[n]) == SumLen(ws, ReportedIndices(ws, p, |ws|)[n])
    {
      ConsumedBound(ws, p, ReportedIndices(ws, p, |ws|)[n]);
    }
  }

  /** The two revisions agree wherever no entry is marked repeated. */
  lemma {:induction false} PoliciesAgreeWithoutRepeated(ws: seq<WordEntry>, k: nat)
    requires k <= |ws|
    requires forall i :: 0 <= i < k ==> !ws[i].repeated
    ensures Consumed(ws, SkipOrRepeated, k) == Consumed(ws, SkipOnly, k)
    ensures Matches(ws, SkipOrRepeated, k) == Matches(ws, SkipOnly, k)
  {
    if k > 0 {
      PoliciesAgreeWithoutRepeated(ws, k - 1);
    }
  }

  /** The tsearch_extras.c rule never reports more matches than the zulip_tsearch.c
      rule, and never runs ahead of it in offset. */
  lemma {:induction false} SkipOrRepeatedReportsFewer(ws: seq<WordEntry>, k: nat)
    requires k <= |ws|
    ensures |Matches(ws, SkipOrRepeated, k)| <= |Matches(ws, SkipOnly, k)|
    ensures Consumed(ws, SkipOrRepeated, k) <= Consumed(ws, SkipOnly, k)
  {
    if k > 0 {
      SkipOrRepeatedReportsFewer(ws, k - 1);
    }
  }

  /** A selected, repeated entry that is not skip is reported by the zulip_tsearch.c
      rule only, and advances the offset by its length under that rule only. */
  lemma RepeatedEntryDiffers(ws: seq<WordEntry>, k: nat)
    requires k < |ws| && ws[k].selected && ws[k].repeated && !ws[k].skip
    ensures k in ReportedIndices(ws, SkipOnly, |ws|) && k !in ReportedIndices(ws, SkipOrRepeated, |ws|)
    ensures Consumed(ws, SkipOnly, k + 1) == Consumed(ws, SkipOnly, k) + ws[k].len
    ensures Consumed(ws, SkipOrRepeated, k + 1) == Consumed(ws, SkipOrRepeated, k)
    ensures Matches(ws, SkipOnly, k + 1) == Matches(ws, SkipOnly, k) + [Location(Consumed(ws, SkipOnly, k), ws[k].len)]
    ensures Matches(ws, SkipOrRepeated, k + 1) == Matches(ws, SkipOrRepeated, k)
  {
    ReportedIndicesSpec(ws, SkipOnly, |ws|);
    ReportedIndicesSpec(ws, SkipOrRepeated, |ws|);
  }

  /** A skip entry is never reported under either rule and adds nothing to the offset. */
  lemma SkipEntryIgnored(ws: seq<WordEntry>, p: Policy, k: nat)
    requires k < |ws| && ws[k].skip
    ensures k !in ReportedIndices(ws, p, |ws|)
    ensures Consumed(ws, p, k + 1) == Consumed(ws, p, k)
    ensures Matches(ws, p, k + 1) == Matches(ws, p, k)
  {
    ReportedIndicesSpec(ws, p, |ws|);
  }

  /** A five-word fixture: an unselected word, a selected one, a selected repeated one,
      a skip unit and a final selected word. */
  function Fixture(): seq<WordEntry>
  {
    [ WordEntry(5, false, false, false),
      WordEntry(3, true, false, false),
      WordEntry(4, true, false, true),
      WordEntry(2, false, true, false),
      WordEntry(6, true, false, false) ]
  }

  /** On the fixture the tsearch_extras.c rule ignores the repeated word entirely. */
  lemma FixtureSkipOrRepeated()
    ensures Matches(Fixture(), SkipOrRepeated, 5) == [Location(5, 3), Location(8, 6)]
    ensures Consumed(Fixture(), SkipOrRepeated, 5) == 14
  {
  }

  /** On the fixture the zulip_tsearch.c rule reports the repeated word and counts its length. */
  lemma FixtureSkipOnly()
    ensures Matches(Fixture(), SkipOnly, 5) == [Location(5, 3), Location(8, 4), Location(12, 6)]
    ensures Consumed(Fixture(), SkipOnly, 5) == 18
  {
  }
}
