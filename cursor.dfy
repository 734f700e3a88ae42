/**
 The extraction cursor (`TsMatchesData`): the headline words, the index of the next
 word to examine and the running offset in bytes, together with the step that
 advances it to the next reportable word (`ts_match_locs_next_match`).
 */
module Cursor {
  import opened HeadlineWords

  class MatchCursor {
    /** The headline words (`words`) and how many there are (`num_words`). */
    const words: seq<WordEntry>
    const numWords: nat
    /** The exclusion rule of the revision being modelled. */
    const policy: Policy
    /** Index of the next word to examine (`cur_word`). */
    var curWord: nat
    /** Running offset (`char_offset`), a count of bytes of the document text. */
    var charOffset: nat

    /** The cursor's invariant: it has examined exactly `words[..curWord]`, and the
        offset is what those words consumed. */
    ghost predicate Valid()
      reads this
    {
      numWords == |words| &&
      curWord <= numWords &&
      charOffset == Consumed(words, policy, curWord)
    }

    /** The matches reported so far, in emission order. */
    ghost function Emitted(): seq<Location>
      reads this
      requires Valid()
    {
      Matches(words, policy, curWord)
    }

    /** The cursor initialisation at the end of `ts_match_locs_setup`, given the words
        the highlighter produced. */
    constructor Setup(ws: seq<WordEntry>, p: Policy)
      ensures Valid()
      ensures words == ws && policy == p
      ensures curWord == 0 && charOffset == 0 && numWords == |ws|
      ensures Emitted() == []
    {
      words := ws;
      policy := p;
      numWords := |ws|;
      curWord := 0;
      charOffset := 0;
    }

    /** Examines words from `curWord` on until one is reported or all are examined.
        Each examined word moves `curWord` on by one; a word that is not excluded
        advances the offset, and the first selected such word is returned at the
        offset before its own length was added. */
    method NextMatch() returns (found: bool, loc: Location)
      requires Valid()
      modifies this
      ensures Valid()
      ensures found == (NextReported(words, policy, old(curWord)) < numWords)
      ensures curWord == if found then NextReported(words, policy, old(curWord)) + 1 else numWords
      ensures found ==> loc == Location(Consumed(words, policy, curWord - 1), words[curWord - 1].len)
      ensures found ==> Reported(words[curWord - 1], policy) && old(charOffset) <= loc.offset
      ensures found ==> charOffset == loc.offset + loc.len
      ensures Emitted() == old(Emitted()) + (if found then [loc] else [])
      ensures old(curWord) == numWords ==> !found && curWord == old(curWord) && charOffset == old(charOffset)
    {
      found, loc := false, Location(0, 0);
      ghost var start := curWord;
      while curWord < numWords
        invariant Valid()
        invariant start <= curWord <= numWords
        invariant forall i :: start <= i < curWord ==> !Reported(words[i], policy)
        invariant Emitted() == old(Emitted())
        invariant old(charOffset) <= charOffset
      {
        var word := words[curWord];
        var offset := charOffset;
        curWord := curWord + 1;
        if !Excluded(word, policy) {
          charOffset := charOffset + word.len;
          if word.selected {
            found, loc := true, Location(offset, word.len);
            NextReportedIs(words, policy, start, curWord - 1);
            return;
          }
        }
      }
      NextReportedIs(words, policy, start, numWords);
    }
  }
}
