/**
 `tsvector_lexemes`: the lexeme strings of an indexed document, one per entry, each cut
 out of the document value's string area at the entry's position and length.
 */
module Lexemes {

  /** One lexeme entry of a tsvector: where its text starts in the string area and how
      many bytes it has. */
  datatype LexemeEntry = LexemeEntry(pos: nat, len: nat)

  /** A tsvector: its entries (`size` of them) and the string area they point into.
      Each element of `strings` is one byte of the stored text (a C `char`). */
  datatype TsVector = TsVector(entries: seq<LexemeEntry>, strings: seq<char>)

  /** Every entry lies within the string area, as the tsvector format guarantees. */
  predicate WellFormed(v: TsVector)
  {
    forall i :: 0 <= i < |v.entries| ==> v.entries[i].pos + v.entries[i].len <= |v.strings|
  }

  /** Fills one text element per entry, in entry order. */
  method TsvectorLexemes(v: TsVector) returns (lexemes: seq<string>)
    requires WellFormed(v)
    ensures |lexemes| == |v.entries|
    ensures forall i :: 0 <= i < |lexemes| ==>
              |lexemes[i]| == v.entries[i].len &&
              lexemes[i] == v.strings[v.entries[i].pos .. v.entries[i].pos + v.entries[i].len]
  {
    var elems := new string[|v.entries|];
    for i := 0 to |v.entries|
      invariant forall j :: 0 <= j < i ==>
                  elems[j] == v.strings[v.entries[j].pos .. v.entries[j].pos + v.entries[j].len]
    {
      var entry := v.entries[i];
      elems[i] := v.strings[entry.pos .. entry.pos + entry.len];
    }
    lexemes := elems[..];
  }
}
