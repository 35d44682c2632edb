/** The no-skip rewrite of ttv_fetch_func (src/ttview.c:353-366): every
    reference skip of a fetched record's CIGAR becomes a deletion, so that
    spliced reads are drawn with '*' instead of '<'/'>'. A CIGAR operation
    is packed as length << 4 | op (section 4.2 of the SAM/BAM Format
    Specification). */
module Cigar {

  type CigarOp = bv32

  const DEL: bv32 := 2
  const REF_SKIP: bv32 := 3

  function OpCode(w: CigarOp): bv32 { w & 0xF }
  function OpLength(w: CigarOp): bv32 { w >> 4 }

  /** One operation after the rewrite: a reference skip turns into a
      deletion of the same length, anything else is kept. */
  function SkipAsDeletion(w: CigarOp): (r: CigarOp)
    ensures OpLength(r) == OpLength(w)
    ensures OpCode(w) == REF_SKIP ==> OpCode(r) == DEL
    ensures OpCode(w) != REF_SKIP ==> r == w
    ensures OpCode(r) != REF_SKIP
  {
    if (w & 0xF) == REF_SKIP then ((w >> 4) << 4) | DEL else w
  }

  /** Rewriting twice is rewriting once. */
  lemma SkipAsDeletionIdempotent(w: CigarOp)
    ensures SkipAsDeletion(SkipAsDeletion(w)) == SkipAsDeletion(w)
  {
  }

  predicate NoRefSkip(cigar: seq<CigarOp>)
  {
    forall i :: 0 <= i < |cigar| ==> OpCode(cigar[i]) != REF_SKIP
  }

  /** The rewrite of the whole operation list, as a value. */
  function Rewritten(cigar: seq<CigarOp>): (r: seq<CigarOp>)
    ensures |r| == |cigar|
    ensures NoRefSkip(r)
    ensures forall i :: 0 <= i < |cigar| ==> OpLength(r[i]) == OpLength(cigar[i])
    ensures forall i :: 0 <= i < |cigar| && OpCode(cigar[i]) != REF_SKIP ==> r[i] == cigar[i]
  {
    seq(|cigar|, i requires 0 <= i < |cigar| => SkipAsDeletion(cigar[i]))
  }

  /** A list without reference skips is left as it is; hence the rewrite is
      idempotent. */
  lemma {:induction false} RewrittenIdempotent(cigar: seq<CigarOp>)
    ensures NoRefSkip(cigar) ==> Rewritten(cigar) == cigar
    ensures Rewritten(Rewritten(cigar)) == Rewritten(cigar)
  {
    var r := Rewritten(cigar);
    assert |Rewritten(r)| == |r|;
    forall i | 0 <= i < |r| ensures Rewritten(r)[i] == r[i] {
      SkipAsDeletionIdempotent(cigar[i]);
    }
  }

  /** The loop of src/ttview.c:357-363, in place on the record's CIGAR array;
      with no_skip off the record is left alone. */
  method FetchRewrite(noSkip: bool, cigar: array<CigarOp>)
    modifies cigar
    ensures noSkip ==> cigar[..] == Rewritten(old(cigar[..]))
    ensures !noSkip ==> cigar[..] == old(cigar[..])
  {
    if noSkip {
      var i := 0;
      while i < cigar.Length
        invariant 0 <= i <= cigar.Length
        invariant cigar[..i] == Rewritten(old(cigar[..]))[..i]
        invariant cigar[i..] == old(cigar[i..])
      {
        if (cigar[i] & 0xF) == REF_SKIP {
          cigar[i] := ((cigar[i] >> 4) << 4) | DEL;
        }
        i := i + 1;
      }
    }
  }
}
