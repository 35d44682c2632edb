/** The consensus call of one pileup column (ttv_pl_func, src/ttview.c:175-197):
    rank the four bases by quality-weighted evidence, compare three genotype
    scores for the two best alleles (lower is better) and show the call as an
    IUPAC nucleotide code (NC-IUB 1984). The evidence sums and the pairwise
    score matrix come from the samtools caller and are inputs here. */
module Consensus {
  import opened Text

  /** The four canonical bases, by index. */
  const BASES: seq<char> := "ACGT"

  /** Index = bit set of bases (A=1, C=2, G=4, T=8); entry 0 is never a call. */
  const IUPAC: seq<char> := ",ACMGRSVTWYHKDBN"

  /** Fixed heterozygosity prior added to the het score. */
  const PRIOR: int := 30

  /** The caller's evidence sums fit in an int once shifted left by two. */
  predicate EvidenceOk(qsum: seq<int>)
  {
    |qsum| == 4 && forall i :: 0 <= i < 4 ==> 0 <= qsum[i] < 0x2000_0000
  }

  /** qsum[i] << 2 | i: the base index rides in the two low bits. */
  function Packed(qsum: seq<int>): (r: seq<int>)
    requires |qsum| == 4
    ensures |r| == 4
  {
    [qsum[0] * 4 + 0, qsum[1] * 4 + 1, qsum[2] * 4 + 2, qsum[3] * 4 + 3]
  }

  /** Base i ranks above base j: more evidence, or equal evidence and a
      higher index (the low bits of the packed value decide ties). */
  predicate Beats(qsum: seq<int>, i: nat, j: nat)
    requires |qsum| == 4 && i < 4 && j < 4
  {
    qsum[i] > qsum[j] || (qsum[i] == qsum[j] && i > j)
  }

  /** The allele with the most evidence; ties go to the higher base index. */
  function Best(qsum: seq<int>): (a: nat)
    requires |qsum| == 4
    ensures a < 4
    ensures forall b :: 0 <= b < 4 && b != a ==> Beats(qsum, a, b)
  {
    var m1 := if Beats(qsum, 1, 0) then 1 else 0;
    var m2 := if Beats(qsum, 2, m1) then 2 else m1;
    if Beats(qsum, 3, m2) then 3 else m2
  }

  /** The allele ranked second: the best of the three others. */
  function Runner(qsum: seq<int>): (a: nat)
    requires |qsum| == 4
    ensures a < 4 && a != Best(qsum)
    ensures forall b :: 0 <= b < 4 && b != a && b != Best(qsum) ==> Beats(qsum, a, b)
  {
    var top := Best(qsum);
    var o0 := if top == 0 then 1 else 0;
    var o1 := if top <= 1 then 2 else 1;
    var o2 := if top <= 2 then 3 else 2;
    var m := if Beats(qsum, o1, o0) then o1 else o0;
    if Beats(qsum, o2, m) then o2 else m
  }

  ghost predicate NonIncreasing(s: seq<int>)
  {
    forall p, q :: 0 <= p < q < |s| ==> s[p] >= s[q]
  }

  /** The insertion sort of src/ttview.c:181-183, largest first, in place. */
  method SortDescending(a: array<int>)
    modifies a
    ensures NonIncreasing(a[..])
    ensures multiset(a[..]) == multiset(old(a[..]))
  {
    var i := 1;
    while i < a.Length
      invariant a.Length == 0 || 1 <= i <= a.Length
      invariant forall p, q :: 0 <= p < q < i && q < a.Length ==> a[p] >= a[q]
      invariant multiset(a[..]) == multiset(old(a[..]))
    {
      SinkLast(a, i);
      i := i + 1;
    }
  }

  /** The inner loop: a[i] moves left past every smaller value, so the
      sorted prefix grows by one. */
  method SinkLast(a: array<int>, i: nat)
    requires i < a.Length
    requires forall p, q :: 0 <= p < q < i ==> a[p] >= a[q]
    modifies a
    ensures forall p, q :: 0 <= p < q <= i ==> a[p] >= a[q]
    ensures multiset(a[..]) == multiset(old(a[..]))
  {
    var j := i;
    while j > 0 && a[j] > a[j - 1]
      invariant 0 <= j <= i
      invariant forall p, q :: 0 <= p < q <= i && q != j ==> a[p] >= a[q]
      invariant multiset(a[..]) == multiset(old(a[..]))
    {
      Swap(a, j - 1, j);
      j := j - 1;
    }
  }

  method Swap(a: array<int>, i: nat, j: nat)
    requires i < j < a.Length
    modifies a
    ensures a[i] == old(a[j]) && a[j] == old(a[i])
    ensures forall k :: 0 <= k < a.Length && k != i && k != j ==> a[k] == old(a[k])
    ensures multiset(a[..]) == multiset(old(a[..]))
  {
    a[i], a[j] := a[j], a[i];
  }

  lemma {:induction false} DistinctCount(s: seq<int>, v: int)
    requires forall p, q :: 0 <= p < q < |s| ==> s[p] != s[q]
    ensures multiset(s)[v] <= 1
  {
    if s != [] {
      var init := s[..|s| - 1];
      assert s == init + [s[|s| - 1]];
      DistinctCount(init, v);
      if v == s[|s| - 1] {
        assert v !in init;
      }
    }
  }

  predicate Distinct(s: seq<int>)
  {
    forall p, q :: 0 <= p < q < |s| ==> s[p] != s[q]
  }

  /** A value that sits at two positions of t is counted twice. */
  lemma TwiceCounted(t: seq<int>, p: nat, q: nat)
    requires p < q < |t|
    ensures t[p] == t[q] ==> multiset(t)[t[q]] >= 2
  {
    var v := t[q];
    assert t == t[..q] + [v] + t[q + 1..];
    if t[p] == v {
      assert t[..q][p] == v;
    }
  }

  lemma {:induction false} PermutationDistinct(s: seq<int>, t: seq<int>)
    requires multiset(s) == multiset(t) && Distinct(s)
    ensures Distinct(t)
  {
    forall p, q | 0 <= p < q < |t| ensures t[p] != t[q] {
      DistinctCount(s, t[q]);
      TwiceCounted(t, p, q);
    }
  }

  lemma NonIncreasingDistinct(s: seq<int>)
    requires NonIncreasing(s) && Distinct(s)
    ensures forall p, q :: 0 <= p < q < |s| ==> s[p] > s[q]
  {
  }

  /** The packing loop of src/ttview.c:180. */
  method PackEvidence(qsum: seq<int>) returns (a: array<int>)
    requires EvidenceOk(qsum)
    ensures fresh(a) && a[..] == Packed(qsum)
  {
    a := new int[4];
    var i := 0;
    while i < 4
      invariant 0 <= i <= 4
      invariant forall k :: 0 <= k < i ==> a[k] == qsum[k] * 4 + k
    {
      a[i] := qsum[i] * 4 + i;
      i := i + 1;
    }
  }

  /** Packs the evidence and sorts it: the result is a permutation of the
      packed sums in strictly descending order. */
  method RankEvidence(qsum: seq<int>) returns (ranked: seq<int>)
    requires EvidenceOk(qsum)
    ensures |ranked| == 4
    ensures multiset(ranked) == multiset(Packed(qsum))
    ensures forall p, q :: 0 <= p < q < 4 ==> ranked[p] > ranked[q]
  {
    var a := PackEvidence(qsum);
    SortDescending(a);
    ranked := a[..];
    SortedPackedStrict(qsum, ranked);
  }

  /** Packed sums are distinct, so a non-increasing permutation of them is
      strictly decreasing. */
  lemma SortedPackedStrict(qsum: seq<int>, ranked: seq<int>)
    requires EvidenceOk(qsum) && NonIncreasing(ranked)
    requires multiset(ranked) == multiset(Packed(qsum))
    ensures |ranked| == 4
    ensures forall p, q :: 0 <= p < q < 4 ==> ranked[p] > ranked[q]
  {
    assert |ranked| == |multiset(ranked)| == 4;
    assert Distinct(Packed(qsum));
    PermutationDistinct(Packed(qsum), ranked);
    NonIncreasingDistinct(ranked);
  }

  lemma PackedOrder(qsum: seq<int>, i: nat, j: nat)
    requires EvidenceOk(qsum) && i < 4 && j < 4
    ensures Packed(qsum)[i] % 4 == i
    ensures Packed(qsum)[i] > Packed(qsum)[j] <==> Beats(qsum, i, j)
  {
  }

  lemma PackedIndex(qsum: seq<int>, ranked: seq<int>, m: nat) returns (k: nat)
    requires EvidenceOk(qsum) && |ranked| == 4 && m < 4
    requires multiset(ranked) == multiset(Packed(qsum))
    ensures k < 4 && ranked[m] == Packed(qsum)[k] && k == ranked[m] % 4
  {
    assert ranked[m] in multiset(Packed(qsum));
    k :| 0 <= k < 4 && Packed(qsum)[k] == ranked[m];
    PackedOrder(qsum, k, k);
  }

  lemma RankedPosition(qsum: seq<int>, ranked: seq<int>, b: nat) returns (m: nat)
    requires EvidenceOk(qsum) && |ranked| == 4 && b < 4
    requires multiset(ranked) == multiset(Packed(qsum))
    ensures m < 4 && ranked[m] == Packed(qsum)[b]
  {
    assert Packed(qsum)[b] in multiset(ranked);
    m :| 0 <= m < 4 && ranked[m] == Packed(qsum)[b];
  }

  /** a1 and a2 of src/ttview.c:184: the low bits of the two largest packed
      sums are the best and the second-best allele. */
  method TopTwo(qsum: seq<int>) returns (a1: nat, a2: nat)
    requires EvidenceOk(qsum)
    ensures a1 == Best(qsum) && a2 == Runner(qsum)
    ensures a1 != a2
  {
    var ranked := RankEvidence(qsum);
    a1 := ranked[0] % 4;
    a2 := ranked[1] % 4;
    FirstRankedIsBest(qsum, ranked);
    SecondRankedIsRunner(qsum, ranked);
  }

  lemma BeatsAntisymmetric(qsum: seq<int>, i: nat, j: nat)
    requires |qsum| == 4 && i < 4 && j < 4
    ensures !(Beats(qsum, i, j) && Beats(qsum, j, i))
  {
  }

  /** An allele that beats every other one is Best. */
  lemma UniqueBest(qsum: seq<int>, x: nat)
    requires |qsum| == 4 && x < 4
    requires forall b :: 0 <= b < 4 && b != x ==> Beats(qsum, x, b)
    ensures x == Best(qsum)
  {
    BeatsAntisymmetric(qsum, x, Best(qsum));
  }

  /** An allele other than Best that beats the two remaining ones is Runner. */
  lemma UniqueRunner(qsum: seq<int>, x: nat)
    requires |qsum| == 4 && x < 4 && x != Best(qsum)
    requires forall b :: 0 <= b < 4 && b != x && b != Best(qsum) ==> Beats(qsum, x, b)
    ensures x == Runner(qsum)
  {
    BeatsAntisymmetric(qsum, x, Runner(qsum));
  }

  predicate RankedOk(qsum: seq<int>, ranked: seq<int>)
  {
    EvidenceOk(qsum) && |ranked| == 4
    && multiset(ranked) == multiset(Packed(qsum))
    && forall p, q :: 0 <= p < q < 4 ==> ranked[p] > ranked[q]
  }

  lemma FirstRankedIsBest(qsum: seq<int>, ranked: seq<int>)
    requires RankedOk(qsum, ranked)
    ensures ranked[0] % 4 == Best(qsum)
  {
    var k1 := PackedIndex(qsum, ranked, 0);
    forall b | 0 <= b < 4 && b != k1 ensures Beats(qsum, k1, b) {
      var m := RankedPosition(qsum, ranked, b);
      PackedOrder(qsum, b, b);
      PackedOrder(qsum, k1, b);
    }
    UniqueBest(qsum, k1);
  }

  lemma SecondRankedIsRunner(qsum: seq<int>, ranked: seq<int>)
    requires RankedOk(qsum, ranked)
    ensures ranked[1] % 4 == Runner(qsum)
  {
    var k1 := PackedIndex(qsum, ranked, 0);
    var k2 := PackedIndex(qsum, ranked, 1);
    FirstRankedIsBest(qsum, ranked);
    forall b | 0 <= b < 4 && b != k2 && b != k1 ensures Beats(qsum, k2, b) {
      var m := RankedPosition(qsum, ranked, b);
      PackedOrder(qsum, b, b);
      PackedOrder(qsum, k2, b);
    }
    UniqueRunner(qsum, k2);
  }

  /* ---------------- genotype choice ---------------- */

  /** The caller's pairwise score matrix, 5 x 5, scores as integers. */
  predicate ScoresOk(p: seq<int>) { |p| == 25 }

  /** Bit of allele a in the call mask. */
  function Bit(a: nat): nat
    requires a < 4
  {
    if a == 0 then 1 else if a == 1 then 2 else if a == 2 then 4 else 8
  }

  /** Extra score of a homozygous call whose allele is not the reference base. */
  function Mismatch(a: nat, rb: char): int
    requires a < 4
  {
    if BASES[a] != ToUpper(rb) then PRIOR + 3 else 0
  }

  /** The three genotype scores of src/ttview.c:185-187: homozygous a1,
      heterozygous a1/a2 (with the prior), homozygous a2. */
  datatype Scores = Scores(homA1: int, het: int, homA2: int)

  function GenotypeScores(p: seq<int>, a1: nat, a2: nat, rb: char): (s: Scores)
    requires ScoresOk(p) && a1 < 4 && a2 < 4
  {
    Scores(p[a1 * 5 + a1] + Mismatch(a1, rb), p[a1 * 5 + a2] + PRIOR, p[a2 * 5 + a2] + Mismatch(a2, rb))
  }

  function Min(a: int, b: int): int { if a < b then a else b }
  function Max(a: int, b: int): int { if a < b then b else a }

  /** The lowest of three scores and the one just above it. */
  function Least(s: Scores): int { Min(s.homA1, Min(s.het, s.homA2)) }
  function SecondLeast(s: Scores): int
  {
    if s.homA1 == Least(s) then Min(s.het, s.homA2)
    else if s.het == Least(s) then Min(s.homA1, s.homA2)
    else Min(s.homA1, s.het)
  }

  /** A call: the set of called alleles as a 4-bit mask, and its confidence. */
  datatype Call = Call(mask: nat, confidence: int)

  /** The genotype choice of src/ttview.c:188-190: homozygous a1 only when its
      score is strictly the lowest, else homozygous a2 when its score is
      strictly the lowest, else heterozygous. The confidence is the gap
      between the best and the second-best score, never negative (the
      heterozygous branch is clamped at zero, see Findings in README). */
  function CallGenotype(p: seq<int>, a1: nat, a2: nat, rb: char): (c: Call)
    requires ScoresOk(p) && a1 < 4 && a2 < 4 && a1 != a2
    ensures 1 <= c.mask < 16
    ensures var s := GenotypeScores(p, a1, a2, rb);
      && (c.mask == Bit(a1) <==> s.homA1 < s.het && s.homA1 < s.homA2)
      && (c.mask == Bit(a2) <==> s.homA2 < s.het && s.homA2 < s.homA1)
      && (c.mask == Bit(a1) + Bit(a2) <==> !(s.homA1 < s.het && s.homA1 < s.homA2) && !(s.homA2 < s.het && s.homA2 < s.homA1))
      && c.confidence == SecondLeast(s) - Least(s)
      && c.confidence >= 0
  {
    var s := GenotypeScores(p, a1, a2, rb);
    if s.homA1 < s.het && s.homA1 < s.homA2 then Call(Bit(a1), Min(s.het, s.homA2) - s.homA1)
    else if s.homA2 < s.het && s.homA2 < s.homA1 then Call(Bit(a2), Min(s.homA1, s.het) - s.homA2)
    else Call(Bit(a1) + Bit(a2), Max(0, Min(s.homA1, s.homA2) - s.het))
  }

  /* ---- the genotype word as the source packs it ---- */

  /** (int)(d + .499) for an integer d: C's cast truncates toward zero. */
  function RoundAsWritten(d: int): int
  {
    if d >= 0 then d else d + 1
  }

  /** An int stored into a uint32_t: reduction modulo 2^32. */
  function U32(x: int): bv32
  {
    (x % 0x1_0000_0000) as bv32
  }

  /** The two halves of the `call` word of src/ttview.c:188-190, in the
      branch the scores select: the mask and the score gap before rounding,
      which in the heterozygous branch may be negative. */
  function CallParts(p: seq<int>, a1: nat, a2: nat, rb: char): (int, int)
    requires ScoresOk(p) && a1 < 4 && a2 < 4 && a1 != a2
  {
    var s := GenotypeScores(p, a1, a2, rb);
    if s.homA1 < s.het && s.homA1 < s.homA2 then (Bit(a1), Min(s.het, s.homA2) - s.homA1)
    else if s.homA2 < s.het && s.homA2 < s.homA1 then (Bit(a2), Min(s.homA1, s.het) - s.homA2)
    else (Bit(a1) + Bit(a2), Min(s.homA1, s.homA2) - s.het)
  }

  /** The `call` word as written: mask << 16 OR'ed with the rounded gap. */
  function CallWordAsWritten(p: seq<int>, a1: nat, a2: nat, rb: char): bv32
    requires ScoresOk(p) && a1 < 4 && a2 < 4 && a1 != a2
  {
    var parts := CallParts(p, a1, a2, rb);
    (U32(parts.0) << 16) | U32(RoundAsWritten(parts.1))
  }

  /** call >> 16 & 0xf, the table index of src/ttview.c:193. */
  function MaskFieldAsWritten(call: bv32): nat
  {
    ((call >> 16) & 0xF) as nat
  }

  lemma FieldOfPackedBits(mb: bv32, cb: bv32)
    requires mb < 16 && cb < 0x1_0000
    ensures (((mb << 16) | cb) >> 16) & 0xF == mb
  {
  }

  lemma FieldOfPacked(m: nat, c: int)
    requires 1 <= m < 16 && 0 <= c < 0x1_0000
    ensures MaskFieldAsWritten((U32(m) << 16) | U32(c)) == m
  {
    assert m % 0x1_0000_0000 == m && c % 0x1_0000_0000 == c;
    FieldOfPackedBits(m as bv32, c as bv32);
  }

  /** Whenever the confidence fits in 16 bits and the heterozygous gap is not
      negative, the packed word carries exactly the mask of CallGenotype. */
  lemma {:induction false} CallWordAgrees(p: seq<int>, a1: nat, a2: nat, rb: char)
    requires ScoresOk(p) && a1 < 4 && a2 < 4 && a1 != a2
    requires var s := GenotypeScores(p, a1, a2, rb); Min(s.homA1, s.homA2) >= s.het || (s.homA1 < s.het && s.homA1 < s.homA2) || (s.homA2 < s.het && s.homA2 < s.homA1)
    requires CallGenotype(p, a1, a2, rb).confidence < 0x1_0000
    ensures MaskFieldAsWritten(CallWordAsWritten(p, a1, a2, rb)) == CallGenotype(p, a1, a2, rb).mask
  {
    var c := CallGenotype(p, a1, a2, rb);
    var parts := CallParts(p, a1, a2, rb);
    assert parts.0 == c.mask && RoundAsWritten(parts.1) == c.confidence;
    FieldOfPacked(parts.0, RoundAsWritten(parts.1));
  }

  /** The score matrix of the example below: every entry 0 but the a1/a2 one. */
  const TieScores: seq<int> := [0, 0, 0, 0, 0, 40, 0, 0, 0, 0, 0, 0, 0, 0, 0, 0, 0, 0, 0, 0, 0, 0, 0, 0, 0]

  lemma HetTieWord()
    ensures CallWordAsWritten(TieScores, 1, 0, 'G') == 0xFFFF_FFDC
  {
    HetTieParts();
    HetTiePieces();
  }

  lemma HetTieParts()
    ensures GenotypeScores(TieScores, 1, 0, 'G') == Scores(33, 70, 33)
    ensures CallParts(TieScores, 1, 0, 'G') == (3, -37)
  {
  }

  lemma HetTiePieces()
    ensures (U32(3) << 16) | U32(RoundAsWritten(-37)) == 0xFFFF_FFDC
  {
    HetTieHalves();
    var w: bv32 := 3;
    assert (w << 16) | 0xFFFF_FFDC == 0xFFFF_FFDC;
  }

  lemma HetTieHalves()
    ensures U32(RoundAsWritten(-37)) == 0xFFFF_FFDC && U32(3) == 3
  {
    assert RoundAsWritten(-37) % 0x1_0000_0000 == 0xFFFF_FFDC;
    assert 3 % 0x1_0000_0000 == 3;
  }

  /** Two homozygous scores that tie below the heterozygous score: the source
      takes the heterozygous branch with a negative gap, the OR sets every
      high bit, and the mask field reads 0xF ('N') instead of 3 ('M'). */
  lemma HetTieCorruptsMask()
    ensures GenotypeScores(TieScores, 1, 0, 'G') == Scores(33, 70, 33)
    ensures MaskFieldAsWritten(CallWordAsWritten(TieScores, 1, 0, 'G')) == 15
    ensures CallGenotype(TieScores, 1, 0, 'G') == Call(3, 0)
    ensures ConsensusChar(15, 'G') == 'N' && ConsensusChar(3, 'G') == 'M'
  {
    HetTieWord();
    HetTieField();
    HetTieCall();
    HetTieChars();
  }

  lemma HetTieChars()
    ensures ConsensusChar(15, 'G') == 'N' && ConsensusChar(3, 'G') == 'M'
  {
    assert ToUpper('G') == 'G';
  }

  lemma HetTieField()
    ensures MaskFieldAsWritten(0xFFFF_FFDC) == 15
  {
    var w: bv32 := 0xFFFF_FFDC;
    assert (w >> 16) & 0xF == 0xF;
  }

  lemma HetTieCall()
    ensures GenotypeScores(TieScores, 1, 0, 'G') == Scores(33, 70, 33)
    ensures CallGenotype(TieScores, 1, 0, 'G') == Call(3, 0)
  {
    assert GenotypeScores(TieScores, 1, 0, 'G') == Scores(33, 70, 33);
  }

  /** The score matrix of a second example: the homozygous C call is ahead
      of the others by more than 2^16. */
  const WideGapScores: seq<int> := [70000, 0, 0, 0, 0, 70000, 0, 0, 0, 0, 0, 0, 0, 0, 0, 0, 0, 0, 0, 0, 0, 0, 0, 0, 0]

  /** The confidence is OR'ed into the word without a mask, so one of 2^16
      or more spills into the mask field: on a C reference, a clear C call
      is shown as 'M' instead of '.'. CallGenotype keeps the mask apart. */
  lemma ConfidenceSpillsIntoMask()
    ensures GenotypeScores(WideGapScores, 1, 0, 'C') == Scores(0, 70030, 70033)
    ensures CallGenotype(WideGapScores, 1, 0, 'C') == Call(2, 70030)
    ensures MaskFieldAsWritten(CallWordAsWritten(WideGapScores, 1, 0, 'C')) == 3
    ensures ConsensusChar(2, 'C') == '.' && ConsensusChar(3, 'C') == 'M'
  {
    WideGapScoresAre();
    WideGapCall();
    WideGapWord();
    WideGapField();
    WideGapChars();
  }

  lemma WideGapCall()
    ensures CallGenotype(WideGapScores, 1, 0, 'C') == Call(2, 70030)
  {
    WideGapScoresAre();
  }

  lemma WideGapChars()
    ensures ConsensusChar(2, 'C') == '.' && ConsensusChar(3, 'C') == 'M'
  {
    assert ToUpper('C') == 'C';
  }

  lemma WideGapWord()
    ensures CallWordAsWritten(WideGapScores, 1, 0, 'C') == 0x3_118E
  {
    WideGapScoresAre();
    WideGapPieces();
  }

  lemma WideGapScoresAre()
    ensures GenotypeScores(WideGapScores, 1, 0, 'C') == Scores(0, 70030, 70033)
    ensures CallParts(WideGapScores, 1, 0, 'C') == (2, 70030)
  {
  }

  lemma WideGapPieces()
    ensures (U32(2) << 16) | U32(RoundAsWritten(70030)) == 0x3_118E
  {
    WideGapHalves();
    var w: bv32 := 2;
    assert (w << 16) | 0x1_118E == 0x3_118E;
  }

  lemma WideGapHalves()
    ensures U32(RoundAsWritten(70030)) == 0x1_118E && U32(2) == 2
  {
    assert RoundAsWritten(70030) % 0x1_0000_0000 == 0x1_118E;
    assert 2 % 0x1_0000_0000 == 2;
  }

  lemma WideGapField()
    ensures MaskFieldAsWritten(0x3_118E) == 3
  {
    var w: bv32 := 0x3_118E;
    assert (w >> 16) & 0xF == 3;
  }

  /* ---------------- display ---------------- */

  /** The consensus character of src/ttview.c:193-196: the IUPAC code of the
      mask, replaced by '.' exactly when it equals the upper-cased reference. */
  function ConsensusChar(mask: nat, rb: char): (c: char)
    requires mask < 16
    ensures c == '.' <==> IUPAC[mask] == ToUpper(rb)
    ensures c != '.' ==> c == IUPAC[mask]
    ensures forall a :: 0 <= a < 4 && mask == Bit(a) ==>
      c == (if BASES[a] == ToUpper(rb) then '.' else BASES[a])
  {
    var code := IUPAC[mask];
    if code == ToUpper(rb) then '.' else code
  }

  /** The bases an IUPAC nucleotide code stands for (NC-IUB 1984),
      by index into BASES. */
  function IupacBases(code: char): set<nat>
  {
    match code
    case 'A' => {0}
    case 'C' => {1}
    case 'G' => {2}
    case 'T' => {3}
    case 'M' => {0, 1}
    case 'R' => {0, 2}
    case 'W' => {0, 3}
    case 'S' => {1, 2}
    case 'Y' => {1, 3}
    case 'K' => {2, 3}
    case 'V' => {0, 1, 2}
    case 'H' => {0, 1, 3}
    case 'D' => {0, 2, 3}
    case 'B' => {1, 2, 3}
    case 'N' => {0, 1, 2, 3}
    case _ => {}
  }

  /** The alleles whose bit is set in a mask. */
  function MaskBases(mask: nat): set<nat>
  {
    (if mask % 2 == 1 then {0} else {})
    + (if (mask / 2) % 2 == 1 then {1} else {})
    + (if (mask / 4) % 2 == 1 then {2} else {})
    + (if (mask / 8) % 2 == 1 then {3} else {})
  }

  /** Every entry of the display table is the IUPAC code of exactly the
      alleles in its mask. */
  lemma IupacTableIsStandard(mask: nat)
    requires 1 <= mask < 16
    ensures IupacBases(IUPAC[mask]) == MaskBases(mask)
  {
    if mask < 8 {
      IupacLow(mask);
    } else {
      IupacHigh(mask);
    }
  }

  lemma IupacLow(mask: nat)
    requires 1 <= mask < 8
    ensures IupacBases(IUPAC[mask]) == MaskBases(mask)
  {
    if mask == 1 { } else if mask == 2 { } else if mask == 3 { }
    else if mask == 4 { } else if mask == 5 { } else if mask == 6 { }
    else { }
  }

  lemma IupacHigh(mask: nat)
    requires 8 <= mask < 16
    ensures IupacBases(IUPAC[mask]) == MaskBases(mask)
  {
    if mask == 8 { } else if mask == 9 { } else if mask == 10 { }
    else if mask == 11 { } else if mask == 12 { } else if mask == 13 { }
    else if mask == 14 { } else { }
  }

  /** A call on two different alleles shows the two-base IUPAC code of that pair. */
  lemma {:induction false} PairCodeShown(a1: nat, a2: nat)
    requires a1 < 4 && a2 < 4 && a1 != a2
    ensures Bit(a1) + Bit(a2) < 16
    ensures IupacBases(IUPAC[Bit(a1) + Bit(a2)]) == {a1, a2}
  {
    IupacTableIsStandard(Bit(a1) + Bit(a2));
  }
}
