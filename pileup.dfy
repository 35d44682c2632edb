/** What one pileup column shows for each read (src/ttview.c:198-244, 287)
    and for the reference (src/ttview.c:167, 171, 396). The pileup entries
    are produced by the samtools pileup engine, which is not part of this
    model: they are plain values here. */
module Pileup {
  import opened Text
  import opened Wrappers

  /** First screen row of the alignment area; rows 0..2 hold the ruler, the
      reference and the consensus. */
  const MIN_ALN_ROW: int := 2

  /** Which alphabet a read is shown in (TV_BASE_NUCL, TV_BASE_COLOR_SPACE). */
  datatype BaseFor = Nucleotide | ColorSpace

  /** The display options of the viewer that affect a read's character. */
  datatype Options = Options(baseFor: BaseFor, isDot: bool, showName: bool)

  /** One pileup entry: the read's bases (already decoded to letters), its
      name without the terminating NUL, its colour-space calls and colour
      errors (a NUL where the read has none), the offset of the column in
      the read, the stacking level, the length of an insertion (> 0) or
      deletion (< 0) that follows, and the deletion, ref-skip and strand
      flags. */
  datatype PileupRead = PileupRead(
    bases: seq<char>, name: seq<char>, colors: seq<char>, colorErrors: seq<char>,
    qpos: nat, level: int, indel: int,
    isDel: bool, isRefSkip: bool, reverse: bool)

  /** The pileup engine only reports offsets inside the read, inserted bases included. */
  predicate WellFormed(r: PileupRead)
  {
    r.qpos + (if r.indel > 0 then r.indel else 0) < |r.bases|
  }

  /** bam_aux_getCSi / bam_aux_getCEi: NUL when the read has no such call. */
  function ColorAt(r: PileupRead, i: nat): char
  {
    if i < |r.colors| then r.colors[i] else NUL
  }

  function ColorErrorAt(r: PileupRead, i: nat): char
  {
    if i < |r.colorErrors| then r.colorErrors[i] else NUL
  }

  /** Name character at offset i, or a blank past the end of the name:
      l_qname counts the NUL, so `i + 1 >= l_qname` is `i >= |name|`. */
  function NameAt(r: PileupRead, i: nat): char
  {
    if i + 1 >= |r.name| + 1 then ' ' else r.name[i]
  }

  /** The strand mark of dot mode. */
  function StrandDot(r: PileupRead): char
  {
    if r.reverse then ',' else '.'
  }

  /** The character of read r in sub-column j of a column whose reference base
      is rb, before strand casing (src/ttview.c:210-242). */
  function ReadChar(r: PileupRead, j: nat, rb: char, o: Options): (c: char)
    requires WellFormed(r)
    ensures j == 0 && r.isDel ==> c == (if !r.isRefSkip then '*' else if r.reverse then '<' else '>')
    ensures j > 0 && j > r.indel ==> c == '*'
    ensures j == 0 && !r.isDel && o.baseFor == ColorSpace && ColorAt(r, r.qpos) != NUL ==>
      c == (if o.isDot && ColorErrorAt(r, r.qpos) == '-' then StrandDot(r) else ColorAt(r, r.qpos))
    ensures j == 0 && !r.isDel && (o.baseFor == Nucleotide || ColorAt(r, r.qpos) == NUL) && !o.showName ==>
      c == (if o.isDot && ToUpper(r.bases[r.qpos]) == ToUpper(rb) then StrandDot(r) else r.bases[r.qpos])
    ensures j == 0 && !r.isDel && (o.baseFor == Nucleotide || ColorAt(r, r.qpos) == NUL) && o.showName ==>
      c == NameAt(r, r.qpos)
    ensures 0 < j <= r.indel && o.baseFor == Nucleotide ==>
      c == (if o.showName then NameAt(r, r.qpos + j) else r.bases[r.qpos + j])
    ensures 0 < j <= r.indel && o.baseFor == ColorSpace ==>
      c == (if o.isDot && ColorErrorAt(r, r.qpos + j) == '-' then StrandDot(r) else ColorAt(r, r.qpos + j))
  {
    if j == 0 then
      if !r.isDel then
        if o.baseFor == ColorSpace && ColorAt(r, r.qpos) != NUL then
          if o.isDot && ColorErrorAt(r, r.qpos) == '-' then StrandDot(r) else ColorAt(r, r.qpos)
        else if o.showName then NameAt(r, r.qpos)
        else
          var b := r.bases[r.qpos];
          if o.isDot && ToUpper(b) == ToUpper(rb) then StrandDot(r) else b
      else if r.isRefSkip then (if r.reverse then '<' else '>')
      else '*'
    else if j > r.indel then '*'
    else if o.baseFor == Nucleotide then
      if o.showName then NameAt(r, r.qpos + j) else r.bases[r.qpos + j]
    else
      if o.isDot && ColorErrorAt(r, r.qpos + j) == '-' then StrandDot(r) else ColorAt(r, r.qpos + j)
  }

  /** Reverse-strand reads are shown in lower case, forward ones in upper case. */
  function Cased(c: char, reverse: bool): (d: char)
    ensures reverse ==> !IsUpper(d)
    ensures !reverse ==> !IsLower(d)
    ensures ToUpper(d) == ToUpper(c) && ToLower(d) == ToLower(c)
  {
    if reverse then ToLower(c) else ToUpper(c)
  }

  /** The cell a read shows in sub-column j. */
  function Shown(r: PileupRead, j: nat, rb: char, o: Options): char
    requires WellFormed(r)
  {
    Cased(ReadChar(r, j, rb, o), r.reverse)
  }

  /** Screen row of a read: its level below the alignment area's top,
      scrolled by row_shift. */
  function ReadRow(r: PileupRead, rowShift: int): int
  {
    MIN_ALN_ROW + r.level - rowShift
  }

  /** A read is drawn only below the consensus row. */
  predicate Drawn(r: PileupRead, rowShift: int)
  {
    ReadRow(r, rowShift) > MIN_ALN_ROW
  }

  /** The widest insertion among the reads, 0 when there is none
      (src/ttview.c:198-204). */
  function MaxIns(column: seq<PileupRead>): (m: nat)
    ensures forall i :: 0 <= i < |column| ==> column[i].indel <= m
    ensures m == 0 || exists i :: 0 <= i < |column| && column[i].indel == m
  {
    if column == [] then 0
    else
      var m0 := MaxIns(column[..|column| - 1]);
      var last := column[|column| - 1];
      if last.indel > 0 && m0 < last.indel then last.indel else m0
  }

  /* ---------------- reference ---------------- */

  /** The reference base at position pos of a window that starts at leftPos:
      'N' without a reference or past the fetched slice (src/ttview.c:167). */
  function RefBase(reference: Option<seq<char>>, leftPos: int, pos: int): (c: char)
    requires leftPos <= pos
    ensures reference.Some? && pos - leftPos < |reference.value| ==> c == reference.value[pos - leftPos]
    ensures reference.None? || pos - leftPos >= |reference.value| ==> c == 'N'
  {
    if reference.Some? && pos - leftPos < |reference.value| then reference.value[pos - leftPos] else 'N'
  }

  /** The tail padding of src/ttview.c:396 as written: it compares the
      absolute position with the length of the slice, which starts at leftPos. */
  function TailBaseAsWritten(reference: Option<seq<char>>, leftPos: int, pos: int): char
    requires 0 <= leftPos <= pos
  {
    if reference.Some? && pos < |reference.value| then reference.value[pos - leftPos] else 'N'
  }

  /** In a window that starts at 0 the two agree; */
  lemma {:induction false} TailAgreesAtOrigin(reference: Option<seq<char>>, pos: int)
    requires 0 <= pos
    ensures TailBaseAsWritten(reference, 0, pos) == RefBase(reference, 0, pos)
  {
  }

  /** further right, the fetched bases are shown as 'N': in a window at
      position 100 with an 80-base slice, the first column shows 'N'
      instead of the slice's first base. */
  lemma TailLosesReference()
    ensures var reference := Some(seq(80, _ => 'A'));
      TailBaseAsWritten(reference, 100, 100) == 'N' && RefBase(reference, 100, 100) == 'A'
  {
  }
}
