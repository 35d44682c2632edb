/** The text alignment viewer of src/ttview.c: a character screen that grows
    row by row, filled one pileup column at a time (ruler on row 0, reference
    on row 1, consensus on row 2, reads below), then padded with reference
    bases up to the screen width and dumped. */
module TtView {
  import opened Text
  import opened Wrappers
  import opened Grid
  import Consensus
  import opened Pileup

  /** One call of the pileup callback: a reference position, the reads that
      cover it, and the caller's evidence sums and score matrix for it. */
  datatype PileupColumn = PileupColumn(pos: int, entries: seq<PileupRead>, qsum: seq<int>, scores: seq<int>)

  predicate ColumnOk(col: PileupColumn)
  {
    && Consensus.EvidenceOk(col.qsum)
    && Consensus.ScoresOk(col.scores)
    && forall k :: 0 <= k < |col.entries| ==> WellFormed(col.entries[k])
  }

  function Min(a: int, b: int): int { if a < b then a else b }

  /** What printfyx keeps of a formatted text: vsnprintf with a buffer of
      `width` bytes stores at most width - 1 characters. */
  function Formatted(text: seq<char>, width: nat): (r: seq<char>)
    ensures r <= text
    ensures |r| == if width == 0 then 0 else Min(|text|, width - 1)
  {
    if width == 0 then [] else text[..Min(|text|, width - 1)]
  }

  /** Number of reference positions skipped between two pileup columns. */
  function Gap(lastPos: int, pos: int): nat
  {
    if pos > lastPos + 1 then pos - lastPos - 1 else 0
  }

  /** What one column writes on the reference row: the bases of the skipped
      positions, the column's own base, then a '*' per insertion sub-column. */
  function ReferenceRow(reference: Option<seq<char>>, leftPos: int, lastPos: int, pos: int, maxIns: nat): (r: seq<char>)
    requires leftPos - 1 <= lastPos && leftPos <= pos
    ensures |r| == Gap(lastPos, pos) + maxIns + 1
    ensures forall k :: 0 <= k < Gap(lastPos, pos) ==> r[k] == RefBase(reference, leftPos, lastPos + 1 + k)
    ensures r[Gap(lastPos, pos)] == RefBase(reference, leftPos, pos)
    ensures forall k :: Gap(lastPos, pos) < k < |r| ==> r[k] == '*'
  {
    seq(Gap(lastPos, pos), k requires 0 <= k => RefBase(reference, leftPos, lastPos + 1 + k))
    + [RefBase(reference, leftPos, pos)]
    + seq(maxIns, _ => '*')
  }

  /** The consensus character of a column whose reference base is rb. */
  function ConsensusShown(col: PileupColumn, rb: char): char
    requires ColumnOk(col)
  {
    var a1 := Consensus.Best(col.qsum);
    var a2 := Consensus.Runner(col.qsum);
    Consensus.ConsensusChar(Consensus.CallGenotype(col.scores, a1, a2, rb).mask, rb)
  }

  /** No other drawn read of the column shares entry k's row (the stacking
      of the pileup engine gives overlapping reads different levels). */
  ghost predicate OwnRow(entries: seq<PileupRead>, k: int, rowShift: int)
    requires 0 <= k < |entries|
  {
    forall m :: 0 <= m < |entries| && m != k && Drawn(entries[m], rowShift) ==>
      ReadRow(entries[m], rowShift) != ReadRow(entries[k], rowShift)
  }

  /** Every drawn read of the column that has a row of its own shows, in
      screen columns lo..hi-1, its base or gap for the sub-column x - lo. */
  ghost predicate ReadsShown(s: Screen, entries: seq<PileupRead>, rowShift: int, lo: int, hi: int,
                             width: nat, rb: char, options: Options)
    requires forall k :: 0 <= k < |entries| ==> WellFormed(entries[k])
  {
    forall k, x ::
      (0 <= k < |entries| && Drawn(entries[k], rowShift) && OwnRow(entries, k, rowShift)
       && lo <= x < hi && x < width) ==>
      Cell(s, ReadRow(entries[k], rowShift), x) == Shown(entries[k], x - lo, rb, options)
  }

  /** t differs from s only in columns lo.. of row 0 and columns lo..hi-1
      of the other rows. */
  ghost predicate Outside(s: Screen, t: Screen, lo: int, hi: int)
  {
    forall yy, xx :: xx < lo || (yy != 0 && xx >= hi) ==> Cell(t, yy, xx) == Cell(s, yy, xx)
  }

  /** Rows y of s and t agree in every column. */
  ghost predicate SameRow(s: Screen, t: Screen, y: int)
  {
    forall xx :: Cell(s, y, xx) == Cell(t, y, xx)
  }

  /** Some drawn read of the column is on row y. */
  ghost predicate ReadRowIn(entries: seq<PileupRead>, rowShift: int, y: int)
  {
    exists k :: 0 <= k < |entries| && Drawn(entries[k], rowShift) && ReadRow(entries[k], rowShift) == y
  }

  /** The ruler label of src/ttview.c:170, 174 and 395: position i + 1,
      written on row 0 from column c on when i is a multiple of ten and ten
      columns are left. */
  function Label(s: Screen, width: nat, c: int, i: int): (r: Screen)
    requires Wide(s, width)
    ensures Wide(r, width)
    ensures forall yy, xx :: yy != 0 ==> Cell(r, yy, xx) == Cell(s, yy, xx)
  {
    if i % 10 == 0 && width - c >= 10 then PutText(s, width, 0, c, Formatted(DecimalText(i + 1), width)) else s
  }

  /** The labels of positions first, first + 1, ... drawn at columns c,
      c + 1, ...: n positions, one screen column each. */
  function Labels(s: Screen, width: nat, c: int, first: int, n: nat): (r: Screen)
    requires Wide(s, width)
    ensures Wide(r, width)
    decreases n
  {
    if n == 0 then s else Label(Labels(s, width, c, first, n - 1), width, c + n - 1, first + n - 1)
  }

  /** A label written on two screens whose rows 0 agree leaves them agreeing. */
  lemma LabelSameRow(s: Screen, t: Screen, width: nat, c: int, i: int)
    requires Wide(s, width) && Wide(t, width) && SameRow(s, t, 0)
    ensures SameRow(Label(s, width, c, i), Label(t, width, c, i), 0)
  {
    if i % 10 == 0 && width - c >= 10 {
      var text := Formatted(DecimalText(i + 1), width);
      var a := Label(s, width, c, i);
      var b := Label(t, width, c, i);
      forall xx ensures Cell(a, 0, xx) == Cell(b, 0, xx) {
        if c <= xx < c + |text| && 0 <= xx < width {
          assert Cell(a, 0, c + (xx - c)) == text[xx - c];
          assert Cell(b, 0, c + (xx - c)) == text[xx - c];
        }
      }
    }
  }

  /** Labels of n + 1 positions: those of n, then the next one. */
  lemma LabelsNext(s0: Screen, width: nat, c: int, first: int, n: nat)
    requires Wide(s0, width)
    ensures Labels(s0, width, c, first, n + 1) == Label(Labels(s0, width, c, first, n), width, c + n, first + n)
  {
    var m := n + 1;
    assert c + m - 1 == c + n && first + m - 1 == first + n;
  }

  lemma {:induction false} LabelsSameRow(s: Screen, t: Screen, width: nat, c: int, first: int, n: nat)
    requires Wide(s, width) && Wide(t, width) && SameRow(s, t, 0)
    ensures SameRow(Labels(s, width, c, first, n), Labels(t, width, c, first, n), 0)
    decreases n
  {
    if n > 0 {
      var a, b := Labels(s, width, c, first, n - 1), Labels(t, width, c, first, n - 1);
      LabelsSameRow(s, t, width, c, first, n - 1);
      LabelSameRow(a, b, width, c + n - 1, first + n - 1);
      assert Labels(s, width, c, first, n) == Label(a, width, c + n - 1, first + n - 1);
      assert Labels(t, width, c, first, n) == Label(b, width, c + n - 1, first + n - 1);
    }
  }

  /** Row 1 of s holds, from screen column c on, the reference bases of
      positions first, first + 1, ...: n of them, those below the width. */
  ghost predicate BasesFrom(s: Screen, width: nat, c: int, first: int, n: nat, reference: Option<seq<char>>, leftPos: int)
    requires leftPos <= first
  {
    forall x :: c <= x < c + n && x < width ==> Cell(s, 1, x) == RefBase(reference, leftPos, first + x - c)
  }

  /** Rows 2 and below of s and t agree. */
  ghost predicate LowerRowsKept(s: Screen, t: Screen)
  {
    forall yy, xx :: yy >= 2 ==> Cell(t, yy, xx) == Cell(s, yy, xx)
  }

  /** s is s0 after n columns of reference padding from screen column c on,
      for the positions first, first + 1, ...: row 1 holds their bases,
      row 0 their ruler labels, and no other cell changed. */
  ghost predicate Padded(s0: Screen, s: Screen, width: nat, c: int, first: int, n: nat,
                         reference: Option<seq<char>>, leftPos: int)
    requires Wide(s0, width) && leftPos <= first
  {
    && BasesFrom(s, width, c, first, n, reference, leftPos)
    && Outside(s0, s, c, c + n)
    && SameRow(s, Labels(s0, width, c, first, n), 0)
    && LowerRowsKept(s0, s)
  }

  /** The screen after one more column of padding: its label, then its base. */
  function PadNext(s: Screen, width: nat, c: int, i: int, reference: Option<seq<char>>, leftPos: int): (t: Screen)
    requires Wide(s, width) && leftPos <= i
    ensures Wide(t, width)
    ensures SameRow(t, Label(s, width, c, i), 0)
  {
    Put(Label(s, width, c, i), width, 1, c, RefBase(reference, leftPos, i))
  }

  lemma BasesStep(s: Screen, width: nat, c: int, first: int, n: nat, reference: Option<seq<char>>, leftPos: int)
    requires Wide(s, width) && leftPos <= first && 0 <= c && BasesFrom(s, width, c, first, n, reference, leftPos)
    ensures BasesFrom(PadNext(s, width, c + n, first + n, reference, leftPos), width, c, first, n + 1, reference, leftPos)
  {
    var s1 := Label(s, width, c + n, first + n);
    var t := PadNext(s, width, c + n, first + n, reference, leftPos);
    forall x | c <= x < c + n + 1 && x < width
      ensures Cell(t, 1, x) == RefBase(reference, leftPos, first + x - c)
    {
      if x < c + n {
        assert Cell(t, 1, x) == Cell(s1, 1, x) == Cell(s, 1, x);
      }
    }
  }

  lemma OutsideStep(s0: Screen, s: Screen, width: nat, c: int, n: nat, i: int, reference: Option<seq<char>>, leftPos: int)
    requires Wide(s, width) && leftPos <= i && 0 <= c && Outside(s0, s, c, c + n)
    ensures Outside(s0, PadNext(s, width, c + n, i, reference, leftPos), c, c + n + 1)
  {
    var s1 := Label(s, width, c + n, i);
    var t := PadNext(s, width, c + n, i, reference, leftPos);
    forall yy, xx | xx < c || (yy != 0 && xx >= c + n + 1)
      ensures Cell(t, yy, xx) == Cell(s0, yy, xx)
    {
      assert Cell(t, yy, xx) == Cell(s1, yy, xx) == Cell(s, yy, xx);
    }
  }

  lemma RulerPadStep(s0: Screen, s: Screen, width: nat, c: int, first: int, n: nat, reference: Option<seq<char>>, leftPos: int)
    requires Wide(s0, width) && Wide(s, width) && leftPos <= first && SameRow(s, Labels(s0, width, c, first, n), 0)
    ensures SameRow(PadNext(s, width, c + n, first + n, reference, leftPos), Labels(s0, width, c, first, n + 1), 0)
  {
    var s1 := Label(s, width, c + n, first + n);
    var t := PadNext(s, width, c + n, first + n, reference, leftPos);
    var l := Labels(s0, width, c, first, n);
    LabelSameRow(s, l, width, c + n, first + n);
    LabelsNext(s0, width, c, first, n);
    SameRowTrans(t, s1, Label(l, width, c + n, first + n), 0);
  }

  lemma SameRowTrans(a: Screen, b: Screen, c: Screen, y: int)
    requires SameRow(a, b, y) && SameRow(b, c, y)
    ensures SameRow(a, c, y)
  {
  }

  lemma KeptStep(s0: Screen, s: Screen, width: nat, c: int, i: int, reference: Option<seq<char>>, leftPos: int)
    requires Wide(s, width) && leftPos <= i && LowerRowsKept(s0, s)
    ensures LowerRowsKept(s0, PadNext(s, width, c, i, reference, leftPos))
  {
    var s1 := Label(s, width, c, i);
    var t := PadNext(s, width, c, i, reference, leftPos);
    forall yy, xx | yy >= 2 ensures Cell(t, yy, xx) == Cell(s0, yy, xx) {
      assert Cell(t, yy, xx) == Cell(s1, yy, xx) == Cell(s, yy, xx);
    }
  }

  /** One more column of padding keeps the screen Padded. */
  lemma PaddedStep(s0: Screen, s: Screen, width: nat, c: int, first: int, n: nat,
                   reference: Option<seq<char>>, leftPos: int)
    requires Wide(s0, width) && Wide(s, width) && leftPos <= first && 0 <= c
    requires Padded(s0, s, width, c, first, n, reference, leftPos)
    ensures Padded(s0, PadNext(s, width, c + n, first + n, reference, leftPos), width, c, first, n + 1, reference, leftPos)
  {
    BasesStep(s, width, c, first, n, reference, leftPos);
    OutsideStep(s0, s, width, c, n, first + n, reference, leftPos);
    RulerPadStep(s0, s, width, c, first, n, reference, leftPos);
    KeptStep(s0, s, width, c + n, first + n, reference, leftPos);
  }

  /** Where the drawing of the pileup columns stands: the last position
      drawn, the next screen column, and the reference row drawn so far. */
  datatype Drawing = Drawing(lastPos: int, ccol: int, row: seq<char>)

  /** The first n columns, as ttv_pl_func draws them from a cleared screen
      whose window starts at leftPos: a column left of the window, or one
      that arrives when the screen is already full, is skipped; every other
      one adds its ReferenceRow. */
  function ColumnsDrawn(reference: Option<seq<char>>, leftPos: int, ins: bool, width: nat,
                        columns: seq<PileupColumn>, n: nat): (d: Drawing)
    requires n <= |columns|
    ensures d.ccol == |d.row| && leftPos - 1 <= d.lastPos
    decreases n
  {
    if n == 0 then Drawing(leftPos - 1, 0, [])
    else
      var d := ColumnsDrawn(reference, leftPos, ins, width, columns, n - 1);
      var col := columns[n - 1];
      if col.pos < leftPos || d.ccol > width then d
      else
        var r := ReferenceRow(reference, leftPos, d.lastPos, col.pos, if ins then MaxIns(col.entries) else 0);
        Drawing(col.pos, d.ccol + |r|, d.row + r)
  }

  /** The padding of src/ttview.c:392-398: reference bases from screen
      column ccol up to the width, one position per column. */
  function TailRow(reference: Option<seq<char>>, leftPos: int, lastPos: int, ccol: int, width: nat): (r: seq<char>)
    requires leftPos - 1 <= lastPos
    ensures |r| == if ccol < width then width - ccol else 0
    ensures forall k :: 0 <= k < |r| ==> r[k] == RefBase(reference, leftPos, lastPos + 1 + k)
  {
    if ccol < width then seq(width - ccol, k requires 0 <= k => RefBase(reference, leftPos, lastPos + 1 + k)) else []
  }

  /** Row 1 of s holds row in its first c columns (those below the width). */
  ghost predicate RowDrawn(s: Screen, row: seq<char>, c: int, width: nat)
  {
    forall x :: 0 <= x < c && x < width && x < |row| ==> Cell(s, 1, x) == row[x]
  }

  /** Drawing r from column |row| on extends the drawn row by r. */
  lemma RowStep(s0: Screen, s: Screen, row: seq<char>, r: seq<char>, c1: int, width: nat)
    requires RowDrawn(s0, row, |row|, width) && Outside(s0, s, |row|, c1) && c1 == |row| + |r|
    requires forall x :: |row| <= x < c1 && x < width ==> Cell(s, 1, x) == r[x - |row|]
    ensures RowDrawn(s, row + r, c1, width)
  {
    forall x | 0 <= x < c1 && x < width && x < |row + r|
      ensures Cell(s, 1, x) == (row + r)[x]
    {
      if x < |row| {
        assert Cell(s, 1, x) == Cell(s0, 1, x);
      }
    }
  }

  /** s is s0 after ttv_pl_func drew col from screen column c0 on, the
      previous column having been at position lp: row 1 holds the column's
      ReferenceRow, row 2 its consensus character, every drawn read its
      base or gap, row 0 the labels of the skipped positions and of its
      own; no cell left of the column and no other row changed. */
  ghost predicate ColumnPlaced(s0: Screen, s: Screen, width: nat, c0: int, lp: int, col: PileupColumn,
                               reference: Option<seq<char>>, leftPos: int, ins: bool, rowShift: int, options: Options)
    requires Wide(s0, width) && ColumnOk(col) && leftPos - 1 <= lp && leftPos <= col.pos
  {
    var maxIns := if ins then MaxIns(col.entries) else 0;
    var rb := RefBase(reference, leftPos, col.pos);
    var row := ReferenceRow(reference, leftPos, lp, col.pos, maxIns);
    var here := c0 + Gap(lp, col.pos);
    var c := c0 + |row|;
    && (forall x :: c0 <= x < c && x < width ==> Cell(s, 1, x) == row[x - c0])
    && (here < width ==> Cell(s, 2, here) == ConsensusShown(col, rb))
    && ReadsShown(s, col.entries, rowShift, here, c, width, rb, options)
    && Outside(s0, s, c0, c)
    && SameRow(s, Label(Labels(s0, width, c0, lp + 1, Gap(lp, col.pos)), width, here, col.pos), 0)
    && (forall yy, xx :: yy >= 2 && (yy, xx) != (2, here) && (xx < here || !ReadRowIn(col.entries, rowShift, yy)) ==>
          Cell(s, yy, xx) == Cell(s0, yy, xx))
  }

  /** A placed column extends the drawn row by its ReferenceRow. */
  lemma PlacedRow(s0: Screen, s: Screen, width: nat, row: seq<char>, lp: int, col: PileupColumn,
                  reference: Option<seq<char>>, leftPos: int, ins: bool, rowShift: int, options: Options)
    requires Wide(s0, width) && ColumnOk(col) && leftPos - 1 <= lp && leftPos <= col.pos
    requires RowDrawn(s0, row, |row|, width)
    requires ColumnPlaced(s0, s, width, |row|, lp, col, reference, leftPos, ins, rowShift, options)
    ensures var r := ReferenceRow(reference, leftPos, lp, col.pos, if ins then MaxIns(col.entries) else 0);
      RowDrawn(s, row + r, |row| + |r|, width)
  {
    var r := ReferenceRow(reference, leftPos, lp, col.pos, if ins then MaxIns(col.entries) else 0);
    RowStep(s0, s, row, r, |row| + |r|, width);
  }

  /** The padding after the drawn columns extends the drawn row by the TailRow. */
  lemma TailStep(s0: Screen, s: Screen, width: nat, row: seq<char>, n: nat,
                 reference: Option<seq<char>>, leftPos: int, lastPos: int)
    requires Wide(s0, width) && leftPos - 1 <= lastPos
    requires RowDrawn(s0, row, |row|, width)
    requires n == |TailRow(reference, leftPos, lastPos, |row|, width)|
    requires Padded(s0, s, width, |row|, lastPos + 1, n, reference, leftPos)
    ensures |row + TailRow(reference, leftPos, lastPos, |row|, width)| >= width
    ensures RowDrawn(s, row + TailRow(reference, leftPos, lastPos, |row|, width), width, width)
  {
    var tail := TailRow(reference, leftPos, lastPos, |row|, width);
    forall x | 0 <= x < width && x < |row + tail|
      ensures Cell(s, 1, x) == (row + tail)[x]
    {
      if x < |row| {
        assert Cell(s, 1, x) == Cell(s0, 1, x);
      }
    }
  }

  lemma OutsideTrans(a: Screen, b: Screen, c: Screen, lo: int, mid: int, lo2: int, hi: int)
    requires lo <= lo2 && mid <= hi
    requires Outside(a, b, lo, mid) && Outside(b, c, lo2, hi)
    ensures Outside(a, c, lo, hi)
  {
  }

  /** The reference row of a column, as drawn: the skipped positions by the
      gap loop, then the column's own base and the insertion stars. */
  lemma ColumnRow(s2: Screen, s3: Screen, c0: int, here: int, c3: int, width: nat,
                  reference: Option<seq<char>>, leftPos: int, lastPos: int, pos: int, maxIns: nat, rb: char)
    requires leftPos - 1 <= lastPos && leftPos <= pos
    requires here == c0 + Gap(lastPos, pos) && c3 == here + maxIns + 1
    requires rb == RefBase(reference, leftPos, pos)
    requires forall x :: c0 <= x < here && x < width ==> Cell(s2, 1, x) == RefBase(reference, leftPos, lastPos + 1 + x - c0)
    requires Outside(s2, s3, here, c3)
    requires forall x :: here <= x < c3 && x < width ==> Cell(s3, 1, x) == if x == here then rb else '*'
    ensures forall x :: c0 <= x < c3 && x < width ==> Cell(s3, 1, x) == ReferenceRow(reference, leftPos, lastPos, pos, maxIns)[x - c0]
  {
    var row := ReferenceRow(reference, leftPos, lastPos, pos, maxIns);
    forall x | c0 <= x < c3 && x < width
      ensures Cell(s3, 1, x) == row[x - c0]
    {
      if x < here {
        assert Cell(s3, 1, x) == Cell(s2, 1, x);
      }
    }
  }

  /** The gap drawn by the loop of src/ttview.c:169-173, then the column
      drawn by src/ttview.c:174-298, together place the column. */
  lemma GapThenCall(s1: Screen, s2: Screen, s3: Screen, width: nat, c0: int, here: int, c3: int, lp: int,
                    col: PileupColumn, rb: char, reference: Option<seq<char>>, leftPos: int, ins: bool,
                    rowShift: int, options: Options)
    requires Wide(s1, width) && Wide(s2, width) && Wide(s3, width) && ColumnOk(col)
    requires leftPos - 1 <= lp && leftPos <= col.pos && 0 <= c0
    requires here == c0 + Gap(lp, col.pos) && c3 == here + (if ins then MaxIns(col.entries) else 0) + 1
    requires rb == RefBase(reference, leftPos, col.pos)
    requires Padded(s1, s2, width, c0, lp + 1, Gap(lp, col.pos), reference, leftPos)
    requires forall x :: here <= x < c3 && x < width ==> Cell(s3, 1, x) == if x == here then rb else '*'
    requires here < width ==> Cell(s3, 2, here) == ConsensusShown(col, rb)
    requires ReadsShown(s3, col.entries, rowShift, here, c3, width, rb, options)
    requires Outside(s2, s3, here, c3)
    requires SameRow(s3, Label(s2, width, here, col.pos), 0)
    requires forall yy, xx :: yy >= 2 && (yy, xx) != (2, here) && (xx < here || !ReadRowIn(col.entries, rowShift, yy)) ==>
      Cell(s3, yy, xx) == Cell(s2, yy, xx)
    ensures ColumnPlaced(s1, s3, width, c0, lp, col, reference, leftPos, ins, rowShift, options)
  {
    var maxIns := if ins then MaxIns(col.entries) else 0;
    var gap := Gap(lp, col.pos);
    ColumnRow(s2, s3, c0, here, c3, width, reference, leftPos, lp, col.pos, maxIns, rb);
    OutsideTrans(s1, s2, s3, c0, here, here, c3);
    GapThenLabel(s1, s2, s3, width, c0, here, lp, col.pos, gap, reference, leftPos);
    GapThenFrame(s1, s2, s3, here, col.entries, rowShift);
    assert |ReferenceRow(reference, leftPos, lp, col.pos, maxIns)| == c3 - c0;
  }

  /** Row 0 after the gap and the column: the gap's labels, then the column's. */
  lemma GapThenLabel(s1: Screen, s2: Screen, s3: Screen, width: nat, c0: int, here: int, lp: int, pos: int, gap: nat,
                     reference: Option<seq<char>>, leftPos: int)
    requires Wide(s1, width) && Wide(s2, width) && leftPos <= lp + 1
    requires SameRow(s2, Labels(s1, width, c0, lp + 1, gap), 0)
    requires SameRow(s3, Label(s2, width, here, pos), 0)
    ensures SameRow(s3, Label(Labels(s1, width, c0, lp + 1, gap), width, here, pos), 0)
  {
    var l := Labels(s1, width, c0, lp + 1, gap);
    LabelSameRow(s2, l, width, here, pos);
    SameRowTrans(s3, Label(s2, width, here, pos), Label(l, width, here, pos), 0);
  }

  /** Rows 2 and below after the gap and the column: only the consensus
      cell and the rows of the column's drawn reads, right of here, change. */
  lemma GapThenFrame(s1: Screen, s2: Screen, s3: Screen, here: int, entries: seq<PileupRead>, rowShift: int)
    requires LowerRowsKept(s1, s2)
    requires forall yy, xx :: yy >= 2 && (yy, xx) != (2, here) && (xx < here || !ReadRowIn(entries, rowShift, yy)) ==>
      Cell(s3, yy, xx) == Cell(s2, yy, xx)
    ensures forall yy, xx :: yy >= 2 && (yy, xx) != (2, here) && (xx < here || !ReadRowIn(entries, rowShift, yy)) ==>
      Cell(s3, yy, xx) == Cell(s1, yy, xx)
  {
  }

  class TextView {
    /** mcol */
    const width: nat
    /** the rows created so far (nLines of them) */
    var screen: Screen
    /** the next screen column to fill */
    var ccol: int
    /** the last reference position drawn */
    var lastPos: int
    /** the reference position of screen column 0 */
    var leftPos: int
    /** the fetched reference slice starting at leftPos (l_ref is its length) */
    var reference: Option<seq<char>>
    const options: Options
    const ins: bool
    const rowShift: int

    ghost predicate Valid()
      reads this
    {
      Wide(screen, width) && 0 <= ccol && 0 <= leftPos && leftPos - 1 <= lastPos
    }

    /** ttv_init followed by the option settings of bam_ttview_main: calloc
        leaves every counter 0, and the screen has no row yet. */
    constructor (width: nat, options: Options, ins: bool)
      ensures Valid()
      ensures this.width == width && this.options == options && this.ins == ins
      ensures screen == [] && ccol == 0 && leftPos == 0 && lastPos == 0
      ensures reference == None && rowShift == 0
    {
      this.width := width;
      this.options := options;
      this.ins := ins;
      rowShift := 0;
      screen := [];
      ccol := 0;
      leftPos := 0;
      lastPos := 0;
      reference := None;
    }

    /** A fresh row of getchxy: `width` blanks. */
    method NewRow() returns (row: seq<char>)
      ensures row == Blank(width)
    {
      row := [];
      while |row| < width
        invariant |row| <= width
        invariant forall k :: 0 <= k < |row| ==> row[k] == ' '
      {
        row := row + [' '];
      }
    }

    /** putchxy (through getchxy): rows are created up to y, then the cell
        is written; a column outside the width writes nothing. */
    method PutChXY(y: int, x: int, c: char)
      requires Valid() && 0 <= y
      modifies this`screen
      ensures Valid()
      ensures screen == Put(old(screen), width, y, x, c)
    {
      if x < 0 || x >= width {
        return;
      }
      while |screen| <= y
        invariant Wide(screen, width)
        invariant |old(screen)| <= |screen|
        invariant screen[..|old(screen)|] == old(screen)
        invariant forall k :: |old(screen)| <= k < |screen| ==> screen[k] == Blank(width)
        invariant |screen| == |old(screen)| || |screen| <= y + 1
        decreases y - |screen|
      {
        var row := NewRow();
        screen := screen + [row];
      }
      ghost var g := Grow(old(screen), width, y);
      assert |screen| == |g|;
      forall k | 0 <= k < |g| ensures screen[k] == g[k] {
        if k < |old(screen)| {
          assert screen[k] == screen[..|old(screen)|][k];
        }
      }
      screen := screen[y := screen[y][x := c]];
    }

    /** printfyx(y, x, "%-d", n): the decimal text, cut by vsnprintf, placed
        from column x on while it fits in the width. */
    method PrintfYX(y: int, x: int, n: int)
      requires Valid() && 0 <= y
      modifies this`screen
      ensures Valid()
      ensures screen == PutText(old(screen), width, y, x, Formatted(DecimalText(n), width))
    {
      var buffer := Formatted(DecimalText(n), width);
      var i := 0;
      while x + i < width && i < |buffer|
        invariant 0 <= i <= |buffer|
        invariant Valid()
        invariant screen == PutText(old(screen), width, y, x, buffer[..i])
      {
        assert buffer[..i + 1][..i] == buffer[..i];
        PutChXY(y, x + i, buffer[i]);
        i := i + 1;
      }
      if i < |buffer| {
        PutTextPastEdge(old(screen), width, y, x, buffer, i);
      } else {
        assert buffer[..i] == buffer;
      }
    }

    /** dump: every row, then a newline. */
    method Dump() returns (out: seq<char>)
      requires Valid()
      ensures out == Rendered(screen)
    {
      out := [];
      var y := 0;
      while y < |screen|
        invariant 0 <= y <= |screen|
        invariant out == Rendered(screen[..y])
      {
        var x := 0;
        while x < width
          invariant 0 <= x <= width
          invariant out == Rendered(screen[..y]) + screen[y][..x]
        {
          out := out + [screen[y][x]];
          x := x + 1;
        }
        assert screen[y][..x] == screen[y];
        assert screen[..y + 1][..y] == screen[..y];
        out := out + ['\n'];
        y := y + 1;
      }
      assert screen[..y] == screen;
    }

    /** ttv_clear: every row is released. */
    method Clear()
      requires Valid()
      modifies this`screen
      ensures Valid() && screen == []
    {
      screen := [];
    }

    /** The ruler label of src/ttview.c:170 and 174: position i + 1 is written
        at the current column when i is a multiple of ten and ten columns
        are left. */
    method Ruler(i: int)
      requires Valid()
      modifies this`screen
      ensures Valid()
      ensures screen == Label(old(screen), width, ccol, i)
      ensures Outside(old(screen), screen, ccol, ccol)
    {
      if i % 10 == 0 && width - ccol >= 10 {
        PrintfYX(0, ccol, i + 1);
      }
    }

    /** putchxy on a row below the ruler, at the current column, which then
        advances. */
    method PutAdvance(y: int, c: char)
      requires Valid() && 1 <= y
      modifies this`screen, this`ccol
      ensures Valid()
      ensures ccol == old(ccol) + 1
      ensures screen == Put(old(screen), width, y, old(ccol), c)
      ensures Outside(old(screen), screen, old(ccol), ccol)
    {
      PutChXY(y, ccol, c);
      ccol := ccol + 1;
    }

    /** One step of the padding loops of src/ttview.c:169-173 and 392-398:
        the ruler label of position i, then its reference base on row 1. */
    method PadColumn(i: int, ghost s0: Screen, ghost c: int, ghost first: int, ghost n: nat)
      requires Valid() && Wide(s0, width) && leftPos <= first && 0 <= c
      requires i == first + n && ccol == c + n
      requires Padded(s0, screen, width, c, first, n, reference, leftPos)
      modifies this`screen, this`ccol
      ensures Valid() && ccol == old(ccol) + 1
      ensures Padded(s0, screen, width, c, first, n + 1, reference, leftPos)
      ensures old(ccol) < width ==> |screen| >= 2
      ensures |screen| >= |old(screen)|
    {
      ghost var s := screen;
      Ruler(i);
      PutAdvance(1, RefBase(reference, leftPos, i));
      assert screen == PadNext(s, width, c + n, first + n, reference, leftPos);
      PaddedStep(s0, s, width, c, first, n, reference, leftPos);
    }

    /** The loop of src/ttview.c:169-173 over the positions skipped since
        the last column: ruler label, then the reference base. */
    method DrawGap(pos: int)
      requires Valid() && leftPos <= pos
      modifies this`screen, this`ccol
      ensures Valid()
      ensures ccol == old(ccol) + Gap(lastPos, pos)
      ensures Padded(old(screen), screen, width, old(ccol), lastPos + 1, Gap(lastPos, pos), reference, leftPos)
      ensures |screen| >= |old(screen)|
      ensures Gap(lastPos, pos) > 0 && old(ccol) < width ==> |screen| >= 2
    {
      ghost var s0, c0, first := screen, ccol, lastPos + 1;
      ghost var n: nat := 0;
      var i := lastPos + 1;
      while i < pos
        invariant Valid()
        invariant i == first + n && ccol == c0 + n
        invariant i <= pos || n == 0
        invariant Padded(s0, screen, width, c0, first, n, reference, leftPos)
        invariant |screen| >= |s0|
        invariant n > 0 && c0 < width ==> |screen| >= 2
      {
        PadColumn(i, s0, c0, first, n);
        i := i + 1;
        n := n + 1;
      }
    }

    /** max_ins of src/ttview.c:198-204: the widest insertion when insertions
        are shown, else 0. */
    method MaxInsertion(entries: seq<PileupRead>) returns (m: nat)
      ensures m == if ins then MaxIns(entries) else 0
    {
      m := 0;
      if ins {
        var i := 0;
        while i < |entries|
          invariant 0 <= i <= |entries|
          invariant m == MaxIns(entries[..i])
        {
          assert entries[..i + 1][..i] == entries[..i];
          if entries[i].indel > 0 && m < entries[i].indel {
            m := entries[i].indel;
          }
          i := i + 1;
        }
        assert entries[..i] == entries;
      }
    }

    /** One pass of the core loop (src/ttview.c:207-290): every drawn read
        gets its character for sub-column j in the current column, then the
        reference row gets rb (j == 0) or '*', and the column advances. */
    method DrawSubColumn(entries: seq<PileupRead>, rb: char, j: nat)
      requires Valid() && forall k :: 0 <= k < |entries| ==> WellFormed(entries[k])
      modifies this`screen, this`ccol
      ensures Valid()
      ensures ccol == old(ccol) + 1
      ensures old(ccol) < width ==> Cell(screen, 1, old(ccol)) == if j == 0 then rb else '*'
      ensures forall k :: 0 <= k < |entries| && Drawn(entries[k], rowShift) && OwnRow(entries, k, rowShift) && old(ccol) < width ==>
        Cell(screen, ReadRow(entries[k], rowShift), old(ccol)) == Shown(entries[k], j, rb, options)
      ensures Outside(old(screen), screen, old(ccol), ccol)
      ensures forall yy, xx :: yy == 0 || yy == 2 ==> Cell(screen, yy, xx) == Cell(old(screen), yy, xx)
      ensures forall yy, xx :: yy != 1 && (xx != old(ccol) || !ReadRowIn(entries, rowShift, yy)) ==>
        Cell(screen, yy, xx) == Cell(old(screen), yy, xx)
      ensures |screen| >= |old(screen)|
    {
      var i := 0;
      while i < |entries|
        invariant 0 <= i <= |entries|
        invariant Valid() && ccol == old(ccol)
        invariant forall k :: 0 <= k < i && Drawn(entries[k], rowShift) && OwnRow(entries, k, rowShift) && ccol < width ==>
          Cell(screen, ReadRow(entries[k], rowShift), ccol) == Shown(entries[k], j, rb, options)
        invariant forall yy, xx :: xx != ccol || yy <= MIN_ALN_ROW || !ReadRowIn(entries, rowShift, yy) ==>
          Cell(screen, yy, xx) == Cell(old(screen), yy, xx)
        invariant |screen| >= |old(screen)|
      {
        var r := entries[i];
        if Drawn(r, rowShift) {
          assert ReadRowIn(entries, rowShift, ReadRow(r, rowShift));
          PutChXY(ReadRow(r, rowShift), ccol, Shown(r, j, rb, options));
        }
        i := i + 1;
      }
      PutAdvance(1, if j == 0 then rb else '*');
    }

    /** The core loop over the sub-columns 0..maxIns. */
    method DrawReads(entries: seq<PileupRead>, rb: char, maxIns: nat)
      requires Valid() && forall k :: 0 <= k < |entries| ==> WellFormed(entries[k])
      modifies this`screen, this`ccol
      ensures Valid()
      ensures ccol == old(ccol) + maxIns + 1
      ensures forall x :: old(ccol) <= x < ccol && x < width ==>
        Cell(screen, 1, x) == if x == old(ccol) then rb else '*'
      ensures ReadsShown(screen, entries, rowShift, old(ccol), ccol, width, rb, options)
      ensures Outside(old(screen), screen, old(ccol), ccol)
      ensures forall yy, xx :: yy == 0 || yy == 2 ==> Cell(screen, yy, xx) == Cell(old(screen), yy, xx)
      ensures forall yy, xx :: yy != 1 && (xx < old(ccol) || !ReadRowIn(entries, rowShift, yy)) ==>
        Cell(screen, yy, xx) == Cell(old(screen), yy, xx)
      ensures |screen| >= |old(screen)|
    {
      var j := 0;
      while j <= maxIns
        invariant 0 <= j <= maxIns + 1
        invariant Valid() && ccol == old(ccol) + j
        invariant forall x :: old(ccol) <= x < ccol && x < width ==>
          Cell(screen, 1, x) == if x == old(ccol) then rb else '*'
        invariant forall k, x ::
            (0 <= k < |entries| && Drawn(entries[k], rowShift) && OwnRow(entries, k, rowShift)
             && old(ccol) <= x < ccol && x < width) ==>
          Cell(screen, ReadRow(entries[k], rowShift), x) == Shown(entries[k], x - old(ccol), rb, options)
        invariant Outside(old(screen), screen, old(ccol), ccol)
        invariant forall yy, xx :: yy == 0 || yy == 2 ==> Cell(screen, yy, xx) == Cell(old(screen), yy, xx)
        invariant forall yy, xx :: yy != 1 && (xx < old(ccol) || !ReadRowIn(entries, rowShift, yy)) ==>
          Cell(screen, yy, xx) == Cell(old(screen), yy, xx)
        invariant |screen| >= |old(screen)|
      {
        ghost var s0 := screen;
        DrawSubColumn(entries, rb, j);
        OutsideTrans(old(screen), s0, screen, old(ccol), ccol - 1, ccol - 1, ccol);
        forall x | old(ccol) <= x < ccol && x < width
          ensures Cell(screen, 1, x) == if x == old(ccol) then rb else '*'
        {
          if x < ccol - 1 {
            assert Cell(screen, 1, x) == Cell(s0, 1, x);
          }
        }
        j := j + 1;
      }
    }

    /** ttv_pl_func: draws one pileup column at the current screen column.
        A column left of the window, or one that arrives when the screen is
        already full, changes nothing. */
    method PlColumn(col: PileupColumn)
      requires Valid() && ColumnOk(col)
      modifies this`screen, this`ccol, this`lastPos
      ensures Valid()
      ensures col.pos < leftPos || old(ccol) > width ==>
        screen == old(screen) && ccol == old(ccol) && lastPos == old(lastPos)
      ensures !(col.pos < leftPos || old(ccol) > width) ==>
        && lastPos == col.pos
        && ccol == old(ccol) + Gap(old(lastPos), col.pos) + (if ins then MaxIns(col.entries) else 0) + 1
        && ColumnPlaced(old(screen), screen, width, old(ccol), old(lastPos), col, reference, leftPos, ins, rowShift, options)
        && Grew(old(screen), screen, width, old(ccol), old(ccol) + Gap(old(lastPos), col.pos))
    {
      if col.pos < leftPos || ccol > width {
        return;
      }
      var rb := RefBase(reference, leftPos, col.pos);
      ghost var s1, c0, lp := screen, ccol, lastPos;
      ghost var here := c0 + Gap(lp, col.pos);
      DrawGap(col.pos);
      ghost var s2 := screen;
      assert ccol == here;
      assert |s2| >= |s1| && (c0 < here && c0 < width ==> |s2| >= 2);
      DrawCall(col, rb);
      ghost var s3, c3 := screen, ccol;
      assert |s3| >= |s2| && (here < width ==> |s3| >= 3);
      assert Grew(s1, s3, width, c0, here);
      GapThenCall(s1, s2, s3, width, c0, here, c3, lp, col, rb, reference, leftPos, ins, rowShift, options);
      lastPos := col.pos;
    }

    /** The screen s0 became s by drawing from screen column c0 on, the
        column itself at here: no row is lost, row 1 exists once something
        was drawn inside the width, and rows 0-2 once the column was. */
    ghost predicate Grew(s0: Screen, s: Screen, width: nat, c0: int, here: int)
    {
      && |s| >= |s0|
      && (here < width ==> |s| >= 3)
      && (c0 < width ==> |s| >= 2)
    }

    /** The consensus call of src/ttview.c:175-197, written on row 2 at the
        current column. */
    method DrawConsensus(col: PileupColumn, rb: char)
      requires Valid() && ColumnOk(col)
      modifies this`screen
      ensures Valid()
      ensures screen == Put(old(screen), width, 2, ccol, ConsensusShown(col, rb))
    {
      var a1, a2 := Consensus.TopTwo(col.qsum);
      var call := Consensus.CallGenotype(col.scores, a1, a2, rb);
      PutChXY(2, ccol, Consensus.ConsensusChar(call.mask, rb));
    }

    /** The part of ttv_pl_func at the column itself (src/ttview.c:174-290):
        ruler label, consensus on row 2, then the reads and the reference
        row over the sub-columns 0..max_ins. */
    method DrawCall(col: PileupColumn, rb: char)
      requires Valid() && ColumnOk(col)
      modifies this`screen, this`ccol
      ensures Valid()
      ensures ccol == old(ccol) + (if ins then MaxIns(col.entries) else 0) + 1
      ensures forall x :: old(ccol) <= x < ccol && x < width ==>
        Cell(screen, 1, x) == if x == old(ccol) then rb else '*'
      ensures old(ccol) < width ==> Cell(screen, 2, old(ccol)) == ConsensusShown(col, rb)
      ensures ReadsShown(screen, col.entries, rowShift, old(ccol), ccol, width, rb, options)
      ensures Outside(old(screen), screen, old(ccol), ccol)
      ensures SameRow(screen, Label(old(screen), width, old(ccol), col.pos), 0)
      ensures forall yy, xx :: yy >= 2 && (yy, xx) != (2, old(ccol)) && (xx < old(ccol) || !ReadRowIn(col.entries, rowShift, yy)) ==>
        Cell(screen, yy, xx) == Cell(old(screen), yy, xx)
      ensures |screen| >= |old(screen)| && (old(ccol) < width ==> |screen| >= 3)
    {
      Ruler(col.pos);
      ghost var s1 := screen;
      DrawConsensus(col, rb);
      ghost var s2 := screen;
      OutsideTrans(old(screen), s1, s2, ccol, ccol, ccol, ccol + 1);
      var maxIns := MaxInsertion(col.entries);
      DrawReads(col.entries, rb, maxIns);
      OutsideTrans(old(screen), s2, screen, old(ccol), old(ccol) + 1, old(ccol), ccol);
    }

    /** The padding loop of ttv_draw_aln (src/ttview.c:392-398): the rest of
        the width gets reference bases, one position per column. */
    method DrawTail()
      requires Valid()
      modifies this`screen, this`ccol, this`lastPos
      ensures Valid()
      ensures ccol == if old(ccol) < width then width else old(ccol)
      ensures lastPos == old(lastPos) + (ccol - old(ccol))
      ensures Padded(old(screen), screen, width, old(ccol), old(lastPos) + 1, ccol - old(ccol), reference, leftPos)
      ensures old(ccol) < width ==> |screen| >= 2
      ensures old(ccol) >= width ==> screen == old(screen)
    {
      if ccol < width {
        ghost var s0, c0, first := screen, ccol, lastPos + 1;
        assert Labels(screen, width, ccol, lastPos + 1, 0) == screen;
        assert Tailing(s0, c0, first, 0);
        PadToWidth(s0, c0, first);
      } else {
        assert Labels(screen, width, ccol, lastPos + 1, 0) == screen;
      }
    }

    /** That loop, entered with columns left to fill: it runs until ccol
        reaches width. */
    method PadToWidth(ghost s0: Screen, ghost c0: int, ghost first: int)
      requires Tailing(s0, c0, first, 0) && ccol < width
      modifies this`screen, this`ccol, this`lastPos
      ensures ccol == width && Tailing(s0, c0, first, width - c0)
    {
      ghost var n: nat := 0;
      while ccol < width
        invariant c0 < width && Tailing(s0, c0, first, n)
      {
        TailPass(s0, c0, first, n);
        n := n + 1;
      }
    }

    /** The state of the padding loop of ttv_draw_aln after n passes from
        screen s0, column c0 and position first. */
    ghost predicate Tailing(s0: Screen, c0: int, first: int, n: nat)
      reads this
    {
      && Valid() && Wide(s0, width) && leftPos <= first && 0 <= c0
      && ccol == c0 + n && lastPos == first - 1 + n
      && (ccol <= width || n == 0)
      && (0 < n ==> |screen| >= 2)
      && Padded(s0, screen, width, c0, first, n, reference, leftPos)
    }

    /** One pass of that loop. */
    method TailPass(ghost s0: Screen, ghost c0: int, ghost first: int, ghost n: nat)
      requires Tailing(s0, c0, first, n) && ccol < width
      modifies this`screen, this`ccol, this`lastPos
      ensures Tailing(s0, c0, first, n + 1)
    {
      PadColumn(lastPos + 1, s0, c0, first, n);
      lastPos := lastPos + 1;
    }

    /** ccol, lastPos and row 1 are those of ColumnsDrawn after the first
        n columns. */
    ghost predicate Drew(columns: seq<PileupColumn>, n: nat)
      requires n <= |columns|
      reads this
    {
      var d := ColumnsDrawn(reference, leftPos, ins, width, columns, n);
      && lastPos == d.lastPos && ccol == d.ccol
      && RowDrawn(screen, d.row, ccol, width)
      && (0 < ccol && 0 < width ==> |screen| >= 2)
    }

    /** One pass of the pileup of ttv_draw_aln: column i is drawn. */
    method DrawColumn(columns: seq<PileupColumn>, i: nat)
      requires Valid() && i < |columns| && ColumnOk(columns[i]) && Drew(columns, i)
      modifies this`screen, this`ccol, this`lastPos
      ensures Valid() && Drew(columns, i + 1)
    {
      ghost var s0 := screen;
      ghost var d := ColumnsDrawn(reference, leftPos, ins, width, columns, i);
      var col := columns[i];
      PlColumn(col);
      if !(col.pos < leftPos || d.ccol > width) {
        PlacedRow(s0, screen, width, d.row, d.lastPos, col, reference, leftPos, ins, rowShift, options);
      }
    }

    /** The pileup pass of ttv_draw_aln (src/ttview.c:388-390): every
        column the alignment file yields goes through ttv_pl_func. */
    method DrawColumns(columns: seq<PileupColumn>)
      requires Valid() && Drew(columns, 0)
      requires forall k :: 0 <= k < |columns| ==> ColumnOk(columns[k])
      modifies this`screen, this`ccol, this`lastPos
      ensures Valid() && Drew(columns, |columns|)
    {
      var i := 0;
      while i < |columns|
        invariant 0 <= i <= |columns|
        invariant Valid() && Drew(columns, i)
      {
        DrawColumn(columns, i);
        i := i + 1;
      }
    }

    /** ttv_draw_aln: clears the screen, moves the window to pos, draws the
        pileup columns the alignment file yields, then pads to the width.
        Row 1 is the reference row of every drawn column followed by the
        TailRow. */
    method DrawAln(pos: int, fetched: Option<seq<char>>, columns: seq<PileupColumn>)
      requires Valid() && 0 <= pos
      requires forall k :: 0 <= k < |columns| ==> ColumnOk(columns[k])
      modifies this`screen, this`ccol, this`lastPos, this`leftPos, this`reference
      ensures Valid()
      ensures leftPos == pos && reference == fetched
      ensures ccol >= width
      ensures width > 0 ==> |screen| >= 2
      ensures columns == [] ==> forall k :: 0 <= k < width ==> Cell(screen, 1, k) == RefBase(fetched, pos, pos + k)
      ensures var d := ColumnsDrawn(fetched, pos, ins, width, columns, |columns|);
        var tail := TailRow(fetched, pos, d.lastPos, d.ccol, width);
        && ccol == d.ccol + |tail| && lastPos == d.lastPos + |tail|
        && |d.row + tail| >= width
        && RowDrawn(screen, d.row + tail, width, width)
    {
      Clear();
      leftPos := pos;
      lastPos := pos - 1;
      ccol := 0;
      reference := fetched;
      DrawColumns(columns);
      DrawPadding(columns);
    }

    /** The padding loop of ttv_draw_aln once the pileup pass is over: row 1
        is then the reference row of every drawn column followed by the
        TailRow. */
    method DrawPadding(columns: seq<PileupColumn>)
      requires Valid() && Drew(columns, |columns|)
      modifies this`screen, this`ccol, this`lastPos
      ensures Valid()
      ensures ccol >= width
      ensures width > 0 ==> |screen| >= 2
      ensures var d := ColumnsDrawn(reference, leftPos, ins, width, columns, |columns|);
        var tail := TailRow(reference, leftPos, d.lastPos, d.ccol, width);
        && ccol == d.ccol + |tail| && lastPos == d.lastPos + |tail|
        && |d.row + tail| >= width
        && RowDrawn(screen, d.row + tail, width, width)
    {
      ghost var s0 := screen;
      ghost var d := ColumnsDrawn(reference, leftPos, ins, width, columns, |columns|);
      assert ccol == d.ccol && lastPos == d.lastPos && RowDrawn(s0, d.row, ccol, width);
      DrawTail();
      TailStep(s0, screen, width, d.row, ccol - d.ccol, reference, leftPos, d.lastPos);
    }
  }
}
