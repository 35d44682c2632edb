/** bam2wig (src/bam2wig.c): prints the depth of each pileup column as a
    WIG track. A header line starts a run of consecutive positions on one
    reference; every column in [beg, end) adds one value line. */
module Bam2Wig {

  /** "name=%s pos=%d" and "%d": the header names the reference by index
      here (the header's target names are not part of this model). */
  datatype WigLine = Header(tid: int, pos: int) | Value(n: int)

  /** One call of the pileup callback: reference index, position and depth. */
  datatype Column = Column(tid: nat, pos: nat, n: int)

  predicate InRange(beg: int, end: int, c: Column)
  {
    beg <= c.pos < end
  }

  /** The column does not continue the previous run. */
  predicate Breaks(prevTid: int, prevPos: int, c: Column)
  {
    prevTid != c.tid || prevPos + 1 != c.pos
  }

  /** The lines one column prints (src/bam2wig.c:38-48). */
  function Emitted(prevTid: int, prevPos: int, beg: int, end: int, c: Column): (lines: seq<WigLine>)
    ensures !InRange(beg, end, c) ==> lines == []
    ensures InRange(beg, end, c) ==> 1 <= |lines| && lines[|lines| - 1] == Value(c.n)
    ensures InRange(beg, end, c) ==> (lines[0].Header? <==> Breaks(prevTid, prevPos, c))
    ensures InRange(beg, end, c) && Breaks(prevTid, prevPos, c) ==> lines[0] == Header(c.tid, c.pos)
    ensures |lines| <= 2
  {
    if !InRange(beg, end, c) then []
    else (if Breaks(prevTid, prevPos, c) then [Header(c.tid, c.pos)] else []) + [Value(c.n)]
  }

  /** The lines a sequence of columns prints, from the given previous
      reference and position. */
  function Scan(prevTid: int, prevPos: int, beg: int, end: int, cols: seq<Column>): seq<WigLine>
    decreases |cols|
  {
    if cols == [] then []
    else
      var c := cols[0];
      var tid := if InRange(beg, end, c) then c.tid else prevTid;
      var pos := if InRange(beg, end, c) then c.pos else prevPos;
      Emitted(prevTid, prevPos, beg, end, c) + Scan(tid, pos, beg, end, cols[1..])
  }

  /** prev_tid and prev_pos after a sequence of columns, from the given
      ones: the columns outside [beg, end) leave them alone. */
  function Moved(prevTid: int, prevPos: int, beg: int, end: int, cols: seq<Column>): (int, int)
    decreases |cols|
  {
    if cols == [] then (prevTid, prevPos)
    else if InRange(beg, end, cols[0]) then Moved(cols[0].tid, cols[0].pos, beg, end, cols[1..])
    else Moved(prevTid, prevPos, beg, end, cols[1..])
  }

  /** They are those of the last column inside [beg, end), or the starting
      ones when there is none. */
  lemma {:induction false} MovedSnoc(prevTid: int, prevPos: int, beg: int, end: int, cols: seq<Column>, c: Column)
    ensures Moved(prevTid, prevPos, beg, end, cols + [c])
      == if InRange(beg, end, c) then (c.tid, c.pos) else Moved(prevTid, prevPos, beg, end, cols)
    decreases |cols|
  {
    if cols == [] {
      assert cols + [c] == [c];
      assert [c][1..] == [];
    } else {
      assert (cols + [c])[0] == cols[0];
      assert (cols + [c])[1..] == cols[1..] + [c];
      if InRange(beg, end, cols[0]) {
        MovedSnoc(cols[0].tid, cols[0].pos, beg, end, cols[1..], c);
      } else {
        MovedSnoc(prevTid, prevPos, beg, end, cols[1..], c);
      }
    }
  }

  /** The values of the lines, in order. */
  function Values(lines: seq<WigLine>): seq<int>
  {
    if lines == [] then []
    else (if lines[0].Value? then [lines[0].n] else []) + Values(lines[1..])
  }

  function HeaderCount(lines: seq<WigLine>): nat
  {
    if lines == [] then 0
    else (if lines[0].Header? then 1 else 0) + HeaderCount(lines[1..])
  }

  /** The depths of the columns inside [beg, end). */
  function Depths(beg: int, end: int, cols: seq<Column>): seq<int>
  {
    if cols == [] then []
    else (if InRange(beg, end, cols[0]) then [cols[0].n] else []) + Depths(beg, end, cols[1..])
  }

  lemma {:induction false} ValuesAppend(a: seq<WigLine>, b: seq<WigLine>)
    ensures Values(a + b) == Values(a) + Values(b)
    ensures HeaderCount(a + b) == HeaderCount(a) + HeaderCount(b)
  {
    if a == [] {
      assert a + b == b;
    } else {
      assert (a + b)[1..] == a[1..] + b;
      ValuesAppend(a[1..], b);
    }
  }

  /** Each column inside [beg, end) prints exactly one value line, carrying
      its depth, and the value lines come in column order. */
  lemma {:induction false} ScanValues(prevTid: int, prevPos: int, beg: int, end: int, cols: seq<Column>)
    ensures Values(Scan(prevTid, prevPos, beg, end, cols)) == Depths(beg, end, cols)
    decreases |cols|
  {
    if cols != [] {
      var c := cols[0];
      var tid := if InRange(beg, end, c) then c.tid else prevTid;
      var pos := if InRange(beg, end, c) then c.pos else prevPos;
      var e := Emitted(prevTid, prevPos, beg, end, c);
      ValuesAppend(e, Scan(tid, pos, beg, end, cols[1..]));
      ScanValues(tid, pos, beg, end, cols[1..]);
      if InRange(beg, end, c) {
        if Breaks(prevTid, prevPos, c) {
          assert e == [Header(c.tid, c.pos)] + [Value(c.n)];
          ValuesAppend([Header(c.tid, c.pos)], [Value(c.n)]);
        }
      }
    }
  }

  /** Starting from prev_tid = -1 (src/bam2wig.c:97), the first line
      printed is a header. */
  lemma {:induction false} FirstLineIsHeader(prevPos: int, beg: int, end: int, cols: seq<Column>)
    ensures var lines := Scan(-1, prevPos, beg, end, cols); lines == [] || lines[0].Header?
    decreases |cols|
  {
    if cols != [] && !InRange(beg, end, cols[0]) {
      FirstLineIsHeader(prevPos, beg, end, cols[1..]);
    }
  }

  /** Consecutive positions on one reference, all inside [beg, end). */
  predicate Run(cols: seq<Column>, beg: int, end: int)
  {
    && (forall i :: 0 <= i < |cols| ==> InRange(beg, end, cols[i]))
    && (forall i :: 0 <= i < |cols| - 1 ==> cols[i + 1].tid == cols[i].tid && cols[i + 1].pos == cols[i].pos + 1)
  }

  /** A run prints one header at most: one when it does not continue the
      previous run, none when it does. */
  lemma {:induction false} OneHeaderPerRun(prevTid: int, prevPos: int, beg: int, end: int, cols: seq<Column>)
    requires Run(cols, beg, end) && cols != []
    ensures HeaderCount(Scan(prevTid, prevPos, beg, end, cols)) == if Breaks(prevTid, prevPos, cols[0]) then 1 else 0
    decreases |cols|
  {
    var c := cols[0];
    var e := Emitted(prevTid, prevPos, beg, end, c);
    var rest := Scan(c.tid, c.pos, beg, end, cols[1..]);
    ValuesAppend(e, rest);
    if Breaks(prevTid, prevPos, c) {
      ValuesAppend([Header(c.tid, c.pos)], [Value(c.n)]);
    }
    assert HeaderCount(e) == if Breaks(prevTid, prevPos, c) then 1 else 0;
    if |cols| > 1 {
      assert cols[1..][0] == cols[1];
      assert Run(cols[1..], beg, end);
      OneHeaderPerRun(c.tid, c.pos, beg, end, cols[1..]);
    }
  }

  /** What is left to print after one more column: its lines come next. */
  lemma ScanMoves(before: seq<WigLine>, total: seq<WigLine>, prevTid: int, prevPos: int, beg: int, end: int, cols: seq<Column>, i: nat)
    requires i < |cols| && before + Scan(prevTid, prevPos, beg, end, cols[i..]) == total
    ensures var c := cols[i];
      var tid := if InRange(beg, end, c) then c.tid else prevTid;
      var pos := if InRange(beg, end, c) then c.pos else prevPos;
      (before + Emitted(prevTid, prevPos, beg, end, c)) + Scan(tid, pos, beg, end, cols[i + 1..]) == total
  {
    var c := cols[i];
    assert cols[i..][0] == c && cols[i..][1..] == cols[i + 1..];
    var e := Emitted(prevTid, prevPos, beg, end, c);
    var tid := if InRange(beg, end, c) then c.tid else prevTid;
    var pos := if InRange(beg, end, c) then c.pos else prevPos;
    var after := Scan(tid, pos, beg, end, cols[i + 1..]);
    assert Scan(prevTid, prevPos, beg, end, cols[i..]) == e + after;
    assert (before + e) + after == before + (e + after);
  }

  /** The callback's state (Param of src/bam2wig.c:18-25) and its output. */
  class WigWriter {
    var prevTid: int
    var prevPos: int
    const beg: int
    const end: int
    var out: seq<WigLine>

    /** main: prev_tid = prev_pos = -1, and the window of the region. */
    constructor (beg: int, end: int)
      ensures prevTid == -1 && prevPos == -1 && out == []
      ensures this.beg == beg && this.end == end
    {
      prevTid := -1;
      prevPos := -1;
      this.beg := beg;
      this.end := end;
      out := [];
    }

    /** scan_all_genome_func: a column outside [beg, end) changes nothing;
        otherwise it prints its lines and becomes the previous column. */
    method ScanColumn(c: Column)
      modifies this`prevTid, this`prevPos, this`out
      ensures out == old(out) + Emitted(old(prevTid), old(prevPos), beg, end, c)
      ensures InRange(beg, end, c) ==> prevTid == c.tid && prevPos == c.pos
      ensures !InRange(beg, end, c) ==> prevTid == old(prevTid) && prevPos == old(prevPos)
    {
      if beg <= c.pos && c.pos < end {
        if prevTid != c.tid || prevPos + 1 != c.pos {
          out := out + [Header(c.tid, c.pos)];
        }
        out := out + [Value(c.n)];
        prevTid := c.tid;
        prevPos := c.pos;
      }
    }

    /** The pileup engine calls the callback once per column, in order. */
    method ScanAll(cols: seq<Column>)
      modifies this`prevTid, this`prevPos, this`out
      ensures out == old(out) + Scan(old(prevTid), old(prevPos), beg, end, cols)
      ensures (prevTid, prevPos) == Moved(old(prevTid), old(prevPos), beg, end, cols)
    {
      ghost var total := out + Scan(prevTid, prevPos, beg, end, cols);
      ghost var last := Moved(prevTid, prevPos, beg, end, cols);
      assert cols[0..] == cols;
      var i := 0;
      while i < |cols|
        invariant 0 <= i <= |cols|
        invariant out + Scan(prevTid, prevPos, beg, end, cols[i..]) == total
        invariant Moved(prevTid, prevPos, beg, end, cols[i..]) == last
      {
        ScanMoves(out, total, prevTid, prevPos, beg, end, cols, i);
        assert cols[i..][0] == cols[i] && cols[i..][1..] == cols[i + 1..];
        ScanColumn(cols[i]);
        i := i + 1;
      }
    }
  }
}
