/** echo (src/faidxcgi.c:95-143): the seek into the FASTA file at the
    position the .fai entry gives for chromStart, and the copy of its
    printable characters to the output, one '\n' before every 50 of them
    for the FASTA format. */
module FaidxcgiEcho {
  import opened Text
  import opened FaidxcgiMain

  /* ---------------- what echo prints ---------------- */

  /** The characters among the first n of s that pass isgraph, in order:
      spaces and line ends of the FASTA file are dropped. */
  function GraphsTo(s: seq<char>, n: nat): seq<char>
    requires n <= |s|
  {
    if n == 0 then [] else GraphsTo(s, n - 1) + (if IsGraph(s[n - 1]) then [s[n - 1]] else [])
  }

  function Graphs(s: seq<char>): seq<char>
  {
    GraphsTo(s, |s|)
  }

  /** Only the first n characters count. */
  lemma {:induction false} GraphsToSame(s: seq<char>, t: seq<char>, n: nat)
    requires n <= |s| && n <= |t| && forall i :: 0 <= i < n ==> s[i] == t[i]
    ensures GraphsTo(s, n) == GraphsTo(t, n)
  {
    if n > 0 {
      GraphsToSame(s, t, n - 1);
    }
  }

  /** Reading on only adds characters after the ones already kept. */
  lemma {:induction false} GraphsToGrow(s: seq<char>, n: nat, m: nat)
    requires n <= m <= |s|
    ensures |GraphsTo(s, n)| <= |GraphsTo(s, m)|
    ensures GraphsTo(s, m)[..|GraphsTo(s, n)|] == GraphsTo(s, n)
    decreases m
  {
    if n < m {
      GraphsToGrow(s, n, m - 1);
    }
  }

  lemma {:induction false} GraphsToAppend(a: seq<char>, b: seq<char>, m: nat)
    requires m <= |b|
    ensures GraphsTo(a + b, |a| + m) == Graphs(a) + GraphsTo(b, m)
  {
    if m == 0 {
      GraphsToSame(a + b, a, |a|);
    } else {
      GraphsToAppend(a, b, m - 1);
      assert (a + b)[|a| + m - 1] == b[m - 1];
    }
  }

  /** Filtering distributes over concatenation. */
  lemma GraphsAppend(a: seq<char>, b: seq<char>)
    ensures Graphs(a + b) == Graphs(a) + Graphs(b)
  {
    GraphsToAppend(a, b, |b|);
  }

  lemma {:induction false} GraphsToKeeps(s: seq<char>, n: nat)
    requires n <= |s| && forall k :: 0 <= k < |s| ==> IsGraph(s[k])
    ensures GraphsTo(s, n) == s[..n]
  {
    if n > 0 {
      GraphsToKeeps(s, n - 1);
      assert s[..n] == s[..n - 1] + [s[n - 1]];
    }
  }

  /** Printable text passes unchanged. */
  lemma GraphsKeeps(s: seq<char>)
    requires forall k :: 0 <= k < |s| ==> IsGraph(s[k])
    ensures Graphs(s) == s
  {
    GraphsToKeeps(s, |s|);
  }

  lemma {:induction false} GraphsToDrops(s: seq<char>, n: nat)
    requires n <= |s| && forall k :: 0 <= k < |s| ==> !IsGraph(s[k])
    ensures GraphsTo(s, n) == []
  {
    if n > 0 {
      GraphsToDrops(s, n - 1);
    }
  }

  /** Text without a printable character is dropped whole. */
  lemma GraphsDrops(s: seq<char>)
    requires forall k :: 0 <= k < |s| ==> !IsGraph(s[k])
    ensures Graphs(s) == []
  {
    GraphsToDrops(s, |s|);
  }

  /** every is -1 (no wrapping) or a line width. */
  predicate Width(every: int)
  {
    every == -1 || every > 0
  }

  /** A line starts before printed character k: k is a multiple of
      every, 0 included. */
  predicate Breaks(k: nat, every: int)
    requires Width(every)
    decreases k
  {
    every != -1 && (if k < every then k == 0 else Breaks(k - every, every))
  }

  /** The test of echo, printed % every == 0. */
  lemma {:induction false} BreaksMod(k: nat, every: int)
    requires Width(every)
    ensures Breaks(k, every) <==> every != -1 && k % every == 0
    decreases k
  {
    if every != -1 {
      if k < every {
        DivUnique(k, every, 0, k);
      } else {
        BreaksMod(k - every, every);
        DivMod(k - every, every);
        Distrib(every, (k - every) / every + 1, (k - every) / every);
        DivUnique(k, every, (k - every) / every + 1, (k - every) % every);
      }
    }
  }

  function NewLine(k: nat, every: int): seq<char>
    requires Width(every)
  {
    if Breaks(k, every) then ['\n'] else []
  }

  /** The first n printed characters of s as echo writes them: a '\n'
      before the character at every multiple of every, the first one
      included. */
  function WrappedTo(s: seq<char>, n: nat, every: int): seq<char>
    requires n <= |s| && Width(every)
  {
    if n == 0 then [] else WrappedTo(s, n - 1, every) + NewLine(n - 1, every) + [s[n - 1]]
  }

  function Wrapped(s: seq<char>, every: int): seq<char>
    requires Width(every)
  {
    WrappedTo(s, |s|, every)
  }

  /** Only the first n characters count. */
  lemma {:induction false} WrappedToSame(s: seq<char>, t: seq<char>, n: nat, every: int)
    requires n <= |s| && n <= |t| && Width(every) && forall i :: 0 <= i < n ==> s[i] == t[i]
    ensures WrappedTo(s, n, every) == WrappedTo(t, n, every)
  {
    if n > 0 {
      WrappedToSame(s, t, n - 1, every);
    }
  }

  lemma {:induction false} WrappedToPlain(s: seq<char>, n: nat)
    requires n <= |s|
    ensures WrappedTo(s, n, -1) == s[..n]
  {
    if n > 0 {
      WrappedToPlain(s, n - 1);
      assert s[..n] == s[..n - 1] + [s[n - 1]];
    }
  }

  /** Without a width nothing is added. */
  lemma WrappedPlain(s: seq<char>)
    ensures Wrapped(s, -1) == s
  {
    WrappedToPlain(s, |s|);
  }

  /** A line break and a printable character after w: only the character
      is kept. */
  lemma GraphsSnoc(w: seq<char>, k: nat, every: int, c: char)
    requires Width(every) && IsGraph(c)
    ensures Graphs(w + NewLine(k, every) + [c]) == Graphs(w) + [c]
  {
    var nl := NewLine(k, every);
    GraphsAppend(w + nl, [c]);
    GraphsAppend(w, nl);
    GraphsDrops(nl);
    GraphsKeeps([c]);
  }

  lemma {:induction false} WrappedToUnwraps(s: seq<char>, n: nat, every: int)
    requires n <= |s| && Width(every) && forall k :: 0 <= k < |s| ==> IsGraph(s[k])
    ensures Graphs(WrappedTo(s, n, every)) == s[..n]
  {
    if n > 0 {
      var w := WrappedTo(s, n - 1, every);
      var c := s[n - 1];
      WrappedToUnwraps(s, n - 1, every);
      GraphsSnoc(w, n - 1, every, c);
      assert s[..n] == s[..n - 1] + [c];
    }
  }

  /** Dropping the line ends again gives back the printed characters. */
  lemma WrappedUnwraps(s: seq<char>, every: int)
    requires Width(every) && forall k :: 0 <= k < |s| ==> IsGraph(s[k])
    ensures Graphs(Wrapped(s, every)) == s
  {
    WrappedToUnwraps(s, |s|, every);
  }

  /** One more character after the others. */
  lemma WrappedSnoc(s: seq<char>, c: char, every: int)
    requires Width(every)
    ensures Wrapped(s + [c], every) == Wrapped(s, every) + NewLine(|s|, every) + [c]
  {
    WrappedToSame(s + [c], s, |s|, every);
  }

  lemma {:induction false} WrappedToLine(s: seq<char>, t: seq<char>, m: nat, every: int)
    requires every > 0 && |s| % every == 0 && 0 < m <= |t| <= every
    ensures WrappedTo(s + t, |s| + m, every) == Wrapped(s, every) + ['\n'] + t[..m]
  {
    BreaksMod(|s| + m - 1, every);
    if m == 1 {
      WrappedToSame(s + t, s, |s|, every);
      DivMod(|s|, every);
      assert (s + t)[|s|] == t[0];
      assert t[..1] == [t[0]];
    } else {
      WrappedToLine(s, t, m - 1, every);
      DivMod(|s|, every);
      DivUnique(|s| + m - 1, every, |s| / every, m - 1);
      assert (s + t)[|s| + m - 1] == t[m - 1];
      assert t[..m] == t[..m - 1] + [t[m - 1]];
    }
  }

  /** A block of up to every characters after whole lines starts a line
      of its own: the FASTA output is lines of every characters. */
  lemma WrappedLine(s: seq<char>, t: seq<char>, every: int)
    requires every > 0 && |s| % every == 0 && 0 < |t| <= every
    ensures Wrapped(s + t, every) == Wrapped(s, every) + ['\n'] + t
  {
    WrappedToLine(s, t, |t|, every);
    assert t[..|t|] == t;
  }

  /* ---------------- the FASTA layout and the seek ---------------- */

  /** A sequence g as faidx expects it in the FASTA file: lines of blen
      bases, each followed by the line end eol. */
  function Layout(g: seq<char>, blen: nat, eol: seq<char>): seq<char>
    requires blen > 0
    decreases |g|
  {
    if |g| <= blen then g + eol
    else g[..blen] + eol + Layout(g[blen..], blen, eol)
  }

  /** The .fai entry is sound for echo: lines are not empty, a line holds
      its bases and the sequence does not start before the file. */
  predicate Sane(e: FaiEntry)
  {
    0 < e.lineBlen <= e.lineLen && 0 <= e.offset
  }

  /** Where base i of a sequence laid out in lines of blen bases and line
      characters lies, counted from its first base. */
  function LinePos(i: nat, blen: nat, line: nat): nat
    requires blen > 0
  {
    if i < blen then i else line + LinePos(i - blen, blen, line)
  }

  /** pos as written at src/faidxcgi.c:118-121. */
  function SeekAsWritten(e: FaiEntry, start: nat): int
    requires Sane(e)
  {
    e.offset + start / (e.lineBlen * e.lineLen) + start % e.lineBlen
  }

  /** The file position of base start: whole lines of lineLen characters,
      then the column. */
  function Offset(e: FaiEntry, start: nat): (pos: int)
    requires Sane(e)
    ensures pos == e.offset + LinePos(start, e.lineBlen, e.lineLen)
  {
    LinePosDiv(start, e.lineBlen, e.lineLen);
    e.offset + start / e.lineBlen * e.lineLen + start % e.lineBlen
  }

  /** On the first line of a sequence both agree. */
  lemma SeekAgreesOnFirstLine(e: FaiEntry, start: nat)
    requires Sane(e) && start < e.lineBlen
    ensures SeekAsWritten(e, start) == Offset(e, start) == e.offset + start
  {
    MulAtLeast(e.lineBlen, e.lineLen);
    DivUnique(start, e.lineBlen * e.lineLen, 0, start);
    DivUnique(start, e.lineBlen, 0, start);
  }

  /** Past the first line and before line lineBlen, the position as
      written stays on the first line: it lies before the base asked for. */
  lemma SeekAsWrittenFallsShort(e: FaiEntry, start: nat)
    requires Sane(e) && e.lineBlen <= start < e.lineBlen * e.lineLen
    ensures SeekAsWritten(e, start) < Offset(e, start)
  {
    DivUnique(start, e.lineBlen * e.lineLen, 0, start);
    assert LinePos(start, e.lineBlen, e.lineLen) >= e.lineLen;
  }

  /* Arithmetic used by the seek. */

  lemma MulAtLeast(b: int, k: int)
    requires b > 0 && k >= 1
    ensures b * k >= b
    decreases k
  {
    if k > 1 {
      MulAtLeast(b, k - 1);
      assert b * k == b * (k - 1) + b;
    }
  }

  lemma Distrib(b: int, x: int, y: int)
    ensures b * x == b * y + b * (x - y)
  {
  }

  lemma DivMod(i: int, b: int)
    requires b > 0
    ensures i == b * (i / b) + i % b && 0 <= i % b < b
  {
  }

  /** Euclidean division is determined by its quotient and remainder. */
  lemma DivUnique(i: int, b: int, q: int, r: int)
    requires b > 0 && 0 <= r < b && i == b * q + r
    ensures i / b == q && i % b == r
  {
    var q0, r0 := i / b, i % b;
    assert i == b * q0 + r0 && 0 <= r0 < b;
    if q0 > q {
      Distrib(b, q0, q);
      MulAtLeast(b, q0 - q);
    } else if q0 < q {
      Distrib(b, q, q0);
      MulAtLeast(b, q - q0);
    }
  }

  /** The line position is the formula of the C code, corrected. */
  lemma {:induction false} LinePosDiv(i: nat, blen: nat, line: nat)
    requires blen > 0
    ensures LinePos(i, blen, line) == i / blen * line + i % blen
    decreases i
  {
    if i < blen {
      DivUnique(i, blen, 0, i);
    } else {
      LinePosDiv(i - blen, blen, line);
      var q, r := (i - blen) / blen, (i - blen) % blen;
      Distrib(blen, q + 1, q);
      DivUnique(i, blen, q + 1, r);
      Distrib(line, q + 1, q);
      assert (q + 1) * line == q * line + line;
    }
  }

  /** Bases, then a line end, then more text: the line end drops out. */
  lemma GraphsLine(a: seq<char>, eol: seq<char>, rest: seq<char>)
    requires forall k :: 0 <= k < |a| ==> IsGraph(a[k])
    requires forall k :: 0 <= k < |eol| ==> !IsGraph(eol[k])
    ensures Graphs(a + eol + rest) == a + Graphs(rest)
  {
    GraphsAppend(a + eol, rest);
    GraphsAppend(a, eol);
    GraphsKeeps(a);
    GraphsDrops(eol);
  }

  /** From a base on the first line, given that the later lines hold the
      later bases. */
  lemma LayoutFirstLine(g: seq<char>, blen: nat, eol: seq<char>, i: nat)
    requires 0 <= i < blen && i < |g|
    requires forall k :: 0 <= k < |g| ==> IsGraph(g[k])
    requires forall k :: 0 <= k < |eol| ==> !IsGraph(eol[k])
    requires |g| > blen ==> Graphs(Layout(g[blen..], blen, eol)) == g[blen..]
    ensures Graphs(Layout(g, blen, eol)[i..]) == g[i..]
  {
    var l := Layout(g, blen, eol);
    if |g| <= blen {
      assert l[i..] == g[i..] + eol + [];
      GraphsLine(g[i..], eol, []);
    } else {
      var rest := Layout(g[blen..], blen, eol);
      assert l[i..] == g[i..blen] + eol + rest;
      GraphsLine(g[i..blen], eol, rest);
      assert g[i..blen] + g[blen..] == g[i..];
    }
  }

  /** Read from the position of base i on, the printable characters of the
      layout are the bases from i on. */
  lemma {:induction false} LayoutFrom(g: seq<char>, blen: nat, eol: seq<char>, i: nat)
    requires blen > 0 && i < |g|
    requires forall k :: 0 <= k < |g| ==> IsGraph(g[k])
    requires forall k :: 0 <= k < |eol| ==> !IsGraph(eol[k])
    ensures LinePos(i, blen, blen + |eol|) <= |Layout(g, blen, eol)|
    ensures Graphs(Layout(g, blen, eol)[LinePos(i, blen, blen + |eol|)..]) == g[i..]
    decreases |g|
  {
    var line := blen + |eol|;
    var l := Layout(g, blen, eol);
    if i < blen {
      assert LinePos(i, blen, line) == i;
      if |g| > blen {
        LayoutFrom(g[blen..], blen, eol, 0);
        assert Layout(g[blen..], blen, eol)[0..] == Layout(g[blen..], blen, eol);
      }
      LayoutFirstLine(g, blen, eol, i);
    } else {
      var j := i - blen;
      var rest := Layout(g[blen..], blen, eol);
      LayoutFrom(g[blen..], blen, eol, j);
      var at := LinePos(j, blen, line);
      assert LinePos(i, blen, line) == line + at;
      assert l == (g[..blen] + eol) + rest;
      assert l[line + at..] == rest[at..];
      assert g[blen..][j..] == g[i..];
    }
  }

  /* ---------------- echo ---------------- */

  /** The two loops of echo over the file from the seek position on
      (data): BUFSIZ characters read at a time, the printable ones copied
      until toPrint of them are out. When the file ends first, razf_read
      keeps returning 0 and echo never returns; here it stops with
      complete false after all there was to print. */
  method Echo(data: seq<char>, toPrint: nat, every: int) returns (out: seq<char>, complete: bool)
    requires Width(every)
    ensures complete <==> toPrint <= |Graphs(data)|
    ensures complete ==> out == WrappedTo(Graphs(data), toPrint, every)
    ensures !complete ==> out == Wrapped(Graphs(data), every)
  {
    var printed: nat := 0;
    var at := 0;
    out := [];
    complete := true;
    while printed < toPrint
      invariant at <= |data| && printed <= toPrint
      invariant printed == Printed(data, at) && out == EchoOut(data, at, every)
      decreases |data| - at
    {
      var nRead := if |data| - at < BUFSIZ then |data| - at else BUFSIZ;
      if nRead == 0 {
        complete := false;
        break;
      }
      var i := 0;
      while i < nRead && printed < toPrint
        invariant i <= nRead && at + nRead <= |data| && printed <= toPrint
        invariant printed == Printed(data, at + i) && out == EchoOut(data, at + i, every)
        invariant i == 0 ==> printed < toPrint
      {
        var c := data[at + i];
        BreaksMod(printed, every);
        if IsGraph(c) {
          if every != -1 && printed % every == 0 {
            out := out + ['\n'];
          }
          out := out + [c];
          printed := printed + 1;
        }
        i := i + 1;
      }
      at := at + i;
    }
    EchoDone(data, at, toPrint, every, complete);
  }

  /** The number of printable characters among the first p of data. */
  function Printed(data: seq<char>, p: nat): nat
    requires p <= |data|
  {
    if p == 0 then 0 else Printed(data, p - 1) + (if IsGraph(data[p - 1]) then 1 else 0)
  }

  /** What echo has written after reading the first p characters of data. */
  function EchoOut(data: seq<char>, p: nat, every: int): seq<char>
    requires p <= |data| && Width(every)
  {
    if p == 0 then []
    else
      var c := data[p - 1];
      EchoOut(data, p - 1, every)
        + (if IsGraph(c) then NewLine(Printed(data, p - 1), every) + [c] else [])
  }

  /** After p characters, echo has written the printable ones, wrapped. */
  lemma {:induction false} EchoOutWrapped(data: seq<char>, p: nat, every: int)
    requires p <= |data| && Width(every)
    ensures Printed(data, p) == |GraphsTo(data, p)|
    ensures EchoOut(data, p, every) == Wrapped(GraphsTo(data, p), every)
  {
    if p > 0 {
      EchoOutWrapped(data, p - 1, every);
      var g := GraphsTo(data, p - 1);
      var c := data[p - 1];
      if IsGraph(c) {
        WrappedSnoc(g, c, every);
      } else {
        assert GraphsTo(data, p) == g;
      }
    }
  }

  /** How echo's loops end: toPrint characters out, or the file read to
      its end with fewer. */
  lemma EchoDone(data: seq<char>, at: nat, toPrint: nat, every: int, complete: bool)
    requires at <= |data| && Width(every) && Printed(data, at) <= toPrint
    requires complete ==> Printed(data, at) == toPrint
    requires !complete ==> at == |data| && Printed(data, at) < toPrint
    ensures complete <==> toPrint <= |Graphs(data)|
    ensures complete ==> EchoOut(data, at, every) == WrappedTo(Graphs(data), toPrint, every)
    ensures !complete ==> EchoOut(data, at, every) == Wrapped(Graphs(data), every)
  {
    EchoOutWrapped(data, at, every);
    GraphsToGrow(data, at, |data|);
    if complete {
      WrappedToSame(GraphsTo(data, at), Graphs(data), toPrint, every);
    }
  }

  /** What echo prints for chromStart, chromEnd and the entry e, and
      whether it returns: the bounds are clamped to the sequence, then
      Echo runs on the file from Offset(e, start) on. */
  function Region(file: seq<char>, e: FaiEntry, start: nat, end: int, every: int): (r: (seq<char>, bool))
    requires Sane(e) && Width(every)
  {
    if start >= e.len then ([], true)
    else
      var stop := if e.len < end then e.len else end;
      if start >= stop then ([], true)
      else
        EchoAt(file, e.offset + LinePos(start, e.lineBlen, e.lineLen), stop - start, every)
  }

  /** Echo from file position pos on, for toPrint bases. */
  function EchoAt(file: seq<char>, pos: nat, toPrint: nat, every: int): (r: (seq<char>, bool))
    requires Width(every)
  {
    var data := if pos <= |file| then file[pos..] else [];
    if toPrint <= |Graphs(data)| then (WrappedTo(Graphs(data), toPrint, every), true)
    else (Wrapped(Graphs(data), every), false)
  }

  /** echo with the seek as written at src/faidxcgi.c:118-121. */
  function RegionAsWritten(file: seq<char>, e: FaiEntry, start: nat, end: int, every: int): (r: (seq<char>, bool))
    requires Sane(e) && Width(every)
  {
    if start >= e.len then ([], true)
    else
      var stop := if e.len < end then e.len else end;
      if start >= stop then ([], true)
      else EchoAt(file, SeekAsWritten(e, start), stop - start, every)
  }

  /** The two-line file of the example below, and what echo keeps of it
      from position 0 and from position 3. */
  lemma ExampleFile()
    ensures Layout("ACGT", 2, "\n") == "AC\nGT\n"
    ensures Graphs("AC\nGT\n") == "ACGT" && Graphs("AC\nGT\n"[3..]) == "GT"
  {
    var file := "AC\nGT\n";
    assert Layout("ACGT", 2, "\n") == "AC" + "\n" + Layout("GT", 2, "\n");
    assert file == "AC" + ("\n" + ("GT" + "\n"));
    assert file[3..] == "GT" + "\n";
    GraphsKeeps("AC");
    GraphsKeeps("GT");
    GraphsDrops("\n");
    GraphsAppend("GT", "\n");
    GraphsAppend("\n", "GT" + "\n");
    GraphsAppend("AC", "\n" + ("GT" + "\n"));
    assert Graphs(file) == "AC" + ([] + ("GT" + [])) == "ACGT";
    assert Graphs(file[3..]) == "GT" + [] == "GT";
  }

  /** A two-line sequence ACGT laid out two bases a line: asked for bases 2
      to 4, the seek as written lands on A and echo prints AC; the corrected
      seek lands on G and echo prints GT. */
  lemma SeekCounterexample()
    ensures Layout("ACGT", 2, "\n") == "AC\nGT\n"
    ensures SeekAsWritten(FaiEntry(4, 0, 2, 3), 2) == 0 && Offset(FaiEntry(4, 0, 2, 3), 2) == 3
    ensures RegionAsWritten("AC\nGT\n", FaiEntry(4, 0, 2, 3), 2, 4, -1) == ("AC", true)
    ensures Region("AC\nGT\n", FaiEntry(4, 0, 2, 3), 2, 4, -1) == ("GT", true)
  {
    var file := "AC\nGT\n";
    var e := FaiEntry(4, 0, 2, 3);
    ExampleFile();
    assert LinePos(2, 2, 3) == 3 + LinePos(0, 2, 3);
    assert SeekAsWritten(e, 2) == 0;
    assert file[0..] == file;
    WrappedToPlain("ACGT", 2);
    assert "ACGT"[..2] == "AC";
    WrappedPlain("GT");
    assert EchoAt(file, 0, 2, -1) == ("AC", true);
    assert EchoAt(file, 3, 2, -1) == ("GT", true);
    assert RegionAsWritten(file, e, 2, 4, -1) == EchoAt(file, SeekAsWritten(e, 2), 2, -1);
    assert Region(file, e, 2, 4, -1) == EchoAt(file, e.offset + LinePos(2, 2, 3), 2, -1);
  }

  /** echo itself: the clamping of src/faidxcgi.c:106-110, the seek and the
      loops. The seek uses the corrected position. */
  method EchoRegion(file: seq<char>, e: FaiEntry, start: nat, end: int, every: int) returns (out: seq<char>, complete: bool)
    requires Sane(e) && Width(every)
    ensures (out, complete) == Region(file, e, start, end, every)
  {
    if start >= e.len {
      return [], true;
    }
    var stop := if e.len < end then e.len else end;
    if start >= stop {
      return [], true;
    }
    var toPrint := stop - start;
    var pos := Offset(e, start);
    var data := if pos <= |file| then file[pos..] else [];
    out, complete := Echo(data, toPrint, every);
  }

  /** A FASTA file laid out as its .fai entry says: the sequence g starts
      at offset, in lines of lineBlen bases ended by lineLen - lineBlen
      characters that are not printable. */
  predicate Indexed(file: seq<char>, e: FaiEntry, g: seq<char>, eol: seq<char>)
    requires Sane(e)
  {
    && |g| == e.len && e.lineLen == e.lineBlen + |eol|
    && (forall k :: 0 <= k < |g| ==> IsGraph(g[k])) && (forall k :: 0 <= k < |eol| ==> !IsGraph(eol[k]))
    && e.offset + |Layout(g, e.lineBlen, eol)| <= |file|
    && file[e.offset..e.offset + |Layout(g, e.lineBlen, eol)|] == Layout(g, e.lineBlen, eol)
  }

  /** On a file that agrees with its index, the printable characters from
      the position of base start on begin with the bases from start on. */
  lemma IndexedFrom(file: seq<char>, e: FaiEntry, g: seq<char>, eol: seq<char>, start: nat)
    requires Sane(e) && Indexed(file, e, g, eol) && start < e.len
    ensures e.offset + LinePos(start, e.lineBlen, e.lineLen) <= |file|
    ensures Graphs(file[e.offset + LinePos(start, e.lineBlen, e.lineLen)..])
      == g[start..] + Graphs(file[e.offset + |Layout(g, e.lineBlen, eol)|..])
  {
    var l := Layout(g, e.lineBlen, eol);
    var at := LinePos(start, e.lineBlen, e.lineLen);
    var rest := file[e.offset + |l|..];
    LayoutFrom(g, e.lineBlen, eol, start);
    calc {
      file[e.offset + at..];
      file[e.offset..][at..];
      { assert file[e.offset..] == file[e.offset..e.offset + |l|] + rest; }
      (l + rest)[at..];
      l[at..] + rest;
    }
    GraphsAppend(l[at..], rest);
  }

  /** When the printable characters from the seek position on begin with
      t, as many as the clamped range asks for, echo returns and prints t
      wrapped. */
  lemma RegionPrefix(file: seq<char>, e: FaiEntry, start: nat, end: int, every: int, t: seq<char>)
    requires Sane(e) && Width(every) && start < e.len && start < end
    requires |t| == (if e.len < end then e.len else end) - start
    requires e.offset + LinePos(start, e.lineBlen, e.lineLen) <= |file|
    requires |t| <= |Graphs(file[e.offset + LinePos(start, e.lineBlen, e.lineLen)..])|
    requires Graphs(file[e.offset + LinePos(start, e.lineBlen, e.lineLen)..])[..|t|] == t
    ensures Region(file, e, start, end, every) == (Wrapped(t, every), true)
  {
    var shown := Graphs(file[e.offset + LinePos(start, e.lineBlen, e.lineLen)..]);
    forall i | 0 <= i < |t|
      ensures shown[i] == t[i]
    {
      assert shown[..|t|][i] == t[i];
    }
    WrappedToSame(shown, t, |t|, every);
  }

  /** On a file that agrees with its index, echo returns, and prints the
      bases from chromStart up to chromEnd (or the end of the sequence),
      wrapped. */
  lemma EchoFaithful(file: seq<char>, e: FaiEntry, g: seq<char>, eol: seq<char>, start: nat, end: int, every: int)
    requires Sane(e) && Width(every) && Indexed(file, e, g, eol) && start <= end
    ensures Region(file, e, start, end, every).1
    ensures start < e.len ==>
      var stop := if end < e.len then end else e.len;
      Region(file, e, start, end, every).0 == Wrapped(g[start..stop], every)
    ensures e.len <= start ==> Region(file, e, start, end, every).0 == []
  {
    var stop := if e.len < end then e.len else end;
    if start < stop {
      IndexedFrom(file, e, g, eol, start);
      var pos := e.offset + LinePos(start, e.lineBlen, e.lineLen);
      var t := g[start..stop];
      assert Graphs(file[pos..])[..stop - start] == t;
      RegionPrefix(file, e, start, end, every, t);
    } else if start < e.len {
      assert g[start..stop] == [];
    }
  }
}
