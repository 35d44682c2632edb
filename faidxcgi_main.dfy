/** The main program of faidx.cgi (src/faidxcgi.c:146-325) after the query
    string is parsed: the start/end validation, the lookup of the sequence
    in the .fai index, the seek into the FASTA file and the echo of its
    bases, wrapped for the FASTA format. */
module FaidxcgiMain {
  import opened Wrappers
  import opened Text
  import opened Faidxcgi

  /** die(message, status): the program stops with this HTTP status. */
  datatype HttpError = HttpError(status: int, message: seq<char>)

  /** A validated request: 0 <= start <= end. */
  datatype Request = Request(chrom: seq<char>, start: int, end: int, format: Option<seq<char>>)

  /* ---------------- start/end validation ---------------- */

  /** NOTEMPTY(var, msg): a variable still NULL or empty. */
  predicate Unset(v: Option<seq<char>>)
  {
    v.None? || v.value == [] || v.value[0] == NUL
  }

  /** The checks of src/faidxcgi.c:220-227, in their order. */
  function Validate(qr: Query): (r: Result<Request, HttpError>)
    ensures r.Failure? ==> r.error.status == 400
    ensures r.Success? ==>
      && qr.chrom.Some? && r.value.chrom == qr.chrom.value && !Unset(qr.chrom)
      && 0 <= r.value.start <= r.value.end <= LONG_MAX
      && r.value.format == qr.format
    ensures r.Success? <==>
      && !Unset(qr.chrom) && !Unset(qr.start) && !Unset(qr.end)
      && ReadsWhole(qr.start.value) && ReadsWhole(qr.end.value)
      && 0 <= Strtol(qr.start.value).value <= Strtol(qr.end.value).value
    ensures r.Success? ==>
      r.value.start == Strtol(qr.start.value).value && r.value.end == Strtol(qr.end.value).value
  {
    if Unset(qr.chrom) then Failure(HttpError(400, "chrom undefined"))
    else if Unset(qr.start) then Failure(HttpError(400, "start undefined"))
    else if Unset(qr.end) then Failure(HttpError(400, "end undefined"))
    else
      var a := Strtol(qr.start.value);
      if a.value < 0 || a.erange || Trailing(qr.start.value, a.end) then Failure(HttpError(400, "bad value for chromStart"))
      else
        var b := Strtol(qr.end.value);
        if b.value < a.value || b.erange || Trailing(qr.end.value, b.end) then Failure(HttpError(400, "bad value for chromEnd"))
        else Success(Request(qr.chrom.value, a.value, b.value, qr.format))
  }

  /** Two printed numbers in order are accepted as they are. */
  lemma ValidateAccepts(chrom: seq<char>, start: nat, end: nat, format: Option<seq<char>>)
    requires chrom != [] && chrom[0] != NUL && start <= end <= LONG_MAX
    ensures Validate(Query(Some(chrom), Some(DecimalString(start)), Some(DecimalString(end)), format))
      == Success(Request(chrom, start, end, format))
  {
    StrtolDecimal(start);
    StrtolDecimal(end);
  }

  /** An end before the start is refused. */
  lemma ValidateRejectsReversed(chrom: seq<char>, start: nat, end: nat, format: Option<seq<char>>)
    requires chrom != [] && chrom[0] != NUL && end < start <= LONG_MAX
    ensures Validate(Query(Some(chrom), Some(DecimalString(start)), Some(DecimalString(end)), format))
      == Failure(HttpError(400, "bad value for chromEnd"))
  {
    StrtolDecimal(start);
    StrtolDecimal(end);
  }

  /** A number followed by anything else is refused. */
  lemma ValidateRejectsTrailing(chrom: seq<char>, start: nat, rest: seq<char>, end: seq<char>, format: Option<seq<char>>)
    requires chrom != [] && chrom[0] != NUL && start <= LONG_MAX
    requires rest != [] && !IsDigit(rest[0]) && rest[0] != NUL && !Unset(Some(end))
    ensures Validate(Query(Some(chrom), Some(DecimalString(start) + rest), Some(end), format))
      == Failure(HttpError(400, "bad value for chromStart"))
  {
    var d := DecimalString(start);
    var v := d + rest;
    StrtolReads([], start, rest);
    assert [] + d + rest == v;
    assert Strtol(v) == Conversion(start, |d|, false);
    assert v[|d|] == rest[0];
    assert Trailing(v, |d|);
    assert !Unset(Some(v)) by {
      assert v[0] == d[0];
    }
  }

  /* ---------------- the .fai index ---------------- */

  /** One line of a .fai file: the sequence length, the offset of its
      first base, the bases per line and the bytes per line. */
  datatype FaiEntry = FaiEntry(len: int, offset: int, lineBlen: int, lineLen: int)

  /** What the scan of the index found: an entry, a matching line sscanf
      could not read ("Cannot read index"), or no matching line. */
  datatype Lookup = Found(entry: FaiEntry) | Unreadable | Missing

  /** strncmp(chrom, line, nameLength) == 0 && line[nameLength] == '\t',
      with the NUL written at the end of the line. */
  predicate NameMatches(line: seq<char>, chrom: seq<char>)
  {
    |chrom| < |line| && (forall t :: 0 <= t < |chrom| ==> line[t] == chrom[t]) && line[|chrom|] == '\t'
  }

  /** k conversions of sscanf in a row, each a strtol after optional
      white space (a '\t' in the format matches any white space); None as
      soon as one of them reads no digit. */
  function ScanNumbers(s: seq<char>, k: nat): (r: Option<seq<int>>)
    ensures r.Some? ==> |r.value| == k
  {
    if k == 0 then Some([])
    else
      var a := Strtol(s);
      if a.end == 0 then None
      else
        match ScanNumbers(s[a.end..], k - 1)
        case None => None
        case Some(t) => Some([a.value] + t)
  }

  /** sscanf(s, "%Ld\t%Ld\t%d\t%d", ...) == 4: four numbers. */
  function ScanEntry(s: seq<char>): Option<FaiEntry>
  {
    match ScanNumbers(s, 4)
    case None => None
    case Some(v) => Some(FaiEntry(v[0], v[1], v[2], v[3]))
  }

  /** What the index says about a line whose name matched. */
  function EntryOf(line: seq<char>, chrom: seq<char>): Lookup
    requires |chrom| < |line|
  {
    match ScanEntry(line[|chrom| + 1..])
    case None => Unreadable
    case Some(e) => Found(e)
  }

  /** Numbers printed with "%d" and separated by tabs. */
  function Fields(ns: seq<nat>): seq<char>
    requires ns != []
  {
    DecimalString(ns[0]) + (if |ns| == 1 then [] else ['\t'] + Fields(ns[1..]))
  }

  /** The fields of an index line as faidx writes them after the name:
      length, offset, bases per line, characters per line. */
  function FaiFields(e: FaiEntry): seq<char>
    requires 0 <= e.len && 0 <= e.offset && 0 <= e.lineBlen && 0 <= e.lineLen
  {
    Fields([e.len, e.offset, e.lineBlen, e.lineLen])
  }

  /** What follows the first number of a printed list. */
  function FieldsAfter(ns: seq<nat>): (r: seq<char>)
    requires ns != []
    ensures Fields(ns) == DecimalString(ns[0]) + r
  {
    if |ns| == 1 then [] else ['\t'] + Fields(ns[1..])
  }

  /** One %Ld or %d conversion reads the first number of a printed list,
      after white space pre, and stops at the separator. */
  lemma ScanField(pre: seq<char>, ns: seq<nat>)
    requires ns != [] && (pre == [] || pre == ['\t']) && ns[0] <= LONG_MAX
    ensures Strtol(pre + Fields(ns)).end == |pre| + |DecimalString(ns[0])| > 0
    ensures Strtol(pre + Fields(ns)).value == ns[0]
    ensures (pre + Fields(ns))[|pre| + |DecimalString(ns[0])|..] == FieldsAfter(ns)
  {
    var rest := FieldsAfter(ns);
    assert pre + Fields(ns) == pre + DecimalString(ns[0]) + rest;
    StrtolReads(pre, ns[0], rest);
  }

  /** sscanf reads back every number of a tab-separated list, the first
      one after white space pre. */
  lemma {:induction false} ScanFieldsList(pre: seq<char>, ns: seq<nat>)
    requires ns != [] && (pre == [] || pre == ['\t'])
    requires forall i :: 0 <= i < |ns| ==> ns[i] <= LONG_MAX
    ensures ScanNumbers(pre + Fields(ns), |ns|) == Some(ns)
    decreases |ns|
  {
    if |ns| > 1 {
      ScanFieldsList(['\t'], ns[1..]);
    }
    ScanCons(pre, ns);
  }

  /** The first number of a list, then the conversions of the rest. */
  lemma ScanCons(pre: seq<char>, ns: seq<nat>)
    requires ns != [] && (pre == [] || pre == ['\t']) && ns[0] <= LONG_MAX
    requires ScanNumbers(FieldsAfter(ns), |ns| - 1) == Some(ns[1..])
    ensures ScanNumbers(pre + Fields(ns), |ns|) == Some(ns)
  {
    ScanField(pre, ns);
    ScanNumbersCons(pre + Fields(ns), ns, FieldsAfter(ns));
  }

  /** A conversion that reads ns[0] and leaves rest, then the others. */
  lemma ScanNumbersCons(s: seq<char>, ns: seq<int>, rest: seq<char>)
    requires ns != [] && Strtol(s).end > 0 && Strtol(s).value == ns[0] && s[Strtol(s).end..] == rest
    requires ScanNumbers(rest, |ns| - 1) == Some(ns[1..])
    ensures ScanNumbers(s, |ns|) == Some(ns)
  {
    assert [ns[0]] + ns[1..] == ns;
  }

  /** sscanf reads back the four numbers faidx wrote. */
  lemma ScanFields(e: FaiEntry)
    requires 0 <= e.len <= LONG_MAX && 0 <= e.offset <= LONG_MAX
    requires 0 <= e.lineBlen <= LONG_MAX && 0 <= e.lineLen <= LONG_MAX
    ensures ScanEntry(FaiFields(e)) == Some(e)
  {
    var ns: seq<nat> := [e.len, e.offset, e.lineBlen, e.lineLen];
    ScanFieldsList([], ns);
    assert [] + Fields(ns) == FaiFields(e);
  }

  /** Printed numbers hold no line end. */
  lemma {:induction false} FieldsOneLine(ns: seq<nat>)
    requires ns != []
    ensures '\n' !in Fields(ns)
  {
    assert forall t :: 0 <= t < |DecimalString(ns[0])| ==> DecimalString(ns[0])[t] != '\n';
    if |ns| > 1 {
      FieldsOneLine(ns[1..]);
    }
  }

  /** An index whose first line is the one faidx writes for chrom finds
      that entry. */
  lemma LookupIndexLine(chrom: seq<char>, e: FaiEntry, rest: seq<char>)
    requires '\n' !in chrom
    requires 0 <= e.len <= LONG_MAX && 0 <= e.offset <= LONG_MAX
    requires 0 <= e.lineBlen <= LONG_MAX && 0 <= e.lineLen <= LONG_MAX
    ensures FaiLookup(chrom + ['\t'] + FaiFields(e) + ['\n'] + rest, chrom) == Found(e)
  {
    var fields := FaiFields(e);
    var line := chrom + ['\t'] + fields;
    FieldsOneLine([e.len, e.offset, e.lineBlen, e.lineLen]);
    assert NameMatches(line, chrom);
    LookupFinds(line, rest, chrom);
    assert line[|chrom| + 1..] == fields;
    ScanFields(e);
  }

  /** The end of the line that starts at from: the index of the next '\n',
      or |fai| when there is none. */
  function LineEnd(fai: seq<char>, from: nat): (k: nat)
    requires from <= |fai|
    ensures from <= k <= |fai|
    ensures k < |fai| ==> fai[k] == '\n'
    decreases |fai| - from
  {
    if from == |fai| || fai[from] == '\n' then from else LineEnd(fai, from + 1)
  }

  lemma {:induction false} LineEndAt(fai: seq<char>, from: nat, k: nat)
    requires from <= k <= |fai| && forall t :: from <= t < k ==> fai[t] != '\n'
    requires k < |fai| ==> fai[k] == '\n'
    ensures LineEnd(fai, from) == k
    decreases k - from
  {
    if from < k {
      LineEndAt(fai, from + 1, k);
    }
  }

  /** The first complete line from index from on whose name field is
      chrom; a last line without '\n' is never looked at. */
  function MatchFrom(fai: seq<char>, from: nat, chrom: seq<char>): (r: Option<seq<char>>)
    requires from <= |fai|
    ensures r.Some? ==> NameMatches(r.value, chrom)
    decreases |fai| - from
  {
    var k := LineEnd(fai, from);
    if k == |fai| then None
    else if k > from && NameMatches(fai[from..k], chrom) then Some(fai[from..k])
    else MatchFrom(fai, k + 1, chrom)
  }

  function MatchingLine(fai: seq<char>, chrom: seq<char>): (r: Option<seq<char>>)
    ensures r.Some? ==> NameMatches(r.value, chrom)
  {
    MatchFrom(fai, 0, chrom)
  }

  /** The loop of src/faidxcgi.c:248-287: the matching line is read by
      sscanf, and without one the chromosome is unknown. */
  function FaiLookup(fai: seq<char>, chrom: seq<char>): Lookup
  {
    match MatchingLine(fai, chrom)
    case None => Missing
    case Some(line) => EntryOf(line, chrom)
  }

  /** What comes before a line does not change where it ends. */
  lemma {:induction false} LineEndShift(p: seq<char>, s: seq<char>, j: nat)
    requires j <= |s|
    ensures LineEnd(p + s, |p| + j) == |p| + LineEnd(s, j)
    decreases |s| - j
  {
    var ps := p + s;
    assert |p| + j < |ps| ==> ps[|p| + j] == s[j];
    if j < |s| && s[j] != '\n' {
      LineEndShift(p, s, j + 1);
    }
  }

  lemma SliceShift(p: seq<char>, s: seq<char>, j: nat, k: nat)
    requires j <= k <= |s|
    ensures (p + s)[|p| + j..|p| + k] == s[j..k]
  {
  }

  /** ... nor which line matches. */
  lemma {:induction false} MatchShift(p: seq<char>, s: seq<char>, j: nat, chrom: seq<char>)
    requires j <= |s|
    ensures MatchFrom(p + s, |p| + j, chrom) == MatchFrom(s, j, chrom)
    decreases |s| - j
  {
    LineEndShift(p, s, j);
    var k := LineEnd(s, j);
    SliceShift(p, s, j, k);
    if k < |s| {
      MatchShift(p, s, k + 1, chrom);
    }
  }

  /** A line that does not match is skipped. */
  lemma LookupSkips(line: seq<char>, rest: seq<char>, chrom: seq<char>)
    requires '\n' !in line && !NameMatches(line, chrom)
    ensures MatchingLine(line + ['\n'] + rest, chrom) == MatchingLine(rest, chrom)
  {
    var p := line + ['\n'];
    var s := p + rest;
    LineEndAt(s, 0, |line|);
    assert s[0..|line|] == line;
    MatchShift(p, rest, 0, chrom);
  }

  /** The first matching line is the answer, whatever follows it. */
  lemma LookupFinds(line: seq<char>, rest: seq<char>, chrom: seq<char>)
    requires '\n' !in line && NameMatches(line, chrom)
    ensures FaiLookup(line + ['\n'] + rest, chrom) == EntryOf(line, chrom)
  {
    var s := line + ['\n'] + rest;
    LineEndAt(s, 0, |line|);
    assert s[0..|line|] == line;
  }

  /** Text after the last '\n' is never matched. */
  lemma LookupUnterminated(s: seq<char>, chrom: seq<char>)
    requires '\n' !in s
    ensures FaiLookup(s, chrom) == Missing
  {
    LineEndAt(s, 0, |s|);
  }

  /** For a name without tab, a line matches exactly when its first field
      is that name: a longer name with the same prefix does not match. */
  lemma NameMatchesExact(line: seq<char>, chrom: seq<char>)
    requires '\t' !in chrom
    ensures NameMatches(line, chrom) <==>
      FirstIndex(line, '\t') < |line| && line[..FirstIndex(line, '\t')] == chrom
  {
    var k := FirstIndex(line, '\t');
    FirstIndexBefore(line, '\t');
    if NameMatches(line, chrom) {
      forall t | 0 <= t < |chrom| ensures line[t] != '\t' {
        assert line[t] == chrom[t];
      }
      FirstIndexAt(line, '\t', |chrom|);
    }
  }

  /** The index loop on the characters of the .fai file: each line is
      checked when its '\n' arrives, the first whose name field is chrom
      is read by sscanf, and a file without one gives an unknown
      chromosome. */
  method FindEntry(fai: seq<char>, chrom: seq<char>) returns (r: Lookup)
    ensures r == FaiLookup(fai, chrom)
  {
    var lineBuff: nat := BUFSIZ;
    var i := 0;
    var found := false;
    var line: seq<char> := [];
    while i < |fai|
      invariant i <= |fai| && 2 <= lineBuff
      invariant MatchFrom(fai, i, chrom) == MatchingLine(fai, chrom)
      invariant !found
      decreases |fai| - i
    {
      var j;
      line, j, lineBuff := ReadLine(fai, i, lineBuff);
      if j == |fai| {
        i := j;
        break;
      }
      LineEnds(fai, i, j, line, chrom);
      if |line| > 0 && NameMatches(line, chrom) {
        found := true;
        break;
      }
      i := j + 1;
    }
    if found {
      r := EntryOf(line, chrom);
    } else {
      LineEndAt(fai, i, |fai|);
      r := Missing;
    }
  }

  /** Collects the characters from i up to the next '\n' (or the end of
      the file) in a buffer grown by BUFSIZ whenever it would leave no room
      for the terminator; the buffer keeps its size from line to line. */
  method ReadLine(fai: seq<char>, i: nat, lineBuff: nat) returns (line: seq<char>, j: nat, lineBuff': nat)
    requires i <= |fai| && 2 <= lineBuff
    ensures i <= j <= |fai| && j == LineEnd(fai, i)
    ensures |line| == j - i && forall t :: 0 <= t < |line| ==> line[t] == fai[i + t] && line[t] != '\n'
    ensures |line| + 2 <= lineBuff' && lineBuff <= lineBuff'
  {
    lineBuff' := lineBuff;
    line := [];
    j := i;
    while j < |fai| && fai[j] != '\n'
      invariant i <= j <= |fai| && j - i == |line|
      invariant |line| + 2 <= lineBuff' && lineBuff <= lineBuff'
      invariant forall t :: 0 <= t < |line| ==> line[t] == fai[i + t] && line[t] != '\n'
      invariant forall t :: i <= t < j ==> fai[t] != '\n'
    {
      if |line| + 2 >= lineBuff' {
        lineBuff' := lineBuff' + BUFSIZ;
      }
      line := line + [fai[j]];
      j := j + 1;
    }
    LineEndAt(fai, i, j);
  }

  /** The line from start ends at the '\n' at i: the search from start
      stops at it or goes on after it. */
  lemma LineEnds(fai: seq<char>, start: nat, i: nat, line: seq<char>, chrom: seq<char>)
    requires start <= i < |fai| && fai[i] == '\n'
    requires |line| == i - start && forall t :: 0 <= t < |line| ==> line[t] == fai[start + t] && line[t] != '\n'
    ensures MatchFrom(fai, start, chrom)
      == if |line| > 0 && NameMatches(line, chrom) then Some(line) else MatchFrom(fai, i + 1, chrom)
  {
    forall t | start <= t < i
      ensures fai[t] != '\n'
    {
      assert line[t - start] == fai[t];
    }
    LineEndAt(fai, start, i);
    assert fai[start..i] == line;
  }
}
