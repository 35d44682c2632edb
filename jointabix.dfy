/** jointabix (src/jointabix.c): reads lines of delimited text, splits each
    line into tokens, and for every line whose chromosome, start and end
    columns are valid prints the line followed by each overlapping record of
    a tabix-indexed file. The input stream is a sequence of characters and
    the standard output a sequence of lines; the tabix library is given as
    a value (Index). */
module Jointabix {
  import opened Text
  import opened Wrappers

  const EXIT_FAILURE: int := 1

  const INT_MAX: int := 0x7FFF_FFFF

  /** The line printed for a line that found nothing. */
  const BOUM: seq<char> := "##boum\t"

  /* ---------------- reading a line ---------------- */

  /** The characters gzgetc returns before the first '\n', the stream after
      that '\n', and whether end of file was reached instead. */
  datatype LineRead = LineRead(text: seq<char>, rest: seq<char>, eof: bool)

  function NextLine(input: seq<char>): (r: LineRead)
    ensures forall t :: 0 <= t < |r.text| ==> r.text[t] != '\n'
    ensures r.eof ==> r.text == input && r.rest == []
    ensures !r.eof ==> input == r.text + ['\n'] + r.rest
    ensures |r.rest| + (if r.eof then 0 else 1) <= |input|
  {
    var k := FirstIndex(input, '\n');
    FirstIndexBefore(input, '\n');
    if k < |input| then
      assert input == input[..k] + ['\n'] + input[k + 1..];
      LineRead(input[..k], input[k + 1..], false)
    else LineRead(input, [], true)
  }

  /** The buffer size after readline's loop appended n characters to a
      buffer of size b: before each character it grows by BUFSIZ when
      len + 2 >= buffer (src/jointabix.c:54-62). */
  function Grown(b: nat, n: nat): (g: nat)
    ensures g >= b
  {
    if n == 0 then b
    else
      var g := Grown(b, n - 1);
      if n - 1 + 2 >= g then g + BUFSIZ else g
  }

  /** After one character or more the loop leaves room for the terminator
      and one more character. */
  lemma {:induction false} GrownFits(b: nat, n: nat)
    requires n >= 1
    ensures n + 1 < Grown(b, n)
  {
    if n > 1 {
      GrownFits(b, n - 1);
    }
  }

  /** The terminator write line[len] = 0 of src/jointabix.c:66 as written is
      inside the buffer. */
  predicate TerminatorFitsAsWritten(b: nat, n: nat)
  {
    n < Grown(b, n)
  }

  /** The write fits unless nothing was read into a buffer that was never
      allocated: an empty first line (or an empty input) writes through the
      NULL buffer. */
  lemma TerminatorFitsUnlessFirstEmpty(b: nat, n: nat)
    ensures TerminatorFitsAsWritten(b, n) <==> n >= 1 || b >= 1
    ensures !TerminatorFitsAsWritten(0, 0)
  {
    if n >= 1 {
      GrownFits(b, n);
    }
  }

  /** The buffer size after the corrected readline, which also grows the
      buffer for the terminator when it has no room. */
  function Capacity(b: nat, n: nat): (c: nat)
    ensures n < c
    ensures c >= b
  {
    TerminatorFitsUnlessFirstEmpty(b, n);
    if TerminatorFitsAsWritten(b, n) then Grown(b, n) else Grown(b, n) + BUFSIZ
  }

  /* ---------------- splitting in place ---------------- */

  /** The offsets splitLine pushes: 0, and one past each delimiter. */
  function Starts(s: seq<char>, d: char): (r: seq<nat>)
    ensures |r| == Count(s, d) + 1
    ensures r[0] == 0
    ensures forall k :: 0 <= k < |r| ==> r[k] <= |s|
  {
    if s == [] then [0]
    else Starts(s[..|s| - 1], d) + (if s[|s| - 1] == d then [|s|] else [])
  }

  /** The line after splitLine overwrote each delimiter with NUL. */
  function Blank(s: seq<char>, d: char): (r: seq<char>)
    ensures |r| == |s|
    ensures forall i :: 0 <= i < |s| ==> r[i] == if s[i] == d then NUL else s[i]
  {
    if s == [] then []
    else Blank(s[..|s| - 1], d) + [if s[|s| - 1] == d then NUL else s[|s| - 1]]
  }

  /** The C strings the token pointers designate. */
  function TokenTexts(buf: seq<char>, starts: seq<nat>): (r: seq<seq<char>>)
    ensures |r| == |starts|
    ensures forall k :: 0 <= k < |starts| ==> r[k] == CStr(buf, starts[k])
  {
    if starts == [] then []
    else TokenTexts(buf, starts[..|starts| - 1]) + [CStr(buf, starts[|starts| - 1])]
  }

  /** The tokens of a line. */
  function LineTokens(text: seq<char>, d: char): seq<seq<char>>
  {
    TokenTexts(Blank(text, d), Starts(text, d))
  }

  /** Token k of a split line is the field between two delimiters; the
      last one runs on into whatever follows the line. */
  lemma {:induction false} TokenSplit(s: seq<char>, d: char, rest: seq<char>, k: nat)
    requires NUL !in s && d != NUL && k <= Count(s, d)
    ensures |Starts(s, d)| == |Split(s, d)|
    ensures CStr(Blank(s, d) + rest, Starts(s, d)[k]) == Split(s, d)[k] + (if k == Count(s, d) then CStr(rest, 0) else [])
  {
    SplitCount(s, d);
    if s == [] {
      assert Blank(s, d) + rest == rest;
    } else if s[|s| - 1] == d && k == Count(s, d) {
      TokenAfterDelim(s, d, rest);
    } else {
      var c := s[|s| - 1];
      BlankSnoc(s, d, rest);
      TokenStep(s, d, k);
      var s' := s[..|s| - 1];
      TokenSplit(s', d, [if c == d then NUL else c] + rest, k);
      TokenSnoc(CStr(Blank(s, d) + rest, Starts(s, d)[k]), Split(s', d)[k], c, d, rest,
                k == Count(s', d), k == Count(s, d), Split(s, d)[k]);
    }
  }

  /** The step of TokenSplit: token k of a line without its last character c
      gives token k of the line. The field read before c was appended is
      `field`, running on into c and what follows when it was the last one;
      c either extends the last field or closes it. */
  lemma TokenSnoc(token: seq<char>, field: seq<char>, c: char, d: char, rest: seq<char>,
                  wasLast: bool, isLast: bool, whole: seq<char>)
    requires c != NUL && d != NUL
    requires token == field + (if wasLast then CStr([if c == d then NUL else c] + rest, 0) else [])
    requires isLast <==> wasLast && c != d
    requires whole == if isLast then field + [c] else field
    ensures token == whole + (if isLast then CStr(rest, 0) else [])
  {
    if wasLast && c == d {
      FieldClosed(field, rest);
    } else if wasLast {
      FieldExtended(field, c, rest);
    }
  }

  /** A delimiter blanked to NUL ends the last field. */
  lemma FieldClosed(field: seq<char>, rest: seq<char>)
    ensures field + CStr([NUL] + rest, 0) == field
  {
    assert ([NUL] + rest)[0] == NUL;
  }

  /** Any other character runs on into the last field. */
  lemma FieldExtended(field: seq<char>, c: char, rest: seq<char>)
    requires c != NUL
    ensures field + CStr([c] + rest, 0) == (field + [c]) + CStr(rest, 0)
  {
    CStrShift([c], rest, 0);
    var tail := CStr(rest, 0);
    assert CStr([c] + rest, 0) == [c] + tail;
    assert field + ([c] + tail) == (field + [c]) + tail;
  }

  /** Blanking a line character by character: the last character becomes
      part of what follows the rest of the line. */
  lemma BlankSnoc(s: seq<char>, d: char, rest: seq<char>)
    requires s != [] && NUL !in s
    ensures NUL !in s[..|s| - 1]
    ensures Blank(s, d) + rest
      == Blank(s[..|s| - 1], d) + ([if s[|s| - 1] == d then NUL else s[|s| - 1]] + rest)
  {
    var s' := s[..|s| - 1];
    forall i | 0 <= i < |s'| ensures s'[i] != NUL {
      assert s'[i] == s[i];
    }
  }

  /** How the offsets and the fields of a line change when it grows by one
      character: earlier offsets stay, and the last field is extended or
      closed. */
  lemma TokenStep(s: seq<char>, d: char, k: nat)
    requires s != [] && k <= Count(s[..|s| - 1], d)
    ensures Count(s, d) == Count(s[..|s| - 1], d) + (if s[|s| - 1] == d then 1 else 0)
    ensures |Split(s[..|s| - 1], d)| == Count(s[..|s| - 1], d) + 1 && |Split(s, d)| == Count(s, d) + 1
    ensures Starts(s, d)[k] == Starts(s[..|s| - 1], d)[k]
    ensures k < Count(s[..|s| - 1], d) ==> Split(s, d)[k] == Split(s[..|s| - 1], d)[k]
    ensures k == Count(s[..|s| - 1], d) ==>
      Split(s, d)[k] == Split(s[..|s| - 1], d)[k] + (if s[|s| - 1] == d then [] else [s[|s| - 1]])
  {
    SplitCount(s[..|s| - 1], d);
    SplitCount(s, d);
  }

  /** The token after a final delimiter is empty: it is whatever follows
      the line. */
  lemma TokenAfterDelim(s: seq<char>, d: char, rest: seq<char>)
    requires s != [] && s[|s| - 1] == d && d != NUL
    ensures |Starts(s, d)| == Count(s, d) + 1 == |Split(s, d)|
    ensures CStr(Blank(s, d) + rest, Starts(s, d)[Count(s, d)]) == Split(s, d)[Count(s, d)] + CStr(rest, 0)
  {
    SplitCount(s, d);
    var s' := s[..|s| - 1];
    var b := Blank(s', d);
    assert Blank(s, d) + rest == (b + [NUL]) + rest;
    CStrShift(b + [NUL], rest, 0);
  }

  /** Printing the tokens of a split line with the delimiter between them
      gives the line back, there is one token more than there are
      delimiters, and no token holds the delimiter (src/jointabix.c:85-108). */
  lemma SplitPrintRoundTrip(s: seq<char>, d: char)
    requires NUL !in s && d != NUL
    ensures LineTokens(s, d) == Split(s, d)
    ensures Join(LineTokens(s, d), d) == s
    ensures |LineTokens(s, d)| == Count(s, d) + 1
    ensures forall k :: 0 <= k < |LineTokens(s, d)| ==> d !in LineTokens(s, d)[k]
  {
    assert Blank(s, d) + [] == Blank(s, d);
    SplitCount(s, d);
    TokenSplit(s, d, [], 0);
    var st := Starts(s, d);
    var tt := LineTokens(s, d);
    var t := Split(s, d);
    forall k | 0 <= k < |st| ensures tt[k] == t[k] {
      TokenSplit(s, d, [], k);
      assert tt[k] == CStr(Blank(s, d) + [], st[k]);
    }
    assert tt == t;
    SplitJoin(s, d);
    SplitCount(s, d);
    SplitFieldsClean(s, d);
  }

  /** The tokens of the buffer after splitLine are the tokens of the line:
      the bytes after its terminator do not matter. */
  lemma TokensOfLine(text: seq<char>, d: char, g: seq<char>)
    ensures TokenTexts(Blank(text, d) + [NUL] + g, Starts(text, d)) == LineTokens(text, d)
  {
    var st := Starts(text, d);
    forall k | 0 <= k < |st|
      ensures CStr(Blank(text, d) + [NUL] + g, st[k]) == CStr(Blank(text, d), st[k])
    {
      CStrCut(Blank(text, d), g, st[k]);
    }
  }

  /* ---------------- numbers ---------------- */

  /** The (int) cast of a long: the low 32 bits, two's complement. */
  function ToInt32(v: int): (r: int)
    ensures -0x8000_0000 <= r <= INT_MAX
    ensures (v - r) % 0x1_0000_0000 == 0
    ensures -0x8000_0000 <= v <= INT_MAX ==> r == v
  {
    var w := v % 0x1_0000_0000;
    if w >= 0x8000_0000 then w - 0x1_0000_0000 else w
  }

  /** parseIntGE0 as written (src/jointabix.c:109-121): the long is cast to
      int before the sign test, so a value above INT_MAX wraps around. */
  function ParseIntGE0AsWritten(s: seq<char>): int
  {
    var c := Strtol(s);
    var n := ToInt32(c.value);
    if Trailing(s, c.end) || c.erange || n < 0 then -1 else n
  }

  /** parseIntGE0 with the range of int checked before the cast: -1 on
      trailing characters, on overflow, or on a negative value; otherwise the
      value of the number. */
  function ParseIntGE0(s: seq<char>): (n: int)
    ensures n == -1 || 0 <= n <= INT_MAX
    ensures n >= 0 <==> ReadsWhole(s) && 0 <= Strtol(s).value <= INT_MAX
    ensures n >= 0 ==> n == Strtol(s).value
  {
    var c := Strtol(s);
    if Trailing(s, c.end) || c.erange || c.value < 0 || c.value > INT_MAX then -1 else c.value
  }

  /** The two agree wherever the corrected one accepts. */
  lemma ParseIntGE0Agrees(s: seq<char>)
    ensures ParseIntGE0(s) >= 0 ==> ParseIntGE0AsWritten(s) == ParseIntGE0(s)
  {
  }

  /** A printed non-negative int reads back as itself; a larger number is
      rejected. */
  lemma ParseDecimal(n: nat)
    ensures ParseIntGE0(DecimalString(n)) == if n <= INT_MAX then n else -1
  {
    StrtolDecimal(n);
  }

  /** A number followed by any other character is rejected. */
  lemma ParseRejectsTrailing(n: nat, c: char)
    requires !IsDigit(c) && c != NUL
    ensures ParseIntGE0(DecimalString(n) + [c]) == -1
    ensures ParseIntGE0AsWritten(DecimalString(n) + [c]) == -1
  {
    var d := DecimalString(n);
    var s := d + [c];
    assert !IsSpace(s[0]) && s[0] != '-' && s[0] != '+';
    assert SkipSpace(s, 0) == 0;
    assert s[|d|] == c;
    DigitEndAt(s, 0, |d|);
  }

  /** A negative number is rejected; "-0" is 0. */
  lemma ParseRejectsNegative(n: nat)
    requires n <= LONG_MAX
    ensures ParseIntGE0(['-'] + DecimalString(n)) == if n == 0 then 0 else -1
  {
    var d := DecimalString(n);
    var s := ['-'] + d;
    assert SkipSpace(s, 0) == 0;
    assert forall t :: 1 <= t < |s| ==> s[t] == d[t - 1];
    DigitEndAll(s, 1);
    assert s[1..|s|] == d;
    DecimalRoundTrip(n);
  }

  /** A string that starts with neither white space, a sign nor a digit
      holds no number. */
  lemma ParseRejectsNoDigit(s: seq<char>)
    requires s != [] && !IsSpace(s[0]) && !IsDigit(s[0]) && s[0] != '-' && s[0] != '+' && s[0] != NUL
    ensures ParseIntGE0(s) == -1 && ParseIntGE0AsWritten(s) == -1
  {
    assert SkipSpace(s, 0) == 0;
    assert DigitEnd(s, 0) == 0;
  }

  /** "4294967296" is 2^32, above INT_MAX: as written the cast keeps its low
      32 bits and the column reads as position 0. */
  lemma TruncationAcceptsOverflow()
    ensures ParseIntGE0AsWritten(DecimalString(0x1_0000_0000)) == 0
    ensures ParseIntGE0(DecimalString(0x1_0000_0000)) == -1
  {
    StrtolDecimal(0x1_0000_0000);
  }

  /** parseInt as written: EXIT_FAILURE, which is 1, on a bad number. */
  function ParseIntAsWritten(s: seq<char>): int
  {
    var n := ParseIntGE0AsWritten(s);
    if n < 0 then EXIT_FAILURE else n
  }

  /** parseInt1 as written (src/jointabix.c:135-144): a 1-based column to a
      0-based one, with EXIT_FAILURE returned as if it were a column. */
  function ParseInt1AsWritten(s: seq<char>): int
  {
    var n := ParseIntAsWritten(s);
    if n < 1 then EXIT_FAILURE else n - 1
  }

  /** A 1-based column number to a 0-based column; None for anything but a
      number >= 1. */
  function ParseColumn(s: seq<char>): (r: Option<nat>)
    ensures r.Some? ==> ParseIntGE0(s) >= 1 && r.value == ParseIntGE0(s) - 1
    ensures r.None? ==> ParseIntGE0(s) < 1
  {
    var n := ParseIntGE0(s);
    if n < 1 then None else Some(n - 1)
  }

  /** A column n >= 1 becomes n - 1, as written too. */
  lemma ColumnDecimal(n: nat)
    requires 1 <= n <= INT_MAX
    ensures ParseColumn(DecimalString(n)) == Some(n - 1)
    ensures ParseInt1AsWritten(DecimalString(n)) == n - 1
  {
    StrtolDecimal(n);
  }

  /** As written, "0" selects the second column and "x" the first; both are
      errors. */
  lemma BadColumnsAccepted()
    ensures ParseInt1AsWritten(DecimalString(0)) == 1 && ParseColumn(DecimalString(0)).None?
    ensures ParseInt1AsWritten("x") == 0 && ParseColumn("x").None?
  {
    StrtolDecimal(0);
    ParseRejectsNoDigit("x");
  }

  /* ---------------- one line of join ---------------- */

  /** The command-line settings (src/jointabix.c:212-217). */
  datatype Options = Options(delim: char, ignore: char, chromCol: nat, startCol: nat, endCol: nat, shift: int)

  /** What main starts from before the options (src/jointabix.c:212-217):
      tab-delimited, the chromosome in the first column, start and end both
      in the second, lines beginning with '#' echoed, no shift. */
  const Defaults: Options := Options('\t', '#', 0, 1, 1, 0)

  /** main refuses a chromosome column that is also the start or the end
      column (src/jointabix.c:300-310). */
  predicate ColumnsAccepted(o: Options)
  {
    o.chromCol != o.startCol && o.chromCol != o.endCol
  }

  /** The tabix file: ti_get_tid's names and ti_queryi's records (their
      text, in the order ti_read returns them) for a reference index and a
      0-based half-open interval. The tabix library is not part of this
      model. */
  datatype Index = Index(tids: map<seq<char>, nat>, query: (nat, int, int) -> seq<seq<char>>)

  datatype Interval = Interval(start: int, end: int)

  /** An empty interval becomes one base wide; the shift moves both ends
      (src/jointabix.c:182-184). */
  function Normalize(start: int, end: int, shift: int): (iv: Interval)
    ensures iv.start == start + shift
    ensures iv.end - iv.start == if start == end then 1 else end - start
  {
    var e := if start == end then end + 1 else end;
    Interval(start + shift, e + shift)
  }

  /** A column is missing, the chromosome is unknown or a position is bad. */
  predicate Rejected(tokens: seq<seq<char>>, o: Options, index: Index)
  {
    || o.chromCol >= |tokens| || o.startCol >= |tokens| || o.endCol >= |tokens|
    || tokens[o.chromCol] !in index.tids
    || ParseIntGE0(tokens[o.startCol]) < 0
    || ParseIntGE0(tokens[o.endCol]) < 0
  }

  function Hits(tokens: seq<seq<char>>, o: Options, index: Index): seq<seq<char>>
    requires !Rejected(tokens, o, index)
  {
    var iv := Normalize(ParseIntGE0(tokens[o.startCol]), ParseIntGE0(tokens[o.endCol]), o.shift);
    index.query(index.tids[tokens[o.chromCol]], iv.start, iv.end)
  }

  /** With the defaults, a line "chrom TAB n" passes main's column checks
      and asks the index for the one base [n, n + 1). */
  lemma DefaultsQueryOneBase(chrom: seq<char>, n: nat, index: Index)
    requires chrom in index.tids && n <= INT_MAX
    ensures ColumnsAccepted(Defaults)
    ensures !Rejected([chrom, DecimalString(n)], Defaults, index)
    ensures Hits([chrom, DecimalString(n)], Defaults, index) == index.query(index.tids[chrom], n, n + 1)
  {
    ParseDecimal(n);
  }

  /** whole, the delimiter and each record, in order. */
  function Prefixed(whole: seq<char>, d: char, hits: seq<seq<char>>): (r: seq<seq<char>>)
    ensures |r| == |hits|
    ensures forall k :: 0 <= k < |hits| ==> r[k] == whole + [d] + hits[k]
  {
    if hits == [] then []
    else Prefixed(whole, d, hits[..|hits| - 1]) + [whole + [d] + hits[|hits| - 1]]
  }

  /** The lines a split line prints (src/jointabix.c:166-201). */
  function Answer(tokens: seq<seq<char>>, o: Options, index: Index): (r: seq<seq<char>>)
    ensures |r| >= 1
    ensures Rejected(tokens, o, index) ==> r == [BOUM + Join(tokens, o.delim)]
    ensures !Rejected(tokens, o, index) && Hits(tokens, o, index) == [] ==> r == [BOUM + Join(tokens, o.delim)]
    ensures !Rejected(tokens, o, index) && Hits(tokens, o, index) != [] ==>
      |r| == |Hits(tokens, o, index)|
      && forall k :: 0 <= k < |r| ==> r[k] == Join(tokens, o.delim) + [o.delim] + Hits(tokens, o, index)[k]
  {
    if Rejected(tokens, o, index) || Hits(tokens, o, index) == [] then [BOUM + Join(tokens, o.delim)]
    else Prefixed(Join(tokens, o.delim), o.delim, Hits(tokens, o, index))
  }

  /** The two shapes of an answer, given the outcome of the checks and the
      records the query returned: the records, each after the line, or a
      single "##boum" line when there are none. */
  lemma AnswerOf(before: seq<seq<char>>, after: seq<seq<char>>, tokens: seq<seq<char>>, o: Options, index: Index,
                 bad: bool, hits: seq<seq<char>>)
    requires bad == Rejected(tokens, o, index)
    requires !bad ==> hits == Hits(tokens, o, index)
    requires bad ==> hits == []
    requires hits == [] ==> after == before + [BOUM + Join(tokens, o.delim)]
    requires hits != [] ==> after == before + Prefixed(Join(tokens, o.delim), o.delim, hits)
    ensures after == before + Answer(tokens, o, index)
  {
  }

  /** The lines one input line prints (src/jointabix.c:155-201). */
  function Handled(text: seq<char>, o: Options, index: Index): seq<seq<char>>
  {
    if text == [] || text[0] == NUL then []
    else if text[0] == o.ignore then [CString(text)]
    else Answer(LineTokens(text, o.delim), o, index)
  }

  /** Empty lines print nothing, ignored lines are echoed unchanged, and
      every other line prints either one line or more, each the line itself
      followed by the delimiter and a record, or exactly one "##boum" line
      holding the line, which is what a line with a missing column, an
      unknown chromosome or a bad position prints. */
  lemma EveryLineAnswered(text: seq<char>, o: Options, index: Index)
    requires NUL !in text && o.delim != NUL
    ensures text == [] ==> Handled(text, o, index) == []
    ensures text != [] && text[0] == o.ignore ==> Handled(text, o, index) == [text]
    ensures text != [] && text[0] != o.ignore ==>
      || Handled(text, o, index) == [BOUM + text]
      || (|Handled(text, o, index)| >= 1 && forall k :: 0 <= k < |Handled(text, o, index)| ==> text + [o.delim] <= Handled(text, o, index)[k])
    ensures text != [] && text[0] != o.ignore && Rejected(Split(text, o.delim), o, index) ==>
      Handled(text, o, index) == [BOUM + text]
  {
    SplitPrintRoundTrip(text, o.delim);
    CStrNoNul(text, [], 0);
    assert text + [] == text;
  }

  /** The lines the whole input prints, line after line. */
  function Output(input: seq<char>, eof: bool, o: Options, index: Index): seq<seq<char>>
    decreases |input| + (if eof then 0 else 1)
  {
    if eof then []
    else
      var r := NextLine(input);
      Handled(r.text, o, index) + Output(r.rest, r.eof, o, index)
  }

  /** After the lines already printed, the input prints its first line's
      output, then the rest's. */
  lemma OutputStep(printed: seq<seq<char>>, input: seq<char>, o: Options, index: Index)
    ensures Output(input, false, o, index) ==
      Handled(NextLine(input).text, o, index) + Output(NextLine(input).rest, NextLine(input).eof, o, index)
    ensures printed + Output(input, false, o, index) ==
      (printed + Handled(NextLine(input).text, o, index)) + Output(NextLine(input).rest, NextLine(input).eof, o, index)
  {
  }

  /* ---------------- the program's state ---------------- */

  /** The JoinTabix record of src/jointabix.c:27-42. line holds the whole
      allocated buffer (buffer bytes), of which the first len are the current
      line; tokens holds the token offsets into line, of which tokensBuffer
      are allocated. out is what was written to the standard output, line by
      line. */
  class JoinTabix {
    var input: seq<char>
    var eof: bool
    var line: seq<char>
    var buffer: nat
    var len: nat
    var tokens: seq<nat>
    var tokensBuffer: nat
    const options: Options
    var out: seq<seq<char>>

    predicate Valid()
      reads this
    {
      |line| == buffer && |tokens| <= tokensBuffer && options.delim != NUL
    }

    /** main: the record is zeroed, then the settings are filled in. */
    constructor (options: Options, input: seq<char>)
      requires options.delim != NUL
      ensures Valid()
      ensures this.options == options && this.input == input && !eof
      ensures line == [] && buffer == 0 && len == 0 && tokens == [] && tokensBuffer == 0 && out == []
    {
      this.options := options;
      this.input := input;
      eof := false;
      line := [];
      buffer := 0;
      len := 0;
      tokens := [];
      tokensBuffer := 0;
      out := [];
    }

    /** The character loop of readline: copies the characters before the
        next '\n' (or the end of the input) into the line buffer, growing it
        by BUFSIZ whenever fewer than two free bytes remain. */
    method CopyLine()
      requires Valid() && !eof && len == 0
      modifies this`input, this`line, this`buffer, this`len
      ensures Valid() && !eof
      ensures len <= |old(input)| && input == old(input)[len..]
      ensures |input| == 0 || input[0] == '\n'
      ensures |line| == buffer && buffer == Grown(old(buffer), len)
      ensures len >= 1 ==> len + 1 < buffer
      ensures forall t :: 0 <= t < len ==> line[t] == old(input)[t] && old(input)[t] != '\n'
    {
      while |input| > 0 && input[0] != '\n'
        invariant Valid() && !eof && len <= |old(input)| && input == old(input)[len..]
        invariant |line| == buffer && buffer == Grown(old(buffer), len)
        invariant len >= 1 ==> len + 1 < buffer
        invariant forall t :: 0 <= t < len ==> line[t] == old(input)[t] && old(input)[t] != '\n'
        decreases |input|
      {
        var c := input[0];
        input := input[1..];
        if len + 2 >= buffer {
          buffer := buffer + BUFSIZ;
          line := line + seq(BUFSIZ, _ => NUL);
        }
        line := line[len := c];
        len := len + 1;
      }
    }

    /** readline: false once end of file was reached; otherwise the next
        line, without its '\n', NUL-terminated in the buffer. The buffer
        grows as in the source, and also when the terminator would not fit. */
    method Readline() returns (got: bool)
      requires Valid()
      modifies this`input, this`eof, this`line, this`buffer, this`len
      ensures Valid()
      ensures old(eof) ==> !got && eof && len == 0 && input == old(input) && line == old(line)
      ensures !old(eof) ==> got && len < |line| && line[len] == NUL
      ensures !old(eof) ==> line[..len] == NextLine(old(input)).text
      ensures !old(eof) ==> input == NextLine(old(input)).rest && eof == NextLine(old(input)).eof
      ensures !old(eof) ==> buffer == Capacity(old(buffer), len)
    {
      len := 0;
      if eof {
        return false;
      }
      CopyLine();
      FirstIndexAt(old(input), '\n', len);
      if |input| == 0 {
        eof := true;
        assert old(input)[..len] == old(input);
      } else {
        input := input[1..];
      }
      TerminatorFitsUnlessFirstEmpty(old(buffer), len);
      if len >= buffer {
        buffer := buffer + BUFSIZ;
        line := line + seq(BUFSIZ, _ => NUL);
      }
      line := line[len := NUL];
      got := true;
    }

    /** pushToken: the capacity grows by 50 when full; earlier tokens are
        kept. */
    method PushToken(ptr: nat)
      requires |tokens| <= tokensBuffer
      modifies this`tokens, this`tokensBuffer
      ensures tokens == old(tokens) + [ptr]
      ensures tokensBuffer == if |old(tokens)| + 1 > old(tokensBuffer) then old(tokensBuffer) + 50 else old(tokensBuffer)
      ensures |tokens| <= tokensBuffer
    {
      if |tokens| + 1 > tokensBuffer {
        tokensBuffer := tokensBuffer + 50;
      }
      tokens := tokens + [ptr];
    }

    /** splitLine: every delimiter of the current line becomes a NUL, and a
        token starts at the line's start and after each delimiter. */
    method SplitLine()
      requires Valid() && len <= |line|
      modifies this`line, this`tokens, this`tokensBuffer
      ensures Valid()
      ensures tokens == Starts(old(line[..len]), options.delim)
      ensures line == Blank(old(line[..len]), options.delim) + old(line[len..])
    {
      ghost var s := line[..len];
      ghost var orig := line;
      var d := options.delim;
      tokens := [];
      PushToken(0);
      var i := 0;
      while i < len
        invariant 0 <= i <= len && |line| == |orig| == buffer && |tokens| <= tokensBuffer
        invariant tokens == Starts(s[..i], d)
        invariant forall t :: 0 <= t < i ==> line[t] == if orig[t] == d then NUL else orig[t]
        invariant forall t :: i <= t < |line| ==> line[t] == orig[t]
      {
        assert s[..i + 1][..i] == s[..i];
        if line[i] == d {
          line := line[i := NUL];
          PushToken(i + 1);
        }
        i := i + 1;
      }
      assert s[..len] == s;
      ghost var b := Blank(s, d);
      assert forall t :: 0 <= t < len ==> line[t] == b[t];
      assert line == b + orig[len..];
    }

    /** printTokens: the tokens with the delimiter between them. */
    method PrintTokens() returns (printed: seq<char>)
      ensures printed == Join(TokenTexts(line, tokens), options.delim)
    {
      printed := [];
      var i := 0;
      while i < |tokens|
        invariant 0 <= i <= |tokens|
        invariant printed == Join(TokenTexts(line, tokens[..i]), options.delim)
      {
        assert tokens[..i + 1][..i] == tokens[..i];
        if i > 0 {
          printed := printed + [options.delim];
          JoinSnoc(TokenTexts(line, tokens[..i]), CStr(line, tokens[i]), options.delim);
        }
        printed := printed + CStr(line, tokens[i]);
        i := i + 1;
      }
      assert tokens[..i] == tokens;
    }

    /** The tests of src/jointabix.c:166-172, in their order: a missing
        column, an unknown chromosome, a bad start, a bad end. */
    method CheckLine(index: Index) returns (bad: bool, tid: nat, chromStart: int, chromEnd: int)
      ensures bad == Rejected(TokenTexts(line, tokens), options, index)
      ensures !bad ==> tid == index.tids[TokenTexts(line, tokens)[options.chromCol]]
      ensures !bad ==> chromStart == ParseIntGE0(TokenTexts(line, tokens)[options.startCol])
      ensures !bad ==> chromEnd == ParseIntGE0(TokenTexts(line, tokens)[options.endCol])
    {
      var n := |tokens|;
      tid, chromStart, chromEnd := 0, 0, 0;
      bad := options.chromCol >= n || options.startCol >= n || options.endCol >= n;
      if bad {
        return;
      }
      var name := CStr(line, tokens[options.chromCol]);
      if name !in index.tids {
        return true, tid, chromStart, chromEnd;
      }
      tid := index.tids[name];
      chromStart := ParseIntGE0(CStr(line, tokens[options.startCol]));
      if chromStart < 0 {
        return true, tid, chromStart, chromEnd;
      }
      chromEnd := ParseIntGE0(CStr(line, tokens[options.endCol]));
      bad := chromEnd < 0;
    }

    /** The ti_read loop: the tokens, the delimiter and each record. */
    method PrintHits(hits: seq<seq<char>>)
      modifies this`out
      ensures out == old(out) + Prefixed(Join(TokenTexts(line, tokens), options.delim), options.delim, hits)
    {
      var k := 0;
      while k < |hits|
        invariant 0 <= k <= |hits|
        invariant out == old(out) + Prefixed(Join(TokenTexts(line, tokens), options.delim), options.delim, hits[..k])
      {
        assert hits[..k + 1][..k] == hits[..k];
        var printed := PrintTokens();
        out := out + [printed + [options.delim] + hits[k]];
        k := k + 1;
      }
      assert hits[..k] == hits;
    }

    /** The checks and the query of one split line (src/jointabix.c:166-201). */
    method QueryLine(index: Index)
      modifies this`out
      ensures out == old(out) + Answer(TokenTexts(line, tokens), options, index)
    {
      ghost var toks := TokenTexts(line, tokens);
      var bad, hits := Lookup(index);
      var found := 0;
      if !bad {
        PrintHits(hits);
        found := |hits|;
      }
      if found == 0 {
        assert hits == [] && out == old(out);
        var printed := PrintTokens();
        out := out + [BOUM + printed];
      }
      AnswerOf(old(out), out, toks, options, index, bad, hits);
    }

    /** The checks of the line, then, when they pass, the records the index
        returns for its interval. */
    method Lookup(index: Index) returns (bad: bool, hits: seq<seq<char>>)
      ensures bad == Rejected(TokenTexts(line, tokens), options, index)
      ensures !bad ==> hits == Hits(TokenTexts(line, tokens), options, index)
      ensures bad ==> hits == []
    {
      var tid, chromStart, chromEnd;
      bad, tid, chromStart, chromEnd := CheckLine(index);
      hits := [];
      if !bad {
        var iv := Normalize(chromStart, chromEnd, options.shift);
        hits := index.query(tid, iv.start, iv.end);
      }
    }

    /** One iteration of join's loop, after readline returned text. */
    method ProcessLine(ghost text: seq<char>, index: Index)
      requires Valid() && len < |line| && line[..len] == text && line[len] == NUL
      modifies this`line, this`tokens, this`tokensBuffer, this`out
      ensures Valid()
      ensures out == old(out) + Handled(text, options, index)
    {
      ghost var g := line[len + 1..];
      assert line == text + [NUL] + g;
      if line[0] == NUL {
        return;
      }
      assert text != [] && text[0] == line[0];
      if line[0] == options.ignore {
        CStrCut(text, g, 0);
        out := out + [CStr(line, 0)];
        return;
      }
      SplitLine();
      assert line == Blank(text, options.delim) + [NUL] + g;
      TokensOfLine(text, options.delim, g);
      QueryLine(index);
    }

    /** join: every line of the input, in order, until end of file. */
    method JoinLines(index: Index)
      requires Valid()
      modifies this`input, this`eof, this`line, this`buffer, this`len, this`tokens, this`tokensBuffer, this`out
      ensures Valid() && eof
      ensures out == old(out) + Output(old(input), old(eof), options, index)
    {
      while true
        invariant Valid()
        invariant old(out) + Output(old(input), old(eof), options, index) == out + Output(input, eof, options, index)
        decreases |input| + (if eof then 0 else 1)
      {
        ghost var before := input;
        ghost var wasEof := eof;
        var got := Readline();
        if !got {
          break;
        }
        ghost var text := NextLine(before).text;
        ghost var later := Output(input, eof, options, index);
        OutputStep(out, before, options, index);
        assert !wasEof;
        ProcessLine(text, index);
      }
    }
  }
}
