/** Character classes, decimal numbers, delimiter splitting and C strings,
    shared by the tools of the repository. Characters are ASCII bytes held
    in Dafny chars; only the "C" locale behaviour of <ctype.h> is modelled. */
module Text {

  const NUL: char := '\0'

  /** <stdio.h> BUFSIZ of the GNU C library */
  const BUFSIZ: nat := 8192

  predicate IsDigit(c: char) { '0' <= c <= '9' }
  predicate IsLower(c: char) { 'a' <= c <= 'z' }
  predicate IsUpper(c: char) { 'A' <= c <= 'Z' }

  /** <ctype.h> toupper */
  function ToUpper(c: char): char
  {
    if IsLower(c) then (c as int - 32) as char else c
  }

  /** <ctype.h> tolower */
  function ToLower(c: char): char
  {
    if IsUpper(c) then (c as int + 32) as char else c
  }

  /** <ctype.h> isgraph: a printable character other than space */
  predicate IsGraph(c: char) { '!' <= c <= '~' }

  function DigitChar(d: nat): char
    requires d < 10
  {
    ('0' as int + d) as char
  }

  function DigitValue(c: char): nat
    requires IsDigit(c)
  {
    c as int - '0' as int
  }

  predicate AllDigits(s: seq<char>)
  {
    forall i :: 0 <= i < |s| ==> IsDigit(s[i])
  }

  /** Value of a string of decimal digits, most significant first; the
      empty string is 0, as strtol returns when it finds no digit. */
  function DigitsValue(s: seq<char>): nat
    requires AllDigits(s)
  {
    if s == [] then 0 else DigitsValue(s[..|s| - 1]) * 10 + DigitValue(s[|s| - 1])
  }

  /** printf "%d" of a non-negative value */
  function DecimalString(n: nat): (r: seq<char>)
    ensures 1 <= |r| && AllDigits(r)
  {
    if n < 10 then [DigitChar(n)] else DecimalString(n / 10) + [DigitChar(n % 10)]
  }

  /** printf "%d" of any value */
  function DecimalText(n: int): seq<char>
  {
    if n < 0 then ['-'] + DecimalString(-n) else DecimalString(n)
  }

  /** Reading back what "%d" printed gives the number again. */
  lemma {:induction false} DecimalRoundTrip(n: nat)
    ensures DigitsValue(DecimalString(n)) == n
  {
    if n >= 10 {
      DecimalRoundTrip(n / 10);
      var s := DecimalString(n);
      assert s[..|s| - 1] == DecimalString(n / 10);
    }
  }

  /* ---------------- delimiter splitting ---------------- */

  /** Number of occurrences of d in s. */
  function Count(s: seq<char>, d: char): nat
  {
    if s == [] then 0 else Count(s[..|s| - 1], d) + (if s[|s| - 1] == d then 1 else 0)
  }

  /** The fields of s between occurrences of d, read left to right: each
      character either closes the current field (a delimiter) or extends it. */
  function Split(s: seq<char>, d: char): (r: seq<seq<char>>)
    ensures |r| >= 1
  {
    if s == [] then [[]] else Extend(Split(s[..|s| - 1], d), s[|s| - 1], d)
  }

  /** The fields after one more character: a new empty field after a
      delimiter, otherwise a longer last field. */
  function Extend(t: seq<seq<char>>, c: char, d: char): (r: seq<seq<char>>)
    requires |t| >= 1
    ensures |r| >= 1
  {
    if c == d then t + [[]] else t[..|t| - 1] + [t[|t| - 1] + [c]]
  }

  /** Fields written out with d between consecutive ones. */
  function Join(t: seq<seq<char>>, d: char): seq<char>
  {
    if |t| == 0 then []
    else if |t| == 1 then t[0]
    else Join(t[..|t| - 1], d) + [d] + t[|t| - 1]
  }

  lemma JoinSnoc(t: seq<seq<char>>, x: seq<char>, d: char)
    requires |t| >= 1
    ensures Join(t + [x], d) == Join(t, d) + [d] + x
  {
    assert (t + [x])[..|t|] == t;
  }

  /** One more character extends the joined text by that character. */
  lemma JoinExtend(t: seq<seq<char>>, c: char, d: char)
    requires |t| >= 1
    ensures Join(Extend(t, c, d), d) == Join(t, d) + [c]
  {
    if c == d {
      JoinSnoc(t, [], d);
    } else if |t| == 1 {
      assert Extend(t, c, d) == [t[0] + [c]];
    } else {
      var u := t[..|t| - 1];
      var last := t[|t| - 1];
      assert t == u + [last];
      JoinSnoc(u, last, d);
      JoinSnoc(u, last + [c], d);
      assert Join(u, d) + [d] + (last + [c]) == (Join(u, d) + [d] + last) + [c];
    }
  }

  /** Joining the fields of s with the delimiter gives s back. */
  lemma {:induction false} SplitJoin(s: seq<char>, d: char)
    ensures Join(Split(s, d), d) == s
  {
    if s != [] {
      var s' := s[..|s| - 1];
      SplitJoin(s', d);
      JoinExtend(Split(s', d), s[|s| - 1], d);
      assert s' + [s[|s| - 1]] == s;
    }
  }

  /** There is one field more than there are delimiters. */
  lemma {:induction false} SplitCount(s: seq<char>, d: char)
    ensures |Split(s, d)| == Count(s, d) + 1
  {
    if s != [] {
      SplitCount(s[..|s| - 1], d);
    }
  }

  /** No field contains the delimiter. */
  lemma {:induction false} SplitFieldsClean(s: seq<char>, d: char)
    ensures forall k :: 0 <= k < |Split(s, d)| ==> d !in Split(s, d)[k]
  {
    if s != [] {
      SplitFieldsClean(s[..|s| - 1], d);
    }
  }

  /** Index of the first c in s, or |s| when there is none (strchr). */
  function FirstIndex(s: seq<char>, c: char): (k: nat)
    ensures k <= |s|
    ensures k < |s| ==> s[k] == c
  {
    if s == [] || s[0] == c then 0 else 1 + FirstIndex(s[1..], c)
  }

  /** No c comes before the first one. */
  lemma {:induction false} FirstIndexBefore(s: seq<char>, c: char)
    ensures forall t :: 0 <= t < FirstIndex(s, c) ==> s[t] != c
  {
    if s != [] && s[0] != c {
      FirstIndexBefore(s[1..], c);
    }
  }

  /** The first c is where it is. */
  lemma {:induction false} FirstIndexAt(s: seq<char>, c: char, m: nat)
    requires m <= |s| && forall t :: 0 <= t < m ==> s[t] != c
    requires m < |s| ==> s[m] == c
    ensures FirstIndex(s, c) == m
  {
    if m > 0 {
      FirstIndexAt(s[1..], c, m - 1);
    }
  }

  /** Without a delimiter, s is one field. */
  lemma {:induction false} SplitNoDelim(s: seq<char>, d: char)
    requires d !in s
    ensures Split(s, d) == [s]
  {
    if s != [] {
      assert d !in s[..|s| - 1];
      SplitNoDelim(s[..|s| - 1], d);
      assert s[..|s| - 1] + [s[|s| - 1]] == s;
    }
  }

  /** The first field ends at the first delimiter. */
  lemma {:induction false} SplitFirst(a: seq<char>, b: seq<char>, d: char)
    requires d !in a
    ensures Split(a + [d] + b, d) == [a] + Split(b, d)
    decreases |b|
  {
    if b == [] {
      assert a + [d] + b == a + [d];
      assert (a + [d])[..|a|] == a;
      SplitNoDelim(a, d);
      SplitSnoc(a, d, d);
    } else {
      var b' := b[..|b| - 1];
      var c := b[|b| - 1];
      assert a + [d] + b == (a + [d] + b') + [c];
      assert b' + [c] == b;
      SplitFirst(a, b', d);
      SplitSnoc(a + [d] + b', c, d);
      SplitSnoc(b', c, d);
      ExtendBehind(a, Split(b', d), c, d);
    }
  }

  lemma ExtendBehind(a: seq<char>, t: seq<seq<char>>, c: char, d: char)
    requires |t| >= 1
    ensures Extend([a] + t, c, d) == [a] + Extend(t, c, d)
  {
    var u := [a] + t;
    if c != d {
      assert u[..|u| - 1] == [a] + t[..|t| - 1];
    }
  }

  lemma SplitSnoc(s: seq<char>, c: char, d: char)
    ensures Split(s + [c], d) == Extend(Split(s, d), c, d)
  {
    assert (s + [c])[..|s|] == s;
  }

  /* ---------------- C strings ---------------- */

  /** The C string that starts at index i of a buffer: the characters up to
      the first NUL (or the end of the buffer). */
  function CStr(buf: seq<char>, i: nat): (r: seq<char>)
    decreases |buf| - i
  {
    if i >= |buf| || buf[i] == NUL then [] else [buf[i]] + CStr(buf, i + 1)
  }

  /** s read as a C string: cut at its first NUL. */
  function CString(s: seq<char>): seq<char>
  {
    CStr(s, 0)
  }

  lemma {:induction false} CStrNoNul(a: seq<char>, b: seq<char>, i: nat)
    requires i <= |a| && NUL !in a[i..]
    ensures CStr(a + b, i) == a[i..] + CStr(b, 0)
    decreases |a| - i
  {
    if i < |a| {
      CStrNoNul(a, b, i + 1);
      assert a[i..] == [a[i]] + a[i + 1..];
    } else {
      CStrShift(a, b, 0);
    }
  }

  lemma {:induction false} CStrShift(a: seq<char>, b: seq<char>, i: nat)
    ensures CStr(a + b, |a| + i) == CStr(b, i)
    decreases |b| - i
  {
    if i < |b| && b[i] != NUL {
      CStrShift(a, b, i + 1);
    }
  }

  /** A C string never contains NUL and is never longer than what follows its start. */
  lemma {:induction false} CStrShape(buf: seq<char>, i: nat)
    ensures NUL !in CStr(buf, i)
    ensures |CStr(buf, i)| <= if i <= |buf| then |buf| - i else 0
    decreases |buf| - i
  {
    if i < |buf| && buf[i] != NUL {
      CStrShape(buf, i + 1);
    }
  }

  /** A C string that starts inside a and ends at a NUL does not see what
      follows that NUL. */
  lemma {:induction false} CStrCut(a: seq<char>, b: seq<char>, i: nat)
    requires i <= |a|
    ensures CStr(a + [NUL] + b, i) == CStr(a, i)
    decreases |a| - i
  {
    if i < |a| && a[i] != NUL {
      CStrCut(a, b, i + 1);
    }
  }

  /** A sequence without NUL is its own C string. */
  lemma CStrWhole(s: seq<char>)
    requires NUL !in s
    ensures CString(s) == s
  {
    CStrNoNul(s, [], 0);
    assert s + [] == s;
  }

  /** A C string that fits in its buffer is the slice before its NUL. */
  lemma {:induction false} CStrSpan(buf: seq<char>, i: nat)
    requires i + |CStr(buf, i)| < |buf|
    ensures buf[i + |CStr(buf, i)|] == NUL
    ensures buf[i..i + |CStr(buf, i)|] == CStr(buf, i)
    decreases |buf| - i
  {
    if buf[i] != NUL {
      CStrSpan(buf, i + 1);
    }
  }

  /** A C string that ends at a NUL at index j is the slice before j. */
  lemma {:induction false} CStrWithin(buf: seq<char>, i: nat, j: nat)
    requires i <= j < |buf| && buf[j] == NUL
    ensures CStr(buf, i) == CStr(buf[i..j], 0)
    decreases j - i
  {
    if i < j && buf[i] != NUL {
      CStrWithin(buf, i + 1, j);
      CStrShift([buf[i]], buf[i + 1..j], 0);
      assert buf[i..j] == [buf[i]] + buf[i + 1..j];
    }
  }

  /* ---------------- strtol ---------------- */

  /** sizeof(long) == 8: the range strtol reports */
  const LONG_MAX: int := 0x7FFF_FFFF_FFFF_FFFF
  const LONG_MIN: int := -0x8000_0000_0000_0000

  /** *endptr != 0: strtol stopped before the end of the C string. */
  predicate Trailing(s: seq<char>, end: nat)
  {
    end < |s| && s[end] != NUL
  }

  /** strtol read the whole C string and did not overflow: *endptr == 0
      and errno == 0 afterwards. */
  predicate ReadsWhole(s: seq<char>)
  {
    !Trailing(s, Strtol(s).end) && !Strtol(s).erange
  }

  /** <ctype.h> isspace in the "C" locale: space, \t, \n, \v, \f, \r */
  predicate IsSpace(c: char) { c == ' ' || '\t' <= c <= '\r' }

  function SkipSpace(s: seq<char>, i: nat): (k: nat)
    requires i <= |s|
    ensures i <= k <= |s|
    ensures k < |s| ==> !IsSpace(s[k])
    decreases |s| - i
  {
    if i < |s| && IsSpace(s[i]) then SkipSpace(s, i + 1) else i
  }

  function DigitEnd(s: seq<char>, i: nat): (k: nat)
    requires i <= |s|
    ensures i <= k <= |s|
    ensures k < |s| ==> !IsDigit(s[k])
    decreases |s| - i
  {
    if i < |s| && IsDigit(s[i]) then DigitEnd(s, i + 1) else i
  }

  /** The characters DigitEnd passes over are digits. */
  lemma {:induction false} DigitEndDigits(s: seq<char>, i: nat)
    requires i <= |s|
    ensures AllDigits(s[i..DigitEnd(s, i)])
    decreases |s| - i
  {
    if i < |s| && IsDigit(s[i]) {
      DigitEndDigits(s, i + 1);
    }
  }

  /** White space up to m, which is not white space. */
  lemma {:induction false} SkipSpaceAt(s: seq<char>, i: nat, m: nat)
    requires i <= m <= |s| && forall t :: i <= t < m ==> IsSpace(s[t])
    requires m < |s| ==> !IsSpace(s[m])
    ensures SkipSpace(s, i) == m
    decreases m - i
  {
    if i < m {
      SkipSpaceAt(s, i + 1, m);
    }
  }

  /** A run of digits that reaches the end of s. */
  lemma {:induction false} DigitEndAll(s: seq<char>, i: nat)
    requires i <= |s| && forall t :: i <= t < |s| ==> IsDigit(s[t])
    ensures DigitEnd(s, i) == |s|
    decreases |s| - i
  {
    if i < |s| {
      DigitEndAll(s, i + 1);
    }
  }

  /** A run of digits stopped by the non-digit at m. */
  lemma {:induction false} DigitEndAt(s: seq<char>, i: nat, m: nat)
    requires i <= m < |s| && !IsDigit(s[m]) && forall t :: i <= t < m ==> IsDigit(s[t])
    ensures DigitEnd(s, i) == m
    decreases m - i
  {
    if i < m {
      DigitEndAt(s, i + 1, m);
    }
  }

  /** What strtol(s, &end, 10) returns, where end points, and whether it set
      errno to ERANGE. */
  datatype Conversion = Conversion(value: int, end: nat, erange: bool)

  /** strtol in base 10: leading white space, an optional sign, then the
      longest run of digits; without a digit, 0 and end == s; a value out of
      the range of long is clamped with ERANGE. */
  function Strtol(s: seq<char>): (r: Conversion)
    ensures r.end <= |s|
    ensures LONG_MIN <= r.value <= LONG_MAX
    ensures r.end == 0 ==> r.value == 0 && !r.erange
  {
    var i := SkipSpace(s, 0);
    var neg := i < |s| && s[i] == '-';
    var j := if i < |s| && (s[i] == '-' || s[i] == '+') then i + 1 else i;
    var k := DigitEnd(s, j);
    if k == j then Conversion(0, 0, false)
    else
      DigitEndDigits(s, j);
      var m := DigitsValue(s[j..k]);
      var v := if neg then -(m as int) else m as int;
      if v > LONG_MAX then Conversion(LONG_MAX, k, true)
      else if v < LONG_MIN then Conversion(LONG_MIN, k, true)
      else Conversion(v, k, false)
  }

  /** strtol reads a printed number completely. */
  lemma StrtolDecimal(n: nat)
    ensures Strtol(DecimalString(n)) ==
      if n > LONG_MAX then Conversion(LONG_MAX, |DecimalString(n)|, true)
      else Conversion(n, |DecimalString(n)|, false)
  {
    var s := DecimalString(n);
    assert !IsSpace(s[0]) && s[0] != '-' && s[0] != '+';
    assert SkipSpace(s, 0) == 0;
    DigitEndAll(s, 0);
    assert s[0..|s|] == s;
    DecimalRoundTrip(n);
  }

  /** strtol reads a printed number after white space and up to the first
      character that is not a digit. */
  lemma StrtolReads(pre: seq<char>, n: nat, rest: seq<char>)
    requires forall t :: 0 <= t < |pre| ==> IsSpace(pre[t])
    requires rest == [] || !IsDigit(rest[0])
    requires n <= LONG_MAX
    ensures Strtol(pre + DecimalString(n) + rest) == Conversion(n, |pre| + |DecimalString(n)|, false)
  {
    var d := DecimalString(n);
    var s := pre + d + rest;
    var j := |pre|;
    var k := j + |d|;
    assert s[j] == d[0] && IsDigit(s[j]) && !IsSpace(s[j]) && s[j] != '-' && s[j] != '+';
    SkipSpaceAt(s, 0, j);
    assert forall t :: j <= t < k ==> s[t] == d[t - j];
    if rest == [] {
      DigitEndAll(s, j);
    } else {
      assert s[k] == rest[0];
      DigitEndAt(s, j, k);
    }
    assert s[j..k] == d;
    DecimalRoundTrip(n);
  }
}
