/** faidx.cgi (src/faidxcgi.c): a CGI program that answers a GET query
    naming a reference sequence and an interval with the bases of that
    interval, read from a FASTA file through its .fai index. */
module Faidxcgi {
  import opened Wrappers
  import opened Text

  /* ---------------- URL decoding ---------------- */

  predicate IsHexDigit(c: char)
  {
    IsDigit(c) || 'a' <= c <= 'f' || 'A' <= c <= 'F'
  }

  function HexValue(c: char): (v: nat)
    requires IsHexDigit(c)
    ensures v < 16
  {
    if IsDigit(c) then DigitValue(c)
    else if 'a' <= c <= 'f' then c as int - 'a' as int + 10
    else c as int - 'A' as int + 10
  }

  /** (char) strtoul({a, b, 0}, NULL, 16): white space is skipped, a sign is
      taken, then the hexadecimal digits; no digit gives 0, a minus sign
      negates modulo 2^64, and the cast keeps the low byte. */
  function HexPair(a: char, b: char): (r: char)
    ensures r as int < 256
    ensures IsHexDigit(a) && IsHexDigit(b) ==> r as int == 16 * HexValue(a) + HexValue(b)
    ensures IsHexDigit(a) && !IsHexDigit(b) ==> r as int == HexValue(a)
    ensures !IsHexDigit(a) && !IsSpace(a) && a != '+' && a != '-' ==> r == NUL
    ensures !IsHexDigit(b) && !IsHexDigit(a) ==> r == NUL
  {
    if IsHexDigit(a) then
      (if IsHexDigit(b) then (16 * HexValue(a) + HexValue(b)) as char else HexValue(a) as char)
    else if IsSpace(a) || a == '+' then
      (if IsHexDigit(b) then HexValue(b) as char else NUL)
    else if a == '-' then
      (if IsHexDigit(b) then ((256 - HexValue(b)) % 256) as char else NUL)
    else NUL
  }

  /** '+' read as a space, everything else kept. */
  function Spaced(s: seq<char>): (r: seq<char>)
    ensures |r| == |s|
    ensures forall i :: 0 <= i < |s| ==> r[i] == if s[i] == '+' then ' ' else s[i]
  {
    if s == [] then [] else [if s[0] == '+' then ' ' else s[0]] + Spaced(s[1..])
  }

  /** What decode (src/faidxcgi.c:65-84) leaves in the buffer of the C
      string s, from index i on: '+' becomes a space; "%xy" with two more
      characters becomes the decoded character, a NUL, and y (the NUL ends
      the C string); any other character stays. */
  function DecodedFrom(s: seq<char>, i: nat): (r: seq<char>)
    requires i <= |s|
    ensures |r| == |s| - i
    decreases |s| - i
  {
    if i == |s| then []
    else if s[i] == '+' then [' '] + DecodedFrom(s, i + 1)
    else if s[i] == '%' && i + 3 <= |s| then [HexPair(s[i + 1], s[i + 2]), NUL, s[i + 2]] + DecodedFrom(s, i + 3)
    else [s[i]] + DecodedFrom(s, i + 1)
  }

  function Decoded(s: seq<char>): (r: seq<char>)
    ensures |r| == |s|
  {
    DecodedFrom(s, 0)
  }

  /** Decoding from index i is decoding the suffix at i. */
  lemma {:induction false} DecodedFromSuffix(s: seq<char>, i: nat)
    requires i <= |s|
    ensures DecodedFrom(s, i) == Decoded(s[i..])
    decreases |s| - i
  {
    var r := s[i..];
    if i < |s| {
      var m := if s[i] == '%' && i + 3 <= |s| then 3 else 1;
      assert r[m..] == s[i + m..];
      DecodedFromSuffix(s, i + m);
      DecodedFromSuffix(r, m);
    }
  }

  /** Decoded, one character or escape at a time from the front. */
  lemma DecodedCons(s: seq<char>)
    ensures Decoded(s) ==
      if s == [] then []
      else if s[0] == '+' then [' '] + Decoded(s[1..])
      else if s[0] == '%' && |s| >= 3 then [HexPair(s[1], s[2]), NUL, s[2]] + Decoded(s[3..])
      else [s[0]] + Decoded(s[1..])
  {
    if s != [] {
      DecodedFromSuffix(s, if s[0] == '%' && |s| >= 3 then 3 else 1);
    }
  }

  /** Without '%', decoding only turns '+' into spaces. */
  lemma {:induction false} DecodedPlain(s: seq<char>)
    requires '%' !in s
    ensures Decoded(s) == Spaced(s)
  {
    DecodedCons(s);
    if s != [] {
      DecodedPlain(s[1..]);
    }
  }

  /** The first escape with two characters after it is decoded in place. */
  lemma {:induction false} DecodedEscape(a: seq<char>, x: char, y: char, b: seq<char>)
    requires '%' !in a
    ensures Decoded(a + ['%', x, y] + b) == Spaced(a) + [HexPair(x, y), NUL, y] + Decoded(b)
  {
    var s := a + ['%', x, y] + b;
    DecodedCons(s);
    if a == [] {
      assert s[0] == '%' && s[1] == x && s[2] == y && s[3..] == b;
    } else {
      assert s[1..] == a[1..] + ['%', x, y] + b;
      DecodedEscape(a[1..], x, y, b);
    }
  }

  /** A '%' too close to the end is kept as it is. */
  lemma {:induction false} DecodedShortEscape(a: seq<char>, b: seq<char>)
    requires '%' !in a && |b| <= 1
    ensures Decoded(a + ['%'] + b) == Spaced(a) + ['%'] + Spaced(b)
  {
    var s := a + ['%'] + b;
    DecodedCons(s);
    if a == [] {
      assert s[1..] == b;
      DecodedCons(b);
      if b != [] {
        assert b[1..] == [];
        DecodedCons(b[1..]);
      }
    } else {
      assert s[1..] == a[1..] + ['%'] + b;
      DecodedShortEscape(a[1..], b);
    }
  }

  /** Read as a C string, a decoded value ends right after its first escape:
      whatever follows "%xy" is lost. */
  lemma EscapeEndsValue(a: seq<char>, x: char, y: char, b: seq<char>)
    requires '%' !in a && NUL !in a
    ensures CString(Decoded(a + ['%', x, y] + b)) == CString(Spaced(a) + [HexPair(x, y)])
  {
    DecodedEscape(a, x, y, b);
    var h := Spaced(a) + [HexPair(x, y)];
    assert Decoded(a + ['%', x, y] + b) == h + [NUL] + ([y] + Decoded(b));
    CStrCut(h, [y] + Decoded(b), 0);
  }

  /** "a%41b" reads back as "aA". */
  lemma EscapeExample()
    ensures CString(Decoded("a%41b")) == "aA"
  {
    assert "a%41b" == "a" + ['%', '4', '1'] + "b";
    EscapeEndsValue("a", '4', '1', "b");
    assert Spaced("a") == "a";
    assert HexPair('4', '1') == 'A';
    CStrWhole("aA");
  }

  /* ---------------- decode, in place ---------------- */

  /** One character or escape of decode at index i: the decoding from i
      is the m characters written there, then the decoding from i + m. */
  lemma DecodedFromStep(s: seq<char>, i: nat, m: nat)
    requires i < |s| && m == (if s[i] == '%' && i + 3 <= |s| then 3 else 1)
    ensures forall k :: m <= k < |s| - i ==> DecodedFrom(s, i)[k] == DecodedFrom(s, i + m)[k - m]
  {
  }

  /** decode: rewrites the C string that starts at index from. */
  method Decode(buf: array<char>, from: nat)
    requires from + |CStr(buf[..], from)| < buf.Length
    modifies buf
    ensures var s := old(CStr(buf[..], from));
      && (forall t :: 0 <= t < from ==> buf[t] == old(buf[t]))
      && buf[from..from + |s|] == Decoded(s)
      && (forall t :: from + |s| <= t < buf.Length ==> buf[t] == old(buf[t]))
  {
    CStrSpan(buf[..], from);
    CStrShape(buf[..], from);
    DecodeRun(buf, from, CStr(buf[..], from));
  }

  /** The loop of decode, over the characters s that lie at index from and
      end at a NUL. */
  method DecodeRun(buf: array<char>, from: nat, ghost s: seq<char>)
    requires from + |s| < buf.Length && NUL !in s
    requires buf[from..from + |s|] == s && buf[from + |s|] == NUL
    modifies buf
    ensures forall t :: 0 <= t < from ==> buf[t] == old(buf[t])
    ensures buf[from..from + |s|] == Decoded(s)
    ensures forall t :: from + |s| <= t < buf.Length ==> buf[t] == old(buf[t])
  {
    ghost var d := Decoded(s);
    ghost var z := from + |s|;
    assert forall t :: from <= t < z ==> buf[t] == s[t - from];
    var p := from;
    while buf[p] != NUL
      invariant from <= p <= z
      invariant forall t :: 0 <= t < from ==> buf[t] == old(buf[t])
      invariant forall t :: p <= t < buf.Length ==> buf[t] == old(buf[t])
      invariant forall t :: from <= t < p ==> buf[t] == d[t - from]
      invariant forall t :: p - from <= t < |s| ==> d[t] == DecodedFrom(s, p - from)[t - (p - from)]
      decreases z - p
    {
      p := DecodeStep(buf, from, p, s);
    }
    assert buf[from..z] == d;
  }

  /** One turn of the loop of decode, at index p inside s. */
  method DecodeStep(buf: array<char>, from: nat, p: nat, ghost s: seq<char>) returns (next: nat)
    requires from <= p < from + |s| < buf.Length && NUL !in s && buf[from + |s|] == NUL
    requires forall t :: p <= t < from + |s| ==> buf[t] == s[t - from]
    requires forall t :: p - from <= t < |s| ==> Decoded(s)[t] == DecodedFrom(s, p - from)[t - (p - from)]
    modifies buf
    ensures p < next <= from + |s|
    ensures forall t :: 0 <= t < buf.Length && (t < p || next <= t) ==> buf[t] == old(buf[t])
    ensures forall t :: p <= t < next ==> buf[t] == Decoded(s)[t - from]
    ensures forall t :: next - from <= t < |s| ==> Decoded(s)[t] == DecodedFrom(s, next - from)[t - (next - from)]
  {
    ghost var i := p - from;
    ghost var m := if s[i] == '%' && i + 3 <= |s| then 3 else 1;
    DecodedFromStep(s, i, m);
    if buf[p] == '+' {
      buf[p] := ' ';
      next := p + 1;
    } else if buf[p] == '%' && buf[p + 1] != NUL && buf[p + 2] != NUL {
      assert p + 2 < from + |s|;
      buf[p] := HexPair(buf[p + 1], buf[p + 2]);
      buf[p + 1] := NUL;
      next := p + 3;
    } else {
      assert p + 2 < from + |s| ==> buf[p + 1] != NUL && buf[p + 2] != NUL;
      next := p + 1;
    }
    assert next == p + m;
  }

  /** strchr(buf + from, c), as an index: the end of the C string when c is
      not in it. */
  method FindChar(buf: array<char>, from: nat, c: char) returns (k: nat)
    requires from + |CStr(buf[..], from)| < buf.Length
    ensures k == from + FirstIndex(CStr(buf[..], from), c)
  {
    ghost var s := CStr(buf[..], from);
    CStrSpan(buf[..], from);
    CStrShape(buf[..], from);
    assert forall t :: from <= t < from + |s| ==> buf[t] == s[t - from];
    k := from;
    while buf[k] != NUL && buf[k] != c
      invariant from <= k <= from + |s|
      invariant forall t :: 0 <= t < k - from ==> s[t] != c
      decreases from + |s| - k
    {
      k := k + 1;
    }
    FirstIndexAt(s, c, k - from);
  }

  /* ---------------- the query string ---------------- */

  /** The variables the query sets: chrom, chrom_start_str, chrom_end_str
      and format, None while still NULL. */
  datatype Query = Query(chrom: Option<seq<char>>, start: Option<seq<char>>, end: Option<seq<char>>, format: Option<seq<char>>)

  const NoQuery: Query := Query(None, None, None, None)

  /** Which variable a decoded key sets (src/faidxcgi.c:196-211); other keys
      are ignored. */
  function Assign(qr: Query, key: seq<char>, value: seq<char>): Query
  {
    if key == "tid" || key == "chrom" then qr.(chrom := Some(value))
    else if key == "start" then qr.(start := Some(value))
    else if key == "end" then qr.(end := Some(value))
    else if key == "fmt" || key == "format" then qr.(format := Some(value))
    else qr
  }

  /** One key=value segment: without '=', or with '=' first, it is skipped;
      otherwise key and value are decoded and read as C strings. */
  function Apply(qr: Query, seg: seq<char>): Query
  {
    var k := FirstIndex(seg, '=');
    if k == |seg| || k == 0 then qr
    else Assign(qr, CString(Decoded(seg[..k])), CString(Decoded(seg[k + 1..])))
  }

  /** The loop of src/faidxcgi.c:179-215 over the '&'-separated segments of
      q, from the variables qr. */
  function ParseFrom(q: seq<char>, qr: Query): Query
    decreases |q|
  {
    var a := FirstIndex(q, '&');
    var next := Apply(qr, q[..a]);
    if a == |q| then next else ParseFrom(q[a + 1..], next)
  }

  function ParseQuery(q: seq<char>): Query
  {
    ParseFrom(q, NoQuery)
  }

  /** The segments applied in order. */
  function ApplyAll(segs: seq<seq<char>>, qr: Query): Query
    decreases |segs|
  {
    if segs == [] then qr else ApplyAll(segs[1..], Apply(qr, segs[0]))
  }

  /** The query is read as its '&'-separated fields, each applied in turn. */
  lemma {:induction false} ParseSplit(q: seq<char>, qr: Query)
    ensures ParseFrom(q, qr) == ApplyAll(Split(q, '&'), qr)
    decreases |q|
  {
    var a := FirstIndex(q, '&');
    FirstIndexBefore(q, '&');
    if a == |q| {
      SplitNoDelim(q, '&');
      assert q[..a] == q;
    } else {
      assert q == q[..a] + ['&'] + q[a + 1..];
      SplitFirst(q[..a], q[a + 1..], '&');
      ParseSplit(q[a + 1..], Apply(qr, q[..a]));
      var segs := [q[..a]] + Split(q[a + 1..], '&');
      assert segs[1..] == Split(q[a + 1..], '&');
    }
  }

  /** A segment appended to the query is applied after all the others, so
      a key given twice takes its last value. */
  lemma {:induction false} ParseAppend(q: seq<char>, seg: seq<char>, qr: Query)
    requires '&' !in seg
    ensures ParseFrom(q + ['&'] + seg, qr) == Apply(ParseFrom(q, qr), seg)
    decreases |q|
  {
    var s := q + ['&'] + seg;
    var a := FirstIndex(q, '&');
    FirstIndexBefore(q, '&');
    FirstIndexAt(s, '&', a);
    assert s[..a] == q[..a];
    FirstIndexAt(seg, '&', |seg|);
    assert seg[..|seg|] == seg;
    if a < |q| {
      assert s[a + 1..] == q[a + 1..] + ['&'] + seg;
      ParseAppend(q[a + 1..], seg, Apply(qr, q[..a]));
    } else {
      assert s[a + 1..] == seg;
    }
  }

  /** Characters decode leaves alone and strtok-free parsing does not split on. */
  predicate Plain(s: seq<char>)
  {
    forall i :: 0 <= i < |s| ==> s[i] != '&' && s[i] != '%' && s[i] != '+' && s[i] != '=' && s[i] != NUL
  }

  lemma PlainDecoded(s: seq<char>)
    requires Plain(s)
    ensures CString(Decoded(s)) == s
  {
    DecodedPlain(s);
    assert Spaced(s) == s;
    CStrWhole(s);
  }

  /** A segment key=value with a plain key and value sets that key. */
  lemma ApplyPlain(qr: Query, key: seq<char>, value: seq<char>)
    requires Plain(key) && Plain(value) && key != []
    ensures '&' !in key + "=" + value
    ensures Apply(qr, key + "=" + value) == Assign(qr, key, value)
  {
    var seg := key + "=" + value;
    assert forall i :: 0 <= i < |seg| ==> seg[i] != '&' by {
      forall i | 0 <= i < |seg| ensures seg[i] != '&' {
        if i < |key| { assert seg[i] == key[i]; }
        else if i > |key| { assert seg[i] == value[i - |key| - 1]; }
      }
    }
    FirstIndexAt(seg, '=', |key|);
    assert seg[..|key|] == key && seg[|key| + 1..] == value;
    PlainDecoded(key);
    PlainDecoded(value);
  }

  /** One turn of the loop: the first segment is applied, then the rest. */
  lemma ParseStep(q: seq<char>, qr: Query)
    ensures var a := FirstIndex(q, '&');
      ParseFrom(q, qr) == if a == |q| then Apply(qr, q[..a]) else ParseFrom(q[a + 1..], Apply(qr, q[..a]))
  {
  }

  /** A query of one segment. */
  lemma ParseSingle(seg: seq<char>, qr: Query)
    requires '&' !in seg
    ensures ParseFrom(seg, qr) == Apply(qr, seg)
  {
    FirstIndexAt(seg, '&', |seg|);
    assert seg[..|seg|] == seg;
  }

  /** Three segments, applied in order. */
  lemma ParseThree(p1: seq<char>, p2: seq<char>, p3: seq<char>, qr: Query)
    requires '&' !in p1 && '&' !in p2 && '&' !in p3
    ensures ParseFrom(p1 + ['&'] + p2 + ['&'] + p3, qr) == Apply(Apply(Apply(qr, p1), p2), p3)
  {
    ParseSingle(p1, qr);
    ParseAppend(p1, p2, qr);
    ParseAppend(p1 + ['&'] + p2, p3, qr);
  }

  lemma FormQuery(chrom: seq<char>, start: seq<char>, end: seq<char>)
    ensures "chrom=" + chrom + "&start=" + start + "&end=" + end
         == ("chrom" + "=" + chrom) + ['&'] + ("start" + "=" + start) + ['&'] + ("end" + "=" + end)
  {
    assert "chrom=" == "chrom" + "=";
    assert "&start=" == ['&'] + ("start" + "=");
    assert "&end=" == ['&'] + ("end" + "=");
  }

  /** The query a form sends: chrom, start and end, in that order. */
  lemma PlainQuery(chrom: seq<char>, start: seq<char>, end: seq<char>)
    requires Plain(chrom) && Plain(start) && Plain(end)
    ensures ParseQuery("chrom=" + chrom + "&start=" + start + "&end=" + end) == Query(Some(chrom), Some(start), Some(end), None)
  {
    assert Plain("chrom") && Plain("start") && Plain("end");
    ApplyPlain(NoQuery, "chrom", chrom);
    ApplyPlain(Query(Some(chrom), None, None, None), "start", start);
    ApplyPlain(Query(Some(chrom), Some(start), None, None), "end", end);
    ParseThree("chrom" + "=" + chrom, "start" + "=" + start, "end" + "=" + end, NoQuery);
    FormQuery(chrom, start, end);
  }

  /** The first character of the query buffer once a segment is processed:
      a NUL there makes the program answer "chrom missing". */
  function PairFirst(seg: seq<char>): char
    requires seg != []
  {
    var k := FirstIndex(seg, '=');
    if k == |seg| || k == 0 then seg[0] else Decoded(seg[..k])[0]
  }

  /** After the loop, query_string[0] == 0: the query starts with '&', or
      its first key starts with an escape "%xy" that decodes to NUL. */
  predicate FirstCleared(q: seq<char>)
  {
    q != [] &&
    (q[0] == '&' ||
     (q[0] == '%' && 3 <= FirstIndex(q, '=') < FirstIndex(q, '&') && HexPair(q[1], q[2]) == NUL))
  }

  /** What the first character left by the first segment says. */
  lemma FirstClearedBy(q: seq<char>, a: nat, c: char)
    requires q != [] && NUL !in q && a == FirstIndex(q, '&')
    requires a == 0 ==> c == NUL
    requires a > 0 ==> c == PairFirst(q[..a])
    ensures c == NUL <==> FirstCleared(q)
  {
    if a > 0 {
      var seg := q[..a];
      var k := FirstIndex(seg, '=');
      FirstIndexBefore(q, '&');
      FirstIndexBefore(seg, '=');
      FirstIndexBefore(q, '=');
      var kq := FirstIndex(q, '=');
      if k < |seg| {
        FirstIndexAt(q, '=', k);
      } else {
        assert forall t :: 0 <= t < a ==> q[t] == seg[t] != '=';
        assert kq >= a;
      }
      if k != |seg| && k != 0 {
        var x := seg[..k];
        assert x[0] == q[0];
        if x[0] == '%' && |x| >= 3 {
          assert x[1] == q[1] && x[2] == q[2];
        }
      }
    }
  }

  /** A query that starts with '&' is refused, whatever follows. */
  lemma LeadingAmpersand(rest: seq<char>)
    ensures FirstCleared(['&'] + rest)
  {
    FirstIndexAt(['&'] + rest, '&', 0);
  }

  /* ---------------- the query string, in place ---------------- */

  /** The body of the loop for one segment [prev, amp), already cut by a NUL
      at amp: split at '=', decode key and value in place, set the variable. */
  method ReadPair(buf: array<char>, prev: nat, amp: nat, qr: Query, ghost seg: seq<char>) returns (next: Query)
    requires prev <= amp < buf.Length && buf[amp] == NUL && buf[prev..amp] == seg && NUL !in seg
    modifies buf
    ensures next == Apply(qr, seg)
    ensures forall t :: 0 <= t < buf.Length && (t < prev || amp <= t) ==> buf[t] == old(buf[t])
    ensures seg != [] ==> buf[prev] == PairFirst(seg)
  {
    CStrWithin(buf[..], prev, amp);
    CStrWhole(seg);
    var eq := FindChar(buf, prev, '=');
    next := qr;
    if eq != amp && eq != prev {
      ghost var k := eq - prev;
      assert buf[prev..eq] == seg[..k] && buf[eq + 1..amp] == seg[k + 1..];
      buf[eq] := NUL;
      var key, value := DecodeKeyValue(buf, prev, eq, amp);
      next := Assign(qr, key, value);
    }
  }

  /** key = decode(key); value = decode(value): the two C strings on either
      side of the NUL that replaced '=' are decoded in place and read. */
  method DecodeKeyValue(buf: array<char>, prev: nat, eq: nat, amp: nat) returns (key: seq<char>, value: seq<char>)
    requires prev < eq < amp < buf.Length && buf[eq] == NUL && buf[amp] == NUL
    requires NUL !in buf[prev..eq] && NUL !in buf[eq + 1..amp]
    modifies buf
    ensures key == CString(Decoded(old(buf[prev..eq])))
    ensures value == CString(Decoded(old(buf[eq + 1..amp])))
    ensures forall t :: 0 <= t < buf.Length && (t < prev || amp <= t) ==> buf[t] == old(buf[t])
    ensures buf[prev] == Decoded(old(buf[prev..eq]))[0]
  {
    ghost var ks := buf[prev..eq];
    ghost var vs := buf[eq + 1..amp];
    CStrWithin(buf[..], prev, eq);
    CStrWhole(ks);
    Decode(buf, prev);
    assert buf[eq + 1..amp] == vs && buf[eq] == NUL && buf[amp] == NUL;
    ghost var mid := buf[..];
    CStrWithin(mid, eq + 1, amp);
    CStrWhole(vs);
    Decode(buf, eq + 1);
    assert buf[prev..eq] == mid[prev..eq] == Decoded(ks);
    key := CStr(buf[..], prev);
    value := CStr(buf[..], eq + 1);
    CStrWithin(buf[..], prev, eq);
    CStrWithin(buf[..], eq + 1, amp);
  }

  /** The loop of src/faidxcgi.c:179-215 on the query buffer: each segment
      is cut at its '&', decoded in place and applied. */
  method ReadQuery(buf: array<char>) returns (qr: Query)
    requires |CStr(buf[..], 0)| < buf.Length
    modifies buf
    ensures qr == ParseQuery(old(CString(buf[..])))
    ensures old(CString(buf[..])) != [] ==> (buf[0] == NUL <==> FirstCleared(old(CString(buf[..]))))
  {
    CStrSpan(buf[..], 0);
    CStrShape(buf[..], 0);
    var end := FindChar(buf, 0, NUL);
    qr := ReadSegments(buf, end, CStr(buf[..], 0));
  }

  /** The loop itself, over the query q that ends at the NUL at index end. */
  method ReadSegments(buf: array<char>, end: nat, ghost q: seq<char>) returns (qr: Query)
    requires end == |q| < buf.Length && buf[..end] == q && buf[end] == NUL && NUL !in q
    modifies buf
    ensures qr == ParseQuery(q)
    ensures q != [] ==> (buf[0] == NUL <==> FirstCleared(q))
  {
    assert q[0..] == q;
    assert forall t :: 0 <= t < end ==> buf[t] == q[t];
    var prev := 0;
    qr := NoQuery;
    ghost var started := false;
    while prev != end
      invariant prev <= end && buf[end] == NUL
      invariant forall t :: prev <= t < end ==> buf[t] == q[t]
      invariant ParseFrom(q[prev..], qr) == ParseQuery(q)
      invariant prev > 0 ==> started
      invariant started ==> (buf[0] == NUL <==> FirstCleared(q))
      decreases end - prev
    {
      var amp;
      amp, qr := ReadSegment(buf, prev, end, q, qr);
      started := true;
      if amp == end {
        break;
      }
      prev := amp + 1;
    }
  }

  /** One turn of the loop, on the segment of the query q that starts at
      index prev. */
  method ReadSegment(buf: array<char>, prev: nat, end: nat, ghost q: seq<char>, qr: Query) returns (amp: nat, next: Query)
    requires prev < end == |q| < buf.Length && buf[end] == NUL
    requires (forall t :: prev <= t < end ==> buf[t] == q[t]) && NUL !in q
    modifies buf
    ensures prev <= amp <= end && buf[end] == NUL
    ensures amp == end ==> next == ParseFrom(q[prev..], qr)
    ensures amp < end ==> ParseFrom(q[amp + 1..], next) == ParseFrom(q[prev..], qr)
    ensures forall t :: amp < t < end ==> buf[t] == q[t]
    ensures prev > 0 ==> buf[0] == old(buf[0])
    ensures prev == 0 ==> (buf[0] == NUL <==> FirstCleared(q))
  {
    ghost var r := q[prev..];
    assert buf[prev..end] == r;
    assert NUL !in r;
    amp := CutSegment(buf, prev, end, r);
    assert r[..amp - prev] == q[prev..amp];
    next := ReadPair(buf, prev, amp, qr, q[prev..amp]);
    SegmentStep(q, prev, amp, qr, next);
    if prev == 0 {
      assert r == q;
      FirstClearedBy(q, amp, buf[0]);
    }
  }

  /** The first segment of q[prev..] applied to qr, and the rest of the
      query after it. */
  lemma SegmentStep(q: seq<char>, prev: nat, amp: nat, qr: Query, next: Query)
    requires prev <= |q| && amp == prev + FirstIndex(q[prev..], '&') && next == Apply(qr, q[prev..amp])
    ensures amp == |q| ==> next == ParseFrom(q[prev..], qr)
    ensures amp < |q| ==> ParseFrom(q[amp + 1..], next) == ParseFrom(q[prev..], qr)
  {
    var r := q[prev..];
    ParseStep(r, qr);
    assert r[..amp - prev] == q[prev..amp];
    if amp < |q| {
      assert r[amp - prev + 1..] == q[amp + 1..];
    }
  }

  /** amp = strchr(prev, '&'), or the end; *amp = 0. */
  method CutSegment(buf: array<char>, prev: nat, end: nat, ghost r: seq<char>) returns (amp: nat)
    requires prev <= end < buf.Length && buf[end] == NUL
    requires buf[prev..end] == r && NUL !in r
    modifies buf
    ensures amp == prev + FirstIndex(r, '&')
    ensures buf[amp] == NUL && buf[prev..amp] == r[..amp - prev]
    ensures forall t :: 0 <= t < buf.Length && t != amp ==> buf[t] == old(buf[t])
  {
    CStrWithin(buf[..], prev, end);
    CStrWhole(r);
    amp := FindChar(buf, prev, '&');
    assert buf[prev..amp] == r[..amp - prev];
    buf[amp] := NUL;
  }
}
