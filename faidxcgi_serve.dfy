/** The whole run of faidx.cgi (src/faidxcgi.c:146-325): the checks of the
    request in their order, the lookup in the .fai index, and the reply in
    the format asked for, as the text written to standard output. */
module FaidxcgiServe {
  import opened Wrappers
  import opened Text
  import opened Faidxcgi
  import opened FaidxcgiMain
  import opened FaidxcgiEcho

  /** The two compile-time settings of the program: BUILD and GENOME_PATH. */
  datatype Site = Site(build: seq<char>, genomePath: seq<char>)

  /** How the run ends: return 0, die(...), echo looping forever on a file
      shorter than its index says, or an index entry the model does not
      cover (division by zero or a seek before the file). */
  datatype Ending = Done | Died | Hangs | Unmodelled

  /** Everything written to standard output, and how the run ends. */
  datatype Response = Response(out: seq<char>, ending: Ending)

  /* ---------------- die ---------------- */

  /** What die(message, status) writes (src/faidxcgi.c:87-94). */
  function DieText(err: HttpError): seq<char>
  {
    "Status: " + DecimalText(err.status) + "\n" + "Content-Type:text/plain;charset=UTF-8\n\n" + err.message + ".\n"
  }

  function Die(err: HttpError): Response
  {
    Response(DieText(err), Died)
  }

  /* ---------------- the output format ---------------- */

  datatype Format = Json | Xml | PlainText | Fasta

  /** strcasecmp(a, b) == 0 */
  predicate SameIgnoringCase(a: seq<char>, b: seq<char>)
  {
    |a| == |b| && forall i :: 0 <= i < |a| ==> ToLower(a[i]) == ToLower(b[i])
  }

  /** The format parameter is compared with "json", "xml" and "text" in
      that order, ignoring case; anything else, or none, is FASTA. */
  function FormatOf(format: Option<seq<char>>): Format
  {
    if format.Some? && SameIgnoringCase(format.value, "json") then Json
    else if format.Some? && SameIgnoringCase(format.value, "xml") then Xml
    else if format.Some? && SameIgnoringCase(format.value, "text") then PlainText
    else Fasta
  }

  /** The format does not depend on the case of the parameter. */
  lemma FormatIgnoresCase(a: seq<char>, b: seq<char>)
    requires SameIgnoringCase(a, b)
    ensures FormatOf(Some(a)) == FormatOf(Some(b))
  {
    forall n: seq<char> | |n| == |a|
      ensures SameIgnoringCase(a, n) <==> SameIgnoringCase(b, n)
    {
      if SameIgnoringCase(a, n) {
        assert forall i :: 0 <= i < |b| ==> ToLower(b[i]) == ToLower(a[i]) == ToLower(n[i]);
      }
      if SameIgnoringCase(b, n) {
        assert forall i :: 0 <= i < |a| ==> ToLower(a[i]) == ToLower(b[i]) == ToLower(n[i]);
      }
    }
  }

  /** "JSON", "Xml" or "TEXT" choose their format too; an unknown name
      gives FASTA. */
  lemma FormatExamples()
    ensures FormatOf(Some("JSON")) == Json
    ensures FormatOf(Some("Xml")) == Xml
    ensures FormatOf(Some("TEXT")) == PlainText
    ensures FormatOf(Some("fasta")) == Fasta && FormatOf(None) == Fasta
  {
    assert SameIgnoringCase("JSON", "json");
    assert !SameIgnoringCase("Xml", "json");
    assert SameIgnoringCase("Xml", "xml");
    assert ToLower("TEXT"[0]) == 't';
    assert !SameIgnoringCase("TEXT", "json") && !SameIgnoringCase("TEXT", "xml");
    assert SameIgnoringCase("TEXT", "text");
    assert ToLower('f') != ToLower('j');
    assert ToLower('f') != ToLower('x') && ToLower('f') != ToLower('t');
  }

  /** The line width handed to echo: 50 for FASTA, none otherwise. */
  function Every(f: Format): (every: int)
    ensures Width(every)
    ensures every > 0 <==> f == Fasta
  {
    if f == Fasta then 50 else -1
  }

  function Mime(f: Format): seq<char>
  {
    match f
    case Json => "application/json"
    case Xml => "text/xml"
    case PlainText => "text/plain"
    case Fasta => "text/plain"
  }

  function Extension(f: Format): seq<char>
  {
    match f
    case Json => "json"
    case Xml => "xml"
    case PlainText => "txt"
    case Fasta => "fa"
  }

  /** HEADER(mime, ext): the Content-Disposition and Content-Type lines,
      then the empty line that ends the header. */
  function Header(site: Site, req: Request, f: Format): seq<char>
  {
    "Content-Disposition: inline; filename=" + site.build + "_" + req.chrom + "_"
      + DecimalText(req.start) + "_" + DecimalText(req.end) + "." + Extension(f) + ";\n"
      + "Content-Type:" + Mime(f) + ";charset=UTF-8\n\n"
  }

  /** What is written before the sequence. */
  function Opening(site: Site, req: Request, f: Format): seq<char>
  {
    match f
    case Json =>
      "{\"build\":\"" + site.build + "\",\"chrom\":\"" + req.chrom + "\","
        + "\"start\":" + DecimalText(req.start) + ","
        + "\"end\":" + DecimalText(req.end) + ","
        + "\"sequence\":\""
    case Xml =>
      "<?xml version=\"1.0\" encoding=\"UTF-8\" standalone=\"yes\"?>\n<sequence"
        + " build=\"" + site.build + "\""
        + " chrom=\"" + req.chrom + "\""
        + " start=\"" + DecimalText(req.start) + "\""
        + " end=\"" + DecimalText(req.end) + "\">"
    case PlainText => []
    case Fasta => FastaTitle(site.build, req.chrom, req.start, req.end)
  }

  /** The FASTA title line, without its line end: echo starts the sequence
      with one. */
  function FastaTitle(build: seq<char>, chrom: seq<char>, start: int, end: int): seq<char>
  {
    ">" + build + "|" + chrom + ":" + DecimalText(start) + "-" + DecimalText(end)
  }

  /** What is written after the sequence. */
  function Closing(f: Format): seq<char>
  {
    match f
    case Json => "\"}\n"
    case Xml => "</sequence>\n"
    case PlainText => []
    case Fasta => "\n"
  }

  /* ---------------- the run ---------------- */

  /** echo goes past its two early returns and opens the FASTA file. */
  predicate Seeks(e: FaiEntry, start: int, end: int)
  {
    start < e.len && start < (if e.len < end then e.len else end)
  }

  /** The reply once the entry is found (src/faidxcgi.c:288-325). */
  function Answer(site: Site, req: Request, e: FaiEntry, genome: Option<seq<char>>): Response
    requires 0 <= req.start <= req.end
  {
    var f := FormatOf(req.format);
    var head := Header(site, req, f) + Opening(site, req, f);
    if !Seeks(e, req.start, req.end) then Response(head + Closing(f), Done)
    else if genome.None? then Response(head + DieText(HttpError(500, "Cannot open " + site.genomePath)), Died)
    else if !Sane(e) then Response(head, Unmodelled)
    else
      var r := Region(genome.value, e, req.start, req.end, Every(f));
      if r.1 then Response(head + r.0 + Closing(f), Done) else Response(head + r.0, Hangs)
  }

  /** The run of main for REQUEST_METHOD, QUERY_STRING (None when not
      set), the contents of the .fai file and of the FASTA file (None when
      they cannot be opened). */
  function Respond(site: Site, requestMethod: Option<seq<char>>, queryString: Option<seq<char>>,
                   fai: Option<seq<char>>, genome: Option<seq<char>>): Response
  {
    if requestMethod.None? || CString(requestMethod.value) != "GET" then Die(HttpError(406, "GET method expected"))
    else if queryString.None? || CString(queryString.value) == [] then Die(HttpError(406, "QUERY_STRING missing"))
    else
      var q := CString(queryString.value);
      if FirstCleared(q) then Die(HttpError(400, "chrom missing"))
      else
        match Validate(ParseQuery(q))
        case Failure(err) => Die(err)
        case Success(req) =>
          if fai.None? then Die(HttpError(500, "cannot load index " + site.genomePath + ".fai."))
          else
            match FaiLookup(fai.value, req.chrom)
            case Unreadable => Die(HttpError(500, "Cannot read index"))
            case Missing => Die(HttpError(404, "Unknown chromosome"))
            case Found(e) =>
              if e.len < 1 then Die(HttpError(404, "Unknown chromosome"))
              else Answer(site, req, e, genome)
  }

  /** main itself: the query string is copied into a buffer and cut up in
      place, the index is read line by line and echo reads the FASTA file
      in blocks. */
  method Serve(site: Site, requestMethod: Option<seq<char>>, queryString: Option<seq<char>>,
               fai: Option<seq<char>>, genome: Option<seq<char>>) returns (r: Response)
    ensures r == Respond(site, requestMethod, queryString, fai, genome)
  {
    if requestMethod.None? || CString(requestMethod.value) != "GET" {
      return Die(HttpError(406, "GET method expected"));
    }
    if queryString.None? || CString(queryString.value) == [] {
      return Die(HttpError(406, "QUERY_STRING missing"));
    }
    var q := CString(queryString.value);
    CStrShape(queryString.value, 0);
    var buf := QueryBuffer(q);
    var qr := ReadQuery(buf);
    if buf[0] == NUL {
      return Die(HttpError(400, "chrom missing"));
    }
    var v := Validate(qr);
    if v.Failure? {
      return Die(v.error);
    }
    var req := v.value;
    if fai.None? {
      return Die(HttpError(500, "cannot load index " + site.genomePath + ".fai."));
    }
    var look := FindEntry(fai.value, req.chrom);
    if look.Unreadable? {
      return Die(HttpError(500, "Cannot read index"));
    }
    if look.Missing? || look.entry.len < 1 {
      return Die(HttpError(404, "Unknown chromosome"));
    }
    var e := look.entry;
    var f := FormatOf(req.format);
    var out := Header(site, req, f) + Opening(site, req, f);
    if !Seeks(e, req.start, req.end) {
      return Response(out + Closing(f), Done);
    }
    if genome.None? {
      return Response(out + DieText(HttpError(500, "Cannot open " + site.genomePath)), Died);
    }
    if !Sane(e) {
      return Response(out, Unmodelled);
    }
    var text, complete := EchoRegion(genome.value, e, req.start, req.end, Every(f));
    if complete {
      r := Response(out + text + Closing(f), Done);
    } else {
      r := Response(out + text, Hangs);
    }
  }

  /** A fresh buffer holding the C string q and its terminating NUL. */
  method QueryBuffer(q: seq<char>) returns (buf: array<char>)
    requires NUL !in q
    ensures fresh(buf) && buf[..] == q + [NUL]
    ensures |CStr(buf[..], 0)| < buf.Length && CString(buf[..]) == q
  {
    buf := new char[|q| + 1](i => if 0 <= i < |q| then q[i] else NUL);
    assert buf[..] == q + [NUL];
    CStrNoNul(q, [NUL], 0);
    assert q[0..] == q;
  }

  /* ---------------- what the run promises ---------------- */

  /** Only GET requests are served. */
  lemma RespondNeedsGet(site: Site, m: seq<char>, qs: Option<seq<char>>, fai: Option<seq<char>>, genome: Option<seq<char>>)
    requires CString(m) != "GET"
    ensures Respond(site, Some(m), qs, fai, genome).ending == Died
    ensures Respond(site, Some(m), qs, fai, genome).out[..11] == "Status: 406"
  {
    assert DecimalText(406) == "406" by {
      assert DecimalString(40) == "40";
    }
  }

  /** A query that starts with '&' has no chromosome, whatever follows. */
  lemma RespondLeadingAmpersand(site: Site, rest: seq<char>, fai: Option<seq<char>>, genome: Option<seq<char>>)
    requires NUL !in rest
    ensures Respond(site, Some("GET"), Some(['&'] + rest), fai, genome) == Die(HttpError(400, "chrom missing"))
  {
    CStrWhole("GET");
    CStrWhole(['&'] + rest);
    LeadingAmpersand(rest);
  }

  /** The query string chrom=C&start=S&end=E with C free of the special
      characters of a query. */
  function PlainRequest(chrom: seq<char>, start: nat, end: nat): seq<char>
  {
    "chrom=" + chrom + "&start=" + DecimalString(start) + "&end=" + DecimalString(end)
  }

  lemma DigitsPlain(s: seq<char>)
    requires AllDigits(s)
    ensures Plain(s)
  {
  }

  /** Such a query is read as the request it spells out. */
  lemma PlainRequestReads(chrom: seq<char>, start: nat, end: nat)
    requires chrom != [] && Plain(chrom) && start <= end <= LONG_MAX
    ensures CString(PlainRequest(chrom, start, end)) == PlainRequest(chrom, start, end) != []
    ensures !FirstCleared(PlainRequest(chrom, start, end))
    ensures Validate(ParseQuery(PlainRequest(chrom, start, end))) == Success(Request(chrom, start, end, None))
  {
    var q := PlainRequest(chrom, start, end);
    DigitsPlain(DecimalString(start));
    DigitsPlain(DecimalString(end));
    assert q[0] == 'c';
    assert NUL !in q by {
      assert q == "chrom=" + chrom + "&start=" + DecimalString(start) + "&end=" + DecimalString(end);
      assert forall i :: 0 <= i < |chrom| ==> chrom[i] != NUL;
      assert forall i :: 0 <= i < |DecimalString(start)| ==> DecimalString(start)[i] != NUL;
      assert forall i :: 0 <= i < |DecimalString(end)| ==> DecimalString(end)[i] != NUL;
    }
    CStrWhole(q);
    PlainQuery(chrom, DecimalString(start), DecimalString(end));
    ValidateAccepts(chrom, start, end, None);
  }

  /** A well-formed request for a chromosome the index does not name is
      answered 404. */
  lemma RespondUnknownChromosome(site: Site, chrom: seq<char>, start: nat, end: nat, fai: seq<char>, genome: Option<seq<char>>)
    requires chrom != [] && Plain(chrom) && start <= end <= LONG_MAX
    requires MatchingLine(fai, chrom) == None
    ensures Respond(site, Some("GET"), Some(PlainRequest(chrom, start, end)), Some(fai), genome)
      == Die(HttpError(404, "Unknown chromosome"))
  {
    CStrWhole("GET");
    PlainRequestReads(chrom, start, end);
  }

  /** A request that passes every check and names a sequence of the index
      is answered by echo. */
  lemma RespondFound(site: Site, q: seq<char>, fai: seq<char>, genome: Option<seq<char>>, req: Request, e: FaiEntry)
    requires CString(q) == q != [] && !FirstCleared(q) && Validate(ParseQuery(q)) == Success(req)
    requires FaiLookup(fai, req.chrom) == Found(e) && 1 <= e.len
    ensures 0 <= req.start <= req.end
    ensures Respond(site, Some("GET"), Some(q), Some(fai), genome) == Answer(site, req, e, genome)
  {
    CStrWhole("GET");
  }

  /** On a FASTA file that agrees with its index entry, the reply is the
      header, the opening of the format, the bases from start up to end (or
      the end of the sequence), wrapped at 50 for FASTA, and the closing. */
  lemma AnswerServes(site: Site, req: Request, e: FaiEntry, genome: seq<char>, g: seq<char>, eol: seq<char>)
    requires 0 <= req.start <= req.end && Sane(e) && Indexed(genome, e, g, eol)
    ensures var f := FormatOf(req.format);
      var stop := if req.end < e.len then req.end else e.len;
      var bases := if req.start < e.len then g[req.start..stop] else [];
      Answer(site, req, e, Some(genome))
        == Response(Header(site, req, f) + Opening(site, req, f) + Wrapped(bases, Every(f)) + Closing(f), Done)
  {
    var f := FormatOf(req.format);
    var head := Header(site, req, f) + Opening(site, req, f);
    var stop := if req.end < e.len then req.end else e.len;
    EchoFaithful(genome, e, g, eol, req.start, req.end, Every(f));
    if !Seeks(e, req.start, req.end) {
      if req.start < e.len {
        assert g[req.start..stop] == [];
      }
      assert Wrapped([], Every(f)) == [];
      assert head + [] + Closing(f) == head + Closing(f);
    }
  }

  /** End to end for any format: the request, the index and the FASTA file
      agree, and the reply carries the bases asked for. */
  lemma RespondServes(site: Site, q: seq<char>, fai: seq<char>, genome: seq<char>,
                      req: Request, e: FaiEntry, g: seq<char>, eol: seq<char>)
    requires CString(q) == q != [] && !FirstCleared(q) && Validate(ParseQuery(q)) == Success(req)
    requires FaiLookup(fai, req.chrom) == Found(e) && 1 <= e.len && Sane(e) && Indexed(genome, e, g, eol)
    ensures var f := FormatOf(req.format);
      var stop := if req.end < e.len then req.end else e.len;
      var bases := if req.start < e.len then g[req.start..stop] else [];
      Respond(site, Some("GET"), Some(q), Some(fai), Some(genome))
        == Response(Header(site, req, f) + Opening(site, req, f) + Wrapped(bases, Every(f)) + Closing(f), Done)
  {
    RespondFound(site, q, fai, Some(genome), req, e);
    AnswerServes(site, req, e, genome, g, eol);
  }

  /** End to end: a plain FASTA request, an index whose first line is the
      one faidx writes for the chromosome, a FASTA file laid out as that
      line says. */
  lemma RespondFasta(site: Site, chrom: seq<char>, start: nat, end: nat, rest: seq<char>,
                     genome: seq<char>, e: FaiEntry, g: seq<char>, eol: seq<char>)
    requires chrom != [] && Plain(chrom) && '\n' !in chrom && start <= end <= LONG_MAX
    requires 1 <= e.len <= LONG_MAX && Sane(e) && e.offset <= LONG_MAX && e.lineLen <= LONG_MAX
    requires Indexed(genome, e, g, eol) && start < e.len
    ensures var fai := chrom + ['\t'] + FaiFields(e) + ['\n'] + rest;
      var req := Request(chrom, start, end, None);
      var stop := if end < e.len then end else e.len;
      Respond(site, Some("GET"), Some(PlainRequest(chrom, start, end)), Some(fai), Some(genome))
        == Response(Header(site, req, Fasta) + FastaTitle(site.build, chrom, start, end) + Wrapped(g[start..stop], 50) + "\n", Done)
  {
    var fai := chrom + ['\t'] + FaiFields(e) + ['\n'] + rest;
    var req := Request(chrom, start, end, None);
    var q := PlainRequest(chrom, start, end);
    PlainRequestReads(chrom, start, end);
    LookupIndexLine(chrom, e, rest);
    RespondServes(site, q, fai, genome, req, e, g, eol);
    assert FormatOf(req.format) == Fasta && Every(Fasta) == 50;
  }

  /** A range that begins past the end of the sequence is answered with an
      empty sequence, without opening the FASTA file. */
  lemma RespondPastEnd(site: Site, q: seq<char>, fai: seq<char>, genome: Option<seq<char>>, req: Request, e: FaiEntry)
    requires CString(q) == q != [] && !FirstCleared(q) && Validate(ParseQuery(q)) == Success(req)
    requires FaiLookup(fai, req.chrom) == Found(e) && 1 <= e.len <= req.start
    ensures var f := FormatOf(req.format);
      Respond(site, Some("GET"), Some(q), Some(fai), genome)
        == Response(Header(site, req, f) + Opening(site, req, f) + Closing(f), Done)
  {
    CStrWhole("GET");
  }
}
