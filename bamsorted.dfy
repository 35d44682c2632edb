/** bamsorted (src/bamsorted.c): tells whether each BAM file is sorted by
    coordinate. The records of a file are read in order; only their
    reference index and position matter here. */
module BamSorted {
  import opened Wrappers

  const EXIT_SUCCESS: int := 0
  const EXIT_FAILURE: int := 1

  /** prev_reference before the first record */
  const NO_REFERENCE: int := -99999

  /** tid == -1 marks an unmapped record. */
  datatype Record = Record(tid: int, pos: int)

  /** What a BAM file can hold: a reference index or -1, and a mapped
      record has a position. */
  predicate WellFormed(records: seq<Record>)
  {
    forall i :: 0 <= i < |records| ==> records[i].tid >= -1 && (records[i].tid != -1 ==> records[i].pos >= 0)
  }

  /* ---------------- the order test_sort accepts ---------------- */

  /** Sorted by coordinate: unmapped records come last, and each mapped
      record is on a later reference than the mapped record before it, or
      on the same one at the same or a later position. */
  predicate Sorted(records: seq<Record>)
  {
    && (forall i, j :: 0 <= i < j < |records| && records[i].tid == -1 ==> records[j].tid == -1)
    && (forall i :: 0 <= i < |records| - 1 && records[i].tid != -1 && records[i + 1].tid != -1 ==>
          records[i].tid < records[i + 1].tid
          || (records[i].tid == records[i + 1].tid && records[i].pos <= records[i + 1].pos))
  }

  /* ---------------- the state machine ---------------- */

  datatype SortState = SortState(prevPos: int, prevReference: int, unmapped: bool)

  const Start: SortState := SortState(-1, NO_REFERENCE, false)

  /** One iteration of the record loop (src/bamsorted.c:53-106); None is the
      `status = EXIT_FAILURE; break` of the three failure branches. */
  function Step(st: SortState, r: Record): Option<SortState>
  {
    if r.tid != st.prevReference && st.prevReference != NO_REFERENCE && r.tid != -1 && st.unmapped then None
    else if r.tid != st.prevReference && st.prevReference != NO_REFERENCE && r.tid != -1 && r.tid < st.prevReference then None
    else
      var unmapped := st.unmapped || r.tid == -1;
      var prevPos := if r.tid != st.prevReference then -1 else st.prevPos;
      if r.tid != -1 && r.pos < prevPos then None
      else Some(SortState(r.pos, r.tid, unmapped))
  }

  /** The state after the records, or None once a record failed. */
  function Run(records: seq<Record>): Option<SortState>
  {
    if records == [] then Some(Start)
    else
      match Run(records[..|records| - 1])
      case None => None
      case Some(st) => Step(st, records[|records| - 1])
  }

  /** test_sort: EXIT_SUCCESS unless a record breaks the order. The file
      that cannot be opened is the None case. */
  method TestSort(file: Option<seq<Record>>) returns (status: int)
    ensures file.None? ==> status == EXIT_FAILURE
    ensures file.Some? ==> (status == EXIT_SUCCESS <==> Run(file.value).Some?)
    ensures file.Some? && WellFormed(file.value) ==> (status == EXIT_SUCCESS <==> Sorted(file.value))
    ensures status == EXIT_SUCCESS || status == EXIT_FAILURE
  {
    if file.None? {
      return EXIT_FAILURE;
    }
    var records := file.value;
    status := EXIT_SUCCESS;
    var prevPos := -1;
    var prevReference := NO_REFERENCE;
    var unmapped := false;
    var i := 0;
    while i < |records|
      invariant 0 <= i <= |records|
      invariant status == EXIT_SUCCESS
      invariant Run(records[..i]) == Some(SortState(prevPos, prevReference, unmapped))
    {
      assert records[..i + 1][..i] == records[..i];
      var b := records[i];
      if b.tid != prevReference {
        if prevReference != NO_REFERENCE {
          if b.tid != -1 && unmapped {
            status := EXIT_FAILURE;
            StopsAtFailure(records, i + 1);
            break;
          } else if b.tid == -1 {
            unmapped := true;
          } else if b.tid < prevReference {
            status := EXIT_FAILURE;
            StopsAtFailure(records, i + 1);
            break;
          }
        }
        prevReference := b.tid;
        prevPos := -1;
      }
      if b.tid == -1 {
        unmapped := true;
      } else if b.pos < prevPos {
        status := EXIT_FAILURE;
        StopsAtFailure(records, i + 1);
        break;
      }
      prevPos := b.pos;
      i := i + 1;
    }
    if status == EXIT_SUCCESS {
      assert records[..i] == records;
    }
    if WellFormed(records) {
      RunDecidesSorted(records);
    }
  }

  /** Once a record fails, the records after it do not matter. */
  lemma {:induction false} StopsAtFailure(records: seq<Record>, k: nat)
    requires k <= |records| && Run(records[..k]) == None
    ensures Run(records) == None
    decreases |records| - k
  {
    if k < |records| {
      assert records[..k + 1][..k] == records[..k];
      StopsAtFailure(records, k + 1);
    } else {
      assert records[..k] == records;
    }
  }

  /* ---------------- the state machine decides Sorted ---------------- */

  predicate HasUnmapped(records: seq<Record>)
  {
    exists i :: 0 <= i < |records| && records[i].tid == -1
  }

  /** The state after a successful run: the last record's position and
      reference, and whether an unmapped record was seen. */
  function Summary(records: seq<Record>): SortState
  {
    if records == [] then Start
    else SortState(records[|records| - 1].pos, records[|records| - 1].tid, HasUnmapped(records))
  }

  lemma {:induction false} RunSummary(records: seq<Record>)
    requires WellFormed(records) && Run(records).Some?
    ensures Run(records) == Some(Summary(records))
  {
    if records != [] {
      var init := records[..|records| - 1];
      var r := records[|records| - 1];
      assert WellFormed(init);
      RunSummary(init);
      if HasUnmapped(init) {
        var i :| 0 <= i < |init| && init[i].tid == -1;
        assert records[i].tid == -1;
      }
      if r.tid == -1 {
        assert records[|records| - 1].tid == -1;
      }
      if HasUnmapped(records) {
        var i :| 0 <= i < |records| && records[i].tid == -1;
        if i < |init| {
          assert init[i].tid == -1;
        }
      }
    }
  }

  /** Sorted, extended by one record: the new record must respect the
      unmapped-last rule and the order after the last mapped record. */
  lemma SortedSnoc(s: seq<Record>, r: Record)
    requires |s| >= 1
    ensures Sorted(s + [r]) <==>
      Sorted(s)
      && (HasUnmapped(s) ==> r.tid == -1)
      && (s[|s| - 1].tid != -1 && r.tid != -1 ==>
            s[|s| - 1].tid < r.tid || (s[|s| - 1].tid == r.tid && s[|s| - 1].pos <= r.pos))
  {
    var t := s + [r];
    assert forall i :: 0 <= i < |s| ==> t[i] == s[i];
    assert t[|s|] == r;
    if Sorted(t) {
      SortedPrefix(s, r);
      if HasUnmapped(s) {
        var i :| 0 <= i < |s| && s[i].tid == -1;
        assert t[i].tid == -1;
      }
      assert |s| - 1 < |t| - 1;
    }
  }

  /** The records before the last of a sorted sequence are sorted. */
  lemma SortedPrefix(s: seq<Record>, r: Record)
    requires Sorted(s + [r])
    ensures Sorted(s)
  {
    var t := s + [r];
    forall i, j | 0 <= i < j < |s| && s[i].tid == -1 ensures s[j].tid == -1 {
      assert t[i] == s[i] && t[j] == s[j];
    }
    forall i | 0 <= i < |s| - 1 && s[i].tid != -1 && s[i + 1].tid != -1
      ensures s[i].tid < s[i + 1].tid || (s[i].tid == s[i + 1].tid && s[i].pos <= s[i + 1].pos)
    {
      assert t[i] == s[i] && t[i + 1] == s[i + 1];
    }
  }

  /** In a sorted sequence an unmapped record is followed only by unmapped
      ones, so after one the last record is unmapped too. */
  lemma UnmappedLast(s: seq<Record>)
    requires |s| >= 1 && Sorted(s) && HasUnmapped(s)
    ensures s[|s| - 1].tid == -1
  {
    var i :| 0 <= i < |s| && s[i].tid == -1;
    if i < |s| - 1 {
      assert s[i].tid == -1;
    }
  }

  /** After a sorted, successful prefix, one more record passes the step
      exactly when it keeps the sequence sorted. */
  lemma StepKeepsSorted(init: seq<Record>, r: Record)
    requires |init| >= 1 && WellFormed(init + [r]) && Sorted(init)
    ensures Step(Summary(init), r).Some? <==> Sorted(init + [r])
  {
    SortedSnoc(init, r);
    assert (init + [r])[|init|] == r;
    if HasUnmapped(init) {
      UnmappedLast(init);
    }
  }

  lemma SingleRecord(r: Record)
    requires WellFormed([r])
    ensures Run([r]).Some? && Sorted([r])
  {
    assert [r][..0] == [];
    assert [r][0] == r;
  }

  lemma RunSnoc(init: seq<Record>, r: Record)
    ensures Run(init + [r]) == if Run(init).None? then None else Step(Run(init).value, r)
  {
    assert (init + [r])[..|init|] == init;
  }

  /** test_sort accepts exactly the sorted files. */
  lemma {:induction false} RunDecidesSorted(records: seq<Record>)
    requires WellFormed(records)
    ensures Run(records).Some? <==> Sorted(records)
  {
    if records != [] {
      var init := records[..|records| - 1];
      var r := records[|records| - 1];
      assert records == init + [r];
      assert WellFormed(init);
      RunDecidesSorted(init);
      RunSnoc(init, r);
      if init == [] {
        SingleRecord(r);
      } else if Run(init).Some? {
        RunSummary(init);
        StepKeepsSorted(init, r);
      } else {
        SortedSnoc(init, r);
      }
    }
  }

  /** Some consequences the source's comments promise. */
  lemma {:induction false} FailureCases(s: seq<Record>, r: Record)
    requires WellFormed(s + [r]) && |s| >= 1
    ensures s[|s| - 1].tid != -1 && s[|s| - 1].tid == r.tid && r.pos < s[|s| - 1].pos ==> Run(s + [r]).None?
    ensures s[|s| - 1].tid != -1 && r.tid != -1 && r.tid < s[|s| - 1].tid ==> Run(s + [r]).None?
    ensures HasUnmapped(s) && r.tid != -1 ==> Run(s + [r]).None?
    ensures Sorted(s) && s[|s| - 1].tid != -1 && r.tid > s[|s| - 1].tid && !HasUnmapped(s) ==> Run(s + [r]).Some?
  {
    assert (s + [r])[..|s|] == s;
    assert WellFormed(s);
    RunDecidesSorted(s + [r]);
    SortedSnoc(s, r);
  }

  /** main: EXIT_FAILURE without a file, and exactly when one of the files
      fails the test (src/bamsorted.c:146-159). */
  method CheckAll(files: seq<Option<seq<Record>>>) returns (status: int)
    ensures files == [] ==> status == EXIT_FAILURE
    ensures files != [] ==> (status == EXIT_SUCCESS <==>
      forall k :: 0 <= k < |files| ==> files[k].Some? && Run(files[k].value).Some?)
  {
    if files == [] {
      return EXIT_FAILURE;
    }
    status := EXIT_SUCCESS;
    var i := 0;
    while i < |files|
      invariant 0 <= i <= |files|
      invariant status == EXIT_SUCCESS <==>
        forall k :: 0 <= k < i ==> files[k].Some? && Run(files[k].value).Some?
    {
      var s := TestSort(files[i]);
      if s != EXIT_SUCCESS {
        status := EXIT_FAILURE;
      }
      i := i + 1;
    }
  }
}
