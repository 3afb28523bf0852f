/** Run detection of the accuracy analysis (`getValidSections`): find the maximal runs
    of consecutive samples that pass a validity test, as half-open index ranges. */
module AccuracyAnalysis {

  /** The validity of each sample, in order. */
  function Flags<T>(valid: T -> bool, data: seq<T>): (f: seq<bool>)
    ensures |f| == |data| && forall i :: 0 <= i < |data| ==> f[i] == valid(data[i])
  {
    seq(|data|, i requires 0 <= i < |data| => valid(data[i]))
  }

  /** `[s, e)` is a maximal run of valid samples: non-empty, all valid, and neither
      the sample before it nor the sample at `e` is valid. */
  predicate MaximalRun(flags: seq<bool>, s: int, e: int) {
    0 <= s < e <= |flags| &&
    (forall i :: s <= i < e ==> flags[i]) &&
    (s == 0 || !flags[s - 1]) &&
    (e == |flags| || !flags[e])
  }

  /** The loop state after the first `i` samples: the runs already closed by an invalid
      sample (as exclusive ranges) and the start of the run in progress. */
  function Scan(flags: seq<bool>, i: nat): (seq<(nat, nat)>, nat)
    requires i <= |flags|
  {
    if i == 0 then ([], 0)
    else
      var (closed, start) := Scan(flags, i - 1);
      var v, lastv := flags[i - 1], i >= 2 && flags[i - 2];
      var here: nat := i - 1;
      if v && !lastv then (closed, here)
      else if !v && lastv then (closed + [(start, here)], start)
      else (closed, start)
  }

  /** The maximal runs of valid samples, in order, each as a half-open range. */
  function Runs(flags: seq<bool>): seq<(nat, nat)> {
    var (closed, start) := Scan(flags, |flags|);
    if |flags| > 0 && flags[|flags| - 1] then closed + [(start, |flags|)] else closed
  }

  /** The end the source records for a run: one past the invalid sample that closes it,
      or the number of samples for a run still open at the end. */
  function RecordedEnd(flags: seq<bool>, r: (nat, nat)): nat {
    if r.1 < |flags| then r.1 + 1 else r.1
  }

  /** What the list returned by `getValidSections` holds: one entry per run, every entry
      the shared `section` list, which ends up holding the last run's start and recorded end. */
  function AsWritten(flags: seq<bool>): seq<(nat, nat)> {
    var runs := Runs(flags);
    if runs == [] then []
    else
      var last := runs[|runs| - 1];
      seq(|runs|, _ => (last.0, RecordedEnd(flags, last)))
  }

  /** What the loop keeps true of `Scan`: closed runs are maximal, ordered and end before
      `i`; the run in progress started at `start`; and every maximal run that ends
      before `i` has been closed. */
  ghost predicate ScanInvariant(flags: seq<bool>, i: nat, closed: seq<(nat, nat)>, start: nat)
    requires i <= |flags|
  {
    (forall k :: 0 <= k < |closed| ==> MaximalRun(flags, closed[k].0, closed[k].1) && closed[k].1 < i) &&
    (forall k :: 0 < k < |closed| ==> closed[k - 1].1 < closed[k].0) &&
    (i > 0 && flags[i - 1] ==>
       start < i && (forall j :: start <= j < i ==> flags[j]) && (start == 0 || !flags[start - 1]) &&
       (forall k :: 0 <= k < |closed| ==> closed[k].1 < start)) &&
    (forall s, e :: MaximalRun(flags, s, e) && e < i ==> (s, e) in closed)
  }

  /** A valid sample after an invalid one (or at the start) opens a run. */
  lemma OpenStep(flags: seq<bool>, i: nat, closed: seq<(nat, nat)>, start: nat)
    requires 0 < i <= |flags| && ScanInvariant(flags, i - 1, closed, start)
    requires flags[i - 1] && !(i >= 2 && flags[i - 2])
    ensures ScanInvariant(flags, i, closed, i - 1)
  {
    forall k | 0 <= k < |closed|
      ensures closed[k].1 < i - 1
    {
      assert !flags[closed[k].1];
    }
  }

  /** An invalid sample after a valid one closes the run in progress. */
  lemma CloseStep(flags: seq<bool>, i: nat, closed: seq<(nat, nat)>, start: nat)
    requires 0 < i <= |flags| && ScanInvariant(flags, i - 1, closed, start)
    requires !flags[i - 1] && i >= 2 && flags[i - 2]
    ensures ScanInvariant(flags, i, closed + [(start, i - 1)], start)
  {
    var closed' := closed + [(start, i - 1)];
    assert MaximalRun(flags, start, i - 1);
    forall s, e | MaximalRun(flags, s, e) && e < i
      ensures (s, e) in closed'
    {
      // a run closed at sample i - 1 holds sample i - 2, so it is the run in progress
      if e < i - 1 {
        assert (s, e) in closed;
      }
    }
  }

  /** A sample with the same validity as the one before changes nothing. */
  lemma KeepStep(flags: seq<bool>, i: nat, closed: seq<(nat, nat)>, start: nat)
    requires 0 < i <= |flags| && ScanInvariant(flags, i - 1, closed, start)
    requires flags[i - 1] == (i >= 2 && flags[i - 2])
    ensures ScanInvariant(flags, i, closed, start)
  {
    forall s, e | MaximalRun(flags, s, e) && e < i
      ensures (s, e) in closed
    {
      assert e < i - 1;
    }
  }

  lemma {:induction false} ScanKeepsInvariant(flags: seq<bool>, i: nat)
    requires i <= |flags|
    ensures ScanInvariant(flags, i, Scan(flags, i).0, Scan(flags, i).1)
  {
    if i > 0 {
      ScanKeepsInvariant(flags, i - 1);
      var (closed, start) := Scan(flags, i - 1);
      var v, lastv := flags[i - 1], i >= 2 && flags[i - 2];
      if v && !lastv {
        OpenStep(flags, i, closed, start);
      } else if !v && lastv {
        CloseStep(flags, i, closed, start);
      } else {
        KeepStep(flags, i, closed, start);
      }
    }
  }

  /** The runs found are exactly the maximal runs, listed in order. */
  lemma RunsAreTheMaximalRuns(flags: seq<bool>)
    ensures forall k :: 0 <= k < |Runs(flags)| ==> MaximalRun(flags, Runs(flags)[k].0, Runs(flags)[k].1)
    ensures forall k :: 0 < k < |Runs(flags)| ==> Runs(flags)[k - 1].1 < Runs(flags)[k].0
    ensures forall s, e :: MaximalRun(flags, s, e) ==> (s, e) in Runs(flags)
  {
    var n := |flags|;
    ScanKeepsInvariant(flags, n);
    var (closed, start) := Scan(flags, n);
    if n > 0 && flags[n - 1] {
      forall s, e | MaximalRun(flags, s, e)
        ensures (s, e) in Runs(flags)
      {
        if e < n {
          assert (s, e) in closed;
        }
      }
    }
  }

  /** The first sample of the run of valid samples that holds sample `i`. */
  function RunStart(flags: seq<bool>, i: nat): (s: nat)
    requires i < |flags| && flags[i]
    ensures s <= i && (s == 0 || !flags[s - 1]) && forall j :: s <= j <= i ==> flags[j]
  {
    if i == 0 || !flags[i - 1] then i else RunStart(flags, i - 1)
  }

  /** One past the last sample of the run of valid samples that holds sample `i`. */
  function RunEnd(flags: seq<bool>, i: nat): (e: nat)
    requires i < |flags| && flags[i]
    ensures i < e <= |flags| && (e == |flags| || !flags[e]) && forall j :: i <= j < e ==> flags[j]
    decreases |flags| - i
  {
    if i + 1 == |flags| || !flags[i + 1] then i + 1 else RunEnd(flags, i + 1)
  }

  /** Every valid sample lies in one of the runs found. */
  lemma EveryValidSampleInARun(flags: seq<bool>, i: nat)
    requires i < |flags| && flags[i]
    ensures exists k :: 0 <= k < |Runs(flags)| && Runs(flags)[k].0 <= i < Runs(flags)[k].1
  {
    var s, e := RunStart(flags, i), RunEnd(flags, i);
    assert MaximalRun(flags, s, e);
    RunsAreTheMaximalRuns(flags);
    var k :| 0 <= k < |Runs(flags)| && Runs(flags)[k] == (s, e);
  }

  /** There is no run exactly when no sample is valid; in particular empty data gives none. */
  lemma NoRunIffNoValidSample(flags: seq<bool>)
    ensures Runs(flags) == [] <==> forall i :: 0 <= i < |flags| ==> !flags[i]
  {
    RunsAreTheMaximalRuns(flags);
    if Runs(flags) != [] {
      var r := Runs(flags)[0];
      assert MaximalRun(flags, r.0, r.1);
      assert flags[r.0];
    }
    forall i | 0 <= i < |flags| && flags[i]
      ensures Runs(flags) != []
    {
      EveryValidSampleInARun(flags, i);
    }
  }

  /** What `AsWritten` holds, read off the loop state after the last sample. */
  lemma AsWrittenFromScan(flags: seq<bool>, closed: seq<(nat, nat)>, start: nat)
    requires (closed, start) == Scan(flags, |flags|)
    ensures var open := |flags| > 0 && flags[|flags| - 1];
            |AsWritten(flags)| == |Runs(flags)| == |closed| + (if open then 1 else 0) &&
            (open ==> forall k :: 0 <= k < |AsWritten(flags)| ==> AsWritten(flags)[k] == (start, |flags|)) &&
            (!open && |closed| > 0 ==> forall k :: 0 <= k < |AsWritten(flags)| ==>
               AsWritten(flags)[k] == (closed[|closed| - 1].0, closed[|closed| - 1].1 + 1))
  {
    var n := |flags|;
    var runs := Runs(flags);
    if n > 0 && flags[n - 1] {
      assert runs == closed + [(start, n)];
      assert RecordedEnd(flags, runs[|runs| - 1]) == n;
    } else if |closed| > 0 {
      ScanKeepsInvariant(flags, n);
      var last := closed[|closed| - 1];
      assert runs == closed && last.1 < n;
      assert RecordedEnd(flags, runs[|runs| - 1]) == last.1 + 1;
    }
  }

  /** `getValidSections(valid, data)` as written. `valid` is applied once to each sample,
      in order. The result has one entry per maximal run of valid samples, but every entry
      is the one `section` list, mutated in place; after the last sample it holds the
      start of the last run and its recorded end. */
  method ValidSections<T>(valid: T -> bool, data: seq<T>) returns (validSections: seq<array<int>>, ghost calls: seq<T>)
    ensures calls == data
    ensures |validSections| == |Runs(Flags(valid, data))|
    ensures forall k :: 0 <= k < |validSections| ==> validSections[k] == validSections[0]
    ensures forall k :: 0 <= k < |validSections| ==>
              validSections[k].Length == 2 &&
              validSections[k][0] == AsWritten(Flags(valid, data))[k].0 &&
              validSections[k][1] == AsWritten(Flags(valid, data))[k].1
  {
    ghost var flags := Flags(valid, data);
    ghost var closed: seq<(nat, nat)>, start: nat := [], 0;
    validSections := [];
    calls := [];
    var lastv := false;
    var section := new int[2](_ => 0);
    for i := 0 to |data|
      invariant lastv == (i > 0 && flags[i - 1])
      invariant calls == data[..i]
      invariant (closed, start) == Scan(flags, i)
      invariant |validSections| == |closed|
      invariant forall k :: 0 <= k < |validSections| ==> validSections[k] == section
      invariant lastv ==> section[0] == start
      invariant |closed| > 0 ==> section[1] == closed[|closed| - 1].1 + 1
      invariant |closed| > 0 && !lastv ==> section[0] == closed[|closed| - 1].0
    {
      var v := valid(data[i]);
      calls := calls + [data[i]];
      if v && !lastv {
        section[0] := i;
        start := i;
      }
      if !v && lastv {
        section[1] := i + 1;
        validSections := validSections + [section];
        closed := closed + [(start, i)];
      }
      lastv := v;
    }
    if lastv {
      section[1] := |data|;
      validSections := validSections + [section];
    }
    AsWrittenFromScan(flags, closed, start);
  }

  /** `getValidSections` as evidently intended: a separate pair per run, ending at the
      first invalid sample (exclusive), so the result is exactly the maximal runs. */
  method ValidSectionsCorrected<T>(valid: T -> bool, data: seq<T>) returns (validSections: seq<(nat, nat)>)
    ensures validSections == Runs(Flags(valid, data))
  {
    ghost var flags := Flags(valid, data);
    validSections := [];
    var lastv := false;
    var start := 0;
    for i := 0 to |data|
      invariant lastv == (i > 0 && flags[i - 1])
      invariant (validSections, start) == Scan(flags, i) || (!lastv && validSections == Scan(flags, i).0)
    {
      var v := valid(data[i]);
      if v && !lastv {
        start := i;
      }
      if !v && lastv {
        validSections := validSections + [(start, i)];
      }
      lastv := v;
    }
    if lastv {
      validSections := validSections + [(start, |data|)];
    }
  }

  /** Aliasing: with samples valid, invalid, valid there are two runs, [0, 1) and [2, 3),
      but both entries returned as written read as the last one. */
  lemma AliasingLosesEarlierRuns()
    ensures Runs([true, false, true]) == [(0, 1), (2, 3)]
    ensures AsWritten([true, false, true]) == [(2, 3), (2, 3)]
  {
  }

  /** Off by one: with samples valid, invalid the only run is [0, 1), but the range
      recorded as written is [0, 2), which takes in the invalid sample. */
  lemma RecordedEndTakesInInvalidSample()
    ensures Runs([true, false]) == [(0, 1)]
    ensures AsWritten([true, false]) == [(0, 2)]
  {
  }
}
