/**
 * The experiment runner: `main`'s loop over strategies, buffer capacities and
 * manifest entries. Timing, digest check and accumulation of the records of
 * one strategy, then their aggregation and report.
 */
module Runner {
  import opened Common
  import opened Manifest
  import opened Aggregator
  import opened Reporter

  /** `BUFFER_MAX_CAP`: the size of the one working buffer, allocated once. */
  const BufferMaxCap: nat := 1024 * 1024 * 1024

  /** `buffer_caps`: the capacities swept for every strategy, in this order. */
  const BufferCaps: seq<nat> := [1024, 256 * 1024, 512 * 1024, 1024 * 1024, 256 * 1024 * 1024, 512 * 1024 * 1024]

  /** 2^64: `size_t` values are taken modulo this. */
  const SizeModulus: nat := 0x1_0000_0000_0000_0000

  /** `struct timespec` as `clock_gettime(CLOCK_MONOTONIC, ...)` fills it. */
  datatype Timespec = Timespec(sec: int, nsec: int)

  /** An entry of `hof_func_attribs`: a label and the opaque hashing strategy. */
  datatype Strategy = Strategy(name: string, hof: (string, nat) -> Hash)

  /**
   * The outside world: `parse_hash`, `stat` of a file's size, and the
   * monotonic clock, whose k-th reading of the run is `clock(k)`.
   */
  datatype Env = Env(parseHash: string -> Option<Hash>, stat: string -> Option<nat>, clock: nat -> Option<Timespec>)

  /** What main prints for one strategy: its label and the histogram of its records. */
  datatype StrategyReport = StrategyReport(name: string, sections: seq<Section>)

  function TotalNs(t: Timespec): int {
    t.sec * NsecsPerSec + t.nsec
  }

  /**
   * `elapsed_nsecs`: the signed difference of the two readings, stored in a
   * `size_t`.
   */
  function ElapsedNsecs(start: Timespec, end: Timespec): (r: nat)
    ensures r == (TotalNs(end) - TotalNs(start)) % SizeModulus
    ensures 0 <= TotalNs(end) - TotalNs(start) < SizeModulus ==> r == TotalNs(end) - TotalNs(start)
  {
    ((end.sec - start.sec) * 1000 * 1000 * 1000 + end.nsec - start.nsec) % SizeModulus
  }

  /**
   * One manifest entry: size by `stat`, a clock reading, the strategy, a
   * second reading, then the digest comparison; every failure is fatal.
   */
  function Measure(e: Entry, hof: (string, nat) -> Hash, bufferCap: nat, env: Env, tick: nat): (r: Result<BenchResult, Error>)
    ensures r.Ok? <==>
              && env.stat(e.path).Some? && env.clock(tick).Some? && env.clock(tick + 1).Some?
              && hof(e.path, bufferCap) == e.expected
    ensures r.Ok? ==>
              && r.value.bufferCap == bufferCap
              && env.stat(e.path) == Some(r.value.fileSize)
              && r.value.elapsedNsecs == ElapsedNsecs(env.clock(tick).value, env.clock(tick + 1).value)
    ensures r.Err? ==>
              r.error == if env.stat(e.path).None? then StatFailed(e.path)
                         else if env.clock(tick).None? || env.clock(tick + 1).None? then ClockFailed
                         else UnexpectedHash(e.path, e.expected, hof(e.path, bufferCap))
  {
    match env.stat(e.path)
    case None => Err(StatFailed(e.path))
    case Some(fileSize) =>
      match env.clock(tick)
      case None => Err(ClockFailed)
      case Some(start) =>
        var actual := hof(e.path, bufferCap);
        match env.clock(tick + 1)
        case None => Err(ClockFailed)
        case Some(end) =>
          if actual != e.expected then Err(UnexpectedHash(e.path, e.expected, actual))
          else Ok(BenchResult(bufferCap, fileSize, ElapsedNsecs(start, end)))
  }

  /**
   * One capacity's pass over the manifest from offset `at`, appending to
   * `report` and reading the clock from its `tick`-th reading on. Lines are
   * read one at a time, so a bad line ends the run only after the lines
   * before it were measured.
   */
  function PassAcc(manifestPath: string, content: seq<char>, at: nat, hof: (string, nat) -> Hash,
                   bufferCap: nat, env: Env, report: seq<BenchResult>, tick: nat): (r: Result<seq<BenchResult>, Error>)
    requires Terminated(content, at)
    ensures r.Ok? ==> |report| <= |r.value|
    decreases |content| - at
  {
    match NextLine(content, at, env.parseHash)
    case End => Ok(report)
    case Rejected => Err(IncorrectHashLine(manifestPath, 0))
    case Line(e, next) =>
      match Measure(e, hof, bufferCap, env, tick)
      case Err(x) => Err(x)
      case Ok(record) => PassAcc(manifestPath, content, next, hof, bufferCap, env, report + [record], tick + 2)
  }

  /**
   * One strategy's sweep: a fresh pass over the manifest for each capacity,
   * in order, all appending to the same `report`.
   */
  function SweepAcc(manifestPath: string, content: seq<char>, hof: (string, nat) -> Hash,
                    caps: seq<nat>, env: Env, report: seq<BenchResult>, tick: nat): (r: Result<seq<BenchResult>, Error>)
    requires Terminated(content, 0)
    ensures r.Ok? ==> |report| <= |r.value|
    decreases |caps|
  {
    if caps == [] then Ok(report)
    else
      match PassAcc(manifestPath, content, 0, hof, caps[0], env, report, tick)
      case Err(x) => Err(x)
      case Ok(report') =>
        SweepAcc(manifestPath, content, hof, caps[1..], env, report', tick + 2 * (|report'| - |report|))
  }

  /**
   * `rs` is what one pass with `bufferCap` over `entries` records: one record
   * per entry, in manifest order, the e-th being the measurement of the e-th
   * entry at the clock's readings 2e and 2e + 1 after `tick`.
   */
  ghost predicate PassRecords(rs: seq<BenchResult>, entries: seq<Entry>, hof: (string, nat) -> Hash,
                              bufferCap: nat, env: Env, tick: nat)
  {
    && |rs| == |entries|
    && forall e {:trigger rs[e]} :: 0 <= e < |entries| ==> Measure(entries[e], hof, bufferCap, env, tick + 2 * e) == Ok(rs[e])
  }

  /** `rs` is one `PassRecords` block per capacity of `caps`, in order, the clock running on. */
  ghost predicate SweepRecords(rs: seq<BenchResult>, entries: seq<Entry>, hof: (string, nat) -> Hash,
                               caps: seq<nat>, env: Env, tick: nat)
    decreases |caps|
  {
    if caps == [] then rs == []
    else
      && |entries| <= |rs|
      && PassRecords(rs[..|entries|], entries, hof, caps[0], env, tick)
      && SweepRecords(rs[|entries|..], entries, hof, caps[1..], env, tick + 2 * |entries|)
  }

  /**
   * A pass that succeeds read the whole manifest and kept `report` in front
   * of the records it appended, which are as `PassRecords` says.
   */
  lemma {:induction false} PassShape(manifestPath: string, content: seq<char>, at: nat, hof: (string, nat) -> Hash,
                                     bufferCap: nat, env: Env, report: seq<BenchResult>, tick: nat)
    requires Terminated(content, at)
    ensures PassAcc(manifestPath, content, at, hof, bufferCap, env, report, tick).Ok? ==>
              var out := PassAcc(manifestPath, content, at, hof, bufferCap, env, report, tick).value;
              && Scan(content, at, env.parseHash).complete
              && out[..|report|] == report
              && PassRecords(out[|report|..], Scan(content, at, env.parseHash).entries, hof, bufferCap, env, tick)
    decreases |content| - at
  {
    var pass := PassAcc(manifestPath, content, at, hof, bufferCap, env, report, tick);
    match NextLine(content, at, env.parseHash)
    case End =>
      assert pass.value[|report|..] == [];
    case Rejected =>
    case Line(entry, next) =>
      if pass.Ok? {
        var record := Measure(entry, hof, bufferCap, env, tick).value;
        PassShape(manifestPath, content, next, hof, bufferCap, env, report + [record], tick + 2);
        PassRecordsCons(pass.value, report, record, entry, Scan(content, next, env.parseHash).entries,
                        hof, bufferCap, env, tick);
      }
  }

  /** Putting one measured record in front of a pass's records, on the sequence that holds them. */
  lemma PassRecordsCons(out: seq<BenchResult>, report: seq<BenchResult>, record: BenchResult, entry: Entry,
                        entries: seq<Entry>, hof: (string, nat) -> Hash, bufferCap: nat, env: Env, tick: nat)
    requires Measure(entry, hof, bufferCap, env, tick) == Ok(record)
    requires |report| + 1 <= |out| && out[..|report| + 1] == report + [record]
    requires PassRecords(out[|report| + 1..], entries, hof, bufferCap, env, tick + 2)
    ensures out[..|report|] == report
    ensures PassRecords(out[|report|..], [entry] + entries, hof, bufferCap, env, tick)
  {
    var k := |report|;
    assert out[..k] == out[..k + 1][..k];
    var tail, all := out[k..], [entry] + entries;
    assert tail[0] == out[k] == record;
    forall e | 0 <= e < |all|
      ensures Measure(all[e], hof, bufferCap, env, tick + 2 * e) == Ok(tail[e])
    {
      if e > 0 {
        assert all[e] == entries[e - 1] && tail[e] == out[k + 1..][e - 1];
        assert tick + 2 * e == (tick + 2) + 2 * (e - 1);
      }
    }
  }

  /**
   * The converse of `PassShape`: a manifest the cursor reads to the end, each
   * of whose entries measures without error at its clock readings, gives a
   * pass that completes.
   */
  lemma {:induction false} PassSucceeds(manifestPath: string, content: seq<char>, at: nat, hof: (string, nat) -> Hash,
                                        bufferCap: nat, env: Env, report: seq<BenchResult>, tick: nat)
    requires Terminated(content, at) && Scan(content, at, env.parseHash).complete
    requires forall e :: 0 <= e < |Scan(content, at, env.parseHash).entries| ==>
               Measure(Scan(content, at, env.parseHash).entries[e], hof, bufferCap, env, tick + 2 * e).Ok?
    ensures PassAcc(manifestPath, content, at, hof, bufferCap, env, report, tick).Ok?
    decreases |content| - at
  {
    match NextLine(content, at, env.parseHash)
    case End =>
    case Line(entry, next) =>
      var all := Scan(content, at, env.parseHash).entries;
      var rest := Scan(content, next, env.parseHash).entries;
      assert all == [entry] + rest;
      MeasureAllShift(entry, rest, hof, bufferCap, env, tick);
      var record := Measure(entry, hof, bufferCap, env, tick).value;
      PassSucceeds(manifestPath, content, next, hof, bufferCap, env, report + [record], tick + 2);
  }

  /** The step of `PassSucceeds`: the entries after the first measure cleanly two readings later. */
  lemma MeasureAllShift(entry: Entry, rest: seq<Entry>, hof: (string, nat) -> Hash, bufferCap: nat, env: Env, tick: nat)
    requires forall e :: 0 <= e < |[entry] + rest| ==>
               Measure(([entry] + rest)[e], hof, bufferCap, env, tick + 2 * e).Ok?
    ensures Measure(entry, hof, bufferCap, env, tick).Ok?
    ensures forall e :: 0 <= e < |rest| ==> Measure(rest[e], hof, bufferCap, env, (tick + 2) + 2 * e).Ok?
  {
    var all := [entry] + rest;
    assert all[0] == entry;
    forall e | 0 <= e < |rest|
      ensures Measure(rest[e], hof, bufferCap, env, (tick + 2) + 2 * e).Ok?
    {
      assert all[e + 1] == rest[e] && tick + 2 * (e + 1) == (tick + 2) + 2 * e;
    }
  }

  /**
   * A strategy whose sweep succeeds read every manifest line, kept `report`
   * in front, and appended records as `SweepRecords` says.
   */
  lemma {:induction false} SweepShape(manifestPath: string, content: seq<char>, hof: (string, nat) -> Hash,
                                      caps: seq<nat>, env: Env, report: seq<BenchResult>, tick: nat)
    requires Terminated(content, 0)
    ensures SweepAcc(manifestPath, content, hof, caps, env, report, tick).Ok? ==>
              var out := SweepAcc(manifestPath, content, hof, caps, env, report, tick).value;
              && (caps != [] ==> Scan(content, 0, env.parseHash).complete)
              && out[..|report|] == report
              && SweepRecords(out[|report|..], Scan(content, 0, env.parseHash).entries, hof, caps, env, tick)
    decreases |caps|
  {
    var sweep := SweepAcc(manifestPath, content, hof, caps, env, report, tick);
    if caps == [] {
      assert sweep.value[|report|..] == [];
    } else if sweep.Ok? {
      var entries := Scan(content, 0, env.parseHash).entries;
      var pass := PassAcc(manifestPath, content, 0, hof, caps[0], env, report, tick);
      PassShape(manifestPath, content, 0, hof, caps[0], env, report, tick);
      var report' := pass.value;
      var tick' := tick + 2 * (|report'| - |report|);
      SweepShape(manifestPath, content, hof, caps[1..], env, report', tick');
      SweepRecordsCons(sweep.value, report, report', entries, hof, caps, env, tick);
    }
  }

  /** Putting one capacity's block in front of the later blocks, on the sequence that holds them. */
  lemma SweepRecordsCons(out: seq<BenchResult>, report: seq<BenchResult>, report': seq<BenchResult>,
                         entries: seq<Entry>, hof: (string, nat) -> Hash, caps: seq<nat>, env: Env, tick: nat)
    requires caps != [] && |report| <= |report'| <= |out|
    requires report'[..|report|] == report && out[..|report'|] == report'
    requires PassRecords(report'[|report|..], entries, hof, caps[0], env, tick)
    requires SweepRecords(out[|report'|..], entries, hof, caps[1..], env, tick + 2 * (|report'| - |report|))
    ensures out[..|report|] == report
    ensures SweepRecords(out[|report|..], entries, hof, caps, env, tick)
  {
    var k, n := |report|, |entries|;
    assert out[..k] == out[..|report'|][..k];
    var tail := out[k..];
    assert tail[..n] == report'[k..];
    assert tail[n..] == out[|report'|..];
  }

  /** A sweep's records number |caps| × N for N manifest entries. */
  lemma {:induction false} SweepRecordsLength(rs: seq<BenchResult>, entries: seq<Entry>, hof: (string, nat) -> Hash,
                                              caps: seq<nat>, env: Env, tick: nat)
    requires SweepRecords(rs, entries, hof, caps, env, tick)
    ensures |rs| == |caps| * |entries|
    decreases |caps|
  {
    if caps != [] {
      SweepRecordsLength(rs[|entries|..], entries, hof, caps[1..], env, tick + 2 * |entries|);
      SweepIndex(0, 0, |entries|, |caps|);
    }
  }

  /**
   * Capacity-major layout: record c·N + e of a sweep is the measurement of
   * entry e with capacity c, at the clock's readings 2(c·N + e) and
   * 2(c·N + e) + 1 after the sweep's first.
   */
  lemma {:induction false} SweepRecordAt(rs: seq<BenchResult>, entries: seq<Entry>, hof: (string, nat) -> Hash,
                                         caps: seq<nat>, env: Env, tick: nat, c: nat, e: nat)
    requires SweepRecords(rs, entries, hof, caps, env, tick)
    requires c < |caps| && e < |entries|
    ensures c * |entries| + e < |rs|
    ensures Measure(entries[e], hof, caps[c], env, tick + 2 * (c * |entries| + e)) == Ok(rs[c * |entries| + e])
    decreases c
  {
    var n := |entries|;
    SweepRecordsLength(rs, entries, hof, caps, env, tick);
    SweepIndex(c, e, n, |caps|);
    if c == 0 {
      assert rs[..n][e] == rs[e];
    } else {
      SweepRecordAt(rs[n..], entries, hof, caps[1..], env, tick + 2 * n, c - 1, e);
      SweepShift(rs, entries, hof, caps, env, tick, c, e);
    }
  }

  /** The step of `SweepRecordAt`: dropping the first block shifts indices by N and clock readings by 2N. */
  lemma SweepShift(rs: seq<BenchResult>, entries: seq<Entry>, hof: (string, nat) -> Hash,
                   caps: seq<nat>, env: Env, tick: nat, c: nat, e: nat)
    requires 0 < c < |caps| && e < |entries| <= |rs|
    requires c * |entries| + e < |rs| && c * |entries| + e == |entries| + ((c - 1) * |entries| + e)
    requires (c - 1) * |entries| + e < |rs| - |entries|
    requires Measure(entries[e], hof, caps[1..][c - 1], env, (tick + 2 * |entries|) + 2 * ((c - 1) * |entries| + e))
             == Ok(rs[|entries|..][(c - 1) * |entries| + e])
    ensures Measure(entries[e], hof, caps[c], env, tick + 2 * (c * |entries| + e)) == Ok(rs[c * |entries| + e])
  {
    var n, i := |entries|, (c - 1) * |entries| + e;
    assert caps[1..][c - 1] == caps[c];
    assert rs[n..][i] == rs[n + i];
    assert (tick + 2 * n) + 2 * i == tick + 2 * (n + i);
  }

  /** Record c·N + e of a sweep over m capacities lies in the pass of capacity c. */
  lemma SweepIndex(c: nat, e: nat, n: nat, m: nat)
    requires c < m
    ensures m * n == n + (m - 1) * n
    ensures e < n ==> c * n + e < m * n
    ensures c > 0 ==> c * n + e == n + ((c - 1) * n + e)
    ensures c > 0 && e < n ==> (c - 1) * n + e < (m - 1) * n
  {
    if c > 0 && e < n {
      MulLe(c, m - 1, n);
    }
    if e < n {
      MulLe(c + 1, m, n);
    }
  }

  /**
   * Two files of 10 bytes and 1 MiB, swept with capacities 1024 and 1 MiB:
   * four records, capacity-major, and grouped by file size two buckets of two
   * points each, the capacities in sweep order within each.
   */
  lemma {:induction false} TwoFilesTwoCapacities(manifestPath: string, content: seq<char>, hof: (string, nat) -> Hash, env: Env,
                              tick: nat, rs: seq<BenchResult>)
    requires Terminated(content, 0)
    requires SweepAcc(manifestPath, content, hof, [1024, 1048576], env, [], tick) == Ok(rs)
    requires |Scan(content, 0, env.parseHash).entries| == 2
    requires env.stat(Scan(content, 0, env.parseHash).entries[0].path) == Some(10)
    requires env.stat(Scan(content, 0, env.parseHash).entries[1].path) == Some(1048576)
    ensures |rs| == 4
    ensures Group(rs, FileSizeOf, BufferCapOf) ==
            [ Aggregation(10, [Point(1024, rs[0].elapsedNsecs), Point(1048576, rs[2].elapsedNsecs)]),
              Aggregation(1048576, [Point(1024, rs[1].elapsedNsecs), Point(1048576, rs[3].elapsedNsecs)]) ]
  {
    SweepTwoByTwo(manifestPath, content, hof, env, tick, rs);
    GroupTwoByTwo(rs, 10, 1048576, 1024, 1048576);
  }

  /** The four records of that sweep: capacity-major, each carrying its file's size. */
  lemma {:induction false} SweepTwoByTwo(manifestPath: string, content: seq<char>, hof: (string, nat) -> Hash, env: Env,
                      tick: nat, rs: seq<BenchResult>)
    requires Terminated(content, 0)
    requires SweepAcc(manifestPath, content, hof, [1024, 1048576], env, [], tick) == Ok(rs)
    requires |Scan(content, 0, env.parseHash).entries| == 2
    requires env.stat(Scan(content, 0, env.parseHash).entries[0].path) == Some(10)
    requires env.stat(Scan(content, 0, env.parseHash).entries[1].path) == Some(1048576)
    ensures |rs| == 4
    ensures rs[0].fileSize == rs[2].fileSize == 10 && rs[1].fileSize == rs[3].fileSize == 1048576
    ensures rs[0].bufferCap == rs[1].bufferCap == 1024 && rs[2].bufferCap == rs[3].bufferCap == 1048576
  {
    var caps: seq<nat> := [1024, 1048576];
    var entries := Scan(content, 0, env.parseHash).entries;
    SweepResult(manifestPath, content, hof, caps, env, tick, rs);
    SweepRecordFields(rs, entries, hof, caps, env, tick, 0, 0);
    SweepRecordFields(rs, entries, hof, caps, env, tick, 0, 1);
    SweepRecordFields(rs, entries, hof, caps, env, tick, 1, 0);
    SweepRecordFields(rs, entries, hof, caps, env, tick, 1, 1);
  }

  /**
   * A sweep that starts from an empty record list and completes records one
   * block per capacity, |caps| × N records in all.
   */
  lemma SweepResult(manifestPath: string, content: seq<char>, hof: (string, nat) -> Hash,
                    caps: seq<nat>, env: Env, tick: nat, rs: seq<BenchResult>)
    requires Terminated(content, 0)
    requires SweepAcc(manifestPath, content, hof, caps, env, [], tick) == Ok(rs)
    ensures SweepRecords(rs, Scan(content, 0, env.parseHash).entries, hof, caps, env, tick)
    ensures |rs| == |caps| * |Scan(content, 0, env.parseHash).entries|
  {
    SweepShape(manifestPath, content, hof, caps, env, [], tick);
    assert rs[0..] == rs;
    SweepRecordsLength(rs, Scan(content, 0, env.parseHash).entries, hof, caps, env, tick);
  }

  /** Record c·N + e of a sweep carries capacity c and the size `stat` gives for entry e. */
  lemma SweepRecordFields(rs: seq<BenchResult>, entries: seq<Entry>, hof: (string, nat) -> Hash,
                          caps: seq<nat>, env: Env, tick: nat, c: nat, e: nat)
    requires SweepRecords(rs, entries, hof, caps, env, tick)
    requires c < |caps| && e < |entries|
    ensures c * |entries| + e < |rs|
    ensures rs[c * |entries| + e].bufferCap == caps[c]
    ensures env.stat(entries[e].path) == Some(rs[c * |entries| + e].fileSize)
  {
    SweepRecordAt(rs, entries, hof, caps, env, tick, c, e);
  }

  /** Every entry of `BUFFER_MAX_CAP`'s table fits the one buffer allocated for the run. */
  lemma BufferCapsFit()
    ensures forall c :: c in BufferCaps ==> 0 < c <= BufferMaxCap
  {
  }

  /**
   * The body of the per-entry loop (src/bench_hash.c:246-284): the entry's
   * size, the strategy timed between two clock readings, and the digest check.
   */
  method MeasureEntry(entry: Entry, hof: (string, nat) -> Hash, bufferCap: nat, env: Env, tick0: nat)
    returns (r: Result<BenchResult, Error>, tick: nat)
    ensures r == Measure(entry, hof, bufferCap, env, tick0)
    ensures r.Ok? ==> tick == tick0 + 2
  {
    tick := tick0;
    var fileSize := env.stat(entry.path);
    if fileSize.None? {
      return Err(StatFailed(entry.path)), tick;
    }
    var start := env.clock(tick);
    tick := tick + 1;
    if start.None? {
      return Err(ClockFailed), tick;
    }
    var actual := hof(entry.path, bufferCap);
    var end := env.clock(tick);
    tick := tick + 1;
    if end.None? {
      return Err(ClockFailed), tick;
    }
    var record := BenchResult(bufferCap, fileSize.value, ElapsedNsecs(start.value, end.value));
    if actual != entry.expected {
      return Err(UnexpectedHash(entry.path, entry.expected, actual)), tick;
    }
    r := Ok(record);
  }

  /**
   * One capacity's pass (src/bench_hash.c:239-287): a fresh cursor over the
   * manifest, and every entry it yields timed, checked and appended to
   * `report0`; the clock is read twice per entry from its `tick0`-th reading on.
   */
  method MeasurePass(manifestPath: string, content: seq<char>, hof: (string, nat) -> Hash, bufferCap: nat,
                     env: Env, report0: seq<BenchResult>, tick0: nat)
    returns (r: Result<seq<BenchResult>, Error>, tick: nat)
    requires Terminated(content, 0)
    ensures r == PassAcc(manifestPath, content, 0, hof, bufferCap, env, report0, tick0)
    ensures r.Ok? ==> tick == tick0 + 2 * (|r.value| - |report0|)
  {
    var report := report0;
    tick := tick0;
    var hsf := new HashSumFile(manifestPath, content);
    ghost var at: nat := 0;
    var next := hsf.Next(env.parseHash);
    while next.Ok? && next.value.Some?
      invariant hsf.Valid() && hsf.content == content && hsf.contentFilePath == manifestPath && hsf.lineNumber == 0
      invariant Terminated(content, at)
      invariant next == Returned(NextLine(content, at, env.parseHash), manifestPath, 0)
      invariant hsf.offset == Advance(NextLine(content, at, env.parseHash), at)
      invariant |report0| <= |report| && tick == tick0 + 2 * (|report| - |report0|)
      invariant PassAcc(manifestPath, content, at, hof, bufferCap, env, report, tick) ==
                PassAcc(manifestPath, content, 0, hof, bufferCap, env, report0, tick0)
      decreases |content| - at
    {
      var entry := next.value.value;
      var record, tick' := MeasureEntry(entry, hof, bufferCap, env, tick);
      if record.Err? {
        return Err(record.error), tick';
      }
      report, tick, at := report + [record.value], tick', hsf.offset;
      next := hsf.Next(env.parseHash);
    }
    if next.Err? {
      return Err(next.error), tick;
    }
    r := Ok(report);
  }

  /**
   * One strategy's sweep (src/bench_hash.c:231-288): the record list is
   * emptied, then one pass per capacity, in order.
   */
  method SweepStrategy(manifestPath: string, content: seq<char>, hof: (string, nat) -> Hash,
                       caps: seq<nat>, env: Env, tick0: nat)
    returns (r: Result<seq<BenchResult>, Error>, tick: nat)
    requires Terminated(content, 0)
    ensures r == SweepAcc(manifestPath, content, hof, caps, env, [], tick0)
    ensures r.Ok? ==> tick == tick0 + 2 * |r.value|
  {
    var report: seq<BenchResult> := [];
    tick := tick0;
    ghost var goal := SweepAcc(manifestPath, content, hof, caps, env, [], tick0);
    assert caps[0..] == caps;
    for i := 0 to |caps|
      invariant tick == tick0 + 2 * |report|
      invariant SweepAcc(manifestPath, content, hof, caps[i..], env, report, tick) == goal
    {
      assert caps[i..][0] == caps[i] && caps[i..][1..] == caps[i + 1..];
      var pass, tick' := MeasurePass(manifestPath, content, hof, caps[i], env, report, tick);
      if pass.Err? {
        return pass, tick';
      }
      report, tick := pass.value, tick';
    }
    assert caps[|caps|..] == [];
    r := Ok(report);
  }

  /**
   * `report` is what main prints for `strategy` after a sweep over
   * `buffer_caps` that recorded `records`, starting at the clock's `tick`-th
   * reading: the strategy's label and, bucket by bucket, its records grouped
   * by file size with buffer capacity against elapsed time.
   */
  ghost predicate Reported(manifestPath: string, content: seq<char>, strategy: Strategy, env: Env, tick: nat,
                           records: seq<BenchResult>, report: StrategyReport)
    requires Terminated(content, 0)
  {
    && SweepAcc(manifestPath, content, strategy.hof, BufferCaps, env, [], tick) == Ok(records)
    && report == StrategyReport(strategy.name, RenderAll(Group(records, FileSizeOf, BufferCapOf)))
  }

  /**
   * One pass of `main`'s outer loop (src/bench_hash.c:231-298): the strategy's
   * sweep over `buffer_caps` from an empty record list, then the aggregation
   * of its records by file size against buffer capacity, and its report.
   */
  method ReportStrategy(manifestPath: string, content: seq<char>, strategy: Strategy, env: Env, tick0: nat)
    returns (r: Result<StrategyReport, Error>, tick: nat, ghost records: seq<BenchResult>)
    requires Terminated(content, 0)
    ensures r.Ok? ==> Reported(manifestPath, content, strategy, env, tick0, records, r.value)
                      && tick == tick0 + 2 * |records|
    ensures r.Err? ==> SweepAcc(manifestPath, content, strategy.hof, BufferCaps, env, [], tick0) == Err(r.error)
  {
    var sweep;
    sweep, tick := SweepStrategy(manifestPath, content, strategy.hof, BufferCaps, env, tick0);
    if sweep.Err? {
      return Err(sweep.error), tick, [];
    }
    records := sweep.value;
    var aggregation := Aggregate(sweep.value, FileSizeOf, BufferCapOf);
    var sections := PrintAggregation(aggregation);
    r := Ok(StrategyReport(strategy.name, sections));
  }

  /**
   * `main` after the manifest is mapped (src/bench_hash.c:217-301): the gate,
   * then for each strategy in table order its report. A fatal error ends the
   * run after the reports of the strategies already finished; the clock
   * readings continue from one strategy to the next.
   */
  method Run(manifestPath: string, content: seq<char>, strategies: seq<Strategy>, env: Env)
    returns (out: seq<StrategyReport>, err: Option<Error>, ghost sweeps: seq<seq<BenchResult>>, ghost ticks: seq<nat>)
    ensures !Gate(content) ==> out == [] && err == Some(NotHashSumFile(manifestPath))
    ensures Gate(content) ==>
              && |out| <= |strategies| && |sweeps| == |out| && |ticks| == |out| + 1 && ticks[0] == 0
              && (err.None? ==> |out| == |strategies|)
              && (forall s :: 0 <= s < |out| ==>
                    && Reported(manifestPath, content, strategies[s], env, ticks[s], sweeps[s], out[s])
                    && ticks[s + 1] == ticks[s] + 2 * |sweeps[s]|)
              && (err.Some? ==>
                    && |out| < |strategies|
                    && SweepAcc(manifestPath, content, strategies[|out|].hof, BufferCaps, env, [], ticks[|out|]) == Err(err.value))
  {
    sweeps, ticks := [], [0];
    if !(|content| > 0 && content[|content| - 1] == '\0') {
      return [], Some(NotHashSumFile(manifestPath)), sweeps, ticks;
    }
    out := [];
    var tick := 0;
    for s := 0 to |strategies|
      invariant |out| == s == |sweeps| && |ticks| == s + 1 && ticks[0] == 0 && ticks[s] == tick
      invariant forall t :: 0 <= t < s ==>
                  && Reported(manifestPath, content, strategies[t], env, ticks[t], sweeps[t], out[t])
                  && ticks[t + 1] == ticks[t] + 2 * |sweeps[t]|
    {
      var r, tick', records := ReportStrategy(manifestPath, content, strategies[s], env, tick);
      if r.Err? {
        return out, Some(r.error), sweeps, ticks;
      }
      ghost var out0, sweeps0, ticks0 := out, sweeps, ticks;
      out, sweeps, ticks, tick := out + [r.value], sweeps + [records], ticks + [tick'], tick';
      forall t | 0 <= t <= s
        ensures Reported(manifestPath, content, strategies[t], env, ticks[t], sweeps[t], out[t])
        ensures ticks[t + 1] == ticks[t] + 2 * |sweeps[t]|
      {
        if t < s {
          assert out[t] == out0[t] && sweeps[t] == sweeps0[t] && ticks[t] == ticks0[t] && ticks[t + 1] == ticks0[t + 1];
        }
      }
    }
    err := None;
  }
}
