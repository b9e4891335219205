# bench_hash in Dafny

A model of the core of `bench_hash`, a harness that times three file-hashing
strategies over a range of working-buffer capacities. It checks every digest
against a manifest produced by `sha256sum -z` and prints, per strategy, a
text histogram of elapsed time grouped by file size. Everything modelled
lives in `src/bench_hash.c`.

The project has five modules, one per `.dfy` file:

- `Common` (common.dfy): `Option`, `Result`, the 32-byte digest type and the fatal error conditions. Each fatal condition is an `Error` value where the program calls `exit(1)`.
- `Manifest` (manifest.dfy) covers the manifest gate and `strlen`.
  - The per-line step is the pure function `NextLine`; `Scan` is the whole listing.
  - The cursor `Hash_Sum_File` is the class `HashSumFile`. Its method `Next` updates `offset` and `contentSize` in place, as `next_hash_and_file` does.
- `Aggregator` (aggregator.dfy) models `aggregate`.
  - The bucket table is specified by the pure function `Group` (one `Put` per record).
  - `Aggregate` is the loop, with `FindKey` standing for `hmgeti`.
  - Lemmas give the table's keys, order, points and size.
- `Reporter` (reporter.dfy) models the arithmetic of `print_aggregation`: `max_y`, the bar length and the `Nsecs_Arg` split. The rendered buckets are plain numbers, not text.
- `Runner` (runner.dfy) models `main` after the manifest is mapped.
  - One entry's measurement is `Measure`, one capacity's pass `PassAcc`, one strategy's sweep `SweepAcc`.
  - The loops that compute them are `MeasureEntry`, `MeasurePass`, `SweepStrategy`, `ReportStrategy` and `Run`.
  - Lemmas give the layout of a sweep's records.

Outside the model, things enter as parameters:

- `parse_hash` is `Env.parseHash`, a function of the line.
- The strategies are `Strategy.hof`, each a function of path and capacity.
- `stat` is `Env.stat`.
- The monotonic clock is `Env.clock`, which maps the index of a reading within the run to an optional timestamp. Every entry takes two consecutive readings.

In four places the code does something other than what one would expect of the program. The model follows the code in each:

- The line number in the "incorrect hash line" error is always 0. `line_number` is set to 0 by `make_hash_sum_file` and never incremented. The intended value is the index of the offending line.
- Manifest lines are NUL-terminated, as `strlen` reads them, not line-feed-terminated. This matches `sha256sum -z`.
- A fatal error in a later strategy comes after the reports of the strategies already finished. Those reports have already been printed, so `Run` returns them together with the error. The run does not stop before printing anything.
- When `max_y` is 0 the intended bar length is 0, but the code has no guard there; see Findings.

## Model

| member | source | states |
|---|---|---|
| Manifest.Gate | src/bench_hash.c:217 | a manifest that passes main's check (non-empty, last byte NUL) is terminated from offset 0, so every `strlen` of the cursor stays inside it |
| Manifest.LineLength | src/bench_hash.c:80 | `strlen` from the cursor stays inside the mapping of a gated manifest and stops on a NUL |
| Manifest.LineLengthFirstNul | src/bench_hash.c:80 | the NUL `strlen` stops at is the first one from the cursor on |
| Manifest.NextLine | src/bench_hash.c:79-93 | end of input exactly at offset \|content\|. A good line is at least the 66 characters of digest and separator, followed by its path and a NUL. Its path starts 66 characters in, `parse_hash` of the line gave its digest, and the next offset lies past its NUL. A rejected line is shorter than 66 or failed `parse_hash` |
| Manifest.NextLineWhole | src/bench_hash.c:80-88 | an accepted line holds no NUL before its terminator |
| Manifest.Scan | src/bench_hash.c:77-97 | the entries that repeated `next_hash_and_file` yields from an offset take at least 67 bytes each (digest, separator, NUL), and the listing is empty and complete exactly at the end of the mapping |
| Manifest.ScanConsumesAll | src/bench_hash.c:79-96 | a manifest read to the end is consumed exactly: the lengths of its lines (hash, separator, path, NUL) add up to the remaining size, so `content_size` reaches 0 and never wraps |
| Manifest.HashSumFile.constructor | src/bench_hash.c:67-75 | a cursor at offset 0 over the whole mapping, line 0; valid exactly when the mapping is empty or NUL-terminated |
| Manifest.HashSumFile.Next | src/bench_hash.c:77-97 | returns the entry of `NextLine` at the old offset or the fatal error with line number 0. It moves the offset past the line and its NUL and keeps the cursor valid. It returns the NULL result exactly when `content_size` is 0. `content_size` strictly decreases on every entry returned and is unchanged otherwise |
| Aggregator.FindKey | src/bench_hash.c:140 | `hmgeti`: -1 exactly when no bucket has the key, otherwise the first bucket with it |
| Aggregator.Put | src/bench_hash.c:140-150 | one record's step: the table grows by one bucket exactly when the key is new, and that bucket holds just the point. The total point count grows by one |
| Aggregator.PutKeeps | src/bench_hash.c:140-150 | no bucket changes key, and buckets of other keys are untouched |
| Aggregator.PutOnto | src/bench_hash.c:141-142 | with distinct keys, the point is appended to the one bucket with its key |
| Aggregator.PutAt | src/bench_hash.c:140-142 | when `hmgeti` finds the key at index i, only bucket i changes, by one point at its end |
| Aggregator.PutAbsent | src/bench_hash.c:143-150 | a new key appends the one-point bucket at the end of the table |
| Aggregator.PutKeys | src/bench_hash.c:140-150 | after a step the keys present are the old ones plus the record's key |
| Aggregator.PutDistinct | src/bench_hash.c:140-150 | a step keeps the bucket keys pairwise distinct |
| Aggregator.Group | src/bench_hash.c:129-154 | the table `aggregate` builds has at most one bucket per record and is empty exactly for an empty report. Its keys, order and points are given by `GroupKeys`, `GroupOrder` and `GroupPoints` |
| Aggregator.GroupKeys | src/bench_hash.c:129-154 | bucket keys are pairwise distinct, and a key has a bucket exactly when some record carries it |
| Aggregator.GroupOrder | src/bench_hash.c:129-154 | buckets come out in the order in which their keys first occur among the records |
| Aggregator.GroupPoints | src/bench_hash.c:132-150 | each bucket holds exactly the points of the records with its key, in record order |
| Aggregator.GroupTotal | src/bench_hash.c:132-150 | the table holds exactly as many points as there are records |
| Aggregator.GroupCount | src/bench_hash.c:129-154 | K distinct keys among the records give exactly K buckets |
| Aggregator.SingleKey | src/bench_hash.c:132-150 | N records sharing one key give one bucket of those N points in input order |
| Aggregator.GroupTwoByTwo | src/bench_hash.c:293-296 | four records of two file sizes by two capacities, capacity-major, give two buckets, each with its two capacities in sweep order |
| Aggregator.Aggregate | src/bench_hash.c:129-154 | the loop of `hmgeti`/`arrput`/`hmputs` builds exactly the table `Group` |
| Reporter.NsecsArg | src/bench_hash.c:126 | seconds are n / 10^9, and seconds · 10^9 + nanoseconds = n with nanoseconds < 10^9 |
| Reporter.MaxY | src/bench_hash.c:162-167 | `max_y` bounds every point's y, is attained by a point when there is one, and is 0 for none |
| Reporter.ComputeMaxY | src/bench_hash.c:162-167 | the updating loop computes `MaxY` |
| Reporter.BarAsWritten | src/bench_hash.c:173-174 | the source's `t = (double) y / (double) max_y; floor(bar_len * t)` with exact arithmetic: undefined exactly when `max_y` is 0, otherwise the floor of 30·y / `max_y` |
| Reporter.BarCount | src/bench_hash.c:173-174 | for `max_y` > 0 the bar is the floor of 30·y / `max_y` (n·max_y ≤ 30·y < (n+1)·max_y); 0 when `max_y` is 0 |
| Reporter.BarBounds | src/bench_hash.c:169-174 | for y ≤ `max_y` the bar is at most 30, exactly 30 at y = `max_y` > 0, and 0 at y = 0 |
| Reporter.BarMonotone | src/bench_hash.c:173-174 | a larger y never gets a shorter bar |
| Reporter.BarAgreesWhereDefined | src/bench_hash.c:173-174 | wherever `max_y` > 0 the corrected bar `BarCount` equals the as-written `BarAsWritten` |
| Reporter.ZeroBucketUndefined | src/bench_hash.c:162-174 | a bucket whose only point took 0 ns has `max_y` = 0. The source's bar is then undefined, and the model's is 0 |
| Reporter.RenderSection | src/bench_hash.c:158-180 | a printed bucket has the bucket's key and one row per point, in order. Each row carries the point's x, the exact seconds/nanoseconds split of its y, and the bar of y against the bucket's `max_y` |
| Reporter.SectionBars | src/bench_hash.c:158-180 | in every printed bucket the rows follow the points and each time splits its y exactly. Bars are at most 30 and monotone in y, the maximum gets the full bar and a 0 ns point gets none |
| Reporter.PrintAggregation | src/bench_hash.c:156-183 | the nested loops render every bucket in table order, with `max_y` computed once per bucket |
| Runner.ElapsedNsecs | src/bench_hash.c:273 | `elapsed_nsecs` is the difference of the two readings in nanoseconds taken modulo 2^64, and exactly that difference when it is in range |
| Runner.Measure | src/bench_hash.c:246-284 | an entry succeeds exactly when `stat`, both clock readings and the digest check succeed. The record then carries the capacity, the size from `stat` and the elapsed time of the two readings. On failure the error is that of the first failing step: a failed `stat` gives the stat error for the path, a failed clock reading the clock error, and a wrong digest the mismatch error with both digests |
| Runner.PassAcc | src/bench_hash.c:239-287 | one capacity's pass over the manifest: a pass that succeeds never shortens the record list. `PassShape` and `PassSucceeds` give what it appends and when it succeeds |
| Runner.SweepAcc | src/bench_hash.c:236-288 | one strategy's sweep over `buffer_caps`: a sweep that succeeds never shortens the record list. `SweepShape`, `SweepRecordAt` and `SweepResult` give the layout of what it appends |
| Runner.MeasureEntry | src/bench_hash.c:246-284 | the body of the per-entry loop computes `Measure` and takes two clock readings |
| Runner.PassShape | src/bench_hash.c:239-287 | a pass that succeeds read the manifest to its end and appended one record per entry, in manifest order, each measured with the pass's capacity at its own pair of clock readings |
| Runner.PassSucceeds | src/bench_hash.c:239-287 | a manifest read to the end whose entries all measure cleanly gives a pass that succeeds |
| Runner.SweepShape | src/bench_hash.c:236-288 | a sweep that succeeds appends one block of records per capacity, in capacity order |
| Runner.SweepResult | src/bench_hash.c:231-288 | a sweep from an emptied record list holds \|caps\| × N records, one block per capacity |
| Runner.SweepRecordsLength | src/bench_hash.c:236-288 | the blocks of a sweep hold \|caps\| × N records |
| Runner.SweepRecordAt | src/bench_hash.c:236-288 | record c·N + e is entry e measured with capacity c, at clock readings 2(c·N + e) and 2(c·N + e) + 1 after the sweep's first |
| Runner.SweepRecordFields | src/bench_hash.c:270-274 | record c·N + e carries capacity c and the size `stat` gives for entry e |
| Runner.SweepTwoByTwo | src/bench_hash.c:236-288 | two files swept with two capacities give four records, capacity-major, each with its file's size |
| Runner.TwoFilesTwoCapacities | src/bench_hash.c:229-298 | files of 10 bytes and 1 MiB swept with capacities 1024 and 1 MiB give four records. By file size they form two buckets of two points, with x = 1024 then 1048576 in each |
| Runner.BufferCapsFit | src/bench_hash.c:37-44 | every capacity of `buffer_caps` is positive and at most `BUFFER_MAX_CAP`, so the one buffer allocated is never too small |
| Runner.MeasurePass | src/bench_hash.c:239-287 | the loop over a fresh cursor computes `PassAcc` and reads the clock twice per record |
| Runner.SweepStrategy | src/bench_hash.c:231-288 | from an emptied record list, one pass per capacity in order computes `SweepAcc` |
| Runner.ReportStrategy | src/bench_hash.c:231-298 | a strategy's report is its label and the rendering of its sweep's records grouped by file size against buffer capacity; a failed sweep gives that sweep's error |
| Runner.Run | src/bench_hash.c:217-301 | a manifest failing the gate is rejected before any entry is read. Otherwise the reports of the strategies, in table order, each from an emptied record list with the clock running on. A fatal error stops the run after the reports already made and is the error of the next strategy's sweep |

## Left out

- File and process I/O: the argument check, `open`, `fstat` and `mmap` of the manifest (src/bench_hash.c:187-215) are not modelled. The mapping is the `content` parameter.
- The `malloc` of the working buffer (src/bench_hash.c:222-227) is not modelled, and neither is the buffer's content. A strategy is a function of path and capacity.
- All `printf`/`fputc` output: the banners, labels, `%09zu` padding and the `*` characters. A rendered row keeps only x, seconds, nanoseconds and bar length.
- `hash.h` is not part of this model: `parse_hash`, the three `hash_of_file_*` strategies and `hash_as_cstr` are opaque parameters. Digests are compared with `==`, as `memcmp` compares them.
- `clock_gettime` becomes indexed readings. The model fixes which reading each measurement uses but not how readings relate in time, nor the range of `tv_nsec`.
- Reporter.BarCount: the source divides in doubles first and then multiplies, `t = (double) y / (double) max_y; floor(bar_len * t)`. That rounds twice, and the model takes the exact integer floor of 30·y / `max_y`. The two can differ by one when y is above about 2^48 ns. Reporter.BarAsWritten takes the same exact floor.
- Runner.ElapsedNsecs: the `time_t` arithmetic is taken as exact before the conversion to `size_t`. Signed overflow in the multiplication is not captured.
- Other `size_t` quantities (file sizes, `content_size`, offsets) are unbounded naturals. Nothing in the core wraps them for inputs that fit in memory.
- The stb_ds dynamic arrays and hash map become sequences. `hmgeti` is a linear search, whose result is the same because keys are unique.
- `arrsetlen(report, 0)` becomes a fresh empty record list per strategy.
- The record of an entry whose digest mismatches is appended just before `exit(1)` (src/bench_hash.c:274-283). The model returns the error without it, since nothing reads that record afterwards.
- The `offsetof` field selectors become the typed selectors `FileSizeOf` and `BufferCapOf`.

## Findings

| source | as written | input that shows it | evidently intended | confidence | as-written member | corrected member |
|---|---|---|---|---|---|---|
| src/bench_hash.c:173-174 | the bar is `t = (double) y / (double) max_y; (size_t) floor(bar_len * t)` with no guard, so when every point of a bucket took 0 ns it converts `0.0/0.0` (NaN) to `size_t`, which is undefined behaviour | a bucket whose points all have `elapsed_nsecs` = 0, e.g. one point `(1024, 0)` on a coarse clock | a bar of length 0 for such points | not executed | Reporter.BarAsWritten, Reporter.ZeroBucketUndefined | Reporter.BarCount, Reporter.BarBounds |
