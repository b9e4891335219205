/**
 * The aggregator: groups benchmark records into buckets by a key field, each
 * bucket an ordered list of (x, elapsed) points, buckets in first-seen key order.
 */
module Aggregator {

  /** `Bench_Result`: one timed, verified measurement. */
  datatype BenchResult = BenchResult(bufferCap: nat, fileSize: nat, elapsedNsecs: nat)

  /** `Bench_Data_Point` */
  datatype Point = Point(x: nat, y: nat)

  /** `Bench_Aggregation`: one bucket of the table. */
  datatype Aggregation = Aggregation(key: nat, points: seq<Point>)

  /** The two selectors main uses in place of `offsetof(Bench_Result, ...)`. */
  function FileSizeOf(r: BenchResult): nat { r.fileSize }
  function BufferCapOf(r: BenchResult): nat { r.bufferCap }

  /** The point a record contributes: x by the selector, y its elapsed time. */
  function PointOf(r: BenchResult, xOf: BenchResult -> nat): Point {
    Point(xOf(r), r.elapsedNsecs)
  }

  /** Some bucket of the table has key `k` (what `hmgeti` looks for). */
  predicate HasKey(aggs: seq<Aggregation>, k: nat) {
    exists i :: 0 <= i < |aggs| && aggs[i].key == k
  }

  /** No two buckets share a key. */
  predicate DistinctKeys(aggs: seq<Aggregation>) {
    forall i, j :: 0 <= i < j < |aggs| ==> aggs[i].key != aggs[j].key
  }

  /** Some record has key `k`. */
  predicate Carries(report: seq<BenchResult>, keyOf: BenchResult -> nat, k: nat) {
    exists i :: 0 <= i < |report| && keyOf(report[i]) == k
  }

  /** Position of the first record with key `k` (|report| when there is none). */
  function FirstIndex(report: seq<BenchResult>, keyOf: BenchResult -> nat, k: nat): nat
    decreases |report|
  {
    if report == [] then 0 else if keyOf(report[0]) == k then 0 else 1 + FirstIndex(report[1..], keyOf, k)
  }

  /** Number of points over all buckets. */
  function TotalPoints(aggs: seq<Aggregation>): nat {
    if aggs == [] then 0 else |aggs[0].points| + TotalPoints(aggs[1..])
  }

  /** The points of the records with key `k`, in record order. */
  function PointsWithKey(report: seq<BenchResult>, keyOf: BenchResult -> nat, xOf: BenchResult -> nat, k: nat): seq<Point>
    decreases |report|
  {
    if report == [] then []
    else
      var n := |report| - 1;
      PointsWithKey(report[..n], keyOf, xOf, k) + (if keyOf(report[n]) == k then [PointOf(report[n], xOf)] else [])
  }

  lemma HasKeyTail(aggs: seq<Aggregation>, key: nat)
    requires aggs != [] && aggs[0].key != key
    ensures HasKey(aggs, key) <==> HasKey(aggs[1..], key)
    ensures DistinctKeys(aggs) ==> DistinctKeys(aggs[1..])
  {
    if HasKey(aggs, key) {
      var i :| 0 <= i < |aggs| && aggs[i].key == key;
      assert aggs[1..][i - 1] == aggs[i];
    }
    if HasKey(aggs[1..], key) {
      var i :| 0 <= i < |aggs[1..]| && aggs[1..][i].key == key;
      assert aggs[i + 1] == aggs[1..][i];
    }
  }

  /**
   * One step of the loop: `hmgeti` for the key, then `arrput` onto the bucket
   * found or `hmputs` of a new one-point bucket at the end of the table.
   */
  function Put(aggs: seq<Aggregation>, key: nat, p: Point): (r: seq<Aggregation>)
    ensures |r| == if HasKey(aggs, key) then |aggs| else |aggs| + 1
    ensures !HasKey(aggs, key) ==> r[|aggs|] == Aggregation(key, [p])
    ensures TotalPoints(r) == TotalPoints(aggs) + 1
    decreases |aggs|
  {
    if aggs == [] then [Aggregation(key, [p])]
    else if aggs[0].key == key then
      var r := [aggs[0].(points := aggs[0].points + [p])] + aggs[1..];
      assert r[1..] == aggs[1..];
      r
    else
      HasKeyTail(aggs, key);
      var rest := Put(aggs[1..], key, p);
      var r := [aggs[0]] + rest;
      assert r[1..] == rest;
      r
  }

  /** `Put` changes no bucket's key and no bucket of another key. */
  lemma {:induction false} PutKeeps(aggs: seq<Aggregation>, key: nat, p: Point)
    ensures forall i :: 0 <= i < |aggs| ==> Put(aggs, key, p)[i].key == aggs[i].key
    ensures forall i :: 0 <= i < |aggs| && aggs[i].key != key ==> Put(aggs, key, p)[i] == aggs[i]
    decreases |aggs|
  {
    if aggs != [] && aggs[0].key != key {
      var rest := Put(aggs[1..], key, p);
      PutKeeps(aggs[1..], key, p);
      assert Put(aggs, key, p) == [aggs[0]] + rest;
      forall i | 0 < i < |aggs|
        ensures Put(aggs, key, p)[i] == rest[i - 1] && aggs[i] == aggs[1..][i - 1]
      {
      }
    }
  }

  /** The bucket table `aggregate` builds for `report`. */
  function Group(report: seq<BenchResult>, keyOf: BenchResult -> nat, xOf: BenchResult -> nat): (g: seq<Aggregation>)
    ensures |g| <= |report|
    ensures g == [] <==> report == []
    decreases |report|
  {
    if report == [] then []
    else
      var n := |report| - 1;
      Put(Group(report[..n], keyOf, xOf), keyOf(report[n]), PointOf(report[n], xOf))
  }

  lemma PutKeys(aggs: seq<Aggregation>, key: nat, p: Point)
    ensures forall k :: HasKey(Put(aggs, key, p), k) <==> HasKey(aggs, k) || k == key
  {
    forall k ensures HasKey(Put(aggs, key, p), k) <==> HasKey(aggs, k) || k == key {
      PutKeyOf(aggs, key, p, k);
    }
  }

  lemma PutKeyOf(aggs: seq<Aggregation>, key: nat, p: Point, k: nat)
    ensures HasKey(Put(aggs, key, p), k) <==> HasKey(aggs, k) || k == key
  {
    if HasKey(Put(aggs, key, p), k) {
      PutKeyFrom(aggs, key, p, k);
    }
    if HasKey(aggs, k) {
      PutKeyKept(aggs, key, p, k);
    }
    PutHasOwnKey(aggs, key, p);
  }

  lemma PutKeyFrom(aggs: seq<Aggregation>, key: nat, p: Point, k: nat)
    requires HasKey(Put(aggs, key, p), k)
    ensures HasKey(aggs, k) || k == key
  {
    PutKeeps(aggs, key, p);
    var r := Put(aggs, key, p);
    var i :| 0 <= i < |r| && r[i].key == k;
    if i < |aggs| {
      assert aggs[i].key == k;
    }
  }

  lemma PutKeyKept(aggs: seq<Aggregation>, key: nat, p: Point, k: nat)
    requires HasKey(aggs, k)
    ensures HasKey(Put(aggs, key, p), k)
  {
    PutKeeps(aggs, key, p);
    var r := Put(aggs, key, p);
    var i :| 0 <= i < |aggs| && aggs[i].key == k;
    assert r[i].key == k;
  }

  lemma PutHasOwnKey(aggs: seq<Aggregation>, key: nat, p: Point)
    ensures HasKey(Put(aggs, key, p), key)
  {
    PutKeeps(aggs, key, p);
    var r := Put(aggs, key, p);
    if HasKey(aggs, key) {
      var i :| 0 <= i < |aggs| && aggs[i].key == key;
      assert r[i].key == key;
    } else {
      assert r[|aggs|].key == key;
    }
  }

  lemma PutDistinct(aggs: seq<Aggregation>, key: nat, p: Point)
    requires DistinctKeys(aggs)
    ensures DistinctKeys(Put(aggs, key, p))
  {
    PutKeeps(aggs, key, p);
    var r := Put(aggs, key, p);
    if HasKey(aggs, key) {
      assert forall i :: 0 <= i < |r| ==> r[i].key == aggs[i].key;
    } else {
      PutAbsent(aggs, key, p);
      assert forall i :: 0 <= i < |aggs| ==> aggs[i].key != key;
    }
  }

  /** With distinct keys, the point goes onto the one bucket that has its key. */
  lemma PutOnto(aggs: seq<Aggregation>, key: nat, p: Point, i: nat)
    requires DistinctKeys(aggs) && i < |aggs| && aggs[i].key == key
    ensures Put(aggs, key, p)[i].points == aggs[i].points + [p]
  {
    PutAt(aggs, i, key, p);
  }

  lemma CarriesSnoc(report: seq<BenchResult>, keyOf: BenchResult -> nat)
    requires report != []
    ensures forall k :: Carries(report, keyOf, k) <==>
                          Carries(report[..|report| - 1], keyOf, k) || keyOf(report[|report| - 1]) == k
  {
    var n := |report| - 1;
    forall k ensures Carries(report, keyOf, k) ==> Carries(report[..n], keyOf, k) || keyOf(report[n]) == k {
      if Carries(report, keyOf, k) {
        var i :| 0 <= i < |report| && keyOf(report[i]) == k;
        if i < n { assert report[..n][i] == report[i]; }
      }
    }
    forall k ensures Carries(report[..n], keyOf, k) ==> Carries(report, keyOf, k) {
      if Carries(report[..n], keyOf, k) {
        var i :| 0 <= i < n && keyOf(report[..n][i]) == k;
        assert report[i] == report[..n][i];
      }
    }
  }

  /**
   * The table has one bucket per distinct key of the records and no other:
   * keys are pairwise distinct, and a key has a bucket exactly when some
   * record carries it.
   */
  lemma {:induction false} GroupKeys(report: seq<BenchResult>, keyOf: BenchResult -> nat, xOf: BenchResult -> nat)
    ensures DistinctKeys(Group(report, keyOf, xOf))
    ensures forall k :: HasKey(Group(report, keyOf, xOf), k) <==> Carries(report, keyOf, k)
    decreases |report|
  {
    if report != [] {
      var n := |report| - 1;
      GroupKeys(report[..n], keyOf, xOf);
      PutKeys(Group(report[..n], keyOf, xOf), keyOf(report[n]), PointOf(report[n], xOf));
      PutDistinct(Group(report[..n], keyOf, xOf), keyOf(report[n]), PointOf(report[n], xOf));
      CarriesSnoc(report, keyOf);
    }
  }

  lemma {:induction false} FirstIndexSnoc(report: seq<BenchResult>, keyOf: BenchResult -> nat, k: nat)
    requires report != []
    ensures var n := |report| - 1;
            Carries(report[..n], keyOf, k) ==> FirstIndex(report, keyOf, k) == FirstIndex(report[..n], keyOf, k) < n
    ensures var n := |report| - 1;
            !Carries(report[..n], keyOf, k) && keyOf(report[n]) == k ==> FirstIndex(report, keyOf, k) == n
    decreases |report|
  {
    var n := |report| - 1;
    var pre := report[..n];
    if n == 0 {
      assert !Carries(pre, keyOf, k);
    } else if keyOf(report[0]) == k {
      assert pre[0] == report[0];
      assert Carries(pre, keyOf, k);
    } else {
      var tail := report[1..];
      FirstIndexSnoc(tail, keyOf, k);
      assert tail[..n - 1] == pre[1..];
      assert pre[0] == report[0];
      assert tail[n - 1] == report[n];
      if Carries(pre, keyOf, k) {
        var i :| 0 <= i < n && keyOf(pre[i]) == k;
        assert pre[1..][i - 1] == pre[i];
        assert Carries(pre[1..], keyOf, k);
      }
      if Carries(pre[1..], keyOf, k) {
        var i :| 0 <= i < n - 1 && keyOf(pre[1..][i]) == k;
        assert pre[i + 1] == pre[1..][i];
        assert Carries(pre, keyOf, k);
      }
    }
  }

  /** Buckets come out in the order in which their keys are first seen among the records. */
  lemma {:induction false} GroupOrder(report: seq<BenchResult>, keyOf: BenchResult -> nat, xOf: BenchResult -> nat)
    ensures forall i, j :: 0 <= i < j < |Group(report, keyOf, xOf)| ==>
              FirstIndex(report, keyOf, Group(report, keyOf, xOf)[i].key) <
              FirstIndex(report, keyOf, Group(report, keyOf, xOf)[j].key)
    decreases |report|
  {
    if report != [] {
      var n := |report| - 1;
      var pre := report[..n];
      var g0 := Group(pre, keyOf, xOf);
      var g := Group(report, keyOf, xOf);
      var k := keyOf(report[n]);
      GroupOrder(pre, keyOf, xOf);
      GroupKeys(pre, keyOf, xOf);
      PutKeeps(g0, k, PointOf(report[n], xOf));
      forall i | 0 <= i < |g0|
        ensures FirstIndex(report, keyOf, g[i].key) == FirstIndex(pre, keyOf, g0[i].key) < n
      {
        assert HasKey(g0, g0[i].key);
        FirstIndexSnoc(report, keyOf, g0[i].key);
      }
      if !HasKey(g0, k) {
        FirstIndexSnoc(report, keyOf, k);
        assert g[|g0|].key == k;
      }
      forall i, j | 0 <= i < j < |g|
        ensures FirstIndex(report, keyOf, g[i].key) < FirstIndex(report, keyOf, g[j].key)
      {
        if j < |g0| {
          assert g[i].key == g0[i].key && g[j].key == g0[j].key;
        } else {
          assert FirstIndex(report, keyOf, g[j].key) == n;
          assert FirstIndex(report, keyOf, g[i].key) < n;
        }
      }
    }
  }

  lemma {:induction false} PointsWithKeyAbsent(report: seq<BenchResult>, keyOf: BenchResult -> nat, xOf: BenchResult -> nat, k: nat)
    requires !Carries(report, keyOf, k)
    ensures PointsWithKey(report, keyOf, xOf, k) == []
    decreases |report|
  {
    if report != [] {
      CarriesSnoc(report, keyOf);
      PointsWithKeyAbsent(report[..|report| - 1], keyOf, xOf, k);
    }
  }

  /**
   * Each bucket holds exactly the points of the records with its key, in
   * record order: nothing is dropped and nothing is deduplicated.
   */
  lemma {:induction false} GroupPoints(report: seq<BenchResult>, keyOf: BenchResult -> nat, xOf: BenchResult -> nat)
    ensures forall i :: 0 <= i < |Group(report, keyOf, xOf)| ==>
              Group(report, keyOf, xOf)[i].points == PointsWithKey(report, keyOf, xOf, Group(report, keyOf, xOf)[i].key)
    decreases |report|
  {
    if report != [] {
      var n := |report| - 1;
      GroupPoints(report[..n], keyOf, xOf);
      GroupKeys(report[..n], keyOf, xOf);
      forall i | 0 <= i < |Group(report, keyOf, xOf)|
        ensures Group(report, keyOf, xOf)[i].points == PointsWithKey(report, keyOf, xOf, Group(report, keyOf, xOf)[i].key)
      {
        GroupPointsAt(report, keyOf, xOf, i);
      }
    }
  }

  /** The step of `GroupPoints` for bucket i, from what holds for the records before the last. */
  lemma GroupPointsAt(report: seq<BenchResult>, keyOf: BenchResult -> nat, xOf: BenchResult -> nat, i: nat)
    requires report != []
    requires var g0 := Group(report[..|report| - 1], keyOf, xOf);
             && DistinctKeys(g0)
             && (forall k :: HasKey(g0, k) <==> Carries(report[..|report| - 1], keyOf, k))
             && (forall j :: 0 <= j < |g0| ==> g0[j].points == PointsWithKey(report[..|report| - 1], keyOf, xOf, g0[j].key))
    requires i < |Group(report, keyOf, xOf)|
    ensures Group(report, keyOf, xOf)[i].points == PointsWithKey(report, keyOf, xOf, Group(report, keyOf, xOf)[i].key)
  {
    var n := |report| - 1;
    var pre := report[..n];
    var g0 := Group(pre, keyOf, xOf);
    var k := keyOf(report[n]);
    var p := PointOf(report[n], xOf);
    var g := Group(report, keyOf, xOf);
    assert g == Put(g0, k, p);
    PutKeeps(g0, k, p);
    var key := g[i].key;
    assert PointsWithKey(report, keyOf, xOf, key) ==
           PointsWithKey(pre, keyOf, xOf, key) + (if k == key then [p] else []);
    if i < |g0| {
      assert key == g0[i].key;
      if key == k {
        PutOnto(g0, k, p, i);
        assert g[i].points == g0[i].points + [p];
      } else {
        assert g[i] == g0[i];
      }
    } else {
      assert !HasKey(g0, k) && i == |g0|;
      assert g[i] == Aggregation(k, [p]);
      PointsWithKeyAbsent(pre, keyOf, xOf, k);
      assert PointsWithKey(report, keyOf, xOf, key) == [] + [p];
    }
  }

  /** The table holds as many points as there are records. */
  lemma {:induction false} GroupTotal(report: seq<BenchResult>, keyOf: BenchResult -> nat, xOf: BenchResult -> nat)
    ensures TotalPoints(Group(report, keyOf, xOf)) == |report|
    decreases |report|
  {
    if report != [] {
      GroupTotal(report[..|report| - 1], keyOf, xOf);
    }
  }

  /** The set of keys the records carry. */
  function KeySet(report: seq<BenchResult>, keyOf: BenchResult -> nat): set<nat> {
    set i | 0 <= i < |report| :: keyOf(report[i])
  }

  /** K distinct keys among the records give exactly K buckets. */
  lemma {:induction false} GroupCount(report: seq<BenchResult>, keyOf: BenchResult -> nat, xOf: BenchResult -> nat)
    ensures |Group(report, keyOf, xOf)| == |KeySet(report, keyOf)|
    decreases |report|
  {
    if report == [] {
      assert KeySet(report, keyOf) == {};
    } else {
      var n := |report| - 1;
      var pre := report[..n];
      var k := keyOf(report[n]);
      GroupCount(pre, keyOf, xOf);
      GroupKeys(pre, keyOf, xOf);
      KeySetSnoc(report, keyOf);
      KeySetCarries(pre, keyOf, k);
    }
  }

  lemma KeySetCarries(report: seq<BenchResult>, keyOf: BenchResult -> nat, k: nat)
    ensures k in KeySet(report, keyOf) <==> Carries(report, keyOf, k)
  {
    if Carries(report, keyOf, k) {
      var i :| 0 <= i < |report| && keyOf(report[i]) == k;
    }
  }

  lemma KeySetSnoc(report: seq<BenchResult>, keyOf: BenchResult -> nat)
    requires report != []
    ensures KeySet(report, keyOf) == KeySet(report[..|report| - 1], keyOf) + {keyOf(report[|report| - 1])}
  {
    var n := |report| - 1;
    forall x ensures x in KeySet(report, keyOf) <==> x in KeySet(report[..n], keyOf) || x == keyOf(report[n]) {
      KeySetCarries(report, keyOf, x);
      KeySetCarries(report[..n], keyOf, x);
      CarriesSnoc(report, keyOf);
    }
  }

  lemma {:induction false} PointsWithKeyAll(report: seq<BenchResult>, keyOf: BenchResult -> nat, xOf: BenchResult -> nat, k: nat)
    requires forall i :: 0 <= i < |report| ==> keyOf(report[i]) == k
    ensures PointsWithKey(report, keyOf, xOf, k) ==
            seq(|report|, i requires 0 <= i < |report| => PointOf(report[i], xOf))
    decreases |report|
  {
    if report != [] {
      var n := |report| - 1;
      PointsWithKeyAll(report[..n], keyOf, xOf, k);
    }
  }

  /** Records that all carry key `k` give a table whose only key is `k`. */
  lemma SingleKeyTable(report: seq<BenchResult>, keyOf: BenchResult -> nat, xOf: BenchResult -> nat, k: nat)
    requires report != []
    requires forall i :: 0 <= i < |report| ==> keyOf(report[i]) == k
    ensures |Group(report, keyOf, xOf)| == 1 && Group(report, keyOf, xOf)[0].key == k
  {
    var g := Group(report, keyOf, xOf);
    GroupKeys(report, keyOf, xOf);
    assert keyOf(report[0]) == k;
    assert HasKey(g, k);
    forall i | 0 <= i < |g| ensures g[i].key == k {
      assert HasKey(g, g[i].key);
    }
  }

  /** N records sharing one key give one bucket of N points, in input order. */
  lemma SingleKey(report: seq<BenchResult>, keyOf: BenchResult -> nat, xOf: BenchResult -> nat, k: nat)
    requires report != []
    requires forall i :: 0 <= i < |report| ==> keyOf(report[i]) == k
    ensures Group(report, keyOf, xOf) ==
            [Aggregation(k, seq(|report|, i requires 0 <= i < |report| => PointOf(report[i], xOf)))]
  {
    var g := Group(report, keyOf, xOf);
    SingleKeyTable(report, keyOf, xOf, k);
    GroupPoints(report, keyOf, xOf);
    PointsWithKeyAll(report, keyOf, xOf, k);
    assert g[0].points == PointsWithKey(report, keyOf, xOf, k);
  }

  /**
   * Four records, two file sizes by two capacities in capacity-major order,
   * grouped by file size: two buckets, each with its two capacities in order.
   */
  lemma {:induction false} GroupTwoByTwo(rs: seq<BenchResult>, size0: nat, size1: nat, cap0: nat, cap1: nat)
    requires |rs| == 4 && size0 != size1
    requires rs[0].fileSize == rs[2].fileSize == size0 && rs[1].fileSize == rs[3].fileSize == size1
    requires rs[0].bufferCap == rs[1].bufferCap == cap0 && rs[2].bufferCap == rs[3].bufferCap == cap1
    ensures Group(rs, FileSizeOf, BufferCapOf) ==
            [ Aggregation(size0, [Point(cap0, rs[0].elapsedNsecs), Point(cap1, rs[2].elapsedNsecs)]),
              Aggregation(size1, [Point(cap0, rs[1].elapsedNsecs), Point(cap1, rs[3].elapsedNsecs)]) ]
  {
    GroupFirstTwo(rs, size0, size1);
    GroupThird(rs, size0, size1);
    GroupFourth(rs, size0, size1);
    assert rs[..4] == rs;
  }

  /** The third record, of the first key, joins the first bucket. */
  lemma GroupThird(rs: seq<BenchResult>, size0: nat, size1: nat)
    requires |rs| >= 3 && size0 != size1 && rs[2].fileSize == size0
    requires Group(rs[..2], FileSizeOf, BufferCapOf) ==
             [Aggregation(size0, [PointOf(rs[0], BufferCapOf)]), Aggregation(size1, [PointOf(rs[1], BufferCapOf)])]
    ensures Group(rs[..3], FileSizeOf, BufferCapOf) ==
            [ Aggregation(size0, [PointOf(rs[0], BufferCapOf), PointOf(rs[2], BufferCapOf)]),
              Aggregation(size1, [PointOf(rs[1], BufferCapOf)]) ]
  {
    var g2 := Group(rs[..2], FileSizeOf, BufferCapOf);
    var p0, p2 := PointOf(rs[0], BufferCapOf), PointOf(rs[2], BufferCapOf);
    GroupSnoc(rs, FileSizeOf, BufferCapOf, 2);
    PutAt(g2, 0, size0, p2);
    var g3 := Put(g2, size0, p2);
    assert g3[0] == Aggregation(size0, [p0, p2]) by {
      assert [p0] + [p2] == [p0, p2];
    }
    assert |g3| == 2 && g3[1] == g2[1];
  }

  /** The fourth record, of the second key, joins the second bucket. */
  lemma GroupFourth(rs: seq<BenchResult>, size0: nat, size1: nat)
    requires |rs| >= 4 && size0 != size1 && rs[3].fileSize == size1
    requires Group(rs[..3], FileSizeOf, BufferCapOf) ==
             [ Aggregation(size0, [PointOf(rs[0], BufferCapOf), PointOf(rs[2], BufferCapOf)]),
               Aggregation(size1, [PointOf(rs[1], BufferCapOf)]) ]
    ensures Group(rs[..4], FileSizeOf, BufferCapOf) ==
            [ Aggregation(size0, [PointOf(rs[0], BufferCapOf), PointOf(rs[2], BufferCapOf)]),
              Aggregation(size1, [PointOf(rs[1], BufferCapOf), PointOf(rs[3], BufferCapOf)]) ]
  {
    var g3 := Group(rs[..3], FileSizeOf, BufferCapOf);
    var p1, p3 := PointOf(rs[1], BufferCapOf), PointOf(rs[3], BufferCapOf);
    GroupSnoc(rs, FileSizeOf, BufferCapOf, 3);
    PutAt(g3, 1, size1, p3);
    var g4 := Put(g3, size1, p3);
    assert g4[1] == Aggregation(size1, [p1, p3]) by {
      assert [p1] + [p3] == [p1, p3];
    }
    assert |g4| == 2 && g4[0] == g3[0];
  }

  /** The first two records of distinct keys open one bucket each. */
  lemma GroupFirstTwo(rs: seq<BenchResult>, size0: nat, size1: nat)
    requires |rs| >= 2 && size0 != size1 && rs[0].fileSize == size0 && rs[1].fileSize == size1
    ensures Group(rs[..2], FileSizeOf, BufferCapOf) ==
            [Aggregation(size0, [PointOf(rs[0], BufferCapOf)]), Aggregation(size1, [PointOf(rs[1], BufferCapOf)])]
  {
    var g1 := [Aggregation(size0, [PointOf(rs[0], BufferCapOf)])];
    assert rs[..0] == [];
    GroupSnoc(rs, FileSizeOf, BufferCapOf, 0);
    PutAbsent([], size0, PointOf(rs[0], BufferCapOf));
    GroupSnoc(rs, FileSizeOf, BufferCapOf, 1);
    PutAbsent(g1, size1, PointOf(rs[1], BufferCapOf));
  }

  /** `aggregate` takes the records one at a time: the table for m + 1 records puts the m-th into the table for m. */
  lemma GroupSnoc(rs: seq<BenchResult>, keyOf: BenchResult -> nat, xOf: BenchResult -> nat, m: nat)
    requires m < |rs|
    ensures Group(rs[..m + 1], keyOf, xOf) == Put(Group(rs[..m], keyOf, xOf), keyOf(rs[m]), PointOf(rs[m], xOf))
  {
    assert rs[..m + 1][..m] == rs[..m];
  }

  /** `hmgeti`: the position of the first bucket with `key`, or -1. */
  method FindKey(aggs: seq<Aggregation>, key: nat) returns (index: int)
    ensures -1 <= index < |aggs|
    ensures index == -1 <==> !HasKey(aggs, key)
    ensures index >= 0 ==> aggs[index].key == key && forall j :: 0 <= j < index ==> aggs[j].key != key
  {
    index := 0;
    while index < |aggs|
      invariant 0 <= index <= |aggs|
      invariant forall j :: 0 <= j < index ==> aggs[j].key != key
    {
      if aggs[index].key == key {
        return;
      }
      index := index + 1;
    }
    index := -1;
  }

  lemma {:induction false} PutAt(aggs: seq<Aggregation>, index: nat, key: nat, p: Point)
    requires index < |aggs| && aggs[index].key == key
    requires forall j :: 0 <= j < index ==> aggs[j].key != key
    ensures Put(aggs, key, p) == aggs[index := aggs[index].(points := aggs[index].points + [p])]
    decreases |aggs|
  {
    if index > 0 {
      PutAt(aggs[1..], index - 1, key, p);
    }
  }

  lemma PutAbsent(aggs: seq<Aggregation>, key: nat, p: Point)
    requires !HasKey(aggs, key)
    ensures Put(aggs, key, p) == aggs + [Aggregation(key, [p])]
  {
  }

  /** `aggregate`: one pass over the records, building the bucket table. */
  method Aggregate(report: seq<BenchResult>, keyOf: BenchResult -> nat, xOf: BenchResult -> nat)
    returns (result: seq<Aggregation>)
    ensures result == Group(report, keyOf, xOf)
  {
    result := [];
    for i := 0 to |report|
      invariant result == Group(report[..i], keyOf, xOf)
    {
      var key := keyOf(report[i]);
      var point := Point(xOf(report[i]), report[i].elapsedNsecs);
      assert report[..i + 1][..i] == report[..i];
      var index := FindKey(result, key);
      if index >= 0 {
        PutAt(result, index, key, point);
        result := result[index := result[index].(points := result[index].points + [point])];
      } else {
        PutAbsent(result, key, point);
        result := result + [Aggregation(key, [point])];
      }
    }
    assert report[..|report|] == report;
  }
}
