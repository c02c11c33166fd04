/**
 * The run scanner shared by getFontSizeRuns (code.js:148-167) and
 * getLineHeightRuns (code.js:206-225): consecutive offsets whose attribute
 * compares equal to the run's first value are grouped into one half-open
 * range `[start, end)`.
 */
module Runs {

  datatype Run<T> = Run(start: nat, end: nat, value: T)

  /** `runs` are non-empty, contiguous ranges covering exactly `[from, to)`. */
  ghost predicate Tiles<T>(runs: seq<Run<T>>, from: nat, to: nat) {
    && (|runs| == 0 ==> from == to)
    && (|runs| > 0 ==> runs[0].start == from && runs[|runs| - 1].end == to)
    && (forall j :: 0 <= j < |runs| ==> from <= runs[j].start < runs[j].end <= to)
    && (forall j :: 0 <= j < |runs| - 1 ==> runs[j].end == runs[j + 1].start)
    && (forall i, j :: 0 <= i < j < |runs| ==> runs[i].end <= runs[j].start)
  }

  /** Every run starts at an offset holding its value, every later offset of
      the run compares equal to it, and the next run starts at an offset
      that does not (maximal merging). */
  ghost predicate Maximal<T>(runs: seq<Run<T>>, vals: seq<T>, eq: (T, T) -> bool) {
    && (forall j :: 0 <= j < |runs| ==> runs[j].start < |vals| && runs[j].value == vals[runs[j].start])
    && (forall j, k :: 0 <= j < |runs| && runs[j].start < k < runs[j].end && k < |vals| ==>
          eq(vals[k], runs[j].value))
    && (forall j :: 0 <= j < |runs| - 1 && runs[j + 1].start < |vals| ==>
          !eq(vals[runs[j + 1].start], runs[j].value))
  }

  /** The scanning loop: a run with value `runValue` is open from
      `runStart`, and offsets before `i` have been compared. */
  function ScanFrom<T>(vals: seq<T>, eq: (T, T) -> bool, runStart: nat, runValue: T, i: nat)
    : (runs: seq<Run<T>>)
    requires runStart < i <= |vals|
    requires vals[runStart] == runValue
    requires forall k :: runStart < k < i ==> eq(vals[k], runValue)
    ensures Tiles(runs, runStart, |vals|)
    ensures Maximal(runs, vals, eq)
    ensures runs[0].end >= i
    decreases |vals| - i
  {
    if i == |vals| then
      [Run(runStart, |vals|, runValue)]
    else if !eq(vals[i], runValue) then
      var rest := ScanFrom(vals, eq, i, vals[i], i + 1);
      PrependTiles(Run(runStart, i, runValue), rest, |vals|);
      PrependMaximal(Run(runStart, i, runValue), rest, vals, eq);
      [Run(runStart, i, runValue)] + rest
    else
      ScanFrom(vals, eq, runStart, runValue, i + 1)
  }

  /** Dropping the first run leaves a tiling of the rest of the range. */
  lemma TilesTail<T>(runs: seq<Run<T>>, from: nat, to: nat)
    requires |runs| > 0 && Tiles(runs, from, to)
    ensures Tiles(runs[1..], runs[0].end, to)
  {
    assert forall j :: 1 <= j < |runs| ==> runs[j] == runs[1..][j - 1];
  }

  /** A run ending where a tiling starts, put in front of it, tiles the
      larger range. */
  lemma PrependTiles<T>(r: Run<T>, rest: seq<Run<T>>, to: nat)
    requires r.start < r.end
    requires |rest| > 0 && Tiles(rest, r.end, to)
    ensures Tiles([r] + rest, r.start, to)
  {
    var runs := [r] + rest;
    assert forall j :: 1 <= j < |runs| ==> runs[j] == rest[j - 1];
  }

  /** A closed run followed by the runs after it is still maximal. */
  lemma PrependMaximal<T>(r: Run<T>, rest: seq<Run<T>>, vals: seq<T>, eq: (T, T) -> bool)
    requires r.start < r.end <= |vals|
    requires r.value == vals[r.start]
    requires forall k :: r.start < k < r.end ==> eq(vals[k], r.value)
    requires |rest| > 0 && rest[0].start == r.end && Maximal(rest, vals, eq)
    requires !eq(vals[rest[0].start], r.value)
    ensures Maximal([r] + rest, vals, eq)
  {
    var runs := [r] + rest;
    assert forall j :: 1 <= j < |runs| ==> runs[j] == rest[j - 1];
  }


  /** The runs of `vals`: none for an empty buffer. */
  function ScanRuns<T>(vals: seq<T>, eq: (T, T) -> bool): (runs: seq<Run<T>>)
    ensures |runs| == 0 <==> |vals| == 0
    ensures Tiles(runs, 0, |vals|)
    ensures Maximal(runs, vals, eq)
  {
    if |vals| == 0 then [] else ScanFrom(vals, eq, 0, vals[0], 1)
  }

  /** Every offset of a tiled range lies in exactly one run. */
  lemma {:induction false} TilesCover<T>(runs: seq<Run<T>>, from: nat, to: nat, k: nat)
    returns (j: nat)
    requires Tiles(runs, from, to)
    requires from <= k < to
    ensures j < |runs| && runs[j].start <= k < runs[j].end
    ensures forall j' :: 0 <= j' < |runs| && runs[j'].start <= k < runs[j'].end ==> j' == j
    decreases |runs|
  {
    if k < runs[0].end {
      j := 0;
    } else {
      var rest := runs[1..];
      assert forall j :: 1 <= j < |runs| ==> runs[j] == rest[j - 1];
      assert Tiles(rest, runs[0].end, to);
      var j0 := TilesCover(rest, runs[0].end, to, k);
      j := j0 + 1;
    }
  }
}
