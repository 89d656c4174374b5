/** The comparison handler: resolves two version labels to their latest
    uploads, parses both result files and joins them on test case into a
    table of values, deltas and percent changes plus two chart series. */
module Comparator {
  import opened Wrappers
  import opened Text
  import opened CsvIngest
  import opened VersionLog

  /** One row of the comparison table; an absent field is JSON `null`. */
  datatype ComparisonRow = ComparisonRow(testCase: string, v1: Option<real>, v2: Option<real>,
                                         delta: Option<real>, pctChange: Option<real>)

  /** One chart series (`label` and `data` in the JSON): the version label and one value per chart label. */
  datatype Dataset = Dataset(version: string, data: seq<real>)

  /** The JSON body of a successful comparison: the table and the chart. */
  datatype Comparison = Comparison(table: seq<ComparisonRow>, labels: seq<string>, datasets: seq<Dataset>)

  /** Why a comparison has no result: a label missing from the query (400), a
      label with no upload (404), or a logged file that is missing from the
      data directory or cannot be read (an uncaught exception, 500). */
  datatype CompareError = MissingParameters | VersionNotFound | ArtifactMissing(filename: string)
                        | ArtifactUnreadable(filename: string)

  /** `p.get(k)`. */
  function Get(p: ResultSet, k: string): Option<real>
  {
    if k in p then Some(p[k]) else None
  }

  /** The value charted for `k`: the parsed value, or 0 where the key is absent. */
  function Plotted(p: ResultSet, k: string): real
  {
    if k in p then p[k] else 0.0
  }

  /** What a table row for key `k` must hold: both looked-up values; a delta
      exactly when both are present; a percent change exactly when there is a
      delta and the first value is not zero. */
  ghost predicate RowFor(row: ComparisonRow, k: string, p1: ResultSet, p2: ResultSet)
  {
    && row.testCase == k
    && row.v1 == Get(p1, k)
    && row.v2 == Get(p2, k)
    && (row.delta.Some? <==> k in p1 && k in p2)
    && (row.delta.Some? ==> row.delta.value == p2[k] - p1[k])
    && (row.pctChange.Some? <==> row.delta.Some? && p1[k] != 0.0)
    && (row.pctChange.Some? ==> row.pctChange.value == row.delta.value / p1[k] * 100.0)
  }

  /** `c` is the comparison of `p1` (labelled `l1`) with `p2` (labelled `l2`):
      the chart labels are the union of both key sets in ascending order
      without repetition, the table has one row per label in the same order,
      and each series has one value per label. */
  ghost predicate Describes(c: Comparison, p1: ResultSet, p2: ResultSet, l1: string, l2: string)
  {
    && StrictlySorted(c.labels)
    && (forall k :: k in c.labels <==> k in p1 || k in p2)
    && |c.table| == |c.labels|
    && (forall i :: 0 <= i < |c.table| ==> RowFor(c.table[i], c.labels[i], p1, p2))
    && |c.datasets| == 2
    && c.datasets[0].version == l1 && c.datasets[1].version == l2
    && |c.datasets[0].data| == |c.labels| && |c.datasets[1].data| == |c.labels|
    && (forall i :: 0 <= i < |c.labels| ==> c.datasets[0].data[i] == Plotted(p1, c.labels[i]))
    && (forall i :: 0 <= i < |c.labels| ==> c.datasets[1].data[i] == Plotted(p2, c.labels[i]))
  }

  /** The join of `compare`: walks the sorted keys and appends to the table,
      the labels and the two series. */
  method BuildComparison(p1: ResultSet, p2: ResultSet, l1: string, l2: string) returns (c: Comparison)
    ensures Describes(c, p1, p2, l1, l2)
  {
    var keys := SortedKeys(p1.Keys + p2.Keys);
    var table: seq<ComparisonRow> := [];
    var labels: seq<string> := [];
    var data1: seq<real> := [];
    var data2: seq<real> := [];
    var i := 0;
    while i < |keys|
      invariant 0 <= i <= |keys|
      invariant labels == keys[..i]
      invariant |table| == i && |data1| == i && |data2| == i
      invariant forall j :: 0 <= j < i ==> RowFor(table[j], keys[j], p1, p2)
      invariant forall j :: 0 <= j < i ==> data1[j] == Plotted(p1, keys[j]) && data2[j] == Plotted(p2, keys[j])
    {
      var k := keys[i];
      var val1 := Get(p1, k);
      var val2 := Get(p2, k);
      var delta: Option<real> := None;
      var pct: Option<real> := None;
      if val1.Some? && val2.Some? {
        delta := Some(val2.value - val1.value);
        pct := if val1.value != 0.0 then Some(delta.value / val1.value * 100.0) else None;
      }
      var row := ComparisonRow(k, val1, val2, delta, pct);
      assert RowFor(row, k, p1, p2);
      table := table + [row];
      labels := labels + [k];
      data1 := data1 + [if val1.Some? then val1.value else 0.0];
      data2 := data2 + [if val2.Some? then val2.value else 0.0];
      i := i + 1;
    }
    assert labels == keys;
    c := Comparison(table, labels, [Dataset(l1, data1), Dataset(l2, data2)]);
  }

  /** `if not f1 or not f2`: a lookup succeeds only with a non-empty filename. */
  predicate Resolved(f: Option<string>)
  {
    f.Some? && f.value != ""
  }

  /** The comparison handler over the loaded log and the data directory. */
  method Compare(log: seq<UploadRecord>, dataDir: map<string, StoredFile>, v1: Option<string>, v2: Option<string>, coerce: Coerce)
    returns (r: Result<Comparison, CompareError>)
    ensures v1.None? || v1.value == "" || v2.None? || v2.value == "" ==> r == Failure(MissingParameters)
    ensures v1.Some? && v1.value != "" && v2.Some? && v2.value != "" ==>
              var f1 := Latest(log, v1.value);
              var f2 := Latest(log, v2.value);
              if !Resolved(f1) || !Resolved(f2) then r == Failure(VersionNotFound)
              else if f1.value !in dataDir then r == Failure(ArtifactMissing(f1.value))
              else if dataDir[f1.value].Unreadable? then r == Failure(ArtifactUnreadable(f1.value))
              else if f2.value !in dataDir then r == Failure(ArtifactMissing(f2.value))
              else if dataDir[f2.value].Unreadable? then r == Failure(ArtifactUnreadable(f2.value))
              else r.Success? &&
                   Describes(r.value, Parse(dataDir[f1.value].rows, coerce), Parse(dataDir[f2.value].rows, coerce),
                             v1.value, v2.value)
  {
    if v1.None? || v1.value == "" || v2.None? || v2.value == "" {
      return Failure(MissingParameters);
    }
    var f1 := FindFileForVersion(log, v1.value);
    var f2 := FindFileForVersion(log, v2.value);
    if !Resolved(f1) || !Resolved(f2) {
      return Failure(VersionNotFound);
    }
    if f1.value !in dataDir {
      return Failure(ArtifactMissing(f1.value));
    }
    if dataDir[f1.value].Unreadable? {
      return Failure(ArtifactUnreadable(f1.value));
    }
    var p1 := ParseCsv(dataDir[f1.value].rows, coerce);
    if f2.value !in dataDir {
      return Failure(ArtifactMissing(f2.value));
    }
    if dataDir[f2.value].Unreadable? {
      return Failure(ArtifactUnreadable(f2.value));
    }
    var p2 := ParseCsv(dataDir[f2.value].rows, coerce);
    var c := BuildComparison(p1, p2, v1.value, v2.value);
    return Success(c);
  }

  /** A row is determined by its key and the two result sets. */
  lemma RowDetermined(row: ComparisonRow, other: ComparisonRow, k: string, p1: ResultSet, p2: ResultSet)
    requires RowFor(row, k, p1, p2) && RowFor(other, k, p1, p2)
    ensures row == other
  {
  }

  /** The comparison is determined by the two result sets and the two labels. */
  lemma DescribesUnique(c: Comparison, d: Comparison, p1: ResultSet, p2: ResultSet, l1: string, l2: string)
    requires Describes(c, p1, p2, l1, l2) && Describes(d, p1, p2, l1, l2)
    ensures c == d
  {
    SortedListingUnique(c.labels, d.labels);
    forall i | 0 <= i < |c.table| ensures c.table[i] == d.table[i] {
      RowDetermined(c.table[i], d.table[i], c.labels[i], p1, p2);
    }
    assert c.datasets[0] == d.datasets[0];
    assert c.datasets[1] == d.datasets[1];
    assert c.datasets == d.datasets;
  }

  /** A test case present on one side only has no delta and no percent change,
      and its missing side is charted as 0. */
  lemma OneSidedKey(c: Comparison, p1: ResultSet, p2: ResultSet, l1: string, l2: string, i: nat)
    requires Describes(c, p1, p2, l1, l2) && i < |c.table|
    requires (c.labels[i] in p1) != (c.labels[i] in p2)
    ensures c.table[i].delta.None? && c.table[i].pctChange.None?
    ensures c.labels[i] !in p1 ==> c.table[i].v1.None? && c.datasets[0].data[i] == 0.0
    ensures c.labels[i] !in p2 ==> c.table[i].v2.None? && c.datasets[1].data[i] == 0.0
  {
  }

  /** Comparing under swapped labels keeps the labels, swaps the v1/v2 columns
      and the two series, negates every delta and keeps where deltas are
      absent; the percent change is then taken relative to the other side, so
      it is present where the other side's value is not zero. */
  lemma SwappedComparison(c: Comparison, d: Comparison, p1: ResultSet, p2: ResultSet, l1: string, l2: string)
    requires Describes(c, p1, p2, l1, l2) && Describes(d, p2, p1, l2, l1)
    ensures d.labels == c.labels && |d.table| == |c.table|
    ensures d.datasets == [c.datasets[1], c.datasets[0]]
    ensures forall i :: 0 <= i < |c.table| ==>
              && d.table[i].testCase == c.table[i].testCase
              && d.table[i].v1 == c.table[i].v2 && d.table[i].v2 == c.table[i].v1
              && (d.table[i].delta.Some? <==> c.table[i].delta.Some?)
              && (d.table[i].delta.Some? ==> d.table[i].delta.value == -c.table[i].delta.value)
              && (d.table[i].pctChange.Some? <==> c.table[i].delta.Some? && c.table[i].v2.value != 0.0)
  {
    assert forall k :: k in c.labels <==> k in d.labels;
    SortedListingUnique(c.labels, d.labels);
    assert d.datasets[0] == c.datasets[1];
    assert d.datasets[1] == c.datasets[0];
  }

  /** So the percent change is not symmetric: against a zero baseline it is
      absent one way round and present the other. */
  lemma PctChangeAsymmetric(c: Comparison, d: Comparison)
    requires Describes(c, map["a" := 0.0], map["a" := 1.0], "x", "y")
    requires Describes(d, map["a" := 1.0], map["a" := 0.0], "y", "x")
    ensures |c.table| == 1 && c.table[0].pctChange == None
    ensures |d.table| == 1 && d.table[0].pctChange == Some(-100.0)
  {
    assert "a" in c.labels && "a" in d.labels;
    SortedListingUnique(c.labels, ["a"]);
    SortedListingUnique(d.labels, ["a"]);
  }

  /** The comparison of those two files. The test checks only the values of
      A and C; the deltas and percent changes here are the exact ones over the
      reals (Python's floats give -0.19999999999999996 and -9.999999999999998 for B). */
  lemma ExampleComparison(c: Comparison)
    requires Describes(c, map["A" := 1.0, "B" := 2.0], map["A" := 1.5, "B" := 1.8, "C" := 3.0], "v1", "v2")
    ensures c.labels == ["A", "B", "C"]
    ensures c.table == [ComparisonRow("A", Some(1.0), Some(1.5), Some(0.5), Some(50.0)),
                        ComparisonRow("B", Some(2.0), Some(1.8), Some(-0.2), Some(-10.0)),
                        ComparisonRow("C", None, Some(3.0), None, None)]
    ensures c.datasets == [Dataset("v1", [1.0, 2.0, 0.0]), Dataset("v2", [1.5, 1.8, 3.0])]
  {
    assert StrictlySorted(["A", "B", "C"]);
    SortedListingUnique(c.labels, ["A", "B", "C"]);
    assert c.datasets[0].data == [1.0, 2.0, 0.0];
    assert c.datasets[1].data == [1.5, 1.8, 3.0];
  }
}
