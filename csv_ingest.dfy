/** Lenient two-column CSV ingestion: rows already split into fields by
    Python's csv reader become a mapping from test-case name to value. An
    optional header row is recognised only in first position; rows that are
    empty, too short or whose second field is not a number are skipped; a
    repeated test case keeps its last value. */
module CsvIngest {
  import opened Wrappers
  import opened Text

  /** One line of the file, as the csv reader splits it into fields. */
  type Row = seq<string>

  /** A stored result file as `parse_csv` opens it: the rows the csv reader
      yields, or a file on which opening or reading raises (bytes that are not
      UTF-8, a field over the csv module's size limit). */
  datatype StoredFile = Readable(rows: seq<Row>) | Unreadable

  /** Python's `float(s)`: the number a field denotes, or None where it raises. */
  type Coerce = string -> Option<real>

  /** A parsed result file: test case to value. */
  type ResultSet = map<string, real>

  /** The first row is a header when it has two fields and either names a column. */
  predicate IsHeader(row: Row)
  {
    |row| >= 2 && (Lower(row[0]) == "test_case" || Lower(row[1]) == "value")
  }

  /** What a data row contributes: its key and value, or nothing when it is skipped. */
  function Entry(row: Row, coerce: Coerce): Option<(string, real)>
  {
    if |row| >= 2 && coerce(row[1]).Some? then Some((row[0], coerce(row[1]).value)) else None
  }

  /** The mapping after a data row is taken in: an accepted row overwrites its key. */
  function Take(m: ResultSet, row: Row, coerce: Coerce): ResultSet
  {
    match Entry(row, coerce)
    case None => m
    case Some((k, v)) => m[k := v]
  }

  /** The mapping built from data rows, taken in order from an empty mapping. */
  function Ingest(rows: seq<Row>, coerce: Coerce): ResultSet
  {
    if rows == [] then map[]
    else Take(Ingest(rows[..|rows| - 1], coerce), rows[|rows| - 1], coerce)
  }

  /** What `parse_csv` returns for a file with the given rows. */
  function Parse(rows: seq<Row>, coerce: Coerce): ResultSet
  {
    if rows == [] then map[]
    else if IsHeader(rows[0]) then Ingest(rows[1..], coerce)
    else Ingest(rows, coerce)
  }

  /** `parse_csv`: looks at the first row, then fills the mapping row by row. */
  method ParseCsv(rows: seq<Row>, coerce: Coerce) returns (results: ResultSet)
    ensures results == Parse(rows, coerce)
    ensures rows == [] ==> results == map[]
  {
    results := map[];
    if |rows| == 0 {
      return;
    }
    var first := rows[0];
    var start := 0;
    if |first| >= 2 && (Lower(first[0]) == "test_case" || Lower(first[1]) == "value") {
      start := 1;
    } else if |first| >= 2 {
      var val := coerce(first[1]);
      if val.Some? {
        results := results[first[0] := val.value];
      }
    }
    assert rows[start..1] == if start == 0 then [first] else [];
    var i := 1;
    while i < |rows|
      invariant 1 <= i <= |rows|
      invariant results == Ingest(rows[start..i], coerce)
    {
      var row := rows[i];
      assert rows[start..i + 1][..i - start] == rows[start..i];
      if |row| == 0 {
        i := i + 1;
        continue;
      }
      if |row| >= 2 {
        var val := coerce(row[1]);
        if val.Some? {
          results := results[row[0] := val.value];
        }
      }
      i := i + 1;
    }
    assert rows[start..] == rows[start..|rows|];
  }

  /** The header the project's own files carry is recognised as one. */
  lemma ColumnNamesAreHeader()
    ensures IsHeader(["test_case", "value"])
  {
    LowerUnchanged("test_case");
  }

  /** A first row that looks like a header is dropped, even when its second field is numeric. */
  lemma HeaderDropped(header: Row, rest: seq<Row>, coerce: Coerce)
    requires IsHeader(header)
    ensures Parse([header] + rest, coerce) == Ingest(rest, coerce)
  {
    assert ([header] + rest)[1..] == rest;
  }

  /** The header `test_case,value` may be present or not: the data parses the
      same, provided the data's own first row does not look like a header. */
  lemma HeaderOptional(rest: seq<Row>, coerce: Coerce)
    requires rest == [] || !IsHeader(rest[0])
    ensures Parse([["test_case", "value"]] + rest, coerce) == Parse(rest, coerce)
  {
    ColumnNamesAreHeader();
    HeaderDropped(["test_case", "value"], rest, coerce);
  }

  /** Without that proviso the header matters: a data row keyed `test_case`
      with a numeric value is kept after the header, but dropped as a header
      when it comes first. */
  lemma HeaderNotAlwaysOptional(coerce: Coerce)
    requires coerce("1") == Some(1.0)
    ensures Parse([["test_case", "value"], ["test_case", "1"]], coerce) == map["test_case" := 1.0]
    ensures Parse([["test_case", "1"]], coerce) == map[]
  {
    ColumnNamesAreHeader();
    var rest: seq<Row> := [["test_case", "1"]];
    HeaderDropped(["test_case", "value"], rest, coerce);
    assert [["test_case", "value"]] + rest == [["test_case", "value"], ["test_case", "1"]];
    assert rest[..0] == [];
    assert IsHeader(rest[0]);
    HeaderDropped(rest[0], [], coerce);
    assert [rest[0]] + [] == rest;
  }

  /** A first row that is neither a header nor an entry (empty, short or
      non-numeric) still takes the header slot: the rows after it are all
      read as data, so a header-like second row is not recognised. */
  lemma SkippedFirstRow(first: Row, rest: seq<Row>, coerce: Coerce)
    requires !IsHeader(first) && Entry(first, coerce).None?
    ensures Parse([first] + rest, coerce) == Ingest(rest, coerce)
  {
    SkippedRowIgnored([], first, rest, coerce);
    assert [] + [first] + rest == [first] + rest && [] + rest == rest;
  }

  /** So a blank line before a header-like row changes the result: the row
      `test_case,1` is kept after a blank line but dropped as a header on its own. */
  lemma BlankFirstRowHidesHeader(coerce: Coerce)
    requires coerce("1") == Some(1.0)
    ensures Parse([[], ["test_case", "1"]], coerce) == map["test_case" := 1.0]
    ensures Parse([["test_case", "1"]], coerce) == map[]
  {
    var rest: seq<Row> := [["test_case", "1"]];
    SkippedFirstRow([], rest, coerce);
    assert [[]] + rest == [[], ["test_case", "1"]];
    assert rest[..0] == [];
    HeaderNotAlwaysOptional(coerce);
  }

  /** The two result files of the comparison handler's test: header rows, then
      `A,1` and `B,2`, and `A,1.5`, `B,1.8` and `C,3`. */
  lemma ExampleFilesParse(coerce: Coerce)
    requires coerce("1") == Some(1.0) && coerce("2") == Some(2.0)
    requires coerce("1.5") == Some(1.5) && coerce("1.8") == Some(1.8) && coerce("3") == Some(3.0)
    ensures Parse([["test_case", "value"], ["A", "1"], ["B", "2"]], coerce) == map["A" := 1.0, "B" := 2.0]
    ensures Parse([["test_case", "value"], ["A", "1.5"], ["B", "1.8"], ["C", "3"]], coerce)
            == map["A" := 1.5, "B" := 1.8, "C" := 3.0]
  {
    var header: Row := ["test_case", "value"];
    ColumnNamesAreHeader();
    var rows1: seq<Row> := [["A", "1"], ["B", "2"]];
    HeaderDropped(header, rows1, coerce);
    assert [header] + rows1 == [["test_case", "value"], ["A", "1"], ["B", "2"]];
    assert rows1[..1] == [["A", "1"]] && rows1[..1][..0] == [];
    assert Ingest(rows1[..1], coerce) == map["A" := 1.0];
    var rows2: seq<Row> := [["A", "1.5"], ["B", "1.8"], ["C", "3"]];
    HeaderDropped(header, rows2, coerce);
    assert [header] + rows2 == [["test_case", "value"], ["A", "1.5"], ["B", "1.8"], ["C", "3"]];
    assert rows2[..2] == [["A", "1.5"], ["B", "1.8"]] && rows2[..2][..1] == [["A", "1.5"]] && rows2[..2][..1][..0] == [];
    assert Ingest(rows2[..2][..1], coerce) == map["A" := 1.5];
    assert Ingest(rows2[..2], coerce) == map["A" := 1.5, "B" := 1.8];
  }

  /** The keys of the mapping are exactly the first fields of the accepted rows. */
  lemma {:induction false} IngestKeys(rows: seq<Row>, coerce: Coerce, k: string)
    ensures k in Ingest(rows, coerce) <==>
      exists i :: 0 <= i < |rows| && Entry(rows[i], coerce).Some? && Entry(rows[i], coerce).value.0 == k
  {
    if rows != [] {
      var init := rows[..|rows| - 1];
      IngestKeys(init, coerce, k);
      if k in Ingest(rows, coerce) && k !in Ingest(init, coerce) {
        assert Entry(rows[|rows| - 1], coerce).Some?;
      }
      if exists i :: 0 <= i < |rows| && Entry(rows[i], coerce).Some? && Entry(rows[i], coerce).value.0 == k {
        var i :| 0 <= i < |rows| && Entry(rows[i], coerce).Some? && Entry(rows[i], coerce).value.0 == k;
        if i < |rows| - 1 {
          assert init[i] == rows[i];
        }
      }
    }
  }

  /** A repeated test case keeps the value of its last accepted row. */
  lemma {:induction false} IngestLastWins(rows: seq<Row>, coerce: Coerce, i: nat, k: string, v: real)
    requires i < |rows| && Entry(rows[i], coerce) == Some((k, v))
    requires forall j :: i < j < |rows| ==> Entry(rows[j], coerce).None? || Entry(rows[j], coerce).value.0 != k
    ensures k in Ingest(rows, coerce) && Ingest(rows, coerce)[k] == v
  {
    if i < |rows| - 1 {
      var init := rows[..|rows| - 1];
      IngestLastWins(init, coerce, i, k, v);
    }
  }

  /** A skipped row, wherever it stands, leaves the mapping as if it were absent. */
  lemma {:induction false} SkippedRowIgnored(before: seq<Row>, row: Row, after: seq<Row>, coerce: Coerce)
    requires Entry(row, coerce).None?
    ensures Ingest(before + [row] + after, coerce) == Ingest(before + after, coerce)
  {
    if after == [] {
      assert (before + [row] + after)[..|before|] == before;
      assert before + after == before;
    } else {
      var init := after[..|after| - 1];
      SkippedRowIgnored(before, row, init, coerce);
      assert (before + [row] + after)[..|before| + |after|] == before + [row] + init;
      assert (before + after)[..|before| + |after| - 1] == before + init;
    }
  }

  /** Every row cut down to its first two fields. */
  function FirstTwo(rows: seq<Row>): (cut: seq<Row>)
    ensures |cut| == |rows|
    ensures forall i :: 0 <= i < |rows| ==> cut[i] == if |rows[i]| <= 2 then rows[i] else rows[i][..2]
  {
    if rows == [] then []
    else FirstTwo(rows[..|rows| - 1]) + [if |rows[|rows| - 1]| <= 2 then rows[|rows| - 1] else rows[|rows| - 1][..2]]
  }

  /** Fields beyond the second are ignored: cutting every row to two fields changes nothing. */
  lemma {:induction false} ExtraFieldsIgnored(rows: seq<Row>, coerce: Coerce)
    ensures Ingest(FirstTwo(rows), coerce) == Ingest(rows, coerce)
  {
    if rows != [] {
      ExtraFieldsIgnored(rows[..|rows| - 1], coerce);
      assert FirstTwo(rows)[..|rows| - 1] == FirstTwo(rows[..|rows| - 1]);
    }
  }

  /** The same holds for the whole file: header detection also reads only the first two fields. */
  lemma ParseExtraFieldsIgnored(rows: seq<Row>, coerce: Coerce)
    ensures Parse(FirstTwo(rows), coerce) == Parse(rows, coerce)
  {
    ExtraFieldsIgnored(rows, coerce);
    if rows != [] {
      ExtraFieldsIgnored(rows[1..], coerce);
      assert FirstTwo(rows)[1..] == FirstTwo(rows[1..]);
    }
  }

  /** The number of entries (`summary_count`) never exceeds the number of rows. */
  lemma {:induction false} IngestSize(rows: seq<Row>, coerce: Coerce)
    ensures |Ingest(rows, coerce)| <= |rows|
  {
    if rows != [] {
      var init := rows[..|rows| - 1];
      IngestSize(init, coerce);
      var m := Ingest(init, coerce);
      match Entry(rows[|rows| - 1], coerce)
      case None =>
      case Some((k, v)) =>
        assert m[k := v].Keys == m.Keys + {k};
    }
  }

  /** Data rows writing out the mapping `m` in the order `ks`, each value printed by `show`. */
  function DataRows(m: ResultSet, ks: seq<string>, show: real -> string): seq<Row>
    requires forall k :: k in ks ==> k in m
  {
    if ks == [] then []
    else DataRows(m, ks[..|ks| - 1], show) + [[ks[|ks| - 1], show(m[ks[|ks| - 1]])]]
  }

  lemma {:induction false} IngestDataRows(m: ResultSet, ks: seq<string>, show: real -> string, coerce: Coerce)
    requires forall k :: k in ks ==> k in m && coerce(show(m[k])) == Some(m[k])
    ensures Ingest(DataRows(m, ks, show), coerce) == map k | k in ks :: m[k]
  {
    if ks != [] {
      var init := ks[..|ks| - 1];
      IngestDataRows(m, init, show, coerce);
      var rows := DataRows(m, ks, show);
      assert rows[..|rows| - 1] == DataRows(m, init, show);
      assert (map k | k in init :: m[k])[ks[|ks| - 1] := m[ks[|ks| - 1]]] == map k | k in ks :: m[k];
    }
  }

  /** Parsing is idempotent on clean input: writing a mapping out under the
      header `test_case,value` and parsing it again gives the same mapping,
      whatever order the keys are written in, as long as the values are
      printed in a form `float()` reads back exactly. */
  lemma ReparseWritten(m: ResultSet, ks: seq<string>, show: real -> string, coerce: Coerce)
    requires forall k :: k in ks <==> k in m
    requires forall k :: k in m ==> coerce(show(m[k])) == Some(m[k])
    ensures Parse([["test_case", "value"]] + DataRows(m, ks, show), coerce) == m
  {
    ColumnNamesAreHeader();
    HeaderDropped(["test_case", "value"], DataRows(m, ks, show), coerce);
    IngestDataRows(m, ks, show, coerce);
  }
}
