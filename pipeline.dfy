/**
 * Tokenizing a file and then detokenizing the result with the map file the
 * first run wrote.
 */
module Pipeline {
  import opened Wrappers
  import opened Decimal
  import opened MappingStore
  import opened TokenGenerator
  import opened Detokenizer
  import opened Tokenizer

  /**
   * Tokenize `input`, then detokenize its output with the map file just
   * written. With no column configured twice and no column named twice in
   * the header, every configured column of the header comes back with its
   * original value, and no record is lost.
   */
  method TokenizeThenDetokenize(mapFile: Option<seq<seq<string>>>, header: seq<string>, input: seq<Row>,
                                columns: seq<string>, tokenMethod: string, draws: nat -> string)
    returns (r: Result<seq<Row>, ConfigError>)
    requires tokenMethod == "uuid" ==> Injective(draws)
    ensures r.Failure? <==> SelectStrategy(tokenMethod).Failure?
    ensures r.Success? ==> |r.value| == |input|
    ensures r.Success? ==> forall j :: 0 <= j < |input| ==> r.value[j].Keys == input[j].Keys
    ensures r.Success? && Distinct(columns) && Distinct(header) ==>
      forall j, c :: 0 <= j < |input| && c in input[j] && c in columns && c in header ==>
        r.value[j][c] == input[j][c]
  {
    var tokenized := TokenizeData(mapFile, header, input, columns, tokenMethod, draws);
    if tokenized.Failure? {
      return Failure(tokenized.error);
    }
    var out := tokenized.value;
    var restored := DetokenizeData(Some(out.mapRows), out.header, out.rows);
    var final := LoadRows(Empty, out.mapRows);
    forall j | 0 <= j < |input|
      ensures restored.value[j].Keys == input[j].Keys
      ensures Distinct(columns) && Distinct(header) ==>
        forall c :: c in input[j] && c in columns && c in header ==> restored.value[j][c] == input[j][c]
    {
      assert RowTokenized(final, input[j], out.rows[j], columns);
      if Distinct(columns) && Distinct(header) {
        RestoresTokenized(final, header, input[j], out.rows[j], columns);
      }
    }
    return Success(restored.value);
  }

  /** The records of the example run: one configured column `ssn` holding a, b, a, c. */
  function ExampleInput(a: string, b: string, c: string): (input: seq<Row>)
    ensures |input| == 4
  {
    [map["ssn" := a], map["ssn" := b], map["ssn" := a], map["ssn" := c]]
  }

  /** The column loop reads one cell from a record that has the one configured column. */
  lemma OneColumnCells(row: Row, column: string)
    requires column in row
    ensures CellsOf(row, [column]) == [row[column]]
  {
    assert [column][..0] == [];
  }

  /** The cells the example run reads are a, b, a, c. */
  lemma ExampleCells(a: string, b: string, c: string)
    ensures RunCells(ExampleInput(a, b, c), ["ssn"]) == [a, b, a, c]
  {
    var ra, rb, rc := map["ssn" := a], map["ssn" := b], map["ssn" := c];
    OneColumnCells(ra, "ssn");
    OneColumnCells(rb, "ssn");
    OneColumnCells(rc, "ssn");
    assert [ra][..0] == [];
    assert RunCells([ra], ["ssn"]) == [a];
    assert [ra, rb][..1] == [ra];
    assert RunCells([ra, rb], ["ssn"]) == [a, b];
    assert [ra, rb, ra][..2] == [ra, rb];
    assert RunCells([ra, rb, ra], ["ssn"]) == [a, b, a];
    assert [ra, rb, ra, rc][..3] == [ra, rb, ra];
  }

  /** Three different values met as a, b, a, c are, in order of first appearance, a, b, c. */
  lemma ExampleOrder(a: string, b: string, c: string)
    requires a != b && a != c && b != c
    ensures FirstSeen([], [a, b, a, c]) == [a, b, c]
  {
    assert [a] == [] + [a];
    FirstSeenLast([], [a], [], a);
    assert FirstSeen([], [a]) == [a];
    assert [a, b] == [a] + [b];
    FirstSeenLast([], [a, b], [a], b);
    assert FirstSeen([], [a, b]) == [a, b];
    assert [a, b, a] == [a, b] + [a];
    FirstSeenLast([], [a, b, a], [a, b], a);
    assert FirstSeen([], [a, b, a]) == [a, b];
    assert [a, b, a, c] == [a, b, a] + [c];
    FirstSeenLast([], [a, b, a, c], [a, b, a], c);
  }

  /** The first three sequential tokens. */
  lemma SmallIds()
    ensures NatToString(1) == "1" && NatToString(2) == "2" && NatToString(3) == "3"
  {
  }

  /** The map the example run writes. */
  function ExampleTable(a: string, b: string, c: string): (t: Table)
    ensures WellFormed(t)
  {
    Table(["1", "2", "3"], map["1" := a, "2" := b, "3" := c])
  }

  /** In the example map, a, b and c are found under "1", "2" and "3". */
  lemma ExampleLookups(a: string, b: string, c: string)
    requires a != b && a != c && b != c
    ensures ReverseLookup(ExampleTable(a, b, c), a) == Some("1")
    ensures ReverseLookup(ExampleTable(a, b, c), b) == Some("2")
    ensures ReverseLookup(ExampleTable(a, b, c), c) == Some("3")
  {
    var t := ExampleTable(a, b, c);
    assert FirstIndexFrom(t, c, 3) == None;
    assert FirstIndexFrom(t, c, 2) == Some(2);
    assert FirstIndexFrom(t, b, 1) == Some(1);
  }

  /** The sequential map whose values are a, b, c in order is "1" to a, "2" to b, "3" to c. */
  lemma ExampleMap(t: Table, a: string, b: string, c: string)
    requires WellFormed(t) && SequentialIds(t) && |t.keys| == 3
    requires forall i :: 0 <= i < 3 ==> MapsTo(t, NatToString(i + 1), [a, b, c][i])
    ensures t == ExampleTable(a, b, c)
  {
    SmallIds();
    assert t.keys == [NatToString(1), NatToString(2), NatToString(3)];
    assert MapsTo(t, NatToString(1), [a, b, c][0]);
    assert MapsTo(t, NatToString(2), [a, b, c][1]);
    assert MapsTo(t, NatToString(3), [a, b, c][2]);
    assert t.vals.Keys == {"1", "2", "3"};
    assert t.vals == map["1" := a, "2" := b, "3" := c];
  }

  /** A sequential map holding the example values in order of first appearance is the example map. */
  lemma ExampleWritten(t: Table, a: string, b: string, c: string)
    requires a != b && a != c && b != c
    requires WellFormed(t) && SequentialIds(t)
    requires var order := FirstSeen([], RunCells(ExampleInput(a, b, c), ["ssn"]));
      && |t.keys| == |order|
      && forall i :: 0 <= i < |order| ==> MapsTo(t, NatToString(i + 1), order[i])
    ensures t == ExampleTable(a, b, c)
  {
    ExampleCells(a, b, c);
    ExampleOrder(a, b, c);
    ExampleMap(t, a, b, c);
  }

  /** A one-column record whose value has token tok is tokenized to that token. */
  lemma ExampleRow(t: Table, row: Row, out: Row, v: string, tok: string)
    requires row == map["ssn" := v]
    requires RowTokenized(t, row, out, ["ssn"])
    requires ReverseLookup(t, v) == Some(tok)
    ensures out == map["ssn" := tok]
  {
    assert Distinct(["ssn"]);
    assert "ssn" in row;
    assert out.Keys == {"ssn"};
  }

  /** Tokenized against the example map, the example records become tokens 1, 2, 1, 3. */
  lemma ExampleRows(t: Table, rows: seq<Row>, a: string, b: string, c: string)
    requires a != b && a != c && b != c
    requires t == ExampleTable(a, b, c) && |rows| == 4
    requires forall j :: 0 <= j < 4 ==> RowTokenized(t, ExampleInput(a, b, c)[j], rows[j], ["ssn"])
    ensures rows == [map["ssn" := "1"], map["ssn" := "2"], map["ssn" := "1"], map["ssn" := "3"]]
  {
    ExampleLookups(a, b, c);
    var input := ExampleInput(a, b, c);
    ExampleRow(t, input[0], rows[0], a, "1");
    ExampleRow(t, input[1], rows[1], b, "2");
    ExampleRow(t, input[2], rows[2], a, "1");
    ExampleRow(t, input[3], rows[3], c, "3");
    assert rows == [rows[0], rows[1], rows[2], rows[3]];
  }

  /**
   * A fresh sequential run, with no map file, over records whose one
   * configured column holds three different values as a, b, a, c: the values
   * get tokens "1", "2", "1", "3" in order of first appearance, and the map
   * written holds exactly those three entries.
   */
  method SequentialExample(a: string, b: string, c: string) returns (r: Result<Tokenized, ConfigError>)
    requires a != b && a != c && b != c
    ensures r.Success?
    ensures r.value.rows == [map["ssn" := "1"], map["ssn" := "2"], map["ssn" := "1"], map["ssn" := "3"]]
    ensures LoadRows(Empty, r.value.mapRows) == ExampleTable(a, b, c)
  {
    var input := ExampleInput(a, b, c);
    var columns := ["ssn"];
    assert Distinct(columns);
    r := TokenizeData(None, ["ssn"], input, columns, "sequential", (i: nat) => "");
    var final := LoadRows(Empty, r.value.mapRows);
    assert SequentialIds(final) by {
      assert InvariantsKept(Empty, final, Sequential);
    }
    ExampleWritten(final, a, b, c);
    ExampleRows(final, r.value.rows, a, b, c);
  }
}
