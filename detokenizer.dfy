/**
 * `detokenize_data`: every column of every row whose value is a token of
 * the map is replaced by the value the token stands for.
 */
module Detokenizer {
  import opened Wrappers
  import opened MappingStore

  /** One record: column name to cell. A cell the reader left empty (`None`) is an absent key. */
  type Row = map<string, string>

  /** `FileNotFoundError` for the map file, which detokenization cannot do without. */
  datatype DetokenizeError = TokenMapNotFound

  /**
   * One step of the column loop: when the row has the column and its cell is
   * a token of the map, the cell takes the token's value; otherwise the row
   * is left as it is.
   */
  function RestoreCell(t: Table, row: Row, column: string): (r: Row)
    ensures r.Keys == row.Keys
    ensures forall c :: c in row && c != column ==> r[c] == row[c]
    ensures column in row && row[column] in t.vals ==> MapsTo(t, row[column], r[column])
    ensures column in row && row[column] !in t.vals ==> r[column] == row[column]
  {
    if column in row && row[column] in t.vals then row[column := t.vals[row[column]]] else row
  }

  /** The column loop over the header, in header order. */
  function DetokenizeRow(t: Table, header: seq<string>, row: Row): (r: Row)
    ensures r.Keys == row.Keys
    ensures forall c :: c in row && c !in header ==> r[c] == row[c]
    decreases |header|
  {
    if header == [] then row
    else RestoreCell(t, DetokenizeRow(t, header[..|header| - 1], row), header[|header| - 1])
  }

  /**
   * With a header that names each column once, every cell is looked up once:
   * a cell whose value is a token becomes the token's value, every other cell
   * (and every column outside the header) is left alone, and a restored value
   * is never looked up again.
   */
  lemma {:induction false} DetokenizeRowCells(t: Table, header: seq<string>, row: Row)
    requires Distinct(header)
    ensures forall c :: c in row ==>
      DetokenizeRow(t, header, row)[c] == if c in header && row[c] in t.vals then t.vals[row[c]] else row[c]
    decreases |header|
  {
    if header != [] {
      var n := |header| - 1;
      var init := header[..n];
      assert header == init + [header[n]];
      DetokenizeRowCells(t, init, row);
      assert header[n] !in init;
    }
  }

  /**
   * What tokenization promises makes detokenization restore: if every
   * tokenized cell of `row` holds a token mapped to its original value in
   * `row0`, detokenizing restores those cells.
   */
  lemma RestoresTokenized(t: Table, header: seq<string>, row0: Row, row: Row, columns: seq<string>)
    requires Distinct(header)
    requires row.Keys == row0.Keys
    requires forall c :: c in row0 && c in columns ==> MapsTo(t, row[c], row0[c])
    ensures forall c :: c in row0 && c in columns && c in header ==> DetokenizeRow(t, header, row)[c] == row0[c]
  {
    DetokenizeRowCells(t, header, row);
  }

  /**
   * The flagged collision: a cell of a column that was never tokenized is
   * still replaced when its value happens to be a token of the map.
   */
  lemma TokenLikeValueReplaced(t: Table, header: seq<string>, row: Row, c: string)
    requires Distinct(header)
    requires c in header && c in row && row[c] in t.vals
    ensures DetokenizeRow(t, header, row)[c] == t.vals[row[c]]
  {
    DetokenizeRowCells(t, header, row);
  }

  /** The per-row loop over the header's column names, updating the row cell by cell. */
  method DetokenizeRecord(t: Table, header: seq<string>, row: Row) returns (out: Row)
    ensures out == DetokenizeRow(t, header, row)
  {
    out := row;
    for i := 0 to |header|
      invariant out == DetokenizeRow(t, header[..i], row)
    {
      assert header[..i + 1][..i] == header[..i];
      var column := header[i];
      if column in out && out[column] in t.vals {
        out := out[column := t.vals[out[column]]];
      }
    }
    assert header[..|header|] == header;
  }

  /**
   * `detokenize_data`: fail when the map file is missing; otherwise load it
   * and restore every row of the input.
   */
  method DetokenizeData(mapFile: Option<seq<seq<string>>>, header: seq<string>, input: seq<Row>)
    returns (r: Result<seq<Row>, DetokenizeError>)
    ensures mapFile.None? <==> r.Failure?
    ensures r.Success? ==> |r.value| == |input|
    ensures r.Success? ==> forall j :: 0 <= j < |input| ==>
      r.value[j] == DetokenizeRow(LoadRows(Empty, mapFile.value), header, input[j])
  {
    if mapFile.None? {
      return Failure(TokenMapNotFound);
    }
    var m := new TokenMap();
    m.Load(mapFile.value);
    var t := m.Snapshot();
    var rows: seq<Row> := [];
    for j := 0 to |input|
      invariant |rows| == j
      invariant forall i :: 0 <= i < j ==> rows[i] == DetokenizeRow(t, header, input[i])
    {
      var out := DetokenizeRecord(t, header, input[j]);
      rows := rows + [out];
    }
    return Success(rows);
  }
}
