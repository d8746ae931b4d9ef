/**
 * `tokenize_data`: load the map if there is one, pick the generator, replace
 * the configured columns of every row by tokens, and write the map back.
 */
module Tokenizer {
  import opened Wrappers
  import opened Decimal
  import opened MappingStore
  import opened TokenGenerator
  import opened Detokenizer

  /**
   * One configured cell, from reading its value to writing its token back:
   * reuse the token already assigned to `value`, or generate one and insert
   * `(token, value)` into the map. Only a token that was not a key is ever
   * inserted, so existing entries are untouched.
   */
  method TokenizeCell(m: TokenMap, value: string, strategy: Strategy, draws: nat -> string, cursor: nat)
    returns (token: string, next: nat)
    requires m.Valid()
    requires strategy == Uuid ==> Injective(draws)
    modifies m
    ensures m.Valid()
    ensures Extends(old(m.Snapshot()), m.Snapshot())
    ensures MapsTo(m.Snapshot(), token, value)
    ensures cursor <= next
    ensures ReverseLookup(old(m.Snapshot()), value).Some? ==>
      token == ReverseLookup(old(m.Snapshot()), value).value && m.Snapshot() == old(m.Snapshot())
    ensures ReverseLookup(old(m.Snapshot()), value).None? ==>
      token !in old(m.vals) && m.Snapshot() == Put(old(m.Snapshot()), token, value)
    ensures ReverseLookup(old(m.Snapshot()), value).Some? ==> next == cursor
    ensures strategy == Sequential ==> next == cursor
    ensures strategy == Sequential && ReverseLookup(old(m.Snapshot()), value).None? ==>
      IsLeastFreeId(old(m.Snapshot()), token)
    ensures strategy == Uuid && ReverseLookup(old(m.Snapshot()), value).None? ==>
      FirstFreeDraw(old(m.Snapshot()), draws, cursor, next, token)
    ensures ReverseLookup(m.Snapshot(), value) == Some(token)
    ensures Values(m.Snapshot()) == AddFirstSeen(Values(old(m.Snapshot())), value)
    ensures ValuesUnique(old(m.Snapshot())) ==> ValuesUnique(m.Snapshot())
    ensures strategy == Sequential && SequentialIds(old(m.Snapshot())) ==> SequentialIds(m.Snapshot())
  {
    var before := m.Snapshot();
    var existing := FindToken(before, value);
    if existing.Some? {
      ReverseLookupSpec(before, value);
      ValuesLookup(before, value);
      return existing.value, cursor;
    }
    if strategy == Uuid {
      FreshWithin(draws, cursor, before.vals.Keys);
    }
    token, next := GenerateToken(strategy, value, before, draws, cursor);
    InsertNewValue(before, token, value, strategy);
    m.Set(token, value);
  }

  /**
   * Inserting a value that had no token, under a token that was not a key:
   * the reverse lookup now finds that token, the value joins the map's values
   * at the end, and unique values and the sequential shape are kept when the
   * token is the least free id.
   */
  lemma InsertNewValue(t: Table, token: string, value: string, strategy: Strategy)
    requires WellFormed(t) && token !in t.vals && ReverseLookup(t, value).None?
    requires strategy == Sequential ==> IsLeastFreeId(t, token)
    ensures ReverseLookup(Put(t, token, value), value) == Some(token)
    ensures Values(Put(t, token, value)) == AddFirstSeen(Values(t), value)
    ensures ValuesUnique(t) ==> ValuesUnique(Put(t, token, value))
    ensures strategy == Sequential && SequentialIds(t) ==> SequentialIds(Put(t, token, value))
  {
    ReverseLookupPut(t, token, value);
    ValuesLookup(t, value);
    ValuesPut(t, token, value);
    if ValuesUnique(t) {
      ReverseLookupSpec(t, value);
      PutNewValue(t, token, value);
    }
    if strategy == Sequential && SequentialIds(t) {
      SequentialNextId(t, token);
      SequentialIdsPut(t, value);
    }
  }

  /** The distinct values met so far, in order of first appearance, after meeting `v`. */
  function AddFirstSeen(seen: seq<string>, v: string): (r: seq<string>)
    ensures v in r && seen <= r
    ensures Distinct(seen) ==> Distinct(r)
  {
    if v in seen then seen else seen + [v]
  }

  /**
   * The distinct values of `seen` followed by those of `stream` not met
   * before, each once, in order of first appearance.
   */
  function FirstSeen(seen: seq<string>, stream: seq<string>): (r: seq<string>)
    ensures seen <= r
    ensures forall v :: v in stream ==> v in r
    ensures forall v :: v in r ==> v in seen || v in stream
    ensures Distinct(seen) ==> Distinct(r)
    decreases |stream|
  {
    if stream == [] then seen
    else AddFirstSeen(FirstSeen(seen, stream[..|stream| - 1]), stream[|stream| - 1])
  }

  /** Unfolding `FirstSeen` once, at the last value of a non-empty stream. */
  lemma FirstSeenLast(seen: seq<string>, stream: seq<string>, init: seq<string>, v: string)
    requires stream == init + [v]
    ensures FirstSeen(seen, stream) == AddFirstSeen(FirstSeen(seen, init), v)
  {
    assert stream[..|stream| - 1] == init;
  }

  /** Meeting two streams one after the other is meeting their concatenation. */
  lemma {:induction false} FirstSeenAppend(seen: seq<string>, a: seq<string>, b: seq<string>)
    ensures FirstSeen(FirstSeen(seen, a), b) == FirstSeen(seen, a + b)
    decreases |b|
  {
    if b != [] {
      var n := |b| - 1;
      var init := b[..n];
      assert b == init + [b[n]];
      assert a + b == (a + init) + [b[n]];
      FirstSeenAppend(seen, a, init);
      FirstSeenLast(FirstSeen(seen, a), b, init, b[n]);
      FirstSeenLast(seen, a + b, a + init, b[n]);
    } else {
      assert a + b == a;
    }
  }

  /** The cells the column loop reads from `row`: `row[c]` for each listed column the row has, in list order. */
  function CellsOf(row: Row, columns: seq<string>): (r: seq<string>)
    ensures |r| <= |columns|
    ensures forall c :: c in columns && c in row ==> row[c] in r
    decreases |columns|
  {
    if columns == [] then []
    else
      var c := columns[|columns| - 1];
      CellsOf(row, columns[..|columns| - 1]) + (if c in row then [row[c]] else [])
  }

  /** Unfolding `CellsOf` once, at the last column of a non-empty list. */
  lemma CellsOfLast(row: Row, columns: seq<string>, c: string)
    ensures CellsOf(row, columns + [c]) == CellsOf(row, columns) + (if c in row then [row[c]] else [])
  {
    assert (columns + [c])[..|columns|] == columns;
  }

  /** The cells a run reads, record after record. */
  function RunCells(input: seq<Row>, columns: seq<string>): (r: seq<string>)
    ensures forall j, c :: 0 <= j < |input| && c in columns && c in input[j] ==> input[j][c] in r
    decreases |input|
  {
    if input == [] then []
    else
      var init := input[..|input| - 1];
      assert forall j :: 0 <= j < |init| ==> init[j] == input[j];
      RunCells(init, columns) + CellsOf(input[|input| - 1], columns)
  }

  /** The cells of one more record follow those of the records before it. */
  lemma RunCellsStep(input: seq<Row>, j: nat, columns: seq<string>)
    requires j < |input|
    ensures RunCells(input[..j + 1], columns) == RunCells(input[..j], columns) + CellsOf(input[j], columns)
  {
    assert input[..j + 1][..j] == input[..j];
  }

  /**
   * What the column loop has achieved once the columns `done` are processed:
   * the map only grew, the row has the same columns,
   * untouched columns keep their values, and each processed column holds a
   * key of the map, mapped to the column's original value when no column is
   * processed twice (`distinct`).
   */
  ghost predicate RowProgress(start: Table, now: Table, row: Row, out: Row, done: seq<string>, distinct: bool)
  {
    && WellFormed(now)
    && Extends(start, now)
    && out.Keys == row.Keys
    && (forall c :: c in row && c !in done ==> out[c] == row[c])
    && (forall c :: c in row && c in done ==> out[c] in now.vals)
    && (distinct ==> forall c :: c in row && c in done ==> MapsTo(now, out[c], row[c]))
  }

  /**
   * With no column listed twice, the loop also keeps each processed cell at
   * the token the reverse lookup finds for its value, and the map's values
   * are those it started with followed by the new cell values, in order of
   * first appearance.
   */
  ghost predicate RowOrder(start: Table, now: Table, row: Row, out: Row, done: seq<string>)
  {
    && WellFormed(start)
    && WellFormed(now)
    && Extends(start, now)
    && (forall c :: c in row && c in done ==> c in out && ReverseLookup(now, row[c]) == Some(out[c]))
    && Values(now) == FirstSeen(Values(start), CellsOf(row, done))
  }

  /** The map kept the invariants it had at `start`: unique values, and the sequential shape. */
  ghost predicate InvariantsKept(start: Table, now: Table, strategy: Strategy) {
    && (ValuesUnique(start) ==> ValuesUnique(now))
    && (strategy == Sequential && SequentialIds(start) ==> SequentialIds(now))
  }

  /** Processing a column the row has: its cell becomes a token mapped to the cell's value. */
  lemma RowProgressStep(start: Table, before: Table, after: Table, row: Row, out: Row, done: seq<string>,
                        column: string, token: string, distinct: bool)
    requires RowProgress(start, before, row, out, done, distinct)
    requires column in out
    requires distinct ==> column !in done
    requires WellFormed(after) && Extends(before, after) && MapsTo(after, token, out[column])
    ensures RowProgress(start, after, row, out[column := token], done + [column], distinct)
  {
    ExtendsTransitive(start, before, after);
    var out' := out[column := token];
    var done' := done + [column];
    assert forall c :: c in done' <==> c in done || c == column;
    forall c | c in row && c !in done' ensures out'[c] == row[c] {
      assert c != column && c !in done;
    }
    forall c | c in row && c in done' ensures out'[c] in after.vals {
      if c != column {
        assert c in done && out[c] in before.vals;
      }
    }
    if distinct {
      forall c | c in row && c in done' ensures MapsTo(after, out'[c], row[c]) {
        if c != column {
          assert c in done && MapsTo(before, out[c], row[c]);
        } else {
          assert c !in done;
        }
      }
    }
  }

  /** Each processed cell keeps the token the reverse lookup finds for its value, in a grown map. */
  lemma LookupsKept(before: Table, after: Table, row: Row, out: Row, done: seq<string>, column: string, token: string)
    requires WellFormed(before) && Extends(before, after)
    requires forall c :: c in row && c in done ==> c in out && ReverseLookup(before, row[c]) == Some(out[c])
    requires column in row && ReverseLookup(after, row[column]) == Some(token)
    ensures forall c :: c in row && c in done + [column] ==>
      c in out[column := token] && ReverseLookup(after, row[c]) == Some(out[column := token][c])
  {
    forall c | c in row && c in done + [column]
      ensures c in out[column := token] && ReverseLookup(after, row[c]) == Some(out[column := token][c])
    {
      if c != column {
        assert c in done;
        ReverseLookupExtends(before, after, row[c]);
      }
    }
  }

  /** Processing a column the row has, listed once: the order facts carry over to the grown map. */
  lemma RowOrderStep(start: Table, before: Table, after: Table, row: Row, out: Row, done: seq<string>,
                     column: string, token: string)
    requires RowOrder(start, before, row, out, done)
    requires column in row && column !in done && column in out && out[column] == row[column]
    requires WellFormed(after) && Extends(before, after)
    requires ReverseLookup(after, row[column]) == Some(token)
    requires Values(after) == AddFirstSeen(Values(before), row[column])
    ensures RowOrder(start, after, row, out[column := token], done + [column])
  {
    ExtendsTransitive(start, before, after);
    var out' := out[column := token];
    var done' := done + [column];
    LookupsKept(before, after, row, out, done, column, token);
    assert Values(after) == FirstSeen(Values(start), CellsOf(row, done')) by {
      CellsOfLast(row, done, column);
      FirstSeenLast(Values(start), CellsOf(row, done'), CellsOf(row, done), row[column]);
    }
  }

  /** Skipping a column the row does not have keeps the order facts. */
  lemma RowOrderSkip(start: Table, now: Table, row: Row, out: Row, done: seq<string>, column: string)
    requires RowOrder(start, now, row, out, done)
    requires column !in row
    ensures RowOrder(start, now, row, out, done + [column])
  {
    assert forall c :: c in row && c in done + [column] ==> c in done;
    CellsOfLast(row, done, column);
    assert CellsOf(row, done) + [] == CellsOf(row, done);
  }

  /** Skipping a configured column the row does not have changes nothing. */
  lemma RowProgressSkip(start: Table, now: Table, row: Row, out: Row, done: seq<string>,
                        column: string, distinct: bool)
    requires RowProgress(start, now, row, out, done, distinct)
    requires column !in out
    ensures RowProgress(start, now, row, out, done + [column], distinct)
  {
  }

  /** One more element of a prefix. */
  lemma PrefixStep(s: seq<string>, i: nat)
    requires i < |s|
    ensures s[..i + 1] == s[..i] + [s[i]]
  {
  }

  /**
   * The column loop for one row. Each configured column the row has is
   * replaced by its value's token; a configured column the row lacks is
   * skipped. `cursor` is the oracle position of the next UUID draw, `next`
   * the position after this row's draws.
   */
  method TokenizeRow(m: TokenMap, row: Row, columns: seq<string>, strategy: Strategy,
                     draws: nat -> string, cursor: nat)
    returns (out: Row, next: nat)
    requires m.Valid()
    requires strategy == Uuid ==> Injective(draws)
    modifies m
    ensures m.Valid()
    ensures Extends(old(m.Snapshot()), m.Snapshot())
    ensures cursor <= next
    ensures out.Keys == row.Keys
    ensures forall c :: c in row && c !in columns ==> out[c] == row[c]
    ensures forall c :: c in row && c in columns ==> out[c] in m.vals
    ensures Distinct(columns) ==> forall c :: c in row && c in columns ==> MapsTo(m.Snapshot(), out[c], row[c])
    ensures Distinct(columns) ==>
      forall c :: c in row && c in columns ==> ReverseLookup(m.Snapshot(), row[c]) == Some(out[c])
    ensures Distinct(columns) ==> Values(m.Snapshot()) == FirstSeen(Values(old(m.Snapshot())), CellsOf(row, columns))
    ensures ValuesUnique(old(m.Snapshot())) ==> ValuesUnique(m.Snapshot())
    ensures strategy == Sequential && SequentialIds(old(m.Snapshot())) ==> SequentialIds(m.Snapshot())
  {
    ghost var start := m.Snapshot();
    ghost var distinct := Distinct(columns);
    out, next := row, cursor;
    assert columns[..0] == [];
    for i := 0 to |columns|
      invariant m.Valid()
      invariant cursor <= next
      invariant RowProgress(start, m.Snapshot(), row, out, columns[..i], distinct)
      invariant InvariantsKept(start, m.Snapshot(), strategy)
      invariant distinct ==> RowOrder(start, m.Snapshot(), row, out, columns[..i])
    {
      PrefixStep(columns, i);
      var column := columns[i];
      if distinct {
        DistinctFresh(columns, i);
      }
      if column in out {
        ghost var before := m.Snapshot();
        var token;
        token, next := TokenizeCell(m, out[column], strategy, draws, next);
        RowProgressStep(start, before, m.Snapshot(), row, out, columns[..i], column, token, distinct);
        if distinct {
          RowOrderStep(start, before, m.Snapshot(), row, out, columns[..i], column, token);
        }
        out := out[column := token];
      } else {
        RowProgressSkip(start, m.Snapshot(), row, out, columns[..i], column, distinct);
        if distinct {
          RowOrderSkip(start, m.Snapshot(), row, out, columns[..i], column);
        }
      }
    }
    assert columns[..|columns|] == columns;
  }

  /**
   * How a tokenized record `out` relates to its input `row` under the final
   * map `t`: same columns, unconfigured columns unchanged, each configured
   * column the row has holds a key of `t`, and, when no column is configured
   * twice, that key maps to the column's original value and is the token the
   * reverse lookup finds for it, so equal values get equal tokens.
   */
  ghost predicate RowTokenized(t: Table, row: Row, out: Row, columns: seq<string>) {
    && out.Keys == row.Keys
    && (forall c :: c in row && c !in columns ==> out[c] == row[c])
    && (forall c :: c in row && c in columns ==> out[c] in t.vals)
    && (Distinct(columns) ==> forall c :: c in row && c in columns ==> MapsTo(t, out[c], row[c]))
    && (Distinct(columns) ==> forall c :: c in row && c in columns ==> ReverseLookup(t, row[c]) == Some(out[c]))
  }

  /** Entries added later leave earlier rows' tokens valid. */
  lemma RowTokenizedExtends(a: Table, b: Table, row: Row, out: Row, columns: seq<string>)
    requires WellFormed(a) && Extends(a, b) && RowTokenized(a, row, out, columns)
    ensures RowTokenized(b, row, out, columns)
  {
    forall c | c in row && c in columns ensures out[c] in b.vals {
      assert out[c] in a.vals;
    }
    if Distinct(columns) {
      forall c | c in row && c in columns ensures MapsTo(b, out[c], row[c]) {
        assert MapsTo(a, out[c], row[c]);
      }
      forall c | c in row && c in columns ensures ReverseLookup(b, row[c]) == Some(out[c]) {
        ReverseLookupExtends(a, b, row[c]);
      }
    }
  }

  /** The first `|rows|` records of `input` were tokenized into `rows`, as checked against `t`. */
  ghost predicate RowsTokenized(t: Table, input: seq<Row>, rows: seq<Row>, columns: seq<string>) {
    && |rows| <= |input|
    && forall i :: 0 <= i < |rows| ==> RowTokenized(t, input[i], rows[i], columns)
  }

  /** Tokenizing the next record keeps every earlier record's tokens valid under the grown map. */
  lemma RowsTokenizedStep(before: Table, after: Table, input: seq<Row>, rows: seq<Row>, out: Row,
                          columns: seq<string>)
    requires WellFormed(before) && Extends(before, after) && |rows| < |input|
    requires RowsTokenized(before, input, rows, columns)
    requires RowTokenized(after, input[|rows|], out, columns)
    ensures RowsTokenized(after, input, rows + [out], columns)
  {
    forall i | 0 <= i < |rows| + 1 ensures RowTokenized(after, input[i], (rows + [out])[i], columns) {
      if i < |rows| {
        RowTokenizedExtends(before, after, input[i], rows[i], columns);
      }
    }
  }

  /** The map a run starts from: the loaded map file, or an empty map when there is none. */
  function InitialMap(mapFile: Option<seq<seq<string>>>): (t: Table)
    ensures WellFormed(t)
    ensures mapFile.None? ==> t.keys == []
  {
    match mapFile
    case None => Empty
    case Some(rows) => LoadRows(Empty, rows)
  }

  /** The output of a tokenization run: the records as written, and the rows of the map file. */
  datatype Tokenized = Tokenized(header: seq<string>, rows: seq<Row>, mapRows: seq<seq<string>>)

  /**
   * `tokenize_data`: load the map file if there is one, reject an unknown
   * `token_method` before touching any record, tokenize every record in
   * order, and emit the final map as rows. UUID draws come from `draws`,
   * consumed in order over the whole run.
   */
  method TokenizeData(mapFile: Option<seq<seq<string>>>, header: seq<string>, input: seq<Row>,
                      columns: seq<string>, tokenMethod: string, draws: nat -> string)
    returns (r: Result<Tokenized, ConfigError>)
    requires tokenMethod == "uuid" ==> Injective(draws)
    ensures r.Failure? <==> SelectStrategy(tokenMethod).Failure?
    ensures r.Failure? ==> r.error == InvalidTokenMethod(tokenMethod)
    ensures r.Success? ==> r.value.header == header && |r.value.rows| == |input|
    ensures r.Success? ==>
      var final := LoadRows(Empty, r.value.mapRows);
      && WellFormed(final)
      && Extends(InitialMap(mapFile), final)
      && InvariantsKept(InitialMap(mapFile), final, SelectStrategy(tokenMethod).value)
      && forall j :: 0 <= j < |input| ==> RowTokenized(final, input[j], r.value.rows[j], columns)
    ensures r.Success? && Distinct(columns) ==>
      Values(LoadRows(Empty, r.value.mapRows)) == FirstSeen(Values(InitialMap(mapFile)), RunCells(input, columns))
    ensures r.Success? && mapFile.None? && tokenMethod == "sequential" && Distinct(columns) ==>
      var final := LoadRows(Empty, r.value.mapRows);
      var order := FirstSeen([], RunCells(input, columns));
      && |final.keys| == |order|
      && forall i :: 0 <= i < |order| ==> MapsTo(final, NatToString(i + 1), order[i])
  {
    var m := new TokenMap();
    if mapFile.Some? {
      m.Load(mapFile.value);
    }
    var selected := SelectStrategy(tokenMethod);
    if selected.Failure? {
      return Failure(selected.error);
    }
    var strategy := selected.value;
    ghost var initial := m.Snapshot();
    var rows: seq<Row> := [];
    var cursor: nat := 0;
    for j := 0 to |input|
      invariant m.Valid()
      invariant |rows| == j
      invariant Extends(initial, m.Snapshot())
      invariant InvariantsKept(initial, m.Snapshot(), strategy)
      invariant RowsTokenized(m.Snapshot(), input, rows, columns)
      invariant Distinct(columns) ==> Values(m.Snapshot()) == FirstSeen(Values(initial), RunCells(input[..j], columns))
    {
      ghost var before := m.Snapshot();
      var out;
      out, cursor := TokenizeRow(m, input[j], columns, strategy, draws, cursor);
      ExtendsTransitive(initial, before, m.Snapshot());
      assert RowTokenized(m.Snapshot(), input[j], out, columns);
      RowsTokenizedStep(before, m.Snapshot(), input, rows, out, columns);
      if Distinct(columns) {
        RunCellsStep(input, j, columns);
        FirstSeenAppend(Values(initial), RunCells(input[..j], columns), CellsOf(input[j], columns));
      }
      rows := rows + [out];
    }
    assert input[..|input|] == input;
    var saved := m.ToRows();
    LoadSaveRoundTrip(m.Snapshot());
    if mapFile.None? && strategy == Sequential {
      SequentialTokens(m.Snapshot());
    }
    return Success(Tokenized(header, rows, saved));
  }
}
