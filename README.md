# Data tokenization replacer: a Dafny model of its token logic

The tool replaces the values of chosen CSV columns with surrogate tokens. It
records each token and the original value it stands for in a two-column map
file, and it can later put the original values back. This project models the
token logic of `main.py` and proves its properties:

- **Loading the map file.** Two-field rows are stored in file order, and a
  later row overwrites an earlier row with the same token. All other rows are
  skipped. The map is an insertion-ordered dictionary: `MappingStore.Table` as
  a value, and `MappingStore.TokenMap` as the object that the runs update in
  place.
- **The two generators.** Both first scan the map for the value and reuse the
  first token already mapped to it. Otherwise:
  - the UUID generator draws until the draw is not a key;
  - the sequential generator probes `str(1)`, `str(2)`, … for the first string
    that is not a key.
- **Choosing the generator** by the `token_method` name. Any name other than
  `uuid` or `sequential` is rejected before any record is read.
- **Tokenizing a record.** Each configured column the record has becomes its
  value's token. A value with no token gets a new one, which is inserted into
  the map.
- **Detokenizing a record.** Every column, configured or not, whose value is a
  token of the map takes the token's value.
- **The round trip.** Tokenizing, writing the map, reading it back and
  detokenizing restores every configured column. This needs a column list and
  a header in which no name occurs twice.

`uuid.uuid4()` is modelled as an oracle. The parameter `draws: nat -> string`
gives the string form of the i-th identifier handed out, and a cursor threads
the draws through a run. `str(n)` is `Decimal.NatToString`. `Decimal.DecimalValue`
reads a digit string back as a number, and reading `str(n)` back gives `n`, so
different counters give different tokens.

The map's values in the insertion order of their tokens are `MappingStore.Values`.
`Tokenizer.FirstSeen` lists the distinct values of a stream in order of first
appearance. With no column listed twice, a run leaves the map's values equal to
the initial values followed by the new cells' values in order of first
appearance. Together with the reverse lookup, this fixes which token each cell
gets: equal values get equal tokens, and a fresh sequential run gives the i-th
distinct value the token `str(i)`.

Detokenization matches cell values against token keys by exact string
equality. So an untokenized cell whose value happens to equal a token is also
rewritten. For example, a cell `"2"` in an unconfigured column is rewritten
when the sequential strategy has minted token `"2"`. The model keeps this
behaviour as the code has it. `Detokenizer.TokenLikeValueReplaced` states it,
and the round trip is promised only for configured columns.

The configured columns are a list, not a set, and the model keeps them a list.
A column listed twice is tokenized twice: the second pass replaces the token by
a token of the token. One detokenization then no longer restores that column.
This is why the round-trip and ordering properties assume a list with no
repeated column.

## Model

| member | source | states |
|---|---|---|
| Decimal.NatToString | main.py:74-77 | `str(n)` is a non-empty string of decimal digits with no leading zero, and has one digit exactly when n < 10 |
| Decimal.DecimalValue | main.py:74-77 | a string of one decimal digit denotes a number below ten |
| Decimal.NatToStringValue | main.py:74-77 | the digits of `str(n)` spell n: reading them back gives n |
| Decimal.NatToStringInjective | main.py:75-77 | different counters give different token strings, so the probe never confuses two ids |
| MappingStore.Put | main.py:99 | `token_map[k] = v`: k maps to v and every other key keeps its value. A new key goes to the end of the insertion order and old keys keep theirs. The dict invariant is kept, and a fresh key only adds an entry |
| MappingStore.PutNewValue | main.py:128-131 | a new entry whose value no key maps to keeps the values of the map unique, so each value has one token |
| MappingStore.FirstIndexFrom | main.py:50-52 | the scan over `token_map.items()` stops at the first key in insertion order whose value is v. It finds nothing exactly when no key from there on maps to v |
| MappingStore.ReverseLookup | main.py:128 | the lookup of the first key, in insertion order, whose value is the cell's value: a token it finds is a key that maps to that value |
| MappingStore.ReverseLookupSpec | main.py:128 | the reverse lookup gives no token exactly when no key maps to the value. A token it finds maps to the value, and no key inserted earlier does |
| MappingStore.ReverseLookupExtends | main.py:128-131 | once a value has a token, adding entries never changes the token the lookup finds for it |
| MappingStore.ReverseLookupPut | main.py:128-131 | a value that had no token, stored under a new key, is then found under that key |
| MappingStore.Values | main.py:146-149 | the values in the insertion order of their tokens: one per key, the i-th being the value of the i-th key |
| MappingStore.ValuesLookup | main.py:128 | the lookup finds a token for v exactly when v is among the map's values |
| MappingStore.ValuesPut | main.py:131 | a new entry appends its value to the map's values |
| MappingStore.LoadRows | main.py:97-101 | loading rows into a well-formed dictionary leaves it well-formed |
| MappingStore.LoadRowsAppend | main.py:97-101 | one more row of the map file is stored when it has two fields and is otherwise skipped |
| MappingStore.LoadPresence | main.py:97-101 | after loading, a token is present exactly when it was present before or some two-field row names it |
| MappingStore.LoadLookup | main.py:97-101 | after loading, the last two-field row naming a token gives its value, and a token no row names keeps its old value |
| MappingStore.LoadSkipsMalformed | main.py:98-101 | rows without exactly two fields have no effect: loading only the two-field rows gives the same map |
| MappingStore.SaveRows | main.py:148-149 | writing the map emits one two-field row per entry |
| MappingStore.LoadSaveRoundTrip | main.py:145-149 | reading back the rows written for a map restores that map, insertion order included |
| MappingStore.TokenMap.constructor | main.py:90 | a run starts from an empty dictionary |
| MappingStore.TokenMap.Snapshot | main.py:90 | the dictionary's current keys, in insertion order, and its entries, as a value |
| MappingStore.TokenMap.Set | main.py:131 | the in-place store `token_map[token] = value` has the effect of `Put` and keeps the dict invariant |
| MappingStore.TokenMap.Load | main.py:95-101 | the load loop leaves the map equal to `LoadRows` over the file's rows |
| MappingStore.TokenMap.ToRows | main.py:146-149 | the rows written at the end of a run are `SaveRows` of the final map |
| TokenGenerator.SelectStrategy | main.py:107-112 | exactly `"uuid"` and `"sequential"` are accepted, each selecting its own generator. Any other name fails with `InvalidTokenMethod` carrying that name |
| TokenGenerator.FreshWithin | main.py:56-57 | among \|keys\| + 1 consecutive draws of a non-repeating source, one is not a key, so the redraw loop ends |
| TokenGenerator.FreeIdBound | main.py:74-76 | some counter between 1 and one past the number of keys is free, so the probe loop ends |
| TokenGenerator.FindToken | main.py:50-52 | the early-return loop returns the first token mapped to the value, or none when there is none |
| TokenGenerator.GenerateUuidToken | main.py:45-59 | an existing token is returned with no draw made. Otherwise the result is the first draw from the cursor that is not a key, every earlier draw was a key, and the cursor moves past the draws used |
| TokenGenerator.GenerateSequentialToken | main.py:62-78 | an existing token is returned. Otherwise the result is `str(k)` for the least k ≥ 1 whose string is not a key |
| TokenGenerator.SequentialNextId | main.py:74-77 | on a map whose keys are `"1"`, …, `"n"` in insertion order, the least free id is exactly `str(n + 1)` (both directions) |
| TokenGenerator.SequentialIdsPut | main.py:128-131 | inserting `str(n + 1)` into such a map keeps it in that shape, one entry longer, so the n-th new value gets token `"n"` |
| TokenGenerator.SequentialTokens | main.py:74-77 | on such a map, the i-th value in insertion order has token `str(i)` |
| TokenGenerator.GenerateToken | main.py:130 | the selected generator reuses the existing token with no draw made. Otherwise it returns a token that is not yet a key: for `uuid` the first draw from the cursor that is not a key, every earlier draw having been a key; for `sequential` the least free id, with no draw made |
| Tokenizer.TokenizeCell | main.py:126-132 | one configured cell gets the token the reverse lookup then finds for its value. When the value had a token, that token is used and the map and cursor are unchanged. Otherwise exactly one entry is added, under the least free id (`sequential`) or the first draw that is not a key (`uuid`). The value joins the map's values only if it is new. Unique values and the sequential shape are kept |
| Tokenizer.InsertNewValue | main.py:129-131 | storing a value that had no token under a token that was not a key makes the lookup find that token, appends the value to the map's values, and keeps unique values and, for the least free id, the sequential shape |
| Tokenizer.FirstSeen | main.py:124-131 | the distinct values of a stream after those already seen, in order of first appearance: it keeps what was seen as a prefix, holds every value of the stream and nothing else, and has no repeats when the seen values had none |
| Tokenizer.FirstSeenAppend | main.py:123-131 | meeting one stream after another gives the same order as meeting their concatenation, so row-by-row and run-wide orders agree |
| Tokenizer.RowOrderStep | main.py:125-132 | with no column listed twice, each processed cell keeps the token the lookup finds for its value, and the map's values stay the start values followed by the new cell values in order of first appearance |
| Tokenizer.TokenizeRow | main.py:124-134 | the map only grows and the row keeps its columns. Columns not configured keep their values. Each configured column the row has becomes a key of the map. With no column listed twice, each such cell holds the token the lookup finds for its original value, and the map's values are the old values followed by the row's new values in order of first appearance. Unique values and the sequential shape are kept |
| Tokenizer.InitialMap | main.py:90-101 | a run starts from a well-formed map, which is empty when there is no map file |
| Tokenizer.TokenizeData | main.py:90-149 | an unknown `token_method` fails and no record is produced. Otherwise every record is tokenized as `TokenizeRow` states against the written map, which extends the start map and keeps its invariants. With no column listed twice, the written map's values are the start values followed by the run's new values in order of first appearance. A sequential run with no map file maps `str(i)` to the i-th distinct value and holds nothing else |
| Detokenizer.RestoreCell | main.py:185-186 | a cell whose value is a token takes a value the token maps to. A cell that is not a token, and every other column, is left alone |
| Detokenizer.DetokenizeRow | main.py:184-186 | the column loop keeps the row's columns and leaves every column outside the header unchanged |
| Detokenizer.DetokenizeRecord | main.py:184-186 | the column loop computes `DetokenizeRow`, one header column after the other |
| Detokenizer.DetokenizeRowCells | main.py:184-186 | with a header naming each column once, each cell whose value is a token takes the token's value. Every other cell is unchanged, and a restored value is not looked up again |
| Detokenizer.RestoresTokenized | main.py:184-186 | cells that hold tokens mapped to their original values are restored by detokenization |
| Detokenizer.TokenLikeValueReplaced | main.py:185-186 | any cell whose value equals a token is rewritten, whether or not its column was tokenized |
| Detokenizer.DetokenizeData | main.py:155-193 | a missing map file fails with `TokenMapNotFound`. Otherwise each output record is `DetokenizeRow` of the input record under the loaded map |
| Pipeline.TokenizeThenDetokenize | main.py:183-187 | detokenizing a run's output with the map file it wrote keeps every record and its columns. Every configured column in the header gets its original value back, provided no column name is repeated |
| Pipeline.ExampleOrder | main.py:128-131 | three different values met as a, b, a, c get their tokens in the order a, b, c |
| Pipeline.SequentialExample | main.py:123-136 | a fresh sequential run over records whose one configured column holds a, b, a, c (three different values) writes tokens `"1"`, `"2"`, `"1"`, `"3"` and a map of exactly `"1"` to a, `"2"` to b and `"3"` to c |

## Left out

- Command-line parsing, `main`, `exit(1)` and all logging: these are glue around the core.
- File I/O. The map file is an `Option` of already-parsed rows, where `None` means the file does not exist. Input records are given as parsed maps, and output records and map rows are returned as sequences. Read and write failures are not modelled, including the re-raised exceptions at main.py:103-105, 137-142, 150-152 and 171-173. A missing input file is not modelled either.
- CSV quoting and encoding done by the `csv` library. A cell that `DictReader` fills with `None` (a short record) is an absent key here. Detokenization leaves such a cell alone, as the code does. Tokenization skips it, whereas the code would mint a token for `None` and write it to the map as an empty value. Extra fields of a long record, and `DictWriter` rejecting them, are not modelled.
- The UUID format and its randomness. `uuid4` is an arbitrary string stream. Its `str` form is opaque here.
- TokenGenerator.GenerateUuidToken: requires some draw from the cursor on that is not yet a key. In Python the redraw loop ends only with probability 1. The tokenizer discharges this requirement by assuming the stream never repeats a string (`Injective(draws)`).
- The partial output left behind by a crash mid-run: runs are modelled as all or nothing.
