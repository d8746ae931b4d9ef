/**
 * The token map: Python's insertion-ordered `Dict[str, str]` from token to
 * original value, how it is loaded from the two-column map file and how it
 * is written back.
 */
module MappingStore {
  import opened Wrappers

  /**
   * The dictionary as a value: `keys` is its insertion order (the order in
   * which `items()` walks it), `vals` the association itself.
   */
  datatype Table = Table(keys: seq<string>, vals: map<string, string>)

  const Empty: Table := Table([], map[])

  /** No entry of `s` occurs twice. */
  ghost predicate Distinct(s: seq<string>) {
    forall i, j :: 0 <= i < j < |s| ==> s[i] != s[j]
  }

  /** In a sequence without repetitions, no entry occurs before its own position. */
  lemma DistinctFresh(s: seq<string>, i: nat)
    requires Distinct(s) && i < |s|
    ensures s[i] !in s[..i]
  {
    forall j | 0 <= j < i ensures s[..i][j] != s[i] {
      assert s[..i][j] == s[j];
    }
  }

  /** What every Python dict satisfies: each key once, in order, and exactly the keys of the association. */
  ghost predicate WellFormed(t: Table) {
    Distinct(t.keys) && forall k :: k in t.vals <==> k in t.keys
  }

  /** Key `k` is present and maps to `v`. */
  predicate MapsTo(t: Table, k: string, v: string) {
    k in t.vals && t.vals[k] == v
  }

  /** One original value is mapped by at most one token. */
  ghost predicate ValuesUnique(t: Table) {
    forall k1, k2 :: k1 in t.vals && k2 in t.vals && t.vals[k1] == t.vals[k2] ==> k1 == k2
  }

  /** `b` only adds entries to `a`: the old keys keep their order and their values. */
  ghost predicate Extends(a: Table, b: Table) {
    && a.keys <= b.keys
    && forall k :: k in a.vals ==> k in b.vals && b.vals[k] == a.vals[k]
  }

  /** Adding entries in two steps adds entries. */
  lemma ExtendsTransitive(a: Table, b: Table, c: Table)
    requires Extends(a, b) && Extends(b, c)
    ensures Extends(a, c)
  {
  }

  /**
   * Storing `v` under `k`: a new key goes to the end of the insertion order, an
   * existing key keeps its place and takes the new value.
   */
  function Put(t: Table, k: string, v: string): (r: Table)
    ensures MapsTo(r, k, v)
    ensures forall k' :: k' != k ==> (k' in r.vals <==> k' in t.vals)
    ensures forall k' :: k' != k && k' in t.vals ==> r.vals[k'] == t.vals[k']
    ensures t.keys <= r.keys
    ensures WellFormed(t) ==> WellFormed(r)
    ensures k !in t.vals ==> Extends(t, r)
  {
    if k in t.vals then Table(t.keys, t.vals[k := v]) else Table(t.keys + [k], t.vals[k := v])
  }

  /** Storing a value no key maps to, under a new key, keeps the values unique. */
  lemma PutNewValue(t: Table, k: string, v: string)
    requires ValuesUnique(t) && k !in t.vals
    requires forall k' :: k' in t.vals ==> t.vals[k'] != v
    ensures ValuesUnique(Put(t, k, v))
  {
    var r := Put(t, k, v);
    forall k1, k2 | k1 in r.vals && k2 in r.vals && r.vals[k1] == r.vals[k2] ensures k1 == k2 {
      if k1 != k && k2 != k {
        assert t.vals[k1] == t.vals[k2];
      }
    }
  }

  /**
   * The index of the first key, from position `i` on in insertion order,
   * whose value is `v`: the scan over the dictionary's entries in insertion order.
   */
  function FirstIndexFrom(t: Table, v: string, i: nat): (r: Option<nat>)
    requires i <= |t.keys|
    ensures r.Some? ==> i <= r.value < |t.keys| && MapsTo(t, t.keys[r.value], v)
    ensures r.Some? ==> forall j :: i <= j < r.value ==> !MapsTo(t, t.keys[j], v)
    ensures r.None? ==> forall j :: i <= j < |t.keys| ==> !MapsTo(t, t.keys[j], v)
    decreases |t.keys| - i
  {
    if i == |t.keys| then None
    else if MapsTo(t, t.keys[i], v) then Some(i)
    else FirstIndexFrom(t, v, i + 1)
  }

  /** The token already assigned to `v`: the first one in insertion order, if any. */
  function ReverseLookup(t: Table, v: string): (r: Option<string>)
    ensures r.Some? ==> r.value in t.keys && MapsTo(t, r.value, v)
  {
    match FirstIndexFrom(t, v, 0)
    case Some(i) => Some(t.keys[i])
    case None => None
  }

  /**
   * The reverse lookup finds a token exactly when some token maps to `v`, the
   * token it finds maps to `v`, and no token inserted before it does.
   */
  lemma ReverseLookupSpec(t: Table, v: string)
    requires WellFormed(t)
    ensures ReverseLookup(t, v).None? <==> forall k :: k in t.vals ==> t.vals[k] != v
    ensures ReverseLookup(t, v).Some? ==>
      exists i :: 0 <= i < |t.keys| && t.keys[i] == ReverseLookup(t, v).value
        && MapsTo(t, t.keys[i], v) && forall j :: 0 <= j < i ==> !MapsTo(t, t.keys[j], v)
  {
    var r := FirstIndexFrom(t, v, 0);
    if r.None? {
      forall k | k in t.vals ensures t.vals[k] != v {
        var j :| 0 <= j < |t.keys| && t.keys[j] == k;
        assert !MapsTo(t, t.keys[j], v);
      }
    }
  }

  /** Entries added later do not change which token the reverse lookup finds for a value that had one. */
  lemma {:induction false} FirstIndexExtends(a: Table, b: Table, v: string, i: nat)
    requires WellFormed(a) && Extends(a, b) && i <= |a.keys|
    requires FirstIndexFrom(a, v, i).Some?
    ensures FirstIndexFrom(b, v, i) == FirstIndexFrom(a, v, i)
    decreases |a.keys| - i
  {
    var k := a.keys[i];
    assert b.keys[i] == k;
    assert k in a.vals;
    if !MapsTo(a, k, v) {
      FirstIndexExtends(a, b, v, i + 1);
    }
  }

  /** Adding entries keeps the token a value already had. */
  lemma ReverseLookupExtends(a: Table, b: Table, v: string)
    requires WellFormed(a) && Extends(a, b)
    requires ReverseLookup(a, v).Some?
    ensures ReverseLookup(b, v) == ReverseLookup(a, v)
  {
    FirstIndexExtends(a, b, v, 0);
  }

  /** Past the old keys, the first key mapping to `v` in `Put(t, k, v)` is the new key `k`. */
  lemma {:induction false} FirstIndexPut(t: Table, k: string, v: string, i: nat)
    requires WellFormed(t) && k !in t.vals && i <= |t.keys|
    requires forall j :: i <= j < |t.keys| ==> !MapsTo(t, t.keys[j], v)
    ensures FirstIndexFrom(Put(t, k, v), v, i) == Some(|t.keys|)
    decreases |t.keys| - i
  {
    var r := Put(t, k, v);
    if i < |t.keys| {
      assert r.keys[i] == t.keys[i] && t.keys[i] in t.vals && t.keys[i] != k;
      FirstIndexPut(t, k, v, i + 1);
    } else {
      assert r.keys[i] == k;
    }
  }

  /** A value no key mapped to, stored under a new key, is found under that key. */
  lemma ReverseLookupPut(t: Table, k: string, v: string)
    requires WellFormed(t) && k !in t.vals
    requires ReverseLookup(t, v).None?
    ensures ReverseLookup(Put(t, k, v), v) == Some(k)
  {
    FirstIndexPut(t, k, v, 0);
    assert Put(t, k, v).keys[|t.keys|] == k;
  }

  /** The original values in the insertion order of their tokens (the dictionary's values). */
  function Values(t: Table): (r: seq<string>)
    requires forall k :: k in t.keys ==> k in t.vals
    ensures |r| == |t.keys|
    ensures forall i :: 0 <= i < |t.keys| ==> r[i] == t.vals[t.keys[i]]
  {
    seq(|t.keys|, i requires 0 <= i < |t.keys| => t.vals[t.keys[i]])
  }

  /** Some token maps to `v` exactly when `v` is among the values. */
  lemma ValuesLookup(t: Table, v: string)
    requires WellFormed(t)
    ensures ReverseLookup(t, v).Some? <==> v in Values(t)
  {
    ReverseLookupSpec(t, v);
    if v in Values(t) {
      var i :| 0 <= i < |t.keys| && Values(t)[i] == v;
      assert t.vals[t.keys[i]] == v;
    }
    if ReverseLookup(t, v).Some? {
      var i :| 0 <= i < |t.keys| && MapsTo(t, t.keys[i], v);
      var r := Values(t);
      assert r[i] == t.vals[t.keys[i]];
    }
  }

  /** A new entry appends its value to the values. */
  lemma ValuesPut(t: Table, k: string, v: string)
    requires WellFormed(t) && k !in t.vals
    ensures Values(Put(t, k, v)) == Values(t) + [v]
  {
    var r := Put(t, k, v);
    assert r.keys == t.keys + [k];
    forall i | 0 <= i < |t.keys| ensures Values(r)[i] == Values(t)[i] {
      assert t.keys[i] != k;
    }
  }

  /** A row of the map file is an entry exactly when it has two fields. */
  predicate IsEntry(row: seq<string>) {
    |row| == 2
  }

  /**
   * The load loop: every two-field row `[token, value]` is stored as an
   * entry of the map, in file order; every other row is skipped.
   */
  function LoadRows(t: Table, rows: seq<seq<string>>): (r: Table)
    ensures WellFormed(t) ==> WellFormed(r)
    decreases |rows|
  {
    if rows == [] then t
    else
      var prev := LoadRows(t, rows[..|rows| - 1]);
      var row := rows[|rows| - 1];
      if IsEntry(row) then Put(prev, row[0], row[1]) else prev
  }

  /** Loading one more row stores it when it has two fields and otherwise skips it. */
  lemma LoadRowsAppend(t: Table, rows: seq<seq<string>>, row: seq<string>)
    ensures LoadRows(t, rows + [row]) ==
      if IsEntry(row) then Put(LoadRows(t, rows), row[0], row[1]) else LoadRows(t, rows)
  {
    assert (rows + [row])[..|rows|] == rows;
  }

  /** Row `i` is the last entry row of `rows` for token `k`. */
  ghost predicate LastEntryFor(rows: seq<seq<string>>, k: string, i: int) {
    && 0 <= i < |rows| && IsEntry(rows[i]) && rows[i][0] == k
    && forall j :: i < j < |rows| ==> !(IsEntry(rows[j]) && rows[j][0] == k)
  }

  /** After loading, a token is present exactly when it was present before or some entry row names it. */
  lemma {:induction false} LoadPresence(t: Table, rows: seq<seq<string>>, k: string)
    ensures k in LoadRows(t, rows).vals <==>
      k in t.vals || exists i :: 0 <= i < |rows| && IsEntry(rows[i]) && rows[i][0] == k
    decreases |rows|
  {
    if rows != [] {
      var n := |rows| - 1;
      var init := rows[..n];
      LoadPresence(t, init, k);
      if exists i :: 0 <= i < n && IsEntry(init[i]) && init[i][0] == k {
        var i :| 0 <= i < n && IsEntry(init[i]) && init[i][0] == k;
        assert IsEntry(rows[i]) && rows[i][0] == k;
      }
      if exists i :: 0 <= i < |rows| && IsEntry(rows[i]) && rows[i][0] == k {
        var i :| 0 <= i < |rows| && IsEntry(rows[i]) && rows[i][0] == k;
        if i != n {
          assert IsEntry(init[i]) && init[i][0] == k;
        }
      }
    }
  }

  /**
   * After loading, the last entry row naming a token decides its value, and
   * a token no entry row names keeps its old value.
   */
  lemma {:induction false} LoadLookup(t: Table, rows: seq<seq<string>>, k: string)
    ensures forall i :: LastEntryFor(rows, k, i) ==> MapsTo(LoadRows(t, rows), k, rows[i][1])
    ensures (forall i :: 0 <= i < |rows| ==> !(IsEntry(rows[i]) && rows[i][0] == k)) && k in t.vals ==>
      MapsTo(LoadRows(t, rows), k, t.vals[k])
    decreases |rows|
  {
    if rows != [] {
      var n := |rows| - 1;
      var init := rows[..n];
      LoadLookup(t, init, k);
      if IsEntry(rows[n]) && rows[n][0] == k {
        forall i | LastEntryFor(rows, k, i) ensures i == n {
        }
      } else {
        forall i | LastEntryFor(rows, k, i) ensures LastEntryFor(init, k, i) {
        }
        if forall i :: 0 <= i < |rows| ==> !(IsEntry(rows[i]) && rows[i][0] == k) {
          assert forall i :: 0 <= i < n ==> !(IsEntry(init[i]) && init[i][0] == k);
        }
      }
    }
  }

  /** The rows of `rows` with exactly two fields, in order. */
  function EntriesOf(rows: seq<seq<string>>): (r: seq<seq<string>>)
    ensures forall i :: 0 <= i < |r| ==> IsEntry(r[i])
    decreases |rows|
  {
    if rows == [] then []
    else
      var row := rows[|rows| - 1];
      EntriesOf(rows[..|rows| - 1]) + (if IsEntry(row) then [row] else [])
  }

  /** Malformed rows have no effect at all: loading only the entry rows gives the same map. */
  lemma {:induction false} LoadSkipsMalformed(t: Table, rows: seq<seq<string>>)
    ensures LoadRows(t, rows) == LoadRows(t, EntriesOf(rows))
    decreases |rows|
  {
    if rows != [] {
      var n := |rows| - 1;
      LoadSkipsMalformed(t, rows[..n]);
      var e := EntriesOf(rows[..n]);
      if IsEntry(rows[n]) {
        assert EntriesOf(rows) == e + [rows[n]];
        assert (e + [rows[n]])[..|e|] == e;
      } else {
        assert EntriesOf(rows) == e;
      }
    }
  }

  /** The rows written to the map file: `[token, value]` for every entry, in insertion order. */
  function SaveRows(t: Table): (rows: seq<seq<string>>)
    requires forall k :: k in t.keys ==> k in t.vals
    ensures |rows| == |t.keys|
    ensures forall i :: 0 <= i < |rows| ==> IsEntry(rows[i])
    decreases |t.keys|
  {
    if t.keys == [] then []
    else
      var k := t.keys[|t.keys| - 1];
      SaveRows(Table(t.keys[..|t.keys| - 1], t.vals)) + [[k, t.vals[k]]]
  }

  /** Loading what was saved from the first keys yields those keys with their values. */
  lemma {:induction false} LoadSavePrefix(t: Table)
    requires Distinct(t.keys)
    requires forall k :: k in t.keys ==> k in t.vals
    ensures LoadRows(Empty, SaveRows(t)).keys == t.keys
    ensures forall k :: k in LoadRows(Empty, SaveRows(t)).vals <==> k in t.keys
    ensures forall k :: k in t.keys ==> LoadRows(Empty, SaveRows(t)).vals[k] == t.vals[k]
    decreases |t.keys|
  {
    if t.keys != [] {
      var n := |t.keys| - 1;
      var k := t.keys[n];
      var prefix := Table(t.keys[..n], t.vals);
      LoadSavePrefix(prefix);
      var rows := SaveRows(t);
      var before := LoadRows(Empty, SaveRows(prefix));
      assert k !in before.vals by { DistinctFresh(t.keys, n); }
      var after := LoadRows(Empty, rows);
      assert after == Table(before.keys + [k], before.vals[k := t.vals[k]]) by {
        LoadRowsAppend(Empty, SaveRows(prefix), [k, t.vals[k]]);
      }
      assert t.keys[..n] + [k] == t.keys;
      forall j ensures j in after.vals <==> j in t.keys {
        assert j in t.keys[..n] + [k] <==> j in t.keys[..n] || j == k;
      }
      forall j | j in t.keys ensures after.vals[j] == t.vals[j] {
        if j != k {
          assert j in t.keys[..n] by { assert j in t.keys[..n] + [k]; }
        }
      }
    }
  }

  /** Writing the map file and loading it back restores the map, order included. */
  lemma LoadSaveRoundTrip(t: Table)
    requires WellFormed(t)
    ensures LoadRows(Empty, SaveRows(t)) == t
  {
    LoadSavePrefix(t);
    var r := LoadRows(Empty, SaveRows(t));
    forall k ensures k in r.vals <==> k in t.vals {
      assert k in r.vals <==> k in t.keys;
    }
    assert r.vals == t.vals;
  }

  /** The token dictionary of one run, updated in place. */
  class TokenMap {
    var keys: seq<string>
    var vals: map<string, string>

    ghost predicate Valid()
      reads this
    {
      WellFormed(Table(keys, vals))
    }

    /** The dictionary's current contents as a value. */
    function Snapshot(): (s: Table)
      reads this
      ensures s.keys == keys && s.vals == vals
    {
      Table(keys, vals)
    }

    /** A run starts from an empty dictionary. */
    constructor ()
      ensures Valid() && Snapshot() == Empty
    {
      keys := [];
      vals := map[];
    }

    /** Storing `value` under `token`, in place. */
    method Set(token: string, value: string)
      requires Valid()
      modifies this
      ensures Valid() && Snapshot() == Put(old(Snapshot()), token, value)
    {
      if token !in vals {
        keys := keys + [token];
      }
      vals := vals[token := value];
    }

    /** The loop over the rows of the map file: keep two-field rows, skip the others. */
    method Load(rows: seq<seq<string>>)
      requires Valid()
      modifies this
      ensures Valid() && Snapshot() == LoadRows(old(Snapshot()), rows)
    {
      for i := 0 to |rows|
        invariant Valid() && Snapshot() == LoadRows(old(Snapshot()), rows[..i])
      {
        assert rows[..i + 1][..i] == rows[..i];
        var row := rows[i];
        if |row| == 2 {
          Set(row[0], row[1]);
        }
      }
      assert rows[..|rows|] == rows;
    }

    /** The rows written to the map file at the end of tokenization, in insertion order. */
    method ToRows() returns (rows: seq<seq<string>>)
      requires Valid()
      ensures rows == SaveRows(Snapshot())
    {
      rows := [];
      for i := 0 to |keys|
        invariant rows == SaveRows(Table(keys[..i], vals))
      {
        assert keys[..i + 1][..i] == keys[..i];
        rows := rows + [[keys[i], vals[keys[i]]]];
      }
      assert keys[..|keys|] == keys;
    }
  }
}
