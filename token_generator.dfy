/**
 * The two token generators (`generate_uuid_token`, `generate_sequential_token`)
 * and the choice between them by the `token_method` name.
 */
module TokenGenerator {
  import opened Wrappers
  import opened Decimal
  import opened MappingStore

  /** The two ways of minting a token. */
  datatype Strategy = Uuid | Sequential

  /** The `ValueError` raised for a `token_method` name that selects no generator. */
  datatype ConfigError = InvalidTokenMethod(name: string)

  /** The choice of generator from the `token_method` name. */
  function SelectStrategy(name: string): (r: Result<Strategy, ConfigError>)
    ensures r.Success? <==> name == "uuid" || name == "sequential"
    ensures r == Success(Uuid) <==> name == "uuid"
    ensures r == Success(Sequential) <==> name == "sequential"
    ensures r.Failure? ==> r.error == InvalidTokenMethod(name)
  {
    if name == "uuid" then Success(Uuid)
    else if name == "sequential" then Success(Sequential)
    else Failure(InvalidTokenMethod(name))
  }

  /**
   * `uuid.uuid4()` as an oracle: `draws(i)` is the string form of the i-th
   * identifier it hands out. A source that never repeats itself.
   */
  ghost predicate Injective(draws: nat -> string) {
    forall i, j :: draws(i) == draws(j) ==> i == j
  }

  /** The strings an oracle hands out at positions `lo` .. `lo + n - 1`. */
  ghost function Image(f: nat -> string, lo: nat, n: nat): set<string> {
    set k: nat | lo <= k < lo + n :: f(k)
  }

  /** `n` positions of an injective oracle give `n` different strings. */
  lemma {:induction false} ImageSize(f: nat -> string, lo: nat, n: nat)
    requires Injective(f)
    ensures |Image(f, lo, n)| == n
    decreases n
  {
    if n > 0 {
      ImageSize(f, lo, n - 1);
      assert Image(f, lo, n) == Image(f, lo, n - 1) + {f(lo + n - 1)};
      assert f(lo + n - 1) !in Image(f, lo, n - 1);
    }
  }

  /**
   * Pigeonhole: among `|s| + 1` consecutive positions of an injective oracle,
   * one gives a string outside `s`.
   */
  lemma FreshWithin(f: nat -> string, lo: nat, s: set<string>)
    requires Injective(f)
    ensures exists k: nat :: lo <= k <= lo + |s| && f(k) !in s
  {
    var img := Image(f, lo, |s| + 1);
    ImageSize(f, lo, |s| + 1);
    assert img == (img * s) + (img - s);
    assert s == (img * s) + (s - img);
    assert |img - s| > 0;
    var x :| x in img - s;
    var k: nat :| lo <= k < lo + |s| + 1 && f(k) == x;
  }

  /** The decimal counter renders different counters differently. */
  lemma NatToStringIsInjective()
    ensures Injective(NatToString)
  {
    forall i: nat, j: nat | NatToString(i) == NatToString(j) ensures i == j {
      NatToStringInjective(i, j);
    }
  }

  /** Some counter from 1 to one past the number of keys is free, so the probe loop ends. */
  lemma FreeIdBound(t: Table) returns (w: nat)
    ensures 1 <= w <= 1 + |t.vals.Keys| && NatToString(w) !in t.vals
  {
    NatToStringIsInjective();
    FreshWithin(NatToString, 1, t.vals.Keys);
    w :| 1 <= w <= 1 + |t.vals.Keys| && NatToString(w) !in t.vals.Keys;
  }

  /**
   * The scan that opens both generators and the per-row lookup: the first
   * token, in insertion order, whose original value is `value`.
   */
  method FindToken(t: Table, value: string) returns (token: Option<string>)
    requires WellFormed(t)
    ensures token == ReverseLookup(t, value)
  {
    for i := 0 to |t.keys|
      invariant FirstIndexFrom(t, value, 0) == FirstIndexFrom(t, value, i)
    {
      var k := t.keys[i];
      if t.vals[k] == value {
        return Some(k);
      }
    }
    return None;
  }

  /** `token` is `str(k)` for the least `k >= 1` whose string form is not yet a key. */
  ghost predicate IsLeastFreeId(t: Table, token: string) {
    exists k: nat :: 1 <= k && token == NatToString(k) && token !in t.vals && IdsTaken(t, k)
  }

  /** Every counter from 1 up to but excluding `n` is already a key. */
  ghost predicate IdsTaken(t: Table, n: nat) {
    forall j: nat :: 1 <= j < n ==> NatToString(j) in t.vals
  }

  /** Every draw from position `from` up to but excluding `to` was already a key. */
  ghost predicate DrawsTaken(t: Table, draws: nat -> string, from: nat, to: int) {
    forall i :: from <= i < to ==> draws(i) in t.vals
  }

  /**
   * `token` is the first draw from position `cursor` on that is not a key:
   * it is draw `next - 1`, and every draw before it from `cursor` on was a key.
   */
  ghost predicate FirstFreeDraw(t: Table, draws: nat -> string, cursor: nat, next: nat, token: string) {
    && cursor < next && token == draws(next - 1) && token !in t.vals
    && DrawsTaken(t, draws, cursor, next - 1)
  }

  /**
   * `generate_uuid_token`: reuse the value's token if it has one and draw
   * nothing; otherwise draw from position `cursor` on until a draw is not a
   * key. `next` is the position after the last draw.
   */
  method GenerateUuidToken(value: string, t: Table, draws: nat -> string, cursor: nat)
    returns (token: string, next: nat)
    requires WellFormed(t)
    requires exists i: nat :: cursor <= i && draws(i) !in t.vals
    ensures ReverseLookup(t, value).Some? ==> token == ReverseLookup(t, value).value && next == cursor
    ensures ReverseLookup(t, value).None? ==> FirstFreeDraw(t, draws, cursor, next, token)
  {
    var existing := FindToken(t, value);
    if existing.Some? {
      return existing.value, cursor;
    }
    ghost var w: nat :| cursor <= w && draws(w) !in t.vals;
    token, next := draws(cursor), cursor + 1;
    while token in t.vals
      invariant cursor < next <= w + 1
      invariant token == draws(next - 1)
      invariant DrawsTaken(t, draws, cursor, next - 1)
      decreases w + 1 - next
    {
      token, next := draws(next), next + 1;
    }
  }

  /**
   * `generate_sequential_token`: reuse the value's token if it has one;
   * otherwise probe `str(1)`, `str(2)`, ... for the first one that is not a key.
   */
  method GenerateSequentialToken(value: string, t: Table) returns (token: string)
    requires WellFormed(t)
    ensures ReverseLookup(t, value).Some? ==> token == ReverseLookup(t, value).value
    ensures ReverseLookup(t, value).None? ==> IsLeastFreeId(t, token)
  {
    var existing := FindToken(t, value);
    if existing.Some? {
      return existing.value;
    }
    ghost var w := FreeIdBound(t);
    var nextId: nat := 1;
    while NatToString(nextId) in t.vals
      invariant 1 <= nextId <= w
      invariant IdsTaken(t, nextId)
      decreases w - nextId
    {
      assert nextId != w;
      assert IdsTaken(t, nextId + 1) by {
        forall j: nat | 1 <= j < nextId + 1 ensures NatToString(j) in t.vals {
          if j < nextId {
            assert IdsTaken(t, nextId);
          }
        }
      }
      nextId := nextId + 1;
    }
    token := NatToString(nextId);
  }

  /** The keys of `t` are `str(1)`, `str(2)`, ... in insertion order: a map built by the sequential generator alone. */
  ghost predicate SequentialIds(t: Table) {
    forall i :: 0 <= i < |t.keys| ==> t.keys[i] == NatToString(i + 1)
  }

  /** On such a map the counter one past the number of entries is not yet a key. */
  lemma NextIdFresh(t: Table)
    requires WellFormed(t) && SequentialIds(t)
    ensures NatToString(|t.keys| + 1) !in t.vals
  {
    var n := |t.keys|;
    NatToStringIsInjective();
    assert forall i :: 0 <= i < n ==> t.keys[i] != NatToString(n + 1);
  }

  /** On such a map the least free counter is one past the number of entries. */
  lemma SequentialNextId(t: Table, token: string)
    requires WellFormed(t) && SequentialIds(t)
    ensures IsLeastFreeId(t, token) <==> token == NatToString(|t.keys| + 1)
  {
    var n := |t.keys|;
    NextIdFresh(t);
    assert forall j: nat :: 1 <= j < n + 1 ==> NatToString(j) in t.vals by {
      forall j: nat | 1 <= j < n + 1 ensures NatToString(j) in t.vals {
        assert t.keys[j - 1] == NatToString(j);
      }
    }
    if IsLeastFreeId(t, token) {
      var k: nat :| 1 <= k && token == NatToString(k) && token !in t.vals
        && forall j: nat :: 1 <= j < k ==> NatToString(j) in t.vals;
      assert k == n + 1;
    }
  }

  /** Inserting the next counter keeps the map in the sequential shape, one entry longer. */
  lemma SequentialIdsPut(t: Table, value: string)
    requires WellFormed(t) && SequentialIds(t)
    ensures SequentialIds(Put(t, NatToString(|t.keys| + 1), value))
    ensures |Put(t, NatToString(|t.keys| + 1), value).keys| == |t.keys| + 1
  {
    var token := NatToString(|t.keys| + 1);
    NextIdFresh(t);
    var r := Put(t, token, value);
    assert r.keys == t.keys + [token];
    forall i | 0 <= i < |r.keys| ensures r.keys[i] == NatToString(i + 1) {
      if i < |t.keys| {
        assert r.keys[i] == t.keys[i];
        assert t.keys[i] == NatToString(i + 1);
      } else {
        assert i == |t.keys|;
        assert r.keys[i] == token;
      }
    }
  }

  /** On a map built by the sequential generator alone, the i-th value inserted has token `str(i)`. */
  lemma SequentialTokens(t: Table)
    requires WellFormed(t) && SequentialIds(t)
    ensures forall i :: 0 <= i < |t.keys| ==> MapsTo(t, NatToString(i + 1), Values(t)[i])
  {
    forall i | 0 <= i < |t.keys| ensures MapsTo(t, NatToString(i + 1), Values(t)[i]) {
      assert t.keys[i] == NatToString(i + 1);
    }
  }

  /** The generator the run selected (the `token_generator` callable). */
  method GenerateToken(strategy: Strategy, value: string, t: Table, draws: nat -> string, cursor: nat)
    returns (token: string, next: nat)
    requires WellFormed(t)
    requires strategy == Uuid ==> exists i: nat :: cursor <= i && draws(i) !in t.vals
    ensures ReverseLookup(t, value).Some? ==> token == ReverseLookup(t, value).value && next == cursor
    ensures ReverseLookup(t, value).None? ==> token !in t.vals
    ensures cursor <= next
    ensures strategy == Sequential ==> next == cursor
    ensures strategy == Sequential && ReverseLookup(t, value).None? ==> IsLeastFreeId(t, token)
    ensures strategy == Uuid && ReverseLookup(t, value).None? ==> FirstFreeDraw(t, draws, cursor, next, token)
  {
    match strategy
    case Uuid =>
      token, next := GenerateUuidToken(value, t, draws, cursor);
    case Sequential =>
      token := GenerateSequentialToken(value, t);
      next := cursor;
  }
}
