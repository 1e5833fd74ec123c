/**
 * The per-station record of the single-threaded processor and the update
 * that parseInput applies to it for every line. Values are scaled integers
 * (the quantity x 10), so min, max and the total are exact.
 */
module Stats {
  import opened Common

  /** The `data` struct: the least, greatest and summed value of a station and
      the number of its lines. */
  datatype Data = Data(min: int, max: int, total: int, count: nat)

  /** One parsed line: a station name and its scaled value. */
  datatype Observation = Observation(key: seq<byte>, value: int)

  type Table = map<seq<byte>, Data>

  /** A later sighting of a station: one more line, v added to the total,
      then min lowered or else max raised. */
  function Step(d: Data, v: int): (e: Data)
    ensures e.count == d.count + 1 && e.total == d.total + v
    ensures e.min <= d.min && d.max <= e.max
    ensures e.min == v || e.max == v || (e.min == d.min && e.max == d.max && d.min <= v <= d.max)
  {
    var d := d.(count := d.count + 1, total := d.total + v);
    if v < d.min then d.(min := v) else if v > d.max then d.(max := v) else d
  }

  /**
   * One step of parseInput: a first sighting inserts {count 1, min = max =
   * total = v}, a later one stores back Step of the record.
   */
  function Update(m: Table, key: seq<byte>, v: int): (r: Table)
    ensures r.Keys == m.Keys + {key}
    ensures key !in m ==> r[key] == Data(v, v, v, 1)
    ensures key in m ==> r[key] == Step(m[key], v)
    ensures forall k :: k in m && k != key ==> r[k] == m[k]
  {
    if key !in m then m[key := Data(v, v, v, 1)] else m[key := Step(m[key], v)]
  }

  /** No other key's record changes. */
  lemma UpdateLeavesOthers(m: Table, key: seq<byte>, v: int, k: seq<byte>)
    requires k != key
    ensures k in Update(m, key, v) <==> k in m
    ensures k in m ==> Update(m, key, v)[k] == m[k]
  {
  }

  function Min(a: int, b: int): int { if a <= b then a else b }
  function Max(a: int, b: int): int { if a <= b then b else a }

  /** With min <= max a value below min cannot also lie above max, so the
      `else if` loses nothing: the record ends with min(min, v) and max(max, v). */
  lemma StepMinMax(d: Data, v: int)
    requires d.min <= d.max
    ensures Step(d, v).min == Min(d.min, v)
    ensures Step(d, v).max == Max(d.max, v)
  {
  }

  /** The invariant every stored record keeps: at least one line, min <= max,
      and the mean total/count between them. */
  predicate Consistent(d: Data) {
    d.count >= 1 && d.min <= d.max && d.count * d.min <= d.total <= d.count * d.max
  }

  predicate TableConsistent(m: Table) {
    forall k :: k in m ==> Consistent(m[k])
  }

  lemma MulMonotone(c: nat, a: int, b: int)
    requires a <= b
    ensures c * a <= c * b
  {
  }

  /** A later sighting keeps a record consistent. */
  lemma StepConsistent(d: Data, v: int)
    requires Consistent(d)
    ensures Consistent(Step(d, v))
  {
    StepMinMax(d, v);
    var c, lo, hi := d.count, Min(d.min, v), Max(d.max, v);
    MulMonotone(c, lo, d.min);
    MulMonotone(c, d.max, hi);
    assert (c + 1) * lo == c * lo + lo;
    assert (c + 1) * hi == c * hi + hi;
  }

  /** Update keeps every record consistent. */
  lemma UpdateConsistent(m: Table, key: seq<byte>, v: int)
    requires TableConsistent(m)
    ensures TableConsistent(Update(m, key, v))
  {
    if key in m {
      StepConsistent(m[key], v);
    }
  }

  // ---------------------------------------------------------------------
  // The table after a sequence of lines, and what each record then means.

  /** The names of the lines `obs`. */
  function Names(obs: seq<Observation>): set<seq<byte>>
  {
    set i | 0 <= i < |obs| :: obs[i].key
  }

  lemma NamesSnoc(obs: seq<Observation>)
    requires obs != []
    ensures Names(obs) == Names(obs[..|obs| - 1]) + {obs[|obs| - 1].key}
  {
    var prefix := obs[..|obs| - 1];
    forall k | k in Names(obs)
      ensures k in Names(prefix) + {obs[|obs| - 1].key}
    {
      var i :| 0 <= i < |obs| && obs[i].key == k;
      if i < |prefix| {
        assert prefix[i].key == k;
      }
    }
    forall k | k in Names(prefix)
      ensures k in Names(obs)
    {
      var i :| 0 <= i < |prefix| && prefix[i].key == k;
      assert obs[i].key == k;
    }
  }

  /** The table parseInput builds from `obs`, one Update per line in order:
      it holds exactly the names of the lines. */
  function Aggregate(obs: seq<Observation>): (m: Table)
    ensures m.Keys == Names(obs)
  {
    if obs == [] then map[]
    else
      var o := obs[|obs| - 1];
      NamesSnoc(obs);
      Update(Aggregate(obs[..|obs| - 1]), o.key, o.value)
  }

  /** The values of the lines whose key is `k`, in order. */
  function ValuesOf(obs: seq<Observation>, k: seq<byte>): seq<int>
  {
    if obs == [] then []
    else
      var o := obs[|obs| - 1];
      ValuesOf(obs[..|obs| - 1], k) + (if o.key == k then [o.value] else [])
  }

  function Sum(s: seq<int>): int
  {
    if s == [] then 0 else Sum(s[..|s| - 1]) + s[|s| - 1]
  }

  /** `d` is exactly the statistic of the values `vs`. */
  predicate Summarises(d: Data, vs: seq<int>) {
    && d.count == |vs|
    && d.total == Sum(vs)
    && d.min in vs
    && d.max in vs
    && forall i :: 0 <= i < |vs| ==> d.min <= vs[i] <= d.max
  }

  /** Appending one line's value keeps a summary exact. */
  lemma SummaryStep(d: Data, vs: seq<int>, v: int)
    requires |vs| > 0 && Summarises(d, vs)
    ensures Summarises(Step(d, v), vs + [v])
  {
    StepMinMax(d, v);
    var ws := vs + [v];
    assert ws[..|ws| - 1] == vs;
    assert forall i :: 0 <= i < |vs| ==> ws[i] == vs[i];
    assert d.min in ws && d.max in ws && v in ws;
  }

  /**
   * The meaning of the table: a key is stored exactly when some line carries
   * it, and its record is the count, sum, least and greatest of that key's
   * values. Records of other keys are untouched by later lines.
   */
  lemma {:induction false} AggregateSummarises(obs: seq<Observation>, k: seq<byte>)
    ensures k in Aggregate(obs) <==> |ValuesOf(obs, k)| > 0
    ensures k in Aggregate(obs) ==> Summarises(Aggregate(obs)[k], ValuesOf(obs, k))
  {
    if obs != [] {
      var prefix, o := obs[..|obs| - 1], obs[|obs| - 1];
      AggregateSummarises(prefix, k);
      var m := Aggregate(prefix);
      var vs := ValuesOf(prefix, k);
      if o.key != k {
        assert ValuesOf(obs, k) == vs;
      } else {
        assert ValuesOf(obs, k) == vs + [o.value];
        if k in m {
          SummaryStep(m[k], vs, o.value);
        } else {
          assert vs == [];
          assert ValuesOf(obs, k) == [o.value];
          assert Sum([o.value]) == Sum([]) + o.value;
        }
      }
    }
  }

  lemma {:induction false} SumBounds(vs: seq<int>, lo: int, hi: int)
    requires forall i :: 0 <= i < |vs| ==> lo <= vs[i] <= hi
    ensures |vs| * lo <= Sum(vs) <= |vs| * hi
  {
    if vs != [] {
      var prefix := vs[..|vs| - 1];
      assert forall i :: 0 <= i < |prefix| ==> prefix[i] == vs[i];
      SumBounds(prefix, lo, hi);
      assert |vs| * lo == |prefix| * lo + lo;
      assert |vs| * hi == |prefix| * hi + hi;
    }
  }

  /** A summary of a non-empty sequence is consistent: in particular its mean lies in [min, max]. */
  lemma SummaryConsistent(d: Data, vs: seq<int>)
    requires |vs| > 0 && Summarises(d, vs)
    ensures Consistent(d)
  {
    SumBounds(vs, d.min, d.max);
  }

  /** Every table parseInput can build is consistent. */
  lemma AggregateConsistent(obs: seq<Observation>)
    ensures TableConsistent(Aggregate(obs))
  {
    forall k | k in Aggregate(obs)
      ensures Consistent(Aggregate(obs)[k])
    {
      AggregateSummarises(obs, k);
      SummaryConsistent(Aggregate(obs)[k], ValuesOf(obs, k));
    }
  }

  predicate ValuesWithin(obs: seq<Observation>, lo: int, hi: int) {
    forall i :: 0 <= i < |obs| ==> lo <= obs[i].value <= hi
  }

  /** The values of one key are among the values of all lines. */
  lemma {:induction false} ValuesBounded(obs: seq<Observation>, k: seq<byte>, lo: int, hi: int)
    requires ValuesWithin(obs, lo, hi)
    ensures forall j :: 0 <= j < |ValuesOf(obs, k)| ==> lo <= ValuesOf(obs, k)[j] <= hi
  {
    if obs != [] {
      var prefix := obs[..|obs| - 1];
      assert forall i :: 0 <= i < |prefix| ==> prefix[i] == obs[i];
      ValuesBounded(prefix, k, lo, hi);
    }
  }

  /** When every line's value lies in [lo, hi], so do every record's min and max. */
  lemma RecordBounds(obs: seq<Observation>, lo: int, hi: int)
    requires ValuesWithin(obs, lo, hi)
    ensures forall k :: k in Aggregate(obs) ==> lo <= Aggregate(obs)[k].min && Aggregate(obs)[k].max <= hi
  {
    forall k | k in Aggregate(obs)
      ensures lo <= Aggregate(obs)[k].min && Aggregate(obs)[k].max <= hi
    {
      AggregateSummarises(obs, k);
      ValuesBounded(obs, k, lo, hi);
    }
  }

  /** A key stored in the table is the key of some line. */
  lemma {:induction false} AggregateKeys(obs: seq<Observation>, k: seq<byte>)
    requires k in Aggregate(obs)
    ensures exists i :: 0 <= i < |obs| && obs[i].key == k
  {
    var prefix, o := obs[..|obs| - 1], obs[|obs| - 1];
    if o.key != k {
      AggregateKeys(prefix, k);
      var i :| 0 <= i < |prefix| && prefix[i].key == k;
      assert obs[i] == prefix[i];
    }
  }
}
