/**
 * The single-threaded processor: a table from station name to its record,
 * filled line by line by ParseInput and written out, names ascending, by
 * PrintResult. Lines are given as a sequence of byte strings without their
 * terminators; values are the fixed-point decoder's scaled integers.
 */
module Processor {
  import opened Common
  import FixedPoint
  import opened Stats
  import ByteOrder

  /** Why a line stops parseInput: it has no ';' (the source panics on the
      missing second part of the split), or its value does not parse. */
  datatype LineError = MissingSeparator(line: seq<byte>) | BadValue(text: seq<byte>)

  /** The index of the first ';' in `line`, if any. */
  function FindSeparator(line: seq<byte>): (r: Option<nat>)
    ensures r.Some? ==> r.value < |line| && line[r.value] == SEMICOLON && SEMICOLON !in line[..r.value]
    ensures r.None? ==> SEMICOLON !in line
  {
    if line == [] then None
    else if line[0] == SEMICOLON then Some(0)
    else match FindSeparator(line[1..])
      case None => None
      case Some(i) =>
        assert line[..i + 1] == [line[0]] + line[1..][..i];
        Some(i + 1)
  }

  /** The value of a line: exactly `-?D{1,2}.D`, decoded to the value x 10. */
  function ParseValue(text: seq<byte>): (r: Result<int, LineError>)
    ensures r.Success? <==> FixedPoint.Exact(text)
    ensures r.Success? ==> FixedPoint.Decode(text) == Success(r.value) && -999 <= r.value <= 999
  {
    if FixedPoint.Exact(text) then
      FixedPoint.ShapedDecodes(text);
      Success(FixedPoint.Decode(text).value)
    else Failure(BadValue(text))
  }

  /**
   * One line split at its first ';': the key is everything before it, the
   * value everything after it.
   */
  function ParseLine(line: seq<byte>): (r: Result<Observation, LineError>)
    ensures r.Success? ==>
      var k := |r.value.key|;
      && k < |line|
      && line[..k] == r.value.key
      && line[k] == SEMICOLON
      && SEMICOLON !in r.value.key
      && ParseValue(line[k + 1..]) == Success(r.value.value)
    ensures SEMICOLON !in line ==> r == Failure(MissingSeparator(line))
    ensures SEMICOLON in line ==>
      (r.Success? <==> ParseValue(line[FindSeparator(line).value + 1..]).Success?)
    ensures r.Failure? && SEMICOLON in line ==> r.error.BadValue?
  {
    match FindSeparator(line)
    case None => Failure(MissingSeparator(line))
    case Some(i) =>
      match ParseValue(line[i + 1..])
      case Failure(e) => Failure(e)
      case Success(v) => Success(Observation(line[..i], v))
  }

  /** A key without ';', then ';', then any text: the line yields that key and
      the decoded text when the text is `-?D{1,2}.D`, and a BadValue otherwise. */
  lemma ParseLineSplit(key: seq<byte>, text: seq<byte>)
    requires SEMICOLON !in key
    ensures FixedPoint.Exact(text) ==>
      ParseLine(key + [SEMICOLON] + text) == Success(Observation(key, FixedPoint.Decode(text).value))
    ensures !FixedPoint.Exact(text) ==> ParseLine(key + [SEMICOLON] + text) == Failure(BadValue(text))
  {
    var line := key + [SEMICOLON] + text;
    SeparatorAfterKey(key, [SEMICOLON] + text);
    assert line == key + ([SEMICOLON] + text);
    assert line[..|key|] == key;
    assert line[|key| + 1..] == text;
  }

  /** A key without ';' and an encoded value form a line that parses back to them. */
  lemma ParseLineRoundTrip(key: seq<byte>, v: int)
    requires SEMICOLON !in key
    requires -999 <= v <= 999
    ensures ParseLine(key + [SEMICOLON] + FixedPoint.Encode(v)) == Success(Observation(key, v))
  {
    ParseLineSplit(key, FixedPoint.Encode(v));
    FixedPoint.EncodeDecode(v);
  }

  lemma {:induction false} SeparatorAfterKey(key: seq<byte>, rest: seq<byte>)
    requires SEMICOLON !in key
    requires |rest| > 0 && rest[0] == SEMICOLON
    ensures FindSeparator(key + rest) == Some(|key|)
  {
    if key != [] {
      assert (key + rest)[1..] == key[1..] + rest;
      SeparatorAfterKey(key[1..], rest);
    }
  }

  /** The parse of every line, in order. */
  function Parse(lines: seq<seq<byte>>): (r: seq<Result<Observation, LineError>>)
    ensures |r| == |lines|
  {
    if lines == [] then [] else [ParseLine(lines[0])] + Parse(lines[1..])
  }

  lemma {:induction false} ParseAt(lines: seq<seq<byte>>, i: nat)
    requires i < |lines|
    ensures Parse(lines)[i] == ParseLine(lines[i])
  {
    if i > 0 {
      ParseAt(lines[1..], i - 1);
      assert lines[1..][i - 1] == lines[i];
    }
  }

  /** What parseInput does with a list of lines: the observations of the
      lines before the first bad one, and that line's error if there is one. */
  datatype Scanned = Scanned(obs: seq<Observation>, err: Option<LineError>)

  function Scan(lines: seq<seq<byte>>): Scanned
  {
    Collect(Parse(lines), 0)
  }

  /** The loop of parseInput over parse results from index `i` on: record
      each success, stop at the first failure. */
  function Collect(rs: seq<Result<Observation, LineError>>, i: nat): Scanned
    requires i <= |rs|
    decreases |rs| - i
  {
    if i == |rs| then Scanned([], None)
    else match rs[i]
      case Failure(e) => Scanned([], Some(e))
      case Success(o) =>
        var rest := Collect(rs, i + 1);
        Scanned([o] + rest.obs, rest.err)
  }

  lemma {:induction false} CollectMeaning(rs: seq<Result<Observation, LineError>>, i: nat)
    requires i <= |rs|
    ensures |Collect(rs, i).obs| <= |rs| - i
    ensures forall j :: 0 <= j < |Collect(rs, i).obs| ==> rs[i + j] == Success(Collect(rs, i).obs[j])
    ensures Collect(rs, i).err.None? ==> |Collect(rs, i).obs| == |rs| - i
    ensures Collect(rs, i).err.Some? ==>
      |Collect(rs, i).obs| < |rs| - i && rs[i + |Collect(rs, i).obs|] == Failure(Collect(rs, i).err.value)
    decreases |rs| - i
  {
    if i < |rs| && rs[i].Success? {
      CollectMeaning(rs, i + 1);
    }
  }

  lemma AppendAssociative<T>(a: seq<T>, b: seq<T>, c: seq<T>)
    ensures (a + b) + c == a + (b + c)
  {
  }

  /** One turn of the loop: a failure stops the scan there, a success is
      recorded ahead of the rest. */
  lemma CollectStep(rs: seq<Result<Observation, LineError>>, i: nat)
    requires i < |rs|
    ensures rs[i].Failure? ==> Collect(rs, i) == Scanned([], Some(rs[i].error))
    ensures rs[i].Success? ==>
      Collect(rs, i) == Scanned([rs[i].value] + Collect(rs, i + 1).obs, Collect(rs, i + 1).err)
  {
  }

  /** Scan records every line up to the first one that fails to parse, in
      order, and reports that line's error; with no error it records them all. */
  lemma ScanMeaning(lines: seq<seq<byte>>)
    ensures |Scan(lines).obs| <= |lines|
    ensures forall i :: 0 <= i < |Scan(lines).obs| ==> ParseLine(lines[i]) == Success(Scan(lines).obs[i])
    ensures Scan(lines).err.None? ==> |Scan(lines).obs| == |lines|
    ensures Scan(lines).err.Some? ==>
      |Scan(lines).obs| < |lines| && ParseLine(lines[|Scan(lines).obs|]) == Failure(Scan(lines).err.value)
  {
    var rs := Parse(lines);
    CollectMeaning(rs, 0);
    forall i | 0 <= i < |Scan(lines).obs|
      ensures ParseLine(lines[i]) == Success(Scan(lines).obs[i])
    {
      ParseAt(lines, i);
      assert rs[0 + i] == rs[i];
    }
    if Scan(lines).err.Some? {
      ParseAt(lines, |Scan(lines).obs|);
    }
  }

  lemma {:induction false} CollectAll(rs: seq<Result<Observation, LineError>>, i: nat, obs: seq<Observation>)
    requires i <= |rs| && |obs| == |rs| - i
    requires forall j :: 0 <= j < |obs| ==> rs[i + j] == Success(obs[j])
    ensures Collect(rs, i) == Scanned(obs, None)
    decreases |rs| - i
  {
    if i < |rs| {
      var later := obs[1..];
      forall j | 0 <= j < |later|
        ensures rs[i + 1 + j] == Success(later[j])
      {
        assert later[j] == obs[j + 1] && rs[i + 1 + j] == rs[i + (j + 1)];
      }
      CollectAll(rs, i + 1, later);
      assert rs[i] == rs[i + 0];
      assert obs == [obs[0]] + later;
    }
  }

  /** Conversely, lines that all parse are scanned to their observations, in order. */
  lemma ScanAll(lines: seq<seq<byte>>, obs: seq<Observation>)
    requires |lines| == |obs|
    requires forall i :: 0 <= i < |lines| ==> ParseLine(lines[i]) == Success(obs[i])
    ensures Scan(lines) == Scanned(obs, None)
  {
    var rs := Parse(lines);
    forall j | 0 <= j < |obs|
      ensures rs[0 + j] == Success(obs[j])
    {
      ParseAt(lines, j);
    }
    CollectAll(rs, 0, obs);
  }

  /** Every key Scan records is free of ';'. */
  lemma {:induction false} ScanKeys(lines: seq<seq<byte>>)
    ensures forall i :: 0 <= i < |Scan(lines).obs| ==> SEMICOLON !in Scan(lines).obs[i].key
  {
    ScanMeaning(lines);
  }

  /** No key of a table built from parsed lines contains ';'. */
  lemma StoredKeysHaveNoSeparator(obs: seq<Observation>)
    requires forall i :: 0 <= i < |obs| ==> SEMICOLON !in obs[i].key
    ensures forall k :: k in Aggregate(obs) ==> SEMICOLON !in k
  {
    forall k | k in Aggregate(obs)
      ensures SEMICOLON !in k
    {
      AggregateKeys(obs, k);
    }
  }

  // ---------------------------------------------------------------------
  // Rendering: `name=min/mean/max`, each with one fractional digit.

  /** total / count to the nearest integer, halves to even. */
  function RoundQuotient(total: int, count: nat): int
    requires count >= 1
  {
    var f, r := total / count, total % count;
    if 2 * r < count then f
    else if 2 * r > count then f + 1
    else if f % 2 == 0 then f
    else f + 1
  }

  /** RoundQuotient is a nearest integer to total / count, and an even one on a tie. */
  lemma RoundQuotientNearest(total: int, count: nat)
    requires count >= 1
    ensures var q := RoundQuotient(total, count);
      count * (2 * q - 1) <= 2 * total <= count * (2 * q + 1)
    ensures var q := RoundQuotient(total, count);
      (2 * total == count * (2 * q - 1) || 2 * total == count * (2 * q + 1)) ==> q % 2 == 0
  {
    var f, r := total / count, total % count;
    assert total == count * f + r;
    assert count * (2 * f - 1) == 2 * (count * f) - count;
    assert count * (2 * f + 1) == 2 * (count * f) + count;
    assert count * (2 * (f + 1) - 1) == 2 * (count * f) + count;
    assert count * (2 * (f + 1) + 1) == 2 * (count * f) + 3 * count;
  }

  /** A negative quotient rounds to a value no greater than zero, and a
      rounded value below zero comes from a negative quotient. */
  lemma RoundQuotientSign(total: int, count: nat)
    requires count >= 1
    ensures RoundQuotient(total, count) < 0 ==> total < 0
    ensures total < 0 ==> RoundQuotient(total, count) <= 0
  {
    var f, r := total / count, total % count;
    assert total == count * f + r && 0 <= r < count;
    if total >= 0 {
      assert f >= 0;
    } else {
      assert f < 0;
    }
  }

  /** `-0.0`, the text Go prints for a negative mean that rounds to zero. */
  const NegativeZero: seq<byte> := [MINUS, ZERO, DOT, ZERO]

  lemma NegativeZeroDecodes()
    ensures FixedPoint.Exact(NegativeZero) && FixedPoint.Decode(NegativeZero) == Success(0)
  {
    assert FixedPoint.Magnitude(NegativeZero) == [ZERO, DOT, ZERO];
  }

  /**
   * The mean of a record as `%.1f` prints the quotient total/count: its
   * nearest tenth, with a '-' exactly when the quotient is negative, so a
   * negative mean that rounds to zero prints as `-0.0`. A zero count prints
   * as Go prints 0/0 and x/0 in floating point.
   */
  function FormatMean(total: int, count: nat): (r: seq<byte>)
    ensures count >= 1 ==> |r| > 0 && (r[0] == MINUS <==> total < 0)
    ensures count >= 1 && -999 <= RoundQuotient(total, count) <= 999 ==>
      FixedPoint.Exact(r) && FixedPoint.Decode(r) == Success(RoundQuotient(total, count))
  {
    if count == 0 then
      if total == 0 then FromString("NaN")
      else if total > 0 then FromString("+Inf")
      else FromString("-Inf")
    else
      var q := RoundQuotient(total, count);
      RoundQuotientSign(total, count);
      FixedPoint.EncodeSign(q);
      if total < 0 && q == 0 then
        NegativeZeroDecodes();
        NegativeZero
      else
        assert -999 <= q <= 999 ==> FixedPoint.Exact(FixedPoint.Encode(q)) by {
          if -999 <= q <= 999 {
            FixedPoint.EncodeDecode(q);
          }
        }
        assert -999 <= q <= 999 ==> FixedPoint.Decode(FixedPoint.Encode(q)) == Success(q) by {
          if -999 <= q <= 999 {
            FixedPoint.EncodeDecode(q);
          }
        }
        FixedPoint.Encode(q)
  }

  /** The rounded mean of a consistent record lies between its min and max. */
  lemma MeanInRange(d: Data)
    requires Consistent(d)
    ensures d.min <= RoundQuotient(d.total, d.count) <= d.max
  {
    var c, t := d.count, d.total;
    var f, r := t / c, t % c;
    assert t == c * f + r && 0 <= r < c;
    if f < d.min {
      MulMonotone(c, f + 1, d.min);
      assert false;
    }
    if f > d.max {
      MulMonotone(c, d.max + 1, f);
      assert false;
    }
    if f == d.max && r > 0 {
      assert false;
    }
  }

  /** The printed mean of a record of the table is the text of its rounded
      mean, which lies between its min and max and decodes back to itself. */
  lemma MeanPrints(d: Data)
    requires Consistent(d)
    requires -999 <= d.min && d.max <= 999
    ensures FixedPoint.Exact(FormatMean(d.total, d.count))
    ensures FixedPoint.Decode(FormatMean(d.total, d.count)) == Success(RoundQuotient(d.total, d.count))
    ensures d.min <= RoundQuotient(d.total, d.count) <= d.max
  {
    MeanInRange(d);
  }

  /** Every value Scan records has at most three digits. */
  lemma ScanValuesInRange(lines: seq<seq<byte>>)
    ensures ValuesWithin(Scan(lines).obs, -999, 999)
  {
    ScanMeaning(lines);
  }

  /** For every station of a table parseInput builds, the printed mean is the
      text of a value between the station's min and max. */
  lemma PrintedMeans(lines: seq<seq<byte>>, k: seq<byte>)
    requires k in Aggregate(Scan(lines).obs)
    ensures var d := Aggregate(Scan(lines).obs)[k];
      && d.count >= 1
      && FixedPoint.Decode(FormatMean(d.total, d.count)) == Success(RoundQuotient(d.total, d.count))
      && d.min <= RoundQuotient(d.total, d.count) <= d.max
  {
    var obs := Scan(lines).obs;
    ScanValuesInRange(lines);
    RecordBounds(obs, -999, 999);
    AggregateConsistent(obs);
    MeanPrints(Aggregate(obs)[k]);
  }

  /** `s` begins with the bytes `p`. */
  predicate StartsWith(s: seq<byte>, p: seq<byte>)
    decreases |p|
  {
    p == [] || (|s| > 0 && s[0] == p[0] && StartsWith(s[1..], p[1..]))
  }

  lemma {:induction false} StartsWithAppend(p: seq<byte>, rest: seq<byte>)
    ensures StartsWith(p + rest, p)
    decreases |p|
  {
    if p != [] {
      assert (p + rest)[1..] == p[1..] + rest;
      StartsWithAppend(p[1..], rest);
    }
  }

  /** The writes min, '/', mean, '/', max of an entry. */
  function Fields(d: Data): seq<byte>
  {
    Flatten([FixedPoint.Encode(d.min), [SLASH], FormatMean(d.total, d.count), [SLASH], FixedPoint.Encode(d.max)])
  }

  /** data.print: `name=min/mean/max`; it begins with the name and '='. */
  function Entry(name: seq<byte>, d: Data): (r: seq<byte>)
    ensures StartsWith(r, name + [EQUALS])
  {
    StartsWithAppend(name + [EQUALS], Fields(d));
    name + [EQUALS] + Fields(d)
  }

  /** Entry spelled out: the name, '=', then min, mean and max separated by '/'. */
  lemma EntryText(name: seq<byte>, d: Data)
    ensures Entry(name, d) == name + [EQUALS] + FixedPoint.Encode(d.min) + [SLASH]
      + FormatMean(d.total, d.count) + [SLASH] + FixedPoint.Encode(d.max)
  {
    var w: seq<seq<byte>> := [FixedPoint.Encode(d.min), [SLASH], FormatMean(d.total, d.count),
      [SLASH], FixedPoint.Encode(d.max)];
    assert Flatten(w[..1]) == FixedPoint.Encode(d.min) by {
      assert w[..1][..0] == [];
    }
    assert w[..2][..1] == w[..1] && w[..3][..2] == w[..2] && w[..4][..3] == w[..3];
    assert w[..5] == w && w[..5][..4] == w[..4];
    assert Flatten(w[..2]) == Flatten(w[..1]) + [SLASH];
    assert Flatten(w[..3]) == Flatten(w[..2]) + FormatMean(d.total, d.count);
    assert Flatten(w[..4]) == Flatten(w[..3]) + [SLASH];
  }

  /**
   * The entry of a consistent record in range reads back: after the name
   * and '=' come three fixed-point texts separated by '/', which decode to
   * the min, the rounded mean and the max.
   */
  lemma EntryFields(name: seq<byte>, d: Data)
    requires Consistent(d)
    requires -999 <= d.min && d.max <= 999
    ensures var lo, mean, hi := FixedPoint.Encode(d.min), FormatMean(d.total, d.count), FixedPoint.Encode(d.max);
      && Entry(name, d) == name + [EQUALS] + lo + [SLASH] + mean + [SLASH] + hi
      && FixedPoint.Exact(lo) && FixedPoint.Decode(lo) == Success(d.min)
      && FixedPoint.Exact(mean) && FixedPoint.Decode(mean) == Success(RoundQuotient(d.total, d.count))
      && FixedPoint.Exact(hi) && FixedPoint.Decode(hi) == Success(d.max)
  {
    EntryText(name, d);
    FixedPoint.EncodeDecode(d.min);
    FixedPoint.EncodeDecode(d.max);
    MeanPrints(d);
  }

  /**
   * The shape of printResult's writes, by position: "{", then each name's
   * entry with ", " between consecutive entries, then "}\n". The bytes
   * written are their concatenation, Flatten(out).
   */
  predicate IsOutput(out: seq<seq<byte>>, names: seq<seq<byte>>, m: Table) {
    && |names| > 0
    && |out| == 2 * |names| + 1
    && out[0] == [LBRACE]
    && (forall k :: 0 <= k < |names| ==> names[k] in m && out[2 * k + 1] == Entry(names[k], m[names[k]]))
    && (forall k :: 0 <= k < |names| - 1 ==> out[2 * k + 2] == [COMMA, SPACE])
    && out[2 * |names|] == [RBRACE, NEWLINE]
  }

  /** The entries of the names of `names`, in order. */
  function Entries(names: seq<seq<byte>>, m: Table): (es: seq<seq<byte>>)
    requires forall k :: 0 <= k < |names| ==> names[k] in m
    ensures |es| == |names|
    ensures forall k :: 0 <= k < |names| ==> es[k] == Entry(names[k], m[names[k]])
  {
    seq(|names|, k requires 0 <= k < |names| => Entry(names[k], m[names[k]]))
  }

  /** Each entry followed by ", ", in order. */
  function Leading(es: seq<seq<byte>>): (r: seq<seq<byte>>)
    ensures |r| == 2 * |es|
  {
    if es == [] then []
    else Leading(es[..|es| - 1]) + [es[|es| - 1], [COMMA, SPACE]]
  }

  /** "{", the entries separated by ", ", then "}\n". */
  function Layout(es: seq<seq<byte>>): seq<seq<byte>>
    requires |es| > 0
  {
    [[LBRACE]] + Leading(es[..|es| - 1]) + [es[|es| - 1], [RBRACE, NEWLINE]]
  }

  /** The writes of printResult for the listing `names` of table `m`. */
  function Output(names: seq<seq<byte>>, m: Table): seq<seq<byte>>
    requires |names| > 0
    requires forall k :: 0 <= k < |names| ==> names[k] in m
  {
    Layout(Entries(names, m))
  }

  lemma {:induction false} LeadingShape(es: seq<seq<byte>>)
    ensures forall k :: 0 <= k < |es| ==> Leading(es)[2 * k] == es[k]
    ensures forall k :: 0 <= k < |es| ==> Leading(es)[2 * k + 1] == [COMMA, SPACE]
  {
    if es != [] {
      var prefix := es[..|es| - 1];
      LeadingShape(prefix);
      assert forall k :: 0 <= k < |prefix| ==> prefix[k] == es[k];
    }
  }

  /** Output has exactly the positional shape printResult promises. */
  lemma OutputShape(names: seq<seq<byte>>, m: Table)
    requires |names| > 0
    requires forall k :: 0 <= k < |names| ==> names[k] in m
    ensures IsOutput(Output(names, m), names, m)
  {
    var es := Entries(names, m);
    var out := Output(names, m);
    forall k | 0 <= k < |names|
      ensures out[2 * k + 1] == Entry(names[k], m[names[k]])
    {
      LayoutEntryAt(es, k);
    }
    forall k | 0 <= k < |names| - 1
      ensures out[2 * k + 2] == [COMMA, SPACE]
    {
      LayoutSeparatorAt(es, k);
    }
  }

  lemma LayoutEntryAt(es: seq<seq<byte>>, k: nat)
    requires k < |es|
    ensures Layout(es)[2 * k + 1] == es[k]
  {
    var prefix := es[..|es| - 1];
    if k < |prefix| {
      LeadingShape(prefix);
      assert Layout(es)[2 * k + 1] == Leading(prefix)[2 * k];
    }
  }

  lemma LayoutSeparatorAt(es: seq<seq<byte>>, k: nat)
    requires k < |es| - 1
    ensures Layout(es)[2 * k + 2] == [COMMA, SPACE]
  {
    var prefix := es[..|es| - 1];
    LeadingShape(prefix);
    assert Layout(es)[2 * k + 2] == Leading(prefix)[2 * k + 1];
  }

  /** The bytes of a sequence of writes, in order. */
  function Flatten(writes: seq<seq<byte>>): seq<byte>
  {
    if writes == [] then [] else Flatten(writes[..|writes| - 1]) + writes[|writes| - 1]
  }

  lemma AggregateSnoc(obs: seq<Observation>, o: Observation)
    ensures Aggregate(obs + [o]) == Update(Aggregate(obs), o.key, o.value)
  {
    assert (obs + [o])[..|obs|] == obs;
  }

  class Processor {
    /** Station name to its record. */
    var result: Table

    /** Every line folded into `result` so far, in order. */
    ghost var seen: seq<Observation>

    ghost predicate Valid()
      reads this
    {
      && result == Aggregate(seen)
      && forall k :: k in result ==> SEMICOLON !in k
    }

    /** New: an empty table. */
    constructor New()
      ensures Valid()
      ensures result == map[] && seen == []
    {
      result := map[];
      seen := [];
    }

    /**
     * parseInput: for each line in order, split it at the first ';', parse
     * the value and insert or update the record of the name. The first bad
     * line stops the loop with its error; the lines before it stay recorded.
     */
    method ParseInput(lines: seq<seq<byte>>) returns (err: Option<LineError>)
      requires Valid()
      modifies this
      ensures Valid()
      ensures seen == old(seen) + Scan(lines).obs
      ensures err == Scan(lines).err
    {
      ghost var rs := Parse(lines);
      assert Scan(lines) == Collect(rs, 0);
      for i := 0 to |lines|
        invariant Valid()
        invariant old(seen) + Collect(rs, 0).obs == seen + Collect(rs, i).obs
        invariant Collect(rs, 0).err == Collect(rs, i).err
      {
        CollectStep(rs, i);
        ghost var before, later := seen, Collect(rs, i + 1).obs;
        err := ParseLineInto(lines, i, rs);
        if err.Some? {
          assert seen + Collect(rs, i).obs == seen;
          return;
        }
        AppendAssociative(before, [rs[i].value], later);
      }
      assert seen + Collect(rs, |lines|).obs == seen;
      return None;
    }

    /** One turn of parseInput's loop, on line `i`: split the line and record
        it, or report why it does not parse and change nothing. `rs` holds
        the parse of every line. */
    method ParseLineInto(lines: seq<seq<byte>>, i: nat, ghost rs: seq<Result<Observation, LineError>>)
      returns (err: Option<LineError>)
      requires Valid()
      requires i < |lines| && rs == Parse(lines)
      modifies this
      ensures Valid()
      ensures rs[i].Failure? ==> err == Some(rs[i].error) && seen == old(seen)
      ensures rs[i].Success? ==> err == None && seen == old(seen) + [rs[i].value]
    {
      ParseAt(lines, i);
      var parsed := ParseLine(lines[i]);
      if parsed.Failure? {
        return Some(parsed.error);
      }
      Record(parsed.value.key, parsed.value.value);
      return None;
    }

    /**
     * The body of parseInput's loop after the split: insert a first record
     * for a new name, or read the record, bump its count and total, lower
     * min or else raise max, and store it back.
     */
    method Record(name: seq<byte>, v: int)
      requires Valid()
      requires SEMICOLON !in name
      modifies this
      ensures Valid()
      ensures seen == old(seen) + [Observation(name, v)]
      ensures result == Update(old(result), name, v)
    {
      ghost var before := result;
      if name !in result {
        result := result[name := Data(v, v, v, 1)];
      } else {
        var value := result[name];
        value := value.(count := value.count + 1);
        value := value.(total := value.total + v);
        if v < value.min {
          value := value.(min := v);
        } else if v > value.max {
          value := value.(max := v);
        }
        assert value == Step(before[name], v);
        result := result[name := value];
      }
      AggregateSnoc(seen, Observation(name, v));
      seen := seen + [Observation(name, v)];
    }
    /**
     * printResult: the names in ascending byte order, each once, written as
     * `{name=min/mean/max, ...}\n`; `out` is the sequence of writes. The
     * source indexes the first name unconditionally, so the table must not
     * be empty.
     */
    method PrintResult() returns (out: seq<seq<byte>>)
      requires |result| > 0
      ensures out == Output(ByteOrder.SortedKeys(result.Keys), result)
      ensures IsOutput(out, ByteOrder.SortedKeys(result.Keys), result)
    {
      var names := SortedNames();
      out := WriteEntries(names);
      OutputShape(names, result);
    }

    /** The first half of printResult: the names of the table, collected one
        by one and then sorted. */
    method SortedNames() returns (names: seq<seq<byte>>)
      ensures names == ByteOrder.SortedKeys(result.Keys)
    {
      names := [];
      var rest := result.Keys;
      while rest != {}
        invariant rest <= result.Keys
        invariant multiset(names) == multiset(result.Keys - rest)
        decreases |rest|
      {
        var name :| name in rest;
        assert (result.Keys - (rest - {name})) == (result.Keys - rest) + {name};
        names := names + [name];
        rest := rest - {name};
      }
      names := ByteOrder.Sort(names);
      ByteOrder.IsSortedKeys(names, result.Keys);
    }

    /** The second half of printResult: "{", every entry but the last followed
        by ", ", the last entry, then "}\n". */
    method WriteEntries(names: seq<seq<byte>>) returns (out: seq<seq<byte>>)
      requires |names| > 0
      requires forall k :: 0 <= k < |names| ==> names[k] in result
      ensures out == Output(names, result)
    {
      ghost var es := Entries(names, result);
      out := [[LBRACE]];
      var i := 0;
      while i < |names| - 1
        invariant 0 <= i <= |names| - 1
        invariant out == [[LBRACE]] + Leading(es[..i])
      {
        assert es[..i + 1][..i] == es[..i];
        out := out + [Entry(names[i], result[names[i]]), [COMMA, SPACE]];
        i := i + 1;
      }
      out := out + [Entry(names[i], result[names[i]]), [RBRACE, NEWLINE]];
    }
  }
}
