/**
 * The fixed-width record of the data file: bytes [0, 8) hold the elapsed
 * ticks as a little-endian int64, and bytes [8 + 4i, 12 + 4i) hold field i as
 * a little-endian 32-bit word (an int, a float's bits, or a string ordinal).
 */
module RecordFormat {
  import opened Bytes
  import opened Osc
  import opened Interner

  /** Bytes per record for a schema of `n` fields (_numBytesToWrite, _numBytesToRead). */
  function Width(n: nat): nat
  {
    8 + 4 * n
  }

  /** ValidateMessageFormat: the same arity and, position by position, the same kinds. */
  predicate Matches(types: seq<Kind>, vs: Message)
  {
    |vs| == |types| && forall i :: 0 <= i < |vs| ==> KindOf(vs[i]) == types[i]
  }

  predicate AllCapturable(vs: Message)
  {
    forall i :: 0 <= i < |vs| ==> Supported(KindOf(vs[i]))
  }

  /** The word written for one field; a string is replaced by its ordinal in `t`. */
  function FieldBytes(v: Value, t: seq<string>): (r: seq<byte>)
    requires Supported(KindOf(v))
    ensures |r| == 4
  {
    match v
    case IntValue(i) => Int32Bytes(i)
    case FloatValue(b) => FloatBytes(b)
    case StringValue(s) => Int32Bytes(IndexOf(t, s))
  }

  function FieldsBytes(vs: Message, t: seq<string>): (r: seq<byte>)
    requires AllCapturable(vs)
    ensures |r| == 4 * |vs|
    decreases |vs|
  {
    if vs == [] then [] else FieldsBytes(vs[..|vs| - 1], t) + FieldBytes(vs[|vs| - 1], t)
  }

  function EncodeRecord(ticks: int64, vs: Message, t: seq<string>): (r: seq<byte>)
    requires AllCapturable(vs)
    ensures |r| == Width(|vs|)
  {
    Int64Bytes(ticks) + FieldsBytes(vs, t)
  }

  /** Field i of a message sits at bytes [4i, 4i + 4) of the field area. */
  lemma {:induction false} FieldsBytesAt(vs: Message, t: seq<string>, i: nat)
    requires AllCapturable(vs) && i < |vs|
    ensures FieldsBytes(vs, t)[4 * i..4 * i + 4] == FieldBytes(vs[i], t)
    decreases |vs|
  {
    var init := vs[..|vs| - 1];
    assert AllCapturable(init) by {
      forall j | 0 <= j < |init| ensures Supported(KindOf(init[j])) {
        assert init[j] == vs[j];
      }
    }
    if i < |vs| - 1 {
      FieldsBytesAt(init, t, i);
      assert init[i] == vs[i];
    }
  }

  /** The record layout: ticks at [0, 8), field i at [8 + 4i, 12 + 4i). */
  lemma RecordLayout(ticks: int64, vs: Message, t: seq<string>, i: nat)
    requires AllCapturable(vs) && i < |vs|
    ensures EncodeRecord(ticks, vs, t)[..8] == Int64Bytes(ticks)
    ensures EncodeRecord(ticks, vs, t)[8 + 4 * i..12 + 4 * i] == FieldBytes(vs[i], t)
  {
    var r := EncodeRecord(ticks, vs, t);
    var f := FieldsBytes(vs, t);
    FieldsBytesAt(vs, t, i);
    assert r == Int64Bytes(ticks) + f;
    assert r[8..] == f;
    assert r[8 + 4 * i..12 + 4 * i] == r[8..][4 * i..4 * i + 4];
  }

  /** Growing the table does not change the encoding of a message whose strings it already holds. */
  lemma {:induction false} FieldsBytesExtend(vs: Message, t: seq<string>, u: seq<string>)
    requires AllCapturable(vs) && StringsIn(vs, t)
    ensures FieldsBytes(vs, t + u) == FieldsBytes(vs, t)
    decreases |vs|
  {
    if vs != [] {
      var init := vs[..|vs| - 1];
      assert AllCapturable(init) && StringsIn(init, t) by {
        forall j | 0 <= j < |init| ensures Supported(KindOf(init[j])) && (init[j].StringValue? ==> init[j].s in t) {
          assert init[j] == vs[j];
        }
      }
      FieldsBytesExtend(init, t, u);
      var v := vs[|vs| - 1];
      if v.StringValue? {
        IndexOfExtend(t, u, v.s);
      }
    }
  }

  /** Values in a schema the player can decode: String fields need a non-empty table. */
  predicate Decodable(types: seq<Kind>, strings: seq<string>)
  {
    AllSupported(types) && (String in types ==> |strings| > 0)
  }

  /** Math.Clamp on ints. */
  function Clamp(x: int, lo: int, hi: int): (r: int)
    requires lo <= hi
    ensures lo <= r <= hi
    ensures lo <= x <= hi ==> r == x
  {
    if x < lo then lo else if x > hi then hi else x
  }

  /** One field read back; a string ordinal is clamped into the table before lookup. */
  function DecodeField(k: Kind, w: seq<byte>, strings: seq<string>): (v: Value)
    requires |w| == 4 && Supported(k) && (k.String? ==> |strings| > 0)
    ensures KindOf(v) == k
  {
    match k
    case Int => IntValue(ToInt32(w))
    case Float => FloatValue(ToSingle(w))
    case String => StringValue(strings[Clamp(ToInt32(w), 0, |strings| - 1)])
  }

  function RecordTicks(rec: seq<byte>): int64
    requires |rec| >= 8
  {
    ToInt64(rec[..8])
  }

  /** The values of a record, field i decoded from bytes [8 + 4i, 12 + 4i). */
  function DecodeValues(types: seq<Kind>, strings: seq<string>, rec: seq<byte>): (vs: Message)
    requires Decodable(types, strings) && |rec| == Width(|types|)
    ensures Matches(types, vs)
  {
    seq(|types|, i requires 0 <= i < |types| => DecodeField(types[i], rec[8 + 4 * i..12 + 4 * i], strings))
  }

  /** Field i of a record is decoded from its own four bytes. */
  lemma DecodeValuesAt(types: seq<Kind>, strings: seq<string>, rec: seq<byte>, i: nat)
    requires Decodable(types, strings) && |rec| == Width(|types|) && i < |types|
    ensures DecodeValues(types, strings, rec)[i] == DecodeField(types[i], rec[8 + 4 * i..12 + 4 * i], strings)
  {
  }

  /** Round trip of one field: the word written for a value decodes back to it. */
  lemma DecodeFieldBytes(v: Value, t: seq<string>)
    requires Supported(KindOf(v)) && Distinct(t) && |t| <= 0x8000_0000
    requires v.StringValue? ==> v.s in t
    ensures DecodeField(KindOf(v), FieldBytes(v, t), t) == v
  {
    match v
    case IntValue(x) => Int32RoundTrip(x);
    case FloatValue(b) => FloatRoundTrip(b);
    case StringValue(s) => Int32RoundTrip(IndexOf(t, s));
  }

  /**
   * The other direction for strings: in a table the recorder built, an
   * ordinal the player looks up is written back as that same ordinal.
   */
  lemma OrdinalRoundTrip(i: int, t: seq<string>)
    requires Distinct(t) && 0 <= i < |t| <= 0x8000_0000
    ensures var v := DecodeField(String, Int32Bytes(i), t);
      v == StringValue(t[i]) && FieldBytes(v, t) == Int32Bytes(i)
  {
    Int32RoundTrip(i);
    IndexOfDistinct(t, i);
  }

  /** A message of the schema whose strings are in the table leaves the table decodable. */
  lemma MatchesDecodable(types: seq<Kind>, vs: Message, t: seq<string>)
    requires AllSupported(types) && Matches(types, vs) && StringsIn(vs, t)
    ensures AllCapturable(vs) && Decodable(types, t)
  {
    if String in types {
      var i :| 0 <= i < |types| && types[i] == String;
      assert vs[i].s in t;
    }
  }

  /**
   * Round trip of one record: a message of the schema whose strings are in a
   * duplicate-free table decodes to its own ticks and values.
   */
  lemma DecodeEncode(types: seq<Kind>, ticks: int64, vs: Message, t: seq<string>)
    requires AllSupported(types) && Matches(types, vs)
    requires Distinct(t) && StringsIn(vs, t) && |t| <= 0x8000_0000
    ensures AllCapturable(vs) && Decodable(types, t)
    ensures RecordTicks(EncodeRecord(ticks, vs, t)) == ticks
    ensures DecodeValues(types, t, EncodeRecord(ticks, vs, t)) == vs
  {
    MatchesDecodable(types, vs, t);
    var r := EncodeRecord(ticks, vs, t);
    assert r[..8] == Int64Bytes(ticks);
    Int64RoundTrip(ticks);
    var d := DecodeValues(types, t, r);
    forall i | 0 <= i < |vs|
      ensures d[i] == vs[i]
    {
      RecordLayout(ticks, vs, t, i);
      DecodeValuesAt(types, t, r, i);
      DecodeFieldBytes(vs[i], t);
    }
  }

  /** One captured message with its elapsed ticks. */
  datatype Entry = Entry(ticks: int64, values: Message)

  predicate LogMatches(types: seq<Kind>, log: seq<Entry>)
  {
    forall j :: 0 <= j < |log| ==> Matches(types, log[j].values)
  }

  /** The data file for a log: its records back to back. */
  function EncodeLog(types: seq<Kind>, log: seq<Entry>, t: seq<string>): (r: seq<byte>)
    requires AllSupported(types) && LogMatches(types, log)
    ensures |r| == |log| * Width(|types|)
  {
    if log == [] then []
    else
      MulSucc(|log| - 1, Width(|types|));
      EncodeRecord(log[0].ticks, log[0].values, t) + EncodeLog(types, log[1..], t)
  }

  lemma MulSucc(a: nat, b: nat)
    ensures (a + 1) * b == a * b + b
  {
  }

  /** The data file of a log is one record of the schema's width per entry. */
  lemma EncodeLogLength(types: seq<Kind>, log: seq<Entry>, t: seq<string>)
    requires AllSupported(types) && LogMatches(types, log)
    ensures |EncodeLog(types, log, t)| == |log| * Width(|types|)
  {
  }

  lemma {:induction false} EncodeLogAppend(types: seq<Kind>, log: seq<Entry>, e: Entry, t: seq<string>)
    requires AllSupported(types) && LogMatches(types, log) && Matches(types, e.values)
    ensures LogMatches(types, log + [e])
    ensures EncodeLog(types, log + [e], t) == EncodeLog(types, log, t) + EncodeRecord(e.ticks, e.values, t)
  {
    if log != [] {
      assert (log + [e])[1..] == log[1..] + [e];
      EncodeLogAppend(types, log[1..], e, t);
    }
  }

  /** Every string of every entry of the log is in the table. */
  predicate LogStringsIn(log: seq<Entry>, t: seq<string>)
  {
    forall j :: 0 <= j < |log| ==> StringsIn(log[j].values, t)
  }

  lemma {:induction false} EncodeLogExtend(types: seq<Kind>, log: seq<Entry>, t: seq<string>, u: seq<string>)
    requires AllSupported(types) && LogMatches(types, log) && LogStringsIn(log, t)
    ensures EncodeLog(types, log, t + u) == EncodeLog(types, log, t)
  {
    if log != [] {
      FieldsBytesExtend(log[0].values, t, u);
      EncodeLogExtend(types, log[1..], t, u);
    }
  }

  /** The string table after every message of the log, in order, has been interned. */
  function InternLog(t: seq<string>, log: seq<Entry>): seq<string>
    decreases |log|
  {
    if log == [] then t else InternValues(InternLog(t, log[..|log| - 1]), log[|log| - 1].values)
  }

  /** The table built from a log has no duplicates and holds every string of every message of the log. */
  lemma {:induction false} InternLogSpec(log: seq<Entry>)
    ensures Distinct(InternLog([], log)) && LogStringsIn(log, InternLog([], log))
    decreases |log|
  {
    if log != [] {
      var init := log[..|log| - 1];
      InternLogSpec(init);
      var m := InternLog([], init);
      var t := InternLog([], log);
      InternValuesSpec(m, log[|log| - 1].values);
      assert t == m + t[|m|..];
      forall j | 0 <= j < |log|
        ensures StringsIn(log[j].values, t)
      {
        if j < |log| - 1 {
          assert init[j] == log[j];
          assert StringsIn(init[j].values, m);
        }
      }
    }
  }

  /** Every string of the table built from a log is a string of one of the log's messages. */
  lemma {:induction false} InternLogOnly(log: seq<Entry>)
    ensures forall s :: s in InternLog([], log) ==>
      exists j, i :: 0 <= j < |log| && 0 <= i < |log[j].values| && log[j].values[i] == StringValue(s)
    decreases |log|
  {
    if log != [] {
      var init := log[..|log| - 1];
      var e := log[|log| - 1];
      InternLogOnly(init);
      var m := InternLog([], init);
      InternValuesOnly(m, e.values);
      forall s | s in InternLog([], log)
        ensures exists j, i :: 0 <= j < |log| && 0 <= i < |log[j].values| && log[j].values[i] == StringValue(s)
      {
        if s in m {
          var j, i :| 0 <= j < |init| && 0 <= i < |init[j].values| && init[j].values[i] == StringValue(s);
          assert log[j] == init[j];
        } else {
          var i :| 0 <= i < |e.values| && e.values[i] == StringValue(s);
          assert log[|log| - 1].values[i] == StringValue(s);
        }
      }
    }
  }

  /** The whole records of `data` from byte position `p` on, as the player reads them. */
  function RecordsFrom(data: seq<byte>, w: nat, p: nat): (recs: seq<seq<byte>>)
    requires w > 0
    ensures forall j :: 0 <= j < |recs| ==> |recs[j]| == w
    decreases |data| - p
  {
    if p + w > |data| then [] else [data[p..p + w]] + RecordsFrom(data, w, p + w)
  }

  /** Records are read at the same places after any prefix of whole records. */
  lemma {:induction false} RecordsFromShift(a: seq<byte>, b: seq<byte>, w: nat, p: nat)
    requires w > 0
    ensures RecordsFrom(a + b, w, |a| + p) == RecordsFrom(b, w, p)
    decreases |b| - p
  {
    if p + w <= |b| {
      assert (a + b)[|a| + p..|a| + p + w] == b[p..p + w];
      RecordsFromShift(a, b, w, p + w);
    }
  }

  /** Skipping e whole records from position p gives the records from p without the first e. */
  lemma {:induction false} RecordsFromSkip(data: seq<byte>, w: nat, p: nat, e: nat)
    requires w > 0 && p + w * e <= |data|
    ensures |RecordsFrom(data, w, p)| >= e
    ensures RecordsFrom(data, w, p + w * e) == RecordsFrom(data, w, p)[e..]
    decreases e
  {
    if e > 0 {
      var x := RecordsFrom(data, w, p + w);
      assert RecordsFrom(data, w, p) == [data[p..p + w]] + x;
      assert p + w + w * (e - 1) == p + w * e;
      RecordsFromSkip(data, w, p + w, e - 1);
      assert ([data[p..p + w]] + x)[e..] == x[e - 1..];
    }
  }

  /** Reading the data file of a log back gives exactly the log's records, in order. */
  lemma {:induction false} RecordsOfLog(types: seq<Kind>, log: seq<Entry>, t: seq<string>)
    requires AllSupported(types) && LogMatches(types, log)
    ensures var recs := RecordsFrom(EncodeLog(types, log, t), Width(|types|), 0);
      |recs| == |log| &&
      forall j :: 0 <= j < |log| ==> recs[j] == EncodeRecord(log[j].ticks, log[j].values, t)
  {
    if log != [] {
      var w := Width(|types|);
      var r := EncodeRecord(log[0].ticks, log[0].values, t);
      var rest := EncodeLog(types, log[1..], t);
      RecordsOfLog(types, log[1..], t);
      RecordsFromShift(r, rest, w, 0);
      assert (r + rest)[0..w] == r;
      var recs := RecordsFrom(r + rest, w, 0);
      assert recs == [r] + RecordsFrom(rest, w, 0);
      forall j | 0 <= j < |log|
        ensures recs[j] == EncodeRecord(log[j].ticks, log[j].values, t)
      {
        if j > 0 {
          assert log[1..][j - 1] == log[j];
        }
      }
    }
  }

  /** Every record has at least its ticks. */
  predicate Timed(recs: seq<seq<byte>>)
  {
    forall j :: 0 <= j < |recs| ==> |recs[j]| >= 8
  }

  /**
   * How many records, from the first, are due at time `cur`: all of them up to
   * the first whose ticks are later than `cur`.
   */
  function DueCount(recs: seq<seq<byte>>, cur: int): (n: nat)
    requires Timed(recs)
    ensures n <= |recs|
    ensures forall j :: 0 <= j < n ==> RecordTicks(recs[j]) <= cur
    ensures n < |recs| ==> RecordTicks(recs[n]) > cur
  {
    if recs == [] || RecordTicks(recs[0]) > cur then 0
    else
      var n := DueCount(recs[1..], cur);
      assert forall j :: 1 <= j < n + 1 ==> recs[j] == recs[1..][j - 1];
      1 + n
  }

  /** The messages a run of records decodes to, in order. */
  function DecodeAll(types: seq<Kind>, strings: seq<string>, recs: seq<seq<byte>>): (ms: seq<Message>)
    requires Decodable(types, strings)
    requires forall j :: 0 <= j < |recs| ==> |recs[j]| == Width(|types|)
    ensures |ms| == |recs|
  {
    seq(|recs|, j requires 0 <= j < |recs| => DecodeValues(types, strings, recs[j]))
  }
}
