/**
 * The coarse time index (time.bin): one little-endian int32 record count per
 * elapsed interval, which lets the player jump to a second of the capture
 * without scanning the data file.
 */
module TimeIndex {
  import opened Bytes
  import opened Osc
  import opened RecordFormat

  /** TimeSpan ticks: 100 ns each. */
  const TicksPerSecond: nat := 10_000_000
  /** TimeWriteInterval, one second, in ticks. */
  const IntervalTicks: nat := TicksPerSecond

  /** The index file holding `es`, each entry written with BitConverter.GetBytes(int). */
  function Words(es: seq<int>): (r: seq<byte>)
    ensures |r| == 4 * |es|
  {
    if es == [] then [] else Words(es[..|es| - 1]) + Int32Bytes(es[|es| - 1])
  }

  /** Entry i occupies bytes [4i, 4i + 4) of the index file. */
  lemma {:induction false} WordsAt(es: seq<int>, i: nat)
    requires i < |es|
    ensures Words(es)[4 * i..4 * i + 4] == Int32Bytes(es[i])
    decreases |es|
  {
    var init := es[..|es| - 1];
    if i < |es| - 1 {
      WordsAt(init, i);
      assert init[i] == es[i];
    }
  }

  predicate NonDecreasing(es: seq<int>)
  {
    forall i, j :: 0 <= i < j < |es| ==> es[i] <= es[j]
  }

  /** Every entry is a record count no larger than `count`. */
  predicate Bounded(es: seq<int>, count: nat)
  {
    forall i :: 0 <= i < |es| ==> 0 <= es[i] <= count
  }

  /** The (int) conversion of a double quotient: truncation toward zero. */
  function TruncDiv(a: int, b: nat): (q: int)
    requires b > 0
    ensures a >= 0 ==> q * b <= a < (q + 1) * b
    ensures a < 0 ==> q <= 0 && (q - 1) * b < a <= q * b
  {
    if a >= 0 then a / b else -((-a) / b)
  }

  /**
   * The index covers the capture: at least one entry per whole second of the
   * total duration, the test at OscRecorder.cs line 420.
   */
  predicate CoversDuration(indexLength: nat, totalTicks: int)
  {
    indexLength / 4 >= TruncDiv(totalTicks, IntervalTicks)
  }

  /**
   * The slider target after the seek callback has treated it: clamped into
   * [0, total], then rounded down to a whole interval.
   */
  function SeekTime(target: int, total: nat): (t: nat)
    ensures t % IntervalTicks == 0
    ensures var c := Clamp(target, 0, total); t <= c < t + IntervalTicks
  {
    var c := Clamp(target, 0, total);
    c - c % IntervalTicks
  }

  /**
   * SetDataStreamPosition(k): the index word read at byte min(4k, length - 4)
   * gives a record count, and the data position becomes width times that
   * count in int arithmetic. None when either stream seek would land before
   * the start of its file, where the source throws.
   */
  function SeekPosition(index: seq<byte>, width: nat, k: nat): (r: Option<nat>)
    ensures r.Some? ==> |index| >= 4
  {
    var offset := if 4 * k < |index| - 4 then 4 * k else |index| - 4;
    if offset < 0 then None
    else
      var position := Wrap32(width * ToInt32(index[offset..offset + 4]));
      if position < 0 then None else Some(position)
  }

  /**
   * Seeking through an index written by the recorder: interval k is looked up
   * directly (the last entry stands in for any later interval), and the data
   * position is that entry's count of whole records, so it always falls on a
   * record boundary within the data written.
   */
  lemma SeekOnIndex(es: seq<int>, count: nat, width: nat, k: nat)
    requires |es| >= 1 && Bounded(es, count) && 0 < width && width * count < 0x8000_0000
    ensures var e := es[if k < |es| then k else |es| - 1];
      0 <= e <= count && SeekPosition(Words(es), width, k) == Some(width * e)
  {
    var i := if k < |es| then k else |es| - 1;
    ProductBound(width, es[i], count);
    EntryAt(es, i);
    SeekPositionAt(Words(es), width, k, i, es[i]);
  }

  /** An entry of the index file reads back as itself. */
  lemma EntryAt(es: seq<int>, i: nat)
    requires i < |es| && -0x8000_0000 <= es[i] < 0x8000_0000
    ensures ToInt32(Words(es)[4 * i..4 * i + 4]) == es[i]
  {
    WordsAt(es, i);
    Int32RoundTrip(es[i]);
  }

  lemma SeekPositionAt(index: seq<byte>, width: nat, k: nat, i: nat, e: int)
    requires 4 * i == (if 4 * k < |index| - 4 then 4 * k else |index| - 4)
    requires 4 * i + 4 <= |index| && ToInt32(index[4 * i..4 * i + 4]) == e
    requires 0 <= width * e < 0x8000_0000
    ensures SeekPosition(index, width, k) == Some(width * e)
  {
    var p := width * e;
    assert p % 0x1_0000_0000 == p;
    assert Wrap32(p) == p;
  }

  lemma ProductBound(width: nat, e: int, count: nat)
    requires 0 < width && 0 <= e <= count && width * count < 0x8000_0000
    ensures 0 <= e <= width * e <= width * count < 0x8000_0000
  {
    MulMonotone(width, e, count);
    MulMonotone(e, 1, width);
  }

  lemma MulMonotone(a: nat, b: nat, c: nat)
    requires b <= c
    ensures a * b <= a * c
  {
  }
}
