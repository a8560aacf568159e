/**
 * Two places where the player, as written, departs from what the code around
 * it evidently intends. Each is modelled as written, next to an input that
 * shows the difference; the Playback module holds the corrected behaviour
 * that the rest of the model uses.
 */
module AsWritten {
  import opened Bytes
  import opened Osc
  import opened RecordFormat
  import opened TimeIndex
  import opened CaptureFolder
  import opened Playback

  /** How a call ends as written: with a value, or with an exception out of it. */
  datatype Outcome<T> = Returns(value: T) | Throws

  /**
   * OpenReadFiles as written. Every check before the seek to the last record
   * is the one Open makes; the seek to |data| - width then lands before the
   * start of the data file exactly when Open refuses the folder for a data
   * file shorter than a record, and there the stream throws instead of a
   * comment being set.
   */
  function OpenAsWritten(c: Capture): (r: Outcome<Opening>)
    ensures r.Returns? ==> r.value == Open(c) && r.value != Refused(DataFileTooShort)
    ensures r.Throws? ==> c.dataFile.Some? && 0 < |c.dataFile.value|
  {
    match Open(c)
    case Refused(DataFileTooShort) => Throws
    case o => Returns(o)
  }

  /** A folder whose data file holds four bytes of a twelve-byte schema: as written, opening it throws. */
  lemma ShortDataFileThrows()
    ensures var c := Capture(true, Some([1, 2, 3, 4]), Some(KindNames([Int])), Some([]), Some([]));
      && OpenAsWritten(c) == Throws
      && Open(c) == Refused(DataFileTooShort)
  {
    TypeFileRoundTrip([Int]);
    assert Width(1) == 12;
  }

  /**
   * Stream.Read into the player's buffer from position p: as many bytes as
   * are left, up to the buffer's length, overwrite its front; the rest of the
   * buffer keeps what the previous read left there.
   */
  function ReadCount(data: seq<byte>, p: nat, size: nat): (n: nat)
    ensures n <= size && (n > 0 ==> p + n <= |data|)
    ensures p + size <= |data| ==> n == size
  {
    if p >= |data| then 0 else if |data| - p < size then |data| - p else size
  }

  function ReadInto(data: seq<byte>, p: nat, buf: seq<byte>): (r: seq<byte>)
    ensures |r| == |buf|
    ensures var n := ReadCount(data, p, |buf|);
      && (forall i :: 0 <= i < n ==> r[i] == data[p + i])
      && r[n..] == buf[n..]
  {
    var n := ReadCount(data, p, |buf|);
    (if n == 0 then [] else data[p..p + n]) + buf[n..]
  }

  /** The buffer once a folder has opened: the last record's ticks, then the zeros it was created with. */
  function OpenedBuffer(data: seq<byte>, w: nat): (buf: seq<byte>)
    requires 8 <= w <= |data|
    ensures |buf| == w && buf[..8] == data[|data| - w..|data| - w + 8]
    ensures forall i :: 8 <= i < w ==> buf[i] == 0
  {
    data[|data| - w..|data| - w + 8] + seq(w - 8, _ => 0 as byte)
  }

  /** After a folder opens, the buffer's ticks are the total duration the player shows. */
  lemma OpenedBufferTicks(c: Capture)
    requires Open(c).Ready?
    ensures var o := Open(c);
      RecordTicks(OpenedBuffer(o.data, Width(|o.types|))) == o.total
  {
    var o := Open(c);
    var w := Width(|o.types|);
    assert OpenedBuffer(o.data, w)[..8] == o.data[|o.data| - w..][..8];
  }

  /** One call of TransmitOsc as written: how it ended, the player after it and its buffer. */
  datatype Run = Ran(deck: Deck, buffer: seq<byte>) | Threw | Spins

  /**
   * TransmitOsc as written: each turn reads a record's worth of bytes into
   * the buffer, whatever is left of the data file, and decodes the buffer. A
   * record later than the clock is stepped back over (throwing when that
   * lands before the start); otherwise it is sent, and the loop stops with a
   * rewind once the stream is at its end. `fuel` bounds the turns, Spins
   * being what is left when it runs out.
   */
  function TransmitAsWritten(d: Deck, buf: seq<byte>, fuel: nat): (r: Run)
    requires Loaded(d) && |buf| == d.width
    ensures r.Ran? ==> |r.deck.sent| >= |d.sent| && r.deck.sent[..|d.sent|] == d.sent
    decreases fuel
  {
    if !d.isPlaying || d.isPausing then Ran(d, buf)
    else if fuel == 0 then Spins
    else
      var got := ReadInto(d.data, d.position, buf);
      var p := d.position + ReadCount(d.data, d.position, |buf|);
      if RecordTicks(got) > d.currentTime then
        if p < d.width then Threw else Ran(d.(position := p - d.width), got)
      else
        var d1 := d.(sent := d.sent + [DecodeValues(d.types, d.strings, got)], position := p);
        if p != |d.data| then TransmitAsWritten(d1, got, fuel - 1)
        else Ran(d1.(position := 0, currentTime := 0, isPausing := !d.isLooping), got)
  }

  /**
   * At the end of the data file, with a clock past the ticks the buffer
   * holds, as written the read finds no byte and the buffer left by the
   * previous read (after an open: the last record's ticks and zeros) is sent
   * as a message before the rewind. The corrected step sends nothing and
   * rewinds.
   */
  lemma StaleBufferSent(d: Deck, buf: seq<byte>)
    requires Loaded(d) && d.isPlaying && !d.isPausing && d.position == |d.data|
    requires |buf| == d.width && RecordTicks(buf) <= d.currentTime
    ensures var rewound := d.(position := 0, currentTime := 0, isPausing := !d.isLooping);
      && TransmitAsWritten(d, buf, 1)
         == Ran(rewound.(sent := d.sent + [DecodeValues(d.types, d.strings, buf)]), buf)
      && Step(d) == rewound
  {
    assert ReadCount(d.data, d.position, |buf|) == 0;
    assert ReadInto(d.data, d.position, buf) == buf;
    assert RecordsFrom(d.data, d.width, d.position) == [];
  }

  /**
   * A frame at the end of the data file whose clock reaches the total, with
   * the buffer as the open left it: as written it sends the buffer, which
   * carries the last record's ticks; the corrected frame sends nothing.
   */
  lemma StaleFrame(s: Deck, delta: nat)
    requires Loaded(s) && s.isPlaying && !s.isPausing && s.position == |s.data|
    requires 8 <= s.width <= |s.data| && RecordTicks(s.data[|s.data| - s.width..]) == s.totalTime
    requires s.currentTime + delta * s.speed / 100 >= s.totalTime
    ensures var d := s.(currentTime := s.currentTime + delta * s.speed / 100);
      var buf := OpenedBuffer(s.data, s.width);
      && RecordTicks(buf) == s.totalTime
      && Advance(s, delta) == Step(d) && Step(d).sent == s.sent
      && TransmitAsWritten(d, buf, 1)
         == Ran(Step(d).(sent := s.sent + [DecodeValues(s.types, s.strings, buf)]), buf)
  {
    var d := s.(currentTime := s.currentTime + delta * s.speed / 100);
    var buf := OpenedBuffer(s.data, s.width);
    assert buf[..8] == s.data[|s.data| - s.width..][..8];
    StaleBufferSent(d, buf);
  }

  /**
   * The stale send reached from an open: the folder opens, the seek slider
   * lands at the end of the data file (an index entry equal to the number
   * of records, as EndToEnd.SeekRecorded allows), play is pressed and a
   * frame brings the clock to the total. The buffer still holds what the
   * open read into it, so as written the frame sends a message carrying the
   * last record's ticks and zero fields; the corrected frame sends nothing.
   */
  lemma StaleAfterSeek(d0: Deck, c: Capture, ks: seq<Kind>, ss: seq<string>, data: seq<byte>, index: seq<byte>,
                       total: int64, target: int, delta: nat)
    requires Open(c) == Ready(ks, ss, data, index, total)
    requires var s := SeekTo(Load(d0, c), target); s.position == |data|
    requires var s := SeekTo(Load(d0, c), target); s.currentTime + delta * s.speed / 100 >= total
    ensures var s := Resume(SeekTo(Load(d0, c), target));
      var d := s.(currentTime := s.currentTime + delta * s.speed / 100);
      var buf := OpenedBuffer(data, Width(|ks|));
      && RecordTicks(buf) == total
      && Advance(s, delta) == Step(d) && Step(d).sent == d0.sent
      && TransmitAsWritten(d, buf, 1)
         == Ran(Step(d).(sent := d0.sent + [DecodeValues(ks, ss, buf)]), buf)
  {
    var l := Load(d0, c);
    assert l == d0.(types := ks, strings := ss, data := data, index := index, totalTime := total,
                    width := Width(|ks|), position := 0, comment := FilesLoaded,
                    isPlaying := true, isPausing := true, currentTime := 0);
    StaleFrame(Resume(SeekTo(l, target)), delta);
  }

  /**
   * The other short read at the end of the data: when the stale buffer's
   * ticks are later than the clock, as written the loop steps back one
   * record width, to the start of the last record, and sends nothing; the
   * corrected step rewinds to the start at once.
   */
  lemma StaleBufferStepsBack(d: Deck, buf: seq<byte>)
    requires Loaded(d) && d.isPlaying && !d.isPausing && d.position == |d.data| && d.width <= |d.data|
    requires |buf| == d.width && RecordTicks(buf) > d.currentTime
    ensures TransmitAsWritten(d, buf, 1) == Ran(d.(position := |d.data| - d.width), buf)
    ensures Step(d) == d.(position := 0, currentTime := 0, isPausing := !d.isLooping)
  {
    StepsBack(d, buf);
    EndRewinds(d);
  }

  /** As written, a read finding no byte and a buffer later than the clock step back one record width. */
  lemma StepsBack(d: Deck, buf: seq<byte>)
    requires Loaded(d) && d.isPlaying && !d.isPausing && d.position == |d.data| && d.width <= |d.data|
    requires |buf| == d.width && RecordTicks(buf) > d.currentTime
    ensures TransmitAsWritten(d, buf, 1) == Ran(d.(position := |d.data| - d.width), buf)
  {
    assert ReadCount(d.data, d.position, |buf|) == 0;
    assert ReadInto(d.data, d.position, buf) == buf;
    assert !(d.position < d.width);
  }

  /** The corrected step at the end of the data sends nothing and rewinds. */
  lemma EndRewinds(d: Deck)
    requires Loaded(d) && d.isPlaying && !d.isPausing && d.position == |d.data|
    ensures Step(d) == d.(position := 0, currentTime := 0, isPausing := !d.isLooping)
  {
    var recs := RecordsFrom(d.data, d.width, d.position);
    assert recs == [];
    assert DueCount(recs, d.currentTime) == 0;
    assert DecodeAll(d.types, d.strings, recs[..0]) == [];
  }

  /**
   * After that step back, a frame whose clock reaches the last record's
   * ticks reads the last record whole and sends it once, then rewinds; the
   * corrected step had already rewound without sending it in that pass.
   */
  lemma LastRecordLater(d: Deck, buf: seq<byte>)
    requires Loaded(d) && d.isPlaying && !d.isPausing && 0 < d.width <= |d.data|
    requires d.position == |d.data| - d.width && |buf| == d.width
    requires RecordTicks(d.data[|d.data| - d.width..]) <= d.currentTime
    ensures var last := d.data[|d.data| - d.width..];
      var r := d.(sent := d.sent + [DecodeValues(d.types, d.strings, last)],
                  position := 0, currentTime := 0, isPausing := !d.isLooping);
      TransmitAsWritten(d, buf, 1) == Ran(r, last) && Step(d) == r
  {
    LastSentAsWritten(d, buf);
    LastSent(d);
  }

  /** As written, a due last record is read, sent and followed by the rewind. */
  lemma LastSentAsWritten(d: Deck, buf: seq<byte>)
    requires Loaded(d) && d.isPlaying && !d.isPausing && 0 < d.width <= |d.data|
    requires d.position == |d.data| - d.width && |buf| == d.width
    requires RecordTicks(d.data[|d.data| - d.width..]) <= d.currentTime
    ensures var last := d.data[|d.data| - d.width..];
      TransmitAsWritten(d, buf, 1)
      == Ran(d.(sent := d.sent + [DecodeValues(d.types, d.strings, last)],
                position := 0, currentTime := 0, isPausing := !d.isLooping), last)
  {
    var last := d.data[|d.data| - d.width..];
    assert ReadCount(d.data, d.position, |buf|) == d.width;
    assert ReadInto(d.data, d.position, buf) == last;
    assert d.position + d.width == |d.data|;
  }

  /** The corrected step sends a due last record and rewinds. */
  lemma LastSent(d: Deck)
    requires Loaded(d) && d.isPlaying && !d.isPausing && 0 < d.width <= |d.data|
    requires d.position == |d.data| - d.width
    requires RecordTicks(d.data[|d.data| - d.width..]) <= d.currentTime
    ensures Step(d) == d.(sent := d.sent + [DecodeValues(d.types, d.strings, d.data[|d.data| - d.width..])],
                          position := 0, currentTime := 0, isPausing := !d.isLooping)
  {
    var last := d.data[|d.data| - d.width..];
    RecordsFromLast(d.data, d.width);
    assert DueCount([last], d.currentTime) == 1;
    assert [last][..1] == [last];
  }

  /**
   * Past the end of the data (a time.bin word whose product with the width
   * exceeds the data, which only a folder the recorder did not write whole
   * holds), as written every read finds no byte, the due stale buffer is
   * sent, and the position never equals the length: the loop never returns,
   * however many turns are allowed.
   */
  lemma {:induction false} PastEndSpins(d: Deck, buf: seq<byte>, n: nat)
    requires Loaded(d) && d.isPlaying && !d.isPausing && d.position > |d.data|
    requires |buf| == d.width && RecordTicks(buf) <= d.currentTime
    ensures TransmitAsWritten(d, buf, n) == Spins
    decreases n
  {
    if n > 0 {
      assert ReadCount(d.data, d.position, |buf|) == 0;
      assert ReadInto(d.data, d.position, buf) == buf;
      PastEndSpins(d.(sent := d.sent + [DecodeValues(d.types, d.strings, buf)]), buf, n - 1);
    }
  }

  /** The only record left at the start of the last record is that record. */
  lemma RecordsFromLast(data: seq<byte>, w: nat)
    requires 0 < w <= |data|
    ensures RecordsFrom(data, w, |data| - w) == [data[|data| - w..]]
  {
    var p := |data| - w;
    assert p + w == |data| && data[p..p + w] == data[p..];
    assert RecordsFrom(data, w, p + w) == [];
  }

  /** The folder of the stale-send case: one Int record holding `v` at `t` ticks, and the index counts 0 and 1. */
  function StaleFolder(t: int, v: int): Capture
  {
    Capture(true, Some(Int64Bytes(t) + Int32Bytes(v)), Some(KindNames([Int])), Some([]),
            Some(Int32Bytes(0) + Int32Bytes(1)))
  }

  /** A record written between the first and the second whole second opens with its ticks as the total. */
  lemma StaleOpens(t: int, v: int)
    requires IntervalTicks <= t < 2 * IntervalTicks
    ensures Open(StaleFolder(t, v))
         == Ready([Int], [], Int64Bytes(t) + Int32Bytes(v), Int32Bytes(0) + Int32Bytes(1), t)
  {
    var data := Int64Bytes(t) + Int32Bytes(v);
    Int64RoundTrip(t);
    assert data[|data| - Width(1)..][..8] == Int64Bytes(t);
    TypeFileRoundTrip([Int]);
    assert TruncDiv(t, IntervalTicks) == 1;
    OpenFiles(KindNames([Int]), [Int], [], data, Int32Bytes(0) + Int32Bytes(1), t);
  }

  /** A folder that opens is loaded with what Open read, whatever the folder's contents. */
  lemma LoadReady(d: Deck, c: Capture, ks: seq<Kind>, ss: seq<string>, data: seq<byte>, index: seq<byte>, total: int64)
    requires Open(c) == Ready(ks, ss, data, index, total)
    ensures Load(d, c) == d.(types := ks, strings := ss, data := data, index := index, totalTime := total,
                             width := Width(|ks|), position := 0, comment := FilesLoaded,
                             isPlaying := true, isPausing := true, currentTime := 0)
  {
  }

  /** On the index counts 0 and 1, a seek to second 1 lands after one record. */
  lemma StaleSeeks(l: Deck, t: int)
    requires l.index == Int32Bytes(0) + Int32Bytes(1) && l.width == 12 && l.totalTime == t
    requires IntervalTicks <= t < 2 * IntervalTicks
    ensures SeekTo(l, IntervalTicks).position == 12 && SeekTo(l, IntervalTicks).currentTime == IntervalTicks
  {
    assert SeekTime(IntervalTicks, t) == IntervalTicks;
    Int32RoundTrip(1);
    assert l.index[4..8] == Int32Bytes(1);
    SeekPositionAt(l.index, 12, 1, 1, 1);
  }

  /** The record decodes to its own value; the open's buffer decodes to 0. */
  lemma StaleDecodes(t: int, v: int)
    requires -0x8000_0000 <= v < 0x8000_0000
    ensures var data := Int64Bytes(t) + Int32Bytes(v);
      && DecodeValues([Int], [], data) == [IntValue(v)]
      && DecodeValues([Int], [], OpenedBuffer(data, 12)) == [IntValue(0)]
  {
    var data := Int64Bytes(t) + Int32Bytes(v);
    Int32RoundTrip(v);
    Int32RoundTrip(0);
    assert data[8..12] == Int32Bytes(v);
    DecodeValuesAt([Int], [], data, 0);
    var buf := OpenedBuffer(data, 12);
    assert buf[8..12] == Int32Bytes(0) by {
      assert Int32Bytes(0) == [0, 0, 0, 0];
    }
    DecodeValuesAt([Int], [], buf, 0);
  }

  /**
   * The stale send on a folder the recorder could write: one Int record, the
   * value v at t ticks between one and two seconds; time.bin holding the
   * counts 0 and 1 (the entry for second 1 written by a frame after the
   * message arrived). A seek to 1 s lands at the end of data.bin, and a frame
   * bringing the clock to t then sends, as written, the open's buffer: the
   * message [0], a value never recorded.
   */
  lemma StaleCase(t: int, v: int)
    requires IntervalTicks <= t < 2 * IntervalTicks && -0x8000_0000 <= v < 0x8000_0000
    ensures var data := Int64Bytes(t) + Int32Bytes(v);
      var s := SeekTo(Load(Initial(), StaleFolder(t, v)), IntervalTicks);
      && Open(StaleFolder(t, v)) == Ready([Int], [], data, Int32Bytes(0) + Int32Bytes(1), t)
      && s.position == |data| && s.currentTime + (t - IntervalTicks) * s.speed / 100 >= t
      && DecodeValues([Int], [], data) == [IntValue(v)]
      && DecodeValues([Int], [], OpenedBuffer(data, 12)) == [IntValue(0)]
  {
    var data := Int64Bytes(t) + Int32Bytes(v);
    StaleOpens(t, v);
    LoadReady(Initial(), StaleFolder(t, v), [Int], [], data, Int32Bytes(0) + Int32Bytes(1), t);
    StaleSeeks(Load(Initial(), StaleFolder(t, v)), t);
    StaleDecodes(t, v);
  }

  /** One instance: the value 5 recorded at 1.2 s. */
  lemma StaleWitness()
    ensures var data := Int64Bytes(12_000_000) + Int32Bytes(5);
      var s := SeekTo(Load(Initial(), StaleFolder(12_000_000, 5)), IntervalTicks);
      && Open(StaleFolder(12_000_000, 5)) == Ready([Int], [], data, Int32Bytes(0) + Int32Bytes(1), 12_000_000)
      && s.position == |data| && s.currentTime + 2_000_000 * s.speed / 100 >= 12_000_000
      && DecodeValues([Int], [], OpenedBuffer(data, 12)) == [IntValue(0)]
  {
    StaleCase(12_000_000, 5);
  }
}
