/**
 * What the recorder writes, read back by the player: a folder written by a
 * recording session opens with the session's schema, string table, data and
 * index; its records decode to the messages captured, in order; playing it
 * from the start sends exactly the captured messages that are due; and a
 * seek through its index resumes at a captured message.
 */
module EndToEnd {
  import opened Bytes
  import opened Osc
  import opened Interner
  import opened RecordFormat
  import opened TimeIndex
  import opened CaptureFolder
  import opened Sessions
  import opened Playback

  /** The folder a recording session has written, as the player finds it. */
  function FolderOf(s: Session): Capture
  {
    Capture(true, Some(s.dataFile), Some(s.typeFile), Some(s.stringFile), Some(s.timeFile))
  }

  /** The values of every entry of a log, in order. */
  function Messages(log: seq<Entry>): (ms: seq<Message>)
    ensures |ms| == |log|
  {
    seq(|log|, j requires 0 <= j < |log| => log[j].values)
  }

  /** The last record of a log's data file carries the last entry's ticks. */
  lemma LastRecord(types: seq<Kind>, log: seq<Entry>, t: seq<string>)
    requires AllSupported(types) && LogMatches(types, log) && log != []
    ensures var data := EncodeLog(types, log, t); var w := Width(|types|);
      w <= |data| && RecordTicks(data[|data| - w..]) == log[|log| - 1].ticks
  {
    var init := log[..|log| - 1];
    var e := log[|log| - 1];
    assert init + [e] == log;
    assert LogMatches(types, init) by {
      forall j | 0 <= j < |init| ensures Matches(types, init[j].values) {
        assert init[j] == log[j];
      }
    }
    EncodeLogAppend(types, init, e, t);
    var data := EncodeLog(types, log, t);
    var r := EncodeRecord(e.ticks, e.values, t);
    var w := Width(|types|);
    assert |r| == w;
    assert data[|data| - w..] == r;
    assert r[..8] == Int64Bytes(e.ticks);
    Int64RoundTrip(e.ticks);
  }

  /** A schema with a String field, once a message has been captured, has a non-empty string table. */
  lemma TableHoldsAString(types: seq<Kind>, strings: seq<string>, log: seq<Entry>)
    requires LogMatches(types, log) && LogStringsIn(log, strings) && log != [] && String in types
    ensures |strings| > 0
  {
    var i :| 0 <= i < |types| && types[i] == String;
    var vs := log[0].values;
    assert Matches(types, vs);
    assert KindOf(vs[i]) == String;
    assert StringsIn(vs, strings);
    assert vs[i].s in strings;
  }

  /**
   * The files the recorder writes for a non-empty log open with the log's
   * schema and table, its data and the given index, the total being the
   * last entry's time; unless the schema is empty or the index falls short.
   */
  lemma OpenWritten(types: seq<Kind>, strings: seq<string>, log: seq<Entry>, timeFile: seq<byte>)
    requires AllSupported(types) && LogMatches(types, log) && LogStringsIn(log, strings) && log != []
    ensures var data := EncodeLog(types, log, strings);
      var total := log[|log| - 1].ticks;
      Open(Capture(true, Some(data), Some(KindNames(types)), Some(strings), Some(timeFile)))
      == if types == [] then Refused(TypeFileNotEnough)
         else if CoversDuration(|timeFile|, total) then Ready(types, strings, data, timeFile, total)
         else Refused(TimeFileNotEnough)
  {
    if types == [] {
      OpenWrittenNoKinds(types, strings, log, timeFile);
    } else {
      OpenWrittenKinds(types, strings, log, timeFile);
    }
  }

  lemma OpenWrittenNoKinds(types: seq<Kind>, strings: seq<string>, log: seq<Entry>, timeFile: seq<byte>)
    requires AllSupported(types) && LogMatches(types, log) && log != [] && types == []
    ensures Open(Capture(true, Some(EncodeLog(types, log, strings)), Some(KindNames(types)), Some(strings), Some(timeFile)))
      == Refused(TypeFileNotEnough)
  {
    TypeFileRoundTrip(types);
    LastRecord(types, log, strings);
    OpenNoKinds(KindNames(types), strings, EncodeLog(types, log, strings), timeFile);
  }

  lemma OpenWrittenKinds(types: seq<Kind>, strings: seq<string>, log: seq<Entry>, timeFile: seq<byte>)
    requires AllSupported(types) && LogMatches(types, log) && LogStringsIn(log, strings) && log != [] && types != []
    ensures var data := EncodeLog(types, log, strings);
      var total := log[|log| - 1].ticks;
      Open(Capture(true, Some(data), Some(KindNames(types)), Some(strings), Some(timeFile)))
      == if CoversDuration(|timeFile|, total) then Ready(types, strings, data, timeFile, total)
         else Refused(TimeFileNotEnough)
  {
    LastRecord(types, log, strings);
    if String in types {
      TableHoldsAString(types, strings, log);
    }
    TypeFileRoundTrip(types);
    OpenFiles(KindNames(types), types, strings, EncodeLog(types, log, strings), timeFile, log[|log| - 1].ticks);
  }

  /**
   * Opening the folder of a recording session: with no message captured the
   * data file is empty; with captured messages of no values the type file is;
   * otherwise the player loads exactly the session's schema, table, data and
   * index, and the total is the last captured message's time, provided the
   * index has an entry for every whole second of it.
   */
  lemma OpenRecorded(s: Session)
    requires Good(s)
    ensures var o := Open(FolderOf(s));
      && (s.log == [] ==> o == Refused(DataFileEmpty))
      && (s.log != [] && s.types == [] ==> o == Refused(TypeFileNotEnough))
      && (s.log != [] && s.types != [] ==>
            var total := s.log[|s.log| - 1].ticks;
            o == if CoversDuration(|s.timeFile|, total) then Ready(s.types, s.strings, s.dataFile, s.timeFile, total)
                 else Refused(TimeFileNotEnough))
  {
    if s.log != [] {
      InternLogSpec(s.log);
      OpenWritten(s.types, s.strings, s.log, s.timeFile);
    }
  }

  /**
   * The records of a session's data file, read from the start, are one per
   * captured message, and each decodes to that message's time and values.
   */
  lemma ReplayRecorded(s: Session)
    requires Good(s) && s.log != [] && |s.strings| <= 0x8000_0000
    ensures Decodable(s.types, s.strings)
    ensures var recs := RecordsFrom(s.dataFile, Width(|s.types|), 0);
      && |recs| == |s.log|
      && forall j :: 0 <= j < |s.log| ==>
           RecordTicks(recs[j]) == s.log[j].ticks && DecodeValues(s.types, s.strings, recs[j]) == s.log[j].values
  {
    var recs := RecordsFrom(s.dataFile, Width(|s.types|), 0);
    RecordsOfLog(s.types, s.log, s.strings);
    InternLogSpec(s.log);
    MatchesDecodable(s.types, s.log[0].values, s.strings);
    forall j | 0 <= j < |s.log|
      ensures RecordTicks(recs[j]) == s.log[j].ticks && DecodeValues(s.types, s.strings, recs[j]) == s.log[j].values
    {
      DecodeEncode(s.types, s.log[j].ticks, s.log[j].values, s.strings);
    }
  }

  /** Decoding a run of a session's records from the start gives the run of its captured messages. */
  lemma DecodeRecorded(s: Session, n: nat)
    requires Good(s) && s.log != [] && |s.strings| <= 0x8000_0000 && n <= |s.log|
    ensures Decodable(s.types, s.strings)
    ensures var recs := RecordsFrom(s.dataFile, Width(|s.types|), 0);
      n <= |recs| && DecodeAll(s.types, s.strings, recs[..n]) == Messages(s.log[..n])
  {
    ReplayRecorded(s);
    var recs := RecordsFrom(s.dataFile, Width(|s.types|), 0);
    var a := DecodeAll(s.types, s.strings, recs[..n]);
    var b := Messages(s.log[..n]);
    forall j | 0 <= j < n
      ensures a[j] == b[j]
    {
      assert recs[..n][j] == recs[j];
    }
  }

  /** The deck the player holds once it has opened the folder of a recording session. */
  function Loading(s: Session, d: Deck): Deck
    requires s.log != []
  {
    d.(types := s.types, strings := s.strings, data := s.dataFile, index := s.timeFile,
       totalTime := s.log[|s.log| - 1].ticks, width := Width(|s.types|), position := 0,
       comment := FilesLoaded, isPlaying := true, isPausing := true, currentTime := 0)
  }

  lemma LoadRecorded(s: Session, d: Deck)
    requires Good(s) && s.log != [] && s.types != []
    requires CoversDuration(|s.timeFile|, s.log[|s.log| - 1].ticks)
    ensures Load(d, FolderOf(s)) == Loading(s, d)
  {
    OpenRecorded(s);
  }

  /**
   * The player opens a session's folder, play is pressed and one frame of
   * `delta` ticks passes: what it sends is exactly the captured messages, in
   * order, up to the first one later than the clock; if none is later it
   * has rewound to the start.
   */
  lemma PlaybackReplays(s: Session, d: Deck, delta: nat)
    requires Good(s) && s.log != [] && s.types != [] && |s.strings| <= 0x8000_0000
    requires CoversDuration(|s.timeFile|, s.log[|s.log| - 1].ticks)
    ensures var r := Advance(Resume(Load(d, FolderOf(s))), delta);
      var cur := delta * d.speed / 100;
      var n := |r.sent| - |d.sent|;
      && 0 <= n <= |s.log|
      && r.sent == d.sent + Messages(s.log[..n])
      && (forall j :: 0 <= j < n ==> s.log[j].ticks <= cur)
      && (n < |s.log| ==> s.log[n].ticks > cur)
      && (n == |s.log| ==> r.position == 0 && r.currentTime == 0)
  {
    LoadRecorded(s, d);
    ReplayRecorded(s);
    var l0 := Loading(s, d);
    ResumeAdvance(l0, delta);
    PlaysFromStart(l0.(isPausing := false, currentTime := delta * d.speed / 100), s.log);
  }

  /** Pressing play on a loaded deck, then a frame of `delta` ticks: one step at the advanced clock. */
  lemma ResumeAdvance(d: Deck, delta: nat)
    requires Loaded(d) && d.isPlaying
    ensures Loaded(d.(isPausing := false, currentTime := d.currentTime + delta * d.speed / 100))
    ensures Advance(Resume(d), delta) == Step(d.(isPausing := false, currentTime := d.currentTime + delta * d.speed / 100))
  {
  }

  /**
   * Playing, from the start at time `cur`, a data file whose records decode
   * one by one to the entries of a log.
   */
  lemma PlaysFromStart(l: Deck, log: seq<Entry>)
    requires Loaded(l) && l.isPlaying && !l.isPausing && l.position == 0
    requires var recs := RecordsFrom(l.data, l.width, 0);
      && |recs| == |log|
      && forall j :: 0 <= j < |log| ==>
           RecordTicks(recs[j]) == log[j].ticks && DecodeValues(l.types, l.strings, recs[j]) == log[j].values
    ensures var r := Step(l);
      var n := |r.sent| - |l.sent|;
      && 0 <= n <= |log|
      && r.sent == l.sent + Messages(log[..n])
      && (forall j :: 0 <= j < n ==> log[j].ticks <= l.currentTime)
      && (n < |log| ==> log[n].ticks > l.currentTime)
      && (n == |log| ==> r.position == 0 && r.currentTime == 0)
  {
    StepSpec(l);
    var r := Step(l);
    var n := |r.sent| - |l.sent|;
    var recs := RecordsFrom(l.data, l.width, 0);
    var a := DecodeAll(l.types, l.strings, recs[..n]);
    var b := Messages(log[..n]);
    forall j | 0 <= j < n
      ensures a[j] == b[j] && log[j].ticks <= l.currentTime
    {
      assert recs[..n][j] == recs[j];
      assert RecordTicks(recs[j]) <= l.currentTime;
    }
    assert a == b;
  }

  /**
   * Seeking in the folder of a recording session lands on the boundary of
   * entry e of the log, e being the index entry for the interval sought: from
   * there the player reads the records of the file from the e-th on, which
   * ReplayRecorded shows are those of the captured messages from entry e on.
   */
  lemma SeekRecorded(s: Session, d: Deck, target: int)
    requires Good(s) && s.log != [] && s.types != [] && |s.entries| >= 1
    requires Width(|s.types|) * s.count < 0x8000_0000
    requires 0 <= s.log[|s.log| - 1].ticks && CoversDuration(|s.timeFile|, s.log[|s.log| - 1].ticks)
    ensures var l := Load(d, FolderOf(s));
      var r := SeekTo(l, target);
      var k := r.currentTime / IntervalTicks;
      var e := s.entries[if k < |s.entries| then k else |s.entries| - 1];
      var recs := RecordsFrom(s.dataFile, Width(|s.types|), 0);
      && SeekCompletes(l, target)
      && 0 <= e <= |s.log| == |recs|
      && r.position == Width(|s.types|) * e
      && RecordsFrom(s.dataFile, Width(|s.types|), r.position) == recs[e..]
      && (e == |s.log| ==> r.position == |s.dataFile|)
  {
    LoadRecorded(s, d);
    var l := Loading(s, d);
    assert s.timeFile == Words(s.entries) && Bounded(s.entries, s.count) && s.count == |s.log|;
    SeekLands(l, target, s.entries, s.count);
    var r := SeekTo(l, target);
    var k := r.currentTime / IntervalTicks;
    var e := s.entries[if k < |s.entries| then k else |s.entries| - 1];
    assert 0 <= e <= |s.log| && r.position == l.width * e;
    SkipRecords(s.types, s.log, s.strings, e);
  }

  /** Reading a log's data file from the boundary of entry e gives its records from the e-th on. */
  lemma SkipRecords(types: seq<Kind>, log: seq<Entry>, t: seq<string>, e: nat)
    requires AllSupported(types) && LogMatches(types, log) && e <= |log|
    ensures var data := EncodeLog(types, log, t);
      var recs := RecordsFrom(data, Width(|types|), 0);
      && |recs| == |log| && Width(|types|) * |log| == |data|
      && RecordsFrom(data, Width(|types|), Width(|types|) * e) == recs[e..]
  {
    var w := Width(|types|);
    RecordsOfLog(types, log, t);
    MulMonotone(w, e, |log|);
    RecordsFromSkip(EncodeLog(types, log, t), w, 0, e);
  }
}
