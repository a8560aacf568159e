/**
 * The recorder as a state machine on plain values: the session state, one
 * transition function per recorder operation, the invariant that ties the
 * files to the messages captured so far, and the lemmas showing that every
 * transition keeps it and does what the recorder promises.
 */
module Sessions {
  import opened Bytes
  import opened Osc
  import opened Interner
  import opened RecordFormat
  import opened TimeIndex

  /** The comment written as the first line of info.txt when recording stops. */
  datatype StopComment =
    | Finished                          // "Recording Successfully Finished"
    | UnsupportedValueType(kind: Kind)  // "Unsupported OSC Value Type: " + kind
    | NoComment                         // "" (the component is destroyed)

  /** What info.txt records: the comment and how long the recording ran, in ticks. */
  datatype Info = Info(comment: StopComment, totalTicks: int)

  /** RecordingMaximumTime and RecordingMaximumDataSize, as ticks and bytes. */
  datatype Limits = Limits(maxTicks: int, maxDataBytes: int)

  /** The index of the first value whose kind cannot be captured, or |vs| if there is none. */
  function FirstUnsupported(vs: Message): (j: nat)
    ensures j <= |vs|
    ensures forall i :: 0 <= i < j ==> Supported(KindOf(vs[i]))
    ensures j < |vs| ==> !Supported(KindOf(vs[j]))
  {
    if vs == [] || !Supported(KindOf(vs[0])) then 0
    else
      var j := FirstUnsupported(vs[1..]);
      assert forall i :: 1 <= i < j + 1 ==> vs[i] == vs[1..][i - 1];
      1 + j
  }

  /**
   * The schema OnFirstOscReceived writes for a first message: the kinds of
   * its values, in order, up to and including the first one that cannot be
   * captured.
   */
  function SchemaOf(vs: Message): (ks: seq<Kind>)
    ensures |ks| <= |vs|
  {
    if vs == [] then []
    else if !Supported(KindOf(vs[0])) then [KindOf(vs[0])]
    else [KindOf(vs[0])] + SchemaOf(vs[1..])
  }

  /**
   * The schema is the kinds of the message cut just after its first value
   * that cannot be captured; it can be captured exactly when no value is of
   * such a kind, and it is then the kinds of the whole message.
   */
  lemma {:induction false} SchemaOfPrefix(vs: Message)
    ensures var j := FirstUnsupported(vs);
      && SchemaOf(vs) == KindsOf(vs[..if j == |vs| then j else j + 1])
      && (AllSupported(SchemaOf(vs)) <==> j == |vs|)
  {
    if vs != [] && Supported(KindOf(vs[0])) {
      SchemaOfPrefix(vs[1..]);
      var j := FirstUnsupported(vs[1..]);
      var k := if j == |vs| - 1 then j else j + 1;
      assert vs[..k + 1] == [vs[0]] + vs[1..][..k];
      assert SchemaOf(vs)[1..] == SchemaOf(vs[1..]);
    } else if vs != [] {
      assert vs[..1] == [vs[0]];
      assert !Supported(SchemaOf(vs)[0]);
    }
  }

  /**
   * The kinds of a message's values read up to and including the first that
   * cannot be captured are its schema, and it can be captured exactly when
   * the reading went through the whole message.
   */
  lemma SchemaRead(vs: Message, kinds: seq<Kind>, ok: bool)
    requires ok == (FirstUnsupported(vs) == |vs|)
    requires |kinds| == (if ok then |vs| else FirstUnsupported(vs) + 1)
    requires forall j :: 0 <= j < |kinds| ==> kinds[j] == KindOf(vs[j])
    ensures kinds == SchemaOf(vs) && ok == AllSupported(kinds)
  {
    SchemaOfPrefix(vs);
    var ks := KindsOf(vs[..|kinds|]);
    assert ks == SchemaOf(vs);
    assert forall j :: 0 <= j < |kinds| ==> ks[j] == kinds[j];
    assert kinds == ks;
  }

  /** A message matches a schema exactly when the schema is the message's kinds. */
  lemma KindsOfMatches(types: seq<Kind>, vs: Message)
    ensures Matches(types, vs) <==> types == KindsOf(vs)
  {
  }

  /**
   * What the data file and string table hold after the messages of `log` were
   * captured: the table is built from the log's strings in first-seen order,
   * and the data file is the log's records back to back.
   */
  ghost predicate Captured(types: seq<Kind>, strings: seq<string>, dataFile: seq<byte>, log: seq<Entry>)
  {
    && strings == InternLog([], log)
    && (log == [] ==> dataFile == [])
    && (log != [] ==> AllSupported(types) && LogMatches(types, log) && dataFile == EncodeLog(types, log, strings))
  }

  /**
   * Capturing one more message of the schema appends its strings to the
   * table and its record to the data file, and the data file is still the
   * encoding of the log with the grown table: the records already written
   * keep their meaning.
   */
  lemma CaptureAppend(types: seq<Kind>, strings: seq<string>, dataFile: seq<byte>, log: seq<Entry>, now: int64, vs: Message)
    requires Captured(types, strings, dataFile, log)
    requires AllSupported(types) && Matches(types, vs)
    ensures AllCapturable(vs)
    ensures var t := InternValues(strings, vs);
      Captured(types, t, dataFile + EncodeRecord(now, vs, t), log + [Entry(now, vs)])
  {
    var e := Entry(now, vs);
    var t := InternValues(strings, vs);
    assert (log + [e])[..|log|] == log;
    InternLogSpec(log);
    InternValuesSpec(strings, vs);
    EncodeLogAppend(types, log, e, t);
    InternValuesPrefix(strings, vs);
    EncodeLogExtend(types, log, strings, t[|strings|..]);
  }

  /**
   * The time index file holds `entries`, one int per interval: it starts at 0
   * and its counts never decrease nor exceed the records written.
   */
  ghost predicate Indexed(timeFile: seq<byte>, entries: seq<int>, count: nat)
  {
    && timeFile == Words(entries)
    && NonDecreasing(entries) && Bounded(entries, count)
    && (entries != [] ==> entries[0] == 0)
  }

  /** Writing the current count at an interval keeps the index well formed. */
  lemma IndexAppend(timeFile: seq<byte>, entries: seq<int>, count: nat)
    requires Indexed(timeFile, entries, count) && entries != []
    ensures Indexed(timeFile + Int32Bytes(count), entries + [count], count)
  {
    assert (entries + [count])[..|entries|] == entries;
  }

  /** The index file reads back, word by word, as the counts written into it. */
  lemma IndexReadBack(timeFile: seq<byte>, entries: seq<int>, count: nat, i: nat)
    requires Indexed(timeFile, entries, count) && count < 0x8000_0000 && i < |entries|
    ensures |timeFile| == 4 * |entries|
    ensures ToInt32(timeFile[4 * i..4 * i + 4]) == entries[i] && 0 <= entries[i] <= count
    ensures entries[0] == 0
  {
    EntryAt(entries, i);
  }

  /** An index bounded by one count is bounded by any larger count. */
  lemma IndexGrow(timeFile: seq<byte>, entries: seq<int>, count: nat, more: nat)
    requires Indexed(timeFile, entries, count) && count <= more
    ensures Indexed(timeFile, entries, more)
  {
  }

  /** The recorder's state as values, with the messages captured so far and the counts indexed. */
  datatype Session = Session(
    isRecording: bool,
    isFirstReceived: bool,
    types: seq<Kind>,
    strings: seq<string>,
    count: nat,
    timeWriteCount: nat,
    dataFile: seq<byte>,
    typeFile: seq<string>,
    stringFile: seq<string>,
    timeFile: seq<byte>,
    info: Option<Info>,
    log: seq<Entry>,
    entries: seq<int>)

  /**
   * The files agree with what was captured: type.txt names the schema,
   * string.txt is the table, data.bin encodes the log, time.bin is the index.
   */
  ghost predicate Consistent(s: Session)
  {
    && s.typeFile == KindNames(s.types) && s.stringFile == s.strings && s.count == |s.log|
    && (s.isFirstReceived ==> s.types == [] && s.log == [])
    && Captured(s.types, s.strings, s.dataFile, s.log)
    && |s.entries| == s.timeWriteCount && Indexed(s.timeFile, s.entries, s.count)
    && (s.isRecording ==> s.timeWriteCount >= 1)
  }

  /** A session past its first message, still recording, has a schema it can capture. */
  predicate Schemed(s: Session)
  {
    s.isRecording && !s.isFirstReceived ==> AllSupported(s.types)
  }

  /** The invariant kept between calls. */
  ghost predicate Good(s: Session)
  {
    Consistent(s) && Schemed(s)
  }

  /** StartRecording with OpenWriteFiles: empty schema, table and data, an index holding 0. */
  function Begin(): Session
  {
    Session(true, true, [], [], 0, 1, [], [], [], Int32Bytes(0), None, [], [0])
  }

  /** StopRecording: does nothing unless recording; otherwise ends the session and writes info.txt. */
  function Stop(s: Session, comment: StopComment, now: int): Session
  {
    if !s.isRecording then s else s.(isRecording := false, info := Some(Info(comment, now)))
  }

  /**
   * OnFirstOscReceived: type.txt and the schema get the message's kinds up to
   * and including the first that cannot be captured; at such a kind the
   * recording stops.
   */
  function ReadFirst(s: Session, vs: Message, now: int): Session
  {
    var ks := SchemaOf(vs);
    var s1 := s.(types := ks, typeFile := KindNames(ks));
    if AllSupported(ks) then s1 else Stop(s1, UnsupportedValueType(ks[|ks| - 1]), now)
  }

  /**
   * The capture of an accepted message: its new strings are appended to the
   * table and to string.txt, its record to data.bin, and the count grows by one.
   */
  function Accept(s: Session, vs: Message, now: int64): Session
    requires AllCapturable(vs)
  {
    var t := InternValues(s.strings, vs);
    s.(strings := t, stringFile := s.stringFile + t[|s.strings|..],
       dataFile := s.dataFile + EncodeRecord(now, vs, t), count := s.count + 1,
       log := s.log + [Entry(now, vs)])
  }

  /**
   * OnOscReceived: ignored unless recording; the first message of a session
   * fixes the schema (and may stop the recording); a message that does not
   * match the schema is dropped, any other is captured.
   */
  function Receive(s: Session, vs: Message, now: int64): Session
    requires Schemed(s)
  {
    if !s.isRecording then s
    else
      var s1 := if s.isFirstReceived then ReadFirst(s.(isFirstReceived := false), vs, now) else s;
      if !s1.isRecording || !Matches(s1.types, vs) then s1
      else Accept(s1, vs, now)
  }

  /** WriteTimeInfo: once the elapsed time reaches the next whole interval, the count is appended to time.bin. */
  function WriteTime(s: Session, now: int): Session
  {
    if s.isRecording && now >= s.timeWriteCount * IntervalTicks then
      s.(timeWriteCount := s.timeWriteCount + 1, timeFile := s.timeFile + Int32Bytes(s.count),
         entries := s.entries + [s.count])
    else s
  }

  /** The recording part of Update: write the index, then stop once a limit is passed. */
  function Watch(s: Session, now: int, limits: Limits): Session
  {
    if !s.isRecording then s
    else
      var s1 := WriteTime(s, now);
      if now > limits.maxTicks || |s1.dataFile| > limits.maxDataBytes then Stop(s1, Finished, now) else s1
  }

  lemma BeginGood()
    ensures Good(Begin())
  {
    assert Words([0]) == Words([]) + Int32Bytes(0);
  }

  lemma StopGood(s: Session, comment: StopComment, now: int)
    requires Consistent(s)
    ensures Good(Stop(s, comment, now)) && !Stop(s, comment, now).isRecording
  {
  }

  lemma ReadFirstGood(s: Session, vs: Message, now: int)
    requires Good(s) && !s.isFirstReceived && s.log == []
    ensures Good(ReadFirst(s, vs, now))
  {
    var ks := SchemaOf(vs);
    var s1 := s.(types := ks, typeFile := KindNames(ks));
    assert Consistent(s1);
    if !AllSupported(ks) {
      StopGood(s1, UnsupportedValueType(ks[|ks| - 1]), now);
    }
  }

  lemma AcceptGood(s: Session, vs: Message, now: int64)
    requires Good(s) && s.isRecording && !s.isFirstReceived && Matches(s.types, vs)
    ensures AllCapturable(vs) && Good(Accept(s, vs, now))
  {
    CaptureAppend(s.types, s.strings, s.dataFile, s.log, now, vs);
    var t := InternValues(s.strings, vs);
    var a := Accept(s, vs, now);
    assert a.strings == t && a.dataFile == s.dataFile + EncodeRecord(now, vs, t) && a.log == s.log + [Entry(now, vs)];
    InternValuesPrefix(s.strings, vs);
    IndexGrow(s.timeFile, s.entries, s.count, a.count);
  }

  /** Every message received keeps the invariant. */
  lemma ReceiveGood(s: Session, vs: Message, now: int64)
    requires Good(s)
    ensures Good(Receive(s, vs, now))
  {
    if s.isRecording {
      var s1 := if s.isFirstReceived then ReadFirst(s.(isFirstReceived := false), vs, now) else s;
      if s.isFirstReceived {
        ReadFirstGood(s.(isFirstReceived := false), vs, now);
      }
      if s1.isRecording && Matches(s1.types, vs) {
        AcceptGood(s1, vs, now);
      }
    }
  }

  lemma WriteTimeGood(s: Session, now: int)
    requires Good(s)
    ensures Good(WriteTime(s, now))
  {
    if s.isRecording && now >= s.timeWriteCount * IntervalTicks {
      IndexAppend(s.timeFile, s.entries, s.count);
    }
  }

  lemma WatchGood(s: Session, now: int, limits: Limits)
    requires Good(s)
    ensures Good(Watch(s, now, limits))
  {
    if s.isRecording {
      WriteTimeGood(s, now);
    }
  }

  /**
   * A message changes nothing exactly when it arrives while not recording,
   * or after the first message and does not match the schema: the count,
   * the string table and every file are then as they were.
   */
  lemma ReceiveIgnored(s: Session, vs: Message, now: int64)
    requires Good(s)
    ensures Receive(s, vs, now) == s <==> !s.isRecording || (!s.isFirstReceived && !Matches(s.types, vs))
  {
    if s.isRecording && !s.isFirstReceived && Matches(s.types, vs) {
      assert Receive(s, vs, now).count == s.count + 1;
    }
  }

  /**
   * The first message of a session fixes the schema: its kinds, in order, up
   * to and including the first that cannot be captured. With such a kind the
   * recording stops with that kind in info.txt and nothing is captured;
   * otherwise the schema is the message's kinds and the message itself is
   * the first record. (Every reachable session waiting for its first message
   * has an empty log, count, data file and table: see FirstWaitEmpty.)
   */
  lemma ReceiveFirst(s: Session, vs: Message, now: int64)
    requires s.isRecording && s.isFirstReceived
    requires s.log == [] && s.count == 0 && s.dataFile == [] && s.strings == []
    ensures var r := Receive(s, vs, now); var j := FirstUnsupported(vs);
      && r.types == SchemaOf(vs) && r.typeFile == KindNames(r.types) && !r.isFirstReceived
      && (r.isRecording <==> j == |vs|)
      && (j < |vs| ==> r.count == 0 && r.dataFile == [] && r.strings == []
                       && r.info == Some(Info(UnsupportedValueType(KindOf(vs[j])), now)))
      && (j == |vs| ==> r.types == KindsOf(vs) && r.count == 1 && r.log == [Entry(now, vs)])
  {
    if FirstUnsupported(vs) == |vs| {
      FirstCaptured(s, vs, now);
    } else {
      FirstRefused(s, vs, now);
    }
  }

  lemma FirstCaptured(s: Session, vs: Message, now: int64)
    requires s.isRecording && s.isFirstReceived && s.log == [] && s.count == 0
    requires FirstUnsupported(vs) == |vs|
    ensures var r := Receive(s, vs, now);
      && r.types == SchemaOf(vs) == KindsOf(vs) && r.typeFile == KindNames(r.types)
      && !r.isFirstReceived && r.isRecording && r.count == 1 && r.log == [Entry(now, vs)]
  {
    SchemaWhole(vs);
    ReadFirstKeeps(s.(isFirstReceived := false), vs, now);
  }

  lemma FirstRefused(s: Session, vs: Message, now: int64)
    requires s.isRecording && s.isFirstReceived && s.count == 0 && s.dataFile == [] && s.strings == []
    requires FirstUnsupported(vs) < |vs|
    ensures var r := Receive(s, vs, now);
      && r.types == SchemaOf(vs) && r.typeFile == KindNames(r.types) && !r.isFirstReceived && !r.isRecording
      && r.count == 0 && r.dataFile == [] && r.strings == []
      && r.info == Some(Info(UnsupportedValueType(KindOf(vs[FirstUnsupported(vs)])), now))
  {
    var k := KindOf(vs[FirstUnsupported(vs)]);
    SchemaCut(vs);
    ReadFirstStops(s.(isFirstReceived := false), vs, now, k);
  }

  /** A schema that can be captured is written and recording goes on. */
  lemma ReadFirstKeeps(s: Session, vs: Message, now: int)
    requires AllSupported(SchemaOf(vs))
    ensures ReadFirst(s, vs, now) == s.(types := SchemaOf(vs), typeFile := KindNames(SchemaOf(vs)))
  {
  }

  /** A schema that cannot be captured is written, then recording stops naming its last kind. */
  lemma ReadFirstStops(s: Session, vs: Message, now: int, k: Kind)
    requires !AllSupported(SchemaOf(vs)) && |SchemaOf(vs)| > 0 && SchemaOf(vs)[|SchemaOf(vs)| - 1] == k
    ensures ReadFirst(s, vs, now) == Stop(s.(types := SchemaOf(vs), typeFile := KindNames(SchemaOf(vs))), UnsupportedValueType(k), now)
  {
  }

  /** A session waiting for its first message has captured nothing yet. */
  lemma FirstWaitEmpty(s: Session)
    requires Good(s) && s.isFirstReceived
    ensures s.log == [] && s.count == 0 && s.dataFile == [] && s.strings == [] && s.types == []
  {
  }

  /** A first message whose values can all be captured gives its own kinds as the schema, and matches it. */
  lemma SchemaWhole(vs: Message)
    requires FirstUnsupported(vs) == |vs|
    ensures SchemaOf(vs) == KindsOf(vs) && AllSupported(SchemaOf(vs)) && Matches(SchemaOf(vs), vs)
  {
    SchemaOfPrefix(vs);
    assert vs[..|vs|] == vs;
  }

  /** Otherwise the schema cannot be captured and ends with the kind of the first value that cannot. */
  lemma SchemaCut(vs: Message)
    requires FirstUnsupported(vs) < |vs|
    ensures var ks := SchemaOf(vs);
      !AllSupported(ks) && |ks| > 0 && ks[|ks| - 1] == KindOf(vs[FirstUnsupported(vs)])
  {
    SchemaOfPrefix(vs);
    var j := FirstUnsupported(vs);
    var p := vs[..j + 1];
    assert SchemaOf(vs) == KindsOf(p);
    assert p[j] == vs[j];
  }

  /**
   * An accepted message grows the count by one and appends one record of
   * the schema's width to data.bin, leaving what was written before as it
   * was, so data.bin stays count records long; the table only grows, stays
   * free of duplicates and holds the message's strings.
   */
  lemma ReceiveAccepted(s: Session, vs: Message, now: int64)
    requires Good(s) && s.isRecording && !s.isFirstReceived && Matches(s.types, vs)
    ensures var r := Receive(s, vs, now);
      && r.count == s.count + 1 && r.log == s.log + [Entry(now, vs)]
      && r.types == s.types && r.isRecording
      && |r.dataFile| == |s.dataFile| + Width(|s.types|) && r.dataFile[..|s.dataFile|] == s.dataFile
      && |r.dataFile| == r.count * Width(|r.types|)
      && |s.strings| <= |r.strings| && r.strings[..|s.strings|] == s.strings
      && Distinct(r.strings) && StringsIn(vs, r.strings)
  {
    AcceptGood(s, vs, now);
    var r := Receive(s, vs, now);
    assert r == Accept(s, vs, now);
    InternValuesSpec(s.strings, vs);
    InternLogSpec(r.log);
    EncodeLogLength(s.types, r.log, r.strings);
  }

  /**
   * The record an accepted message appends reads back, with BitConverter's
   * readers and the table as it then stands, as the message's ticks and
   * values.
   */
  lemma AcceptedDecodes(s: Session, vs: Message, now: int64)
    requires Good(s) && s.isRecording && !s.isFirstReceived && Matches(s.types, vs)
    requires |InternValues(s.strings, vs)| <= 0x8000_0000
    ensures var r := Receive(s, vs, now); var rec := r.dataFile[|s.dataFile|..];
      && Decodable(r.types, r.strings) && |rec| == Width(|r.types|)
      && RecordTicks(rec) == now && DecodeValues(r.types, r.strings, rec) == vs
  {
    AcceptGood(s, vs, now);
    var r := Receive(s, vs, now);
    assert r == Accept(s, vs, now);
    var t := InternValues(s.strings, vs);
    InternValuesSpec(s.strings, vs);
    InternLogSpec(r.log);
    assert r.dataFile[|s.dataFile|..] == EncodeRecord(now, vs, t);
    DecodeEncode(s.types, now, vs, t);
  }

  /**
   * WriteTimeInfo appends the record count to time.bin, and bumps the
   * interval counter, exactly when recording and the elapsed time has
   * reached the next whole interval; nothing else changes.
   */
  lemma WriteTimeAppends(s: Session, now: int)
    requires Good(s)
    ensures var r := WriteTime(s, now);
      && (r != s <==> s.isRecording && now >= s.timeWriteCount * IntervalTicks)
      && (r != s ==> r.entries == s.entries + [s.count] && r.timeWriteCount == s.timeWriteCount + 1
                     && r.timeFile == s.timeFile + Int32Bytes(s.count))
      && r.count == s.count && r.dataFile == s.dataFile && r.strings == s.strings
  {
    if s.isRecording && now >= s.timeWriteCount * IntervalTicks {
      assert |WriteTime(s, now).entries| == |s.entries| + 1;
    }
  }

  /**
   * The index of any reachable session: it begins with 0, its entries never
   * decrease nor exceed the record count, and while the count fits an int
   * each word of time.bin reads back as its entry.
   */
  lemma SessionIndex(s: Session, i: nat)
    requires Good(s) && s.count < 0x8000_0000 && i < |s.entries|
    ensures |s.timeFile| == 4 * |s.entries| && s.entries[0] == 0
    ensures ToInt32(s.timeFile[4 * i..4 * i + 4]) == s.entries[i] <= s.count
    ensures forall j :: i <= j < |s.entries| ==> s.entries[i] <= s.entries[j]
  {
    IndexReadBack(s.timeFile, s.entries, s.count, i);
  }
}
