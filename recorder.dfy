/**
 * The recording half of OscRecorder as a class whose fields are the
 * component's fields and the files it writes: each method makes the changes
 * in place and is proved to take the state where the matching transition
 * function of the Sessions module says.
 */
module Recording {
  import opened Bytes
  import opened Osc
  import opened Interner
  import opened RecordFormat
  import opened TimeIndex
  import opened CaptureFolder
  import opened Sessions

  /**
   * The field loop of OnOscReceived: each string not yet in the table is
   * appended to it, and the record is the ticks followed by one word per
   * field, a string's word being its ordinal in the table as it stands once
   * that string has been added.
   */
  method EncodeMessage(t0: seq<string>, vs: Message, now: int64) returns (table: seq<string>, rec: seq<byte>)
    requires AllCapturable(vs)
    ensures table == InternValues(t0, vs)
    ensures rec == EncodeRecord(now, vs, table)
  {
    table := t0;
    var ticks := Int64Bytes(now);
    var fields: seq<byte> := [];
    var i := 0;
    while i < |vs|
      invariant 0 <= i <= |vs|
      invariant AllCapturable(vs[..i])
      invariant table == InternValues(t0, vs[..i])
      invariant fields == FieldsBytes(vs[..i], table)
    {
      var v := vs[i];
      EncodeStep(t0, vs, i);
      if v.StringValue? && v.s !in table {
        table := table + [v.s];
      }
      fields := fields + FieldBytes(v, table);
      i := i + 1;
    }
    assert vs[..i] == vs;
    rec := ticks + fields;
  }

  /**
   * One turn of the field loop: field i interns its string, if any, and its
   * word follows the unchanged words of the fields before it.
   */
  lemma EncodeStep(t0: seq<string>, vs: Message, i: nat)
    requires AllCapturable(vs) && i < |vs|
    ensures AllCapturable(vs[..i + 1])
    ensures var table := InternValues(t0, vs[..i]);
      var next := InternValue(table, vs[i]);
      && InternValues(t0, vs[..i + 1]) == next
      && FieldsBytes(vs[..i + 1], next) == FieldsBytes(vs[..i], table) + FieldBytes(vs[i], next)
  {
    var table := InternValues(t0, vs[..i]);
    var next := InternValue(table, vs[i]);
    assert vs[..i + 1][..i] == vs[..i];
    InternValuesSpec(t0, vs[..i]);
    FieldsBytesExtend(vs[..i], table, next[|table|..]);
    assert table + next[|table|..] == next;
  }

  /**
   * The loop of OnFirstOscReceived: the kinds of the message's values, in
   * order, up to and including the first one that cannot be captured; `ok`
   * says whether every kind read can be captured.
   */
  method ReadSchema(vs: Message) returns (kinds: seq<Kind>, ok: bool)
    ensures ok == (FirstUnsupported(vs) == |vs|)
    ensures |kinds| == (if ok then |vs| else FirstUnsupported(vs) + 1)
    ensures forall j :: 0 <= j < |kinds| ==> kinds[j] == KindOf(vs[j])
  {
    kinds := [];
    var i := 0;
    while i < |vs|
      invariant 0 <= i <= FirstUnsupported(vs)
      invariant |kinds| == i && forall j :: 0 <= j < i ==> kinds[j] == KindOf(vs[j])
    {
      kinds := kinds + [KindOf(vs[i])];
      if !Supported(KindOf(vs[i])) {
        return kinds, false;
      }
      i := i + 1;
    }
    return kinds, true;
  }

  class Recorder {
    var isRecording: bool
    /** Set by StartRecording: the next message received is the first of the session. */
    var isFirstReceived: bool
    var types: seq<Kind>
    var strings: seq<string>
    var count: nat
    var timeWriteCount: nat
    var dataFile: seq<byte>
    var typeFile: seq<string>
    var stringFile: seq<string>
    var timeFile: seq<byte>
    var info: Option<Info>
    /** Every message captured in this session, with its elapsed ticks. */
    ghost var log: seq<Entry>
    /** The record counts written to the time index. */
    ghost var entries: seq<int>

    ghost function State(): Session
      reads this
    {
      Session(isRecording, isFirstReceived, types, strings, count, timeWriteCount,
              dataFile, typeFile, stringFile, timeFile, info, log, entries)
    }

    ghost predicate Valid()
      reads this
    {
      Good(State())
    }

    constructor ()
      ensures Valid() && !isRecording && !isFirstReceived
      ensures types == [] && strings == [] && dataFile == [] && timeFile == [] && info == None
    {
      isRecording, isFirstReceived := false, false;
      types, strings := [], [];
      count, timeWriteCount := 0, 0;
      dataFile, typeFile, stringFile, timeFile := [], [], [], [];
      info := None;
      log, entries := [], [];
    }

    method StartRecording()
      modifies this
      ensures Valid() && State() == Begin()
    {
      BeginGood();
      count, isRecording, isFirstReceived := 0, true, true;
      types, strings, log := [], [], [];
      OpenWriteFiles();
    }

    /** Creates the five files empty, then writes the first index entry, 0, to time.bin. */
    method OpenWriteFiles()
      modifies this`dataFile, this`typeFile, this`stringFile, this`info, this`timeFile, this`timeWriteCount, this`entries
      ensures dataFile == [] && typeFile == [] && stringFile == [] && info == None
      ensures timeFile == Int32Bytes(0) && timeWriteCount == 1 && entries == [0]
    {
      dataFile, typeFile, stringFile, info := [], [], [], None;
      timeFile, timeWriteCount, entries := Int32Bytes(0), 1, [0];
    }

    method StopRecording(comment: StopComment, now: int)
      modifies this`isRecording, this`info
      ensures State() == Stop(old(State()), comment, now)
    {
      if !isRecording {
        return;
      }
      isRecording := false;
      info := Some(Info(comment, now));
    }

    method OnFirstOscReceived(vs: Message, now: int) returns (ok: bool)
      modifies this`types, this`typeFile, this`isRecording, this`info
      ensures State() == ReadFirst(old(State()), vs, now)
      ensures ok == AllSupported(SchemaOf(vs))
    {
      ghost var s := State();
      var kinds;
      kinds, ok := ReadSchema(vs);
      SchemaRead(vs, kinds, ok);
      types, typeFile := kinds, KindNames(kinds);
      assert State() == s.(types := kinds, typeFile := KindNames(kinds));
      if !ok {
        StopRecording(UnsupportedValueType(kinds[|kinds| - 1]), now);
      }
    }

    method OnOscReceived(vs: Message, now: int64)
      requires Valid()
      modifies this
      ensures Valid() && State() == Receive(old(State()), vs, now)
    {
      ReceiveGood(State(), vs, now);
      if !isRecording {
        return;
      }
      if isFirstReceived {
        isFirstReceived := false;
        var ok := OnFirstOscReceived(vs, now);
        if !ok {
          return;
        }
      }
      if !Matches(types, vs) {
        return;
      }
      CaptureMessage(vs, now);
    }

    /** The rest of OnOscReceived once a message has been accepted: its strings and its record are written. */
    method CaptureMessage(vs: Message, now: int64)
      requires AllCapturable(vs)
      modifies this`strings, this`stringFile, this`dataFile, this`count, this`log
      ensures State() == Accept(old(State()), vs, now)
    {
      var table, rec := EncodeMessage(strings, vs, now);
      stringFile, strings := stringFile + table[|strings|..], table;
      dataFile, count, log := dataFile + rec, count + 1, log + [Entry(now, vs)];
    }

    method WriteTimeInfo(now: int)
      modifies this`timeWriteCount, this`timeFile, this`entries
      ensures State() == WriteTime(old(State()), now)
    {
      if !isRecording {
        return;
      }
      if now >= timeWriteCount * IntervalTicks {
        timeWriteCount := timeWriteCount + 1;
        timeFile := timeFile + Int32Bytes(count);
        entries := entries + [count];
      }
    }

    /** The recording part of Update. */
    method Update(now: int, limits: Limits)
      requires Valid()
      modifies this`timeWriteCount, this`timeFile, this`entries, this`isRecording, this`info
      ensures Valid() && State() == Watch(old(State()), now, limits)
    {
      WatchGood(State(), now, limits);
      if isRecording {
        WriteTimeInfo(now);
        if now > limits.maxTicks || |dataFile| > limits.maxDataBytes {
          StopRecording(Finished, now);
        }
      }
    }

    /** OnDestroy: a session still running is stopped with an empty comment. */
    method Destroy(now: int)
      requires Valid()
      modifies this`isRecording, this`info
      ensures Valid() && State() == Stop(old(State()), NoComment, now)
    {
      StopGood(State(), NoComment, now);
      StopRecording(NoComment, now);
    }
  }
}
