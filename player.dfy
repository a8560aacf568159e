/**
 * The playing half of OscRecorder: opening a capture folder, and replaying
 * its records as OSC messages at the times they were captured, with
 * seeking through the time index, pause, looping and a speed factor.
 */
module Playback {
  import opened Bytes
  import opened Osc
  import opened RecordFormat
  import opened TimeIndex
  import opened CaptureFolder

  /** _playingComment: what the last attempt to open a folder found. */
  datatype PlayComment =
    | Waiting                     // "Waiting for Load Folder."
    | FolderMissing               // "Load Folder is not exist."
    | DataFileMissing             // "Data File is not exist."
    | TypeFileMissing             // "Type File is not exist."
    | StringFileMissing           // "String File is not exist."
    | TimeFileMissing             // "Time File is not exist."
    | DataFileEmpty               // "Data File is empty."
    | UnsupportedLine(line: string) // "Unsupported OSC Value Type: " + line
    | TypeFileNotEnough           // "Type File data is not enough."
    | StringFileNotEnough         // "String File data is not enough."
    | DataFileTooShort            // the data file holds no whole record
    | TimeFileNotEnough           // "Time File data is not enough."
    | FilesLoaded                 // "Files Loaded Successfully."

  /** The type file read line by line: the kinds, or the first line that is not Int, Float or String. */
  datatype TypeLines = Kinds(kinds: seq<Kind>) | BadLine(line: string)

  function ParseTypes(lines: seq<string>): (r: TypeLines)
    ensures r.Kinds? ==> |r.kinds| == |lines| && AllSupported(r.kinds)
    decreases |lines|
  {
    if lines == [] then Kinds([])
    else
      match ParseTypes(lines[..|lines| - 1])
      case BadLine(l) => BadLine(l)
      case Kinds(ks) =>
        match ParseKind(lines[|lines| - 1])
        case None => BadLine(lines[|lines| - 1])
        case Some(k) => Kinds(ks + [k])
  }

  /**
   * The type file parses exactly when every line does; line i then gives
   * kind i, and otherwise the line reported is the first that does not parse.
   */
  lemma {:induction false} ParseTypesSpec(lines: seq<string>)
    ensures var r := ParseTypes(lines);
      && (r.Kinds? <==> forall i :: 0 <= i < |lines| ==> ParseKind(lines[i]).Some?)
      && (r.Kinds? ==> forall i :: 0 <= i < |lines| ==> ParseKind(lines[i]) == Some(r.kinds[i]))
      && (r.BadLine? ==> exists i :: 0 <= i < |lines| && lines[i] == r.line && ParseKind(lines[i]).None?
                                     && forall j :: 0 <= j < i ==> ParseKind(lines[j]).Some?)
    decreases |lines|
  {
    if lines != [] {
      var init := lines[..|lines| - 1];
      ParseTypesSpec(init);
      assert forall i :: 0 <= i < |init| ==> init[i] == lines[i];
      var r := ParseTypes(lines);
      if r.BadLine? && ParseTypes(init).BadLine? {
        var i :| 0 <= i < |init| && init[i] == r.line && ParseKind(init[i]).None?
                 && forall j :: 0 <= j < i ==> ParseKind(init[j]).Some?;
        assert lines[i] == r.line;
      }
    }
  }

  /** The type file the recorder writes for a schema it can capture parses back to that schema. */
  lemma TypeFileRoundTrip(types: seq<Kind>)
    requires AllSupported(types)
    ensures ParseTypes(KindNames(types)) == Kinds(types)
  {
    var lines := KindNames(types);
    forall i | 0 <= i < |lines|
      ensures ParseKind(lines[i]) == Some(types[i])
    {
      KindNamesAt(types, i);
      ParseKindName(types[i]);
    }
    ParseTypesSpec(lines);
    var ks := ParseTypes(lines).kinds;
    assert forall i :: 0 <= i < |lines| ==> Some(ks[i]) == Some(types[i]);
  }

  /** A bad line found in a prefix of the type file is the one reported for the whole file. */
  lemma {:induction false} ParseTypesBadPrefix(lines: seq<string>, i: nat)
    requires i <= |lines| && ParseTypes(lines[..i]).BadLine?
    ensures ParseTypes(lines) == ParseTypes(lines[..i])
    decreases |lines|
  {
    if i < |lines| {
      var init := lines[..|lines| - 1];
      assert init[..i] == lines[..i];
      ParseTypesBadPrefix(init, i);
    } else {
      assert lines[..i] == lines;
    }
  }

  /**
   * A folder holding the four files, whose type file parses to a non-empty
   * schema, whose string file is non-empty when the schema has a String
   * field and whose data file holds a whole record, opens, unless the time
   * index is too short for the total.
   */
  lemma OpenFiles(lines: seq<string>, ks: seq<Kind>, strings: seq<string>, data: seq<byte>, index: seq<byte>, total: int64)
    requires ParseTypes(lines) == Kinds(ks) && ks != [] && (String in ks ==> strings != [])
    requires Width(|ks|) <= |data| && RecordTicks(data[|data| - Width(|ks|)..]) == total
    ensures Open(Capture(true, Some(data), Some(lines), Some(strings), Some(index)))
      == if CoversDuration(|index|, total) then Ready(ks, strings, data, index, total) else Refused(TimeFileNotEnough)
  {
    assert |data| != 0 && !(String in ks && strings == []) && !(|data| < Width(|ks|));
  }

  /** A folder holding the four files and some data, whose type file has no line, is refused for its type file. */
  lemma OpenNoKinds(lines: seq<string>, strings: seq<string>, data: seq<byte>, index: seq<byte>)
    requires |data| > 0 && ParseTypes(lines) == Kinds([])
    ensures Open(Capture(true, Some(data), Some(lines), Some(strings), Some(index))) == Refused(TypeFileNotEnough)
  {
  }

  /** What opening a folder gives: the reason it was refused, or what was loaded. */
  datatype Opening =
    | Refused(why: PlayComment)
    | Ready(types: seq<Kind>, strings: seq<string>, data: seq<byte>, index: seq<byte>, total: int64)

  /**
   * OpenReadFiles, its checks in the order the source makes them. The total
   * duration is the ticks of the record that ends the data file. A data file
   * too short to hold one record is refused (the source would seek before
   * its start).
   */
  function Open(c: Capture): (r: Opening)
    ensures r.Ready? ==> && Decodable(r.types, r.strings) && |r.types| > 0
                         && Width(|r.types|) <= |r.data|
                         && r.total == RecordTicks(r.data[|r.data| - Width(|r.types|)..])
                         && CoversDuration(|r.index|, r.total)
  {
    if !c.folderExists then Refused(FolderMissing)
    else if c.dataFile.None? then Refused(DataFileMissing)
    else if c.typeFile.None? then Refused(TypeFileMissing)
    else if c.stringFile.None? then Refused(StringFileMissing)
    else if c.timeFile.None? then Refused(TimeFileMissing)
    else if |c.dataFile.value| == 0 then Refused(DataFileEmpty)
    else
      match ParseTypes(c.typeFile.value)
      case BadLine(l) => Refused(UnsupportedLine(l))
      case Kinds(ks) =>
        var strings := c.stringFile.value;
        var data := c.dataFile.value;
        var w := Width(|ks|);
        if ks == [] then Refused(TypeFileNotEnough)
        else if String in ks && strings == [] then Refused(StringFileNotEnough)
        else if |data| < w then Refused(DataFileTooShort)
        else
          var total := RecordTicks(data[|data| - w..]);
          if !CoversDuration(|c.timeFile.value|, total) then Refused(TimeFileNotEnough)
          else Ready(ks, strings, data, c.timeFile.value, total)
  }

  /** The type-file loop of OpenReadFiles: lines are read until one is not a kind the player can send. */
  method ReadTypeFile(lines: seq<string>) returns (r: TypeLines)
    ensures r == ParseTypes(lines)
  {
    var kinds: seq<Kind> := [];
    var i := 0;
    while i < |lines|
      invariant 0 <= i <= |lines|
      invariant ParseTypes(lines[..i]) == Kinds(kinds)
    {
      assert lines[..i + 1][..i] == lines[..i];
      var k := ParseKind(lines[i]);
      if k.None? {
        ParseTypesBadPrefix(lines, i + 1);
        return BadLine(lines[i]);
      }
      kinds := kinds + [k.value];
      i := i + 1;
    }
    assert lines[..i] == lines;
    return Kinds(kinds);
  }

  /** The string-file loop of OpenReadFiles: every line is a table entry, in order. */
  method ReadStringFile(lines: seq<string>) returns (strings: seq<string>)
    ensures strings == lines
  {
    strings := [];
    var i := 0;
    while i < |lines|
      invariant 0 <= i <= |lines| && strings == lines[..i]
    {
      strings := strings + [lines[i]];
      i := i + 1;
    }
  }

  /** OpenReadFiles: the checks made one after the other, each failure with its own comment. */
  method OpenReadFiles(c: Capture) returns (r: Opening)
    ensures r == Open(c)
  {
    if !c.folderExists {
      return Refused(FolderMissing);
    }
    if c.dataFile.None? {
      return Refused(DataFileMissing);
    }
    if c.typeFile.None? {
      return Refused(TypeFileMissing);
    }
    if c.stringFile.None? {
      return Refused(StringFileMissing);
    }
    if c.timeFile.None? {
      return Refused(TimeFileMissing);
    }
    var data := c.dataFile.value;
    if |data| == 0 {
      return Refused(DataFileEmpty);
    }
    var parsed := ReadTypeFile(c.typeFile.value);
    if parsed.BadLine? {
      return Refused(UnsupportedLine(parsed.line));
    }
    var types := parsed.kinds;
    if |types| == 0 {
      return Refused(TypeFileNotEnough);
    }
    var strings := ReadStringFile(c.stringFile.value);
    if String in types && |strings| == 0 {
      return Refused(StringFileNotEnough);
    }
    var w := |types| * 4 + 8;
    if |data| < w {
      return Refused(DataFileTooShort);
    }
    var total := ToInt64(data[|data| - w..|data| - w + 8]);
    assert data[|data| - w..][..8] == data[|data| - w..|data| - w + 8];
    if !CoversDuration(|c.timeFile.value|, total) {
      return Refused(TimeFileNotEnough);
    }
    return Ready(types, strings, data, c.timeFile.value, total);
  }

  /**
   * The player's state: the flags of the UI, the play speed in hundredths,
   * the playback clock and the total in ticks, what was loaded, the data
   * stream's position, the comment shown and every message sent so far.
   */
  datatype Deck = Deck(
    isPlaying: bool, isPausing: bool, isLooping: bool, speed: int,
    currentTime: int, totalTime: int,
    types: seq<Kind>, strings: seq<string>, data: seq<byte>, index: seq<byte>,
    width: nat, position: nat, comment: PlayComment, sent: seq<Message>)

  /** The field initialisers. */
  function Initial(): Deck
  {
    Deck(false, true, true, 100, 0, 0, [], [], [], [], 0, 0, Waiting, [])
  }

  /** While playing, the loaded schema can be decoded and the record width fits it. */
  predicate Loaded(d: Deck)
  {
    d.isPlaying ==> d.width == Width(|d.types|) && Decodable(d.types, d.strings)
  }

  /**
   * OpenReadFolder. A folder that opens is loaded paused at time zero at the
   * start of its data; one that does not leaves the player stopped with the
   * reason shown.
   */
  function Load(d: Deck, c: Capture): Deck
  {
    Apply(d, Open(c))
  }

  function Apply(d: Deck, o: Opening): Deck
  {
    match o
    case Refused(why) =>
      d.(isPlaying := false, isPausing := true, currentTime := 0, totalTime := 0, comment := why)
    case Ready(ks, strings, data, index, total) =>
      d.(types := ks, strings := strings, data := data, index := index, totalTime := total,
         width := Width(|ks|), position := 0, comment := FilesLoaded,
         isPlaying := true, isPausing := true, currentTime := 0)
  }

  lemma LoadSpec(d: Deck, c: Capture)
    ensures var r := Load(d, c);
      && Loaded(r) && r.isPausing && r.currentTime == 0 && r.sent == d.sent
      && (r.isPlaying <==> Open(c).Ready?)
      && (!r.isPlaying ==> r.totalTime == 0 && r.comment == Open(c).why)
      && (r.isPlaying ==> && r.comment == FilesLoaded && r.position == 0
                          && Width(|r.types|) <= |r.data|
                          && r.totalTime == RecordTicks(r.data[|r.data| - r.width..])
                          && CoversDuration(|r.index|, r.totalTime))
  {
  }

  /**
   * TransmitOsc: from the stream position, every record already due at the
   * current time is decoded and sent, in order; the position stops at the
   * first record not yet due. When no record is left the stream and the
   * clock go back to the start, and playback pauses unless it loops.
   */
  function Step(d: Deck): (r: Deck)
    requires Loaded(d)
  {
    if !d.isPlaying || d.isPausing then d
    else
      var recs := RecordsFrom(d.data, d.width, d.position);
      assert Timed(recs);
      var n := DueCount(recs, d.currentTime);
      var r := d.(sent := d.sent + DecodeAll(d.types, d.strings, recs[..n]));
      if n < |recs| then r.(position := d.position + n * d.width)
      else r.(position := 0, currentTime := 0, isPausing := !d.isLooping)
  }

  /** The playback part of Update: the clock advances by the frame time times the speed, then TransmitOsc. */
  function Advance(d: Deck, delta: nat): (r: Deck)
    requires Loaded(d)
  {
    if d.isPlaying && !d.isPausing then Step(d.(currentTime := d.currentTime + delta * d.speed / 100))
    else d
  }

  /**
   * The seek slider's callback: the target is clamped into [0, total] and
   * rounded down to a whole interval, which becomes the clock; the data
   * position is then read from the time index. Math.Clamp throws when the
   * total is negative, and a stream seek before the start throws, leaving
   * the position where it was.
   */
  function SeekTo(d: Deck, target: int): (r: Deck)
  {
    if d.totalTime < 0 then d
    else
      var t := SeekTime(target, d.totalTime);
      var r := d.(currentTime := t);
      match SeekPosition(d.index, d.width, t / IntervalTicks)
      case None => r
      case Some(p) => r.(position := p)
  }

  /** The play and pause buttons. */
  function Resume(d: Deck): Deck
  {
    d.(isPausing := false)
  }

  function Suspend(d: Deck): Deck
  {
    d.(isPausing := true)
  }

  /** Whether the seek callback runs to its end rather than throwing. */
  predicate SeekCompletes(d: Deck, target: int)
  {
    d.totalTime >= 0 && SeekPosition(d.index, d.width, SeekTime(target, d.totalTime) / IntervalTicks).Some?
  }

  lemma DecodeAllSnoc(types: seq<Kind>, strings: seq<string>, recs: seq<seq<byte>>, i: nat)
    requires Decodable(types, strings) && i < |recs|
    requires forall j :: 0 <= j < |recs| ==> |recs[j]| == Width(|types|)
    ensures DecodeAll(types, strings, recs[..i + 1])
         == DecodeAll(types, strings, recs[..i]) + [DecodeValues(types, strings, recs[i])]
  {
    var a := DecodeAll(types, strings, recs[..i + 1]);
    var b := DecodeAll(types, strings, recs[..i]) + [DecodeValues(types, strings, recs[i])];
    assert forall j :: 0 <= j < |a| ==> a[j] == b[j];
  }

  /** A value decoded from a record: a string is always one of the table's entries. */
  predicate FromTable(strings: seq<string>, vs: Message)
  {
    forall i :: 0 <= i < |vs| && vs[i].StringValue? ==> vs[i].s in strings
  }

  lemma DecodedFromTable(types: seq<Kind>, strings: seq<string>, rec: seq<byte>)
    requires Decodable(types, strings) && |rec| == Width(|types|)
    ensures FromTable(strings, DecodeValues(types, strings, rec))
  {
    var vs := DecodeValues(types, strings, rec);
    forall i | 0 <= i < |vs| && vs[i].StringValue?
      ensures vs[i].s in strings
    {
      DecodeValuesAt(types, strings, rec, i);
    }
  }

  /**
   * One step of playback: it only appends to what was sent; what it appends
   * is the decoding of the records from the position on, as far as the
   * first record later than the clock. If such a later record exists the
   * position stops at its start and the clock and pause flag are kept;
   * otherwise the stream and clock return to zero and playback pauses
   * unless it loops. Stopped or paused, nothing changes.
   */
  lemma StepSpec(d: Deck)
    requires Loaded(d)
    ensures var r := Step(d);
      && ((!d.isPlaying || d.isPausing) ==> r == d)
      && (d.isPlaying && !d.isPausing ==>
            var recs := RecordsFrom(d.data, d.width, d.position);
            var n := |r.sent| - |d.sent|;
            && 0 <= n <= |recs|
            && r.sent == d.sent + DecodeAll(d.types, d.strings, recs[..n])
            && (forall j :: 0 <= j < n ==> RecordTicks(recs[j]) <= d.currentTime)
            && (n < |recs| ==> && RecordTicks(recs[n]) > d.currentTime
                               && r == d.(sent := r.sent, position := d.position + n * d.width))
            && (n == |recs| ==> r == d.(sent := r.sent, position := 0, currentTime := 0, isPausing := !d.isLooping)))
  {
    if d.isPlaying && !d.isPausing {
      var recs := RecordsFrom(d.data, d.width, d.position);
      assert Timed(recs);
      var n := DueCount(recs, d.currentTime);
      var out := DecodeAll(d.types, d.strings, recs[..n]);
      if n < |recs| {
        StepStops(d, recs, n);
      } else {
        StepEnds(d, recs, n);
      }
      assert |Step(d).sent| - |d.sent| == |out|;
    }
  }

  /** Every message a step sends matches the loaded schema and takes its strings from the loaded table. */
  lemma StepSendsFromFile(d: Deck)
    requires Loaded(d)
    ensures var r := Step(d);
      && |d.sent| <= |r.sent| && r.sent[..|d.sent|] == d.sent
      && forall i :: |d.sent| <= i < |r.sent| ==> Matches(d.types, r.sent[i]) && FromTable(d.strings, r.sent[i])
  {
    if d.isPlaying && !d.isPausing {
      var recs := RecordsFrom(d.data, d.width, d.position);
      assert Timed(recs);
      var n := DueCount(recs, d.currentTime);
      var out := DecodeAll(d.types, d.strings, recs[..n]);
      var r := Step(d);
      assert r.sent == d.sent + out;
      forall i | |d.sent| <= i < |r.sent|
        ensures Matches(d.types, r.sent[i]) && FromTable(d.strings, r.sent[i])
      {
        assert r.sent[i] == out[i - |d.sent|];
        DecodedFromTable(d.types, d.strings, recs[i - |d.sent|]);
      }
    }
  }

  /** Every step keeps the loaded schema decodable. */
  lemma StepLoaded(d: Deck, delta: nat)
    requires Loaded(d)
    ensures Loaded(Step(d)) && Loaded(Advance(d, delta))
  {
  }

  /**
   * Seeking on an index the recorder wrote: the clock lands on a whole
   * interval at or before the clamped target, and the data position on the
   * start of the record counted by that interval's entry (the last entry
   * for any later interval), never past the records counted; nothing else
   * changes.
   */
  lemma SeekLands(d: Deck, target: int, es: seq<int>, count: nat)
    requires d.totalTime >= 0 && d.index == Words(es) && |es| >= 1 && Bounded(es, count)
    requires 0 < d.width && d.width * count < 0x8000_0000
    ensures SeekCompletes(d, target)
    ensures var r := SeekTo(d, target);
      var k := r.currentTime / IntervalTicks;
      var e := es[if k < |es| then k else |es| - 1];
      && r.currentTime % IntervalTicks == 0
      && r.currentTime <= Clamp(target, 0, d.totalTime) < r.currentTime + IntervalTicks
      && 0 <= e <= count && r.position == d.width * e <= d.width * count
      && r == d.(currentTime := r.currentTime, position := r.position)
  {
    var t := SeekTime(target, d.totalTime);
    var k := t / IntervalTicks;
    SeekOnIndex(es, count, d.width, k);
    var e := es[if k < |es| then k else |es| - 1];
    MulMonotone(d.width, e, count);
  }

  /** The speed field keeps Mathf.Clamp(value, 0.01, 30), in hundredths. */
  function ClampSpeed(v: int): (s: int)
    ensures 1 <= s <= 3000
    ensures 1 <= v <= 3000 ==> s == v
    ensures v < 1 ==> s == 1
    ensures v > 3000 ==> s == 3000
  {
    Clamp(v, 1, 3000)
  }

  /** The playing half of OscRecorder, its fields updated in place. */
  class Player {
    var isPlaying: bool
    var isPausing: bool
    var isLooping: bool
    /** _playSpeed, in hundredths. */
    var speed: int
    /** _currentTime and _totalTime, in ticks. */
    var currentTime: int
    var totalTime: int
    var types: seq<Kind>
    var strings: seq<string>
    /** The contents of the data and time files opened for reading. */
    var data: seq<byte>
    var index: seq<byte>
    /** _numBytesToRead. */
    var width: nat
    /** The data stream's position. */
    var position: nat
    var comment: PlayComment
    /** Every message handed to the OSC transmitter, in order. */
    var sent: seq<Message>

    ghost function State(): Deck
      reads this
    {
      Deck(isPlaying, isPausing, isLooping, speed, currentTime, totalTime,
           types, strings, data, index, width, position, comment, sent)
    }

    constructor ()
      ensures State() == Initial()
    {
      isPlaying, isPausing, isLooping, speed := false, true, true, 100;
      currentTime, totalTime := 0, 0;
      types, strings, data, index := [], [], [], [];
      width, position, comment, sent := 0, 0, Waiting, [];
    }

    method OpenReadFolder(c: Capture)
      modifies this
      ensures State() == Load(old(State()), c) && Loaded(State())
    {
      var r := OpenReadFiles(c);
      Install(r);
      LoadSpec(old(State()), c);
    }

    /** What OpenReadFolder does with the outcome of OpenReadFiles. */
    method Install(r: Opening)
      modifies this
      ensures State() == Apply(old(State()), r)
    {
      if r.Refused? {
        Stopped(r.why);
      } else {
        Started(r);
      }
    }

    /** A folder that did not open leaves the player stopped, paused and at time zero. */
    method Stopped(why: PlayComment)
      modifies this`comment, this`isPlaying, this`isPausing, this`currentTime, this`totalTime
      ensures State() == old(State()).(isPlaying := false, isPausing := true, currentTime := 0, totalTime := 0, comment := why)
    {
      comment := why;
      isPlaying, isPausing, currentTime, totalTime := false, true, 0, 0;
    }

    /** A folder that opened is loaded, paused at time zero with the data stream at its start. */
    method Started(r: Opening)
      requires r.Ready?
      modifies this
      ensures State() == old(State()).(types := r.types, strings := r.strings, data := r.data, index := r.index,
                                       totalTime := r.total, width := Width(|r.types|), position := 0,
                                       comment := FilesLoaded, isPlaying := true, isPausing := true, currentTime := 0)
    {
      OpenStreams(r.types, r.strings, r.data, r.index, r.total);
      comment, isPlaying, isPausing, currentTime := FilesLoaded, true, true, 0;
    }

    /** The lists read and the streams opened by OpenReadFiles, the data stream rewound to its start. */
    method OpenStreams(ks: seq<Kind>, strs: seq<string>, d: seq<byte>, ix: seq<byte>, total: int)
      modifies this`types, this`strings, this`data, this`index, this`totalTime, this`width, this`position
      ensures types == ks && strings == strs && data == d && index == ix && totalTime == total
      ensures width == Width(|ks|) && position == 0
    {
      types, strings, data, index, totalTime := ks, strs, d, ix, total;
      width, position := |ks| * 4 + 8, 0;
    }

    method TransmitOsc()
      requires Loaded(State())
      modifies this`position, this`currentTime, this`isPausing, this`sent
      ensures State() == Step(old(State())) && Loaded(State())
    {
      if !isPlaying || isPausing {
        return;
      }
      ghost var d := State();
      ghost var recs := RecordsFrom(data, width, position);
      var ended, p, out := ReadDue(types, strings, data, width, position, currentTime);
      sent := sent + out;
      if !ended {
        position := p;
        StepStops(d, recs, |out|);
        assert State() == d.(sent := sent, position := position);
        return;
      }
      Rewind();
      StepEnds(d, recs, |out|);
      assert State() == d.(sent := sent, position := 0, currentTime := 0, isPausing := !d.isLooping);
    }

    /** The end of the log: the stream and the clock go back to the start, and playback pauses unless it loops. */
    method Rewind()
      modifies this`position, this`currentTime, this`isPausing
      ensures position == 0 && currentTime == 0 && isPausing == (old(isPausing) || !isLooping)
    {
      position, currentTime := 0, 0;
      if !isLooping {
        isPausing := true;
      }
    }

    /** SetDataStreamPosition(k): `ok` is false where a stream seek would throw. */
    method SetDataStreamPosition(k: nat) returns (ok: bool)
      modifies this`position
      ensures ok <==> SeekPosition(index, width, k).Some?
      ensures position == if ok then SeekPosition(index, width, k).value else old(position)
    {
      var offset := if 4 * k < |index| - 4 then 4 * k else |index| - 4;
      if offset < 0 {
        return false;
      }
      var p := Wrap32(width * ToInt32(index[offset..offset + 4]));
      if p < 0 {
        return false;
      }
      position := p;
      return true;
    }

    /** The seek slider's callback; `ok` is false where it throws. */
    method Seek(target: int) returns (ok: bool)
      modifies this`currentTime, this`position
      ensures State() == SeekTo(old(State()), target)
      ensures ok == SeekCompletes(old(State()), target)
    {
      if totalTime < 0 {
        return false;
      }
      var c := Clamp(target, 0, totalTime);
      currentTime := c - c % IntervalTicks;
      ok := SetDataStreamPosition(currentTime / IntervalTicks);
    }

    method Play()
      modifies this`isPausing
      ensures State() == Resume(old(State()))
    {
      isPausing := false;
    }

    method Pause()
      modifies this`isPausing
      ensures State() == Suspend(old(State()))
    {
      isPausing := true;
    }

    method SetSpeed(v: int)
      modifies this`speed
      ensures speed == ClampSpeed(v)
    {
      speed := Clamp(v, 1, 3000);
    }

    method SetLooping(b: bool)
      modifies this`isLooping
      ensures isLooping == b
    {
      isLooping := b;
    }

    /** The playback part of Update, `delta` being the frame time in ticks. */
    method Update(delta: nat)
      requires Loaded(State())
      modifies this`position, this`currentTime, this`isPausing, this`sent
      ensures State() == Advance(old(State()), delta) && Loaded(State())
    {
      if isPlaying && !isPausing {
        ghost var d := State();
        currentTime := currentTime + delta * speed / 100;
        assert Advance(d, delta) == Step(State());
        TransmitOsc();
      }
    }
  }

  /**
   * The read loop of TransmitOsc, from stream position p0 at time `cur`:
   * records are read, decoded and sent while they are due, and the first one
   * that is not is put back. What is sent is the decoding of the run of due
   * records; `ended` says the loop ran out of whole records, and otherwise
   * `p` is the start of the first record not yet due.
   */
  method ReadDue(types: seq<Kind>, strings: seq<string>, data: seq<byte>, width: nat, p0: nat, cur: int)
    returns (ended: bool, p: nat, out: seq<Message>)
    requires width == Width(|types|) && Decodable(types, strings)
    ensures var recs := RecordsFrom(data, width, p0);
      && |out| <= |recs|
      && out == DecodeAll(types, strings, recs[..|out|])
      && (forall j :: 0 <= j < |out| ==> RecordTicks(recs[j]) <= cur)
      && (ended <==> |out| == |recs|)
      && (!ended ==> RecordTicks(recs[|out|]) > cur && p == p0 + |out| * width)
  {
    ghost var recs := RecordsFrom(data, width, p0);
    p, out := p0, [];
    assert recs[..0] == [];
    while true
      invariant |out| <= |recs| && RecordsFrom(data, width, p) == recs[|out|..]
      invariant p == p0 + |out| * width
      invariant forall j :: 0 <= j < |out| ==> RecordTicks(recs[j]) <= cur
      invariant out == DecodeAll(types, strings, recs[..|out|])
      decreases |data| - p
    {
      if p + width > |data| {
        // a short read: no whole record is left
        return true, p, out;
      }
      var rec := data[p..p + width];
      RecordsFromNext(data, width, p, recs, |out|);
      p := p + width;
      if ToInt64(rec[..8]) > cur {
        p := p - width;
        return false, p, out;
      }
      var vs := DecodeMessage(types, strings, rec);
      DecodeAllSnoc(types, strings, recs, |out|);
      MulSucc(|out|, width);
      out := out + [vs];
      if p != |data| {
        continue;
      }
      return true, p, out;
    }
  }

  /** Reading one whole record at the stream position moves on to the next record of the run. */
  lemma RecordsFromNext(data: seq<byte>, w: nat, p: nat, recs: seq<seq<byte>>, i: nat)
    requires w > 0 && p + w <= |data| && i <= |recs| && RecordsFrom(data, w, p) == recs[i..]
    ensures i < |recs| && recs[i] == data[p..p + w] && RecordsFrom(data, w, p + w) == recs[i + 1..]
  {
    assert recs[i..][0] == recs[i];
    assert recs[i..][1..] == recs[i + 1..];
  }

  /** The loop of TransmitOsc stopped at record i, which is not yet due. */
  lemma StepStops(d: Deck, recs: seq<seq<byte>>, i: nat)
    requires Loaded(d) && d.isPlaying && !d.isPausing && recs == RecordsFrom(d.data, d.width, d.position)
    requires i < |recs| && RecordTicks(recs[i]) > d.currentTime
    requires forall j :: 0 <= j < i ==> RecordTicks(recs[j]) <= d.currentTime
    ensures Step(d) == d.(sent := d.sent + DecodeAll(d.types, d.strings, recs[..i]), position := d.position + i * d.width)
  {
    assert Timed(recs);
    var n := DueCount(recs, d.currentTime);
    assert n == i;
  }

  /** The loop of TransmitOsc ran out of whole records after sending all i of them. */
  lemma StepEnds(d: Deck, recs: seq<seq<byte>>, i: nat)
    requires Loaded(d) && d.isPlaying && !d.isPausing && recs == RecordsFrom(d.data, d.width, d.position)
    requires i == |recs|
    requires forall j :: 0 <= j < i ==> RecordTicks(recs[j]) <= d.currentTime
    ensures Step(d) == d.(sent := d.sent + DecodeAll(d.types, d.strings, recs[..i]),
                          position := 0, currentTime := 0, isPausing := !d.isLooping)
  {
    assert Timed(recs);
    var n := DueCount(recs, d.currentTime);
    assert n == i;
  }

  /** The field loop of TransmitOsc: field i is decoded from bytes [8 + 4i, 12 + 4i) by its kind. */
  method DecodeMessage(types: seq<Kind>, strings: seq<string>, rec: seq<byte>) returns (vs: Message)
    requires Decodable(types, strings) && |rec| == Width(|types|)
    ensures vs == DecodeValues(types, strings, rec)
  {
    vs := [];
    for i := 0 to |types|
      invariant |vs| == i
      invariant forall j :: 0 <= j < i ==> vs[j] == DecodeField(types[j], rec[8 + 4 * j..12 + 4 * j], strings)
    {
      vs := vs + [DecodeField(types[i], rec[8 + 4 * i..12 + 4 * i], strings)];
    }
    forall j | 0 <= j < |types|
      ensures vs[j] == DecodeValues(types, strings, rec)[j]
    {
      DecodeValuesAt(types, strings, rec, j);
    }
  }
}
