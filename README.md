# OscRecorder capture and playback, modelled in Dafny

OscRecorder is a Unity component that records a live stream of OSC messages
to disk and later plays it back. Each message is a list of typed values:
Int, Float or String.

**The recorder.** The first message of a session fixes the schema. Its value
kinds are written to `type.txt`, one per line. Every later message of the
same shape is appended to `data.bin` as one fixed-width record:
- 8 bytes of elapsed ticks (100 ns each), little-endian;
- then one 4-byte little-endian word per value.

A string value is written as its ordinal in a string table. The table is kept
in first-seen order and mirrored in `string.txt`. Once per second of elapsed
time, the number of records written so far is appended to `time.bin` as an
int32. This is the time index.

**The player.** It opens such a folder, checking the folders and files in a
fixed order and keeping a comment for the first failure. It reads the total
duration from the last record. It then replays the records whose time has
come, with play, pause, loop and speed controls. A seek jumps to the record
counted by the index for the chosen second.

The project is made of these modules:
- `Bytes`: BitConverter's little-endian layouts.
- `Osc`: value kinds, and the type file's lines.
- `Interner`: the string table.
- `RecordFormat`: the record layout and its decoding.
- `TimeIndex`: the index file and the seek arithmetic.
- `CaptureFolder`: a folder as the player finds it.
- `Sessions`: the recorder as transitions on values, with the invariant that ties the files to the messages captured.
- `Recording`: the recorder as a class updated in place.
- `Playback`: the player, as functions on a value `Deck` and as a class `Player` updated in place.
- `EndToEnd`: lemmas taking a folder the recorder wrote through the player.
- `AsWritten`: the as-written halves of the findings.

Each method of the `Recorder` and `Player` classes is proved to move its
object to exactly the state the matching transition function gives. The
properties are proved about those functions.

Time is kept in integer ticks throughout. The play speed is kept in
hundredths. A stream or `Math.Clamp` exception is modelled as the operation
not completing: the seek methods return `false`.

Notes on the code:
- The type-file lines are the enum names `Int`, `Float` and `String`.
- The play speed is clamped to [0.01, 30].
- A seek past the last index entry uses the last entry.
- A refused type-file line gives one comment, whichever of the two checks at lines 376-385 refused it.

A recorder session whose messages carry no values writes an empty type file
beside a non-empty data file. The player refuses such a folder, as
`EndToEnd.OpenRecorded` states.

## Model

All source paths are in `Assets/Scripts/OscRecorder.cs`.

| member | source | states |
|---|---|---|
| Bytes.Int32RoundTrip | Assets/Scripts/OscRecorder.cs:233 | BitConverter.ToInt32 reads back every int that GetBytes(int) wrote |
| Bytes.Int64RoundTrip | Assets/Scripts/OscRecorder.cs:224-225 | ToInt64 reads back every long that GetBytes(long) wrote (the elapsed ticks) |
| Bytes.FloatRoundTrip | Assets/Scripts/OscRecorder.cs:236 | ToSingle reads back the bit pattern GetBytes(float) wrote |
| Bytes.Int32BytesOnto | Assets/Scripts/OscRecorder.cs:461-468 | every four bytes are the encoding of the int they decode to |
| Bytes.Int32BytesWrap | Assets/Scripts/OscRecorder.cs:263 | GetBytes of an int computed past the int range reads back as its two's-complement wrap |
| Bytes.FromToLE | Assets/Scripts/OscRecorder.cs:224-244 | little-endian n bytes of x < 256^n read back as x |
| Bytes.ToFromLE | Assets/Scripts/OscRecorder.cs:461-468 | the little-endian bytes of what a byte string reads as are that byte string |
| Osc.KindsOf | Assets/Scripts/OscRecorder.cs:192-194 | the kinds of a message's values, one per value, in order |
| Osc.KindNamesAt | Assets/Scripts/OscRecorder.cs:195 | line i of type.txt is the name of kind i of the schema |
| Osc.ParseKind | Assets/Scripts/OscRecorder.cs:373-387 | a type-file line accepted by the player names a capturable kind, and that kind's name is the line |
| Osc.ParseKindName | Assets/Scripts/OscRecorder.cs:373-387 | the name of a kind parses back to it exactly when it is Int, Float or String, and is refused otherwise |
| Interner.IndexOf | Assets/Scripts/OscRecorder.cs:244 | List.IndexOf is -1 exactly when the string is absent; otherwise it is the first position holding it, within the table |
| Interner.IndexOfDistinct | Assets/Scripts/OscRecorder.cs:239-244 | in a table without duplicates, each entry's ordinal is its position |
| Interner.IndexOfExtend | Assets/Scripts/OscRecorder.cs:239-242 | appending to the table never changes the ordinal of a string already in it |
| Interner.InternValues | Assets/Scripts/OscRecorder.cs:237-245 | the table only grows as a message's values are seen |
| Interner.InternValuesSpec | Assets/Scripts/OscRecorder.cs:237-245 | interning keeps the old table as a prefix, leaves every string of the message in the table, and keeps the table free of duplicates |
| Interner.InternValuesOnly | Assets/Scripts/OscRecorder.cs:239-242 | every string that interning adds is a string value of the message |
| Interner.InternValuesPrefix | Assets/Scripts/OscRecorder.cs:239-242 | interning only appends: the result is the old table followed by the new strings |
| Interner.InternValuesKnown | Assets/Scripts/OscRecorder.cs:239 | a message whose strings are all in the table leaves the table unchanged |
| RecordFormat.FieldBytes | Assets/Scripts/OscRecorder.cs:230-245 | every value of a capturable kind is written as exactly four bytes |
| RecordFormat.FieldsBytes | Assets/Scripts/OscRecorder.cs:228-248 | the values of a message take four bytes each |
| RecordFormat.EncodeRecord | Assets/Scripts/OscRecorder.cs:222-248 | a record is Width = 8 + 4·(number of values) bytes, the _numBytesToWrite of line 202 |
| RecordFormat.FieldsBytesAt | Assets/Scripts/OscRecorder.cs:228-248 | value i occupies bytes [4i, 4i + 4) of the value area |
| RecordFormat.RecordLayout | Assets/Scripts/OscRecorder.cs:222-248 | a record holds the ticks at bytes [0, 8) and value i at bytes [8 + 4i, 12 + 4i) |
| RecordFormat.FieldsBytesExtend | Assets/Scripts/OscRecorder.cs:239-244 | the words of a message whose strings are in the table do not change as the table grows |
| RecordFormat.Clamp | Assets/Scripts/OscRecorder.cs:468 | Math.Clamp lies in [lo, hi] and leaves a value already inside unchanged |
| RecordFormat.DecodeField | Assets/Scripts/OscRecorder.cs:459-470 | the player decodes a word as a value of the kind the schema names |
| RecordFormat.DecodeValues | Assets/Scripts/OscRecorder.cs:456-471 | a decoded message always matches the schema it was decoded with |
| RecordFormat.DecodeValuesAt | Assets/Scripts/OscRecorder.cs:456-471 | value i of a decoded message comes from bytes [8 + 4i, 12 + 4i) of the record |
| RecordFormat.DecodeFieldBytes | Assets/Scripts/OscRecorder.cs:230-245 | one value written and read back with the same duplicate-free table is that value |
| RecordFormat.MatchesDecodable | Assets/Scripts/OscRecorder.cs:404-408 | a schema message whose strings are in the table can be written, and the table can be decoded with that schema |
| RecordFormat.OrdinalRoundTrip | Assets/Scripts/OscRecorder.cs:468 | in a duplicate-free table, an in-range ordinal the player looks up is the ordinal the recorder writes for that string |
| RecordFormat.DecodeEncode | Assets/Scripts/OscRecorder.cs:222-248 | a record read back gives the message's own ticks and values |
| RecordFormat.EncodeLog | Assets/Scripts/OscRecorder.cs:250 | data.bin is one record of the schema's width per captured message |
| RecordFormat.EncodeLogAppend | Assets/Scripts/OscRecorder.cs:250 | capturing one more message appends its record to data.bin and leaves the earlier bytes unchanged |
| RecordFormat.EncodeLogLength | Assets/Scripts/OscRecorder.cs:250 | the length of data.bin is the count times the width |
| RecordFormat.EncodeLogExtend | Assets/Scripts/OscRecorder.cs:239-244 | records already written keep their bytes however the table grows afterwards |
| RecordFormat.InternLogSpec | Assets/Scripts/OscRecorder.cs:237-245 | the table built over a session has no duplicates and holds every string captured |
| RecordFormat.InternLogOnly | Assets/Scripts/OscRecorder.cs:239-242 | every string in the table came from a captured message |
| RecordFormat.RecordsFrom | Assets/Scripts/OscRecorder.cs:447 | every record read from a stream position is one record width long |
| RecordFormat.RecordsFromShift | Assets/Scripts/OscRecorder.cs:447 | records are read at the same places after any prefix of whole records |
| RecordFormat.RecordsFromSkip | Assets/Scripts/OscRecorder.cs:493 | reading from e whole records further on gives the same records without the first e |
| RecordFormat.RecordsOfLog | Assets/Scripts/OscRecorder.cs:250 | reading data.bin from the start gives exactly the session's records, in order |
| RecordFormat.DueCount | Assets/Scripts/OscRecorder.cs:447-454 | the due run is every record up to the first one later than the clock |
| RecordFormat.DecodeAll | Assets/Scripts/OscRecorder.cs:456-473 | one message is sent per record decoded |
| TimeIndex.Words | Assets/Scripts/OscRecorder.cs:263 | time.bin holds four bytes per entry |
| TimeIndex.WordsAt | Assets/Scripts/OscRecorder.cs:489-490 | entry i is the word at bytes [4i, 4i + 4) of time.bin |
| TimeIndex.EntryAt | Assets/Scripts/OscRecorder.cs:489-491 | an index entry that fits an int reads back as itself |
| TimeIndex.TruncDiv | Assets/Scripts/OscRecorder.cs:420 | the (int) conversion of the duration in seconds truncates toward zero, for negative durations too |
| TimeIndex.SeekTime | Assets/Scripts/OscRecorder.cs:617-620 | the seek target is clamped into [0, total] and rounded down to a whole second, within one second of the clamped target |
| TimeIndex.SeekPosition | Assets/Scripts/OscRecorder.cs:487-494 | a data position is found only when time.bin holds at least one word |
| TimeIndex.SeekPositionAt | Assets/Scripts/OscRecorder.cs:487-494 | the word read at min(4k, length - 4) gives the position width · entry when that fits an int |
| TimeIndex.SeekOnIndex | Assets/Scripts/OscRecorder.cs:487-494 | on a recorder-written index, second k (the last entry for any later second) lands on the record boundary width · entry, within the records written |
| TimeIndex.ProductBound | Assets/Scripts/OscRecorder.cs:493 | a record count no larger than the count written gives an in-range position |
| Sessions.FirstUnsupported | Assets/Scripts/OscRecorder.cs:192-199 | every value before this index can be captured, and the value at it cannot |
| Sessions.SchemaOf | Assets/Scripts/OscRecorder.cs:192-199 | the schema written is no longer than the first message |
| Sessions.SchemaOfPrefix | Assets/Scripts/OscRecorder.cs:192-199 | the schema is the message's kinds cut just after the first one that cannot be captured; it can be captured exactly when no such kind exists |
| Sessions.SchemaRead | Assets/Scripts/OscRecorder.cs:192-199 | the kinds the loop adds are the schema, and the loop finishes exactly when the schema can be captured |
| Sessions.KindsOfMatches | Assets/Scripts/OscRecorder.cs:182-188 | ValidateMessageFormat accepts a message exactly when its kinds, in order, are the schema |
| Sessions.CaptureAppend | Assets/Scripts/OscRecorder.cs:238-250 | capturing a schema message keeps data.bin the encoding of the log under the new table |
| Sessions.IndexAppend | Assets/Scripts/OscRecorder.cs:260-264 | appending the current count keeps the index starting at 0, non-decreasing and bounded by the count |
| Sessions.IndexReadBack | Assets/Scripts/OscRecorder.cs:260-264 | each word of time.bin reads back as its entry, and the entry is at most the count |
| Sessions.IndexGrow | Assets/Scripts/OscRecorder.cs:252 | an index bounded by the count stays bounded as the count grows |
| Sessions.BeginGood | Assets/Scripts/OscRecorder.cs:98-111 | a freshly started session satisfies the invariant |
| Sessions.StopGood | Assets/Scripts/OscRecorder.cs:113-127 | stopping keeps the invariant and leaves the recorder not recording |
| Sessions.ReadFirstGood | Assets/Scripts/OscRecorder.cs:190-206 | reading the schema from the first message keeps the invariant |
| Sessions.AcceptGood | Assets/Scripts/OscRecorder.cs:222-252 | capturing a message of the schema keeps the invariant |
| Sessions.ReceiveGood | Assets/Scripts/OscRecorder.cs:208-253 | every message received keeps the invariant |
| Sessions.WriteTimeGood | Assets/Scripts/OscRecorder.cs:255-265 | writing the index keeps the invariant |
| Sessions.WatchGood | Assets/Scripts/OscRecorder.cs:677-684 | the recording half of Update keeps the invariant |
| Sessions.ReceiveIgnored | Assets/Scripts/OscRecorder.cs:210-220 | a message changes nothing exactly when it arrives while not recording, or arrives after the first message without matching the schema |
| Sessions.ReceiveFirst | Assets/Scripts/OscRecorder.cs:213-217 | the first message fixes the schema; with a kind that cannot be captured recording stops naming that kind and nothing is captured, otherwise the message is the first record |
| Sessions.FirstCaptured | Assets/Scripts/OscRecorder.cs:213-217 | a first message of capturable kinds gives its own kinds as the schema and becomes record one |
| Sessions.FirstRefused | Assets/Scripts/OscRecorder.cs:197-199 | a first message with a kind that cannot be captured stops the recording with that kind in info.txt and captures nothing |
| Sessions.ReadFirstKeeps | Assets/Scripts/OscRecorder.cs:192-205 | a schema that can be captured is written and recording goes on |
| Sessions.ReadFirstStops | Assets/Scripts/OscRecorder.cs:197-199 | a schema that cannot be captured is written, then recording stops naming its last kind |
| Sessions.FirstWaitEmpty | Assets/Scripts/OscRecorder.cs:102-106 | a session still waiting for its first message has captured nothing and has an empty schema and table |
| Sessions.SchemaWhole | Assets/Scripts/OscRecorder.cs:192-202 | a first message of capturable kinds gives its own kinds as the schema, and matches it |
| Sessions.SchemaCut | Assets/Scripts/OscRecorder.cs:197-199 | otherwise the schema cannot be captured and ends with the kind of the first value that cannot be |
| Sessions.ReceiveAccepted | Assets/Scripts/OscRecorder.cs:222-252 | an accepted message adds one to the count and appends one record of the schema's width; the table only grows, without duplicates, and holds the message's strings |
| Sessions.AcceptedDecodes | Assets/Scripts/OscRecorder.cs:222-250 | the record an accepted message appends reads back as that message's ticks and values |
| Sessions.WriteTimeAppends | Assets/Scripts/OscRecorder.cs:255-265 | the count is appended to time.bin exactly when recording and a whole second has been reached; the data and the table are unchanged |
| Sessions.SessionIndex | Assets/Scripts/OscRecorder.cs:263 | the index of any reachable session starts at 0, never decreases, never exceeds the count, and reads back word by word |
| Recording.EncodeMessage | Assets/Scripts/OscRecorder.cs:228-248 | the value loop produces the interned table and the record of the message under that table |
| Recording.EncodeStep | Assets/Scripts/OscRecorder.cs:238-247 | one turn of the value loop interns the value's string and appends its word after the unchanged earlier words |
| Recording.ReadSchema | Assets/Scripts/OscRecorder.cs:192-199 | the schema loop reads the kinds up to and including the first that cannot be captured, and says whether it read them all |
| Recording.Recorder.constructor | Assets/Scripts/OscRecorder.cs:57-64 | a new recorder is not recording and has an empty schema, table and files |
| Recording.Recorder.StartRecording | Assets/Scripts/OscRecorder.cs:98-111 | starting resets the count, schema and table, and creates the files with time.bin holding 0 |
| Recording.Recorder.OpenWriteFiles | Assets/Scripts/OscRecorder.cs:129-150 | the files are created empty and time.bin holds the word 0, with the interval counter at 1 |
| Recording.Recorder.StopRecording | Assets/Scripts/OscRecorder.cs:113-127 | stopping ends a running session and writes the comment to info.txt; otherwise nothing changes |
| Recording.Recorder.OnFirstOscReceived | Assets/Scripts/OscRecorder.cs:190-206 | the schema and type.txt become the first message's kinds, and the result says whether they can be captured |
| Recording.Recorder.OnOscReceived | Assets/Scripts/OscRecorder.cs:208-253 | a received message moves the recorder as Receive says and keeps the invariant |
| Recording.Recorder.CaptureMessage | Assets/Scripts/OscRecorder.cs:222-252 | an accepted message's new strings go to the table and string.txt, its record to data.bin, and the count grows |
| Recording.Recorder.WriteTimeInfo | Assets/Scripts/OscRecorder.cs:255-265 | the index grows by the count when a whole second is reached |
| Recording.Recorder.Update | Assets/Scripts/OscRecorder.cs:677-684 | the index is written, then recording stops once the time or size limit is passed; the invariant is kept |
| Recording.Recorder.Destroy | Assets/Scripts/OscRecorder.cs:693-697 | a running session is stopped with an empty comment |
| Playback.ParseTypes | Assets/Scripts/OscRecorder.cs:370-388 | a type file that parses gives one capturable kind per line |
| Playback.ParseTypesSpec | Assets/Scripts/OscRecorder.cs:370-388 | the type file parses exactly when every line does, line i giving kind i; otherwise the line reported is the first that does not parse |
| Playback.TypeFileRoundTrip | Assets/Scripts/OscRecorder.cs:370-388 | the type file the recorder writes for a capturable schema parses back to that schema |
| Playback.ParseTypesBadPrefix | Assets/Scripts/OscRecorder.cs:373-385 | a bad line found early is the one reported, however many lines follow |
| Playback.OpenFiles | Assets/Scripts/OscRecorder.cs:389-427 | a folder with a non-empty schema, a table when one is needed, and a whole record opens with the total from the last record, unless the index is too short |
| Playback.OpenNoKinds | Assets/Scripts/OscRecorder.cs:389-393 | a folder with data but an empty type file is refused as "Type File data is not enough." |
| Playback.Open | Assets/Scripts/OscRecorder.cs:328-428 | a folder that opens has a decodable non-empty schema, at least one record, a total equal to the last record's ticks, and an index covering the total |
| Playback.ReadTypeFile | Assets/Scripts/OscRecorder.cs:370-388 | the type-file loop gives the parse of the file's lines |
| Playback.ReadStringFile | Assets/Scripts/OscRecorder.cs:395-403 | the string table is the lines of string.txt |
| Playback.OpenReadFiles | Assets/Scripts/OscRecorder.cs:328-428 | the checks run in source order and give Open's outcome |
| Playback.LoadSpec | Assets/Scripts/OscRecorder.cs:310-326 | after an open the player is paused at time 0; it is playing exactly when the folder opened; a refusal keeps its comment with total 0; a success starts at position 0 with the total read from the last record |
| Playback.DecodedFromTable | Assets/Scripts/OscRecorder.cs:468 | a decoded string is always an entry of the loaded table |
| Playback.StepSpec | Assets/Scripts/OscRecorder.cs:440-485 | a step appends the decodings of the due records from the position on. It stops at the first later record, or rewinds to 0 and pauses unless looping. Paused or stopped, nothing changes |
| Playback.StepSendsFromFile | Assets/Scripts/OscRecorder.cs:440-473 | a step only appends to what was sent, and every message it sends matches the schema and takes its strings from the table |
| Playback.StepLoaded | Assets/Scripts/OscRecorder.cs:686-690 | steps and frames keep the loaded schema decodable |
| Playback.SeekLands | Assets/Scripts/OscRecorder.cs:617-621 | on a recorder-written index, the seek completes; the clock lands on a whole second within one second below the clamped target; the position lands on the record boundary counted by the index; nothing else changes |
| Playback.ClampSpeed | Assets/Scripts/OscRecorder.cs:640 | the speed stays in [0.01, 30] and a speed already in range is kept |
| Playback.Player.constructor | Assets/Scripts/OscRecorder.cs:71-82 | a new player is stopped and paused, with looping on, speed 1, and "Waiting for Load Folder." |
| Playback.Player.OpenReadFolder | Assets/Scripts/OscRecorder.cs:310-326 | opening moves the player to Load's state, which keeps a playing player's schema decodable |
| Playback.Player.Install | Assets/Scripts/OscRecorder.cs:312-325 | the player takes the outcome of OpenReadFiles as Apply says |
| Playback.Player.Stopped | Assets/Scripts/OscRecorder.cs:312-319 | a refused folder leaves the player stopped and paused at time 0 with total 0 and the refusal's comment |
| Playback.Player.Started | Assets/Scripts/OscRecorder.cs:322-324 | an opened folder is loaded, paused at time 0 and position 0, with "Files Loaded Successfully." |
| Playback.Player.OpenStreams | Assets/Scripts/OscRecorder.cs:410-418 | the lists, the streams and the record width are those of the opened folder, and the data stream is rewound |
| Playback.Player.TransmitOsc | Assets/Scripts/OscRecorder.cs:440-485 | TransmitOsc moves the player as Step says and keeps its schema decodable |
| Playback.Player.Rewind | Assets/Scripts/OscRecorder.cs:477-483 | at the end of the data the stream and clock go back to 0, and playback pauses unless it loops |
| Playback.Player.SetDataStreamPosition | Assets/Scripts/OscRecorder.cs:487-494 | the data position becomes the int product of the width and the index word for second k (the last word for a later second); where either stream seek would throw it reports failure and the position is unchanged |
| Playback.Player.Seek | Assets/Scripts/OscRecorder.cs:617-621 | the slider callback moves the player as SeekTo says, and reports whether it ran to its end |
| Playback.Player.Play | Assets/Scripts/OscRecorder.cs:628 | the play button clears the pause flag |
| Playback.Player.Pause | Assets/Scripts/OscRecorder.cs:629 | the pause button sets the pause flag |
| Playback.Player.SetSpeed | Assets/Scripts/OscRecorder.cs:640 | the speed field keeps the clamped value |
| Playback.Player.SetLooping | Assets/Scripts/OscRecorder.cs:642 | the loop toggle sets the loop flag |
| Playback.Player.Update | Assets/Scripts/OscRecorder.cs:686-690 | a frame advances the clock by the frame time times the speed, then transmits, as Advance says, keeping the schema decodable |
| Playback.ReadDue | Assets/Scripts/OscRecorder.cs:445-484 | the read loop sends the decodings of the due records from the position on; it ends exactly when no whole record is left, and otherwise stops at the start of the first record not yet due |
| Playback.RecordsFromNext | Assets/Scripts/OscRecorder.cs:447 | reading one whole record moves on to the next record of the run |
| Playback.StepStops | Assets/Scripts/OscRecorder.cs:450-453 | a loop stopped before a later record leaves the stream at that record's start |
| Playback.StepEnds | Assets/Scripts/OscRecorder.cs:475-483 | a loop that used up the records rewinds and pauses unless it loops |
| Playback.DecodeMessage | Assets/Scripts/OscRecorder.cs:456-471 | the value loop decodes value i from bytes [8 + 4i, 12 + 4i) by its kind |
| EndToEnd.LastRecord | Assets/Scripts/OscRecorder.cs:415-417 | the last record of a session's data.bin carries the last message's ticks |
| EndToEnd.TableHoldsAString | Assets/Scripts/OscRecorder.cs:404-408 | a session with a String value has a non-empty string.txt once a message is captured |
| EndToEnd.OpenWritten | Assets/Scripts/OscRecorder.cs:328-428 | the files written for a non-empty log open with the log's schema, table, data and index, with the last message's time as the total, unless the schema is empty or the index too short |
| EndToEnd.OpenWrittenNoKinds | Assets/Scripts/OscRecorder.cs:389-393 | a non-empty log of value-less messages is refused for its type file |
| EndToEnd.OpenWrittenKinds | Assets/Scripts/OscRecorder.cs:328-428 | a non-empty log of a non-empty schema opens, unless the index is too short |
| EndToEnd.OpenRecorded | Assets/Scripts/OscRecorder.cs:328-428 | the folder a session wrote is refused as empty if nothing was captured, or for its type file if the schema is empty. Otherwise it loads exactly the session's schema, table, data and index, provided the index covers the total |
| EndToEnd.ReplayRecorded | Assets/Scripts/OscRecorder.cs:440-472 | the session's data.bin reads back as one record per captured message, each decoding to that message's ticks and values |
| EndToEnd.DecodeRecorded | Assets/Scripts/OscRecorder.cs:456-472 | decoding the first n records gives the first n captured messages |
| EndToEnd.LoadRecorded | Assets/Scripts/OscRecorder.cs:310-326 | opening a session's folder loads it paused at time 0, position 0, with the last message's time as total |
| EndToEnd.PlaybackReplays | Assets/Scripts/OscRecorder.cs:440-485 | open, play, and one frame send exactly the captured messages due by the clock, in order; the next one is later; with none left the player has rewound |
| EndToEnd.ResumeAdvance | Assets/Scripts/OscRecorder.cs:686-690 | play then a frame is one step at the advanced clock |
| EndToEnd.PlaysFromStart | Assets/Scripts/OscRecorder.cs:440-485 | playing from the start sends the messages the records decode to, in order, up to the first later than the clock |
| EndToEnd.SeekRecorded | Assets/Scripts/OscRecorder.cs:617-621 | seeking in a session's folder completes and lands on the boundary of message e, the index entry for that second; from there the player reads the records from the e-th on; at the last entry equal to the count it lands at the end of data.bin |
| EndToEnd.SkipRecords | Assets/Scripts/OscRecorder.cs:493 | from the boundary of message e, data.bin reads as its records from the e-th on |
| AsWritten.OpenAsWritten | Assets/Scripts/OscRecorder.cs:412-417 | as written, OpenReadFiles throws exactly where the corrected open refuses a data file shorter than a record, and otherwise agrees with it |
| AsWritten.ShortDataFileThrows | Assets/Scripts/OscRecorder.cs:415 | a four-byte data file of an Int schema throws as written, and is refused by the corrected open |
| AsWritten.ReadCount | Assets/Scripts/OscRecorder.cs:447 | Stream.Read returns at most a buffer's worth, and all of it when that much is left |
| AsWritten.ReadInto | Assets/Scripts/OscRecorder.cs:447 | the bytes read overwrite the front of the buffer, and the rest of the buffer keeps its old bytes |
| AsWritten.OpenedBuffer | Assets/Scripts/OscRecorder.cs:412-416 | the buffer created as zeros, with its first 8 bytes overwritten by the last record's ticks |
| AsWritten.OpenedBufferTicks | Assets/Scripts/OscRecorder.cs:415-417 | after a folder opens, the ticks in the buffer are the total duration the player shows |
| AsWritten.TransmitAsWritten | Assets/Scripts/OscRecorder.cs:440-485 | as written, a call only appends to what was sent |
| AsWritten.StaleBufferSent | Assets/Scripts/OscRecorder.cs:445-485 | at the end of the data, as written, the stale buffer is sent as a message before the rewind; the corrected step sends nothing |
| AsWritten.StaleFrame | Assets/Scripts/OscRecorder.cs:445-485 | a frame at the end of the data whose clock reaches the total: as written it sends the buffer the open left, carrying the total's ticks; the corrected frame sends nothing |
| AsWritten.StaleAfterSeek | Assets/Scripts/OscRecorder.cs:617-621 | open, a seek landing at the end of data.bin, play and a frame reaching the total: as written the open's buffer is sent as a message, while the corrected frame sends nothing |
| AsWritten.PastEndSpins | Assets/Scripts/OscRecorder.cs:445-475 | past the end of the data with a due stale buffer, as written no read finds a byte, the buffer is sent each turn and the position never equals the length, so the loop does not return within any number of turns |
| AsWritten.StaleBufferStepsBack | Assets/Scripts/OscRecorder.cs:447-453 | at the end of the data, with a stale buffer later than the clock, as written the read finds no byte and the loop steps back one record width, to the start of the last record, sending nothing; the corrected step rewinds to 0 at once |
| AsWritten.StepsBack | Assets/Scripts/OscRecorder.cs:447-453 | as written, a read finding no byte whose stale buffer is later than the clock leaves the position one record width before the end and sends nothing |
| AsWritten.EndRewinds | Assets/Scripts/OscRecorder.cs:477-483 | the corrected step at the end of the data sends nothing, rewinds the position and the clock to 0, and pauses unless looping |
| AsWritten.LastRecordLater | Assets/Scripts/OscRecorder.cs:447-483 | after that step back, once the last record is due, the as-written loop sends it once and rewinds, as the corrected step does from the same position; the corrected step at the end had already rewound without sending it in that pass |
| AsWritten.LastSentAsWritten | Assets/Scripts/OscRecorder.cs:447-483 | as written, a due last record is read whole, decoded, sent, and followed by the rewind |
| AsWritten.LastSent | Assets/Scripts/OscRecorder.cs:447-483 | the corrected step at the start of a due last record sends exactly that record and rewinds |
| AsWritten.StaleOpens | Assets/Scripts/OscRecorder.cs:412-417 | a folder holding one Int record between the first and the second second, with the index counts 0 and 1, opens with that record's ticks as the total |
| AsWritten.LoadReady | Assets/Scripts/OscRecorder.cs:328-428 | a folder that opens loads exactly what Open read, starts at position 0 and clock 0, and is playing but paused |
| AsWritten.StaleSeeks | Assets/Scripts/OscRecorder.cs:617-621 | on the index counts 0 and 1, the slider at second 1 sets the clock to 1 s and the position to one record width |
| AsWritten.StaleDecodes | Assets/Scripts/OscRecorder.cs:461-462 | the recorded Int record decodes to its own value, while the open's buffer decodes to 0 |
| AsWritten.StaleCase | Assets/Scripts/OscRecorder.cs:445-485 | for every value v recorded at t ticks between 1 s and 2 s, the folder opens, a seek to 1 s lands at the end of data.bin, a frame of t - 1 s brings the clock to t, establishing StaleAfterSeek's premises on this folder; and the open's buffer decodes to [0], a value never recorded, where the record decodes to [v] |
| AsWritten.StaleWitness | Assets/Scripts/OscRecorder.cs:445-485 | one instance of StaleCase: the value 5 recorded at 1.2 s, a seek to 1 s landing at the end of data.bin, a frame of 0.2 s reaching the total, and the open's buffer decoding to [0] |

## Left out

- The file system, `Directory`/`File` checks and streams: a folder is a value saying which files exist and what they hold. Text files are their lines, so strings containing line breaks are not modelled.
- The clock (`DateTime.Now`, `Time.deltaTime`): elapsed time and frame time are parameters, in integer ticks. Floating-point time is not modelled: seconds as `double`, `TotalSeconds`, and `Math.Round` of a whole number of seconds.
- Playback.Player.Update: the speed is in hundredths and the clock advance is `delta * speed / 100`, rounded down, not the float product.
- Recording.Recorder.Update: the limits are given as ticks and bytes; the float minutes and megabytes are not modelled.
- The OSC transport (`OSCReceiver`, `OSCTransmitter`, `SetOscReceiver`, `SetOscTransmitter`): a received message is a parameter, and sending appends to the `sent` list.
- The reuse of one `OSCMessage` object for every message sent: each message sent is a fresh value.
- `CloseReadFiles`, `CloseWriteFiles`, the info.txt lines after the comment, the popup, the folder name and the UI: I/O and rendering only.
- Osc.ParseKind: `Enum.TryParse(string, out T)` at line 376 is case-sensitive. It also accepts a numeric string, giving the kind with that value; a comma-separated list of names such as `Int, Float`, combined as flags; and surrounding spaces. The model accepts exactly the lines `Int`, `Float` and `String`.
- Float values are their 32-bit patterns, copied unchanged.
- Playback.Player.OpenReadFolder: on a refused open, the loaded schema, table and data are left as they were. The source has by then cleared and partly refilled its lists, but nothing reads them while not playing.
- TimeIndex.SeekPosition: the offset `4 * k` is not wrapped to an int, since seconds beyond 2^29 are not reached. The product of the width and the entry is wrapped.
- EndToEnd.ReplayRecorded: requires the string table to hold at most 2^31 entries, so every ordinal fits an int.
- EndToEnd.SeekRecorded: relates the seek position to the index entry, not to the messages' times. The index entries and the message ticks come from separate readings of the clock, so the model does not state which messages precede the seek time.
- AsWritten.TransmitAsWritten: bounded by a fuel parameter. A source loop that never ends would need unbounded fuel; for the case past the end of the data, AsWritten.PastEndSpins shows Spins for every fuel.
- Playback.Step: at the end of the data the corrected step always rewinds at once. As written, when the stale buffer's ticks are later than the clock, the loop steps back to the start of the last record (line 452), sends nothing, and sends that record once when it is due before rewinding (AsWritten.StaleBufferStepsBack, AsWritten.LastRecordLater). When the buffer is the one the open left, that record lies at or after the seek target, so this is its only sending. The corrected step rewinds without sending it in that pass: it comes on the next pass when looping, and not at all otherwise.

## Findings

| source | as written | input that shows it | evidently intended | confidence | as-written member | corrected member |
|---|---|---|---|---|---|---|
| Assets/Scripts/OscRecorder.cs:412-417 | the data stream seeks to length - width before any check that the data file holds a whole record | data.bin of 4 bytes with type.txt `Int` (width 12): the seek lands at -8 and throws, so the folder is neither opened nor refused | refuse the folder with a comment, like every other malformed folder | not executed | AsWritten.ShortDataFileThrows | Playback.Open |
| Assets/Scripts/OscRecorder.cs:445-485 | the loop decodes the buffer without checking how many bytes Read returned | a seek to an index entry equal to the record count (the end of data.bin), then a frame whose clock passes the buffer's ticks: Read returns 0 bytes and the stale buffer (after an open, the last record's ticks and zeros) is sent as a message. Past the end of data.bin (a time.bin word whose product with the width exceeds the data, from a folder the recorder did not write whole), Position never equals Length at line 475, so the due stale buffer is sent over and over and TransmitOsc never returns (AsWritten.PastEndSpins) | a short read ends the data: rewind without sending | not executed | AsWritten.StaleAfterSeek | Playback.StepSpec |
