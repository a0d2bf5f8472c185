# Verified model of the BLE proxy firmware

A Dafny model of the state machines, rings, tables and codecs of the firmware, with proofs of
what they promise. `dafny verify dfyconfig.toml` checks everything.

The components and where they are modelled:

- **Framed broadcast server.** `FrameCodec` has the varint and frame codec over arbitrary short
  reads, `ApiServer` the client table and the sending loop, and `ApiRuns` every interleaving of
  broadcasts and handshake replies over one buffer and one mutex.
- **GATT connection slots.** `ConnectionPool` has the slot table, one method per section under
  the mutex; `ConnectionRuns` interleaves API tasks and host callbacks at those sections.
- **Log ring.** `LogRing` has the ring against an unbounded history, the BLE poller and the HTTP drain.
- **Parsers and printers.** `Provisioning` (base64 and line grammar) and `SerialConsole` (line
  buffer, flasher, and the way from form to flash); `FormFields` (form values); `BtHome` (service
  data); `BleFragments` (fragmentation and reassembly); the option half of `DhcpHostname`.
- **Tables.** `LruTable` (the table shape shared by the BTHome cache and the scanner),
  `DeviceTable`, `NatRouter`, `CloneMirror`, the registry half of `DhcpHostname`.
- **Runs.** `Subscriptions` (reference counts), `AdvBatch` (batching), `Liveness` (watchdog).

Loops and records that the firmware updates in place are methods and classes here, each proved
against a function of the old state; what the firmware promises is then proved about those
functions, for all inputs, all reachable states or all runs. What such a function means is also said
without it, in numbers, bytes or past events (`WordsReadBack`, `RegisteredIff`, `ArmedIff`,
`ReportsAreTheEvents`, `TableIsTheBook`). `Prelude` holds what they share.

Conventions of the model: a socket is a handle that is never reused; a message encoder is an
arbitrary producer of bytes that fit its buffer; a host callback for a client comes only while an
attempt or link of that client is outstanding, and an attempt that could not be issued causes none;
requests to the web server are served one after another, and a firmware update is one request;
32-bit counters other than the varint values, the sighting count and the times in the device and
reading tables are taken not to wrap; times, radio answers and probe results are inputs.

Where the code does not do what its comments say, the code is followed and the difference is a
result of its own:

- `bt_handlers.cpp`: the last unsubscribe and its stop are two steps, and a subscription between them
  is silenced (`InStepIff` says exactly when; `CrossingSilences`, `CrossingIsPossible`).
- `scanner.cpp`: a callback between its check and the mutex carries one advert past a stop, though the
  comment in `stop_forwarding` rules that out (`LeaksExactlyWhatIsInFlight`, `StaleAdvertIsPossible`).
- `stats.cpp`: a drain can end beyond the position it advertised, and the client that resumes there gets
  bytes twice (`EndsAtTheTargetIff`, `ResumeIsExactIff`, `DrainCanRepeat`).
- `clone_mirror.cpp`: a row missed by a rebind keeps its handle and can take another's
  notifications (`NotifyReachesItsRow` says exactly when; `StaleRowSteals`).
- `nat_router.cpp`: a rule added while the AP is down is live (`LiveWhileDownIff` says which;
  `LiveWhileDown`).
- `bthome.cpp` and `scanner.cpp`: a wrap of the 32-bit clock misleads the choice of the oldest row
  (`OldestIsTrulyOldest` says exactly when; `WrapMisleads`); a temperature in tenths wraps beyond 327.6 degrees (`TenthsOverflow`).
- `wifi_sta.cpp`: a piece without an equals sign hides the pair behind it, against section 5.1 of the
  URL Standard (`MeetsTheStandardIff` says exactly when the two agree; `ValuelessPieceHides`).

## Model

| member | source | states |
|---|---|---|
| `FrameCodec.VarintLen` | components/api_server/frame_codec.h:53-60 | the loop counts exactly the bytes the encoding has |
| `FrameCodec.VarintLenBound` | components/api_server/frame_codec.h:53-60 | an encoding has at most k bytes if and only if the value is below 2 to the 7k |
| `FrameCodec.EncodeVarint` | components/api_server/frame_codec.cpp:5-13 | writes the encoding at its place and touches no other byte |
| `FrameCodec.DecodeVarint` | components/api_server/frame_codec.cpp:15-31 | on any bytes and any budget: the value modulo 2^32 and the bytes used of the encoding that fits the budget and five bytes, else the zero answer |
| `FrameCodec.ParsedGroups` | components/api_server/frame_codec.cpp:15-31 | a decoded varint is the groups of seven bits, lowest first, up to the first byte without its top bit, and every such run is one |
| `FrameCodec.UnfinishedVarint` | components/api_server/frame_codec.cpp:15-31 | bytes that all have the top bit set never end a varint |
| `FrameCodec.VarintRoundTrip` | components/api_server/frame_codec.cpp:5-31 | decoding an encoding followed by anything gives the value and its length if the budget allows that many bytes, and is too long otherwise |
| `FrameCodec.ReadVarintStreaming` | components/api_server/frame_codec.cpp:51-68 | under any short-read schedule agrees with the whole-buffer decoder and consumes exactly the bytes used |
| `FrameCodec.ReadExact` | components/api_server/frame_codec.cpp:37-46 | under any short-read schedule delivers exactly the next n bytes of the stream, or what is left and the kind of ending |
| `FrameCodec.Inbound.Recv` | components/api_server/api_server.cpp:47-51 | the contract of a receiving socket: any non-empty part of what is left, zero only at a clean end |
| `FrameCodec.ReadHeader` | components/api_server/frame_codec.cpp:75-92 | reads indicator, size and type off the stream and no byte more, with each error case |
| `FrameCodec.ReadFrame` | components/api_server/frame_codec.cpp:72-104 | under any short-read schedule yields what the whole stream parses to, consumes exactly the bytes of that frame, and names every error |
| `FrameCodec.PrependHeader` | components/api_server/frame_codec.cpp:106-116 | the header ends at offset 6, the payload and the bytes before the header are untouched |
| `FrameCodec.HeaderFits` | components/api_server/frame_codec.h:29-30 | within the limits the header fits its six bytes |
| `FrameCodec.HeaderRoundTrip` | components/api_server/frame_codec.cpp:72-116 | a header is read back if and only if the type is below 2^14 and the size below 2^21 |
| `FrameCodec.FrameLayout` | components/api_server/frame_codec.cpp:106-116 | with size and type below 128 a frame is a zero byte, the size, the type and the payload |
| `FrameCodec.Refusals` | components/api_server/frame_codec.cpp:79-92 | a first byte that is not zero, a size of more than three bytes and a type of more than two are each refused by name |
| `FrameCodec.TooLargeIsRefused` | components/api_server/frame_codec.cpp:93-98 | a size above the receiver's buffer is refused, with the payload left unread |
| `FrameCodec.EarlyEnd` | components/api_server/frame_codec.cpp:37-46 | a stream that ends before a header does is at its end or fails as the socket did |
| `FrameCodec.FrameRoundTrip` | components/api_server/frame_codec.cpp:72-116 | a frame followed by anything is read back, with its length, if and only if type, size and buffer are within their limits |
| `FrameCodec.PartialFrameIsEnd` | components/api_server/frame_codec.cpp:37-46 | a frame cut short anywhere reads as the end of the stream, never as another message |
| `FrameCodec.StreamRoundTrip` | components/api_server/frame_codec.cpp:72-116 | a stream of whole frames and at most one cut short reads back as exactly those messages and then the end |
| `ApiServer.RegisterEffect` | components/api_server/api_server.cpp:71-84 | registering adds exactly the descriptor if a slot is free and changes nothing otherwise; entries stay distinct |
| `ApiServer.RoomIff` | components/api_server/api_server.cpp:71-84 | there is room if and only if fewer than four descriptors are registered |
| `ApiServer.UnregisterEffect` | components/api_server/api_server.cpp:86-96 | unregistering removes exactly the descriptor |
| `ApiServer.ClientTable.Register` | components/api_server/api_server.cpp:71-84 | the loop over the table does what the specification of registering says, and reports whether there was room |
| `ApiServer.ClientTable.Unregister` | components/api_server/api_server.cpp:86-96 | the loop over the table does what the specification of unregistering says |
| `ApiServer.SendLockedTo` | components/api_server/api_server.cpp:53-67 | the answer is true if and only if no send of this call failed; whatever the short sends, the whole frame is then on the wire, and else a proper prefix; the payload in the shared buffer is unchanged |
| `ApiServer.SendAll` | components/api_server/api_server.cpp:57-66 | gives up if and only if a send failed, and then at that one; when none failed the whole frame is on the wire, whatever the short sends |
| `ApiRuns.StepInv` | components/api_server/api_server.cpp:98-142 | every step of every task keeps the invariant of mutex, buffer, client table, log and wires |
| `ApiRuns.RunInv` | components/api_server/api_server.cpp:244-307 | so the invariant holds throughout every interleaving |
| `ApiRuns.MutualExclusion` | components/api_server/api_server.cpp:120-132 | while one task sends out of the shared buffer no other task is between taking and giving the mutex |
| `ApiRuns.ClientsReadTheirMessages` | components/api_server/api_server.cpp:53-67 | in every interleaving of broadcasts and replies with arbitrary short sends, each unbroken client reads back exactly the messages completed for it, in order |
| `ApiRuns.RegisteredIff` | components/api_server/api_server.cpp:204-236 | in every run a descriptor is registered if and only if it was accepted while fewer than four were and has not left since |
| `ApiRuns.BroadcastsAreRounds` | components/api_server/api_server.cpp:244-279 | a finished broadcast made exactly one round, of its own message |
| `ApiRuns.RoundGoesTo` | components/api_server/api_server.cpp:244-279 | a non-empty broadcast goes to exactly the clients that were accepted with room for them before its snapshot and had not left by then; an empty one to nobody, a reply to its client only |
| `ApiRuns.BrokenIff` | components/api_server/api_server.cpp:57-66 | a socket counts as broken if and only if a send to it failed since it was accepted |
| `ApiRuns.RegisteredGetsAll` | components/api_server/api_server.cpp:244-279 | a client registered from one moment to another is sent every broadcast made between them, in order |
| `ApiRuns.SameOrder` | components/api_server/api_server.cpp:244-279 | two clients registered throughout are sent the broadcasts in the same order |
| `ApiRuns.RepliesArrive` | components/api_server/api_server.cpp:117-133 | a finished handshake reply was sent to its own client in exactly one round, and unless that client's socket failed the client reads it in its place |
| `ApiRuns.InFlightCutShort` | components/api_server/api_server.cpp:57-66 | what of a frame is on the wire at any moment is nothing or a frame cut short |
| `ApiRuns.NobodyIsStuck` | components/api_server/api_server.cpp:98-142 | in every reachable state a waiting task can take the mutex or its holder can go on, with any short count of what is left of its frame |
| `ConnectionPool.AcceptsExactly` | components/ble_backend/connection.cpp:207-220 | a connect is accepted exactly when no held slot has the address and some slot is free |
| `ConnectionPool.SlotsAccountedFor` | components/ble_backend/connection.cpp:291-311 | free count and listed addresses account for every slot, and the listed addresses are those of the held slots |
| `ConnectionPool.Pool.Claim` | components/ble_backend/connection.cpp:207-232 | the locked part of connect: refuses changing nothing, or claims the first free slot and nothing else |
| `ConnectionPool.Pool.OnConnect` | components/ble_backend/connection.cpp:107-129 | a link coming up changes exactly the connecting slot of that client and yields its callback |
| `ConnectionPool.Pool.OnEnd` | components/ble_backend/connection.cpp:131-186 | a failed or ended link frees exactly the slot of that client and yields its callback |
| `ConnectionPool.Pool.ReleaseAt` | components/ble_backend/connection.cpp:259-273 | an attempt that could not be issued frees its slot and yields its callback |
| `ConnectionPool.Pool.Disconnect` | components/ble_backend/connection.cpp:277-289 | only a connected slot turns to disconnecting, and only then is a client to be closed |
| `ConnectionPool.Pool.DisconnectAll` | components/ble_backend/connection.cpp:313-317 | uninterrupted, leaves no slot connected and every other slot as it was |
| `ConnectionPool.Pool.FreeSlots` | components/ble_backend/connection.cpp:291-299 | counts the free slots |
| `ConnectionPool.Pool.InUseAddresses` | components/ble_backend/connection.cpp:301-311 | lists the addresses of the held slots in order, cut to the buffer |
| `ConnectionPool.Pool.ClientFor` | components/ble_backend/connection.cpp:319-326 | gives a client exactly when a connected slot has the address |
| `ConnectionRuns.StepInv` | components/ble_backend/connection.cpp:107-286 | every step of API tasks and host callbacks keeps the invariant of slots, clients, tasks and reports |
| `ConnectionRuns.RunInv` | components/ble_backend/connection.cpp:107-286 | so it holds throughout every run |
| `ConnectionRuns.PoolSafety` | components/ble_backend/connection.cpp:52-71 | in every reachable state held slots have distinct addresses, clients are distinct, and free count plus listed addresses is the number of slots |
| `ConnectionRuns.ReportsOfAConnect` | components/ble_backend/connection.cpp:107-182 | the reports of one accepted connect are a prefix of connected, disconnected, or exactly disconnected; the end is decided exactly when its slot is given up |
| `ConnectionRuns.ReportsAreTheEvents` | components/ble_backend/connection.cpp:107-182 | the decided reports of a connect are exactly, in order, the events of the run that brought its link up and ended it |
| `ConnectionRuns.AcceptedConnect` | components/ble_backend/connection.cpp:207-232 | a connect is accepted if and only if a slot is free and none is held for the address; it opens a free slot, and a refused one changes nothing |
| `ConnectionRuns.DisconnectAsks` | components/ble_backend/connection.cpp:277-289 | a disconnect marks exactly the connected slot of the address as disconnecting and changes nothing else |
| `ConnectionRuns.FreedWithItsReport` | components/ble_backend/connection.cpp:131-182 | a slot becomes free only together with its one disconnected report |
| `ConnectionRuns.DecidedIsFinal` | components/ble_backend/connection.cpp:107-182 | nothing is ever reported after the disconnected report |
| `ConnectionRuns.QuietMeansTold` | components/ble_backend/connection.cpp:259-273 | when no task is under way every decided report has been delivered |
| `ConnectionRuns.NoSlotIsLost` | components/ble_backend/connection.cpp:107-286 | in every reachable state a held slot has a task in connect that will decide about it, or a link the host can still end |
| `ConnectionRuns.NobodyIsStuck` | components/ble_backend/connection.cpp:107-286 | every task and every report under way can go on, and connects and disconnects can come at any time |
| `LogRing.LogBuffer.Append` | components/api_server/stats.cpp:84-100 | a line of at most 8192 bytes extends the history by exactly that line, a longer one by exactly its last 8192 bytes; every resident byte is at its number modulo the size |
| `LogRing.LogBuffer.BuildSlice` | components/api_server/stats.cpp:884-914 | a slice is an exact part of the history from the asked position, from the end when that is beyond it, from the oldest resident byte when that is gone; no other byte of the buffer changes |
| `LogRing.PollerGetsHistory` | components/ble_httpd/ble_httpd.cpp:144-169 | in every run of appends and polls the pieces a poller gets are exact, disjoint, increasing parts of the history |
| `LogRing.HistoryIsTheLines` | components/api_server/stats.cpp:84-100 | over every run of lines within the ring the history is those lines, one behind the other |
| `LogRing.PollerHoldsTheLines` | components/ble_httpd/ble_httpd.cpp:144-169 | a poller that keeps up holds exactly the text of the lines logged |
| `LogRing.PollStep` | components/ble_httpd/ble_httpd.cpp:144-169 | a poll continues where the last ended unless more than a ring behind, and then at the oldest resident byte; it makes progress while there is any |
| `LogRing.NoGapWithoutLag` | components/ble_httpd/ble_httpd.cpp:144-169 | a poller never more than a ring behind holds the whole history up to where it stands |
| `LogRing.PollsCatchUp` | components/ble_httpd/ble_httpd.cpp:144-169 | without appends polling reaches the end |
| `LogRing.EnvelopeRoundTrip` | web/index.html:747-754 | the page reads back the position and the bytes of an answer |
| `LogRing.EnvelopeExample` | components/ble_httpd/ble_httpd.cpp:144-169 | an answer written out, byte by byte |
| `LogRing.AnswerPoll` | components/ble_httpd/ble_httpd.cpp:144-169 | the answer is the envelope of the slice at the clamped start and of the position after it |
| `LogRing.Drain` | components/api_server/stats.cpp:119-161 | always ends, whatever is appended between slices; sends exact disjoint increasing parts of the history; when not cut off it is the drain the appends determine and reaches the advertised position |
| `LogRing.EndsAtTheTargetIff` | components/api_server/stats.cpp:119-161 | a complete drain ends exactly at the advertised position if and only if its last slice does not overrun it, and never before |
| `LogRing.PastTheTarget` | components/api_server/stats.cpp:884-914 | a slice passes a position if and only if more was logged than that and neither buffer nor ring end stops the copy before |
| `LogRing.DrainSeamlessIff` | components/api_server/stats.cpp:149-155 | a drain has sent the whole history from its start to its end if and only if no slice began more than a ring behind the log |
| `LogRing.DrainSendsTheLines` | components/api_server/stats.cpp:119-161 | a drain that keeps up sends exactly the text of the lines logged before it and while it ran, from its start to where it stands |
| `LogRing.ResumeIsExactIff` | components/api_server/stats.cpp:130-134 | a seamless drain followed by a resume at the advertised position gives the history without loss or repetition if and only if it ended where the resume begins, which within a ring is the advertised position |
| `LogRing.QuietDrain` | components/api_server/stats.cpp:119-161 | with nothing logged in between a drain is the resident history from its start |
| `LogRing.DrainCanRepeat` | components/api_server/stats.cpp:119-161 | a drain of 1025 bytes with five logged in between sends those five, and the resume sends them again |
| `BleFragments.FragmentShape` | components/ble_httpd/ble_httpd.cpp:57-100 | max(1, ceil(len/242)) frames of 2 to 244 bytes with the id and error flag, final flag on the last only |
| `BleFragments.FragmentBytes` | components/ble_httpd/ble_httpd.cpp:57-100 | every byte of every frame: final flag 1 on the last, error flag 2, id, and 242 bytes of the payload from 242 times its number on |
| `BleFragments.NotifyRetrying` | components/ble_httpd/ble_httpd.cpp:57-75 | gives a frame up if and only if six tries failed, and else sends it once |
| `BleFragments.SendResponse` | components/ble_httpd/ble_httpd.cpp:57-100 | sends a prefix of the fragments, all of them unless some frame failed six times in a row |
| `BleFragments.Dashboard.Notified` | scripts/ble_dashboard_probe.py:44-58 | the client takes one frame as its specification says |
| `BleFragments.NotifiedMeans` | scripts/ble_dashboard_probe.py:44-58 | what the two header bytes mean: a final frame ends what is held for its id and answers the caller waiting for it, if any, with the error bit; a shorter frame is ignored |
| `BleFragments.FrameTouchesOne` | scripts/ble_dashboard_probe.py:44-58 | a frame changes what the client holds for its own id and for no other |
| `BleFragments.NonInterference` | scripts/ble_dashboard_probe.py:44-58 | under any interleaving what the client holds for an id depends on that id's frames only |
| `BleFragments.ResponseRecovered` | scripts/ble_dashboard_probe.py:44-58 | a waiting caller gets the payload and flag of its response, behind any residue: exactly the payload if and only if there was none |
| `BleFragments.AllRecovered` | scripts/ble_dashboard_probe.py:44-76 | under any interleaving of responses with distinct ids and no residue, every caller gets exactly its response |
| `BleFragments.Dashboard.Begin` | scripts/ble_dashboard_probe.py:63-68 | a call takes the next id modulo 256 and waits for it |
| `BleFragments.Dashboard.GiveUp` | scripts/ble_dashboard_probe.py:72-75 | a timeout forgets the caller and the residue of its id |
| `FormFields.FormGet` | components/wifi_sta/wifi_sta.cpp:171-212 | on any source and key: the decoded value of the first matching piece cut to the buffer and terminated, false when there is none |
| `FormFields.CopyDecoded` | components/wifi_sta/wifi_sta.cpp:183-205 | plus signs, escapes and stray percent signs are decoded up to the capacity |
| `FormFields.FindsFirst` | components/wifi_sta/wifi_sta.cpp:174-210 | in well-formed fields the raw value found is that of the first field with the name |
| `FormFields.FieldValue` | components/wifi_sta/wifi_sta.cpp:171-212 | for every well-formed list of fields the value is that of the first field with the name, and absent if and only if there is none |
| `FormFields.Characters` | components/wifi_sta/wifi_sta.cpp:183-205 | the characters that matter are = & + % and space |
| `FormFields.EscapesRead` | components/wifi_sta/wifi_sta.cpp:186-196 | a percent sign and two hexadecimal digits read as sixteen times the first plus the second |
| `FormFields.PlainReads` | components/wifi_sta/wifi_sta.cpp:183-205 | a plus sign reads as a space, a percent sign without two hexadecimal digits behind it as itself |
| `FormFields.PiecesRead` | components/wifi_sta/wifi_sta.cpp:174-210 | for every list of pieces, with values or without, the raw value found is that of the first pair with the key that no name alone stands directly before, and none if there is none |
| `FormFields.MeetsTheStandardIff` | components/wifi_sta/wifi_sta.cpp:171-212 | the reader takes the piece the URL Standard takes, and so gives its answer, if and only if that piece, if any, is a pair with its name spelled out and no name alone before it; otherwise it gives that answer only when a later pair has the same value |
| `FormFields.NamesAlone` | components/wifi_sta/wifi_sta.cpp:175-181 | for the Standard a name alone has the empty value, and an empty piece is no field |
| `FormFields.ValuelessPieceHides` | components/wifi_sta/wifi_sta.cpp:175-181 | a form on which it does not: a name alone swallows the last pair |
| `FormFields.SerializeRoundTrip` | components/wifi_sta/wifi_sta.cpp:184-204 | every value has a well-formed serialisation that decodes to it |
| `Provisioning.Base64RoundTrip` | components/serial_provision/serial_provision.cpp:55-105 | base64 decoding inverts encoding, as in section 4 of RFC 4648 |
| `Provisioning.Alphabet` | components/serial_provision/serial_provision.cpp:55-62 | the 64 letters of table 1 of RFC 4648, in its order |
| `Provisioning.GroupsOfSix` | components/serial_provision/serial_provision.cpp:75-92 | one, two or three bytes are groups of six bits, highest first, and padding |
| `Provisioning.GroupAccepted` | components/serial_provision/serial_provision.cpp:75-92 | a group is read if and only if letters come first and at most two padding signs last |
| `Provisioning.ReadGroup` | components/serial_provision/serial_provision.cpp:75-92 | a group is taken exactly when it is letters followed by at most two padding signs |
| `Provisioning.DecodeInto` | components/serial_provision/serial_provision.cpp:64-105 | on any token and buffer: accepted exactly when the groups decode to a NUL-free value that fits, and then that value, terminated |
| `Provisioning.TokenAccepted` | components/serial_provision/serial_provision.cpp:64-105 | a token is taken if and only if it is a dash, or whole groups of four, each accepted, that come to no more bytes than asked and no NUL |
| `Provisioning.TokenRoundTrip` | web-flasher/app.js:128-134 | the flasher's token of a value is accepted if and only if the value fits and has no NUL, and gives the value |
| `Provisioning.TakeWord` | components/serial_provision/serial_provision.cpp:132-137 | splits off the next word; a word no space ends is none |
| `Provisioning.HandleWifiLine` | components/serial_provision/serial_provision.cpp:129-176 | on any line: not a WiFi line, rejected, or the stored pair, as the line grammar says |
| `Provisioning.BlanksDoNotCount` | components/serial_provision/serial_provision.cpp:132-142 | any number of blanks before a word and any white space behind the last one make no difference |
| `Provisioning.OthersStay` | components/serial_provision/serial_provision.cpp:139-142 | what ends in no white space is not trimmed |
| `Provisioning.OneWordIsRefused` | components/serial_provision/serial_provision.cpp:129-150 | a line with one word only is refused |
| `Provisioning.OtherFlagsAreRefused` | components/serial_provision/serial_provision.cpp:192-196 | a flag other than 0 and 1 is refused |
| `Provisioning.HandleNatLine` | components/serial_provision/serial_provision.cpp:178-234 | on any line: not a SoftAP line, rejected, or the fields to store, a dash keeping a field |
| `SerialConsole.WifiRoundTrip` | web-flasher/app.js:353-355 | a printed WiFi line is stored exactly if and only if the form is valid and NUL-free, and is rejected otherwise |
| `SerialConsole.NatRoundTrip` | web-flasher/app.js:350-352 | a printed SoftAP line sets the flag and exactly the non-empty fields if and only if they are valid and NUL-free, and is rejected otherwise |
| `SerialConsole.Device.HandleLine` | components/serial_provision/serial_provision.cpp:236-240 | a line is tried as a SoftAP line first, and changes the settings and answers as specified |
| `SerialConsole.RxLine.AppendRx` | components/serial_provision/serial_provision.cpp:274-299 | one byte into the 512-byte line buffer: carriage returns ignored, a newline handles the C string so far, an overlong line is dropped |
| `SerialConsole.FeedLine` | components/serial_provision/serial_provision.cpp:274-299 | from an empty buffer, a line's bytes have exactly the effect of handling its text |
| `SerialConsole.ReturnsDoNotCount` | components/serial_provision/serial_provision.cpp:274-283 | carriage returns anywhere in what comes in make no difference |
| `SerialConsole.LongLinesStartOver` | components/serial_provision/serial_provision.cpp:284-299 | of a line without an end the buffer holds what came since the last multiple of 512 bytes |
| `SerialConsole.LengthRules` | components/serial_provision/serial_provision.cpp:150-170 | which lengths of name and key are stored: 1 to 32, and none, 8 to 63, or 64 hexadecimal digits |
| `SerialConsole.Acknowledgements` | components/serial_provision/serial_provision.cpp:170-240 | the two answers, letter by letter |
| `SerialConsole.LineExample` | web-flasher/app.js:353-355 | a whole WiFi line, byte by byte |
| `SerialConsole.ProvisioningRoundTrip` | web-flasher/app.js:110-126 | every form the flasher accepts and a C string can carry, printed and fed byte by byte, is stored exactly, acknowledged, and restarts the device if it has station credentials |
| `SerialConsole.WifiFirstLosesAp` | web-flasher/app.js:350-355 | in the other order the restart would lose the SoftAP line |
| `BtHome.StoredSizes` | components/ble_backend/bthome.cpp:34-57 | the table gives every stored object the size its decoding reads |
| `BtHome.ObjectsAreTheLongestPrefix` | components/ble_backend/bthome.cpp:105-118 | the objects read are exactly the longest readable run: the one list whose bytes the input starts with and behind which nothing can be read |
| `BtHome.NextObject` | components/ble_backend/bthome.cpp:107-118 | one turn of the cursor, in bounds on any bytes |
| `BtHome.Walk` | components/ble_backend/bthome.cpp:105-177 | the reading is the left fold of the per-object updates over a blank one |
| `BtHome.FoldIsLastWins` | components/ble_backend/bthome.cpp:119-176 | each field of that fold is what the last object carrying it says |
| `BtHome.WordsReadBack` | components/ble_backend/bthome.cpp:59-65 | every number below 65536 in two bytes, low byte first, reads back as itself from objects 0x03, 0x0C and 0x12 |
| `BtHome.WideReadBack` | components/ble_backend/bthome.cpp:59-65 | every number below 2^24 in three bytes, low byte first, reads back as itself from objects 0x05 and 0x0B |
| `BtHome.TemperatureReadsBack` | components/ble_backend/bthome.cpp:59-65 | every temperature from -32768 to 32767 hundredths reads back as itself from object 0x02 |
| `BtHome.TenthsReadBack` | components/ble_backend/bthome.cpp:167-171 | every temperature in tenths reads back from object 0x45 as ten times itself, if that fits 16 bits |
| `BtHome.OctetsReadBack` | components/ble_backend/bthome.cpp:119-150 | every octet reads back from the one-byte objects |
| `BtHome.SizesListed` | components/ble_backend/bthome.cpp:34-57 | the table, entry by entry |
| `BtHome.TextIsSkipped` | components/ble_backend/bthome.cpp:107-118 | a text or raw object is skipped with the length it tells |
| `BtHome.UnknownEndsIt` | components/ble_backend/bthome.cpp:107-118 | an object without an entry ends the reading |
| `BtHome.CutOffEndsIt` | components/ble_backend/bthome.cpp:107-118 | so does one that is cut off |
| `BtHome.VersionTwo` | components/ble_backend/bthome.cpp:83-104 | a frame is read if and only if its first byte is from 0x40 to 0x5F, whose top three bits say 2 |
| `BtHome.FrameRoundTrip` | components/ble_backend/bthome.cpp:83-179 | every list of well-formed objects in a frame with any version 2 info byte is read back, whatever undecodable bytes follow, and nothing of an encrypted one |
| `BtHome.TenthsOverflow` | components/ble_backend/bthome.cpp:167-171 | a temperature in tenths is right if and only if ten times the raw value fits 16 bits |
| `BtHome.Cache.Ingest` | components/ble_backend/bthome.cpp:83-179 | a version 2 frame replaces the sender's row or takes a place by the table's rule; anything else changes nothing |
| `LruTable.SlotFor` | components/ble_backend/bthome.cpp:68-80 | the search for a row: the address's own, else the next unused, else the first of the oldest |
| `LruTable.PutRefinesMap` | components/ble_backend/scanner.cpp:69-88 | the table refines a map: a put changes its own entry, and evicts only when full and for a new address, an entry none is older than |
| `LruTable.OldestIsTrulyOldest` | components/ble_backend/bthome.cpp:75-79 | on 32-bit times the row picked is truly the oldest if and only if no row is from an earlier turn of the clock |
| `LruTable.WrapMisleads` | components/ble_backend/bthome.cpp:75-79 | two rows on either side of a wrap of which the younger is picked |
| `LruTable.KeepsTheTrulyMostRecent` | components/ble_backend/bthome.cpp:68-80 | and across any number of wraps, while no eviction was so misled, each address has its latest entry, unless the table is full of others truly seen no earlier |
| `LruTable.KeepsTheMostRecent` | components/ble_backend/bthome.cpp:68-80 | after any run in the order of the stored times each address has its latest entry, unless the table is full of other addresses seen no earlier |
| `DeviceTable.Table.FindOrAlloc` | components/ble_backend/scanner.cpp:69-88 | gives the address's row, or a fresh one in its place by the rule |
| `DeviceTable.Table.Record` | components/ble_backend/scanner.cpp:241-277 | a sighting changes exactly its own row, and merges into what the row said |
| `DeviceTable.CountsSightings` | components/ble_backend/scanner.cpp:254-258 | a row counts its sightings, in 32 bits |
| `DeviceTable.LastToldStays` | components/ble_backend/scanner.cpp:259-275 | name, appearance and tag stay as last told while later sightings leave them out |
| `DeviceTable.LastSightingShows` | components/ble_backend/scanner.cpp:253-268 | address kind, signal strength and whether it takes connections are those of the last sighting |
| `DeviceTable.NeverTold` | components/ble_backend/scanner.cpp:259-275 | what no sighting told is as in a new row |
| `DeviceTable.RecordTells` | components/ble_backend/scanner.cpp:241-277 | every row stays the sum of the sightings of its device since it was given its place |
| `DeviceTable.Table.Prune` | components/ble_backend/scanner.cpp:93-105 | the swap-with-last sweep ends with exactly the multiset of rows within the limit |
| `DeviceTable.PruneRefinesMap` | components/ble_backend/scanner.cpp:93-105 | as a map: rows stay distinct and exactly the stale ones go |
| `DeviceTable.SweepIsExact` | components/ble_backend/scanner.cpp:89-105 | while sweeps come in time, the wrapped ages are true: a sweep keeps exactly the rows really seen within thirty minutes |
| `DeviceTable.RunFits` | components/ble_backend/scanner.cpp:66-105 | in every run of sightings and sweeps the rows have distinct addresses and are at most sixty-four |
| `DeviceTable.LatestStays` | components/ble_backend/scanner.cpp:69-105 | in every timely run of sightings and sweeps an address has exactly its latest sighting from then on, if and only if no event since took it: an eviction as the row with the lowest stored time of a full table, or a sweep past the limit |
| `DeviceTable.SeenLatelyIsThere` | components/ble_backend/scanner.cpp:69-105 | so an address really seen within thirty minutes has its latest sighting in the table if and only if the full table has not given it up since |
| `AdvBatch.Pending.Offer` | components/ble_backend/scanner.cpp:381-393 | the callback's section appends or drops, and tells when the batch became full |
| `AdvBatch.Pending.FlushOnce` | components/ble_backend/scanner.cpp:308-323 | the flush section takes the whole batch, or nothing when empty |
| `AdvBatch.Pending.DrainLocked` | components/ble_backend/scanner.cpp:299-306 | copies the batch in order and empties it |
| `AdvBatch.BatchIsFirstSixteen` | components/ble_backend/scanner.cpp:381-390 | the batch holds the first sixteen adverts since it was last emptied |
| `AdvBatch.BatchesConserve` | components/ble_backend/scanner.cpp:299-393 | over every interleaving the drained batches are in order exactly the adverts fated to be drained, the batch those still queued, and every other advert was dropped on a full batch or cleared by a stop |
| `AdvBatch.BatchOfSections` | components/ble_backend/scanner.cpp:299-393 | the scanner keeps the batch of its sections, so what is said of sections is said of it |
| `AdvBatch.AtMostOneLeaks` | components/ble_backend/scanner.cpp:509-521 | with forwarding off and every stop through, at most one advert is left over, in flight or pending |
| `AdvBatch.SwitchIsAsThrown` | components/ble_backend/scanner.cpp:509-521 | the switch is as the last start or stop threw it |
| `AdvBatch.StoppingCounts` | components/ble_backend/scanner.cpp:509-521 | the stops under way are those that threw the switch and have not yet emptied the batch |
| `AdvBatch.InFlightIff` | components/ble_backend/scanner.cpp:372-393 | an advert is between check and mutex if and only if its check found a client and the switch on, and it has not been appended since |
| `AdvBatch.NothingElseLeaks` | components/ble_backend/scanner.cpp:514-521 | and it can only be that of a callback that had passed the check |
| `AdvBatch.LeaksExactlyWhatIsInFlight` | components/ble_backend/scanner.cpp:372-393 | from where everything has stopped, a run without a start can leave an advert in the batch if and only if a callback is between its check and the mutex |
| `AdvBatch.StaleAdvertIsPossible` | components/ble_backend/scanner.cpp:514-521 | a run in which a stale advert is carried into the next session |
| `CloneMirror.Mirror.BuildFrom` | components/ble_clone/clone_mirror.cpp:222-279 | a row for each mirrored characteristic in discovery order, up to the table's size |
| `CloneMirror.MirroredIsFlatWithout` | components/ble_clone/clone_mirror.cpp:222-237 | mirrored is every upstream characteristic, in order, but those of the 16-bit services 0x1800 and 0x1801 |
| `CloneMirror.DiscoveryOrder` | components/ble_clone/clone_mirror.cpp:222-266 | a service's characteristics stand behind those of all services before it, in their own order |
| `CloneMirror.Lookup` | components/ble_clone/clone_mirror.cpp:380-390 | the nested loops find the first attribute with the pair of UUIDs |
| `CloneMirror.Mirror.RebindUpstream` | components/ble_clone/clone_mirror.cpp:363-401 | every row is bound to that attribute, or loses its binding and keeps its handle; true if any matched |
| `CloneMirror.RebindMeans` | components/ble_clone/clone_mirror.cpp:363-401 | a row gets the first attribute with its UUIDs and its handle, or is unbound if and only if there is none; nothing else of it changes |
| `CloneMirror.HandlesInjective` | components/ble_clone/clone_mirror.cpp:363-401 | after a full rebind the handles tell the rows apart if and only if the pairs of UUIDs do |
| `CloneMirror.NotifyReachesItsRow` | components/ble_clone/clone_mirror.cpp:620-644 | after any rebind an attribute's notifications reach its row if and only if no earlier missed row still holds the handle |
| `CloneMirror.NotifyAfterFullRebind` | components/ble_clone/clone_mirror.cpp:620-644 | after a full rebind a notification for any attribute changes exactly the row with its UUIDs bound to it |
| `CloneMirror.RebindForgetsHandles` | components/ble_clone/clone_mirror.cpp:368-394 | a full rebind does not depend on the handles it finds |
| `CloneMirror.FreshlyBuiltIsTied` | components/ble_clone/clone_mirror.cpp:260-266 | a freshly built table is bound to the attributes it was built from, when their pairs of UUIDs and handles are distinct |
| `CloneMirror.NotificationsGoHome` | components/ble_clone/clone_mirror.cpp:363-431 | in every run of complete rebinds, each with new handles, and disconnections, notifications, reads and writes between them, every notification goes to the characteristic with the UUIDs of its attribute, and goes out exactly when a row is bound to it |
| `CloneMirror.SaysWhatItsAttributeTold` | components/ble_clone/clone_mirror.cpp:363-431 | in every such run, with distinct pairs of UUIDs, each characteristic says what the attribute with its UUIDs told last, and what is cached came from it since the last write and disconnection |
| `CloneMirror.StaleRowSteals` | components/ble_clone/clone_mirror.cpp:379-391 | a missed row takes the notifications of another |
| `CloneMirror.Mirror.OnUpstreamNotify` | components/ble_clone/clone_mirror.cpp:620-644 | caches the cut value in the first row with the handle and forwards the whole to its local characteristic, else nothing |
| `CloneMirror.Mirror.PrimeCache` | components/ble_clone/clone_mirror.cpp:413-431 | caches the cut value in the first row with the handle and tells no one |
| `CloneMirror.ReceivedMeans` | components/ble_clone/clone_mirror.cpp:413-431 | exactly the first row with the handle caches the first sixty-four bytes; its value is the whole of a notification, the cut of a value read ahead |
| `CloneMirror.Mirror.OnWrite` | components/ble_clone/clone_mirror.cpp:114-155 | a central's write goes only to an attribute with its row's UUIDs, and is dropped while there is none |
| `CloneMirror.Mirror.DisconnectUpstream` | components/ble_clone/clone_mirror.cpp:403-411 | unbinds every row and keeps the rest of it |
| `Subscriptions.ClientSubs.HandleSubscribeAdv` | components/api_server/bt_handlers.cpp:181-205 | run alone, moves flag, counter and switch together and only once per client |
| `Subscriptions.ClientSubs.HandleUnsubscribeAdv` | components/api_server/bt_handlers.cpp:206-214 | run alone, undoes exactly that |
| `Subscriptions.ClientSubs.HandleSubscribeFree` | components/api_server/bt_handlers.cpp:216-220 | run alone, moves flag and counter together and only once per client |
| `Subscriptions.ClientSubs.OnClientDisconnect` | components/api_server/bt_handlers.cpp:497-510 | run alone, leaves the client no share in anything |
| `Subscriptions.HandlersAreTheirSteps` | components/api_server/bt_handlers.cpp:181-220 | the steps of an uninterrupted handler end where its specification says |
| `Subscriptions.LeavingAlone` | components/api_server/bt_handlers.cpp:497-510 | a client that leaves uninterrupted is gone after nine steps, its shares released as its handler says, and the last one stops forwarding |
| `Subscriptions.CountersCount` | components/api_server/bt_handlers.cpp:181-220 | at every micro-step of every interleaving each counter is the number of set flags corrected by updates in flight, between zero and the clients registered, and departed clients have no share |
| `Subscriptions.ForwardingFollowsTheCount` | components/api_server/bt_handlers.cpp:190-214 | in every run that never raises the counter while a stop is on its way, forwarding is on exactly when the counter is positive, but for a throw on its way |
| `Subscriptions.AtomicHandlersAgree` | components/api_server/bt_handlers.cpp:181-214 | in particular with handlers that run one at a time, whenever none is under way |
| `Subscriptions.InStepIff` | components/api_server/bt_handlers.cpp:190-214 | over any run, switch and counter agree at every step, but for a throw on its way, if and only if the counter is never raised while a stop is on its way |
| `Subscriptions.CrossingSilences` | components/api_server/bt_handlers.cpp:206-214 | what a crossing does: from any state in step, it leaves a subscribed client without advertisements |
| `Subscriptions.CrossingIsPossible` | components/api_server/bt_handlers.cpp:190-214 | and a crossing is reached: one client's last unsubscribe is overtaken by another's subscription |
| `Subscriptions.EveryoneGoneIsOff` | components/api_server/bt_handlers.cpp:497-510 | in every run, crossings or not, once every client is gone nothing is counted and nothing forwarded |
| `NatRouter.AddRefinesMap` | components/nat_router/nat_router.cpp:601-623 | an added rule is put into the map of rules; refused exactly when its key is new and the table full |
| `NatRouter.DeleteRefinesMap` | components/nat_router/nat_router.cpp:568-581 | a deleted rule, and no other, leaves the map |
| `NatRouter.Nat.PortmapAdd` | components/nat_router/nat_router.cpp:556-635 | the reply to each number out of range or missing address, in the order of the code, then table, flash and live rules as specified |
| `NatRouter.Nat.PortmapDelete` | components/nat_router/nat_router.cpp:556-582 | table, flash and live rules as specified |
| `NatRouter.Nat.RemoveAllLive` | components/nat_router/nat_router.cpp:214-219 | removes exactly the stored keys from the live rules |
| `NatRouter.Nat.ApplyPortmap` | components/nat_router/nat_router.cpp:221-229 | puts every stored rule at the station's address over the live ones, nothing without an address |
| `NatRouter.Nat.OnStaGotIp` | components/nat_router/nat_router.cpp:356-375 | a new address moves the live rules to it while the AP is up |
| `NatRouter.Nat.SetEnabled` | components/nat_router/nat_router.cpp:519-528 | switching brings the AP up or down and records it, once |
| `NatRouter.Nat.PauseForOta` | components/nat_router/nat_router.cpp:639-648 | remembers whether the AP was up and takes it down |
| `NatRouter.Nat.ResumeAfterOta` | components/nat_router/nat_router.cpp:650-657 | brings the AP back if it was remembered |
| `NatRouter.AlwaysAgrees` | components/nat_router/nat_router.cpp:276-375 | over every run of edits, address changes, switching, updates and restarts: distinct keys, flash equal to the table, no live rule that is not stored, and, while the AP is up at a known address, the live rules are exactly the stored ones at it |
| `NatRouter.TableIsTheBook` | components/nat_router/nat_router.cpp:556-635 | over every run the table holds exactly the rules added and not deleted, each as last added, an addition being refused if and only if its key is new and sixteen rules are there; and the address is the last reported |
| `NatRouter.ServedByTheBook` | components/nat_router/nat_router.cpp:276-375 | in every run in which an update is one request: outside updates the AP is up if and only if last switched on, and then the live rules are exactly those, at the last address |
| `NatRouter.UpdatesLeaveNoTrace` | components/nat_router/nat_router.cpp:639-657 | in every run in which an update is one request, with address changes only between pause and resume, a failed update leaves no trace: switch, stored switch, table, stored table and live rules are those of the run without it |
| `NatRouter.SwitchIsRecorded` | components/nat_router/nat_router.cpp:519-528 | and a request to switch the AP behind an update is carried out and recorded |
| `NatRouter.PauseResumeRestores` | components/nat_router/nat_router.cpp:639-657 | a failed update leaves everything as it was, live rules included, if and only if it was not up without an address while rules were live |
| `NatRouter.LiveWhileDownIff` | components/nat_router/nat_router.cpp:568-628 | over every run, while the AP is down the live rules are exactly those added at a known address since it last went down or the device restarted and not deleted since, each as last added so and at the address of that time |
| `NatRouter.LiveWhileDown` | components/nat_router/nat_router.cpp:622-628 | a run that ends with the AP down and a live rule |
| `Liveness.Watchdog.OnTick` | components/liveness_wdt/liveness_wdt.cpp:204-245 | one pass of the loop, gate by gate |
| `Liveness.Watchdog.Task` | components/liveness_wdt/liveness_wdt.cpp:200-246 | the watchdog loop over any sequence of wakes, up to a restart |
| `Liveness.FailuresAreTrailing` | components/liveness_wdt/liveness_wdt.cpp:219-241 | over every run, settings changing as they may, the failure count is that of the failed probes since the last success or outage |
| `Liveness.TrailingIsLastFailed` | components/liveness_wdt/liveness_wdt.cpp:224-241 | that count reaches n exactly when the last n probes failed with no success and no outage between them |
| `Liveness.WedgedIff` | components/liveness_wdt/liveness_wdt.cpp:241-244 | a wake restarts the device for a dead path if and only if it is the failed probe that makes threshold failures in a row, at ninety seconds of uptime or more; and as a self-test if and only if forced |
| `Liveness.DeadPath` | components/liveness_wdt/liveness_wdt.cpp:216-244 | on a dead path with fixed settings the restart comes with exactly the probe that completes the threshold, and probes are one interval to one interval and one wake apart |
| `Liveness.DetectedInTime` | components/liveness_wdt/liveness_wdt.cpp:216-244 | so a dead path is found within threshold times that |
| `Liveness.ArmedIff` | components/liveness_wdt/liveness_wdt.cpp:207-218 | over every run from the start the watchdog is armed if and only if some wake, enabled, unforced and at ninety seconds or later, found the station associated |
| `Liveness.DetectedFromAsleep` | components/liveness_wdt/liveness_wdt.cpp:207-245 | from a device never yet armed: with a dead path and fixed settings from such a wake on, the restart comes with exactly the probe that completes the threshold, within threshold times the interval and one wake |
| `Liveness.FirstArms` | components/liveness_wdt/liveness_wdt.cpp:212-218 | the wake that arms the watchdog probes at once |
| `Liveness.KindMeans` | components/liveness_wdt/liveness_wdt.cpp:204-216 | which wakes are idle, forced or probing, written out |
| `Liveness.SamplesApart` | components/liveness_wdt/liveness_wdt.cpp:216-219 | any two samples of a run are at least the interval set at the later one apart, failed or not |
| `Liveness.Params.constructor` | components/liveness_wdt/liveness_wdt.cpp:74-83 | stored settings out of range are ignored one by one |
| `Liveness.Params.SetParams` | components/liveness_wdt/liveness_wdt.cpp:269-277 | a setting out of range rejects all, a negative one keeps the old; the ranges always hold |
| `Liveness.Weakest` | components/liveness_wdt/liveness_wdt.cpp:176-184 | the minimum of the clients' signals, zero without clients |
| `Liveness.ClampRtt` | components/liveness_wdt/liveness_wdt.cpp:67-72 | whole milliseconds, zero for a negative duration and 0xFFFE for one too long, never the mark for a loss |
| `Liveness.History.Record` | components/liveness_wdt/liveness_wdt.cpp:186-191 | the ring of 120 refines the unbounded list of samples |
| `Liveness.History.GetHistory` | components/liveness_wdt/liveness_wdt.cpp:281-293 | gives exactly the last samples there are, at most as many as asked, oldest first |
| `DhcpHostname.ExtractHostname` | components/dhcps_hostname/dhcps_hostname.c:41-82 | ends and stays in bounds on any bytes; true with the printable, cut name of the first non-empty host name option it can reach |
| `DhcpHostname.FirstNameOfOptions` | components/dhcps_hostname/dhcps_hostname.c:47-81 | for well-formed options (section 3.14 of RFC 2132) that is the first host name option, whatever follows the end marker |
| `DhcpHostname.NameOfMessage` | components/dhcps_hostname/dhcps_hostname.c:41-82 | and the name told is its text, cut to the field and at the first NUL |
| `DhcpHostname.NameExample` | components/dhcps_hostname/dhcps_hostname.c:41-82 | a whole message, byte by byte, and the name it tells |
| `DhcpHostname.CutOptionTellsNothing` | components/dhcps_hostname/dhcps_hostname.c:58-63 | an option that ends behind the field tells no name, were it a host name, nor does a last byte alone |
| `DhcpHostname.CleanShape` | components/dhcps_hostname/dhcps_hostname.c:66-75 | the text up to the first NUL, a byte from 32 to 126 kept and any other a question mark |
| `DhcpHostname.Registry.Record` | components/dhcps_hostname/dhcps_hostname.c:84-109 | the round-robin table refines a queue: a known station is renewed in place, a new one goes to the end, and the first goes when there were eight; stations stay distinct |
| `DhcpHostname.Registry.Lookup` | components/dhcps_hostname/dhcps_hostname.c:122-139 | finds exactly the stations in the queue with a name, cut to the buffer |
| `DhcpHostname.Registry.PostState` | components/dhcps_hostname/dhcps_hostname.c:111-120 | every message that tells a name has it recorded for its sender, and no other changes anything |
| `DhcpHostname.KeptUntilTheEighth` | components/dhcps_hostname/dhcps_hostname.c:93-104 | a station's latest name stays while fewer than eight stations new to the table have come after it |
| `DhcpHostname.FoundUntilTheEighth` | components/dhcps_hostname/dhcps_hostname.c:122-139 | and is what a search finds until then |
| `DhcpHostname.GoneWithTheEighth` | components/dhcps_hostname/dhcps_hostname.c:93-104 | and goes with the eighth |

## Left out

- NimBLE, lwIP, esp_wifi, httpd and FreeRTOS themselves: represented by the contracts above; the
  port-map table of lwIP is a map with put and remove.
- nanopb message contents: payloads are opaque bytes of at most 2048.
- HTTP handlers, dashboard pages, JSON output, mDNS, OTA flashing, the label tables of
  `classify_device`, stored tunables and the boot guard: input and output or lookup only.
- The connect and discovery sequence of the clone supervisor and the auto-off supervisor: both turn
  on library timing.
- Frames sent to a socket after a failed partial send, the shutdown of dead sockets in `send_async`,
  and reuse of descriptors by the kernel.
- Passkey entry and authentication callbacks of `connection.cpp`: they touch no slot.
- Failing writes to flash in provisioning, port maps and watchdog settings: taken to succeed.
- A second `/trace` reset of the log within a run.
- Queued NimBLE scan control (`start`, `resume`, `set_duty`) in `scanner.cpp`: library calls only.
- The split of an advertisement's payload into a record of at most 62 bytes in `onResult`: the
  batch holds finished records.
- Powering BLE off at run time, which stops forwarding behind the counters' back.
- Provisioning.HandleWifiLine: works on the line as a value; the NUL bytes the code writes into the
  line to end its words are index pairs here.
- Provisioning.HandleNatLine: likewise.
- SerialConsole.RxLine.AppendRx: models one of the two ports; both feed the same settings with
  their own line buffers.
- ConnectionPool.Pool.DisconnectAll: uninterrupted, as one run of its loop; the code takes the mutex
  anew for each slot, and reads the slots outside it.
- CloneMirror.Mirror.BuildFrom: services whose local creation fails are not modelled, nor a second
  capture before the server is started.
- CloneMirror.Mirror.OnWrite: the bounded write queue behind it is not modelled.
- Subscriptions.ClientSubs.HandleSubscribeFree: the broadcast of the free count that follows is the
  server's `send_async`.
- NatRouter.Nat.ApplyPortmap: DNS, NAPT and radio mode calls around it are not modelled.
- NatRouter.Nat.PortmapAdd: text parsing of the query is not modelled; numbers and the parsed
  address are its inputs.
- Liveness.Watchdog.OnTick: the settings are read once per wake here; the code reads the threshold
  anew after a failed probe.
- DhcpHostname.Registry.PostState: a station is its six MAC bytes as one number.
- LruTable.KeepsTheMostRecent: needs sightings in the order of their stored times, so it stops at a wrap
  of the 32-bit clock; KeepsTheTrulyMostRecent goes on across wraps.
