# Dirt Rally 2.0 telemetry HUD add-on, modelled in Dafny

This project models the core of a ReShade add-on that draws a small telemetry
overlay for Dirt Rally 2.0. The add-on has three parts:

- **UDP receiver** (`updreceiver.cpp`, module `TelemetryReceiver`). The game
  sends 264-byte datagrams to 127.0.0.1:20777. A background loop receives
  them and decodes seven 32-bit fields at fixed byte offsets into a shared
  snapshot. It counts consecutive wrong-size datagrams and gives up after
  10. `startReceiver` and `destroyReceiver` manage the socket, the thread
  and the `started` flag.
- **Overlay** (`dr_2_telemetry.cpp`, module `TelemetryOverlay`). It has
  four pieces:
  - `clampf`.
  - The loop that swizzles the embedded BGRA texture into RGBA pixels.
  - The per-device texture table. Device creation fills it and device
    destruction marks entries destroyed.
  - The staleness rule of the telemetry window. The window hides once the
    snapshot's time has not changed for more than 5 s.
- **Texture helpers** (`texture_d3d11.cpp`, module `TextureD3D11`).
  `createRGBATexData` fills a buffer with one colour. `releaseTexture` nulls
  the first matching slot of the 512-slot texture table.

How the model represents the source:

- The module-level statics of each source file are the fields of a class:
  `Receiver`, `DeviceTextures`, `TextureTable` and `TelemetryWindow`.
- Each operation that changes them is a method. Its `ensures` ties the new
  state to a specification function, and lemmas prove properties of that
  function.
- Bytes are `bv8`. Each snapshot field is the raw 32-bit word (`bv32`) that
  the source reads through a `float*` cast. On the x86 host that word is
  little-endian. Module `Words` holds the shared helpers: little-endian
  bytes of a word, packing, flattening and repetition.
- `recv` is not I/O here. The receive loop is fed a sequence of `recv`
  results: a datagram's bytes (an empty one means the socket was closed), or
  an error code. The loop is proved equal to `Run`, a fold of one loop
  iteration (`Step`) over that sequence. When the sequence runs out while the
  loop guard still holds, the thread would still be waiting in `recv`. The
  model reports this as `Blocked`.
- Calls into code that is not modelled become parameters:
  - the outcome of `initSocket`'s Winsock calls (`SocketInit`);
  - whether `destroyReceiver` runs on the receiver thread;
  - the embedded texture resource, or its absence;
  - the handle produced by the GPU upload;
  - the device API;
  - the steady clock, as integer nanosecond ticks.

The decoder uses the offsets exactly as coded: 0, 28, 116, 120, 124, 130,
140. Offset 130, for lateral g, straddles the clutch (128) and gear (132)
slots that the decoder leaves commented out. Offsets 130 and 140 are also
not multiples of 4. `FieldOffsetsLayout` shows that these seven reads still
do not overlap each other and all end by byte 144. `DecodePlacedFields`
therefore holds as stated.

## Model

| member | source | states |
|---|---|---|
| `TelemetryReceiver.ReadFloatLE` | examples/50-dr_2_telemetry/updreceiver.cpp:31-33 | the word read at `offset` is the one whose little-endian bytes are the four buffer bytes from `offset` |
| `TelemetryReceiver.DecodeFrame` | examples/50-dr_2_telemetry/updreceiver.cpp:36-49 | time, speed, throttle, steer, brake, lateral g and longitudinal g are the 4-byte words at offsets 0, 28, 116, 120, 124, 130 and 140 |
| `TelemetryReceiver.FieldOffsetsLayout` | examples/50-dr_2_telemetry/updreceiver.cpp:38-48 | the seven reads do not overlap, all end by byte 144, and 144 is within the 264-byte packet |
| `TelemetryReceiver.DecodePlacedFields` | examples/50-dr_2_telemetry/updreceiver.cpp:36-49 | a 264-byte packet carrying known words at the seven offsets decodes to exactly those words, whatever its other bytes |
| `TelemetryReceiver.PlaceDecodedFields` | examples/50-dr_2_telemetry/updreceiver.cpp:36-49 | writing the decoded fields back at their offsets gives the same packet (the other half of the round trip) |
| `TelemetryReceiver.StepEffect` | examples/50-dr_2_telemetry/updreceiver.cpp:106-118 | a 264-byte datagram replaces the snapshot with its decode and resets the invalid counter; any other positive length keeps the snapshot and adds one to the counter; 0 or an error changes neither |
| `TelemetryReceiver.RunConsumed` | examples/50-dr_2_telemetry/updreceiver.cpp:103-119 | the loop consumes at most the given results, and if its guard still holds it has consumed all of them |
| `TelemetryReceiver.RunInvalid` | examples/50-dr_2_telemetry/updreceiver.cpp:105-117 | a run of wrong-size datagrams that keeps the counter at or below 10 only adds its length to the counter and leaves the snapshot alone |
| `TelemetryReceiver.NineInvalidThenValid` | examples/50-dr_2_telemetry/updreceiver.cpp:105-117 | 9 wrong-size datagrams and then a good one leave the loop running, the counter at 0 and the snapshot equal to the good one's decode |
| `TelemetryReceiver.TenInvalidStop` | examples/50-dr_2_telemetry/updreceiver.cpp:98-122 | 10 wrong-size datagrams in a row stop the loop after exactly those 10. The snapshot is unchanged and the exit is reported as too many invalid packets |
| `TelemetryReceiver.RunWithoutValidKeepsSnapshot` | examples/50-dr_2_telemetry/updreceiver.cpp:107-117 | results without a 264-byte datagram never change the snapshot |
| `TelemetryReceiver.RunSnapshotProvenance` | examples/50-dr_2_telemetry/updreceiver.cpp:105-119 | after any run the snapshot is the previous one or the complete decode of one 264-byte datagram of the run |
| `TelemetryReceiver.Exit` | examples/50-dr_2_telemetry/updreceiver.cpp:121-136 | the exit is "too many invalid" iff the counter reached 10; otherwise "socket closed" iff the last result was 0; otherwise a receive error, which is silent iff the code is WSAEINTR |
| `TelemetryReceiver.Receiver.constructor` | examples/50-dr_2_telemetry/updreceiver.cpp:11-16 | initially not started, no socket, no thread, zero snapshot |
| `TelemetryReceiver.Receiver.CopyLatest` | examples/50-dr_2_telemetry/updreceiver.cpp:20-23 | returns exactly the stored snapshot |
| `TelemetryReceiver.Receiver.ResetTelemetryData` | examples/50-dr_2_telemetry/updreceiver.cpp:25-28 | the stored snapshot becomes the all-zero one |
| `TelemetryReceiver.Receiver.FillTelemetryFrame` | examples/50-dr_2_telemetry/updreceiver.cpp:36-49 | the stored snapshot becomes the decode of the buffer |
| `TelemetryReceiver.Receiver.ReceivePackets` | examples/50-dr_2_telemetry/updreceiver.cpp:100-137 | the loop leaves the snapshot `Run` computes from the loop's start state, and reports the exit `Exit` gives for that state |
| `TelemetryReceiver.Receiver.InitSocket` | examples/50-dr_2_telemetry/updreceiver.cpp:51-96 | succeeds iff the socket was created, configured and bound, leaving it bound. A failed Winsock start leaves the handle alone; every later failure leaves it invalid |
| `TelemetryReceiver.Receiver.StartReceiver` | examples/50-dr_2_telemetry/updreceiver.cpp:139-168 | succeeds iff not started, no socket and socket set-up works; success leaves it started with a bound socket, a thread and a zero snapshot; failure changes nothing; keeps `Valid` |
| `TelemetryReceiver.Receiver.DestroyReceiver` | examples/50-dr_2_telemetry/updreceiver.cpp:170-193 | a no-op when not started; otherwise not started and no socket afterwards, the thread joined unless called from it, snapshot kept; keeps `Valid` |
| `TelemetryReceiver.StartTwice` | examples/50-dr_2_telemetry/updreceiver.cpp:143-146 | a second start after a successful one fails and the first socket stays |
| `TelemetryReceiver.ResetThenCopy` | examples/50-dr_2_telemetry/updreceiver.cpp:20-28 | copying the snapshot right after a reset yields the all-zero snapshot |
| `TextureD3D11.StoreWord` | examples/50-dr_2_telemetry/texture_d3d11.cpp:29-31 | storing an `unsigned int` at a byte offset writes its four bytes, lowest first, there and changes no other byte |
| `TextureD3D11.CreateRgbaTexData` | examples/50-dr_2_telemetry/texture_d3d11.cpp:23-34 | a fresh buffer that is `width * height` copies of the colour's four bytes |
| `TextureD3D11.RgbaTexDataPixel` | examples/50-dr_2_telemetry/texture_d3d11.cpp:24-32 | that buffer has `width * height * 4` bytes and every 4-byte pixel slot holds the colour |
| `TextureD3D11.FirstIndexOf` | examples/50-dr_2_telemetry/texture_d3d11.cpp:69-75 | finds a slot holding the pointer with none before it, or reports that no slot holds it |
| `TextureD3D11.ReleasedTableChanges` | examples/50-dr_2_telemetry/texture_d3d11.cpp:69-75 | release changes at most one slot; a changed slot held the pointer, becomes null and is the first match; with no match the table is unchanged |
| `TextureD3D11.ReleasedTableCount` | examples/50-dr_2_telemetry/texture_d3d11.cpp:69-75 | release removes exactly one occurrence of the pointer when there is one |
| `TextureD3D11.TextureTable.constructor` | examples/50-dr_2_telemetry/texture_d3d11.cpp:20-21 | 512 null slots |
| `TextureD3D11.TextureTable.ReleaseTexture` | examples/50-dr_2_telemetry/texture_d3d11.cpp:67-79 | the scan leaves the table `ReleasedTable` describes and returns true |
| `TelemetryOverlay.Clampf` | examples/50-dr_2_telemetry/dr_2_telemetry.cpp:76-84 | below `min` gives `min`, above `max` (and not below `min`) gives `max`, in range gives the value |
| `TelemetryOverlay.ClampfRange` | examples/50-dr_2_telemetry/dr_2_telemetry.cpp:76-84 | for `min <= max` the result lies in `[min, max]`, equals the value iff the value does, and clamping twice is clamping once |
| `TelemetryOverlay.SwizzledAt` | examples/50-dr_2_telemetry/dr_2_telemetry.cpp:403-418 | pixel `i` is bytes `4i+2, 4i+1, 4i, 4i+3` of the source, lowest first: red and blue swapped, green and alpha kept |
| `TelemetryOverlay.SwizzledBytes` | examples/50-dr_2_telemetry/dr_2_telemetry.cpp:403-418 | the bytes of the swizzled pixels are the source up to its last whole pixel, with bytes 0 and 2 of every pixel swapped |
| `TelemetryOverlay.SwizzleTwice` | examples/50-dr_2_telemetry/dr_2_telemetry.cpp:403-418 | swizzling the swizzled bytes gives back the source up to its last whole pixel; trailing bytes are dropped |
| `TelemetryOverlay.FlipBgraToRgba` | examples/50-dr_2_telemetry/dr_2_telemetry.cpp:403-418 | the loop fills a fresh array of `size / 4` pixels equal to `Swizzled` |
| `TelemetryOverlay.AfterCreate` | examples/50-dr_2_telemetry/dr_2_telemetry.cpp:394-444 | an existing entry or a missing resource leaves the table unchanged; otherwise exactly one entry, keyed by the device id, is added and every other entry is untouched |
| `TelemetryOverlay.DeviceTextures.constructor` | examples/50-dr_2_telemetry/dr_2_telemetry.cpp:41 | the table starts empty |
| `TelemetryOverlay.DeviceTextures.CreateMainTextureData` | examples/50-dr_2_telemetry/dr_2_telemetry.cpp:364-447 | the table becomes `AfterCreate`; an entry is returned iff the resource loaded and the device had none, and it is the one stored |
| `TelemetryOverlay.DeviceTextures.OnInitDevice` | examples/50-dr_2_telemetry/dr_2_telemetry.cpp:449-482 | only a d3d11 device creates texture data; every other API leaves the table unchanged |
| `TelemetryOverlay.DestroyedEntry` | examples/50-dr_2_telemetry/dr_2_telemetry.cpp:512-529 | a destroyed entry keeps its device id, has no pixels and no texture, and is marked destroyed |
| `TelemetryOverlay.AfterDestroy` | examples/50-dr_2_telemetry/dr_2_telemetry.cpp:496-534 | destroying keeps every key. A d3d11 device with an entry has that entry emptied and marked destroyed. Any other API, or an unknown id, leaves the table unchanged |
| `TelemetryOverlay.DeviceTextures.OnDestroyDevice` | examples/50-dr_2_telemetry/dr_2_telemetry.cpp:484-535 | the table becomes `AfterDestroy`. The report distinguishes unsupported API, unknown device, first destroy and repeat destroy. The device's texture, if any, is released from the texture table |
| `TelemetryOverlay.DestroyTwice` | examples/50-dr_2_telemetry/dr_2_telemetry.cpp:521-529 | a second destroy changes nothing more and is reported as already destroyed |
| `TelemetryOverlay.DestroyedDeviceNotReloaded` | examples/50-dr_2_telemetry/dr_2_telemetry.cpp:396-400 | the destroyed entry stays in the map, so a later device with the same native id is refused texture data and keeps an empty entry |
| `TelemetryOverlay.FrameDisabled` | examples/50-dr_2_telemetry/dr_2_telemetry.cpp:159-162 | while disabled nothing is drawn and only the first-draw flag is cleared |
| `TelemetryOverlay.FrameFirstAfterEnable` | examples/50-dr_2_telemetry/dr_2_telemetry.cpp:164-168 | the first enabled frame is drawn and restarts the 5 s window at `now` |
| `TelemetryOverlay.FrameNewData` | examples/50-dr_2_telemetry/dr_2_telemetry.cpp:175-179 | a changed telemetry time is drawn and records that time and `now` |
| `TelemetryOverlay.FrameSameData` | examples/50-dr_2_telemetry/dr_2_telemetry.cpp:180-187 | an unchanged time is drawn iff at most 5 s passed since the last change (hidden when strictly more), and the state is unchanged |
| `TelemetryOverlay.FramesQuietFeed` | examples/50-dr_2_telemetry/dr_2_telemetry.cpp:159-187 | over any run of enabled frames with a frozen feed, each frame is drawn iff it comes at most 5 s after the last change, and the state never moves |
| `TelemetryOverlay.TelemetryWindow.constructor` | examples/50-dr_2_telemetry/dr_2_telemetry.cpp:148-152 | not drawn yet, timestamp zero, last update at the clock's epoch |
| `TelemetryOverlay.TelemetryWindow.DrawTelemetryWindow` | examples/50-dr_2_telemetry/dr_2_telemetry.cpp:154-187 | the new statics and the drawn flag are those of `Frame` |

## Left out

- Winsock is not modelled: `WSAStartup`, `socket`, `setsockopt` with the 1-hour receive timeout, `bind`, `closesocket` and `WSACleanup`. `InitSocket` takes their combined outcome as a parameter. `recv` is the input sequence of the receive loop, and its 512-byte buffer limit is not modelled.
- Threads and locks are not modelled: `std::thread` creation and join, the same-thread check (a parameter of `DestroyReceiver`), and the three mutexes. Every operation is one atomic step, so the no-torn-read guarantee of the snapshot lock is not modelled.
- Logging is left out. Log lines appear only as the outcome values `LoopExit`, `DestroyOutcome` and `DestroyReport`.
- IEEE-754 meaning of the snapshot fields is left out: they stay raw 32-bit words.
- `TelemetryOverlay.Clampf`: modelled over real numbers, so NaN operands and float rounding are not covered.
- `TelemetryOverlay.TelemetryWindow.DrawTelemetryWindow`: the float `!=` on the telemetry time is modelled as equality of an opaque value, so NaN (never equal to itself) and +0/-0 are not covered. The two clock reads of one frame (at activation and after copying the snapshot) are merged into one tick `now`. The drawn path's texture lookup in the device map and all ImGui drawing are left out.
- D3D11 is not modelled: `loadShaderRecourceViewfromBuffer`, `loadTexRGBA32fromBuffer`, `loadTexBGRA32fromBuffer` and the `Release()` calls. The handle that the upload produces is a parameter of `CreateMainTextureData`. The table-registration code in the loader is commented out in the source, so nothing in this source ever fills the texture table.
- `loadFileFull` (file I/O) is left out. The Win32 resource calls in `createMainTextureData` are replaced by an optional resource parameter.
- `drawGforceIndicator`, the throttle/brake UV arithmetic and `textures.h` (float UV constants) are left out. These are floating-point UI code.
- Host integration is left out: `DllMain`, `AddonInit`/`AddonUninit` and `draw_settings`.
- `TextureD3D11.CreateRgbaTexData`: takes natural-number sizes. Negative sizes and the 32-bit overflow of `width * height * 4` are not modelled. The null check after `new` can never fire and is omitted.
- `TelemetryOverlay.DeviceTextures.OnDestroyDevice`: freeing the pixel buffer is modelled as clearing it. The scalar `delete` on an array allocation is not modelled.
