/**
 * The UDP telemetry receiver of updreceiver.cpp: the fixed-offset packet
 * decoder, the shared snapshot, the receive loop and the start/stop state.
 *
 * `recv` is not modelled as I/O: the receive loop consumes a sequence of the
 * results `recv` would return, one per call.  The module-level statics of the
 * source are the fields of one `Receiver` object.
 */
module TelemetryReceiver {
  import opened Words

  /** Size of a Dirt Rally 2.0 telemetry datagram. */
  const PacketSize := 264
  /** Consecutive wrong-size datagrams after which the loop gives up. */
  const MaxInvalidSizePackets := 10
  /** `recv` reports failure with this value (SOCKET_ERROR). */
  const SocketError := -1
  /** The Winsock error a blocking `recv` reports when its socket is closed under it. */
  const WSAEINTR := 10004

  // Byte offsets of the decoded fields, exactly as the decoder uses them.
  const TimeOffset := 0
  const SpeedOffset := 28
  const ThrottleOffset := 116
  const SteerOffset := 120
  const BrakeOffset := 124
  const GforceLatOffset := 130
  const GforceLonOffset := 140
  /** One past the last byte the decoder reads. */
  const DecodedEnd := 144

  /**
   * One snapshot.  Every field is a 32-bit float in the source; here it is
   * the raw 32-bit word, since the decoder only moves bits.
   */
  datatype TelemetryData = TelemetryData(
    time: Word, speed: Word, throttle: Word, steer: Word,
    brake: Word, gforceLat: Word, gforceLon: Word)

  /** The value-initialised snapshot `{}`: every field zero. */
  const ZeroTelemetry := TelemetryData(0, 0, 0, 0, 0, 0, 0)

  /** The 32-bit word at `offset`, read through a pointer cast on a little-endian host. */
  function ReadFloatLE(buffer: seq<Byte>, offset: nat): (w: Word)
    requires offset + 4 <= |buffer|
    ensures WordBytes(w) == buffer[offset..offset + 4]
  {
    PackWord(buffer[offset], buffer[offset + 1], buffer[offset + 2], buffer[offset + 3])
  }

  /** The snapshot decoded from a packet. */
  function DecodeFrame(buffer: seq<Byte>): (d: TelemetryData)
    requires DecodedEnd <= |buffer|
    ensures WordBytes(d.time) == buffer[0..4]
    ensures WordBytes(d.speed) == buffer[28..32]
    ensures WordBytes(d.throttle) == buffer[116..120]
    ensures WordBytes(d.steer) == buffer[120..124]
    ensures WordBytes(d.brake) == buffer[124..128]
    ensures WordBytes(d.gforceLat) == buffer[130..134]
    ensures WordBytes(d.gforceLon) == buffer[140..144]
  {
    TelemetryData(
      ReadFloatLE(buffer, TimeOffset),
      ReadFloatLE(buffer, SpeedOffset),
      ReadFloatLE(buffer, ThrottleOffset),
      ReadFloatLE(buffer, SteerOffset),
      ReadFloatLE(buffer, BrakeOffset),
      ReadFloatLE(buffer, GforceLatOffset),
      ReadFloatLE(buffer, GforceLonOffset))
  }

  /** The decoder's offsets, in the order of the snapshot's fields. */
  const FieldOffsets: seq<nat> := [TimeOffset, SpeedOffset, ThrottleOffset, SteerOffset,
                                   BrakeOffset, GforceLatOffset, GforceLonOffset]

  /** The snapshot's fields, in declaration order. */
  function Fields(d: TelemetryData): (ws: seq<Word>)
    ensures |ws| == |FieldOffsets|
  {
    [d.time, d.speed, d.throttle, d.steer, d.brake, d.gforceLat, d.gforceLon]
  }

  /** Word slots at these offsets do not overlap, and each is after the previous one. */
  predicate Disjoint(offsets: seq<nat>)
  {
    forall i, j :: 0 <= i < j < |offsets| ==> offsets[i] + 4 <= offsets[j]
  }

  /** Every word slot fits in a buffer of `size` bytes. */
  predicate FitIn(offsets: seq<nat>, size: nat)
  {
    forall i :: 0 <= i < |offsets| ==> offsets[i] + 4 <= size
  }

  /** The decoder's reads do not overlap, and all end by byte 144, inside the packet. */
  lemma FieldOffsetsLayout()
    ensures Disjoint(FieldOffsets) && FitIn(FieldOffsets, DecodedEnd) && DecodedEnd <= PacketSize
  {
  }

  /** `buffer` with the little-endian bytes of `w` written at `offset`. */
  function PlaceWord(buffer: seq<Byte>, offset: nat, w: Word): (r: seq<Byte>)
    requires offset + 4 <= |buffer|
    ensures |r| == |buffer|
    ensures r[offset..offset + 4] == WordBytes(w)
    ensures forall i :: 0 <= i < |buffer| && !(offset <= i < offset + 4) ==> r[i] == buffer[i]
  {
    buffer[..offset] + WordBytes(w) + buffer[offset + 4..]
  }

  /** `buffer` with each word of `ws` written at the matching offset, first to last. */
  function PlaceAll(buffer: seq<Byte>, offsets: seq<nat>, ws: seq<Word>): (r: seq<Byte>)
    requires |offsets| == |ws| && FitIn(offsets, |buffer|)
    ensures |r| == |buffer|
    decreases |ws|
  {
    if ws == [] then buffer
    else PlaceAll(PlaceWord(buffer, offsets[0], ws[0]), offsets[1..], ws[1..])
  }

  /**
   * A packet as a sender lays it out: `base` with the seven fields of `d`
   * written at the decoder's offsets.
   */
  function PlaceFields(base: seq<Byte>, d: TelemetryData): (r: seq<Byte>)
    requires DecodedEnd <= |base|
    ensures |r| == |base|
  {
    FieldOffsetsLayout();
    PlaceAll(base, FieldOffsets, Fields(d))
  }

  /** Reading back a word just written at the same offset. */
  lemma ReadPlaced(buffer: seq<Byte>, offset: nat, w: Word)
    requires offset + 4 <= |buffer|
    ensures ReadFloatLE(PlaceWord(buffer, offset, w), offset) == w
  {
  }

  /** Writing words that do not overlap the slot at `at` leaves that slot as it was. */
  lemma {:induction false} ReadBesidePlaceAll(buffer: seq<Byte>, offsets: seq<nat>, ws: seq<Word>, at: nat)
    requires |offsets| == |ws| && FitIn(offsets, |buffer|) && at + 4 <= |buffer|
    requires forall i :: 0 <= i < |offsets| ==> at + 4 <= offsets[i]
    ensures ReadFloatLE(PlaceAll(buffer, offsets, ws), at) == ReadFloatLE(buffer, at)
    decreases |ws|
  {
    if ws != [] {
      var b := PlaceWord(buffer, offsets[0], ws[0]);
      assert b[at..at + 4] == buffer[at..at + 4];
      ReadBesidePlaceAll(b, offsets[1..], ws[1..], at);
    }
  }

  /** Each word written into disjoint slots reads back intact. */
  lemma {:induction false} ReadPlaceAll(buffer: seq<Byte>, offsets: seq<nat>, ws: seq<Word>, k: nat)
    requires |offsets| == |ws| && FitIn(offsets, |buffer|) && Disjoint(offsets)
    requires k < |ws|
    ensures ReadFloatLE(PlaceAll(buffer, offsets, ws), offsets[k]) == ws[k]
    decreases |ws|
  {
    var b := PlaceWord(buffer, offsets[0], ws[0]);
    if k == 0 {
      ReadPlaced(buffer, offsets[0], ws[0]);
      ReadBesidePlaceAll(b, offsets[1..], ws[1..], offsets[0]);
    } else {
      ReadPlaceAll(b, offsets[1..], ws[1..], k - 1);
    }
  }

  /**
   * Decoding a packet that carries known values at the seven offsets gives
   * exactly those values, whatever the other bytes hold.
   */
  lemma DecodePlacedFields(base: seq<Byte>, d: TelemetryData)
    requires PacketSize == |base|
    ensures DecodeFrame(PlaceFields(base, d)) == d
  {
    FieldOffsetsLayout();
    var ws := Fields(d);
    ReadPlaceAll(base, FieldOffsets, ws, 0);
    ReadPlaceAll(base, FieldOffsets, ws, 1);
    ReadPlaceAll(base, FieldOffsets, ws, 2);
    ReadPlaceAll(base, FieldOffsets, ws, 3);
    ReadPlaceAll(base, FieldOffsets, ws, 4);
    ReadPlaceAll(base, FieldOffsets, ws, 5);
    ReadPlaceAll(base, FieldOffsets, ws, 6);
  }

  /** Writing back the words a buffer already holds changes nothing. */
  lemma {:induction false} PlaceAllReadBack(buffer: seq<Byte>, offsets: seq<nat>, ws: seq<Word>)
    requires |offsets| == |ws| && FitIn(offsets, |buffer|)
    requires forall i :: 0 <= i < |ws| ==> ws[i] == ReadFloatLE(buffer, offsets[i])
    ensures PlaceAll(buffer, offsets, ws) == buffer
    decreases |ws|
  {
    if ws != [] {
      assert PlaceWord(buffer, offsets[0], ws[0]) == buffer;
      PlaceAllReadBack(buffer, offsets[1..], ws[1..]);
    }
  }

  /** Writing back what was decoded changes nothing: the decode keeps every byte it reads. */
  lemma PlaceDecodedFields(buffer: seq<Byte>)
    requires PacketSize == |buffer|
    ensures PlaceFields(buffer, DecodeFrame(buffer)) == buffer
  {
    FieldOffsetsLayout();
    PlaceAllReadBack(buffer, FieldOffsets, Fields(DecodeFrame(buffer)));
  }

  /** What one call of `recv` returns: the bytes of one datagram (none once the socket closed), or an error code. */
  datatype RecvResult = Received(data: seq<Byte>) | Failed(errorCode: int)

  /** The value `recv` returns for `r`: the number of bytes read, or SOCKET_ERROR. */
  function BytesRead(r: RecvResult): int
  {
    if r.Received? then |r.data| else SocketError
  }

  /** A datagram the loop drops: it has bytes, but not the expected number. */
  predicate InvalidSize(r: RecvResult)
  {
    r.Received? && 0 < |r.data| && |r.data| != PacketSize
  }

  /** A datagram the loop decodes. */
  predicate ValidSize(r: RecvResult)
  {
    r.Received? && |r.data| == PacketSize
  }

  /**
   * The variables of the receive loop, the last Winsock error, the shared
   * snapshot, and how many `recv` results have been consumed.
   */
  datatype LoopState = LoopState(
    bytesRead: int, numInvalid: nat, lastError: int, latest: TelemetryData, consumed: nat)

  /** The state on entry to the loop. */
  function LoopStart(latest: TelemetryData): LoopState
  {
    LoopState(1, 0, 0, latest, 0)
  }

  /** The loop guard. */
  predicate Continues(s: LoopState)
  {
    s.bytesRead > 0 && s.numInvalid < MaxInvalidSizePackets
  }

  /** The invalid-datagram counter after a `recv` result. */
  function NextInvalid(numInvalid: nat, r: RecvResult): nat
  {
    if ValidSize(r) then 0 else if InvalidSize(r) then numInvalid + 1 else numInvalid
  }

  /** The snapshot after a `recv` result. */
  function NextLatest(latest: TelemetryData, r: RecvResult): TelemetryData
  {
    if ValidSize(r) then DecodeFrame(r.data) else latest
  }

  /** The last Winsock error after a `recv` result. */
  function NextError(lastError: int, r: RecvResult): int
  {
    if r.Failed? then r.errorCode else lastError
  }

  /** One iteration of the loop body, given the result of its `recv`. */
  function Step(s: LoopState, r: RecvResult): LoopState
  {
    LoopState(BytesRead(r), NextInvalid(s.numInvalid, r), NextError(s.lastError, r),
              NextLatest(s.latest, r), s.consumed + 1)
  }

  /**
   * A 264-byte datagram replaces the snapshot and resets the counter; any
   * other datagram with bytes counts and keeps the snapshot; a closed socket
   * or an error changes neither.
   */
  lemma StepEffect(s: LoopState, r: RecvResult)
    ensures Step(s, r).bytesRead == BytesRead(r) && Step(s, r).consumed == s.consumed + 1
    ensures ValidSize(r) ==> Step(s, r).numInvalid == 0 && Step(s, r).latest == DecodeFrame(r.data)
    ensures InvalidSize(r) ==> Step(s, r).numInvalid == s.numInvalid + 1 && Step(s, r).latest == s.latest
    ensures !ValidSize(r) && !InvalidSize(r) ==> Step(s, r).numInvalid == s.numInvalid && Step(s, r).latest == s.latest
  {
  }

  /**
   * The loop run on the results in `rs`, in order, until its guard fails or
   * the results run out (the thread is then still blocked in `recv`).
   */
  function Run(s: LoopState, rs: seq<RecvResult>): LoopState
    decreases |rs|
  {
    if !Continues(s) || rs == [] then s else Run(Step(s, rs[0]), rs[1..])
  }

  /**
   * The loop consumes at most the given results, and a loop whose guard
   * still holds has consumed all of them.
   */
  lemma {:induction false} RunConsumed(s: LoopState, rs: seq<RecvResult>)
    ensures s.consumed <= Run(s, rs).consumed <= s.consumed + |rs|
    ensures Continues(Run(s, rs)) ==> Run(s, rs).consumed == s.consumed + |rs|
    decreases |rs|
  {
    if Continues(s) && rs != [] {
      RunConsumed(Step(s, rs[0]), rs[1..]);
    }
  }

  /** The loop variables after `k` wrong-size datagrams, the last of them `last`. */
  function Counted(s: LoopState, last: RecvResult, k: nat): LoopState
  {
    LoopState(BytesRead(last), s.numInvalid + k, s.lastError, s.latest, s.consumed + k)
  }

  /** From a running state, a wrong-size datagram at the head of the results only counts. */
  lemma RunHeadInvalid(s: LoopState, rs: seq<RecvResult>)
    requires Continues(s) && rs != [] && InvalidSize(rs[0])
    ensures Run(s, rs) == Run(Counted(s, rs[0], 1), rs[1..])
  {
    assert Step(s, rs[0]) == Counted(s, rs[0], 1);
  }

  /**
   * When the first `k` results are wrong-size datagrams and the limit is not
   * reached before the last of them, the loop only counts them: the snapshot
   * is untouched.
   */
  lemma {:induction false} RunInvalid(s: LoopState, rs: seq<RecvResult>, k: nat)
    requires Continues(s) && 0 < k <= |rs|
    requires forall i :: 0 <= i < k ==> InvalidSize(rs[i])
    requires s.numInvalid + k <= MaxInvalidSizePackets
    ensures Run(s, rs) == Run(Counted(s, rs[k - 1], k), rs[k..])
    decreases k
  {
    RunHeadInvalid(s, rs);
    var t := Counted(s, rs[0], 1);
    if k == 1 {
      assert rs[k - 1] == rs[0] && rs[k..] == rs[1..];
    } else {
      var tail := rs[1..];
      assert tail[k - 2] == rs[k - 1] && tail[k - 1..] == rs[k..];
      assert forall i :: 0 <= i < k - 1 ==> InvalidSize(tail[i]) by {
        forall i | 0 <= i < k - 1 ensures InvalidSize(tail[i]) {
          assert tail[i] == rs[i + 1];
        }
      }
      RunInvalid(t, tail, k - 1);
      assert Counted(t, tail[k - 2], k - 1) == Counted(s, rs[k - 1], k);
    }
  }

  /**
   * Nine wrong-size datagrams followed by a good one: the loop is still
   * running, the counter is back at zero and the snapshot is the good one's.
   */
  lemma NineInvalidThenValid(s: LoopState, bad: seq<RecvResult>, good: seq<Byte>, rest: seq<RecvResult>)
    requires Continues(s) && s.numInvalid == 0
    requires |bad| == MaxInvalidSizePackets - 1
    requires forall i :: 0 <= i < |bad| ==> InvalidSize(bad[i])
    requires |good| == PacketSize
    ensures var t := LoopState(PacketSize, 0, s.lastError, DecodeFrame(good), s.consumed + MaxInvalidSizePackets);
            Continues(t) && Run(s, bad + [Received(good)] + rest) == Run(t, rest)
  {
    var rs := bad + [Received(good)] + rest;
    assert forall i :: 0 <= i < |bad| ==> rs[i] == bad[i];
    assert rs[|bad|..] == [Received(good)] + rest;
    RunInvalid(s, rs, |bad|);
    var c := Counted(s, rs[|bad| - 1], |bad|);
    assert Continues(c);
    assert Step(c, Received(good)) == LoopState(PacketSize, 0, s.lastError, DecodeFrame(good), s.consumed + MaxInvalidSizePackets);
    assert ([Received(good)] + rest)[1..] == rest;
  }

  /**
   * Ten wrong-size datagrams in a row end the loop: nothing after them is
   * received, the snapshot is untouched, and the exit is reported as too
   * many invalid packets.
   */
  lemma TenInvalidStop(s: LoopState, bad: seq<RecvResult>, rest: seq<RecvResult>)
    requires Continues(s) && s.numInvalid == 0
    requires |bad| == MaxInvalidSizePackets
    requires forall i :: 0 <= i < |bad| ==> InvalidSize(bad[i])
    ensures var f := Run(s, bad + rest);
            !Continues(f) && f.latest == s.latest && f.consumed == s.consumed + MaxInvalidSizePackets
            && Exit(f) == TooManyInvalidPackets
  {
    var rs := bad + rest;
    assert forall i :: 0 <= i < |bad| ==> rs[i] == bad[i];
    RunInvalid(s, rs, |bad|);
  }

  /** Datagrams of the wrong size never change the snapshot, however many arrive. */
  lemma {:induction false} RunWithoutValidKeepsSnapshot(s: LoopState, rs: seq<RecvResult>)
    requires forall i :: 0 <= i < |rs| ==> !ValidSize(rs[i])
    ensures Run(s, rs).latest == s.latest
    decreases |rs|
  {
    if Continues(s) && rs != [] {
      RunWithoutValidKeepsSnapshot(Step(s, rs[0]), rs[1..]);
    }
  }

  /**
   * The snapshot after any run is the one before it or the complete decode of
   * one right-size datagram of the run: never a partial or mixed decode.
   */
  lemma {:induction false} RunSnapshotProvenance(s: LoopState, rs: seq<RecvResult>)
    ensures var f := Run(s, rs);
            f.latest == s.latest
            || exists i :: 0 <= i < |rs| && ValidSize(rs[i]) && f.latest == DecodeFrame(rs[i].data)
    decreases |rs|
  {
    if Continues(s) && rs != [] {
      var t := Step(s, rs[0]);
      RunSnapshotProvenance(t, rs[1..]);
      var f := Run(t, rs[1..]);
      assert Run(s, rs) == f;
      if f.latest != t.latest {
        var i :| 0 <= i < |rs[1..]| && ValidSize(rs[1..][i]) && f.latest == DecodeFrame(rs[1..][i].data);
        assert rs[i + 1] == rs[1..][i];
        assert ValidSize(rs[i + 1]) && f.latest == DecodeFrame(rs[i + 1].data);
      } else if ValidSize(rs[0]) {
        assert f.latest == DecodeFrame(rs[0].data);
      }
    }
  }

  /** How the receive loop ended, in the order the source tells the cases apart. */
  datatype LoopExit =
    | Blocked                 // the results ran out: the thread still waits in `recv`
    | TooManyInvalidPackets   // logged as an error
    | SocketClosed            // `recv` returned 0; logged as information
    | Interrupted             // WSAEINTR after the socket was closed by a stop; not reported
    | ReceiveFailed(code: int)  // any other receive error; logged as a warning

  /** The report of a finished or waiting loop. */
  function Exit(f: LoopState): (e: LoopExit)
    ensures e == Blocked <==> Continues(f)
    ensures e == TooManyInvalidPackets <==> f.numInvalid >= MaxInvalidSizePackets
    ensures e == SocketClosed <==> f.numInvalid < MaxInvalidSizePackets && f.bytesRead == 0
    ensures e.ReceiveFailed? || e == Interrupted
            <==> f.numInvalid < MaxInvalidSizePackets && f.bytesRead < 0
    ensures e == Interrupted ==> f.lastError == WSAEINTR
    ensures e.ReceiveFailed? ==> e.code == f.lastError != WSAEINTR
  {
    if Continues(f) then Blocked
    else if f.numInvalid >= MaxInvalidSizePackets then TooManyInvalidPackets
    else if f.bytesRead == 0 then SocketClosed
    else if f.lastError == WSAEINTR then Interrupted
    else ReceiveFailed(f.lastError)
  }

  /** The outcome of `initSocket`: a bound socket, or the step that failed. */
  datatype SocketInit =
    | SocketReady(handle: nat)
    | WinsockUnavailable
    | SocketCreateFailed
    | SetTimeoutFailed
    | BindFailed

  /** The receiver socket handle; INVALID_SOCKET is its own case. */
  datatype Socket = InvalidSocket | Bound(handle: nat)

  /** What `destroyReceiver` did, as its log lines tell it. */
  datatype DestroyOutcome =
    | NotStarted        // "already set to NOT started. NOP"
    | Joined            // closed the socket and joined the receiver thread
    | ShutDownByItself  // closed the socket; called from the receiver thread, no join
    | Stopped           // no socket or thread to deal with

  /** The process-wide receiver state and the shared snapshot. */
  class Receiver {
    var started: bool
    var receiverSocket: Socket
    /** Whether `pReceiverThread` points to a thread. */
    var receiverThread: bool
    var latestTelemetryData: TelemetryData

    /** The state the start/stop operations keep: running exactly when a socket is bound and a thread exists. */
    ghost predicate Valid()
      reads this
    {
      (started <==> receiverSocket.Bound?) && (started <==> receiverThread)
    }

    /** The static initialisers. */
    constructor ()
      ensures Valid()
      ensures !started && receiverSocket == InvalidSocket && !receiverThread
      ensures latestTelemetryData == ZeroTelemetry
    {
      started := false;
      receiverSocket := InvalidSocket;
      receiverThread := false;
      latestTelemetryData := ZeroTelemetry;
    }

    /** Copies the current snapshot out. */
    method CopyLatest() returns (d: TelemetryData)
      ensures d == latestTelemetryData
    {
      d := latestTelemetryData;
    }

    /** Replaces the snapshot by the all-zero one. */
    method ResetTelemetryData()
      modifies this`latestTelemetryData
      ensures latestTelemetryData == ZeroTelemetry
    {
      latestTelemetryData := ZeroTelemetry;
    }

    /** Decodes a packet into the shared snapshot. */
    method FillTelemetryFrame(buffer: seq<Byte>)
      requires DecodedEnd <= |buffer|
      modifies this`latestTelemetryData
      ensures latestTelemetryData == DecodeFrame(buffer)
    {
      latestTelemetryData := TelemetryData(
        ReadFloatLE(buffer, TimeOffset),
        ReadFloatLE(buffer, SpeedOffset),
        ReadFloatLE(buffer, ThrottleOffset),
        ReadFloatLE(buffer, SteerOffset),
        ReadFloatLE(buffer, BrakeOffset),
        ReadFloatLE(buffer, GforceLatOffset),
        ReadFloatLE(buffer, GforceLonOffset));
    }

    /**
     * The receive loop, fed the results of its successive `recv` calls.
     * The snapshot and the report are those of `Run` from the loop's start.
     */
    method ReceivePackets(results: seq<RecvResult>) returns (exit: LoopExit)
      modifies this`latestTelemetryData
      ensures latestTelemetryData == Run(LoopStart(old(latestTelemetryData)), results).latest
      ensures exit == Exit(Run(LoopStart(old(latestTelemetryData)), results))
    {
      ghost var start := LoopStart(latestTelemetryData);
      var bytesRead := 1;
      var numInvalid := 0;
      var lastError := 0;
      var i := 0;
      while bytesRead > 0 && numInvalid < MaxInvalidSizePackets
        invariant 0 <= i <= |results|
        invariant Run(LoopState(bytesRead, numInvalid, lastError, latestTelemetryData, i), results[i..])
               == Run(start, results)
        decreases |results| - i
      {
        if i == |results| {
          // No further datagram: the thread stays blocked in `recv`.
          return Blocked;
        }
        ghost var s := LoopState(bytesRead, numInvalid, lastError, latestTelemetryData, i);
        var r := results[i];
        assert results[i..][1..] == results[i + 1..];
        bytesRead := BytesRead(r);
        if r.Failed? {
          lastError := r.errorCode;
        }
        if bytesRead > 0 {
          if bytesRead == PacketSize {
            numInvalid := 0;
            FillTelemetryFrame(r.data);
          } else {
            numInvalid := numInvalid + 1;
          }
        }
        i := i + 1;
        assert LoopState(bytesRead, numInvalid, lastError, latestTelemetryData, i) == Step(s, r);
      }
      if numInvalid >= MaxInvalidSizePackets {
        exit := TooManyInvalidPackets;
      } else if bytesRead == 0 {
        exit := SocketClosed;
      } else if lastError == WSAEINTR {
        exit := Interrupted;
      } else {
        exit := ReceiveFailed(lastError);
      }
    }

    /**
     * `initSocket`: a bound socket on success; a failed Winsock start leaves
     * the handle alone, every later failure resets it to INVALID_SOCKET.
     */
    method InitSocket(init: SocketInit) returns (ok: bool)
      modifies this`receiverSocket
      ensures ok <==> init.SocketReady?
      ensures receiverSocket == match init
        case SocketReady(h) => Bound(h)
        case WinsockUnavailable => old(receiverSocket)
        case _ => InvalidSocket
    {
      match init {
        case WinsockUnavailable =>
          return false;
        case SocketCreateFailed =>
          receiverSocket := InvalidSocket;
          return false;
        case SetTimeoutFailed =>
          receiverSocket := InvalidSocket;
          return false;
        case BindFailed =>
          receiverSocket := InvalidSocket;
          return false;
        case SocketReady(h) =>
          receiverSocket := Bound(h);
          return true;
      }
    }

    /**
     * `startReceiver`: refuses when already started or when a socket is still
     * bound; otherwise opens the socket and, if that worked, zeroes the
     * snapshot, starts the receiver thread and records the start.  A start
     * that fails changes nothing.
     */
    method StartReceiver(init: SocketInit) returns (ok: bool)
      modifies this
      ensures ok <==> !old(started) && old(receiverSocket) == InvalidSocket && init.SocketReady?
      ensures ok ==> started && receiverSocket == Bound(init.handle) && receiverThread
                     && latestTelemetryData == ZeroTelemetry
      ensures !ok ==> unchanged(this)
      ensures old(Valid()) ==> Valid()
    {
      if started {
        return false;
      }
      if receiverSocket != InvalidSocket {
        return false;
      }
      var _ := InitSocket(init);
      if receiverSocket == InvalidSocket {
        return false;
      }
      ResetTelemetryData();
      receiverThread := true;
      started := true;
      return true;
    }

    /**
     * `destroyReceiver`: a no-op when not started; otherwise records the stop,
     * closes the socket and lets go of the receiver thread (joining it unless
     * called from that thread), and leaves no socket behind.
     */
    method DestroyReceiver(fromReceiverThread: bool) returns (outcome: DestroyOutcome)
      modifies this
      ensures !old(started) ==> outcome == NotStarted && unchanged(this)
      ensures old(started) ==> !started && receiverSocket == InvalidSocket
      ensures old(started) && old(receiverSocket).Bound? ==> !receiverThread
      ensures old(receiverSocket) == InvalidSocket ==> receiverThread == old(receiverThread)
      ensures latestTelemetryData == old(latestTelemetryData)
      ensures outcome == Joined
              <==> old(started) && old(receiverSocket).Bound? && old(receiverThread) && !fromReceiverThread
      ensures outcome == ShutDownByItself
              <==> old(started) && old(receiverSocket).Bound? && old(receiverThread) && fromReceiverThread
      ensures old(Valid()) ==> Valid()
    {
      if !started {
        return NotStarted;
      }
      started := false;
      outcome := Stopped;
      if receiverSocket != InvalidSocket {
        if receiverThread {
          outcome := if fromReceiverThread then ShutDownByItself else Joined;
          receiverThread := false;
        }
      }
      receiverSocket := InvalidSocket;
    }
  }

  /** A second start without a stop in between fails and keeps the first socket. */
  method StartTwice(first: SocketInit, second: SocketInit) returns (ok1: bool, ok2: bool, socket: Socket)
    ensures ok1 <==> first.SocketReady?
    ensures ok1 ==> !ok2 && socket == Bound(first.handle)
  {
    var r := new Receiver();
    ok1 := r.StartReceiver(first);
    ok2 := r.StartReceiver(second);
    socket := r.receiverSocket;
  }

  /** After a reset, copying the snapshot out gives the all-zero snapshot. */
  method ResetThenCopy(r: Receiver) returns (d: TelemetryData)
    modifies r
    ensures d == ZeroTelemetry
  {
    r.ResetTelemetryData();
    d := r.CopyLatest();
  }
}
