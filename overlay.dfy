/**
 * The overlay side of dr_2_telemetry.cpp: `clampf`, the BGRA to RGBA
 * swizzle of the embedded texture, the per-device texture table kept across
 * device creation and destruction, and the staleness rule of the telemetry
 * window.
 */
module TelemetryOverlay {
  import opened Wrappers
  import opened Words
  import TextureD3D11

  /** `clampf`: `min` below the range, `max` above it, the value itself otherwise. */
  function Clampf(value: real, min: real, max: real): (r: real)
    ensures value < min ==> r == min
    ensures min <= value && value > max ==> r == max
    ensures min <= value <= max ==> r == value
  {
    if value < min then min
    else if value > max then max
    else value
  }

  /** With a proper range the result lies in it, is the value exactly when the value does, and clamping again keeps it. */
  lemma ClampfRange(value: real, min: real, max: real)
    requires min <= max
    ensures min <= Clampf(value, min, max) <= max
    ensures Clampf(value, min, max) == value <==> min <= value <= max
    ensures Clampf(Clampf(value, min, max), min, max) == Clampf(value, min, max)
  {
  }

  /** One RGBA pixel from four BGRA bytes: red and blue trade places. */
  function RgbaFromBgra(b: Byte, g: Byte, r: Byte, a: Byte): (px: Word)
  {
    (r as Word) | ((g as Word) << 8) | ((b as Word) << 16) | ((a as Word) << 24)
  }

  /** The pixels of the swizzle: one per whole group of four bytes; trailing bytes are dropped. */
  function Swizzled(src: seq<Byte>): (px: seq<Word>)
    ensures |px| == |src| / 4
  {
    seq(|src| / 4, i requires 0 <= i < |src| / 4 =>
      RgbaFromBgra(src[4 * i], src[4 * i + 1], src[4 * i + 2], src[4 * i + 3]))
  }

  /** Pixel `i` holds source bytes 2, 1, 0, 3 of its group, lowest byte first: red and blue swapped. */
  lemma SwizzledAt(src: seq<Byte>, i: nat)
    requires i < |src| / 4
    ensures WordBytes(Swizzled(src)[i]) == [src[4 * i + 2], src[4 * i + 1], src[4 * i], src[4 * i + 3]]
  {
  }

  /** In the bytes of the swizzled pixels, group `i` is source group `i` with bytes 0 and 2 swapped. */
  lemma SwizzledBytesAt(src: seq<Byte>, i: nat)
    requires i < |src| / 4
    ensures |Flatten(Swizzled(src))| == 4 * (|src| / 4)
    ensures var f := Flatten(Swizzled(src));
            f[4 * i] == src[4 * i + 2] && f[4 * i + 1] == src[4 * i + 1]
            && f[4 * i + 2] == src[4 * i] && f[4 * i + 3] == src[4 * i + 3]
  {
    var px := Swizzled(src);
    SwizzledAt(src, i);
    FlattenAt(px, i, 0);
    FlattenAt(px, i, 1);
    FlattenAt(px, i, 2);
    FlattenAt(px, i, 3);
  }

  /** The source position of byte `j` of a swizzled buffer: bytes 0 and 2 of each group trade places. */
  function SwapIndex(j: nat): nat
  {
    if j % 4 == 0 then j + 2 else if j % 4 == 2 then j - 2 else j
  }

  /** `b` is `a` up to its last whole group of four bytes, with bytes 0 and 2 of each group swapped. */
  predicate RedBlueSwapped(a: seq<Byte>, b: seq<Byte>)
  {
    |b| == 4 * (|a| / 4)
    && forall j :: 0 <= j < |b| ==> SwapIndex(j) < |a| && b[j] == a[SwapIndex(j)]
  }

  /** The bytes of the swizzled pixels are the source with red and blue swapped in every whole pixel. */
  lemma SwizzledBytes(src: seq<Byte>)
    ensures RedBlueSwapped(src, Flatten(Swizzled(src)))
  {
    var f := Flatten(Swizzled(src));
    forall j | 0 <= j < |f|
      ensures SwapIndex(j) < |src| && f[j] == src[SwapIndex(j)]
    {
      var i, m := j / 4, j % 4;
      assert j == 4 * i + m;
      SwizzledBytesAt(src, i);
      if m == 0 {
        assert SwapIndex(j) == 4 * i + 2;
      } else if m == 2 {
        assert SwapIndex(j) == 4 * i;
      }
    }
  }

  /** Trading bytes 0 and 2 of a group twice puts every byte back. */
  lemma SwapIndexTwice(j: nat)
    ensures SwapIndex(SwapIndex(j)) == j
  {
    var q, m := j / 4, j % 4;
    assert j == 4 * q + m;
    if m == 0 {
      assert (4 * q + 2) % 4 == 2;
    } else if m == 2 {
      assert (4 * q) % 4 == 0;
    }
  }

  /** Swapping red and blue twice restores every whole pixel. */
  lemma SwapTwice(a: seq<Byte>, b: seq<Byte>, c: seq<Byte>)
    requires RedBlueSwapped(a, b) && RedBlueSwapped(b, c)
    ensures c == a[..|b|]
  {
    var n := |a| / 4;
    assert (4 * n) / 4 == n;
    forall j | 0 <= j < |c|
      ensures c[j] == a[j]
    {
      SwapIndexTwice(j);
    }
  }

  /**
   * Swizzling the bytes of swizzled pixels gives back the original bytes:
   * the swizzle swaps red and blue and keeps green and alpha in place.
   */
  lemma SwizzleTwice(src: seq<Byte>)
    ensures Flatten(Swizzled(Flatten(Swizzled(src)))) == src[..4 * (|src| / 4)]
  {
    var once := Flatten(Swizzled(src));
    SwizzledBytes(src);
    SwizzledBytes(once);
    SwapTwice(src, once, Flatten(Swizzled(once)));
  }

  /** The swizzle loop of `createMainTextureData`, filling a fresh pixel array. */
  method FlipBgraToRgba(data: seq<Byte>) returns (flipped: array<Word>)
    ensures fresh(flipped)
    ensures flipped[..] == Swizzled(data)
  {
    var numPixels := |data| / 4;
    flipped := new Word[numPixels];
    var i := 0;
    while i < numPixels
      invariant 0 <= i <= numPixels
      invariant forall j :: 0 <= j < i ==> flipped[j] == Swizzled(data)[j]
    {
      var offset := i * 4;
      var rgba: Word := 0;
      rgba := rgba | (data[offset + 2] as Word);
      rgba := rgba | ((data[offset + 1] as Word) << 8);
      rgba := rgba | ((data[offset] as Word) << 16);
      rgba := rgba | ((data[offset + 3] as Word) << 24);
      flipped[i] := rgba;
      i := i + 1;
    }
  }

  /** A 64-bit native device pointer, the key of the table. */
  type NativeId = x: int | 0 <= x < 0x1_0000_0000_0000_0000

  /** `texture_info`: the pixel buffer and GPU texture made for one device. */
  datatype TextureInfo = TextureInfo(
    nativeDevicePtr: NativeId,
    textureRes: Option<seq<Word>>,
    mainTexture: Option<TextureD3D11.TextureHandle>,
    wasDestroyed: bool)

  /** The graphics APIs the host reports; `UnknownApi` is any other value. */
  datatype DeviceApi = D3D9 | D3D10 | D3D11 | D3D12 | OpenGL | Vulkan | UnknownApi(code: int)

  /** The new entry for a device: its swizzled pixels and whatever the upload produced. */
  function NewTextureInfo(device: NativeId, resource: seq<Byte>, upload: Option<TextureD3D11.TextureHandle>): TextureInfo
  {
    TextureInfo(device, Some(Swizzled(resource)), upload, false)
  }

  /**
   * The table after `createMainTextureData`: unchanged when the resource
   * could not be loaded or the device already has an entry, otherwise with
   * one new entry for the device.
   */
  function AfterCreate(entries: map<NativeId, TextureInfo>, device: NativeId,
                       resource: Option<seq<Byte>>, upload: Option<TextureD3D11.TextureHandle>)
    : (r: map<NativeId, TextureInfo>)
    ensures device in entries || resource.None? ==> r == entries
    ensures device !in entries && resource.Some?
            ==> r.Keys == entries.Keys + {device}
                && r[device] == NewTextureInfo(device, resource.value, upload)
    ensures forall id :: id != device ==> (id in r <==> id in entries)
    ensures forall id :: id != device && id in entries ==> r[id] == entries[id]
    ensures device in r ==> r[device].nativeDevicePtr == device || device in entries
  {
    if resource.None? || device in entries then entries
    else entries[device := NewTextureInfo(device, resource.value, upload)]
  }

  /** A destroyed entry: no pixels, no texture, marked destroyed. */
  function DestroyedEntry(info: TextureInfo): (r: TextureInfo)
    ensures r.nativeDevicePtr == info.nativeDevicePtr
    ensures r.textureRes.None? && r.mainTexture.None? && r.wasDestroyed
  {
    info.(textureRes := None, mainTexture := None, wasDestroyed := true)
  }

  /**
   * The table after `on_reshade_destroy_device`: a d3d11 device with an
   * entry has it emptied and marked destroyed, but kept; anything else
   * leaves the table alone.
   */
  function AfterDestroy(entries: map<NativeId, TextureInfo>, api: DeviceApi, device: NativeId)
    : (r: map<NativeId, TextureInfo>)
    ensures r.Keys == entries.Keys
    ensures api != D3D11 || device !in entries ==> r == entries
    ensures api == D3D11 && device in entries ==> r[device] == DestroyedEntry(entries[device])
    ensures forall id :: id in entries && id != device ==> r[id] == entries[id]
  {
    if api == D3D11 && device in entries then entries[device := DestroyedEntry(entries[device])]
    else entries
  }

  /** What `on_reshade_destroy_device` reports. */
  datatype DestroyReport = UnsupportedApi | DeviceNotFound | FirstDestroy | AlreadyDestroyed

  function DestroyReportOf(entries: map<NativeId, TextureInfo>, api: DeviceApi, device: NativeId): DestroyReport
  {
    if api != D3D11 then UnsupportedApi
    else if device !in entries then DeviceNotFound
    else if entries[device].wasDestroyed then AlreadyDestroyed
    else FirstDestroy
  }

  /**
   * Destroying twice: the second call changes nothing more and is reported
   * as a repeat.
   */
  lemma DestroyTwice(entries: map<NativeId, TextureInfo>, device: NativeId)
    requires device in entries
    ensures var once := AfterDestroy(entries, D3D11, device);
            AfterDestroy(once, D3D11, device) == once
            && DestroyReportOf(once, D3D11, device) == AlreadyDestroyed
  {
  }

  /**
   * Because a destroyed entry stays in the table, a later device that gets
   * the same native pointer is never given a texture again: creation is
   * refused and the entry stays empty.
   */
  lemma DestroyedDeviceNotReloaded(entries: map<NativeId, TextureInfo>, device: NativeId,
                                   resource: Option<seq<Byte>>, upload: Option<TextureD3D11.TextureHandle>)
    requires device in entries
    ensures var e := AfterCreate(AfterDestroy(entries, D3D11, device), device, resource, upload);
            device in e && e[device].wasDestroyed && e[device].mainTexture.None?
  {
  }

  /** `nativeDevicesMap` and the operations that change it. */
  class DeviceTextures {
    var nativeDevicesMap: map<NativeId, TextureInfo>

    /** The empty table. */
    constructor ()
      ensures nativeDevicesMap == map[]
    {
      nativeDevicesMap := map[];
    }

    /**
     * `createMainTextureData`.  `resource` is the embedded texture, or `None`
     * when a Win32 resource call failed; `upload` is what the GPU upload of
     * the pixels produced.  Returns the new entry, or `None` (null).
     */
    method CreateMainTextureData(device: NativeId, resource: Option<seq<Byte>>,
                                 upload: Option<TextureD3D11.TextureHandle>)
      returns (created: Option<TextureInfo>)
      modifies this
      ensures nativeDevicesMap == AfterCreate(old(nativeDevicesMap), device, resource, upload)
      ensures created.Some? <==> resource.Some? && device !in old(nativeDevicesMap)
      ensures created.Some? ==> created.value == nativeDevicesMap[device]
    {
      if resource.None? {
        return None;
      }
      if device in nativeDevicesMap {
        return None;
      }
      var flipped := FlipBgraToRgba(resource.value);
      var info := TextureInfo(device, Some(flipped[..]), upload, false);
      nativeDevicesMap := nativeDevicesMap[device := info];
      return Some(info);
    }

    /** `on_reshade_init_device`: only a d3d11 device gets texture data. */
    method OnInitDevice(api: DeviceApi, device: NativeId, resource: Option<seq<Byte>>,
                        upload: Option<TextureD3D11.TextureHandle>)
      modifies this
      ensures api == D3D11 ==> nativeDevicesMap == AfterCreate(old(nativeDevicesMap), device, resource, upload)
      ensures api != D3D11 ==> nativeDevicesMap == old(nativeDevicesMap)
    {
      match api {
        case D3D11 =>
          var _ := CreateMainTextureData(device, resource, upload);
        case D3D9 =>
          return;
        case D3D10 =>
          return;
        case D3D12 =>
          return;
        case OpenGL =>
          return;
        case Vulkan =>
          return;
        case UnknownApi(_) =>
          return;
      }
    }

    /**
     * `on_reshade_destroy_device`: for a d3d11 device with an entry, frees its
     * pixels, releases its texture from the texture table and marks it
     * destroyed, keeping the entry.
     */
    method OnDestroyDevice(api: DeviceApi, device: NativeId, textures: TextureD3D11.TextureTable)
      returns (report: DestroyReport)
      requires textures.Valid()
      modifies this, textures.allTextures
      ensures nativeDevicesMap == AfterDestroy(old(nativeDevicesMap), api, device)
      ensures report == DestroyReportOf(old(nativeDevicesMap), api, device)
      ensures textures.allTextures[..] ==
              if api == D3D11 && device in old(nativeDevicesMap) && old(nativeDevicesMap)[device].mainTexture.Some?
              then TextureD3D11.ReleasedTable(old(textures.allTextures[..]), old(nativeDevicesMap)[device].mainTexture.value)
              else old(textures.allTextures[..])
    {
      if api != D3D11 {
        return UnsupportedApi;
      }
      if device !in nativeDevicesMap {
        return DeviceNotFound;
      }
      var info := nativeDevicesMap[device];
      if info.textureRes.Some? {
        info := info.(textureRes := None);
      }
      if info.mainTexture.Some? {
        var _ := textures.ReleaseTexture(info.mainTexture.value);
        info := info.(mainTexture := None);
      }
      report := if info.wasDestroyed then AlreadyDestroyed else FirstDestroy;
      info := info.(wasDestroyed := true);
      nativeDevicesMap := nativeDevicesMap[device := info];
    }
  }

  /** Telemetry older than this many steady-clock ticks (nanoseconds), 5 s, is stale. */
  const StaleAfter := 5_000_000_000

  /** The statics of `drawTelemetryWindow`; `T` is the snapshot's time value, compared only for equality. */
  datatype WindowState<T> = WindowState(firstDrawComplete: bool, lastTelemetryTimestamp: T, lastTelemetryUpdate: int)

  /**
   * One frame of `drawTelemetryWindow` at clock `now`: the new state and
   * whether the window is drawn.
   */
  function Frame<T(==)>(s: WindowState<T>, enabled: bool, time: T, now: int): (WindowState<T>, bool)
  {
    if !enabled then (s.(firstDrawComplete := false), false)
    else
      var lastUpdate := if !s.firstDrawComplete then now else s.lastTelemetryUpdate;
      if time != s.lastTelemetryTimestamp then (WindowState(true, time, now), true)
      else if now - lastUpdate > StaleAfter then (s.(lastTelemetryUpdate := lastUpdate), false)
      else (WindowState(true, s.lastTelemetryTimestamp, lastUpdate), true)
  }

  /** While disabled nothing is drawn and only the first-draw flag is cleared. */
  lemma FrameDisabled<T>(s: WindowState<T>, time: T, now: int)
    ensures Frame(s, false, time, now) == (s.(firstDrawComplete := false), false)
  {
  }

  /** A changed telemetry time is drawn and restarts the staleness window at `now`. */
  lemma FrameNewData<T>(s: WindowState<T>, time: T, now: int)
    requires time != s.lastTelemetryTimestamp
    ensures Frame(s, true, time, now) == (WindowState(true, time, now), true)
  {
  }

  /**
   * Unchanged telemetry is drawn while at most 5 s have passed since the last
   * change and hidden once strictly more have; hiding changes no state.
   */
  lemma FrameSameData<T>(s: WindowState<T>, now: int)
    requires s.firstDrawComplete
    ensures var (t, drawn) := Frame(s, true, s.lastTelemetryTimestamp, now);
            t == s && (drawn <==> now - s.lastTelemetryUpdate <= StaleAfter)
  {
  }

  /** The first frame after enabling always draws: it restarts the 5 s window at `now`. */
  lemma FrameFirstAfterEnable<T>(s: WindowState<T>, time: T, now: int)
    requires !s.firstDrawComplete
    ensures var (t, drawn) := Frame(s, true, time, now);
            drawn && t.firstDrawComplete && t.lastTelemetryUpdate == now && t.lastTelemetryTimestamp == time
  {
  }

  /** Frames in a row: the final state and, per frame, whether it was drawn. */
  function Frames<T(==)>(s: WindowState<T>, enabled: seq<bool>, times: seq<T>, clock: seq<int>)
    : (r: (WindowState<T>, seq<bool>))
    requires |enabled| == |times| == |clock|
    ensures |r.1| == |clock|
    decreases |clock|
  {
    if clock == [] then (s, [])
    else
      var (t, drawn) := Frame(s, enabled[0], times[0], clock[0]);
      var (u, rest) := Frames(t, enabled[1..], times[1..], clock[1..]);
      (u, [drawn] + rest)
  }

  /**
   * Once the feed stops changing, each later enabled frame is drawn exactly
   * when it comes at most 5 s after the last change: the window disappears
   * and stays hidden.
   */
  lemma {:induction false} FramesQuietFeed<T>(s: WindowState<T>, enabled: seq<bool>, times: seq<T>, clock: seq<int>)
    requires s.firstDrawComplete
    requires |enabled| == |times| == |clock|
    requires forall k :: 0 <= k < |clock| ==> enabled[k] && times[k] == s.lastTelemetryTimestamp
    ensures Frames(s, enabled, times, clock).0 == s
    ensures forall k :: 0 <= k < |clock| ==>
              (Frames(s, enabled, times, clock).1[k] <==> clock[k] - s.lastTelemetryUpdate <= StaleAfter)
    decreases |clock|
  {
    if clock != [] {
      FrameSameData(s, clock[0]);
      FramesQuietFeed(s, enabled[1..], times[1..], clock[1..]);
      var rest := Frames(s, enabled[1..], times[1..], clock[1..]).1;
      forall k | 0 <= k < |clock|
        ensures Frames(s, enabled, times, clock).1[k] <==> clock[k] - s.lastTelemetryUpdate <= StaleAfter
      {
        if k > 0 {
          assert Frames(s, enabled, times, clock).1[k] == rest[k - 1];
        }
      }
    }
  }

  /** The statics of `drawTelemetryWindow` and the frame it runs. */
  class TelemetryWindow<T(==)> {
    var firstDrawComplete: bool
    var lastTelemetryTimestamp: T
    var lastTelemetryUpdate: int

    function State(): WindowState<T>
      reads this
    {
      WindowState(firstDrawComplete, lastTelemetryTimestamp, lastTelemetryUpdate)
    }

    /** The static initialisers: not drawn yet, time zero, clock at its epoch. */
    constructor (zeroTime: T)
      ensures State() == WindowState(false, zeroTime, 0)
    {
      firstDrawComplete := false;
      lastTelemetryTimestamp := zeroTime;
      lastTelemetryUpdate := 0;
    }

    /**
     * `drawTelemetryWindow` at clock `now`, with `time` the time field of the
     * copied snapshot.  Returns whether the window was drawn.
     */
    method DrawTelemetryWindow(enabled: bool, time: T, now: int) returns (drawn: bool)
      modifies this
      ensures (State(), drawn) == Frame(old(State()), enabled, time, now)
    {
      if !enabled {
        firstDrawComplete := false;
        return false;
      }
      if enabled && !firstDrawComplete {
        lastTelemetryUpdate := now;
      }
      if time != lastTelemetryTimestamp {
        lastTelemetryTimestamp := time;
        lastTelemetryUpdate := now;
      } else {
        var elapsed := now - lastTelemetryUpdate;
        if elapsed > StaleAfter {
          return false;
        }
      }
      firstDrawComplete := true;
      return true;
    }
  }
}
