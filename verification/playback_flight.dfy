/**
 The playback flight: it binds the chosen media playlist to the provider,
 turns seeks into fresh provider requests, feeds delivered segments to the
 decoders, and numbers decoded video frames. A seek buffers the frames of
 its batch and, when the batch ends, commits them from the keyframe nearest
 to the seek position.

 Every callback is an explicit event. The flight's observable behaviour is
 the list of effects it produces: presentation restarts, committed frames
 with their presentation index, decoder resets and feeds, and ready
 operations scheduled on the provider. Frames are identified by their
 sample; the decoder itself is not modelled.
 */
module PlaybackFlight {
  import opened Basics
  import opened MediaPlaylistParser
  import opened Playlists
  import opened MediaProvider

  /** The warm duration the flight creates its provider with. */
  const WarmDuration: real := 10.0

  datatype Frame = Frame(sample: nat, isKeyframe: bool, shouldFlush: bool, segmentEndtime: real)

  datatype SeekRequest = SeekRequest(requestId: string, timestamp: real, percentage: real, frames: seq<Frame>)

  datatype Flight = Flight(
    started: bool,
    provider: Provider,
    currentFrameIndex: int,
    preloadTimestamp: real,
    decodingSegment: Option<Segment>,
    seek: Option<SeekRequest>)

  datatype Effect =
    | PresentationRestart
    | VideoFrame(frame: Frame, pts: int)
    | ResetDecoders
    | Feed(payload: Bytes, anchor: real, batchId: string)
    | Scheduled(batch: Batch)

  /** What stays true of every flight: the provider was created with the
      flight's warm duration and only ever holds parsed timelines, so none
      of its requests can trap. */
  predicate Valid(f: Flight) {
    f.provider.warm == WarmDuration &&
    (f.provider.info.Some? ==> Timeline(f.provider.info.value.segments))
  }

  function Init(): (f: Flight)
    ensures Valid(f)
  {
    Flight(false, MediaProvider.Init(WarmDuration), 0, 0.0, None, None)
  }

  function ScheduledBy(a: Answer): seq<Effect> {
    match a.batch
    case Some(b) => [Scheduled(b)]
    case None => []
  }

  lemma AnswersKeepValid(f: Flight, current: real, next: real, t: real)
    requires Valid(f)
    ensures PreloadNext(f.provider, current, next).Some?
    ensures ResetTo(f.provider, t).Some?
    ensures var p := PreloadNext(f.provider, current, next).value.provider;
      p.warm == WarmDuration && p.info == f.provider.info
    ensures var p := ResetTo(f.provider, t).value.provider;
      p.warm == WarmDuration && p.info == f.provider.info
  {
    NeverTraps(f.provider, Starting(next));
    NeverTraps(f.provider.(requesting := {}), Including(t));
  }

  // ---------------------------------------------------------------------
  // Starting, switching quality, seeking, preloading
  // ---------------------------------------------------------------------

  /** `start(masterPlaylist:)`; the master's prefetch completes later with
      `MasterReady`. */
  function Start(f: Flight): (r: Flight)
    requires Valid(f)
    ensures Valid(r) && r.started && r.currentFrameIndex == 0
    ensures r.provider == f.provider && r.seek == f.seek
  {
    f.(started := true, currentFrameIndex := 0)
  }

  /** The completion of the prefetch `start` issued: bind the active
      playlist and request from time 0. */
  function MasterReady(f: Flight, info: Option<MediaPlaylistInfo>): (r: (Flight, seq<Effect>))
    requires Valid(f)
    requires info.Some? ==> Timeline(info.value.segments)
    ensures Valid(r.0)
    ensures info.None? ==> r == (f, [])
    ensures info.Some? ==> r.0.provider.info == info && r.0.seek == f.seek
  {
    match info
    case None => (f, [])
    case Some(i) =>
      var f1 := f.(provider := BindPlaylist(f.provider, i));
      AnswersKeepValid(f1, 0.0, 0.0, 0.0);
      var a := PreloadNext(f1.provider, 0.0, 0.0).value;
      (f1.(provider := a.provider, preloadTimestamp := a.time), ScheduledBy(a))
  }

  /** The first playlist of the highest quality not above `q`. */
  function HighestAtMost(infos: seq<MediaPlaylistInfo>, q: int): (r: Option<MediaPlaylistInfo>)
    ensures r.Some? <==> exists i :: 0 <= i < |infos| && infos[i].quality <= q
    ensures r.Some? ==> r.value in infos && r.value.quality <= q
    ensures r.Some? ==> forall i :: 0 <= i < |infos| && infos[i].quality <= q ==> infos[i].quality <= r.value.quality
  {
    if infos == [] then None
    else
      var rest := HighestAtMost(infos[1..], q);
      assert forall i :: 1 <= i < |infos| ==> infos[i] == infos[1..][i - 1];
      if infos[0].quality <= q && (rest.None? || rest.value.quality <= infos[0].quality) then Some(infos[0])
      else rest
  }

  /** The last playlist of the lowest quality. */
  function Lowest(infos: seq<MediaPlaylistInfo>): (r: Option<MediaPlaylistInfo>)
    ensures r.Some? <==> infos != []
    ensures r.Some? ==> r.value in infos
    ensures r.Some? ==> forall i :: 0 <= i < |infos| ==> r.value.quality <= infos[i].quality
  {
    if infos == [] then None
    else
      var rest := Lowest(infos[1..]);
      assert forall i :: 1 <= i < |infos| ==> infos[i] == infos[1..][i - 1];
      if rest.Some? && rest.value.quality <= infos[0].quality then rest else Some(infos[0])
  }

  /** The playlist `activateStream(quality:)` binds: the highest quality not
      above `q`, else the lowest quality there is. */
  function ChooseStream(infos: seq<MediaPlaylistInfo>, q: int): (r: Option<MediaPlaylistInfo>)
    ensures r.Some? <==> infos != []
    ensures r.Some? ==> r.value in infos
  {
    match HighestAtMost(infos, q)
    case Some(i) => Some(i)
    case None => Lowest(infos)
  }

  /** `activateStream(quality:)`, given the master's available playlists.
      Without a master nothing happens. */
  function ActivateStream(f: Flight, available: seq<MediaPlaylistInfo>, q: int): (r: Flight)
    requires Valid(f)
    requires forall i :: 0 <= i < |available| ==> Timeline(available[i].segments)
    ensures Valid(r)
    ensures !f.started || available == [] ==> r == f
    ensures r.seek == f.seek && r.currentFrameIndex == f.currentFrameIndex && r.preloadTimestamp == f.preloadTimestamp
  {
    if !f.started then f
    else
      match ChooseStream(available, q)
      case Some(info) => f.(provider := BindPlaylist(f.provider, info))
      case None => f
  }

  /** The stream `activateStream` binds is the best one not above the
      requested quality, or, when every stream is above it, one of the
      lowest quality. */
  lemma ActivateStreamChoice(f: Flight, available: seq<MediaPlaylistInfo>, q: int)
    requires Valid(f) && f.started && available != []
    requires forall i :: 0 <= i < |available| ==> Timeline(available[i].segments)
    ensures var r := ActivateStream(f, available, q);
      && r.provider.info.Some? && r.provider.info.value in available
      && r.provider.requesting == {} && r.provider.cache == map[]
      && var chosen := r.provider.info.value.quality;
      && ((exists i :: 0 <= i < |available| && available[i].quality <= q) ==>
            chosen <= q && forall i :: 0 <= i < |available| && available[i].quality <= q ==> available[i].quality <= chosen)
      && ((forall i :: 0 <= i < |available| ==> available[i].quality > q) ==>
            forall i :: 0 <= i < |available| ==> chosen <= available[i].quality)
  {
  }

  /** Position of `ts` within its segment: the fraction of the first
      segment containing it, or -1 when none does. */
  function SeekFraction(segs: seq<Segment>, ts: real): (r: real)
    ensures (exists i :: 0 <= i < |segs| && ContainsTime(segs[i], ts)) ==> 0.0 <= r < 1.0
    ensures !(exists i :: 0 <= i < |segs| && ContainsTime(segs[i], ts)) ==> r == -1.0
    ensures var k := FirstContaining(segs, ts);
      k < |segs| ==> segs[k].since + r * (segs[k].until - segs[k].since) == ts
  {
    var k := FirstContaining(segs, ts);
    if k < |segs| then
      var s := segs[k];
      Fraction(ts - s.since, s.until - s.since);
      (ts - s.since) / (s.until - s.since)
    else -1.0
  }

  lemma Fraction(x: real, d: real)
    requires 0.0 <= x < d
    ensures 0.0 <= x / d < 1.0
    ensures (x / d) * d == x
  {
    var r := x / d;
    assert r * d == x;
  }

  /** The completion of the prefetch `seekTo` issued: a new seek request
      replaces any live one, and the provider restarts at `ts`. */
  function SeekResolved(f: Flight, ts: real, info: Option<MediaPlaylistInfo>, requestId: string): (r: (Flight, seq<Effect>))
    requires Valid(f)
    ensures Valid(r.0)
    ensures info.None? ==> r == (f, [])
    ensures info.Some? ==> r.0.seek == Some(SeekRequest(requestId, ts, SeekFraction(info.value.segments, ts), []))
    ensures info.Some? ==> r.0.provider.info == f.provider.info
  {
    match info
    case None => (f, [])
    case Some(i) =>
      var req := SeekRequest(requestId, ts, SeekFraction(i.segments, ts), []);
      AnswersKeepValid(f, 0.0, 0.0, ts);
      var a := ResetTo(f.provider, ts).value;
      (f.(seek := Some(req), provider := a.provider, preloadTimestamp := a.time), ScheduledBy(a))
  }

  /** `preloadMore(now:)`: the provider is asked for more only while no seek
      is live. */
  function PreloadMore(f: Flight, now: real): (r: (Flight, seq<Effect>))
    requires Valid(f)
    ensures Valid(r.0)
    ensures f.seek.Some? ==> r == (f, [])
    ensures f.seek.None? ==>
      var a := PreloadNext(f.provider, now, f.preloadTimestamp);
      a.Some? && r.0 == f.(provider := a.value.provider, preloadTimestamp := a.value.time)
      && r.1 == ScheduledBy(a.value)
  {
    if f.seek.Some? then (f, [])
    else
      AnswersKeepValid(f, now, f.preloadTimestamp, 0.0);
      var a := PreloadNext(f.provider, now, f.preloadTimestamp).value;
      (f.(provider := a.provider, preloadTimestamp := a.time), ScheduledBy(a))
  }

  // ---------------------------------------------------------------------
  // Delivered segments
  // ---------------------------------------------------------------------

  /** The seek filter on delivered segments: with a live seek only the
      segment containing its timestamp is decoded. */
  predicate Admitted(f: Flight, s: Segment) {
    f.seek.None? || ContainsTime(s, f.seek.value.timestamp)
  }

  /** The `for segmentData in segmentsData` loop; `extract` is the container
      unpacker. */
  function FeedSegments(f: Flight, contents: seq<SegmentContent>, batchId: string, extract: Bytes -> Bytes): (r: (Flight, seq<Effect>))
    ensures r.0 == f.(decodingSegment := r.0.decodingSegment)
    ensures forall k :: 0 <= k < |r.1| ==> r.1[k].Feed? && r.1[k].batchId == batchId
    decreases |contents|
  {
    if contents == [] then (f, [])
    else
      var c := contents[0];
      var payload := extract(c.data);
      if Admitted(f, c.segment) && |payload| > 0 then
        var (f', effs) := FeedSegments(f.(decodingSegment := Some(c.segment)), contents[1..], batchId, extract);
        (f', [Feed(payload, c.segment.since, batchId)] + effs)
      else FeedSegments(f, contents[1..], batchId, extract)
  }

  /** The segments that get fed, in delivery order. */
  function FedSegments(f: Flight, contents: seq<SegmentContent>, extract: Bytes -> Bytes): seq<SegmentContent>
  {
    if contents == [] then []
    else
      var c := contents[0];
      (if Admitted(f, c.segment) && |extract(c.data)| > 0 then [c] else []) + FedSegments(f, contents[1..], extract)
  }

  /** The decoders receive exactly the admitted segments with a non-empty
      payload, in order, each anchored at its start time; the segment being
      decoded is the last one fed, or unchanged when none is. */
  lemma {:induction false} FeedSegmentsFeeds(f: Flight, contents: seq<SegmentContent>, batchId: string, extract: Bytes -> Bytes)
    ensures var r := FeedSegments(f, contents, batchId, extract);
      var fed := FedSegments(f, contents, extract);
      && |r.1| == |fed|
      && (forall k :: 0 <= k < |fed| ==> r.1[k] == Feed(extract(fed[k].data), fed[k].segment.since, batchId))
      && r.0.decodingSegment == (if fed == [] then f.decodingSegment else Some(fed[|fed| - 1].segment))
    decreases |contents|
  {
    if contents != [] {
      var c := contents[0];
      if Admitted(f, c.segment) && |extract(c.data)| > 0 {
        var g := f.(decodingSegment := Some(c.segment));
        FeedSegmentsFeeds(g, contents[1..], batchId, extract);
        FedSegmentsIgnoresDecoding(f, g, contents[1..], extract);
      } else {
        FeedSegmentsFeeds(f, contents[1..], batchId, extract);
      }
    }
  }

  lemma {:induction false} FedSegmentsIgnoresDecoding(f: Flight, g: Flight, contents: seq<SegmentContent>, extract: Bytes -> Bytes)
    requires f.seek == g.seek
    ensures FedSegments(f, contents, extract) == FedSegments(g, contents, extract)
    decreases |contents|
  {
    if contents != [] {
      FedSegmentsIgnoresDecoding(f, g, contents[1..], extract);
    }
  }

  /** The provider's delivery reached the flight: a fresh delivery resets
      the frame counter and the decoders, the mapping data is fed first, then
      the admitted segments. */
  function OnDelivery(f: Flight, d: Delivery, batchId: string, extract: Bytes -> Bytes): (r: (Flight, seq<Effect>))
    requires Valid(f)
    ensures Valid(r.0)
    ensures d.isFresh ==> r.0.currentFrameIndex == 0 && |r.1| > 0 && r.1[0] == ResetDecoders
    ensures !d.isFresh ==> r.0.currentFrameIndex == f.currentFrameIndex
    ensures r.0.seek == f.seek && r.0.provider == f.provider
  {
    var f1 := if d.isFresh then f.(currentFrameIndex := 0) else f;
    var resets := if d.isFresh then [ResetDecoders] else [];
    var mapFeed := match d.mappingData
      case Some(m) => if |extract(m)| > 0 then [Feed(extract(m), 0.0, batchId)] else []
      case None => [];
    var (f2, feeds) := FeedSegments(f1, d.segments, batchId, extract);
    (f2, resets + mapFeed + feeds)
  }

  // ---------------------------------------------------------------------
  // Frames
  // ---------------------------------------------------------------------

  /** `commitVideoFrame(_:frameIndex:)`: the presentation index is the
      counter on entry, a restart is requested when that is 0, and the
      counter then becomes the forced index or its successor. Returns the
      index used. */
  function Commit(f: Flight, frame: Frame, forced: Option<int>): (r: (Flight, seq<Effect>, int))
    ensures r.2 == f.currentFrameIndex
    ensures r.0 == f.(currentFrameIndex := forced.GetOr(f.currentFrameIndex + 1))
    ensures (PresentationRestart in r.1) <==> f.currentFrameIndex == 0
    ensures |r.1| > 0 && r.1[|r.1| - 1] == VideoFrame(frame, f.currentFrameIndex)
  {
    var restart := if f.currentFrameIndex == 0 then [PresentationRestart] else [];
    (f.(currentFrameIndex := forced.GetOr(f.currentFrameIndex + 1)),
     restart + [VideoFrame(frame, f.currentFrameIndex)],
     f.currentFrameIndex)
  }

  /** A decoded video frame: stamped with the end of the segment being
      decoded, then buffered for the live seek of its batch, or committed. */
  function OnVideoFrame(f: Flight, frame: Frame, batchId: string): (r: (Flight, seq<Effect>))
    requires Valid(f)
    ensures Valid(r.0)
    ensures var stamped := if f.decodingSegment.Some? then frame.(segmentEndtime := f.decodingSegment.value.until) else frame;
      if f.seek.Some? && f.seek.value.requestId == batchId then
        r.1 == [] && r.0 == f.(seek := Some(f.seek.value.(frames := f.seek.value.frames + [stamped])))
      else
        r.0 == f.(currentFrameIndex := f.currentFrameIndex + 1) && |r.1| > 0 && r.1[|r.1| - 1] == VideoFrame(stamped, f.currentFrameIndex)
  {
    var stamped := match f.decodingSegment
      case Some(s) => frame.(segmentEndtime := s.until)
      case None => frame;
    match f.seek
    case Some(req) =>
      if req.requestId == batchId then (f.(seek := Some(req.(frames := req.frames + [stamped]))), [])
      else var c := Commit(f, stamped, None); (c.0, c.1)
    case None => var c := Commit(f, stamped, None); (c.0, c.1)
  }

  /** Commits `frames` in order, the first with the forced index when
      `forceFirst` is set. */
  function CommitAll(f: Flight, frames: seq<Frame>, forceFirst: bool): (r: (Flight, seq<Effect>))
    ensures r.0 == f.(currentFrameIndex := r.0.currentFrameIndex)
    decreases |frames|
  {
    if frames == [] then (f, [])
    else
      var c := Commit(f, frames[0], if forceFirst then Some(0) else None);
      var rest := CommitAll(c.0, frames[1..], false);
      (rest.0, c.1 + rest.1)
  }

  /** The effects of committing a run of frames from counter value `e`: a
      restart when `e` is 0, then the frames numbered `e`, `e + 1`, .... */
  function RunEffects(frames: seq<Frame>, e: int): seq<Effect> {
    (if e == 0 && frames != [] then [PresentationRestart] else [])
    + seq(|frames|, k requires 0 <= k < |frames| => VideoFrame(frames[k], e + k))
  }

  lemma {:induction false} CommitAllRun(f: Flight, frames: seq<Frame>)
    requires f.currentFrameIndex >= 0
    ensures var r := CommitAll(f, frames, false);
      r.1 == RunEffects(frames, f.currentFrameIndex)
      && r.0.currentFrameIndex == f.currentFrameIndex + |frames|
    decreases |frames|
  {
    if frames != [] {
      var e := f.currentFrameIndex;
      var c := Commit(f, frames[0], None);
      assert c.1 == (if e == 0 then [PresentationRestart] else []) + [VideoFrame(frames[0], e)];
      CommitAllRun(c.0, frames[1..]);
      RunEffectsCons(frames, e);
    }
  }

  /** The effects of a run are those of its first frame, then the rest's. */
  lemma RunEffectsCons(frames: seq<Frame>, e: int)
    requires frames != [] && e >= 0
    ensures RunEffects(frames, e) ==
      (if e == 0 then [PresentationRestart] else []) + [VideoFrame(frames[0], e)] + RunEffects(frames[1..], e + 1)
  {
    var tail := seq(|frames| - 1, k requires 0 <= k < |frames| - 1 => VideoFrame(frames[1..][k], e + 1 + k));
    assert RunEffects(frames[1..], e + 1) == tail;
    assert seq(|frames|, k requires 0 <= k < |frames| => VideoFrame(frames[k], e + k))
      == [VideoFrame(frames[0], e)] + tail;
  }

  /** Committing a seek's frames: the first keeps the counter value `e` it
      found, the counter is then forced to 0, so a second restart follows
      and the remaining frames are numbered from 0. */
  lemma CommitAllForced(f: Flight, frames: seq<Frame>)
    requires frames != []
    ensures var e := f.currentFrameIndex;
      var r := CommitAll(f, frames, true);
      && r.1 == (if e == 0 then [PresentationRestart] else []) + [VideoFrame(frames[0], e)]
                + RunEffects(frames[1..], 0)
      && r.0.currentFrameIndex == |frames| - 1
  {
    CommitAllRun(f.(currentFrameIndex := 0), frames[1..]);
  }

  /** Outcome of the keyframe search of `endBatchDecoding`. */
  datatype KeyframeSearch = Hangs | OutOfBounds | Found(lower: int, upper: int, key: int)

  /** The lower loop: the greatest keyframe index not above `i`, or -1. */
  function LowerKeyframe(frames: seq<Frame>, i: int): (r: int)
    requires -1 <= i < |frames|
    ensures -1 <= r <= i
    ensures r >= 0 ==> frames[r].isKeyframe
    ensures forall k :: r < k <= i ==> !frames[k].isKeyframe
    decreases i + 1
  {
    if i < 0 then -1 else if frames[i].isKeyframe then i else LowerKeyframe(frames, i - 1)
  }

  /** The upper loop: the least keyframe index not below `i`, or the count. */
  function UpperKeyframe(frames: seq<Frame>, i: int): (r: int)
    requires 0 <= i <= |frames|
    ensures i <= r <= |frames|
    ensures r < |frames| ==> frames[r].isKeyframe
    ensures forall k :: i <= k < r ==> !frames[k].isKeyframe
    decreases |frames| - i
  {
    if i == |frames| then i else if frames[i].isKeyframe then i else UpperKeyframe(frames, i + 1)
  }

  /** The two loops and the choice between their results. A target at or
      past the end spins in the lower loop (it `continue`s without moving);
      a negative target skips it and reads `frames[target]` in the upper
      loop. */
  function ResolveKeyframe(frames: seq<Frame>, target: int): (r: KeyframeSearch)
    ensures r.Hangs? <==> target >= |frames| && target >= 0
    ensures r.OutOfBounds? <==> target < 0
    ensures r.Found? ==> 0 <= r.key < |frames|
  {
    if target < 0 then OutOfBounds
    else if target >= |frames| then Hangs
    else
      var lower := LowerKeyframe(frames, target);
      var upper := UpperKeyframe(frames, target);
      var key := if target - lower < upper - target then Max(0, lower) else Min(|frames| - 1, upper);
      Found(lower, upper, key)
  }

  predicate IsKeyframeAt(frames: seq<Frame>, k: int) {
    0 <= k < |frames| && frames[k].isKeyframe
  }

  function Distance(a: int, b: int): nat { if a < b then b - a else a - b }

  /** With a keyframe on each side of the target, the chosen frame is a
      keyframe no farther from the target than any other, and of two equally
      near ones the later is taken. */
  lemma ResolveKeyframeNearest(frames: seq<Frame>, target: int)
    requires 0 <= target < |frames|
    requires exists k :: 0 <= k <= target && frames[k].isKeyframe
    requires exists k :: target <= k < |frames| && frames[k].isKeyframe
    ensures var r := ResolveKeyframe(frames, target);
      && IsKeyframeAt(frames, r.key)
      && (forall k :: IsKeyframeAt(frames, k) ==> Distance(r.key, target) <= Distance(k, target))
      && (forall k :: IsKeyframeAt(frames, k) && Distance(k, target) == Distance(r.key, target) ==> k <= r.key)
  {
    var r := ResolveKeyframe(frames, target);
    var k0 :| 0 <= k0 <= target && frames[k0].isKeyframe;
    var k1 :| target <= k1 < |frames| && frames[k1].isKeyframe;
    assert r.lower >= k0;
    assert r.upper <= k1;
  }

  /** Keyframes at 0, 30 and 60 and a target of 45: both are 15 frames away,
      and frame 60 is chosen. */
  lemma KeyframeTieGoesUp()
    ensures var frames := seq(61, k requires 0 <= k => Frame(k, k % 30 == 0, false, 0.0));
      ResolveKeyframe(frames, 45) == Found(30, 60, 60)
  {
    var frames := seq(61, k requires 0 <= k => Frame(k, k % 30 == 0, false, 0.0));
    assert frames[30].isKeyframe && frames[60].isKeyframe;
  }

  /** Without a keyframe at or before the target, a target nearer the start
      than the next keyframe starts the commit at frame 0, which is then no
      keyframe. */
  lemma NoLowerKeyframeStartsAtZero()
    ensures var frames := [Frame(0, false, false, 0.0), Frame(1, false, false, 0.0), Frame(2, false, false, 0.0),
                           Frame(3, false, false, 0.0), Frame(4, true, false, 0.0)];
      var r := ResolveKeyframe(frames, 1);
      r == Found(-1, 4, 0) && !frames[r.key].isKeyframe
  {
  }

  /** `Int(Double(fps) * percentage)`: truncation toward zero. */
  function TargetIndex(fps: int, percentage: real): (t: int)
    ensures fps as real * percentage >= 0.0 ==> 0 <= t && t as real <= fps as real * percentage < t as real + 1.0
    ensures fps as real * percentage < 0.0 ==> t <= 0 && t as real - 1.0 < fps as real * percentage <= t as real
  {
    var x := fps as real * percentage;
    if x >= 0.0 then x.Floor else -((-x).Floor)
  }

  /** The end of a decoding batch. For the live seek of the batch, the
      frames from the chosen keyframe on are committed and the seek is
      cleared; `None` where the keyframe search does not return. Other
      batches change nothing. */
  function EndBatch(f: Flight, batchId: string, fps: int): (r: Option<(Flight, seq<Effect>)>)
    requires Valid(f)
    ensures r.Some? ==> Valid(r.value.0)
    ensures !(f.seek.Some? && f.seek.value.requestId == batchId) ==> r == Some((f, []))
    ensures f.seek.Some? && f.seek.value.requestId == batchId ==>
      var req := f.seek.value;
      var s := ResolveKeyframe(req.frames, TargetIndex(fps, req.percentage));
      && (r.Some? <==> s.Found?)
      && (r.Some? ==>
            r.value.0.seek.None?
            && r.value.1 == CommitAll(f.(seek := None), req.frames[s.key..], true).1)
  {
    match f.seek
    case Some(req) =>
      if req.requestId != batchId then Some((f, []))
      else
        (match ResolveKeyframe(req.frames, TargetIndex(fps, req.percentage))
         case Found(_, _, key) => Some(CommitAll(f.(seek := None), req.frames[key..], true))
         case _ => None)
    case None => Some((f, []))
  }

  /** After a seek resolves, the frames from the keyframe on are presented
      in order: the keyframe with the counter value it found, then the rest
      numbered from 0 after a second restart. */
  lemma EndBatchCommits(f: Flight, batchId: string, fps: int)
    requires Valid(f)
    requires f.seek.Some? && f.seek.value.requestId == batchId
    requires var req := f.seek.value; 0 <= TargetIndex(fps, req.percentage) < |req.frames|
    ensures var req := f.seek.value;
      var key := ResolveKeyframe(req.frames, TargetIndex(fps, req.percentage)).key;
      var tail := req.frames[key..];
      var e := f.currentFrameIndex;
      var r := EndBatch(f, batchId, fps);
      && r.Some?
      && r.value.1 == (if e == 0 then [PresentationRestart] else []) + [VideoFrame(tail[0], e)] + RunEffects(tail[1..], 0)
      && r.value.0.currentFrameIndex == |tail| - 1
  {
    var req := f.seek.value;
    var key := ResolveKeyframe(req.frames, TargetIndex(fps, req.percentage)).key;
    CommitAllForced(f.(seek := None), req.frames[key..]);
  }
}
