/**
 The playback manager's frame deque: committed frames are queued, a frame
 marked `shouldFlush` discards what is queued, and on each display tick the
 queue is drained into the video layer for as long as the layer reports it
 is ready. Quality changes and the list of qualities go through the
 master playlist and the flight.

 The display link, the locks and the layer are not modelled; the layer's
 readiness is an oracle answering the k-th readiness check of a drain.
 */
module PlaybackManager {
  import opened Basics
  import opened Text
  import opened MediaPlaylistParser
  import opened Playlists
  import opened PlaybackFlight

  datatype Manager = Manager(
    hasLayer: bool,
    master: Option<MasterPlaylist>,
    flight: Flight,
    deque: seq<Frame>,
    nextPreloadTime: real)

  /** `playbackFlight(_:haveNextFrame:)`. */
  function Enqueue(deque: seq<Frame>, frame: Frame): (r: seq<Frame>)
    ensures frame.shouldFlush ==> r == [frame]
    ensures !frame.shouldFlush ==> r == deque + [frame]
  {
    (if frame.shouldFlush then [] else deque) + [frame]
  }

  /** The frames of the flight's `VideoFrame` effects, queued in order. */
  function EnqueueEffects(deque: seq<Frame>, effects: seq<Effect>): seq<Frame>
    decreases |effects|
  {
    if effects == [] then deque
    else
      var d := if effects[0].VideoFrame? then Enqueue(deque, effects[0].frame) else deque;
      EnqueueEffects(d, effects[1..])
  }

  /** Index of the last `shouldFlush` frame, or -1. */
  function LastFlush(frames: seq<Frame>): (r: int)
    ensures -1 <= r < |frames|
    ensures r >= 0 ==> frames[r].shouldFlush
    ensures forall k :: r < k < |frames| ==> !frames[k].shouldFlush
    decreases |frames|
  {
    if frames == [] then -1
    else if frames[|frames| - 1].shouldFlush then |frames| - 1
    else LastFlush(frames[..|frames| - 1])
  }

  /** Queueing a run of frames leaves the frames from the last flushing one
      on, or, without one, the old queue followed by all of them. */
  lemma {:induction false} EnqueueAll(deque: seq<Frame>, frames: seq<Frame>, effects: seq<Effect>)
    requires |effects| == |frames|
    requires forall k :: 0 <= k < |effects| ==> effects[k].VideoFrame? && effects[k].frame == frames[k]
    ensures EnqueueEffects(deque, effects) ==
      if LastFlush(frames) >= 0 then frames[LastFlush(frames)..] else deque + frames
    decreases |frames|
  {
    if frames != [] {
      var last := frames[|frames| - 1];
      var front := frames[..|frames| - 1];
      var init := effects[..|effects| - 1];
      var d := EnqueueEffects(deque, init);
      assert EnqueueEffects(deque, effects) == Enqueue(d, last) by {
        var e := effects[|effects| - 1];
        assert e.VideoFrame? && e.frame == last;
        EnqueueLast(deque, effects);
      }
      assert d == if LastFlush(front) >= 0 then front[LastFlush(front)..] else deque + front by {
        assert forall k :: 0 <= k < |init| ==> init[k] == effects[k];
        EnqueueAll(deque, front, init);
      }
      assert frames == front + [last];
      EnqueueStep(deque, d, front, last);
    }
  }

  /** One more frame on top of the queue that a run of frames left. */
  lemma EnqueueStep(deque: seq<Frame>, d: seq<Frame>, front: seq<Frame>, last: Frame)
    requires d == if LastFlush(front) >= 0 then front[LastFlush(front)..] else deque + front
    ensures var frames := front + [last];
      Enqueue(d, last) == if LastFlush(frames) >= 0 then frames[LastFlush(frames)..] else deque + frames
  {
    var frames := front + [last];
    assert frames[..|frames| - 1] == front;
    if last.shouldFlush {
      assert frames[|frames| - 1..] == [last];
    } else if LastFlush(front) >= 0 {
      var j := LastFlush(front);
      assert frames[j..] == front[j..] + [last];
    } else {
      assert deque + frames == deque + front + [last];
    }
  }

  /** Queueing the effects one by one from the end. */
  lemma {:induction false} EnqueueLast(deque: seq<Frame>, effects: seq<Effect>)
    requires effects != []
    ensures var d := EnqueueEffects(deque, effects[..|effects| - 1]);
      var e := effects[|effects| - 1];
      EnqueueEffects(deque, effects) == if e.VideoFrame? then Enqueue(d, e.frame) else d
    decreases |effects|
  {
    if |effects| > 1 {
      var d0 := if effects[0].VideoFrame? then Enqueue(deque, effects[0].frame) else deque;
      EnqueueLast(d0, effects[1..]);
      assert effects[1..][..|effects[1..]| - 1] == effects[..|effects| - 1][1..];
    }
  }

  /** A drain of `deque` against the layer's readiness answers: the frames
      handed to the layer, the frames left, and the new preload time. */
  method Drain(deque: seq<Frame>, ready: nat -> bool, nextPreloadTime: real)
    returns (drained: seq<Frame>, rest: seq<Frame>, preload: real)
    ensures drained + rest == deque
    ensures forall k :: 0 <= k < |drained| ==> ready(k)
    ensures rest != [] ==> !ready(|drained|)
    ensures drained == [] ==> preload == nextPreloadTime
    ensures drained != [] ==> preload == drained[|drained| - 1].segmentEndtime
  {
    drained := [];
    rest := deque;
    preload := nextPreloadTime;
    while rest != [] && ready(|drained|)
      invariant drained + rest == deque
      invariant forall k :: 0 <= k < |drained| ==> ready(k)
      invariant drained == [] ==> preload == nextPreloadTime
      invariant drained != [] ==> preload == drained[|drained| - 1].segmentEndtime
      decreases |rest|
    {
      var frame := rest[0];
      drained := drained + [frame];
      rest := rest[1..];
      preload := frame.segmentEndtime;
    }
  }

  /** The tick's drain, run on the manager: without a layer nothing
      happens. */
  method DrainManager(m: Manager, ready: nat -> bool) returns (r: Manager, enqueued: seq<Frame>)
    ensures !m.hasLayer ==> r == m && enqueued == []
    ensures m.hasLayer ==> enqueued + r.deque == m.deque
    ensures m.hasLayer && r.deque != [] ==> !ready(|enqueued|)
    ensures r == m.(deque := r.deque, nextPreloadTime := r.nextPreloadTime)
    ensures r.nextPreloadTime == if enqueued == [] then m.nextPreloadTime else enqueued[|enqueued| - 1].segmentEndtime
  {
    if !m.hasLayer {
      return m, [];
    }
    var drained, rest, preload := Drain(m.deque, ready, m.nextPreloadTime);
    r := m.(deque := rest, nextPreloadTime := preload);
    enqueued := drained;
  }

  /** `handleFrameTick`: the flight preloads from the manager's preload time
      first; a drain is scheduled only when frames are queued. */
  function Tick(m: Manager): (r: (Manager, seq<Effect>, bool))
    requires Valid(m.flight)
    ensures Valid(r.0.flight)
    ensures r.0 == m.(flight := PreloadMore(m.flight, m.nextPreloadTime).0)
    ensures r.1 == PreloadMore(m.flight, m.nextPreloadTime).1
    ensures r.2 <==> m.deque != []
  {
    var (f, effects) := PreloadMore(m.flight, m.nextPreloadTime);
    (m.(flight := f), effects, m.deque != [])
  }

  /** Every child playlist's info came from the media parser, so it is a
      timeline. */
  predicate ChildrenParsed(m: MasterPlaylist) {
    forall i :: 0 <= i < |m.children| ==>
      m.children[i].info.Some? ==> Timeline(m.children[i].info.value.segments)
  }

  lemma ChildLoadedKeepsParsed(m: MasterPlaylist, i: nat, content: Option<seq<string>>, mapAttrs: AttributeMatcher)
    requires ChildrenParsed(m) && i < |m.children|
    ensures ChildLoaded(m, i, content, mapAttrs).Some? ==> ChildrenParsed(ChildLoaded(m, i, content, mapAttrs).value.0)
  {
    if content.Some? && AnyLineContains(content.value, ExtinfPrefix) {
      MediaPrefetchInfo(m.children[i], content.value, mapAttrs);
    }
  }

  lemma MasterPrefetchParsed(m: MasterPlaylist, content: Option<seq<string>>, mapAttrs: AttributeMatcher, streamAttrs: AttributeMatcher)
    requires ChildrenParsed(m)
    ensures MasterPrefetch(m, content, mapAttrs, streamAttrs).Some? ==> ChildrenParsed(MasterPrefetch(m, content, mapAttrs, streamAttrs).value)
  {
  }

  function Available(m: Manager): seq<MediaPlaylistInfo> {
    match m.master
    case Some(mp) => AvailableMediaPlaylists(mp.children)
    case None => []
  }

  /** `availableQualities()`: the qualities of the loaded playlists, in
      order, or none without a master. */
  function AvailableQualities(m: Manager): (r: seq<int>)
    ensures m.master.None? ==> r == []
    ensures |r| == |Available(m)|
    ensures forall k :: 0 <= k < |r| ==> r[k] == Available(m)[k].quality
  {
    var infos := Available(m);
    seq(|infos|, k requires 0 <= k < |infos| => infos[k].quality)
  }

  /** When every child is loaded the qualities are the children's, in
      order. */
  lemma AvailableQualitiesAllLoaded(m: Manager)
    requires m.master.Some?
    requires forall i :: 0 <= i < |m.master.value.children| ==> m.master.value.children[i].info.Some?
    ensures var cs := m.master.value.children;
      |AvailableQualities(m)| == |cs| &&
      forall i :: 0 <= i < |cs| ==> AvailableQualities(m)[i] == cs[i].info.value.quality
  {
    AvailableAllLoaded(m.master.value.children);
  }

  /** `setQuality(_:)`: no value means quality 0. */
  function SetQuality(m: Manager, value: Option<int>): (r: Manager)
    requires Valid(m.flight)
    requires m.master.Some? ==> ChildrenParsed(m.master.value)
    ensures Valid(r.flight)
    ensures r == m.(flight := r.flight)
    ensures r.flight.seek == m.flight.seek && r.flight.currentFrameIndex == m.flight.currentFrameIndex
  {
    AvailableAreParsed(m);
    m.(flight := ActivateStream(m.flight, Available(m), value.GetOr(0)))
  }

  lemma AvailableAreParsed(m: Manager)
    requires m.master.Some? ==> ChildrenParsed(m.master.value)
    ensures forall i :: 0 <= i < |Available(m)| ==> Timeline(Available(m)[i].segments)
  {
    if m.master.Some? {
      var cs := m.master.value.children;
      forall i | 0 <= i < |Available(m)| ensures Timeline(Available(m)[i].segments) {
        var x := Available(m)[i];
        assert x in AvailableMediaPlaylists(cs);
        var j :| 0 <= j < |cs| && cs[j].info == Some(x);
      }
    }
  }

  /** Setting no quality is setting quality 0. */
  lemma SetQualityNoneIsZero(m: Manager)
    requires Valid(m.flight)
    requires m.master.Some? ==> ChildrenParsed(m.master.value)
    ensures SetQuality(m, None) == SetQuality(m, Some(0))
  {
  }

  /** Once playing, a quality change binds the stream chosen for the
      requested quality, 0 when none is given. */
  lemma SetQualityBinds(m: Manager, value: Option<int>)
    requires Valid(m.flight) && m.flight.started
    requires m.master.Some? ==> ChildrenParsed(m.master.value)
    requires Available(m) != []
    ensures SetQuality(m, value).flight.provider.info == ChooseStream(Available(m), value.GetOr(0))
  {
    AvailableAreParsed(m);
  }
}
