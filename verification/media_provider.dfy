/**
 The segment-window scheduler. Given the bound playlist, a request picks a
 window `lo ..< hi` of segment indices, refuses it when it is empty or
 overlaps the window still being fetched, and otherwise records it as the
 window in flight, purges cache entries far behind it, and answers the time
 up to which media will be available.

 The operation queue is not modelled. Its effects arrive as explicit
 events: a segment download finished, the mapping download finished, and
 a ready operation fired with the batch it was created for.
 */
module MediaProvider {
  import opened Basics
  import opened MediaPlaylistParser
  import opened Playlists

  datatype Provider = Provider(
    warm: real,
    info: Option<MediaPlaylistInfo>,
    requesting: set<int>,
    cachedMap: Option<Bytes>,
    cache: map<int, Bytes>)

  function Init(warm: real): Provider {
    Provider(warm, None, {}, None, map[])
  }

  datatype Search = Starting(since: real) | Including(target: real)

  /** The ready operation a request schedules: the window it will deliver and
      whether the delivery starts a fresh decode. */
  datatype Batch = Batch(isFresh: bool, lo: int, hi: int)

  /** What `preloadTimeRange` did: refused, accepted a window, or reached
      `sinceIndex ..< untilIndex` with `sinceIndex > untilIndex`, which traps. */
  datatype Preload = Rejected | Accepted(lo: nat, hi: nat, distant: real) | Trapped

  /** The state after a public call, the time it answered and the ready
      operation it scheduled, if any. */
  datatype Answer = Answer(provider: Provider, time: real, batch: Option<Batch>)

  // ---------------------------------------------------------------------
  // Windows
  // ---------------------------------------------------------------------

  predicate ContainsTime(s: Segment, t: real) { s.since <= t < s.until }

  /** `firstIndex(where: { $0.since <= t && t < $0.until })`. */
  function FirstContaining(segs: seq<Segment>, t: real): (k: nat)
    ensures k <= |segs|
    ensures forall i :: 0 <= i < k ==> !ContainsTime(segs[i], t)
    ensures k < |segs| ==> ContainsTime(segs[k], t)
  {
    if segs == [] || ContainsTime(segs[0], t) then 0 else 1 + FirstContaining(segs[1..], t)
  }

  /** `sinceIndex`: the first match, or `startIndex` (0) when nothing matches. */
  function LowerIndex(segs: seq<Segment>, search: Search): (lo: nat)
    ensures lo <= |segs|
  {
    var k := match search
      case Starting(t) => FirstSince(segs, t)
      case Including(t) => FirstContaining(segs, t);
    if k < |segs| then k else 0
  }

  /** `untilIndex`: the first match for the time `warm` later, or `endIndex`
      (the count) when nothing matches. */
  function UpperIndex(segs: seq<Segment>, search: Search, warm: real): (hi: nat)
    ensures hi <= |segs|
  {
    match search
    case Starting(t) => FirstSince(segs, t + warm)
    case Including(t) => FirstContaining(segs, t + warm)
  }

  /** `IndexSet(integersIn: lo ..< hi)`. */
  function WindowSet(lo: int, hi: int): (r: set<int>)
    ensures forall i :: i in r <==> lo <= i < hi
    decreases hi - lo
  {
    if lo >= hi then {} else {lo} + WindowSet(lo + 1, hi)
  }

  /** `cachedSegmentsData.keys.filter { $0 < purgingLevel }` removed. */
  function Purge(cache: map<int, Bytes>, level: int): (r: map<int, Bytes>)
    ensures forall k :: k in r <==> k in cache && k >= level
    ensures forall k :: k in r ==> r[k] == cache[k]
  {
    map k | k in cache && k >= level :: cache[k]
  }

  /** `max(startIndex, lower - count * 2)`. */
  function PurgingLevel(lo: int, hi: int): int {
    Max(0, lo - (hi - lo) * 2)
  }

  /** `preloadTimeRange`. */
  function PreloadTimeRange(p: Provider, search: Search): (r: (Provider, Preload))
    ensures r.1.Rejected? || r.1.Trapped? ==> r.0 == p
    ensures r.1.Accepted? ==>
      && p.info.Some?
      && r.1.lo < r.1.hi <= |p.info.value.segments|
      && r.1.lo == LowerIndex(p.info.value.segments, search)
      && r.1.hi == UpperIndex(p.info.value.segments, search, p.warm)
      && (forall i :: i in p.requesting ==> !(r.1.lo <= i < r.1.hi))
      && r.0.requesting == WindowSet(r.1.lo, r.1.hi)
      && r.1.distant == p.info.value.segments[r.1.hi - 1].until
      && r.0 == p.(requesting := r.0.requesting, cache := r.0.cache)
      && (forall k :: k in r.0.cache <==> k in p.cache && k >= PurgingLevel(r.1.lo, r.1.hi))
  {
    match p.info
    case None => (p, Rejected)
    case Some(info) =>
      var segs := info.segments;
      var lo := LowerIndex(segs, search);
      var hi := UpperIndex(segs, search, p.warm);
      if lo == hi then (p, Rejected)
      else if lo > hi then (p, Trapped)
      else if exists i :: i in p.requesting && lo <= i < hi then (p, Rejected)
      else
        var p' := p.(requesting := WindowSet(lo, hi), cache := Purge(p.cache, PurgingLevel(lo, hi)));
        (p', Accepted(lo, hi, segs[hi - 1].until))
  }

  // ---------------------------------------------------------------------
  // Public calls
  // ---------------------------------------------------------------------

  /** `bindPlaylist`: forget everything about the previous playlist. */
  function BindPlaylist(p: Provider, info: MediaPlaylistInfo): (r: Provider)
    ensures r.info == Some(info) && r.warm == p.warm
    ensures r.requesting == {} && r.cachedMap.None? && r.cache == map[]
  {
    Provider(p.warm, Some(info), {}, None, map[])
  }

  function Respond(p: Provider, isFresh: bool, search: Search, fallback: real): (r: Option<Answer>)
  {
    var (p', outcome) := PreloadTimeRange(p, search);
    match outcome
    case Trapped => None
    case Rejected => Some(Answer(p, fallback, None))
    case Accepted(lo, hi, distant) => Some(Answer(p', distant, Some(Batch(isFresh, lo, hi))))
  }

  /** `preloadNext(current:next:)`; `None` where the range construction
      traps. */
  function PreloadNext(p: Provider, current: real, next: real): (r: Option<Answer>)
    ensures current < next - p.warm ==> r == Some(Answer(p, next, None))
    ensures r.Some? && r.value.batch.None? ==> r.value.provider == p && r.value.time == next
    ensures r.Some? && r.value.batch.Some? ==>
      !r.value.batch.value.isFresh && r.value.provider.requesting == WindowSet(r.value.batch.value.lo, r.value.batch.value.hi)
  {
    if current < next - p.warm then Some(Answer(p, next, None))
    else Respond(p, false, Starting(next), next)
  }

  /** `resetTo(timestamp:)`: the window in flight is forgotten first. */
  function ResetTo(p: Provider, t: real): (r: Option<Answer>)
    ensures r.Some? && r.value.batch.None? ==> r.value.provider == p.(requesting := {}) && r.value.time == t
    ensures r.Some? && r.value.batch.Some? ==>
      r.value.batch.value.isFresh && r.value.provider.requesting == WindowSet(r.value.batch.value.lo, r.value.batch.value.hi)
  {
    Respond(p.(requesting := {}), true, Including(t), t)
  }

  /** `discardAll`: both caches go; the window in flight is kept. */
  function DiscardAll(p: Provider): (r: Provider)
    ensures r.cachedMap.None? && r.cache == map[]
    ensures r.requesting == p.requesting && r.info == p.info
  {
    p.(cachedMap := None, cache := map[])
  }

  // ---------------------------------------------------------------------
  // Events of the operation queue
  // ---------------------------------------------------------------------

  /** A segment download finished; a failed one removes the entry. */
  function SegmentArrived(p: Provider, index: int, data: Option<Bytes>): (r: Provider)
    ensures data.Some? ==> r.cache == p.cache[index := data.value]
    ensures data.None? ==> index !in r.cache && forall k :: k in r.cache <==> k in p.cache && k != index
    ensures r.requesting == p.requesting && r.cachedMap == p.cachedMap && r.info == p.info
  {
    match data
    case Some(d) => p.(cache := p.cache[index := d])
    case None => p.(cache := p.cache - {index})
  }

  function MappingArrived(p: Provider, data: Option<Bytes>): (r: Provider)
    ensures r.cachedMap == data && r.cache == p.cache && r.requesting == p.requesting
  {
    p.(cachedMap := data)
  }

  /** One delivered segment and its bytes. */
  datatype SegmentContent = SegmentContent(segment: Segment, data: Bytes)

  datatype Delivery = Delivery(isFresh: bool, mappingData: Option<Bytes>, segments: seq<SegmentContent>)

  /** The cached indices in `lo ..< hi`, ascending. */
  function CachedIndices(cache: map<int, Bytes>, lo: int, hi: int): (r: seq<int>)
    ensures forall a, b :: 0 <= a < b < |r| ==> r[a] < r[b]
    ensures forall k :: k in r <==> k in cache && lo <= k < hi
    ensures forall j :: 0 <= j < |r| ==> r[j] in cache && lo <= r[j] < hi
    decreases hi - lo
  {
    if lo >= hi then []
    else
      var rest := CachedIndices(cache, lo + 1, hi);
      assert forall j :: 0 <= j < |rest| ==> rest[j] in rest;
      if lo in cache then [lo] + rest else rest
  }

  /** The ready operation fired: the window in flight is cleared and the
      cached segments of the batch's window are delivered in index order. */
  function ReadyFired(p: Provider, b: Batch): (r: (Provider, Option<Delivery>))
    requires p.info.Some? ==> 0 <= b.lo && b.hi <= |p.info.value.segments|
    ensures p.info.None? ==> r == (p, None)
    ensures p.info.Some? ==> r.0 == p.(requesting := {}) && r.1.Some?
    ensures r.1.Some? ==>
      var d := r.1.value;
      var ks := CachedIndices(p.cache, b.lo, b.hi);
      && d.isFresh == b.isFresh && d.mappingData == p.cachedMap
      && |d.segments| == |ks|
      && forall j :: 0 <= j < |ks| ==>
           d.segments[j] == SegmentContent(p.info.value.segments[ks[j]], p.cache[ks[j]])
  {
    match p.info
    case None => (p, None)
    case Some(info) =>
      var ks := CachedIndices(p.cache, b.lo, b.hi);
      var contents := seq(|ks|, j requires 0 <= j < |ks| => SegmentContent(info.segments[ks[j]], p.cache[ks[j]]));
      (p.(requesting := {}), Some(Delivery(b.isFresh, p.cachedMap, contents)))
  }

  // ---------------------------------------------------------------------
  // Properties
  // ---------------------------------------------------------------------

  /** With a parsed timeline and a non-negative warm duration the window is
      never inverted, so `sinceIndex ..< untilIndex` never traps. */
  lemma WindowOrdered(segs: seq<Segment>, search: Search, warm: real)
    requires Timeline(segs) && warm >= 0.0
    ensures LowerIndex(segs, search) <= UpperIndex(segs, search, warm)
  {
    var hi := UpperIndex(segs, search, warm);
    match search
    case Starting(t) =>
      if hi < |segs| {
        assert segs[hi].since >= t;
      }
    case Including(t) =>
      var k := FirstContaining(segs, t);
      if k < |segs| {
        forall j | 0 <= j < k ensures !ContainsTime(segs[j], t + warm) {
          TimelineOrder(segs, j, k);
        }
      }
  }

  lemma NeverTraps(p: Provider, search: Search)
    requires p.warm >= 0.0
    requires p.info.Some? ==> Timeline(p.info.value.segments)
    ensures !PreloadTimeRange(p, search).1.Trapped?
  {
    if p.info.Some? {
      WindowOrdered(p.info.value.segments, search, p.warm);
    }
  }

  /** On a timeline, a `starting` window that finds its first segment holds
      exactly the segments that start in `[next, next + warm)`. */
  lemma StartingWindowContents(segs: seq<Segment>, next: real, warm: real, i: int)
    requires Timeline(segs) && warm >= 0.0
    requires FirstSince(segs, next) < |segs|
    requires 0 <= i < |segs|
    ensures LowerIndex(segs, Starting(next)) <= i < UpperIndex(segs, Starting(next), warm)
      <==> next <= segs[i].since < next + warm
  {
    TimelineSinceSorted(segs);
    var lo := FirstSince(segs, next);
    var hi := FirstSince(segs, next + warm);
    if i >= lo { assert segs[lo].since <= segs[i].since; }
    if i >= hi && hi < |segs| { assert segs[hi].since <= segs[i].since; }
  }

  /** `resetTo` refuses only an empty window: any window in flight has been
      forgotten by then. */
  lemma ResetToRejectsOnlyEmpty(p: Provider, t: real)
    requires p.warm >= 0.0 && p.info.Some? && Timeline(p.info.value.segments)
    ensures var segs := p.info.value.segments;
      var lo := LowerIndex(segs, Including(t));
      var hi := UpperIndex(segs, Including(t), p.warm);
      var r := ResetTo(p, t);
      && r.Some?
      && (r.value.batch.None? <==> lo == hi)
      && (lo < hi ==> r.value.time == segs[hi - 1].until && r.value.batch == Some(Batch(true, lo, hi)))
  {
    NeverTraps(p.(requesting := {}), Including(t));
  }

  /** `preloadNext` on a window overlapping the one in flight changes
      nothing. */
  lemma PreloadNextRejectsOverlap(p: Provider, current: real, next: real, i: int)
    requires p.info.Some?
    requires i in p.requesting
    requires LowerIndex(p.info.value.segments, Starting(next)) <= i < UpperIndex(p.info.value.segments, Starting(next), p.warm)
    ensures PreloadNext(p, current, next) == Some(Answer(p, next, None))
  {
  }

  /** After an accepted request, everything from two windows' length behind
      the window's start is still cached. */
  lemma PurgeKeepsRecent(p: Provider, search: Search, k: int)
    requires PreloadTimeRange(p, search).1.Accepted?
    requires k in p.cache && k >= 0
    requires var a := PreloadTimeRange(p, search).1; k >= a.lo - 2 * (a.hi - a.lo)
    ensures k in PreloadTimeRange(p, search).0.cache
    ensures PreloadTimeRange(p, search).0.cache[k] == p.cache[k]
  {
  }

  /** Once a ready operation fires, a later request for an overlapping
      window is accepted again. */
  lemma ReadyReopens(p: Provider, b: Batch, search: Search)
    requires p.info.Some? && 0 <= b.lo && b.hi <= |p.info.value.segments|
    requires p.warm >= 0.0 && Timeline(p.info.value.segments)
    requires LowerIndex(p.info.value.segments, search) < UpperIndex(p.info.value.segments, search, p.warm)
    ensures PreloadTimeRange(ReadyFired(p, b).0, search).1.Accepted?
  {
  }
}
