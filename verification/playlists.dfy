/**
 The playlist objects: a media playlist holds the info its parser produced;
 a master playlist classifies its own manifest as media or master, creates
 one child media playlist per stream, and delegates to the first child.

 Downloads are not modelled: a prefetch receives the downloaded manifest as
 lines, or `None` when the download failed or the file was not UTF-8 text.
 The asynchronous hop to the main queue before `prefetchChildren` is taken
 to happen at once.
 */
module Playlists {
  import opened Basics
  import opened Text
  import opened MediaPlaylistParser
  import MasterPlaylistParser

  // ---------------------------------------------------------------------
  // Segment lists
  // ---------------------------------------------------------------------

  /** `since` never decreases along the list. */
  predicate SinceSorted(segs: seq<Segment>) {
    forall i, j :: 0 <= i <= j < |segs| ==> segs[i].since <= segs[j].since
  }

  /** Along a parsed timeline every segment ends no later than any later
      segment starts, so `since` never decreases. */
  lemma {:induction false} TimelineOrder(segs: seq<Segment>, i: int, j: int)
    requires Contiguous(segs) && WellTimed(segs)
    requires 0 <= i < j < |segs|
    ensures segs[i].since <= segs[i].until <= segs[j].since
    decreases j - i
  {
    if i + 1 < j {
      TimelineOrder(segs, i + 1, j);
    }
  }

  lemma TimelineSinceSorted(segs: seq<Segment>)
    requires Contiguous(segs) && WellTimed(segs)
    ensures SinceSorted(segs)
  {
    forall i, j | 0 <= i <= j < |segs| ensures segs[i].since <= segs[j].since {
      if i < j { TimelineOrder(segs, i, j); }
    }
  }

  /** Index of the first segment starting at or after `t`, or the count. */
  function FirstSince(segs: seq<Segment>, t: real): (k: nat)
    ensures k <= |segs|
    ensures forall i :: 0 <= i < k ==> segs[i].since < t
    ensures k < |segs| ==> segs[k].since >= t
  {
    if segs == [] || segs[0].since >= t then 0 else 1 + FirstSince(segs[1..], t)
  }

  /** `segments.filter { $0.since >= timestamp }`. */
  function SegmentsSince(segs: seq<Segment>, t: real): (r: seq<Segment>)
    ensures |r| <= |segs|
    ensures forall k :: 0 <= k < |r| ==> r[k].since >= t && r[k] in segs
    ensures forall k :: 0 <= k < |segs| && segs[k].since >= t ==> segs[k] in r
  {
    if segs == [] then []
    else
      var rest := SegmentsSince(segs[1..], t);
      assert forall k :: 1 <= k < |segs| ==> segs[k] == segs[1..][k - 1];
      (if segs[0].since >= t then [segs[0]] else []) + rest
  }

  /** Order is kept: filtering a concatenation concatenates the filtered
      parts. */
  lemma {:induction false} SegmentsSinceAppend(a: seq<Segment>, b: seq<Segment>, t: real)
    ensures SegmentsSince(a + b, t) == SegmentsSince(a, t) + SegmentsSince(b, t)
    decreases |a|
  {
    if a != [] {
      assert (a + b)[1..] == a[1..] + b;
      SegmentsSinceAppend(a[1..], b, t);
    } else {
      assert a + b == b;
    }
  }

  /** On a list sorted by `since` the filter keeps exactly the suffix that
      starts at the first segment beginning at or after `t`. */
  lemma {:induction false} SegmentsSinceSuffix(segs: seq<Segment>, t: real)
    requires SinceSorted(segs)
    ensures SegmentsSince(segs, t) == segs[FirstSince(segs, t)..]
    decreases |segs|
  {
    if segs != [] {
      if segs[0].since >= t {
        assert FirstSince(segs, t) == 0;
        assert forall i :: 0 <= i < |segs| ==> segs[i].since >= t by {
          forall i | 0 <= i < |segs| ensures segs[i].since >= t {
            assert segs[0].since <= segs[i].since;
          }
        }
        SegmentsSinceAll(segs, t);
      } else {
        var tail := segs[1..];
        SinceSortedTail(segs);
        SegmentsSinceSuffix(tail, t);
        assert SegmentsSince(segs, t) == SegmentsSince(tail, t);
        assert FirstSince(segs, t) == 1 + FirstSince(tail, t);
        assert tail[FirstSince(tail, t)..] == segs[FirstSince(segs, t)..];
      }
    }
  }

  lemma SinceSortedTail(segs: seq<Segment>)
    requires segs != [] && SinceSorted(segs)
    ensures SinceSorted(segs[1..])
  {
    forall i, j | 0 <= i <= j < |segs[1..]| ensures segs[1..][i].since <= segs[1..][j].since {
      assert segs[1..][i] == segs[i + 1] && segs[1..][j] == segs[j + 1];
    }
  }

  /** When every segment starts at or after `t`, the filter keeps them
      all. */
  lemma {:induction false} SegmentsSinceAll(segs: seq<Segment>, t: real)
    requires forall i :: 0 <= i < |segs| ==> segs[i].since >= t
    ensures SegmentsSince(segs, t) == segs
    decreases |segs|
  {
    if segs != [] {
      var tail := segs[1..];
      assert forall i :: 0 <= i < |tail| ==> tail[i].since >= t by {
        forall i | 0 <= i < |tail| ensures tail[i].since >= t {
          assert tail[i] == segs[i + 1];
        }
      }
      SegmentsSinceAll(tail, t);
      assert SegmentsSince(segs, t) == [segs[0]] + SegmentsSince(tail, t);
      assert segs == [segs[0]] + tail;
    }
  }

  // ---------------------------------------------------------------------
  // Media playlist
  // ---------------------------------------------------------------------

  datatype MediaPlaylist = MediaPlaylist(quality: int, url: Url, info: Option<MediaPlaylistInfo>)

  /** Whether a prefetch completion ran, and with which info. */
  datatype Completion = NotCalled | Called(info: Option<MediaPlaylistInfo>)

  /** A manifest the media parser traps on: it has an `#EXTINF:` and a
      tag block that builds a reversed range. */
  predicate ParseTraps(lines: seq<string>, mapAttrs: AttributeMatcher) {
    AnyLineContains(lines, ExtinfPrefix) && SomeBlockTraps(TagBlocks(lines, []), mapAttrs)
  }

  /** `FTMediaPlaylist.prefetchInfo` once the download finished; `None` when
      the parser traps. */
  function MediaPrefetch(p: MediaPlaylist, content: Option<seq<string>>, mapAttrs: AttributeMatcher): (r: Option<(MediaPlaylist, Completion)>)
    ensures r.None? <==> content.Some? && ParseTraps(content.value, mapAttrs)
    ensures r.Some? ==> r.value.0.quality == p.quality && r.value.0.url == p.url
    ensures content.None? ==> r == Some((p, NotCalled))
    ensures content.Some? && r.Some? ==> r.value.1 == Called(r.value.0.info)
    ensures content.Some? && r.Some? ==>
      (r.value.0.info.None? <==> !exists i :: 0 <= i < |content.value| && Contains(content.value[i], ExtinfPrefix))
  {
    match content
    case None => Some((p, NotCalled))
    case Some(lines) =>
      match Parse(p.quality, lines, p.url, mapAttrs)
      case Trap => None
      case Done(info) => Some((p.(info := info), Called(info)))
  }

  /** A prefetch of a media manifest either traps, exactly when the parser
      does, or leaves an info describing the manifest: one segment per URI
      line, on a timeline from 0, carrying the playlist's own quality and
      URL. */
  lemma MediaPrefetchInfo(p: MediaPlaylist, lines: seq<string>, mapAttrs: AttributeMatcher)
    requires AnyLineContains(lines, ExtinfPrefix)
    ensures var r := MediaPrefetch(p, Some(lines), mapAttrs);
      && (r.None? <==> SomeBlockTraps(TagBlocks(lines, []), mapAttrs))
      && (r.Some? ==>
        var q := r.value.0;
        && q.info.Some?
        && q.info.value.quality == p.quality && q.info.value.url == p.url
        && |q.info.value.segments| == |UriLines(lines)|
        && Timeline(q.info.value.segments))
  {
    if !SomeBlockTraps(TagBlocks(lines, []), mapAttrs) {
      ParseSegments(p.quality, lines, p.url, mapAttrs);
    }
  }

  /** `FTMediaPlaylist.requestSegments(since:)`. */
  function MediaRequestSegments(p: MediaPlaylist, t: real): (r: seq<Segment>)
    ensures p.info.None? ==> r == []
    ensures p.info.Some? ==> r == SegmentsSince(p.info.value.segments, t)
  {
    match p.info
    case None => []
    case Some(info) => SegmentsSince(info.segments, t)
  }

  /** A parsed playlist answers a request with the tail of its segment list
      from the first segment starting at or after `t`. */
  lemma MediaRequestSegmentsSuffix(p: MediaPlaylist, t: real)
    requires p.info.Some? && Timeline(p.info.value.segments)
    ensures var segs := p.info.value.segments;
      MediaRequestSegments(p, t) == segs[FirstSince(segs, t)..]
  {
    TimelineSinceSorted(p.info.value.segments);
    SegmentsSinceSuffix(p.info.value.segments, t);
  }

  // ---------------------------------------------------------------------
  // Master playlist
  // ---------------------------------------------------------------------

  /** `hasActive` records that `prefetchChildren` ran on a non-empty child
      list; the active playlist is then the first child. */
  datatype MasterPlaylist = MasterPlaylist(url: Url, children: seq<MediaPlaylist>, hasActive: bool)

  function Active(m: MasterPlaylist): (r: Option<MediaPlaylist>)
    ensures r.Some? <==> m.hasActive && m.children != []
    ensures r.Some? ==> r.value == m.children[0]
  {
    if m.hasActive && m.children != [] then Some(m.children[0]) else None
  }

  /** The child playlists a downloaded manifest yields: itself as the one
      media playlist when a media parse succeeds, else one child per stream
      of the sorted stream list. Codecs are not filtered. */
  function Classify(lines: seq<string>, url: Url, mapAttrs: AttributeMatcher, streamAttrs: AttributeMatcher): (r: Option<seq<MediaPlaylist>>)
    ensures r.None? <==> ParseTraps(lines, mapAttrs)
    ensures r.Some? ==> forall i :: 0 <= i < |r.value| ==> r.value[i].info.None?
    ensures r.Some? && AnyLineContains(lines, ExtinfPrefix) ==> r.value == [MediaPlaylist(0, url, None)]
    ensures !AnyLineContains(lines, ExtinfPrefix) ==>
      var streams := MasterPlaylistParser.Parse(lines, url, streamAttrs);
      && r.Some?
      && |r.value| == |streams|
      && forall i :: 0 <= i < |r.value| ==> r.value[i].quality == streams[i].pixelHeight && r.value[i].url == streams[i].url
  {
    match Parse(0, lines, url, mapAttrs)
    case Trap => None
    case Done(Some(_)) => Some([MediaPlaylist(0, url, None)])
    case Done(None) =>
      var streams := MasterPlaylistParser.Parse(lines, url, streamAttrs);
      Some(seq(|streams|, i requires 0 <= i < |streams| => MediaPlaylist(streams[i].pixelHeight, streams[i].url, None)))
  }

  /** A master manifest yields one child per STREAM-INF tag that a later
      line flushes. */
  lemma ClassifyCount(lines: seq<string>, url: Url, mapAttrs: AttributeMatcher, streamAttrs: AttributeMatcher)
    requires !AnyLineContains(lines, ExtinfPrefix)
    ensures |Classify(lines, url, mapAttrs, streamAttrs).value| == MasterPlaylistParser.FlushedStreamInfs(lines)
  {
    MasterPlaylistParser.ParseCount(lines, url, streamAttrs);
  }

  /** `FTMasterPlaylist.prefetchInfo` once the download finished, followed by
      `prefetchChildren`, which makes the first child active; `None` when the
      media parser traps on the manifest. */
  function MasterPrefetch(m: MasterPlaylist, content: Option<seq<string>>, mapAttrs: AttributeMatcher, streamAttrs: AttributeMatcher): (r: Option<MasterPlaylist>)
    ensures r.None? <==> content.Some? && ParseTraps(content.value, mapAttrs)
    ensures content.None? ==> r == Some(m)
    ensures content.Some? && r.Some? ==> r.value.url == m.url && (r.value.hasActive <==> r.value.children != [])
    ensures content.Some? && r.Some? ==> Active(r.value).None? || Active(r.value).value.info.None?
  {
    match content
    case None => Some(m)
    case Some(lines) =>
      match Classify(lines, m.url, mapAttrs, streamAttrs)
      case None => None
      case Some(children) => Some(MasterPlaylist(m.url, children, children != []))
  }

  /** A child's download finished. Only the active child was given the
      master's completion; the others were prefetched without one. `None`
      when the media parser traps on the child's manifest. */
  function ChildLoaded(m: MasterPlaylist, i: nat, content: Option<seq<string>>, mapAttrs: AttributeMatcher): (r: Option<(MasterPlaylist, Completion)>)
    requires i < |m.children|
    ensures r.None? <==> content.Some? && ParseTraps(content.value, mapAttrs)
    ensures r.Some? ==>
      var (m', done) := r.value;
      && |m'.children| == |m.children| && m'.url == m.url && m'.hasActive == m.hasActive
      && (forall k :: 0 <= k < |m.children| && k != i ==> m'.children[k] == m.children[k])
      && (done.Called? <==> i == 0 && m.hasActive && content.Some?)
      && (done.Called? ==> done.info == Info(m'))
  {
    match MediaPrefetch(m.children[i], content, mapAttrs)
    case None => None
    case Some((child, done)) =>
      var m' := m.(children := m.children[i := child]);
      Some((m', if i == 0 && m.hasActive then done else NotCalled))
  }

  /** `availableMediaPlaylists()`: the infos the children have so far. */
  function AvailableMediaPlaylists(children: seq<MediaPlaylist>): (r: seq<MediaPlaylistInfo>)
    ensures |r| <= |children|
    ensures forall x :: x in r <==> exists i :: 0 <= i < |children| && children[i].info == Some(x)
  {
    if children == [] then []
    else
      var rest := AvailableMediaPlaylists(children[1..]);
      assert forall i :: 1 <= i < |children| ==> children[i] == children[1..][i - 1];
      (if children[0].info.Some? then [children[0].info.value] else []) + rest
  }

  /** Order is kept, and when every child has its info the list is exactly
      those infos. */
  lemma {:induction false} AvailableAppend(a: seq<MediaPlaylist>, b: seq<MediaPlaylist>)
    ensures AvailableMediaPlaylists(a + b) == AvailableMediaPlaylists(a) + AvailableMediaPlaylists(b)
    decreases |a|
  {
    if a != [] {
      assert (a + b)[1..] == a[1..] + b;
      AvailableAppend(a[1..], b);
    } else {
      assert a + b == b;
    }
  }

  lemma {:induction false} AvailableAllLoaded(children: seq<MediaPlaylist>)
    requires forall i :: 0 <= i < |children| ==> children[i].info.Some?
    ensures |AvailableMediaPlaylists(children)| == |children|
    ensures forall i :: 0 <= i < |children| ==> AvailableMediaPlaylists(children)[i] == children[i].info.value
    decreases |children|
  {
    if children != [] {
      AvailableAllLoaded(children[1..]);
    }
  }

  /** The master's `info` is its active child's. */
  function Info(m: MasterPlaylist): (r: Option<MediaPlaylistInfo>)
    ensures r.Some? ==> m.hasActive && m.children != [] && r == m.children[0].info
  {
    match Active(m)
    case Some(c) => c.info
    case None => None
  }

  /** `FTMasterPlaylist.requestSegments(since:)`. */
  function MasterRequestSegments(m: MasterPlaylist, t: real): (r: seq<Segment>)
    ensures Active(m).None? ==> r == []
    ensures Active(m).Some? ==> r == MediaRequestSegments(m.children[0], t)
  {
    match Active(m)
    case Some(c) => MediaRequestSegments(c, t)
    case None => []
  }

  /** Requests go to the active child: with a parsed timeline the answer is
      the tail of its list from the first segment at or after `t`. */
  lemma MasterRequestSegmentsSuffix(m: MasterPlaylist, t: real)
    requires Info(m).Some? && Timeline(Info(m).value.segments)
    ensures var segs := Info(m).value.segments;
      MasterRequestSegments(m, t) == segs[FirstSince(segs, t)..]
  {
    MediaRequestSegmentsSuffix(m.children[0], t);
  }

  /** A media manifest given to a master traps there when the media parser
      does; otherwise it makes a one-child master whose child, once loaded,
      carries the master's own URL and quality 0. */
  lemma MasterOfMediaManifest(m: MasterPlaylist, lines: seq<string>, mapAttrs: AttributeMatcher, streamAttrs: AttributeMatcher)
    requires AnyLineContains(lines, ExtinfPrefix)
    ensures var m1 := MasterPrefetch(m, Some(lines), mapAttrs, streamAttrs);
      && (m1.None? <==> SomeBlockTraps(TagBlocks(lines, []), mapAttrs))
      && (m1.Some? ==>
        var c := m1.value;
        && |c.children| == 1 && c.children[0].url == m.url && c.children[0].quality == 0
        && ChildLoaded(c, 0, Some(lines), mapAttrs).Some?
        && var done := ChildLoaded(c, 0, Some(lines), mapAttrs).value.1;
        && done.Called? && done.info.Some?
        && done.info.value.url == m.url && done.info.value.quality == 0
        && |done.info.value.segments| == |UriLines(lines)|)
  {
    var m1 := MasterPrefetch(m, Some(lines), mapAttrs, streamAttrs);
    if m1.Some? {
      MediaPrefetchInfo(m1.value.children[0], lines, mapAttrs);
    }
  }
}
