/**
 The media-playlist parser: a line-classifying state machine that folds the
 `#EXTINF`, `#EXT-X-BYTERANGE` and `#EXT-X-MAP` tags pending before each URI
 line into one segment with cumulative `since`/`until` times and a running
 byte offset.
 */
module MediaPlaylistParser {
  import opened Basics
  import opened Text

  const TagPrefix := "#"
  const ExtPrefix := "#EXT"
  const ExtinfPrefix := "#EXTINF:"
  const MapPrefix := "#EXT-X-MAP:"
  const ByteRangePrefix := "#EXT-X-BYTERANGE:"

  datatype EntryLocation = EntryLocation(url: Url, range: Option<ByteRange>)

  datatype Segment = Segment(location: EntryLocation, duration: real, since: real, until: real)

  datatype MediaPlaylistInfo = MediaPlaylistInfo(
    quality: int,
    url: Url,
    initMap: Option<EntryLocation>,
    segments: seq<Segment>)

  /** Tags seen since the last flush, and the pending URI line. */
  datatype Scanned = Scanned(tags: seq<string>, value: string)

  const EmptyScanned := Scanned([], "")

  datatype ParserState = ParserState(
    initMap: Option<EntryLocation>,
    segments: seq<Segment>,
    totalOffset: int,
    totalDuration: real,
    scanned: Scanned,
    trapped: bool)

  const Initial := ParserState(None, [], 0, 0.0, EmptyScanned, false)

  /** The locals of one flush (`anyUri`, `anyOffset`, `anyLength`,
      `anyDuration`) together with the two outer variables a MAP tag writes.
      `trapped` records that a reversed range was built: Swift's `Range`
      traps when `upperBound < lowerBound`, and nothing after that point
      matters. */
  datatype TagFold = TagFold(
    uri: string,
    offset: int,
    length: int,
    duration: real,
    initMap: Option<EntryLocation>,
    totalOffset: int,
    trapped: bool)

  /** What `parse()` does with a manifest: trap, or return (`nil` when the
      manifest has no `#EXTINF:`). */
  datatype ParseResult = Trap | Done(info: Option<MediaPlaylistInfo>)

  // ---------------------------------------------------------------------
  // #EXT-X-BYTERANGE: the regular expression ([0-9]+)(?:@([0-9]+))
  // ---------------------------------------------------------------------

  /** The regular expression matches at `p`: a maximal digit run, `@`, and
      at least one more digit. */
  predicate ByteRangeAt(s: string, p: nat) {
    p < |s| &&
    var n := DigitRun(s[p..]);
    n > 0 && p + n < |s| && s[p + n] == '@' && DigitRun(s[p + n + 1..]) > 0
  }

  /** Group 1 (the length digits) of the match at `p`. */
  function LengthDigits(s: string, p: nat): (g: string)
    requires ByteRangeAt(s, p)
    ensures AllDigits(g) && g != []
  {
    s[p..][..DigitRun(s[p..])]
  }

  /** Group 2 (the offset digits) of the match at `p`. */
  function OffsetDigits(s: string, p: nat): (g: string)
    requires ByteRangeAt(s, p)
    ensures AllDigits(g) && g != []
  {
    var rest := s[p + DigitRun(s[p..]) + 1..];
    rest[..DigitRun(rest)]
  }

  datatype ByteRangeMatch = ByteRangeMatch(start: nat, length: nat, offset: nat)

  /** No match starts at `from` or later. */
  ghost predicate NoByteRangeFrom(s: string, from: nat) {
    forall p: nat :: from <= p ==> !ByteRangeAt(s, p)
  }

  /** The leftmost match at `from` or later starts at `start`. */
  ghost predicate FirstByteRangeFrom(s: string, from: nat, start: nat) {
    && from <= start
    && ByteRangeAt(s, start)
    && forall p: nat :: from <= p < start ==> !ByteRangeAt(s, p)
  }

  /** `firstMatch(in:range:)` from position `from` on: the leftmost match. */
  function FindByteRange(s: string, from: nat): (r: Option<ByteRangeMatch>)
    ensures r.Some? ==>
      && from <= r.value.start
      && ByteRangeAt(s, r.value.start)
      && r.value.length == DigitsValue(LengthDigits(s, r.value.start))
      && r.value.offset == DigitsValue(OffsetDigits(s, r.value.start))
    decreases |s| - from
  {
    if from >= |s| then None
    else if ByteRangeAt(s, from) then
      Some(ByteRangeMatch(from,
        DigitsValue(LengthDigits(s, from)),
        DigitsValue(OffsetDigits(s, from))))
    else FindByteRange(s, from + 1)
  }

  /** None is found only when there is none. */
  lemma {:induction false} FindByteRangeNone(s: string, from: nat)
    requires FindByteRange(s, from).None?
    ensures NoByteRangeFrom(s, from)
    decreases |s| - from
  {
    if from < |s| {
      FindByteRangeNone(s, from + 1);
      forall p: nat | from <= p ensures !ByteRangeAt(s, p) {
        if p > from {
          assert from + 1 <= p;
        }
      }
    }
  }

  /** The match found is the leftmost one. */
  lemma {:induction false} FindByteRangeLeftmost(s: string, from: nat)
    requires FindByteRange(s, from).Some?
    ensures FirstByteRangeFrom(s, from, FindByteRange(s, from).value.start)
    decreases |s| - from
  {
    if !ByteRangeAt(s, from) {
      var start := FindByteRange(s, from).value.start;
      FindByteRangeLeftmost(s, from + 1);
      forall p: nat | from <= p < start ensures !ByteRangeAt(s, p) {
        if p > from {
          assert from + 1 <= p < start;
        }
      }
    }
  }

  // ---------------------------------------------------------------------
  // The tag fold of one flush
  // ---------------------------------------------------------------------

  /** One `URI` / `BYTERANGE` match of the MAP attribute regex. */
  function ApplyMapAttribute(f: TagFold, a: Attribute): (g: TagFold)
  {
    var v := TrimQuotes(a.value);
    if a.key == "URI" then f.(uri := v)
    else if a.key == "BYTERANGE" then
      f.(offset := if '@' in v then IntegerValue(AfterLast(v, '@')) else 0,
         length := IntegerValue(BeforeFirst(v, '@')))
    else f
  }

  function ApplyMapAttributes(f: TagFold, attrs: seq<Attribute>): TagFold
    decreases |attrs|
  {
    if attrs == [] then f
    else ApplyMapAttribute(ApplyMapAttributes(f, attrs[..|attrs| - 1]), attrs[|attrs| - 1])
  }

  function ApplyMapTag(f: TagFold, tag: string, base: Url, mapAttrs: AttributeMatcher): (g: TagFold)
    requires StartsWith(tag, MapPrefix)
  {
    var h := ApplyMapAttributes(f.(uri := "", offset := 0, length := 0), mapAttrs(tag[|MapPrefix|..]));
    var map' := if h.uri != "" then
        Some(EntryLocation(Resolve(base, h.uri), Some(ByteRange(h.offset, h.offset + h.length))))
      else h.initMap;
    h.(initMap := map', totalOffset := h.totalOffset + h.offset,
       trapped := h.trapped || (h.uri != "" && h.length < 0))
  }

  /** `#EXTINF:` — the leading `[0-9.]+` token after the prefix, when there is one. */
  function ExtinfToken(tag: string): (t: string)
    requires StartsWith(tag, ExtinfPrefix)
  {
    var rest := tag[|ExtinfPrefix|..];
    rest[..DecimalRun(rest)]
  }

  function ApplyTag(f: TagFold, tag: string, base: Url, mapAttrs: AttributeMatcher): TagFold
  {
    if StartsWith(tag, MapPrefix) then ApplyMapTag(f, tag, base, mapAttrs)
    else if StartsWith(tag, ExtinfPrefix) then
      var token := ExtinfToken(tag);
      if token != [] then f.(duration := DecimalValue(token)) else f
    else if StartsWith(tag, ByteRangePrefix) then
      match FindByteRange(tag[|ByteRangePrefix|..], 0)
      case Some(m) => f.(offset := m.offset, length := m.length)
      case None => f
    else f
  }

  /** `scanned.tags.forEach`, applied in document order. */
  function FoldTags(f: TagFold, tags: seq<string>, base: Url, mapAttrs: AttributeMatcher): TagFold
    decreases |tags|
  {
    if tags == [] then f
    else ApplyTag(FoldTags(f, tags[..|tags| - 1], base, mapAttrs), tags[|tags| - 1], base, mapAttrs)
  }

  /** The segment one flush appends, and the fold it was built from. */
  function FlushFold(st: ParserState, base: Url, mapAttrs: AttributeMatcher): TagFold
  {
    FoldTags(TagFold("", 0, 0, 0.0, st.initMap, st.totalOffset, false), st.scanned.tags, base, mapAttrs)
  }

  /** `offset = anyOffset == 0 ? totalOffset : anyOffset`. */
  function SegmentOffset(f: TagFold): int
  {
    if f.offset == 0 then f.totalOffset else f.offset
  }

  /** `_flushIfNeeded`: nothing at all happens while the pending value is
      empty; otherwise one segment is appended and the pending state resets. */
  function Flush(st: ParserState, base: Url, mapAttrs: AttributeMatcher): (st': ParserState)
  {
    if st.scanned.value == [] then st
    else
      var f := FlushFold(st, base, mapAttrs);
      var offset := SegmentOffset(f);
      var seg := Segment(
        EntryLocation(Resolve(base, st.scanned.value), Some(ByteRange(offset, offset + f.length))),
        f.duration, st.totalDuration, st.totalDuration + f.duration);
      ParserState(f.initMap, st.segments + [seg], offset + f.length, seg.until, EmptyScanned,
        st.trapped || f.trapped || f.length < 0)
  }

  /** One iteration of the scanning loop on a line that was read. */
  function Step(st: ParserState, line: string, base: Url, mapAttrs: AttributeMatcher): ParserState
  {
    if StartsWith(line, ExtPrefix) then st.(scanned := st.scanned.(tags := st.scanned.tags + [line]))
    else if line == [] then Flush(st, base, mapAttrs)
    else if !StartsWith(line, TagPrefix) then Flush(st.(scanned := st.scanned.(value := line)), base, mapAttrs)
    else st
  }

  /** The loop `while (scanner.canRead || scanned.isDirty)`. `isDirty` is
      `scanned == .empty`, so once the lines run out the final read (and its
      flush) only happens when nothing is pending. */
  function Run(st: ParserState, lines: seq<string>, base: Url, mapAttrs: AttributeMatcher): ParserState
    decreases |lines|
  {
    if lines == [] then
      if st.scanned == EmptyScanned then Flush(st, base, mapAttrs) else st
    else Run(Step(st, lines[0], base, mapAttrs), lines[1..], base, mapAttrs)
  }

  function AnyLineContains(lines: seq<string>, t: string): (r: bool)
    ensures r <==> exists i :: 0 <= i < |lines| && Contains(lines[i], t)
  {
    if lines == [] then false
    else Contains(lines[0], t) || AnyLineContains(lines[1..], t)
  }

  /** `FTMediaPlaylistParser.parse`: `nil` without an `#EXTINF:` anywhere;
      otherwise a trap exactly when some URI line's tag block builds a
      reversed range, and else an info whose ranges are all well formed. */
  function Parse(quality: int, lines: seq<string>, base: Url, mapAttrs: AttributeMatcher): (r: ParseResult)
    ensures r == Done(None) <==> !exists i :: 0 <= i < |lines| && Contains(lines[i], ExtinfPrefix)
    ensures r.Trap? <==>
      && (exists i :: 0 <= i < |lines| && Contains(lines[i], ExtinfPrefix))
      && SomeBlockTraps(TagBlocks(lines, []), mapAttrs)
    ensures r.Done? && r.info.Some? ==>
      && r.info.value.quality == quality && r.info.value.url == base
      && InfoOrdered(r.info.value.initMap, r.info.value.segments)
  {
    if !AnyLineContains(lines, ExtinfPrefix) then Done(None)
    else
      var st := Run(Initial, lines, base, mapAttrs);
      RunTraps(Initial, lines, base, mapAttrs);
      RunKeepsOrdered(Initial, lines, base, mapAttrs);
      if st.trapped then Trap
      else Done(Some(MediaPlaylistInfo(quality, base, st.initMap, st.segments)))
  }

  // ---------------------------------------------------------------------
  // Properties
  // ---------------------------------------------------------------------

  /** `segments[i].until == segments[i + 1].since` for every adjacent pair. */
  predicate Contiguous(segs: seq<Segment>) {
    forall i :: 0 <= i < |segs| - 1 ==> segs[i].until == segs[i + 1].since
  }

  /** Every duration is non-negative and `until == since + duration`. */
  predicate WellTimed(segs: seq<Segment>) {
    forall i :: 0 <= i < |segs| ==>
      segs[i].duration >= 0.0 && segs[i].until == segs[i].since + segs[i].duration
  }

  /** The timeline a media playlist's segment list forms. */
  predicate Timeline(segs: seq<Segment>) {
    && Contiguous(segs)
    && WellTimed(segs)
    && (segs != [] ==> segs[0].since == 0.0)
  }

  /** A URI line: neither empty nor starting with `#`. */
  predicate IsUriLine(line: string) {
    line != [] && !StartsWith(line, TagPrefix)
  }

  function UriLines(lines: seq<string>): (r: seq<string>)
    ensures |r| <= |lines|
  {
    if lines == [] then []
    else (if IsUriLine(lines[0]) then [lines[0]] else []) + UriLines(lines[1..])
  }

  /** What holds of the parser between two lines: no pending URI value, the
      segments so far form a timeline ending at `totalDuration`, and the
      running byte offset is the end of the last segment's range. */
  predicate Inv(st: ParserState) {
    && st.scanned.value == []
    && Timeline(st.segments)
    && (st.segments == [] ==> st.totalDuration == 0.0 && st.totalOffset == 0)
    && (st.segments != [] ==>
          && st.segments[|st.segments| - 1].until == st.totalDuration
          && st.segments[|st.segments| - 1].location.range.Some?
          && st.segments[|st.segments| - 1].location.range.value.upper == st.totalOffset)
  }

  lemma ExtImpliesTag(line: string)
    ensures StartsWith(line, ExtPrefix) ==> StartsWith(line, TagPrefix)
  {
    if StartsWith(line, ExtPrefix) {
      assert line[..1] == line[..4][..1];
    }
  }

  /** Durations come from `[0-9.]+` tokens, so the fold never produces a
      negative one. */
  lemma {:induction false} FoldDurationNonNegative(f: TagFold, tags: seq<string>, base: Url, mapAttrs: AttributeMatcher)
    requires f.duration >= 0.0
    ensures FoldTags(f, tags, base, mapAttrs).duration >= 0.0
    decreases |tags|
  {
    if tags != [] {
      FoldDurationNonNegative(f, tags[..|tags| - 1], base, mapAttrs);
      var g := FoldTags(f, tags[..|tags| - 1], base, mapAttrs);
      var tag := tags[|tags| - 1];
      if StartsWith(tag, MapPrefix) {
        MapAttributesKeepDuration(g.(uri := "", offset := 0, length := 0), mapAttrs(tag[|MapPrefix|..]));
      }
    }
  }

  lemma {:induction false} MapAttributesKeepDuration(f: TagFold, attrs: seq<Attribute>)
    ensures ApplyMapAttributes(f, attrs).duration == f.duration
    ensures ApplyMapAttributes(f, attrs).initMap == f.initMap
    ensures ApplyMapAttributes(f, attrs).totalOffset == f.totalOffset
    ensures ApplyMapAttributes(f, attrs).trapped == f.trapped
    decreases |attrs|
  {
    if attrs != [] {
      MapAttributesKeepDuration(f, attrs[..|attrs| - 1]);
    }
  }

  /** The only line that changes the segment list is a URI line, and it
      appends exactly one segment, resolved from that line, whose times
      continue the timeline. */
  lemma StepPreservesInv(st: ParserState, line: string, base: Url, mapAttrs: AttributeMatcher)
    requires Inv(st)
    ensures Inv(Step(st, line, base, mapAttrs))
    ensures IsUriLine(line) ==>
      && Step(st, line, base, mapAttrs).segments[..|st.segments|] == st.segments
      && |Step(st, line, base, mapAttrs).segments| == |st.segments| + 1
      && Step(st, line, base, mapAttrs).segments[|st.segments|].location.url == Resolve(base, line)
    ensures !IsUriLine(line) ==> Step(st, line, base, mapAttrs).segments == st.segments
  {
    ExtImpliesTag(line);
    var st' := Step(st, line, base, mapAttrs);
    if IsUriLine(line) {
      var pending := st.(scanned := st.scanned.(value := line));
      var f := FlushFold(pending, base, mapAttrs);
      FoldDurationNonNegative(TagFold("", 0, 0, 0.0, pending.initMap, pending.totalOffset, false), pending.scanned.tags, base, mapAttrs);
      assert st'.segments == st.segments + [st'.segments[|st.segments|]];
      assert st'.segments[..|st.segments|] == st.segments;
    }
  }

  /** Between lines the pending value is always empty, so an empty line or
      a comment line changes nothing and a `#EXT` line only queues itself:
      pending tags carry over to the next URI line. */
  lemma {:induction false} NonUriLinesOnlyQueueTags(st: ParserState, line: string, base: Url, mapAttrs: AttributeMatcher)
    requires Inv(st)
    requires !IsUriLine(line)
    ensures StartsWith(line, ExtPrefix) ==>
      Step(st, line, base, mapAttrs) == st.(scanned := Scanned(st.scanned.tags + [line], ""))
    ensures !StartsWith(line, ExtPrefix) ==> Step(st, line, base, mapAttrs) == st
  {
  }

  lemma {:induction false} RunKeepsInv(st: ParserState, lines: seq<string>, base: Url, mapAttrs: AttributeMatcher)
    requires Inv(st)
    ensures Inv(Run(st, lines, base, mapAttrs))
    decreases |lines|
  {
    if lines == [] {
      assert Run(st, lines, base, mapAttrs) == st by {
        assert Flush(st, base, mapAttrs) == st;
      }
    } else {
      StepPreservesInv(st, lines[0], base, mapAttrs);
      RunKeepsInv(Step(st, lines[0], base, mapAttrs), lines[1..], base, mapAttrs);
    }
  }

  /** The segments from `offset` on carry the URI lines' resolved URLs. */
  predicate UrlsFrom(segs: seq<Segment>, offset: nat, uris: seq<string>, base: Url) {
    && |segs| == offset + |uris|
    && forall k :: 0 <= k < |uris| ==> segs[offset + k].location.url == Resolve(base, uris[k])
  }

  lemma {:induction false} RunFacts(st: ParserState, lines: seq<string>, base: Url, mapAttrs: AttributeMatcher)
    requires Inv(st)
    ensures UrlsFrom(Run(st, lines, base, mapAttrs).segments, |st.segments|, UriLines(lines), base)
    ensures Run(st, lines, base, mapAttrs).segments[..|st.segments|] == st.segments
    decreases |lines|
  {
    var r := Run(st, lines, base, mapAttrs);
    if lines == [] {
      assert r == st by {
        assert Flush(st, base, mapAttrs) == st;
      }
      assert UriLines(lines) == [];
      assert r.segments[..|st.segments|] == st.segments;
    } else {
      var st1 := Step(st, lines[0], base, mapAttrs);
      StepPreservesInv(st, lines[0], base, mapAttrs);
      RunFacts(st1, lines[1..], base, mapAttrs);
      assert r == Run(st1, lines[1..], base, mapAttrs);
      if IsUriLine(lines[0]) {
        RunFactsUriStep(st.segments, st1.segments, lines, base, r.segments);
      } else {
        assert UriLines(lines) == UriLines(lines[1..]);
      }
    }
  }

  /** The step of `RunFacts` over a URI line: its segment comes first. */
  lemma RunFactsUriStep(before: seq<Segment>, after: seq<Segment>, lines: seq<string>, base: Url, segs: seq<Segment>)
    requires lines != [] && IsUriLine(lines[0])
    requires |after| == |before| + 1 && after[..|before|] == before
    requires after[|before|].location.url == Resolve(base, lines[0])
    requires UrlsFrom(segs, |after|, UriLines(lines[1..]), base) && segs[..|after|] == after
    ensures UrlsFrom(segs, |before|, UriLines(lines), base) && segs[..|before|] == before
  {
    var n := |before|;
    assert UriLines(lines) == [lines[0]] + UriLines(lines[1..]);
    assert segs[..n] == segs[..n + 1][..n];
    forall k | 0 <= k < |UriLines(lines)|
      ensures segs[n + k].location.url == Resolve(base, UriLines(lines)[k])
    {
      if k == 0 {
        assert segs[n] == segs[..n + 1][n] == after[n];
      } else {
        assert UriLines(lines)[k] == UriLines(lines[1..])[k - 1];
        assert segs[n + k] == segs[|after| + (k - 1)];
      }
    }
  }

  /** The segment list of a parsed media playlist: one segment per URI line,
      in document order, each resolved from its line, on a contiguous
      timeline that starts at 0. */
  lemma ParseSegments(quality: int, lines: seq<string>, base: Url, mapAttrs: AttributeMatcher)
    requires Parse(quality, lines, base, mapAttrs).Done? && Parse(quality, lines, base, mapAttrs).info.Some?
    ensures var segs := Parse(quality, lines, base, mapAttrs).info.value.segments;
      && |segs| == |UriLines(lines)|
      && (forall k :: 0 <= k < |segs| ==> segs[k].location.url == Resolve(base, UriLines(lines)[k]))
      && Timeline(segs)
  {
    RunKeepsInv(Initial, lines, base, mapAttrs);
    RunFacts(Initial, lines, base, mapAttrs);
  }

  // --- Byte ranges -------------------------------------------------------

  /** No tag of the block is a MAP tag. */
  predicate NoMapTag(tags: seq<string>) {
    forall i :: 0 <= i < |tags| ==> !StartsWith(tags[i], MapPrefix)
  }

  /** No BYTERANGE tag of the block carries a non-zero `@offset`. */
  predicate NoExplicitOffset(tags: seq<string>) {
    forall i :: 0 <= i < |tags| ==>
      StartsWith(tags[i], ByteRangePrefix) && !StartsWith(tags[i], MapPrefix) && !StartsWith(tags[i], ExtinfPrefix) ==>
        match FindByteRange(tags[i][|ByteRangePrefix|..], 0)
        case Some(m) => m.offset == 0
        case None => true
  }

  lemma {:induction false} FoldWithoutMapOrOffset(f: TagFold, tags: seq<string>, base: Url, mapAttrs: AttributeMatcher)
    requires f.offset == 0
    requires NoMapTag(tags) && NoExplicitOffset(tags)
    ensures FoldTags(f, tags, base, mapAttrs).offset == 0
    ensures FoldTags(f, tags, base, mapAttrs).totalOffset == f.totalOffset
    decreases |tags|
  {
    if tags != [] {
      FoldWithoutMapOrOffset(f, tags[..|tags| - 1], base, mapAttrs);
    }
  }

  /** Byte-range continuity: when the tags before a URI line hold no MAP tag
      and no non-zero explicit offset (an explicit `@0` counts as absent),
      the new segment's range starts where the previous segment's range
      ended, or at 0 for the first segment. */
  lemma ByteRangeContinuity(st: ParserState, line: string, base: Url, mapAttrs: AttributeMatcher)
    requires Inv(st) && IsUriLine(line)
    requires NoMapTag(st.scanned.tags) && NoExplicitOffset(st.scanned.tags)
    ensures var segs := Step(st, line, base, mapAttrs).segments;
      && segs[|segs| - 1].location.range.Some?
      && segs[|segs| - 1].location.range.value.lower ==
           (if st.segments == [] then 0 else st.segments[|st.segments| - 1].location.range.value.upper)
  {
    ExtImpliesTag(line);
    var pending := st.(scanned := st.scanned.(value := line));
    FoldWithoutMapOrOffset(TagFold("", 0, 0, 0.0, pending.initMap, pending.totalOffset, false), pending.scanned.tags, base, mapAttrs);
  }

  /** A URI line's segment: its range is `offset..<offset + length` with the
      explicit offset when non-zero and the running offset otherwise, and the
      running offset moves to the end of that range. Building it traps
      exactly when the block does; short of that, the range is not
      reversed. */
  lemma SegmentByteRange(st: ParserState, line: string, base: Url, mapAttrs: AttributeMatcher)
    requires Inv(st) && IsUriLine(line)
    ensures var f := FlushFold(st.(scanned := st.scanned.(value := line)), base, mapAttrs);
      var st' := Step(st, line, base, mapAttrs);
      var lower := if f.offset != 0 then f.offset else f.totalOffset;
      && st'.segments[|st'.segments| - 1].location.range == Some(ByteRange(lower, lower + f.length))
      && st'.totalOffset == lower + f.length
      && (st'.trapped <==> st.trapped || BlockTraps(st.scanned.tags, mapAttrs))
      && (!st'.trapped ==> lower <= lower + f.length)
  {
    ExtImpliesTag(line);
    FlushTraps(st.(scanned := st.scanned.(value := line)), base, mapAttrs);
  }

  /** The initialization segment a MAP tag names, when its URI attribute is
      non-empty; its byte range is `offset..<offset + length` of its own
      BYTERANGE attribute. */
  function MapLocation(tag: string, base: Url, mapAttrs: AttributeMatcher): Option<EntryLocation>
    requires StartsWith(tag, MapPrefix)
  {
    var h := ApplyMapAttributes(TagFold("", 0, 0, 0.0, None, 0, false), mapAttrs(tag[|MapPrefix|..]));
    if h.uri != "" then Some(EntryLocation(Resolve(base, h.uri), Some(ByteRange(h.offset, h.offset + h.length))))
    else None
  }

  /** The `@offset` of a MAP tag's BYTERANGE attribute (0 without one). */
  function MapOffset(tag: string, mapAttrs: AttributeMatcher): int
    requires StartsWith(tag, MapPrefix)
  {
    ApplyMapAttributes(TagFold("", 0, 0, 0.0, None, 0, false), mapAttrs(tag[|MapPrefix|..])).offset
  }

  /** The location of the last MAP tag with a non-empty URI, or `prior`. */
  function LastMap(tags: seq<string>, base: Url, mapAttrs: AttributeMatcher, prior: Option<EntryLocation>): Option<EntryLocation>
    decreases |tags|
  {
    if tags == [] then prior
    else
      var tag := tags[|tags| - 1];
      if StartsWith(tag, MapPrefix) && MapLocation(tag, base, mapAttrs).Some? then MapLocation(tag, base, mapAttrs)
      else LastMap(tags[..|tags| - 1], base, mapAttrs, prior)
  }

  /** Sum of the MAP offsets of a tag block. */
  function MapOffsets(tags: seq<string>, mapAttrs: AttributeMatcher): int
    decreases |tags|
  {
    if tags == [] then 0
    else
      var tag := tags[|tags| - 1];
      MapOffsets(tags[..|tags| - 1], mapAttrs) + (if StartsWith(tag, MapPrefix) then MapOffset(tag, mapAttrs) else 0)
  }

  /** The MAP attributes only ever touch the URI, offset and length, whatever
      fold they start from. */
  lemma {:induction false} MapAttributesIndependent(f: TagFold, g: TagFold, attrs: seq<Attribute>)
    requires f.uri == g.uri && f.offset == g.offset && f.length == g.length
    ensures ApplyMapAttributes(f, attrs).uri == ApplyMapAttributes(g, attrs).uri
    ensures ApplyMapAttributes(f, attrs).offset == ApplyMapAttributes(g, attrs).offset
    ensures ApplyMapAttributes(f, attrs).length == ApplyMapAttributes(g, attrs).length
    decreases |attrs|
  {
    if attrs != [] {
      MapAttributesIndependent(f, g, attrs[..|attrs| - 1]);
    }
  }

  /** Over one flush, `info.map` becomes the location of the last MAP tag with
      a non-empty URI (earlier value kept otherwise), and the running offset
      grows by the sum of the MAP tags' offsets, not their lengths. A MAP tag
      whose location would have a reversed range traps instead. */
  lemma {:induction false} FoldMapAndOffset(f: TagFold, tags: seq<string>, base: Url, mapAttrs: AttributeMatcher)
    ensures FoldTags(f, tags, base, mapAttrs).initMap == LastMap(tags, base, mapAttrs, f.initMap)
    ensures FoldTags(f, tags, base, mapAttrs).totalOffset == f.totalOffset + MapOffsets(tags, mapAttrs)
    ensures FoldTags(f, tags, base, mapAttrs).trapped <==> f.trapped || SomeMapTraps(tags, mapAttrs)
    decreases |tags|
  {
    FoldTrapAndLength(f, tags, base, mapAttrs);
    if tags != [] {
      var front := tags[..|tags| - 1];
      var tag := tags[|tags| - 1];
      FoldMapAndOffset(f, front, base, mapAttrs);
      var g := FoldTags(f, front, base, mapAttrs);
      assert FoldTags(f, tags, base, mapAttrs) == ApplyTag(g, tag, base, mapAttrs);
      ApplyTagMapAndOffset(g, tag, base, mapAttrs);
    }
  }

  /** One tag of the fold: a MAP tag sets the map when its location exists
      and adds its offset; no other tag touches either. */
  lemma ApplyTagMapAndOffset(g: TagFold, tag: string, base: Url, mapAttrs: AttributeMatcher)
    ensures var h := ApplyTag(g, tag, base, mapAttrs);
      && h.initMap == (if StartsWith(tag, MapPrefix) && MapLocation(tag, base, mapAttrs).Some? then MapLocation(tag, base, mapAttrs) else g.initMap)
      && h.totalOffset == g.totalOffset + (if StartsWith(tag, MapPrefix) then MapOffset(tag, mapAttrs) else 0)
  {
    if StartsWith(tag, MapPrefix) {
      var attrs := mapAttrs(tag[|MapPrefix|..]);
      var start := g.(uri := "", offset := 0, length := 0);
      MapAttributesIndependent(start, TagFold("", 0, 0, 0.0, None, 0, false), attrs);
      MapAttributesKeepDuration(start, attrs);
    }
  }

  // ---------------------------------------------------------------------
  // Durations
  // ---------------------------------------------------------------------

  /** The duration the last `#EXTINF:` tag with a `[0-9.]+` token gives, or
      `prior` when there is none. */
  function LastExtinfDuration(tags: seq<string>, prior: real): real
    decreases |tags|
  {
    if tags == [] then prior
    else
      var tag := tags[|tags| - 1];
      if StartsWith(tag, ExtinfPrefix) && ExtinfToken(tag) != [] then DecimalValue(ExtinfToken(tag))
      else LastExtinfDuration(tags[..|tags| - 1], prior)
  }

  /** `#EXT-X-MAP:` and `#EXTINF:` differ at their fifth character. */
  lemma MapIsNotExtinf(tag: string)
    ensures StartsWith(tag, MapPrefix) ==> !StartsWith(tag, ExtinfPrefix)
  {
    if StartsWith(tag, MapPrefix) {
      assert tag[4] == tag[..|MapPrefix|][4] == '-';
    }
  }

  /** A segment's duration is the leading `[0-9.]+` token of its last
      `#EXTINF:` tag; with no such token it keeps the flush's initial 0. */
  lemma {:induction false} FoldDuration(f: TagFold, tags: seq<string>, base: Url, mapAttrs: AttributeMatcher)
    ensures FoldTags(f, tags, base, mapAttrs).duration == LastExtinfDuration(tags, f.duration)
    decreases |tags|
  {
    if tags != [] {
      FoldDuration(f, tags[..|tags| - 1], base, mapAttrs);
      var g := FoldTags(f, tags[..|tags| - 1], base, mapAttrs);
      var tag := tags[|tags| - 1];
      MapIsNotExtinf(tag);
      if StartsWith(tag, MapPrefix) {
        MapAttributesKeepDuration(g.(uri := "", offset := 0, length := 0), mapAttrs(tag[|MapPrefix|..]));
      }
    }
  }

  /** The segment a flush appends lasts as its last `#EXTINF:` token says. */
  lemma SegmentDuration(st: ParserState, base: Url, mapAttrs: AttributeMatcher)
    requires st.scanned.value != []
    ensures var st' := Flush(st, base, mapAttrs);
      && st'.segments[|st'.segments| - 1].duration == LastExtinfDuration(st.scanned.tags, 0.0)
      && st'.segments[|st'.segments| - 1].since == st.totalDuration
  {
    FoldDuration(TagFold("", 0, 0, 0.0, st.initMap, st.totalOffset, false), st.scanned.tags, base, mapAttrs);
  }

  // ---------------------------------------------------------------------
  // Traps
  // ---------------------------------------------------------------------

  /** The fold of a MAP tag's own attributes, from a reset state. */
  function MapFold(tag: string, mapAttrs: AttributeMatcher): TagFold
    requires StartsWith(tag, MapPrefix)
  {
    ApplyMapAttributes(TagFold("", 0, 0, 0.0, None, 0, false), mapAttrs(tag[|MapPrefix|..]))
  }

  /** A MAP tag whose `offset..<offset + length` is built and reversed: a
      non-empty URI with a negative length. */
  predicate MapTraps(tag: string, mapAttrs: AttributeMatcher)
    requires StartsWith(tag, MapPrefix)
  {
    MapFold(tag, mapAttrs).uri != "" && MapFold(tag, mapAttrs).length < 0
  }

  /** The length the last MAP tag or matched BYTERANGE tag of a block sets,
      or `prior` when there is none. A BYTERANGE length is a digit string,
      so only a MAP tag can leave a negative one. */
  function LastLength(tags: seq<string>, mapAttrs: AttributeMatcher, prior: int): int
    decreases |tags|
  {
    if tags == [] then prior
    else
      var tag := tags[|tags| - 1];
      if StartsWith(tag, MapPrefix) then MapFold(tag, mapAttrs).length
      else if !StartsWith(tag, ExtinfPrefix) && StartsWith(tag, ByteRangePrefix)
           && FindByteRange(tag[|ByteRangePrefix|..], 0).Some? then
        FindByteRange(tag[|ByteRangePrefix|..], 0).value.length
      else LastLength(tags[..|tags| - 1], mapAttrs, prior)
  }

  /** Some MAP tag of the block traps. */
  predicate SomeMapTraps(tags: seq<string>, mapAttrs: AttributeMatcher) {
    exists j :: 0 <= j < |tags| && StartsWith(tags[j], MapPrefix) && MapTraps(tags[j], mapAttrs)
  }

  /** Flushing a block traps: at a MAP tag (`map = …(range: offset..<offset
      + length)`), or at the segment, whose length is the block's last one. */
  predicate BlockTraps(tags: seq<string>, mapAttrs: AttributeMatcher) {
    SomeMapTraps(tags, mapAttrs) || LastLength(tags, mapAttrs, 0) < 0
  }

  /** The `#EXT` lines pending at each URI line, in document order: the
      blocks that reach a flush. Empty lines and other comments add nothing,
      and tags after the last URI line never reach one. */
  function TagBlocks(lines: seq<string>, pending: seq<string>): (r: seq<seq<string>>)
    ensures |r| == |UriLines(lines)|
    decreases |lines|
  {
    if lines == [] then []
    else if StartsWith(lines[0], ExtPrefix) then
      ExtImpliesTag(lines[0]);
      TagBlocks(lines[1..], pending + [lines[0]])
    else if IsUriLine(lines[0]) then [pending] + TagBlocks(lines[1..], [])
    else TagBlocks(lines[1..], pending)
  }

  predicate SomeBlockTraps(blocks: seq<seq<string>>, mapAttrs: AttributeMatcher) {
    exists k :: 0 <= k < |blocks| && BlockTraps(blocks[k], mapAttrs)
  }

  /** One tag: a MAP tag traps when `MapTraps` says so and sets the length
      of its own BYTERANGE attribute; a matched BYTERANGE tag sets its
      length; nothing else touches either. */
  lemma ApplyTagTrapAndLength(g: TagFold, tag: string, base: Url, mapAttrs: AttributeMatcher)
    ensures var h := ApplyTag(g, tag, base, mapAttrs);
      && (h.trapped <==> g.trapped || (StartsWith(tag, MapPrefix) && MapTraps(tag, mapAttrs)))
      && h.length == LastLength([tag], mapAttrs, g.length)
  {
    if StartsWith(tag, MapPrefix) {
      ApplyMapTagTrapAndLength(g, tag, base, mapAttrs);
    } else {
      ApplyOtherTagTrapAndLength(g, tag, base, mapAttrs);
    }
  }

  lemma ApplyMapTagTrapAndLength(g: TagFold, tag: string, base: Url, mapAttrs: AttributeMatcher)
    requires StartsWith(tag, MapPrefix)
    ensures var h := ApplyTag(g, tag, base, mapAttrs);
      && (h.trapped <==> g.trapped || MapTraps(tag, mapAttrs))
      && h.length == LastLength([tag], mapAttrs, g.length)
  {
    var attrs := mapAttrs(tag[|MapPrefix|..]);
    var start := g.(uri := "", offset := 0, length := 0);
    MapAttributesIndependent(start, TagFold("", 0, 0, 0.0, None, 0, false), attrs);
    MapAttributesKeepDuration(start, attrs);
  }

  lemma ApplyOtherTagTrapAndLength(g: TagFold, tag: string, base: Url, mapAttrs: AttributeMatcher)
    requires !StartsWith(tag, MapPrefix)
    ensures var h := ApplyTag(g, tag, base, mapAttrs);
      && h.trapped == g.trapped
      && h.length == LastLength([tag], mapAttrs, g.length)
  {
    assert [tag][..0] == [];
  }

  /** Over a block the fold traps exactly at a trapping MAP tag, and its
      final length is the block's last one. */
  lemma {:induction false} FoldTrapAndLength(f: TagFold, tags: seq<string>, base: Url, mapAttrs: AttributeMatcher)
    ensures FoldTags(f, tags, base, mapAttrs).trapped <==> f.trapped || SomeMapTraps(tags, mapAttrs)
    ensures FoldTags(f, tags, base, mapAttrs).length == LastLength(tags, mapAttrs, f.length)
    decreases |tags|
  {
    if tags != [] {
      var front := tags[..|tags| - 1];
      var tag := tags[|tags| - 1];
      FoldTrapAndLength(f, front, base, mapAttrs);
      var g := FoldTags(f, front, base, mapAttrs);
      ApplyTagTrapAndLength(g, tag, base, mapAttrs);
      assert [tag][..0] == [];
      SomeMapTrapsSnoc(tags, mapAttrs);
    }
  }

  lemma SomeMapTrapsSnoc(tags: seq<string>, mapAttrs: AttributeMatcher)
    requires tags != []
    ensures var tag := tags[|tags| - 1];
      SomeMapTraps(tags, mapAttrs) <==>
        SomeMapTraps(tags[..|tags| - 1], mapAttrs) || (StartsWith(tag, MapPrefix) && MapTraps(tag, mapAttrs))
  {
    var front := tags[..|tags| - 1];
    var tag := tags[|tags| - 1];
    assert forall j :: 0 <= j < |front| ==> front[j] == tags[j];
    if StartsWith(tag, MapPrefix) && MapTraps(tag, mapAttrs) {
      assert tags[|tags| - 1] == tag;
    }
  }

  /** A flush traps exactly when its block does. */
  lemma FlushTraps(st: ParserState, base: Url, mapAttrs: AttributeMatcher)
    requires st.scanned.value != []
    ensures Flush(st, base, mapAttrs).trapped <==> st.trapped || BlockTraps(st.scanned.tags, mapAttrs)
  {
    FoldTrapAndLength(TagFold("", 0, 0, 0.0, st.initMap, st.totalOffset, false), st.scanned.tags, base, mapAttrs);
  }

  /** The loop traps exactly when one of the blocks that reach a URI line
      does; a trap, once reached, is kept. */
  lemma {:induction false} RunTraps(st: ParserState, lines: seq<string>, base: Url, mapAttrs: AttributeMatcher)
    requires Inv(st)
    ensures Run(st, lines, base, mapAttrs).trapped <==>
      st.trapped || SomeBlockTraps(TagBlocks(lines, st.scanned.tags), mapAttrs)
    decreases |lines|
  {
    if lines == [] {
      assert Flush(st, base, mapAttrs) == st;
    } else {
      var line := lines[0];
      var st1 := Step(st, line, base, mapAttrs);
      StepPreservesInv(st, line, base, mapAttrs);
      RunTraps(st1, lines[1..], base, mapAttrs);
      ExtImpliesTag(line);
      if StartsWith(line, ExtPrefix) {
        assert st1.scanned.tags == st.scanned.tags + [line] && st1.trapped == st.trapped;
      } else if IsUriLine(line) {
        FlushTraps(st.(scanned := st.scanned.(value := line)), base, mapAttrs);
        var rest := TagBlocks(lines[1..], []);
        assert TagBlocks(lines, st.scanned.tags) == [st.scanned.tags] + rest;
        assert st1.scanned == EmptyScanned;
        SomeBlockTrapsCons(st.scanned.tags, rest, mapAttrs);
      } else {
        NonUriLinesOnlyQueueTags(st, line, base, mapAttrs);
      }
    }
  }

  lemma SomeBlockTrapsCons(block: seq<string>, rest: seq<seq<string>>, mapAttrs: AttributeMatcher)
    ensures SomeBlockTraps([block] + rest, mapAttrs) <==>
      BlockTraps(block, mapAttrs) || SomeBlockTraps(rest, mapAttrs)
  {
    var all := [block] + rest;
    assert all[0] == block;
    assert forall k :: 0 <= k < |rest| ==> all[k + 1] == rest[k];
    if SomeBlockTraps(all, mapAttrs) && !BlockTraps(block, mapAttrs) {
      var k :| 0 <= k < |all| && BlockTraps(all[k], mapAttrs);
      assert rest[k - 1] == all[k];
    }
  }

  /** A location whose range, when it has one, is not reversed. */
  predicate LocationOrdered(loc: EntryLocation) {
    loc.range.Some? ==> loc.range.value.lower <= loc.range.value.upper
  }

  /** Every range of an info is a valid Swift `Range`. */
  predicate InfoOrdered(initMap: Option<EntryLocation>, segs: seq<Segment>) {
    && (initMap.Some? ==> LocationOrdered(initMap.value))
    && forall i :: 0 <= i < |segs| ==> LocationOrdered(segs[i].location)
  }

  /** Short of a trap, the fold builds only valid ranges. */
  lemma {:induction false} FoldKeepsMapOrdered(f: TagFold, tags: seq<string>, base: Url, mapAttrs: AttributeMatcher)
    requires !f.trapped ==> f.initMap.Some? ==> LocationOrdered(f.initMap.value)
    ensures var g := FoldTags(f, tags, base, mapAttrs);
      !g.trapped ==> g.initMap.Some? ==> LocationOrdered(g.initMap.value)
    decreases |tags|
  {
    if tags != [] {
      var front := tags[..|tags| - 1];
      var tag := tags[|tags| - 1];
      FoldKeepsMapOrdered(f, front, base, mapAttrs);
      if StartsWith(tag, MapPrefix) {
        var g := FoldTags(f, front, base, mapAttrs);
        MapAttributesKeepDuration(g.(uri := "", offset := 0, length := 0), mapAttrs(tag[|MapPrefix|..]));
      }
    }
  }

  /** Short of a trap, every range the loop has built is valid. */
  lemma {:induction false} RunKeepsOrdered(st: ParserState, lines: seq<string>, base: Url, mapAttrs: AttributeMatcher)
    requires !st.trapped ==> InfoOrdered(st.initMap, st.segments)
    ensures var r := Run(st, lines, base, mapAttrs);
      !r.trapped ==> InfoOrdered(r.initMap, r.segments)
    decreases |lines|
  {
    if lines == [] {
      if st.scanned == EmptyScanned {
        assert Flush(st, base, mapAttrs) == st;
      }
    } else {
      StepKeepsOrdered(st, lines[0], base, mapAttrs);
      RunKeepsOrdered(Step(st, lines[0], base, mapAttrs), lines[1..], base, mapAttrs);
    }
  }

  lemma StepKeepsOrdered(st: ParserState, line: string, base: Url, mapAttrs: AttributeMatcher)
    requires !st.trapped ==> InfoOrdered(st.initMap, st.segments)
    ensures var r := Step(st, line, base, mapAttrs);
      !r.trapped ==> InfoOrdered(r.initMap, r.segments)
  {
    var pending := if StartsWith(line, ExtPrefix) || line == [] || StartsWith(line, TagPrefix) then st
      else st.(scanned := st.scanned.(value := line));
    if !st.trapped && pending.scanned.value != [] && !StartsWith(line, ExtPrefix) && (line == [] || !StartsWith(line, TagPrefix)) {
      var f := FlushFold(pending, base, mapAttrs);
      FoldKeepsMapOrdered(TagFold("", 0, 0, 0.0, pending.initMap, pending.totalOffset, false), pending.scanned.tags, base, mapAttrs);
      var r := Flush(pending, base, mapAttrs);
      if !r.trapped {
        assert r.segments == st.segments + [r.segments[|st.segments|]];
        forall i | 0 <= i < |r.segments| ensures LocationOrdered(r.segments[i].location) {
          if i < |st.segments| {
            assert r.segments[i] == st.segments[i];
          }
        }
      }
    }
  }
}
