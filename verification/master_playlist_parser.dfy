/**
 The master-playlist parser: `#EXT-X-STREAM-INF` attribute lists become
 streams, which are then sorted with the comparator
 `a.bandWidth < b.bandWidth || a.pixelHeight < b.pixelHeight`.
 */
module MasterPlaylistParser {
  import opened Basics
  import opened Text

  const TagPrefix := "#"
  const ExtPrefix := "#EXT"
  const StreamInfPrefix := "#EXT-X-STREAM-INF:"

  datatype Stream = Stream(bandWidth: int, codecs: string, pixelWidth: int, pixelHeight: int, url: Url)

  /** Tags seen since the last flush, and the pending URI line. */
  datatype Scanned = Scanned(tags: seq<string>, value: string)

  const EmptyScanned := Scanned([], "")

  datatype ParserState = ParserState(streams: seq<Stream>, scanned: Scanned)

  const Initial := ParserState([], EmptyScanned)

  /** The four locals one STREAM-INF tag's attributes are folded into. */
  datatype StreamFields = StreamFields(bandwidth: int, codecs: string, pixelWidth: int, pixelHeight: int)

  const DefaultFields := StreamFields(0, "", 0, 0)

  // ---------------------------------------------------------------------
  // Attribute extraction
  // ---------------------------------------------------------------------

  /** One match: the key is lower-cased and the value stripped of quotes. */
  function ApplyAttribute(f: StreamFields, a: Attribute): StreamFields
  {
    var key := Lowercase(a.key);
    var value := TrimQuotes(a.value);
    if key == "bandwidth" then f.(bandwidth := IntegerValue(value))
    else if key == "codecs" then f.(codecs := value)
    else if key == "resolution" then
      f.(pixelWidth := IntegerValue(BeforeFirst(value, 'x')),
         pixelHeight := IntegerValue(AfterLast(value, 'x')))
    else f
  }

  /** `for match in matches`, in order. */
  function ExtractFields(attrs: seq<Attribute>): StreamFields
    decreases |attrs|
  {
    if attrs == [] then DefaultFields
    else ApplyAttribute(ExtractFields(attrs[..|attrs| - 1]), attrs[|attrs| - 1])
  }

  /** The quote-trimmed value of the last attribute whose lower-cased key is
      `key`. */
  function LastValue(attrs: seq<Attribute>, key: string): Option<string>
    decreases |attrs|
  {
    if attrs == [] then None
    else if Lowercase(attrs[|attrs| - 1].key) == key then Some(TrimQuotes(attrs[|attrs| - 1].value))
    else LastValue(attrs[..|attrs| - 1], key)
  }

  /** Attribute extraction: keys match case-insensitively, the last of
      duplicate attributes wins, unknown keys are ignored, and absent ones
      leave 0 or "". BANDWIDTH is read as an integer, CODECS verbatim, and
      RESOLUTION gives the width before its first `x` and the height after its
      last `x`. */
  lemma {:induction false} ExtractFieldsLastWins(attrs: seq<Attribute>)
    ensures ExtractFields(attrs).bandwidth == IntegerValue(LastValue(attrs, "bandwidth").GetOr(""))
    ensures ExtractFields(attrs).codecs == LastValue(attrs, "codecs").GetOr("")
    ensures ExtractFields(attrs).pixelWidth ==
      (match LastValue(attrs, "resolution") case Some(v) => IntegerValue(BeforeFirst(v, 'x')) case None => 0)
    ensures ExtractFields(attrs).pixelHeight ==
      (match LastValue(attrs, "resolution") case Some(v) => IntegerValue(AfterLast(v, 'x')) case None => 0)
    decreases |attrs|
  {
    if attrs != [] {
      ExtractFieldsLastWins(attrs[..|attrs| - 1]);
    }
  }

  // ---------------------------------------------------------------------
  // The scanning loop
  // ---------------------------------------------------------------------

  predicate IsStreamInf(tag: string) { StartsWith(tag, StreamInfPrefix) }

  /** The streams the STREAM-INF tags of one flush emit, all with the
      pending value as their URL, even when it is empty. */
  function FlushTags(tags: seq<string>, value: string, base: Url, attrs: AttributeMatcher): seq<Stream>
    decreases |tags|
  {
    if tags == [] then []
    else
      var tag := tags[0];
      var emitted := if IsStreamInf(tag) then
          var f := ExtractFields(attrs(tag[|StreamInfPrefix|..]));
          [Stream(f.bandwidth, f.codecs, f.pixelWidth, f.pixelHeight, Resolve(base, value))]
        else [];
      emitted + FlushTags(tags[1..], value, base, attrs)
  }

  /** `_flushIfNeeded`: emit, then reset the pending state. */
  function Flush(st: ParserState, base: Url, attrs: AttributeMatcher): ParserState
  {
    ParserState(st.streams + FlushTags(st.scanned.tags, st.scanned.value, base, attrs), EmptyScanned)
  }

  /** One iteration of the scanning loop on a line that was read: a `#EXT`
      line flushes before it is queued, an empty line flushes, a URI line
      only becomes the pending value, and a comment is ignored. */
  function Step(st: ParserState, line: string, base: Url, attrs: AttributeMatcher): ParserState
  {
    if StartsWith(line, ExtPrefix) then
      var st1 := Flush(st, base, attrs);
      st1.(scanned := st1.scanned.(tags := st1.scanned.tags + [line]))
    else if line == [] then Flush(st, base, attrs)
    else if !StartsWith(line, TagPrefix) then st.(scanned := st.scanned.(value := line))
    else st
  }

  /** The loop `while (scanner.canRead || scanned.isDirty)`, where `isDirty`
      is `scanned == .empty`: when the lines run out with something pending
      the loop exits without the final flush. */
  function Run(st: ParserState, lines: seq<string>, base: Url, attrs: AttributeMatcher): ParserState
    decreases |lines|
  {
    if lines == [] then
      if st.scanned == EmptyScanned then Flush(st, base, attrs) else st
    else Run(Step(st, lines[0], base, attrs), lines[1..], base, attrs)
  }

  /** `FTMasterPlaylistParser.parse`. */
  function Parse(lines: seq<string>, base: Url, attrs: AttributeMatcher): seq<Stream>
  {
    SortStreams(Run(Initial, lines, base, attrs).streams)
  }

  // ---------------------------------------------------------------------
  // The sort
  // ---------------------------------------------------------------------

  /** The comparator handed to `sort(by:)`. */
  predicate Lt(a: Stream, b: Stream) {
    a.bandWidth < b.bandWidth || a.pixelHeight < b.pixelHeight
  }

  /** Insertion of `x` at the end, moved left while it compares below its
      left neighbour. */
  function Insert(sorted: seq<Stream>, x: Stream): (r: seq<Stream>)
    ensures multiset(r) == multiset(sorted) + multiset{x}
    decreases |sorted|
  {
    if sorted == [] then [x]
    else if Lt(x, sorted[|sorted| - 1]) then
      var front := sorted[..|sorted| - 1];
      assert sorted == front + [sorted[|sorted| - 1]];
      Insert(front, x) + [sorted[|sorted| - 1]]
    else sorted + [x]
  }

  /** The sort, as insertion sort with the same comparator. */
  function SortStreams(s: seq<Stream>): (r: seq<Stream>)
    ensures multiset(r) == multiset(s)
    ensures |r| == |s|
    decreases |s|
  {
    if s == [] then []
    else
      assert s == s[..|s| - 1] + [s[|s| - 1]];
      var r := Insert(SortStreams(s[..|s| - 1]), s[|s| - 1]);
      assert |r| == |multiset(r)| == |multiset(s)| == |s|;
      r
  }

  /** Both bandwidth and height are no larger. */
  predicate Le(a: Stream, b: Stream) {
    a.bandWidth <= b.bandWidth && a.pixelHeight <= b.pixelHeight
  }

  predicate Sorted(s: seq<Stream>) {
    forall i, j :: 0 <= i < j < |s| ==> Le(s[i], s[j])
  }

  /** Every two streams agree on which has the larger bandwidth and height:
      the one condition under which the comparator is a strict weak order. */
  predicate Chain(s: seq<Stream>) {
    forall i, j :: 0 <= i < |s| && 0 <= j < |s| ==> Le(s[i], s[j]) || Le(s[j], s[i])
  }

  lemma {:induction false} InsertSorted(s: seq<Stream>, x: Stream)
    requires Sorted(s)
    requires forall i :: 0 <= i < |s| ==> Le(s[i], x) || Le(x, s[i])
    ensures Sorted(Insert(s, x))
    decreases |s|
  {
    if s != [] {
      var last := s[|s| - 1];
      var front := s[..|s| - 1];
      if Lt(x, last) {
        assert Le(x, last);
        InsertSorted(front, x);
        var r := Insert(front, x);
        forall k | 0 <= k < |r| ensures Le(r[k], last) {
          assert r[k] in multiset(r);
          assert r[k] in multiset(front) || r[k] == x;
          if r[k] != x {
            var i :| 0 <= i < |front| && front[i] == r[k];
            assert Le(s[i], s[|s| - 1]);
          }
        }
      } else {
        assert Le(last, x);
        forall i | 0 <= i < |s| ensures Le(s[i], x) {
          if i < |s| - 1 { assert Le(s[i], last); }
        }
      }
    }
  }

  /** When the streams form a chain (no two disagree on bandwidth versus
      height), the sorted list is non-decreasing in both bandwidth and
      height. */
  lemma {:induction false} SortStreamsSorted(s: seq<Stream>)
    requires Chain(s)
    ensures Sorted(SortStreams(s))
    decreases |s|
  {
    if s != [] {
      var front := s[..|s| - 1];
      var x := s[|s| - 1];
      assert Chain(front) by {
        forall i, j | 0 <= i < |front| && 0 <= j < |front| ensures Le(front[i], front[j]) || Le(front[j], front[i]) {
          assert front[i] == s[i] && front[j] == s[j];
        }
      }
      SortStreamsSorted(front);
      var sf := SortStreams(front);
      forall k | 0 <= k < |sf| ensures Le(sf[k], x) || Le(x, sf[k]) {
        assert sf[k] in multiset(front);
        var i :| 0 <= i < |front| && front[i] == sf[k];
        assert s[i] == sf[k];
      }
      InsertSorted(sf, x);
    }
  }

  /** The comparator is irreflexive. */
  lemma LtIrreflexive(a: Stream)
    ensures !Lt(a, a)
  {
  }

  /** It is not asymmetric: a stream with the larger bandwidth but the smaller
      height compares below the other and the other below it; the sort then
      puts the higher-bandwidth stream first. */
  lemma LtNotAsymmetric()
    ensures var a := Stream(800000, "", 0, 720, Remote("a"));
      var b := Stream(2500000, "", 0, 360, Remote("b"));
      && Lt(a, b) && Lt(b, a)
      && SortStreams([a, b]) == [b, a]
  {
    var a := Stream(800000, "", 0, 720, Remote("a"));
    var b := Stream(2500000, "", 0, 360, Remote("b"));
    assert [a, b][..1] == [a];
    assert SortStreams([a]) == [a] by { assert [a][..0] == []; }
  }

  // ---------------------------------------------------------------------
  // Properties of the loop
  // ---------------------------------------------------------------------

  /** A line that flushes: a `#EXT` line or an empty line. */
  predicate IsFlushPoint(line: string) {
    StartsWith(line, ExtPrefix) || line == []
  }

  function HasFlushPoint(lines: seq<string>): (r: bool)
    ensures r <==> exists j :: 0 <= j < |lines| && IsFlushPoint(lines[j])
  {
    if lines == [] then false else IsFlushPoint(lines[0]) || HasFlushPoint(lines[1..])
  }

  /** Number of STREAM-INF lines followed, somewhere later, by a line that
      flushes them. */
  function FlushedStreamInfs(lines: seq<string>): nat
  {
    if lines == [] then 0
    else (if IsStreamInf(lines[0]) && HasFlushPoint(lines[1..]) then 1 else 0) + FlushedStreamInfs(lines[1..])
  }

  function CountStreamInfs(tags: seq<string>): nat
  {
    if tags == [] then 0 else (if IsStreamInf(tags[0]) then 1 else 0) + CountStreamInfs(tags[1..])
  }

  lemma {:induction false} FlushTagsCount(tags: seq<string>, value: string, base: Url, attrs: AttributeMatcher)
    ensures |FlushTags(tags, value, base, attrs)| == CountStreamInfs(tags)
    ensures forall k :: 0 <= k < |FlushTags(tags, value, base, attrs)| ==>
      FlushTags(tags, value, base, attrs)[k].url == Resolve(base, value)
    decreases |tags|
  {
    if tags != [] {
      FlushTagsCount(tags[1..], value, base, attrs);
    }
  }

  /** A STREAM-INF line is a `#EXT` line. */
  lemma StreamInfIsExt(line: string)
    ensures IsStreamInf(line) ==> StartsWith(line, ExtPrefix)
  {
    if IsStreamInf(line) {
      assert line[..|ExtPrefix|] == line[..|StreamInfPrefix|][..|ExtPrefix|];
    }
  }

  lemma {:induction false} RunCount(st: ParserState, lines: seq<string>, base: Url, attrs: AttributeMatcher)
    ensures var r := Run(st, lines, base, attrs);
      && |r.streams| == |st.streams| + (if HasFlushPoint(lines) then CountStreamInfs(st.scanned.tags) else 0)
                        + FlushedStreamInfs(lines)
      && r.streams[..|st.streams|] == st.streams
    decreases |lines|
  {
    if lines == [] {
      FlushTagsCount(st.scanned.tags, st.scanned.value, base, attrs);
    } else {
      var line := lines[0];
      var st1 := Step(st, line, base, attrs);
      RunCount(st1, lines[1..], base, attrs);
      FlushTagsCount(st.scanned.tags, st.scanned.value, base, attrs);
      assert HasFlushPoint(lines) == (IsFlushPoint(line) || HasFlushPoint(lines[1..]));
      assert FlushedStreamInfs(lines) ==
        (if IsStreamInf(line) && HasFlushPoint(lines[1..]) then 1 else 0) + FlushedStreamInfs(lines[1..]);
      if StartsWith(line, ExtPrefix) {
        assert EmptyScanned.tags + [line] == [line];
        assert st1.scanned.tags == [line];
        assert CountStreamInfs([line]) == (if IsStreamInf(line) then 1 else 0) + CountStreamInfs([]);
        assert |st1.streams| == |st.streams| + CountStreamInfs(st.scanned.tags);
      } else if line == [] {
        StreamInfIsExt(line);
        assert st1.scanned.tags == [];
        assert |st1.streams| == |st.streams| + CountStreamInfs(st.scanned.tags);
      } else {
        assert !IsFlushPoint(line);
        StreamInfIsExt(line);
        assert st1.scanned.tags == st.scanned.tags && st1.streams == st.streams;
      }
      var r := Run(st1, lines[1..], base, attrs);
      assert r.streams[..|st.streams|] == r.streams[..|st1.streams|][..|st.streams|];
    }
  }

  /** The number of streams a master playlist yields: one per STREAM-INF tag
      that a later `#EXT` line or empty line flushes. A STREAM-INF tag still
      pending when the lines run out is lost. */
  lemma ParseCount(lines: seq<string>, base: Url, attrs: AttributeMatcher)
    ensures |Parse(lines, base, attrs)| == FlushedStreamInfs(lines)
  {
    RunCount(Initial, lines, base, attrs);
  }

  /** Since every `#EXT` line flushes before it is queued, at most one tag is
      ever pending, so each line adds at most one stream. */
  lemma StepKeepsOneTag(st: ParserState, line: string, base: Url, attrs: AttributeMatcher)
    requires |st.scanned.tags| <= 1
    ensures |Step(st, line, base, attrs).scanned.tags| <= 1
    ensures |st.streams| <= |Step(st, line, base, attrs).streams| <= |st.streams| + 1
  {
    FlushTagsCount(st.scanned.tags, st.scanned.value, base, attrs);
    if st.scanned.tags != [] {
      assert st.scanned.tags[1..] == [];
    }
  }

  lemma {:induction false} RunKeepsOneTag(st: ParserState, lines: seq<string>, base: Url, attrs: AttributeMatcher)
    requires |st.scanned.tags| <= 1
    ensures |Run(st, lines, base, attrs).scanned.tags| <= 1
    ensures |Run(st, lines, base, attrs).streams| <= |st.streams| + |lines| + 1
    decreases |lines|
  {
    if lines == [] {
      FlushTagsCount(st.scanned.tags, st.scanned.value, base, attrs);
      if st.scanned.tags != [] {
        assert st.scanned.tags[1..] == [];
      }
    } else {
      StepKeepsOneTag(st, lines[0], base, attrs);
      RunKeepsOneTag(Step(st, lines[0], base, attrs), lines[1..], base, attrs);
    }
  }
}
