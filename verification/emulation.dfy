/**
 Removal of emulation-prevention bytes before the SPS is read. An encoder
 inserts `0x03` after two zero bytes whenever the next byte is `0x03` or
 less (section 7.4.1 of ITU-T H.264); the decoder drops every `0x03` that
 follows two zero bytes of the stream (section 7.3.1).

 The parser's own routine works in place on a buffer whose length never
 changes: each escape found shifts the tail one byte to the left (the last
 byte stays where it was, so it appears twice) and shortens the logical
 size by one. The scan goes on at the next position and up to the
 original size, so bytes already produced by a removal are examined again.
 */
module EmulationPrevention {
  import opened Basics
  import opened BitReader

  /** The three-byte escape `00 00 03` at position `p`. */
  predicate EscapeAt(buf: Bytes, p: nat)
    requires p + 2 < |buf|
  {
    buf[p] == 0 && buf[p + 1] == 0 && buf[p + 2] == 3
  }

  predicate HasEscapeFrom(buf: Bytes, i: nat) {
    exists p :: i <= p && p + 2 < |buf| && EscapeAt(buf, p)
  }

  /** `b ^ 0x3` on a byte: the two low bits flipped. It is 0 only for 3. */
  function Xor3(b: Byte): (r: int)
    ensures 0 <= r < 256
    ensures r == 0 <==> b == 3
  {
    var low := b as int % 4;
    b as int - low + (3 - low)
  }

  /** `Xor3` keeps the high six bits and complements the low two. */
  lemma Xor3FlipsLowBits(b: Byte)
    ensures Xor3(b) % 4 == 3 - b as int % 4 && Xor3(b) / 4 == b as int / 4
  {
  }

  /** The routine's test: the sum `data[i] + data[i+1] + (data[i+2] ^ 3)` of
      non-negative terms is 0. */
  function Escaped(buf: Bytes, i: nat): (hit: bool)
    requires i + 2 < |buf|
    ensures hit <==> EscapeAt(buf, i)
  {
    buf[i] as int + buf[i + 1] as int + Xor3(buf[i + 2]) == 0
  }

  /** The inner loop: `data[j] = data[j + 1]` for `j` from `from` up to the
      original size minus 2. */
  function ShiftLoop(buf: Bytes, j: nat): (r: Bytes)
    requires j < |buf|
    ensures r == buf[..j] + buf[j + 1..] + [buf[|buf| - 1]]
    decreases |buf| - j
  {
    if j + 1 < |buf| then
      var next := buf[j := buf[j + 1]];
      assert next[..j + 1] == buf[..j] + [buf[j + 1]];
      assert next[j + 2..] == buf[j + 2..];
      assert buf[j + 1..] == [buf[j + 1]] + buf[j + 2..];
      ShiftLoop(next, j + 1)
    else
      buf
  }

  /** The outer loop from position `i` with `removed` escapes removed so
      far: the buffer (still of the original length) and the final count. */
  function Scan(buf: Bytes, i: nat, removed: nat): (r: (Bytes, nat))
    requires |buf| >= 2
    ensures |r.0| == |buf| && r.0[..2] == buf[..2]
    ensures removed <= r.1 <= removed + Max(0, |buf| - 2 - i)
    decreases |buf| - i
  {
    if i + 2 < |buf| then
      if Escaped(buf, i) then Scan(ShiftLoop(buf, i + 2), i + 1, removed + 1)
      else Scan(buf, i + 1, removed)
    else
      (buf, removed)
  }

  /** `del_emulation_prevention`: the first `size` bytes of the buffer after
      the scan. Sizes 0 and 1 make the bound `size - 2` wrap around, and the
      scan reads past the buffer, which is undefined behaviour. */
  function DelEmulationPrevention(data: Bytes): (r: Outcome<Bytes>)
    ensures r.Undefined? <==> |data| < 2
    ensures r.Ok? ==> 2 <= |r.value| <= |data| && r.value[..2] == data[..2]
    ensures r.Ok? && !HasEscapeFrom(data, 0) ==> r.value == data
    ensures r.Ok? && HasEscapeFrom(data, 0) ==> |r.value| < |data|
    ensures r.Ok? ==> |r.value| == |data| - Scan(data, 0, 0).1
  {
    if |data| < 2 then Undefined
    else
      ScanFromStart(data);
      Ok(ScanOutput(data))
  }

  /** The buffer after the whole scan, cut to its logical size. */
  function ScanOutput(data: Bytes): Bytes
    requires |data| >= 2
  {
    var r := Scan(data, 0, 0);
    r.0[..|data| - r.1]
  }

  /** The whole scan removes something exactly when there is an escape. */
  lemma ScanFromStart(data: Bytes)
    requires |data| >= 2
    ensures HasEscapeFrom(data, 0) ==> Scan(data, 0, 0).1 > 0
    ensures !HasEscapeFrom(data, 0) ==> Scan(data, 0, 0) == (data, 0)
  {
    if HasEscapeFrom(data, 0) {
      var p :| 0 <= p && p + 2 < |data| && EscapeAt(data, p);
      ScanRemoves(data, 0, 0, FirstEscape(data, 0, p));
    } else {
      ScanUntouched(data, 0, 0);
    }
  }

  /** The lowest escape position from `i`, given one at `p`. */
  function FirstEscape(buf: Bytes, i: nat, p: nat): (k: nat)
    requires i <= p && p + 2 < |buf| && EscapeAt(buf, p)
    ensures i <= k <= p && EscapeAt(buf, k)
    ensures forall q :: i <= q < k ==> !EscapeAt(buf, q)
    decreases p - i
  {
    if EscapeAt(buf, i) then i else FirstEscape(buf, i + 1, p)
  }

  /** Without an escape from `i` on, the scan changes nothing. */
  lemma {:induction false} ScanUntouched(buf: Bytes, i: nat, removed: nat)
    requires |buf| >= 2 && !HasEscapeFrom(buf, i)
    ensures Scan(buf, i, removed) == (buf, removed)
    decreases |buf| - i
  {
    if i + 2 < |buf| {
      assert !EscapeAt(buf, i);
      ScanUntouched(buf, i + 1, removed);
    }
  }

  /** Reaching the first escape, the scan removes it. */
  lemma {:induction false} ScanRemoves(buf: Bytes, i: nat, removed: nat, k: nat)
    requires |buf| >= 2 && i <= k && k + 2 < |buf| && EscapeAt(buf, k)
    requires forall q :: i <= q < k ==> !EscapeAt(buf, q)
    ensures Scan(buf, i, removed).1 > removed
    decreases k - i
  {
    if i < k {
      assert !EscapeAt(buf, i);
      ScanRemoves(buf, i + 1, removed, k);
    }
  }

  /** Reference decoder of section 7.3.1: a `00 00 03` drops its `03`, and
      matching resumes after it. */
  function Unescape(y: Bytes): (x: Bytes)
    ensures |x| <= |y|
    decreases |y|
  {
    if |y| >= 3 && EscapeAt(y, 0) then [0, 0] + Unescape(y[3..])
    else if y == [] then []
    else [y[0]] + Unescape(y[1..])
  }

  /** Reference encoder of section 7.4.1: after two zero bytes (`zeros`
      counts the zero bytes just written, up to two) a byte of `0x03` or
      less is preceded by an inserted `0x03`. */
  function Escape(x: Bytes, zeros: nat): (y: Bytes)
    requires zeros <= 2
    ensures |x| <= |y|
    decreases |x|
  {
    if x == [] then []
    else if zeros == 2 && x[0] <= 3 then [3, x[0]] + Escape(x[1..], if x[0] == 0 then 1 else 0)
    else [x[0]] + Escape(x[1..], if x[0] == 0 then Min(zeros + 1, 2) else 0)
  }

  /** Decoding undoes encoding: from the start, or after a non-zero byte. */
  lemma {:induction false} UnescapeEscape(x: Bytes)
    ensures Unescape(Escape(x, 0)) == x
    decreases |x|, 0
  {
    if x != [] {
      var b := x[0];
      var rest := x[1..];
      assert x == [b] + rest;
      if b == 0 {
        assert Escape(x, 0) == [0] + Escape(rest, 1);
        UnescapeEscapeAfterZero(rest);
      } else {
        var y := Escape(rest, 0);
        assert Escape(x, 0) == [b] + y;
        assert ([b] + y)[1..] == y;
        UnescapeEscape(rest);
      }
    }
  }

  /** After one zero byte, decoding the zero and what follows gives them
      back. */
  lemma {:induction false} UnescapeEscapeAfterZero(x: Bytes)
    ensures Unescape([0] + Escape(x, 1)) == [0] + x
    decreases |x|, 1
  {
    if x == [] {
      assert [0] + Escape(x, 1) == [0];
      assert Unescape([0]) == [0] + Unescape([]);
    } else {
      var b := x[0];
      var rest := x[1..];
      assert x == [b] + rest;
      if b == 0 {
        assert [0] + Escape(x, 1) == [0, 0] + Escape(rest, 2);
        UnescapeEscapeAfterZeros(rest);
      } else {
        var y := Escape(rest, 0);
        var w := [0] + ([b] + y);
        assert Escape(x, 1) == [b] + y;
        assert w[1..] == [b] + y;
        assert Escape(x, 0) == [b] + y;
        UnescapeEscape(x);
      }
    }
  }

  /** After two zero bytes, decoding them and what follows gives them
      back. */
  lemma {:induction false} UnescapeEscapeAfterZeros(x: Bytes)
    ensures Unescape([0, 0] + Escape(x, 2)) == [0, 0] + x
    decreases |x|, 2
  {
    if x == [] {
      assert [0, 0] + Escape(x, 2) == [0, 0];
      assert Unescape([0, 0]) == [0] + Unescape([0]);
      assert Unescape([0]) == [0] + Unescape([]);
    } else {
      var b := x[0];
      var rest := x[1..];
      assert x == [b] + rest;
      if b <= 3 {
        EscapeAfterTwoZeros(x, b, rest);
      } else {
        var y := Escape(rest, 0);
        var w := [0, 0] + ([b] + y);
        assert Escape(x, 2) == [b] + y;
        assert w[1..] == [0] + ([b] + y);
        assert w[2..] == [b] + y;
        assert Escape(x, 0) == [b] + y;
        UnescapeEscape(x);
      }
    }
  }

  /** A small byte after two zeros is the inserted escape and the byte. */
  lemma {:induction false} EscapeAfterTwoZeros(x: Bytes, b: Byte, rest: Bytes)
    requires x == [b] + rest && b <= 3
    ensures Unescape([0, 0] + Escape(x, 2)) == [0, 0] + x
    decreases |x|, 2, 0
  {
    var z := if b == 0 then 1 else 0;
    var w := [0, 0] + Escape(x, 2);
    assert x[1..] == rest;
    assert Escape(x, 2) == [3, b] + Escape(rest, z);
    assert w[3..] == [b] + Escape(rest, z);
    if b == 0 {
      UnescapeEscapeAfterZero(rest);
    } else {
      var y := Escape(rest, 0);
      assert ([b] + y)[1..] == y;
      UnescapeEscape(rest);
    }
  }

  /** Without an escape in the stream, the reference decoder keeps it. */
  lemma {:induction false} UnescapeNoEscape(y: Bytes)
    requires !HasEscapeFrom(y, 0)
    ensures Unescape(y) == y
    decreases |y|
  {
    if y != [] {
      assert !(|y| >= 3 && EscapeAt(y, 0));
      assert !HasEscapeFrom(y[1..], 0) by {
        if HasEscapeFrom(y[1..], 0) {
          var p :| 0 <= p && p + 2 < |y[1..]| && EscapeAt(y[1..], p);
          assert EscapeAt(y, p + 1);
        }
      }
      UnescapeNoEscape(y[1..]);
      assert y == [y[0]] + y[1..];
    }
  }

  /** The pattern `00 00 03 00 03` at `p`: removing the escape's `03` puts
      another `00 03` right after the second zero, and the routine, which
      goes on at the next position, sees a fresh escape there. */
  predicate RescanAt(buf: Bytes, p: nat)
    requires p + 4 < |buf|
  {
    EscapeAt(buf, p) && buf[p + 3] == 0 && buf[p + 4] == 3
  }

  predicate HasRescanFrom(buf: Bytes, i: nat) {
    exists p :: i <= p && p + 4 < |buf| && RescanAt(buf, p)
  }

  /** Input byte `k`, or the last byte when `k` is past the end: what the
      shifts leave behind the logical end is copies of the last byte. */
  function Source(data: Bytes, k: nat): Byte
    requires |data| >= 1
  {
    if k < |data| then data[k] else data[|data| - 1]
  }

  /** The buffer when the scan stands at `i` after `removed` removals: from
      `i` on it holds the input from `i + removed` on, then stale bytes. */
  predicate Layout(buf: Bytes, data: Bytes, i: nat, removed: nat) {
    && |data| >= 1 && |buf| == |data| && i + removed <= |data|
    && forall k :: i <= k < |buf| ==> buf[k] == Source(data, k + removed)
  }

  /** The routine agrees with the decoder of section 7.3.1 on every input in
      which `00 00 03 00 03` does not occur. */
  lemma DelEmulationPreventionUnescapes(data: Bytes)
    requires |data| >= 2 && !HasRescanFrom(data, 0)
    ensures DelEmulationPrevention(data) == Ok(Unescape(data))
  {
    ScanWholeUnescapes(data);
  }

  /** The scan from the start, cut to its logical size, is the decoding. */
  lemma ScanWholeUnescapes(data: Bytes)
    requires |data| >= 2 && !HasRescanFrom(data, 0)
    ensures ScanOutput(data) == Unescape(data)
  {
    var buf := data;
    LayoutAtStart(data);
    ScanUnescapes(buf, data, 0, 0);
    var r := Scan(buf, 0, 0);
    var u := Unescape(data[0..]);
    assert r.0[..|data| - r.1] == buf[..0] + u;
    assert buf[..0] + u == u;
    assert data[0..] == data;
  }

  /** Before the scan the buffer is the input itself. */
  lemma LayoutAtStart(data: Bytes)
    requires |data| >= 1
    ensures Layout(data, data, 0, 0)
  {
  }

  /** From a buffer in that layout, the scan ends with the output so far
      followed by the decoding of the rest of the input. */
  lemma {:induction false} ScanUnescapes(buf: Bytes, data: Bytes, i: nat, removed: nat)
    requires |data| >= 2 && Layout(buf, data, i, removed)
    requires !HasRescanFrom(data, i + removed)
    ensures var r := Scan(buf, i, removed);
      && |data| - r.1 == i + |Unescape(data[i + removed..])|
      && r.0[..|data| - r.1] == buf[..i] + Unescape(data[i + removed..])
    decreases |data| - i - removed, 1
  {
    if |data| - i - removed < 3 {
      ScanShortRest(buf, data, i, removed);
    } else if EscapeAt(data, i + removed) {
      ScanUnescapesHit(buf, data, i, removed);
    } else {
      ScanUnescapesMiss(buf, data, i, removed);
    }
  }

  /** The step of `ScanUnescapes` at an escape. */
  lemma {:induction false} ScanUnescapesHit(buf: Bytes, data: Bytes, i: nat, removed: nat)
    requires |data| >= 2 && Layout(buf, data, i, removed) && i + removed + 2 < |data|
    requires EscapeAt(data, i + removed) && !HasRescanFrom(data, i + removed)
    ensures var r := Scan(buf, i, removed);
      && |data| - r.1 == i + |Unescape(data[i + removed..])|
      && r.0[..|data| - r.1] == buf[..i] + Unescape(data[i + removed..])
    decreases |data| - i - removed, 0
  {
    var rest := data[i + removed..];
    var rest' := data[i + removed + 3..];
    var buf' := ScanHit(buf, data, i, removed);
    assert !HasRescanFrom(data, i + removed + 3);
    ScanUnescapes(buf', data, i + 2, removed + 1);
    assert rest[3..] == rest';
    HitJoins(Scan(buf', i + 2, removed + 1), |data|, i, buf[..i], rest);
  }

  /** Output and count after an escape, from those for the rest after it. */
  lemma HitJoins(r: (Bytes, nat), n: nat, i: nat, prefix: Bytes, rest: Bytes)
    requires |rest| >= 3 && EscapeAt(rest, 0) && r.1 <= n
    requires n - r.1 == i + 2 + |Unescape(rest[3..])| && n - r.1 <= |r.0|
    requires r.0[..n - r.1] == prefix + [0, 0] + Unescape(rest[3..])
    ensures n - r.1 == i + |Unescape(rest)|
    ensures r.0[..n - r.1] == prefix + Unescape(rest)
  {
    UnescapeHit(rest);
  }

  /** The step of `ScanUnescapes` where there is no escape. */
  lemma {:induction false} ScanUnescapesMiss(buf: Bytes, data: Bytes, i: nat, removed: nat)
    requires |data| >= 2 && Layout(buf, data, i, removed) && i + removed + 2 < |data|
    requires !EscapeAt(data, i + removed) && !HasRescanFrom(data, i + removed)
    ensures var r := Scan(buf, i, removed);
      && |data| - r.1 == i + |Unescape(data[i + removed..])|
      && r.0[..|data| - r.1] == buf[..i] + Unescape(data[i + removed..])
    decreases |data| - i - removed, 0
  {
    var rest := data[i + removed..];
    var rest' := data[i + 1 + removed..];
    ScanMiss(buf, data, i, removed);
    assert !HasRescanFrom(data, i + 1 + removed);
    ScanUnescapes(buf, data, i + 1, removed);
    assert rest[1..] == rest';
    assert buf[..i + 1] == buf[..i] + [rest[0]];
    MissJoins(Scan(buf, i + 1, removed), |data|, i, buf[..i], rest);
  }

  /** Output and count after a byte that starts no escape, from those for
      the rest after it. */
  lemma MissJoins(r: (Bytes, nat), n: nat, i: nat, prefix: Bytes, rest: Bytes)
    requires |rest| >= 3 && !EscapeAt(rest, 0) && r.1 <= n
    requires n - r.1 == i + 1 + |Unescape(rest[1..])| && n - r.1 <= |r.0|
    requires r.0[..n - r.1] == prefix + [rest[0]] + Unescape(rest[1..])
    ensures n - r.1 == i + |Unescape(rest)|
    ensures r.0[..n - r.1] == prefix + Unescape(rest)
  {
    assert Unescape(rest) == [rest[0]] + Unescape(rest[1..]);
  }

  /** A leading escape decodes to its two zeros. */
  lemma UnescapeHit(y: Bytes)
    requires |y| >= 3 && EscapeAt(y, 0)
    ensures Unescape(y) == [0, 0] + Unescape(y[3..])
  {
  }

  /** With fewer than three input bytes left there is nothing to remove. */
  lemma ScanShortRest(buf: Bytes, data: Bytes, i: nat, removed: nat)
    requires |data| >= 2 && Layout(buf, data, i, removed) && |data| - i - removed < 3
    ensures var r := Scan(buf, i, removed);
      && r.1 == removed
      && |data| - r.1 == i + |Unescape(data[i + removed..])|
      && r.0[..|data| - r.1] == buf[..i] + Unescape(data[i + removed..])
  {
    var n := |data|;
    var rest := data[i + removed..];
    assert !HasEscapeFrom(buf, i);
    ScanUntouched(buf, i, removed);
    UnescapeShort(rest);
    assert buf[..n - removed] == buf[..i] + rest;
  }

  /** An escape at `i`: the scan removes it and, the next window not being
      one, goes on at `i + 2` in the layout for that position. */
  lemma ScanHit(buf: Bytes, data: Bytes, i: nat, removed: nat) returns (buf': Bytes)
    requires |data| >= 2 && Layout(buf, data, i, removed) && i + removed + 2 < |data|
    requires EscapeAt(data, i + removed) && !HasRescanFrom(data, i + removed)
    ensures Layout(buf', data, i + 2, removed + 1) && buf'[..i + 2] == buf[..i] + [0, 0]
    ensures Scan(buf, i, removed) == Scan(buf', i + 2, removed + 1)
  {
    assert buf[i] == data[i + removed] && buf[i + 1] == data[i + removed + 1];
    assert buf[i + 2] == data[i + removed + 2];
    assert Escaped(buf, i);
    buf' := ShiftLoop(buf, i + 2);
    ShiftLayout(buf, data, i, removed);
    assert Scan(buf, i, removed) == Scan(buf', i + 1, removed + 1);
    if i + 3 < |data| {
      StraddleMisses(buf', data, i, removed);
    }
  }

  /** No escape at `i`: the scan moves on with the buffer unchanged. */
  lemma ScanMiss(buf: Bytes, data: Bytes, i: nat, removed: nat)
    requires |data| >= 2 && Layout(buf, data, i, removed) && i + removed + 2 < |data|
    requires !EscapeAt(data, i + removed)
    ensures Layout(buf, data, i + 1, removed)
    ensures Scan(buf, i, removed) == Scan(buf, i + 1, removed)
    ensures buf[i] == data[i + removed]
  {
    assert buf[i] == data[i + removed] && buf[i + 1] == data[i + removed + 1];
    assert buf[i + 2] == data[i + removed + 2];
    assert !Escaped(buf, i);
  }

  /** Removing the escape at `i` keeps the output, appends the two zeros,
      and leaves the buffer in the layout for position `i + 2`. */
  lemma ShiftLayout(buf: Bytes, data: Bytes, i: nat, removed: nat)
    requires Layout(buf, data, i, removed) && i + 2 < |buf| && EscapeAt(buf, i)
    ensures var buf' := ShiftLoop(buf, i + 2);
      && Layout(buf', data, i + 2, removed + 1)
      && buf'[..i + 2] == buf[..i] + [0, 0]
  {
    var buf' := ShiftLoop(buf, i + 2);
    var j := i + 2;
    assert |buf'| == |buf|;
    forall k | j <= k < |buf'|
      ensures buf'[k] == Source(data, k + removed + 1)
    {
      if k + 1 < |buf| {
        assert buf'[k] == buf[j + 1..][k - j];
        assert buf[k + 1] == Source(data, k + 1 + removed);
      } else {
        assert buf'[k] == buf[|buf| - 1];
        assert buf[|buf| - 1] == Source(data, |buf| - 1 + removed);
      }
    }
    assert buf'[..j] == buf[..j];
    assert buf[..j] == buf[..i] + [0, 0];
  }

  /** The window right after a removed escape starts with a zero, then
      holds the two input bytes after the `03` (or stale copies of the last
      byte); without the rescan pattern they are not `00 03`. */
  lemma StraddleMisses(buf': Bytes, data: Bytes, i: nat, removed: nat)
    requires Layout(buf', data, i + 2, removed + 1) && i + 3 < |buf'|
    requires i + removed + 2 < |data| && EscapeAt(data, i + removed)
    requires !HasRescanFrom(data, i + removed)
    ensures !Escaped(buf', i + 1)
  {
    var n := |data|;
    assert buf'[i + 2] == Source(data, i + removed + 3);
    assert buf'[i + 3] == Source(data, i + removed + 4);
    if i + removed + 4 < n {
      assert !RescanAt(data, i + removed);
    }
  }

  /** Fewer than three bytes hold no escape and decode to themselves. */
  lemma UnescapeShort(y: Bytes)
    requires |y| < 3
    ensures Unescape(y) == y
  {
    if y != [] {
      assert y[1..] == [] || (|y[1..]| == 1 && y[1..][1..] == []);
    }
  }

  /** The rescan in the parser's routine, on the escaped form of the payload
      `67 00 00 00 03`: the routine drops the final `03` as well, which the
      decoder of section 7.3.1 keeps. */
  lemma RescanDropsPayload()
    ensures Escape([0x67, 0, 0, 0, 3], 0) == [0x67, 0, 0, 3, 0, 3]
    ensures Unescape([0x67, 0, 0, 3, 0, 3]) == [0x67, 0, 0, 0, 3]
    ensures DelEmulationPrevention([0x67, 0, 0, 3, 0, 3]) == Ok([0x67, 0, 0, 0])
  {
    EscapePayload();
    UnescapePayload();
    RescanPayload();
  }

  lemma RescanPayload()
    ensures DelEmulationPrevention([0x67, 0, 0, 3, 0, 3]) == Ok([0x67, 0, 0, 0])
  {
    var d: Bytes := [0x67, 0, 0, 3, 0, 3];
    var once: Bytes := [0x67, 0, 0, 0, 3, 3];
    assert ShiftLoop(d, 3) == once;
    assert ShiftLoop(once, 4) == once;
    assert Scan(d, 0, 0) == Scan(d, 1, 0);
    assert Scan(d, 1, 0) == Scan(once, 2, 1);
    assert Scan(once, 2, 1) == Scan(once, 3, 2);
    assert Scan(once, 3, 2) == (once, 2);
    assert EscapeAt(d, 1);
    assert once[..4] == [0x67, 0, 0, 0];
  }

  lemma EscapePayload()
    ensures Escape([0x67, 0, 0, 0, 3], 0) == [0x67, 0, 0, 3, 0, 3]
  {
    var x: Bytes := [0x67, 0, 0, 0, 3];
    assert x[1..] == [0, 0, 0, 3] && x[2..] == [0, 0, 3] && x[3..] == [0, 3] && x[4..] == [3];
    assert Escape([3], 1) == [3];
    assert Escape([0, 3], 2) == [3, 0, 3];
    assert Escape([0, 0, 3], 1) == [0, 3, 0, 3];
    assert Escape([0, 0, 0, 3], 0) == [0, 0, 3, 0, 3];
  }

  lemma UnescapePayload()
    ensures Unescape([0x67, 0, 0, 3, 0, 3]) == [0x67, 0, 0, 0, 3]
  {
    var y: Bytes := [0x67, 0, 0, 3, 0, 3];
    var z: Bytes := [0, 0, 3, 0, 3];
    assert y[1..] == z && z[3..] == [0, 3];
    assert Unescape([3]) == [3];
    assert Unescape([0, 3]) == [0, 3];
    assert EscapeAt(z, 0);
    assert Unescape(z) == [0, 0, 0, 3];
  }
}
