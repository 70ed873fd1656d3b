/**
 The sequence parameter set parser (section 7.3.2.1.1 of ITU-T H.264): it
 removes emulation-prevention bytes, checks the NAL unit type, and reads the
 profile, the level and the cropped picture size. Syntax elements it does
 not need are read and dropped; scaling lists are not parsed (only their
 presence flags are read), and the video usability information is not part
 of this model.

 Every step whose C counterpart has undefined behaviour yields `Undefined`:
 an Exp-Golomb code with 31 or more leading zeros, the scaling-list flag
 loop with `chroma_format_idc == 3` (it writes past an 8-element array),
 and a picture width whose `int` product overflows.
 */
module Sps {
  import opened Basics
  import opened BitReader
  import opened ExpGolomb
  import opened EmulationPrevention

  /** What the parser writes to its `info` argument (the frame rate, which
      comes from the video usability information, is not modelled). */
  datatype SpsInfo = SpsInfo(profile: int, level: int, width: int, height: int)

  /** The outcome of `h264_sps_parse`: no usable input, a NAL unit that is
      not an SPS (both return 0), or a parsed SPS (return 1). */
  datatype SpsResult = Rejected | NotSps | Parsed(info: SpsInfo) {
    function ReturnValue(): int {
      if Parsed? then 1 else 0
    }
  }

  datatype Crop = Crop(left: int, right: int, top: int, bottom: int)

  /** The syntax elements the parser keeps. */
  datatype Syntax = Syntax(
    profile: int,
    level: int,
    chroma: int,
    frameMbsOnly: int,
    widthInMbsMinus1: int,
    heightInMapUnitsMinus1: int,
    crop: Option<Crop>)

  const Uint32Mod: int := 0x1_0000_0000

  /** The ranges the reads produce: `ue` values below `2^31`, one-bit flags
      0 or 1, bytes below 256. */
  predicate WellRead(s: Syntax) {
    && 0 <= s.profile < 256 && 0 <= s.level < 256
    && 0 <= s.chroma < 0x8000_0000
    && (s.frameMbsOnly == 0 || s.frameMbsOnly == 1)
    && 0 <= s.widthInMbsMinus1 < 0x8000_0000
    && 0 <= s.heightInMapUnitsMinus1 < 0x8000_0000
    && (s.crop.Some? ==> CropRead(s.crop.value))
  }

  predicate CropRead(c: Crop) {
    && 0 <= c.left < 0x8000_0000 && 0 <= c.right < 0x8000_0000
    && 0 <= c.top < 0x8000_0000 && 0 <= c.bottom < 0x8000_0000
  }

  /** `count` one-bit reads whose values are dropped. */
  function SkipBits(d: Bytes, i: nat, count: nat): (r: nat)
    ensures r == if i + count <= 8 * |d| then i + count else Max(i, 8 * |d|)
    decreases count
  {
    if count == 0 then i else SkipBits(d, U(d, i, 1).next, count - 1)
  }

  /** The profiles whose SPS carries `chroma_format_idc` and the bit
      depths. */
  predicate HighProfile(profile: int) {
    profile in {100, 110, 122, 244, 44, 83, 86, 118, 128, 138, 139, 134, 135}
  }

  /** `chroma_format_idc` and the index after the high-profile fields; other
      profiles take 4:2:0 without reading anything. With the scaling matrix
      flag set, its eight (or, for 4:4:4, twelve) list flags are read and
      the lists themselves are not. */
  function ReadChroma(d: Bytes, i: nat, profile: int): (r: Outcome<Field>)
    ensures !HighProfile(profile) ==> r == Ok(Field(1, i))
    ensures HighProfile(profile) ==> (UE(d, i).Undefined? ==> r.Undefined?)
    ensures HighProfile(profile) && r.Ok? ==> r.value.value == UE(d, i).value.value
    ensures r.Ok? ==> i <= r.value.next && 0 <= r.value.value < 0x8000_0000
  {
    if !HighProfile(profile) then Ok(Field(1, i))
    else
      var chroma :- UE(d, i);
      var next :- HighProfileFields(d, chroma);
      Ok(Field(chroma.value, next))
  }

  /** The high-profile fields after `chroma_format_idc`: the separate-plane
      flag (4:4:4 only), the two bit depths, the bypass flag and the scaling
      matrix flag with its list flags. The result is the index after them. */
  function HighProfileFields(d: Bytes, chroma: Field): (r: Outcome<nat>)
    ensures r.Ok? ==> chroma.next <= r.value
  {
    var afterPlane := if chroma.value == 3 then U(d, chroma.next, 1).next else chroma.next;
    var lumaDepth :- UE(d, afterPlane);
    var chromaDepth :- UE(d, lumaDepth.next);
    var bypass := U(d, chromaDepth.next, 1);
    ScalingMatrix(d, chroma.value, bypass.next)
  }

  /** `seq_scaling_matrix_present_flag` at bit `i` and, when set, the list
      flags after it. The C loop runs twelve times for 4:4:4 but writes into
      an eight-element array, which is undefined behaviour. */
  function ScalingMatrix(d: Bytes, chroma: int, i: nat): (r: Outcome<nat>)
    ensures r.Undefined? <==> chroma == 3 && i < 8 * |d| && Bit(d, i) == 1
    ensures r.Ok? ==> i <= r.value
  {
    var matrix := U(d, i, 1);
    if matrix.value == 0 then Ok(matrix.next)
    else if chroma == 3 then Undefined
    else Ok(SkipBits(d, matrix.next, 8))
  }

  /** `count` signed Exp-Golomb reads whose values are dropped (the
      `offset_for_ref_frame` loop). */
  function SkipSigned(d: Bytes, i: nat, count: nat): (r: Outcome<nat>)
    ensures r.Ok? ==> r.value >= i
    ensures r.Undefined? ==> count > 0
    ensures count > 0 && SE(d, i).Undefined? ==> r.Undefined?
    decreases count
  {
    if count == 0 then Ok(i)
    else
      var s :- SE(d, i);
      SkipSigned(d, s.next, count - 1)
  }

  /** The picture-order-count fields: type 0 has one more `ue`, type 1 a
      flag, two `se`, a count and that many `se`; other types have none. */
  function ReadPicOrderCount(d: Bytes, i: nat): (r: Outcome<nat>)
    ensures r.Ok? ==> r.value >= i
    ensures UE(d, i).Undefined? ==> r.Undefined?
    ensures UE(d, i).Ok? && UE(d, i).value.value >= 2 ==> r == Ok(UE(d, i).value.next)
  {
    var kind :- UE(d, i);
    if kind.value == 0 then
      var lsb :- UE(d, kind.next);
      Ok(lsb.next)
    else if kind.value == 1 then
      var always := U(d, kind.next, 1);
      var nonRef :- SE(d, always.next);
      var topBottom :- SE(d, nonRef.next);
      var cycle :- UE(d, topBottom.next);
      SkipSigned(d, cycle.next, cycle.value)
    else
      Ok(kind.next)
  }

  /** The four crop offsets. */
  function ReadCrop(d: Bytes, i: nat): (r: Outcome<Crop>)
    ensures r.Ok? ==> CropRead(r.value)
    ensures UE(d, i).Undefined? ==> r.Undefined?
    ensures r.Ok? ==> r.value.left == UE(d, i).value.value
  {
    var left :- UE(d, i);
    var right :- UE(d, left.next);
    var top :- UE(d, right.next);
    var bottom :- UE(d, top.next);
    Ok(Crop(left.value, right.value, top.value, bottom.value))
  }

  /** The SPS fields from bit `i` (just after the NAL header) up to the
      cropping offsets. */
  function ReadSyntax(d: Bytes, i: nat): (r: Outcome<Syntax>)
    ensures r.Ok? ==> WellRead(r.value)
    ensures r.Ok? ==> r.value.profile == U(d, i, 8).value
    ensures r.Ok? ==> r.value.level == U(d, U(d, SkipBits(d, U(d, i, 8).next, 6), 2).next, 8).value
    ensures r.Ok? && !HighProfile(r.value.profile) ==> r.value.chroma == 1
  {
    var profile := U(d, i, 8);
    var reserved := U(d, SkipBits(d, profile.next, 6), 2);
    var level := U(d, reserved.next, 8);
    var id :- UE(d, level.next);
    var chroma :- ReadChroma(d, id.next, profile.value);
    var frameNum :- UE(d, chroma.next);
    var poc :- ReadPicOrderCount(d, frameNum.next);
    var refFrames :- UE(d, poc);
    var gaps := U(d, refFrames.next, 1);
    var width :- UE(d, gaps.next);
    var height :- UE(d, width.next);
    var frameMbsOnly := U(d, height.next, 1);
    var adaptive := if frameMbsOnly.value == 0 then U(d, frameMbsOnly.next, 1).next else frameMbsOnly.next;
    var direct := U(d, adaptive, 1);
    var cropping := U(d, direct.next, 1);
    ByteRange(d, i);
    ByteRange(d, reserved.next);
    OneBitRange(d, height.next);
    if cropping.value == 0 then
      Ok(Syntax(profile.value, level.value, chroma.value, frameMbsOnly.value, width.value, height.value, None))
    else
      var crop :- ReadCrop(d, cropping.next);
      Ok(Syntax(profile.value, level.value, chroma.value, frameMbsOnly.value, width.value, height.value, Some(crop)))
  }

  lemma ByteRange(d: Bytes, i: nat)
    ensures 0 <= U(d, i, 8).value < 256
  {
    if i + 8 <= 8 * |d| {
      BitsValueBound(d, i, 8);
      assert Pow2(8) == 256;
    }
  }

  lemma OneBitRange(d: Bytes, i: nat)
    ensures U(d, i, 1).value == 0 || U(d, i, 1).value == 1
  {
    if i < 8 * |d| {
      OneBit(d, i);
    }
  }

  /** The parser's crop units: 4:2:0 crops in pairs both ways, 4:2:2 in
      pairs across, anything else in single samples; a field-coded frame
      doubles the vertical unit. */
  function CropUnits(chroma: int, frameMbsOnly: int): (int, int) {
    if chroma == 1 then (2, 2 * (2 - frameMbsOnly))
    else if chroma == 2 then (2, 2 - frameMbsOnly)
    else (1, 2 - frameMbsOnly)
  }

  /** `ChromaArrayType` (section 7.4.2.1.1): 0 when the colour planes are
      coded separately, else `chroma_format_idc`. */
  function ChromaArrayType(chroma: int, separatePlanes: bool): int {
    if separatePlanes then 0 else chroma
  }

  /** `SubWidthC` and `SubHeightC` of Table 6-1 for `ChromaArrayType` 1 to
      3. */
  function SubSampling(chromaArrayType: int): (int, int)
    requires 1 <= chromaArrayType <= 3
  {
    if chromaArrayType == 1 then (2, 2)
    else if chromaArrayType == 2 then (2, 1)
    else (1, 1)
  }

  /** `CropUnitX` and `CropUnitY` of equations 7-19 to 7-22. */
  function StandardCropUnits(chroma: int, separatePlanes: bool, frameMbsOnly: int): (int, int)
    requires 0 <= chroma <= 3
  {
    var cat := ChromaArrayType(chroma, separatePlanes);
    if cat == 0 then (1, 2 - frameMbsOnly)
    else
      var (sw, sh) := SubSampling(cat);
      (sw, sh * (2 - frameMbsOnly))
  }

  /** The parser's crop units are the standard's for every valid
      `chroma_format_idc`, whatever the separate-plane flag (which the
      parser reads but ignores, and which is present only for 4:4:4). */
  lemma CropUnitsStandard(chroma: int, separatePlanes: bool, frameMbsOnly: int)
    requires 0 <= chroma <= 3 && (separatePlanes ==> chroma == 3)
    ensures CropUnits(chroma, frameMbsOnly) == StandardCropUnits(chroma, separatePlanes, frameMbsOnly)
  {
  }

  function CropX(c: Option<Crop>): int {
    if c.Some? then c.value.left + c.value.right else 0
  }

  function CropY(c: Option<Crop>): int {
    if c.Some? then c.value.top + c.value.bottom else 0
  }

  /** `PicWidthInSamplesL` (equation 7-13 with 7-14). */
  function PicWidthInSamples(s: Syntax): int {
    (s.widthInMbsMinus1 + 1) * 16
  }

  /** `FrameHeightInMbs` (equation 7-18) times 16. */
  function FrameHeightInSamples(s: Syntax): int {
    (2 - s.frameMbsOnly) * (s.heightInMapUnitsMinus1 + 1) * 16
  }

  /** The width and height the parser stores, step by step as the C code
      computes them: the uncropped width is an `int` product, which
      overflows for widths of `2^27` macroblocks or more; the height and
      every crop step are 32-bit unsigned arithmetic. */
  function Dimensions(s: Syntax): (r: Outcome<(int, int)>)
    requires WellRead(s)
    ensures r.Undefined? <==> PicWidthInSamples(s) > 0x7FFF_FFFF
    ensures r.Ok? ==> 0 <= r.value.0 < Uint32Mod && 0 <= r.value.1 < Uint32Mod
    ensures r.Ok? ==> r.value.0 == (PicWidthInSamples(s) - CropUnits(s.chroma, s.frameMbsOnly).0 * CropX(s.crop)) % Uint32Mod
    ensures r.Ok? ==> r.value.1 == (FrameHeightInSamples(s) - CropUnits(s.chroma, s.frameMbsOnly).1 * CropY(s.crop)) % Uint32Mod
  {
    var mbs := s.widthInMbsMinus1 + 1;
    if mbs * 16 > 0x7FFF_FFFF then Undefined
    else
      var width := mbs * 16;
      var rows := ((2 - s.frameMbsOnly) * (s.heightInMapUnitsMinus1 + 1)) % Uint32Mod;
      var height := (rows * 16) % Uint32Mod;
      var (cx, cy) := CropUnits(s.chroma, s.frameMbsOnly);
      var cutX := (cx * (CropX(s.crop) % Uint32Mod)) % Uint32Mod;
      var cutY := (cy * (CropY(s.crop) % Uint32Mod)) % Uint32Mod;
      WrappedDifference(width, cx, CropX(s.crop));
      WrappedHeight((2 - s.frameMbsOnly) * (s.heightInMapUnitsMinus1 + 1), cy, CropY(s.crop));
      Ok(((width - cutX) % Uint32Mod, (height - cutY) % Uint32Mod))
  }

  /** `width - c * (x)` with the product and the sum taken modulo `2^32`. */
  lemma WrappedDifference(a: int, c: int, x: int)
    ensures (a - (c * (x % Uint32Mod)) % Uint32Mod) % Uint32Mod == (a - c * x) % Uint32Mod
  {
    ModMul(c, x, Uint32Mod);
    ModSub(a, c * x, Uint32Mod);
  }

  /** The height product, taken modulo `2^32` twice, then cropped. */
  lemma WrappedHeight(p: int, c: int, x: int)
    ensures ((((p % Uint32Mod) * 16) % Uint32Mod) - (c * (x % Uint32Mod)) % Uint32Mod) % Uint32Mod
      == (p * 16 - c * x) % Uint32Mod
  {
    var m := Uint32Mod;
    var h := ((p % m) * 16) % m;
    assert h == (p * 16) % m by {
      ModMul(16, p, m);
    }
    WrappedDifference(h, c, x);
    assert (h - c * x) % m == (p * 16 - c * x) % m by {
      ModLeft(p * 16, c * x, m);
    }
  }

  lemma ModLeft(a: int, b: int, m: int)
    requires m > 0
    ensures (a % m - b) % m == (a - b) % m
  {
    assert a - b == (a % m - b) + m * (a / m);
    ModShift(a % m - b, a / m, m);
  }

  /** Adding a multiple of `m` does not change the residue. */
  lemma ModShift(x: int, k: int, m: int)
    requires m > 0
    ensures (x + m * k) % m == x % m
  {
    var q := x / m;
    assert x + m * k == m * (q + k) + x % m;
    DivUnique(x + m * k, m, q + k, x % m);
  }

  lemma ModSub(a: int, b: int, m: int)
    requires m > 0
    ensures (a - b % m) % m == (a - b) % m
  {
    assert a - b % m == (a - b) + m * (b / m);
    ModShift(a - b, b / m, m);
  }

  lemma ModMul(c: int, x: int, m: int)
    requires m > 0
    ensures (c * (x % m)) % m == (c * x) % m
  {
    assert c * x == c * (x % m) + m * (c * (x / m));
    ModShift(c * (x % m), c * (x / m), m);
  }

  /** Within range, the stored size is the cropped size of section
      7.4.2.1.1: the frame size less the crop offsets in the standard's crop
      units. */
  lemma DimensionsStandard(s: Syntax, separatePlanes: bool)
    requires WellRead(s) && s.chroma <= 3 && (separatePlanes ==> s.chroma == 3)
    requires PicWidthInSamples(s) <= 0x7FFF_FFFF
    ensures var units := StandardCropUnits(s.chroma, separatePlanes, s.frameMbsOnly);
      var w := PicWidthInSamples(s) - units.0 * CropX(s.crop);
      var h := FrameHeightInSamples(s) - units.1 * CropY(s.crop);
      && Dimensions(s).Ok?
      && (0 <= w ==> Dimensions(s).value.0 == w)
      && (0 <= h < Uint32Mod ==> Dimensions(s).value.1 == h)
  {
    CropUnitsStandard(s.chroma, separatePlanes, s.frameMbsOnly);
    var units := StandardCropUnits(s.chroma, separatePlanes, s.frameMbsOnly);
    var w := PicWidthInSamples(s) - units.0 * CropX(s.crop);
    var h := FrameHeightInSamples(s) - units.1 * CropY(s.crop);
    if 0 <= w {
      DivUnique(w, Uint32Mod, 0, w);
    }
    if 0 <= h < Uint32Mod {
      DivUnique(h, Uint32Mod, 0, h);
    }
  }

  /** The NAL unit type: the low five bits of the first byte. */
  function NalType(buf: Bytes): (t: int)
    ensures 0 <= t < 32
  {
    if |buf| == 0 then 0 else buf[0] as int % 32
  }

  /** The SPS parse of an RBSP (the NAL unit with emulation prevention
      removed): the header bits, then, for type 7, the syntax and the
      size. */
  function ParseRbsp(buf: Bytes): (r: Outcome<SpsResult>)
    ensures r.Ok? ==> !r.value.Rejected?
    ensures (r.Ok? && r.value.NotSps?) <==> NalType(buf) != 7
    ensures r.Ok? && r.value.Parsed? ==> r.value.info.profile == (if |buf| >= 2 then buf[1] as int else 0)
    ensures r.Ok? && r.value.Parsed? ==> r.value.info.level == (if |buf| >= 4 then buf[3] as int else 0)
    ensures r.Ok? && r.value.Parsed? ==> 0 <= r.value.info.width < Uint32Mod && 0 <= r.value.info.height < Uint32Mod
  {
    var forbidden := U(buf, 0, 1);
    var refIdc := U(buf, forbidden.next, 2);
    var nalType := U(buf, refIdc.next, 5);
    NalHeader(buf);
    if nalType.value != 7 then Ok(NotSps)
    else
      var s :- ReadSyntax(buf, nalType.next);
      var size :- Dimensions(s);
      HeaderBytes(buf);
      Ok(Parsed(SpsInfo(s.profile, s.level, size.0, size.1)))
  }

  /** The three header reads end at bit 8 and yield the NAL unit type. */
  lemma NalHeader(buf: Bytes)
    ensures var forbidden := U(buf, 0, 1);
      var refIdc := U(buf, forbidden.next, 2);
      var nalType := U(buf, refIdc.next, 5);
      nalType.value == NalType(buf) && (|buf| > 0 ==> nalType.next == 8)
  {
    if |buf| > 0 {
      LowFiveBits(buf);
    }
  }

  /** Profile and level are bytes 1 and 3 of the RBSP, or 0 past its end. */
  lemma HeaderBytes(buf: Bytes)
    requires |buf| > 0
    ensures U(buf, 8, 8).value == if |buf| >= 2 then buf[1] as int else 0
    ensures U(buf, U(buf, SkipBits(buf, U(buf, 8, 8).next, 6), 2).next, 8).value
      == if |buf| >= 4 then buf[3] as int else 0
  {
    if |buf| >= 2 {
      ByteAligned(buf, 1);
    }
    if |buf| >= 4 {
      ByteAligned(buf, 3);
    }
  }

  /** `h264_sps_parse(data, dataSize, info)`: a missing or empty buffer or a
      missing `info` is refused; otherwise emulation prevention is removed
      from a copy, which is then parsed. */
  function ParseSps(data: Option<Bytes>, hasInfo: bool): (r: Outcome<SpsResult>)
    ensures r == Ok(Rejected) <==> data.None? || |data.value| == 0 || !hasInfo
    ensures hasInfo && data.Some? && |data.value| == 1 ==> r.Undefined?
    ensures hasInfo && data.Some? && |data.value| >= 2 ==>
      ((r.Ok? && r.value.NotSps?) <==> data.value[0] as int % 32 != 7)
    ensures r.Ok? && r.value.Parsed? ==> r.value.info.profile == data.value[1] as int
    ensures r.Ok? && r.value.Parsed? && !HasEscapeFrom(data.value, 0) ==>
      r.value.info.level == if |data.value| >= 4 then data.value[3] as int else 0
  {
    if data.None? || |data.value| == 0 || !hasInfo then Ok(Rejected)
    else
      var buf :- DelEmulationPrevention(data.value);
      assert buf[0] == data.value[0] && buf[1] == data.value[1] by {
        assert buf[..2] == data.value[..2];
      }
      ParseRbsp(buf)
  }

  /** The parse with the decoder of section 7.3.1 in place of the
      parser's removal routine. */
  function ParseSpsCorrected(data: Option<Bytes>, hasInfo: bool): (r: Outcome<SpsResult>)
    ensures r == Ok(Rejected) <==> data.None? || |data.value| == 0 || !hasInfo
  {
    if data.None? || |data.value| == 0 || !hasInfo then Ok(Rejected)
    else ParseRbsp(Unescape(data.value))
  }

  /** An encoder's NAL unit parses as its payload. */
  lemma CorrectedParsesPayload(rbsp: Bytes)
    requires rbsp != []
    ensures ParseSpsCorrected(Some(Escape(rbsp, 0)), true) == ParseRbsp(rbsp)
  {
    UnescapeEscape(rbsp);
  }

  /** Without escapes in the input, the parser and the corrected parse
      agree. */
  lemma AgreeWithoutEscapes(data: Bytes, hasInfo: bool)
    requires |data| >= 2 && !HasEscapeFrom(data, 0)
    ensures ParseSps(Some(data), hasInfo) == ParseSpsCorrected(Some(data), hasInfo)
  {
    UnescapeNoEscape(data);
  }
}
