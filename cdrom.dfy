/** A PlayStation CD image read as raw 2354-byte sectors (24 header bytes,
    2048 data bytes, 282 error-correction bytes), with the queries on it:
    the ECC check, the system identifier strings of sector 16, the 15-bit
    colour palette and TIM image decoders, and the search for "TIM1"
    markers. The file is given as its bytes. */
module CdRom {
  import opened Common

  const SectorSize: nat := 2354
  const SectorHeaderSize: nat := 24
  const SectorDataSize: nat := 2048
  const SectorEccSize: nat := 282

  const SystemIdentifierSector: nat := 16
  const GameTitleOffset: nat := 8
  const GameDeveloperOffset: nat := 286
  const GamePublisherOffset: nat := 414
  const GamePlatformOffset: nat := 542
  const SystemInfoLength: nat := 20

  datatype Sector = Sector(header: seq<Byte>, data: seq<Byte>, ecc: seq<Byte>)
  {
    predicate Valid() {
      |header| == SectorHeaderSize && |data| == SectorDataSize && |ecc| == SectorEccSize
    }
  }

  /** The raw bytes of a sector, in disc order. */
  function SectorBytes(s: Sector): seq<Byte> {
    s.header + s.data + s.ecc
  }

  /** The three `copy_from_slice` calls of `from_file`: a full sector buffer
      split at bytes 24 and 2072. */
  function SplitSector(buffer: seq<Byte>): (s: Sector)
    requires |buffer| == SectorSize
    ensures s.Valid() && SectorBytes(s) == buffer
  {
    var s := Sector(buffer[..24], buffer[24..2072], buffer[2072..]);
    assert SectorBytes(s) == buffer[..24] + buffer[24..2072] + buffer[2072..];
    assert buffer[..24] + buffer[24..2072] == buffer[..2072];
    s
  }

  /** Splitting the bytes of a sector gives the sector back. */
  lemma SplitSectorBytes(s: Sector)
    requires s.Valid()
    ensures SplitSector(SectorBytes(s)) == s
  {
    var b := SectorBytes(s);
    assert b[..24] == s.header;
    assert b[24..2072] == s.data;
    assert b[2072..] == s.ecc;
  }

  /** The `CdRom` struct: the sectors in file order. */
  datatype Disc = Disc(sectors: seq<Sector>)
  {
    predicate Valid() {
      forall i :: 0 <= i < |sectors| ==> sectors[i].Valid()
    }
  }

  // ---------------------------------------------------------------------
  // Reading the file
  // ---------------------------------------------------------------------

  /** The sectors `from_file` reads: one per full 2354-byte buffer, until
      fewer bytes than that are left. */
  function Sectors(file: seq<Byte>): seq<Sector>
    decreases |file|
  {
    if |file| < SectorSize then []
    else [SplitSector(file[..SectorSize])] + Sectors(file[SectorSize..])
  }

  /** The sectors laid back to back. */
  function Concat(sectors: seq<Sector>): seq<Byte> {
    if sectors == [] then [] else SectorBytes(sectors[0]) + Concat(sectors[1..])
  }

  /** `from_file` yields `floor(len / 2354)` sectors, sector `k` being bytes
      `[2354 k, 2354 (k + 1))` of the file; laid back to back they give the
      file without its trailing partial sector. */
  lemma {:induction false} SectorsOfFile(file: seq<Byte>)
    ensures |Sectors(file)| == |file| / SectorSize
    ensures forall k :: 0 <= k < |Sectors(file)| ==>
              (k + 1) * SectorSize <= |file| &&
              Sectors(file)[k] == SplitSector(file[k * SectorSize..(k + 1) * SectorSize])
    ensures Concat(Sectors(file)) == file[..|Sectors(file)| * SectorSize]
    decreases |file|
  {
    if |file| >= SectorSize {
      var rest := file[SectorSize..];
      SectorsOfFile(rest);
      var r := Sectors(file);
      assert r[1..] == Sectors(rest);
      forall k | 0 <= k < |r|
        ensures (k + 1) * SectorSize <= |file| &&
                r[k] == SplitSector(file[k * SectorSize..(k + 1) * SectorSize])
      {
        if k > 0 {
          assert rest[(k - 1) * SectorSize..k * SectorSize] == file[k * SectorSize..(k + 1) * SectorSize];
        }
      }
      assert Concat(r) == SectorBytes(r[0]) + Concat(r[1..]);
      assert file[..|r| * SectorSize] == file[..SectorSize] + rest[..(|r| - 1) * SectorSize];
    }
  }

  /** `CdRom::from_file` on the file's bytes. */
  method FromFile(file: seq<Byte>) returns (cd: Disc)
    ensures cd.sectors == Sectors(file) && cd.Valid()
  {
    var sectors := [];
    var position := 0;
    while |file| - position >= SectorSize
      invariant 0 <= position <= |file|
      invariant sectors + Sectors(file[position..]) == Sectors(file)
      invariant forall i :: 0 <= i < |sectors| ==> sectors[i].Valid()
      decreases |file| - position
    {
      var buffer := file[position..position + SectorSize];
      assert file[position..][..SectorSize] == buffer;
      assert file[position..][SectorSize..] == file[position + SectorSize..];
      sectors := sectors + [SplitSector(buffer)];
      position := position + SectorSize;
    }
    cd := Disc(sectors);
  }

  // ---------------------------------------------------------------------
  // ECC check
  // ---------------------------------------------------------------------

  /** The `fold` of the ECC bytes into a `u32` (at most 282 * 255, so it
      never wraps). */
  function EccSum(ecc: seq<Byte>): nat {
    if ecc == [] then 0 else EccSum(ecc[..|ecc| - 1]) + ecc[|ecc| - 1]
  }

  /** The ECC sum is zero exactly when every ECC byte is zero. */
  lemma {:induction false} EccSumZeroIff(ecc: seq<Byte>)
    ensures EccSum(ecc) == 0 <==> forall i :: 0 <= i < |ecc| ==> ecc[i] == 0
    ensures EccSum(ecc) <= 255 * |ecc|
  {
    if ecc != [] {
      EccSumZeroIff(ecc[..|ecc| - 1]);
    }
  }

  /** The failure of `check_ecc`: the message names the sector and its sum. */
  datatype EccError = EccError(sector: nat, ecc: nat)

  /** `check_ecc`. */
  method CheckEcc(cd: Disc) returns (r: Result<bool, EccError>)
    ensures r == Ok(true) <==> forall i :: 0 <= i < |cd.sectors| ==> EccSum(cd.sectors[i].ecc) == 0
    ensures r.Ok? ==> r.value
    ensures r.Err? ==>
              r.error.sector < |cd.sectors| && r.error.ecc == EccSum(cd.sectors[r.error.sector].ecc) &&
              r.error.ecc != 0 &&
              forall j :: 0 <= j < r.error.sector ==> EccSum(cd.sectors[j].ecc) == 0
  {
    var i := 0;
    while i < |cd.sectors|
      invariant 0 <= i <= |cd.sectors|
      invariant forall j :: 0 <= j < i ==> EccSum(cd.sectors[j].ecc) == 0
    {
      var ecc := SumOf(cd.sectors[i].ecc);
      if ecc != 0 {
        return Err(EccError(i, ecc));
      }
      i := i + 1;
    }
    return Ok(true);
  }

  /** The `fold` itself. */
  method SumOf(bytes: seq<Byte>) returns (sum: nat)
    ensures sum == EccSum(bytes)
  {
    sum := 0;
    var k := 0;
    while k < |bytes|
      invariant 0 <= k <= |bytes|
      invariant sum == EccSum(bytes[..k])
    {
      assert bytes[..k + 1][..k] == bytes[..k];
      sum := sum + bytes[k];
      k := k + 1;
    }
    assert bytes[..k] == bytes;
  }

  // ---------------------------------------------------------------------
  // System identifier strings
  // ---------------------------------------------------------------------

  /** `String::from_utf8_lossy` on ASCII bytes: bytes below 128 are their
      characters, every other byte becomes U+FFFD. */
  function Lossy(bytes: seq<Byte>): (s: string)
    ensures |s| == |bytes|
    ensures forall i :: 0 <= i < |bytes| ==>
              (bytes[i] < 128 ==> s[i] as int == bytes[i]) && (bytes[i] >= 128 ==> s[i] == '\U{FFFD}')
  {
    seq(|bytes|, i requires 0 <= i < |bytes| => if bytes[i] < 128 then bytes[i] as char else '\U{FFFD}')
  }

  /** `trim_end_matches(char::from(0))`. */
  function TrimTrailingNul(s: string): (r: string)
    ensures r <= s
    ensures |r| > 0 ==> r[|r| - 1] != '\0'
    ensures forall i :: |r| <= i < |s| ==> s[i] == '\0'
    decreases |s|
  {
    if |s| > 0 && s[|s| - 1] == '\0' then TrimTrailingNul(s[..|s| - 1]) else s
  }

  /** `get_system_info`: the `length` data bytes of sector 16 at `offset`,
      decoded and without trailing NULs. It panics (here: is not defined)
      when the disc has no sector 16. */
  function SystemInfo(cd: Disc, offset: nat, length: nat): (r: Result<string, string>)
    requires cd.Valid() && |cd.sectors| > SystemIdentifierSector && offset + length <= SectorDataSize
    ensures r.Ok?
    ensures var decoded := Lossy(cd.sectors[SystemIdentifierSector].data[offset..offset + length]);
            && r.value <= decoded && |r.value| <= length
            && (|r.value| > 0 ==> r.value[|r.value| - 1] != '\0')
            && forall i :: |r.value| <= i < length ==> decoded[i] == '\0'
  {
    Ok(TrimTrailingNul(Lossy(cd.sectors[SystemIdentifierSector].data[offset..offset + length])))
  }

  function Title(cd: Disc): (r: Result<string, string>)
    requires cd.Valid() && |cd.sectors| > SystemIdentifierSector
    ensures r.Ok? && |r.value| <= SystemInfoLength
    ensures r.value <= Lossy(cd.sectors[SystemIdentifierSector].data[GameTitleOffset..GameTitleOffset + SystemInfoLength])
  {
    SystemInfo(cd, GameTitleOffset, SystemInfoLength)
  }

  function Developer(cd: Disc): (r: Result<string, string>)
    requires cd.Valid() && |cd.sectors| > SystemIdentifierSector
    ensures r.Ok? && |r.value| <= SystemInfoLength
    ensures r.value <= Lossy(cd.sectors[SystemIdentifierSector].data[GameDeveloperOffset..GameDeveloperOffset + SystemInfoLength])
  {
    SystemInfo(cd, GameDeveloperOffset, SystemInfoLength)
  }

  function Publisher(cd: Disc): (r: Result<string, string>)
    requires cd.Valid() && |cd.sectors| > SystemIdentifierSector
    ensures r.Ok? && |r.value| <= SystemInfoLength
    ensures r.value <= Lossy(cd.sectors[SystemIdentifierSector].data[GamePublisherOffset..GamePublisherOffset + SystemInfoLength])
  {
    SystemInfo(cd, GamePublisherOffset, SystemInfoLength)
  }

  function Platform(cd: Disc): (r: Result<string, string>)
    requires cd.Valid() && |cd.sectors| > SystemIdentifierSector
    ensures r.Ok? && |r.value| <= SystemInfoLength
    ensures r.value <= Lossy(cd.sectors[SystemIdentifierSector].data[GamePlatformOffset..GamePlatformOffset + SystemInfoLength])
  {
    SystemInfo(cd, GamePlatformOffset, SystemInfoLength)
  }

  // ---------------------------------------------------------------------
  // 15-bit colour palettes
  // ---------------------------------------------------------------------

  /** A big-endian palette word as a colour: bits 10..14, 5..9 and 0..4 are
      red, green and blue, each shifted left by 3. Bit 15 is ignored. */
  function Colour555(word: U16): Rgb {
    Rgb(((word / 0x400) % 0x20) * 8, ((word / 0x20) % 0x20) * 8, (word % 0x20) * 8)
  }

  /** A colour whose channels are multiples of 8, as a palette word. */
  function Pack555(c: Rgb): U16 {
    (c.r / 8) * 0x400 + (c.g / 8) * 0x20 + c.b / 8
  }

  /** Decoding keeps five bits per channel: the channels are multiples of 8
      up to 248, and packing them again gives the word without bit 15. */
  lemma Colour555Pack(word: U16)
    ensures var d := Colour555(word);
            && d.r % 8 == 0 && d.g % 8 == 0 && d.b % 8 == 0
            && d.r <= 248 && d.g <= 248 && d.b <= 248
            && Pack555(d) == word % 0x8000
  {
    Times8((word / 0x400) % 0x20);
    Times8((word / 0x20) % 0x20);
    Times8(word % 0x20);
    Base32Digits(word);
  }

  lemma Times8(x: nat)
    requires x < 0x20
    ensures (x * 8) % 8 == 0 && x * 8 <= 248 && (x * 8) / 8 == x
  {
  }

  /** The low fifteen bits of a word are its three base-32 digits. */
  lemma Base32Digits(word: U16)
    ensures word % 0x8000 == 0x400 * ((word / 0x400) % 0x20) + 0x20 * ((word / 0x20) % 0x20) + word % 0x20
  {
    var q, b := word / 32, word % 32;
    assert word == 32 * q + b;
    var q2, g := q / 32, q % 32;
    assert q == 32 * q2 + g;
    var top, r := q2 / 32, q2 % 32;
    assert q2 == 32 * top + r;
    assert word == 0x8000 * top + (0x400 * r + 32 * g + b);
    assert word / 0x400 == q2;
  }

  /** A colour whose channels are multiples of 8 decodes back from its
      packed word. */
  lemma Pack555Decodes(c: Rgb)
    requires c.r % 8 == 0 && c.g % 8 == 0 && c.b % 8 == 0
    ensures Colour555(Pack555(c)) == c
  {
    var r, g, b := c.r / 8, c.g / 8, c.b / 8;
    var w := Pack555(c);
    assert w == 0x400 * r + (32 * g + b);
    assert w / 0x400 == r;
    assert w / 0x20 == 32 * r + g;
    assert (w / 0x20) % 0x20 == g;
    assert w % 0x20 == b;
  }

  /** `parse_color_palette`: one colour per byte pair. An odd length makes
      the last `data[i + 1]` panic, hence the precondition. */
  /** The colour of palette entry `k` of a palette starting at byte
      `offset`: its two bytes read big-endian as a 15-bit colour. */
  function PaletteColour(data: seq<Byte>, offset: nat, k: nat): Rgb
    requires offset + 2 * k + 1 < |data|
  {
    Colour555(FromBigEndian16(data[offset + 2 * k], data[offset + 2 * k + 1]))
  }

  method ParseColorPalette(data: seq<Byte>) returns (colors: seq<Rgb>)
    requires |data| % 2 == 0
    ensures |colors| == |data| / 2
    ensures forall k :: 0 <= k < |colors| ==> colors[k] == PaletteColour(data, 0, k)
  {
    colors := [];
    var i := 0;
    while i < |data|
      invariant 0 <= i <= |data| && i % 2 == 0 && |colors| == i / 2
      invariant forall k :: 0 <= k < |colors| ==> colors[k] == PaletteColour(data, 0, k)
    {
      var color := FromBigEndian16(data[i], data[i + 1]);
      colors := colors + [Colour555(color)];
      i := i + 2;
    }
  }

  // ---------------------------------------------------------------------
  // TIM images
  // ---------------------------------------------------------------------

  /** The fields `parse_tim_image` reads from the start of a TIM image. */
  datatype TimHeader = TimHeader(width: U16, height: U16, clutOffset: U32, clutLength: U32, pixelOffset: U32)

  function ReadTimHeader(d: seq<Byte>): TimHeader
    requires |d| >= 20
  {
    TimHeader(FromBigEndian16(d[4], d[5]), FromBigEndian16(d[6], d[7]),
              FromBigEndian32(d[8..12]), FromBigEndian32(d[12..16]), FromBigEndian32(d[16..20]))
  }

  /** Each way `parse_tim_image` can panic, in the order it would. */
  datatype TimPanic =
    | SectorOutOfRange        // `self.sectors[sector_index]`
    | OffsetOutOfRange        // `data[byte_offset..]` past the data
    | HeaderOutOfRange        // fewer than 20 bytes left for the header
    | PaletteOutOfRange       // the CLUT slice runs past the data
    | OddPaletteLength        // `parse_color_palette` on an odd length
    | PixelsOutOfRange        // the pixel slice runs past the data
    | ColourIndexOutOfRange   // a pixel byte beyond the palette

  /** An `RgbImage` as `from_raw` builds it: three bytes per pixel, row by row. */
  datatype RgbBuffer = RgbBuffer(width: nat, height: nat, raw: seq<Byte>)

  function Channels(c: Rgb): seq<Byte> {
    [c.r, c.g, c.b]
  }

  /** Pixel `m` of the raw bytes, bytes `3m`, `3m + 1` and `3m + 2`, holds
      the channels of `c`. */
  predicate PixelAt(raw: seq<Byte>, m: nat, c: Rgb) {
    3 * m + 3 <= |raw| && raw[3 * m] == c.r && raw[3 * m + 1] == c.g && raw[3 * m + 2] == c.b
  }

  /** The number of pixels of a TIM image. */
  function PixelCount(h: TimHeader): nat {
    h.width * h.height
  }

  /** The first panic `parse_tim_image` meets on the bytes `d` from the start
      of the image to the end of the sector data, or `None`. */
  function TimFailure(d: seq<Byte>): Option<TimPanic> {
    if |d| < 20 then Some(HeaderOutOfRange)
    else
      var h := ReadTimHeader(d);
      if h.clutOffset + h.clutLength > |d| then Some(PaletteOutOfRange)
      else if h.clutLength % 2 != 0 then Some(OddPaletteLength)
      else if h.pixelOffset + PixelCount(h) > |d| then Some(PixelsOutOfRange)
      else if exists k :: h.pixelOffset <= k < h.pixelOffset + PixelCount(h) && d[k] >= h.clutLength / 2
      then Some(ColourIndexOutOfRange)
      else None
  }

  /** The image that a TIM image without panics decodes to: the header's
      dimensions and, for pixel `k`, the channels of the palette colour its
      byte selects. */
  ghost predicate TimDecodes(d: seq<Byte>, img: RgbBuffer)
    requires TimFailure(d).None?
  {
    var h := ReadTimHeader(d);
    && img.width == h.width && img.height == h.height
    && |img.raw| == 3 * PixelCount(h)
    && forall k :: 0 <= k < PixelCount(h) ==> PixelAt(img.raw, k, TimPixel(d, h, k))
  }

  /** The colour of pixel `k`: the palette entry its byte selects. */
  function TimPixel(d: seq<Byte>, h: TimHeader, k: nat): Rgb
    requires h.pixelOffset + k < |d| && h.clutOffset + 2 * (d[h.pixelOffset + k] as int) + 1 < |d|
  {
    PaletteColour(d, h.clutOffset, d[h.pixelOffset + k])
  }

  /** `parse_tim_image` for the TIM image starting at byte `byteOffset` of
      sector `sectorIndex`. The result is `Ok` exactly where the source
      returns an image, and the error names the first panic it would hit. */
  method ParseTimImage(cd: Disc, sectorIndex: nat, byteOffset: nat) returns (r: Result<RgbBuffer, TimPanic>)
    requires cd.Valid()
    ensures sectorIndex >= |cd.sectors| ==> r == Err(SectorOutOfRange)
    ensures sectorIndex < |cd.sectors| && byteOffset > SectorDataSize ==> r == Err(OffsetOutOfRange)
    ensures sectorIndex < |cd.sectors| && byteOffset <= SectorDataSize ==>
              var d := cd.sectors[sectorIndex].data[byteOffset..];
              (TimFailure(d).Some? ==> r == Err(TimFailure(d).value)) &&
              (TimFailure(d).None? ==> r.Ok? && TimDecodes(d, r.value))
  {
    if sectorIndex >= |cd.sectors| {
      return Err(SectorOutOfRange);
    }
    if byteOffset > SectorDataSize {
      return Err(OffsetOutOfRange);
    }
    r := DecodeTim(cd.sectors[sectorIndex].data[byteOffset..]);
  }

  /** The body of `parse_tim_image` once the sector slice is taken. */
  method DecodeTim(d: seq<Byte>) returns (r: Result<RgbBuffer, TimPanic>)
    ensures TimFailure(d).Some? ==> r == Err(TimFailure(d).value)
    ensures TimFailure(d).None? ==> r.Ok? && TimDecodes(d, r.value)
  {
    if |d| < 20 {
      return Err(HeaderOutOfRange);
    }
    var header := ReadTimHeader(d);
    var clutOffset, clutLength, pixelOffset := header.clutOffset, header.clutLength, header.pixelOffset;
    var pixelDataLength := PixelCount(header);
    if clutOffset + clutLength > |d| {
      return Err(PaletteOutOfRange);
    }
    var clutData := d[clutOffset..clutOffset + clutLength];
    if clutLength % 2 != 0 {
      return Err(OddPaletteLength);
    }
    var clut := ParseColorPalette(clutData);
    if pixelOffset + pixelDataLength > |d| {
      return Err(PixelsOutOfRange);
    }
    PaletteOfSlice(d, clutOffset, clutLength, clut);
    var pixels := LookUpPixels(d, pixelOffset, pixelDataLength, clut);
    if pixels.None? {
      return Err(ColourIndexOutOfRange);
    }
    ClutPixelsDecode(d, header, clut);
    return Ok(RgbBuffer(header.width, header.height, pixels.value));
  }

  /** The palette parsed from the slice `d[offset..offset + length]` holds
      the colours of the palette at `offset` in `d`. */
  lemma PaletteOfSlice(d: seq<Byte>, offset: nat, length: nat, clut: seq<Rgb>)
    requires offset + length <= |d| && |clut| == length / 2
    requires forall k :: 0 <= k < |clut| ==> clut[k] == PaletteColour(d[offset..offset + length], 0, k)
    ensures forall k :: 0 <= k < |clut| ==> clut[k] == PaletteColour(d, offset, k)
  {
    forall k | 0 <= k < |clut|
      ensures clut[k] == PaletteColour(d, offset, k)
    {
      assert d[offset..offset + length][2 * k] == d[offset + 2 * k];
      assert d[offset..offset + length][2 * k + 1] == d[offset + 2 * k + 1];
    }
  }

  /** With the image's palette, the looked-up pixels are the decoded
      pixels of the image. */
  lemma ClutPixelsDecode(d: seq<Byte>, h: TimHeader, clut: seq<Rgb>)
    requires h.pixelOffset + PixelCount(h) <= |d| && h.clutOffset + h.clutLength <= |d|
    requires |clut| == h.clutLength / 2
    requires forall k :: 0 <= k < |clut| ==> clut[k] == PaletteColour(d, h.clutOffset, k)
    requires InPalette(d, h.pixelOffset, PixelCount(h), |clut|)
    ensures var raw := ClutPixels(d, h.pixelOffset, PixelCount(h), clut);
            && |raw| == 3 * PixelCount(h)
            && forall m :: 0 <= m < PixelCount(h) ==> PixelAt(raw, m, TimPixel(d, h, m))
  {
    var raw := ClutPixels(d, h.pixelOffset, PixelCount(h), clut);
    ClutPixelsTriples(d, h.pixelOffset, PixelCount(h), clut);
    forall m | 0 <= m < PixelCount(h)
      ensures PixelAt(raw, m, TimPixel(d, h, m))
    {
      EntryIsTimPixel(d, h, clut, raw, m);
    }
  }

  lemma EntryIsTimPixel(d: seq<Byte>, h: TimHeader, clut: seq<Rgb>, raw: seq<Byte>, m: nat)
    requires h.pixelOffset + PixelCount(h) <= |d| && h.clutOffset + h.clutLength <= |d|
    requires |clut| == h.clutLength / 2
    requires forall k :: 0 <= k < |clut| ==> clut[k] == PaletteColour(d, h.clutOffset, k)
    requires m < PixelCount(h) && PixelIsEntry(raw, m, d, h.pixelOffset, clut)
    ensures PixelAt(raw, m, TimPixel(d, h, m))
  {
    assert clut[d[h.pixelOffset + m]] == TimPixel(d, h, m);
  }

  /** Every byte of `d[offset..offset + n]` is an index into a palette of
      `size` entries. */
  predicate InPalette(d: seq<Byte>, offset: nat, n: nat, size: nat)
    requires offset + n <= |d|
  {
    forall j :: offset <= j < offset + n ==> d[j] < size
  }

  /** The channel bytes of the palette entries selected by the bytes of
      `d[offset..offset + n]`, in order. */
  ghost function ClutPixels(d: seq<Byte>, offset: nat, n: nat, clut: seq<Rgb>): seq<Byte>
    requires offset + n <= |d| && InPalette(d, offset, n, |clut|)
  {
    if n == 0 then [] else ClutPixels(d, offset, n - 1, clut) + Channels(clut[d[offset + n - 1]])
  }

  /** Pixel `m` of `raw` holds the palette entry that byte `offset + m` of
      `d` selects. */
  predicate PixelIsEntry(raw: seq<Byte>, m: nat, d: seq<Byte>, offset: nat, clut: seq<Rgb>) {
    offset + m < |d| && d[offset + m] < |clut| && PixelAt(raw, m, clut[d[offset + m]])
  }

  /** Pixel `m` occupies bytes `3m`, `3m + 1` and `3m + 2`. */
  lemma {:induction false} ClutPixelsTriples(d: seq<Byte>, offset: nat, n: nat, clut: seq<Rgb>)
    requires offset + n <= |d| && InPalette(d, offset, n, |clut|)
    ensures |ClutPixels(d, offset, n, clut)| == 3 * n
    ensures forall m :: 0 <= m < n ==> PixelIsEntry(ClutPixels(d, offset, n, clut), m, d, offset, clut)
  {
    if n > 0 {
      ClutPixelsTriples(d, offset, n - 1, clut);
      var raw := ClutPixels(d, offset, n - 1, clut);
      AppendKeepsPixels(raw, clut[d[offset + n - 1]], n - 1);
      assert ClutPixels(d, offset, n, clut) == raw + Channels(clut[d[offset + n - 1]]);
      forall m | 0 <= m < n
        ensures PixelIsEntry(ClutPixels(d, offset, n, clut), m, d, offset, clut)
      {
        if m < n - 1 {
          assert PixelIsEntry(raw, m, d, offset, clut);
        }
      }
    }
  }

  /** The pixel loop of `parse_tim_image` over `pixel_data`, the `count`
      bytes from `offset`: three channel bytes per pixel, or `None` where
      `clut[*pixel]` would panic. */
  method LookUpPixels(d: seq<Byte>, offset: nat, count: nat, clut: seq<Rgb>) returns (pixels: Option<seq<Byte>>)
    requires offset + count <= |d|
    ensures pixels.None? <==> exists k :: offset <= k < offset + count && d[k] >= |clut|
    ensures pixels.Some? ==> InPalette(d, offset, count, |clut|) && pixels.value == ClutPixels(d, offset, count, clut)
  {
    var raw := [];
    var k := 0;
    while k < count
      invariant 0 <= k <= count
      invariant InPalette(d, offset, k, |clut|) && raw == ClutPixels(d, offset, k, clut)
    {
      var index := d[offset + k];
      if index >= |clut| {
        assert offset <= offset + k < offset + count;
        return None;
      }
      raw := raw + Channels(clut[index]);
      k := k + 1;
    }
    return Some(raw);
  }

  /** Appending a pixel's three channel bytes keeps the earlier pixels. */
  lemma AppendKeepsPixels(raw: seq<Byte>, c: Rgb, k: nat)
    requires |raw| == 3 * k
    ensures forall m, e :: PixelAt(raw, m, e) ==> PixelAt(raw + Channels(c), m, e)
    ensures PixelAt(raw + Channels(c), k, c)
  {
  }


  // ---------------------------------------------------------------------
  // The "TIM1" scan
  // ---------------------------------------------------------------------

  /** The bytes of "TIM1". */
  const Tim1Marker: seq<Byte> := [84, 73, 77, 49]

  /** The offsets `j < n` of `data` that start a "TIM1" marker, ascending. */
  function MarkersBelow(data: seq<Byte>, n: nat): (r: seq<nat>)
    requires n + 4 <= |data|
  {
    if n == 0 then []
    else MarkersBelow(data, n - 1) + (if data[n - 1..n + 3] == Tim1Marker then [n - 1] else [])
  }

  /** The (sector, offset) pairs of markers in the first `n` sectors, offsets
      below 2044 only, since the loop runs `0..data.len() - 4`. */
  function Markers(sectors: seq<Sector>, n: nat): (r: seq<(nat, nat)>)
    requires n <= |sectors| && forall i :: 0 <= i < |sectors| ==> sectors[i].Valid()
  {
    if n == 0 then []
    else Markers(sectors, n - 1) + seq(|MarkersBelow(sectors[n - 1].data, SectorDataSize - 4)|,
                                       k requires 0 <= k < |MarkersBelow(sectors[n - 1].data, SectorDataSize - 4)| =>
                                         (n - 1, MarkersBelow(sectors[n - 1].data, SectorDataSize - 4)[k]))
  }

  lemma {:induction false} MarkersBelowExactly(data: seq<Byte>, n: nat)
    requires n + 4 <= |data|
    ensures forall j: nat :: j in MarkersBelow(data, n) <==> j < n && data[j..j + 4] == Tim1Marker
  {
    if n > 0 {
      MarkersBelowExactly(data, n - 1);
    }
  }

  /** The offsets of one sector's scan are below the bound and strictly
      ascending. */
  lemma {:induction false} MarkersBelowAscending(data: seq<Byte>, n: nat)
    requires n + 4 <= |data|
    ensures forall k :: 0 <= k < |MarkersBelow(data, n)| ==> MarkersBelow(data, n)[k] < n
    ensures forall k1, k2 :: 0 <= k1 < k2 < |MarkersBelow(data, n)| ==> MarkersBelow(data, n)[k1] < MarkersBelow(data, n)[k2]
  {
    if n > 0 {
      MarkersBelowAscending(data, n - 1);
      var before := MarkersBelow(data, n - 1);
      if data[n - 1..n + 3] == Tim1Marker {
        assert MarkersBelow(data, n) == before + [n - 1];
      }
    }
  }

  /** `a` comes before `b` in the scan: an earlier sector, or the same
      sector at a lower offset. */
  predicate ScannedBefore(a: (nat, nat), b: (nat, nat)) {
    a.0 < b.0 || (a.0 == b.0 && a.1 < b.1)
  }

  /** The scan of the first `n` sectors reports sectors below `n`, in sector
      and offset order, with no pair twice. */
  lemma {:induction false} MarkersAscending(sectors: seq<Sector>, n: nat)
    requires n <= |sectors| && forall i :: 0 <= i < |sectors| ==> sectors[i].Valid()
    ensures forall k :: 0 <= k < |Markers(sectors, n)| ==> Markers(sectors, n)[k].0 < n
    ensures forall k1, k2 :: 0 <= k1 < k2 < |Markers(sectors, n)| ==>
              ScannedBefore(Markers(sectors, n)[k1], Markers(sectors, n)[k2])
  {
    if n > 0 {
      MarkersAscending(sectors, n - 1);
      var last := MarkersBelow(sectors[n - 1].data, SectorDataSize - 4);
      MarkersBelowAscending(sectors[n - 1].data, SectorDataSize - 4);
      var before := Markers(sectors, n - 1);
      var pairs: seq<(nat, nat)> := seq(|last|, k requires 0 <= k < |last| => (n - 1, last[k]));
      var m := Markers(sectors, n);
      assert m == before + pairs;
      assert forall k :: 0 <= k < |pairs| ==> pairs[k] == (n - 1, last[k]);
      forall k | 0 <= k < |m|
        ensures m[k].0 < n
      {
        if k < |before| {
          assert m[k] == before[k];
        } else {
          assert m[k] == pairs[k - |before|];
        }
      }
      forall k1, k2 | 0 <= k1 < k2 < |m|
        ensures ScannedBefore(m[k1], m[k2])
      {
        if k2 < |before| {
          assert m[k1] == before[k1] && m[k2] == before[k2];
        } else if k1 < |before| {
          assert m[k1] == before[k1] && m[k2] == pairs[k2 - |before|];
        } else {
          assert m[k1] == pairs[k1 - |before|] && m[k2] == pairs[k2 - |before|];
        }
      }
    }
  }

  /** The pairs of sector `i` with each offset of `offsets`. */
  lemma PairsInSector(i: nat, offsets: seq<nat>, pairs: seq<(nat, nat)>)
    requires |pairs| == |offsets| && forall k :: 0 <= k < |offsets| ==> pairs[k] == (i, offsets[k])
    ensures forall a: nat, b: nat :: (a, b) in pairs <==> a == i && b in offsets
  {
    forall a: nat, b: nat
      ensures (a, b) in pairs <==> a == i && b in offsets
    {
      if (a, b) in pairs {
        var k :| 0 <= k < |pairs| && pairs[k] == (a, b);
      }
      if a == i && b in offsets {
        var k :| 0 <= k < |offsets| && offsets[k] == b;
        assert pairs[k] == (a, b);
      }
    }
  }

  /** The scan reports exactly the pairs `(i, j)` with `j < 2044` where
      sector `i`'s data holds "TIM1" at `j`. A marker at offset 2044, the
      last place one fits, is never reported. */
  lemma {:induction false} MarkersExactly(sectors: seq<Sector>, n: nat)
    requires n <= |sectors| && forall i :: 0 <= i < |sectors| ==> sectors[i].Valid()
    ensures forall i: nat, j: nat :: (i, j) in Markers(sectors, n) <==>
              i < n && j < SectorDataSize - 4 && sectors[i].data[j..j + 4] == Tim1Marker
  {
    if n > 0 {
      MarkersExactly(sectors, n - 1);
      MarkersBelowExactly(sectors[n - 1].data, SectorDataSize - 4);
      var last := MarkersBelow(sectors[n - 1].data, SectorDataSize - 4);
      var pairs: seq<(nat, nat)> := seq(|last|, k requires 0 <= k < |last| => (n - 1, last[k]));
      assert Markers(sectors, n) == Markers(sectors, n - 1) + pairs;
      PairsInSector(n - 1, last, pairs);
      forall i: nat, j: nat
        ensures (i, j) in Markers(sectors, n) <==>
                i < n && j < SectorDataSize - 4 && sectors[i].data[j..j + 4] == Tim1Marker
      {
        assert (i, j) in Markers(sectors, n) <==> (i, j) in Markers(sectors, n - 1) || (i, j) in pairs;
      }
    }
  }

  /** The marker search of `write_tim_images`: the positions it hands to
      `parse_tim_image`, in sector and offset order. */
  method WriteTimImages(cd: Disc) returns (found: seq<(nat, nat)>)
    requires cd.Valid()
    ensures found == Markers(cd.sectors, |cd.sectors|)
  {
    found := [];
    var i := 0;
    while i < |cd.sectors|
      invariant 0 <= i <= |cd.sectors|
      invariant found == Markers(cd.sectors, i)
    {
      var data := cd.sectors[i].data;
      var inSector: seq<nat> := [];
      var j := 0;
      while j < |data| - 4
        invariant 0 <= j <= |data| - 4
        invariant inSector == MarkersBelow(data, j)
      {
        if data[j..j + 4] == Tim1Marker {
          inSector := inSector + [j];
        }
        j := j + 1;
      }
      found := found + seq(|inSector|, k requires 0 <= k < |inSector| => (i, inSector[k]));
      i := i + 1;
    }
  }
}
