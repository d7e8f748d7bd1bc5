/** Pixel formats of DDS files: what the writer stores for a format, and the table the reader searches. */
module DdsFormats {
  import opened Textures

  // ---- pixel format records ----

  const FOURCC: bv32 := 0x4
  const RGB: bv32 := 0x40
  const RGBA: bv32 := 0x41
  const LUMINANCE: bv32 := 0x20000
  const LUMINANCEA: bv32 := 0x20001
  const ALPHA: bv32 := 0x2
  const PAL8: bv32 := 0x20

  const PIXELFORMAT_SIZE: nat := 32

  datatype PixelFormat = PixelFormat(dwSize: nat, dwFlags: bv32, dwFourCC: nat, dwRGBBitCount: nat,
                                     dwRBitMask: nat, dwGBitMask: nat, dwBBitMask: nat, dwABitMask: nat)

  function FourCC(c0: char, c1: char, c2: char, c3: char): nat {
    c0 as nat + 0x100 * c1 as nat + 0x1_0000 * c2 as nat + 0x100_0000 * c3 as nat
  }

  function Code(fourCC: nat): PixelFormat {
    PixelFormat(PIXELFORMAT_SIZE, FOURCC, fourCC, 0, 0, 0, 0, 0)
  }

  function Masks(flags: bv32, bits: nat, r: nat, g: nat, b: nat, a: nat): PixelFormat {
    PixelFormat(PIXELFORMAT_SIZE, flags, 0, bits, r, g, b, a)
  }

  // ---- the reader's table ----

  const CONV_NONE: bv32 := 0x0
  const CONV_EXPAND: bv32 := 0x1
  const CONV_NOALPHA: bv32 := 0x2
  const CONV_SWIZZLE: bv32 := 0x4
  const CONV_PAL8: bv32 := 0x8
  const CONV_888: bv32 := 0x10
  const CONV_565: bv32 := 0x20
  const CONV_5551: bv32 := 0x40
  const CONV_4444: bv32 := 0x80
  const CONV_44: bv32 := 0x100
  const CONV_332: bv32 := 0x200
  const CONV_8332: bv32 := 0x400
  const CONV_A8P8: bv32 := 0x800
  const CONV_DX10: bv32 := 0x1_0000
  const CONV_PMALPHA: bv32 := 0x2_0000

  datatype Legacy = Legacy(format: Format, convFlags: bv32, ddpf: PixelFormat)

  const MAP_SIZE: nat := 46

  // The table, row by row.
  function Entry(i: nat): Legacy
    requires i < MAP_SIZE
  {
    match i
    case 0 => Legacy(BC1_UNORM, CONV_NONE, Code(FourCC('D', 'X', 'T', '1')))
    case 1 => Legacy(BC2_UNORM, CONV_NONE, Code(FourCC('D', 'X', 'T', '3')))
    case 2 => Legacy(BC3_UNORM, CONV_NONE, Code(FourCC('D', 'X', 'T', '5')))
    case 3 => Legacy(BC2_UNORM, CONV_PMALPHA, Code(FourCC('D', 'X', 'T', '2')))
    case 4 => Legacy(BC3_UNORM, CONV_PMALPHA, Code(FourCC('D', 'X', 'T', '4')))
    case 5 => Legacy(BC4_UNORM, CONV_NONE, Code(FourCC('B', 'C', '4', 'U')))
    case 6 => Legacy(BC4_SNORM, CONV_NONE, Code(FourCC('B', 'C', '4', 'S')))
    case 7 => Legacy(BC5_UNORM, CONV_NONE, Code(FourCC('B', 'C', '5', 'U')))
    case 8 => Legacy(BC5_SNORM, CONV_NONE, Code(FourCC('B', 'C', '5', 'S')))
    case 9 => Legacy(BC4_UNORM, CONV_NONE, Code(FourCC('A', 'T', 'I', '1')))
    case 10 => Legacy(BC5_UNORM, CONV_NONE, Code(FourCC('A', 'T', 'I', '2')))
    case 11 => Legacy(R8G8_B8G8_UNORM, CONV_NONE, Code(FourCC('R', 'G', 'B', 'G')))
    case 12 => Legacy(G8R8_G8B8_UNORM, CONV_NONE, Code(FourCC('G', 'R', 'G', 'B')))
    case 13 => Legacy(B8G8R8A8_UNORM, CONV_NONE, Masks(RGBA, 32, 0x00ff0000, 0x0000ff00, 0x000000ff, 0xff000000))
    case 14 => Legacy(B8G8R8X8_UNORM, CONV_NONE, Masks(RGB, 32, 0x00ff0000, 0x0000ff00, 0x000000ff, 0))
    case 15 => Legacy(R8G8B8A8_UNORM, CONV_NONE, Masks(RGBA, 32, 0x000000ff, 0x0000ff00, 0x00ff0000, 0xff000000))
    case 16 => Legacy(R8G8B8A8_UNORM, CONV_NOALPHA, Masks(RGB, 32, 0x000000ff, 0x0000ff00, 0x00ff0000, 0))
    case 17 => Legacy(R16G16_UNORM, CONV_NONE, Masks(RGB, 32, 0x0000ffff, 0xffff0000, 0, 0))
    case 18 => Legacy(R10G10B10A2_UNORM, CONV_SWIZZLE, Masks(RGB, 32, 0x000003ff, 0x000ffc00, 0x3ff00000, 0xc0000000))
    case 19 => Legacy(R10G10B10A2_UNORM, CONV_NONE, Masks(RGB, 32, 0x3ff00000, 0x000ffc00, 0x000003ff, 0xc0000000))
    case 20 => Legacy(R8G8B8A8_UNORM, CONV_EXPAND | CONV_NOALPHA | CONV_888, Masks(RGB, 24, 0x00ff0000, 0x0000ff00, 0x000000ff, 0))
    case 21 => Legacy(B5G6R5_UNORM, CONV_565, Masks(RGB, 16, 0xf800, 0x07e0, 0x001f, 0))
    case 22 => Legacy(B5G5R5A1_UNORM, CONV_5551, Masks(RGBA, 16, 0x7c00, 0x03e0, 0x001f, 0x8000))
    case 23 => Legacy(B5G5R5A1_UNORM, CONV_5551 | CONV_NOALPHA, Masks(RGB, 16, 0x7c00, 0x03e0, 0x001f, 0))
    case 24 => Legacy(R8G8B8A8_UNORM, CONV_EXPAND | CONV_8332, Masks(RGB, 16, 0x00e0, 0x001c, 0x0003, 0xff00))
    case 25 => Legacy(B5G6R5_UNORM, CONV_EXPAND | CONV_332, Masks(RGB, 8, 0xe0, 0x1c, 0x03, 0))
    case 26 => Legacy(R8_UNORM, CONV_NONE, Masks(LUMINANCE, 8, 0xff, 0, 0, 0))
    case 27 => Legacy(R16_UNORM, CONV_NONE, Masks(LUMINANCE, 16, 0xffff, 0, 0, 0))
    case 28 => Legacy(R8G8_UNORM, CONV_NONE, Masks(LUMINANCEA, 16, 0x00ff, 0, 0, 0xff00))
    case 29 => Legacy(A8_UNORM, CONV_NONE, Masks(ALPHA, 8, 0, 0, 0, 0xff))
    case 30 => Legacy(R16G16B16A16_UNORM, CONV_NONE, Code(36))
    case 31 => Legacy(R16G16B16A16_SNORM, CONV_NONE, Code(110))
    case 32 => Legacy(R16_FLOAT, CONV_NONE, Code(111))
    case 33 => Legacy(R16G16_FLOAT, CONV_NONE, Code(112))
    case 34 => Legacy(R16G16B16A16_FLOAT, CONV_NONE, Code(113))
    case 35 => Legacy(R32_FLOAT, CONV_NONE, Code(114))
    case 36 => Legacy(R32G32_FLOAT, CONV_NONE, Code(115))
    case 37 => Legacy(R32G32B32A32_FLOAT, CONV_NONE, Code(116))
    case 38 => Legacy(R32_FLOAT, CONV_NONE, Masks(RGB, 32, 0xffffffff, 0, 0, 0))
    case 39 => Legacy(R8G8B8A8_UNORM, CONV_EXPAND | CONV_PAL8 | CONV_A8P8, Masks(PAL8, 16, 0, 0, 0, 0))
    case 40 => Legacy(R8G8B8A8_UNORM, CONV_EXPAND | CONV_PAL8, Masks(PAL8, 8, 0, 0, 0, 0))
    case 41 => Legacy(B4G4R4A4_UNORM, CONV_4444, Masks(RGBA, 16, 0x0f00, 0x00f0, 0x000f, 0xf000))
    case 42 => Legacy(B4G4R4A4_UNORM, CONV_NOALPHA | CONV_4444, Masks(RGB, 16, 0x0f00, 0x00f0, 0x000f, 0))
    case 43 => Legacy(B4G4R4A4_UNORM, CONV_EXPAND | CONV_44, Masks(LUMINANCE, 8, 0x0f, 0, 0, 0xf0))
    case 44 => Legacy(YUY2, CONV_NONE, Code(FourCC('Y', 'U', 'Y', '2')))
    case _ => Legacy(YUY2, CONV_SWIZZLE, Code(FourCC('U', 'Y', 'V', 'Y')))
  }

  // How an entry describes a pixel format from a file.
  predicate Matches(d: PixelFormat, e: PixelFormat) {
    && d.dwFlags & e.dwFlags != 0
    && if e.dwFlags & FOURCC != 0 then d.dwFourCC == e.dwFourCC
       else if e.dwFlags & PAL8 != 0 then d.dwRGBBitCount == e.dwRGBBitCount
       else
         && d.dwRGBBitCount == e.dwRGBBitCount
         && d.dwRBitMask == e.dwRBitMask && d.dwGBitMask == e.dwGBitMask
         && d.dwBBitMask == e.dwBBitMask && d.dwABitMask == e.dwABitMask
  }

  // ---- the writer's choice ----

  datatype Option<T> = None | Some(value: T)

  // The legacy description of a format, if the writer has one; premultiplied alpha has its own for two formats.
  function Written(f: Format, pmAlpha: bool): Option<PixelFormat> {
    match f
    case BC1_UNORM => Some(Code(FourCC('D', 'X', 'T', '1')))
    case BC2_UNORM => Some(if pmAlpha then Code(FourCC('D', 'X', 'T', '2')) else Code(FourCC('D', 'X', 'T', '3')))
    case BC3_UNORM => Some(if pmAlpha then Code(FourCC('D', 'X', 'T', '4')) else Code(FourCC('D', 'X', 'T', '5')))
    case BC4_UNORM => Some(Code(FourCC('B', 'C', '4', 'U')))
    case BC4_SNORM => Some(Code(FourCC('B', 'C', '4', 'S')))
    case BC5_UNORM => Some(Code(FourCC('B', 'C', '5', 'U')))
    case BC5_SNORM => Some(Code(FourCC('B', 'C', '5', 'S')))
    case R8G8_B8G8_UNORM => Some(Code(FourCC('R', 'G', 'B', 'G')))
    case G8R8_G8B8_UNORM => Some(Code(FourCC('G', 'R', 'G', 'B')))
    case B8G8R8A8_UNORM => Some(Masks(RGBA, 32, 0x00ff0000, 0x0000ff00, 0x000000ff, 0xff000000))
    case B8G8R8X8_UNORM => Some(Masks(RGB, 32, 0x00ff0000, 0x0000ff00, 0x000000ff, 0))
    case R8G8B8A8_UNORM => Some(Masks(RGBA, 32, 0x000000ff, 0x0000ff00, 0x00ff0000, 0xff000000))
    case R16G16_UNORM => Some(Masks(RGB, 32, 0x0000ffff, 0xffff0000, 0, 0))
    case B5G6R5_UNORM => Some(Masks(RGB, 16, 0xf800, 0x07e0, 0x001f, 0))
    case B5G5R5A1_UNORM => Some(Masks(RGBA, 16, 0x7c00, 0x03e0, 0x001f, 0x8000))
    case R8_UNORM => Some(Masks(LUMINANCE, 8, 0xff, 0, 0, 0))
    case R16_UNORM => Some(Masks(LUMINANCE, 16, 0xffff, 0, 0, 0))
    case R8G8_UNORM => Some(Masks(LUMINANCEA, 16, 0x00ff, 0, 0, 0xff00))
    case A8_UNORM => Some(Masks(ALPHA, 8, 0, 0, 0, 0xff))
    case R16G16B16A16_UNORM => Some(Code(36))
    case R16G16B16A16_SNORM => Some(Code(110))
    case R16_FLOAT => Some(Code(111))
    case R16G16_FLOAT => Some(Code(112))
    case R16G16B16A16_FLOAT => Some(Code(113))
    case R32_FLOAT => Some(Code(114))
    case R32G32_FLOAT => Some(Code(115))
    case R32G32B32A32_FLOAT => Some(Code(116))
    case B4G4R4A4_UNORM => Some(Masks(RGBA, 16, 0x0f00, 0x00f0, 0x000f, 0xf000))
    case YUY2 => Some(Code(FourCC('Y', 'U', 'Y', '2')))
    case _ => None
  }

  // ---- the table read backwards ----

  // The format an entry with a four-character code stands for.
  function OfCode(c: nat): Format {
    if c == FourCC('D', 'X', 'T', '1') then BC1_UNORM
    else if c == FourCC('D', 'X', 'T', '3') || c == FourCC('D', 'X', 'T', '2') then BC2_UNORM
    else if c == FourCC('D', 'X', 'T', '5') || c == FourCC('D', 'X', 'T', '4') then BC3_UNORM
    else if c == FourCC('B', 'C', '4', 'U') || c == FourCC('A', 'T', 'I', '1') then BC4_UNORM
    else if c == FourCC('B', 'C', '4', 'S') then BC4_SNORM
    else if c == FourCC('B', 'C', '5', 'U') || c == FourCC('A', 'T', 'I', '2') then BC5_UNORM
    else if c == FourCC('B', 'C', '5', 'S') then BC5_SNORM
    else if c == FourCC('R', 'G', 'B', 'G') then R8G8_B8G8_UNORM
    else if c == FourCC('G', 'R', 'G', 'B') then G8R8_G8B8_UNORM
    else if c == 36 then R16G16B16A16_UNORM
    else if c == 110 then R16G16B16A16_SNORM
    else if c == 111 then R16_FLOAT
    else if c == 112 then R16G16_FLOAT
    else if c == 113 then R16G16B16A16_FLOAT
    else if c == 114 then R32_FLOAT
    else if c == 115 then R32G32_FLOAT
    else if c == 116 then R32G32B32A32_FLOAT
    else if c == FourCC('Y', 'U', 'Y', '2') || c == FourCC('U', 'Y', 'V', 'Y') then YUY2
    else UNKNOWN
  }

  predicate Five(n: nat, r: nat, g: nat, b: nat, a: nat, n': nat, r': nat, g': nat, b': nat, a': nat) {
    n == n' && r == r' && g == g' && b == b' && a == a'
  }

  // The format an entry with these channel masks stands for.
  function OfMasks(bits: nat, r: nat, g: nat, b: nat, a: nat): Format {
    if Five(bits, r, g, b, a, 32, 0x00ff0000, 0x0000ff00, 0x000000ff, 0xff000000) then B8G8R8A8_UNORM
    else if Five(bits, r, g, b, a, 32, 0x00ff0000, 0x0000ff00, 0x000000ff, 0) then B8G8R8X8_UNORM
    else if Five(bits, r, g, b, a, 32, 0x000000ff, 0x0000ff00, 0x00ff0000, 0xff000000)
       || Five(bits, r, g, b, a, 32, 0x000000ff, 0x0000ff00, 0x00ff0000, 0)
       || Five(bits, r, g, b, a, 24, 0x00ff0000, 0x0000ff00, 0x000000ff, 0)
       || Five(bits, r, g, b, a, 16, 0x00e0, 0x001c, 0x0003, 0xff00) then R8G8B8A8_UNORM
    else if Five(bits, r, g, b, a, 32, 0x0000ffff, 0xffff0000, 0, 0) then R16G16_UNORM
    else if Five(bits, r, g, b, a, 32, 0x000003ff, 0x000ffc00, 0x3ff00000, 0xc0000000)
       || Five(bits, r, g, b, a, 32, 0x3ff00000, 0x000ffc00, 0x000003ff, 0xc0000000) then R10G10B10A2_UNORM
    else if Five(bits, r, g, b, a, 16, 0xf800, 0x07e0, 0x001f, 0)
       || Five(bits, r, g, b, a, 8, 0xe0, 0x1c, 0x03, 0) then B5G6R5_UNORM
    else if Five(bits, r, g, b, a, 16, 0x7c00, 0x03e0, 0x001f, 0x8000)
       || Five(bits, r, g, b, a, 16, 0x7c00, 0x03e0, 0x001f, 0) then B5G5R5A1_UNORM
    else if Five(bits, r, g, b, a, 8, 0xff, 0, 0, 0) then R8_UNORM
    else if Five(bits, r, g, b, a, 16, 0xffff, 0, 0, 0) then R16_UNORM
    else if Five(bits, r, g, b, a, 16, 0x00ff, 0, 0, 0xff00) then R8G8_UNORM
    else if Five(bits, r, g, b, a, 8, 0, 0, 0, 0xff) then A8_UNORM
    else if Five(bits, r, g, b, a, 32, 0xffffffff, 0, 0, 0) then R32_FLOAT
    else if Five(bits, r, g, b, a, 16, 0x0f00, 0x00f0, 0x000f, 0xf000)
       || Five(bits, r, g, b, a, 16, 0x0f00, 0x00f0, 0x000f, 0)
       || Five(bits, r, g, b, a, 8, 0x0f, 0, 0, 0xf0) then B4G4R4A4_UNORM
    else UNKNOWN
  }

  predicate HasMasks(d: PixelFormat) {
    d.dwFlags == RGB || d.dwFlags == RGBA || d.dwFlags == LUMINANCE || d.dwFlags == LUMINANCEA || d.dwFlags == ALPHA
  }

  function BitsPerPixel(f: Format): nat {
    match f
    case R16G16B16A16_UNORM | R16G16B16A16_SNORM | R16G16B16A16_FLOAT | R32G32_FLOAT => 64
    case R32G32B32A32_FLOAT => 128
    case B8G8R8A8_UNORM | B8G8R8X8_UNORM | R8G8B8A8_UNORM | R16G16_UNORM | R10G10B10A2_UNORM | R16G16_FLOAT | R32_FLOAT => 32
    case B5G6R5_UNORM | B5G5R5A1_UNORM | R16_UNORM | R8G8_UNORM | R16_FLOAT | B4G4R4A4_UNORM => 16
    case _ => 8
  }

  predicate HasAlpha(f: Format) {
    f == R8G8B8A8_UNORM || f == B8G8R8A8_UNORM || f == R10G10B10A2_UNORM || f == B5G5R5A1_UNORM || f == B4G4R4A4_UNORM
    || f == A8_UNORM
  }

  // The conversions a row asks for are those its record needs to become its format: more bits, alpha added, channels
  // exchanged, a palette looked up, or one of the packed layouts taken apart.
  predicate FlagsMean(e: Legacy) {
    var d, c := e.ddpf, e.convFlags;
    && (c & CONV_EXPAND != 0 <==> d.dwFlags != FOURCC && d.dwRGBBitCount != BitsPerPixel(e.format))
    && (c & CONV_NOALPHA != 0 <==> HasMasks(d) && d.dwABitMask == 0 && HasAlpha(e.format))
    && (c & CONV_SWIZZLE != 0 <==>
          (HasMasks(d) && e.format == R10G10B10A2_UNORM && d.dwRBitMask == 0x3ff) || d.dwFourCC == FourCC('U', 'Y', 'V', 'Y'))
    && (c & CONV_PAL8 != 0 <==> d.dwFlags == PAL8) && (c & CONV_A8P8 != 0 <==> d.dwFlags == PAL8 && d.dwRGBBitCount == 16)
    && (c & CONV_888 != 0 <==> d.dwRGBBitCount == 24)
    && (c & CONV_565 != 0 <==> d.dwRBitMask == 0xf800) && (c & CONV_5551 != 0 <==> d.dwRBitMask == 0x7c00)
    && (c & CONV_4444 != 0 <==> d.dwRBitMask == 0x0f00) && (c & CONV_44 != 0 <==> d.dwRBitMask == 0x0f)
    && (c & CONV_332 != 0 <==> d.dwRGBBitCount == 8 && d.dwRBitMask == 0xe0)
    && (c & CONV_8332 != 0 <==> d.dwRGBBitCount == 16 && d.dwRBitMask == 0xe0)
    && c & CONV_DX10 == 0
  }

  // The row stands for its format, by its code or by its masks.
  predicate RowMeans(e: Legacy) {
    if e.ddpf.dwFlags == FOURCC then
      && e.format == OfCode(e.ddpf.dwFourCC)
      && (e.convFlags & CONV_PMALPHA != 0 <==>
            e.ddpf.dwFourCC == FourCC('D', 'X', 'T', '2') || e.ddpf.dwFourCC == FourCC('D', 'X', 'T', '4'))
    else
      && (e.ddpf.dwFlags == PAL8 || HasMasks(e.ddpf)) && e.convFlags & CONV_PMALPHA == 0
      && (HasMasks(e.ddpf) ==>
            e.format == OfMasks(e.ddpf.dwRGBBitCount, e.ddpf.dwRBitMask, e.ddpf.dwGBitMask, e.ddpf.dwBBitMask, e.ddpf.dwABitMask))
  }

  lemma RowsFrom0(j: nat)
    requires j < 4
    ensures RowMeans(Entry(j))
  {}

  lemma RowsFrom4(j: nat)
    requires 4 <= j < 8
    ensures RowMeans(Entry(j))
  {}

  lemma RowsFrom8(j: nat)
    requires 8 <= j < 14
    ensures RowMeans(Entry(j))
  {}

  lemma RowsFrom14(j: nat)
    requires 14 <= j < 17
    ensures RowMeans(Entry(j))
  {}

  lemma RowsFrom17(j: nat)
    requires 17 <= j < 20
    ensures RowMeans(Entry(j))
  {}

  lemma RowsFrom20(j: nat)
    requires 20 <= j < 26
    ensures RowMeans(Entry(j))
  {}

  lemma RowsFrom26(j: nat)
    requires 26 <= j < 31
    ensures RowMeans(Entry(j))
  {}

  lemma RowsFrom31(j: nat)
    requires 31 <= j < 38
    ensures RowMeans(Entry(j))
  {}

  lemma RowsFrom38(j: nat)
    requires 38 <= j < 42
    ensures RowMeans(Entry(j))
  {}

  lemma RowsFrom42(j: nat)
    requires 42 <= j < MAP_SIZE
    ensures RowMeans(Entry(j))
  {}

  // No two rows for different formats share a code or a set of masks.
  lemma EntryMeans(j: nat)
    requires j < MAP_SIZE
    ensures RowMeans(Entry(j))
  {
    if j < 4 { RowsFrom0(j); }
    else if j < 8 { RowsFrom4(j); }
    else if j < 14 { RowsFrom8(j); }
    else if j < 17 { RowsFrom14(j); }
    else if j < 20 { RowsFrom17(j); }
    else if j < 26 { RowsFrom20(j); }
    else if j < 31 { RowsFrom26(j); }
    else if j < 38 { RowsFrom31(j); }
    else if j < 42 { RowsFrom38(j); }
    else { RowsFrom42(j); }
  }

  lemma FlagsFrom0(j: nat)
    requires j < 5
    ensures FlagsMean(Entry(j))
  {}

  lemma FlagsFrom5(j: nat)
    requires 5 <= j < 9
    ensures FlagsMean(Entry(j))
  {}

  lemma FlagsFrom9(j: nat)
    requires 9 <= j < 17
    ensures FlagsMean(Entry(j))
  {}

  lemma FlagsFrom17(j: nat)
    requires 17 <= j < 22
    ensures FlagsMean(Entry(j))
  {}

  lemma FlagsFrom22(j: nat)
    requires 22 <= j < 26
    ensures FlagsMean(Entry(j))
  {}

  lemma FlagsFrom26(j: nat)
    requires 26 <= j < 31
    ensures FlagsMean(Entry(j))
  {}

  lemma FlagsFrom31(j: nat)
    requires 31 <= j < 39
    ensures FlagsMean(Entry(j))
  {}

  lemma FlagsFrom39(j: nat)
    requires 39 <= j < 42
    ensures FlagsMean(Entry(j))
  {}

  lemma FlagsFrom42(j: nat)
    requires 42 <= j < MAP_SIZE
    ensures FlagsMean(Entry(j))
  {}

  lemma EntryFlagsMean(j: nat)
    requires j < MAP_SIZE
    ensures FlagsMean(Entry(j))
  {
    if j < 5 { FlagsFrom0(j); }
    else if j < 9 { FlagsFrom5(j); }
    else if j < 17 { FlagsFrom9(j); }
    else if j < 22 { FlagsFrom17(j); }
    else if j < 26 { FlagsFrom22(j); }
    else if j < 31 { FlagsFrom26(j); }
    else if j < 39 { FlagsFrom31(j); }
    else if j < 42 { FlagsFrom39(j); }
    else if j < MAP_SIZE { FlagsFrom42(j); }
  }

  // What the writer stores for a format stands for that format.
  lemma WrittenMeans(f: Format, pm: bool)
    requires Written(f, pm).Some?
    ensures var d := Written(f, pm).value;
      if d.dwFlags == FOURCC then
        && f == OfCode(d.dwFourCC)
        && (pm && (f == BC2_UNORM || f == BC3_UNORM) <==>
              d.dwFourCC == FourCC('D', 'X', 'T', '2') || d.dwFourCC == FourCC('D', 'X', 'T', '4'))
      else
        && HasMasks(d) && f != BC2_UNORM && f != BC3_UNORM
        && f == OfMasks(d.dwRGBBitCount, d.dwRBitMask, d.dwGBitMask, d.dwBBitMask, d.dwABitMask)
  {}

  // Whatever entry matches what the writer stored, it names the format written, with its alpha.
  lemma MatchIsRight(f: Format, pm: bool, j: nat)
    requires Written(f, pm).Some? && j < MAP_SIZE && Matches(Written(f, pm).value, Entry(j).ddpf)
    ensures Entry(j).format == f
    ensures Entry(j).convFlags & CONV_PMALPHA != 0 <==> pm && (f == BC2_UNORM || f == BC3_UNORM)
  {
    EntryMeans(j);
    WrittenMeans(f, pm);
  }

  // The row that describes what the writer stores.
  function RowOf(f: Format, pm: bool): nat {
    match f
    case BC1_UNORM => 0
    case BC2_UNORM => if pm then 3 else 1
    case BC3_UNORM => if pm then 4 else 2
    case BC4_UNORM => 5
    case BC4_SNORM => 6
    case BC5_UNORM => 7
    case BC5_SNORM => 8
    case R8G8_B8G8_UNORM => 11
    case G8R8_G8B8_UNORM => 12
    case B8G8R8A8_UNORM => 13
    case B8G8R8X8_UNORM => 14
    case R8G8B8A8_UNORM => 15
    case R16G16_UNORM => 17
    case B5G6R5_UNORM => 21
    case B5G5R5A1_UNORM => 22
    case R8_UNORM => 26
    case R16_UNORM => 27
    case R8G8_UNORM => 28
    case A8_UNORM => 29
    case R16G16B16A16_UNORM => 30
    case R16G16B16A16_SNORM => 31
    case R16_FLOAT => 32
    case R16G16_FLOAT => 33
    case R16G16B16A16_FLOAT => 34
    case R32_FLOAT => 35
    case R32G32_FLOAT => 36
    case R32G32B32A32_FLOAT => 37
    case B4G4R4A4_UNORM => 41
    case YUY2 => 44
    case _ => MAP_SIZE
  }

  lemma RowIs(f: Format, pm: bool)
    requires Written(f, pm).Some?
    ensures RowOf(f, pm) < MAP_SIZE && Entry(RowOf(f, pm)).ddpf == Written(f, pm).value
  {}

  lemma SelfMatch(d: PixelFormat)
    requires d.dwFlags != 0
    ensures Matches(d, d)
  {}

  lemma RowMatches(f: Format, pm: bool)
    requires Written(f, pm).Some?
    ensures RowOf(f, pm) < MAP_SIZE && Matches(Written(f, pm).value, Entry(RowOf(f, pm)).ddpf)
  {
    RowIs(f, pm);
    WrittenMeans(f, pm);
    SelfMatch(Written(f, pm).value);
  }

  // ---- the search, in any table ----

  function Table(): (t: seq<Legacy>)
    ensures |t| == MAP_SIZE && forall i :: 0 <= i < MAP_SIZE ==> t[i] == Entry(i)
  {
    seq(MAP_SIZE, i requires 0 <= i < MAP_SIZE => Entry(i))
  }

  // The first row that matches, or the size of the table.
  ghost function FirstMatch(t: seq<Legacy>, d: PixelFormat, i: nat): (r: nat)
    requires i <= |t|
    ensures i <= r <= |t|
    decreases |t| - i
  {
    if i == |t| || Matches(d, t[i].ddpf) then i else FirstMatch(t, d, i + 1)
  }

  lemma {:induction false} FirstMatchFinds(t: seq<Legacy>, d: PixelFormat, i: nat, k: nat)
    requires i <= k < |t| && Matches(d, t[k].ddpf)
    ensures FirstMatch(t, d, i) <= k && Matches(d, t[FirstMatch(t, d, i)].ddpf)
    decreases |t| - i
  {
    if i < k && !Matches(d, t[i].ddpf) { FirstMatchFinds(t, d, i + 1, k); }
  }

  // The format of a pixel format record and the conversions it needs; flags can refuse formats that would grow
  // and can undo the correction of the reversed 10:10:10:2 masks.
  method GetDXGIFormat(t: seq<Legacy>, ddpf: PixelFormat, noExpansion: bool, noFixup: bool, convFlags0: bv32)
    returns (format: Format, convFlags: bv32)
    ensures var i := FirstMatch(t, ddpf, 0);
      if i == |t| || (noExpansion && t[i].convFlags & CONV_EXPAND != 0) then format == UNKNOWN && convFlags == convFlags0
      else format == t[i].format
           && convFlags == if noFixup && format == R10G10B10A2_UNORM then t[i].convFlags ^ CONV_SWIZZLE else t[i].convFlags
  {
    var index := 0;
    while index < |t| && !Matches(ddpf, t[index].ddpf)
      invariant index <= |t| && FirstMatch(t, ddpf, 0) == FirstMatch(t, ddpf, index)
    {
      index := index + 1;
    }
    format, convFlags := UNKNOWN, convFlags0;
    if index >= |t| {
      return;
    }
    var e := t[index];
    if e.convFlags & CONV_EXPAND != 0 && noExpansion {
      return;
    }
    format, convFlags := e.format, e.convFlags;
    if format == R10G10B10A2_UNORM && noFixup {
      convFlags := convFlags ^ CONV_SWIZZLE;
    }
  }

  // Reading what was written gives the format back, and premultiplied alpha for the two formats that record it.
  lemma SearchFindsWritten(f: Format, pm: bool)
    requires Written(f, pm).Some?
    ensures var i := FirstMatch(Table(), Written(f, pm).value, 0);
      && i < |Table()| && Table()[i].format == f
      && (Table()[i].convFlags & CONV_PMALPHA != 0 <==> pm && (f == BC2_UNORM || f == BC3_UNORM))
  {
    RowMatches(f, pm);
    FirstMatchFinds(Table(), Written(f, pm).value, 0, RowOf(f, pm));
    MatchIsRight(f, pm, FirstMatch(Table(), Written(f, pm).value, 0));
  }
}
