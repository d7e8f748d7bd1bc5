/** The header of a DDS file: writing a texture's metadata in legacy or extended form, and reading it back. */
module DdsHeader {
  import opened Textures
  import opened DdsFormats

  // ---- the headers ----

  const DDS_MAGIC: nat := 0x20534444
  const HEADER_SIZE: nat := 124
  const DXT10_SIZE: nat := 20

  const FLAGS_TEXTURE: bv32 := 0x1007
  const FLAGS_MIPMAP: bv32 := 0x2_0000
  const FLAGS_VOLUME: bv32 := 0x80_0000
  const FLAGS_PITCH: bv32 := 0x8
  const FLAGS_LINEARSIZE: bv32 := 0x8_0000
  const FLAG_HEIGHT: bv32 := 0x2

  const SURFACE_TEXTURE: bv32 := 0x1000
  const SURFACE_MIPMAP: bv32 := 0x40_0008
  const SURFACE_CUBEMAP: bv32 := 0x8

  const CUBEMAP: bv32 := 0x200
  const CUBEMAP_ALLFACES: bv32 := 0xfe00
  const CAPS2_VOLUME: bv32 := 0x20_0000

  datatype Header = Header(dwSize: nat, dwFlags: bv32, dwHeight: nat, dwWidth: nat, dwPitchOrLinearSize: nat,
                           dwDepth: nat, dwMipMapCount: nat, ddspf: PixelFormat, dwCaps: bv32, dwCaps2: bv32)

  datatype Dxt10 = Dxt10(dxgiFormat: Format, resourceDimension: Dimension, miscFlag: bv32, arraySize: nat,
                         miscFlags2: bv32)

  // The start of a file: its size, the magic number, the header, and what follows it.
  datatype File = File(size: nat, magic: nat, header: Header, ext: Dxt10)

  datatype HResult = S_OK | E_INVALIDARG | E_FAIL | E_NOT_SUFFICIENT_BUFFER | ERROR_NOT_SUPPORTED | ERROR_INVALID_DATA

  const DX10: PixelFormat := Code(FourCC('D', 'X', '1', '0'))

  // The formats the library knows, which of them need a palette or are block compressed, and the row and slice
  // sizes, are given from outside.
  datatype Formats = Formats(isValid: Format -> bool, isPalettized: Format -> bool, isCompressed: Format -> bool,
                             rowPitch: (Format, nat, nat) -> nat, slicePitch: (Format, nat, nat) -> nat)

  const MAX32: nat := 0xFFFF_FFFF

  // ---- writing ----

  // Whether the extended header is asked for, or needed for arrays other than a single cube.
  predicate ForceExt(m: TexMetadata, forceExt: bool, forceMisc2: bool) {
    forceExt || forceMisc2 || (m.arraySize > 1 && !(m.arraySize == 6 && m.dimension == Texture2D && IsCubemap(m)))
  }

  function ChosenFormat(m: TexMetadata, forceExt: bool, forceMisc2: bool): Option<PixelFormat> {
    if ForceExt(m, forceExt, forceMisc2) then None else Written(m.format, IsPMAlpha(m))
  }

  function Required(ext: bool): nat {
    4 + HEADER_SIZE + (if ext then DXT10_SIZE else 0)
  }

  function FlagsFor(m: TexMetadata): bv32 {
    FLAGS_TEXTURE | (if m.mipLevels > 0 then FLAGS_MIPMAP else 0) | (if m.dimension == Texture3D then FLAGS_VOLUME else 0)
  }

  function CapsFor(m: TexMetadata): bv32 {
    SURFACE_TEXTURE | (if m.mipLevels > 1 then SURFACE_MIPMAP else 0)
    | (if m.dimension == Texture2D && IsCubemap(m) then SURFACE_CUBEMAP else 0)
  }

  function Caps2For(m: TexMetadata): bv32 {
    if m.dimension == Texture2D && IsCubemap(m) then CUBEMAP_ALLFACES else if m.dimension == Texture3D then CAPS2_VOLUME else 0
  }

  function HeaderFor(m: TexMetadata, f: Formats, ddspf: PixelFormat): Header {
    Header(HEADER_SIZE, FlagsFor(m) | (if f.isCompressed(m.format) then FLAGS_LINEARSIZE else FLAGS_PITCH),
           if m.dimension == Texture1D then 1 else m.height, m.width,
           if f.isCompressed(m.format) then f.slicePitch(m.format, m.width, m.height) else f.rowPitch(m.format, m.width, m.height),
           if m.dimension == Texture3D then m.depth else 1, m.mipLevels, ddspf, CapsFor(m), Caps2For(m))
  }

  // A cube is recorded by a flag and a sixth of its faces.
  function ExtFor(m: TexMetadata, forceMisc2: bool): Dxt10 {
    var size := if IsCubemap(m) then m.arraySize / 6 else m.arraySize;
    Dxt10(m.format, m.dimension, m.miscFlags, size, if forceMisc2 then m.miscFlags2 else 0)
  }

  // The sizes fit the 32-bit fields of the header.
  ghost predicate SizesFit(m: TexMetadata, f: Formats) {
    && m.mipLevels <= MAX32 && m.width <= MAX32
    && (m.dimension != Texture1D ==> m.height <= MAX32) && (m.dimension == Texture3D ==> m.depth <= MAX32)
    && f.slicePitch(m.format, m.width, m.height) <= MAX32 && f.rowPitch(m.format, m.width, m.height) <= MAX32
  }

  // Levels and dimensions, with the flags that go with them.
  method WriteDimensions(m: TexMetadata)
    returns (hr: HResult, dwHeight: nat, dwDepth: nat, dwFlags: bv32, dwCaps: bv32, dwCaps2: bv32)
    ensures hr == S_OK <==>
      && m.dimension != OtherDimension && m.mipLevels <= MAX32 && m.width <= MAX32
      && (m.dimension != Texture1D ==> m.height <= MAX32) && (m.dimension == Texture3D ==> m.depth <= MAX32)
    ensures hr == S_OK ==>
      && dwHeight == (if m.dimension == Texture1D then 1 else m.height) && dwDepth == (if m.dimension == Texture3D then m.depth else 1)
      && dwFlags == FlagsFor(m) && dwCaps == CapsFor(m) && dwCaps2 == Caps2For(m)
  {
    hr, dwHeight, dwDepth, dwFlags, dwCaps, dwCaps2 := S_OK, 1, 1, FLAGS_TEXTURE, SURFACE_TEXTURE, 0;
    if m.mipLevels > 0 {
      dwFlags := dwFlags | FLAGS_MIPMAP;
      if m.mipLevels > MAX32 {
        hr := E_INVALIDARG;
        return;
      }
      if m.mipLevels > 1 {
        dwCaps := dwCaps | SURFACE_MIPMAP;
      }
    }
    match m.dimension {
      case Texture1D =>
        if m.width > MAX32 { hr := E_INVALIDARG; }
      case Texture2D =>
        if m.height > MAX32 || m.width > MAX32 { hr := E_INVALIDARG; }
        dwHeight := m.height;
        if IsCubemap(m) {
          dwCaps := dwCaps | SURFACE_CUBEMAP;
          dwCaps2 := dwCaps2 | CUBEMAP_ALLFACES;
        }
      case Texture3D =>
        if m.height > MAX32 || m.width > MAX32 || m.depth > MAX32 { hr := E_INVALIDARG; }
        dwFlags := dwFlags | FLAGS_VOLUME;
        dwCaps2 := dwCaps2 | CAPS2_VOLUME;
        dwHeight, dwDepth := m.height, m.depth;
      case OtherDimension =>
        hr := E_FAIL;
    }
  }

  method WriteExt(m: TexMetadata, forceMisc2: bool) returns (ext: Dxt10)
    requires IsCubemap(m) ==> m.arraySize % 6 == 0
    ensures ext == ExtFor(m, forceMisc2)
  {
    CubeRestored(m.miscFlags);
    var miscFlag, arraySize := m.miscFlags & !MISC_TEXTURECUBE, m.arraySize;
    if m.miscFlags & MISC_TEXTURECUBE != 0 {
      miscFlag, arraySize := miscFlag | MISC_TEXTURECUBE, m.arraySize / 6;
    }
    ext := Dxt10(m.format, m.dimension, miscFlag, arraySize, if forceMisc2 then m.miscFlags2 else 0);
  }

  // The file the writer makes with a given pixel format record, or with an extended header.
  function FileFor(m: TexMetadata, f: Formats, ddpf: Option<PixelFormat>, forceMisc2: bool, ext0: Dxt10): File {
    match ddpf
    case None => File(Required(true), DDS_MAGIC, HeaderFor(m, f, DX10), ExtFor(m, forceMisc2))
    case Some(d) => File(Required(false), DDS_MAGIC, HeaderFor(m, f, d), ext0)
  }

  function Encoded(m: TexMetadata, f: Formats, forceExt: bool, forceMisc2: bool, ext0: Dxt10): File {
    FileFor(m, f, ChosenFormat(m, forceExt, forceMisc2), forceMisc2, ext0)
  }

  // What has to hold for a file to be written.
  ghost predicate Writable(m: TexMetadata, f: Formats, ext: bool, maxsize: nat) {
    && f.isValid(m.format) && !f.isPalettized(m.format) && Required(ext) <= maxsize && m.dimension != OtherDimension
    && SizesFit(m, f) && (ext ==> m.arraySize <= MAX32)
  }

  // What the header says about a texture, flag by flag.
  lemma HeaderFlags(m: TexMetadata, f: Formats, d: PixelFormat)
    ensures var h := HeaderFor(m, f, d);
      && h.dwFlags & FLAGS_TEXTURE == FLAGS_TEXTURE && h.dwCaps & SURFACE_TEXTURE == SURFACE_TEXTURE
      && (h.dwFlags & FLAGS_MIPMAP != 0 <==> m.mipLevels > 0) && (h.dwFlags & FLAGS_VOLUME != 0 <==> m.dimension == Texture3D)
      && (h.dwFlags & FLAGS_LINEARSIZE != 0 <==> f.isCompressed(m.format))
      && (h.dwFlags & FLAGS_PITCH != 0 <==> !f.isCompressed(m.format))
      && (h.dwCaps & SURFACE_MIPMAP == SURFACE_MIPMAP <==> m.mipLevels > 1)
      && (h.dwCaps & SURFACE_CUBEMAP != 0 <==> m.mipLevels > 1 || (m.dimension == Texture2D && IsCubemap(m)))
      && (h.dwCaps2 & CUBEMAP_ALLFACES == CUBEMAP_ALLFACES <==> m.dimension == Texture2D && IsCubemap(m))
      && (h.dwCaps2 & CAPS2_VOLUME != 0 <==> m.dimension == Texture3D)
  {}

  method WritePitch(m: TexMetadata, f: Formats) returns (fits: bool, flag: bv32, pitch: nat)
    ensures fits <==> f.slicePitch(m.format, m.width, m.height) <= MAX32 && f.rowPitch(m.format, m.width, m.height) <= MAX32
    ensures flag == if f.isCompressed(m.format) then FLAGS_LINEARSIZE else FLAGS_PITCH
    ensures pitch == if f.isCompressed(m.format) then f.slicePitch(m.format, m.width, m.height)
                     else f.rowPitch(m.format, m.width, m.height)
  {
    var slicePitch, rowPitch := f.slicePitch(m.format, m.width, m.height), f.rowPitch(m.format, m.width, m.height);
    fits := slicePitch <= MAX32 && rowPitch <= MAX32;
    if f.isCompressed(m.format) {
      flag, pitch := FLAGS_LINEARSIZE, slicePitch;
    } else {
      flag, pitch := FLAGS_PITCH, rowPitch;
    }
  }

  // The header, with an extended pixel format.
  method WriteHeader(m: TexMetadata, f: Formats) returns (hr: HResult, header: Header)
    ensures hr == S_OK <==> m.dimension != OtherDimension && SizesFit(m, f)
    ensures hr == S_OK ==> header == HeaderFor(m, f, DX10)
  {
    var dwHeight, dwDepth, dwFlags, dwCaps, dwCaps2;
    hr, dwHeight, dwDepth, dwFlags, dwCaps, dwCaps2 := WriteDimensions(m);
    var fits, flag, pitch := WritePitch(m, f);
    if hr == S_OK && !fits {
      hr := E_FAIL;
    }
    header := Header(HEADER_SIZE, dwFlags | flag, dwHeight, m.width, pitch, dwDepth, m.mipLevels, DX10, dwCaps, dwCaps2);
  }

  lemma OtherFormat(m: TexMetadata, f: Formats, d: PixelFormat)
    ensures HeaderFor(m, f, d) == HeaderFor(m, f, DX10).(ddspf := d)
  {}

  function NoFile(ext0: Dxt10): File {
    File(0, 0, Header(0, 0, 0, 0, 0, 0, 0, DX10, 0, 0), ext0)
  }

  method WriteFile(m: TexMetadata, f: Formats, ddpf: Option<PixelFormat>, forceMisc2: bool, maxsize: nat, ext0: Dxt10)
    returns (hr: HResult, file: File)
    requires IsCubemap(m) ==> m.arraySize % 6 == 0
    requires f.isValid(m.format) && !f.isPalettized(m.format)
    ensures hr == S_OK <==> Writable(m, f, ddpf.None?, maxsize)
    ensures hr == S_OK ==> file == FileFor(m, f, ddpf, forceMisc2, ext0)
  {
    file := NoFile(ext0);
    if maxsize < Required(ddpf.None?) {
      return E_NOT_SUFFICIENT_BUFFER, file;
    }
    var header;
    hr, header := WriteHeader(m, f);
    if hr != S_OK {
      return;
    }
    match ddpf
    case None =>
      if m.arraySize > MAX32 {
        return E_INVALIDARG, file;
      }
      var ext := WriteExt(m, forceMisc2);
      file := File(Required(true), DDS_MAGIC, header, ext);
    case Some(d) =>
      OtherFormat(m, f, d);
      file := File(Required(false), DDS_MAGIC, header.(ddspf := d), ext0);
  }

  // Without a destination only the size needed is worked out, and nothing is written.
  method EncodeDDSHeader(m: TexMetadata, f: Formats, forceExt: bool, forceMisc2: bool, destination: bool, maxsize: nat, ext0: Dxt10)
    returns (hr: HResult, required: nat, file: File)
    requires IsCubemap(m) ==> m.arraySize % 6 == 0
    ensures hr == S_OK <==>
      if destination then Writable(m, f, ChosenFormat(m, forceExt, forceMisc2).None?, maxsize)
      else f.isValid(m.format) && !f.isPalettized(m.format)
    ensures hr == S_OK ==> required == Required(ChosenFormat(m, forceExt, forceMisc2).None?)
    ensures hr == S_OK ==> file == if destination then Encoded(m, f, forceExt, forceMisc2, ext0) else NoFile(ext0)
  {
    required, file := 0, NoFile(ext0);
    if !f.isValid(m.format) {
      return E_INVALIDARG, required, file;
    }
    if f.isPalettized(m.format) {
      return ERROR_NOT_SUPPORTED, required, file;
    }
    var ddpf := ChosenFormat(m, forceExt, forceMisc2);
    required := Required(ddpf.None?);
    if !destination {
      return S_OK, required, file;
    }
    hr, file := WriteFile(m, f, ddpf, forceMisc2, maxsize, ext0);
  }

  // ---- reading ----

  datatype Result = Ok(m: TexMetadata, convFlags: bv32) | Err(hr: HResult)

  predicate IsExtended(h: Header) {
    h.ddspf.dwFlags & FOURCC != 0 && h.ddspf.dwFourCC == FourCC('D', 'X', '1', '0')
  }

  // The metadata of an extended header, from its flag bits: a height and a volume are recorded, the texture is a cube;
  // its flag word without the cube bit, and with it restored.
  function ReadKind(h: Header, x: Dxt10, mips: nat, f: Formats, height: bool, volume: bool, cube: bool,
                    plain: bv32, restored: bv32, convFlags: bv32): Result {
    if x.arraySize == 0 then Err(ERROR_INVALID_DATA)
    else if !f.isValid(x.dxgiFormat) || f.isPalettized(x.dxgiFormat) then Err(ERROR_NOT_SUPPORTED)
    else
      match x.resourceDimension
      case Texture1D =>
        if height && h.dwHeight != 1 then Err(ERROR_INVALID_DATA)
        else Ok(TexMetadata(h.dwWidth, 1, 1, x.arraySize, mips, plain, x.miscFlags2, x.dxgiFormat, Texture1D), convFlags)
      case Texture2D =>
        Ok(TexMetadata(h.dwWidth, h.dwHeight, 1, if cube then x.arraySize * 6 else x.arraySize, mips,
                       if cube then restored else plain, x.miscFlags2, x.dxgiFormat, Texture2D), convFlags)
      case Texture3D =>
        if !volume then Err(ERROR_INVALID_DATA)
        else if x.arraySize > 1 then Err(ERROR_NOT_SUPPORTED)
        else Ok(TexMetadata(h.dwWidth, h.dwHeight, h.dwDepth, x.arraySize, mips, plain, x.miscFlags2, x.dxgiFormat, Texture3D),
                convFlags)
      case OtherDimension => Err(ERROR_INVALID_DATA)
  }

  predicate CubeBit(x: bv32) {
    x & MISC_TEXTURECUBE != 0
  }

  function WithoutCube(x: bv32): bv32 {
    x & !MISC_TEXTURECUBE
  }

  function CubeAgain(x: bv32): bv32 {
    WithoutCube(x) | MISC_TEXTURECUBE
  }

  function ReadExt(h: Header, x: Dxt10, mips: nat, f: Formats, convFlags: bv32): Result {
    ReadKind(h, x, mips, f, h.dwFlags & FLAG_HEIGHT != 0, h.dwFlags & FLAGS_VOLUME != 0, CubeBit(x.miscFlag),
             WithoutCube(x.miscFlag), CubeAgain(x.miscFlag), convFlags | CONV_DX10)
  }

  // The metadata of a legacy header, given the search's answer for its pixel format.
  function ReadLegacy(h: Header, mips: nat, format: Format, convFlags: bv32): Result {
    var volume, cube := h.dwFlags & FLAGS_VOLUME != 0, h.dwCaps2 & CUBEMAP != 0;
    if !volume && cube && h.dwCaps2 & CUBEMAP_ALLFACES != CUBEMAP_ALLFACES then Err(ERROR_NOT_SUPPORTED)
    else if format == UNKNOWN then Err(ERROR_NOT_SUPPORTED)
    else
      var misc2 := if convFlags & CONV_PMALPHA != 0 then ALPHA_MODE_PREMULTIPLIED else 0;
      if volume then Ok(TexMetadata(h.dwWidth, h.dwHeight, h.dwDepth, 1, mips, 0, misc2, format, Texture3D), convFlags)
      else Ok(TexMetadata(h.dwWidth, h.dwHeight, 1, if cube then 6 else 1, mips, if cube then MISC_TEXTURECUBE else 0,
                          misc2, format, Texture2D), convFlags)
  }

  // The format search with no flags set.
  ghost function Search(ddspf: PixelFormat, convFlags: bv32): (Format, bv32) {
    var t := Table();
    var i := FirstMatch(t, ddspf, 0);
    if i == |t| then (UNKNOWN, convFlags) else (t[i].format, t[i].convFlags)
  }

  // What decoding a file with no flags set gives.
  ghost function Decoding(file: File, f: Formats, convFlags: bv32): Result {
    var h := file.header;
    var mips := if h.dwMipMapCount == 0 then 1 else h.dwMipMapCount;
    if file.size < 4 + HEADER_SIZE then Err(ERROR_INVALID_DATA)
    else if file.magic != DDS_MAGIC || h.dwSize != HEADER_SIZE || h.ddspf.dwSize != PIXELFORMAT_SIZE then Err(E_FAIL)
    else if !IsExtended(h) then ReadLegacy(h, mips, Search(h.ddspf, convFlags).0, Search(h.ddspf, convFlags).1)
    else if file.size < 4 + HEADER_SIZE + DXT10_SIZE then Err(E_FAIL)
    else ReadExt(h, file.ext, mips, f, convFlags)
  }

  method DecodeDDSHeader(file: File, f: Formats, convFlags0: bv32) returns (r: Result)
    ensures r == Decoding(file, f, convFlags0)
  {
    if file.size < 4 + HEADER_SIZE {
      return Err(ERROR_INVALID_DATA);
    }
    if file.magic != DDS_MAGIC {
      return Err(E_FAIL);
    }
    var h := file.header;
    if h.dwSize != HEADER_SIZE || h.ddspf.dwSize != PIXELFORMAT_SIZE {
      return Err(E_FAIL);
    }
    var mipLevels := h.dwMipMapCount;
    if mipLevels == 0 {
      mipLevels := 1;
    }
    if IsExtended(h) {
      if file.size < 4 + HEADER_SIZE + DXT10_SIZE {
        return Err(E_FAIL);
      }
      return ReadExt(h, file.ext, mipLevels, f, convFlags0);
    }
    var format, convFlags := GetDXGIFormat(Table(), h.ddspf, false, false, convFlags0);
    r := ReadLegacy(h, mipLevels, format, convFlags);
  }

  // ---- round trips ----

  // A texture the library can hold: dimensions not used are one, and only two-dimensional arrays are cubes.
  ghost predicate WellFormed(m: TexMetadata) {
    && m.arraySize > 0 && m.dimension != OtherDimension
    && (m.dimension == Texture1D ==> m.height == 1) && (m.dimension != Texture3D ==> m.depth == 1)
    && (m.dimension == Texture3D ==> m.arraySize == 1)
    && (IsCubemap(m) ==> m.dimension == Texture2D && m.arraySize % 6 == 0)
  }

  function AtLeastOneLevel(m: TexMetadata): TexMetadata {
    if m.mipLevels == 0 then m.(mipLevels := 1) else m
  }

  lemma Extended()
    ensures DX10.dwFlags & FOURCC != 0 && DX10.dwSize == PIXELFORMAT_SIZE
    ensures forall h: Header :: h.ddspf == DX10 ==> IsExtended(h)
  {}

  lemma FlagBits(m: TexMetadata, pitch: bv32)
    requires pitch == FLAGS_LINEARSIZE || pitch == FLAGS_PITCH
    ensures (FlagsFor(m) | pitch) & FLAG_HEIGHT != 0 && ((FlagsFor(m) | pitch) & FLAGS_VOLUME != 0 <==> m.dimension == Texture3D)
    ensures m.dimension != Texture3D ==>
      && (Caps2For(m) & CUBEMAP != 0 <==> m.dimension == Texture2D && IsCubemap(m))
      && (Caps2For(m) & CUBEMAP != 0 ==> Caps2For(m) & CUBEMAP_ALLFACES == CUBEMAP_ALLFACES)
  {}

  lemma SixFaces(n: nat)
    requires n > 0 && n % 6 == 0
    ensures n / 6 > 0 && n / 6 * 6 == n
  {}

  lemma KindReads(h: Header, m: TexMetadata, f: Formats, forceMisc2: bool, mips: nat, height: bool, volume: bool,
                  cube: bool, plain: bv32, restored: bv32, convFlags: bv32)
    requires WellFormed(m) && f.isValid(m.format) && !f.isPalettized(m.format)
    requires h.dwWidth == m.width && h.dwHeight == m.height && h.dwDepth == m.depth
    requires m.dimension == Texture3D ==> volume
    requires cube <==> IsCubemap(m)
    requires if cube then restored == m.miscFlags else plain == m.miscFlags
    ensures ReadKind(h, ExtFor(m, forceMisc2), mips, f, height, volume, cube, plain, restored, convFlags)
         == Ok((if forceMisc2 then m else m.(miscFlags2 := 0)).(mipLevels := mips), convFlags)
  {
    if IsCubemap(m) {
      SixFaces(m.arraySize);
    }
  }

  // Clearing the cube bit and setting it again as it was changes nothing.
  lemma CubeRestored(x: bv32)
    ensures if CubeBit(x) then CubeAgain(x) == x else WithoutCube(x) == x
  {}

  // The extended header, read beside any header with the right dimensions and flags.
  lemma ExtReads(h: Header, m: TexMetadata, f: Formats, forceMisc2: bool, mips: nat, convFlags: bv32)
    requires WellFormed(m) && f.isValid(m.format) && !f.isPalettized(m.format)
    requires h.dwWidth == m.width && h.dwHeight == m.height && h.dwDepth == m.depth
    requires m.dimension == Texture3D ==> h.dwFlags & FLAGS_VOLUME != 0
    ensures ReadExt(h, ExtFor(m, forceMisc2), mips, f, convFlags)
         == Ok((if forceMisc2 then m else m.(miscFlags2 := 0)).(mipLevels := mips), convFlags | CONV_DX10)
  {
    var flags := m.miscFlags;
    CubeRestored(flags);
    KindReads(h, m, f, forceMisc2, mips, h.dwFlags & FLAG_HEIGHT != 0, h.dwFlags & FLAGS_VOLUME != 0,
              CubeBit(flags), WithoutCube(flags), CubeAgain(flags), convFlags | CONV_DX10);
  }

  lemma HeaderSays(m: TexMetadata, f: Formats, d: PixelFormat)
    requires WellFormed(m)
    ensures var h := HeaderFor(m, f, d);
      && h.dwWidth == m.width && h.dwHeight == m.height && h.dwDepth == m.depth && h.dwMipMapCount == m.mipLevels
      && (m.dimension == Texture3D ==> h.dwFlags & FLAGS_VOLUME != 0)
  {
    FlagBits(m, if f.isCompressed(m.format) then FLAGS_LINEARSIZE else FLAGS_PITCH);
  }

  // With an extended header everything comes back; the second flag word only when it was asked for.
  lemma ExtendedRoundTrip(m: TexMetadata, f: Formats, forceExt: bool, forceMisc2: bool, ext0: Dxt10, convFlags: bv32)
    requires WellFormed(m) && f.isValid(m.format) && !f.isPalettized(m.format)
    requires ChosenFormat(m, forceExt, forceMisc2).None?
    ensures Decoding(Encoded(m, f, forceExt, forceMisc2, ext0), f, convFlags)
         == Ok(AtLeastOneLevel(if forceMisc2 then m else m.(miscFlags2 := 0)), convFlags | CONV_DX10)
  {
    Extended();
    HeaderSays(m, f, DX10);
    ExtReads(HeaderFor(m, f, DX10), m, f, forceMisc2, if m.mipLevels == 0 then 1 else m.mipLevels, convFlags);
  }

  // What a legacy header keeps: not the kind of a one-dimensional texture, and of the flag words only the cube and,
  // for two formats, premultiplied alpha.
  function LegacyForm(m: TexMetadata): TexMetadata {
    m.(dimension := if m.dimension == Texture1D then Texture2D else m.dimension,
       miscFlags := if IsCubemap(m) then MISC_TEXTURECUBE else 0,
       miscFlags2 := if IsPMAlpha(m) && (m.format == BC2_UNORM || m.format == BC3_UNORM) then ALPHA_MODE_PREMULTIPLIED else 0)
  }

  lemma WrittenIsLegacy(f: Format, pm: bool)
    requires Written(f, pm).Some?
    ensures var d := Written(f, pm).value;
      d.dwSize == PIXELFORMAT_SIZE && !(d.dwFlags & FOURCC != 0 && d.dwFourCC == FourCC('D', 'X', '1', '0')) && f != UNKNOWN
  {
    WrittenMeans(f, pm);
  }

  // The search, given what the writer stored.
  lemma SearchReads(f: Format, pm: bool, convFlags: bv32)
    requires Written(f, pm).Some?
    ensures var (g, c) := Search(Written(f, pm).value, convFlags);
      g == f && (c & CONV_PMALPHA != 0 <==> pm && (f == BC2_UNORM || f == BC3_UNORM))
  {
    SearchFindsWritten(f, pm);
  }

  // The dimensions, read back for a known format.
  lemma LegacyReads(m: TexMetadata, f: Formats, d: PixelFormat, mips: nat, c: bv32)
    requires WellFormed(m) && m.format != UNKNOWN && (m.arraySize > 1 ==> m.arraySize == 6 && m.dimension == Texture2D && IsCubemap(m))
    requires c & CONV_PMALPHA != 0 <==> IsPMAlpha(m) && (m.format == BC2_UNORM || m.format == BC3_UNORM)
    ensures ReadLegacy(HeaderFor(m, f, d), mips, m.format, c) == Ok(LegacyForm(m).(mipLevels := mips), c)
  {
    FlagBits(m, if f.isCompressed(m.format) then FLAGS_LINEARSIZE else FLAGS_PITCH);
  }

  // A legacy file whose pixel format record is found again.
  lemma LegacyDecodes(m: TexMetadata, f: Formats, d: PixelFormat, ext0: Dxt10, convFlags: bv32)
    requires WellFormed(m) && m.format != UNKNOWN && (m.arraySize > 1 ==> m.arraySize == 6 && m.dimension == Texture2D && IsCubemap(m))
    requires d.dwSize == PIXELFORMAT_SIZE && !(d.dwFlags & FOURCC != 0 && d.dwFourCC == FourCC('D', 'X', '1', '0'))
    requires Search(d, convFlags).0 == m.format
    requires Search(d, convFlags).1 & CONV_PMALPHA != 0 <==> IsPMAlpha(m) && (m.format == BC2_UNORM || m.format == BC3_UNORM)
    ensures Decoding(FileFor(m, f, Some(d), false, ext0), f, convFlags)
         == Ok(AtLeastOneLevel(LegacyForm(m)), Search(d, convFlags).1)
  {
    LegacyReads(m, f, d, if m.mipLevels == 0 then 1 else m.mipLevels, Search(d, convFlags).1);
  }

  lemma LegacyRoundTrip(m: TexMetadata, f: Formats, forceExt: bool, forceMisc2: bool, ext0: Dxt10, convFlags: bv32)
    requires WellFormed(m) && ChosenFormat(m, forceExt, forceMisc2).Some?
    ensures var r := Decoding(Encoded(m, f, forceExt, forceMisc2, ext0), f, convFlags);
      r.Ok? && r.m == AtLeastOneLevel(LegacyForm(m))
  {
    SearchReads(m.format, IsPMAlpha(m), convFlags);
    WrittenIsLegacy(m.format, IsPMAlpha(m));
    LegacyDecodes(m, f, ChosenFormat(m, forceExt, forceMisc2).value, ext0, convFlags);
  }

  // So a legacy header returns the same metadata exactly when there was nothing it cannot say.
  lemma LegacyExact(m: TexMetadata, f: Formats, forceExt: bool, forceMisc2: bool, ext0: Dxt10, convFlags: bv32)
    requires WellFormed(m) && ChosenFormat(m, forceExt, forceMisc2).Some?
    ensures var r := Decoding(Encoded(m, f, forceExt, forceMisc2, ext0), f, convFlags);
      r.Ok? && (r.m == m <==>
                  && m.dimension != Texture1D && m.mipLevels > 0 && m.miscFlags & !MISC_TEXTURECUBE == 0
                  && m.miscFlags2 == if IsPMAlpha(m) && (m.format == BC2_UNORM || m.format == BC3_UNORM)
                                     then ALPHA_MODE_PREMULTIPLIED else 0)
  {
    LegacyRoundTrip(m, f, forceExt, forceMisc2, ext0, convFlags);
    CubeRestored(m.miscFlags);
  }
}
