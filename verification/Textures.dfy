/** What a texture is, apart from its pixels. */
module Textures {

  // The texture formats that have a legacy description, and all others by their number.
  datatype Format = UNKNOWN
    | BC1_UNORM | BC2_UNORM | BC3_UNORM | BC4_UNORM | BC4_SNORM | BC5_UNORM | BC5_SNORM | R8G8_B8G8_UNORM
    | G8R8_G8B8_UNORM | B8G8R8A8_UNORM | B8G8R8X8_UNORM | R8G8B8A8_UNORM | R16G16_UNORM | R10G10B10A2_UNORM
    | B5G6R5_UNORM | B5G5R5A1_UNORM | R8_UNORM | R16_UNORM | R8G8_UNORM | A8_UNORM | R16G16B16A16_UNORM
    | R16G16B16A16_SNORM | R16_FLOAT | R16G16_FLOAT | R16G16B16A16_FLOAT | R32_FLOAT | R32G32_FLOAT
    | R32G32B32A32_FLOAT | B4G4R4A4_UNORM | YUY2
    | Other(code: nat)

  datatype Dimension = Texture1D | Texture2D | Texture3D | OtherDimension

  datatype TexMetadata = TexMetadata(width: nat, height: nat, depth: nat, arraySize: nat, mipLevels: nat,
                                     miscFlags: bv32, miscFlags2: bv32, format: Format, dimension: Dimension)

  const MISC_TEXTURECUBE: bv32 := 0x4
  const ALPHA_MODE_MASK: bv32 := 0x7
  const ALPHA_MODE_PREMULTIPLIED: bv32 := 0x2

  predicate IsCubemap(m: TexMetadata) {
    m.miscFlags & MISC_TEXTURECUBE != 0
  }

  predicate IsPMAlpha(m: TexMetadata) {
    m.miscFlags2 & ALPHA_MODE_MASK == ALPHA_MODE_PREMULTIPLIED
  }
}
