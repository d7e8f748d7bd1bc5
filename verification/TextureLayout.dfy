/** Memory layout of a texture: counting the images, placing them, and finding one again. */
module TextureLayout {
  import opened Bitwise
  import opened Textures

  // The bytes of a row and of a whole image of a given width and height, for the texture's format.
  datatype Pitch = Pitch(row: nat, slice: nat)
  type PitchOf = (nat, nat) -> Pitch

  datatype Image = Image(width: nat, height: nat, rowPitch: nat, slicePitch: nat, pixels: nat)

  // One image: its mip level, array item and depth slice.
  datatype Cell = Cell(mip: nat, item: nat, slice: nat)

  function Halve(x: nat): nat {
    if x > 1 then x / 2 else x
  }

  // A dimension at a mip level.
  function Dim(x: nat, level: nat): nat {
    if level == 0 then x else Halve(Dim(x, level - 1))
  }

  lemma {:induction false} ShrHalves(x: nat, k: nat)
    ensures Shr(x, k + 1) == Shr(x, k) / 2
    decreases k
  {
    if k > 0 { ShrHalves(x / 2, k - 1); }
  }

  // Halving with a floor of one is shifting with a floor of one.
  lemma {:induction false} DimIsShift(x: nat, level: nat)
    requires x > 0
    ensures Dim(x, level) == if Shr(x, level) > 1 then Shr(x, level) else 1
  {
    if level > 0 {
      DimIsShift(x, level - 1);
      ShrHalves(x, level - 1);
    }
  }

  lemma {:induction false} DimPositive(x: nat, level: nat)
    ensures x > 0 ==> Dim(x, level) > 0
  {
    if level > 0 { DimPositive(x, level - 1); }
  }

  // ---- the order of the images ----

  // Arrays: all levels of one item, then the next item. The cells before a given place.
  ghost function Cells2D(m: TexMetadata, item: nat, level: nat): seq<Cell>
    decreases item, level
  {
    if level > 0 then Cells2D(m, item, level - 1) + [Cell(level - 1, item, 0)]
    else if item > 0 then Cells2D(m, item - 1, m.mipLevels)
    else []
  }

  // Volumes: all slices of one level, then the next level.
  ghost function Cells3D(m: TexMetadata, level: nat, slice: nat): seq<Cell>
    decreases level, slice
  {
    if slice > 0 then Cells3D(m, level, slice - 1) + [Cell(level, 0, slice - 1)]
    else if level > 0 then Cells3D(m, level - 1, Dim(m.depth, level - 1))
    else []
  }

  ghost function Cells(m: TexMetadata): seq<Cell> {
    match m.dimension
    case Texture1D | Texture2D => Cells2D(m, m.arraySize, 0)
    case Texture3D => Cells3D(m, m.mipLevels, 0)
    case OtherDimension => []
  }

  // The images a texture has.
  ghost predicate Has(m: TexMetadata, c: Cell) {
    match m.dimension
    case Texture1D | Texture2D => c.mip < m.mipLevels && c.item < m.arraySize && c.slice == 0
    case Texture3D => c.mip < m.mipLevels && c.item == 0 && c.slice < Dim(m.depth, c.mip)
    case OtherDimension => false
  }

  // Where an image stands in the order.
  ghost function Position(m: TexMetadata, c: Cell): nat {
    if m.dimension == Texture3D then |Cells3D(m, c.mip, c.slice)| else |Cells2D(m, c.item, c.mip)|
  }

  lemma {:induction false} Before2D(m: TexMetadata, item: nat, level: nat, item': nat, level': nat)
    requires item < item' || (item == item' && level <= level')
    requires level <= m.mipLevels
    ensures Cells2D(m, item, level) <= Cells2D(m, item', level')
    decreases item', level'
  {
    if item == item' && level == level' {
    } else if level' > 0 {
      Before2D(m, item, level, item', level' - 1);
    } else {
      Before2D(m, item, level, item' - 1, m.mipLevels);
    }
  }

  lemma {:induction false} Before3D(m: TexMetadata, level: nat, slice: nat, level': nat, slice': nat)
    requires level < level' || (level == level' && slice <= slice')
    requires slice <= Dim(m.depth, level)
    ensures Cells3D(m, level, slice) <= Cells3D(m, level', slice')
    decreases level', slice'
  {
    if level == level' && slice == slice' {
    } else if slice' > 0 {
      Before3D(m, level, slice, level', slice' - 1);
    } else {
      Before3D(m, level, slice, level' - 1, Dim(m.depth, level' - 1));
    }
  }

  lemma {:induction false} Locate2D(m: TexMetadata, item: nat, level: nat, i: nat)
    requires i < |Cells2D(m, item, level)| && level <= m.mipLevels
    ensures var c := Cells2D(m, item, level)[i];
      && c.mip < m.mipLevels && c.slice == 0 && i == |Cells2D(m, c.item, c.mip)|
      && (c.item < item || (c.item == item && c.mip < level))
    decreases item, level
  {
    if level > 0 {
      if i < |Cells2D(m, item, level - 1)| { Locate2D(m, item, level - 1, i); }
    } else {
      Locate2D(m, item - 1, m.mipLevels, i);
    }
  }

  lemma {:induction false} Locate3D(m: TexMetadata, level: nat, slice: nat, i: nat)
    requires i < |Cells3D(m, level, slice)| && slice <= Dim(m.depth, level)
    ensures var c := Cells3D(m, level, slice)[i];
      && c.item == 0 && c.slice < Dim(m.depth, c.mip) && i == |Cells3D(m, c.mip, c.slice)|
      && (c.mip < level || (c.mip == level && c.slice < slice))
    decreases level, slice
  {
    if slice > 0 {
      if i < |Cells3D(m, level, slice - 1)| { Locate3D(m, level, slice - 1, i); }
    } else {
      Locate3D(m, level - 1, Dim(m.depth, level - 1), i);
    }
  }

  // The images a texture has and the places in its order correspond one to one.
  lemma PositionOfCell(m: TexMetadata, c: Cell)
    requires Has(m, c)
    ensures Position(m, c) < |Cells(m)| && Cells(m)[Position(m, c)] == c
  {
    if m.dimension == Texture3D {
      Before3D(m, c.mip, c.slice + 1, m.mipLevels, 0);
    } else {
      Before2D(m, c.item, c.mip + 1, m.arraySize, 0);
    }
  }

  lemma CellAtPosition(m: TexMetadata, i: nat)
    requires i < |Cells(m)|
    ensures Has(m, Cells(m)[i]) && Position(m, Cells(m)[i]) == i
  {
    if m.dimension == Texture3D {
      Locate3D(m, m.mipLevels, 0, i);
    } else {
      Locate2D(m, m.arraySize, 0, i);
    }
  }

  // ---- sizes and places ----

  function PitchAt(m: TexMetadata, pitch: PitchOf, mip: nat): Pitch {
    pitch(Dim(m.width, mip), Dim(m.height, mip))
  }

  // The bytes taken by a run of images.
  ghost function Total(m: TexMetadata, pitch: PitchOf, cells: seq<Cell>): nat {
    if cells == [] then 0
    else Total(m, pitch, cells[..|cells| - 1]) + PitchAt(m, pitch, cells[|cells| - 1].mip).slice
  }

  lemma TotalAppend(m: TexMetadata, pitch: PitchOf, cells: seq<Cell>, c: Cell)
    ensures Total(m, pitch, cells + [c]) == Total(m, pitch, cells) + PitchAt(m, pitch, c.mip).slice
  {
    assert (cells + [c])[..|cells|] == cells;
  }

  lemma {:induction false} TotalPrefix(m: TexMetadata, pitch: PitchOf, before: seq<Cell>, cells: seq<Cell>)
    requires before <= cells
    ensures Total(m, pitch, before) <= Total(m, pitch, cells)
    decreases |cells|
  {
    if before == cells {
    } else {
      TotalPrefix(m, pitch, before, cells[..|cells| - 1]);
    }
  }

  function ImageOf(m: TexMetadata, pitch: PitchOf, mip: nat, pixels: nat): Image {
    var p := PitchAt(m, pitch, mip);
    Image(Dim(m.width, mip), Dim(m.height, mip), p.row, p.slice, pixels)
  }

  // The images stand in order, each right behind the one before it.
  ghost predicate Placed(m: TexMetadata, pitch: PitchOf, cells: seq<Cell>, images: seq<Image>) {
    && |cells| <= |images|
    && forall i :: 0 <= i < |cells| ==> images[i] == ImageOf(m, pitch, cells[i].mip, Total(m, pitch, cells[..i]))
  }

  // Each image has the dimensions of its level, max(1, size >> mip), and the pitch of an image of that size.
  lemma ImageHasSize(m: TexMetadata, pitch: PitchOf, images: seq<Image>, c: Cell)
    requires Placed(m, pitch, Cells(m), images) && Has(m, c) && m.width > 0 && m.height > 0
    ensures Position(m, c) < |images|
    ensures var image := images[Position(m, c)];
      && image.width == (if Shr(m.width, c.mip) > 1 then Shr(m.width, c.mip) else 1)
      && image.height == (if Shr(m.height, c.mip) > 1 then Shr(m.height, c.mip) else 1)
      && Pitch(image.rowPitch, image.slicePitch) == pitch(image.width, image.height)
  {
    PositionOfCell(m, c);
    DimIsShift(m.width, c.mip);
    DimIsShift(m.height, c.mip);
  }

  lemma PlaceNext(m: TexMetadata, pitch: PitchOf, cells: seq<Cell>, was: seq<Image>, now: seq<Image>, c: Cell)
    requires Placed(m, pitch, cells, was) && |cells| < |was| == |now|
    requires now == was[|cells| := ImageOf(m, pitch, c.mip, Total(m, pitch, cells))]
    ensures Placed(m, pitch, cells + [c], now)
  {
    var more := cells + [c];
    forall i | 0 <= i < |more|
      ensures now[i] == ImageOf(m, pitch, more[i].mip, Total(m, pitch, more[..i]))
    {
      assert more[..i] == cells[..i];
      assert cells[..|cells|] == cells;
    }
  }

  // Without gaps or overlaps: each image ends where the next begins, and the last at the end of the memory.
  lemma Tiles(m: TexMetadata, pitch: PitchOf, images: seq<Image>, i: nat)
    requires Placed(m, pitch, Cells(m), images) && i < |Cells(m)|
    ensures i == 0 ==> images[i].pixels == 0
    ensures images[i].pixels + images[i].slicePitch
         == if i + 1 < |Cells(m)| then images[i + 1].pixels else Total(m, pitch, Cells(m))
  {
    var cells := Cells(m);
    TotalAppend(m, pitch, cells[..i], cells[i]);
    assert cells[..i + 1] == cells[..i] + [cells[i]];
    assert cells[..|cells|] == cells;
  }

  // ---- counting ----

  method DetermineImageArray(m: TexMetadata, pitch: PitchOf) returns (nImages: nat, pixelSize: nat)
    ensures nImages == |Cells(m)| && pixelSize == Total(m, pitch, Cells(m))
  {
    match m.dimension
    case Texture1D | Texture2D => nImages, pixelSize := Determine2D(m, pitch);
    case Texture3D => nImages, pixelSize := Determine3D(m, pitch);
    case OtherDimension => nImages, pixelSize := 0, 0;
  }

  method Determine2D(m: TexMetadata, pitch: PitchOf) returns (nImages: nat, pixelSize: nat)
    ensures nImages == |Cells2D(m, m.arraySize, 0)| && pixelSize == Total(m, pitch, Cells2D(m, m.arraySize, 0))
  {
    nImages, pixelSize := 0, 0;
    for item := 0 to m.arraySize
      invariant nImages == |Cells2D(m, item, 0)| && pixelSize == Total(m, pitch, Cells2D(m, item, 0))
    {
      var w, h := m.width, m.height;
      for level := 0 to m.mipLevels
        invariant nImages == |Cells2D(m, item, level)| && pixelSize == Total(m, pitch, Cells2D(m, item, level))
        invariant w == Dim(m.width, level) && h == Dim(m.height, level)
      {
        TotalAppend(m, pitch, Cells2D(m, item, level), Cell(level, item, 0));
        pixelSize, nImages := pixelSize + pitch(w, h).slice, nImages + 1;
        h, w := Halve(h), Halve(w);
      }
    }
  }

  method Determine3D(m: TexMetadata, pitch: PitchOf) returns (nImages: nat, pixelSize: nat)
    ensures nImages == |Cells3D(m, m.mipLevels, 0)| && pixelSize == Total(m, pitch, Cells3D(m, m.mipLevels, 0))
  {
    nImages, pixelSize := 0, 0;
    var w, h, d := m.width, m.height, m.depth;
    for level := 0 to m.mipLevels
      invariant nImages == |Cells3D(m, level, 0)| && pixelSize == Total(m, pitch, Cells3D(m, level, 0))
      invariant w == Dim(m.width, level) && h == Dim(m.height, level) && d == Dim(m.depth, level)
    {
      var slicePitch := pitch(w, h).slice;
      for slice := 0 to d
        invariant nImages == |Cells3D(m, level, slice)| && pixelSize == Total(m, pitch, Cells3D(m, level, slice))
      {
        TotalAppend(m, pitch, Cells3D(m, level, slice), Cell(level, 0, slice));
        pixelSize, nImages := pixelSize + slicePitch, nImages + 1;
      }
      h, w, d := Halve(h), Halve(w), Halve(d);
    }
  }

  // ---- placing ----

  // All images fit the array and the memory.
  ghost predicate Fits(m: TexMetadata, pitch: PitchOf, nImages: nat, pixelSize: nat) {
    |Cells(m)| <= nImages && Total(m, pitch, Cells(m)) <= pixelSize
  }

  ghost predicate NotEmpty(m: TexMetadata) {
    match m.dimension
    case Texture1D | Texture2D => m.arraySize > 0 && m.mipLevels > 0
    case Texture3D => m.mipLevels > 0 && m.depth > 0
    case OtherDimension => false
  }

  // The first images are placed, within the array and the memory.
  ghost predicate Partly(m: TexMetadata, pitch: PitchOf, cells: seq<Cell>, images: seq<Image>, index: nat, pixels: nat,
                         nImages: nat, pixelSize: nat) {
    && index == |cells| <= nImages && pixels == Total(m, pitch, cells) <= pixelSize && Placed(m, pitch, cells, images)
  }

  // Places one image, unless the array or the memory is used up.
  method PlaceImage(m: TexMetadata, pitch: PitchOf, w: nat, h: nat, images: array<Image>, nImages: nat, pixelSize: nat,
                    index: nat, pixels: nat, ghost before: seq<Cell>, ghost c: Cell) returns (ok: bool, pixels': nat)
    requires nImages <= images.Length && w == Dim(m.width, c.mip) && h == Dim(m.height, c.mip)
    requires Partly(m, pitch, before, images[..], index, pixels, nImages, pixelSize)
    modifies images
    ensures ok <==> Room(m, pitch, before + [c], nImages, pixelSize)
    ensures ok ==> Partly(m, pitch, before + [c], images[..], index + 1, pixels', nImages, pixelSize)
  {
    if index >= nImages {
      return false, pixels;
    }
    TotalAppend(m, pitch, before, c);
    ghost var was := images[..];
    var p := pitch(w, h);
    images[index] := Image(w, h, p.row, p.slice, pixels);
    PlaceNext(m, pitch, before, was, images[..], c);
    pixels' := pixels + p.slice;
    ok := pixels' <= pixelSize;
  }

  ghost predicate Room(m: TexMetadata, pitch: PitchOf, cells: seq<Cell>, nImages: nat, pixelSize: nat) {
    |cells| <= nImages && Total(m, pitch, cells) <= pixelSize
  }

  // When a first part does not fit, the whole does not.
  lemma NoRoom(m: TexMetadata, pitch: PitchOf, cells: seq<Cell>, nImages: nat, pixelSize: nat)
    requires cells <= Cells(m) && !Room(m, pitch, cells, nImages, pixelSize)
    ensures !Fits(m, pitch, nImages, pixelSize)
  {
    TotalPrefix(m, pitch, cells, Cells(m));
  }

  lemma NoRoom2D(m: TexMetadata, pitch: PitchOf, item: nat, level: nat, nImages: nat, pixelSize: nat)
    requires (m.dimension == Texture1D || m.dimension == Texture2D) && item < m.arraySize && level < m.mipLevels
    requires !Room(m, pitch, Cells2D(m, item, level) + [Cell(level, item, 0)], nImages, pixelSize)
    ensures !Fits(m, pitch, nImages, pixelSize)
  {
    Before2D(m, item, level + 1, m.arraySize, 0);
    NoRoom(m, pitch, Cells2D(m, item, level + 1), nImages, pixelSize);
  }

  lemma NoRoom3D(m: TexMetadata, pitch: PitchOf, level: nat, slice: nat, nImages: nat, pixelSize: nat)
    requires m.dimension == Texture3D && level < m.mipLevels && slice < Dim(m.depth, level)
    requires !Room(m, pitch, Cells3D(m, level, slice) + [Cell(level, 0, slice)], nImages, pixelSize)
    ensures !Fits(m, pitch, nImages, pixelSize)
  {
    Before3D(m, level, slice + 1, m.mipLevels, 0);
    NoRoom(m, pitch, Cells3D(m, level, slice + 1), nImages, pixelSize);
  }

  method SetupImageArray(pixelSize: nat, m: TexMetadata, pitch: PitchOf, images: array<Image>, nImages: nat) returns (ok: bool)
    requires nImages <= images.Length
    modifies images
    ensures ok <==> NotEmpty(m) && Fits(m, pitch, nImages, pixelSize)
    ensures ok ==> Placed(m, pitch, Cells(m), images[..])
  {
    match m.dimension
    case Texture1D | Texture2D =>
      if m.arraySize == 0 || m.mipLevels == 0 {
        return false;
      }
      ok := Setup2D(pixelSize, m, pitch, images, nImages);
    case Texture3D =>
      if m.mipLevels == 0 || m.depth == 0 {
        return false;
      }
      ok := Setup3D(pixelSize, m, pitch, images, nImages);
    case OtherDimension =>
      ok := false;
  }

  // All levels of one item.
  method SetupItem(pixelSize: nat, m: TexMetadata, pitch: PitchOf, images: array<Image>, nImages: nat, item: nat,
                   index0: nat, pixels0: nat) returns (ok: bool, index: nat, pixels: nat)
    requires nImages <= images.Length && (m.dimension == Texture1D || m.dimension == Texture2D) && item < m.arraySize
    requires Partly(m, pitch, Cells2D(m, item, 0), images[..], index0, pixels0, nImages, pixelSize)
    modifies images
    ensures !ok ==> !Fits(m, pitch, nImages, pixelSize)
    ensures ok ==> Partly(m, pitch, Cells2D(m, item, m.mipLevels), images[..], index, pixels, nImages, pixelSize)
  {
    index, pixels := index0, pixels0;
    var w, h := m.width, m.height;
    for level := 0 to m.mipLevels
      invariant Partly(m, pitch, Cells2D(m, item, level), images[..], index, pixels, nImages, pixelSize)
      invariant w == Dim(m.width, level) && h == Dim(m.height, level)
    {
      ghost var before, c := Cells2D(m, item, level), Cell(level, item, 0);
      var placed;
      placed, pixels := PlaceImage(m, pitch, w, h, images, nImages, pixelSize, index, pixels, before, c);
      if !placed {
        NoRoom2D(m, pitch, item, level, nImages, pixelSize);
        return false, index, pixels;
      }
      index := index + 1;
      h, w := Halve(h), Halve(w);
    }
    ok := true;
  }

  method Setup2D(pixelSize: nat, m: TexMetadata, pitch: PitchOf, images: array<Image>, nImages: nat) returns (ok: bool)
    requires nImages <= images.Length && m.arraySize > 0 && m.mipLevels > 0
    requires m.dimension == Texture1D || m.dimension == Texture2D
    modifies images
    ensures ok <==> Fits(m, pitch, nImages, pixelSize)
    ensures ok ==> Placed(m, pitch, Cells(m), images[..])
  {
    var index, pixels := 0, 0;
    for item := 0 to m.arraySize
      invariant Partly(m, pitch, Cells2D(m, item, 0), images[..], index, pixels, nImages, pixelSize)
    {
      ok, index, pixels := SetupItem(pixelSize, m, pitch, images, nImages, item, index, pixels);
      if !ok {
        return;
      }
      assert Cells2D(m, item + 1, 0) == Cells2D(m, item, m.mipLevels);
    }
    ok := true;
  }

  // All slices of one level.
  method SetupLevel(pixelSize: nat, m: TexMetadata, pitch: PitchOf, images: array<Image>, nImages: nat, level: nat,
                    w: nat, h: nat, d: nat, index0: nat, pixels0: nat) returns (ok: bool, index: nat, pixels: nat)
    requires nImages <= images.Length && m.dimension == Texture3D && level < m.mipLevels
    requires w == Dim(m.width, level) && h == Dim(m.height, level) && d == Dim(m.depth, level)
    requires Partly(m, pitch, Cells3D(m, level, 0), images[..], index0, pixels0, nImages, pixelSize)
    modifies images
    ensures !ok ==> !Fits(m, pitch, nImages, pixelSize)
    ensures ok ==> Partly(m, pitch, Cells3D(m, level, d), images[..], index, pixels, nImages, pixelSize)
  {
    index, pixels := index0, pixels0;
    for slice := 0 to d
      invariant Partly(m, pitch, Cells3D(m, level, slice), images[..], index, pixels, nImages, pixelSize)
    {
      ghost var before, c := Cells3D(m, level, slice), Cell(level, 0, slice);
      var placed;
      placed, pixels := PlaceImage(m, pitch, w, h, images, nImages, pixelSize, index, pixels, before, c);
      if !placed {
        NoRoom3D(m, pitch, level, slice, nImages, pixelSize);
        return false, index, pixels;
      }
      index := index + 1;
    }
    ok := true;
  }

  method Setup3D(pixelSize: nat, m: TexMetadata, pitch: PitchOf, images: array<Image>, nImages: nat) returns (ok: bool)
    requires nImages <= images.Length && m.mipLevels > 0 && m.depth > 0 && m.dimension == Texture3D
    modifies images
    ensures ok <==> Fits(m, pitch, nImages, pixelSize)
    ensures ok ==> Placed(m, pitch, Cells(m), images[..])
  {
    var index, pixels := 0, 0;
    var w, h, d := m.width, m.height, m.depth;
    for level := 0 to m.mipLevels
      invariant Partly(m, pitch, Cells3D(m, level, 0), images[..], index, pixels, nImages, pixelSize)
      invariant w == Dim(m.width, level) && h == Dim(m.height, level) && d == Dim(m.depth, level)
    {
      ok, index, pixels := SetupLevel(pixelSize, m, pitch, images, nImages, level, w, h, d, index, pixels);
      if !ok {
        return;
      }
      NextLevel(m, level);
      h, w, d := Halve(h), Halve(w), Halve(d);
    }
    ok := true;
    AllPlaced(m, pitch, images[..], index, pixels, nImages, pixelSize);
  }

  lemma NextLevel(m: TexMetadata, level: nat)
    ensures Cells3D(m, level + 1, 0) == Cells3D(m, level, Dim(m.depth, level))
    ensures Dim(m.width, level + 1) == Halve(Dim(m.width, level)) && Dim(m.height, level + 1) == Halve(Dim(m.height, level))
    ensures Dim(m.depth, level + 1) == Halve(Dim(m.depth, level))
  {}

  lemma AllPlaced(m: TexMetadata, pitch: PitchOf, images: seq<Image>, index: nat, pixels: nat, nImages: nat, pixelSize: nat)
    requires m.dimension == Texture3D && Partly(m, pitch, Cells3D(m, m.mipLevels, 0), images, index, pixels, nImages, pixelSize)
    ensures Fits(m, pitch, nImages, pixelSize) && Placed(m, pitch, Cells(m), images)
  {}

  // ---- the number of mip levels ----

  // The last level, and no earlier one, is a single texel.
  ghost predicate IsFullChain(width: nat, height: nat, depth: nat, levels: nat) {
    && levels > 0 && Dim(width, levels - 1) <= 1 && Dim(height, levels - 1) <= 1 && Dim(depth, levels - 1) <= 1
    && forall k: nat :: k < levels - 1 ==> Dim(width, k) > 1 || Dim(height, k) > 1 || Dim(depth, k) > 1
  }

  // The two-dimensional count of the source is this one at depth one.
  method CountMips(width: nat, height: nat, depth: nat) returns (mipLevels: nat)
    ensures IsFullChain(width, height, depth, mipLevels)
  {
    mipLevels := 1;
    var w, h, d := width, height, depth;
    while h > 1 || w > 1 || d > 1
      invariant mipLevels > 0
      invariant w == Dim(width, mipLevels - 1) && h == Dim(height, mipLevels - 1) && d == Dim(depth, mipLevels - 1)
      invariant forall k: nat :: k < mipLevels - 1 ==> Dim(width, k) > 1 || Dim(height, k) > 1 || Dim(depth, k) > 1
      decreases w + h + d
    {
      h, w, d := Halve(h), Halve(w), Halve(d);
      mipLevels := mipLevels + 1;
    }
  }

  // A request of zero asks for the whole chain; more levels than that are refused.
  method CalculateMipLevels(width: nat, height: nat, depth: nat, mipLevels: nat) returns (ok: bool, levels: nat)
    ensures exists full: nat :: IsFullChain(width, height, depth, full) && (ok <==> mipLevels <= full)
                           && (ok ==> levels == if mipLevels == 0 then full else mipLevels)
  {
    var full := CountMips(width, height, depth);
    assert IsFullChain(width, height, depth, full);
    ok, levels := true, if mipLevels == 0 then full else mipLevels;
    if mipLevels > 1 && mipLevels > full {
      ok := false;
    }
  }

  // ---- the container ----

  datatype HResult = S_OK | E_INVALIDARG | ERROR_NOT_SUPPORTED | E_FAIL

  // What the format allows: validity and the kinds that some dimensions exclude.
  datatype FormatKind = FormatKind(valid: bool, palettized: bool, video: bool, planar: bool, depthStencil: bool)

  ghost predicate Acceptable(f: FormatKind, m: TexMetadata) {
    && f.valid && !f.palettized && m.width > 0 && m.arraySize > 0
    && match m.dimension
       case Texture1D => m.height == 1 && m.depth == 1 && !f.video
       case Texture2D => m.height > 0 && m.depth == 1 && (IsCubemap(m) ==> m.arraySize % 6 == 0 && !f.video)
       case Texture3D => m.height > 0 && m.depth > 0 && m.arraySize == 1 && !f.video && !f.planar && !f.depthStencil
       case OtherDimension => false
  }

  // The level counts a texture of these dimensions may ask for.
  ghost predicate LevelsOk(m: TexMetadata, levels: nat) {
    exists full: nat :: IsFullChain(m.width, m.height, m.depth, full) && m.mipLevels <= full
                   && levels == (if m.mipLevels == 0 then full else m.mipLevels)
  }

  class ScratchImage {
    var nimages: nat
    var size: nat
    var metadata: TexMetadata
    var image: array<Image>

    constructor ()
      ensures nimages == 0 && size == 0
    {
      nimages, size, metadata := 0, 0, TexMetadata(0, 0, 0, 0, 0, 0, 0, UNKNOWN, OtherDimension);
      image := new Image[0];
    }

    // The images of the texture tile the memory in order.
    ghost predicate Laid(pitch: PitchOf)
      reads this, image
    {
      && nimages == |Cells(metadata)| == image.Length && size == Total(metadata, pitch, Cells(metadata))
      && Placed(metadata, pitch, Cells(metadata), image[..])
    }

    // Checks the metadata and lays the texture out; the totals of the first pass always suffice for the second.
    method Initialize(mdata: TexMetadata, kind: FormatKind, pitch: PitchOf) returns (hr: HResult)
      modifies this
      ensures hr != E_FAIL
      ensures hr == S_OK ==> Acceptable(kind, mdata) && LevelsOk(mdata, metadata.mipLevels) && Laid(pitch)
                             && metadata == mdata.(mipLevels := metadata.mipLevels)
      ensures hr != S_OK ==> !Acceptable(kind, mdata) || forall n :: !LevelsOk(mdata, n)
    {
      hr := Check(kind, mdata);
      if hr != S_OK {
        return;
      }
      var ok, mipLevels := CalculateMipLevels(mdata.width, mdata.height, mdata.depth, mdata.mipLevels);
      if !ok {
        ChainUnique(mdata);
        return E_INVALIDARG;
      }
      metadata := mdata.(mipLevels := mipLevels);
      assert LevelsOk(mdata, mipLevels);
      var nImages, pixelSize := DetermineImageArray(metadata, pitch);
      image := new Image[nImages];
      nimages, size := nImages, pixelSize;
      var fits := SetupImageArray(pixelSize, metadata, pitch, image, nImages);
      if !fits {
        assert false;
      }
    }

    method Check(kind: FormatKind, m: TexMetadata) returns (hr: HResult)
      ensures hr == S_OK <==> Acceptable(kind, m)
      ensures hr == S_OK || hr == E_INVALIDARG || hr == ERROR_NOT_SUPPORTED
    {
      if !kind.valid {
        return E_INVALIDARG;
      }
      if kind.palettized {
        return ERROR_NOT_SUPPORTED;
      }
      hr := S_OK;
      match m.dimension
      case Texture1D =>
        if m.width == 0 || m.height != 1 || m.depth != 1 || m.arraySize == 0 { return E_INVALIDARG; }
        if kind.video { return ERROR_NOT_SUPPORTED; }
      case Texture2D =>
        if m.width == 0 || m.height == 0 || m.depth != 1 || m.arraySize == 0 { return E_INVALIDARG; }
        if IsCubemap(m) {
          if m.arraySize % 6 != 0 { return E_INVALIDARG; }
          if kind.video { return ERROR_NOT_SUPPORTED; }
        }
      case Texture3D =>
        if m.width == 0 || m.height == 0 || m.depth == 0 || m.arraySize != 1 { return E_INVALIDARG; }
        if kind.video || kind.planar || kind.depthStencil { return ERROR_NOT_SUPPORTED; }
      case OtherDimension =>
        hr := ERROR_NOT_SUPPORTED;
    }

    // The index of an image, if the texture has it.
    method GetImage(mip: nat, item: nat, slice: nat) returns (found: bool, index: nat)
      ensures found <==> Has(metadata, Cell(mip, item, slice))
      ensures found ==> index == Position(metadata, Cell(mip, item, slice)) < |Cells(metadata)|
                        && Cells(metadata)[index] == Cell(mip, item, slice)
    {
      found, index := false, 0;
      if mip >= metadata.mipLevels {
        return;
      }
      match metadata.dimension
      case Texture1D | Texture2D =>
        if slice > 0 || item >= metadata.arraySize {
          return;
        }
        Length2D(metadata, item, mip);
        found, index := true, item * metadata.mipLevels + mip;
        PositionOfCell(metadata, Cell(mip, item, slice));
      case Texture3D =>
        if item > 0 {
          return;
        }
        var d := metadata.depth;
        for level := 0 to mip
          invariant d == Dim(metadata.depth, level) && index == |Cells3D(metadata, level, 0)|
        {
          Length3D(metadata, level, d);
          index := index + d;
          d := Halve(d);
        }
        if slice >= d {
          return;
        }
        Length3D(metadata, mip, slice);
        found, index := true, index + slice;
        PositionOfCell(metadata, Cell(mip, item, slice));
      case OtherDimension =>
    }
  }

  lemma {:induction false} Length2D(m: TexMetadata, item: nat, level: nat)
    ensures |Cells2D(m, item, level)| == item * m.mipLevels + level
    decreases item, level
  {
    if level > 0 {
      Length2D(m, item, level - 1);
    } else if item > 0 {
      Length2D(m, item - 1, m.mipLevels);
    }
  }

  lemma {:induction false} Length3D(m: TexMetadata, level: nat, slice: nat)
    ensures |Cells3D(m, level, slice)| == |Cells3D(m, level, 0)| + slice
  {
    if slice > 0 { Length3D(m, level, slice - 1); }
  }

  // The length of the full chain is determined, so a refusal is final.
  lemma ChainUnique(m: TexMetadata)
    requires exists full: nat :: IsFullChain(m.width, m.height, m.depth, full) && m.mipLevels > full
    ensures forall n :: !LevelsOk(m, n)
  {
    var full: nat :| IsFullChain(m.width, m.height, m.depth, full) && m.mipLevels > full;
    forall other: nat | IsFullChain(m.width, m.height, m.depth, other)
      ensures other == full
    {}
  }
}
