/** Frame geometry of a sprite sheet: how a `SpriteModel` descriptor and the size of
    a horizontal strip of equal frames determine, frame by frame, the crop rectangle,
    the destination canvas and the rectangle the cropped frame is drawn into.
    Bitmaps are not modelled; a frame is its geometry record. */
module SpriteGeometry {
  import opened Wrappers

  /** A sprite descriptor. Pixel sizes are whole numbers; `scale` and `yOffset`
      are exact reals. `frameWidth`/`frameHeight` may be absent. */
  datatype SpriteModel = SpriteModel(
    name: string,
    assetName: string,
    frameWidth: Option<nat>,
    frameHeight: Option<nat>,
    scale: real,
    yOffset: real,
    cutLeft: nat,
    cutRight: nat)

  /** What the asset loader gives back for a sheet: its size, and the frame
      indices whose crop the image backend refuses (it yields no image for them). */
  datatype Sheet = Sheet(width: nat, height: nat, badCrops: set<nat>)

  datatype CropRect = CropRect(x: int, y: int, width: nat, height: nat)
  datatype Size = Size(width: real, height: real)
  datatype DrawRect = DrawRect(x: real, y: real, width: real, height: real)

  /** One produced frame: its index in the strip, the rectangle cropped from the
      sheet, the size of the canvas it is rendered into, and where it is drawn. */
  datatype Frame = Frame(index: nat, crop: CropRect, dest: Size, draw: DrawRect)

  /** Descriptor with every optional field at its default: scale 1, no offset, no cut. */
  function Plain(name: string, asset: string, fw: Option<nat>, fh: Option<nat>): SpriteModel
  {
    SpriteModel(name, asset, fw, fh, 1.0, 0.0, 0, 0)
  }

  /** The built-in catalog, in order. */
  function AvailableSprites(): seq<SpriteModel>
  {
    [ Plain("Duky the Duck", "Duck", Some(32), Some(32)).(yOffset := -3.0),
      Plain("Mushy", "mushroom", Some(48), Some(48)).(scale := 0.6),
      Plain("Mort", "DinoSprites-mort", None, None).(scale := 1.2),
      Plain("Doux", "DinoSprites-doux", None, None).(scale := 1.2),
      Plain("tard", "DinoSprites-tard", None, None).(scale := 1.2),
      Plain("Mighty Knight", "Kinght", Some(22), Some(24)).(scale := 1.2),
      Plain("Bob", "GreenFrog", Some(48), Some(48)),
      Plain("Cherry", "cat", Some(80), Some(64)).(cutLeft := 20, cutRight := 10),
      Plain("Jonathan", "Stickman", Some(64), Some(64)).(scale := 0.6),
      Plain("Vampy The Bat", "bat", Some(32), Some(32)).(scale := 1.8),
      Plain("Pinguy", "Pinguin", Some(64), Some(64)).(yOffset := 9.0, cutLeft := 20, cutRight := 20),
      Plain("Riccy", "riccio", Some(31), Some(23)).(scale := 1.5, cutLeft := 5, cutRight := 5),
      Plain("Shuba Duck", "funnyduck", Some(64), Some(64)).(scale := 0.45),
      Plain("Pika", "pikachu", Some(64), Some(64)).(scale := 0.5),
      Plain("Sexy Pika", "SexyPika", Some(64), Some(64)).(scale := 0.4),
      Plain("Mario", "Mario", Some(64), Some(64)).(scale := 0.5) ]
  }

  /** Frame height: the descriptor's, else the whole sheet height. */
  function FrameHeightOf(sprite: SpriteModel, sheet: Sheet): nat
  {
    sprite.frameHeight.GetOr(sheet.height)
  }

  /** Frame width: the descriptor's, else the frame height (square frames). */
  function FrameWidthOf(sprite: SpriteModel, sheet: Sheet): nat
  {
    sprite.frameWidth.GetOr(FrameHeightOf(sprite, sheet))
  }

  /** Number of whole frames that fit in the strip. */
  function FrameCount(totalWidth: nat, frameWidth: nat): (n: nat)
    requires frameWidth > 0
    ensures n * frameWidth <= totalWidth < (n + 1) * frameWidth
  {
    totalWidth / frameWidth
  }

  function CropOf(i: nat, fw: nat, fh: nat): CropRect
  {
    CropRect(i * fw, 0, fw, fh)
  }

  /** Canvas size: the trimmed width and the full height, both scaled. */
  function DestOf(sprite: SpriteModel, fw: nat, fh: nat): Size
  {
    Size(((fw as real) - (sprite.cutLeft as real) - (sprite.cutRight as real)) * sprite.scale,
         (fh as real) * sprite.scale)
  }

  /** The whole scaled frame, shifted left by the scaled left cut and down by `yOffset`. */
  function DrawOf(sprite: SpriteModel, fw: nat, fh: nat): DrawRect
  {
    DrawRect(-(sprite.cutLeft as real) * sprite.scale, -sprite.yOffset,
             (fw as real) * sprite.scale, (fh as real) * sprite.scale)
  }

  function MakeFrame(sprite: SpriteModel, fw: nat, fh: nat, i: nat): Frame
  {
    Frame(i, CropOf(i, fw, fh), DestOf(sprite, fw, fh), DrawOf(sprite, fw, fh))
  }

  /** The frames produced for indices `0 .. n-1`, in order, skipping the indices
      whose crop fails. */
  function FramesUpTo(sprite: SpriteModel, fw: nat, fh: nat, bad: set<nat>, n: nat): (r: seq<Frame>)
    ensures |r| <= n
    ensures forall k :: 0 <= k < |r| ==>
      r[k].index < n && r[k].index !in bad && r[k] == MakeFrame(sprite, fw, fh, r[k].index)
    ensures forall j, k :: 0 <= j < k < |r| ==> r[j].index < r[k].index
  {
    if n == 0 then []
    else
      var prefix := FramesUpTo(sprite, fw, fh, bad, n - 1);
      if n - 1 in bad then prefix else prefix + [MakeFrame(sprite, fw, fh, n - 1)]
  }

  /** A loaded sheet can be cut only when the frame width is positive; otherwise
      the conversion of `totalWidth / frameWidth` to an integer traps. */
  predicate Loadable(sprite: SpriteModel, sheet: Option<Sheet>)
  {
    sheet.Some? ==> FrameWidthOf(sprite, sheet.value) > 0
  }

  /** Every frame extracted from a sheet that loaded. */
  function SheetFrames(sprite: SpriteModel, sheet: Sheet): seq<Frame>
    requires FrameWidthOf(sprite, sheet) > 0
  {
    var fw := FrameWidthOf(sprite, sheet);
    FramesUpTo(sprite, fw, FrameHeightOf(sprite, sheet), sheet.badCrops, FrameCount(sheet.width, fw))
  }

  /** The frame list a load leaves behind: empty when the asset is missing. */
  function LoadedFrames(sprite: SpriteModel, sheet: Option<Sheet>): seq<Frame>
    requires Loadable(sprite, sheet)
  {
    match sheet
    case None => []
    case Some(s) => SheetFrames(sprite, s)
  }

  // ---------------------------------------------------------------------------
  // Properties

  /** Absent sizes fall back to the sheet height, and an absent width to the height. */
  lemma FrameSizeDefaults(sprite: SpriteModel, sheet: Sheet)
    ensures sprite.frameHeight.None? ==> FrameHeightOf(sprite, sheet) == sheet.height
    ensures sprite.frameHeight.Some? ==> FrameHeightOf(sprite, sheet) == sprite.frameHeight.value
    ensures sprite.frameWidth.None? ==> FrameWidthOf(sprite, sheet) == FrameHeightOf(sprite, sheet)
    ensures sprite.frameWidth.Some? ==> FrameWidthOf(sprite, sheet) == sprite.frameWidth.value
  {
  }

  lemma MulMonotone(a: nat, b: nat, c: nat)
    requires a <= b
    ensures a * c <= b * c
  {
  }

  /** Crop rectangles tile the strip left to right: each one starts where the
      previous ends, so earlier rectangles lie wholly to the left of later ones. */
  lemma CropRectsTile(fw: nat, fh: nat, i: nat, j: nat)
    requires i < j
    ensures CropOf(i, fw, fh).x + CropOf(i, fw, fh).width <= CropOf(j, fw, fh).x
    ensures j == i + 1 ==> CropOf(i, fw, fh).x + CropOf(i, fw, fh).width == CropOf(j, fw, fh).x
  {
    MulMonotone(i + 1, j, fw);
  }

  /** Every crop rectangle of a frame that is attempted lies inside the strip. */
  lemma CropRectInStrip(totalWidth: nat, fw: nat, fh: nat, i: nat)
    requires fw > 0 && i < FrameCount(totalWidth, fw)
    ensures 0 <= CropOf(i, fw, fh).x
    ensures CropOf(i, fw, fh).x + CropOf(i, fw, fh).width <= totalWidth
  {
    MulMonotone(i + 1, FrameCount(totalWidth, fw), fw);
  }

  /** The frames of a sheet come in increasing index order, all below the frame
      count, one for exactly each index whose crop succeeds. */
  lemma SheetFramesIndices(sprite: SpriteModel, sheet: Sheet)
    requires FrameWidthOf(sprite, sheet) > 0
    ensures var n := FrameCount(sheet.width, FrameWidthOf(sprite, sheet));
            var r := SheetFrames(sprite, sheet);
            |r| <= n &&
            (forall j, k :: 0 <= j < k < |r| ==> r[j].index < r[k].index) &&
            (forall k :: 0 <= k < |r| ==> r[k].index < n && r[k].index !in sheet.badCrops) &&
            (forall i :: 0 <= i < n && i !in sheet.badCrops ==> exists k :: 0 <= k < |r| && r[k].index == i)
  {
    var fw, fh := FrameWidthOf(sprite, sheet), FrameHeightOf(sprite, sheet);
    var n := FrameCount(sheet.width, fw);
    var r := SheetFrames(sprite, sheet);
    forall i | 0 <= i < n && i !in sheet.badCrops
      ensures exists k :: 0 <= k < |r| && r[k].index == i
    {
      FramesUpToComplete(sprite, fw, fh, sheet.badCrops, n, i);
    }
  }

  /** Each frame of a sheet has the crop rectangle of its index, inside the strip,
      the canvas of the trimmed and scaled frame, and the shifted, scaled draw
      rectangle. */
  lemma SheetFramesGeometry(sprite: SpriteModel, sheet: Sheet, k: nat)
    requires FrameWidthOf(sprite, sheet) > 0 && k < |SheetFrames(sprite, sheet)|
    ensures var fw, fh := FrameWidthOf(sprite, sheet), FrameHeightOf(sprite, sheet);
            var f := SheetFrames(sprite, sheet)[k];
            var cl, cr := sprite.cutLeft as real, sprite.cutRight as real;
            f.crop == CropRect(f.index * fw, 0, fw, fh) &&
            f.crop.x + f.crop.width <= sheet.width &&
            f.dest == Size(((fw as real) - cl - cr) * sprite.scale, (fh as real) * sprite.scale) &&
            f.draw == DrawRect(-cl * sprite.scale, -sprite.yOffset, (fw as real) * sprite.scale, (fh as real) * sprite.scale)
  {
    var fw, fh := FrameWidthOf(sprite, sheet), FrameHeightOf(sprite, sheet);
    var f := SheetFrames(sprite, sheet)[k];
    assert f == MakeFrame(sprite, fw, fh, f.index);
    CropRectInStrip(sheet.width, fw, fh, f.index);
  }

  /** No index is lost: every index below `n` whose crop succeeds has its frame. */
  lemma {:induction false} FramesUpToComplete(sprite: SpriteModel, fw: nat, fh: nat, bad: set<nat>, n: nat, i: nat)
    requires i < n && i !in bad
    ensures exists k :: 0 <= k < |FramesUpTo(sprite, fw, fh, bad, n)| &&
                        FramesUpTo(sprite, fw, fh, bad, n)[k].index == i
  {
    var prefix := FramesUpTo(sprite, fw, fh, bad, n - 1);
    var r := FramesUpTo(sprite, fw, fh, bad, n);
    if i < n - 1 {
      FramesUpToComplete(sprite, fw, fh, bad, n - 1, i);
      var k :| 0 <= k < |prefix| && prefix[k].index == i;
      assert r[k] == prefix[k];
    } else {
      assert r == prefix + [MakeFrame(sprite, fw, fh, n - 1)];
      assert r[|prefix|].index == i;
    }
  }

  /** When no crop fails, frame `k` is the frame of index `k`, for every `k`
      below the count, and nothing else. */
  lemma {:induction false} AllCropsSucceed(sprite: SpriteModel, fw: nat, fh: nat, bad: set<nat>, n: nat)
    requires forall i :: 0 <= i < n ==> i !in bad
    ensures |FramesUpTo(sprite, fw, fh, bad, n)| == n
    ensures forall k :: 0 <= k < n ==> FramesUpTo(sprite, fw, fh, bad, n)[k] == MakeFrame(sprite, fw, fh, k)
  {
    if n > 0 {
      AllCropsSucceed(sprite, fw, fh, bad, n - 1);
      var prefix := FramesUpTo(sprite, fw, fh, bad, n - 1);
      assert n - 1 !in bad;
      var r := prefix + [MakeFrame(sprite, fw, fh, n - 1)];
      assert FramesUpTo(sprite, fw, fh, bad, n) == r;
      forall k | 0 <= k < n
        ensures r[k] == MakeFrame(sprite, fw, fh, k)
      {
        if k < n - 1 {
          assert r[k] == prefix[k];
        }
      }
    }
  }

  /** A strip whose width is a whole number of frames, none failing, yields
      exactly width / frameWidth frames. */
  lemma EvenStripYieldsAllFrames(sprite: SpriteModel, sheet: Sheet)
    requires FrameWidthOf(sprite, sheet) > 0
    requires sheet.width % FrameWidthOf(sprite, sheet) == 0
    requires sheet.badCrops == {}
    ensures |SheetFrames(sprite, sheet)| * FrameWidthOf(sprite, sheet) == sheet.width
  {
    var fw := FrameWidthOf(sprite, sheet);
    AllCropsSucceed(sprite, fw, FrameHeightOf(sprite, sheet), {}, FrameCount(sheet.width, fw));
  }

  /** The drawn frame spreads its `fw` source columns evenly over the draw width. */
  function ColumnWidth(f: Frame, fw: nat): real
    requires fw > 0
  {
    f.draw.width / (fw as real)
  }

  /** Where source column `c` begins on the canvas. */
  function ColumnLeft(f: Frame, fw: nat, c: int): real
    requires fw > 0
  {
    f.draw.x + (c as real) * ColumnWidth(f, fw)
  }

  /** Source column `c` lands wholly on the canvas. */
  predicate ColumnVisible(f: Frame, fw: nat, c: int)
    requires fw > 0
  {
    0.0 <= ColumnLeft(f, fw, c) && ColumnLeft(f, fw, c) + ColumnWidth(f, fw) <= f.dest.width
  }

  /** Columns `cutLeft .. frameWidth - cutRight - 1` of the source frame, and only
      those, land wholly on the canvas. Vertically the drawn frame covers the full
      canvas height, shifted by `yOffset`. */
  lemma VisibleColumns(sprite: SpriteModel, fw: nat, fh: nat, i: nat, c: int)
    requires fw > 0 && sprite.scale > 0.0
    ensures ColumnVisible(MakeFrame(sprite, fw, fh, i), fw, c) <==> sprite.cutLeft <= c < fw - sprite.cutRight
    ensures MakeFrame(sprite, fw, fh, i).draw.height == MakeFrame(sprite, fw, fh, i).dest.height
    ensures MakeFrame(sprite, fw, fh, i).draw.y == -sprite.yOffset
  {
    var f := MakeFrame(sprite, fw, fh, i);
    var s := sprite.scale;
    var cl, cr := sprite.cutLeft as real, sprite.cutRight as real;
    var w := fw as real;
    assert f.draw.width == w * s;
    DivideOut(w, s);
    assert ColumnWidth(f, fw) == s;
    var d := (c as real) - cl;
    assert ColumnLeft(f, fw, c) == d * s by {
      SumOfProducts(-cl, c as real, s);
    }
    assert f.dest.width == (w - cl - cr) * s;
    UnitInsideScaled(ColumnLeft(f, fw, c), ColumnWidth(f, fw), f.dest.width, d, w - cl - cr, s);
    assert (0.0 <= d) <==> (sprite.cutLeft <= c);
    assert (d + 1.0 <= w - cl - cr) <==> (c < fw - sprite.cutRight);
  }

  /** Cancelling a positive factor in a quotient. */
  lemma DivideOut(w: real, s: real)
    requires w > 0.0
    ensures (w * s) / w == s
  {
  }

  lemma SumOfProducts(a: real, b: real, s: real)
    ensures a * s + b * s == (a + b) * s
  {
  }

  /** The scaled unit interval at `d` lies in the scaled `[0, t]` iff the unscaled one does. */
  lemma UnitInsideScaled(left: real, width: real, total: real, d: real, t: real, s: real)
    requires s > 0.0 && left == d * s && width == s && total == t * s
    ensures (0.0 <= left && left + width <= total) <==> (0.0 <= d && d + 1.0 <= t)
  {
    assert 0.0 * s == 0.0;
    ScaleOrder(0.0, d, s);
    SumOfProducts(d, 1.0, s);
    ScaleOrder(d + 1.0, t, s);
  }

  /** Multiplying by a positive factor keeps (and reflects) order. */
  lemma ScaleOrder(a: real, b: real, s: real)
    requires s > 0.0
    ensures a <= b <==> a * s <= b * s
  {
    if a <= b {
      assert b * s - a * s == (b - a) * s;
    } else {
      assert a * s - b * s == (a - b) * s;
    }
  }

  /** A descriptor keeps a positive width after both cuts and has a positive
      scale; one without a width cuts nothing. */
  predicate WellFormed(sp: SpriteModel)
  {
    sp.scale > 0.0 &&
    (sp.frameWidth.Some? ==> sp.frameWidth.value > sp.cutLeft + sp.cutRight) &&
    (sp.frameHeight.Some? ==> sp.frameHeight.value > 0) &&
    (sp.frameWidth.None? ==> sp.frameHeight.None? && sp.cutLeft == 0 && sp.cutRight == 0)
  }

  /** Every catalog descriptor is well formed. */
  lemma CatalogWellFormed()
    ensures forall k :: 0 <= k < |AvailableSprites()| ==> WellFormed(AvailableSprites()[k])
  {
  }

  /** A well-formed sprite can be loaded from any sheet of positive height, and
      every frame it produces has a canvas of positive width and height. */
  lemma WellFormedFramesHavePositiveSize(sprite: SpriteModel, sheet: Sheet, i: nat)
    requires WellFormed(sprite) && sheet.height > 0
    ensures Loadable(sprite, Some(sheet))
    ensures var f := MakeFrame(sprite, FrameWidthOf(sprite, sheet), FrameHeightOf(sprite, sheet), i);
            f.dest.width > 0.0 && f.dest.height > 0.0
  {
    var fw, fh := FrameWidthOf(sprite, sheet), FrameHeightOf(sprite, sheet);
    assert fw > sprite.cutLeft + sprite.cutRight;
    assert fh > 0;
    var trimmed := (fw as real) - (sprite.cutLeft as real) - (sprite.cutRight as real);
    assert trimmed > 0.0;
    PositiveProduct(trimmed, sprite.scale);
    PositiveProduct(fh as real, sprite.scale);
  }

  lemma PositiveProduct(a: real, b: real)
    requires a > 0.0 && b > 0.0
    ensures a * b > 0.0
  {
  }

  /** Catalog names are the selection keys, so no two entries share one. */
  lemma CatalogNamesUnique()
    ensures forall j, k :: 0 <= j < k < |AvailableSprites()| ==>
      AvailableSprites()[j].name != AvailableSprites()[k].name
  {
  }

  /** "Cherry" (80 x 64, cut 20 left and 10 right, scale 1) renders 50 x 64 frames. */
  lemma CherryFrameSize(sheet: Sheet, i: nat)
    ensures var cherry := AvailableSprites()[7];
            cherry.name == "Cherry" &&
            MakeFrame(cherry, FrameWidthOf(cherry, sheet), FrameHeightOf(cherry, sheet), i).dest == Size(50.0, 64.0)
  {
  }

  /** A 32 x 32 descriptor without cuts over a 128 x 32 strip gives four 32 x 32 frames. */
  lemma SquareStripExample()
    ensures var sp := Plain("square", "strip", Some(32), Some(32));
            var r := SheetFrames(sp, Sheet(128, 32, {}));
            |r| == 4 && forall k :: 0 <= k < 4 ==> r[k].index == k && r[k].dest == Size(32.0, 32.0)
  {
    var sp := Plain("square", "strip", Some(32), Some(32));
    assert FrameCount(128, 32) == 4;
    AllCropsSucceed(sp, 32, 32, {}, 4);
  }
}
