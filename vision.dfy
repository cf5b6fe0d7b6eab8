/** The integer pixel pipeline that turns an emulator frame into a frame
    abstraction: life-bar reading, contrast thresholds, bounding boxes,
    centroids, region growing, colour histograms, probability segmentation,
    mask merging, trace decay and the mean squared error between frames.
    Grey images hold one byte per pixel, colour images one `Rgb`. */
module Vision {
  import opened Common

  type GrayImage = Image<Byte>
  type RgbImage = Image<Rgb>
  type Point = (nat, nat)

  /** What the learning agent sees of a frame: the segmented image and the
      two characters' centroids. */
  datatype FrameAbstraction = FrameAbstraction(frame: RgbImage, char1Centroid: Point, char2Centroid: Point)

  // ---------------------------------------------------------------------
  // Life bars
  // ---------------------------------------------------------------------

  const LifeBarY: nat := 54
  const Player1LifeBarX: (nat, nat) := (12, 164)
  const Player2LifeBarX: (nat, nat) := (204, 356)

  /** How a grey level on the life bar row is read. */
  datatype LifeClass = Taken | Remaining | Damage

  function ClassifyLifePixel(g: Byte): LifeClass {
    if g <= 100 then Taken else if g <= 200 then Remaining else Damage
  }

  /** Number of pixels of row `LifeBarY` in columns `[x0, x1)` read as `c`. */
  function CountClass(img: GrayImage, x0: nat, x1: nat, c: LifeClass): nat
    requires img.Valid()
    requires x0 < x1 ==> x1 <= img.width && LifeBarY < img.height
    decreases x1
  {
    if x1 <= x0 then 0
    else CountClass(img, x0, x1 - 1, c) + (if ClassifyLifePixel(img.At(x1 - 1, LifeBarY)) == c then 1 else 0)
  }

  /** Every pixel of the bar is read as exactly one of the three classes. */
  lemma {:induction false} LifeClassesPartitionBar(img: GrayImage, x0: nat, x1: nat)
    requires img.Valid()
    requires x0 <= x1 <= img.width && LifeBarY < img.height
    ensures CountClass(img, x0, x1, Taken) + CountClass(img, x0, x1, Remaining)
            + CountClass(img, x0, x1, Damage) == x1 - x0
    decreases x1
  {
    if x0 < x1 {
      LifeClassesPartitionBar(img, x0, x1 - 1);
    }
  }

  /** The integer part of `LifeInfo`: the life and damage pixel counts and the
      bar width they are divided by. */
  datatype LifeCounts = LifeCounts(life: nat, damage: nat, total: nat)

  method GetLifeInfoForPlayer(img: GrayImage, xLimits: (nat, nat)) returns (info: LifeCounts)
    requires img.Valid()
    requires xLimits.0 <= xLimits.1
    requires xLimits.0 < xLimits.1 ==> xLimits.1 <= img.width && LifeBarY < img.height
    ensures info.life == CountClass(img, xLimits.0, xLimits.1, Remaining)
    ensures info.damage == CountClass(img, xLimits.0, xLimits.1, Damage)
    ensures info.total == xLimits.1 - xLimits.0
    ensures info.life + info.damage <= info.total
  {
    var lifeCount, damageCount := 0, 0;
    var x := xLimits.0;
    while x < xLimits.1
      invariant xLimits.0 <= x <= xLimits.1
      invariant lifeCount == CountClass(img, xLimits.0, x, Remaining)
      invariant damageCount == CountClass(img, xLimits.0, x, Damage)
    {
      var g := img.At(x, LifeBarY);
      if g <= 100 {
      } else if g <= 200 {
        lifeCount := lifeCount + 1;
      } else {
        damageCount := damageCount + 1;
      }
      x := x + 1;
    }
    if xLimits.0 < xLimits.1 {
      LifeClassesPartitionBar(img, xLimits.0, xLimits.1);
    }
    info := LifeCounts(lifeCount, damageCount, xLimits.1 - xLimits.0);
  }

  /** `get_life_info` on a frame already converted to grey. */
  method GetLifeInfo(img: GrayImage) returns (player1: LifeCounts, player2: LifeCounts)
    requires img.Valid() && Player2LifeBarX.1 <= img.width && LifeBarY < img.height
    ensures player1.life == CountClass(img, Player1LifeBarX.0, Player1LifeBarX.1, Remaining)
    ensures player1.damage == CountClass(img, Player1LifeBarX.0, Player1LifeBarX.1, Damage)
    ensures player2.life == CountClass(img, Player2LifeBarX.0, Player2LifeBarX.1, Remaining)
    ensures player2.damage == CountClass(img, Player2LifeBarX.0, Player2LifeBarX.1, Damage)
    ensures player1.total == 152 && player2.total == 152
  {
    player1 := GetLifeInfoForPlayer(img, Player1LifeBarX);
    player2 := GetLifeInfoForPlayer(img, Player2LifeBarX);
  }

  // ---------------------------------------------------------------------
  // Contrast thresholds
  // ---------------------------------------------------------------------

  /** A channel survives only when it lies strictly outside `[lo, hi]`. */
  function ThresholdChannel(c: Byte, lo: Byte, hi: Byte): Byte {
    if c < lo || c > hi then c else 0
  }

  function ThresholdPixel(p: Rgb, red: (Byte, Byte), green: (Byte, Byte), blue: (Byte, Byte)): Rgb {
    Rgb(ThresholdChannel(p.r, red.0, red.1),
        ThresholdChannel(p.g, green.0, green.1),
        ThresholdChannel(p.b, blue.0, blue.1))
  }

  method ApplyThresholds(img: RgbImage, red: (Byte, Byte), green: (Byte, Byte), blue: (Byte, Byte))
    returns (out: RgbImage)
    requires img.Valid()
    ensures out.Valid() && out.width == img.width && out.height == img.height
    // every column but the last keeps exactly the channels outside their interval
    ensures forall x, y :: out.InBounds(x, y) && x + 1 < out.width ==>
              out.At(x, y) == ThresholdPixel(img.At(x, y), red, green, blue)
    // the last column is left black
    ensures forall x, y :: out.InBounds(x, y) && x == out.width - 1 ==> out.At(x, y) == Black
  {
    out := Blank(img.width, img.height, Black);
    var width := Max(img.width - 1, 0);
    var x := 0;
    while x < width
      invariant 0 <= x <= width
      invariant out.Valid() && out.width == img.width && out.height == img.height
      invariant forall i, j :: out.InBounds(i, j) ==>
                  out.At(i, j) == if i < x then ThresholdPixel(img.At(i, j), red, green, blue) else Black
    {
      var y := 0;
      while y < img.height
        invariant 0 <= y <= img.height
        invariant out.Valid() && out.width == img.width && out.height == img.height
        invariant forall i, j :: out.InBounds(i, j) ==>
                    out.At(i, j) == if i < x || (i == x && j < y) then ThresholdPixel(img.At(i, j), red, green, blue) else Black
      {
        var pixel := img.At(x, y);
        var r := if pixel.r < red.0 || pixel.r > red.1 then pixel.r else 0;
        var g := if pixel.g < green.0 || pixel.g > green.1 then pixel.g else 0;
        var b := if pixel.b < blue.0 || pixel.b > blue.1 then pixel.b else 0;
        out := out.Put(x, y, Rgb(r, g, b));
        y := y + 1;
      }
      x := x + 1;
    }
  }

  // ---------------------------------------------------------------------
  // Bounding box of a mask
  // ---------------------------------------------------------------------

  predicate IsSet(img: GrayImage, x: int, y: int)
    requires img.Valid()
  {
    img.InBounds(x, y) && img.At(x, y) != 0
  }

  /** The running box of `find_corners`: `(minX, minY)` is `corner1`,
      `(maxX, maxY)` is `corner2`. */
  datatype Corners = Corners(minX: nat, minY: nat, maxX: nat, maxY: nat)

  /** The four comparisons `find_corners` makes for one set pixel. */
  function Widen(b: Corners, x: nat, y: nat): Corners {
    Corners(if x < b.minX then x else b.minX, if y < b.minY then y else b.minY,
            if x > b.maxX then x else b.maxX, if y > b.maxY then y else b.maxY)
  }

  /** The box after scanning rows `[0, y1)` of column `x`, starting from `b`. */
  function ScanColumn(img: GrayImage, b: Corners, x: nat, y1: nat): Corners
    requires img.Valid() && x < img.width && y1 <= img.height
  {
    if y1 == 0 then b
    else
      var b' := ScanColumn(img, b, x, y1 - 1);
      if img.At(x, y1 - 1) != 0 then Widen(b', x, y1 - 1) else b'
  }

  /** The box after scanning columns `[0, x1)`, column by column as `find_corners` does. */
  function ScanColumns(img: GrayImage, x1: nat): Corners
    requires img.Valid() && x1 <= img.width
  {
    if x1 == 0 then InitialCorners(img)
    else ScanColumn(img, ScanColumns(img, x1 - 1), x1 - 1, img.height)
  }

  /** Pixel `(i, j)` has been visited once a column-major scan reaches `(x, y)`. */
  predicate Scanned(i: int, j: int, x: int, y: int) {
    0 <= i < x || (i == x && 0 <= j < y)
  }

  /** The box `find_corners` starts from, which it also returns for an all-zero mask. */
  function InitialCorners(img: GrayImage): Corners {
    Corners(img.width, img.height, 0, 0)
  }

  /** `b` holds every set pixel scanned before `(x, y)`. */
  ghost predicate HoldsScanned(img: GrayImage, x: int, y: int, b: Corners)
    requires img.Valid()
  {
    forall i, j :: Scanned(i, j, x, y) && IsSet(img, i, j) ==> b.minX <= i <= b.maxX && b.minY <= j <= b.maxY
  }

  /** Each of the four sides of `b` passes through a set pixel. */
  ghost predicate SidesTouch(img: GrayImage, b: Corners)
    requires img.Valid()
  {
    (exists j :: IsSet(img, b.minX, j)) && (exists i :: IsSet(img, i, b.minY)) &&
    (exists j :: IsSet(img, b.maxX, j)) && (exists i :: IsSet(img, i, b.maxY))
  }

  lemma {:induction false} ScanColumnHolds(img: GrayImage, b: Corners, x: nat, y1: nat)
    requires img.Valid() && x < img.width && y1 <= img.height
    requires HoldsScanned(img, x, 0, b)
    ensures HoldsScanned(img, x, y1, ScanColumn(img, b, x, y1))
    decreases y1
  {
    if y1 > 0 {
      var y := y1 - 1;
      ScanColumnHolds(img, b, x, y);
      var b' := ScanColumn(img, b, x, y);
      var r := ScanColumn(img, b, x, y1);
      forall i, j | Scanned(i, j, x, y1) && IsSet(img, i, j)
        ensures r.minX <= i <= r.maxX && r.minY <= j <= r.maxY
      {
        if !(i == x && j == y) {
          assert Scanned(i, j, x, y);
        }
      }
    }
  }

  lemma {:induction false} ScanColumnsHold(img: GrayImage, x1: nat)
    requires img.Valid() && x1 <= img.width
    ensures HoldsScanned(img, x1, 0, ScanColumns(img, x1))
    decreases x1
  {
    if x1 > 0 {
      ScanColumnsHold(img, x1 - 1);
      var b := ScanColumns(img, x1 - 1);
      ScanColumnHolds(img, b, x1 - 1, img.height);
      assert forall i, j :: IsSet(img, i, j) && Scanned(i, j, x1, 0) ==> Scanned(i, j, x1 - 1, img.height);
    }
  }

  lemma {:induction false} ScanColumnTouches(img: GrayImage, b: Corners, x: nat, y1: nat)
    requires img.Valid() && x < img.width && y1 <= img.height
    requires b == InitialCorners(img) || SidesTouch(img, b)
    ensures var r := ScanColumn(img, b, x, y1); r == InitialCorners(img) || SidesTouch(img, r)
    decreases y1
  {
    if y1 > 0 {
      var y := y1 - 1;
      ScanColumnTouches(img, b, x, y);
      var b' := ScanColumn(img, b, x, y);
      if img.At(x, y) != 0 {
        var w := Widen(b', x, y);
        assert IsSet(img, x, y);
        if b' == InitialCorners(img) {
          assert w == Corners(x, y, x, y);
        } else {
          var a :| IsSet(img, b'.minX, a);
          var c :| IsSet(img, c, b'.minY);
          var d :| IsSet(img, b'.maxX, d);
          var e :| IsSet(img, e, b'.maxY);
          assert IsSet(img, w.minX, if x < b'.minX then y else a);
          assert IsSet(img, if y < b'.minY then x else c, w.minY);
          assert IsSet(img, w.maxX, if x > b'.maxX then y else d);
          assert IsSet(img, if y > b'.maxY then x else e, w.maxY);
        }
      }
    }
  }

  lemma {:induction false} ScanColumnsTouch(img: GrayImage, x1: nat)
    requires img.Valid() && x1 <= img.width
    ensures ScanColumns(img, x1) == InitialCorners(img) || SidesTouch(img, ScanColumns(img, x1))
    decreases x1
  {
    if x1 > 0 {
      ScanColumnsTouch(img, x1 - 1);
      ScanColumnTouches(img, ScanColumns(img, x1 - 1), x1 - 1, img.height);
    }
  }

  lemma {:induction false} ScanColumnUnchanged(img: GrayImage, b: Corners, x: nat, y1: nat)
    requires img.Valid() && x < img.width && y1 <= img.height
    requires forall j :: 0 <= j < y1 ==> img.At(x, j) == 0
    ensures ScanColumn(img, b, x, y1) == b
    decreases y1
  {
    if y1 > 0 {
      ScanColumnUnchanged(img, b, x, y1 - 1);
    }
  }

  lemma {:induction false} ScanColumnsInitial(img: GrayImage, x1: nat)
    requires img.Valid() && x1 <= img.width
    requires forall i, j :: 0 <= i < x1 && 0 <= j < img.height ==> img.At(i, j) == 0
    ensures ScanColumns(img, x1) == InitialCorners(img)
    decreases x1
  {
    if x1 > 0 {
      ScanColumnsInitial(img, x1 - 1);
      ScanColumnUnchanged(img, ScanColumns(img, x1 - 1), x1 - 1, img.height);
    }
  }

  /** `find_corners`: the smallest closed box holding every set pixel; an
      all-zero mask gives the inverted box `((width, height), (0, 0))`. */
  method FindCorners(img: GrayImage) returns (corner1: Point, corner2: Point)
    requires img.Valid()
    ensures (forall x, y :: !IsSet(img, x, y)) ==> corner1 == (img.width, img.height) && corner2 == (0, 0)
    ensures forall x, y :: IsSet(img, x, y) ==> corner1.0 <= x <= corner2.0 && corner1.1 <= y <= corner2.1
    // the box is tight: each of its four sides touches a set pixel
    ensures (exists x, y :: IsSet(img, x, y)) ==>
              (exists y :: IsSet(img, corner1.0, y)) && (exists x :: IsSet(img, x, corner1.1)) &&
              (exists y :: IsSet(img, corner2.0, y)) && (exists x :: IsSet(img, x, corner2.1))
  {
    var minX: nat, minY: nat, maxX: nat, maxY: nat := img.width, img.height, 0, 0;
    var x := 0;
    while x < img.width
      invariant 0 <= x <= img.width
      invariant Corners(minX, minY, maxX, maxY) == ScanColumns(img, x)
    {
      var y := 0;
      while y < img.height
        invariant 0 <= y <= img.height
        invariant Corners(minX, minY, maxX, maxY) == ScanColumn(img, ScanColumns(img, x), x, y)
      {
        if img.At(x, y) != 0 {
          if x < minX {
            minX := x;
          }
          if y < minY {
            minY := y;
          }
          if x > maxX {
            maxX := x;
          }
          if y > maxY {
            maxY := y;
          }
        }
        y := y + 1;
      }
      x := x + 1;
    }
    corner1, corner2 := (minX, minY), (maxX, maxY);
    ScanColumnsHold(img, img.width);
    assert forall i, j :: IsSet(img, i, j) ==> Scanned(i, j, img.width, 0);
    ScanColumnsTouch(img, img.width);
    if forall i, j :: !IsSet(img, i, j) {
      forall i, j | 0 <= i < img.width && 0 <= j < img.height ensures img.At(i, j) == 0 {
        assert !IsSet(img, i, j);
      }
      ScanColumnsInitial(img, img.width);
    }
  }

  // ---------------------------------------------------------------------
  // Centroids: the column and the row with the most set pixels
  // ---------------------------------------------------------------------

  /** A half-open box `[c1, c2)` that is either empty or inside the image:
      the only boxes `find_centroid` can scan without indexing out of bounds. */
  predicate BoxFits<T>(img: Image<T>, c1: Point, c2: Point) {
    c1.0 < c2.0 && c1.1 < c2.1 ==> c2.0 <= img.width && c2.1 <= img.height
  }

  predicate InBox(p: (int, int), c1: Point, c2: Point) {
    c1.0 <= p.0 < c2.0 && c1.1 <= p.1 < c2.1
  }

  /** Set pixels of column `x` in rows `[y0, y1)`. */
  function ColumnCount(img: GrayImage, x: nat, y0: nat, y1: nat): nat
    requires img.Valid()
    requires y0 < y1 ==> x < img.width && y1 <= img.height
    decreases y1
  {
    if y1 <= y0 then 0 else ColumnCount(img, x, y0, y1 - 1) + (if img.At(x, y1 - 1) != 0 then 1 else 0)
  }

  /** Set pixels of row `y` in columns `[x0, x1)`. */
  function RowCount(img: GrayImage, y: nat, x0: nat, x1: nat): nat
    requires img.Valid()
    requires x0 < x1 ==> y < img.height && x1 <= img.width
    decreases x1
  {
    if x1 <= x0 then 0 else RowCount(img, y, x0, x1 - 1) + (if img.At(x1 - 1, y) != 0 then 1 else 0)
  }

  /** `cx` is the first column of the box with the strictly largest positive
      count, or 0 when no column of the box has a set pixel. */
  ghost predicate IsCentroidColumn(img: GrayImage, c1: Point, c2: Point, cx: nat)
    requires img.Valid() && BoxFits(img, c1, c2)
  {
    if exists x :: c1.0 <= x < c2.0 && ColumnCount(img, x, c1.1, c2.1) > 0 then
      c1.0 <= cx < c2.0 && ColumnCount(img, cx, c1.1, c2.1) > 0 &&
      (forall x :: c1.0 <= x < c2.0 ==> ColumnCount(img, x, c1.1, c2.1) <= ColumnCount(img, cx, c1.1, c2.1)) &&
      (forall x :: c1.0 <= x < cx ==> ColumnCount(img, x, c1.1, c2.1) < ColumnCount(img, cx, c1.1, c2.1))
    else
      cx == 0
  }

  /** The same choice among the rows of the box. */
  ghost predicate IsCentroidRow(img: GrayImage, c1: Point, c2: Point, cy: nat)
    requires img.Valid() && BoxFits(img, c1, c2)
  {
    if exists y :: c1.1 <= y < c2.1 && RowCount(img, y, c1.0, c2.0) > 0 then
      c1.1 <= cy < c2.1 && RowCount(img, cy, c1.0, c2.0) > 0 &&
      (forall y :: c1.1 <= y < c2.1 ==> RowCount(img, y, c1.0, c2.0) <= RowCount(img, cy, c1.0, c2.0)) &&
      (forall y :: c1.1 <= y < cy ==> RowCount(img, y, c1.0, c2.0) < RowCount(img, cy, c1.0, c2.0))
    else
      cy == 0
  }

  method FindCentroid(img: GrayImage, corner1: Point, corner2: Point) returns (centroid: Point)
    requires img.Valid() && BoxFits(img, corner1, corner2)
    ensures IsCentroidColumn(img, corner1, corner2, centroid.0)
    ensures IsCentroidRow(img, corner1, corner2, centroid.1)
  {
    var cx: nat, cy: nat := 0, 0;
    var maxCount := 0;
    var x := corner1.0;
    while x < corner2.0
      invariant corner1.0 <= x && (x <= corner2.0 || x == corner1.0)
      invariant forall i :: corner1.0 <= i < x ==> ColumnCount(img, i, corner1.1, corner2.1) <= maxCount
      invariant maxCount == 0 ==> cx == 0
      invariant maxCount > 0 ==> corner1.0 <= cx < x && ColumnCount(img, cx, corner1.1, corner2.1) == maxCount
      invariant forall i :: corner1.0 <= i < cx ==> ColumnCount(img, i, corner1.1, corner2.1) < maxCount
    {
      var count := 0;
      var y := corner1.1;
      while y < corner2.1
        invariant corner1.1 <= y && (y <= corner2.1 || y == corner1.1)
        invariant count == ColumnCount(img, x, corner1.1, y)
      {
        count := count + if img.At(x, y) != 0 then 1 else 0;
        y := y + 1;
      }
      if count > maxCount {
        cx := x;
        maxCount := count;
      }
      x := x + 1;
    }
    maxCount := 0;
    var y := corner1.1;
    while y < corner2.1
      invariant corner1.1 <= y && (y <= corner2.1 || y == corner1.1)
      invariant forall j :: corner1.1 <= j < y ==> RowCount(img, j, corner1.0, corner2.0) <= maxCount
      invariant maxCount == 0 ==> cy == 0
      invariant maxCount > 0 ==> corner1.1 <= cy < y && RowCount(img, cy, corner1.0, corner2.0) == maxCount
      invariant forall j :: corner1.1 <= j < cy ==> RowCount(img, j, corner1.0, corner2.0) < maxCount
    {
      var count := 0;
      var x := corner1.0;
      while x < corner2.0
        invariant corner1.0 <= x && (x <= corner2.0 || x == corner1.0)
        invariant count == RowCount(img, y, corner1.0, x)
      {
        count := count + if img.At(x, y) != 0 then 1 else 0;
        x := x + 1;
      }
      if count > maxCount {
        cy := y;
        maxCount := count;
      }
      y := y + 1;
    }
    centroid := (cx, cy);
  }

  /** `find_centroids`: one centroid in each half of the box, split at the
      middle column (which belongs to the right half). The Rust code
      subtracts the corners in `u32`, so the box must not be inverted in x. */
  method FindCentroids(img: GrayImage, corner1: Point, corner2: Point) returns (centroid1: Point, centroid2: Point)
    requires img.Valid() && BoxFits(img, corner1, corner2)
    requires corner1.0 <= corner2.0
    ensures var halfX := corner1.0 + (corner2.0 - corner1.0) / 2;
            IsCentroidColumn(img, corner1, (halfX, corner2.1), centroid1.0) &&
            IsCentroidRow(img, corner1, (halfX, corner2.1), centroid1.1) &&
            IsCentroidColumn(img, (halfX, corner1.1), corner2, centroid2.0) &&
            IsCentroidRow(img, (halfX, corner1.1), corner2, centroid2.1)
  {
    var halfX := corner1.0 + (corner2.0 - corner1.0) / 2;
    centroid1 := FindCentroid(img, corner1, (halfX, corner2.1));
    centroid2 := FindCentroid(img, (halfX, corner1.1), corner2);
  }

  // ---------------------------------------------------------------------
  // Region growing
  // ---------------------------------------------------------------------

  /** A character: its mask and the closed box `[corner1, corner2]` around it. */
  datatype Character = Character(mask: GrayImage, corner1: Point, corner2: Point)

  /** The eight neighbour offsets, in the order `grow_region` tries them. */
  const Offsets: seq<(int, int)> := [(-1, -1), (0, -1), (1, -1), (-1, 0), (1, 0), (-1, 1), (0, 1), (1, 1)]

  /** The `k`-th neighbour of `p` that `grow_region` tries. */
  function Neighbour(p: (int, int), k: nat): (int, int)
    requires k < |Offsets|
  {
    (p.0 + Offsets[k].0, p.1 + Offsets[k].1)
  }

  /** `q` is one of the eight pixels around `p`. */
  predicate Adjacent(p: (int, int), q: (int, int)) {
    q != p && -1 <= q.0 - p.0 <= 1 && -1 <= q.1 - p.1 <= 1
  }

  /** The eight offsets are exactly the eight neighbours. */
  lemma OffsetsAreTheNeighbours(p: (int, int), q: (int, int))
    ensures Adjacent(p, q) <==> exists k :: 0 <= k < |Offsets| && q == Neighbour(p, k)
  {
    if Adjacent(p, q) {
      var d := (q.0 - p.0, q.1 - p.1);
      var k := if d == (-1, -1) then 0 else if d == (0, -1) then 1 else if d == (1, -1) then 2
               else if d == (-1, 0) then 3 else if d == (1, 0) then 4 else if d == (-1, 1) then 5
               else if d == (0, 1) then 6 else 7;
      assert q == Neighbour(p, k);
    }
  }

  /** A pixel the region may take: inside the half-open box and set in the mask. */
  predicate Growable(mask: GrayImage, q: (int, int), c1: Point, c2: Point)
    requires mask.Valid()
  {
    InBox(q, c1, c2) && mask.InBounds(q.0, q.1) && mask.At(q.0, q.1) > 0
  }

  /** The `visited` matrix, indexed `[x][y]` as in `grow_region`. */
  predicate VisitedShape(visited: seq<seq<bool>>, width: nat, height: nat) {
    |visited| == width && forall x :: 0 <= x < |visited| ==> |visited[x]| == height
  }

  predicate IsVisited(visited: seq<seq<bool>>, width: nat, height: nat, q: (int, int))
    requires VisitedShape(visited, width, height)
  {
    0 <= q.0 < width && 0 <= q.1 < height && visited[q.0][q.1]
  }

  /** The pixels of the box that are not yet visited; their number bounds
      how often the queue can still grow. */
  ghost function Unvisited(visited: seq<seq<bool>>, width: nat, height: nat, c1: Point, c2: Point): set<(int, int)>
    requires VisitedShape(visited, width, height)
  {
    set x, y | c1.0 <= x < c2.0 && c1.1 <= y < c2.1 && !IsVisited(visited, width, height, (x, y)) :: (x, y)
  }

  /** The `visited` matrix with `q` marked. */
  function MarkVisited(visited: seq<seq<bool>>, width: nat, height: nat, q: (int, int)): (r: seq<seq<bool>>)
    requires VisitedShape(visited, width, height) && 0 <= q.0 < width && 0 <= q.1 < height
    ensures VisitedShape(r, width, height)
    ensures forall q' :: IsVisited(r, width, height, q') <==> IsVisited(visited, width, height, q') || q' == q
  {
    visited[q.0 := visited[q.0][q.1 := true]]
  }

  /** Marking a pixel of the box removes exactly it from the unvisited ones. */
  lemma MarkVisitedShrinks(visited: seq<seq<bool>>, width: nat, height: nat, c1: Point, c2: Point, q: (int, int))
    requires VisitedShape(visited, width, height) && 0 <= q.0 < width && 0 <= q.1 < height
    requires InBox(q, c1, c2) && !IsVisited(visited, width, height, q)
    ensures Unvisited(MarkVisited(visited, width, height, q), width, height, c1, c2)
            == Unvisited(visited, width, height, c1, c2) - {q}
    ensures q in Unvisited(visited, width, height, c1, c2)
  {
  }

  /** How `grow_region`'s queue and `visited` matrix may evolve while
      neighbours are explored: growable pixels are appended to the queue,
      each one marked visited at the same time, and nothing is unmarked. */
  ghost predicate Explores(mask: GrayImage, c1: Point, c2: Point,
                           visited0: seq<seq<bool>>, queue0: seq<(int, int)>,
                           visited: seq<seq<bool>>, queue: seq<(int, int)>)
    requires mask.Valid()
    requires VisitedShape(visited0, mask.width, mask.height) && VisitedShape(visited, mask.width, mask.height)
  {
    && |Unvisited(visited, mask.width, mask.height, c1, c2)| + |queue|
       == |Unvisited(visited0, mask.width, mask.height, c1, c2)| + |queue0|
    && |queue0| <= |queue| && queue[..|queue0|] == queue0
    && (forall i :: |queue0| <= i < |queue| ==> Growable(mask, queue[i], c1, c2))
    && (forall q :: IsVisited(visited0, mask.width, mask.height, q) ==> IsVisited(visited, mask.width, mask.height, q))
    && (forall q :: IsVisited(visited, mask.width, mask.height, q) ==>
          IsVisited(visited0, mask.width, mask.height, q) || q in queue[|queue0|..])
  }

  lemma ExploresTransitive(mask: GrayImage, c1: Point, c2: Point,
                           v0: seq<seq<bool>>, q0: seq<(int, int)>, v1: seq<seq<bool>>, q1: seq<(int, int)>,
                           v2: seq<seq<bool>>, q2: seq<(int, int)>)
    requires mask.Valid()
    requires VisitedShape(v0, mask.width, mask.height) && VisitedShape(v1, mask.width, mask.height)
    requires VisitedShape(v2, mask.width, mask.height)
    requires Explores(mask, c1, c2, v0, q0, v1, q1) && Explores(mask, c1, c2, v1, q1, v2, q2)
    ensures Explores(mask, c1, c2, v0, q0, v2, q2)
  {
    assert q2[..|q0|] == q1[..|q0|];
    forall i | |q0| <= i < |q2| ensures Growable(mask, q2[i], c1, c2) {
      if i < |q1| {
        assert q2[i] == q1[i];
      }
    }
    forall q | IsVisited(v2, mask.width, mask.height, q) && !IsVisited(v0, mask.width, mask.height, q)
      ensures q in q2[|q0|..]
    {
      if q !in q2[|q1|..] {
        var i :| |q0| <= i < |q1| && q1[i] == q;
        assert q2[i] == q;
      }
    }
  }

  /** One pass of the inner `for (dx, dy)` loop of `grow_region`, for the
      neighbour `q = (nx, ny)`: if it lies in the box, is not yet visited and
      is set in the mask, it is marked visited and queued. The Rust code casts
      a coordinate of -1 to `u32::MAX`, which fails `nx < corner2.0` just as
      -1 fails `nx >= corner1.0` here. */
  method TryVisit(mask: GrayImage, q: (int, int), c1: Point, c2: Point, visited0: seq<seq<bool>>, queue0: seq<(int, int)>)
    returns (visited: seq<seq<bool>>, queue: seq<(int, int)>)
    requires mask.Valid() && BoxFits(mask, c1, c2)
    requires VisitedShape(visited0, mask.width, mask.height)
    ensures VisitedShape(visited, mask.width, mask.height)
    ensures Explores(mask, c1, c2, visited0, queue0, visited, queue)
    // either nothing happens, or the growable, unvisited q is marked and queued
    ensures || (visited == visited0 && queue == queue0)
            || (Growable(mask, q, c1, c2) && !IsVisited(visited0, mask.width, mask.height, q) &&
                queue == queue0 + [q] && visited == MarkVisited(visited0, mask.width, mask.height, q))
    ensures Growable(mask, q, c1, c2) ==> IsVisited(visited, mask.width, mask.height, q)
  {
    visited, queue := visited0, queue0;
    var (nx, ny) := q;
    if nx >= c1.0 && ny >= c1.1 && nx < c2.0 && ny < c2.1 {
      if !visited[nx][ny] && mask.At(nx, ny) > 0 {
        visited := MarkVisited(visited, mask.width, mask.height, (nx, ny));
        queue := queue + [(nx, ny)];
        MarkVisitedShrinks(visited0, mask.width, mask.height, c1, c2, q);
        assert queue[|queue0|..] == [q];
      }
    }
  }

  /** The inner `for (dx, dy)` loop of `grow_region` around `p`: afterwards
      every growable neighbour of `p` is visited. */
  method VisitNeighbours(mask: GrayImage, p: (int, int), c1: Point, c2: Point, visited0: seq<seq<bool>>, queue0: seq<(int, int)>)
    returns (visited: seq<seq<bool>>, queue: seq<(int, int)>)
    requires mask.Valid() && BoxFits(mask, c1, c2)
    requires VisitedShape(visited0, mask.width, mask.height)
    ensures VisitedShape(visited, mask.width, mask.height)
    ensures Explores(mask, c1, c2, visited0, queue0, visited, queue)
    ensures forall k :: 0 <= k < |Offsets| && Growable(mask, Neighbour(p, k), c1, c2) ==>
              IsVisited(visited, mask.width, mask.height, Neighbour(p, k))
    // only neighbours of `p` are queued
    ensures forall i :: |queue0| <= i < |queue| ==> Adjacent(p, queue[i])
  {
    visited, queue := visited0, queue0;
    assert queue[|queue0|..] == [];
    var k := 0;
    while k < |Offsets|
      invariant 0 <= k <= |Offsets|
      invariant VisitedShape(visited, mask.width, mask.height)
      invariant Explores(mask, c1, c2, visited0, queue0, visited, queue)
      invariant forall k' :: 0 <= k' < k && Growable(mask, Neighbour(p, k'), c1, c2) ==>
                  IsVisited(visited, mask.width, mask.height, Neighbour(p, k'))
      invariant forall i :: |queue0| <= i < |queue| ==> Adjacent(p, queue[i])
    {
      ghost var visitedBefore, queueBefore := visited, queue;
      visited, queue := TryVisit(mask, Neighbour(p, k), c1, c2, visited, queue);
      ExploresTransitive(mask, c1, c2, visited0, queue0, visitedBefore, queueBefore, visited, queue);
      NeighbourIsAdjacent(p, k);
      k := k + 1;
    }
  }

  /** Each offset leads to an adjacent pixel. */
  lemma NeighbourIsAdjacent(p: (int, int), k: nat)
    requires k < |Offsets|
    ensures Adjacent(p, Neighbour(p, k))
  {
  }

  predicate Marked(out: GrayImage, q: (int, int))
    requires out.Valid()
  {
    out.InBounds(q.0, q.1) && out.At(q.0, q.1) != 0
  }

  /** No pixel of the region has a growable neighbour outside it. */
  ghost predicate ClosedRegion(mask: GrayImage, out: GrayImage, c1: Point, c2: Point)
    requires mask.Valid() && out.Valid()
  {
    forall q, k :: Marked(out, q) && 0 <= k < |Offsets| && Growable(mask, Neighbour(q, k), c1, c2) ==>
      Marked(out, Neighbour(q, k))
  }

  // The invariants of the `grow_region` queue loop, one predicate each, and
  // the lemmas showing that one round (pop `p`, mark it, widen the box,
  // explore its neighbours) keeps them.

  ghost predicate OnlyGrowableMarked(mask: GrayImage, seed: Point, c1: Point, c2: Point, out: GrayImage)
    requires mask.Valid() && out.Valid()
  {
    forall q :: Marked(out, q) ==> q == seed || Growable(mask, q, c1, c2)
  }

  ghost predicate BinaryMask(out: GrayImage)
    requires out.Valid()
  {
    forall x, y :: out.InBounds(x, y) ==> out.At(x, y) == 0 || out.At(x, y) == 255
  }

  /** The closed box `[c1, c2]` holds every marked pixel. */
  ghost predicate BoundsMarked(out: GrayImage, c1: Point, c2: Point)
    requires out.Valid()
  {
    forall q :: Marked(out, q) ==> c1.0 <= q.0 <= c2.0 && c1.1 <= q.1 <= c2.1
  }

  ghost predicate QueuedGrowable(mask: GrayImage, seed: Point, c1: Point, c2: Point, queue: seq<(int, int)>)
    requires mask.Valid()
  {
    forall i :: 0 <= i < |queue| ==> queue[i] == seed || Growable(mask, queue[i], c1, c2)
  }

  ghost predicate VisitedAccounted(out: GrayImage, visited: seq<seq<bool>>, queue: seq<(int, int)>)
    requires out.Valid() && VisitedShape(visited, out.width, out.height)
  {
    forall q :: IsVisited(visited, out.width, out.height, q) ==> q in queue || Marked(out, q)
  }

  ghost predicate NeighboursVisited(mask: GrayImage, c1: Point, c2: Point, out: GrayImage, visited: seq<seq<bool>>)
    requires mask.Valid() && out.Valid() && VisitedShape(visited, mask.width, mask.height)
  {
    forall q, k :: Marked(out, q) && 0 <= k < |Offsets| && Growable(mask, Neighbour(q, k), c1, c2) ==>
      IsVisited(visited, mask.width, mask.height, Neighbour(q, k))
  }

  lemma MarkKeepsMaskInvariants(mask: GrayImage, seed: Point, c1: Point, c2: Point, out: GrayImage, b: Corners, p: Point)
    requires mask.Valid() && out.Valid() && out.InBounds(p.0, p.1)
    requires p == seed || Growable(mask, p, c1, c2)
    requires OnlyGrowableMarked(mask, seed, c1, c2, out) && BinaryMask(out)
    requires BoundsMarked(out, (b.minX, b.minY), (b.maxX, b.maxY))
    ensures OnlyGrowableMarked(mask, seed, c1, c2, out.Put(p.0, p.1, 255))
    ensures BinaryMask(out.Put(p.0, p.1, 255))
    ensures var b' := Widen(b, p.0, p.1); BoundsMarked(out.Put(p.0, p.1, 255), (b'.minX, b'.minY), (b'.maxX, b'.maxY))
    ensures forall q :: Marked(out.Put(p.0, p.1, 255), q) <==> Marked(out, q) || q == p
  {
  }

  lemma RoundKeepsVisitInvariants(mask: GrayImage, seed: Point, c1: Point, c2: Point, out: GrayImage, p: Point,
                                  visited0: seq<seq<bool>>, queue0: seq<(int, int)>,
                                  visited: seq<seq<bool>>, queue: seq<(int, int)>)
    requires mask.Valid() && BoxFits(mask, c1, c2) && out.Valid() && out.width == mask.width && out.height == mask.height
    requires out.InBounds(p.0, p.1)
    requires VisitedShape(visited0, mask.width, mask.height) && VisitedShape(visited, mask.width, mask.height)
    requires |queue0| > 0 && queue0[0] == p
    requires VisitedAccounted(out, visited0, queue0) && NeighboursVisited(mask, c1, c2, out, visited0)
    requires QueuedGrowable(mask, seed, c1, c2, queue0)
    requires Explores(mask, c1, c2, visited0, queue0[1..], visited, queue)
    requires forall k :: 0 <= k < |Offsets| && Growable(mask, Neighbour(p, k), c1, c2) ==>
               IsVisited(visited, mask.width, mask.height, Neighbour(p, k))
    ensures VisitedAccounted(out.Put(p.0, p.1, 255), visited, queue)
    ensures NeighboursVisited(mask, c1, c2, out.Put(p.0, p.1, 255), visited)
    ensures QueuedGrowable(mask, seed, c1, c2, queue)
  {
    var out' := out.Put(p.0, p.1, 255);
    var rest := queue0[1..];
    forall i | 0 <= i < |queue| ensures queue[i] == seed || Growable(mask, queue[i], c1, c2) {
      if i < |rest| {
        assert queue[i] == queue0[i + 1];
      }
    }
    forall q | IsVisited(visited, mask.width, mask.height, q) ensures q in queue || Marked(out', q) {
      if IsVisited(visited0, mask.width, mask.height, q) {
        if q in queue0 && q != p {
          var i :| 0 <= i < |queue0| && queue0[i] == q;
          assert rest[i - 1] == q;
          assert queue[i - 1] == q;
        }
      } else {
        assert q in queue[|rest|..];
      }
    }
  }

  /** A chain of 8-adjacent pixels whose every step after the first is growable. */
  ghost predicate GrowthPath(mask: GrayImage, c1: Point, c2: Point, path: seq<(int, int)>)
    requires mask.Valid()
  {
    |path| > 0 &&
    forall i :: 0 < i < |path| ==> Adjacent(path[i - 1], path[i]) && Growable(mask, path[i], c1, c2)
  }

  /** A closed region that holds the start of a growth path holds all of it:
      so the region `grow_region` returns holds every pixel 8-connected to the
      seed through growable pixels. */
  lemma {:induction false} ClosedRegionHoldsPaths(mask: GrayImage, out: GrayImage, c1: Point, c2: Point,
                                                  path: seq<(int, int)>)
    requires mask.Valid() && out.Valid()
    requires ClosedRegion(mask, out, c1, c2) && GrowthPath(mask, c1, c2, path) && Marked(out, path[0])
    ensures Marked(out, path[|path| - 1])
    decreases |path|
  {
    if |path| > 1 {
      var prefix := path[..|path| - 1];
      assert GrowthPath(mask, c1, c2, prefix) by {
        forall i | 0 < i < |prefix| ensures Adjacent(prefix[i - 1], prefix[i]) && Growable(mask, prefix[i], c1, c2) {
          assert prefix[i - 1] == path[i - 1] && prefix[i] == path[i];
        }
      }
      ClosedRegionHoldsPaths(mask, out, c1, c2, prefix);
      var p, q := path[|path| - 2], path[|path| - 1];
      assert Adjacent(p, q);
      OffsetsAreTheNeighbours(p, q);
      var k :| 0 <= k < |Offsets| && q == Neighbour(p, k);
    }
  }

  /** `q` is reached from `seed` by a growth path: the pixels a flood fill
      from `seed` is meant to mark. */
  ghost predicate Reachable(mask: GrayImage, c1: Point, c2: Point, seed: Point, q: (int, int))
    requires mask.Valid()
  {
    exists path :: GrowthPath(mask, c1, c2, path) && path[0] == seed && path[|path| - 1] == q
  }

  /** A growable pixel next to a reachable one is reachable. */
  lemma ReachableStep(mask: GrayImage, c1: Point, c2: Point, seed: Point, p: (int, int), q: (int, int))
    requires mask.Valid() && Reachable(mask, c1, c2, seed, p)
    requires Adjacent(p, q) && Growable(mask, q, c1, c2)
    ensures Reachable(mask, c1, c2, seed, q)
  {
    var path :| GrowthPath(mask, c1, c2, path) && path[0] == seed && path[|path| - 1] == p;
    var path' := path + [q];
    forall i | 0 < i < |path'| ensures Adjacent(path'[i - 1], path'[i]) && Growable(mask, path'[i], c1, c2) {
      if i < |path| {
        assert path'[i - 1] == path[i - 1] && path'[i] == path[i];
      }
    }
    assert GrowthPath(mask, c1, c2, path');
  }

  /** A closed region holding the seed holds every pixel reachable from it. */
  lemma ClosedRegionHoldsReachable(mask: GrayImage, out: GrayImage, c1: Point, c2: Point, seed: Point)
    requires mask.Valid() && out.Valid()
    requires ClosedRegion(mask, out, c1, c2) && Marked(out, seed)
    ensures forall q :: Reachable(mask, c1, c2, seed, q) ==> Marked(out, q)
  {
    forall q | Reachable(mask, c1, c2, seed, q) ensures Marked(out, q) {
      var path :| GrowthPath(mask, c1, c2, path) && path[0] == seed && path[|path| - 1] == q;
      ClosedRegionHoldsPaths(mask, out, c1, c2, path);
    }
  }

  /** One round of the queue loop keeps every queued and every marked pixel
      reachable from the seed: the popped pixel `p` was, and each pixel
      queued after it is a growable neighbour of `p`. */
  lemma RoundKeepsReach(mask: GrayImage, seed: Point, c1: Point, c2: Point, out: GrayImage, p: (int, int),
                        queue0: seq<(int, int)>, queue: seq<(int, int)>)
    requires mask.Valid() && out.Valid() && out.InBounds(p.0, p.1)
    requires |queue0| > 0 && queue0[0] == p
    requires forall i :: 0 <= i < |queue0| ==> Reachable(mask, c1, c2, seed, queue0[i])
    requires forall q :: Marked(out, q) ==> Reachable(mask, c1, c2, seed, q)
    requires |queue0| - 1 <= |queue| && queue[..|queue0| - 1] == queue0[1..]
    requires forall i :: |queue0| - 1 <= i < |queue| ==> Adjacent(p, queue[i]) && Growable(mask, queue[i], c1, c2)
    ensures forall i :: 0 <= i < |queue| ==> Reachable(mask, c1, c2, seed, queue[i])
    ensures forall q :: Marked(out.Put(p.0, p.1, 255), q) ==> Reachable(mask, c1, c2, seed, q)
  {
    forall i | 0 <= i < |queue| ensures Reachable(mask, c1, c2, seed, queue[i]) {
      if i < |queue0| - 1 {
        assert queue[i] == queue0[i + 1];
      } else {
        ReachableStep(mask, c1, c2, seed, p, queue[i]);
      }
    }
  }

  /** Each side of the closed box `[c1, c2]` passes through a marked pixel. */
  ghost predicate SidesMarked(out: GrayImage, c1: Point, c2: Point)
    requires out.Valid()
  {
    && (exists q :: Marked(out, q) && q.0 == c1.0)
    && (exists q :: Marked(out, q) && q.1 == c1.1)
    && (exists q :: Marked(out, q) && q.0 == c2.0)
    && (exists q :: Marked(out, q) && q.1 == c2.1)
  }

  /** Once the queue is empty, every visited pixel is marked, so the region is closed. */
  lemma EmptyQueueClosesRegion(mask: GrayImage, c1: Point, c2: Point, out: GrayImage, visited: seq<seq<bool>>)
    requires mask.Valid() && out.Valid() && out.width == mask.width && out.height == mask.height
    requires VisitedShape(visited, mask.width, mask.height)
    requires VisitedAccounted(out, visited, []) && NeighboursVisited(mask, c1, c2, out, visited)
    ensures ClosedRegion(mask, out, c1, c2)
  {
  }

  /** The invariant of the `grow_region` queue loop. `box` is the running
      bounding box and `left`, `top`, `right`, `bottom` are marked pixels on
      its four sides once the seed is marked; before that nothing has been
      popped and the box is the initial one. */
  ghost predicate GrowInvariant(mask: GrayImage, seed: Point, c1: Point, c2: Point, out: GrayImage, box: Corners,
                                visited: seq<seq<bool>>, queue: seq<(int, int)>,
                                left: (int, int), top: (int, int), right: (int, int), bottom: (int, int))
    requires mask.Valid()
  {
    && out.Valid() && out.width == mask.width && out.height == mask.height
    && VisitedShape(visited, mask.width, mask.height)
    && QueuedGrowable(mask, seed, c1, c2, queue)
    && OnlyGrowableMarked(mask, seed, c1, c2, out) && BinaryMask(out)
    && BoundsMarked(out, (box.minX, box.minY), (box.maxX, box.maxY))
    && (Marked(out, seed) || (queue == [seed] && box.minX == mask.width - 1 && box.minY == mask.height - 1 && box.maxX == 0 && box.maxY == 0))
    && VisitedAccounted(out, visited, queue) && NeighboursVisited(mask, c1, c2, out, visited)
    && (forall i :: 0 <= i < |queue| ==> Reachable(mask, c1, c2, seed, queue[i]))
    && (forall q :: Marked(out, q) ==> Reachable(mask, c1, c2, seed, q))
    && (Marked(out, seed) ==>
          && Marked(out, left) && left.0 == box.minX && Marked(out, top) && top.1 == box.minY
          && Marked(out, right) && right.0 == box.maxX && Marked(out, bottom) && bottom.1 == box.maxY)
  }

  /** One round of the `grow_region` queue loop: pop `p`, mark it, widen the
      box with the four comparisons of `find_corners`, and explore its
      neighbours. The round keeps the loop invariant and uses up one queued
      or unvisited pixel. */
  method GrowRound(mask: GrayImage, seed: Point, c1: Point, c2: Point, out0: GrayImage, box0: Corners,
                   visited0: seq<seq<bool>>, queue0: seq<(int, int)>,
                   ghost left0: (int, int), ghost top0: (int, int), ghost right0: (int, int), ghost bottom0: (int, int))
    returns (out: GrayImage, box: Corners, visited: seq<seq<bool>>, queue: seq<(int, int)>,
             ghost left: (int, int), ghost top: (int, int), ghost right: (int, int), ghost bottom: (int, int))
    requires mask.Valid() && BoxFits(mask, c1, c2) && mask.InBounds(seed.0, seed.1)
    requires GrowInvariant(mask, seed, c1, c2, out0, box0, visited0, queue0, left0, top0, right0, bottom0)
    requires |queue0| > 0
    ensures GrowInvariant(mask, seed, c1, c2, out, box, visited, queue, left, top, right, bottom)
    ensures VisitedShape(visited, mask.width, mask.height)
    ensures |Unvisited(visited, mask.width, mask.height, c1, c2)| + |queue|
            < |Unvisited(visited0, mask.width, mask.height, c1, c2)| + |queue0|
  {
    var p := queue0[0];
    queue := queue0[1..];
    var (x, y) := p;
    out := out0.Put(x, y, 255);
    box := Widen(box0, x, y);
    MarkKeepsMaskInvariants(mask, seed, c1, c2, out0, box0, (x, y));
    left, top, right, bottom := WidenKeepsSides(mask, seed, out0, box0, p, left0, top0, right0, bottom0);
    visited, queue := VisitNeighbours(mask, p, c1, c2, visited0, queue);
    RoundKeepsVisitInvariants(mask, seed, c1, c2, out0, (x, y), visited0, queue0, visited, queue);
    RoundKeepsReach(mask, seed, c1, c2, out0, p, queue0, queue);
  }

  /** Marking `p` and widening the box over it keeps a marked pixel on each
      side of the box: `p` itself on a side it moves, the old one elsewhere.
      The first pixel marked is the seed, which the initial box widens to. */
  lemma WidenKeepsSides(mask: GrayImage, seed: Point, out0: GrayImage, box0: Corners, p: (int, int),
                        left0: (int, int), top0: (int, int), right0: (int, int), bottom0: (int, int))
    returns (left: (int, int), top: (int, int), right: (int, int), bottom: (int, int))
    requires mask.Valid() && mask.InBounds(seed.0, seed.1)
    requires out0.Valid() && out0.width == mask.width && out0.height == mask.height && out0.InBounds(p.0, p.1)
    requires !Marked(out0, seed) ==>
               p == seed && box0.minX == mask.width - 1 && box0.minY == mask.height - 1 && box0.maxX == 0 && box0.maxY == 0
    requires Marked(out0, seed) ==>
               && Marked(out0, left0) && left0.0 == box0.minX && Marked(out0, top0) && top0.1 == box0.minY
               && Marked(out0, right0) && right0.0 == box0.maxX && Marked(out0, bottom0) && bottom0.1 == box0.maxY
    ensures var out, box := out0.Put(p.0, p.1, 255), Widen(box0, p.0, p.1);
            && Marked(out, seed)
            && Marked(out, left) && left.0 == box.minX && Marked(out, top) && top.1 == box.minY
            && Marked(out, right) && right.0 == box.maxX && Marked(out, bottom) && bottom.1 == box.maxY
  {
    left, top, right, bottom := left0, top0, right0, bottom0;
    if !Marked(out0, seed) {
      left, top, right, bottom := p, p, p, p;
    } else {
      if p.0 < box0.minX { left := p; }
      if p.1 < box0.minY { top := p; }
      if p.0 > box0.maxX { right := p; }
      if p.1 > box0.maxY { bottom := p; }
    }
  }

  /** Before the first round: a blank output, the initial box, nothing
      visited and the seed alone in the queue. */
  lemma GrowStarts(mask: GrayImage, seed: Point, c1: Point, c2: Point, out: GrayImage, box: Corners,
                   visited: seq<seq<bool>>, queue: seq<(int, int)>)
    requires mask.Valid() && BoxFits(mask, c1, c2) && mask.width > 0 && mask.height > 0 && mask.InBounds(seed.0, seed.1)
    requires out == Blank<Byte>(mask.width, mask.height, 0)
    requires box == Corners(mask.width - 1, mask.height - 1, 0, 0)
    requires visited == seq(mask.width, _ => seq(mask.height, _ => false))
    requires queue == [(seed.0 as int, seed.1 as int)]
    ensures GrowInvariant(mask, seed, c1, c2, out, box, visited, queue, seed, seed, seed, seed)
  {
    assert forall q :: !IsVisited(visited, mask.width, mask.height, q);
    assert GrowthPath(mask, c1, c2, [seed]);
  }

  /** When the queue runs dry the marked pixels are exactly the seed's
      component, closed under growth, and the box has a marked pixel on
      each side. */
  lemma GrowEnds(mask: GrayImage, seed: Point, c1: Point, c2: Point, out: GrayImage, box: Corners,
                 visited: seq<seq<bool>>, left: (int, int), top: (int, int), right: (int, int), bottom: (int, int))
    requires mask.Valid() && GrowInvariant(mask, seed, c1, c2, out, box, visited, [], left, top, right, bottom)
    ensures Marked(out, seed)
    ensures ClosedRegion(mask, out, c1, c2)
    ensures forall q :: Marked(out, q) <==> Reachable(mask, c1, c2, seed, q)
    ensures SidesMarked(out, (box.minX, box.minY), (box.maxX, box.maxY))
  {
    EmptyQueueClosesRegion(mask, c1, c2, out, visited);
    ClosedRegionHoldsReachable(mask, out, c1, c2, seed);
  }

  /** `grow_region`: a breadth-first flood fill from `seed` through the
      8-connected nonzero pixels of the half-open box `[corner1, corner2)`,
      returning the region and its closed bounding box. */
  method GrowRegion(mask: GrayImage, seed: Point, corner1: Point, corner2: Point) returns (ch: Character)
    requires mask.Valid() && BoxFits(mask, corner1, corner2)
    requires mask.width > 0 && mask.height > 0 ==> mask.InBounds(seed.0, seed.1)
    ensures ch.mask.Valid() && ch.mask.width == mask.width && ch.mask.height == mask.height
    ensures mask.width == 0 || mask.height == 0 ==>
              ch == Character(Blank(mask.width, mask.height, 0),
                              (if mask.width > 0 then mask.width - 1 else 0, if mask.height > 0 then mask.height - 1 else 0),
                              (0, 0))
    ensures BinaryMask(ch.mask)
    // the seed is marked, and every other marked pixel is growable
    ensures mask.width > 0 && mask.height > 0 ==> ch.mask.At(seed.0, seed.1) == 255
    ensures OnlyGrowableMarked(mask, seed, corner1, corner2, ch.mask)
    // the corners bound the region
    ensures BoundsMarked(ch.mask, ch.corner1, ch.corner2)
    // nothing growable next to the region is left out
    ensures ClosedRegion(mask, ch.mask, corner1, corner2)
    // the region is exactly the seed's 8-connected component of growable pixels
    ensures mask.width > 0 && mask.height > 0 ==>
              forall q :: Marked(ch.mask, q) <==> Reachable(mask, corner1, corner2, seed, q)
    // and its box is tight: each side passes through a pixel of the region
    ensures mask.width > 0 && mask.height > 0 ==> SidesMarked(ch.mask, ch.corner1, ch.corner2)
  {
    var out: GrayImage := Blank(mask.width, mask.height, 0);
    var box := Corners(if mask.width > 0 then mask.width - 1 else 0, if mask.height > 0 then mask.height - 1 else 0, 0, 0);
    if mask.width == 0 || mask.height == 0 {
      return Character(out, (box.minX, box.minY), (box.maxX, box.maxY));
    }
    var queue := [(seed.0 as int, seed.1 as int)];
    var visited := seq(mask.width, _ => seq(mask.height, _ => false));
    ghost var left: (int, int), top: (int, int), right: (int, int), bottom: (int, int) := seed, seed, seed, seed;
    GrowStarts(mask, seed, corner1, corner2, out, box, visited, queue);
    while |queue| > 0
      invariant GrowInvariant(mask, seed, corner1, corner2, out, box, visited, queue, left, top, right, bottom)
      invariant VisitedShape(visited, mask.width, mask.height)
      decreases |Unvisited(visited, mask.width, mask.height, corner1, corner2)| + |queue|
    {
      out, box, visited, queue, left, top, right, bottom :=
        GrowRound(mask, seed, corner1, corner2, out, box, visited, queue, left, top, right, bottom);
    }
    GrowEnds(mask, seed, corner1, corner2, out, box, visited, left, top, right, bottom);
    ch := Character(out, (box.minX, box.minY), (box.maxX, box.maxY));
  }

  // ---------------------------------------------------------------------
  // Colour histograms and the characters' sides
  // ---------------------------------------------------------------------

  /** `char_pixel_probability`: for each colour, how many of its pixels
      belonged to the character and how many were seen in all. */
  type Histogram = map<Rgb, (nat, nat)>

  /** Every entry has been seen at least once and counts no more character
      pixels than pixels: the only entries `update_probabilities` makes. */
  predicate WellFormedHistogram(h: Histogram) {
    forall c :: c in h ==> 1 <= h[c].1 && h[c].0 <= h[c].1
  }

  /** `count / total`, where an absent colour reads as `(0, 1)`. */
  function Probability(h: Histogram, c: Rgb): (p: real)
    requires WellFormedHistogram(h)
    ensures 0.0 <= p <= 1.0
    ensures c !in h ==> p == 0.0
    ensures c in h ==> p * h[c].1 as real == h[c].0 as real
  {
    if c in h then h[c].0 as real / h[c].1 as real else 0.0
  }

  /** Every set pixel of `mask` can be looked up in `frame`. */
  ghost predicate MaskInFrame(mask: GrayImage, frame: RgbImage)
    requires mask.Valid()
  {
    forall x, y :: Marked(mask, (x, y)) ==> frame.InBounds(x, y)
  }

  /** A pixel of the character votes for `ha` over `hb` when its colour is
      strictly more probable under `ha`. */
  predicate VotesFor(mask: GrayImage, frame: RgbImage, ha: Histogram, hb: Histogram, x: nat, y: nat)
    requires mask.Valid() && frame.Valid() && MaskInFrame(mask, frame)
    requires WellFormedHistogram(ha) && WellFormedHistogram(hb)
  {
    Marked(mask, (x, y)) && Probability(ha, frame.At(x, y)) > Probability(hb, frame.At(x, y))
  }

  /** Votes for `ha` over `hb` in row `y`, columns `[0, x1)`. */
  function RowVotes(mask: GrayImage, frame: RgbImage, ha: Histogram, hb: Histogram, y: nat, x1: nat): nat
    requires mask.Valid() && frame.Valid() && MaskInFrame(mask, frame)
    requires WellFormedHistogram(ha) && WellFormedHistogram(hb)
  {
    if x1 == 0 then 0
    else RowVotes(mask, frame, ha, hb, y, x1 - 1) + if VotesFor(mask, frame, ha, hb, x1 - 1, y) then 1 else 0
  }

  /** Votes for `ha` over `hb` in rows `[0, y1)` of the mask. */
  function Votes(mask: GrayImage, frame: RgbImage, ha: Histogram, hb: Histogram, y1: nat): nat
    requires mask.Valid() && frame.Valid() && MaskInFrame(mask, frame)
    requires WellFormedHistogram(ha) && WellFormedHistogram(hb)
  {
    if y1 == 0 then 0
    else Votes(mask, frame, ha, hb, y1 - 1) + RowVotes(mask, frame, ha, hb, y1 - 1, mask.width)
  }

  /** Set pixels of the mask in row `y`, columns `[0, x1)`. */
  function RowMarked(mask: GrayImage, y: nat, x1: nat): nat
    requires mask.Valid()
  {
    if x1 == 0 then 0 else RowMarked(mask, y, x1 - 1) + if Marked(mask, (x1 - 1, y)) then 1 else 0
  }

  function MarkedPixels(mask: GrayImage, y1: nat): nat
    requires mask.Valid()
  {
    if y1 == 0 then 0 else MarkedPixels(mask, y1 - 1) + RowMarked(mask, y1 - 1, mask.width)
  }

  lemma {:induction false} RowVotesDisjoint(mask: GrayImage, frame: RgbImage, ha: Histogram, hb: Histogram, y: nat, x1: nat)
    requires mask.Valid() && frame.Valid() && MaskInFrame(mask, frame)
    requires WellFormedHistogram(ha) && WellFormedHistogram(hb)
    ensures RowVotes(mask, frame, ha, hb, y, x1) + RowVotes(mask, frame, hb, ha, y, x1) <= RowMarked(mask, y, x1)
    decreases x1
  {
    if x1 > 0 {
      RowVotesDisjoint(mask, frame, ha, hb, y, x1 - 1);
    }
  }

  /** No pixel votes both ways, and only set pixels vote. */
  lemma {:induction false} VotesDisjoint(mask: GrayImage, frame: RgbImage, ha: Histogram, hb: Histogram, y1: nat)
    requires mask.Valid() && frame.Valid() && MaskInFrame(mask, frame)
    requires WellFormedHistogram(ha) && WellFormedHistogram(hb)
    ensures Votes(mask, frame, ha, hb, y1) + Votes(mask, frame, hb, ha, y1) <= MarkedPixels(mask, y1)
    decreases y1
  {
    if y1 > 0 {
      VotesDisjoint(mask, frame, ha, hb, y1 - 1);
      RowVotesDisjoint(mask, frame, ha, hb, y1 - 1, mask.width);
    }
  }

  lemma {:induction false} NoRowVotesForEqualHistograms(mask: GrayImage, frame: RgbImage, h: Histogram, y: nat, x1: nat)
    requires mask.Valid() && frame.Valid() && MaskInFrame(mask, frame) && WellFormedHistogram(h)
    ensures RowVotes(mask, frame, h, h, y, x1) == 0
    decreases x1
  {
    if x1 > 0 {
      NoRowVotesForEqualHistograms(mask, frame, h, y, x1 - 1);
    }
  }

  /** With the same histogram on both sides, nobody votes. */
  lemma {:induction false} NoVotesForEqualHistograms(mask: GrayImage, frame: RgbImage, h: Histogram, y1: nat)
    requires mask.Valid() && frame.Valid() && MaskInFrame(mask, frame) && WellFormedHistogram(h)
    ensures Votes(mask, frame, h, h, y1) == 0
    decreases y1
  {
    if y1 > 0 {
      NoVotesForEqualHistograms(mask, frame, h, y1 - 1);
      NoRowVotesForEqualHistograms(mask, frame, h, y1 - 1, mask.width);
    }
  }

  /** `swap_if_needed`: the pixels of the first character vote, row by row,
      for the histogram their colour fits better; the characters are swapped
      only when the second histogram wins strictly. */
  method SwapIfNeeded(char1: Character, char2: Character, h1: Histogram, h2: Histogram, frame: RgbImage)
    returns (first: Character, second: Character)
    requires char1.mask.Valid() && frame.Valid() && MaskInFrame(char1.mask, frame)
    requires WellFormedHistogram(h1) && WellFormedHistogram(h2)
    ensures var count1 := Votes(char1.mask, frame, h1, h2, char1.mask.height);
            var count2 := Votes(char1.mask, frame, h2, h1, char1.mask.height);
            (first, second) == if count2 > count1 then (char2, char1) else (char1, char2)
  {
    var count1, count2 := 0, 0;
    var mask := char1.mask;
    var y := 0;
    while y < mask.height
      invariant 0 <= y <= mask.height
      invariant count1 == Votes(mask, frame, h1, h2, y) && count2 == Votes(mask, frame, h2, h1, y)
    {
      var x := 0;
      while x < mask.width
        invariant 0 <= x <= mask.width
        invariant count1 == Votes(mask, frame, h1, h2, y) + RowVotes(mask, frame, h1, h2, y, x)
        invariant count2 == Votes(mask, frame, h2, h1, y) + RowVotes(mask, frame, h2, h1, y, x)
      {
        if mask.At(x, y) > 0 {
          var pixel := frame.At(x, y);
          var prob1 := Probability(h1, pixel);
          var prob2 := Probability(h2, pixel);
          count1 := count1 + if prob1 > prob2 then 1 else 0;
          count2 := count2 + if prob2 > prob1 then 1 else 0;
        }
        x := x + 1;
      }
      y := y + 1;
    }
    if count2 > count1 {
      first, second := char2, char1;
    } else {
      first, second := char1, char2;
    }
  }



  /** `mask` can be read at every pixel of `img`. */
  predicate Covers<T, U>(mask: Image<T>, img: Image<U>) {
    img.width <= mask.width && img.height <= mask.height
  }

  /** The entry of colour `c` after one `update_probabilities` step: a
      missing colour starts at `(0, 0)`. */
  function Tallied(h: Histogram, c: Rgb, inChar: bool): Histogram {
    var entry := if c in h then h[c] else (0, 0);
    h[c := (entry.0 + if inChar then 1 else 0, entry.1 + 1)]
  }

  /** `h` after the pixels of row `y`, columns `[0, x1)`. */
  function TallyRow(h: Histogram, img: RgbImage, mask: GrayImage, y: nat, x1: nat): Histogram
    requires img.Valid() && mask.Valid() && Covers(mask, img) && y < img.height && x1 <= img.width
  {
    if x1 == 0 then h
    else Tallied(TallyRow(h, img, mask, y, x1 - 1), img.At(x1 - 1, y), mask.At(x1 - 1, y) > 0)
  }

  /** `h` after the pixels of rows `[0, y1)`, in the order `enumerate_pixels` visits them. */
  function Tally(h: Histogram, img: RgbImage, mask: GrayImage, y1: nat): Histogram
    requires img.Valid() && mask.Valid() && Covers(mask, img) && y1 <= img.height
  {
    if y1 == 0 then h else TallyRow(Tally(h, img, mask, y1 - 1), img, mask, y1 - 1, img.width)
  }

  /** The `(count, total)` a colour has, `(0, 0)` when it has none. */
  function Entry(h: Histogram, c: Rgb): (nat, nat) {
    if c in h then h[c] else (0, 0)
  }

  /** Pixels of colour `c` in row `y`, columns `[0, x1)`; with `inChar`,
      only those set in the mask. */
  function RowColourCount(img: RgbImage, mask: GrayImage, c: Rgb, inChar: bool, y: nat, x1: nat): nat
    requires img.Valid() && mask.Valid() && Covers(mask, img) && y < img.height && x1 <= img.width
  {
    if x1 == 0 then 0
    else RowColourCount(img, mask, c, inChar, y, x1 - 1) +
         if img.At(x1 - 1, y) == c && (!inChar || mask.At(x1 - 1, y) > 0) then 1 else 0
  }

  function ColourCount(img: RgbImage, mask: GrayImage, c: Rgb, inChar: bool, y1: nat): nat
    requires img.Valid() && mask.Valid() && Covers(mask, img) && y1 <= img.height
  {
    if y1 == 0 then 0
    else ColourCount(img, mask, c, inChar, y1 - 1) + RowColourCount(img, mask, c, inChar, y1 - 1, img.width)
  }

  lemma {:induction false} TallyRowCounts(h: Histogram, img: RgbImage, mask: GrayImage, y: nat, x1: nat, c: Rgb)
    requires img.Valid() && mask.Valid() && Covers(mask, img) && y < img.height && x1 <= img.width
    ensures Entry(TallyRow(h, img, mask, y, x1), c)
            == (Entry(h, c).0 + RowColourCount(img, mask, c, true, y, x1),
                Entry(h, c).1 + RowColourCount(img, mask, c, false, y, x1))
    ensures c in TallyRow(h, img, mask, y, x1) <==> c in h || RowColourCount(img, mask, c, false, y, x1) > 0
    decreases x1
  {
    if x1 > 0 {
      TallyRowCounts(h, img, mask, y, x1 - 1, c);
    }
  }

  /** Each pixel adds one to its colour's total, and one to its count when
      the character mask is set there; a colour gets an entry exactly when it
      had one or occurs in the frame. */
  lemma {:induction false} TallyCounts(h: Histogram, img: RgbImage, mask: GrayImage, y1: nat, c: Rgb)
    requires img.Valid() && mask.Valid() && Covers(mask, img) && y1 <= img.height
    ensures Entry(Tally(h, img, mask, y1), c)
            == (Entry(h, c).0 + ColourCount(img, mask, c, true, y1), Entry(h, c).1 + ColourCount(img, mask, c, false, y1))
    ensures c in Tally(h, img, mask, y1) <==> c in h || ColourCount(img, mask, c, false, y1) > 0
    decreases y1
  {
    if y1 > 0 {
      TallyCounts(h, img, mask, y1 - 1, c);
      TallyRowCounts(Tally(h, img, mask, y1 - 1), img, mask, y1 - 1, img.width, c);
    }
  }

  lemma {:induction false} TallyRowWellFormed(h: Histogram, img: RgbImage, mask: GrayImage, y: nat, x1: nat)
    requires img.Valid() && mask.Valid() && Covers(mask, img) && y < img.height && x1 <= img.width
    requires WellFormedHistogram(h)
    ensures WellFormedHistogram(TallyRow(h, img, mask, y, x1))
    decreases x1
  {
    if x1 > 0 {
      TallyRowWellFormed(h, img, mask, y, x1 - 1);
    }
  }

  /** `update_probabilities` keeps `count <= total` and `total >= 1` for
      every entry, so every probability it feeds is a ratio in `[0, 1]`. */
  lemma {:induction false} TallyWellFormed(h: Histogram, img: RgbImage, mask: GrayImage, y1: nat)
    requires img.Valid() && mask.Valid() && Covers(mask, img) && y1 <= img.height
    requires WellFormedHistogram(h)
    ensures WellFormedHistogram(Tally(h, img, mask, y1))
    decreases y1
  {
    if y1 > 0 {
      TallyWellFormed(h, img, mask, y1 - 1);
      TallyRowWellFormed(Tally(h, img, mask, y1 - 1), img, mask, y1 - 1, img.width);
    }
  }

  /** `update_probabilities`: the histogram after every pixel of the frame
      has been tallied against the character mask. */
  method UpdateProbabilities(ch: Character, img: RgbImage, h: Histogram) returns (h': Histogram)
    requires img.Valid() && ch.mask.Valid() && Covers(ch.mask, img)
    ensures h' == Tally(h, img, ch.mask, img.height)
  {
    h' := h;
    var y := 0;
    while y < img.height
      invariant 0 <= y <= img.height
      invariant h' == Tally(h, img, ch.mask, y)
    {
      var x := 0;
      while x < img.width
        invariant 0 <= x <= img.width
        invariant h' == TallyRow(Tally(h, img, ch.mask, y), img, ch.mask, y, x)
      {
        var pixel := img.At(x, y);
        if pixel !in h' {
          h' := h'[pixel := (0, 0)];
        }
        var (count, total) := h'[pixel];
        h' := h'[pixel := (count + if ch.mask.At(x, y) > 0 then 1 else 0, total + 1)];
        x := x + 1;
      }
      y := y + 1;
    }
  }

  // ---------------------------------------------------------------------
  // Segmentation and merging
  // ---------------------------------------------------------------------

  /** The mask pixels the segmentation looks at can be read in `img`. */
  ghost predicate SegmentableIn(mask: GrayImage, img: RgbImage, c1: Point, c2: Point)
    requires mask.Valid()
  {
    forall x, y :: InBox((x, y), c1, c2) && Marked(mask, (x, y)) ==> img.InBounds(x, y)
  }

  /** `segment_by_probability`: inside the half-open box, a mask pixel is kept
      when its colour's probability exceeds the threshold; all else is 0. */
  method SegmentByProbability(mask: GrayImage, corner1: Point, corner2: Point, img: RgbImage, h: Histogram, threshold: real)
    returns (out: GrayImage)
    requires mask.Valid() && img.Valid() && BoxFits(mask, corner1, corner2)
    requires SegmentableIn(mask, img, corner1, corner2) && WellFormedHistogram(h)
    ensures out.Valid() && out.width == img.width && out.height == img.height
    ensures forall x, y :: out.InBounds(x, y) ==>
              out.At(x, y) == if InBox((x, y), corner1, corner2) && Marked(mask, (x, y)) &&
                                 Probability(h, img.At(x, y)) > threshold then 255 else 0
  {
    out := Blank(img.width, img.height, 0);
    var x := corner1.0;
    while x < corner2.0
      invariant corner1.0 <= x && (x <= corner2.0 || x == corner1.0)
      invariant out.Valid() && out.width == img.width && out.height == img.height
      invariant forall i, j :: out.InBounds(i, j) ==>
                  out.At(i, j) == if corner1.0 <= i < x && InBox((i, j), corner1, corner2) && Marked(mask, (i, j)) &&
                                     Probability(h, img.At(i, j)) > threshold then 255 else 0
    {
      var y := corner1.1;
      while y < corner2.1
        invariant corner1.1 <= y && (y <= corner2.1 || y == corner1.1)
        invariant out.Valid() && out.width == img.width && out.height == img.height
        invariant forall i, j :: out.InBounds(i, j) ==>
                    out.At(i, j) == if (corner1.0 <= i < x || (i == x && j < y)) && InBox((i, j), corner1, corner2) &&
                                       Marked(mask, (i, j)) && Probability(h, img.At(i, j)) > threshold then 255 else 0
      {
        if mask.At(x, y) > 0 {
          assert Marked(mask, (x, y));
          var pixel := img.At(x, y);
          var prob := Probability(h, pixel);
          if prob > threshold {
            out := out.Put(x, y, 255);
          }
        }
        y := y + 1;
      }
      x := x + 1;
    }
  }

  /** `merge_chars_masks`: set wherever either mask is set. The result takes
      its width from the first mask and its height from the second, and both
      are read at every one of its pixels. */
  method MergeCharsMasks(mask1: GrayImage, mask2: GrayImage) returns (out: GrayImage)
    requires mask1.Valid() && mask2.Valid()
    requires mask1.width <= mask2.width && mask2.height <= mask1.height
    ensures out.Valid() && out.width == mask1.width && out.height == mask2.height
    ensures forall x, y :: out.InBounds(x, y) ==>
              out.At(x, y) == if mask1.At(x, y) > 0 || mask2.At(x, y) > 0 then 255 else 0
  {
    out := Blank(mask1.width, mask2.height, 0);
    var y := 0;
    while y < out.height
      invariant 0 <= y <= out.height
      invariant out.Valid() && out.width == mask1.width && out.height == mask2.height
      invariant forall i, j :: out.InBounds(i, j) ==>
                  out.At(i, j) == if j < y && (mask1.At(i, j) > 0 || mask2.At(i, j) > 0) then 255 else 0
    {
      var x := 0;
      while x < out.width
        invariant 0 <= x <= out.width
        invariant out.Valid() && out.width == mask1.width && out.height == mask2.height
        invariant forall i, j :: out.InBounds(i, j) ==>
                    out.At(i, j) == if (j < y || (j == y && i < x)) && (mask1.At(i, j) > 0 || mask2.At(i, j) > 0) then 255 else 0
      {
        var value := if mask1.At(x, y) > 0 || mask2.At(x, y) > 0 then 255 else 0;
        out := out.Put(x, y, value);
        x := x + 1;
      }
      y := y + 1;
    }
  }

  /** The closed box `[a, b]` contains the closed box `[c, d]`. */
  predicate ContainsBox(a: Point, b: Point, c: Point, d: Point) {
    a.0 <= c.0 && a.1 <= c.1 && d.0 <= b.0 && d.1 <= b.1
  }

  /** `enclose`: the smallest box holding both characters' boxes. */
  function Enclose(char1: Character, char2: Character): (box: (Point, Point))
    ensures ContainsBox(box.0, box.1, char1.corner1, char1.corner2)
    ensures ContainsBox(box.0, box.1, char2.corner1, char2.corner2)
    ensures forall a, b :: ContainsBox(a, b, char1.corner1, char1.corner2) && ContainsBox(a, b, char2.corner1, char2.corner2) ==>
              ContainsBox(a, b, box.0, box.1)
  {
    ((if char1.corner1.0 <= char2.corner1.0 then char1.corner1.0 else char2.corner1.0,
      if char1.corner1.1 <= char2.corner1.1 then char1.corner1.1 else char2.corner1.1),
     (if char1.corner2.0 >= char2.corner2.0 then char1.corner2.0 else char2.corner2.0,
      if char1.corner2.1 >= char2.corner2.1 then char1.corner2.1 else char2.corner2.1))
  }

  /** The test `get_frame_abstraction` uses to tell the two characters apart:
      their boxes are separated along x or along y, so no point lies in both
      closed boxes. */
  predicate Disjoint(char1: Character, char2: Character): (r: bool)
    ensures r ==> forall p :: !(InClosedBox(p, char1) && InClosedBox(p, char2))
  {
    || char1.corner2.0 < char2.corner1.0
    || char1.corner1.0 > char2.corner2.0
    || char1.corner2.1 < char2.corner1.1
    || char1.corner1.1 > char2.corner2.1
  }

  predicate InClosedBox(p: (int, int), ch: Character) {
    ch.corner1.0 <= p.0 <= ch.corner2.0 && ch.corner1.1 <= p.1 <= ch.corner2.1
  }

  /** Disjoint boxes share no pixel, and two boxes that are not inverted and
      not disjoint share one. */
  lemma DisjointIffNoSharedPixel(char1: Character, char2: Character)
    ensures Disjoint(char1, char2) ==> forall p :: !(InClosedBox(p, char1) && InClosedBox(p, char2))
    ensures !Disjoint(char1, char2) && char1.corner1.0 <= char1.corner2.0 && char1.corner1.1 <= char1.corner2.1 &&
            char2.corner1.0 <= char2.corner2.0 && char2.corner1.1 <= char2.corner2.1 ==>
              exists p :: InClosedBox(p, char1) && InClosedBox(p, char2)
  {
    if !Disjoint(char1, char2) && char1.corner1.0 <= char1.corner2.0 && char1.corner1.1 <= char1.corner2.1 &&
       char2.corner1.0 <= char2.corner2.0 && char2.corner1.1 <= char2.corner2.1 {
      var p := (Max(char1.corner1.0, char2.corner1.0), Max(char1.corner1.1, char2.corner1.1));
      assert InClosedBox(p, char1) && InClosedBox(p, char2);
    }
  }

  const Magenta: Rgb := Rgb(255, 0, 255)
  const Red: Rgb := Rgb(255, 0, 0)
  const Blue: Rgb := Rgb(0, 0, 255)

  /** The colour `merge_segmented_chars` gives a pixel of the enclosing box. */
  function MergedColour(v1: Byte, v2: Byte): Rgb {
    if v1 > 0 && v2 > 0 then Magenta else if v1 > 0 then Red else if v2 > 0 then Blue else Black
  }

  /** `merge_segmented_chars`: inside the half-open box from `enclose`,
      magenta where both segmentations are set, red where only the first is,
      blue where only the second is; black everywhere else. */
  method MergeSegmentedChars(seg1: GrayImage, seg2: GrayImage, char1: Character, char2: Character)
    returns (out: RgbImage)
    requires seg1.Valid() && seg2.Valid()
    requires BoxFits(seg1, Enclose(char1, char2).0, Enclose(char1, char2).1)
    requires BoxFits(seg2, Enclose(char1, char2).0, Enclose(char1, char2).1)
    ensures out.Valid() && out.width == seg1.width && out.height == seg1.height
    ensures forall x, y :: out.InBounds(x, y) ==>
              out.At(x, y) == if InBox((x, y), Enclose(char1, char2).0, Enclose(char1, char2).1)
                              then MergedColour(seg1.At(x, y), seg2.At(x, y)) else Black
  {
    out := Blank(seg1.width, seg1.height, Black);
    var (corner1, corner2) := Enclose(char1, char2);
    var x := corner1.0;
    while x < corner2.0
      invariant corner1.0 <= x && (x <= corner2.0 || x == corner1.0)
      invariant out.Valid() && out.width == seg1.width && out.height == seg1.height
      invariant forall i, j :: out.InBounds(i, j) ==>
                  out.At(i, j) == if i < x && InBox((i, j), corner1, corner2) then MergedColour(seg1.At(i, j), seg2.At(i, j)) else Black
    {
      var y := corner1.1;
      while y < corner2.1
        invariant corner1.1 <= y && (y <= corner2.1 || y == corner1.1)
        invariant out.Valid() && out.width == seg1.width && out.height == seg1.height
        invariant forall i, j :: out.InBounds(i, j) ==>
                    out.At(i, j) == if (i < x || (i == x && j < y)) && InBox((i, j), corner1, corner2)
                                    then MergedColour(seg1.At(i, j), seg2.At(i, j)) else Black
      {
        var pixel1 := seg1.At(x, y);
        var pixel2 := seg2.At(x, y);
        if pixel1 > 0 && pixel2 > 0 {
          out := out.Put(x, y, Magenta);
        } else if pixel1 > 0 {
          out := out.Put(x, y, Red);
        } else if pixel2 > 0 {
          out := out.Put(x, y, Blue);
        }
        y := y + 1;
      }
      x := x + 1;
    }
  }

  // ---------------------------------------------------------------------
  // Trace
  // ---------------------------------------------------------------------

  /** `(255.0 / amount as f32) as i32`: the quotient truncated, and for
      `amount == 0` the infinite quotient saturated to `i32::MAX`. */
  function IntensityLost(amount: Byte): (lost: nat)
    ensures 1 <= lost
    ensures amount > 0 ==> lost * amount <= 255 < (lost + 1) * amount
  {
    if amount == 0 then 0x7FFF_FFFF else 255 / amount
  }

  /** A faded channel: `max(v - lost, 0)`. */
  function Fade(v: Byte, lost: nat): Byte {
    if v > lost then v - lost else 0
  }

  /** A pixel lit in red or blue, which the trace copies as it is. */
  predicate RedOrBlue(p: Rgb) {
    p.r > 0 || p.b > 0
  }

  /** The trace is read only where `img` is dark, so only those pixels need
      to lie inside it. */
  ghost predicate TraceCovers(trace: RgbImage, img: RgbImage)
    requires img.Valid()
  {
    forall x, y :: img.InBounds(x, y) && !RedOrBlue(img.At(x, y)) ==> trace.InBounds(x, y)
  }

  /** Pixel `(x, y)` of the new trace. */
  function TracedAt(img: RgbImage, trace: RgbImage, x: int, y: int, lost: nat): Rgb
    requires img.Valid() && trace.Valid() && img.InBounds(x, y)
    requires RedOrBlue(img.At(x, y)) || trace.InBounds(x, y)
  {
    var p := img.At(x, y);
    if RedOrBlue(p) then p else Rgb(Fade(trace.At(x, y).r, lost), 0, Fade(trace.At(x, y).b, lost))
  }

  /** A channel faded over `n` frames. */
  function FadeTimes(v: Byte, lost: nat, n: nat): Byte {
    if n == 0 then v else Fade(FadeTimes(v, lost, n - 1), lost)
  }

  /** A trace pixel left dark for `n` frames loses `n * lost` of its
      intensity, down to 0, which it reaches after `ceil(v / lost)` frames. */
  lemma {:induction false} FadeTimesIsLinear(v: Byte, lost: nat, n: nat)
    ensures FadeTimes(v, lost, n) == Max(v - n * lost, 0)
    decreases n
  {
    if n > 0 {
      FadeTimesIsLinear(v, lost, n - 1);
      assert n * lost == (n - 1) * lost + lost;
    }
  }

  /** `add_to_trace`: a pixel lit in red or blue in `img` is copied; any
      other pixel takes the trace's red and blue faded by the lost intensity,
      with green cleared. */
  method AddToTrace(img: RgbImage, trace: RgbImage, amount: Byte) returns (out: RgbImage)
    requires img.Valid() && trace.Valid() && TraceCovers(trace, img)
    ensures out.Valid() && out.width == img.width && out.height == img.height
    ensures forall x, y :: out.InBounds(x, y) ==>
              out.At(x, y) == TracedAt(img, trace, x, y, IntensityLost(amount))
  {
    out := Blank(img.width, img.height, Black);
    var lost := if amount == 0 then 0x7FFF_FFFF else 255 / amount;
    var x := 0;
    while x < out.width
      invariant 0 <= x <= out.width
      invariant out.Valid() && out.width == img.width && out.height == img.height
      invariant forall i, j :: out.InBounds(i, j) ==>
                  out.At(i, j) == if i < x then TracedAt(img, trace, i, j, lost) else Black
    {
      var y := 0;
      while y < out.height
        invariant 0 <= y <= out.height
        invariant out.Valid() && out.width == img.width && out.height == img.height
        invariant forall i, j :: out.InBounds(i, j) ==>
                    out.At(i, j) == if i < x || (i == x && j < y) then TracedAt(img, trace, i, j, lost) else Black
      {
        var pixel := img.At(x, y);
        if RedOrBlue(pixel) {
          out := out.Put(x, y, pixel);
        } else {
          var t := trace.At(x, y);
          var r := Max(t.r - lost, 0);
          var b := Max(t.b - lost, 0);
          out := out.Put(x, y, Rgb(r, 0, b));
        }
        y := y + 1;
      }
      x := x + 1;
    }
  }

  // ---------------------------------------------------------------------
  // Mean squared error
  // ---------------------------------------------------------------------

  /** Channel `c` (0 = red, 1 = green, 2 = blue) of a pixel. */
  function Channel(p: Rgb, c: nat): Byte
    requires c < 3
  {
    if c == 0 then p.r else if c == 1 then p.g else p.b
  }

  /** `diff * diff` for `diff = a - b`. */
  function SquaredDiff(a: Byte, b: Byte): nat {
    var d := a - b;
    if d >= 0 then d * d else (-d) * (-d)
  }

  lemma SquaredDiffProperties(a: Byte, b: Byte)
    ensures SquaredDiff(a, b) == SquaredDiff(b, a)
    ensures SquaredDiff(a, b) == 0 <==> a == b
  {
    var d := a - b;
    if d > 0 {
      assert d * d >= d;
    } else if d < 0 {
      assert (-d) * (-d) >= -d;
    }
  }

  lemma SquaredDiffIsProduct(a: Byte, b: Byte)
    ensures SquaredDiff(a, b) == (a - b) * (a - b)
  {
    var d := a - b;
    assert (-d) * (-d) == d * d;
  }

  /** The error of one pixel, channel by channel. */
  lemma ChannelErrorOfPixel(p: Rgb, q: Rgb)
    ensures ChannelError(p, q, 3) == SquaredDiff(p.r, q.r) + SquaredDiff(p.g, q.g) + SquaredDiff(p.b, q.b)
  {
    assert ChannelError(p, q, 1) == SquaredDiff(p.r, q.r);
    assert ChannelError(p, q, 2) == SquaredDiff(p.r, q.r) + SquaredDiff(p.g, q.g);
  }

  /** Squared differences of channels `[0, n)`. */
  function ChannelError(p: Rgb, q: Rgb, n: nat): nat
    requires n <= 3
  {
    if n == 0 then 0 else ChannelError(p, q, n - 1) + SquaredDiff(Channel(p, n - 1), Channel(q, n - 1))
  }

  function RowError(img1: RgbImage, img2: RgbImage, y: nat, x1: nat): nat
    requires img1.Valid() && img2.Valid() && Covers(img2, img1) && y < img1.height && x1 <= img1.width
  {
    if x1 == 0 then 0 else RowError(img1, img2, y, x1 - 1) + ChannelError(img1.At(x1 - 1, y), img2.At(x1 - 1, y), 3)
  }

  /** `error_sum` after rows `[0, y1)`. */
  function ErrorSum(img1: RgbImage, img2: RgbImage, y1: nat): nat
    requires img1.Valid() && img2.Valid() && Covers(img2, img1) && y1 <= img1.height
  {
    if y1 == 0 then 0 else ErrorSum(img1, img2, y1 - 1) + RowError(img1, img2, y1 - 1, img1.width)
  }

  lemma {:induction false} RowErrorSymmetric(img1: RgbImage, img2: RgbImage, y: nat, x1: nat)
    requires img1.Valid() && img2.Valid() && img1.width == img2.width && img1.height == img2.height
    requires y < img1.height && x1 <= img1.width
    ensures RowError(img1, img2, y, x1) == RowError(img2, img1, y, x1)
    decreases x1
  {
    if x1 > 0 {
      RowErrorSymmetric(img1, img2, y, x1 - 1);
      var p, q := img1.At(x1 - 1, y), img2.At(x1 - 1, y);
      ChannelErrorOfPixel(p, q);
      ChannelErrorOfPixel(q, p);
      SquaredDiffProperties(p.r, q.r);
      SquaredDiffProperties(p.g, q.g);
      SquaredDiffProperties(p.b, q.b);
    }
  }

  /** The error sum does not depend on the order of the two images. */
  lemma {:induction false} ErrorSumSymmetric(img1: RgbImage, img2: RgbImage, y1: nat)
    requires img1.Valid() && img2.Valid() && img1.width == img2.width && img1.height == img2.height
    requires y1 <= img1.height
    ensures ErrorSum(img1, img2, y1) == ErrorSum(img2, img1, y1)
    decreases y1
  {
    if y1 > 0 {
      ErrorSumSymmetric(img1, img2, y1 - 1);
      RowErrorSymmetric(img1, img2, y1 - 1, img1.width);
    }
  }

  lemma PixelErrorZeroIffEqual(p: Rgb, q: Rgb)
    ensures ChannelError(p, q, 3) == 0 <==> p == q
  {
    ChannelErrorOfPixel(p, q);
    SquaredDiffProperties(p.r, q.r);
    SquaredDiffProperties(p.g, q.g);
    SquaredDiffProperties(p.b, q.b);
  }

  lemma {:induction false} RowErrorZeroIffEqual(img1: RgbImage, img2: RgbImage, y: nat, x1: nat)
    requires img1.Valid() && img2.Valid() && Covers(img2, img1) && y < img1.height && x1 <= img1.width
    ensures RowError(img1, img2, y, x1) == 0 <==> forall x :: 0 <= x < x1 ==> img1.At(x, y) == img2.At(x, y)
    decreases x1
  {
    if x1 > 0 {
      RowErrorZeroIffEqual(img1, img2, y, x1 - 1);
      PixelErrorZeroIffEqual(img1.At(x1 - 1, y), img2.At(x1 - 1, y));
    }
  }

  /** The error sum is 0 exactly when the two images agree on every scanned pixel. */
  lemma {:induction false} ErrorSumZeroIffEqual(img1: RgbImage, img2: RgbImage, y1: nat)
    requires img1.Valid() && img2.Valid() && Covers(img2, img1) && y1 <= img1.height
    ensures ErrorSum(img1, img2, y1) == 0 <==>
            forall x, y :: 0 <= x < img1.width && 0 <= y < y1 ==> img1.At(x, y) == img2.At(x, y)
    decreases y1
  {
    if y1 > 0 {
      ErrorSumZeroIffEqual(img1, img2, y1 - 1);
      RowErrorZeroIffEqual(img1, img2, y1 - 1, img1.width);
    }
  }

  /** The error sum's mean over the `3 * width * height` channel values;
      `None` stands for the NaN (0 / 0) of an empty image. */
  function MeanSquaredError(img1: RgbImage, img2: RgbImage): Option<real>
    requires img1.Valid() && img2.Valid() && Covers(img2, img1)
  {
    if img1.width * img1.height == 0 then None
    else Some(ErrorSum(img1, img2, img1.height) as real / (img1.width * img1.height * 3) as real)
  }

  /** An image is at distance 0 from itself. */
  lemma MeanSquaredErrorOfSelf(img: RgbImage)
    requires img.Valid() && img.width * img.height > 0
    ensures MeanSquaredError(img, img) == Some(0.0)
  {
    ErrorSumZeroIffEqual(img, img, img.height);
  }

  /** `compute_mse`: the error sum and its mean. Images of different
      dimensions make the Rust code panic. */
  method ComputeMse(img1: RgbImage, img2: RgbImage) returns (errorSum: nat, mse: Option<real>)
    requires img1.Valid() && img2.Valid() && img1.width == img2.width && img1.height == img2.height
    ensures errorSum == ErrorSum(img1, img2, img1.height)
    ensures mse == MeanSquaredError(img1, img2)
  {
    errorSum := 0;
    var y := 0;
    while y < img1.height
      invariant 0 <= y <= img1.height
      invariant errorSum == ErrorSum(img1, img2, y)
    {
      var x := 0;
      while x < img1.width
        invariant 0 <= x <= img1.width
        invariant errorSum == ErrorSum(img1, img2, y) + RowError(img1, img2, y, x)
      {
        var p1, p2 := img1.At(x, y), img2.At(x, y);
        var channel := 0;
        ghost var before := errorSum;
        while channel < 3
          invariant 0 <= channel <= 3
          invariant errorSum == before + ChannelError(p1, p2, channel)
        {
          var diff := Channel(p1, channel) - Channel(p2, channel);
          SquaredDiffIsProduct(Channel(p1, channel), Channel(p2, channel));
          errorSum := errorSum + diff * diff;
          channel := channel + 1;
        }
        x := x + 1;
      }
      y := y + 1;
    }
    var totalPixels := img1.width * img1.height * 3;
    mse := if totalPixels == 0 then None else Some(errorSum as real / totalPixels as real);
  }

  // ---------------------------------------------------------------------
  // Horizontal extent
  // ---------------------------------------------------------------------

  /** A colour pixel with any channel above 0. */
  predicate Lit(p: Rgb) {
    p.r > 0 || p.g > 0 || p.b > 0
  }

  /** The grey mask that is set exactly under the lit pixels of `img`. */
  function LitMask(img: RgbImage): (mask: GrayImage)
    requires img.Valid()
    ensures mask.Valid() && mask.width == img.width && mask.height == img.height
    ensures forall x, y :: img.InBounds(x, y) ==> (IsSet(mask, x, y) <==> Lit(img.At(x, y)))
  {
    Image(img.width, img.height, seq(img.height, y requires 0 <= y < img.height =>
      seq(img.width, x requires 0 <= x < img.width => if Lit(img.rows[y][x]) then 255 else 0)))
  }

  /** The columns of the box `find_corners` would give for the lit mask of
      `img` are the leftmost and rightmost lit columns, or `(width, 0)`
      when no pixel is lit. */
  lemma LitColumns(img: RgbImage)
    requires img.Valid()
    ensures var b := ScanColumns(LitMask(img), img.width);
            && ((forall x, y :: img.InBounds(x, y) ==> !Lit(img.At(x, y))) ==> b.minX == img.width && b.maxX == 0)
            && (forall x, y :: img.InBounds(x, y) && Lit(img.At(x, y)) ==> b.minX <= x <= b.maxX)
            && ((exists x, y :: img.InBounds(x, y) && Lit(img.At(x, y))) ==>
                  (exists y :: img.InBounds(b.minX, y) && Lit(img.At(b.minX, y))) &&
                  (exists y :: img.InBounds(b.maxX, y) && Lit(img.At(b.maxX, y))))
  {
    var mask := LitMask(img);
    var b := ScanColumns(mask, img.width);
    ScanColumnsHold(mask, img.width);
    assert forall i, j :: IsSet(mask, i, j) ==> Scanned(i, j, img.width, 0);
    ScanColumnsTouch(mask, img.width);
    if forall i, j :: img.InBounds(i, j) ==> !Lit(img.At(i, j)) {
      forall i, j | 0 <= i < img.width && 0 <= j < img.height ensures mask.At(i, j) == 0 {
        assert !IsSet(mask, i, j);
      }
      ScanColumnsInitial(mask, img.width);
    } else {
      var i, j :| img.InBounds(i, j) && Lit(img.At(i, j));
      assert IsSet(mask, i, j);
      var a :| IsSet(mask, b.minX, a);
      var c :| IsSet(mask, b.maxX, c);
      assert img.InBounds(b.minX, a) && Lit(img.At(b.minX, a));
      assert img.InBounds(b.maxX, c) && Lit(img.At(b.maxX, c));
    }
  }

  /** `get_x_limits`: the leftmost and rightmost columns holding a lit
      pixel, or `(width, 0)` when none is lit. It makes the same scan as
      `find_corners`, keeping only the x comparisons. */
  method GetXLimits(img: RgbImage) returns (minX: nat, maxX: nat)
    requires img.Valid()
    ensures (forall x, y :: img.InBounds(x, y) ==> !Lit(img.At(x, y))) ==> minX == img.width && maxX == 0
    ensures forall x, y :: img.InBounds(x, y) && Lit(img.At(x, y)) ==> minX <= x <= maxX
    ensures (exists x, y :: img.InBounds(x, y) && Lit(img.At(x, y))) ==>
              (exists y :: img.InBounds(minX, y) && Lit(img.At(minX, y))) &&
              (exists y :: img.InBounds(maxX, y) && Lit(img.At(maxX, y)))
  {
    minX, maxX := img.width, 0;
    ghost var minY: nat, maxY: nat := img.height, 0;
    var x := 0;
    while x < img.width
      invariant 0 <= x <= img.width
      invariant Corners(minX, minY, maxX, maxY) == ScanColumns(LitMask(img), x)
    {
      minX, maxX, minY, maxY := ScanLitColumn(img, x, minX, maxX, minY, maxY);
      x := x + 1;
    }
    LitColumns(img);
  }

  /** The inner loop of `get_x_limits` over column `x`; the box's rows are
      tracked alongside so that the scan is that of `find_corners`. */
  method ScanLitColumn(img: RgbImage, x: nat, minX0: nat, maxX0: nat, ghost minY0: nat, ghost maxY0: nat)
    returns (minX: nat, maxX: nat, ghost minY: nat, ghost maxY: nat)
    requires img.Valid() && x < img.width
    ensures Corners(minX, minY, maxX, maxY) ==
            ScanColumn(LitMask(img), Corners(minX0, minY0, maxX0, maxY0), x, img.height)
  {
    ghost var mask := LitMask(img);
    minX, maxX, minY, maxY := minX0, maxX0, minY0, maxY0;
    var y := 0;
    while y < img.height
      invariant 0 <= y <= img.height
      invariant Corners(minX, minY, maxX, maxY) == ScanColumn(mask, Corners(minX0, minY0, maxX0, maxY0), x, y)
    {
      var pixel := img.At(x, y);
      if pixel.r > 0 || pixel.g > 0 || pixel.b > 0 {
        assert mask.At(x, y) != 0;
        minX := Min(x, minX);
        maxX := Max(x, maxX);
        minY := if y < minY then y else minY;
        maxY := if y > maxY then y else maxY;
      } else {
        assert mask.At(x, y) == 0;
      }
      y := y + 1;
    }
  }
}
