/** The slider offset resolver of `slider_verification`: collect the opaque
    pixels of the puzzle-piece cutout, pick its top-left and bottom-left
    anchors, and scan the background for the first column where both anchor
    colours appear at the anchors' rows. */
module Slider {
  import opened Raster
  import opened Wrappers

  /** An opaque cutout pixel as the resolver stores it: position and colour. */
  datatype OpaquePixel = OpaquePixel(x: nat, y: nat, r: Channel, g: Channel, b: Channel)

  /** The three outcomes the resolver keeps apart. */
  datatype Outcome = NoOpaquePixels | NoMatch | MatchAt(x: nat)

  /** `p` is an opaque pixel of `img`, recorded at its own position with its own colour. */
  predicate IsOpaquePixelOf(img: Image, p: OpaquePixel)
    requires img.Valid()
  {
    && p.x < img.width
    && p.y < img.height
    && IsOpaque(img.At(p.x, p.y))
    && img.At(p.x, p.y).r == p.r
    && img.At(p.x, p.y).g == p.g
    && img.At(p.x, p.y).b == p.b
  }

  /** Some pixel of `img` is opaque. */
  predicate HasOpaquePixel(img: Image)
    requires img.Valid()
  {
    exists x: nat, y: nat :: x < img.width && y < img.height && IsOpaque(img.At(x, y))
  }

  // ---------------------------------------------------------------------------
  // Opaque-pixel filter (the nested raster loop)
  // ---------------------------------------------------------------------------

  /** The opaque pixels of row `y` from column `x` on, left to right. */
  function OpaqueInRow(img: Image, y: nat, x: nat): (ps: seq<OpaquePixel>)
    requires img.Valid() && y < img.height && x <= img.width
    ensures forall p :: p in ps <==> IsOpaquePixelOf(img, p) && p.y == y && x <= p.x
    decreases img.width - x
  {
    if x == img.width then []
    else
      var px := img.At(x, y);
      var rest := OpaqueInRow(img, y, x + 1);
      if IsOpaque(px) then [OpaquePixel(x, y, px.r, px.g, px.b)] + rest else rest
  }

  /** The opaque pixels of rows `y` and below, in raster order. */
  function OpaqueFromRow(img: Image, y: nat): (ps: seq<OpaquePixel>)
    requires img.Valid() && y <= img.height
    ensures forall p :: p in ps <==> IsOpaquePixelOf(img, p) && y <= p.y
    decreases img.height - y
  {
    if y == img.height then [] else OpaqueInRow(img, y, 0) + OpaqueFromRow(img, y + 1)
  }

  /** The `opaque_pixels` list: every pixel with alpha above the threshold,
      scanned row by row, each stored with its own position and colour. */
  function OpaquePixels(img: Image): (ps: seq<OpaquePixel>)
    requires img.Valid()
    ensures forall p :: p in ps <==> IsOpaquePixelOf(img, p)
    ensures |ps| == 0 <==> !HasOpaquePixel(img)
  {
    var ps := OpaqueFromRow(img, 0);
    EmptyExactlyWithoutOpaque(img, ps);
    ps
  }

  /** A list holding exactly the opaque pixels of `img` is empty exactly when
      `img` has no opaque pixel. */
  lemma EmptyExactlyWithoutOpaque(img: Image, ps: seq<OpaquePixel>)
    requires img.Valid()
    requires forall p :: p in ps <==> IsOpaquePixelOf(img, p)
    ensures |ps| == 0 <==> !HasOpaquePixel(img)
  {
    if |ps| == 0 {
      assert forall x: nat, y: nat | x < img.width && y < img.height && IsOpaque(img.At(x, y)) ::
        var px := img.At(x, y);
        OpaquePixel(x, y, px.r, px.g, px.b) in ps;
    } else {
      assert IsOpaquePixelOf(img, ps[0]);
    }
  }

  // ---------------------------------------------------------------------------
  // Anchor selection: `sorted(opaque_pixels, key=...)[0]`
  // ---------------------------------------------------------------------------

  /** Python's `<` on pairs of integers: lexicographic. */
  predicate PairLess(a: (int, int), b: (int, int)) {
    a.0 < b.0 || (a.0 == b.0 && a.1 < b.1)
  }

  /** The sort key of the top-left anchor, `(x, y)`. */
  function TopLeftKey(p: OpaquePixel): (int, int) {
    (p.x, p.y)
  }

  /** The sort key of the bottom-left anchor, `(x, -y)`. */
  function BottomLeftKey(p: OpaquePixel): (int, int) {
    (p.x as int, -(p.y as int))
  }

  /** The index of `sorted(ps, key=key)[0]`: Python's sort is stable, so this is
      the first element whose key no other element's key undercuts. */
  function FirstMinIndex(ps: seq<OpaquePixel>, key: OpaquePixel -> (int, int)): (i: nat)
    requires |ps| > 0
    ensures i < |ps|
    ensures forall j :: 0 <= j < |ps| ==> !PairLess(key(ps[j]), key(ps[i]))
    ensures forall j :: 0 <= j < i ==> PairLess(key(ps[i]), key(ps[j]))
    decreases |ps|
  {
    if |ps| == 1 then 0
    else
      var k := FirstMinIndex(ps[..|ps| - 1], key);
      assert forall j :: 0 <= j < |ps| - 1 ==> ps[..|ps| - 1][j] == ps[j];
      if PairLess(key(ps[|ps| - 1]), key(ps[k])) then |ps| - 1 else k
  }

  /** `p1`: the opaque pixel with the least x, and among those the least y. */
  function TopLeft(ps: seq<OpaquePixel>): (p: OpaquePixel)
    requires |ps| > 0
    ensures p in ps
    ensures forall q :: q in ps ==> p.x < q.x || (p.x == q.x && p.y <= q.y)
  {
    ps[FirstMinIndex(ps, TopLeftKey)]
  }

  /** `p2`: the opaque pixel with the least x, and among those the greatest y. */
  function BottomLeft(ps: seq<OpaquePixel>): (p: OpaquePixel)
    requires |ps| > 0
    ensures p in ps
    ensures forall q :: q in ps ==> p.x < q.x || (p.x == q.x && q.y <= p.y)
  {
    ps[FirstMinIndex(ps, BottomLeftKey)]
  }

  /** Reference definition of the top-left anchor of a cutout. */
  ghost predicate IsTopAnchor(img: Image, p: OpaquePixel)
    requires img.Valid()
  {
    && IsOpaquePixelOf(img, p)
    && forall q :: IsOpaquePixelOf(img, q) ==> p.x < q.x || (p.x == q.x && p.y <= q.y)
  }

  /** Reference definition of the bottom-left anchor of a cutout. */
  ghost predicate IsBottomAnchor(img: Image, p: OpaquePixel)
    requires img.Valid()
  {
    && IsOpaquePixelOf(img, p)
    && forall q :: IsOpaquePixelOf(img, q) ==> p.x < q.x || (p.x == q.x && q.y <= p.y)
  }

  /** The anchors the resolver picks are the anchors of the reference definition. */
  lemma AnchorsSelected(img: Image)
    requires img.Valid() && HasOpaquePixel(img)
    ensures |OpaquePixels(img)| > 0
    ensures IsTopAnchor(img, TopLeft(OpaquePixels(img)))
    ensures IsBottomAnchor(img, BottomLeft(OpaquePixels(img)))
  {
  }

  /** Each anchor is unique: the reference definitions pin down one pixel. */
  lemma AnchorsUnique(img: Image, p: OpaquePixel, q: OpaquePixel)
    requires img.Valid()
    ensures IsTopAnchor(img, p) && IsTopAnchor(img, q) ==> p == q
    ensures IsBottomAnchor(img, p) && IsBottomAnchor(img, q) ==> p == q
  {
  }

  /** Both anchors sit in the leftmost opaque column, so `y_diff = p2.y - p1.y`
      is never negative; they coincide exactly when that column holds a single
      opaque pixel. */
  lemma AnchorsShareColumn(img: Image, p1: OpaquePixel, p2: OpaquePixel)
    requires img.Valid() && IsTopAnchor(img, p1) && IsBottomAnchor(img, p2)
    ensures p1.x == p2.x
    ensures p2.y - p1.y >= 0
    ensures p1 == p2 <==> forall q :: IsOpaquePixelOf(img, q) && q.x == p1.x ==> q == p1
  {
  }

  // ---------------------------------------------------------------------------
  // First-match column scan
  // ---------------------------------------------------------------------------

  /** A background pixel probed for an anchor: opaque and of the anchor's colour. */
  predicate ProbeMatches(px: Pixel, anchor: OpaquePixel) {
    IsOpaque(px) && px.r == anchor.r && px.g == anchor.g && px.b == anchor.b
  }

  /** Reference definition of a matching column: inside the background, row
      `p1.y` holds an opaque pixel of `p1`'s colour and row `p2.y` one of
      `p2`'s colour. */
  predicate ColumnMatches(bg: Image, p1: OpaquePixel, p2: OpaquePixel, x: int)
    requires bg.Valid()
  {
    && 0 <= x < bg.width
    && p1.y < bg.height
    && p2.y < bg.height
    && ProbeMatches(bg.At(x, p1.y), p1)
    && ProbeMatches(bg.At(x, p2.y), p2)
  }

  /** The scan loop from column `x` on: columns whose probe rows fall outside the
      background are skipped, every read stays inside the background, and the
      first column where both probes match wins. */
  function FirstMatchFrom(bg: Image, p1: OpaquePixel, p2: OpaquePixel, x: nat): (r: Option<nat>)
    requires bg.Valid()
    ensures r.Some? ==> x <= r.value < bg.width && ColumnMatches(bg, p1, p2, r.value)
    ensures r.Some? ==> forall x' :: x <= x' < r.value ==> !ColumnMatches(bg, p1, p2, x')
    ensures r.None? <==> forall x' :: x <= x' < bg.width ==> !ColumnMatches(bg, p1, p2, x')
    decreases bg.width - x
  {
    if x >= bg.width then None
    else if p1.y >= bg.height then FirstMatchFrom(bg, p1, p2, x + 1)
    else
      var top := bg.At(x, p1.y);
      var yDiff := p2.y - p1.y;
      var y2 := p1.y + yDiff;
      if y2 >= bg.height then FirstMatchFrom(bg, p1, p2, x + 1)
      else
        var bottom := bg.At(x, y2);
        if ProbeMatches(top, p1) && ProbeMatches(bottom, p2) then
          assert ColumnMatches(bg, p1, p2, x);
          Some(x)
        else FirstMatchFrom(bg, p1, p2, x + 1)
  }

  /** When the top anchor's row lies below the background, every column is
      skipped and the scan finds nothing. */
  lemma AnchorBelowBackground(bg: Image, p1: OpaquePixel, p2: OpaquePixel)
    requires bg.Valid() && p1.y >= bg.height
    ensures FirstMatchFrom(bg, p1, p2, 0) == None
  {
  }

  // ---------------------------------------------------------------------------
  // The resolver
  // ---------------------------------------------------------------------------

  /** Pixel logic of `slider_verification`: the cutout's anchors and the first
      matching background column, or which of the two failures occurred. */
  function Resolve(cutout: Image, bg: Image): (o: Outcome)
    requires cutout.Valid() && bg.Valid()
    ensures o.NoOpaquePixels? <==> !HasOpaquePixel(cutout)
    ensures forall p1, p2 {:trigger IsTopAnchor(cutout, p1), IsBottomAnchor(cutout, p2)} ::
      IsTopAnchor(cutout, p1) && IsBottomAnchor(cutout, p2) ==>
        && (o.MatchAt? ==> ColumnMatches(bg, p1, p2, o.x))
        && (o.MatchAt? ==> forall x :: 0 <= x < o.x ==> !ColumnMatches(bg, p1, p2, x))
        && (o.NoMatch? <==> forall x :: 0 <= x < bg.width ==> !ColumnMatches(bg, p1, p2, x))
    ensures o.MatchAt? ==> o.x < bg.width
  {
    var ps := OpaquePixels(cutout);
    if |ps| == 0 then NoOpaquePixels
    else
      var p1 := TopLeft(ps);
      var p2 := BottomLeft(ps);
      AnchorsSelected(cutout);
      forall q1, q2 | IsTopAnchor(cutout, q1) && IsBottomAnchor(cutout, q2)
        ensures q1 == p1 && q2 == p2
      {
        AnchorsUnique(cutout, q1, p1);
        AnchorsUnique(cutout, q2, p2);
      }
      match FirstMatchFrom(bg, p1, p2, 0)
      case None => NoMatch
      case Some(x) => MatchAt(x)
  }

  /** A worked case: a cutout whose only opaque pixel sits at (5, 5), and a
      background whose only pixel of that colour sits at (20, 5), resolve to
      column 20. */
  lemma SinglePixelExample(cutout: Image, bg: Image)
    requires cutout == Image(6, 6, seq(6, y => seq(6, x => if x == 5 && y == 5 then Pixel(10, 20, 30, 255) else Pixel(0, 0, 0, 0))))
    requires bg == Image(21, 6, seq(6, y => seq(21, x => if x == 20 && y == 5 then Pixel(10, 20, 30, 255) else Pixel(0, 0, 0, 255))))
    ensures Resolve(cutout, bg) == MatchAt(20)
  {
    var p := OpaquePixel(5, 5, 10, 20, 30);
    assert cutout.Valid() && bg.Valid();
    assert IsOpaque(cutout.At(5, 5));
    assert IsTopAnchor(cutout, p) && IsBottomAnchor(cutout, p);
    assert ColumnMatches(bg, p, p, 20);
    var o := Resolve(cutout, bg);
    assert o.MatchAt?;
    assert forall x :: 0 <= x < 20 ==> !ColumnMatches(bg, p, p, x);
  }
}
