/**
 * Mapping a table's bounding box between the rendered page image (origin top-left, y growing downward,
 * pixels) and the PDF page (origin bottom-left, y growing upward, points).
 * Coordinates are exact reals; floating-point rounding is not modelled.
 */
module ImgUtils {
  import opened Wrappers
  import opened PyStrings

  /** The shape of a page image, `img.shape[:2]`; the channel count is not used. */
  datatype Shape = Shape(height: real, width: real)

  /** One detector output row `[x1, y1, x2, y2, confidence, class]`, in image pixels,
      (x1, y1) the top-left and (x2, y2) the bottom-right corner. */
  datatype Detection = Detection(x1: real, y1: real, x2: real, y2: real, conf: real, cls: real)

  /** The row a detection was unpacked from. */
  function Row(d: Detection): seq<real> {
    [d.x1, d.y1, d.x2, d.y2, d.conf, d.cls]
  }

  /** The message of the ValueError raised when a row of `got` values is unpacked into six names. */
  function UnpackError(got: nat): string {
    if got > 6 then "too many values to unpack (expected 6)"
    else "not enough values to unpack (expected 6, got " + NatToString(got) + ")"
  }

  /** `x1_img, y1_img, x2_img, y2_img, _, _ = bbox`, the first step of `img_dim`: a row of exactly
      six values gives the detection holding them in order; any other row raises ValueError. */
  function Unpack(row: seq<real>): (r: Result<Detection, string>)
    ensures r.Success? <==> |row| == 6
    ensures r.Success? ==> Row(r.value) == row
    ensures r.Failure? ==> r.error == UnpackError(|row|)
  {
    if |row| == 6 then Success(Detection(row[0], row[1], row[2], row[3], row[4], row[5]))
    else Failure(UnpackError(|row|))
  }

  /** A list `[b0, b1, b2, b3]` of four coordinates; the field names follow the list positions. */
  datatype Box = Box(x1: real, y1: real, x2: real, y2: real)

  /** The result of `img_dim`: the four corners, the table's width and height, and the image's
      height and width. */
  datatype Dim = Dim(corners: Box, tableWidth: real, tableHeight: real, imgHeight: real, imgWidth: real)

  /** A PDF page's crop box: the x of its lower-right corner (the width) and the y of its upper-left
      corner (the height). */
  datatype PdfPage = PdfPage(width: real, height: real)

  /** The result of `bboxes_img`: four image coordinates followed by two `None`s where a detection
      has its confidence and class. */
  datatype ImageBox = ImageBox(x1: real, y1: real, x2: real, y2: real, conf: Option<real>, cls: Option<real>)

  /** The padding `norm_bbox` adds by default, in each direction. */
  const DefaultCorr: real := 0.025

  predicate ValidShape(img: Shape) {
    img.height != 0.0 && img.width != 0.0
  }

  /** `img_dim`: the corners pass through, the table's size is the difference of the corners, and the
      image's height and width come from its shape. */
  function ImgDim(img: Shape, bbox: Detection): (r: Dim)
    ensures r.corners == Box(bbox.x1, bbox.y1, bbox.x2, bbox.y2)
    ensures r.corners.x1 + r.tableWidth == bbox.x2 && r.corners.y1 + r.tableHeight == bbox.y2
    ensures r.imgHeight == img.height && r.imgWidth == img.width
  {
    Dim(Box(bbox.x1, bbox.y1, bbox.x2, bbox.y2), bbox.x2 - bbox.x1, bbox.y2 - bbox.y1, img.height, img.width)
  }

  /** `norm_bbox`: the box in fractions of the image, widened by `xCorr` of its normalised width on
      each x side and by half of `yCorr` of its normalised height on each y side. The centre does not
      move, and with no padding the corners are simply divided by the image's size. */
  function NormBbox(img: Shape, bbox: Detection, xCorr: real, yCorr: real): (r: Box)
    requires ValidShape(img)
    ensures r.x1 + r.x2 == (bbox.x1 + bbox.x2) / img.width
    ensures r.y1 + r.y2 == (bbox.y1 + bbox.y2) / img.height
    ensures r.x2 - r.x1 == (bbox.x2 - bbox.x1) / img.width + 2.0 * xCorr * (bbox.x2 - bbox.x1) / img.width
    ensures r.y2 - r.y1 == (bbox.y2 - bbox.y1) / img.height + yCorr * (bbox.y2 - bbox.y1) / img.height
    ensures xCorr == 0.0 && yCorr == 0.0 ==>
              r == Box(bbox.x1 / img.width, bbox.y1 / img.height, bbox.x2 / img.width, bbox.y2 / img.height)
  {
    var d := ImgDim(img, bbox);
    var W, H := d.imgWidth, d.imgHeight;
    var x1n, y1n, x2n, y2n := d.corners.x1 / W, d.corners.y1 / H, d.corners.x2 / W, d.corners.y2 / H;
    var wn, hn := d.tableWidth / W, d.tableHeight / H;
    var wCorr, hCorr := wn * xCorr, hn * yCorr;
    Box(x1n - wCorr, y1n - hCorr / 2.0, x2n + wCorr, y2n + hCorr / 2.0)
  }

  function Max(a: real, b: real): real { if a >= b then a else b }
  function Min(a: real, b: real): real { if a <= b then a else b }

  /** A normalised box in PDF points before clamping: `x` scaled by the page width and `y` flipped
      by `(1 - y) * height`. */
  function ToPage(n: Box, page: PdfPage): Box {
    Box(n.x1 * page.width, (1.0 - n.y1) * page.height, n.x2 * page.width, (1.0 - n.y2) * page.height)
  }

  /** `bboxes_pdf`: the padded normalised box in PDF points, `x` scaled by the page width and `y`
      flipped by `(1 - y) * height`, returned as `[left, top, right, bottom]`. Each coordinate is
      clamped on one side only: the left edge is at least 0, the top at most the page height, the
      right edge at most the page width and the bottom at least 0; a coordinate already on the
      allowed side of its bound is not changed, and one beyond it takes the bound's value. */
  function BboxesPdf(img: Shape, page: PdfPage, bbox: Detection, xCorr: real, yCorr: real): (r: Box)
    requires ValidShape(img)
    ensures r.x1 >= 0.0 && r.y1 <= page.height && r.x2 <= page.width && r.y2 >= 0.0
    ensures var u := ToPage(NormBbox(img, bbox, xCorr, yCorr), page);
            && (u.x1 >= 0.0 ==> r.x1 == u.x1) && (u.x1 < 0.0 ==> r.x1 == 0.0)
            && (u.y1 <= page.height ==> r.y1 == u.y1) && (u.y1 > page.height ==> r.y1 == page.height)
            && (u.x2 <= page.width ==> r.x2 == u.x2) && (u.x2 > page.width ==> r.x2 == page.width)
            && (u.y2 >= 0.0 ==> r.y2 == u.y2) && (u.y2 < 0.0 ==> r.y2 == 0.0)
  {
    var u := ToPage(NormBbox(img, bbox, xCorr, yCorr), page);
    Box(Max(u.x1, 0.0), Min(u.y1, page.height), Min(u.x2, page.width), Max(u.y2, 0.0))
  }

  /** A position in a range of width `from` moved to the same fraction of a range of width `to`. */
  function Rescale(x: real, from: real, to: real): real
    requires from != 0.0
  {
    x * (to / from)
  }

  /** A y position measured from one edge of a range of height `from` moved to the same fraction,
      measured from the opposite edge, of a range of height `to`. */
  function Flip(y: real, from: real, to: real): real
    requires from != 0.0
  {
    (1.0 - y / from) * to
  }

  /** `bboxes_img`: a PDF box `[x1, bottom, x2, top]` in image pixels. `x` is scaled by the image
      to page width ratio; the image's top `y1` comes from position 3 and its bottom `y2` from
      position 1, each by `(1 - y / height) * imageHeight`; the last two slots are `None`. */
  function BboxesImg(img: Shape, page: PdfPage, bbox: Box): (r: ImageBox)
    requires page.width != 0.0 && page.height != 0.0
    ensures r.conf == None && r.cls == None
  {
    var W, H := page.width, page.height;
    var x1, y1 := Rescale(bbox.x1, W, img.width), Flip(bbox.y2, H, img.height);
    var x2, y2 := Rescale(bbox.x2, W, img.width), Flip(bbox.y1, H, img.height);
    ImageBox(x1, y1, x2, y2, None, None)
  }

  lemma RescaleFraction(x: real, w: real, w': real)
    requires w != 0.0 && w' != 0.0
    ensures Rescale(x, w, w') / w' == x / w
  {
  }

  lemma FlipFraction(y: real, h: real, h': real)
    requires h != 0.0 && h' != 0.0
    ensures Flip(y, h, h') / h' == (h - y) / h
  {
    var a := 1.0 - y / h;
    assert a * h' / h' == a;
    assert (h - y) / h == h / h - y / h;
  }

  /** `bboxes_img` keeps each x coordinate's fraction of the width, and puts the image's top at the
      fraction of the page that lies above position 3 and its bottom at the fraction above
      position 1. */
  lemma BboxesImgProportions(img: Shape, page: PdfPage, bbox: Box)
    requires page.width != 0.0 && page.height != 0.0 && ValidShape(img)
    ensures var r := BboxesImg(img, page, bbox);
            && r.x1 / img.width == bbox.x1 / page.width && r.x2 / img.width == bbox.x2 / page.width
            && r.y1 / img.height == (page.height - bbox.y2) / page.height
            && r.y2 / img.height == (page.height - bbox.y1) / page.height
  {
    RescaleFraction(bbox.x1, page.width, img.width);
    RescaleFraction(bbox.x2, page.width, img.width);
    FlipFraction(bbox.y2, page.height, img.height);
    FlipFraction(bbox.y1, page.height, img.height);
  }

  /** An image box lies inside the image. */
  predicate InsideImage(img: Shape, d: Detection) {
    0.0 <= d.x1 && d.x2 <= img.width && 0.0 <= d.y1 && d.y2 <= img.height
  }

  /** A PDF box lies inside the page. */
  predicate InsidePage(page: PdfPage, b: Box) {
    0.0 <= b.x1 && b.x2 <= page.width && 0.0 <= b.y1 && b.y2 <= page.height
  }

  /** Without padding, a detection inside the image maps to the PDF page without clamping: each x
      is rescaled to the page and each y flipped onto it. */
  lemma UnpaddedNotClamped(img: Shape, page: PdfPage, d: Detection)
    requires img.height > 0.0 && img.width > 0.0 && page.width > 0.0 && page.height > 0.0
    requires InsideImage(img, d)
    ensures BboxesPdf(img, page, d, 0.0, 0.0)
            == Box(Rescale(d.x1, img.width, page.width), Flip(d.y1, img.height, page.height),
                   Rescale(d.x2, img.width, page.width), Flip(d.y2, img.height, page.height))
  {
    var n := NormBbox(img, d, 0.0, 0.0);
    assert n == Box(d.x1 / img.width, d.y1 / img.height, d.x2 / img.width, d.y2 / img.height);
    FractionScaled(d.x1, img.width, page.width);
    FractionScaled(d.x2, img.width, page.width);
    RescaleBounds(d.x1, img.width, page.width);
    RescaleBounds(d.x2, img.width, page.width);
    FlipBounds(d.y1, img.height, page.height);
    FlipBounds(d.y2, img.height, page.height);
  }

  lemma FractionScaled(x: real, w: real, w': real)
    requires w != 0.0
    ensures (x / w) * w' == Rescale(x, w, w')
  {
    assert x / w == x * (1.0 / w);
  }

  lemma RescaleBack(x: real, w: real, w': real)
    requires w != 0.0 && w' != 0.0
    ensures Rescale(Rescale(x, w, w'), w', w) == x
  {
    assert (w' / w) * (w / w') == 1.0;
  }

  lemma FlipBack(y: real, h: real, h': real)
    requires h != 0.0 && h' != 0.0
    ensures Flip(Flip(y, h, h'), h', h) == y
  {
    var a := 1.0 - y / h;
    assert a * h' / h' == a;
    assert (y / h) * h == y;
  }

  lemma RescaleBounds(x: real, w: real, w': real)
    requires w > 0.0 && w' > 0.0
    ensures 0.0 <= x ==> 0.0 <= Rescale(x, w, w')
    ensures x <= w ==> Rescale(x, w, w') <= w'
  {
    assert Rescale(x, w, w') == (x / w) * w';
    if x <= w {
      assert x / w <= 1.0;
    }
  }

  lemma FlipBounds(y: real, h: real, h': real)
    requires h > 0.0 && h' > 0.0
    ensures y <= h ==> 0.0 <= Flip(y, h, h')
    ensures 0.0 <= y ==> Flip(y, h, h') <= h'
  {
    if y <= h {
      assert y / h <= 1.0;
    }
    if 0.0 <= y {
      assert 0.0 <= y / h;
    }
  }

  /** Mapping an unpadded detection inside the image to the PDF page and back gives back its x
      coordinates, and its two y coordinates exchanged: `bboxes_pdf` returns `[x1, top, x2, bottom]`
      while `bboxes_img` reads `[x1, bottom, x2, top]`. */
  lemma RoundTripFromImage(img: Shape, page: PdfPage, d: Detection)
    requires img.height > 0.0 && img.width > 0.0 && page.width > 0.0 && page.height > 0.0
    requires InsideImage(img, d)
    ensures BboxesImg(img, page, BboxesPdf(img, page, d, 0.0, 0.0)) == ImageBox(d.x1, d.y2, d.x2, d.y1, None, None)
  {
    UnpaddedNotClamped(img, page, d);
    RescaleBack(d.x1, img.width, page.width);
    RescaleBack(d.x2, img.width, page.width);
    FlipBack(d.y1, img.height, page.height);
    FlipBack(d.y2, img.height, page.height);
  }

  /** The other way round: a PDF box inside the page, mapped to the image and back without
      padding, gives back its x coordinates and its two y coordinates exchanged. */
  lemma RoundTripFromPdf(img: Shape, page: PdfPage, b: Box)
    requires img.height > 0.0 && img.width > 0.0 && page.width > 0.0 && page.height > 0.0
    requires InsidePage(page, b)
    ensures var i := BboxesImg(img, page, b);
            BboxesPdf(img, page, Detection(i.x1, i.y1, i.x2, i.y2, 0.0, 0.0), 0.0, 0.0) == Box(b.x1, b.y2, b.x2, b.y1)
  {
    var i := BboxesImg(img, page, b);
    var d := Detection(i.x1, i.y1, i.x2, i.y2, 0.0, 0.0);
    RescaleBounds(b.x1, page.width, img.width);
    RescaleBounds(b.x2, page.width, img.width);
    FlipBounds(b.y1, page.height, img.height);
    FlipBounds(b.y2, page.height, img.height);
    UnpaddedNotClamped(img, page, d);
    RescaleBack(b.x1, page.width, img.width);
    RescaleBack(b.x2, page.width, img.width);
    FlipBack(b.y1, page.height, img.height);
    FlipBack(b.y2, page.height, img.height);
  }
}
