/**
 * Turning the detector's text output into table regions on the PDF page: parsing the output into
 * boxes, mapping each box to the page, and the fixed correction for pages with one or two regions.
 */
module RegionDetection {
  import opened Wrappers
  import opened PyStrings
  import opened ImgUtils

  // ---------------------------------------------------------------------------------------------
  // Parsing the detector output

  /** The message of the ValueError that `list.remove` raises. */
  const NotInList: string := "list.remove(x): x not in list"

  /** The position of the first occurrence of x. */
  function FirstIndex(xs: seq<string>, x: string): (k: nat)
    requires x in xs
    ensures k < |xs| && xs[k] == x && x !in xs[..k]
  {
    if xs[0] == x then 0 else 1 + FirstIndex(xs[1..], x)
  }

  /** Python's `xs.remove(x)`: the list without its first occurrence of x, every other element kept
      in order; `None` where Python raises ValueError because x does not occur. */
  function RemoveFirst(xs: seq<string>, x: string): (r: Option<seq<string>>)
    ensures r.None? <==> x !in xs
    ensures r.Some? ==> var k := FirstIndex(xs, x); r.value == xs[..k] + xs[k + 1..]
  {
    if xs == [] then None
    else if xs[0] == x then Some(xs[1..])
    else
      match RemoveFirst(xs[1..], x)
      case None =>
        assert xs == [xs[0]] + xs[1..];
        None
      case Some(rest) =>
        var k := FirstIndex(xs[1..], x);
        assert FirstIndex(xs, x) == k + 1;
        assert xs[1..][..k] == xs[1..k + 1] && xs[1..][k + 1..] == xs[k + 2..];
        assert [xs[0]] + xs[1..k + 1] == xs[..k + 1];
        Some([xs[0]] + rest)
  }

  /** `[eval(x) for x in tokens]`, the evaluation of a token given as a function. */
  function Evaluated(tokens: seq<string>, eval: string -> real): seq<real> {
    seq(|tokens|, i requires 0 <= i < |tokens| => eval(tokens[i]))
  }

  /** The tokens of a line: split at spaces, the first empty token removed; `None` where
      `list.remove` raises because there is no empty token. */
  function CleanTokens(line: string): Option<seq<string>> {
    RemoveFirst(Split(line, ' '), "")
  }

  /** The line, split at spaces, has an empty token to remove. */
  predicate HasEmptyToken(line: string) {
    "" in Split(line, ' ')
  }

  predicate EachLineHasEmptyToken(lines: seq<string>) {
    forall i :: 0 <= i < |lines| ==> HasEmptyToken(lines[i])
  }

  /** The boxes of the lines, in order, each the evaluated tokens of its line; `None` as soon as a
      line has no empty token. */
  function YoloBoxes(lines: seq<string>, eval: string -> real): Option<seq<seq<real>>> {
    if lines == [] then Some([])
    else
      match YoloBoxes(lines[..|lines| - 1], eval)
      case None => None
      case Some(boxes) =>
        match CleanTokens(lines[|lines| - 1])
        case None => None
        case Some(tokens) => Some(boxes + [Evaluated(tokens, eval)])
  }

  /** The lines give boxes exactly when each has an empty token. */
  lemma {:induction false} YoloBoxesDefined(lines: seq<string>, eval: string -> real)
    ensures YoloBoxes(lines, eval).Some? <==> EachLineHasEmptyToken(lines)
  {
    if lines != [] {
      var init, last := lines[..|lines| - 1], lines[|lines| - 1];
      YoloBoxesDefined(init, eval);
      assert CleanTokens(last).Some? <==> HasEmptyToken(last);
      assert EachLineHasEmptyToken(lines) <==> EachLineHasEmptyToken(init) && HasEmptyToken(last) by {
        assert forall i :: 0 <= i < |init| ==> init[i] == lines[i];
      }
    }
  }

  /** Where the lines give boxes, there is one box per line, in order: the line's evaluated tokens,
      its first empty token removed. */
  lemma {:induction false} YoloBoxesAt(lines: seq<string>, eval: string -> real)
    requires YoloBoxes(lines, eval).Some?
    ensures |YoloBoxes(lines, eval).value| == |lines|
    ensures forall i :: 0 <= i < |lines| ==>
              CleanTokens(lines[i]).Some? &&
              YoloBoxes(lines, eval).value[i] == Evaluated(CleanTokens(lines[i]).value, eval)
  {
    if lines != [] {
      var init, last := lines[..|lines| - 1], lines[|lines| - 1];
      YoloBoxesAt(init, eval);
      var boxes := YoloBoxes(init, eval).value;
      assert YoloBoxes(lines, eval).value == boxes + [Evaluated(CleanTokens(last).value, eval)];
      assert forall i :: 0 <= i < |init| ==> init[i] == lines[i];
    }
  }

  lemma YoloBoxesStep(lines: seq<string>, i: nat, eval: string -> real)
    requires i < |lines|
    ensures YoloBoxes(lines[..i + 1], eval)
            == match YoloBoxes(lines[..i], eval)
               case None => None
               case Some(boxes) =>
                 match CleanTokens(lines[i])
                 case None => None
                 case Some(tokens) => Some(boxes + [Evaluated(tokens, eval)])
  {
    assert lines[..i + 1][..i] == lines[..i];
  }

  /** `output_yolo` as a function of the detector's output: the lines without the first empty one,
      then their boxes; the ValueError of `list.remove` where there is no empty line or some line has
      no empty token. */
  function YoloOutput(output: string, eval: string -> real): Result<seq<seq<real>>, string> {
    match RemoveFirst(Split(output, '\n'), "")
    case None => Failure(NotInList)
    case Some(lines) =>
      match YoloBoxes(lines, eval)
      case None => Failure(NotInList)
      case Some(boxes) => Success(boxes)
  }

  /** `output_yolo`: splits the detector's output into lines, removes the first empty line, and
      turns every other line into the numbers of its space-separated tokens, the first empty token
      removed. */
  method OutputYolo(output: string, eval: string -> real) returns (r: Result<seq<seq<real>>, string>)
    ensures r == YoloOutput(output, eval)
  {
    var removed := RemoveFirst(Split(output, '\n'), "");
    if removed.None? {
      return Failure(NotInList);
    }
    var lines := removed.value;
    var bboxes: seq<seq<real>> := [];
    var i := 0;
    assert lines[..0] == [];
    while i < |lines|
      invariant 0 <= i <= |lines|
      invariant YoloBoxes(lines[..i], eval) == Some(bboxes)
    {
      YoloBoxesStep(lines, i, eval);
      var cleaned := RemoveFirst(Split(lines[i], ' '), "");
      if cleaned.None? {
        assert YoloBoxes(lines[..i + 1], eval).None?;
        YoloBoxesNoneExtends(lines, i + 1, eval);
        return Failure(NotInList);
      }
      bboxes := bboxes + [Evaluated(cleaned.value, eval)];
      i := i + 1;
    }
    assert lines[..i] == lines;
    return Success(bboxes);
  }

  /** Once a prefix has a line without an empty token, so do all longer prefixes. */
  lemma {:induction false} YoloBoxesNoneExtends(lines: seq<string>, i: nat, eval: string -> real)
    requires i <= |lines| && YoloBoxes(lines[..i], eval).None?
    ensures YoloBoxes(lines, eval).None?
    decreases |lines| - i
  {
    if i < |lines| {
      YoloBoxesStep(lines, i, eval);
      YoloBoxesNoneExtends(lines, i + 1, eval);
    } else {
      assert lines[..i] == lines;
    }
  }

  /** The function's outcome in the source's terms: failure exactly when there is no empty line or
      some remaining line has no empty token, and otherwise one box per remaining line. */
  lemma YoloOutputSpec(output: string, eval: string -> real)
    ensures var removed := RemoveFirst(Split(output, '\n'), "");
            && (YoloOutput(output, eval).Failure? <==>
                  removed.None? || !EachLineHasEmptyToken(removed.value))
            && (YoloOutput(output, eval).Failure? ==> YoloOutput(output, eval).error == NotInList)
            && (YoloOutput(output, eval).Success? ==>
                  var lines := removed.value;
                  && |YoloOutput(output, eval).value| == |lines|
                  && forall i :: 0 <= i < |lines| ==>
                       YoloOutput(output, eval).value[i] == Evaluated(CleanTokens(lines[i]).value, eval))
  {
    var removed := RemoveFirst(Split(output, '\n'), "");
    if removed.Some? {
      YoloBoxesDefined(removed.value, eval);
      if YoloBoxes(removed.value, eval).Some? {
        YoloBoxesAt(removed.value, eval);
      }
    }
  }

  // ---------------------------------------------------------------------------------------------
  // Correcting the regions

  /** The factor applied to both y coordinates of a lone region, and to the receding bound of two
      overlapping regions. */
  const Widen: real := 1.05

  /** The factor applied to the intruding bound of two overlapping regions. */
  const Intrude: real := 1.15

  /** The correction of `convert_table_regions_from_img_to_pdf` (positions 1 and 3 of a region are
      its `y1` and `y2`). A lone region has both y coordinates scaled by 1.05. Of two regions, if the
      first one's `y1` exceeds the second one's `y2`, the second one's `y2` becomes 1.15 times the
      first one's old `y1` and that `y1` is scaled by 1.05; failing that, if the second one's `y1`
      exceeds the first one's `y2`, the same is done the other way round. Nothing else changes: the
      regions keep their order and their x coordinates, and with no, three or more regions, or two
      that meet neither test, nothing is changed at all. */
  function Reconciled(areas: seq<Box>): (r: seq<Box>)
    ensures |r| == |areas|
    ensures forall i :: 0 <= i < |r| ==> r[i].x1 == areas[i].x1 && r[i].x2 == areas[i].x2
    ensures |areas| == 1 ==> r[0].y1 == areas[0].y1 * 1.05 && r[0].y2 == areas[0].y2 * 1.05
    ensures |areas| == 2 && areas[0].y1 > areas[1].y2 ==>
              && r[1].y2 == areas[0].y1 * 1.15 && r[0].y1 == areas[0].y1 * 1.05
              && r[0].y2 == areas[0].y2 && r[1].y1 == areas[1].y1
    ensures |areas| == 2 && !(areas[0].y1 > areas[1].y2) && areas[1].y1 > areas[0].y2 ==>
              && r[0].y2 == areas[1].y1 * 1.15 && r[1].y1 == areas[1].y1 * 1.05
              && r[0].y1 == areas[0].y1 && r[1].y2 == areas[1].y2
    ensures |areas| == 2 && !(areas[0].y1 > areas[1].y2) && !(areas[1].y1 > areas[0].y2) ==> r == areas
    ensures |areas| != 1 && |areas| != 2 ==> r == areas
  {
    if |areas| == 1 then
      [areas[0].(y1 := areas[0].y1 * Widen, y2 := areas[0].y2 * Widen)]
    else if |areas| == 2 then
      var a0, a1 := areas[0], areas[1];
      if a0.y1 > a1.y2 then [a0.(y1 := a0.y1 * Widen), a1.(y2 := a0.y1 * Intrude)]
      else if a1.y1 > a0.y2 then [a0.(y2 := a1.y1 * Intrude), a1.(y1 := a1.y1 * Widen)]
      else areas
    else areas
  }

  /** The correction done in place, in the order the source assigns: the old value of a bound is
      read before it is overwritten. */
  method CorrectOverlaps(a: array<Box>)
    modifies a
    ensures a[..] == Reconciled(old(a[..]))
  {
    if a.Length == 1 {
      a[0] := a[0].(y1 := a[0].y1 * Widen);
      a[0] := a[0].(y2 := a[0].y2 * Widen);
    }
    if a.Length == 2 {
      if a[0].y1 > a[1].y2 {
        a[1] := a[1].(y2 := a[0].y1 * Intrude);
        a[0] := a[0].(y1 := a[0].y1 * Widen);
      } else if a[1].y1 > a[0].y2 {
        a[0] := a[0].(y2 := a[1].y1 * Intrude);
        a[1] := a[1].(y1 := a[1].y1 * Widen);
      }
    }
  }

  /** A precondition of `bboxes_pdf`, which divides by the image's size; it is only called when
      there are detections. */
  predicate CanMap<T>(bounds: seq<T>, img: Shape) {
    bounds != [] ==> ValidShape(img)
  }

  /** The detector rows unpacked, in order; the ValueError of the first row that does not hold
      exactly six values. */
  function Detections(rows: seq<seq<real>>): (r: Result<seq<Detection>, string>)
    ensures r.Success? ==> |r.value| == |rows|
  {
    if rows == [] then Success([])
    else
      match Detections(rows[..|rows| - 1])
      case Failure(e) => Failure(e)
      case Success(ds) =>
        match Unpack(rows[|rows| - 1])
        case Failure(e) => Failure(e)
        case Success(d) => Success(ds + [d])
  }

  predicate EachRowHasSix(rows: seq<seq<real>>) {
    forall i :: 0 <= i < |rows| ==> |rows[i]| == 6
  }

  /** The rows unpack exactly when each holds six values, and then each detection holds its row. */
  lemma {:induction false} DetectionsDefined(rows: seq<seq<real>>)
    ensures Detections(rows).Success? <==> EachRowHasSix(rows)
    ensures Detections(rows).Success? ==>
              forall i :: 0 <= i < |rows| ==> Row(Detections(rows).value[i]) == rows[i]
  {
    if rows != [] {
      var init, last := rows[..|rows| - 1], rows[|rows| - 1];
      DetectionsDefined(init);
      assert forall i :: 0 <= i < |init| ==> init[i] == rows[i];
      assert EachRowHasSix(rows) <==> EachRowHasSix(init) && |last| == 6;
    }
  }

  /** Where the rows do not unpack, the error is that of the first row without six values. */
  lemma {:induction false} DetectionsFirstError(rows: seq<seq<real>>)
    requires Detections(rows).Failure?
    ensures exists k :: 0 <= k < |rows| && |rows[k]| != 6 && EachRowHasSix(rows[..k])
                        && Detections(rows).error == UnpackError(|rows[k]|)
  {
    var init, last := rows[..|rows| - 1], rows[|rows| - 1];
    if Detections(init).Failure? {
      DetectionsFirstError(init);
      var k :| 0 <= k < |init| && |init[k]| != 6 && EachRowHasSix(init[..k])
               && Detections(init).error == UnpackError(|init[k]|);
      assert init[..k] == rows[..k] && init[k] == rows[k];
    } else {
      DetectionsDefined(init);
      assert rows[..|rows| - 1] == init;
    }
  }

  lemma DetectionsStep(rows: seq<seq<real>>, i: nat)
    requires i < |rows|
    ensures Detections(rows[..i + 1])
            == match Detections(rows[..i])
               case Failure(e) => Failure(e)
               case Success(ds) =>
                 match Unpack(rows[i])
                 case Failure(e) => Failure(e)
                 case Success(d) => Success(ds + [d])
  {
    assert rows[..i + 1][..i] == rows[..i];
  }

  /** Once a prefix has a row that does not unpack, the whole list fails with its error. */
  lemma {:induction false} DetectionsFailureExtends(rows: seq<seq<real>>, i: nat)
    requires i <= |rows| && Detections(rows[..i]).Failure?
    ensures Detections(rows) == Detections(rows[..i])
    decreases |rows| - i
  {
    if i < |rows| {
      DetectionsStep(rows, i);
      DetectionsFailureExtends(rows, i + 1);
    } else {
      assert rows[..i] == rows;
    }
  }

  /** Each detection mapped to the page with the default padding, in detection order. */
  function PdfRegions(bounds: seq<Detection>, img: Shape, page: PdfPage): (r: seq<Box>)
    requires CanMap(bounds, img)
    ensures |r| == |bounds|
    ensures forall i :: 0 <= i < |bounds| ==> r[i] == BboxesPdf(img, page, bounds[i], DefaultCorr, DefaultCorr)
  {
    seq(|bounds|, i requires 0 <= i < |bounds| => BboxesPdf(img, page, bounds[i], DefaultCorr, DefaultCorr))
  }

  /** `convert_table_regions_from_img_to_pdf`: one region per detector row, in row order, each the
      row mapped to the page by `bboxes_pdf`, then the correction applied to the list; the ValueError
      of the first row that does not hold six values. */
  method ConvertTableRegions(bounds: seq<seq<real>>, img: Shape, page: PdfPage)
    returns (r: Result<seq<Box>, string>)
    requires CanMap(bounds, img)
    ensures Detections(bounds).Failure? ==> r == Failure(Detections(bounds).error)
    ensures Detections(bounds).Success? ==>
              r == Success(Reconciled(PdfRegions(Detections(bounds).value, img, page)))
  {
    var interesting := new Box[|bounds|];
    ghost var ds: seq<Detection> := [];
    var i := 0;
    assert bounds[..0] == [];
    while i < |bounds|
      invariant 0 <= i <= |bounds|
      invariant Detections(bounds[..i]) == Success(ds) && |ds| == i
      invariant forall j :: 0 <= j < i ==>
                  interesting[j] == BboxesPdf(img, page, ds[j], DefaultCorr, DefaultCorr)
    {
      DetectionsStep(bounds, i);
      var x := Unpack(bounds[i]);
      if x.Failure? {
        DetectionsFailureExtends(bounds, i + 1);
        return Failure(x.error);
      }
      interesting[i] := BboxesPdf(img, page, x.value, DefaultCorr, DefaultCorr);
      ds := ds + [x.value];
      i := i + 1;
    }
    assert bounds[..i] == bounds;
    assert interesting[..] == PdfRegions(ds, img, page);
    CorrectOverlaps(interesting);
    return Success(interesting[..]);
  }

  /** On a page with one region, the correction scales the region's height by 1.05. */
  lemma LoneRegionHeight(a: Box)
    ensures var r := Reconciled([a])[0]; r.y1 - r.y2 == (a.y1 - a.y2) * 1.05
  {
  }

  /** A lone region with `y1 = 100` and `y2 = 200` becomes one with `y1 = 105` and `y2 = 210`. */
  lemma LoneRegionExample(x1: real, x2: real)
    ensures Reconciled([Box(x1, 100.0, x2, 200.0)]) == [Box(x1, 105.0, x2, 210.0)]
  {
  }

  /** Two regions `[x, 100, x, 200]` and `[x, 190, x, 300]` meet neither test (100 > 300 and
      190 > 200 both fail), so the correction leaves them as they are. */
  lemma NeighbouringRegionsExample(x1: real, x2: real)
    ensures var a, b := Box(x1, 100.0, x2, 200.0), Box(x1, 190.0, x2, 300.0);
            Reconciled([a, b]) == [a, b]
  {
  }

  /** When both tests would hold, only the first is applied. */
  lemma FirstTestWins(a0: Box, a1: Box)
    requires a0.y1 > a1.y2 && a1.y1 > a0.y2
    ensures Reconciled([a0, a1])[0].y2 == a0.y2 && Reconciled([a0, a1])[1].y1 == a1.y1
  {
  }
}
