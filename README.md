# xTable core, modelled in Dafny

xTable extracts tables from PDF files. It renders a page to an image and runs a table detector on the image. It then maps the detected boxes back onto the PDF page and corrects them with a fixed heuristic. Finally it hands the regions to table parsers, whose cells it decorates with font styles collected from the page's text. This project models the deterministic bookkeeping around that pipeline and proves properties of it:

- **ImgUtils** (`img_utils.py`): the box arithmetic between image pixels and PDF points, over exact reals.
  - `img_dim` and `norm_bbox`, whose padding margins are parameters with default 0.025.
  - `bboxes_pdf`, with its one-sided clamps, and `bboxes_img`.
  - `img_dim` unpacks a detector row into six values and raises ValueError for a row of any other length. `ImgUtils.Unpack` models this.
  - The round trip between the two is proved with zero margins. `bboxes_pdf` itself always pads by 0.025, so in the program x comes back widened. With zero margins the x coordinates come back unchanged and the two y coordinates come back exchanged, because `bboxes_pdf` returns `[x1, top, x2, bottom]` while `bboxes_img` reads `[x1, bottom, x2, top]`.
- **RegionDetection** (`region_detection/__init__.py`):
  - `output_yolo` is a loop over the detector's output lines. The method is proved against a function of the output, and `eval` is a parameter.
  - `convert_table_regions_from_img_to_pdf` fills an array with the mapped boxes, stopping with the unpacking ValueError at the first row that does not hold six values. It then applies the one- and two-region correction in place, in the source's assignment order.
- **PdfUtils** (`pdf_utils.py`):
  - `box_convert`.
  - `get_fonts_info` over the page's blocks, lines and spans, as nested loops.
    - The loops are proved against functions of the text lines read so far: the style index `Styles`, the per-identifier line counts `Counts`, and the count sort `SortByCount`.
    - Lemmas relate those functions to what the source promises: which line wins for a repeated identifier, which span wins for a repeated text, what the counts count, that the counts have the index's keys, and the flag thresholds.
- **TableUtils** (`table_utils.py`):
  - `extract_table_styles` as a function on a grid of cell texts.
  - `get_cell_style` as a linear search with an early return.
- **Handlers** (`handlers.py`):
  - The constructor's extension check and password default.
  - `_get_pages`, with the document's page count as a parameter.
  - The file names and rotation angles of `_save_page`.
- **Version** (`__version__.py`): `generate_version` and the module's own version string.

Python's strings and insertion-ordered dicts are modelled in **PyStrings** and **OrderedDicts**:
- `strip`, `split`, `join`, `replace`, `re.sub("\s\s+", " ", ·)`, `int()` and `str(int)`;
- a dict as the sequence of its entries in iteration order.

**Wrappers** holds `Option` and `Result`. Each exception the model covers is a `Failure` carrying the error the source raises; the exceptions that are not modelled are listed under "Left out".

Three behaviours of the code are worth stating on their own:

- The two-region correction only fires when one region's `y1` exceeds the other's `y2`. So `[x, 100, x, 200]` and `[x, 190, x, 300]` are left unchanged: `100 > 300` and `190 > 200` both fail. `RegionDetection.NeighbouringRegionsExample` proves this.
- Mapping a box from the image to the PDF page and back, with zero margins, does not give the box back: the y coordinates come back exchanged. `ImgUtils.RoundTripFromImage` proves this.
- An identifier goes through `re.sub("\s\s+", " ", ·)` twice, and the second pass never changes anything. `PdfUtils.IdentifierNormalised` proves it a no-op.

## Model

| member | source | states |
|---|---|---|
| ImgUtils.ImgDim | xtable/region_detection/helpers/img_utils.py:1-6 | The corners pass through unchanged. The table's width and height are the corner differences. The image's height and width come from the shape. |
| ImgUtils.NormBbox | xtable/region_detection/helpers/img_utils.py:9-41 | The normalised box keeps the centre of the detection divided by the image size. It is wider by `2·xCorr·w/W` and taller by `yCorr·h/H`. With zero margins each corner is just divided by the image width or height. |
| ImgUtils.Unpack | xtable/region_detection/helpers/img_utils.py:3-4 | A row unpacks exactly when it holds six values, into the detection holding them in order. Any other row fails with the "too many" or "not enough values to unpack" ValueError. |
| ImgUtils.BboxesPdf | xtable/region_detection/helpers/img_utils.py:44-62 | The result always has `x1 ≥ 0`, `y1 ≤ H_pdf`, `x2 ≤ W_pdf` and `y2 ≥ 0`. Each coordinate equals `xn·W_pdf` or `(1−yn)·H_pdf` whenever that value is already on the allowed side. Otherwise it is the bound itself: 0, `H_pdf`, `W_pdf` and 0 respectively. So each clamp acts on one side only. |
| ImgUtils.BboxesImg | xtable/region_detection/helpers/img_utils.py:65-84 | The two trailing slots are `None`. |
| ImgUtils.BboxesImgProportions | xtable/region_detection/helpers/img_utils.py:79-84 | x keeps its fraction of the width. The image's `y1` is the fraction of the page above input position 3, and `y2` the fraction above position 1. |
| ImgUtils.UnpaddedNotClamped | xtable/region_detection/helpers/img_utils.py:58-62 | Without padding, a detection inside the image maps without clamping: x is rescaled to the page and y is flipped onto it. |
| ImgUtils.RoundTripFromImage | xtable/region_detection/helpers/img_utils.py:58-84 | Image → PDF → image with zero margins gives back `x1` and `x2`, with `y1` and `y2` exchanged. |
| ImgUtils.RoundTripFromPdf | xtable/region_detection/helpers/img_utils.py:58-84 | PDF → image → PDF for a box inside the page gives back x, with the y coordinates exchanged. |
| RegionDetection.RemoveFirst | xtable/region_detection/__init__.py:24-30 | `list.remove`: `None` exactly when the item is absent. Otherwise the list loses its first occurrence, and nothing else changes. |
| RegionDetection.YoloBoxesDefined | xtable/region_detection/__init__.py:28-32 | The output lines give boxes exactly when every line has an empty token to remove. |
| RegionDetection.YoloBoxesAt | xtable/region_detection/__init__.py:28-33 | There is one box per line, in order: the line's evaluated tokens without its first empty token. |
| RegionDetection.YoloBoxesNoneExtends | xtable/region_detection/__init__.py:28-32 | A line without an empty token makes the whole output fail, whatever follows it. |
| RegionDetection.OutputYolo | xtable/region_detection/__init__.py:14-34 | The loop's result is `YoloOutput` of the output. |
| RegionDetection.YoloOutputSpec | xtable/region_detection/__init__.py:24-34 | Fails, with the `list.remove` error, exactly when there is no empty line or some remaining line has no empty token. Otherwise there is one box per remaining line, in order. |
| RegionDetection.Reconciled | xtable/region_detection/__init__.py:85-95 | One region: both y values ×1.05. Two regions with `a0[1] > a1[3]`: `a1[3] := 1.15·old a0[1]` and `a0[1] := 1.05·a0[1]`. Otherwise, with `a1[1] > a0[3]`, the mirror image. The count, the order and every x are kept, and every other case is left unchanged. |
| RegionDetection.CorrectOverlaps | xtable/region_detection/__init__.py:85-95 | The in-place correction leaves the array equal to `Reconciled` of its old contents. |
| RegionDetection.PdfRegions | xtable/region_detection/__init__.py:76-81 | One region per detection, in detection order, each mapped by `bboxes_pdf` with the default margins. |
| RegionDetection.DetectionsDefined | xtable/region_detection/__init__.py:78-80 | The detector rows unpack exactly when each holds six values, and then each detection holds its row. |
| RegionDetection.DetectionsFirstError | xtable/region_detection/__init__.py:78-80 | When the rows do not unpack, the error is the unpacking error of the first row without six values. |
| RegionDetection.DetectionsFailureExtends | xtable/region_detection/__init__.py:78-80 | The first row that does not unpack decides the outcome, whatever follows it. |
| RegionDetection.ConvertTableRegions | xtable/region_detection/__init__.py:67-95 | Fails with the first unpacking error when a row does not hold six values. Otherwise there is exactly one area per detection, equal to the corrected list of mapped detections. |
| RegionDetection.LoneRegionHeight | xtable/region_detection/__init__.py:85-87 | A lone region's height grows by the factor 1.05. |
| RegionDetection.LoneRegionExample | xtable/region_detection/__init__.py:85-87 | `[x, 100, x, 200]` becomes `[x, 105, x, 210]`. |
| RegionDetection.NeighbouringRegionsExample | xtable/region_detection/__init__.py:89-95 | `[x, 100, x, 200]` and `[x, 190, x, 300]` meet neither test and are left unchanged. |
| RegionDetection.FirstTestWins | xtable/region_detection/__init__.py:90-95 | When both tests hold, only the first correction is applied. |
| PdfUtils.BoxConvert | xtable/region_detection/helpers/pdf_utils.py:67-79 | x is kept, and each new y plus the old y equals the page height. |
| PdfUtils.BoxConvertInvolution | xtable/region_detection/helpers/pdf_utils.py:67-79 | Converting twice with the same page size gives back the box. |
| PdfUtils.FlagStyle | xtable/region_detection/helpers/pdf_utils.py:120-132 | Superscripted iff ≤1, italic iff in (1,2], serifed iff in (2,4], monospaced iff in (4,8], bold iff >8. |
| PdfUtils.FlagStyleMonotone | xtable/region_detection/helpers/pdf_utils.py:120-132 | Larger flags never give an earlier class. |
| PdfUtils.StyleColorDigits | xtable/region_detection/helpers/pdf_utils.py:134 | The recorded colour is the hexadecimal digits without `0x`, after a `-` when the colour is negative. |
| PdfUtils.IdentifierNormalised | xtable/region_detection/helpers/pdf_utils.py:100-115 | An identifier has no whitespace at either end and no two whitespace characters in a row, and the second `re.sub` leaves it unchanged. |
| PdfUtils.IdentifiersAt | xtable/region_detection/helpers/pdf_utils.py:99-115 | Each text line contributes its own identifier, in order. |
| PdfUtils.CountsAreOccurrences | xtable/region_detection/helpers/pdf_utils.py:138-140 | An identifier's count is the number of lines that have it, and an identifier that no line has is not a key. |
| PdfUtils.CountsKeysAreStylesKeys | xtable/region_detection/helpers/pdf_utils.py:116-140 | The counts and the style index have the same identifiers, in the same order. |
| PdfUtils.CountsKeysUnique | xtable/region_detection/helpers/pdf_utils.py:138-140 | No identifier is counted twice. |
| PdfUtils.LastLineWins | xtable/region_detection/helpers/pdf_utils.py:116-118 | An identifier's span map is that of the last line with the identifier. |
| PdfUtils.LastSpanWins | xtable/region_detection/helpers/pdf_utils.py:117-118 | Within a line, a text's record is that of the last span with that text. |
| PdfUtils.CountsEmpty | xtable/region_detection/helpers/pdf_utils.py:138-145 | There are no counts exactly when there are no text lines. |
| PdfUtils.InsertByCount | xtable/region_detection/helpers/pdf_utils.py:142 | Insertion adds exactly the new item to the multiset. |
| PdfUtils.InsertKeepsOrder | xtable/region_detection/helpers/pdf_utils.py:142 | Inserting into a non-increasing list keeps it non-increasing. |
| PdfUtils.SortByCount | xtable/region_detection/helpers/pdf_utils.py:142 | The sorted counts are non-increasing and a permutation of the counts. |
| PdfUtils.RecordLine | xtable/region_detection/helpers/pdf_utils.py:116-136 | Resetting the identifier's map and recording every span leaves the index with the line's span map under the identifier. |
| PdfUtils.IndexLines | xtable/region_detection/helpers/pdf_utils.py:99-140 | The line loop extends the style index and the counts from the lines before to the lines before plus the block's lines. |
| PdfUtils.GetFontsInfo | xtable/region_detection/helpers/pdf_utils.py:93-147 | Fails with "Zero discriminating fonts found!" exactly when the text blocks have no line. Otherwise the styles are the index of the type-0 blocks' lines, and the counts are their per-identifier counts sorted largest first. |
| OrderedDicts.TallyStep | xtable/region_detection/helpers/pdf_utils.py:138-140 | `counts[k] = counts.get(k, 0) + 1` is the tally of the identifiers extended by one more k. |
| OrderedDicts.PutKeys | xtable/region_detection/helpers/pdf_utils.py:116 | Assigning to a key keeps the old keys in their order and appends a new key at the end. |
| OrderedDicts.PutOther | xtable/region_detection/helpers/pdf_utils.py:116-118 | Assigning to a key leaves every other key's value unchanged. |
| OrderedDicts.PutPut | xtable/region_detection/helpers/pdf_utils.py:116-118 | A second assignment to a key overrides the first. |
| TableUtils.CellKeyNormalForm | xtable/region_detection/helpers/table_utils.py:25-33 | A lookup key has no newline, no whitespace at either end and no two whitespace characters in a row. |
| TableUtils.CellKeyOfNormalised | xtable/region_detection/helpers/table_utils.py:25-33 | Single-line text in normal form without either marker is its own key. |
| TableUtils.CellStyleOf | xtable/region_detection/helpers/table_utils.py:24-37 | An empty cell, or one whose key is not in the page's styles, gets `{}`. Any other cell gets the record under its key. |
| TableUtils.ExtractTableStyles | xtable/region_detection/helpers/table_utils.py:21-41 | Same number of rows, each of the same length, with each cell's style in its place. |
| TableUtils.IdentifierCellGetsLineStyles | xtable/region_detection/helpers/table_utils.py:24-37 | A cell holding a line's identifier gets the span map of the last line with that identifier. |
| TableUtils.Field | xtable/region_detection/helpers/table_utils.py:79-80 | `value[info]` exists exactly for size, flags, font, color and bbox, and is never the miss value. |
| TableUtils.GetCellStyle | xtable/region_detection/helpers/table_utils.py:74-82 | Returns 0 exactly when no entry qualifies. Otherwise it returns `value[info]` of the first entry, in iteration order, whose key matches the cell text after `strip(". ")` and that has `info`. |
| Handlers.CollectSpec | xtable/handlers.py:295-302 | The tokens fail exactly when one does, with the error of the first that does. Otherwise there is one range per token, in order. |
| Handlers.CollectFailureExtends | xtable/handlers.py:295-302 | The first failing token decides the outcome, whatever follows it. |
| Handlers.GetPages | xtable/handlers.py:264-307 | The loops' result is `Pages` of the selection. |
| Handlers.Interval | xtable/handlers.py:306 | `range(a, b + 1)` holds exactly the p with `a ≤ p ≤ b`, so it is empty when `a > b`. |
| Handlers.ExpandMembers | xtable/handlers.py:304-306 | A page is gathered exactly when some range holds it. |
| Handlers.SortedUnique | xtable/handlers.py:307 | `sorted(set(P))` is strictly increasing and has exactly P's members. |
| Handlers.PagesAreUnionOfRanges | xtable/handlers.py:283-307 | The selected pages are strictly increasing and are exactly the union of the selection's ranges. |
| Handlers.PagesOne | xtable/handlers.py:283-284 | "1" selects `[1]` whatever the page count. |
| Handlers.PagesAll | xtable/handlers.py:292-293 | "all" selects `1..page_count`, in order. |
| Handlers.RangeToken | xtable/handlers.py:296-300 | `"a-b"` selects the range `(a, b)`. |
| Handlers.RangeToEndToken | xtable/handlers.py:296-300 | `"a-end"` selects the range from a to the page count. |
| Handlers.SinglePageToken | xtable/handlers.py:301-302 | A number alone selects that single page. |
| Handlers.NegativePageToken | xtable/handlers.py:296-300 | `"-n"` has an empty start and fails in `int("")`. |
| Handlers.SingleTokenSelection | xtable/handlers.py:283-302 | A selection that is one failing token, other than "1" and "all", fails with that token's error. |
| Handlers.SeparatorPaddedToken | xtable/handlers.py:296-302 | A page number after U+001C fails in `int()`, both as a token and as the whole selection, although `str.strip` would remove that character. |
| Handlers.ManyDashToken | xtable/handlers.py:296-297 | A token with two or more `-` fails to unpack. |
| Handlers.NewPdfHandler | xtable/handlers.py:219-238 | A path not ending in ".pdf" (any case) is rejected. Otherwise a `None` password becomes "", and the pages are the selection's pages or its error. |
| Handlers.SavePagePlan | xtable/handlers.py:326-354 | The page file is always written. A rotated copy is written exactly when the rotation is non-empty, with angle 90 for "anticlockwise", −90 for "clockwise" and no page otherwise. |
| Handlers.FileNamesDistinct | xtable/handlers.py:326-340 | Different pages get different file names, and no page file has the name of a rotated copy. |
| Version.GenerateVersion | xtable/__version__.py:8-14 | The appends and the join give `VersionString`: numbers, then `-prerelease`, then `.revision`. |
| Version.ModuleVersion | xtable/__version__.py:3-20 | With the module's constants the version is "0.0.1-alpha". |
| Version.NumbersRoundTrip | xtable/__version__.py:9 | Splitting the numbers part at its dots gives back each number's text, and each text reads back as its number. |
| Version.PrereleaseAtFirstDash | xtable/__version__.py:9-11 | The numbers part has no `-`, so the prerelease begins at the string's first `-`, right after the numbers. |

## Left out

- Everything that reads or writes files, opens documents or runs other programs:
  - `detect_table_regions`, `norm_pdf_page`, `pdf_page2img` and `extract_font_info`;
  - `PDFHandler._get_layout` and `parse`;
  - the document handling of `_save_page`, `is_url` and `download_url`;
  - the plotting helpers.
- What these operations need from a document is passed in as plain values instead: the page count for `_get_pages`, the page's blocks for `get_fonts_info`, and the detected rotation for `_save_page`.
- `_save_page` inserts page `pgno` with fitz, which counts pages from 0. That call is not part of this model, and neither is the directory the files are written to: only the file names and the angle are modelled.
- The rotation classifier is not part of this model; its result is the `rotation` parameter.
- The Python 2 branch of the password handling is not modelled.
- Floating point: coordinates and the 1.05 and 1.15 factors are exact reals, so rounding is not modelled.
- The division by the image and page sizes is a precondition (non-zero sizes) rather than a `ZeroDivisionError`.
- Span sizes and boxes are passed through as opaque values.
- `eval` in `output_yolo` is an abstract token-to-number function, so an error raised by `eval` is not modelled.
- The `str(float)` and `",".join` formatting and the `print` at the end of `convert_table_regions_from_img_to_pdf` are not modelled: `RegionDetection.ConvertTableRegions` returns the corrected boxes.
- A DataFrame is its grid of cell texts, and an image is its `(height, width)` shape.
- Lower-casing and `int()` cover ASCII only:
  - `Handlers.IsPdfPath` lower-cases ASCII letters only, where Python lower-cases all of Unicode;
  - `PyStrings.ParseInt` accepts ASCII digits with single underscores and an optional sign, where Python also accepts the other Unicode decimal digits.
- `PyStrings.IsSpace` is the full set of characters Python's `str.isspace` accepts, so whitespace in `strip()` and `\s` is not restricted to ASCII. `int()` skips the same characters around a number except the four separators U+001C to U+001F, which it rejects. `PyStrings.IsIntSpace` is that set.
- `PyStrings.ParseInt`: CPython's limit on the number of digits `int()` converts is not modelled. The limit is 4300 digits by default and is a setting of the interpreter (`sys.set_int_max_str_digits`), not of the program. A longer numeral parses here, where Python raises ValueError. The same limit on `str()` of such a number is not modelled in `PyStrings.IntToString` either.
- `Handlers.GetPages`: a page number of more than 4300 digits selects its page here, where `int()` raises ValueError under CPython's default limit (see `PyStrings.ParseInt`).
- `Handlers.NewPdfHandler`: for the same reason, a selection holding a page number of more than 4300 digits builds a handler here, where the source raises ValueError.
- `PdfUtils.SortByCount`: proved non-increasing and a permutation of the counts. That equal counts keep their first-appearance order, as Python's stable sort guarantees, is not proved.
- `TableUtils.GetCellStyle`: requires row and column indices within the table. Python's negative indices and its `IndexError` for out-of-range indices are not modelled.
- `RegionDetection.ConvertTableRegions`: requires a non-zero image size when there are detections, where Python would raise `ZeroDivisionError`.
- The dict in `get_cell_style`'s cell style is the span map that `get_fonts_info` records. So `info in value.keys()` holds exactly for the five record keys.
- `PDFHandler._get_layout` and the `layout` field it fills are not modelled. For an unencrypted file the field holds the opened document. For an encrypted file it holds the result of `authenticate`, and a result that is not positive raises ValueError("wrong password").
- The image's shape is taken to have three dimensions: the ValueError that `H_img, W_img, _ = img.shape` raises for a two-dimensional (greyscale) image is not modelled.
