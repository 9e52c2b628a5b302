/**
 * The cell-style helpers of table post-processing: every cell of an extracted table looked up in the
 * style index of its page, and one piece of style information read back from a cell.
 */
module TableUtils {
  import opened Wrappers
  import opened PyStrings
  import opened OrderedDicts
  import opened PdfUtils

  /** A table as its grid of cell texts, row by row. */
  type Table = seq<seq<string>>

  /** The span records of one line of the page: what a cell's style is. */
  type CellStyle = Dict<SpanStyle>

  /** Marker left in cell texts by the table parser around a stray glyph. */
  const GlyphMarker: string := "<s> \U{83}</s>"
  /** Marker left in cell texts around a footnote call. */
  const FootnoteMarker: string := "<s>(1)</s>"

  /** The key a cell text is looked up under: both markers removed, a newline between spaces made
      a space, only the text before the first remaining newline kept, stripped, and each run of
      two or more whitespace characters collapsed to one space. */
  function CellKey(text: string): string {
    var unmarked := Replace(Replace(text, GlyphMarker, ""), FootnoteMarker, "");
    CollapseSpaces(Strip(FirstLine(Replace(unmarked, " \n ", " "))))
  }

  /** A key is one line of text in normal form. */
  lemma CellKeyNormalForm(text: string)
    ensures '\n' !in CellKey(text)
    ensures Normalised(CellKey(text))
  {
    var line := FirstLine(Replace(Replace(Replace(text, GlyphMarker, ""), FootnoteMarker, ""), " \n ", " "));
    StripAddsNoChar(line, IsSpace, '\n');
    CollapseAddsNoChar(Strip(line), '\n');
    StripCollapseNormalised(line);
  }

  /** Text that is already one line in normal form and holds neither marker is its own key. */
  lemma CellKeyOfNormalised(text: string)
    requires Normalised(text) && '\n' !in text
    requires !Contains(text, GlyphMarker) && !Contains(text, FootnoteMarker)
    ensures CellKey(text) == text
  {
    NotContainsWithoutChar(text, " \n ", 1);
    assert FirstLine(text) == text;
    StripKeepsTrimmed(text, IsSpace);
    CollapseKeepsNormalText(text);
  }

  /** The style of one cell: none for an empty cell, otherwise the page's record under the cell's
      key, and none when there is no such key. */
  function CellStyleOf(cell: string, pageStyles: Dict<CellStyle>): (r: CellStyle)
    ensures cell == "" || CellKey(cell) !in Keys(pageStyles) ==> r == []
    ensures cell != "" && CellKey(cell) in Keys(pageStyles) ==> Some(r) == Get(pageStyles, CellKey(cell))
  {
    if cell == "" then []
    else
      match Get(pageStyles, CellKey(cell))
      case None => []
      case Some(style) => style
  }

  /** The styles of one row of cells, in place. */
  function RowStyles(row: seq<string>, pageStyles: Dict<CellStyle>): (r: seq<CellStyle>)
    ensures |r| == |row|
    ensures forall j :: 0 <= j < |row| ==> r[j] == CellStyleOf(row[j], pageStyles)
  {
    seq(|row|, j requires 0 <= j < |row| => CellStyleOf(row[j], pageStyles))
  }

  /** `extract_table_styles`: a grid of the same shape as the table, each cell's style in its
      place. */
  function ExtractTableStyles(df: Table, pageStyles: Dict<CellStyle>): (r: seq<seq<CellStyle>>)
    ensures |r| == |df|
    ensures forall i :: 0 <= i < |df| ==> |r[i]| == |df[i]|
    ensures forall i, j :: 0 <= i < |df| && 0 <= j < |df[i]| ==> r[i][j] == CellStyleOf(df[i][j], pageStyles)
  {
    seq(|df|, i requires 0 <= i < |df| => RowStyles(df[i], pageStyles))
  }

  /** A cell whose text is the identifier of a line of the page gets that line's span records,
      those of the last line with that identifier, provided the identifier is one line and holds
      neither marker. */
  lemma IdentifierCellGetsLineStyles(lines: seq<Line>, j: nat)
    requires j < |lines|
    requires forall k :: j < k < |lines| ==> Identifier(lines[k]) != Identifier(lines[j])
    requires Identifier(lines[j]) != "" && '\n' !in Identifier(lines[j])
    requires !Contains(Identifier(lines[j]), GlyphMarker) && !Contains(Identifier(lines[j]), FootnoteMarker)
    ensures CellStyleOf(Identifier(lines[j]), Styles(lines)) == LineStyles(lines[j])
  {
    IdentifierNormalised(lines[j]);
    CellKeyOfNormalised(Identifier(lines[j]));
    LastLineWins(lines, j);
  }

  // ---------------------------------------------------------------------------------------------
  // Reading one piece of a cell's style

  /** What `get_cell_style` returns: one field of a span record, or 0 when nothing qualifies. */
  datatype StyleValue =
    | Zero
    | Size(size: real)
    | Flags(flags: FontFlag)
    | Font(font: string)
    | Color(color: string)
    | BBox(bbox: Rect)

  /** `value[info]`, `None` where info is not one of the record's five keys. */
  function Field(style: SpanStyle, info: string): (r: Option<StyleValue>)
    ensures r.Some? <==> info == "size" || info == "flags" || info == "font" || info == "color" || info == "bbox"
    ensures r.Some? ==> !r.value.Zero?
  {
    if info == "size" then Some(Size(style.size))
    else if info == "flags" then Some(Flags(style.flags))
    else if info == "font" then Some(Font(style.font))
    else if info == "color" then Some(Color(style.color))
    else if info == "bbox" then Some(BBox(style.bbox))
    else None
  }

  /** An entry of the cell's style qualifies when its span text and the cell text agree once dots
      and spaces are stripped from both ends, and its record has the requested field. */
  predicate Qualifies(entry: (string, SpanStyle), cellText: string, info: string) {
    StripDotsAndSpaces(entry.0) == StripDotsAndSpaces(cellText) && Field(entry.1, info).Some?
  }

  /** `get_cell_style`: the requested field of the first qualifying entry, in iteration order, of
      the cell's style; `Zero` exactly when no entry qualifies. */
  method GetCellStyle(df: Table, row: nat, col: nat, tableStyles: seq<seq<CellStyle>>, info: string)
    returns (r: StyleValue)
    requires row < |df| && col < |df[row]|
    requires row < |tableStyles| && col < |tableStyles[row]|
    ensures var d, text := tableStyles[row][col], df[row][col];
            && (r.Zero? <==> forall k :: 0 <= k < |d| ==> !Qualifies(d[k], text, info))
            && (!r.Zero? ==>
                  exists k :: && 0 <= k < |d| && Qualifies(d[k], text, info)
                              && (forall m :: 0 <= m < k ==> !Qualifies(d[m], text, info))
                              && Field(d[k].1, info) == Some(r))
  {
    var cellText := df[row][col];
    var cellDict := tableStyles[row][col];
    var cellKey := StripDotsAndSpaces(cellText);
    for i := 0 to |cellDict|
      invariant forall m :: 0 <= m < i ==> !Qualifies(cellDict[m], cellText, info)
    {
      var (key, value) := cellDict[i];
      if StripDotsAndSpaces(key) == cellKey {
        var field := Field(value, info);
        if field.Some? {
          assert Qualifies(cellDict[i], cellText, info);
          return field.value;
        }
      }
    }
    return Zero;
  }
}
