/**
 * The per-page style index: every text line of the page is keyed by a normalised identifier, and
 * under it every span's raw text by the span's size, style flag, font, colour and bounding box.
 * Alongside, the number of lines per identifier, most frequent first.
 */
module PdfUtils {
  import opened Wrappers
  import opened PyStrings
  import opened OrderedDicts

  /** A rectangle `[x0, y0, x1, y1]`. */
  datatype Rect = Rect(x0: real, y0: real, x1: real, y1: real)

  /** `box_convert`: x is kept and y is measured from the other edge of a page of the given
      `(width, height)`. */
  function BoxConvert(pageSize: (real, real), bbox: Rect): (r: Rect)
    ensures r.x0 == bbox.x0 && r.x1 == bbox.x1
    ensures r.y0 + bbox.y0 == pageSize.1 && r.y1 + bbox.y1 == pageSize.1
  {
    var H := pageSize.1;
    Rect(bbox.x0, H - bbox.y0, bbox.x1, H - bbox.y1)
  }

  /** Converting twice with the same page size gives back the box. */
  lemma BoxConvertInvolution(pageSize: (real, real), bbox: Rect)
    ensures BoxConvert(pageSize, BoxConvert(pageSize, bbox)) == bbox
  {
  }

  // ---------------------------------------------------------------------------------------------
  // The page as the text extractor delivers it

  /** A text span: its text, font size, integer style flags, font name, sRGB colour and box. */
  datatype Span = Span(text: string, size: real, flags: int, font: string, color: int, bbox: Rect)

  /** A line is its sequence of spans. */
  type Line = seq<Span>

  /** A block of the page; only blocks of type 0 hold text lines. */
  datatype Block = Block(kind: int, lines: seq<Line>)

  /** The lines of the text blocks, in page order. */
  function TextLines(blocks: seq<Block>): seq<Line> {
    if blocks == [] then []
    else
      var last := blocks[|blocks| - 1];
      TextLines(blocks[..|blocks| - 1]) + (if last.kind == 0 then last.lines else [])
  }

  // ---------------------------------------------------------------------------------------------
  // Styles of spans

  /** The single style a span's flags are classified as. */
  datatype FontFlag = Superscripted | Italic | Serifed | Monospaced | Bold

  /** The flags classified by thresholds, the first that applies: at most 1 superscripted, at most 2
      italic, at most 4 serifed, at most 8 monospaced, otherwise bold. */
  function FlagStyle(flags: int): (f: FontFlag)
    ensures f == Superscripted <==> flags <= 1
    ensures f == Italic <==> 1 < flags <= 2
    ensures f == Serifed <==> 2 < flags <= 4
    ensures f == Monospaced <==> 4 < flags <= 8
    ensures f == Bold <==> 8 < flags
  {
    if flags <= 1 then Superscripted
    else if flags <= 2 then Italic
    else if flags <= 4 then Serifed
    else if flags <= 8 then Monospaced
    else Bold
  }

  function FlagRank(f: FontFlag): nat {
    match f
    case Superscripted => 0
    case Italic => 1
    case Serifed => 2
    case Monospaced => 3
    case Bold => 4
  }

  /** Larger flags never give an earlier class. */
  lemma FlagStyleMonotone(a: int, b: int)
    requires a <= b
    ensures FlagRank(FlagStyle(a)) <= FlagRank(FlagStyle(b))
  {
  }

  /** What the index records of a span. */
  datatype SpanStyle = SpanStyle(size: real, flags: FontFlag, font: string, color: string, bbox: Rect)

  /** A span's record; the colour is `hex(color)` with "0x" removed. */
  function StyleOf(s: Span): SpanStyle {
    SpanStyle(s.size, FlagStyle(s.flags), s.font, Replace(HexLiteral(s.color), "0x", ""), s.bbox)
  }

  /** The recorded colour is the colour's hexadecimal digits, after a minus sign if it is negative. */
  lemma StyleColorDigits(s: Span)
    ensures StyleOf(s).color == (if s.color < 0 then "-" else "") + NatToHex(if s.color < 0 then -s.color else s.color)
  {
    HexWithoutPrefix(s.color);
  }

  // ---------------------------------------------------------------------------------------------
  // Line identifiers

  /** `[s.text.strip() for s in spans if s.text != ""]`. */
  function SpanTexts(spans: seq<Span>): seq<string> {
    if spans == [] then []
    else (if spans[0].text != "" then [Strip(spans[0].text)] else []) + SpanTexts(spans[1..])
  }

  /** The text `re.sub` collapses first: the joined span texts with " . " replaced by ". ", stripped. */
  function JoinedText(line: Line): string {
    Strip(Replace(Join(SpanTexts(line), " "), " . ", ". "))
  }

  /** A line's identifier: its non-empty span texts, each stripped, joined with single spaces;
      " . " replaced by ". "; stripped; runs of whitespace collapsed, and collapsed again. */
  function Identifier(line: Line): string {
    CollapseSpaces(CollapseSpaces(JoinedText(line)))
  }

  /** Text in normal form: no whitespace at either end and no two whitespace characters in a row. */
  predicate Normalised(s: string) {
    (s != [] ==> !IsSpace(s[0]) && !IsSpace(s[|s| - 1])) && NoDoubleSpace(s)
  }

  /** Stripping and then collapsing gives text in normal form, which a further collapse keeps:
      the second `re.sub` in the identifier changes nothing. */
  lemma StripCollapseNormalised(s: string)
    ensures Normalised(CollapseSpaces(Strip(s)))
    ensures CollapseSpaces(CollapseSpaces(Strip(s))) == CollapseSpaces(Strip(s))
  {
    CollapseIdempotent(Strip(s));
  }

  /** Every identifier is in normal form. */
  lemma IdentifierNormalised(line: Line)
    ensures Normalised(Identifier(line))
    ensures Identifier(line) == CollapseSpaces(JoinedText(line))
  {
    StripCollapseNormalised(Replace(Join(SpanTexts(line), " "), " . ", ". "));
  }

  // ---------------------------------------------------------------------------------------------
  // The index, as a function of the text lines

  /** One entry per span, in order: its raw text and its record. */
  function SpanEntries(spans: seq<Span>): seq<(string, SpanStyle)> {
    if spans == [] then []
    else
      var last := spans[|spans| - 1];
      SpanEntries(spans[..|spans| - 1]) + [(last.text, StyleOf(last))]
  }

  /** The span records of one line keyed by raw span text; a later span with the same text replaces
      the record of an earlier one. */
  function LineStyles(spans: seq<Span>): Dict<SpanStyle> {
    FromEntries(SpanEntries(spans))
  }

  /** One entry per line, in order: the line's key and its span records. */
  function LineEntries(lines: seq<Line>, key: Line -> string): seq<(string, Dict<SpanStyle>)> {
    if lines == [] then []
    else
      var last := lines[|lines| - 1];
      LineEntries(lines[..|lines| - 1], key) + [(key(last), LineStyles(last))]
  }

  /** The style index of a sequence of lines: a line replaces whatever an earlier line with the same
      identifier recorded. */
  function Styles(lines: seq<Line>): Dict<Dict<SpanStyle>> {
    FromEntries(LineEntries(lines, Identifier))
  }

  /** The identifiers of the lines, in order. */
  function Identifiers(lines: seq<Line>): seq<string> {
    Firsts(LineEntries(lines, Identifier))
  }

  /** The number of lines per identifier, identifiers in order of first appearance. */
  function Counts(lines: seq<Line>): Dict<nat> {
    Tally(Identifiers(lines))
  }

  lemma {:induction false} SpanEntriesAt(spans: seq<Span>, i: nat)
    requires i < |spans|
    ensures |SpanEntries(spans)| == |spans|
    ensures SpanEntries(spans)[i] == (spans[i].text, StyleOf(spans[i]))
  {
    if i < |spans| - 1 {
      SpanEntriesAt(spans[..|spans| - 1], i);
    } else if |spans| > 1 {
      SpanEntriesAt(spans[..|spans| - 1], 0);
    }
  }

  lemma {:induction false} LineEntriesAt(lines: seq<Line>, key: Line -> string, i: nat)
    requires i < |lines|
    ensures |LineEntries(lines, key)| == |lines|
    ensures LineEntries(lines, key)[i] == (key(lines[i]), LineStyles(lines[i]))
  {
    if i < |lines| - 1 {
      LineEntriesAt(lines[..|lines| - 1], key, i);
    } else if |lines| > 1 {
      LineEntriesAt(lines[..|lines| - 1], key, 0);
    }
  }

  lemma LineEntriesStep(before: seq<Line>, line: Line, key: Line -> string)
    ensures LineEntries(before + [line], key) == LineEntries(before, key) + [(key(line), LineStyles(line))]
  {
    var all := before + [line];
    assert all[..|all| - 1] == before && all[|all| - 1] == line;
  }

  /** Each line contributes its own identifier, in order. */
  lemma IdentifiersAt(lines: seq<Line>, i: nat)
    requires i < |lines|
    ensures |Identifiers(lines)| == |lines| && Identifiers(lines)[i] == Identifier(lines[i])
  {
    LineEntriesAt(lines, Identifier, i);
  }

  /** Each identifier's count is the number of lines that have it, and an identifier that no line
      has is not a key. */
  lemma CountsAreOccurrences(lines: seq<Line>, id: string)
    ensures var n := multiset(Identifiers(lines))[id];
            Get(Counts(lines), id) == if n > 0 then Some(n) else None
  {
    TallyCounts(Identifiers(lines), id);
    CountIsMultiplicity(Identifiers(lines), id);
  }

  /** The counts and the styles have the same identifiers, in the same order. */
  lemma CountsKeysAreStylesKeys(lines: seq<Line>)
    ensures Keys(Counts(lines)) == Keys(Styles(lines))
  {
    TallyKeys(LineEntries(lines, Identifier));
  }

  /** No identifier is counted twice. */
  lemma CountsKeysUnique(lines: seq<Line>)
    ensures UniqueKeys(Counts(lines))
  {
    TallyKeysUnique(Identifiers(lines));
  }

  lemma {:induction false} LastLineWinsFor(lines: seq<Line>, key: Line -> string, j: nat)
    requires j < |lines|
    requires forall k :: j < k < |lines| ==> key(lines[k]) != key(lines[j])
    ensures Get(FromEntries(LineEntries(lines, key)), key(lines[j])) == Some(LineStyles(lines[j]))
  {
    var es := LineEntries(lines, key);
    LineEntriesAt(lines, key, j);
    forall k | j < k < |es| ensures es[k].0 != es[j].0 {
      LineEntriesAt(lines, key, k);
    }
    LastEntryWins(es, j);
  }

  /** The styles of an identifier are those of the last line that has it. */
  lemma LastLineWins(lines: seq<Line>, j: nat)
    requires j < |lines|
    requires forall k :: j < k < |lines| ==> Identifier(lines[k]) != Identifier(lines[j])
    ensures Get(Styles(lines), Identifier(lines[j])) == Some(LineStyles(lines[j]))
  {
    LastLineWinsFor(lines, Identifier, j);
  }

  /** The record under a span text is that of the last span with that text. */
  lemma LastSpanWins(spans: seq<Span>, j: nat)
    requires j < |spans|
    requires forall k :: j < k < |spans| ==> spans[k].text != spans[j].text
    ensures Get(LineStyles(spans), spans[j].text) == Some(StyleOf(spans[j]))
  {
    var es := SpanEntries(spans);
    SpanEntriesAt(spans, j);
    forall k | j < k < |es| ensures es[k].0 != es[j].0 {
      SpanEntriesAt(spans, k);
    }
    LastEntryWins(es, j);
  }

  // ---------------------------------------------------------------------------------------------
  // Sorting the counts

  predicate NonIncreasing(items: seq<(string, nat)>) {
    forall i, j :: 0 <= i < j < |items| ==> items[i].1 >= items[j].1
  }

  /** x placed before the first element whose count is not larger than its own. */
  function InsertByCount(x: (string, nat), sorted: seq<(string, nat)>): (r: seq<(string, nat)>)
    ensures multiset(r) == multiset(sorted) + multiset{x}
  {
    if sorted == [] || sorted[0].1 <= x.1 then [x] + sorted
    else
      assert sorted == [sorted[0]] + sorted[1..];
      [sorted[0]] + InsertByCount(x, sorted[1..])
  }

  /** Inserting an item whose count is within a bound into a list whose counts are all within it
      gives a list whose counts are all within it. */
  lemma {:induction false} InsertBounded(x: (string, nat), sorted: seq<(string, nat)>, c: nat)
    requires x.1 <= c && forall i :: 0 <= i < |sorted| ==> sorted[i].1 <= c
    ensures forall i :: 0 <= i < |InsertByCount(x, sorted)| ==> InsertByCount(x, sorted)[i].1 <= c
  {
    if sorted != [] && sorted[0].1 > x.1 {
      InsertBounded(x, sorted[1..], c);
      var rest := InsertByCount(x, sorted[1..]);
      assert forall i :: 1 <= i < |rest| + 1 ==> ([sorted[0]] + rest)[i] == rest[i - 1];
    }
  }

  /** Inserting into a list sorted by count, largest first, keeps it sorted. */
  lemma {:induction false} InsertKeepsOrder(x: (string, nat), sorted: seq<(string, nat)>)
    requires NonIncreasing(sorted)
    ensures NonIncreasing(InsertByCount(x, sorted))
  {
    if sorted != [] && sorted[0].1 > x.1 {
      var rest := InsertByCount(x, sorted[1..]);
      InsertKeepsOrder(x, sorted[1..]);
      InsertBounded(x, sorted[1..], sorted[0].1);
      var r := [sorted[0]] + rest;
      assert forall i :: 1 <= i < |r| ==> r[i] == rest[i - 1];
    }
  }

  /** `sorted(items, key=count, reverse=True)`: by count, largest first, equal counts in their
      original order; the result is a rearrangement of the items. */
  function SortByCount(items: seq<(string, nat)>): (r: seq<(string, nat)>)
    ensures NonIncreasing(r)
    ensures multiset(r) == multiset(items)
  {
    if items == [] then []
    else
      assert items == [items[0]] + items[1..];
      InsertKeepsOrder(items[0], SortByCount(items[1..]));
      InsertByCount(items[0], SortByCount(items[1..]))
  }

  // ---------------------------------------------------------------------------------------------
  // The fold itself

  const NoFonts: string := "Zero discriminating fonts found!"

  /** The counts, sorted, and the style index of a page. */
  datatype FontsInfo = FontsInfo(fontCounts: seq<(string, nat)>, styles: Dict<Dict<SpanStyle>>)

  lemma LineStylesStep(line: Line, k: nat)
    requires k < |line|
    ensures LineStyles(line[..k + 1]) == Put(LineStyles(line[..k]), line[k].text, StyleOf(line[k]))
  {
    assert line[..k + 1][..k] == line[..k];
    FromEntriesStep(SpanEntries(line[..k]), (line[k].text, StyleOf(line[k])));
  }

  lemma StylesLineStep(before: seq<Line>, line: Line)
    ensures Styles(before + [line]) == Put(Styles(before), Identifier(line), LineStyles(line))
  {
    LineEntriesStep(before, line, Identifier);
    FromEntriesStep(LineEntries(before, Identifier), (Identifier(line), LineStyles(line)));
  }

  lemma KeysStep(before: seq<Line>, line: Line, key: Line -> string)
    ensures Firsts(LineEntries(before + [line], key)) == Firsts(LineEntries(before, key)) + [key(line)]
  {
    LineEntriesStep(before, line, key);
    FirstsStep(LineEntries(before, key), (key(line), LineStyles(line)));
  }

  lemma CountsLineStep(before: seq<Line>, line: Line)
    ensures Counts(before + [line]) == Put(Counts(before), Identifier(line), Incremented(Counts(before), Identifier(line)))
  {
    KeysStep(before, line, Identifier);
    TallyStep(Identifiers(before), Identifier(line));
  }

  lemma LineStep(done: seq<Line>, lines: seq<Line>, l: nat)
    requires l < |lines|
    ensures Styles(done + lines[..l + 1])
            == Put(Styles(done + lines[..l]), Identifier(lines[l]), LineStyles(lines[l]))
    ensures Counts(done + lines[..l + 1])
            == Put(Counts(done + lines[..l]), Identifier(lines[l]), Incremented(Counts(done + lines[..l]), Identifier(lines[l])))
  {
    assert done + lines[..l + 1] == (done + lines[..l]) + [lines[l]];
    StylesLineStep(done + lines[..l], lines[l]);
    CountsLineStep(done + lines[..l], lines[l]);
  }

  lemma TextLinesStep(blocks: seq<Block>, b: nat)
    requires b < |blocks|
    ensures TextLines(blocks[..b + 1])
            == TextLines(blocks[..b]) + (if blocks[b].kind == 0 then blocks[b].lines else [])
  {
    assert blocks[..b + 1][..b] == blocks[..b];
  }

  lemma CountsEmpty(lines: seq<Line>)
    ensures Counts(lines) == [] <==> lines == []
  {
    if lines != [] {
      IdentifiersAt(lines, 0);
    }
  }

  /** The inner loop of `get_fonts_info`: the identifier's entry is reset to an empty dict, then
      every span of the line is recorded under its text. The result is the index with the line's
      styles under the identifier and every other entry unchanged. */
  method RecordLine(styles: Dict<Dict<SpanStyle>>, identifier: string, line: Line)
    returns (r: Dict<Dict<SpanStyle>>)
    ensures r == Put(styles, identifier, LineStyles(line))
  {
    r := Put(styles, identifier, []);
    var k := 0;
    while k < |line|
      invariant 0 <= k <= |line|
      invariant r == Put(styles, identifier, LineStyles(line[..k]))
    {
      var s := line[k];
      PutPut(styles, identifier, LineStyles(line[..k]), Put(LineStyles(line[..k]), s.text, StyleOf(s)));
      LineStylesStep(line, k);
      var inner := Get(r, identifier).value;
      r := Put(r, identifier, Put(inner, s.text, StyleOf(s)));
      k := k + 1;
    }
    assert line[..k] == line;
  }

  /** The loop over the lines of one text block: each line's identifier gets the line's span records
      and one more count. */
  method IndexLines(styles: Dict<Dict<SpanStyle>>, fontCounts: Dict<nat>, ghost done: seq<Line>, lines: seq<Line>)
    returns (styles': Dict<Dict<SpanStyle>>, fontCounts': Dict<nat>)
    requires styles == Styles(done) && fontCounts == Counts(done)
    ensures styles' == Styles(done + lines) && fontCounts' == Counts(done + lines)
  {
    styles', fontCounts' := styles, fontCounts;
    var l := 0;
    assert done + lines[..l] == done;
    while l < |lines|
      invariant 0 <= l <= |lines|
      invariant styles' == Styles(done + lines[..l])
      invariant fontCounts' == Counts(done + lines[..l])
    {
      var line := lines[l];
      var identifier := Identifier(line);
      LineStep(done, lines, l);
      styles' := RecordLine(styles', identifier, line);
      fontCounts' := Put(fontCounts', identifier, Incremented(fontCounts', identifier));
      l := l + 1;
    }
    assert lines[..l] == lines;
  }

  /** `get_fonts_info` on the blocks of one page: for every line of every text block, in order, the
      line's identifier gets a fresh record of the line's spans and one more count; the counts are
      then sorted, largest first. A page with no text line fails with "Zero discriminating fonts
      found!". */
  method GetFontsInfo(blocks: seq<Block>) returns (r: Result<FontsInfo, string>)
    ensures r.Failure? <==> TextLines(blocks) == []
    ensures r.Failure? ==> r.error == NoFonts
    ensures r.Success? ==> && r.value.styles == Styles(TextLines(blocks))
                           && r.value.fontCounts == SortByCount(Counts(TextLines(blocks)))
  {
    var styles: Dict<Dict<SpanStyle>> := [];
    var fontCounts: Dict<nat> := [];
    var b := 0;
    while b < |blocks|
      invariant 0 <= b <= |blocks|
      invariant styles == Styles(TextLines(blocks[..b]))
      invariant fontCounts == Counts(TextLines(blocks[..b]))
    {
      TextLinesStep(blocks, b);
      if blocks[b].kind == 0 {
        styles, fontCounts := IndexLines(styles, fontCounts, TextLines(blocks[..b]), blocks[b].lines);
      } else {
        assert TextLines(blocks[..b + 1]) == TextLines(blocks[..b]);
      }
      b := b + 1;
    }
    assert blocks[..b] == blocks;
    var sorted := SortByCount(fontCounts);
    CountsEmpty(TextLines(blocks));
    assert |sorted| == |fontCounts| by {
      assert |multiset(sorted)| == |multiset(fontCounts)|;
    }
    if |sorted| < 1 {
      return Failure(NoFonts);
    }
    return Success(FontsInfo(sorted, styles));
  }
}
