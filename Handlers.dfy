/**
 * The PDF handler's checks and bookkeeping: the extension check and password default of its
 * constructor, the parser of the page selection (`"1,3,4-end"`, `"all"`), and the names and
 * rotation of the single-page files it saves.
 */
module Handlers {
  import opened Wrappers
  import opened PyStrings

  datatype HandlerError =
    /** NotImplementedError: the path does not end in ".pdf". */
    | FormatNotSupported
    /** ValueError from unpacking `a, b = token.split("-")` when the token has several "-". */
    | TooManyValues(token: string)
    /** ValueError from `int(text)`. */
    | NotAnInteger(text: string)

  /** The path ends in ".pdf", in any case. */
  predicate IsPdfPath(path: string) {
    EndsWith(Lower(path), ".pdf")
  }

  /** The fields the constructor sets; the opened document is not part of this model. */
  datatype PdfHandler = PdfHandler(filepath: string, password: string, pages: seq<int>)

  // ---------------------------------------------------------------------------------------------
  // Page selection

  /** The first and last page of a range, both included. */
  type PageRange = (int, int)

  /** The range of a token `a-b`, with b possibly "end" for the last page. */
  function RangeOf(a: string, b: string, pageCount: nat): Result<PageRange, HandlerError> {
    match ParseInt(a)
    case None => Failure(NotAnInteger(a))
    case Some(start) =>
      if b == "end" then Success((start, pageCount as int))
      else
        match ParseInt(b)
        case None => Failure(NotAnInteger(b))
        case Some(end) => Success((start, end))
  }

  /** One comma-separated token: `a-b` is the range from a to b, `a-end` the range from a to the
      last page, and a token without "-" the single page it names. */
  function TokenRange(token: string, pageCount: nat): Result<PageRange, HandlerError> {
    if '-' in token then
      var parts := Split(token, '-');
      if |parts| != 2 then Failure(TooManyValues(token)) else RangeOf(parts[0], parts[1], pageCount)
    else
      match ParseInt(token)
      case None => Failure(NotAnInteger(token))
      case Some(n) => Success((n, n))
  }

  /** The results of the tokens, in order; the error of the first token that has one. */
  function Collect<T, E>(tokens: seq<string>, parse: string -> Result<T, E>): Result<seq<T>, E> {
    if tokens == [] then Success([])
    else
      match Collect(tokens[..|tokens| - 1], parse)
      case Failure(e) => Failure(e)
      case Success(values) =>
        match parse(tokens[|tokens| - 1])
        case Failure(e) => Failure(e)
        case Success(v) => Success(values + [v])
  }

  /** The ranges of the tokens, in order; the error of the first token that has one. */
  function TokenRanges(tokens: seq<string>, pageCount: nat): Result<seq<PageRange>, HandlerError> {
    Collect(tokens, t => TokenRange(t, pageCount))
  }

  /** The ranges a selection names: "1" is the first page without looking at the document, "all"
      every page, anything else its comma-separated tokens. */
  function PageRanges(pages: string, pageCount: nat): Result<seq<PageRange>, HandlerError> {
    if pages == "1" then Success([(1, 1)])
    else if pages == "all" then Success([(1, pageCount as int)])
    else TokenRanges(Split(pages, ','), pageCount)
  }

  /** `range(start, end + 1)`: empty when start is past end. */
  function Interval(start: int, end: int): (r: seq<int>)
    ensures forall p :: p in r <==> start <= p <= end
  {
    var r := seq(if start <= end then end - start + 1 else 0, i => start + i);
    assert forall p :: start <= p <= end ==> p in r by {
      forall p | start <= p <= end ensures p in r {
        assert r[p - start] == p;
      }
    }
    r
  }

  /** The pages of the ranges, range after range. */
  function Expand(ranges: seq<PageRange>): seq<int> {
    if ranges == [] then []
    else
      var last := ranges[|ranges| - 1];
      Expand(ranges[..|ranges| - 1]) + Interval(last.0, last.1)
  }

  predicate StrictlyIncreasing(s: seq<int>) {
    forall i, j :: 0 <= i < j < |s| ==> s[i] < s[j]
  }

  /** x placed in order into a strictly increasing list, unless it is there already. */
  function InsertUnique(x: int, s: seq<int>): (r: seq<int>)
    requires StrictlyIncreasing(s)
    ensures StrictlyIncreasing(r)
    ensures forall p :: p in r <==> p == x || p in s
  {
    if s == [] then [x]
    else if x < s[0] then [x] + s
    else if x == s[0] then s
    else
      var rest := InsertUnique(x, s[1..]);
      assert forall p :: p in s <==> p == s[0] || p in s[1..];
      assert forall k :: 0 <= k < |rest| ==> s[0] < rest[k] by {
        forall k | 0 <= k < |rest| ensures s[0] < rest[k] {
          assert rest[k] in rest;
          if rest[k] != x {
            assert rest[k] in s[1..];
            var m :| 0 <= m < |s[1..]| && s[1..][m] == rest[k];
            assert s[m + 1] == rest[k];
          }
        }
      }
      [s[0]] + rest
  }

  /** `sorted(set(P))`. */
  function SortedUnique(ps: seq<int>): (r: seq<int>)
    ensures StrictlyIncreasing(r)
    ensures forall p :: p in r <==> p in ps
  {
    if ps == [] then []
    else
      var init := ps[..|ps| - 1];
      assert forall p :: p in ps <==> p == ps[|ps| - 1] || p in init by {
        assert ps == init + [ps[|ps| - 1]];
      }
      InsertUnique(ps[|ps| - 1], SortedUnique(init))
  }

  /** What `_get_pages` returns for a selection. */
  function Pages(pages: string, pageCount: nat): Result<seq<int>, HandlerError> {
    match PageRanges(pages, pageCount)
    case Failure(e) => Failure(e)
    case Success(ranges) => Success(SortedUnique(Expand(ranges)))
  }

  lemma CollectStep<T, E>(tokens: seq<string>, i: nat, parse: string -> Result<T, E>)
    requires i < |tokens|
    ensures Collect(tokens[..i + 1], parse)
            == match Collect(tokens[..i], parse)
               case Failure(e) => Failure(e)
               case Success(values) =>
                 match parse(tokens[i])
                 case Failure(e) => Failure(e)
                 case Success(v) => Success(values + [v])
  {
    assert tokens[..i + 1][..i] == tokens[..i];
  }

  /** The first token with an error decides the outcome of the whole selection. */
  lemma {:induction false} CollectFailureExtends<T, E>(tokens: seq<string>, i: nat, parse: string -> Result<T, E>)
    requires i <= |tokens| && Collect(tokens[..i], parse).Failure?
    ensures Collect(tokens, parse) == Collect(tokens[..i], parse)
    decreases |tokens| - i
  {
    if i < |tokens| {
      CollectStep(tokens, i, parse);
      CollectFailureExtends(tokens, i + 1, parse);
    } else {
      assert tokens[..i] == tokens;
    }
  }

  lemma ExpandStep(ranges: seq<PageRange>, i: nat)
    requires i < |ranges|
    ensures Expand(ranges[..i + 1]) == Expand(ranges[..i]) + Interval(ranges[i].0, ranges[i].1)
  {
    assert ranges[..i + 1][..i] == ranges[..i];
  }

  /** `_get_pages`: the selection's ranges collected token by token, their pages gathered range
      by range, then sorted without duplicates. */
  method GetPages(pages: string, pageCount: nat) returns (r: Result<seq<int>, HandlerError>)
    ensures r == Pages(pages, pageCount)
  {
    var pageNumbers: seq<PageRange> := [];
    if pages == "1" {
      pageNumbers := [(1, 1)];
    } else if pages == "all" {
      pageNumbers := [(1, pageCount as int)];
    } else {
      var tokens := Split(pages, ',');
      assert tokens[..0] == [];
      for i := 0 to |tokens|
        invariant TokenRanges(tokens[..i], pageCount) == Success(pageNumbers)
      {
        CollectStep(tokens, i, t => TokenRange(t, pageCount));
        var range := TokenRange(tokens[i], pageCount);
        if range.Failure? {
          CollectFailureExtends(tokens, i + 1, t => TokenRange(t, pageCount));
          return Failure(range.error);
        }
        pageNumbers := pageNumbers + [range.value];
      }
      assert tokens[..|tokens|] == tokens;
    }
    var ps: seq<int> := [];
    assert pageNumbers[..0] == [];
    for i := 0 to |pageNumbers|
      invariant ps == Expand(pageNumbers[..i])
    {
      ExpandStep(pageNumbers, i);
      ps := ps + Interval(pageNumbers[i].0, pageNumbers[i].1);
    }
    assert pageNumbers[..|pageNumbers|] == pageNumbers;
    return Success(SortedUnique(ps));
  }

  // ---------------------------------------------------------------------------------------------
  // What the selection means

  /** A page is gathered exactly when some range holds it; a range whose start is past its end
      holds no page. */
  lemma {:induction false} ExpandMembers(ranges: seq<PageRange>)
    ensures forall p :: p in Expand(ranges) <==> exists k :: 0 <= k < |ranges| && ranges[k].0 <= p <= ranges[k].1
  {
    if ranges != [] {
      var init := ranges[..|ranges| - 1];
      ExpandMembers(init);
      assert forall k :: 0 <= k < |init| ==> init[k] == ranges[k];
    }
  }

  /** The selected pages are strictly increasing, and a page is selected exactly when one of the
      selection's ranges holds it. */
  lemma PagesAreUnionOfRanges(pages: string, pageCount: nat)
    requires Pages(pages, pageCount).Success?
    ensures StrictlyIncreasing(Pages(pages, pageCount).value)
    ensures var ranges := PageRanges(pages, pageCount).value;
            forall p :: p in Pages(pages, pageCount).value <==>
              exists k :: 0 <= k < |ranges| && ranges[k].0 <= p <= ranges[k].1
  {
    ExpandMembers(PageRanges(pages, pageCount).value);
  }

  /** The tokens fail exactly when one of them does, and then with the error of the first that
      does; otherwise there is one result per token, in order. */
  lemma {:induction false} CollectSpec<T, E>(tokens: seq<string>, parse: string -> Result<T, E>)
    ensures Collect(tokens, parse).Failure? <==> exists i :: 0 <= i < |tokens| && parse(tokens[i]).Failure?
    ensures Collect(tokens, parse).Failure? ==>
              exists i :: && 0 <= i < |tokens| && parse(tokens[i]) == Failure(Collect(tokens, parse).error)
                          && forall k :: 0 <= k < i ==> parse(tokens[k]).Success?
    ensures Collect(tokens, parse).Success? ==>
              && |Collect(tokens, parse).value| == |tokens|
              && forall i :: 0 <= i < |tokens| ==> parse(tokens[i]) == Success(Collect(tokens, parse).value[i])
  {
    if tokens != [] {
      var init := tokens[..|tokens| - 1];
      CollectSpec(init, parse);
      assert forall k :: 0 <= k < |init| ==> init[k] == tokens[k];
    }
  }

  /** "1" selects the first page whatever the document holds. */
  lemma PagesOne(pageCount: nat)
    ensures Pages("1", pageCount) == Success([1])
  {
    assert SortedUnique([1]) == InsertUnique(1, SortedUnique([])) by {
      assert [1][..0] == [];
    }
  }

  /** "all" selects every page, in order. */
  lemma PagesAll(pageCount: nat)
    ensures Pages("all", pageCount) == Success(Interval(1, pageCount))
  {
    assert Expand([(1, pageCount as int)]) == Interval(1, pageCount) by {
      assert [(1, pageCount as int)][..0] == [];
    }
    SortedUniqueOfIncreasing(Interval(1, pageCount));
  }

  /** Sorting a strictly increasing list without its duplicates gives the list itself. */
  lemma {:induction false} SortedUniqueOfIncreasing(s: seq<int>)
    requires StrictlyIncreasing(s)
    ensures SortedUnique(s) == s
  {
    if s != [] {
      var init, last := s[..|s| - 1], s[|s| - 1];
      SortedUniqueOfIncreasing(init);
      InsertAtEnd(last, init);
      assert init + [last] == s;
    }
  }

  lemma {:induction false} InsertAtEnd(x: int, s: seq<int>)
    requires StrictlyIncreasing(s) && forall i :: 0 <= i < |s| ==> s[i] < x
    ensures InsertUnique(x, s) == s + [x]
  {
    if s != [] {
      InsertAtEnd(x, s[1..]);
      assert [s[0]] + (s[1..] + [x]) == s + [x];
    }
  }

  // ---------------------------------------------------------------------------------------------
  // The forms of a token

  /** Two numbers with "-" between them select the range they bound. */
  lemma RangeToken(a: nat, b: nat, pageCount: nat)
    ensures TokenRange(NatToString(a) + "-" + NatToString(b), pageCount) == Success((a, b))
  {
    var sa, sb := NatToString(a), NatToString(b);
    DashSplit(sa, sb);
    ParseIntOfString(a);
    ParseIntOfString(b);
    assert sb != "end" by {
      assert IsDigit(sb[0]);
    }
  }

  /** A number followed by "-end" selects the pages from that number to the last page. */
  lemma RangeToEndToken(a: nat, pageCount: nat)
    ensures TokenRange(NatToString(a) + "-end", pageCount) == Success((a, pageCount as int))
  {
    var sa, e := NatToString(a), "end";
    var token := sa + "-end";
    assert token == sa + "-" + e;
    DashSplit(sa, e);
    assert TokenRange(token, pageCount) == RangeOf(sa, e, pageCount);
    ParseIntOfString(a);
    assert ParseInt(sa) == Some(a as int);
  }

  /** A non-negative number alone selects that page. */
  lemma SinglePageToken(n: nat, pageCount: nat)
    ensures TokenRange(NatToString(n), pageCount) == Success((n, n))
  {
    ParseIntOfString(n);
  }

  /** A negative page number is read as a range with an empty start, which `int` rejects. */
  lemma NegativePageToken(n: int, pageCount: nat)
    requires n < 0
    ensures TokenRange(IntToString(n), pageCount) == Failure(NotAnInteger(""))
  {
    DashSplit("", NatToString(-n));
    assert IntToString(n) == "" + "-" + NatToString(-n);
    assert StripWith("", IsIntSpace) == "";
  }

  /** A selection of one token that is neither "1" nor "all" fails exactly as that token does. */
  lemma SingleTokenSelection(token: string, pageCount: nat)
    requires ',' !in token && token != "1" && token != "all"
    requires TokenRange(token, pageCount).Failure?
    ensures Pages(token, pageCount) == Failure(TokenRange(token, pageCount).error)
  {
    assert Join([token], [',']) == token;
    SplitJoin([token], ',');
    var parse := t => TokenRange(t, pageCount);
    assert PageRanges(token, pageCount) == Collect([token], parse);
    assert [token][..0] == [];
    assert Collect([token][..0], parse) == Success([]);
    assert parse(token) == TokenRange(token, pageCount);
  }

  /** A page number after one of the separators U+001C to U+001F is rejected by `int`, although
      `str.strip` would remove the separator; so is a selection made of that token alone. */
  lemma SeparatorPaddedToken(n: nat, pageCount: nat)
    ensures var token := "\U{1C}" + NatToString(n);
            && TokenRange(token, pageCount) == Failure(NotAnInteger(token))
            && Pages(token, pageCount) == Failure(NotAnInteger(token))
  {
    var digits := NatToString(n);
    var token := "\U{1C}" + digits;
    assert token[0] == '\U{1C}' && token[1..] == digits;
    assert '-' !in token && ',' !in token by {
      assert forall i :: 1 <= i < |token| ==> token[i] == digits[i - 1];
    }
    assert token[|token| - 1] == digits[|digits| - 1];
    StripKeepsTrimmed(token, IsIntSpace);
    assert ParseInt(token) == None;
    SingleTokenSelection(token, pageCount);
  }

  /** A token of three or more parts joined by "-" cannot be unpacked into a start and an end. */
  lemma ManyDashToken(parts: seq<string>, pageCount: nat)
    requires |parts| >= 3 && forall i :: 0 <= i < |parts| ==> '-' !in parts[i]
    ensures TokenRange(Join(parts, "-"), pageCount) == Failure(TooManyValues(Join(parts, "-")))
  {
    SplitJoin(parts, '-');
    assert Join(parts, "-") == parts[0] + "-" + Join(parts[1..], "-");
    assert Join(parts, "-")[|parts[0]|] == '-';
  }

  /** A text with one "-" splits into the parts around it. */
  lemma DashSplit(a: string, b: string)
    requires '-' !in a && '-' !in b
    ensures Split(a + "-" + b, '-') == [a, b]
    ensures '-' in a + "-" + b
  {
    SplitJoin([a, b], '-');
    assert [a, b][1..] == [b];
    assert (a + "-" + b)[|a|] == '-';
  }

  // ---------------------------------------------------------------------------------------------
  // The constructor

  /** `PDFHandler.__init__`: the extension check, the password defaulting to "", then the
      selected pages. */
  method NewPdfHandler(filepath: string, pages: string, password: Option<string>, pageCount: nat)
    returns (r: Result<PdfHandler, HandlerError>)
    ensures !IsPdfPath(filepath) ==> r == Failure(FormatNotSupported)
    ensures IsPdfPath(filepath) ==>
              match Pages(pages, pageCount)
              case Failure(e) => r == Failure(e)
              case Success(ps) =>
                && r.Success? && r.value.filepath == filepath && r.value.pages == ps
                && r.value.password == (if password.Some? then password.value else "")
  {
    if !IsPdfPath(filepath) {
      return Failure(FormatNotSupported);
    }
    var pass := if password.None? then "" else password.value;
    var selected := GetPages(pages, pageCount);
    if selected.Failure? {
      return Failure(selected.error);
    }
    return Success(PdfHandler(filepath, pass, selected.value));
  }

  // ---------------------------------------------------------------------------------------------
  // Saving a page

  /** The name of the single-page file of page n. */
  function PageFileName(n: int): string {
    "page-" + IntToString(n) + ".pdf"
  }

  /** The name of the rotated copy of page n. */
  function RotatedFileName(n: int): string {
    "page-" + IntToString(n) + "-rotated.pdf"
  }

  /** The rotation the copy is inserted with: 90 for "anticlockwise", -90 for "clockwise", and no
      page at all for any other rotation. */
  function RotationAngle(rotation: string): Option<int> {
    if rotation == "anticlockwise" then Some(90)
    else if rotation == "clockwise" then Some(-90)
    else None
  }

  /** A rotated copy: its file name and the angle its page is inserted with, `None` where the copy
      is saved with no page. */
  datatype RotatedCopy = RotatedCopy(name: string, angle: Option<int>)

  /** The files `_save_page` writes for one page. */
  datatype SavePlan = SavePlan(pageName: string, rotated: Option<RotatedCopy>)

  /** `_save_page`, the file names and the angle: the page file always, and a rotated copy exactly
      when the detected rotation is not empty. */
  function SavePagePlan(n: int, rotation: string): (r: SavePlan)
    ensures r.pageName == PageFileName(n)
    ensures r.rotated.Some? <==> rotation != ""
    ensures r.rotated.Some? ==> r.rotated.value == RotatedCopy(RotatedFileName(n), RotationAngle(rotation))
  {
    SavePlan(PageFileName(n), if rotation == "" then None else Some(RotatedCopy(RotatedFileName(n), RotationAngle(rotation))))
  }

  /** Different pages are saved under different names, and no page file has the name of a rotated
      copy, so the files of the selected pages never overwrite each other. */
  lemma FileNamesDistinct(m: int, n: int)
    ensures PageFileName(m) == PageFileName(n) ==> m == n
    ensures RotatedFileName(m) == RotatedFileName(n) ==> m == n
    ensures PageFileName(m) != RotatedFileName(n)
  {
    var s, t := IntToString(m), IntToString(n);
    if PageFileName(m) == PageFileName(n) {
      assert PageFileName(m)[5..5 + |s|] == s;
      assert PageFileName(n)[5..5 + |t|] == t;
      IntToStringInjective(m, n);
    }
    if RotatedFileName(m) == RotatedFileName(n) {
      assert RotatedFileName(m)[5..5 + |s|] == s;
      assert RotatedFileName(n)[5..5 + |t|] == t;
      IntToStringInjective(m, n);
    }
    IntStringEndsInDigit(m);
    var x, y := PageFileName(m), RotatedFileName(n);
    if |x| == |y| {
      assert x[4 + |s|] == s[|s| - 1];
      assert y[4 + |s|] == 'd';
    }
  }

  lemma IntStringEndsInDigit(n: int)
    ensures IntToString(n) != [] && IsDigit(IntToString(n)[|IntToString(n)| - 1])
  {
    if n < 0 {
      var d := NatToString(-n);
      assert IntToString(n)[|IntToString(n)| - 1] == d[|d| - 1];
    }
  }
}
