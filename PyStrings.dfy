/**
 * The string behaviour of Python's `str`, `re.sub` and `int` that the table-detection code relies on:
 * whitespace, stripping, splitting and joining, replacing, collapsing runs of whitespace, and the
 * decimal and hexadecimal renderings of integers.
 */
module PyStrings {
  import opened Wrappers

  /** Python's `str.isspace`, which is also what `\s` in a `str` pattern and `str.strip()` use. */
  predicate IsSpace(c: char) {
    || c == ' ' || c == '\t' || c == '\n' || c == '\r' || c == '\U{B}' || c == '\U{C}'
    || ('\U{1C}' <= c <= '\U{1F}') || c == '\U{85}' || c == '\U{A0}' || c == '\U{1680}'
    || ('\U{2000}' <= c <= '\U{200A}') || c == '\U{2028}' || c == '\U{2029}'
    || c == '\U{202F}' || c == '\U{205F}' || c == '\U{3000}'
  }

  // ---------------------------------------------------------------------------------------------
  // Stripping

  /** `s` without its leading characters that satisfy `drop`. */
  function StripLeft(s: string, drop: char -> bool): (r: string)
    ensures |r| <= |s| && r == s[|s| - |r|..]
    ensures forall i :: 0 <= i < |s| - |r| ==> drop(s[i])
    ensures r != [] ==> !drop(r[0])
    decreases |s|
  {
    if s != [] && drop(s[0]) then StripLeft(s[1..], drop) else s
  }

  /** `s` without its trailing characters that satisfy `drop`. */
  function StripRight(s: string, drop: char -> bool): (r: string)
    ensures |r| <= |s| && r == s[..|r|]
    ensures forall i :: |r| <= i < |s| ==> drop(s[i])
    ensures r != [] ==> !drop(r[|r| - 1])
    decreases |s|
  {
    if s != [] && drop(s[|s| - 1]) then StripRight(s[..|s| - 1], drop) else s
  }

  /** `r` is the slice of `s` at offset `i`, everything before and after it dropped. */
  ghost predicate TrimmedAt(s: string, r: string, i: int, drop: char -> bool) {
    && 0 <= i <= |s| - |r| && r == s[i..i + |r|]
    && (forall k :: 0 <= k < i ==> drop(s[k]))
    && (forall k :: i + |r| <= k < |s| ==> drop(s[k]))
  }

  /** A dropped prefix taken off `s`, then a dropped suffix taken off what is left, leaves a
      slice of `s` whose surroundings are all dropped. */
  lemma TrimmedOfParts(s: string, left: string, r: string, drop: char -> bool)
    requires |left| <= |s| && left == s[|s| - |left|..]
    requires forall k :: 0 <= k < |s| - |left| ==> drop(s[k])
    requires |r| <= |left| && r == left[..|r|]
    requires forall k :: |r| <= k < |left| ==> drop(left[k])
    requires left != [] ==> !drop(left[0])
    ensures TrimmedAt(s, r, |s| - |left|, drop)
    ensures r != [] ==> !drop(r[0])
  {
    var i := |s| - |left|;
    assert r == s[i..i + |r|];
    forall k | i + |r| <= k < |s| ensures drop(s[k]) {
      assert s[k] == left[k - i];
    }
  }

  /** Python's `s.strip(chars)`, the characters given by `drop`: the middle of `s` between a
      dropped prefix and a dropped suffix, beginning and ending with a kept character. */
  function StripWith(s: string, drop: char -> bool): (r: string)
    ensures r != [] ==> !drop(r[0]) && !drop(r[|r| - 1])
    ensures exists i :: TrimmedAt(s, r, i, drop)
  {
    var left := StripLeft(s, drop);
    var r := StripRight(left, drop);
    TrimmedOfParts(s, left, r, drop);
    r
  }

  /** Python's `s.strip()`. */
  function Strip(s: string): string {
    StripWith(s, IsSpace)
  }

  /** Python's `s.strip(". ")`. */
  function StripDotsAndSpaces(s: string): string {
    StripWith(s, c => c == '.' || c == ' ')
  }

  lemma StripKeepsTrimmed(s: string, drop: char -> bool)
    requires s != [] ==> !drop(s[0]) && !drop(s[|s| - 1])
    ensures StripWith(s, drop) == s
  {
  }

  // ---------------------------------------------------------------------------------------------
  // Prefixes, suffixes, containment

  predicate StartsWith(s: string, prefix: string) {
    |prefix| <= |s| && s[..|prefix|] == prefix
  }

  predicate EndsWith(s: string, suffix: string) {
    |suffix| <= |s| && s[|s| - |suffix|..] == suffix
  }

  /** Python's `pat in s`. */
  predicate Contains(s: string, pat: string)
    decreases |s|
  {
    StartsWith(s, pat) || (s != [] && Contains(s[1..], pat))
  }

  /** A text cannot contain a pattern one of whose characters it lacks. */
  lemma {:induction false} NotContainsWithoutChar(s: string, pat: string, k: nat)
    requires k < |pat| && pat[k] !in s
    ensures !Contains(s, pat)
    decreases |s|
  {
    if |pat| <= |s| {
      assert s[..|pat|][k] == s[k] && s[k] in s;
    }
    if s != [] {
      NotContainsWithoutChar(s[1..], pat, k);
    }
  }

  // ---------------------------------------------------------------------------------------------
  // Splitting and joining

  /** Python's `s.split(sep)` for a one-character separator: the pieces between separators,
      empty ones included, so there is always at least one piece. */
  function Split(s: string, sep: char): (parts: seq<string>)
    ensures |parts| >= 1
    ensures forall i :: 0 <= i < |parts| ==> sep !in parts[i]
    decreases |s|
  {
    if s == [] then [""]
    else
      var rest := Split(s[1..], sep);
      if s[0] == sep then [""] + rest else [[s[0]] + rest[0]] + rest[1..]
  }

  /** Python's `sep.join(parts)`. */
  function Join(parts: seq<string>, sep: string): string {
    if parts == [] then ""
    else if |parts| == 1 then parts[0]
    else parts[0] + sep + Join(parts[1..], sep)
  }

  lemma JoinConsHead(c: char, parts: seq<string>, sep: string)
    requires |parts| >= 1
    ensures Join([[c] + parts[0]] + parts[1..], sep) == [c] + Join(parts, sep)
  {
    var q := [[c] + parts[0]] + parts[1..];
    if |parts| > 1 {
      assert q[1..] == parts[1..];
    }
  }

  /** Splitting a join of separator-free pieces gives back the pieces. */
  lemma {:induction false} SplitJoin(parts: seq<string>, sep: char)
    requires |parts| >= 1
    requires forall i :: 0 <= i < |parts| ==> sep !in parts[i]
    ensures Split(Join(parts, [sep]), sep) == parts
    decreases |parts|, |parts[0]|
  {
    if parts[0] == [] {
      if |parts| > 1 {
        SplitJoin(parts[1..], sep);
        var j := Join(parts[1..], [sep]);
        assert Join(parts, [sep]) == [sep] + j;
        assert ([sep] + j)[1..] == j;
        assert parts == [""] + parts[1..];
      }
    } else {
      var c, t := parts[0][0], parts[0][1..];
      var q := [t] + parts[1..];
      assert q[0] == t && q[1..] == parts[1..] && [c] + t == parts[0];
      SplitJoin(q, sep);
      JoinConsHead(c, q, [sep]);
      assert [[c] + q[0]] + q[1..] == parts;
      var j := Join(q, [sep]);
      assert ([c] + j)[1..] == j;
    }
  }

  // ---------------------------------------------------------------------------------------------
  // Replacing

  /** Python's `s.replace(pat, repl)`: every non-overlapping occurrence, scanning left to right. */
  function Replace(s: string, pat: string, repl: string): (r: string)
    requires pat != []
    ensures !Contains(s, pat) ==> r == s
    decreases |s|
  {
    if |s| < |pat| then s
    else if StartsWith(s, pat) then repl + Replace(s[|pat|..], pat, repl)
    else [s[0]] + Replace(s[1..], pat, repl)
  }

  // ---------------------------------------------------------------------------------------------
  // Collapsing whitespace: re.sub("\s\s+", " ", s)

  /** No two adjacent whitespace characters. */
  predicate NoDoubleSpace(s: string) {
    forall i :: 0 <= i < |s| - 1 ==> !(IsSpace(s[i]) && IsSpace(s[i + 1]))
  }

  /** The length of the run of whitespace that `s` starts with. */
  function SpaceRun(s: string): (n: nat)
    ensures n <= |s|
    ensures forall i :: 0 <= i < n ==> IsSpace(s[i])
    ensures n < |s| ==> !IsSpace(s[n])
  {
    if s != [] && IsSpace(s[0]) then 1 + SpaceRun(s[1..]) else 0
  }

  lemma ConsNoDoubleSpace(c: char, t: string)
    requires NoDoubleSpace(t)
    requires t != [] && IsSpace(c) ==> !IsSpace(t[0])
    ensures NoDoubleSpace([c] + t)
  {
    var u := [c] + t;
    forall i | 0 <= i < |u| - 1 ensures !(IsSpace(u[i]) && IsSpace(u[i + 1])) {
      if i > 0 {
        assert u[i] == t[i - 1] && u[i + 1] == t[i];
      }
    }
  }

  /** `re.sub("\s\s+", " ", s)`: each run of two or more whitespace characters becomes one
      space; a lone whitespace character is kept as it is. The result has no two adjacent
      whitespace characters, and begins and ends with whitespace exactly when `s` does. */
  function CollapseSpaces(s: string): (r: string)
    ensures |r| <= |s|
    ensures r == [] <==> s == []
    ensures r != [] ==> (IsSpace(r[0]) <==> IsSpace(s[0]))
    ensures r != [] ==> (IsSpace(r[|r| - 1]) <==> IsSpace(s[|s| - 1]))
    ensures NoDoubleSpace(r)
    decreases |s|
  {
    if s == [] then []
    else
      var n := SpaceRun(s);
      if n >= 2 then
        var t := CollapseSpaces(s[n..]);
        ConsNoDoubleSpace(' ', t);
        " " + t
      else
        var t := CollapseSpaces(s[1..]);
        ConsNoDoubleSpace(s[0], t);
        [s[0]] + t
  }

  /** Text without adjacent whitespace is left alone by the collapse. */
  lemma {:induction false} CollapseKeepsNormalText(s: string)
    requires NoDoubleSpace(s)
    ensures CollapseSpaces(s) == s
    decreases |s|
  {
    if s != [] {
      assert SpaceRun(s) <= 1 by {
        if |s| >= 2 && IsSpace(s[0]) {
          assert !IsSpace(s[1]);
        }
      }
      assert NoDoubleSpace(s[1..]) by {
        forall i | 0 <= i < |s[1..]| - 1 ensures !(IsSpace(s[1..][i]) && IsSpace(s[1..][i + 1])) {
          assert s[1..][i] == s[i + 1] && s[1..][i + 1] == s[i + 2];
        }
      }
      CollapseKeepsNormalText(s[1..]);
    }
  }

  /** The collapse brings in no character other than a space. */
  lemma {:induction false} CollapseAddsNoChar(s: string, c: char)
    requires c !in s && c != ' '
    ensures c !in CollapseSpaces(s)
    decreases |s|
  {
    if s != [] {
      var n := SpaceRun(s);
      if n >= 2 {
        assert forall k :: 0 <= k < |s[n..]| ==> s[n..][k] == s[n + k];
        CollapseAddsNoChar(s[n..], c);
      } else {
        assert forall k :: 0 <= k < |s[1..]| ==> s[1..][k] == s[1 + k];
        CollapseAddsNoChar(s[1..], c);
      }
    }
  }

  /** Stripping brings in no character. */
  lemma StripAddsNoChar(s: string, drop: char -> bool, c: char)
    requires c !in s
    ensures c !in StripWith(s, drop)
  {
    var r := StripWith(s, drop);
    var i :| TrimmedAt(s, r, i, drop);
    assert r == s[i..i + |r|];
  }

  /** Collapsing twice is the same as collapsing once. */
  lemma CollapseIdempotent(s: string)
    ensures CollapseSpaces(CollapseSpaces(s)) == CollapseSpaces(s)
  {
    CollapseKeepsNormalText(CollapseSpaces(s));
  }

  // ---------------------------------------------------------------------------------------------
  // Lines and case

  /** `s.split("\n", 1)[0]`: the text before the first newline. */
  function FirstLine(s: string): (r: string)
    ensures r <= s && '\n' !in r
    ensures |r| < |s| ==> s[|r|] == '\n'
  {
    if s == [] || s[0] == '\n' then [] else [s[0]] + FirstLine(s[1..])
  }

  function LowerChar(c: char): char {
    if 'A' <= c <= 'Z' then (c as int + 32) as char else c
  }

  /** Python's `s.lower()` on ASCII letters. */
  function Lower(s: string): (r: string)
    ensures |r| == |s|
  {
    seq(|s|, i requires 0 <= i < |s| => LowerChar(s[i]))
  }

  // ---------------------------------------------------------------------------------------------
  // Integers as text

  predicate IsDigit(c: char) {
    '0' <= c <= '9'
  }

  function DigitChar(d: nat): (c: char)
    requires d < 10
    ensures IsDigit(c)
  {
    ('0' as int + d) as char
  }

  /** Python's `str(n)` for n >= 0: decimal digits, no leading zero. */
  function NatToString(n: nat): (r: string)
    ensures r != []
    ensures forall i :: 0 <= i < |r| ==> IsDigit(r[i])
  {
    if n < 10 then [DigitChar(n)] else NatToString(n / 10) + [DigitChar(n % 10)]
  }

  /** Python's `str(n)`. */
  function IntToString(n: int): string {
    if n < 0 then "-" + NatToString(-n) else NatToString(n)
  }

  /** Digits with single underscores between them, as Python's `int()` accepts them. */
  predicate IsNumeral(s: string) {
    && s != [] && IsDigit(s[0]) && IsDigit(s[|s| - 1])
    && (forall i :: 0 <= i < |s| ==> IsDigit(s[i]) || s[i] == '_')
    && !Contains(s, "__")
  }

  /** The value of a string of digits and underscores, the underscores skipped. */
  function NumeralValue(s: string): nat
    requires forall i :: 0 <= i < |s| ==> IsDigit(s[i]) || s[i] == '_'
  {
    if s == [] then 0
    else
      var last := s[|s| - 1];
      var init := NumeralValue(s[..|s| - 1]);
      if last == '_' then init
      else
        assert IsDigit(last);
        init * 10 + (last as int - '0' as int)
  }

  /** The characters `int()` skips around a numeral: the `str.isspace` set without the four ASCII
      separators U+001C to U+001F, which `int()` does not skip and so rejects. */
  predicate IsIntSpace(c: char) {
    IsSpace(c) && !('\U{1C}' <= c <= '\U{1F}')
  }

  /** Python's `int(s)` on a `str`: surrounding whitespace, an optional sign, then a numeral;
      `None` where the text does not have that form, for which Python raises ValueError. The limit
      CPython puts on the number of digits it converts is not part of this model. */
  function ParseInt(s: string): Option<int> {
    ParseSigned(StripWith(s, IsIntSpace))
  }

  /** An optional sign, then a numeral. */
  function ParseSigned(t: string): Option<int> {
    if t != [] && (t[0] == '+' || t[0] == '-') then
      var body := t[1..];
      if IsNumeral(body) then
        Some(if t[0] == '-' then -(NumeralValue(body) as int) else NumeralValue(body) as int)
      else None
    else if IsNumeral(t) then Some(NumeralValue(t) as int)
    else None
  }

  lemma {:induction false} NumeralValueOfNat(n: nat)
    ensures NumeralValue(NatToString(n)) == n
  {
    var s := NatToString(n);
    if n >= 10 {
      NumeralValueOfNat(n / 10);
      assert s[..|s| - 1] == NatToString(n / 10);
    }
  }

  lemma NatNumeral(n: nat)
    ensures IsNumeral(NatToString(n)) && NumeralValue(NatToString(n)) == n
  {
    NumeralValueOfNat(n);
    var s := NatToString(n);
    NotContainsWithoutChar(s, "__", 0);
  }

  lemma StripOfIntString(n: int)
    ensures StripWith(IntToString(n), IsIntSpace) == IntToString(n)
  {
    var digits := NatToString(if n < 0 then -n else n);
    var s := IntToString(n);
    assert s[|s| - 1] == digits[|digits| - 1];
    StripKeepsTrimmed(s, IsIntSpace);
  }

  /** A minus sign before a numeral parses to the negated numeral. */
  lemma ParseSignedNegated(d: string)
    requires IsNumeral(d)
    ensures ParseSigned("-" + d) == Some(-(NumeralValue(d) as int))
  {
    TailOfCons('-', d);
  }

  lemma TailOfCons(c: char, s: string)
    ensures ([c] + s)[1..] == s
  {
  }

  /** The sign-and-numeral step recovers n from `str(n)`. */
  lemma ParseSignedOfIntString(n: int)
    ensures ParseSigned(IntToString(n)) == Some(n)
  {
    var digits := NatToString(if n < 0 then -n else n);
    NatNumeral(if n < 0 then -n else n);
    if n < 0 {
      assert IntToString(n) == "-" + digits;
      ParseSignedNegated(digits);
    } else {
      assert IntToString(n) == digits && digits[0] != '+' && digits[0] != '-';
    }
  }

  /** `int(str(n)) == n`. */
  lemma ParseIntOfString(n: int)
    ensures ParseInt(IntToString(n)) == Some(n)
  {
    StripOfIntString(n);
    ParseSignedOfIntString(n);
  }

  /** `str` is injective on integers. */
  lemma IntToStringInjective(m: int, n: int)
    requires IntToString(m) == IntToString(n)
    ensures m == n
  {
    ParseIntOfString(m);
    ParseIntOfString(n);
  }

  function HexDigit(d: nat): (c: char)
    requires d < 16
  {
    if d < 10 then DigitChar(d) else ('a' as int + d - 10) as char
  }

  /** The lower-case hexadecimal digits of n, no leading zero. */
  function NatToHex(n: nat): (r: string)
    ensures r != [] && 'x' !in r
  {
    if n < 16 then [HexDigit(n)] else NatToHex(n / 16) + [HexDigit(n % 16)]
  }

  /** Python's `hex(n)`. */
  function HexLiteral(n: int): string {
    if n < 0 then "-0x" + NatToHex(-n) else "0x" + NatToHex(n)
  }

  /** `hex(n).replace("0x", "")` drops exactly the prefix, leaving the sign and the digits. */
  lemma HexWithoutPrefix(n: int)
    ensures Replace(HexLiteral(n), "0x", "") == (if n < 0 then "-" else "") + NatToHex(if n < 0 then -n else n)
  {
    var d := NatToHex(if n < 0 then -n else n);
    NotContainsWithoutChar(d, "0x", 1);
    var h := "0x" + d;
    assert StartsWith(h, "0x");
    assert h[2..] == d;
    if n < 0 {
      var s := "-" + h;
      assert s == HexLiteral(n);
      assert !StartsWith(s, "0x");
      assert s[1..] == h;
    }
  }
}
