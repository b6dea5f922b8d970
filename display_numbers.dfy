/**
 * Number inspection: C-style integer literals in decimal, hexadecimal, octal
 * and binary, rendering in a base, digit grouping, flipping one bit and
 * swapping the byte order inside 16, 32 or 64-bit words.
 */
module DisplayNumbers {
  import opened Wrappers
  import opened Strings
  import Json
  import Search
  import opened Seqs
  import opened Regions

  // ---------------------------------------------------------------------
  // Digit grouping

  /** s[-n:]: the last n characters; all of s when n is 0 (since -0 == 0) or at least |s|. */
  function TakeLast(s: string, n: nat): string
  {
    if n == 0 || n >= |s| then s else s[|s| - n..]
  }

  /** s[:-n]: all but the last n characters; nothing when n is 0 or at least |s|. */
  function DropLast(s: string, n: nat): string
  {
    if n == 0 || n >= |s| then [] else s[..|s| - n]
  }

  /** The groups format_str separates: cut from the right in pieces of n. */
  function Groups(s: string, n: nat): seq<string>
    decreases |s|
  {
    if s == [] then [] else Groups(DropLast(s, n), n) + [TakeLast(s, n)]
  }

  /** Grouping cuts the string into pieces that read back as the string; every
   *  piece but the leftmost has exactly n characters and none is empty. */
  lemma {:induction false} GroupsShape(s: string, n: nat)
    requires n > 0
    ensures Concat(Groups(s, n)) == s
    ensures forall i :: 0 < i < |Groups(s, n)| ==> |Groups(s, n)[i]| == n
    ensures forall i :: 0 <= i < |Groups(s, n)| ==> 1 <= |Groups(s, n)[i]| <= n
    decreases |s|
  {
    if s != [] {
      var d, t := DropLast(s, n), TakeLast(s, n);
      GroupsShape(d, n);
      ConcatAppend(Groups(d, n), [t]);
      assert Concat([t]) == t;
      assert d + t == s;
      assert d != [] ==> |t| == n;
      assert d == [] ==> Groups(d, n) == [];
    }
  }

  /** With a group size of 0 the string is a single group. */
  lemma GroupsZero(s: string)
    requires s != []
    ensures Groups(s, 0) == [s]
  {
    assert DropLast(s, 0) == [];
  }

  /** format_str: the groups joined by the separator. */
  method FormatStr(s: string, n: nat, sep: string) returns (res: string)
    ensures res == Join(Groups(s, n), sep)
  {
    res := TakeLast(s, n);
    var rest := DropLast(s, n);
    ghost var done: seq<string> := if s == [] then [] else [res];
    while |rest| > 0
      invariant n == 0 ==> rest == []
      invariant Groups(s, n) == Groups(rest, n) + done
      invariant res == Join(done, sep)
      invariant s != [] ==> done != []
      decreases |rest|
    {
      var piece := TakeLast(rest, n);
      assert Groups(rest, n) == Groups(DropLast(rest, n), n) + [piece];
      assert ([piece] + done)[1..] == done;
      res := piece + sep + res;
      done := [piece] + done;
      rest := DropLast(rest, n);
    }
    assert Groups(rest, n) == [];
    assert Groups(s, n) == done;
  }

  // ---------------------------------------------------------------------
  // Parsing literals

  datatype Parsed = Parsed(number: nat, base: nat)

  /** An underscore that split_re (\B_\B) matches: word characters on both sides. */
  predicate IsSeparatorAt(t: string, i: int)
  {
    0 < i < |t| - 1 && t[i] == '_' && Search.IsWordChar(t[i - 1]) && Search.IsWordChar(t[i + 1])
  }

  function RemoveSeparatorsFrom(t: string, i: nat): string
    decreases |t| - i
  {
    if i >= |t| then []
    else (if IsSeparatorAt(t, i) then [] else [t[i]]) + RemoveSeparatorsFrom(t, i + 1)
  }

  /** "".join(split_re.split(text)). */
  function RemoveSeparators(t: string): string { RemoveSeparatorsFrom(t, 0) }

  /** A stretch without separators is copied unchanged. */
  lemma {:induction false} RemoveSeparatorsSpan(t: string, i: nat, j: nat)
    requires i <= j <= |t|
    requires forall k :: i <= k < j ==> !IsSeparatorAt(t, k)
    ensures RemoveSeparatorsFrom(t, i) == t[i..j] + RemoveSeparatorsFrom(t, j)
    decreases j - i
  {
    if i < j {
      RemoveSeparatorsSpan(t, i + 1, j);
      assert !IsSeparatorAt(t, i);
      assert RemoveSeparatorsFrom(t, i) == [t[i]] + RemoveSeparatorsFrom(t, i + 1);
      assert t[i..j] == [t[i]] + t[i + 1..j];
    }
  }

  predicate NoUnderscore(t: string) { forall k :: 0 <= k < |t| ==> t[k] != '_' }

  lemma RemoveSeparatorsNone(t: string)
    requires NoUnderscore(t)
    ensures RemoveSeparators(t) == t
  {
    RemoveSeparatorsSpan(t, 0, |t|);
    assert RemoveSeparatorsFrom(t, |t|) == [];
  }

  /** An underscore between two digit groups disappears: 1_000 reads as 1000. */
  lemma RemoveSeparatorBetweenDigits(a: string, b: string)
    requires a != [] && b != [] && AllDigits(a, Dec) && AllDigits(b, Dec)
    ensures RemoveSeparators(a + "_" + b) == a + b
  {
    var t := a + "_" + b;
    var m := |a|;
    assert t[m] == '_' && t[m - 1] == a[m - 1] && t[m + 1] == b[0];
    assert IsSeparatorAt(t, m);
    forall k | 0 <= k < m ensures !IsSeparatorAt(t, k) { assert t[k] == a[k]; }
    forall k | m + 1 <= k < |t| ensures !IsSeparatorAt(t, k) { assert t[k] == b[k - m - 1]; }
    RemoveSeparatorsSpan(t, 0, m);
    RemoveSeparatorsSpan(t, m + 1, |t|);
    assert t[0..m] == a && t[m + 1..|t|] == b;
    assert RemoveSeparatorsFrom(t, |t|) == [];
  }

  datatype Kind = Bin | Oct | Dec | Hex

  function Radix(k: Kind): nat
  {
    match k
    case Bin => 2
    case Oct => 8
    case Dec => 10
    case Hex => 16
  }

  predicate IsDigit(c: char, k: Kind)
  {
    match k
    case Bin => c == '0' || c == '1'
    case Oct => '0' <= c <= '7'
    case Dec => '0' <= c <= '9'
    case Hex => ('0' <= c <= '9') || ('a' <= c <= 'f') || ('A' <= c <= 'F')
  }

  predicate AllDigits(s: string, k: Kind) { forall i :: 0 <= i < |s| ==> IsDigit(s[i], k) }

  /** The value of a hexadecimal digit character, either case. */
  function DigitValue(c: char): nat
  {
    if '0' <= c <= '9' then c as nat - '0' as nat
    else if 'a' <= c <= 'f' then c as nat - 'a' as nat + 10
    else if 'A' <= c <= 'F' then c as nat - 'A' as nat + 10
    else 0
  }

  /** int(ds, base) for a string of digits. */
  function Value(ds: string, base: nat): nat
  {
    if ds == [] then 0 else Value(ds[..|ds| - 1], base) * base + DigitValue(ds[|ds| - 1])
  }

  /** Length of the leading run of digits of a kind. */
  function RunLength(s: string, k: Kind): (n: nat)
    ensures n <= |s| && AllDigits(s[..n], k)
    ensures n < |s| ==> !IsDigit(s[n], k)
  {
    if s == [] || !IsDigit(s[0], k) then 0
    else
      var n := 1 + RunLength(s[1..], k);
      assert s[..n] == [s[0]] + s[1..][..n - 1];
      n
  }

  /** The optional integer suffix, in any case. */
  predicate IsSuffix(s: string)
  {
    Lower(s) in {"", "u", "l", "ul", "lu", "ll", "ull", "llu"}
  }

  /** A suffix is made of the letters u and l, in either case. */
  lemma SuffixChars(s: string)
    requires IsSuffix(s)
    ensures forall i :: 0 <= i < |s| ==> s[i] in {'u', 'U', 'l', 'L'}
  {
    var l := Lower(s);
    assert forall i :: 0 <= i < |l| ==> l[i] == 'u' || l[i] == 'l';
    forall i | 0 <= i < |s| ensures s[i] in {'u', 'U', 'l', 'L'} {
      assert l[i] == LowerChar(s[i]);
    }
  }

  /** A text whose first character is not u or l is no suffix. */
  lemma NotSuffix(s: string)
    requires s != [] && s[0] !in {'u', 'U', 'l', 'L'}
    ensures !IsSuffix(s)
  {
    if IsSuffix(s) {
      SuffixChars(s);
    }
  }

  /** dec_re: "0" or a run of digits without a leading zero, then a suffix. */
  function MatchDec(t: string): Option<nat>
  {
    var n := RunLength(t, Dec);
    if n == 0 || (t[0] == '0' && n > 1) || !IsSuffix(t[n..]) then None
    else Some(Value(t[..n], 10))
  }

  /** hex_re and bin_re: "0", the letter in either case, a non-empty run of digits, then a suffix. */
  function MatchPrefixed(t: string, letter: char, k: Kind): Option<nat>
  {
    if |t| < 2 || t[0] != '0' || LowerChar(t[1]) != letter then None
    else
      var n := RunLength(t[2..], k);
      if n == 0 || !IsSuffix(t[2 + n..]) then None
      else Some(Value(t[2..2 + n], Radix(k)))
  }

  /** oct_re: "0" followed by a non-empty run of octal digits, then a suffix. */
  function MatchOct(t: string): Option<nat>
  {
    if t == [] || t[0] != '0' then None
    else
      var n := RunLength(t[1..], Oct);
      if n == 0 || !IsSuffix(t[1 + n..]) then None
      else Some(Value(t[..1 + n], 8))
  }

  /** `$` also matches just before a final newline. */
  function BeforeFinalNewline(t: string): string
  {
    if t != [] && t[|t| - 1] == '\n' then t[..|t| - 1] else t
  }

  /** parse_number: separators dropped, then decimal, hexadecimal, octal and binary are tried in turn. */
  function ParseNumber(text: string): (r: Option<Parsed>)
    ensures r.Some? ==> r.value.base in {2, 8, 10, 16}
  {
    var t := BeforeFinalNewline(RemoveSeparators(text));
    match MatchDec(t)
    case Some(v) => Some(Parsed(v, 10))
    case None =>
      match MatchPrefixed(t, 'x', Hex)
      case Some(v) => Some(Parsed(v, 16))
      case None =>
        match MatchOct(t)
        case Some(v) => Some(Parsed(v, 8))
        case None =>
          match MatchPrefixed(t, 'b', Bin)
          case Some(v) => Some(Parsed(v, 2))
          case None => None
  }

  // ---------------------------------------------------------------------
  // Rendering

  /** What a digit character is, for every digit value of a kind. */
  lemma DigitCharFacts(d: nat, k: Kind)
    requires d < Radix(k)
    ensures IsDigit(DigitChar(d), k) && DigitValue(DigitChar(d)) == d
    ensures DigitChar(d) != '_' && DigitChar(d) != '\n'
    ensures DigitChar(d) == '0' <==> d == 0
  {
    var digits := "0123456789abcdef";
    assert DigitChar(d) == digits[d];
    if d < 8 {
      assert d == 0 || d == 1 || d == 2 || d == 3 || d == 4 || d == 5 || d == 6 || d == 7;
    } else {
      assert d == 8 || d == 9 || d == 10 || d == 11 || d == 12 || d == 13 || d == 14 || d == 15;
    }
  }

  /** Digits of n in base 2, 8, 10 or 16, lower-case, without leading zeros ("0" for zero). */
  function ToBase(n: nat, k: Kind): (s: string)
    ensures s != [] && AllDigits(s, k) && NoUnderscore(s)
    ensures s[0] == '0' <==> n == 0
    ensures n < Radix(k) ==> |s| == 1
    ensures s[|s| - 1] != '\n'
  {
    var b := Radix(k);
    if n < b then
      DigitCharFacts(n, k);
      [DigitChar(n)]
    else
      var hi := ToBase(n / b, k);
      DigitCharFacts(n % b, k);
      hi + [DigitChar(n % b)]
  }

  /** The digits ToBase writes read back as the number. */
  lemma {:induction false} ToBaseValue(n: nat, k: Kind)
    ensures Value(ToBase(n, k), Radix(k)) == n
    decreases n
  {
    var b := Radix(k);
    var s := ToBase(n, k);
    if n < b {
      DigitCharFacts(n, k);
      assert s[..0] == [];
    } else {
      ToBaseValue(n / b, k);
      DigitCharFacts(n % b, k);
      assert s[..|s| - 1] == ToBase(n / b, k);
    }
  }

  /** convert_number: 0x for 16, 0b for 2, plain for 10 and a leading 0 (octal) for any other base. */
  function ConvertNumber(n: nat, base: int): string
  {
    if base == 10 then ToBase(n, Dec)
    else if base == 16 then "0x" + ToBase(n, Hex)
    else if base == 2 then "0b" + ToBase(n, Bin)
    else "0" + ToBase(n, Oct)
  }

  /** The base a rendering parses back as. */
  function RenderedBase(base: int): nat
  {
    if base in {2, 10, 16} then base as nat else 8
  }

  /** A run of digits followed by something that is not a digit has the run's length. */
  lemma {:induction false} RunLengthConcat(ds: string, rest: string, k: Kind)
    requires AllDigits(ds, k) && (rest == [] || !IsDigit(rest[0], k))
    ensures RunLength(ds + rest, k) == |ds|
    decreases |ds|
  {
    if ds == [] {
      assert ds + rest == rest;
    } else {
      assert (ds + rest)[1..] == ds[1..] + rest;
      RunLengthConcat(ds[1..], rest, k);
    }
  }

  /** A leading zero does not change a value. */
  lemma {:induction false} ValueLeadingZero(ds: string, base: nat)
    ensures Value("0" + ds, base) == Value(ds, base)
    decreases |ds|
  {
    if ds == [] {
      assert ("0" + ds)[..0] == [];
      assert DigitValue('0') == 0;
    } else {
      var t := "0" + ds;
      assert t[..|t| - 1] == "0" + ds[..|ds| - 1];
      ValueLeadingZero(ds[..|ds| - 1], base);
    }
  }

  /** Text without underscores or final newline reaches the grammar unchanged. */
  lemma CleanText(text: string)
    requires NoUnderscore(text) && (text == [] || text[|text| - 1] != '\n')
    ensures BeforeFinalNewline(RemoveSeparators(text)) == text
  {
    RemoveSeparatorsNone(text);
  }

  lemma DecRendering(n: nat, sfx: string)
    requires IsSuffix(sfx)
    ensures MatchDec(ToBase(n, Dec) + sfx) == Some(n)
  {
    SuffixChars(sfx);
    var d := ToBase(n, Dec);
    var text := d + sfx;
    ToBaseValue(n, Dec);
    RunLengthConcat(d, sfx, Dec);
    assert text[0] == d[0];
    assert text[..|d|] == d && text[|d|..] == sfx;
  }

  /** "0" followed by a character that neither continues the digits nor starts a suffix is not decimal. */
  lemma MatchDecZeroThen(t: string)
    requires |t| >= 2 && t[0] == '0' && !IsDigit(t[1], Dec) && t[1] !in {'u', 'U', 'l', 'L'}
    ensures MatchDec(t) == None
  {
    assert t[1..][0] == t[1];
    assert RunLength(t[1..], Dec) == 0;
    assert RunLength(t, Dec) == 1;
    NotSuffix(t[1..]);
  }

  /** "0", the radix letter, digits and a suffix match hex_re or bin_re. */
  lemma MatchPrefixedOf(c: char, d: string, sfx: string, letter: char, k: Kind)
    requires LowerChar(c) == letter && d != [] && AllDigits(d, k) && IsSuffix(sfx)
    requires sfx == [] || !IsDigit(sfx[0], k)
    ensures MatchPrefixed(['0', c] + d + sfx, letter, k) == Some(Value(d, Radix(k)))
  {
    var t := ['0', c] + d + sfx;
    assert t[2..] == d + sfx;
    RunLengthConcat(d, sfx, k);
    assert t[2..2 + |d|] == d && t[2 + |d|..] == sfx;
  }

  lemma HexRendering(n: nat, sfx: string)
    requires IsSuffix(sfx)
    ensures MatchDec("0x" + ToBase(n, Hex) + sfx) == None
    ensures MatchPrefixed("0x" + ToBase(n, Hex) + sfx, 'x', Hex) == Some(n)
  {
    SuffixChars(sfx);
    var d := ToBase(n, Hex);
    ToBaseValue(n, Hex);
    assert "0x" + d + sfx == ['0', 'x'] + d + sfx;
    MatchDecZeroThen("0x" + d + sfx);
    MatchPrefixedOf('x', d, sfx, 'x', Hex);
  }

  lemma BinRendering(n: nat, sfx: string)
    requires IsSuffix(sfx)
    ensures MatchDec("0b" + ToBase(n, Bin) + sfx) == None
    ensures MatchPrefixed("0b" + ToBase(n, Bin) + sfx, 'x', Hex) == None
    ensures MatchOct("0b" + ToBase(n, Bin) + sfx) == None
    ensures MatchPrefixed("0b" + ToBase(n, Bin) + sfx, 'b', Bin) == Some(n)
  {
    SuffixChars(sfx);
    var d := ToBase(n, Bin);
    var text := "0b" + d + sfx;
    ToBaseValue(n, Bin);
    assert text == ['0', 'b'] + d + sfx;
    MatchDecZeroThen(text);
    assert text[1..][0] == 'b';
    assert RunLength(text[1..], Oct) == 0;
    MatchPrefixedOf('b', d, sfx, 'b', Bin);
  }

  lemma OctRenderingNotDec(n: nat, sfx: string)
    requires IsSuffix(sfx)
    ensures MatchDec("0" + ToBase(n, Oct) + sfx) == None
  {
    SuffixChars(sfx);
    var d := ToBase(n, Oct);
    ToBaseValue(n, Oct);
    assert AllDigits("0" + d, Dec);
    RunLengthConcat("0" + d, sfx, Dec);
    assert "0" + d + sfx == ("0" + d) + sfx;
  }

  lemma OctRenderingOct(n: nat, sfx: string)
    requires IsSuffix(sfx)
    ensures MatchOct("0" + ToBase(n, Oct) + sfx) == Some(n)
  {
    SuffixChars(sfx);
    var d := ToBase(n, Oct);
    var text := "0" + d + sfx;
    ToBaseValue(n, Oct);
    ConcatAssoc(['0'], d, sfx);
    ConsTail('0', d + sfx);
    RunLengthConcat(d, sfx, Oct);
    AppendParts("0" + d, sfx);
    ValueLeadingZero(d, 8);
  }

  lemma OctRendering(n: nat, sfx: string)
    requires IsSuffix(sfx)
    ensures MatchDec("0" + ToBase(n, Oct) + sfx) == None
    ensures MatchPrefixed("0" + ToBase(n, Oct) + sfx, 'x', Hex) == None
    ensures MatchOct("0" + ToBase(n, Oct) + sfx) == Some(n)
  {
    OctRenderingNotDec(n, sfx);
    OctRenderingOct(n, sfx);
    var d := ToBase(n, Oct);
    var text := "0" + d + sfx;
    ToBaseValue(n, Oct);
    assert text[1] == d[0];
    assert LowerChar(text[1]) == text[1];
  }

  /**
   * Rendering a number in a base and reading it back, with any integer suffix
   * appended, gives the number and the base it was rendered in (octal for any
   * base other than 2, 10 and 16).
   */
  lemma ParseConvert(n: nat, base: int, sfx: string)
    requires IsSuffix(sfx)
    ensures ParseNumber(ConvertNumber(n, base) + sfx) == Some(Parsed(n, RenderedBase(base)))
  {
    SuffixChars(sfx);
    var text := ConvertNumber(n, base) + sfx;
    assert NoUnderscore(text);
    CleanText(text);
    if base == 10 {
      DecRendering(n, sfx);
    } else if base == 16 {
      HexRendering(n, sfx);
    } else if base == 2 {
      BinRendering(n, sfx);
    } else {
      OctRendering(n, sfx);
    }
  }

  /** The plain round trip: parse_number(convert_number(n, b)). */
  lemma ParseConvertRoundTrip(n: nat, base: int)
    ensures ParseNumber(ConvertNumber(n, base)) == Some(Parsed(n, RenderedBase(base)))
  {
    ParseConvert(n, base, "");
    assert ConvertNumber(n, base) + "" == ConvertNumber(n, base);
  }

  /** A zero followed by octal digits is octal, never decimal. */
  lemma LeadingZeroIsOctal(ds: string)
    requires ds != [] && AllDigits(ds, Oct)
    ensures ParseNumber("0" + ds) == Some(Parsed(Value(ds, 8), 8))
  {
    var text := "0" + ds;
    assert NoUnderscore(text);
    CleanText(text);
    assert AllDigits(text, Dec);
    RunLengthConcat(text, [], Dec);
    assert text + [] == text;
    assert MatchDec(text) == None;
    assert LowerChar(text[1]) == text[1];
    assert text[1..] == ds;
    RunLengthConcat(ds, [], Oct);
    assert ds + [] == ds;
    assert text[1 + |ds|..] == [];
    assert text[..1 + |ds|] == text;
    ValueLeadingZero(ds, 8);
  }

  /** A zero followed by digits that are not all octal is no literal at all. */
  lemma LeadingZeroNonOctal(ds: string)
    requires ds != [] && AllDigits(ds, Dec) && !AllDigits(ds, Oct)
    ensures ParseNumber("0" + ds) == None
  {
    var text := "0" + ds;
    assert NoUnderscore(text);
    CleanText(text);
    LeadingZeroNotDecimal(ds);
    assert text[1] == ds[0];
    assert MatchPrefixed(text, 'x', Hex) == None;
    assert MatchPrefixed(text, 'b', Bin) == None;
    assert text[1..] == ds;
    NonOctalRun(ds);
  }

  /** "0" followed by more digits is never decimal. */
  lemma LeadingZeroNotDecimal(ds: string)
    requires ds != [] && AllDigits(ds, Dec)
    ensures MatchDec("0" + ds) == None
  {
    var text := "0" + ds;
    assert text[1..] == ds;
    assert RunLength(text, Dec) == 1 + RunLength(ds, Dec);
    assert RunLength(ds, Dec) >= 1;
  }

  lemma NonOctalRun(ds: string)
    requires AllDigits(ds, Dec) && !AllDigits(ds, Oct)
    ensures !IsSuffix(ds[RunLength(ds, Oct)..])
  {
    var m := RunLength(ds, Oct);
    assert m < |ds|;
    assert ds[m] == '8' || ds[m] == '9';
    NotSuffix(ds[m..]);
  }

  /** An underscore anywhere inside a decimal rendering is read past: 1_000 is 1000. */
  lemma SeparatedDecimal(n: nat, i: nat)
    requires 0 < i < |ToBase(n, Dec)|
    ensures ParseNumber(ToBase(n, Dec)[..i] + "_" + ToBase(n, Dec)[i..]) == Some(Parsed(n, 10))
  {
    var d := ToBase(n, Dec);
    var a, b := d[..i], d[i..];
    assert AllDigits(a, Dec) by {
      forall k | 0 <= k < |a| ensures IsDigit(a[k], Dec) { assert a[k] == d[k]; }
    }
    assert AllDigits(b, Dec) by {
      forall k | 0 <= k < |b| ensures IsDigit(b[k], Dec) { assert b[k] == d[i + k]; }
    }
    RemoveSeparatorBetweenDigits(a, b);
    assert a + b == d;
    assert IsDigit(d[|d| - 1], Dec);
    DecRendering(n, "");
    assert d + "" == d;
    ParsesAsDecimal(a + "_" + b, d, n);
  }

  /** A text whose cleaned form is a decimal literal parses as that decimal. */
  lemma ParsesAsDecimal(text: string, d: string, n: nat)
    requires RemoveSeparators(text) == d && d != [] && d[|d| - 1] != '\n' && MatchDec(d) == Some(n)
    ensures ParseNumber(text) == Some(Parsed(n, 10))
  {
    assert BeforeFinalNewline(d) == d;
  }

  // ---------------------------------------------------------------------
  // Bits

  function Pow2(k: nat): (p: nat)
    ensures p >= 1
  {
    if k == 0 then 1 else 2 * Pow2(k - 1)
  }

  lemma {:induction false} Pow2Monotone(a: nat, b: nat)
    requires a <= b
    ensures Pow2(a) <= Pow2(b)
    decreases b
  {
    if a < b {
      Pow2Monotone(a, b - 1);
    }
  }

  lemma {:induction false} Pow2Add(a: nat, b: nat)
    ensures Pow2(a + b) == Pow2(a) * Pow2(b)
    decreases a
  {
    if a > 0 {
      Pow2Add(a - 1, b);
    }
  }

  /** Bit k of n is set. */
  predicate Bit(n: nat, k: nat) { (n / Pow2(k)) % 2 == 1 }

  /** Division with a remainder below the divisor gives back quotient and remainder. */
  lemma DivModUnique(x: int, q: int, r: int, m: int)
    requires m > 0 && 0 <= r < m && x == q * m + r
    ensures x / m == q && x % m == r
  {
    var q', r' := x / m, x % m;
    assert x == q' * m + r';
    assert (q - q') * m == r' - r;
    if q > q' {
      MulAtLeast(q - q', m);
      assert false;
    }
    if q < q' {
      MulAtLeast(q' - q, m);
      assert false;
    }
  }

  lemma {:induction false} MulAtLeast(a: int, m: int)
    requires a >= 1 && m > 0
    ensures a * m >= m
    decreases a
  {
    if a > 1 {
      MulAtLeast(a - 1, m);
      assert a * m == (a - 1) * m + m;
    }
  }

  /** n split around bit k: the bits above, bit k, and the bits below. */
  lemma BitDecompose(n: nat, k: nat)
    ensures n == (n / Pow2(k + 1)) * Pow2(k + 1) + (if Bit(n, k) then Pow2(k) else 0) + n % Pow2(k)
  {
    var p := Pow2(k);
    assert Pow2(k + 1) == 2 * p;
    var q := n / p;
    assert n == q * p + n % p;
    assert q == (q / 2) * 2 + q % 2;
    var h := q / 2;
    calc {
      n;
      == q * p + n % p;
      == (h * 2 + q % 2) * p + n % p;
      == h * (2 * p) + (q % 2) * p + n % p;
    }
    DivModUnique(n, h, (q % 2) * p + n % p, 2 * p);
  }

  /** OdyseusDnChangeBitCommand: n ^ (1 << k) for a non-negative n. */
  function ChangeBit(n: nat, k: nat): nat
  {
    BitDecompose(n, k);
    if Bit(n, k) then n - Pow2(k) else n + Pow2(k)
  }

  /** A number built from the bits above, one bit and the bits below reads back as those parts. */
  lemma Recompose(h: nat, b: nat, l: nat, p: nat)
    requires b <= 1 && l < p
    ensures (h * (2 * p) + b * p + l) / (2 * p) == h
    ensures (h * (2 * p) + b * p + l) % p == l
    ensures ((h * (2 * p) + b * p + l) / p) % 2 == b
  {
    var r := h * (2 * p) + b * p + l;
    assert b * p <= p;
    DivModUnique(r, h, b * p + l, 2 * p);
    assert r == (2 * h + b) * p + l;
    DivModUnique(r, 2 * h + b, l, p);
    DivModUnique(2 * h + b, h, b, 2);
  }

  /** ChangeBit in terms of the bits above and below bit k. */
  lemma ChangeBitParts(n: nat, k: nat)
    ensures ChangeBit(n, k) == (n / (2 * Pow2(k))) * (2 * Pow2(k)) + (if Bit(n, k) then 0 else 1) * Pow2(k) + n % Pow2(k)
    ensures n == (n / (2 * Pow2(k))) * (2 * Pow2(k)) + (if Bit(n, k) then 1 else 0) * Pow2(k) + n % Pow2(k)
  {
    BitDecompose(n, k);
    assert Pow2(k + 1) == 2 * Pow2(k);
  }

  /** Changing a bit touches that bit and no other: the bits above and below are kept. */
  lemma ChangeBitExact(n: nat, k: nat)
    ensures ChangeBit(n, k) / Pow2(k + 1) == n / Pow2(k + 1)
    ensures ChangeBit(n, k) % Pow2(k) == n % Pow2(k)
    ensures Bit(ChangeBit(n, k), k) <==> !Bit(n, k)
  {
    var p := Pow2(k);
    assert Pow2(k + 1) == 2 * p;
    var h, l := n / (2 * p), n % p;
    var b: nat := if Bit(n, k) then 0 else 1;
    ChangeBitParts(n, k);
    ReadParts(ChangeBit(n, k), h, b, l, p);
  }

  /** Recompose, for a number already known to be built from those parts. */
  lemma ReadParts(r: nat, h: nat, b: nat, l: nat, p: nat)
    requires b <= 1 && l < p && r == h * (2 * p) + b * p + l
    ensures r / (2 * p) == h && r % p == l && (r / p) % 2 == b
  {
    Recompose(h, b, l, p);
  }

  /** Changing the same bit twice gives the number back. */
  lemma ChangeBitTwice(n: nat, k: nat)
    ensures ChangeBit(ChangeBit(n, k), k) == n
  {
    ChangeBitExact(n, k);
  }

  /** int.bit_length() for a non-negative number. */
  function BitLength(n: nat): nat
  {
    if n == 0 then 0 else 1 + BitLength(n / 2)
  }

  /** n needs exactly BitLength(n) bits. */
  lemma {:induction false} BitLengthBounds(n: nat)
    ensures n < Pow2(BitLength(n))
    ensures n > 0 ==> Pow2(BitLength(n) - 1) <= n
    decreases n
  {
    if n > 0 {
      BitLengthBounds(n / 2);
    }
  }

  /** k bits are enough for n exactly when n < 2^k. */
  lemma BitLengthAtMost(n: nat, k: nat)
    ensures BitLength(n) <= k <==> n < Pow2(k)
  {
    BitLengthBounds(n);
    if BitLength(n) <= k {
      Pow2Monotone(BitLength(n), k);
    } else if n > 0 {
      Pow2Monotone(k, BitLength(n) - 1);
    }
  }

  /** x rounded up to a multiple of m; for m a power of two this is x + ((-x) & (m - 1)). */
  function AlignUp(x: nat, m: nat): (r: nat)
    requires m > 0
    ensures r % m == 0 && x <= r < x + m
  {
    var nx: int := 0 - x;
    var d := nx % m;
    var q := nx / m;
    assert nx == q * m + d;
    DivModUnique(x + d, -q, 0, m);
    x + d
  }

  /** The value of the bytes_in_word setting in bits: anything but an integer gives 32 (a bool counts as 0 or 1). */
  function BitsInWord(setting: Json.Value): (bits: int)
    ensures setting.Int? ==> bits == 8 * setting.i
    ensures setting.Bool? ==> bits == (if setting.b then 8 else 0)
    ensures !setting.Int? && !setting.Bool? ==> bits == 32
  {
    match setting
    case Int(i) => i * 8
    case Bool(b) => if b then 8 else 0
    case _ => 4 * 8
  }

  /** The popup word size: the configured width, or the number's bit length rounded up to a nibble if wider. */
  function PopupWordSize(n: nat, setting: Json.Value): (bits: nat)
    ensures bits >= BitsInWord(setting) && bits >= BitLength(n)
    ensures n < Pow2(bits)
    ensures bits == BitsInWord(setting) || (bits % 4 == 0 && bits < BitLength(n) + 4)
  {
    var aligned := AlignUp(BitLength(n), 4);
    BitLengthAtMost(n, aligned);
    var configured := BitsInWord(setting);
    if configured >= aligned then
      BitLengthAtMost(n, configured as nat);
      configured as nat
    else aligned
  }

  /** The multiple of m that AlignUp picks is the only one in [x, x + m). */
  lemma AlignUpUnique(x: nat, m: nat, y: nat)
    requires m > 0 && y % m == 0 && x <= y < x + m
    ensures AlignUp(x, m) == y
  {
    var a := AlignUp(x, m);
    assert a == (a / m) * m && y == (y / m) * m;
    var c := a / m - y / m;
    assert a - y == c * m;
    if c >= 1 {
      MulAtLeast(c, m);
      assert false;
    }
    if c <= -1 {
      MulAtLeast(-c, m);
      assert false;
    }
  }

  // ---------------------------------------------------------------------
  // Bytes and the endianness swap

  predicate IsBytes(bs: seq<nat>) { forall i :: 0 <= i < |bs| ==> bs[i] < 256 }

  function Pow256(k: nat): (p: nat)
    ensures p >= 1
  {
    if k == 0 then 1 else 256 * Pow256(k - 1)
  }

  lemma {:induction false} Pow256IsPow2(k: nat)
    ensures Pow256(k) == Pow2(8 * k)
    decreases k
  {
    if k > 0 {
      Pow256IsPow2(k - 1);
      Pow2Add(8, 8 * (k - 1));
      assert Pow2(8) == 256;
      assert 8 * k == 8 + 8 * (k - 1);
    }
  }

  /** int.to_bytes(len, "big") for a number that fits. */
  function ToBytes(n: nat, len: nat): (bs: seq<nat>)
    ensures |bs| == len && IsBytes(bs)
  {
    if len == 0 then [] else ToBytes(n / 256, len - 1) + [n % 256]
  }

  /** int.from_bytes(bs, "big"). */
  function FromBytes(bs: seq<nat>): nat
  {
    if bs == [] then 0 else FromBytes(bs[..|bs| - 1]) * 256 + bs[|bs| - 1]
  }

  lemma {:induction false} FromBytesBound(bs: seq<nat>)
    requires IsBytes(bs)
    ensures FromBytes(bs) < Pow256(|bs|)
    decreases |bs|
  {
    if bs != [] {
      var init := bs[..|bs| - 1];
      FromBytesBound(init);
      var f, p := FromBytes(init), Pow256(|init|);
      assert (p - 1 - f) * 256 >= 0;
    }
  }

  lemma {:induction false} FromToBytes(n: nat, len: nat)
    requires n < Pow256(len)
    ensures FromBytes(ToBytes(n, len)) == n
    decreases len
  {
    if len > 0 {
      var bs := ToBytes(n, len);
      assert bs[..len - 1] == ToBytes(n / 256, len - 1);
      DivModUnique(n, n / 256, n % 256, 256);
      assert n / 256 < Pow256(len - 1);
      FromToBytes(n / 256, len - 1);
    }
  }

  lemma {:induction false} ToFromBytes(bs: seq<nat>)
    requires IsBytes(bs)
    ensures ToBytes(FromBytes(bs), |bs|) == bs
    decreases |bs|
  {
    if bs != [] {
      var init := bs[..|bs| - 1];
      var f := FromBytes(bs);
      DivModUnique(f, FromBytes(init), bs[|bs| - 1], 256);
      ToFromBytes(init);
      assert bs == init + [bs[|bs| - 1]];
    }
  }

  lemma {:induction false} FromBytesSplit(a: seq<nat>, b: seq<nat>)
    ensures FromBytes(a + b) == FromBytes(a) * Pow256(|b|) + FromBytes(b)
    decreases |b|
  {
    if b == [] {
      assert a + b == a;
    } else {
      var binit := b[..|b| - 1];
      assert (a + b)[..|a + b| - 1] == a + binit;
      assert (a + b)[|a + b| - 1] == b[|b| - 1];
      FromBytesSplit(a, binit);
      var fa, p := FromBytes(a), Pow256(|binit|);
      assert (fa * p + FromBytes(binit)) * 256 == fa * (256 * p) + FromBytes(binit) * 256;
    }
  }

  lemma {:induction false} FromBytesZero(bs: seq<nat>)
    ensures FromBytes(bs) == 0 <==> forall i :: 0 <= i < |bs| ==> bs[i] == 0
    decreases |bs|
  {
    if bs != [] {
      var init := bs[..|bs| - 1];
      FromBytesZero(init);
      if FromBytes(init) > 0 {
        assert FromBytes(init) * 256 >= 256;
      }
    }
  }

  lemma MulMonotone(a: nat, b: nat, c: nat)
    requires a <= b
    ensures a * c <= b * c
  {
    assert b * c - a * c == (b - a) * c;
  }

  /** The bytes with each run of w consecutive bytes reversed; a last short run is reversed too. */
  function SwapWords<T>(bs: seq<T>, w: nat): (r: seq<T>)
    requires w > 0
    ensures |r| == |bs|
    decreases |bs|
  {
    if |bs| <= w then Reversed(bs)
    else Reversed(bs[..w]) + SwapWords(bs[w..], w)
  }

  lemma {:induction false} SwapWordsBytes(bs: seq<nat>, w: nat)
    requires w > 0 && IsBytes(bs)
    ensures IsBytes(SwapWords(bs, w))
    decreases |bs|
  {
    if |bs| > w {
      SwapWordsBytes(bs[w..], w);
      var r := SwapWords(bs, w);
      assert r == Reversed(bs[..w]) + SwapWords(bs[w..], w);
      forall i | 0 <= i < |r| ensures r[i] < 256 {
        if i < w {
          assert r[i] == bs[w - 1 - i];
        } else {
          assert r[i] == SwapWords(bs[w..], w)[i - w];
        }
      }
    }
  }

  lemma {:induction false} SwapWordsTwice<T>(bs: seq<T>, w: nat)
    requires w > 0
    ensures SwapWords(SwapWords(bs, w), w) == bs
    decreases |bs|
  {
    if |bs| <= w {
      ReversedReversed(bs);
    } else {
      var s := SwapWords(bs, w);
      assert s[..w] == Reversed(bs[..w]) && s[w..] == SwapWords(bs[w..], w);
      SwapWordsTwice(bs[w..], w);
      ReversedReversed(bs[..w]);
      assert bs == bs[..w] + bs[w..];
    }
  }

  /** p is a whole number of words of w bytes. */
  predicate Aligned(p: nat, w: nat)
    requires w > 0
    decreases p
  {
    p == 0 || (p >= w && Aligned(p - w, w))
  }

  lemma {:induction false} AlignedMul(k: nat, w: nat)
    requires w > 0
    ensures Aligned(k * w, w)
    decreases k
  {
    if k > 0 {
      assert k * w == (k - 1) * w + w;
      AlignedMul(k - 1, w);
    }
  }

  lemma AlignedNext(p: nat, w: nat)
    requires w > 0 && Aligned(p, w)
    ensures Aligned(p + w, w)
  {
    assert p + w - w == p;
  }

  lemma {:induction false} AlignedUnique(a: nat, b: nat, w: nat)
    requires w > 0 && Aligned(a, w) && Aligned(b, w) && a <= b < a + w
    ensures a == b
    decreases a
  {
    if a > 0 {
      AlignedUnique(a - w, b - w, w);
    }
  }

  /** Reversed(s) grows one element at a time from the back of s. */
  lemma ReversedPrefix<T>(s: seq<T>, j: nat)
    requires j < |s|
    ensures Reversed(s)[..j + 1] == Reversed(s)[..j] + [s[|s| - 1 - j]]
  {
    var r := Reversed(s);
    var a, b := r[..j + 1], r[..j] + [s[|s| - 1 - j]];
    forall k | 0 <= k < j + 1 ensures a[k] == b[k] {
      if k < j {
        assert a[k] == r[k] == b[k];
      } else {
        assert a[k] == r[j] == s[|s| - 1 - j];
      }
    }
    assert |a| == |b|;
  }

  /** Appending one more word to the input appends its reversal to the output. */
  lemma {:induction false} SwapWordsSnoc<T>(front: seq<T>, word: seq<T>, w: nat)
    requires w > 0 && Aligned(|front|, w) && |word| == w
    ensures SwapWords(front + word, w) == SwapWords(front, w) + Reversed(word)
    decreases |front|
  {
    if front == [] {
      assert front + word == word;
    } else {
      var whole := front + word;
      assert whole[..w] == front[..w];
      assert whole[w..] == front[w..] + word;
      SwapWordsSnoc(front[w..], word, w);
      if |front| == w {
        assert front[w..] == [];
        assert front[w..] + word == word;
      }
    }
  }

  /** The facts about an aligned bit length that the byte length needs. */
  lemma AlignedBits(a: nat, bits: nat)
    requires bits in {16, 32, 64} && a % bits == 0
    ensures a % 8 == 0 && Aligned(a / 8, bits / 8)
  {
    var q := a / bits;
    var w := bits / 8;
    assert bits == 8 * w by {
      assert bits == 16 || bits == 32 || bits == 64;
    }
    assert a == q * bits;
    assert a == 8 * (q * w);
    assert a / 8 == q * w;
    AlignedMul(q, w);
  }

  /** bytes_len: the bit length rounded up to a multiple of `bits`, in bytes. */
  function ByteLength(n: nat, bits: nat): (len: nat)
    requires bits in {16, 32, 64}
    ensures 8 * len == AlignUp(BitLength(n), bits)
    ensures Aligned(len, bits / 8)
  {
    var a := AlignUp(BitLength(n), bits);
    AlignedBits(a, bits);
    a / 8
  }

  /** OdyseusDnSwapEndiannessCommand: the bytes reversed inside each word of `bits` bits. */
  function SwapEndianness(n: nat, bits: nat): nat
    requires bits in {16, 32, 64}
  {
    FromBytes(SwapWords(ToBytes(n, ByteLength(n, bits)), bits / 8))
  }

  /** The nested loops of the command: word by word, each word copied backwards. */
  method SwapWordsLoop(number: seq<nat>, bytesWord: nat) returns (result: seq<nat>)
    requires bytesWord > 0 && Aligned(|number|, bytesWord)
    ensures result == SwapWords(number, bytesWord)
  {
    result := [];
    var i := bytesWord;
    ghost var done := 0;
    assert number[..0] == [];
    while i <= |number|
      invariant i == done + bytesWord && done <= |number| && Aligned(done, bytesWord)
      invariant result == SwapWords(number[..done], bytesWord)
      decreases |number| - done
    {
      ghost var before := result;
      ghost var word := number[done..i];
      var j := 0;
      while j < bytesWord
        invariant 0 <= j <= bytesWord
        invariant result == before + Reversed(word[bytesWord - j..])
      {
        ghost var tail := word[bytesWord - j - 1..];
        assert tail[1..] == word[bytesWord - j..] && tail[0] == number[i - j - 1];
        ConcatAssoc(before, Reversed(tail[1..]), [tail[0]]);
        result := result + [number[i - j - 1]];
        j := j + 1;
      }
      assert word[0..] == word;
      assert number[..i] == number[..done] + word;
      SwapWordsSnoc(number[..done], word, bytesWord);
      AlignedNext(done, bytesWord);
      done := i;
      i := i + bytesWord;
    }
    AlignedUnique(done, |number|, bytesWord);
    assert number[..done] == number;
  }

  /** OdyseusDnSwapEndiannessCommand's arithmetic: align, split into bytes, swap, join. */
  method SwapEndiannessBytes(n: nat, bits: nat) returns (r: nat)
    requires bits in {16, 32, 64}
    ensures r == SwapEndianness(n, bits)
  {
    var bytesLen := ByteLength(n, bits);
    var number := ToBytes(n, bytesLen);
    var bytesWord := bits / 8;
    var result := SwapWordsLoop(number, bytesWord);
    r := FromBytes(result);
  }

  /** A sequence of bytes with a nonzero byte has a nonzero value. */
  lemma NonzeroByte(bs: seq<nat>, i: nat)
    requires i < |bs| && bs[i] != 0
    ensures FromBytes(bs) >= 1
  {
    FromBytesZero(bs);
  }

  /** When the first word carries a nonzero byte, the value needs more than the other words. */
  lemma TopWordBound(bs: seq<nat>, w: nat)
    requires w <= |bs| && FromBytes(bs[..w]) >= 1
    ensures FromBytes(bs) >= Pow256(|bs| - w)
  {
    assert bs == bs[..w] + bs[w..];
    FromBytesSplit(bs[..w], bs[w..]);
    MulAtLeast(FromBytes(bs[..w]), Pow256(|bs| - w));
  }

  /** A number at least Pow256(|bs| - w) has a nonzero byte among its first w bytes. */
  lemma TopWordNonzero(bs: seq<nat>, w: nat) returns (i: nat)
    requires IsBytes(bs) && w <= |bs| && FromBytes(bs) >= Pow256(|bs| - w)
    ensures i < w && bs[i] != 0
  {
    assert bs == bs[..w] + bs[w..];
    FromBytesSplit(bs[..w], bs[w..]);
    FromBytesBound(bs[w..]);
    FromBytesZero(bs[..w]);
    i :| 0 <= i < w && bs[..w][i] != 0;
  }

  /** A nonzero number's top word is nonzero: it is at least Pow256(len - w). */
  lemma TopWordOfNumber(n: nat, bits: nat)
    requires bits in {16, 32, 64} && n > 0
    ensures ByteLength(n, bits) >= bits / 8
    ensures n >= Pow256(ByteLength(n, bits) - bits / 8)
  {
    var w, len := bits / 8, ByteLength(n, bits);
    TopWordLength(n, bits);
    var e, top := 8 * (len - w), BitLength(n) - 1;
    BitLengthBounds(n);
    assert Pow2(top) <= n;
    Pow2Monotone(e, top);
    Pow256IsPow2(len - w);
    assert Pow256(len - w) == Pow2(e);
  }

  /** The words below the top one hold fewer bits than n has. */
  lemma TopWordLength(n: nat, bits: nat)
    requires bits in {16, 32, 64} && n > 0
    ensures ByteLength(n, bits) >= bits / 8 && 8 * (ByteLength(n, bits) - bits / 8) < BitLength(n)
  {
    var w, len := bits / 8, ByteLength(n, bits);
    var a := AlignUp(BitLength(n), bits);
    assert 8 * len == a;
    assert bits == 8 * w by {
      assert bits == 16 || bits == 32 || bits == 64;
    }
    assert BitLength(n) >= 1;
    PositiveMultiple(a, bits);
  }

  /** A positive multiple of m is at least m. */
  lemma PositiveMultiple(a: nat, m: nat)
    requires m > 0 && a > 0 && a % m == 0
    ensures a >= m
  {
    assert a == (a / m) * m;
    MulAtLeast(a / m, m);
  }

  /** Reversing the words keeps a nonzero top word nonzero. */
  lemma SwapKeepsTopWord(b: seq<nat>, w: nat)
    requires IsBytes(b) && 0 < w <= |b| && FromBytes(b) >= Pow256(|b| - w)
    ensures FromBytes(SwapWords(b, w)) >= Pow256(|b| - w)
  {
    var sw := SwapWords(b, w);
    var i := TopWordNonzero(b, w);
    var head := b[..w];
    SwapWordsHead(b, w);
    assert Reversed(head)[w - 1 - i] == head[i];
    PrefixElement(b, w, i);
    NonzeroByte(sw[..w], w - 1 - i);
    TopWordBound(sw, w);
  }

  /** The first word of the swap is the first word reversed. */
  lemma SwapWordsHead<T>(bs: seq<T>, w: nat)
    requires 0 < w <= |bs|
    ensures SwapWords(bs, w)[..w] == Reversed(bs[..w])
  {
    if |bs| <= w {
      assert bs[..w] == bs;
    } else {
      AppendParts(Reversed(bs[..w]), SwapWords(bs[w..], w));
    }
  }

  /** A number that fills exactly len bytes with a nonzero top word has byte length len. */
  lemma ByteLengthOf(r: nat, bits: nat, len: nat)
    requires bits in {16, 32, 64} && len >= bits / 8 && (8 * len) % bits == 0
    requires Pow256(len - bits / 8) <= r < Pow256(len)
    ensures ByteLength(r, bits) == len
  {
    Pow256IsPow2(len);
    Pow256IsPow2(len - bits / 8);
    BitLengthAtMost(r, 8 * len);
    BitLengthAtMost(r, 8 * (len - bits / 8));
    AlignUpUnique(BitLength(r), bits, 8 * len);
  }

  /** The byte length an endianness swap keeps: the top word stays nonzero. */
  lemma SwapKeepsWidth(n: nat, bits: nat)
    requires bits in {16, 32, 64}
    ensures ByteLength(SwapEndianness(n, bits), bits) == ByteLength(n, bits)
  {
    var w, len := bits / 8, ByteLength(n, bits);
    var b := ToBytes(n, len);
    var sw := SwapWords(b, w);
    if n == 0 {
      assert AlignUp(0, bits) == 0;
      assert b == [] && sw == [];
    } else {
      TopWordOfNumber(n, bits);
      FitsByteLength(n, bits);
      SwapKeepsTopWord(b, w);
      SwapWordsBytes(b, w);
      FromBytesBound(sw);
      ByteLengthOf(FromBytes(sw), bits, len);
    }
  }

  /** The number fits in the byte length the command uses, so the bytes read back as it. */
  lemma FitsByteLength(n: nat, bits: nat)
    requires bits in {16, 32, 64}
    ensures n < Pow256(ByteLength(n, bits)) && FromBytes(ToBytes(n, ByteLength(n, bits))) == n
  {
    var len := ByteLength(n, bits);
    BitLengthBounds(n);
    Pow2Monotone(BitLength(n), 8 * len);
    Pow256IsPow2(len);
    FromToBytes(n, len);
  }

  /** Swapping the endianness twice with the same word size gives the number back. */
  lemma SwapTwice(n: nat, bits: nat)
    requires bits in {16, 32, 64}
    ensures SwapEndianness(SwapEndianness(n, bits), bits) == n
  {
    var w, len := bits / 8, ByteLength(n, bits);
    var sw := SwapWords(ToBytes(n, len), w);
    SwapKeepsWidth(n, bits);
    SwapWordsBytes(ToBytes(n, len), w);
    ToFromBytes(sw);
    SwapWordsTwice(ToBytes(n, len), w);
    FitsByteLength(n, bits);
  }

  // ---------------------------------------------------------------------
  // The commands

  /** A rendering starts and ends with a digit or the radix prefix, never with whitespace. */
  lemma RenderingNotSpace(n: nat, base: int)
    ensures !IsSpace(ConvertNumber(n, base)[0])
    ensures !IsSpace(ConvertNumber(n, base)[|ConvertNumber(n, base)| - 1])
  {
    var k := if base == 10 then Dec else if base == 16 then Hex else if base == 2 then Bin else Oct;
    var d := ToBase(n, k);
    assert IsDigit(d[0], k) && IsDigit(d[|d| - 1], k);
    var s := ConvertNumber(n, base);
    assert s[|s| - 1] == d[|d| - 1];
  }

  /** What a command does to the view. */
  datatype Outcome =
    | Unchanged                          // nothing happens
    | HidePopup                          // view.hide_popup()
    | ReplaceSelection(r: Region, text: string)
    | NoSelection                        // view.sel()[0] raises IndexError

  /** The number in the first selection, stripped of surrounding whitespace. */
  function SelectedNumber(buf: string, sel: Region): Option<Parsed>
  {
    ParseNumber(Strip(Substr(buf, sel)))
  }

  /** OdyseusDnConvertNumberCommand.run. */
  function ConvertCommand(buf: string, sels: seq<Region>, base: int): (o: Outcome)
    ensures |sels| > 1 ==> o == HidePopup
    ensures |sels| == 0 ==> o == NoSelection
    ensures o.ReplaceSelection? ==> |sels| == 1 && o.r == sels[0]
    ensures |sels| == 1 ==> (o == HidePopup <==> SelectedNumber(buf, sels[0]).None?)
    ensures |sels| == 1 && SelectedNumber(buf, sels[0]).Some? ==>
              o == ReplaceSelection(sels[0], ConvertNumber(SelectedNumber(buf, sels[0]).value.number, base))
    ensures o.ReplaceSelection? ==>
              ParseNumber(o.text) == Some(Parsed(SelectedNumber(buf, sels[0]).value.number, RenderedBase(base)))
  {
    if |sels| > 1 then HidePopup
    else if |sels| == 0 then NoSelection
    else
      match SelectedNumber(buf, sels[0])
      case None => HidePopup
      case Some(p) =>
        ParseConvertRoundTrip(p.number, base);
        ReplaceSelection(sels[0], ConvertNumber(p.number, base))
  }

  /** A selection that holds a rendering of n, with any suffix, is rewritten as n in the new base. */
  lemma ConvertRendered(buf: string, sel: Region, n: nat, from: int, sfx: string, base: int)
    requires IsSuffix(sfx) && Substr(buf, sel) == ConvertNumber(n, from) + sfx
    ensures ConvertCommand(buf, [sel], base) == ReplaceSelection(sel, ConvertNumber(n, base))
  {
    StripRendering(n, from, sfx);
    ParseConvert(n, from, sfx);
  }

  /** A rendering with a suffix has no surrounding whitespace to strip. */
  lemma StripRendering(n: nat, from: int, sfx: string)
    requires IsSuffix(sfx)
    ensures Strip(ConvertNumber(n, from) + sfx) == ConvertNumber(n, from) + sfx
  {
    var c := ConvertNumber(n, from);
    var t := c + sfx;
    RenderingNotSpace(n, from);
    SuffixChars(sfx);
    assert t[0] == c[0];
    if sfx == [] {
      assert t == c;
    } else {
      assert t[|t| - 1] == sfx[|sfx| - 1];
    }
    StripUnchanged(t);
  }

  /** OdyseusDnChangeBitCommand.run: the popup's number with one bit flipped, in the popup's base. */
  function ChangeBitCommand(sels: seq<Region>, base: int, num: nat, offset: nat): (o: Outcome)
    ensures |sels| == 0 <==> o == NoSelection
    ensures o.ReplaceSelection? ==>
              o.r == sels[0] && ParseNumber(o.text) == Some(Parsed(ChangeBit(num, offset), RenderedBase(base)))
  {
    if |sels| == 0 then NoSelection
    else
      ParseConvertRoundTrip(ChangeBit(num, offset), base);
      ReplaceSelection(sels[0], ConvertNumber(ChangeBit(num, offset), base))
  }

  /** OdyseusDnSwapEndiannessCommand.run: the swapped number, in the base it was written in. */
  function SwapCommand(buf: string, sels: seq<Region>, bits: nat): (o: Outcome)
    requires bits in {16, 32, 64}
    ensures |sels| > 1 ==> o == HidePopup
    ensures |sels| == 0 ==> o == NoSelection
    ensures o.ReplaceSelection? ==> |sels| == 1 && o.r == sels[0]
    ensures |sels| == 1 ==> (o == HidePopup <==> SelectedNumber(buf, sels[0]).None?)
    ensures |sels| == 1 && SelectedNumber(buf, sels[0]).Some? ==>
              var p := SelectedNumber(buf, sels[0]).value;
              o == ReplaceSelection(sels[0], ConvertNumber(SwapEndianness(p.number, bits), p.base))
    ensures o.ReplaceSelection? ==>
              var p := SelectedNumber(buf, sels[0]).value;
              ParseNumber(o.text) == Some(Parsed(SwapEndianness(p.number, bits), p.base))
  {
    if |sels| > 1 then HidePopup
    else if |sels| == 0 then NoSelection
    else
      match SelectedNumber(buf, sels[0])
      case None => HidePopup
      case Some(p) =>
        ParseConvertRoundTrip(SwapEndianness(p.number, bits), p.base);
        ReplaceSelection(sels[0], ConvertNumber(SwapEndianness(p.number, bits), p.base))
  }

  /** Swapping a rendered number keeps the base it was written in and swaps its value. */
  lemma SwapRendered(buf: string, sel: Region, n: nat, from: int, bits: nat)
    requires bits in {16, 32, 64} && Substr(buf, sel) == ConvertNumber(n, from)
    ensures SwapCommand(buf, [sel], bits)
      == ReplaceSelection(sel, ConvertNumber(SwapEndianness(n, bits), RenderedBase(from)))
  {
    RenderingNotSpace(n, from);
    StripUnchanged(ConvertNumber(n, from));
    ParseConvertRoundTrip(n, from);
  }

  /** Running the swap twice on the text it wrote gives back the original rendering. */
  lemma SwapCommandTwice(buf: string, buf': string, sel: Region, sel': Region, n: nat, from: int, bits: nat)
    requires bits in {16, 32, 64} && Substr(buf, sel) == ConvertNumber(n, from)
    requires SwapCommand(buf, [sel], bits).ReplaceSelection?
    requires Substr(buf', sel') == SwapCommand(buf, [sel], bits).text
    ensures SwapCommand(buf', [sel'], bits) == ReplaceSelection(sel', ConvertNumber(n, RenderedBase(from)))
  {
    SwapRendered(buf, sel, n, from, bits);
    var m := SwapEndianness(n, bits);
    SwapRendered(buf', sel', m, RenderedBase(from), bits);
    SwapTwice(n, bits);
  }

  /** The fields of the popup OdyseusDnShowNumbersPopupCommand shows. */
  datatype Popup = Popup(hex: string, dec: string, oct: string, rawBin: string, bits: nat)

  /** "{:0=Nb}": zeros added on the left up to the width. */
  function ZeroPad(s: string, width: nat): (r: string)
    ensures |r| == if |s| >= width then |s| else width
    ensures EndsWith(r, s) && forall i :: 0 <= i < |r| - |s| ==> r[i] == '0'
  {
    if |s| >= width then s else seq(width - |s|, _ => '0') + s
  }

  /** create_popup_content's number fields: digits grouped, binary padded to the word size. */
  function PopupContent(n: nat, setting: Json.Value): (p: Popup)
    ensures p.bits == PopupWordSize(n, setting)
  {
    var bits := PopupWordSize(n, setting);
    Popup(Join(Groups(ToBase(n, Hex), 2), " "), Join(Groups(ToBase(n, Dec), 3), ","),
          Join(Groups(ToBase(n, Oct), 3), " "), Join(Groups(ZeroPad(ToBase(n, Bin), bits), 4), " "), bits)
  }

  /** The padded binary field holds exactly the word size in digits and still reads as the number. */
  lemma PopupBinary(n: nat, setting: Json.Value)
    ensures |ZeroPad(ToBase(n, Bin), PopupWordSize(n, setting))| == PopupWordSize(n, setting)
      || (n == 0 && PopupWordSize(n, setting) == 0)
    ensures Value(ZeroPad(ToBase(n, Bin), PopupWordSize(n, setting)), 2) == n
  {
    BinaryLength(n);
    ToBaseValue(n, Bin);
    PaddedValue(ToBase(n, Bin), PopupWordSize(n, setting), 2);
  }

  lemma PaddedValue(d: string, width: nat, base: nat)
    ensures Value(ZeroPad(d, width), base) == Value(d, base)
  {
    var z := ZeroPad(d, width);
    if |d| < width {
      var pad := z[..|z| - |d|];
      assert z == pad + d;
      ValueZeros(pad, d, base);
    }
  }

  /** A binary rendering has BitLength digits, one for zero. */
  lemma {:induction false} BinaryLength(n: nat)
    ensures |ToBase(n, Bin)| == if n == 0 then 1 else BitLength(n)
    decreases n
  {
    if n >= 2 {
      BinaryLength(n / 2);
    }
  }

  /** Leading zeros do not change a value. */
  lemma {:induction false} ValueZeros(pad: string, d: string, base: nat)
    requires forall i :: 0 <= i < |pad| ==> pad[i] == '0'
    ensures Value(pad + d, base) == Value(d, base)
    decreases |pad|
  {
    if pad == [] {
      assert pad + d == d;
    } else {
      assert pad + d == "0" + (pad[1..] + d);
      ValueLeadingZero(pad[1..] + d, base);
      ValueZeros(pad[1..], d, base);
    }
  }
}
