/** The scraper's two normalisers: `clean_price`, which reads Indonesian price text such as
    "Rp 3,5 Miliar" as a whole number of rupiah, and `parse_int`, which reads the digits of
    an area label. Both are total: every failure inside them becomes the value 0. */
module Normalise {
  import opened Wrappers
  import opened Text

  /** The scale `clean_price` applies for "miliar" (or any 'm'). */
  const Billion: nat := 1_000_000_000
  /** The scale `clean_price` applies for "juta" or "jt". */
  const Million: nat := 1_000_000

  // ---------------------------------------------------------------------------------------
  // float(): the decimal numbers `clean_price` hands to Python's float()
  // ---------------------------------------------------------------------------------------

  /** A decimal literal: optional minus sign, the digits before the point, the digits after it. */
  datatype Decimal = Decimal(negative: bool, whole: string, frac: string)

  /** What `float()` accepts here: digits on at least one side of an optional point. */
  predicate WellFormed(d: Decimal) {
    IsNumeral(d.whole) && IsNumeral(d.frac) && d.whole + d.frac != []
  }

  /** Position of the first '.', or |s| when there is none. */
  function DotIndex(s: string): (k: nat)
    ensures k <= |s|
    ensures k < |s| ==> s[k] == '.'
    ensures forall i :: 0 <= i < k ==> s[i] != '.'
  {
    if s == [] || s[0] == '.' then 0 else 1 + DotIndex(s[1..])
  }

  /** `float(s)` for text without surrounding whitespace: `[+|-] digits`, `[+|-] digits .`,
      `[+|-] . digits` or `[+|-] digits . digits`, that is, digits on at least one side of at
      most one point. None is the ValueError `float()` raises on anything else. */
  function ParseNumber(s: string): (r: Option<Decimal>)
    ensures r.Some? ==> WellFormed(r.value)
  {
    var signed := |s| > 0 && (s[0] == '+' || s[0] == '-');
    var body := if signed then s[1..] else s;
    var k := DotIndex(body);
    var whole := body[..k];
    var frac := if k < |body| then body[k + 1..] else [];
    var d := Decimal(signed && s[0] == '-', whole, frac);
    if WellFormed(d) then Some(d) else None
  }

  /** The canonical spelling of a decimal: sign, digits, and a point only when a fraction follows. */
  function Format(d: Decimal): string {
    (if d.negative then "-" else "") + Unsigned(d)
  }

  /** The spelling without the sign. */
  function Unsigned(d: Decimal): string {
    d.whole + (if d.frac == [] then "" else "." + d.frac)
  }

  /** A point needs digits on one side only: "5." and ".5" are both read, as by `float()`. */
  lemma ExampleBarePoint()
    ensures ParseNumber("5.") == Some(Decimal(false, "5", ""))
    ensures ParseNumber(".5") == Some(Decimal(false, "", "5"))
    ensures ParseNumber(".") == None
  {
    var a, b := "5.", ".5";
    assert a[1..] == "." && DotIndex(a[1..]) == 0 && DotIndex(a) == 1;
    assert a[..1] == "5" && a[2..] == "";
    assert DotIndex(b) == 0 && b[..0] == "" && b[1..] == "5";
    assert "."[..0] == "" && "."[1..] == "";
  }

  /** `float()` reads back exactly the decimal that `Format` spells. */
  lemma ParseFormat(d: Decimal)
    requires WellFormed(d)
    ensures ParseNumber(Format(d)) == Some(d)
  {
    UnsignedParts(d);
    if d.negative {
      var s := Format(d);
      assert s == "-" + Unsigned(d) && s[0] == '-' && s[1..] == Unsigned(d);
      ParseSigned(s, d);
    } else {
      assert Format(d) == Unsigned(d);
      ParseUnsigned(Unsigned(d), d);
    }
  }

  /** `ParseNumber` on text without a sign, split as `UnsignedParts` says. */
  lemma ParseUnsigned(body: string, d: Decimal)
    requires WellFormed(d) && !d.negative
    requires body != [] && body[0] != '+' && body[0] != '-'
    requires DotIndex(body) == |d.whole| && body[..|d.whole|] == d.whole
    requires (if |d.whole| < |body| then body[|d.whole| + 1..] else []) == d.frac
    ensures ParseNumber(body) == Some(d)
  {
  }

  /** `ParseNumber` on text with a leading minus, split as `UnsignedParts` says. */
  lemma ParseSigned(s: string, d: Decimal)
    requires WellFormed(d) && d.negative
    requires |s| > 1 && s[0] == '-'
    requires var body := s[1..];
             DotIndex(body) == |d.whole| && body[..|d.whole|] == d.whole &&
             (if |d.whole| < |body| then body[|d.whole| + 1..] else []) == d.frac
    ensures ParseNumber(s) == Some(d)
  {
  }

  /** How `ParseNumber` splits an unsigned spelling: no leading sign, the first point right
      after the whole part, and the fraction after it. */
  lemma UnsignedParts(d: Decimal)
    requires WellFormed(d)
    ensures var body := Unsigned(d);
            var k := |d.whole|;
            body != [] && body[0] != '+' && body[0] != '-' &&
            DotIndex(body) == k && body[..k] == d.whole &&
            (if k < |body| then body[k + 1..] else []) == d.frac
  {
    var tail := if d.frac == [] then "" else "." + d.frac;
    var body := d.whole + tail;
    if d.whole != [] {
      assert body[0] == d.whole[0];
    } else {
      assert body == tail && body[0] == '.';
    }
    DotIndexNumeral(d.whole, tail);
    assert body[..|d.whole|] == d.whole;
    if d.frac != [] {
      assert body[|d.whole| + 1..] == d.frac;
    }
  }

  /** In a numeral followed by `rest`, the first point is that of `rest`. */
  lemma {:induction false} DotIndexNumeral(w: string, rest: string)
    requires IsNumeral(w)
    ensures DotIndex(w + rest) == |w| + DotIndex(rest)
    decreases |w|
  {
    if w == [] {
      assert w + rest == rest;
    } else {
      assert (w + rest)[1..] == w[1..] + rest;
      DotIndexNumeral(w[1..], rest);
    }
  }

  /** Text that `float()` accepts is made of digits, one point and a leading sign only;
      any other character (a letter, a space, a second unit) makes it fail. */
  lemma ParseNumberAlphabet(s: string, i: int)
    requires 0 <= i < |s| && ParseNumber(s).Some?
    ensures IsDecimal(s[i]) || s[i] == '.' || (i == 0 && (s[i] == '+' || s[i] == '-'))
  {
    var signed := |s| > 0 && (s[0] == '+' || s[0] == '-');
    var body := if signed then s[1..] else s;
    var k := DotIndex(body);
    var j := if signed then i - 1 else i;
    if j >= 0 && j != k {
      var d := ParseNumber(s).value;
      if j < k {
        assert body[..k][j] == body[j];
      } else {
        assert body[k + 1..][j - k - 1] == body[j];
      }
    }
  }

  /** `float()` accepts at most one point: the one right after the whole part. */
  lemma ParseNumberOnePoint(s: string, i: int)
    requires 0 <= i < |s| && s[i] == '.' && ParseNumber(s).Some?
    ensures var signed := s[0] == '+' || s[0] == '-';
            i == (if signed then 1 else 0) + DotIndex(if signed then s[1..] else s)
  {
    var signed := s[0] == '+' || s[0] == '-';
    var body := if signed then s[1..] else s;
    var k := DotIndex(body);
    var j := if signed then i - 1 else i;
    assert j >= 0;
    assert body[j] == '.';
  }

  /** A second decimal point ("1.500.000", dotted thousands) makes `float()` fail. */
  lemma ParseNumberTwoPoints(s: string, i: int, j: int)
    requires 0 <= i < j < |s| && s[i] == '.' && s[j] == '.'
    ensures ParseNumber(s) == None
  {
    if ParseNumber(s).Some? {
      ParseNumberOnePoint(s, i);
      ParseNumberOnePoint(s, j);
    }
  }

  /** The digits of a decimal read as one whole number: its value times 10^|frac|. */
  function Digits(d: Decimal): nat
    requires WellFormed(d)
  {
    ValueAppend(d.whole, d.frac);
    Value(d.whole + d.frac)
  }

  /** `int(float(s) * m)`: the exact product truncated toward zero. */
  function Truncate(d: Decimal, m: nat): (r: int)
    requires WellFormed(d)
    ensures var mag := if d.negative then -r else r;
            mag >= 0 && mag * Pow10(|d.frac|) <= Digits(d) * m < (mag + 1) * Pow10(|d.frac|)
  {
    var q := Digits(d) * m / Pow10(|d.frac|);
    DivBounds(Digits(d) * m, Pow10(|d.frac|));
    if d.negative then -q else q
  }

  /** A non-negative whole number is scaled exactly. */
  lemma TruncateWhole(d: Decimal, m: nat)
    requires WellFormed(d) && !d.negative && d.frac == []
    ensures Truncate(d, m) == Value(d.whole) * m
  {
    assert d.whole + d.frac == d.whole;
  }

  lemma DivBounds(x: nat, p: nat)
    requires p > 0
    ensures x / p * p <= x < (x / p + 1) * p
  {
  }

  // ---------------------------------------------------------------------------------------
  // clean_price
  // ---------------------------------------------------------------------------------------

  /** `price_text.lower().replace("rp", "").replace(",", ".").strip()`. */
  function Cleaned(text: string): string {
    Strip(Replace(Replace(Lower(text), "rp", ""), ",", "."))
  }

  /** The billion branch wins: it is taken for "miliar" or any 'm' at all. */
  predicate IsBillionText(clean: string) {
    Contains(clean, "miliar") || Contains(clean, "m")
  }

  predicate IsMillionText(clean: string) {
    Contains(clean, "juta") || Contains(clean, "jt")
  }

  /** The multiplier `clean_price` picks for its cleaned text. */
  function Multiplier(clean: string): nat {
    if IsBillionText(clean) then Billion
    else if IsMillionText(clean) then Million
    else 1
  }

  /** The cleaned text with only the chosen branch's unit words removed, stripped again. */
  function Remainder(clean: string): string {
    if IsBillionText(clean) then Strip(Replace(Replace(clean, "miliar", ""), "m", ""))
    else if IsMillionText(clean) then Strip(Replace(Replace(clean, "juta", ""), "jt", ""))
    else Strip(clean)
  }

  /** `clean_price(price_text)`: the price in whole rupiah, or 0 when `float()` fails. */
  function CleanPrice(text: string): int {
    var clean := Cleaned(text);
    match ParseNumber(Remainder(clean))
    case None => 0
    case Some(d) => Truncate(d, Multiplier(clean))
  }

  /** Cleaning neither adds nor removes an 'm'. */
  lemma CleanedKeepsM(text: string)
    ensures 'm' in Cleaned(text) <==> 'm' in Lower(text)
  {
    var s1 := Replace(Lower(text), "rp", "");
    ReplaceKeeps(Lower(text), "rp", "", 'm');
    ReplaceKeeps(s1, ",", ".", 'm');
    StripKeeps(Replace(s1, ",", "."), 'm');
  }

  /** The scale is 10^9 exactly when the lower-cased text has an 'm' anywhere, 10^6 when it
      has none but its cleaned text says "juta" or "jt", and 1 otherwise. */
  lemma MultiplierChoice(text: string)
    ensures Multiplier(Cleaned(text)) == Billion <==> 'm' in Lower(text)
    ensures Multiplier(Cleaned(text)) == Million <==> 'm' !in Lower(text) && IsMillionText(Cleaned(text))
    ensures Multiplier(Cleaned(text)) == 1 <==> 'm' !in Lower(text) && !IsMillionText(Cleaned(text))
  {
    var clean := Cleaned(text);
    CleanedKeepsM(text);
    ContainsChar(clean, 'm');
    if Contains(clean, "miliar") {
      ContainsHead(clean, "miliar");
    }
  }

  /** In the billion branch no 'm' is left for `float()` to see. */
  lemma BillionRemainderHasNoM(clean: string)
    requires IsBillionText(clean)
    ensures 'm' !in Remainder(clean)
  {
    var s := Replace(Replace(clean, "miliar", ""), "m", "");
    ReplaceRemoves(Replace(clean, "miliar", ""), 'm', "");
    StripKeeps(s, 'm');
  }

  /** A remainder holding anything but digits, one point and a sign makes the price 0
      ("no price here", or a unit the chosen branch did not remove). */
  lemma CleanPriceRejectsText(text: string, i: int)
    requires 0 <= i < |Remainder(Cleaned(text))|
    requires var c := Remainder(Cleaned(text))[i]; !IsDecimal(c) && c != '.' && c != '+' && c != '-'
    ensures CleanPrice(text) == 0
  {
    if ParseNumber(Remainder(Cleaned(text))).Some? {
      ParseNumberAlphabet(Remainder(Cleaned(text)), i);
    }
  }

  /** A character `float()` may accept: a digit, the point, or a sign. */
  predicate IsNumberChar(c: char) {
    IsDecimal(c) || c == '.' || c == '+' || c == '-'
  }

  /** Cleaned text with neither 'm' nor 'j' has no unit word: scale 1, nothing removed. */
  lemma UnitFree(clean: string)
    requires 'm' !in clean && 'j' !in clean
    ensures Multiplier(clean) == 1 && Remainder(clean) == Strip(clean)
  {
    if Contains(clean, "miliar") { ContainsHead(clean, "miliar"); }
    if Contains(clean, "m") { ContainsHead(clean, "m"); }
    if Contains(clean, "juta") { ContainsHead(clean, "juta"); }
    if Contains(clean, "jt") { ContainsHead(clean, "jt"); }
  }

  /** Text that is already a bare number (no letters, spaces or commas) passes through the
      cleaning unchanged and is read at scale 1. */
  lemma CleanPricePlain(s: string)
    requires s != [] && forall i :: 0 <= i < |s| ==> IsNumberChar(s[i])
    ensures Cleaned(s) == s && Multiplier(s) == 1 && Remainder(s) == s
  {
    CleanedPlain(s);
    NoUnitLetter(s);
    UnitFree(s);
    StripPlain(s);
  }

  lemma NoUnitLetter(s: string)
    requires forall i :: 0 <= i < |s| ==> IsNumberChar(s[i])
    ensures 'm' !in s && 'j' !in s
  {
  }

  /** Digits, points and signs have no surrounding space to strip. */
  lemma StripPlain(s: string)
    requires s != [] && forall i :: 0 <= i < |s| ==> IsNumberChar(s[i])
    ensures Strip(s) == s
  {
    assert IsNumberChar(s[0]) && IsNumberChar(s[|s| - 1]);
    StripCore([], s, []);
    assert [] + s + [] == s;
  }

  lemma CleanedPlain(s: string)
    requires s != [] && forall i :: 0 <= i < |s| ==> IsNumberChar(s[i])
    ensures Cleaned(s) == s
  {
    LowerPlain(s);
    assert 'r' !in s && ',' !in s;
    ReplaceAbsent(s, "rp", "");
    ReplaceAbsent(s, ",", ".");
    StripPlain(s);
  }

  /** The price of a text whose cleaned remainder `float()` reads as `d`. */
  lemma CleanPriceIs(text: string, d: Decimal)
    requires ParseNumber(Remainder(Cleaned(text))) == Some(d)
    ensures CleanPrice(text) == Truncate(d, Multiplier(Cleaned(text)))
  {
  }

  /** A printed whole number is its own price. */
  lemma CleanPriceNumeral(n: nat)
    ensures CleanPrice(Show(n)) == n
  {
    var s := Show(n);
    CleanPricePlain(s);
    var d := Decimal(false, s, []);
    assert Format(d) == s;
    ParseFormat(d);
    CleanPriceIs(s, d);
    TruncateWhole(d, 1);
    ValueShow(n);
  }

  /** Dotted thousands ("1.500.000") are not a number to `float()`, so the price is 0. */
  lemma CleanPriceDottedThousands(a: string, b: string, c: string)
    requires IsNumeral(a) && IsNumeral(b) && IsNumeral(c)
    ensures CleanPrice(a + "." + b + "." + c) == 0
  {
    var s := a + "." + b + "." + c;
    CleanPricePlain(s);
    ParseNumberTwoPoints(s, |a|, |a| + 1 + |b|);
  }

  /** The fixed words of the site's price texts, lower-cased. */
  lemma LowerWords()
    ensures Lower("Rp ") == "rp " && Lower(" Juta") == " juta" && Lower(" Miliar") == " miliar"
    ensures Lower(",") == ","
  {
  }

  lemma LowerJuta(w: string)
    requires IsNumeral(w)
    ensures Lower("Rp " + w + " Juta") == "rp" + (" " + w + " juta")
  {
    LowerAppend("Rp " + w, " Juta");
    LowerAppend("Rp ", w);
    LowerPlain(w);
    LowerWords();
    assert "rp " + w + " juta" == "rp" + (" " + w + " juta");
  }

  lemma DropRpJuta(w: string)
    requires IsNumeral(w)
    ensures Replace(Lower("Rp " + w + " Juta"), "rp", "") == " " + w + " juta"
  {
    LowerJuta(w);
    var rest := " " + w + " juta";
    ReplaceFront("rp", rest, "");
    AbsentNumeral(w, 'r');
    AbsentAppend(" ", w, 'r');
    AbsentAppend(" " + w, " juta", 'r');
    ReplaceAbsent(rest, "rp", "");
    assert "" + rest == rest;
  }

  lemma CleanedJuta(w: string)
    requires w != [] && IsNumeral(w)
    ensures Cleaned("Rp " + w + " Juta") == w + " juta"
  {
    DropRpJuta(w);
    var rest := " " + w + " juta";
    AbsentNumeral(w, ',');
    AbsentAppend(" ", w, ',');
    AbsentAppend(" " + w, " juta", ',');
    ReplaceAbsent(rest, ",", ".");
    assert rest == " " + (w + " juta");
    UnitEnds(w, " juta");
    StripPadded(w + " juta");
  }

  lemma RemainderJuta(w: string)
    requires w != [] && IsNumeral(w)
    ensures Multiplier(w + " juta") == Million && Remainder(w + " juta") == w
  {
    var spaced := w + " ";
    assert w + " juta" == spaced + "juta";
    assert 'm' !in w + " juta" by {
      assert forall i :: 0 <= i < |w| ==> (w + " juta")[i] == w[i];
    }
    UnitFreeBillion(w + " juta");
    ContainsSuffix(spaced, "juta");
    StripJuta(w);
  }

  lemma StripJuta(w: string)
    requires w != [] && IsNumeral(w)
    ensures Strip(Replace(Replace(w + " juta", "juta", ""), "jt", "")) == w
  {
    var spaced := w + " ";
    assert w + " juta" == spaced + "juta";
    ReplaceTail(spaced, "juta", "");
    assert spaced + "" == spaced;
    ReplaceAbsent(spaced, "jt", "");
    StripTrailing(w);
  }

  /** Text without an 'm' is never read at the billion scale. */
  lemma UnitFreeBillion(clean: string)
    requires 'm' !in clean
    ensures !IsBillionText(clean)
  {
    if Contains(clean, "miliar") { ContainsHead(clean, "miliar"); }
    if Contains(clean, "m") { ContainsHead(clean, "m"); }
  }

  /** "Rp <digits> Juta" is that many millions. */
  lemma CleanPriceJuta(w: string)
    requires w != [] && IsNumeral(w)
    ensures CleanPrice("Rp " + w + " Juta") == Value(w) * Million
  {
    CleanedJuta(w);
    RemainderJuta(w);
    var d := Decimal(false, w, []);
    assert Format(d) == w;
    ParseFormat(d);
    CleanPriceIs("Rp " + w + " Juta", d);
    TruncateWhole(d, Million);
  }

  lemma LowerMiliar(w: string, f: string)
    requires IsNumeral(w) && IsNumeral(f)
    ensures Lower("Rp " + w + "," + f + " Miliar") == "rp" + (" " + w + "," + f + " miliar")
  {
    LowerWords();
    var a := "Rp " + w + ",";
    LowerAmount(w);
    var b := a + f;
    LowerAppend(a, f);
    LowerPlain(f);
    assert Lower(b) == "rp " + w + "," + f;
    LowerAppend(b, " Miliar");
    assert "rp " + w + "," + f + " miliar" == "rp" + (" " + w + "," + f + " miliar");
  }

  lemma LowerAmount(w: string)
    requires IsNumeral(w)
    ensures Lower("Rp " + w + ",") == "rp " + w + ","
  {
    LowerWords();
    LowerAppend("Rp " + w, ",");
    LowerAppend("Rp ", w);
    LowerPlain(w);
  }

  lemma DropRpMiliar(w: string, f: string)
    requires IsNumeral(w) && IsNumeral(f)
    ensures Replace(Lower("Rp " + w + "," + f + " Miliar"), "rp", "") == " " + w + "," + f + " miliar"
  {
    LowerMiliar(w, f);
    var head := " " + w + "," + f + " milia";
    var rest := head + "r";
    assert rest == " " + w + "," + f + " miliar";
    ReplaceFront("rp", rest, "");
    AbsentNumeral(w, 'r');
    AbsentNumeral(f, 'r');
    AbsentAppend(" ", w, 'r');
    AbsentAppend(" " + w, ",", 'r');
    AbsentAppend(" " + w + ",", f, 'r');
    AbsentAppend(" " + w + "," + f, " milia", 'r');
    ReplaceSkips(head, "r", "rp", "");
    assert Replace("r", "rp", "") == "r";
    assert "" + rest == rest;
  }

  lemma CommaMiliar(w: string, f: string)
    requires IsNumeral(w) && IsNumeral(f)
    ensures Replace(" " + w + "," + f + " miliar", ",", ".") == " " + w + "." + f + " miliar"
  {
    var head := " " + w;
    var tail := f + " miliar";
    AbsentNumeral(w, ',');
    AbsentAppend(" ", w, ',');
    AbsentNumeral(f, ',');
    AbsentAppend(f, " miliar", ',');
    ReplaceOnce(head, ",", tail, ".");
    assert head + "," + f + " miliar" == head + "," + tail;
    assert head + "." + tail == head + "." + f + " miliar";
  }

  lemma CleanedMiliar(w: string, f: string)
    requires IsNumeral(w) && IsNumeral(f)
    ensures Cleaned("Rp " + w + "," + f + " Miliar") == w + "." + f + " miliar"
  {
    DropRpMiliar(w, f);
    CommaMiliar(w, f);
    var clean := w + "." + f + " miliar";
    assert " " + w + "." + f + " miliar" == " " + clean;
    UnitEnds(w + "." + f, " miliar");
    StripPadded(clean);
  }

  lemma RemainderMiliar(number: string)
    requires number != [] && !IsSpace(number[0]) && !IsSpace(number[|number| - 1]) && 'm' !in number
    ensures Multiplier(number + " miliar") == Billion && Remainder(number + " miliar") == number
  {
    ContainsSuffix(number + " ", "miliar");
    assert number + " miliar" == (number + " ") + "miliar";
    StripMiliar(number);
  }

  /** A number followed by a unit word starts with no space and ends with none. */
  lemma UnitEnds(number: string, unit: string)
    requires number != [] && (IsDecimal(number[0]) || number[0] == '.')
    requires unit != [] && !IsSpace(unit[|unit| - 1])
    ensures var t := number + unit; !IsSpace(t[0]) && !IsSpace(t[|t| - 1])
  {
  }

  lemma AbsentNumeral(w: string, c: char)
    requires IsNumeral(w) && !IsDecimal(c)
    ensures c !in w
  {
  }

  lemma AbsentAppend(a: string, b: string, c: char)
    requires c !in a && c !in b
    ensures c !in a + b
  {
  }

  lemma StripMiliar(number: string)
    requires number != [] && !IsSpace(number[0]) && !IsSpace(number[|number| - 1]) && 'm' !in number
    ensures Strip(Replace(Replace(number + " miliar", "miliar", ""), "m", "")) == number
  {
    var spaced := number + " ";
    AbsentAppend(number, " ", 'm');
    assert number + " miliar" == spaced + "miliar";
    ReplaceTail(spaced, "miliar", "");
    assert spaced + "" == spaced;
    ReplaceAbsent(spaced, "m", "");
    StripTrailing(number);
  }

  /** "Rp <w>,<f> Miliar" is w.f billions, the comma read as a decimal point and the
      product truncated. */
  lemma CleanPriceMiliar(w: string, f: string)
    requires w != [] && IsNumeral(w) && f != [] && IsNumeral(f)
    ensures IsNumeral(w + f)
    ensures CleanPrice("Rp " + w + "," + f + " Miliar") == Value(w + f) * Billion / Pow10(|f|)
  {
    var text := "Rp " + w + "," + f + " Miliar";
    var d := Decimal(false, w, f);
    ValueAppend(w, f);
    MiliarScale(w, f);
    ParsePoint(w, f);
    CleanPriceIs(text, d);
    TruncateScaled(d, Billion);
  }

  /** The cleaned "Rp <w>,<f> Miliar" is read at the billion scale, leaving "<w>.<f>". */
  lemma MiliarScale(w: string, f: string)
    requires w != [] && IsNumeral(w) && f != [] && IsNumeral(f)
    ensures var clean := Cleaned("Rp " + w + "," + f + " Miliar");
            Multiplier(clean) == Billion && Remainder(clean) == w + "." + f
  {
    CleanedMiliar(w, f);
    MiliarNumber(w, f);
    RemainderMiliar(w + "." + f);
  }

  /** `float("<w>.<f>")` for digit strings w and f. */
  lemma ParsePoint(w: string, f: string)
    requires w != [] && IsNumeral(w) && f != [] && IsNumeral(f)
    ensures ParseNumber(w + "." + f) == Some(Decimal(false, w, f))
  {
    var d := Decimal(false, w, f);
    assert Format(d) == w + "." + f;
    ParseFormat(d);
  }

  /** A non-negative decimal scaled by m and truncated is its digits times m over the
      fraction's power of ten. */
  lemma TruncateScaled(d: Decimal, m: nat)
    requires WellFormed(d) && !d.negative
    ensures IsNumeral(d.whole + d.frac)
    ensures Truncate(d, m) == Value(d.whole + d.frac) * m / Pow10(|d.frac|)
  {
    ValueAppend(d.whole, d.frac);
  }

  lemma MiliarNumber(w: string, f: string)
    requires w != [] && IsNumeral(w) && f != [] && IsNumeral(f)
    ensures var number := w + "." + f;
            !IsSpace(number[0]) && !IsSpace(number[|number| - 1]) && 'm' !in number
  {
    var number := w + "." + f;
    assert number[0] == w[0];
    assert number[|number| - 1] == f[|f| - 1];
    assert forall i :: 0 <= i < |w| ==> number[i] == w[i];
    assert forall i :: 0 <= i < |f| ==> number[|w| + 1 + i] == f[i];
  }

  /** Cleaning neither adds nor removes a character outside "rp", ",", "." and whitespace. */
  lemma CleanedKeeps(text: string, c: char)
    requires c != 'r' && c != 'p' && c != ',' && c != '.' && !IsSpace(c)
    ensures c in Cleaned(text) <==> c in Lower(text)
  {
    var s1 := Replace(Lower(text), "rp", "");
    ReplaceKeeps(Lower(text), "rp", "", c);
    ReplaceKeeps(s1, ",", ".", c);
    StripKeeps(Replace(s1, ",", "."), c);
  }

  /** The billion branch removes only the letters of "miliar" (and spaces, by stripping). */
  lemma BillionRemainderKeeps(clean: string, c: char)
    requires IsBillionText(clean)
    requires c !in "milar" && !IsSpace(c)
    ensures c in Remainder(clean) <==> c in clean
  {
    ReplaceKeeps(clean, "miliar", "", c);
    ReplaceKeeps(Replace(clean, "miliar", ""), "m", "", c);
    StripKeeps(Replace(Replace(clean, "miliar", ""), "m", ""), c);
  }

  /** The million branch removes only the letters of "juta" and "jt" (and spaces). */
  lemma MillionRemainderKeeps(clean: string, c: char)
    requires !IsBillionText(clean) && IsMillionText(clean)
    requires c !in "juta" && !IsSpace(c)
    ensures c in Remainder(clean) <==> c in clean
  {
    ReplaceKeeps(clean, "juta", "", c);
    ReplaceKeeps(Replace(clean, "juta", ""), "jt", "", c);
    StripKeeps(Replace(Replace(clean, "juta", ""), "jt", ""), c);
  }

  /** Whatever the branch, a character outside every unit word and outside whitespace is
      kept in the remainder exactly when it is in the cleaned text. */
  lemma RemainderKeeps(clean: string, c: char)
    requires c !in "milar" && c !in "juta" && !IsSpace(c)
    ensures c in Remainder(clean) <==> c in clean
  {
    if IsBillionText(clean) {
      BillionRemainderKeeps(clean, c);
    } else if IsMillionText(clean) {
      MillionRemainderKeeps(clean, c);
    } else {
      StripKeeps(clean, c);
    }
  }

  /** Every ',' becomes a point, in place: the comma step maps each ',' of the text left by
      the "rp" deletion to '.' and keeps every other character, so none is left in the
      cleaned text, nor in what `float()` reads. */
  lemma NoCommaLeft(text: string)
    ensures var s1 := Replace(Lower(text), "rp", "");
            && |Replace(s1, ",", ".")| == |s1|
            && forall i :: 0 <= i < |s1| ==>
                 Replace(s1, ",", ".")[i] == (if s1[i] == ',' then '.' else s1[i])
    ensures ',' !in Cleaned(text)
    ensures ',' !in Remainder(Cleaned(text))
  {
    var s1 := Replace(Lower(text), "rp", "");
    ReplaceChar(s1, ',', '.');
    ReplaceRemoves(s1, ',', ".");
    StripKeeps(Replace(s1, ",", "."), ',');
    RemainderKeeps(Cleaned(text), ',');
  }

  /** A letter that no unit word removes ('n' in "no price here") survives into the
      remainder, so `float()` fails and the price is 0. */
  lemma CleanPriceStrayLetter(text: string, c: char)
    requires c in Lower(text)
    requires c !in "rp" && c !in "milar" && c !in "juta"
    requires !IsNumberChar(c) && c != ',' && !IsSpace(c)
    ensures CleanPrice(text) == 0
  {
    CleanedKeeps(text, c);
    RemainderKeeps(Cleaned(text), c);
    var r := Remainder(Cleaned(text));
    var i :| 0 <= i < |r| && r[i] == c;
    CleanPriceRejectsText(text, i);
  }

  /** The billion branch removes "miliar" and 'm' only: a "juta" or "jt" beside an 'm'
      ("Rp 2 M 500 Jt") is left for `float()`, which fails, so the price is 0. */
  lemma BillionKeepsMillionWords(text: string)
    requires 'm' in Lower(text) && 'j' in Lower(text)
    ensures CleanPrice(text) == 0
  {
    var clean := Cleaned(text);
    MultiplierChoice(text);
    assert IsBillionText(clean);
    CleanedKeeps(text, 'j');
    BillionRemainderKeeps(clean, 'j');
    var r := Remainder(clean);
    var i :| 0 <= i < |r| && r[i] == 'j';
    CleanPriceRejectsText(text, i);
  }

  /** "Rp 3,5 Miliar" is 3 500 000 000 rupiah. */
  lemma ExampleMiliar(w: string, f: string)
    requires w == "3" && f == "5"
    ensures CleanPrice("Rp " + w + "," + f + " Miliar") == 3_500_000_000
  {
    ValueAppend(w, f);
    assert w[..0] == [] && f[..0] == [];
    assert Value(w + f) == 35 && Pow10(|f|) == 10;
    var x := Value(w + f) * Billion / Pow10(|f|);
    assert x == 3_500_000_000;
    CleanPriceMiliar(w, f);
  }

  /** "Rp 500 Juta" is 500 000 000 rupiah. */
  lemma ExampleJuta(w: string)
    requires w == "500"
    ensures CleanPrice("Rp " + w + " Juta") == 500_000_000
  {
    assert w[..2] == "50" && "50"[..1] == "5" && "5"[..0] == [];
    assert Value(w) == 500;
    CleanPriceJuta(w);
  }

  /** "no price here" is not a price. */
  lemma ExampleNoPrice()
    ensures CleanPrice("no price here") == 0
  {
    assert Lower("no price here")[0] == 'n';
    CleanPriceStrayLetter("no price here", 'n');
  }

  /** "1.500.000" is not a price. */
  lemma ExampleThousands(a: string, b: string, c: string)
    requires a == "1" && b == "500" && c == "000"
    ensures CleanPrice(a + "." + b + "." + c) == 0
  {
    CleanPriceDottedThousands(a, b, c);
  }

  // ---------------------------------------------------------------------------------------
  // parse_int
  // ---------------------------------------------------------------------------------------

  /** The most digits `int()` converts from a string: Python's default
      `sys.get_int_max_str_digits()`; a longer decimal string raises ValueError. */
  const MaxIntDigits := 4300

  /** `int(''.join(filter(str.isdigit, text)))`, or 0 when `int()` raises: on an empty
      string, on a superscript digit that `isdigit` let through, or on more digits than
      `MaxIntDigits`. */
  function ParseInt(text: string): nat {
    var ds := DigitsOf(text);
    if ds != [] && IsNumeral(ds) && |ds| <= MaxIntDigits then Value(ds) else 0
  }

  /** Text without any digit parses to 0 ("" and "abc"). */
  lemma ParseIntNoDigits(text: string)
    requires forall i :: 0 <= i < |text| ==> !IsDigitChar(text[i])
    ensures ParseInt(text) == 0
  {
    var ds := DigitsOf(text);
    if ds != [] {
      DigitsOfKeeps(text, ds[0]);
    }
  }

  /** One superscript digit anywhere ("120 m²") makes the whole parse 0. */
  lemma ParseIntSuperscript(text: string, i: int)
    requires 0 <= i < |text| && IsSuperscript(text[i])
    ensures ParseInt(text) == 0
  {
    DigitsOfKeeps(text, text[i]);
    var ds := DigitsOf(text);
    var j :| 0 <= j < |ds| && ds[j] == text[i];
    assert !IsDecimal(ds[j]);
  }

  /** Without superscripts, the result is the number the text's digits spell, in order, as
      long as there are no more than `MaxIntDigits` of them, and 0 past that. */
  lemma ParseIntDigits(text: string)
    requires forall i :: 0 <= i < |text| ==> !IsSuperscript(text[i])
    ensures IsNumeral(DigitsOf(text))
    ensures ParseInt(text) == if |DigitsOf(text)| <= MaxIntDigits then Value(DigitsOf(text)) else 0
  {
    var ds := DigitsOf(text);
    forall j | 0 <= j < |ds|
      ensures IsDecimal(ds[j])
    {
      DigitsOfKeeps(text, ds[j]);
    }
  }

  /** `parse_int` reads back a printed number of at most `MaxIntDigits` digits; a longer one
      makes `int()` raise, so it reads as 0. */
  lemma ParseIntShow(n: nat)
    ensures ParseInt(Show(n)) == if |Show(n)| <= MaxIntDigits then n else 0
  {
    DigitsOfNumeral(Show(n));
    ValueShow(n);
  }

  /** "007" is 7: leading zeros are read as by `int()`. */
  lemma ExampleLeadingZeros()
    ensures ParseInt("007") == 7
  {
    var t := "007";
    DigitsOfNumeral(t);
    assert t[..1][..0] == [] && t[..2][..1] == t[..1] && t[..3] == t;
    assert Value(t[..1]) == 0;
    assert Value(t[..2]) == 0;
  }

  /** "" and "abc" have no digits and parse to 0. */
  lemma ExampleNoDigits()
    ensures ParseInt("") == 0 && ParseInt("abc") == 0
  {
    ParseIntNoDigits("");
    ParseIntNoDigits("abc");
  }

  /** "120 m²", an area as the site prints it, parses to 0. */
  lemma ExampleArea()
    ensures ParseInt("120 m²") == 0
  {
    ParseIntSuperscript("120 m²", 5);
  }
}
