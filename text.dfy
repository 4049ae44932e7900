/** The Python `str` operations the scraper's normalisers rely on, on `seq<char>`:
    `lower`, `strip`, `in`, `replace`, `isdigit`, and reading a run of decimal digits.
    Case folding is ASCII only; whitespace is Python's `isspace` within Latin-1. */
module Text {

  /** Python's `str.isspace` for the characters below U+0100. */
  predicate IsSpace(c: char) {
    c == ' ' || ('\t' <= c <= '\r') || ('\U{1C}' <= c <= '\U{1F}') || c == '\U{85}' || c == '\U{A0}'
  }

  /** '0'..'9': the characters `int()` and `float()` accept as digits. */
  predicate IsDecimal(c: char) {
    '0' <= c <= '9'
  }

  /** Superscript one, two, three: `isdigit()` accepts them, `int()` does not. */
  predicate IsSuperscript(c: char) {
    c == '¹' || c == '²' || c == '³'
  }

  /** Python's `str.isdigit` on one character. */
  predicate IsDigitChar(c: char) {
    IsDecimal(c) || IsSuperscript(c)
  }

  /** Python's `str.isdigit` on a string: non-empty and every character a digit. */
  predicate IsDigitString(s: string) {
    |s| > 0 && forall i :: 0 <= i < |s| ==> IsDigitChar(s[i])
  }

  /** Every character is '0'..'9' (the empty string included). */
  predicate IsNumeral(s: string) {
    forall i :: 0 <= i < |s| ==> IsDecimal(s[i])
  }

  function LowerChar(c: char): char {
    if 'A' <= c <= 'Z' then (c as int + 32) as char else c
  }

  /** `str.lower()`, ASCII letters only. */
  function Lower(s: string): (r: string)
    ensures |r| == |s|
    ensures forall i {:trigger r[i]} :: 0 <= i < |s| ==> r[i] == LowerChar(s[i])
  {
    seq(|s|, i requires 0 <= i < |s| => LowerChar(s[i]))
  }

  /** `str.lstrip()`: the longest suffix of `s` that does not start with whitespace. */
  function LStrip(s: string): (r: string)
    ensures |r| <= |s| && r == s[|s| - |r|..]
    ensures r == [] || !IsSpace(r[0])
    ensures forall i :: 0 <= i < |s| - |r| ==> IsSpace(s[i])
  {
    if s != [] && IsSpace(s[0]) then LStrip(s[1..]) else s
  }

  /** `str.rstrip()`: the longest prefix of `s` that does not end with whitespace. */
  function RStrip(s: string): (r: string)
    ensures |r| <= |s| && r == s[..|r|]
    ensures r == [] || !IsSpace(r[|r| - 1])
    ensures forall i :: |r| <= i < |s| ==> IsSpace(s[i])
  {
    if s != [] && IsSpace(s[|s| - 1]) then RStrip(s[..|s| - 1]) else s
  }

  /** `str.strip()`. */
  function Strip(s: string): string {
    RStrip(LStrip(s))
  }

  /** Python's `t in s` for strings. */
  predicate Contains(s: string, t: string)
    decreases |s|
  {
    (|t| <= |s| && s[..|t|] == t) || (s != [] && Contains(s[1..], t))
  }

  /** `s.replace(o, n)`: every non-overlapping occurrence of `o`, scanned from the left, becomes `n`. */
  function Replace(s: string, o: string, n: string): string
    requires o != []
    decreases |s|
  {
    if |s| < |o| then s
    else if s[..|o|] == o then n + Replace(s[|o|..], o, n)
    else [s[0]] + Replace(s[1..], o, n)
  }

  /** `filter(str.isdigit, s)`, joined. */
  function DigitsOf(s: string): (r: string)
    ensures forall i :: 0 <= i < |r| ==> IsDigitChar(r[i])
  {
    if s == [] then []
    else DigitsOf(s[..|s| - 1]) + (if IsDigitChar(s[|s| - 1]) then [s[|s| - 1]] else [])
  }

  function DigitValue(c: char): nat
    requires IsDecimal(c)
  {
    c as int - '0' as int
  }

  function DigitChar(d: nat): (c: char)
    requires d < 10
  {
    ('0' as int + d) as char
  }

  /** The number a string of decimal digits spells, most significant first ("007" is 7). */
  function Value(s: string): nat
    requires IsNumeral(s)
  {
    if s == [] then 0 else 10 * Value(s[..|s| - 1]) + DigitValue(s[|s| - 1])
  }

  /** The decimal numeral of `n`, without leading zeros. */
  function Show(n: nat): (r: string)
    ensures IsNumeral(r) && r != []
  {
    if n < 10 then [DigitChar(n)] else Show(n / 10) + [DigitChar(n % 10)]
  }

  /** `Show` is a right inverse of `Value`: reading back a printed number gives it back. */
  lemma {:induction false} ValueShow(n: nat)
    ensures Value(Show(n)) == n
  {
    if n >= 10 {
      var s := Show(n);
      assert s[..|s| - 1] == Show(n / 10);
      ValueShow(n / 10);
    }
  }

  /** `Value` reads digits positionally: appending digits shifts the prefix left. */
  lemma {:induction false} ValueAppend(a: string, b: string)
    requires IsNumeral(a) && IsNumeral(b)
    ensures IsNumeral(a + b)
    ensures Value(a + b) == Value(a) * Pow10(|b|) + Value(b)
    decreases |b|
  {
    if b == [] {
      assert a + b == a;
    } else {
      var b' := b[..|b| - 1];
      assert (a + b)[..|a + b| - 1] == a + b';
      assert (a + b)[|a + b| - 1] == b[|b| - 1];
      ValueAppend(a, b');
      ShiftDigit(Value(a), Pow10(|b'|), Value(b'), DigitValue(b[|b| - 1]));
    }
  }

  /** The arithmetic step of `ValueAppend`: one more digit on the right. */
  lemma ShiftDigit(va: int, p: int, vb: int, d: int)
    ensures 10 * (va * p + vb) + d == va * (10 * p) + (10 * vb + d)
  {
  }

  function Pow10(k: nat): (r: nat)
    ensures r > 0
  {
    if k == 0 then 1 else 10 * Pow10(k - 1)
  }

  /** Membership of one character, as a substring test. */
  lemma {:induction false} ContainsChar(s: string, c: char)
    ensures Contains(s, [c]) <==> c in s
    decreases |s|
  {
    if s != [] {
      ContainsChar(s[1..], c);
      assert s == [s[0]] + s[1..];
    }
  }

  /** Replacing `o` by `n` neither creates nor removes a character that occurs in neither. */
  lemma {:induction false} ReplaceKeeps(s: string, o: string, n: string, c: char)
    requires o != [] && c !in o && c !in n
    ensures c in Replace(s, o, n) <==> c in s
    decreases |s|
  {
    if |s| < |o| {
    } else if s[..|o|] == o {
      ReplaceKeeps(s[|o|..], o, n, c);
      assert s == s[..|o|] + s[|o|..];
    } else {
      ReplaceKeeps(s[1..], o, n, c);
      assert s == [s[0]] + s[1..];
    }
  }

  /** Replacing every `c` by a string without `c` leaves no `c` behind. */
  lemma {:induction false} ReplaceRemoves(s: string, c: char, n: string)
    requires c !in n
    ensures c !in Replace(s, [c], n)
    decreases |s|
  {
    if |s| >= 1 {
      ReplaceRemoves(s[1..], c, n);
    }
  }

  /** Replacing one character by another is a pointwise map: each `a` becomes `b` and every
      other character stays where it was. */
  lemma {:induction false} ReplaceChar(s: string, a: char, b: char)
    ensures |Replace(s, [a], [b])| == |s|
    ensures forall i :: 0 <= i < |s| ==> Replace(s, [a], [b])[i] == (if s[i] == a then b else s[i])
    decreases |s|
  {
    if s != [] {
      ReplaceChar(s[1..], a, b);
      assert s[..1] == [s[0]];
      assert Replace(s, [a], [b]) == [if s[0] == a then b else s[0]] + Replace(s[1..], [a], [b]);
    }
  }

  /** A prefix that cannot start an occurrence of `o` passes through `replace` untouched. */
  lemma {:induction false} ReplaceSkips(a: string, b: string, o: string, n: string)
    requires o != [] && o[0] !in a
    ensures Replace(a + b, o, n) == a + Replace(b, o, n)
    decreases |a|
  {
    if a != [] {
      var s := a + b;
      assert s[1..] == a[1..] + b;
      ReplaceSkips(a[1..], b, o, n);
      if |s| >= |o| {
        assert s[..|o|][0] == a[0];
        assert s[..|o|] != o;
        assert Replace(s, o, n) == [a[0]] + Replace(a[1..] + b, o, n);
        assert a == [a[0]] + a[1..];
      } else {
        assert Replace(b, o, n) == b;
        assert Replace(s, o, n) == s;
      }
    } else {
      assert a + b == b;
    }
  }

  /** A text that is exactly `o` is replaced whole. */
  lemma ReplaceSelf(o: string, n: string)
    requires o != []
    ensures Replace(o, o, n) == n
  {
    assert o[..|o|] == o && o[|o|..] == [];
    assert n + [] == n;
  }

  /** An occurrence at the very start is replaced, and the scan goes on after it. */
  lemma ReplaceFront(o: string, rest: string, n: string)
    requires o != []
    ensures Replace(o + rest, o, n) == n + Replace(rest, o, n)
  {
    assert (o + rest)[..|o|] == o && (o + rest)[|o|..] == rest;
  }

  /** A text with a single occurrence of a one-character `o` has just that one replaced. */
  lemma ReplaceOnce(a: string, o: string, b: string, n: string)
    requires |o| == 1 && o[0] !in a && o[0] !in b
    ensures Replace(a + o + b, o, n) == a + n + b
  {
    assert a + o + b == a + (o + b);
    ReplaceSkips(a, o + b, o, n);
    ReplaceFront(o, b, n);
    ReplaceAbsent(b, o, n);
    assert a + (n + b) == a + n + b;
  }

  /** One leading space is stripped from text that has no other surrounding space. */
  lemma StripPadded(x: string)
    requires x != [] && !IsSpace(x[0]) && !IsSpace(x[|x| - 1])
    ensures Strip(" " + x) == x
  {
    StripCore(" ", x, "");
    assert " " + x + "" == " " + x;
  }

  /** One trailing space is stripped from text that has no other surrounding space. */
  lemma StripTrailing(x: string)
    requires x != [] && !IsSpace(x[0]) && !IsSpace(x[|x| - 1])
    ensures Strip(x + " ") == x
  {
    StripCore("", x, " ");
    assert "" + x + " " == x + " ";
  }

  /** An occurrence at the very end, with no earlier start of `o`, is the one replaced. */
  lemma ReplaceTail(a: string, o: string, n: string)
    requires o != [] && o[0] !in a
    ensures Replace(a + o, o, n) == a + n
  {
    ReplaceSkips(a, o, o, n);
    ReplaceSelf(o, n);
  }

  /** Stripping removes only whitespace, so non-space characters survive it. */
  lemma StripKeeps(s: string, c: char)
    requires !IsSpace(c)
    ensures c in Strip(s) <==> c in s
  {
    var l := LStrip(s);
    if c in s {
      var i :| 0 <= i < |s| && s[i] == c;
      assert l[i - (|s| - |l|)] == c;
      assert Strip(s)[i - (|s| - |l|)] == c;
    }
  }

  /** The digits that `filter(str.isdigit, …)` keeps are those of the text, in order. */
  lemma {:induction false} DigitsOfKeeps(s: string, c: char)
    requires IsDigitChar(c)
    ensures c in DigitsOf(s) <==> c in s
    decreases |s|
  {
    if s != [] {
      DigitsOfKeeps(s[..|s| - 1], c);
      assert s == s[..|s| - 1] + [s[|s| - 1]];
    }
  }

  /** A string made only of decimal digits is unchanged by the digit filter. */
  lemma {:induction false} DigitsOfNumeral(s: string)
    requires IsNumeral(s)
    ensures DigitsOf(s) == s
    decreases |s|
  {
    if s != [] {
      DigitsOfNumeral(s[..|s| - 1]);
    }
  }

  /** Lower-casing only touches 'A'..'Z', so text without them is its own lower case. */
  lemma LowerPlain(s: string)
    requires forall i :: 0 <= i < |s| ==> !('A' <= s[i] <= 'Z')
    ensures Lower(s) == s
  {
  }

  lemma LowerAppend(a: string, b: string)
    ensures Lower(a + b) == Lower(a) + Lower(b)
  {
  }

  /** Text that never starts an occurrence of `o` comes out of `replace` unchanged. */
  lemma ReplaceAbsent(s: string, o: string, n: string)
    requires o != [] && o[0] !in s
    ensures Replace(s, o, n) == s
  {
    ReplaceSkips(s, [], o, n);
    assert s + [] == s;
  }

  /** A text contains every suffix of it. */
  lemma {:induction false} ContainsSuffix(a: string, t: string)
    ensures Contains(a + t, t)
    decreases |a|
  {
    if a == [] {
      assert (a + t)[..|t|] == t;
    } else {
      assert (a + t)[1..] == a[1..] + t;
      ContainsSuffix(a[1..], t);
    }
  }

  /** A substring's first character is a character of the text. */
  lemma {:induction false} ContainsHead(s: string, t: string)
    requires t != [] && Contains(s, t)
    ensures t[0] in s
    decreases |s|
  {
    if |t| <= |s| && s[..|t|] == t {
      assert s[0] == t[0];
    } else {
      ContainsHead(s[1..], t);
    }
  }

  /** Stripping drops exactly the surrounding whitespace. */
  lemma StripCore(pre: string, x: string, post: string)
    requires forall i :: 0 <= i < |pre| ==> IsSpace(pre[i])
    requires forall i :: 0 <= i < |post| ==> IsSpace(post[i])
    requires x != [] && !IsSpace(x[0]) && !IsSpace(x[|x| - 1])
    ensures Strip(pre + x + post) == x
  {
    assert pre + x + post == pre + (x + post);
    assert (x + post)[0] == x[0];
    LStripSpaces(pre, x + post);
    RStripSpaces(x, post);
  }

  /** Leading whitespace is dropped up to the first non-space character. */
  lemma {:induction false} LStripSpaces(pre: string, y: string)
    requires forall i :: 0 <= i < |pre| ==> IsSpace(pre[i])
    requires y == [] || !IsSpace(y[0])
    ensures LStrip(pre + y) == y
    decreases |pre|
  {
    if pre == [] {
      assert pre + y == y;
    } else {
      assert (pre + y)[0] == pre[0];
      assert (pre + y)[1..] == pre[1..] + y;
      LStripSpaces(pre[1..], y);
    }
  }

  /** Trailing whitespace is dropped back to the last non-space character. */
  lemma {:induction false} RStripSpaces(y: string, post: string)
    requires forall i :: 0 <= i < |post| ==> IsSpace(post[i])
    requires y == [] || !IsSpace(y[|y| - 1])
    ensures RStrip(y + post) == y
    decreases |post|
  {
    if post == [] {
      assert y + post == y;
    } else {
      var k := |y + post| - 1;
      assert (y + post)[k] == post[|post| - 1];
      assert (y + post)[..k] == y + post[..|post| - 1];
      RStripSpaces(y, post[..|post| - 1]);
    }
  }

  /** Every character of a substring is a character of the text. */
  lemma {:induction false} ContainsAt(s: string, t: string, j: int)
    requires Contains(s, t) && 0 <= j < |t|
    ensures t[j] in s
    decreases |s|
  {
    if |t| <= |s| && s[..|t|] == t {
      assert s[j] == t[j];
    } else {
      ContainsAt(s[1..], t, j);
    }
  }

  /** A numeral of k digits spells a number below 10^k. */
  lemma {:induction false} ValueBound(s: string)
    requires IsNumeral(s)
    ensures Value(s) < Pow10(|s|)
    decreases |s|
  {
    if s != [] {
      ValueBound(s[..|s| - 1]);
    }
  }
}
