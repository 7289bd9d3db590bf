/** The text handling applied to a snapshot's raw price: Python's
    `str.replace`, `str.strip` and `int` on a base-10 string, and `str` on an
    integer. Only ASCII digits are read as digits. */
module PriceText {
  import opened Wrappers

  /** The characters Python's `str.strip()` removes when given no argument. */
  predicate IsSpace(c: char)
  {
    || c == ' '
    || ('\t' <= c <= '\r')
    || ('\U{1C}' <= c <= '\U{1F}')
    || c == '\U{85}' || c == '\U{A0}' || c == '\U{1680}'
    || ('\U{2000}' <= c <= '\U{200A}')
    || c == '\U{2028}' || c == '\U{2029}' || c == '\U{202F}' || c == '\U{205F}' || c == '\U{3000}'
  }

  /** `s.replace(pat, '')`: deletes the occurrences of `pat` found by a
      left-to-right scan that does not overlap them. */
  function RemoveAll(s: string, pat: string): (r: string)
    requires |pat| > 0
    ensures |r| <= |s|
    ensures forall c :: c in r ==> c in s
    decreases |s|
  {
    if |s| == 0 then []
    else if |pat| <= |s| && s[..|pat|] == pat then RemoveAll(s[|pat|..], pat)
    else [s[0]] + RemoveAll(s[1..], pat)
  }

  /** A string that cannot even start an occurrence of `pat` is left as is. */
  lemma {:induction false} RemoveAllAbsent(s: string, pat: string)
    requires |pat| > 0
    requires pat[0] !in s
    ensures RemoveAll(s, pat) == s
    decreases |s|
  {
    if |s| > 0 {
      assert s[0] != pat[0];
      RemoveAllAbsent(s[1..], pat);
      assert s == [s[0]] + s[1..];
    }
  }

  /** A prefix that holds no first character of `pat` passes through unchanged. */
  lemma {:induction false} RemoveAllSkips(u: string, t: string, pat: string)
    requires |pat| > 0
    requires pat[0] !in u
    ensures RemoveAll(u + t, pat) == u + RemoveAll(t, pat)
    decreases |u|
  {
    if |u| == 0 {
      assert u + t == t;
    } else {
      var s := u + t;
      assert s[0] == u[0] != pat[0];
      if |pat| <= |s| {
        assert s[..|pat|][0] == s[0];
      }
      assert s[1..] == u[1..] + t;
      RemoveAllSkips(u[1..], t, pat);
      assert u == [u[0]] + u[1..];
    }
  }

  /** An occurrence of `pat` at the front is deleted. */
  lemma RemoveAllDrops(pat: string, t: string)
    requires |pat| > 0
    ensures RemoveAll(pat + t, pat) == RemoveAll(t, pat)
  {
    var s := pat + t;
    assert s[..|pat|] == pat;
    assert s[|pat|..] == t;
  }

  /** Removing a one-character pattern removes every copy of that character
      and every other character still occurs exactly when it occurred. */
  lemma {:induction false} RemoveCharDeletesAll(s: string, c: char)
    ensures c !in RemoveAll(s, [c])
    ensures forall d :: d != c ==> (d in RemoveAll(s, [c]) <==> d in s)
    decreases |s|
  {
    if |s| > 0 {
      RemoveCharDeletesAll(s[1..], c);
      assert s == [s[0]] + s[1..];
    }
  }

  /** The number of whitespace characters `s` starts with. */
  function LeadingSpace(s: string): (n: nat)
    ensures n <= |s|
    ensures forall k :: 0 <= k < n ==> IsSpace(s[k])
    ensures n < |s| ==> !IsSpace(s[n])
    decreases |s|
  {
    if |s| > 0 && IsSpace(s[0]) then
      var n := 1 + LeadingSpace(s[1..]);
      assert forall k :: 1 <= k < n ==> s[k] == s[1..][k - 1];
      n
    else 0
  }

  /** The number of whitespace characters `s` ends with. */
  function TrailingSpace(s: string): (n: nat)
    ensures n <= |s|
    ensures forall k :: |s| - n <= k < |s| ==> IsSpace(s[k])
    ensures n < |s| ==> !IsSpace(s[|s| - n - 1])
    decreases |s|
  {
    if |s| > 0 && IsSpace(s[|s| - 1]) then
      var n := 1 + TrailingSpace(s[..|s| - 1]);
      assert forall k :: |s| - n <= k < |s| - 1 ==> s[k] == s[..|s| - 1][k];
      n
    else 0
  }

  /** `r` is what is left of `s` once whitespace is cut from both ends, and
      `r` starts at index `i` of `s`. */
  predicate StrippedAt(s: string, r: string, i: nat)
  {
    && i + |r| <= |s|
    && r == s[i..i + |r|]
    && (forall k :: 0 <= k < i ==> IsSpace(s[k]))
    && (forall k :: i + |r| <= k < |s| ==> IsSpace(s[k]))
  }

  /** The infix `s[i..j]` of `s` with only whitespace outside it is what is
      left of `s` once whitespace is cut from both ends. */
  lemma InfixStripped(s: string, i: nat, j: nat)
    requires i <= j <= |s|
    requires forall k :: 0 <= k < i ==> IsSpace(s[k])
    requires forall k :: j <= k < |s| ==> IsSpace(s[k])
    requires i < j ==> !IsSpace(s[i]) && !IsSpace(s[j - 1])
    ensures StrippedAt(s, s[i..j], i)
    ensures forall c :: c in s[i..j] ==> c in s
    ensures |s[i..j]| > 0 ==> !IsSpace(s[i..j][0]) && !IsSpace(s[i..j][|s[i..j]| - 1])
  {
    forall c | c in s[i..j] ensures c in s {
      var k :| 0 <= k < j - i && s[i..j][k] == c;
      assert s[i + k] == c;
    }
  }

  /** `s.strip()`: the infix of `s` left once whitespace is removed from both
      ends; it neither starts nor ends with whitespace. */
  function Strip(s: string): (r: string)
    ensures |r| > 0 ==> !IsSpace(r[0]) && !IsSpace(r[|r| - 1])
    ensures exists i :: StrippedAt(s, r, i)
    ensures forall c :: c in r ==> c in s
  {
    var i := LeadingSpace(s);
    var j := i + |s[i..]| - TrailingSpace(s[i..]);
    StripBounds(s, i, j);
    InfixStripped(s, i, j);
    s[i..j]
  }

  /** The cut made by `Strip` at `i` and `j`: only whitespace lies outside it,
      and the part kept neither starts nor ends with whitespace. */
  lemma StripBounds(s: string, i: nat, j: nat)
    requires i == LeadingSpace(s)
    requires j == i + |s[i..]| - TrailingSpace(s[i..])
    ensures i <= j <= |s|
    ensures forall k :: 0 <= k < i ==> IsSpace(s[k])
    ensures forall k :: j <= k < |s| ==> IsSpace(s[k])
    ensures i < j ==> !IsSpace(s[i]) && !IsSpace(s[j - 1])
  {
    var rest := s[i..];
    assert forall k :: j <= k < |s| ==> s[k] == rest[k - i];
    if i < j {
      assert s[j - 1] == rest[j - i - 1];
    }
  }

  /** A string with no whitespace at either end is its own strip. */
  lemma StripNoEdges(s: string)
    requires |s| > 0 && !IsSpace(s[0]) && !IsSpace(s[|s| - 1])
    ensures Strip(s) == s
  {
  }

  predicate IsDigit(c: char)
  {
    '0' <= c <= '9'
  }

  function DigitValue(c: char): (d: nat)
    requires IsDigit(c)
    ensures d < 10
  {
    (c as int) - ('0' as int)
  }

  function DigitChar(d: nat): (c: char)
    requires d < 10
    ensures IsDigit(c) && DigitValue(c) == d
  {
    (('0' as int) + d) as char
  }

  /** Python's grouping rule for the digits of an integer literal: every
      character is a digit, or an underscore directly followed by a digit. */
  predicate Grouped(s: string)
  {
    forall i {:trigger s[i]} :: 0 <= i < |s| ==> IsDigit(s[i]) || (s[i] == '_' && i + 1 < |s| && IsDigit(s[i + 1]))
  }

  /** The digit part of a base-10 literal: starts with a digit, grouped. */
  predicate DigitPart(s: string)
  {
    |s| > 0 && IsDigit(s[0]) && Grouped(s)
  }

  /** What `int()` accepts once the string is stripped: an optional sign, then
      a digit part. */
  predicate IsIntLiteral(s: string)
  {
    if |s| > 0 && (s[0] == '+' || s[0] == '-') then DigitPart(s[1..]) else DigitPart(s)
  }

  /** The number the digits of `s` denote, read positionally, underscores skipped. */
  function DigitsValue(s: string): nat
  {
    if |s| == 0 then 0
    else if IsDigit(s[|s| - 1]) then 10 * DigitsValue(s[..|s| - 1]) + DigitValue(s[|s| - 1])
    else DigitsValue(s[..|s| - 1])
  }

  function NumDigits(s: string): nat
  {
    if |s| == 0 then 0
    else if IsDigit(s[|s| - 1]) then NumDigits(s[..|s| - 1]) + 1
    else NumDigits(s[..|s| - 1])
  }

  function Pow10(n: nat): (p: nat)
    ensures p > 0
  {
    if n == 0 then 1 else 10 * Pow10(n - 1)
  }

  /** The value of a literal accepted by `int()`. */
  function LiteralValue(s: string): int
    requires IsIntLiteral(s)
  {
    if s[0] == '-' then -(DigitsValue(s[1..]) as int)
    else if s[0] == '+' then DigitsValue(s[1..])
    else DigitsValue(s)
  }

  /** Counting the digits of a literal from the left. */
  lemma {:induction false} NumDigitsFront(c: char, t: string)
    ensures NumDigits([c] + t) == (if IsDigit(c) then 1 else 0) + NumDigits(t)
    decreases |t|
  {
    var s := [c] + t;
    if |t| > 0 {
      var t' := t[..|t| - 1];
      assert s[..|s| - 1] == [c] + t';
      assert s[|s| - 1] == t[|t| - 1];
      NumDigitsFront(c, t');
    } else {
      assert s[..0] == [];
    }
  }

  /** Appending a digit to both sides of a positional sum. */
  lemma ShiftDigit(x: int, p: int, v: int, l: int)
    ensures 10 * (x * p + v) + l == x * (10 * p) + (10 * v + l)
  {
  }

  /** Reading the digits of a literal from the left: the first character is
      the most significant. */
  lemma {:induction false} DigitsValueFront(c: char, t: string)
    ensures DigitsValue([c] + t) ==
      (if IsDigit(c) then DigitValue(c) * Pow10(NumDigits(t)) else 0) + DigitsValue(t)
    decreases |t|
  {
    var s := [c] + t;
    var x := if IsDigit(c) then DigitValue(c) else 0;
    if |t| > 0 {
      var t' := t[..|t| - 1];
      var last := t[|t| - 1];
      assert s[..|s| - 1] == [c] + t';
      assert s[|s| - 1] == last;
      DigitsValueFront(c, t');
      var p := Pow10(NumDigits(t'));
      assert DigitsValue([c] + t') == x * p + DigitsValue(t');
      if IsDigit(last) {
        assert DigitsValue(s) == 10 * DigitsValue([c] + t') + DigitValue(last);
        assert DigitsValue(t) == 10 * DigitsValue(t') + DigitValue(last);
        assert Pow10(NumDigits(t)) == 10 * p;
        ShiftDigit(x, p, DigitsValue(t'), DigitValue(last));
      } else {
        assert DigitsValue(s) == DigitsValue([c] + t');
        assert DigitsValue(t) == DigitsValue(t');
        assert NumDigits(t) == NumDigits(t');
      }
    } else {
      assert s[..0] == [];
    }
  }

  /** The grouping rule seen one character at a time from the left. */
  lemma GroupedFront(t: string)
    requires |t| > 0
    ensures Grouped(t) <==>
      && (IsDigit(t[0]) || (t[0] == '_' && |t| > 1 && IsDigit(t[1])))
      && Grouped(t[1..])
  {
    if Grouped(t) {
      forall i | 0 <= i < |t[1..]|
        ensures IsDigit(t[1..][i]) || (t[1..][i] == '_' && i + 1 < |t[1..]| && IsDigit(t[1..][i + 1]))
      {
        assert t[1..][i] == t[i + 1];
        assert IsDigit(t[i + 1]) || (t[i + 1] == '_' && i + 2 < |t| && IsDigit(t[i + 2]));
        if i + 1 < |t[1..]| {
          assert t[1..][i + 1] == t[i + 2];
        }
      }
    }
    if (IsDigit(t[0]) || (t[0] == '_' && |t| > 1 && IsDigit(t[1]))) && Grouped(t[1..]) {
      forall i | 0 <= i < |t| ensures IsDigit(t[i]) || (t[i] == '_' && i + 1 < |t| && IsDigit(t[i + 1])) {
        if i > 0 {
          assert t[i] == t[1..][i - 1];
          assert IsDigit(t[1..][i - 1]) || (t[1..][i - 1] == '_' && i < |t[1..]| && IsDigit(t[1..][i]));
          if i + 1 < |t| {
            assert t[i + 1] == t[1..][i];
          }
        }
      }
    }
  }

  /** Reading a leading digit into the value read so far. */
  lemma ScanDigitFront(t: string, acc: nat)
    requires |t| > 0 && IsDigit(t[0])
    ensures acc * Pow10(NumDigits(t)) + DigitsValue(t) ==
      (10 * acc + DigitValue(t[0])) * Pow10(NumDigits(t[1..])) + DigitsValue(t[1..])
  {
    var rest := t[1..];
    var d := DigitValue(t[0]);
    var p := Pow10(NumDigits(rest));
    assert Pow10(NumDigits(t)) == 10 * p by {
      assert [t[0]] + rest == t;
      NumDigitsFront(t[0], rest);
    }
    assert DigitsValue(t) == d * p + DigitsValue(rest) by {
      assert [t[0]] + rest == t;
      DigitsValueFront(t[0], rest);
    }
    calc {
      acc * Pow10(NumDigits(t)) + DigitsValue(t);
      acc * (10 * p) + d * p + DigitsValue(rest);
      { ShiftAccumulator(acc, d, p); }
      (10 * acc + d) * p + DigitsValue(rest);
    }
  }

  /** Moving a digit into the accumulator of a positional sum. */
  lemma ShiftAccumulator(acc: int, d: int, p: int)
    ensures acc * (10 * p) + d * p == (10 * acc + d) * p
  {
  }

  /** Skipping a leading underscore leaves the value read so far as it is. */
  lemma ScanSeparatorFront(t: string, acc: nat)
    requires |t| > 0 && t[0] == '_'
    ensures acc * Pow10(NumDigits(t)) + DigitsValue(t) ==
      acc * Pow10(NumDigits(t[1..])) + DigitsValue(t[1..])
  {
    NumDigitsFront(t[0], t[1..]);
    DigitsValueFront(t[0], t[1..]);
    assert [t[0]] + t[1..] == t;
  }

  /** Scans the rest `t` of a digit part left to right, as `int()` does: `acc`
      is the value read so far and `afterSep` says that the previous
      character was an underscore. */
  function ScanDigits(t: string, acc: nat, afterSep: bool): (r: Option<nat>)
    ensures r.Some? <==> Grouped(t) && (afterSep ==> |t| > 0 && IsDigit(t[0]))
    ensures r.Some? ==> r.value == acc * Pow10(NumDigits(t)) + DigitsValue(t)
    decreases |t|
  {
    if |t| == 0 then
      if afterSep then None else Some(acc)
    else if IsDigit(t[0]) then
      GroupedFront(t);
      ScanDigitFront(t, acc);
      ScanDigits(t[1..], 10 * acc + DigitValue(t[0]), false)
    else if t[0] == '_' && !afterSep then
      GroupedFront(t);
      ScanSeparatorFront(t, acc);
      ScanDigits(t[1..], acc, true)
    else
      None
  }

  /** `int()` on an unsigned digit part. */
  function ParseUnsigned(b: string): (r: Option<nat>)
    ensures r.Some? <==> DigitPart(b)
    ensures r.Some? ==> r.value == DigitsValue(b)
  {
    if |b| == 0 || !IsDigit(b[0]) then None
    else
      GroupedFront(b);
      NumDigitsFront(b[0], b[1..]);
      DigitsValueFront(b[0], b[1..]);
      assert [b[0]] + b[1..] == b;
      ScanDigits(b[1..], DigitValue(b[0]), false)
  }

  /** `int(s)` for a string `s` that has already been stripped: the literal's
      value, or None where Python raises ValueError. */
  function ParseInt(s: string): (r: Option<int>)
    ensures r.Some? <==> IsIntLiteral(s)
    ensures r.Some? ==> r.value == LiteralValue(s)
  {
    if |s| > 0 && (s[0] == '+' || s[0] == '-') then
      match ParseUnsigned(s[1..])
      case None => None
      case Some(v) => if s[0] == '-' then Some(-(v as int)) else Some(v as int)
    else
      match ParseUnsigned(s)
      case None => None
      case Some(v) => Some(v as int)
  }

  /** `str(n)` for a natural number: its decimal digits, most significant first. */
  function NatText(n: nat): (s: string)
    ensures |s| > 0
    ensures forall i :: 0 <= i < |s| ==> IsDigit(s[i])
    decreases n
  {
    if n < 10 then [DigitChar(n)] else NatText(n / 10) + [DigitChar(n % 10)]
  }

  /** `str(n)` for an integer: a minus sign before the digits of a negative number. */
  function IntText(n: int): (s: string)
    ensures |s| > 0
  {
    if n < 0 then "-" + NatText(-n) else NatText(n)
  }

  /** The digits of `str(n)` denote `n`. */
  lemma {:induction false} NatTextValue(n: nat)
    ensures DigitsValue(NatText(n)) == n
    decreases n
  {
    var s := NatText(n);
    if n >= 10 {
      NatTextValue(n / 10);
      assert s[..|s| - 1] == NatText(n / 10);
    } else {
      assert s[..0] == [];
    }
  }

  /** `int(str(n)) == n` for every integer. */
  lemma ParseIntText(n: int)
    ensures ParseInt(IntText(n)) == Some(n)
  {
    var m := if n < 0 then -n else n;
    var digits := NatText(m);
    NatTextValue(m);
    assert DigitPart(digits);
    if n < 0 {
      assert IntText(n)[1..] == digits;
    }
  }

  /** The price text as the tracker cleans it before `int()`: thousands
      separators and the " NESO" currency suffix removed, then stripped. */
  function Normalize(raw: string): (r: string)
    ensures |r| <= |raw|
    ensures ',' !in r
    ensures |r| > 0 ==> !IsSpace(r[0]) && !IsSpace(r[|r| - 1])
  {
    var noCommas := RemoveAll(raw, ",");
    RemoveCharDeletesAll(raw, ',');
    Strip(RemoveAll(noCommas, " NESO"))
  }

  /** The whole price reading: the cleaned text parsed as `int()` would. */
  function ReadPrice(raw: string): (r: Option<int>)
    ensures r.Some? <==> IsIntLiteral(Normalize(raw))
    ensures r.Some? ==> r.value == LiteralValue(Normalize(raw))
  {
    ParseInt(Normalize(raw))
  }

  /** The text of an integer has nothing for the cleaning to remove. */
  lemma NormalizeIntText(n: int)
    ensures Normalize(IntText(n)) == IntText(n)
  {
    var s := IntText(n);
    var digits := NatText(if n < 0 then -n else n);
    assert forall k :: 0 <= k < |s| ==> s[k] == '-' || IsDigit(s[k]) by {
      if n < 0 {
        assert forall k :: 1 <= k < |s| ==> s[k] == digits[k - 1];
      }
    }
    RemoveAllAbsent(s, ",");
    RemoveAllAbsent(s, " NESO");
    StripNoEdges(s);
  }

  /** A number that reaches the tracker as a JSON number is read back as itself. */
  lemma ReadPriceOfNumber(n: int)
    ensures ReadPrice(IntText(n)) == Some(n)
  {
    NormalizeIntText(n);
    ParseIntText(n);
  }

  /** "h,ddd NESO" reads as the four-digit number hddd. */
  lemma ReadThousandsValue(h: string, d: string)
    requires |h| == 1 && |d| == 3
    requires IsDigit(h[0]) && IsDigit(d[0]) && IsDigit(d[1]) && IsDigit(d[2])
    ensures ReadPrice(h + "," + d + " NESO") ==
      Some(1000 * DigitValue(h[0]) + 100 * DigitValue(d[0]) + 10 * DigitValue(d[1]) + DigitValue(d[2]))
  {
    ReadThousands(h, d);
    FourDigits(h + d);
  }

  /** A run of four digits is a literal with the positional value. */
  lemma FourDigits(n: string)
    requires |n| == 4 && IsDigit(n[0]) && IsDigit(n[1]) && IsDigit(n[2]) && IsDigit(n[3])
    ensures IsIntLiteral(n)
    ensures LiteralValue(n) == 1000 * DigitValue(n[0]) + 100 * DigitValue(n[1]) + 10 * DigitValue(n[2]) + DigitValue(n[3])
  {
    assert n[..3][..2][..1][..0] == [];
    assert DigitsValue(n[..1]) == DigitValue(n[0]);
    assert DigitsValue(n[..2]) == 10 * DigitValue(n[0]) + DigitValue(n[1]) by {
      assert n[..2][..1] == n[..1];
    }
    assert DigitsValue(n[..3]) == 100 * DigitValue(n[0]) + 10 * DigitValue(n[1]) + DigitValue(n[2]) by {
      assert n[..3][..2] == n[..2];
    }
    assert n[..4] == n;
    assert Grouped(n);
  }

  lemma ReadThousandsExample()
    ensures ReadPrice("1,000 NESO") == Some(1000)
  {
    ReadThousandsValue("1", "000");
    ThousandsText();
  }

  lemma ThousandsText()
    ensures "1" + "," + "000" + " NESO" == "1,000 NESO"
  {
  }

  lemma ReadZeroExample()
    ensures ReadPrice("0") == Some(0)
  {
    ReadPriceOfNumber(0);
    assert IntText(0) == "0";
  }

  lemma ReadNegativeExample()
    ensures ReadPrice("-5") == Some(-5)
  {
    ReadPriceOfNumber(-5);
    assert IntText(-5) == "-5";
  }

  lemma ReadWordExample()
    ensures ReadPrice("abc") == None
  {
    RemoveAllAbsent("abc", ",");
    RemoveAllAbsent("abc", " NESO");
    StripNoEdges("abc");
  }

  /** "h,ddd NESO" is cleaned to "hddd". */
  lemma ReadThousands(h: string, d: string)
    requires |h| == 1 && |d| == 3
    requires IsDigit(h[0]) && IsDigit(d[0]) && IsDigit(d[1]) && IsDigit(d[2])
    ensures Normalize(h + "," + d + " NESO") == h + d
  {
    DropThousandsSeparator(h, d);
    DropCurrency(h + d);
    StripNoEdges(h + d);
  }

  lemma DropThousandsSeparator(h: string, d: string)
    requires |h| == 1 && |d| == 3
    requires IsDigit(h[0]) && IsDigit(d[0]) && IsDigit(d[1]) && IsDigit(d[2])
    ensures RemoveAll(h + "," + d + " NESO", ",") == (h + d) + " NESO"
  {
    var withUnit := d + " NESO";
    assert h + "," + d + " NESO" == h + ("," + withUnit);
    RemoveAllSkips(h, "," + withUnit, ",");
    RemoveAllDrops(",", withUnit);
    assert ',' !in withUnit by {
      assert forall k :: 0 <= k < |withUnit| ==> withUnit[k] == (if k < 3 then d[k] else " NESO"[k - 3]);
    }
    RemoveAllAbsent(withUnit, ",");
    assert h + withUnit == (h + d) + " NESO";
  }

  lemma DropCurrency(n: string)
    requires forall k :: 0 <= k < |n| ==> IsDigit(n[k])
    ensures RemoveAll(n + " NESO", " NESO") == n
  {
    RemoveAllSkips(n, " NESO", " NESO");
    RemoveAllDrops(" NESO", []);
    assert " NESO" + [] == " NESO";
  }
}
