/**
 * The string primitives the scripts rely on, written out because Dafny's
 * `string` is only `seq<char>`: `String.prototype.split` and
 * `Array.prototype.join` with a one-character separator, the decimal text
 * of an integer (template-literal interpolation), and the decimal part of
 * the global `parseInt`.
 */
module Text {
  import opened Options

  /** Number of occurrences of `c` in `s`. */
  function Count(s: string, c: char): nat
  {
    if |s| == 0 then 0 else (if s[0] == c then 1 else 0) + Count(s[1..], c)
  }

  /**
   * `s.split(sep)`: the maximal `sep`-free segments of `s`, in order. An
   * empty string splits into one empty segment, and a trailing separator
   * yields a trailing empty segment.
   */
  function Split(s: string, sep: char): (parts: seq<string>)
    ensures |parts| >= 1
    ensures forall i :: 0 <= i < |parts| ==> sep !in parts[i]
  {
    if |s| == 0 then [""]
    else if s[0] == sep then [""] + Split(s[1..], sep)
    else
      var rest := Split(s[1..], sep);
      [[s[0]] + rest[0]] + rest[1..]
  }

  /** `parts.join(sep)`. */
  function Join(parts: seq<string>, sep: char): string
  {
    if |parts| == 0 then ""
    else if |parts| == 1 then parts[0]
    else parts[0] + [sep] + Join(parts[1..], sep)
  }

  /** Joining the segments back with the separator gives the original text. */
  lemma {:induction false} JoinSplit(s: string, sep: char)
    ensures Join(Split(s, sep), sep) == s
  {
    if |s| > 0 {
      var rest := Split(s[1..], sep);
      JoinSplit(s[1..], sep);
      if s[0] == sep {
        assert Join([""] + rest, sep) == [sep] + Join(rest, sep) by {
          assert ([""] + rest)[1..] == rest;
        }
      } else {
        JoinCons(s[0], rest, sep);
      }
      assert s == [s[0]] + s[1..];
    }
  }

  /** Putting a character in front of the first segment puts it in front of the join. */
  lemma JoinCons(c: char, rest: seq<string>, sep: char)
    requires |rest| >= 1
    ensures Join([[c] + rest[0]] + rest[1..], sep) == [c] + Join(rest, sep)
  {
    var parts := [[c] + rest[0]] + rest[1..];
    if |rest| > 1 {
      assert parts[1..] == rest[1..];
      assert Join(parts, sep) == parts[0] + [sep] + Join(rest[1..], sep);
    }
  }

  /** There is one segment more than there are separators. */
  lemma {:induction false} SplitCount(s: string, sep: char)
    ensures |Split(s, sep)| == Count(s, sep) + 1
  {
    if |s| > 0 {
      SplitCount(s[1..], sep);
    }
  }

  /** A separator-free string is a single segment. */
  lemma {:induction false} SplitNoSep(a: string, sep: char)
    requires sep !in a
    ensures Split(a, sep) == [a]
  {
    if |a| > 0 {
      SplitNoSep(a[1..], sep);
      assert a == [a[0]] + a[1..];
    }
  }

  /** A separator-free prefix followed by a separator is split off as the first segment. */
  lemma {:induction false} SplitAfterSegment(a: string, sep: char, b: string)
    requires sep !in a
    ensures Split(a + [sep] + b, sep) == [a] + Split(b, sep)
  {
    var s := a + [sep] + b;
    if |a| == 0 {
      assert s == [sep] + b;
      assert s[1..] == b;
    } else {
      assert s[0] == a[0];
      assert s[1..] == a[1..] + [sep] + b;
      SplitAfterSegment(a[1..], sep, b);
      assert a == [a[0]] + a[1..];
    }
  }

  /** Splitting a join of separator-free segments recovers the segments. */
  lemma {:induction false} SplitJoin(parts: seq<string>, sep: char)
    requires |parts| >= 1
    requires forall i :: 0 <= i < |parts| ==> sep !in parts[i]
    ensures Split(Join(parts, sep), sep) == parts
  {
    if |parts| == 1 {
      SplitNoSep(parts[0], sep);
    } else {
      SplitJoin(parts[1..], sep);
      SplitAfterSegment(parts[0], sep, Join(parts[1..], sep));
      assert parts == [parts[0]] + parts[1..];
    }
  }

  /** `b` contains `a` as a contiguous piece. */
  ghost predicate IsInfix(a: string, b: string)
  {
    exists i :: OccursAt(a, b, i)
  }

  /** `a` occurs in `b` starting at index `i`. */
  predicate OccursAt(a: string, b: string, i: int)
  {
    0 <= i && i + |a| <= |b| && b[i..i + |a|] == a
  }

  /** Both pieces of a three-part concatenation occur in it. */
  lemma InfixOfConcat(x: string, y: string, z: string)
    ensures IsInfix(y, x + y + z)
    ensures IsInfix(x, x + y + z)
    ensures IsInfix(z, x + y + z)
  {
    var s := x + y + z;
    assert OccursAt(y, s, |x|);
    assert OccursAt(x, s, 0);
    assert OccursAt(z, s, |x| + |y|);
  }

  predicate IsDigit(c: char)
  {
    '0' <= c <= '9'
  }

  predicate AllDigits(s: string)
  {
    forall i :: 0 <= i < |s| ==> IsDigit(s[i])
  }

  function DigitChar(d: nat): (c: char)
    requires d < 10
    ensures IsDigit(c)
  {
    "0123456789"[d]
  }

  function DigitValue(c: char): (d: nat)
    requires IsDigit(c)
    ensures d < 10
  {
    c as int - '0' as int
  }

  /** Decimal digits of `n`, most significant first, with no leading zeros. */
  function NatToString(n: nat): (s: string)
    ensures |s| >= 1
    ensures AllDigits(s)
  {
    if n < 10 then [DigitChar(n)] else NatToString(n / 10) + [DigitChar(n % 10)]
  }

  /**
   * `${i}` for an integer-valued number with `|i| < 1e21`; from 1e21 on
   * JavaScript writes the number in exponent form, which is not modelled.
   */
  function IntToString(i: int): string
  {
    if i < 0 then "-" + NatToString(-i) else NatToString(i)
  }

  /** The number a string of decimal digits denotes. */
  function DigitsValue(d: string): nat
    requires AllDigits(d)
  {
    if |d| == 0 then 0 else DigitsValue(d[..|d| - 1]) * 10 + DigitValue(d[|d| - 1])
  }

  /** Reading the decimal text of `n` gives back `n`. */
  lemma {:induction false} DigitsValueOfNat(n: nat)
    ensures DigitsValue(NatToString(n)) == n
  {
    var s := NatToString(n);
    if n < 10 {
      assert s[..0] == [];
    } else {
      DigitsValueOfNat(n / 10);
      assert s[..|s| - 1] == NatToString(n / 10);
    }
  }

  /** The longest prefix of `s` made of decimal digits. */
  function DigitPrefix(s: string): (d: string)
    ensures |d| <= |s|
    ensures AllDigits(d)
    ensures |d| == |s| || !IsDigit(s[|d|])
  {
    if |s| == 0 || !IsDigit(s[0]) then "" else [s[0]] + DigitPrefix(s[1..])
  }

  /** The digits read are the first characters of `s`. */
  lemma {:induction false} DigitPrefixIsPrefix(s: string)
    ensures DigitPrefix(s) == s[..|DigitPrefix(s)|]
  {
    if |s| > 0 && IsDigit(s[0]) {
      DigitPrefixIsPrefix(s[1..]);
    }
  }

  /**
   * The characters `parseInt` skips before the number: the white space of
   * ECMAScript (tab, vertical tab, form feed, the byte order mark and every
   * space separator of Unicode category Zs) and its four line terminators.
   */
  predicate IsSpace(c: char)
  {
    c == '\t' || c == '\U{000B}' || c == '\U{000C}' || c == '\U{FEFF}'
    || c == '\n' || c == '\r' || c == '\U{2028}' || c == '\U{2029}'
    || IsSpaceSeparator(c)
  }

  /** Unicode category Zs. */
  predicate IsSpaceSeparator(c: char)
  {
    c == ' ' || c == '\U{00A0}' || c == '\U{1680}' || ('\U{2000}' <= c <= '\U{200A}')
    || c == '\U{202F}' || c == '\U{205F}' || c == '\U{3000}'
  }

  predicate AllSpace(s: string)
  {
    forall i :: 0 <= i < |s| ==> IsSpace(s[i])
  }

  /** `s` with its leading white space removed. */
  function TrimStart(s: string): (t: string)
    ensures |t| <= |s|
    ensures |t| == 0 || !IsSpace(t[0])
  {
    if |s| > 0 && IsSpace(s[0]) then TrimStart(s[1..]) else s
  }

  /** What is left after the white space is the end of `s`. */
  lemma {:induction false} TrimStartIsSuffix(s: string)
    ensures TrimStart(s) == s[|s| - |TrimStart(s)|..]
  {
    if |s| > 0 && IsSpace(s[0]) {
      TrimStartIsSuffix(s[1..]);
    }
  }

  /**
   * The decimal `parseInt(s)`: skip leading white space, read an optional
   * sign and the longest run of digits after it, ignore the rest. `None`
   * stands for `NaN`, the answer when there is no digit to read.
   */
  function ParseInt(s: string): (r: Option<int>)
    ensures r.Some? <==> |DigitPrefix(Unsigned(TrimStart(s)))| > 0
  {
    var t := TrimStart(s);
    var digits := DigitPrefix(Unsigned(t));
    if |digits| == 0 then None
    else if |t| > 0 && t[0] == '-' then Some(0 - DigitsValue(digits))
    else Some(DigitsValue(digits))
  }

  /** `t` after its sign character, if it has one. */
  function Unsigned(t: string): (u: string)
    ensures |u| <= |t|
  {
    if |t| > 0 && (t[0] == '-' || t[0] == '+') then t[1..] else t
  }

  /** Reading back the decimal text of an integer gives the integer. */
  lemma ParseIntOfIntToString(i: int)
    ensures ParseInt(IntToString(i)) == Some(i)
  {
    if i < 0 {
      ParseIntOfNegative(i);
    } else {
      ParseIntOfNonNegative(i);
    }
  }

  lemma ParseIntOfNegative(i: int)
    requires i < 0
    ensures ParseInt(IntToString(i)) == Some(i)
  {
    var m: nat := -i;
    assert IntToString(i) == "-" + NatToString(m);
    ParseMinusNat(m);
  }

  /** A minus sign followed by the decimal text of `m` reads as `-m`. */
  lemma ParseMinusNat(m: nat)
    ensures ParseInt("-" + NatToString(m)) == Some(0 - m)
  {
    DigitsValueOfNat(m);
    ParseNegative(NatToString(m));
  }

  lemma ParseIntOfNonNegative(i: int)
    requires i >= 0
    ensures ParseInt(IntToString(i)) == Some(i)
  {
    var d := NatToString(i);
    assert IntToString(i) == d;
    ParseUnsigned(d);
    DigitsValueOfNat(i);
  }

  /** What `ParseInt` reads from a string with no leading space whose digits, after the sign, are `digits`. */
  lemma ParseIntValue(s: string, digits: string)
    requires TrimStart(s) == s && Unsigned(s) == digits
    requires DigitPrefix(digits) == digits && |digits| > 0
    ensures s[0] == '-' ==> ParseInt(s) == Some(0 - DigitsValue(digits))
    ensures s[0] != '-' ==> ParseInt(s) == Some(DigitsValue(digits))
  {
    assert DigitPrefix(Unsigned(TrimStart(s))) == digits;
  }

  lemma ParseUnsigned(digits: string)
    requires |digits| >= 1 && AllDigits(digits)
    ensures ParseInt(digits) == Some(DigitsValue(digits) as int)
  {
    assert IsDigit(digits[0]);
    NoTrim(digits);
    assert Unsigned(digits) == digits;
    DigitPrefixOfDigits(digits);
    ParseIntValue(digits, digits);
  }

  lemma ParseNegative(digits: string)
    requires |digits| >= 1 && AllDigits(digits)
    ensures ParseInt("-" + digits) == Some(0 - DigitsValue(digits))
  {
    var s := "-" + digits;
    assert s[0] == '-';
    NoTrim(s);
    assert s[1..] == digits;
    assert Unsigned(s) == digits;
    DigitPrefixOfDigits(digits);
    ParseIntValue(s, digits);
  }

  lemma NoTrim(s: string)
    requires |s| > 0 && !IsSpace(s[0])
    ensures TrimStart(s) == s
  {
  }

  /** A string of digits is its own digit prefix. */
  lemma {:induction false} DigitPrefixOfDigits(s: string)
    requires AllDigits(s)
    ensures DigitPrefix(s) == s
  {
    if |s| > 0 {
      DigitPrefixOfDigits(s[1..]);
      assert s == [s[0]] + s[1..];
    }
  }

  /**
   * `parseInt` skips any leading white space, reads an optional sign and
   * the digits after it, and stops at the first character that is not a
   * digit, so `" 250"` and `"250.5"` both read as 250.
   */
  lemma ParseIntOfPadded(ws: string, d: string, rest: string)
    requires AllSpace(ws) && AllDigits(d) && |d| > 0
    requires |rest| == 0 || !IsDigit(rest[0])
    ensures ParseInt(ws + d + rest) == Some(DigitsValue(d) as int)
  {
    var t := d + rest;
    PaddedText(ws, d, rest);
    ParseIntSkipsSpace(ws + d + rest, t);
    ParseDigits(d, rest);
  }

  /** The same with a sign: `-` negates the number, `+` keeps it. */
  lemma ParseIntOfPaddedSigned(ws: string, d: string, rest: string)
    requires AllSpace(ws) && AllDigits(d) && |d| > 0
    requires |rest| == 0 || !IsDigit(rest[0])
    ensures ParseInt(ws + "-" + d + rest) == Some(0 - DigitsValue(d))
    ensures ParseInt(ws + "+" + d + rest) == Some(DigitsValue(d) as int)
  {
    ParsePaddedSign(ws, '-', d, rest);
    ParsePaddedSign(ws, '+', d, rest);
  }

  lemma ParsePaddedSign(ws: string, sign: char, d: string, rest: string)
    requires AllSpace(ws) && AllDigits(d) && |d| > 0
    requires |rest| == 0 || !IsDigit(rest[0])
    requires sign == '-' || sign == '+'
    ensures sign == '-' ==> ParseInt(ws + [sign] + d + rest) == Some(0 - DigitsValue(d))
    ensures sign == '+' ==> ParseInt(ws + [sign] + d + rest) == Some(DigitsValue(d) as int)
  {
    PaddedSignText(ws, sign, d, rest);
    ParseIntSkipsSpace(ws + [sign] + d + rest, [sign] + (d + rest));
    ParseSignDigits(sign, d, rest);
  }

  /** Trimming white space, digits and a rest leaves the digits and the rest. */
  lemma PaddedText(ws: string, d: string, rest: string)
    requires AllSpace(ws) && AllDigits(d) && |d| > 0
    ensures TrimStart(ws + d + rest) == d + rest
    ensures !IsSpace((d + rest)[0])
  {
    var t := d + rest;
    assert ws + d + rest == ws + t;
    assert t[0] == d[0] && IsDigit(d[0]);
    TrimSpaces(ws, t);
  }

  lemma PaddedSignText(ws: string, sign: char, d: string, rest: string)
    requires AllSpace(ws) && (sign == '-' || sign == '+')
    ensures TrimStart(ws + [sign] + d + rest) == [sign] + (d + rest)
  {
    assert ws + [sign] + d + rest == ws + ([sign] + (d + rest));
    TrimSpaces(ws, [sign] + (d + rest));
  }

  /** `parseInt` reads the same from a text as from the text without its leading white space. */
  lemma ParseIntSkipsSpace(s: string, t: string)
    requires TrimStart(s) == t && |t| > 0 && !IsSpace(t[0])
    ensures ParseInt(s) == ParseInt(t)
  {
    NoTrim(t);
  }

  /** The digits `d` and a text that does not go on with a digit read as `d`. */
  lemma ParseDigits(d: string, rest: string)
    requires AllDigits(d) && |d| > 0 && (|rest| == 0 || !IsDigit(rest[0]))
    ensures ParseInt(d + rest) == Some(DigitsValue(d) as int)
  {
    var u := d + rest;
    assert u[0] == d[0] && IsDigit(d[0]);
    NoTrim(u);
    assert Unsigned(u) == u;
    DigitPrefixStops(d, rest);
    ParseIntReads(u, d);
  }

  /** A sign, the digits `d` and a text that does not go on with a digit read as `-d` or `d`. */
  lemma ParseSignDigits(sign: char, d: string, rest: string)
    requires AllDigits(d) && |d| > 0 && (|rest| == 0 || !IsDigit(rest[0]))
    requires sign == '-' || sign == '+'
    ensures sign == '-' ==> ParseInt([sign] + (d + rest)) == Some(0 - DigitsValue(d))
    ensures sign == '+' ==> ParseInt([sign] + (d + rest)) == Some(DigitsValue(d) as int)
  {
    var u := [sign] + (d + rest);
    assert u[0] == sign && u[1..] == d + rest;
    NoTrim(u);
    assert Unsigned(u) == d + rest;
    DigitPrefixStops(d, rest);
    ParseIntReads(u, d);
  }

  /** What `ParseInt` yields from a text without leading white space once the digits after the sign are known. */
  lemma ParseIntReads(s: string, digits: string)
    requires TrimStart(s) == s && DigitPrefix(Unsigned(s)) == digits && |digits| > 0
    ensures s[0] == '-' ==> ParseInt(s) == Some(0 - DigitsValue(digits))
    ensures s[0] != '-' ==> ParseInt(s) == Some(DigitsValue(digits))
  {
    assert DigitPrefix(Unsigned(TrimStart(s))) == digits;
  }

  /** White space before a text that does not start with white space is all that is trimmed. */
  lemma {:induction false} TrimSpaces(ws: string, u: string)
    requires AllSpace(ws) && |u| > 0 && !IsSpace(u[0])
    ensures TrimStart(ws + u) == u
  {
    if |ws| == 0 {
      assert ws + u == u;
    } else {
      assert (ws + u)[1..] == ws[1..] + u;
      TrimSpaces(ws[1..], u);
    }
  }

  /** The digits read from `d + rest` are `d` when `rest` does not go on with a digit. */
  lemma {:induction false} DigitPrefixStops(d: string, rest: string)
    requires AllDigits(d) && (|rest| == 0 || !IsDigit(rest[0]))
    ensures DigitPrefix(d + rest) == d
  {
    if |d| == 0 {
      assert d + rest == rest;
    } else {
      assert (d + rest)[1..] == d[1..] + rest;
      DigitPrefixStops(d[1..], rest);
      assert d == [d[0]] + d[1..];
    }
  }

  /** Two widths as a stylesheet may give them: with a leading space, and with a fraction. */
  lemma ParseIntExamples()
    ensures ParseInt(" 250") == Some(250)
    ensures ParseInt("250.5") == Some(250)
  {
    assert DigitsValue("250") == 250 by {
      assert "250"[..2] == "25" && "25"[..1] == "2" && "2"[..0] == "";
    }
    ParseIntOfPadded(" ", "250", "");
    assert " " + "250" + "" == " 250";
    ParseIntOfPadded("", "250", ".5");
    assert "" + "250" + ".5" == "250.5";
  }
}
