/**
  * String operations of Python's `str` that the MIR helpers rely on:
  * `in`, `startswith`/`endswith`, `split`, `str(int)`, the `04d` format
  * specification and the `int(...)` constructor applied to a string.
  * Strings are Dafny strings, sequences of Unicode scalar values. A
  * Python `str` can also hold lone surrogates (`os.listdir` returns them
  * for names that do not decode); those are outside this model.
  */
module Text {
  import opened Wrappers

  predicate StartsWith(s: string, t: string) {
    |t| <= |s| && s[..|t|] == t
  }

  predicate EndsWith(s: string, t: string) {
    |t| <= |s| && s[|s| - |t|..] == t
  }

  /** Python's `t in s` for strings: `t` occurs in `s` as a contiguous block. */
  predicate Contains(s: string, t: string) {
    exists i :: 0 <= i <= |s| && StartsWith(s[i..], t)
  }

  /** Every character of a contained string is a character of the container. */
  lemma ContainedChars(s: string, t: string)
    requires Contains(s, t)
    ensures forall k :: 0 <= k < |t| ==> t[k] in s
  {
    var i :| 0 <= i <= |s| && StartsWith(s[i..], t);
    forall k | 0 <= k < |t| ensures t[k] in s {
      assert t[k] == s[i..][k] == s[i + k];
    }
  }

  /** A string holding a character that `s` lacks is not contained in `s`. */
  lemma MissingCharNotContained(s: string, t: string, c: char)
    requires c in t && c !in s
    ensures !Contains(s, t)
  {
    var k :| 0 <= k < |t| && t[k] == c;
    forall i | 0 <= i <= |s| ensures !StartsWith(s[i..], t) {
      if i + |t| <= |s| {
        assert s[i..][..|t|][k] == s[i + k];
      }
    }
  }

  /** A block found at offset `i` witnesses containment. */
  lemma ContainsAt(s: string, t: string, i: nat)
    requires i + |t| <= |s| && s[i..i + |t|] == t
    ensures Contains(s, t)
  {
    assert s[i..][..|t|] == s[i..i + |t|];
    assert StartsWith(s[i..], t);
  }

  /** Number of occurrences of the character `c` in `s`. */
  function Count(s: string, c: char): nat
    decreases |s|
  {
    if |s| == 0 then 0 else (if s[0] == c then 1 else 0) + Count(s[1..], c)
  }

  lemma {:induction false} CountAppend(a: string, b: string, c: char)
    ensures Count(a + b, c) == Count(a, c) + Count(b, c)
    decreases |a|
  {
    if |a| == 0 {
      assert a + b == b;
    } else {
      assert (a + b)[1..] == a[1..] + b;
      CountAppend(a[1..], b, c);
    }
  }

  lemma {:induction false} CountAbsent(s: string, c: char)
    requires c !in s
    ensures Count(s, c) == 0
    decreases |s|
  {
    if |s| > 0 {
      assert forall k :: 0 <= k < |s| - 1 ==> s[1..][k] == s[k + 1];
      CountAbsent(s[1..], c);
    }
  }

  /** Where `c` occurs, `s` has at least one occurrence. */
  lemma {:induction false} CountPresent(s: string, c: char, i: nat)
    requires i < |s| && s[i] == c
    ensures Count(s, c) >= 1
    decreases |s|
  {
    if i > 0 {
      CountPresent(s[1..], c, i - 1);
    }
  }

  /**
    * Python's `s.split(sep)` for a one-character separator: the pieces
    * between separators, including empty ones at either end.
    */
  function Split(s: string, sep: char): (parts: seq<string>)
    ensures |parts| >= 1
    decreases |s|
  {
    if |s| == 0 then [""]
    else
      var rest := Split(s[1..], sep);
      if s[0] == sep then [""] + rest else [[s[0]] + rest[0]] + rest[1..]
  }

  /** Python's `sep.join(parts)`. */
  function JoinWith(parts: seq<string>, sep: char): string
    decreases |parts|
  {
    if |parts| == 0 then ""
    else if |parts| == 1 then parts[0]
    else parts[0] + [sep] + JoinWith(parts[1..], sep)
  }

  /** No piece produced by `Split` contains the separator. */
  lemma {:induction false} SplitPiecesLackSeparator(s: string, sep: char)
    ensures forall i :: 0 <= i < |Split(s, sep)| ==> sep !in Split(s, sep)[i]
    decreases |s|
  {
    if |s| > 0 {
      SplitPiecesLackSeparator(s[1..], sep);
    }
  }

  /** Joining the pieces of a split with the same separator gives the string back. */
  lemma {:induction false} JoinSplit(s: string, sep: char)
    ensures JoinWith(Split(s, sep), sep) == s
    decreases |s|
  {
    if |s| > 0 {
      var rest := Split(s[1..], sep);
      JoinSplit(s[1..], sep);
      if s[0] == sep {
        assert ([""] + rest)[1..] == rest;
      } else {
        var parts := [[s[0]] + rest[0]] + rest[1..];
        assert parts[1..] == rest[1..];
        if |rest| == 1 {
          assert JoinWith(rest, sep) == rest[0];
        } else {
          assert JoinWith(rest, sep) == rest[0] + [sep] + JoinWith(rest[1..], sep);
        }
      }
    }
  }

  /** A split of `a`, a separator and then `b`, where `a` has no separator, starts with `a`. */
  lemma {:induction false} SplitAfterPiece(a: string, b: string, sep: char)
    requires sep !in a
    ensures Split(a + [sep] + b, sep) == [a] + Split(b, sep)
    decreases |a|
  {
    if |a| == 0 {
      assert a + [sep] + b == [sep] + b;
      assert ([sep] + b)[1..] == b;
    } else {
      assert (a + [sep] + b)[1..] == a[1..] + [sep] + b;
      SplitAfterPiece(a[1..], b, sep);
      assert [a[0]] + a[1..] == a;
    }
  }

  /** A string without the separator splits into itself alone. */
  lemma {:induction false} SplitWithoutSeparator(s: string, sep: char)
    requires sep !in s
    ensures Split(s, sep) == [s]
    decreases |s|
  {
    if |s| > 0 {
      assert sep !in s[1..] by {
        assert forall k :: 0 <= k < |s| - 1 ==> s[1..][k] == s[k + 1];
      }
      SplitWithoutSeparator(s[1..], sep);
      assert [s[0]] + s[1..] == s;
    }
  }

  /** The last piece of a split lies after the last separator. */
  lemma {:induction false} LastPieceAfterSeparator(a: string, b: string, sep: char)
    ensures var parts := Split(a + [sep] + b, sep);
            var tail := Split(b, sep);
            |parts| > |tail| && parts[|parts| - 1] == tail[|tail| - 1]
    decreases |a|
  {
    if |a| == 0 {
      assert a + [sep] + b == [sep] + b;
      assert ([sep] + b)[1..] == b;
    } else {
      var s := a + [sep] + b;
      assert s[1..] == a[1..] + [sep] + b;
      LastPieceAfterSeparator(a[1..], b, sep);
      var rest := Split(s[1..], sep);
      var parts := Split(s, sep);
      if s[0] == sep {
        assert parts == [""] + rest;
      } else {
        assert parts == [[s[0]] + rest[0]] + rest[1..];
        assert parts[|parts| - 1] == rest[|rest| - 1];
      }
    }
  }

  /** The last `-`-separated piece of `s` (Python's `s.split("-")[-1]`). */
  function LastSegment(s: string): string {
    var parts := Split(s, '-');
    parts[|parts| - 1]
  }

  lemma LastSegmentLacksDash(s: string)
    ensures '-' !in LastSegment(s)
  {
    SplitPiecesLackSeparator(s, '-');
  }

  // ---------------------------------------------------------------- decimals

  predicate IsDigit(c: char) {
    '0' <= c <= '9'
  }

  predicate AllDigits(s: string) {
    forall i :: 0 <= i < |s| ==> IsDigit(s[i])
  }

  function DigitChar(d: nat): (c: char)
    requires d < 10
    ensures IsDigit(c)
  {
    (('0' as int) + d) as char
  }

  function DigitValue(c: char): (d: nat)
    requires IsDigit(c)
    ensures d < 10
  {
    (c as int) - ('0' as int)
  }

  /** The number a string of decimal digits denotes, leading zeros allowed. */
  function DecimalValue(s: string): nat
    requires AllDigits(s)
    decreases |s|
  {
    if |s| == 0 then 0 else 10 * DecimalValue(s[..|s| - 1]) + DigitValue(s[|s| - 1])
  }

  /** Python's `str(n)` for a non-negative integer: digits without leading zeros. */
  function NatToDecimal(n: nat): (s: string)
    ensures |s| >= 1 && AllDigits(s)
    ensures DecimalValue(s) == n
    ensures s[0] == '0' ==> s == "0"
    decreases n
  {
    if n < 10 then [DigitChar(n)]
    else
      var prefix := NatToDecimal(n / 10);
      assert (prefix + [DigitChar(n % 10)])[..|prefix|] == prefix;
      prefix + [DigitChar(n % 10)]
  }

  /** Python's `str(i)` for any integer. */
  function IntToDecimal(i: int): string {
    if i < 0 then "-" + NatToDecimal(-i) else NatToDecimal(i)
  }

  function Zeros(k: nat): (z: string)
    ensures |z| == k && AllDigits(z)
  {
    seq(k, _ => '0')
  }

  /** Left-pads a digit string with zeros up to `width`; never truncates. */
  function ZeroPad(s: string, width: nat): string {
    if |s| < width then Zeros(width - |s|) + s else s
  }

  /** Python's `f"{i:04d}"`: sign first, then digits zero-padded so the whole is at least 4 wide. */
  function Format04d(i: int): string {
    if i < 0 then "-" + ZeroPad(NatToDecimal(-i), 3) else ZeroPad(NatToDecimal(i), 4)
  }

  lemma {:induction false} ZerosValue(k: nat)
    ensures DecimalValue(Zeros(k)) == 0
  {
    if k > 0 {
      assert Zeros(k)[..k - 1] == Zeros(k - 1);
      ZerosValue(k - 1);
    }
  }

  /** Leading zeros do not change the value of a digit string. */
  lemma {:induction false} LeadingZerosValue(k: nat, s: string)
    requires AllDigits(s)
    ensures AllDigits(Zeros(k) + s) && DecimalValue(Zeros(k) + s) == DecimalValue(s)
    decreases |s|
  {
    var z := Zeros(k) + s;
    assert AllDigits(z) by {
      forall i | 0 <= i < |z| ensures IsDigit(z[i]) {
        if i < k { assert z[i] == Zeros(k)[i]; } else { assert z[i] == s[i - k]; }
      }
    }
    if |s| == 0 {
      assert z == Zeros(k);
      ZerosValue(k);
    } else {
      assert z[..|z| - 1] == Zeros(k) + s[..|s| - 1];
      LeadingZerosValue(k, s[..|s| - 1]);
    }
  }

  /** Padding keeps a digit string's value and widens it to at least `width`, keeping every digit. */
  lemma PaddedDigits(s: string, width: nat)
    requires AllDigits(s)
    ensures AllDigits(ZeroPad(s, width)) && DecimalValue(ZeroPad(s, width)) == DecimalValue(s)
    ensures |ZeroPad(s, width)| == if |s| < width then width else |s|
    ensures ZeroPad(s, width)[|ZeroPad(s, width)| - |s|..] == s
  {
    if |s| < width {
      LeadingZerosValue(width - |s|, s);
      var z := ZeroPad(s, width);
      assert z[|z| - |s|..] == s;
    }
  }

  // -------------------------------------------------------------- int(str)

  /**
    * The characters Python's `int()` strips around a literal. Below
    * U+007F these are only the C whitespace: tab to carriage return and
    * space. The separators U+001C to U+001F are not stripped, though
    * `str.isspace()` holds for them. From U+007F up, the characters for
    * which `str.isspace()` holds are read as a space first: U+0085, U+00A0,
    * U+1680, U+2000 to U+200A, U+2028, U+2029, U+202F, U+205F and U+3000.
    */
  predicate IsSpace(c: char) {
    var k := c as int;
    (9 <= k <= 13) || k == 32 || k == 0x85 || k == 0xA0 || k == 0x1680
    || (0x2000 <= k <= 0x200A) || k == 0x2028 || k == 0x2029 || k == 0x202F || k == 0x205F || k == 0x3000
  }

  function StripLeft(s: string): (t: string)
    ensures |t| <= |s| && t == s[|s| - |t|..]
    decreases |s|
  {
    if |s| > 0 && IsSpace(s[0]) then StripLeft(s[1..]) else s
  }

  function StripRight(s: string): (t: string)
    ensures |t| <= |s| && t == s[..|t|]
    decreases |s|
  {
    if |s| > 0 && IsSpace(s[|s| - 1]) then StripRight(s[..|s| - 1]) else s
  }

  function Strip(s: string): string {
    StripRight(StripLeft(s))
  }

  /** Digits, with single underscores allowed between two digits (PEP 515). */
  predicate DigitGroups(s: string) {
    && |s| > 0
    && IsDigit(s[0])
    && IsDigit(s[|s| - 1])
    && (forall i :: 0 <= i < |s| ==> IsDigit(s[i]) || s[i] == '_')
    && (forall i :: 0 <= i < |s| - 1 && s[i] == '_' ==> s[i + 1] != '_')
  }

  function RemoveUnderscores(s: string): (t: string)
    requires forall i :: 0 <= i < |s| ==> IsDigit(s[i]) || s[i] == '_'
    ensures AllDigits(t)
    decreases |s|
  {
    if |s| == 0 then ""
    else if s[0] == '_' then RemoveUnderscores(s[1..])
    else [s[0]] + RemoveUnderscores(s[1..])
  }

  /**
    * Python's `int(s)` in base 10 with ASCII digits: surrounding whitespace
    * is ignored, one sign is allowed, digits may be grouped by single
    * underscores, and anything else raises `ValueError`, here `None`.
    */
  function PyInt(s: string): Option<int> {
    var t := Strip(s);
    if |t| > 0 && (t[0] == '+' || t[0] == '-') then
      var body := t[1..];
      if DigitGroups(body) then
        var v: int := DecimalValue(RemoveUnderscores(body));
        Some(if t[0] == '-' then -v else v)
      else None
    else if DigitGroups(t) then Some(DecimalValue(RemoveUnderscores(t)))
    else None
  }

  /** Without a `-` in the text, `int()` never yields a negative number. */
  lemma PyIntNonNegative(s: string)
    requires '-' !in s
    ensures PyInt(s).Some? ==> PyInt(s).value >= 0
  {
    var l := StripLeft(s);
    var t := StripRight(l);
    assert Strip(s) == t;
    if |t| > 0 {
      var k := |s| - |l|;
      assert t[0] == l[0] == s[k];
      assert s[k] in s;
      assert t[0] != '-';
    }
  }

  lemma {:induction false} RemoveUnderscoresOfDigits(s: string)
    requires AllDigits(s)
    ensures RemoveUnderscores(s) == s
    decreases |s|
  {
    if |s| > 0 {
      RemoveUnderscoresOfDigits(s[1..]);
    }
  }

  /** `int()` reads back a plain digit string as its value. */
  lemma PyIntOfDigits(s: string)
    requires |s| > 0 && AllDigits(s)
    ensures PyInt(s) == Some(DecimalValue(s))
  {
    assert IsDigit(s[0]) && !IsSpace(s[0]);
    assert StripLeft(s) == s;
    assert IsDigit(s[|s| - 1]) && !IsSpace(s[|s| - 1]);
    assert StripRight(s) == s;
    assert !(s[0] == '+' || s[0] == '-');
    assert DigitGroups(s);
    RemoveUnderscoresOfDigits(s);
  }

  /** `int()` reads back a minus sign before a plain digit string as the negated value. */
  lemma PyIntOfNegated(s: string)
    requires |s| > 1 && s[0] == '-' && AllDigits(s[1..])
    ensures PyInt(s) == Some(-(DecimalValue(s[1..]) as int))
  {
    assert !IsSpace(s[0]);
    assert StripLeft(s) == s;
    var d := s[1..];
    assert s[|s| - 1] == d[|d| - 1];
    assert !IsSpace(s[|s| - 1]);
    assert StripRight(s) == s;
    assert DigitGroups(s[1..]);
    RemoveUnderscoresOfDigits(s[1..]);
  }

  /** A file separator (U+001C) before a digit is not stripped: `int()` rejects the text. */
  lemma FileSeparatorNotStripped()
    ensures PyInt("\U{1C}5").None?
  {
    var s := "\U{1C}5";
    assert !IsSpace(s[0]) && !IsDigit(s[0]) && s[0] != '+' && s[0] != '-';
    assert StripLeft(s) == s;
    assert StripRight(s) == s;
  }

  /** The `04d` form of any integer is at least four wide, and `int()` reads it back as that integer. */
  lemma Format04dReadsBack(i: int)
    ensures |Format04d(i)| >= 4
    ensures PyInt(Format04d(i)) == Some(i)
  {
    if i < 0 {
      var d := ZeroPad(NatToDecimal(-i), 3);
      PaddedDigits(NatToDecimal(-i), 3);
      assert ("-" + d)[1..] == d;
      PyIntOfNegated("-" + d);
    } else {
      PaddedDigits(NatToDecimal(i), 4);
      PyIntOfDigits(ZeroPad(NatToDecimal(i), 4));
    }
  }
}
