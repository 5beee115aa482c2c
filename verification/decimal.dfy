/**
  Decimal integers as the scanner reads and writes them: Python's str() of an
  int, and Python's int() of a string (surrounding whitespace as int() skips
  it, an optional sign, ASCII digits grouped by single underscores).
 */
module Decimal {
  import opened Optional
  import opened Text

  predicate IsDigit(c: char)
  {
    '0' <= c <= '9'
  }

  predicate AllDigits(s: string)
  {
    forall i :: 0 <= i < |s| ==> IsDigit(s[i])
  }

  /** A digit string as str() prints a natural number: no leading zero unless it is "0". */
  predicate Canonical(s: string)
  {
    |s| >= 1 && AllDigits(s) && (s[0] != '0' || |s| == 1)
  }

  function DigitChar(d: nat): (c: char)
    requires d < 10
    ensures IsDigit(c)
  {
    ('0' as int + d) as char
  }

  function DigitValue(c: char): (d: nat)
    requires IsDigit(c)
    ensures d < 10 && DigitChar(d) == c
  {
    c as int - '0' as int
  }

  /** The number a string of decimal digits denotes (0 for the empty string). */
  function DigitsValue(s: string): nat
    requires AllDigits(s)
    decreases |s|
  {
    if |s| == 0 then 0 else 10 * DigitsValue(s[..|s| - 1]) + DigitValue(s[|s| - 1])
  }

  /** Python's str() of a natural number; reading it back gives the number. */
  function NatToString(n: nat): (s: string)
    ensures Canonical(s)
    ensures DigitsValue(s) == n
    decreases n
  {
    if n < 10 then [DigitChar(n)]
    else
      var s := NatToString(n / 10) + [DigitChar(n % 10)];
      assert s[..|s| - 1] == NatToString(n / 10);
      s
  }

  /** Python's str() of an integer. */
  function IntToString(i: int): string
  {
    if i < 0 then "-" + NatToString(-i) else NatToString(i)
  }

  /** A number below 1000 prints with at most three digits. */
  lemma NatToStringShort(n: nat)
    requires n < 1000
    ensures |NatToString(n)| <= 3
  {
    if n >= 10 {
      assert |NatToString(n / 10)| <= 2;
    }
  }

  /** A digit string whose first digit is not zero denotes at least that digit. */
  lemma {:induction false} LeadingDigitBound(s: string)
    requires |s| >= 1 && AllDigits(s)
    ensures DigitsValue(s) >= DigitValue(s[0])
    decreases |s|
  {
    if |s| > 1 {
      var p := s[..|s| - 1];
      assert p[0] == s[0];
      LeadingDigitBound(p);
    }
  }

  /** str() inverts the digit reading on canonical digit strings. */
  lemma {:induction false} CanonicalRoundTrip(s: string)
    requires Canonical(s)
    ensures NatToString(DigitsValue(s)) == s
    decreases |s|
  {
    if |s| == 1 {
      assert s == [s[0]];
    } else {
      var p := s[..|s| - 1];
      assert p[0] == s[0];
      LeadingDigitBound(p);
      CanonicalRoundTrip(p);
      var v := DigitsValue(s);
      assert v / 10 == DigitsValue(p) && v % 10 == DigitValue(s[|s| - 1]);
      assert s == p + [s[|s| - 1]];
    }
  }

  /** Digits grouped by single underscores, as Python's int() accepts them. */
  predicate DigitGroups(b: string)
  {
    && |b| >= 1 && IsDigit(b[0]) && IsDigit(b[|b| - 1])
    && (forall i :: 0 <= i < |b| ==> IsDigit(b[i]) || b[i] == '_')
    && (forall i :: 0 <= i < |b| - 1 ==> b[i] != '_' || b[i + 1] != '_')
  }

  /** The digits of `b` with the underscores left out. */
  function DropUnderscores(b: string): (r: string)
    requires forall i :: 0 <= i < |b| ==> IsDigit(b[i]) || b[i] == '_'
    ensures AllDigits(r)
    ensures AllDigits(b) ==> r == b
    decreases |b|
  {
    if |b| == 0 then ""
    else if b[0] == '_' then DropUnderscores(b[1..])
    else [b[0]] + DropUnderscores(b[1..])
  }

  /**
    The whitespace int() skips around a numeral: Python's str.isspace() set
    less the separators U+1C to U+1F. int() first turns every non-ASCII
    whitespace character into a space and then skips only ASCII whitespace,
    so those four ASCII separators, which str.strip() removes, make it fail.
   */
  predicate IsIntSpace(c: char)
  {
    IsSpace(c) && !('\U{1C}' <= c <= '\U{1F}')
  }

  /** Leading int() whitespace removed. */
  function TrimIntStart(s: string): (r: string)
    ensures |r| <= |s| && r == s[|s| - |r|..]
    ensures forall i :: 0 <= i < |s| - |r| ==> IsIntSpace(s[i])
    ensures r == [] || !IsIntSpace(r[0])
    decreases |s|
  {
    if |s| > 0 && IsIntSpace(s[0]) then TrimIntStart(s[1..]) else s
  }

  /** Trailing int() whitespace removed. */
  function TrimIntEnd(s: string): (r: string)
    ensures |r| <= |s| && r == s[..|r|]
    ensures forall i :: |r| <= i < |s| ==> IsIntSpace(s[i])
    ensures r == [] || !IsIntSpace(r[|r| - 1])
    decreases |s|
  {
    if |s| > 0 && IsIntSpace(s[|s| - 1]) then TrimIntEnd(s[..|s| - 1]) else s
  }

  /** `r` is the piece of `s` at `i` with only int() whitespace before and after it. */
  predicate IntTrimmedAt(s: string, r: string, i: int)
  {
    && 0 <= i <= i + |r| <= |s|
    && r == s[i..i + |r|]
    && (forall k :: 0 <= k < i ==> IsIntSpace(s[k]))
    && (forall k :: i + |r| <= k < |s| ==> IsIntSpace(s[k]))
  }

  /** A string without int() whitespace at either end. */
  predicate IntStripped(r: string)
  {
    r == [] || (!IsIntSpace(r[0]) && !IsIntSpace(r[|r| - 1]))
  }

  /**
    The numeral int() reads: `s` with the int() whitespace at either end cut
    off. IntStripSlice and IntStripUnique say which piece of `s` that is.
   */
  function IntStrip(s: string): (r: string)
    ensures |r| <= |s|
    ensures IntStripped(r)
  {
    TrimIntEnd(TrimIntStart(s))
  }

  /**
    IntStrip(s) is a piece of `s` with only int() whitespace around it, and
    it is empty exactly when `s` is all such whitespace.
   */
  lemma IntStripSlice(s: string)
    ensures exists i :: IntTrimmedAt(s, IntStrip(s), i)
    ensures IntStrip(s) == [] <==> forall i :: 0 <= i < |s| ==> IsIntSpace(s[i])
  {
    IntTrimBoth(s, TrimIntStart(s), IntStrip(s));
  }

  /**
    The two int() trims composed, stated over their contracts alone: `t` is
    `s` without a leading run of int() whitespace and `r` is `t` without a
    trailing one.
   */
  lemma IntTrimBoth(s: string, t: string, r: string)
    requires |t| <= |s| && t == s[|s| - |t|..]
    requires forall i :: 0 <= i < |s| - |t| ==> IsIntSpace(s[i])
    requires t == [] || !IsIntSpace(t[0])
    requires |r| <= |t| && r == t[..|r|]
    requires forall i :: |r| <= i < |t| ==> IsIntSpace(t[i])
    requires r == [] || !IsIntSpace(r[|r| - 1])
    ensures IntStripped(r)
    ensures IntTrimmedAt(s, r, |s| - |t|)
    ensures r == [] <==> forall i :: 0 <= i < |s| ==> IsIntSpace(s[i])
  {
    var k := |s| - |t|;
    forall i | 0 <= i < |t|
      ensures t[i] == s[k + i]
    {
    }
    forall i | 0 <= i < |r|
      ensures r[i] == t[i]
    {
    }
    if t != [] {
      assert t[0] == s[k];
    }
    assert r == s[k..k + |r|];
    forall i | k + |r| <= i < |s|
      ensures IsIntSpace(s[i])
    {
      assert s[i] == t[i - k];
    }
  }

  /**
    IntStrip is characterised by its contract: the only piece of `s` without
    int() whitespace at its ends and with only such whitespace around it is
    IntStrip(s).
   */
  lemma IntStripUnique(s: string, r: string, i: int)
    requires IntStripped(r) && IntTrimmedAt(s, r, i)
    ensures r == IntStrip(s)
  {
    var t := IntStrip(s);
    IntStripSlice(s);
    var j :| IntTrimmedAt(s, t, j);
    if r == [] {
      forall k | 0 <= k < |s|
        ensures IsIntSpace(s[k])
      {
      }
    } else {
      assert s[i] == r[0];
      SameIntTrimmed(s, r, i, t, j);
    }
  }

  /** Two non-empty pieces of `s` without int() whitespace at their ends and only such whitespace around them are the same piece. */
  lemma SameIntTrimmed(s: string, r: string, i: int, t: string, j: int)
    requires IntTrimmedAt(s, r, i) && IntTrimmedAt(s, t, j)
    requires IntStripped(r) && IntStripped(t) && r != [] && t != []
    ensures r == t
  {
    assert s[i] == r[0] && s[i + |r| - 1] == r[|r| - 1];
    assert s[j] == t[0] && s[j + |t| - 1] == t[|t| - 1];
    assert i == j && |r| == |t|;
  }


  /** A string without int() whitespace at its ends is its own numeral. */
  lemma IntStripKeeps(s: string)
    requires IntStripped(s)
    ensures IntStrip(s) == s
  {
  }

  /** The sign-free body of a stripped numeral. */
  function Unsigned(t: string): string
  {
    if |t| > 0 && (t[0] == '+' || t[0] == '-') then t[1..] else t
  }

  /**
    Python's int() of a string: None where int() raises ValueError.
    Non-ASCII digits, which int() also accepts, are not modelled.
   */
  function ParseInt(s: string): Option<int>
  {
    var t := IntStrip(s);
    if Numeral(t) then Some(NumeralValue(t)) else None
  }

  /** An optional sign followed by digits grouped by single underscores. */
  predicate Numeral(t: string)
  {
    DigitGroups(Unsigned(t))
  }

  /** The value of a numeral, leading zeros and underscores ignored. */
  function NumeralValue(t: string): int
    requires Numeral(t)
  {
    var v: int := DigitsValue(DropUnderscores(Unsigned(t)));
    if t[0] == '-' then -v else v
  }

  /**
    `s` is a numeral, `s[i..j]`, with only int() whitespace before and
    after it: the text int() accepts.
   */
  predicate IntForm(s: string, i: int, j: int)
  {
    && 0 <= i <= j <= |s|
    && (forall k :: 0 <= k < i ==> IsIntSpace(s[k]))
    && (forall k :: j <= k < |s| ==> IsIntSpace(s[k]))
    && Numeral(s[i..j])
  }

  /** int() accepts every numeral surrounded by int() whitespace, and reads its value. */
  lemma ParseIntForm(s: string, i: int, j: int)
    requires IntForm(s, i, j)
    ensures ParseInt(s) == Some(NumeralValue(s[i..j]))
  {
    var t := s[i..j];
    var b := Unsigned(t);
    assert IsDigit(b[0]) && IsDigit(b[|b| - 1]);
    assert t[|t| - 1] == b[|b| - 1];
    assert IntStripped(t);
    assert IntTrimmedAt(s, t, i);
    IntStripUnique(s, t, i);
  }

  /** int() accepts nothing else. */
  lemma ParseIntOnlyForms(s: string)
    requires ParseInt(s).Some?
    ensures exists i, j :: IntForm(s, i, j)
  {
    var t := IntStrip(s);
    IntStripSlice(s);
    var i :| IntTrimmedAt(s, t, i);
    assert s[i..i + |t|] == t;
    assert IntForm(s, i, i + |t|);
  }

  /** "+0_7" is a numeral of value 7: a plus sign, a leading zero and an underscore are accepted. */
  lemma NumeralExample()
    ensures Numeral("+0_7") && NumeralValue("+0_7") == 7
  {
    var b := "0_7";
    assert Unsigned("+0_7") == b;
    assert |b| == 3 && b[0] == '0' && b[1] == '_' && b[2] == '7';
    assert DigitGroups(b);
    assert DropUnderscores(b) == "07";
    assert DigitsValue("07") == 7 by {
      assert "07"[..1] == "0";
    }
  }

  /** int(' +0_7\n') is 7: surrounding whitespace is skipped and the numeral read. */
  lemma ParseIntExample()
    ensures IntStrip(" +0_7\n") == "+0_7"
    ensures ParseInt(" +0_7\n") == Some(7)
  {
    var s := " +0_7\n";
    var t := "+0_7";
    assert IntStrip(s) == t by {
      assert IntTrimmedAt(s, t, 1) by {
        assert s[1..5] == t;
      }
      IntStripUnique(s, t, 1);
    }
    NumeralExample();
  }





  /** int() reads back what str() prints. */
  lemma ParseIntString(i: int)
    ensures ParseInt(IntToString(i)) == Some(i)
  {
    var n: nat := if i < 0 then -i else i;
    IntToStringShape(i);
    ParseIntOf(IntToString(i), i < 0, NatToString(n));
  }

  /** str() of an integer is stripped, and its sign-free body is the canonical digits of the magnitude. */
  lemma IntToStringShape(i: int)
    ensures var s := IntToString(i);
            && IntStrip(s) == s && |s| > 0
            && Unsigned(s) == NatToString(if i < 0 then -i else i) && (s[0] == '-' <==> i < 0)
  {
    var s := IntToString(i);
    var d := NatToString(if i < 0 then -i else i);
    assert s[0] == '-' || IsDigit(s[0]);
    assert IsDigit(s[|s| - 1]);
    IntStripKeeps(s);
    if i < 0 {
      assert s[1..] == d;
    }
  }

  /** A stripped numeral whose body is plain digits reads as their value, negated after a '-'. */
  lemma ParseIntOf(s: string, negative: bool, d: string)
    requires IntStrip(s) == s && |s| > 0 && (s[0] == '-' <==> negative)
    requires Unsigned(s) == d && Canonical(d)
    ensures ParseInt(s) == Some(if negative then -(DigitsValue(d) as int) else DigitsValue(d) as int)
  {
  }

  /** The canonical digits of a natural number are read back as that number. */
  lemma ParseIntNat(n: nat)
    ensures ParseInt(NatToString(n)) == Some(n)
  {
    ParseIntString(n);
  }

  /**
    A numeral that starts with one of the separators U+1C to U+1F is
    rejected, although str.strip() would remove that character.
   */
  lemma SeparatorControlRejected(s: string)
    requires |s| > 0 && '\U{1C}' <= s[0] <= '\U{1F}'
    ensures ParseInt(s) == None
  {
  }

  /** So int('\x1c5') fails although '\x1c5'.strip() is '5'. */
  lemma SeparatorControlExample()
    ensures ParseInt("\U{1C}5") == None
    ensures Strip("\U{1C}5") == "5"
  {
    SeparatorControlRejected("\U{1C}5");
    StripSeparatorExample();
  }

  /** str.strip() removes the separator U+1C. */
  lemma StripSeparatorExample()
    ensures Strip("\U{1C}5") == "5"
  {
    assert TrimmedAt("\U{1C}5", "5", 1);
    StripUnique("\U{1C}5", "5");
  }

}
