/** The HH:MM:SS display shared by the stopwatch and the timer tabs
    (Clock25/Clock.py:82-84 and 128-130): two `divmod` calls by 60 and a
    `{n:02d}` rendering of each part. */
module Display {
  import opened Wrappers

  /** Hours, minutes and seconds, as the two `divmod` calls produce them. */
  datatype HMS = HMS(hrs: int, mins: int, secs: int)

  /** The text both displays show on reset and on expiry. */
  const Zero: string := "00:00:00"

  /** The text the timer shows when its entry does not parse. */
  const InvalidInput: string := "Invalid Input"

  /** The number of seconds a decomposition stands for. */
  function Seconds(h: HMS): int {
    h.hrs * 3600 + h.mins * 60 + h.secs
  }

  /** Minutes and seconds are proper remainders. */
  predicate Normal(h: HMS) {
    0 <= h.mins < 60 && 0 <= h.secs < 60
  }

  /** `mins, secs = divmod(n, 60)` then `hrs, mins = divmod(mins, 60)`.
      Python's `divmod` floors; for the positive divisor 60 that agrees with
      Dafny's Euclidean `/` and `%`, also for negative `n`. */
  function Decompose(n: int): (h: HMS)
    ensures Normal(h) && Seconds(h) == n
    ensures h.hrs >= 0 <==> n >= 0
  {
    var mins := n / 60;
    HMS(mins / 60, mins % 60, n % 60)
  }

  /** A normal decomposition is the only one: `Decompose` inverts `Seconds`. */
  lemma DecomposeUnique(h: HMS)
    requires Normal(h)
    ensures Decompose(Seconds(h)) == h
  {
    var n := Seconds(h);
    var m := h.hrs * 60 + h.mins;
    assert n == m * 60 + h.secs;
    assert n / 60 == m && n % 60 == h.secs;
    assert m / 60 == h.hrs && m % 60 == h.mins;
  }

  predicate IsDigit(c: char) {
    '0' <= c <= '9'
  }

  /** Every character is a decimal digit (checked from the right, the way
      `Value` reads). */
  predicate AllDigits(s: string)
    decreases |s|
  {
    |s| == 0 || (AllDigits(s[..|s| - 1]) && IsDigit(s[|s| - 1]))
  }

  function DigitChar(d: int): (c: char)
    requires 0 <= d < 10
    ensures IsDigit(c) && DigitValue(c) == d
  {
    ('0' as int + d) as char
  }

  function DigitValue(c: char): int
    requires IsDigit(c)
  {
    c as int - '0' as int
  }

  /** Decimal digits of `n`, without leading zeros (Python's `str(n)`). */
  function Digits(n: nat): (s: string)
    ensures 1 <= |s| && AllDigits(s) && IsDigit(s[0])
    ensures n >= 10 ==> |s| >= 2
    ensures n < 100 ==> |s| <= 2
    ensures n > 0 ==> s[0] != '0'
  {
    if n < 10 then [DigitChar(n)] else Digits(n / 10) + [DigitChar(n % 10)]
  }

  /** The number a string of decimal digits denotes. */
  function Value(s: string): nat
    requires AllDigits(s)
  {
    if |s| == 0 then 0 else Value(s[..|s| - 1]) * 10 + DigitValue(s[|s| - 1])
  }

  lemma {:induction false} ValueOfDigits(n: nat)
    ensures Value(Digits(n)) == n
  {
    if n >= 10 {
      var s := Digits(n);
      assert s[..|s| - 1] == Digits(n / 10);
      ValueOfDigits(n / 10);
    }
  }
  lemma DigitRoundTrip(c: char)
    requires IsDigit(c)
    ensures DigitChar(DigitValue(c)) == c
  {
  }

  /** Digits with a non-zero lead denote at least 10^(length - 1); here only
      "at least 1" and "at least 10 for two or more digits" are needed. */
  lemma {:induction false} ValueLeading(x: string)
    requires AllDigits(x) && |x| >= 1 && x[0] != '0'
    ensures Value(x) >= 1
    ensures |x| >= 2 ==> Value(x) >= 10
  {
    if |x| >= 2 {
      var p := x[..|x| - 1];
      assert p[0] == x[0];
      ValueLeading(p);
    }
  }

  /** A digit string with no leading zero (or the single digit "0") is the
      text `str` gives for its value. */
  lemma {:induction false} CanonicalDigits(x: string)
    requires AllDigits(x) && |x| >= 1 && (|x| == 1 || x[0] != '0')
    ensures Digits(Value(x)) == x
  {
    var last := x[|x| - 1];
    DigitRoundTrip(last);
    if |x| == 1 {
      assert x == [last];
    } else {
      var p := x[..|x| - 1];
      assert p[0] == x[0];
      ValueLeading(x);
      CanonicalDigits(p);
      assert x == p + [last];
    }
  }


  /** `f"{n:02d}"`: at least two characters. A non-negative `n` is shown as
      digits that read back as `n`: a padding zero and one digit below 10,
      and no leading zero from 10 on. A negative `n` gets a leading minus
      sign and no padding digit. */
  function Pad2(n: int): (r: string)
    ensures |r| >= 2
    ensures n >= 0 ==> AllDigits(r) && Value(r) == n && IsDigit(r[0])
    ensures 0 <= n < 100 ==> |r| == 2
    ensures 0 <= n < 10 ==> r[0] == '0'
    ensures n >= 10 ==> r[0] != '0'
    ensures n < 0 ==> r[0] == '-' && r[1..] == Digits(-n)
  {
    if n < 0 then
      var r := "-" + Digits(-n);
      assert r[1..] == Digits(-n);
      r
    else if n < 10 then
      ValueOfDigits(n);
      var r := "0" + Digits(n);
      assert r[..|r| - 1] == "0";
      assert Value("0") == 0 by {
        assert "0"[..0] == [];
      }
      r
    else
      ValueOfDigits(n);
      Digits(n)
  }

  /** A digit string of two or more characters whose only leading zero is
      padding is the `{n:02d}` text of its value. */
  lemma CanonicalPad2(x: string)
    requires AllDigits(x) && |x| >= 2 && (|x| == 2 || x[0] != '0')
    ensures Pad2(Value(x)) == x
  {
    if x[0] != '0' {
      ValueLeading(x);
      CanonicalDigits(x);
    } else {
      var d := x[1..];
      assert x[..1] == "0" && x == "0" + d;
      assert Value(x[..1]) == 0 by {
        assert x[..1][..0] == [];
      }
      CanonicalDigits(d);
    }
  }

  /** The text `f"{hrs:02d}:{mins:02d}:{secs:02d}"` for a count of seconds:
      an hours field, a colon, two characters of minutes, a colon and two
      characters of seconds. It starts with a digit, or with a minus sign
      when the count is negative. */
  function Format(n: int): (r: string)
    ensures |r| >= 8 && r[|r| - 6] == ':' && r[|r| - 3] == ':'
    ensures n >= 0 ==> IsDigit(r[0])
    ensures n < 0 ==> r[0] == '-'
  {
    var h := Decompose(n);
    var r := Pad2(h.hrs) + ":" + Pad2(h.mins) + ":" + Pad2(h.secs);
    SplitFields(Pad2(h.hrs), Pad2(h.mins), Pad2(h.secs), r);
    assert r[0] == Pad2(h.hrs)[0];
    r
  }

  /** Reads a display back into seconds: an hours field of two or more digits
      with no leading zero beyond the padding, and two-digit minutes and
      seconds fields below 60. */
  function Parse(s: string): Option<nat> {
    if |s| >= 8 && s[|s| - 6] == ':' && s[|s| - 3] == ':'
       && AllDigits(s[..|s| - 6]) && AllDigits(s[|s| - 5..|s| - 3]) && AllDigits(s[|s| - 2..])
       && (|s| == 8 || s[0] != '0')
       && Value(s[|s| - 5..|s| - 3]) < 60 && Value(s[|s| - 2..]) < 60
    then Some(Value(s[..|s| - 6]) * 3600 + Value(s[|s| - 5..|s| - 3]) * 60 + Value(s[|s| - 2..]))
    else None
  }

  /** A string of the display's shape reads as its three fields. */
  lemma ParseShape(s: string)
    requires |s| >= 8 && s[|s| - 6] == ':' && s[|s| - 3] == ':'
    requires AllDigits(s[..|s| - 6]) && AllDigits(s[|s| - 5..|s| - 3]) && AllDigits(s[|s| - 2..])
    requires |s| == 8 || s[0] != '0'
    requires Value(s[|s| - 5..|s| - 3]) < 60 && Value(s[|s| - 2..]) < 60
    ensures Parse(s) == Some(Value(s[..|s| - 6]) * 3600 + Value(s[|s| - 5..|s| - 3]) * 60 + Value(s[|s| - 2..]))
  {
  }

  /** Where the fields of `a:b:c` sit when `b` and `c` are two wide. */
  lemma SplitFields(a: string, b: string, c: string, s: string)
    requires |b| == 2 && |c| == 2 && s == a + ":" + b + ":" + c
    ensures |s| == |a| + 6 && s[|s| - 6] == ':' && s[|s| - 3] == ':'
    ensures s[..|s| - 6] == a && s[|s| - 5..|s| - 3] == b && s[|s| - 2..] == c
  {
    assert s[..|s| - 6] == a;
    assert s[|s| - 5..|s| - 3] == b;
    assert s[|s| - 2..] == c;
  }

  /** The text of a decomposition with non-negative hours reads back as
      its total. */
  lemma ReadBack(h: HMS, s: string)
    requires Normal(h) && h.hrs >= 0
    requires s == Pad2(h.hrs) + ":" + Pad2(h.mins) + ":" + Pad2(h.secs)
    ensures Parse(s) == Some(Seconds(h))
  {
    SplitFields(Pad2(h.hrs), Pad2(h.mins), Pad2(h.secs), s);
    ParseShape(s);
  }

  /** Every non-negative count of seconds is shown so that it reads back. */
  lemma FormatRoundTrip(n: int)
    requires n >= 0
    ensures Parse(Format(n)) == Some(n)
  {
    ReadBack(Decompose(n), Format(n));
  }

  /** A string with colons at the display's positions is its three fields
      joined by colons. */
  lemma Join(s: string)
    requires |s| >= 8 && s[|s| - 6] == ':' && s[|s| - 3] == ':'
    ensures s == s[..|s| - 6] + ":" + s[|s| - 5..|s| - 3] + ":" + s[|s| - 2..]
  {
  }

  /** The display of a normal decomposition's total is built from its parts. */
  lemma FormatOfParts(h: HMS)
    requires Normal(h)
    ensures Format(Seconds(h)) == Pad2(h.hrs) + ":" + Pad2(h.mins) + ":" + Pad2(h.secs)
  {
    DecomposeUnique(h);
  }

  /** The only text that reads back as a count is that count's display. */
  lemma ParseExact(s: string, n: int)
    requires Parse(s) == Some(n)
    ensures s == Format(n)
  {
    var a, b, c := s[..|s| - 6], s[|s| - 5..|s| - 3], s[|s| - 2..];
    var h := HMS(Value(a), Value(b), Value(c));
    assert Normal(h) && Seconds(h) == n;
    CanonicalPad2(a);
    CanonicalPad2(b);
    CanonicalPad2(c);
    Join(s);
    FormatOfParts(h);
  }

  /** For a non-negative count, reading a text back gives the count exactly
      when the text is the count's display. */
  lemma FormatExact(s: string, n: int)
    requires n >= 0
    ensures Parse(s) == Some(n) <==> s == Format(n)
  {
    FormatRoundTrip(n);
    if Parse(s) == Some(n) {
      ParseExact(s, n);
    }
  }

  /** Minutes or seconds of 60 and more, and extra leading zeros on the
      hours, are not displays. */
  lemma ParseRejectsNonDisplays()
    ensures Parse("00:00:65") == None && Parse("00:65:00") == None
    ensures Parse("000:01:05") == None
  {
    assert Value("65") == 65 by {
      assert "65"[..1] == "6" && "6"[..0] == [];
    }
    assert "00:00:65"[6..] == "65" && "00:65:00"[3..5] == "65";
  }

  /** Distinct non-negative counts are shown differently. */
  lemma FormatInjective(a: int, b: int)
    requires a >= 0 && b >= 0
    ensures Format(a) == Format(b) <==> a == b
  {
    FormatRoundTrip(a);
    FormatRoundTrip(b);
  }

  /** Zero seconds is shown as "00:00:00". The three steps are separate
      lemmas because the solver handles them far better one at a time. */
  lemma FormatOfZero()
    ensures Format(0) == Zero
  {
    FormatOfZeroParts();
    PadZero();
    ZeroText();
  }

  lemma FormatOfZeroParts()
    ensures Format(0) == Pad2(0) + ":" + Pad2(0) + ":" + Pad2(0)
  {
    DecomposeUnique(HMS(0, 0, 0));
  }

  lemma PadZero()
    ensures Pad2(0) == "00"
  {
    assert Digits(0) == "0";
  }

  lemma ZeroText()
    ensures "00" + ":" + "00" + ":" + "00" == Zero
  {
  }

  /** "00:00:00" is shown for zero seconds and for no other count. */
  lemma FormatZero(n: int)
    ensures Format(n) == Zero <==> n == 0
  {
    if n == 0 {
      FormatOfZero();
    } else if n > 0 {
      FormatInjective(n, 0);
      FormatOfZero();
    } else {
      assert Zero[0] == '0';
    }
  }

  /** The error text can never be mistaken for a reading. */
  lemma FormatNotInvalid(n: int)
    ensures Format(n) != InvalidInput
  {
    assert InvalidInput[0] == 'I';
  }
}
