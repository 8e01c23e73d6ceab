/** The string primitives the modelled code relies on: Python's `\w`, `\s`,
    `str.strip`, `str.lower`, `str.startswith`, `", ".join`, `str.split(", ")`
    and the decimal rendering of an `int`. */
module Text {

  import opened Wrappers

  /** `\w` restricted to ASCII: letters, digits and the underscore. */
  predicate IsWordChar(c: char)
  {
    ('a' <= c <= 'z') || ('A' <= c <= 'Z') || ('0' <= c <= '9') || c == '_'
  }

  /** The characters Python treats as whitespace, both for `\s` in a str
      pattern and for `str.strip()`. */
  predicate IsSpace(c: char)
  {
    || ('\t' <= c <= '\r')
    || ('\U{1C}' <= c <= ' ')
    || c == '\U{85}' || c == '\U{A0}' || c == '\U{1680}'
    || ('\U{2000}' <= c <= '\U{200A}')
    || c == '\U{2028}' || c == '\U{2029}' || c == '\U{202F}' || c == '\U{205F}'
    || c == '\U{3000}'
  }

  predicate Distinct<T(==)>(xs: seq<T>)
  {
    forall i, j :: 0 <= i < j < |xs| ==> xs[i] != xs[j]
  }

  /** A duplicate-free sequence has as many elements as its set. */
  lemma {:induction false} DistinctCardinality<T>(xs: seq<T>)
    requires Distinct(xs)
    ensures |set x | x in xs| == |xs|
  {
    if xs != [] {
      var init := xs[..|xs| - 1];
      var last := xs[|xs| - 1];
      assert Distinct(init);
      DistinctCardinality(init);
      assert (set x | x in xs) == (set x | x in init) + {last};
      assert last !in init;
    }
  }

  predicate StartsWith(s: string, prefix: string)
  {
    |prefix| <= |s| && s[..|prefix|] == prefix
  }

  // ---------------------------------------------------------------------
  // str.strip()

  function StripLeft(s: string): string
  {
    if |s| > 0 && IsSpace(s[0]) then StripLeft(s[1..]) else s
  }

  function StripRight(s: string): string
  {
    if |s| > 0 && IsSpace(s[|s| - 1]) then StripRight(s[..|s| - 1]) else s
  }

  /** `str.strip()` */
  function Strip(s: string): string
  {
    StripRight(StripLeft(s))
  }

  /** `StripLeft` drops exactly the leading whitespace. */
  lemma {:induction false} StripLeftDropsSpace(s: string)
    decreases |s|
    ensures var r := StripLeft(s);
      && |r| <= |s| && r == s[|s| - |r|..]
      && (forall i :: 0 <= i < |s| - |r| ==> IsSpace(s[i]))
      && (|r| > 0 ==> !IsSpace(r[0]))
  {
    if |s| > 0 && IsSpace(s[0]) {
      StripLeftDropsSpace(s[1..]);
      var r := StripLeft(s);
      forall i | 0 <= i < |s| - |r| ensures IsSpace(s[i]) {
        if i > 0 {
          assert s[i] == s[1..][i - 1];
        }
      }
    }
  }

  /** `StripRight` drops exactly the trailing whitespace. */
  lemma {:induction false} StripRightDropsSpace(s: string)
    decreases |s|
    ensures var r := StripRight(s);
      && |r| <= |s| && r == s[..|r|]
      && (forall i :: |r| <= i < |s| ==> IsSpace(s[i]))
      && (|r| > 0 ==> !IsSpace(r[|r| - 1]))
  {
    if |s| > 0 && IsSpace(s[|s| - 1]) {
      var t := s[..|s| - 1];
      StripRightDropsSpace(t);
      var r := StripRight(s);
      forall i | |r| <= i < |s| ensures IsSpace(s[i]) {
        if i < |s| - 1 {
          assert s[i] == t[i];
        }
      }
      assert t[..|r|] == s[..|r|];
    }
  }

  /** `r` is `s` with `lead` whitespace characters removed in front and only
      whitespace removed behind. */
  predicate IsTrimOf(s: string, r: string, lead: int)
  {
    && 0 <= lead && lead + |r| <= |s|
    && s[lead..lead + |r|] == r
    && (forall i :: 0 <= i < lead ==> IsSpace(s[i]))
    && (forall i :: lead + |r| <= i < |s| ==> IsSpace(s[i]))
  }

  /** The stripped string is a piece of the input framed by whitespace
      only, and it neither starts nor ends with whitespace. */
  lemma StripTrims(s: string)
    ensures var r := Strip(s);
      && (|r| > 0 ==> !IsSpace(r[0]) && !IsSpace(r[|r| - 1]))
      && exists lead :: IsTrimOf(s, r, lead)
  {
    var l := StripLeft(s);
    var r := StripRight(l);
    StripLeftDropsSpace(s);
    StripRightDropsSpace(l);
    assert IsTrimOf(s, r, |s| - |l|) by {
      assert s[|s| - |l|..][..|r|] == s[|s| - |l|..|s| - |l| + |r|];
      forall i | |s| - |l| + |r| <= i < |s| ensures IsSpace(s[i]) {
        assert s[i] == l[i - (|s| - |l|)];
      }
    }
  }

  // ---------------------------------------------------------------------
  // str.lower() and str.replace(" ", "-")

  /** ASCII case folding of one character. */
  function LowerChar(c: char): (d: char)
    ensures d == ' ' <==> c == ' '
    ensures !('A' <= d <= 'Z')
  {
    if 'A' <= c <= 'Z' then (c as int + 32) as char else c
  }

  function Lower(s: string): (r: string)
    ensures |r| == |s|
    ensures forall i :: 0 <= i < |s| ==> r[i] == LowerChar(s[i])
  {
    seq(|s|, i requires 0 <= i < |s| => LowerChar(s[i]))
  }

  function ReplaceSpaces(s: string): (r: string)
    ensures |r| == |s|
    ensures forall i :: 0 <= i < |s| ==> r[i] == (if s[i] == ' ' then '-' else s[i])
  {
    seq(|s|, i requires 0 <= i < |s| => if s[i] == ' ' then '-' else s[i])
  }

  // ---------------------------------------------------------------------
  // ", ".join(xs) and s.split(", ")

  /** The separator `", "` starts at index `i` of `s`. */
  predicate SeparatorAt(s: string, i: int)
  {
    0 <= i && i + 1 < |s| && s[i] == ',' && s[i + 1] == ' '
  }

  predicate HasNoSeparator(s: string)
  {
    forall i :: 0 <= i < |s| ==> !SeparatorAt(s, i)
  }

  /** Index of the first separator at or after `from`, or -1 (`str.find`). */
  function FindSeparator(s: string, from: nat): (r: int)
    decreases |s| - from
    ensures r == -1 || (from <= r && SeparatorAt(s, r))
    ensures forall i :: from <= i && (r == -1 || i < r) ==> !SeparatorAt(s, i)
  {
    if from + 1 >= |s| then -1
    else if SeparatorAt(s, from) then from
    else FindSeparator(s, from + 1)
  }

  function JoinComma(xs: seq<string>): string
  {
    if |xs| == 0 then ""
    else if |xs| == 1 then xs[0]
    else xs[0] + ", " + JoinComma(xs[1..])
  }

  /** `s.split(", ")`: never empty; `""` splits into `[""]`. */
  function SplitComma(s: string): (r: seq<string>)
    decreases |s|
    ensures |r| >= 1
  {
    var i := FindSeparator(s, 0);
    if i < 0 then [s] else [s[..i]] + SplitComma(s[i + 2..])
  }

  /** Joining the pieces of a split gives back the string. */
  lemma {:induction false} JoinSplit(s: string)
    decreases |s|
    ensures JoinComma(SplitComma(s)) == s
  {
    var i := FindSeparator(s, 0);
    if i >= 0 {
      var rest := s[i + 2..];
      JoinSplit(rest);
      assert SplitComma(s) == [s[..i]] + SplitComma(rest);
      var parts := SplitComma(s);
      assert parts[1..] == SplitComma(rest);
      assert JoinComma(parts) == s[..i] + ", " + JoinComma(SplitComma(rest));
      assert s == s[..i] + ", " + rest;
    }
  }

  /** Splitting a join gives back the list, provided it is not empty and no
      element contains the separator. */
  lemma {:induction false} SplitJoin(xs: seq<string>)
    requires |xs| >= 1
    requires forall k :: 0 <= k < |xs| ==> HasNoSeparator(xs[k])
    ensures SplitComma(JoinComma(xs)) == xs
  {
    var s := JoinComma(xs);
    var x := xs[0];
    if |xs| > 1 {
      var rest := JoinComma(xs[1..]);
      assert s == x + ", " + rest;
      assert SeparatorAt(s, |x|);
      forall k | 0 <= k < |x|
        ensures !SeparatorAt(s, k)
      {
        if k + 1 < |x| {
          assert s[k] == x[k] && s[k + 1] == x[k + 1];
          assert !SeparatorAt(x, k);
        } else {
          assert s[k + 1] == ',';
        }
      }
      var i := FindSeparator(s, 0);
      assert i == |x|;
      assert s[..i] == x;
      assert s[i + 2..] == rest;
      SplitJoin(xs[1..]);
    }
  }

  // ---------------------------------------------------------------------
  // str(n) for an int

  function DigitChar(d: nat): (c: char)
    requires d < 10
    ensures '0' <= c <= '9'
  {
    ('0' as int + d) as char
  }

  function NatToDecimal(n: nat): (s: string)
    ensures |s| >= 1
    ensures forall i :: 0 <= i < |s| ==> '0' <= s[i] <= '9'
    ensures s[0] == '0' ==> n == 0
  {
    if n < 10 then [DigitChar(n)] else NatToDecimal(n / 10) + [DigitChar(n % 10)]
  }

  /** The value of a string of decimal digits. */
  function DecimalValue(s: string): nat
    requires AllDigits(s)
  {
    if s == [] then 0
    else DecimalValue(s[..|s| - 1]) * 10 + (s[|s| - 1] as int - '0' as int)
  }

  /** `str(n)` for a Python int: an optional minus sign and then digits. */
  function IntToDecimal(n: int): string
  {
    if n < 0 then "-" + NatToDecimal(-n) else NatToDecimal(n)
  }

  predicate AllDigits(s: string)
  {
    forall i :: 0 <= i < |s| ==> '0' <= s[i] <= '9'
  }

  /** Reads back what `IntToDecimal` wrote. */
  function DecimalToInt(s: string): Option<int>
  {
    if |s| > 1 && s[0] == '-' && AllDigits(s[1..]) then
      var v: int := DecimalValue(s[1..]);
      Some(-v)
    else if |s| > 0 && AllDigits(s) then
      Some(DecimalValue(s))
    else
      None
  }

  lemma {:induction false} NatDecimalRoundTrip(n: nat)
    ensures DecimalValue(NatToDecimal(n)) == n
  {
    if n >= 10 {
      NatDecimalRoundTrip(n / 10);
      var s := NatToDecimal(n);
      assert s[..|s| - 1] == NatToDecimal(n / 10);
    }
  }

  lemma NegativeDecimalRoundTrip(n: int)
    requires n < 0
    ensures DecimalToInt(IntToDecimal(n)) == Some(n)
  {
    var d := NatToDecimal(-n);
    var s := "-" + d;
    assert s[0] == '-' && |s| > 1 && s[1..] == d;
    assert AllDigits(d);
    NatDecimalRoundTrip(-n);
    var v: int := DecimalValue(d);
    assert DecimalToInt(s) == Some(-v);
  }

  lemma NonNegativeDecimalRoundTrip(n: int)
    requires n >= 0
    ensures DecimalToInt(IntToDecimal(n)) == Some(n)
  {
    var s := NatToDecimal(n);
    assert s[0] != '-';
    assert AllDigits(s);
    NatDecimalRoundTrip(n);
    assert DecimalToInt(s) == Some(DecimalValue(s));
  }

  /** The decimal text of an int determines the int. */
  lemma DecimalRoundTrip(n: int)
    ensures DecimalToInt(IntToDecimal(n)) == Some(n)
  {
    if n < 0 {
      NegativeDecimalRoundTrip(n);
    } else {
      NonNegativeDecimalRoundTrip(n);
    }
  }
}
