/** The three pieces of Java's string library the seeding code goes through:
    the decimal conversion behind `"" + b`, `String.split(" ")` and
    `Integer.parseInt`. */
module JavaText {
  import opened Java

  predicate IsDigit(ch: char) { '0' <= ch <= '9' }

  predicate AllDigits(s: string) { forall i :: 0 <= i < |s| ==> IsDigit(s[i]) }

  function DigitValue(ch: char): (d: nat)
    requires IsDigit(ch)
    ensures d <= 9
  {
    ch as int - '0' as int
  }

  function DigitChar(d: int): (ch: char)
    requires 0 <= d <= 9
    ensures IsDigit(ch) && DigitValue(ch) == d
  {
    ('0' as int + d) as char
  }

  /** The decimal numeral of `n`, most significant digit first and without
      leading zeros. */
  function NatToString(n: nat): (s: string)
    ensures AllDigits(s)
    ensures 1 <= |s|
    ensures |s| == 1 <==> n < 10
    ensures s[0] != '0' || n == 0
    decreases n
  {
    if n < 10 then [DigitChar(n)] else NatToString(n / 10) + [DigitChar(n % 10)]
  }

  /** Java's conversion of an `int` to a string, as performed by `"" + n`. */
  function IntToString(n: int): (s: string)
    ensures 0 <= n <= 9 ==> s == [DigitChar(n)]
    ensures 1 <= |s| && (n < 0 <==> s[0] == '-')
  {
    if n < 0 then "-" + NatToString(-n) else NatToString(n)
  }

  /** The value of a string of decimal digits read most significant first. */
  function DigitsValue(s: string): nat
    requires AllDigits(s)
    decreases |s|
  {
    if |s| == 0 then 0 else DigitsValue(s[..|s| - 1]) * 10 + DigitValue(s[|s| - 1])
  }

  /** Java `Integer.parseInt(s)` in radix 10: an optional `-` or `+`, then at
      least one digit, with a value inside the `int` range; anything else
      throws `NumberFormatException`. */
  function ParseInt(s: string): (r: Result<Int32>)
    ensures r.Return? ==> 1 <= |s| && (r.value < 0 ==> s[0] == '-')
    ensures |s| == 0 ==> r.Throw?
    ensures r.Throw? ==> r.exception == NumberFormatException
  {
    var signed := |s| > 0 && (s[0] == '-' || s[0] == '+');
    var digits := if signed then s[1..] else s;
    if |digits| == 0 || !AllDigits(digits) then Throw(NumberFormatException)
    else
      var magnitude: int := DigitsValue(digits);
      var v := if signed && s[0] == '-' then -magnitude else magnitude;
      if MinInt <= v <= MaxInt then Return(v) else Throw(NumberFormatException)
  }

  /** Reading back a numeral gives the number it was written from. */
  lemma {:induction false} DigitsValueOfNatToString(n: nat)
    ensures DigitsValue(NatToString(n)) == n
    decreases n
  {
    if n >= 10 {
      var s := NatToString(n);
      var prefix := NatToString(n / 10);
      assert s == prefix + [DigitChar(n % 10)];
      assert s[..|s| - 1] == prefix;
      DigitsValueOfNatToString(n / 10);
    }
  }

  /** `Integer.parseInt` inverts the conversion `"" + n` on every `int`. */
  lemma ParseIntOfIntToString(n: Int32)
    ensures ParseInt(IntToString(n)) == Return(n)
  {
    var i: int := n;
    var m: nat := if i < 0 then -i else i;
    DigitsValueOfNatToString(m);
    if n < 0 {
      assert IntToString(n)[1..] == NatToString(m);
    }
  }

  /** The pieces of `s` between its spaces, empty pieces included: the split
      before Java discards trailing empty strings. */
  function Fields(s: string): (f: seq<string>)
    ensures 1 <= |f|
    ensures forall i :: 0 <= i < |f| ==> ' ' !in f[i]
    decreases |s|
  {
    if |s| == 0 then [""]
    else
      var rest := Fields(s[1..]);
      if s[0] == ' ' then [""] + rest
      else [[s[0]] + rest[0]] + rest[1..]
  }

  /** Glues pieces back together with one space between neighbours. */
  function Join(f: seq<string>): string
    requires 1 <= |f|
    decreases |f|
  {
    if |f| == 1 then f[0] else f[0] + " " + Join(f[1..])
  }

  /** Cutting at the spaces loses nothing: joining the pieces restores `s`. */
  lemma {:induction false} JoinFields(s: string)
    ensures Join(Fields(s)) == s
    decreases |s|
  {
    if |s| > 0 {
      var rest := Fields(s[1..]);
      JoinFields(s[1..]);
      if s[0] == ' ' {
        assert Fields(s) == [""] + rest;
        assert Fields(s)[1..] == rest;
      } else {
        var f := Fields(s);
        assert f == [[s[0]] + rest[0]] + rest[1..];
        if |rest| == 1 {
          assert Join(f) == [s[0]] + rest[0];
        } else {
          assert f[1..] == rest[1..];
          assert Join(rest) == rest[0] + " " + Join(rest[1..]);
          assert Join(f) == [s[0]] + rest[0] + " " + Join(rest[1..]);
        }
      }
    }
  }

  /** `f` without its trailing run of empty strings. */
  function DropTrailingEmpty(f: seq<string>): (g: seq<string>)
    ensures |g| <= |f| && g == f[..|g|]
    ensures |g| > 0 ==> g[|g| - 1] != ""
    ensures forall i :: |g| <= i < |f| ==> f[i] == ""
    decreases |f|
  {
    if |f| == 0 then []
    else if f[|f| - 1] == "" then DropTrailingEmpty(f[..|f| - 1])
    else f
  }

  /** Java `s.split(" ")` (limit 0): a string without a space is returned as
      its own single piece; otherwise the pieces between spaces, less any
      trailing empty ones. */
  function Split(s: string): (parts: seq<string>)
    ensures forall i :: 0 <= i < |parts| ==> ' ' !in parts[i]
    ensures ' ' !in s ==> parts == [s]
  {
    if ' ' !in s then [s] else DropTrailingEmpty(Fields(s))
  }

  /** A single token followed by one space splits into that token alone. */
  lemma {:induction false} SplitTokenThenSpace(t: string)
    requires 1 <= |t| && ' ' !in t
    ensures Split(t + " ") == [t]
  {
    TokenThenSpaceFields(t);
    assert (t + " ")[|t|] == ' ';
    assert DropTrailingEmpty([t, ""]) == DropTrailingEmpty([t]);
  }

  lemma {:induction false} TokenThenSpaceFields(t: string)
    requires ' ' !in t
    ensures Fields(t + " ") == [t, ""]
    decreases |t|
  {
    if |t| == 0 {
      assert Fields(" ") == [""] + Fields("");
    } else {
      assert (t + " ")[1..] == t[1..] + " ";
      assert t[1..] + " " == (t + " ")[1..];
      assert ' ' !in t[1..] by {
        forall i | 0 <= i < |t[1..]| ensures t[1..][i] != ' ' {
          assert t[1..][i] == t[i + 1];
        }
      }
      TokenThenSpaceFields(t[1..]);
      assert [t[0]] + t[1..] == t;
    }
  }
}
