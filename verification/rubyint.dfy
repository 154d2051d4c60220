/** Ruby's `String#to_i` in base 10: leading whitespace is skipped, an
    optional `+` or `-` is read, then an optional `0d` or `0D` radix prefix,
    then the longest run of decimal digits in which single underscores may
    separate digits; anything else ends the number, and a string with no such
    digits reads as 0. */
module RubyInt {
  import Text

  predicate IsDigit(c: char) {
    '0' <= c <= '9'
  }

  predicate AllDigits(s: string) {
    forall k :: 0 <= k < |s| ==> IsDigit(s[k])
  }

  /** The digits of the number `s` starts with, underscores dropped. */
  function DigitRun(s: string): (r: string)
    ensures AllDigits(r)
    ensures |r| <= |s|
    ensures r == [] <==> (s == [] || !IsDigit(s[0]))
  {
    if s == [] || !IsDigit(s[0]) then []
    else if |s| >= 3 && s[1] == '_' && IsDigit(s[2]) then [s[0]] + DigitRun(s[2..])
    else [s[0]] + DigitRun(s[1..])
  }

  /** The value of a string of decimal digits. */
  function DecimalValue(ds: string): (n: nat)
    requires AllDigits(ds)
  {
    if ds == [] then 0
    else DecimalValue(ds[..|ds| - 1]) * 10 + (ds[|ds| - 1] as int - '0' as int)
  }

  /** The digits after the sign, without the `0d`/`0D` prefix that base 10
      allows in front of them. */
  function Unprefixed(s: string): string {
    if |s| >= 2 && s[0] == '0' && (s[1] == 'd' || s[1] == 'D') then s[2..] else s
  }

  /** The magnitude read after the sign. */
  function Magnitude(s: string): nat {
    DecimalValue(DigitRun(Unprefixed(s)))
  }

  /** Ruby's `s.to_i`. */
  function ToI(s: string): int {
    if s != [] && Text.IsSpace(s[0]) then ToI(s[1..])
    else if s != [] && s[0] == '-' then 0 - Magnitude(s[1..])
    else if s != [] && s[0] == '+' then Magnitude(s[1..])
    else Magnitude(s)
  }

  /** The decimal numeral of `n`, without sign or leading zeros. */
  function Decimal(n: nat): (s: string)
    ensures AllDigits(s) && s != []
  {
    var d := [('0' as int + n % 10) as char];
    if n < 10 then d else Decimal(n / 10) + d
  }

  lemma {:induction false} DigitRunOfDigits(ds: string)
    requires AllDigits(ds)
    ensures DigitRun(ds) == ds
    decreases |ds|
  {
    if ds != [] {
      DigitRunOfDigits(ds[1..]);
    }
  }

  lemma {:induction false} DecimalValueOfDecimal(n: nat)
    ensures DecimalValue(Decimal(n)) == n
  {
    var s := Decimal(n);
    if n >= 10 {
      DecimalValueOfDecimal(n / 10);
      assert s[..|s| - 1] == Decimal(n / 10);
    }
  }

  /** A plain numeral reads as its value: it carries no radix prefix. */
  lemma MagnitudeOfDecimal(n: nat)
    ensures Magnitude(Decimal(n)) == n
  {
    var s := Decimal(n);
    assert |s| >= 2 ==> IsDigit(s[1]);
    assert Unprefixed(s) == s;
    DigitRunOfDigits(s);
    DecimalValueOfDecimal(n);
  }

  /** `to_i` reads back every numeral `git log --numstat` writes. */
  lemma ToIOfDecimal(n: nat)
    ensures ToI(Decimal(n)) == n
  {
    MagnitudeOfDecimal(n);
  }

  /** A leading `-` negates the numeral that follows it. */
  lemma ToIOfNegativeDecimal(n: nat)
    ensures ToI("-" + Decimal(n)) == 0 - n
  {
    var s := Decimal(n);
    MagnitudeOfDecimal(n);
    assert ("-" + s)[1..] == s;
  }

  /** The `0d` radix prefix is skipped: `"0d12".to_i` is 12. */
  lemma ToIOfPrefixedDecimal(n: nat)
    ensures ToI("0d" + Decimal(n)) == n
  {
    var s := Decimal(n);
    assert Unprefixed("0d" + s) == s;
    DigitRunOfDigits(s);
    DecimalValueOfDecimal(n);
  }

  /** A digit run ends where no digit follows, and where an underscore is not
      followed by a digit. */
  lemma {:induction false} DigitRunStops(ds: string, t: string)
    requires AllDigits(ds)
    requires t == [] || !IsDigit(t[0])
    requires |t| >= 2 && t[0] == '_' ==> !IsDigit(t[1])
    ensures DigitRun(ds + t) == ds
    decreases |ds|
  {
    if ds != [] {
      var s := ds + t;
      if |ds| == 1 {
        assert s[1..] == t;
      } else {
        assert s[1..] == ds[1..] + t;
        DigitRunStops(ds[1..], t);
      }
    }
  }

  /** Text after the numeral is ignored: `"12abc".to_i` and `"12_x".to_i`
      are 12. After a lone `0`, a `d` or `D` is read as the radix prefix, so
      it ends the number only when no digit follows it. */
  lemma ToIOfDecimalThen(n: nat, t: string)
    requires t == [] || !IsDigit(t[0])
    requires |t| >= 2 && t[0] == '_' ==> !IsDigit(t[1])
    requires n == 0 && |t| >= 2 && (t[0] == 'd' || t[0] == 'D') ==> !IsDigit(t[1])
    ensures ToI(Decimal(n) + t) == n
  {
    var ds := Decimal(n);
    var s := ds + t;
    assert s[0] == ds[0];
    if n == 0 && t != [] && (t[0] == 'd' || t[0] == 'D') {
      assert ds == "0";
      assert Unprefixed(s) == t[1..];
    } else {
      assert |ds| >= 2 ==> IsDigit(s[1]);
      assert Unprefixed(s) == s;
      DigitRunStops(ds, t);
      DecimalValueOfDecimal(n);
    }
  }

  /** A string without digits reads as 0, whatever signs and spaces it holds. */
  lemma {:induction false} ToINoDigits(s: string)
    requires forall k :: 0 <= k < |s| ==> !IsDigit(s[k])
    ensures ToI(s) == 0
    decreases |s|
  {
    if s != [] && Text.IsSpace(s[0]) {
      ToINoDigits(s[1..]);
    } else if s != [] && (s[0] == '-' || s[0] == '+') {
      assert s[1..] == [] || !IsDigit(s[1..][0]);
    }
  }

  /** Leading whitespace is skipped. */
  lemma ToISkipsSpace(c: char, s: string)
    requires Text.IsSpace(c)
    ensures ToI([c] + s) == ToI(s)
  {
    assert ([c] + s)[1..] == s;
  }

  /** A leading `+` leaves the numeral that follows it as it is. */
  lemma ToIOfPositiveDecimal(n: nat)
    ensures ToI("+" + Decimal(n)) == n
  {
    MagnitudeOfDecimal(n);
    assert ("+" + Decimal(n))[1..] == Decimal(n);
  }

  /** One step of `DigitRun` after a digit: an underscore followed by a digit
      is dropped, anything else is read from the next character on. */
  lemma DigitRunCons(c: char, s: string)
    requires IsDigit(c)
    ensures s == [] || s[0] != '_' ==> DigitRun([c] + s) == [c] + DigitRun(s)
    ensures |s| >= 2 && s[0] == '_' && IsDigit(s[1]) ==> DigitRun([c] + s) == [c] + DigitRun(s[1..])
  {
    assert ([c] + s)[1..] == s;
  }

  /** A single underscore between digits is dropped. */
  lemma {:induction false} DigitRunUnderscore(a: string, b: string)
    requires AllDigits(a) && a != [] && AllDigits(b) && b != []
    ensures DigitRun(a + ("_" + b)) == a + b
    decreases |a|
  {
    var u := "_" + b;
    var rest := a[1..] + u;
    assert a + u == [a[0]] + rest;
    if |a| == 1 {
      assert rest == u && u[1..] == b;
      DigitRunCons(a[0], u);
      DigitRunOfDigits(b);
    } else {
      assert rest[0] == a[1];
      DigitRunCons(a[0], rest);
      DigitRunUnderscore(a[1..], b);
      assert a + b == [a[0]] + (a[1..] + b);
    }
  }

  /** `"1_000".to_i` is 1000: the digits on both sides of an underscore make
      one number. */
  lemma ToIOfUnderscored(a: string, b: string)
    requires AllDigits(a) && a != [] && AllDigits(b) && b != []
    ensures ToI(a + "_" + b) == DecimalValue(a + b)
  {
    var s := a + "_" + b;
    assert s == a + ("_" + b);
    assert s[0] == a[0];
    assert s[1] == '_' || IsDigit(s[1]);
    assert Unprefixed(s) == s;
    DigitRunUnderscore(a, b);
  }

  /** The `-` numstat prints for a binary file's counts reads as 0. */
  lemma ToIOfDash()
    ensures ToI("-") == 0
  {
    assert "-"[1..] == [];
    assert DigitRun([]) == [];
  }
}
