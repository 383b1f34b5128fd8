/**
 getChangeCoins as the source writes it: the quotient funds / value is
 turned into a double, floored, printed with `String.valueOf`, cut at the
 '.', and parsed back with `Integer.parseInt`. Java prints a double of
 magnitude 10^7 or more in scientific notation ("1.2345678E7"), so the text
 before the '.' is then only the leading digit. Money.GetChangeCoins is the
 intended behaviour (the floor of the quotient), which the rest of the
 model uses.
 */
module ChangeAsWritten {
  import opened Snacks
  import opened Codec
  import opened Money

  const SciThreshold: int := 10_000_000

  /** The first decimal digit of a positive number. */
  function LeadingDigit(n: nat): (d: nat)
    requires n >= 1
    ensures 1 <= d <= 9
    decreases n
  {
    if n < 10 then n else LeadingDigit(n / 10)
  }

  /** The digits without the zeros at the end, or "0" when nothing else is left. */
  function StripZeros(digits: string): (r: string)
    ensures |r| >= 1
    decreases |digits|
  {
    if digits == [] then "0"
    else if digits[|digits| - 1] == '0' then StripZeros(digits[..|digits| - 1])
    else digits
  }

  /**
   Java's `String.valueOf(double)` for a double holding the whole number
   `q` exactly: plain "q.0" below 10^7 in magnitude, otherwise one digit,
   a '.', the remaining significant digits and the exponent.
   */
  function FloorText(q: int): string
  {
    if -SciThreshold < q < SciThreshold then IntToString(q) + ".0"
    else
      var m: nat := if q < 0 then -q else q;
      var digits := NatToString(m);
      (if q < 0 then "-" else "") + [digits[0]] + "." + StripZeros(digits[1..]) + "E" + NatToString(|digits| - 1)
  }

  /** `Integer.parseInt(num.substring(0, num.indexOf('.')))` with `num` = FloorText(q). */
  function CountAsWritten(q: int): Option<Int32>
  {
    var num := FloorText(q);
    ParseInt(num[..DotIndex(num)])
  }

  lemma {:induction false} LeadingDigitIsFirst(n: nat)
    requires n >= 1
    ensures NatToString(n)[0] == DigitChar(LeadingDigit(n))
    decreases n
  {
    if n >= 10 {
      LeadingDigitIsFirst(n / 10);
    }
  }

  /**
   What the source computes: the quotient itself below 10^7 in magnitude,
   and only its leading digit (with its sign) from 10^7 on.
   */
  lemma {:induction false} CountAsWrittenValue(q: int)
    ensures -SciThreshold < q < SciThreshold ==> CountAsWritten(q) == Some(q)
    ensures q >= SciThreshold ==> CountAsWritten(q) == Some(LeadingDigit(q))
    ensures q <= -SciThreshold ==> CountAsWritten(q) == Some(-(LeadingDigit(-q) as int))
  {
    var num := FloorText(q);
    if -SciThreshold < q < SciThreshold {
      var t := IntToString(q);
      assert num == t + ".0";
      DotAfterDigitsAndSign(t, ".0");
      assert num[..|t|] == t;
      ParseIntToString(q);
    } else {
      var m: nat := if q < 0 then -q else q;
      LeadingDigitIsFirst(m);
      var lead := [DigitChar(LeadingDigit(m))];
      var sign := if q < 0 then "-" else "";
      var digits := NatToString(m);
      var rest := "." + StripZeros(digits[1..]) + "E" + NatToString(|digits| - 1);
      assert num == sign + lead + rest;
      DotAfterDigitsAndSign(sign + lead, rest);
      assert num[..|sign + lead|] == sign + lead;
      assert lead[..0] == [] && AllDigits(lead);
      assert DigitsValue(lead) == LeadingDigit(m);
      if q < 0 {
        assert (sign + lead)[1..] == lead;
      } else {
        assert sign + lead == lead;
      }
    }
  }

  /** An optional '-' and digits, then a '.': the first '.' is right after them. */
  lemma {:induction false} DotAfterDigitsAndSign(t: string, rest: string)
    requires |t| >= 1 && (t[0] == '-' ==> AllDigits(t[1..])) && (t[0] != '-' ==> AllDigits(t))
    requires |rest| >= 1 && rest[0] == '.'
    ensures DotIndex(t + rest) == |t|
  {
    if t[0] == '-' {
      DotAfterDigits(t[1..], rest);
      assert (t + rest)[1..] == t[1..] + rest;
    } else {
      DotAfterDigits(t, rest);
    }
  }

  /**
   getChangeCoins as written: the count comes from the printed double; a
   loop then gathers that many coins.
   */
  method GetChangeCoinsAsWritten(funds: int, coin: Coin) returns (change: seq<Coin>)
    ensures forall i :: 0 <= i < |change| ==> change[i] == coin
    ensures 0 <= funds / Value(coin) < SciThreshold ==> |change| == funds / Value(coin)
    ensures funds / Value(coin) >= SciThreshold ==> |change| == LeadingDigit(funds / Value(coin))
  {
    var q := funds / Value(coin);
    CountAsWrittenValue(q);
    var count := CountAsWritten(q).value;
    change := [];
    var i := 0;
    while i < count
      invariant count >= 0 ==> i <= count
      invariant count < 0 ==> i == 0
      invariant |change| == i
      invariant forall k :: 0 <= k < |change| ==> change[k] == coin
    {
      change := change + [coin];
      i := i + 1;
    }
  }

  /**
   The discrepancy: for twenty million pounds in two-pound coins the source
   hands out one coin where ten million are due; the intended
   GetChangeCoins gives all ten million.
   */
  method TwentyMillionPounds() returns (asWritten: seq<Coin>, intended: seq<Coin>)
    ensures |asWritten| == 1
    ensures |intended| == 10_000_000
  {
    asWritten := GetChangeCoinsAsWritten(2_000_000_000, TwoPound);
    intended := GetChangeCoins(2_000_000_000, TwoPound);
  }

  /** From 10^7 on, the count as written is always short. */
  lemma {:induction false} CountAsWrittenShort(q: int)
    requires q >= SciThreshold
    ensures CountAsWritten(q).Some? && CountAsWritten(q).value < q
  {
    CountAsWrittenValue(q);
  }
}
