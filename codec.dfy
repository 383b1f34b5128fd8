/**
 The store's line format for a snack, `name::count::price`: Java's
 `String.split("::")`, `Integer.parseInt` and `Integer.toString`, a price
 written as the `toString()` of a BigDecimal of scale 2 and read as
 `new BigDecimal(text)` does, written out over strings.
 */
module Codec {
  import opened Snacks

  const Delimiter: string := "::"

  /** The field separator never appears inside a field. */
  predicate NoColon(s: string)
  {
    forall i :: 0 <= i < |s| ==> s[i] != ':'
  }

  // ---------------------------------------------------------------------
  // Splitting and joining on "::"

  /**
   The pieces of `s` between the occurrences of "::", found left to right
   without overlap (so ":::" is one delimiter followed by ":"). A string
   without a delimiter is a single piece.
   */
  function SplitOn(s: string): (r: seq<string>)
    ensures |r| >= 1
    decreases |s|
  {
    if |s| < 2 then [s]
    else if s[0] == ':' && s[1] == ':' then [""] + SplitOn(s[2..])
    else
      var rest := SplitOn(s[1..]);
      [[s[0]] + rest[0]] + rest[1..]
  }

  /** The pieces put back together, separated by "::". */
  function Join(fields: seq<string>): string
    requires |fields| >= 1
    decreases |fields|
  {
    if |fields| == 1 then fields[0] else fields[0] + Delimiter + Join(fields[1..])
  }

  /** Joining the pieces of a split gives back the text, whatever it is. */
  lemma {:induction false} JoinSplit(s: string)
    ensures Join(SplitOn(s)) == s
    decreases |s|
  {
    if |s| < 2 {
    } else if s[0] == ':' && s[1] == ':' {
      JoinSplit(s[2..]);
      assert s == Delimiter + s[2..];
    } else {
      var rest := SplitOn(s[1..]);
      assert SplitOn(s) == [[s[0]] + rest[0]] + rest[1..];
      JoinSplit(s[1..]);
      JoinExtendFirst(s[0], rest);
      assert s == [s[0]] + s[1..];
    }
  }

  /** Join of a first piece and the rest. */
  lemma {:induction false} JoinCons(first: string, rest: seq<string>)
    ensures rest == [] ==> Join([first] + rest) == first
    ensures rest != [] ==> Join([first] + rest) == first + Delimiter + Join(rest)
  {
    var q := [first] + rest;
    assert q[0] == first;
    if rest != [] {
      assert q[1..] == rest;
    }
  }

  /** Putting a character in front of the first piece puts it in front of the joined text. */
  lemma {:induction false} JoinExtendFirst(c: char, pieces: seq<string>)
    requires |pieces| >= 1
    ensures Join([[c] + pieces[0]] + pieces[1..]) == [c] + Join(pieces)
  {
    var rest := pieces[1..];
    assert pieces == [pieces[0]] + rest;
    JoinCons([c] + pieces[0], rest);
    JoinCons(pieces[0], rest);
    if rest != [] {
      var tail := Join(rest);
      assert ([c] + pieces[0]) + Delimiter + tail == [c] + (pieces[0] + Delimiter + tail);
    }
  }

  /** A piece without a colon in front of the text extends the split's first piece. */
  lemma {:induction false} SplitAfterPlain(a: string, t: string)
    requires NoColon(a)
    ensures SplitOn(a + t) == [a + SplitOn(t)[0]] + SplitOn(t)[1..]
    decreases |a|
  {
    if a != [] {
      var s := a + t;
      assert s[0] == a[0] && a[0] != ':';
      if |s| < 2 {
        assert a == s && t == [];
        assert SplitOn(t) == [t];
      } else {
        assert s[1..] == a[1..] + t;
        assert SplitOn(s) == [[s[0]] + SplitOn(s[1..])[0]] + SplitOn(s[1..])[1..];
        SplitAfterPlain(a[1..], t);
        assert [a[0]] + (a[1..] + SplitOn(t)[0]) == a + SplitOn(t)[0];
      }
    } else {
      assert a + t == t;
      assert a + SplitOn(t)[0] == SplitOn(t)[0];
    }
  }

  /** Splitting fields joined with "::" gives back the fields, when none holds a colon. */
  lemma {:induction false} SplitJoin(fields: seq<string>)
    requires |fields| >= 1
    requires forall i :: 0 <= i < |fields| ==> NoColon(fields[i])
    ensures SplitOn(Join(fields)) == fields
    decreases |fields|
  {
    if |fields| == 1 {
      SplitAfterPlain(fields[0], "");
      assert fields[0] + "" == fields[0];
    } else {
      var tail := Join(fields[1..]);
      SplitJoin(fields[1..]);
      var d := Delimiter + tail;
      assert d[2..] == tail;
      assert SplitOn(d) == [""] + fields[1..];
      SplitAfterPlain(fields[0], d);
      assert fields[0] + Delimiter + tail == fields[0] + d;
      assert fields[0] + "" == fields[0];
    }
  }

  /** The pieces without the empty ones at the end. */
  function StripTrailingEmpty(pieces: seq<string>): (r: seq<string>)
    ensures |r| <= |pieces|
    ensures r == pieces[..|r|]
    ensures r != [] ==> r[|r| - 1] != ""
    ensures forall i :: |r| <= i < |pieces| ==> pieces[i] == ""
    decreases |pieces|
  {
    if pieces == [] then []
    else if pieces[|pieces| - 1] == "" then StripTrailingEmpty(pieces[..|pieces| - 1])
    else pieces
  }

  /**
   Java's `s.split("::")`: the text itself when there is no delimiter,
   otherwise the pieces with the trailing empty ones removed.
   */
  function Split(s: string): (r: seq<string>)
  {
    var pieces := SplitOn(s);
    if |pieces| == 1 then pieces else StripTrailingEmpty(pieces)
  }

  // ---------------------------------------------------------------------
  // Decimal digits

  predicate IsDigit(c: char)
  {
    '0' <= c <= '9'
  }

  predicate AllDigits(s: string)
  {
    forall i :: 0 <= i < |s| ==> IsDigit(s[i])
  }

  function DigitChar(d: nat): (c: char)
    requires d < 10
    ensures IsDigit(c)
  {
    (48 + d) as char
  }

  function DigitValue(c: char): (d: nat)
    requires IsDigit(c)
    ensures d < 10
    ensures DigitChar(d) == c
  {
    (c as int) - 48
  }

  /** The value of a string of decimal digits, most significant first. */
  function DigitsValue(s: string): (v: nat)
    requires AllDigits(s)
    decreases |s|
  {
    if s == [] then 0 else DigitsValue(s[..|s| - 1]) * 10 + DigitValue(s[|s| - 1])
  }

  /** The decimal digits of `n` without leading zeros, as Java prints it. */
  function NatToString(n: nat): (s: string)
    ensures |s| >= 1 && AllDigits(s)
    ensures NoColon(s)
    decreases n
  {
    if n < 10 then [DigitChar(n)] else NatToString(n / 10) + [DigitChar(n % 10)]
  }

  lemma {:induction false} NatToStringValue(n: nat)
    ensures DigitsValue(NatToString(n)) == n
    decreases n
  {
    var s := NatToString(n);
    if n >= 10 {
      NatToStringValue(n / 10);
      assert s[..|s| - 1] == NatToString(n / 10);
    }
  }

  /** Java's `Integer.toString`. */
  function IntToString(n: int): string
  {
    if n < 0 then "-" + NatToString(-n) else NatToString(n)
  }

  /**
   Java's `Integer.parseInt`: an optional '+' or '-', then at least one
   decimal digit, with a value that fits in an `int`; anything else is
   rejected.
   */
  function ParseInt(t: string): (r: Option<Int32>)
    ensures r.Some? ==> |t| >= 1
  {
    if |t| == 0 then None
    else
      var signed := t[0] == '-' || t[0] == '+';
      var digits := if signed then t[1..] else t;
      if |digits| == 0 || !AllDigits(digits) then None
      else
        var magnitude: int := DigitsValue(digits);
        var v := if t[0] == '-' then -magnitude else magnitude;
        if MinInt32 <= v <= MaxInt32 then Some(v) else None
  }

  /** Every `int` printed by Java parses back to itself. */
  lemma {:induction false} ParseIntToString(n: Int32)
    ensures ParseInt(IntToString(n)) == Some(n)
  {
    var t := IntToString(n);
    if n < 0 {
      var m: nat := -(n as int);
      var digits := NatToString(m);
      NatToStringValue(m);
      assert t[0] == '-' && t[1..] == digits;
    } else {
      var digits := NatToString(n);
      NatToStringValue(n);
      assert t == digits && IsDigit(t[0]);
    }
  }

  /** Text with a colon in it is never a number. */
  lemma {:induction false} ParseIntRejectsColon(t: string)
    requires !NoColon(t)
    ensures ParseInt(t) == None
  {
    var i :| 0 <= i < |t| && t[i] == ':';
    if t[0] == '-' || t[0] == '+' {
      assert t[1..][i - 1] == ':';
    }
  }

  // ---------------------------------------------------------------------
  // Prices

  /** Position of the first '.', or |s| when there is none. */
  function DotIndex(s: string): (i: nat)
    ensures i <= |s|
    ensures i < |s| ==> s[i] == '.'
    ensures forall j :: 0 <= j < i ==> s[j] != '.'
    decreases |s|
  {
    if s == [] then 0 else if s[0] == '.' then 0 else 1 + DotIndex(s[1..])
  }

  /** The two digits of `p` pence after the point. */
  function TwoDigits(p: nat): (s: string)
    requires p < 100
    ensures |s| == 2 && AllDigits(s)
  {
    [DigitChar(p / 10), DigitChar(p % 10)]
  }

  /** The text of a non-negative price: whole pounds, a '.', two digits of pence. */
  function UnsignedPriceText(m: nat): string
  {
    NatToString(m / 100) + "." + TwoDigits(m % 100)
  }

  /**
   The text of a BigDecimal price of scale 2 for `pence` (its unscaled
   value): a '-' in front of a negative price, then its magnitude.
   */
  function PriceToString(pence: int): string
  {
    if pence < 0 then "-" + UnsignedPriceText(-pence) else UnsignedPriceText(pence)
  }

  /** Pence in the one or two decimals after the point. */
  function FractionPence(frac: string): (p: nat)
    requires |frac| <= 2 && AllDigits(frac)
    ensures p < 100
  {
    if |frac| == 0 then 0
    else if |frac| == 1 then DigitValue(frac[0]) * 10
    else DigitValue(frac[0]) * 10 + DigitValue(frac[1])
  }

  /** Only '0's: decimals that do not change a value. */
  predicate ZerosOnly(s: string)
  {
    forall i :: 0 <= i < |s| ==> s[i] == '0'
  }

  /**
   A price without its sign, as `new BigDecimal` reads it: digits, a '.'
   and more digits, where either side of the '.' may be empty but not
   both. The value in pence, or None when it is not a whole number of
   pence (a non-zero digit after the second decimal).
   */
  function ParseUnsignedPrice(body: string): Option<nat>
  {
    var dot := DotIndex(body);
    var whole := body[..dot];
    var frac := if dot < |body| then body[dot + 1..] else "";
    var cut := if |frac| < 2 then |frac| else 2;
    if !AllDigits(whole) || !AllDigits(frac) then None
    else if |whole| == 0 && |frac| == 0 then None
    else if !ZerosOnly(frac[cut..]) then None
    else Some(DigitsValue(whole) * 100 + FractionPence(frac[..cut]))
  }

  /**
   `new BigDecimal(text)` for a price: an optional '+' or '-' and then an
   unsigned price. The value is returned in pence; a text with an
   exponent is rejected.
   */
  function ParsePrice(t: string): (r: Option<int>)
    ensures r.Some? ==> |t| >= 1
  {
    var signed := |t| >= 1 && (t[0] == '-' || t[0] == '+');
    var negative := |t| >= 1 && t[0] == '-';
    match ParseUnsignedPrice(if signed then t[1..] else t)
    case Some(v) => Some(if negative then -(v as int) else v)
    case None => None
  }

  lemma {:induction false} PriceTextHasNoColon(pence: int)
    ensures NoColon(PriceToString(pence))
  {
  }

  lemma {:induction false} DotAfterDigits(whole: string, rest: string)
    requires AllDigits(whole)
    requires |rest| >= 1 && rest[0] == '.'
    ensures DotIndex(whole + rest) == |whole|
    decreases |whole|
  {
    if whole != [] {
      DotAfterDigits(whole[1..], rest);
      assert (whole + rest)[1..] == whole[1..] + rest;
    } else {
      assert whole + rest == rest;
    }
  }

  lemma {:induction false} ParseUnsignedPriceText(m: nat)
    ensures ParseUnsignedPrice(UnsignedPriceText(m)) == Some(m)
    ensures IsDigit(UnsignedPriceText(m)[0])
  {
    var whole := NatToString(m / 100);
    var frac := TwoDigits(m % 100);
    var body := UnsignedPriceText(m);
    assert body == whole + ("." + frac);
    DotAfterDigits(whole, "." + frac);
    assert body[..|whole|] == whole;
    assert body[|whole| + 1..] == frac;
    NatToStringValue(m / 100);
    assert FractionPence(frac) == m % 100;
    assert body[0] == whole[0];
  }

  /** Whole pounds followed by a bare '.' ("5.") are read as whole pounds. */
  lemma {:induction false} ParseTrailingDot(n: nat)
    ensures ParseUnsignedPrice(NatToString(n) + ".") == Some(n * 100)
  {
    var whole := NatToString(n);
    var body := whole + ".";
    DotAfterDigits(whole, ".");
    assert body[..|whole|] == whole;
    assert body[|whole| + 1..] == "";
    NatToStringValue(n);
  }

  /** A sign in front of an unsigned price. */
  lemma {:induction false} ParsePriceSign(body: string, v: nat)
    requires ParseUnsignedPrice(body) == Some(v)
    requires |body| >= 1 && IsDigit(body[0])
    ensures ParsePrice(body) == Some(v)
    ensures ParsePrice("-" + body) == Some(-(v as int))
  {
    assert ("-" + body)[1..] == body;
  }

  /** Every price printed at two decimals parses back to the same number of pence. */
  lemma {:induction false} ParsePriceToString(pence: int)
    ensures ParsePrice(PriceToString(pence)) == Some(pence)
  {
    var m: nat := if pence < 0 then -pence else pence;
    ParseUnsignedPriceText(m);
    ParsePriceSign(UnsignedPriceText(m), m);
  }

  // ---------------------------------------------------------------------
  // Snack records

  /** A snack's line: `name::count::price`. */
  function Marshall(s: Snack): string
  {
    s.name + Delimiter + IntToString(s.count) + Delimiter + PriceToString(s.price)
  }

  /**
   A line back to a snack: the first three pieces of the split are the
   name, the count and the price (any further pieces are ignored); a
   missing piece, a count that is not an `int` or a price that is not a
   decimal with at most two places fails.
   */
  function Unmarshall(line: string): (r: Option<Snack>)
    ensures r.Some? ==> |Split(line)| >= 3 && r.value.name == Split(line)[0]
  {
    var fields := Split(line);
    if |fields| < 3 then None
    else
      match (ParseInt(fields[1]), ParsePrice(fields[2]))
      case (Some(count), Some(price)) => Some(Snack(fields[0], count, price))
      case _ => None
  }

  /** A marshalled snack splits into exactly its three fields. */
  lemma {:induction false} SplitMarshall(s: Snack)
    requires NoColon(s.name)
    ensures Split(Marshall(s)) == [s.name, IntToString(s.count), PriceToString(s.price)]
  {
    var fields := [s.name, IntToString(s.count), PriceToString(s.price)];
    PriceTextHasNoColon(s.price);
    assert Join(fields[2..]) == PriceToString(s.price);
    assert Join(fields[1..]) == IntToString(s.count) + Delimiter + PriceToString(s.price);
    assert Join(fields) == Marshall(s);
    SplitJoin(fields);
  }

  /** Reading back a written snack gives the same snack, when its name has no colon. */
  lemma {:induction false} UnmarshallMarshall(s: Snack)
    requires NoColon(s.name)
    ensures Unmarshall(Marshall(s)) == Some(s)
  {
    SplitMarshall(s);
    ParseIntToString(s.count);
    ParsePriceToString(s.price);
  }

  /** A count field that starts with ':' stays one piece of the split. */
  lemma {:induction false} ColonCountPieces(c: string, p: string)
    requires |c| >= 1 && NoColon(c) && NoColon(p)
    ensures SplitOn(Delimiter + (":" + c + Delimiter + p)) == ["", ":" + c, p]
  {
    SplitJoin([c, p]);
    var u := ":" + c + Delimiter + p;
    assert u[1..] == Join([c, p]);
    assert SplitOn(u) == [":" + c, p];
    var t := Delimiter + u;
    assert t[2..] == u;
  }

  /** The line of a name ending in ':' splits with that ':' moved into the count field. */
  lemma {:induction false} ColonEndedSplit(a: string, c: string, p: string)
    requires NoColon(a) && |c| >= 1 && NoColon(c) && |p| >= 1 && NoColon(p)
    ensures Split((a + ":") + Delimiter + c + Delimiter + p) == [a, ":" + c, p]
  {
    var t := Delimiter + (":" + c + Delimiter + p);
    ColonCountPieces(c, p);
    SplitAfterPlain(a, t);
    assert a + "" == a;
    assert (a + ":") + Delimiter + c + Delimiter + p == a + t;
  }

  /**
   A name ending in ':' does not survive the line format: the delimiter is
   found one character early, so the count field starts with ':' and the
   line is not a snack.
   */
  lemma {:induction false} ColonEndedNameUnreadable(s: Snack)
    requires |s.name| >= 1 && s.name[|s.name| - 1] == ':'
    requires NoColon(s.name[..|s.name| - 1])
    ensures Unmarshall(Marshall(s)) == None
  {
    var a := s.name[..|s.name| - 1];
    var c := IntToString(s.count);
    var p := PriceToString(s.price);
    PriceTextHasNoColon(s.price);
    assert NoColon(c) && |c| >= 1 && |p| >= 1;
    assert s.name == a + ":";
    ColonEndedSplit(a, c, p);
    assert (":" + c)[0] == ':';
    ParseIntRejectsColon(":" + c);
  }
}
