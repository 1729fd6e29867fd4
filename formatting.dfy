/** The two value formatters nested in `get_weather`: `fmt`, which renders a
    measurement with one decimal and a unit, and `color_temp`, which
    right-justifies that text and colours it by the sign of the value with an
    ANSI SGR escape sequence. */
module Formatting {
  import opened Wrappers
  import opened Text
  import Symbols

  /** A measurement as read from the forecast: a number (held as a whole
      number of tenths, the precision the forecast service publishes), an
      absent value (a missing key or JSON null), or a value of another kind,
      held as its Python `str` text. */
  datatype Value = Num(tenths: int) | NoValue | Other(text: string)

  /** `f"{v:.1f}"` for a number of tenths: an optional minus sign, the whole
      part in decimal, a point and the tenths digit. */
  function FormatTenths(t: int): string {
    var a := if t < 0 then -t else t;
    (if t < 0 then "-" else "") + Decimal(a / 10) + "." + [DigitChar(a % 10)]
  }

  /** Reads text of the shape `FormatTenths` writes back into tenths. */
  function ParseTenths(s: string): Option<int> {
    if |s| < 3 || s[|s| - 2] != '.' || !IsDigit(s[|s| - 1]) then None
    else
      var body := s[..|s| - 2];
      var negative := body[0] == '-';
      var digits := if negative then body[1..] else body;
      if digits == [] || !AllDigits(digits) then None
      else
        var magnitude := 10 * DecimalValue(digits) + DigitValue(s[|s| - 1]);
        Some(if negative then -magnitude else magnitude)
  }

  /** Number text has exactly one digit after its only decimal point. */
  lemma FormatTenthsShape(t: int)
    ensures var r := FormatTenths(t);
            |r| >= 3 && r[|r| - 2] == '.' && IsDigit(r[|r| - 1]) && '.' !in r[..|r| - 2]
  {
    var a := if t < 0 then -t else t;
    var r := FormatTenths(t);
    assert r[..|r| - 2] == (if t < 0 then "-" else "") + Decimal(a / 10);
  }

  /** Reading the text back gives the value it was written from. */
  lemma FormatTenthsRoundTrip(t: int)
    ensures ParseTenths(FormatTenths(t)) == Some(t)
  {
    var a := if t < 0 then -t else t;
    var r := FormatTenths(t);
    var whole := Decimal(a / 10);
    assert r[..|r| - 2] == (if t < 0 then "-" else "") + whole;
    if t < 0 {
      assert r[..|r| - 2][1..] == whole;
    } else {
      assert whole[0] != '-';
    }
    DecimalRoundTrip(a / 10);
    assert r[|r| - 1] == DigitChar(a % 10);
    assert DigitValue(r[|r| - 1]) == a % 10;
    assert 10 * (a / 10) + a % 10 == a;
    var body := r[..|r| - 2];
    assert r[|r| - 2] == '.';
    assert (body[0] == '-') == (t < 0);
    var digits := if t < 0 then body[1..] else body;
    assert digits == whole;
  }

  /** A negative value is written as the positive one with a minus sign. */
  lemma FormatTenthsNegated(t: int)
    requires t > 0
    ensures FormatTenths(-t) == "-" + FormatTenths(t)
  {
  }

  /** `fmt(val, unit)`. */
  function Fmt(v: Value, unit: string): (r: string)
    ensures v.NoValue? ==> r == Symbols.NoData
    ensures v.Num? ==> r == FormatTenths(v.tenths) + unit
    ensures v.Other? ==> r == v.text + unit
  {
    match v
    case Num(t) => FormatTenths(t) + unit
    case NoValue => Symbols.NoData
    case Other(text) => text + unit
  }

  // ---------------------------------------------------------------------
  // color_temp

  /** The escape character that starts an ANSI control sequence. */
  const Esc: char := 27 as char

  /** `s` between the SGR sequence `ESC [ code m` and the reset `ESC [ 0 m`. */
  function Colored(code: string, s: string): string {
    [Esc] + "[" + code + "m" + s + [Esc] + "[0m"
  }

  /** The SGR colour for a value of this sign: blue (34) below zero, red (31)
      above, yellow (33) at zero. */
  function SignColor(t: int): (code: string)
    ensures t < 0 ==> code == "34"
    ensures t > 0 ==> code == "31"
    ensures t == 0 ==> code == "33"
  {
    if t < 0 then "34" else if t > 0 then "31" else "33"
  }

  /** `color_temp(val, unit, width)`. */
  function ColorTemp(v: Value, unit: string, width: int): string {
    var padded := PadLeft(Fmt(v, unit), width);
    if v.Num? then Colored(SignColor(v.tenths), padded) else padded
  }

  /** The text a terminal shows: `s` with each escape sequence, from `ESC`
      up to and including the next `m`, taken out. */
  function Visible(s: string): string
    decreases |s|
  {
    if s == [] then []
    else if s[0] == Esc then Visible(AfterFinal(s[1..]))
    else [s[0]] + Visible(s[1..])
  }

  /** What follows the first `m` of `s` (nothing when there is none). */
  function AfterFinal(s: string): (r: string)
    ensures |r| <= |s|
  {
    if s == [] then [] else if s[0] == 'm' then s[1..] else AfterFinal(s[1..])
  }

  /** Text without escape characters shows as it is, also in front of more. */
  lemma {:induction false} VisiblePlain(s: string, rest: string)
    requires Esc !in s
    ensures Visible(s + rest) == s + Visible(rest)
  {
    if s != [] {
      assert (s + rest)[1..] == s[1..] + rest;
      VisiblePlain(s[1..], rest);
    } else {
      assert s + rest == rest;
    }
  }

  /** A colour code is invisible: the coloured text shows as the text. */
  lemma ColoredShowsText(code: string, s: string)
    requires Esc !in s && forall i :: 0 <= i < |code| ==> code[i] != 'm'
    ensures Visible(Colored(code, s)) == s
  {
    var tail := s + [Esc] + "[0m";
    assert Colored(code, s) == [Esc] + ("[" + code + "m" + tail);
    AfterFinalSkips("[" + code, tail);
    assert Visible([Esc] + "[0m") == [] by {
      AfterFinalSkips("[0", []);
      assert "[0" + "m" + [] == "[0m";
      assert ([Esc] + "[0m")[1..] == "[0m";
    }
    VisiblePlain(s, [Esc] + "[0m");
    assert tail == s + ([Esc] + "[0m");
  }

  lemma {:induction false} AfterFinalSkips(p: string, rest: string)
    requires forall i :: 0 <= i < |p| ==> p[i] != 'm'
    ensures AfterFinal(p + "m" + rest) == rest
  {
    if p != [] {
      assert (p + "m" + rest)[1..] == p[1..] + "m" + rest;
      AfterFinalSkips(p[1..], rest);
    } else {
      assert p + "m" + rest == "m" + rest;
    }
  }

  // ---------------------------------------------------------------------
  // Properties of fmt and color_temp.

  /** An absent value reads "No data" whatever the unit. */
  lemma FmtAbsent(unit: string, other: string)
    ensures Fmt(NoValue, unit) == Fmt(NoValue, other) == "No data"
  {
  }

  /** A number is written with exactly one decimal digit, followed by the
      unit, and the number text reads back as the value. */
  lemma FmtNumber(t: int, unit: string)
    ensures var r := Fmt(Num(t), unit);
            var n := |r| - |unit|;
            n >= 3 && r[n..] == unit && r[n - 2] == '.' && IsDigit(r[n - 1])
            && '.' !in r[..n - 2] && ParseTenths(r[..n]) == Some(t)
  {
    var r := Fmt(Num(t), unit);
    assert r[..|r| - |unit|] == FormatTenths(t);
    FormatTenthsShape(t);
    FormatTenthsRoundTrip(t);
  }

  /** Right-justification never shortens: the text shown is at least `width`
      long and at least as long as the `fmt` text, which it ends with. */
  lemma ColorTempWidth(v: Value, unit: string, width: int)
    requires Esc !in Fmt(v, unit)
    ensures var shown := Visible(ColorTemp(v, unit, width));
            |shown| >= width && |shown| >= |Fmt(v, unit)|
            && shown == PadLeft(Fmt(v, unit), width)
  {
    var padded := PadLeft(Fmt(v, unit), width);
    assert Esc !in padded;
    if v.Num? {
      ColoredShowsText(SignColor(v.tenths), padded);
    } else {
      VisiblePlain(padded, []);
      assert padded + [] == padded;
    }
  }

  /** A value that is not a number is never coloured: its text is free of
      escape characters whenever the `fmt` text is, and an absent value is
      always free of them. */
  lemma NoColorWithoutNumber(v: Value, unit: string, width: int)
    requires !v.Num?
    ensures Esc !in Fmt(v, unit) ==> Esc !in ColorTemp(v, unit, width)
    ensures v.NoValue? ==> Esc !in ColorTemp(v, unit, width)
  {
    if v.NoValue? {
      assert Fmt(v, unit) == "No data";
      assert Esc !in Fmt(v, unit);
    }
  }

  /** Coloured exactly when numeric: the output starts with an escape
      sequence if and only if the value is a number (for `fmt` text free of
      escape characters), and otherwise it is the right-justified text. */
  lemma ColoredIffNumber(v: Value, unit: string, width: int)
    requires Esc !in Fmt(v, unit)
    ensures var r := ColorTemp(v, unit, width);
            v.Num? <==> (|r| > 0 && r[0] == Esc)
    ensures !v.Num? ==> ColorTemp(v, unit, width) == PadLeft(Fmt(v, unit), width)
  {
    var padded := PadLeft(Fmt(v, unit), width);
    if !v.Num? && |padded| > 0 {
      assert padded[0] in padded;
      assert padded[0] == ' ' || padded[0] in Fmt(v, unit) by {
        if |padded| == |Fmt(v, unit)| {
          assert padded == Fmt(v, unit);
        }
      }
    }
  }

  /** For a value and its negation the coloured outputs differ in the colour
      code and in the minus sign of the number, and in nothing else. */
  lemma OppositeSigns(t: int, unit: string, width: int)
    requires t > 0
    ensures ColorTemp(Num(t), unit, width) == Colored("31", PadLeft(FormatTenths(t) + unit, width))
    ensures ColorTemp(Num(-t), unit, width) == Colored("34", PadLeft("-" + FormatTenths(t) + unit, width))
  {
    FormatTenthsNegated(t);
  }

  /** Zero is coloured yellow. */
  lemma ZeroIsNeutral(unit: string, width: int)
    ensures ColorTemp(Num(0), unit, width) == Colored("33", PadLeft("0.0" + unit, width))
  {
    ZeroFormatsAsZero();
  }

  lemma ZeroFormatsAsZero()
    ensures FormatTenths(0) == "0.0"
  {
    assert Decimal(0) == "0";
  }
}
