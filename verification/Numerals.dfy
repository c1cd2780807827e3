/**
 Decimal numerals, and printing them by repeated subtraction of powers of ten.
 */
module Numerals {
  import opened Bytes

  /** What strtoul takes a character to be worth; 255 for one that is no digit in any base. */
  function DigitOf(c: char): nat {
    if '0' <= c <= '9' then (c - '0') as nat
    else if 'a' <= c <= 'z' then (c - 'a') as nat + 10
    else if 'A' <= c <= 'Z' then (c - 'A') as nat + 10
    else 255
  }

  function Digit(d: nat): (c: char)
    requires d < 10
    ensures '0' <= c <= '9' && DigitOf(c) == d
  {
    '0' + d as char
  }

  function Value(ds: string, base: nat): nat {
    if ds == "" then 0 else Value(ds[..|ds| - 1], base) * base + DigitOf(ds[|ds| - 1])
  }

  /** The digits of base 36, in order, in small letters and in capitals. */
  const SMALL: string := "0123456789abcdefghijklmnopqrstuvwxyz"
  const CAPITAL: string := "0123456789ABCDEFGHIJKLMNOPQRSTUVWXYZ"

  lemma AlphabetAt(d: nat)
    requires d < 36
    ensures |SMALL| == |CAPITAL| == 36
    ensures SMALL[d] as int == d + if d < 10 then 48 else 87
    ensures CAPITAL[d] as int == d + if d < 10 then 48 else 55
  {
  }

  /** What a character is worth: its place in the alphabet; no other character is a digit of any base up to 36. */
  lemma DigitAlphabet(c: char)
    ensures |SMALL| == |CAPITAL| == 36
    ensures forall d :: 0 <= d < 36 && (c == SMALL[d] || c == CAPITAL[d]) ==> DigitOf(c) == d
    ensures (forall d :: 0 <= d < 36 ==> c != SMALL[d] && c != CAPITAL[d]) ==> DigitOf(c) >= 36
  {
    hide SMALL, CAPITAL;
    AlphabetAt(0);
    forall d | 0 <= d < 36 && (c == SMALL[d] || c == CAPITAL[d]) ensures DigitOf(c) == d {
      AlphabetAt(d);
    }
    if DigitOf(c) < 36 { AlphabetAt(DigitOf(c)); }
  }

  predicate Decimal(ds: string) {
    forall i :: 0 <= i < |ds| ==> '0' <= ds[i] <= '9'
  }

  /** The decimal numeral of a number, without leading zeros. */
  function Numeral(m: nat): string {
    if m < 10 then [Digit(m)] else Numeral(m / 10) + [Digit(m % 10)]
  }

  predicate Canonical(ds: string) {
    Decimal(ds) && ds != "" && (ds[0] == '0' ==> |ds| == 1)
  }

  function Pow10(k: nat): (p: nat)
    ensures p > 0
  {
    if k == 0 then 1 else 10 * Pow10(k - 1)
  }

  const POWERS: seq<nat> :=
    [1, 10, 100, 1000, 10000, 100000, 1000000, 10000000, 100000000, 1000000000]

  lemma Units()
    ensures Pow10(0) == 1 && Value("", 10) == 0
  {
  }

  lemma PowersOfTen(k: nat)
    requires k < |POWERS|
    ensures POWERS[k] == Pow10(k)
  {
    if k > 0 {
      PowersOfTen(k - 1);
    }
  }

  lemma {:induction false} NumeralMeans(m: nat)
    ensures Canonical(Numeral(m)) && Value(Numeral(m), 10) == m
    ensures m > 0 ==> Numeral(m)[0] != '0'
  {
    var ds := Numeral(m);
    if m >= 10 {
      NumeralMeans(m / 10);
      assert ds[..|ds| - 1] == Numeral(m / 10);
    } else {
      assert ds[..0] == "" && Value(ds[..0], 10) == 0;
    }
  }

  lemma {:induction false} ValueBound(ds: string)
    requires Decimal(ds)
    ensures Value(ds, 10) < Pow10(|ds|)
    ensures |ds| > 0 && ds[0] == '0' ==> Value(ds, 10) < Pow10(|ds| - 1)
    ensures |ds| > 0 && ds[0] != '0' ==> Value(ds, 10) > 0
  {
    if ds != "" {
      ValueBound(ds[..|ds| - 1]);
    }
  }

  lemma DigitBack(c: char)
    requires '0' <= c <= '9'
    ensures DigitOf(c) < 10 && Digit(DigitOf(c)) == c
  {
  }

  /** A number has one canonical numeral: the one Numeral gives. */
  lemma {:induction false} CanonicalUnique(ds: string)
    requires Canonical(ds)
    ensures ds == Numeral(Value(ds, 10))
  {
    var last := |ds| - 1;
    var rest := ds[..last];
    DigitBack(ds[last]);
    if rest == "" {
      assert Value(rest, 10) == 0;
    } else {
      CanonicalUnique(rest);
      ValueBound(rest);
      assert Value(ds, 10) / 10 == Value(rest, 10);
    }
    assert ds == rest + [ds[last]];
  }

  function Repeat(c: char, k: nat): (s: string)
    ensures |s| == k
  {
    seq(k, i => c)
  }

  /** The text of a 32-bit value printed with %d, %i or %u; `width` counts from after the sign. */
  function Printed(u: nat, signed: bool, haveWidth: bool, width: nat, zeroPad: bool): string
    requires u < TWO32
  {
    var negative := signed && u >= 0x8000_0000;
    var m := if negative then TWO32 - u else u;
    var ds := Numeral(m);
    if haveWidth && width == 0 && u == 0 then ""
    else (if negative then "-" else "")
         + Repeat(if zeroPad then '0' else ' ', if width > |ds| then width - |ds| else 0)
         + ds
  }

  /**
   A printed text is a minus for the negative numbers of a signed conversion, then zeros or blanks up to the width,
   then the digits of the absolute value without leading zeros; only the zero of an explicit zero width has none.
   */
  lemma PrintedParts(u: nat, signed: bool, haveWidth: bool, width: nat, zeroPad: bool)
    returns (sign: string, pad: string, ds: string)
    requires u < TWO32
    ensures Printed(u, signed, haveWidth, width, zeroPad) == sign + pad + ds
    ensures haveWidth && width == 0 && u == 0 ==> sign == pad == ds == ""
    ensures !(haveWidth && width == 0 && u == 0) ==>
              && sign == (if signed && u >= 0x8000_0000 then "-" else "")
              && |pad| == (if width > |ds| then width - |ds| else 0)
              && (forall i :: 0 <= i < |pad| ==> pad[i] == if zeroPad then '0' else ' ')
              && Canonical(ds) && Value(ds, 10) == if sign == "-" then TWO32 - u else u
  {
    if haveWidth && width == 0 && u == 0 {
      return "", "", "";
    }
    sign := if signed && u >= 0x8000_0000 then "-" else "";
    ds := Numeral(if signed && u >= 0x8000_0000 then TWO32 - u else u);
    pad := Repeat(if zeroPad then '0' else ' ', if width > |ds| then width - |ds| else 0);
    NumeralMeans(if signed && u >= 0x8000_0000 then TWO32 - u else u);
  }

  lemma RepeatMore(c: char, k: nat)
    ensures Repeat(c, 0) == "" && Repeat(c, k) + [c] == Repeat(c, k + 1)
  {
  }

  /** `out` written from `n0` on into a buffer that takes `size` characters; what does not fit is dropped. */
  ghost predicate Shown(before: seq<char>, now: seq<char>, size: nat, n0: nat, out: string) {
    && |now| == |before|
    && forall i :: 0 <= i < |now| ==> now[i] == if n0 <= i < size && i < n0 + |out| then out[i - n0] else before[i]
  }

  lemma ShownNothing(a: seq<char>, size: nat, n0: nat)
    ensures Shown(a, a, size, n0, "")
  {
  }

  lemma ShownTwice(a: seq<char>, b: seq<char>, c: seq<char>, size: nat, n0: nat, x: string, y: string)
    requires Shown(a, b, size, n0, x) && Shown(b, c, size, n0 + |x|, y)
    ensures Shown(a, c, size, n0, x + y)
  {
  }

  method PutChar(str: array<char>, size: nat, n0: nat, c: char) returns (n: nat)
    requires size <= str.Length
    modifies str
    ensures n == n0 + 1 && Shown(old(str[..]), str[..], size, n0, [c])
  {
    if n0 < size {
      str[n0] := c;
    }
    n := n0 + 1;
  }

  /** The number of digits needed: at least one, and the leading one is not zero. */
  method RequiredDigits(u: nat) returns (req: nat)
    requires u < TWO32
    ensures 1 <= req <= 10 && u < Pow10(req)
    ensures req > 1 ==> Pow10(req - 1) <= u
  {
    req := 0;
    while req < 10 && POWERS[req] <= u
      invariant 0 <= req <= 10
      invariant req > 0 ==> Pow10(req - 1) <= u
    {
      PowersOfTen(req);
      req := req + 1;
    }
    if req < 10 {
      PowersOfTen(req);
    } else {
      PowersOfTen(9);
    }
    if req == 0 {
      req := 1;
    }
  }

  /** How often a power of ten can be subtracted, and what is left. */
  method SubtractOut(u0: nat, width: nat) returns (numeral: nat, u: nat)
    requires width < 10 && u0 < 10 * Pow10(width)
    ensures numeral < 10 && u < Pow10(width) && numeral * Pow10(width) + u == u0
  {
    PowersOfTen(width);
    numeral, u := 0, u0;
    while u >= POWERS[width]
      invariant numeral * Pow10(width) + u == u0 && numeral < 10
    {
      OneMore(numeral, Pow10(width), u);
      numeral := numeral + 1;
      u := u - POWERS[width];
    }
  }

  /** The digits of `u` from the highest power of ten down, each found by subtracting it until it no longer fits. */
  method PutDigits(str: array<char>, size: nat, n0: nat, u0: nat, req: nat) returns (n: nat)
    requires size <= str.Length && 1 <= req <= 10 && u0 < Pow10(req)
    requires req > 1 ==> Pow10(req - 1) <= u0
    modifies str
    ensures Shown(old(str[..]), str[..], size, n0, Numeral(u0)) && n == n0 + |Numeral(u0)|
    ensures |Numeral(u0)| == req
  {
    hide Shown, Numeral, Value;
    Units();
    n := n0;
    ShownNothing(str[..], size, n0);
    var u: nat, width: int := u0, req - 1;
    ghost var out := "";
    while width >= 0
      invariant -1 <= width < req && |out| == req - 1 - width && n == n0 + |out|
      invariant Decimal(out) && u < Pow10(width + 1) && Value(out, 10) * Pow10(width + 1) + u == u0
      invariant Shown(old(str[..]), str[..], size, n0, out)
    {
      ghost var was := str[..];
      var numeral;
      numeral, u := SubtractOut(u, width);
      n := PutChar(str, size, n, Digit(numeral));
      ShownTwice(old(str[..]), was, str[..], size, n0, out, [Digit(numeral)]);
      AppendDigit(out, numeral, width, u);
      out := out + [Digit(numeral)];
      width := width - 1;
    }
    ValueBound(out);
    CanonicalUnique(out);
  }

  lemma OneMore(numeral: nat, power: nat, u: nat)
    requires power <= u && numeral * power + u < 10 * power
    ensures numeral < 9 && (numeral + 1) * power + (u - power) == numeral * power + u
  {
    assert (numeral + 1) * power == numeral * power + power;
    assert (9 - numeral) * power > 0;
  }

  lemma AppendDigit(out: string, d: nat, width: nat, u: nat)
    requires d < 10 && Decimal(out)
    ensures var longer := out + [Digit(d)];
            && Decimal(longer)
            && Value(longer, 10) * Pow10(width) + u == Value(out, 10) * Pow10(width + 1) + (d * Pow10(width) + u)
  {
    var longer := out + [Digit(d)];
    assert longer[..|longer| - 1] == out;
    Spread(Value(out, 10), d, Pow10(width));
  }

  lemma Spread(v: nat, d: nat, power: nat)
    ensures (v * 10 + d) * power == v * (10 * power) + d * power
  {
  }

  /** The padding in front of the digits. */
  method PutPadding(str: array<char>, size: nat, n0: nat, c: char, padding: nat) returns (n: nat)
    requires size <= str.Length
    modifies str
    ensures n == n0 + padding && Shown(old(str[..]), str[..], size, n0, Repeat(c, padding))
  {
    hide Shown, Repeat;
    n := n0;
    var left: nat := padding;
    RepeatMore(c, 0);
    ShownNothing(str[..], size, n0);
    while left > 0
      invariant left <= padding && n == n0 + (padding - left)
      invariant Shown(old(str[..]), str[..], size, n0, Repeat(c, padding - left))
    {
      ghost var was := str[..];
      n := PutChar(str, size, n, c);
      ShownTwice(old(str[..]), was, str[..], size, n0, Repeat(c, padding - left), [c]);
      RepeatMore(c, padding - left);
      left := left - 1;
    }
  }

  /** The 32-bit decimal conversion of vsnprintf. */
  method PutDecimal(str: array<char>, size: nat, n0: nat, u0: nat, signed: bool, haveWidth: bool, width: nat,
                    zeroPad: bool) returns (n: nat)
    requires size <= str.Length && u0 < TWO32
    modifies str
    ensures var text := Printed(u0, signed, haveWidth, width, zeroPad);
            n == n0 + |text| && Shown(old(str[..]), str[..], size, n0, text)
  {
    hide Shown, Numeral, Pow10, Repeat;
    n := n0;
    ShownNothing(str[..], size, n0);
    if haveWidth && width == 0 && u0 == 0 {
      return;
    }
    var u := u0;
    ghost var sign := "";
    if signed && u >= 0x8000_0000 {
      u := TWO32 - u;
      n := PutChar(str, size, n, '-');
      sign := "-";
    }
    var req := RequiredDigits(u);
    var padding := if width > req then width - req else 0;
    var ch := if zeroPad then '0' else ' ';
    ghost var signed1 := str[..];
    n := PutPadding(str, size, n, ch, padding);
    ShownTwice(old(str[..]), signed1, str[..], size, n0, sign, Repeat(ch, padding));
    ghost var padded := str[..];
    n := PutDigits(str, size, n, u, req);
    ShownTwice(old(str[..]), padded, str[..], size, n0, sign + Repeat(ch, padding), Numeral(u));
  }
}
