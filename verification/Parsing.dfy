/**
 strtoul: which strings give which value, and when it notices an overflow.
 */
module Parsing {
  import opened Bytes
  import opened Numerals

  /** A C string: no terminator inside; reading just past the end gives the terminator. */
  predicate CString(s: string) {
    '\0' !in s
  }

  function At(s: string, i: nat): char {
    if i < |s| then s[i] else '\0'
  }

  predicate Blank(c: char) {
    c == ' ' || c == '\t' || c == '\r' || c == '\n'
  }

  function SkipBlanks(s: string, i: nat): (k: nat)
    requires i <= |s|
    ensures i <= k <= |s| && !Blank(At(s, k))
    ensures forall j :: i <= j < k ==> Blank(s[j])
    decreases |s| - i
  {
    if i < |s| && Blank(s[i]) then SkipBlanks(s, i + 1) else i
  }

  predicate AllDigits(ds: string, base: nat) {
    forall i :: 0 <= i < |ds| ==> DigitOf(ds[i]) < base
  }

  /** Where the digits of the given base that start at `i` stop. */
  function DigitsEnd(s: string, i: nat, base: nat): (k: nat)
    requires i <= |s|
    ensures i <= k <= |s| && AllDigits(s[i..k], base)
    ensures k < |s| ==> DigitOf(s[k]) >= base
    decreases |s| - i
  {
    if i < |s| && DigitOf(s[i]) < base then
      var k := DigitsEnd(s, i + 1, base);
      assert s[i..k] == [s[i]] + s[i + 1..k];
      k
    else i
  }

  /** The 32-bit accumulator after the digits. */
  function Accumulated(ds: string, base: nat): (n: nat)
    ensures n < TWO32
  {
    if ds == "" then 0
    else (Accumulated(ds[..|ds| - 1], base) * base % TWO32 + DigitOf(ds[|ds| - 1])) % TWO32
  }

  /** The overflow flag after the digits: some multiplication by the base left 32 bits. */
  predicate Overflowed(ds: string, base: nat) {
    ds != "" && (Overflowed(ds[..|ds| - 1], base) || Accumulated(ds[..|ds| - 1], base) * base > TWO32 - 1)
  }

  datatype Parsed = BadBase | Parsed(value: nat, end: nat, rangeError: bool)

  predicate HexPrefix(s: string, i: nat) {
    At(s, i) == '0' && (At(s, i + 1) == 'x' || At(s, i + 1) == 'X')
  }

  /** Where the sign stands, and where what follows it starts. */
  function AfterSign(s: string): (j: nat)
  {
    var i := SkipBlanks(s, 0);
    if At(s, i) == '-' || At(s, i) == '+' then i + 1 else i
  }

  predicate Negative(s: string) {
    At(s, SkipBlanks(s, 0)) == '-'
  }

  predicate ValidBase(base: int) {
    base == 0 || 2 <= base <= 36
  }

  /** The base in force: base 0 is settled by the prefix. */
  function BaseFor(s: string, j: nat, base: int): (b: nat)
    requires ValidBase(base)
    ensures 2 <= b <= 36
  {
    if base != 0 then base else if At(s, j) != '0' then 10 else if HexPrefix(s, j) then 16 else 8
  }

  function DigitsStart(s: string, j: nat, b: nat): nat {
    if b == 16 && HexPrefix(s, j) then j + 2 else j
  }

  /** The digit loop from `k` on and what follows it; `end` is the index stored through endptr. */
  function ParseAt(s: string, negative: bool, b: nat, k: nat): Parsed
    requires k <= |s|
  {
    var end := DigitsEnd(s, k, b);
    var n := Accumulated(s[k..end], b);
    if end < |s| then Parsed(n, if end > k then end else 0, false)
    else if Overflowed(s[k..end], b) then Parsed(TWO32 - 1, end, true)
    else Parsed(if negative then (TWO32 - n) % TWO32 else n, end, false)
  }

  /** What strtoul does with a string. */
  function Parse(s: string, base: int): Parsed
    requires CString(s)
  {
    if !ValidBase(base) then BadBase
    else
      var b := BaseFor(s, AfterSign(s), base);
      ParseAt(s, Negative(s), b, DigitsStart(s, AfterSign(s), b))
  }

  /** One digit more, in the terms of the functions above. */
  lemma DigitTaken(s: string, k: nat, p: nat, base: nat)
    requires k <= p < |s|
    ensures var n := Accumulated(s[k..p], base);
            && Accumulated(s[k..p + 1], base) == (n * base % TWO32 + DigitOf(s[p])) % TWO32
            && Overflowed(s[k..p + 1], base) == (Overflowed(s[k..p], base) || n * base > TWO32 - 1)
  {
    assert s[k..p + 1][..p - k] == s[k..p];
  }

  lemma DigitPassed(s: string, p: nat, base: nat)
    requires p < |s|
    ensures DigitsEnd(s, p, base) == if DigitOf(s[p]) < base then DigitsEnd(s, p + 1, base) else p
  {
  }

  lemma NothingTaken(base: nat)
    ensures Accumulated("", base) == 0 && !Overflowed("", base)
  {
  }

  /** The digit loop of strtoul: it stops at the first character that is no digit of the base, or at the terminator. */
  method TakeDigits(s: string, k: nat, base: nat) returns (end: nat, n: nat, overflow: bool)
    requires CString(s) && k <= |s|
    ensures end == DigitsEnd(s, k, base) && k <= end <= |s|
    ensures n == Accumulated(s[k..end], base) && overflow == Overflowed(s[k..end], base)
  {
    hide Accumulated, Overflowed, DigitOf, DigitsEnd;
    NothingTaken(base);
    assert s[k..k] == "";
    end, n, overflow := k, 0, false;
    while end < |s|
      invariant k <= end <= |s| && DigitsEnd(s, k, base) == DigitsEnd(s, end, base)
      invariant n == Accumulated(s[k..end], base) && overflow == Overflowed(s[k..end], base)
    {
      DigitPassed(s, end, base);
      DigitTaken(s, k, end, base);
      var digit := DigitOf(s[end]);
      if digit >= base {
        return;
      }
      var product := n * base;
      if product > TWO32 - 1 {
        overflow := true;
      }
      n := (product % TWO32 + digit) % TWO32;
      end := end + 1;
    }
  }

  /** strtoul up to its digit loop: blanks, sign, base and prefix. */
  method TakePrefix(s: string, base: int) returns (neg: bool, b: nat, p: nat)
    requires CString(s)
    ensures ValidBase(base) ==>
              neg == Negative(s) && b == BaseFor(s, AfterSign(s), base) && p == DigitsStart(s, AfterSign(s), b)
    ensures !ValidBase(base) ==> b == 0
    ensures ValidBase(base) ==> 2 <= b
  {
    p := 0;
    while Blank(At(s, p))
      invariant p <= |s| && SkipBlanks(s, 0) == SkipBlanks(s, p)
      decreases |s| - p
    {
      p := p + 1;
    }
    neg := false;
    if At(s, p) == '-' {
      neg := true;
      p := p + 1;
    } else if At(s, p) == '+' {
      p := p + 1;
    }
    if base != 0 && (base < 2 || base > 36) {
      return neg, 0, p;
    }
    b := base;
    if base == 0 {
      if At(s, p) == '0' {
        b := if At(s, p + 1) == 'x' || At(s, p + 1) == 'X' then 16 else 8;
      } else {
        b := 10;
      }
    }
    if b == 16 && At(s, p) == '0' && (At(s, p + 1) == 'x' || At(s, p + 1) == 'X') {
      p := p + 2;
    }
  }

  lemma StartInside(s: string, b: nat)
    requires CString(s)
    ensures DigitsStart(s, AfterSign(s), b) <= |s|
  {
  }

  /** strtoul */
  method Strtoul(s: string, base: int) returns (r: Parsed)
    requires CString(s)
    ensures r == Parse(s, base)
    ensures r.BadBase? <==> base < 0 || base == 1 || base > 36
  {
    hide Accumulated, Overflowed, DigitOf, DigitsEnd, AfterSign, BaseFor, DigitsStart, Negative;
    var neg, b, p := TakePrefix(s, base);
    if b == 0 {
      return BadBase;
    }
    StartInside(s, b);
    var end, n, overflow := TakeDigits(s, p, b);
    if end < |s| {
      return Parsed(n, if end > p then end else 0, false);
    }
    if overflow {
      return Parsed(TWO32 - 1, end, true);
    }
    r := Parsed(if neg then (TWO32 - n) % TWO32 else n, end, false);
  }

  /** Reducing between the steps does not change the remainder. */
  lemma StepMod(v: nat, base: nat, d: nat)
    ensures (v % TWO32 * base % TWO32 + d) % TWO32 == (v * base + d) % TWO32
  {
    var a, q := v % TWO32, v / TWO32;
    Distribute(q, a, base);
    Reduce(q * base, a * base, d);
  }

  lemma Distribute(q: nat, a: nat, base: nat)
    ensures (TWO32 * q + a) * base == TWO32 * (q * base) + a * base
  {
  }

  lemma Reduce(k: nat, x: nat, d: nat)
    ensures (x % TWO32 + d) % TWO32 == (TWO32 * k + (x + d)) % TWO32
  {
  }

  lemma MulGrows(v: nat, w: nat, base: nat)
    requires v <= w
    ensures v * base <= w * base && (base >= 1 ==> w * base >= w)
  {
    assert (w - v) * base >= 0;
    if base >= 1 {
      assert w * (base - 1) >= 0;
    }
  }

  lemma ValueStep(ds: string, base: nat)
    requires ds != ""
    ensures Value(ds, base) == Value(ds[..|ds| - 1], base) * base + DigitOf(ds[|ds| - 1])
  {
  }

  /** The accumulator is the value modulo 2^32. */
  lemma {:induction false} AccumulatedIsValue(ds: string, base: nat)
    ensures Accumulated(ds, base) == Value(ds, base) % TWO32
  {
    hide DigitOf;
    if ds != "" {
      AccumulatedIsValue(ds[..|ds| - 1], base);
      StepMod(Value(ds[..|ds| - 1], base), base, DigitOf(ds[|ds| - 1]));
    }
  }

  /** Whether some multiplication, on the value so far modulo 2^32, leaves 32 bits. */
  predicate MultiplicationOverflows(ds: string, base: nat) {
    exists k :: 0 <= k < |ds| && Value(ds[..k], base) % TWO32 * base >= TWO32
  }

  lemma OverflowedStep(ds: string, base: nat)
    requires ds != ""
    ensures var v := Value(ds[..|ds| - 1], base);
            Overflowed(ds, base) == (Overflowed(ds[..|ds| - 1], base) || v % TWO32 * base >= TWO32)
  {
    hide DigitOf, Value;
    AccumulatedIsValue(ds[..|ds| - 1], base);
  }

  lemma {:induction false} OverflowedMeans(ds: string, base: nat)
    requires base >= 1
    ensures Overflowed(ds, base) <==> MultiplicationOverflows(ds, base)
    ensures Overflowed(ds, base) ==> Value(ds, base) >= TWO32
  {
    hide DigitOf, Value, Accumulated;
    if ds != "" {
      var last := |ds| - 1;
      var rest := ds[..last];
      OverflowedMeans(rest, base);
      OverflowedStep(ds, base);
      ValueStep(ds, base);
      MulGrows(0, Value(rest, base), base);
      MulGrows(Value(rest, base) % TWO32, Value(rest, base), base);
      assert forall k :: 0 <= k < last ==> rest[..k] == ds[..k];
    }
  }

  // ---------------------------------------------------------------- what a text means

  /** A text cut into blanks, sign, hexadecimal prefix, digits and whatever follows them. */
  datatype Text = Text(blanks: string, sign: string, prefix: string, digits: string, tail: string)
  {
    function Whole(): string {
      blanks + sign + prefix + digits + tail
    }

    function Start(): nat {
      |blanks| + |sign| + |prefix|
    }

    /** The digits are a longest run of digits of the base, and a hexadecimal prefix is not taken for digits. */
    predicate Shaped(base: nat) {
      && 2 <= base <= 36 && CString(Whole())
      && (forall i :: 0 <= i < |blanks| ==> Blank(blanks[i]))
      && (sign == "" || sign == "+" || sign == "-")
      && (prefix == "" || (base == 16 && (prefix == "0x" || prefix == "0X")))
      && (prefix == "" && base == 16 ==> !HexPrefix(digits + tail, 0))
      && digits != "" && AllDigits(digits, base)
      && (tail != "" ==> DigitOf(tail[0]) >= base)
    }

    /** There is no digit of the base behind what could be blanks, sign and prefix. */
    predicate Bare(base: nat) {
      && 2 <= base <= 36 && CString(Whole())
      && (forall i :: 0 <= i < |blanks| ==> Blank(blanks[i]))
      && (sign == "" || sign == "+" || sign == "-")
      && (prefix == "" || (base == 16 && (prefix == "0x" || prefix == "0X")))
      && digits == ""
      && (tail != "" ==> DigitOf(tail[0]) >= base)
      && (tail != "" && prefix == "" && sign == "" ==> !Blank(tail[0]) && tail[0] != '+' && tail[0] != '-')
    }

    /** Where parsing should end: behind the digits, behind the 0 of a prefix without digits, or where it began. */
    function RightEnd(): nat {
      if digits != "" then Start() + |digits| else if prefix != "" then |blanks| + |sign| + 1 else 0
    }
  }

  /** The character at a place of the text. */
  lemma WholeAt(t: Text, i: nat)
    ensures At(t.Whole(), |t.blanks| + i) == At(t.sign + t.prefix + t.digits + t.tail, i)
    ensures At(t.Whole(), |t.blanks| + |t.sign| + i) == At(t.prefix + t.digits + t.tail, i)
    ensures At(t.Whole(), t.Start() + i) == At(t.digits + t.tail, i)
    ensures At(t.Whole(), t.Start() + |t.digits| + i) == At(t.tail, i)
    ensures i < |t.blanks| ==> At(t.Whole(), i) == t.blanks[i]
    ensures i < |t.digits| ==> At(t.Whole(), t.Start() + i) == t.digits[i]
  {
  }

  lemma SkipAll(s: string, k: nat, end: nat)
    requires k <= end <= |s| && !Blank(At(s, end)) && forall i :: k <= i < end ==> Blank(s[i])
    ensures SkipBlanks(s, k) == end
    decreases end - k
  {
    if k < end {
      SkipAll(s, k + 1, end);
    }
  }

  lemma TakeUntil(s: string, k: nat, end: nat, base: nat)
    requires k <= end <= |s| && (end < |s| ==> DigitOf(s[end]) >= base)
    requires forall i :: k <= i < end ==> DigitOf(s[i]) < base
    ensures DigitsEnd(s, k, base) == end
    decreases end - k
  {
    if k < end {
      TakeUntil(s, k + 1, end, base);
    }
  }

  /** A digit is neither blank nor sign. */
  lemma DigitFacts(c: char, base: nat)
    requires DigitOf(c) < base <= 36
    ensures !Blank(c) && c != '-' && c != '+' && (base <= 16 ==> c != 'x' && c != 'X')
  {
  }

  lemma ShapedFacts(t: Text, base: nat)
    requires t.Shaped(base)
    ensures t.digits != "" && 2 <= base <= 36 && DigitOf(t.digits[0]) < base
    ensures t.sign == "" || t.sign == "+" || t.sign == "-"
    ensures t.prefix == "" || (base == 16 && (t.prefix == "0x" || t.prefix == "0X"))
    ensures t.prefix == "" && base == 16 ==> !HexPrefix(t.digits + t.tail, 0)
    ensures forall i :: 0 <= i < |t.blanks| ==> Blank(t.blanks[i])
    ensures AllDigits(t.digits, base) && (t.tail != "" ==> DigitOf(t.tail[0]) >= base)
  {
  }

  lemma FirstOf(a: string, b: string, c: string, d: string)
    requires c != ""
    ensures At(a + b + c + d, 0) == if a != "" then a[0] else if b != "" then b[0] else c[0]
    ensures At(b + c + d, 0) == if b != "" then b[0] else c[0]
  {
  }

  /** What follows the blanks is no blank, and a sign only if the text has one. */
  lemma FirstFound(t: Text, base: nat)
    requires t.Shaped(base)
    ensures var c := At(t.Whole(), |t.blanks|);
            !Blank(c) && (c == '-' <==> t.sign == "-") && (c == '+' <==> t.sign == "+")
  {
    hide DigitOf, Text.Whole, Text.Shaped, At, HexPrefix, AllDigits;
    WholeAt(t, 0);
    ShapedFacts(t, base);
    DigitFacts(t.digits[0], base);
    FirstOf(t.sign, t.prefix, t.digits, t.tail);
  }

  lemma BlanksSkipped(t: Text)
    requires (forall i :: 0 <= i < |t.blanks| ==> Blank(t.blanks[i])) && !Blank(At(t.Whole(), |t.blanks|))
    ensures SkipBlanks(t.Whole(), 0) == |t.blanks|
  {
    var s := t.Whole();
    forall i | 0 <= i < |t.blanks| ensures Blank(s[i]) {
      WholeAt(t, i);
    }
    SkipAll(s, 0, |t.blanks|);
  }

  /** The parts are found where they stand: first the sign, ... */
  lemma SignFound(t: Text, base: nat)
    requires t.Shaped(base)
    ensures SkipBlanks(t.Whole(), 0) == |t.blanks| && AfterSign(t.Whole()) == |t.blanks| + |t.sign|
    ensures Negative(t.Whole()) <==> t.sign == "-"
  {
    hide At, Text.Whole, Text.Shaped, SkipBlanks, Blank, DigitOf, HexPrefix, AllDigits;
    ShapedFacts(t, base);
    FirstFound(t, base);
    BlanksSkipped(t);
  }

  /** ... then the prefix, ... */
  lemma PrefixFound(t: Text, base: nat)
    requires t.Shaped(base)
    ensures DigitsStart(t.Whole(), |t.blanks| + |t.sign|, base) == t.Start()
    ensures HexPrefix(t.Whole(), |t.blanks| + |t.sign|) <==> t.prefix != "" || HexPrefix(t.digits + t.tail, 0)
  {
    hide At, Text.Whole, Text.Shaped, SkipBlanks, Blank, DigitOf, HexPrefix, AllDigits;
    ShapedFacts(t, base);
    PrefixAt(t);
  }

  lemma PrefixAt(t: Text)
    requires t.prefix == "" || t.prefix == "0x" || t.prefix == "0X"
    ensures HexPrefix(t.Whole(), |t.blanks| + |t.sign|) <==> t.prefix != "" || HexPrefix(t.digits + t.tail, 0)
  {
    hide At, Text.Whole;
    WholeAt(t, 0);
    WholeAt(t, 1);
    if t.prefix != "" {
      FirstTwo(t.prefix, t.digits, t.tail);
    } else {
      assert t.prefix + t.digits + t.tail == t.digits + t.tail;
    }
  }

  lemma FirstTwo(a: string, b: string, c: string)
    requires |a| == 2
    ensures At(a + b + c, 0) == a[0] && At(a + b + c, 1) == a[1]
  {
  }

  /** ... and then the digits. */
  lemma DigitsFound(t: Text, base: nat)
    requires t.Shaped(base)
    ensures t.Start() + |t.digits| <= |t.Whole()| && (t.tail == "" <==> t.Start() + |t.digits| == |t.Whole()|)
    ensures DigitsEnd(t.Whole(), t.Start(), base) == t.Start() + |t.digits|
    ensures t.Whole()[t.Start()..t.Start() + |t.digits|] == t.digits
  {
    hide DigitOf, Text.Shaped, HexPrefix, Blank, DigitsEnd;
    ShapedFacts(t, base);
    var s, k := t.Whole(), t.Start();
    DigitsAt(t);
    TakeUntil(s, k, k + |t.digits|, base);
  }

  lemma DigitsAt(t: Text)
    ensures var s, k, e := t.Whole(), t.Start(), t.Start() + |t.digits|;
            e <= |s| && s[k..e] == t.digits && (forall i :: k <= i < e ==> s[i] == t.digits[i - k])
            && (t.tail == "" <==> e == |s|) && (t.tail != "" ==> s[e] == t.tail[0])
  {
  }

  /**
   The result of strtoul on any such text: in front of another character the value modulo 2^32, neither sign nor
   overflow counting; at the end of the string a range error if and only if some multiplication overflows, and else
   the value modulo 2^32, negated under a minus sign.
   */
  lemma ParseMeans(t: Text, base: nat)
    requires t.Shaped(base)
    ensures var v, end := Value(t.digits, base) % TWO32, t.Start() + |t.digits|;
            Parse(t.Whole(), base) ==
            if t.tail != "" then Parsed(v, end, false)
            else if MultiplicationOverflows(t.digits, base) then Parsed(TWO32 - 1, end, true)
            else Parsed(if t.sign == "-" then (TWO32 - v) % TWO32 else v, end, false)
  {
    hide Parse, Text.Whole, Text.Start, Text.Shaped, DigitsEnd, Accumulated, Overflowed, MultiplicationOverflows, Value,
         DigitOf, HexPrefix, Blank, AllDigits;
    ShapedFacts(t, base);
    ParseSplit(t, base, base);
    DigitsFound(t, base);
    AccumulatedIsValue(t.digits, base);
    OverflowedMeans(t.digits, base);
  }

  /** Parsing a text is its digit loop, once the base is settled. */
  lemma ParseSplit(t: Text, base: nat, given: int)
    requires t.Shaped(base)
    requires given == base || (given == 0 && (t.prefix == "" ==> !HexPrefix(t.digits + t.tail, 0))
                               && base == if t.prefix != "" then 16 else if t.digits[0] == '0' then 8 else 10)
    ensures t.Start() <= |t.Whole()| && Parse(t.Whole(), given) == ParseAt(t.Whole(), t.sign == "-", base, t.Start())
  {
    hide DigitOf, ParseAt, DigitsEnd, SkipBlanks, Text.Whole, Text.Start, Text.Shaped, AfterSign, Negative, DigitsStart,
         HexPrefix, At, AllDigits, Blank;
    ShapedFacts(t, base);
    SignFound(t, base);
    PrefixFound(t, base);
    DigitsFound(t, base);
    FirstAfterSign(t, base);
  }

  lemma FirstAfterSign(t: Text, base: nat)
    requires t.Shaped(base)
    ensures At(t.Whole(), |t.blanks| + |t.sign|) == if t.prefix != "" then '0' else t.digits[0]
  {
    hide DigitOf, Text.Whole, Text.Shaped, At, HexPrefix, AllDigits, Blank;
    ShapedFacts(t, base);
    WholeAt(t, 0);
    FirstOf("", t.prefix, t.digits, t.tail);
  }

  /** What strtoul is for: a range error exactly for values beyond 32 bits, else the value, negated under a minus. */
  predicate Right(r: Parsed, value: nat, negative: bool) {
    && r.Parsed?
    && (r.rangeError <==> value >= TWO32)
    && r.value == if value >= TWO32 then TWO32 - 1 else if negative then (TWO32 - value) % TWO32 else value
  }

  /**
   strtoul is right, at the end of the string, if and only if the value fits in 32 bits or a multiplication overflows;
   and in front of another character if and only if the value fits and a minus sign would not change it.
   */
  lemma StrtoulRight(t: Text, base: nat)
    requires t.Shaped(base) || t.Bare(base)
    ensures Right(Parse(t.Whole(), base), Value(t.digits, base), t.sign == "-") <==>
            if t.tail == "" then Value(t.digits, base) < TWO32 || MultiplicationOverflows(t.digits, base)
            else Value(t.digits, base) < TWO32
                 && (t.sign != "-" || Value(t.digits, base) == 0 || Value(t.digits, base) == 0x8000_0000)
  {
    hide Value, MultiplicationOverflows, Parse, Overflowed, Text.Shaped, Text.Bare, Text.Whole, Text.Start, DigitOf,
         HexPrefix, Blank, AllDigits;
    if t.Shaped(base) {
      ShapedFacts(t, base);
      ParseMeans(t, base);
      OverflowedMeans(t.digits, base);
    } else {
      BareFacts(t, base);
      BareMeans(t, base);
      NoValue(base);
    }
    Remainders(Value(t.digits, base));
  }

  lemma NoValue(base: nat)
    ensures Value("", base) == 0
  {
  }

  /** A text without digits gives 0; the end pointer goes to the start, or to the end when nothing else follows. */
  lemma BareMeans(t: Text, base: nat)
    requires t.Bare(base)
    ensures Parse(t.Whole(), base) == Parsed(0, if t.tail == "" then |t.Whole()| else 0, false)
  {
    hide DigitOf, SkipBlanks, Text.Whole, HexPrefix, At, AllDigits, Blank, Text.Bare;
    BareFacts(t, base);
    BareStart(t, base);
    BareEnd(t, base);
    NothingTaken(base);
    assert t.Whole()[t.Start()..t.Start()] == "";
  }

  lemma BareFacts(t: Text, base: nat)
    requires t.Bare(base)
    ensures CString(t.Whole())
    ensures t.digits == "" && 2 <= base <= 36 && (t.sign == "" || t.sign == "+" || t.sign == "-")
    ensures t.prefix == "" || (base == 16 && (t.prefix == "0x" || t.prefix == "0X"))
    ensures forall i :: 0 <= i < |t.blanks| ==> Blank(t.blanks[i])
    ensures t.tail != "" ==> DigitOf(t.tail[0]) >= base
    ensures t.tail != "" && t.prefix == "" && t.sign == "" ==>
              !Blank(t.tail[0]) && t.tail[0] != '+' && t.tail[0] != '-'
    ensures base == 16 && t.prefix == "" ==> !HexPrefix(t.tail, 0)
  {
    if base == 16 && t.tail != "" {
      assert t.tail[0] == '0' ==> DigitOf(t.tail[0]) == 0;
    }
  }

  lemma FirstOfBare(a: string, b: string, d: string)
    ensures At(a + b + "" + d, 0) == if a != "" then a[0] else if b != "" then b[0] else At(d, 0)
    ensures d != "" ==> At(d, 0) == d[0]
    ensures d == "" ==> At(d, 0) == '\0'
  {
  }

  /** Blanks, sign and prefix are found where they stand. */
  lemma BareStart(t: Text, base: nat)
    requires t.Bare(base)
    ensures SkipBlanks(t.Whole(), 0) == |t.blanks| && AfterSign(t.Whole()) == |t.blanks| + |t.sign|
    ensures DigitsStart(t.Whole(), |t.blanks| + |t.sign|, base) == t.Start()
  {
    hide At, Text.Whole, SkipBlanks, DigitOf, HexPrefix, AllDigits, Text.Bare;
    BareFacts(t, base);
    WholeAt(t, 0);
    FirstOfBare(t.sign, t.prefix, t.tail);
    BlanksSkipped(t);
    PrefixAt(t);
    assert t.digits + t.tail == t.tail;
  }

  /** Behind them no digit is taken. */
  lemma BareEnd(t: Text, base: nat)
    requires t.Bare(base)
    ensures t.Start() <= |t.Whole()| && DigitsEnd(t.Whole(), t.Start(), base) == t.Start()
    ensures t.tail == "" <==> t.Start() == |t.Whole()|
  {
    hide DigitOf, HexPrefix, Blank, DigitsEnd;
    DigitsAt(t);
    TakeUntil(t.Whole(), t.Start(), t.Start(), base);
  }

  /** The end pointer is right if and only if there is a digit, or no prefix and either another character or nothing. */
  lemma EndRight(t: Text, base: nat)
    requires t.Shaped(base) || t.Bare(base)
    ensures Parse(t.Whole(), base).Parsed?
    ensures Parse(t.Whole(), base).end == t.RightEnd() <==>
            t.digits != "" || (t.prefix == "" && (t.tail != "" || t.Whole() == ""))
  {
    hide Parse, Text.Shaped, Text.Bare, MultiplicationOverflows, Value;
    if t.Shaped(base) {
      ShapedFacts(t, base);
      ParseMeans(t, base);
    } else {
      BareFacts(t, base);
      BareMeans(t, base);
    }
  }

  /** A string cut up as strtoul reads it. */
  function TextOf(s: string, base: nat): Text
    requires 2 <= base <= 36
  {
    var i := SkipBlanks(s, 0);
    var j := AfterSign(s);
    var k := DigitsStart(s, j, base);
    assert j <= |s| && k <= |s|;
    var e := DigitsEnd(s, k, base);
    Text(s[..i], s[i..j], s[j..k], s[k..e], s[e..])
  }

  /** Every string is a text of one kind or the other. */
  lemma EveryText(s: string, base: nat)
    requires CString(s) && 2 <= base <= 36
    ensures var t := TextOf(s, base); t.Whole() == s && (t.Shaped(base) || t.Bare(base))
  {
    hide DigitOf, HexPrefix, Blank, SkipBlanks, DigitsEnd, AfterSign, DigitsStart, AllDigits, Text.Whole;
    var t := TextOf(s, base);
    var i, j := SkipBlanks(s, 0), AfterSign(s);
    var k := DigitsStart(s, j, base);
    StartInside(s, base);
    CutSign(s);
    CutPrefix(s, j, base);
    CutDigits(s, k, base);
    Pieces(s, i, j, k, DigitsEnd(s, k, base));
  }

  /**
   For every string and every base from 2 to 36: value, range error and end pointer are all right if and only if the
   number fits or a multiplication overflows at the end of the string, or fits and does not suffer from losing a minus
   in front of another character; and there is a digit, or neither a bare prefix nor a bare rest of blanks and sign.
   */
  lemma StrtoulExact(s: string, base: nat)
    requires CString(s) && 2 <= base <= 36
    ensures var t := TextOf(s, base); var v := Value(t.digits, base);
            && t.Whole() == s && Parse(s, base).Parsed?
            && (Right(Parse(s, base), v, t.sign == "-") && Parse(s, base).end == t.RightEnd() <==>
                  && (if t.tail == "" then v < TWO32 || MultiplicationOverflows(t.digits, base)
                      else v < TWO32 && (t.sign != "-" || v == 0 || v == 0x8000_0000))
                  && (t.digits != "" || (t.prefix == "" && (t.tail != "" || s == ""))))
  {
    hide Parse, TextOf, Text.Shaped, Text.Bare, Text.Whole, Value, MultiplicationOverflows;
    EveryText(s, base);
    StrtoulRight(TextOf(s, base), base);
    EndRight(TextOf(s, base), base);
  }

  /** A bare sign leaves the end pointer behind it, and a bare prefix gives back its 0. */
  lemma EndLost()
    ensures Parse("-", 10) == Parsed(0, 1, false) && Text("", "-", "", "", "").RightEnd() == 0
    ensures Parse("0xg", 16) == Parsed(0, 0, false) && Text("", "", "0x", "", "g").RightEnd() == 1
  {
    hide Parse;
    BareSign();
    BarePrefix();
    BareMeans(Text("", "-", "", "", ""), 10);
    BareMeans(Text("", "", "0x", "", "g"), 16);
  }

  lemma BareSign()
    ensures var t := Text("", "-", "", "", ""); t.Whole() == "-" && t.Bare(10)
  {
    assert Text("", "-", "", "", "").Whole() == "-";
  }

  lemma BarePrefix()
    ensures var t := Text("", "", "0x", "", "g"); t.Whole() == "0xg" && t.Bare(16)
  {
    assert Text("", "", "0x", "", "g").Whole() == "0xg";
  }

  lemma Pieces(s: string, i: nat, j: nat, k: nat, e: nat)
    requires i <= j <= k <= e <= |s|
    ensures Text(s[..i], s[i..j], s[j..k], s[k..e], s[e..]).Whole() == s
  {
  }

  lemma CutSign(s: string)
    requires CString(s)
    ensures var i, j := SkipBlanks(s, 0), AfterSign(s);
            && i <= j <= |s| && (s[i..j] == "" || s[i..j] == "+" || s[i..j] == "-")
            && (forall p :: 0 <= p < i ==> Blank(s[..i][p]))
            && (i == j && i < |s| ==> !Blank(s[i]) && s[i] != '+' && s[i] != '-')
  {
    hide Blank, SkipBlanks;
  }

  lemma CutPrefix(s: string, j: nat, base: nat)
    requires CString(s) && j <= |s|
    ensures var k := DigitsStart(s, j, base);
            && j <= k <= |s| && (s[j..k] == "" || (base == 16 && (s[j..k] == "0x" || s[j..k] == "0X")))
            && (s[j..k] == "" && base == 16 ==> !HexPrefix(s[k..], 0))
  {
    if base == 16 && HexPrefix(s, j) {
      assert s[j..j + 2] == [s[j], s[j + 1]];
    } else {
      assert At(s[j..], 0) == At(s, j) && At(s[j..], 1) == At(s, j + 1);
    }
  }

  lemma CutDigits(s: string, k: nat, base: nat)
    requires k <= |s|
    ensures var e := DigitsEnd(s, k, base);
            && s[k..e] + s[e..] == s[k..] && AllDigits(s[k..e], base)
            && (s[e..] != "" ==> s[e..][0] == s[e] && DigitOf(s[e]) >= base)
            && (s[k..e] == "" ==> e == k)
  {
    hide DigitOf;
  }

  lemma Remainders(v: nat)
    ensures 0 <= v % TWO32 < TWO32 && (v < TWO32 ==> v % TWO32 == v)
    ensures v < TWO32 ==> ((TWO32 - v) % TWO32 == v <==> v == 0 || v == 0x8000_0000)
  {
  }

  lemma SmallMod(x: nat)
    ensures x < TWO32 ==> x % TWO32 == x
  {
  }

  /** Minus five in front of a letter comes back as five. */
  lemma SignLost()
    ensures var t := Text("", "-", "", "5", "x");
            && t.Shaped(10) && t.Whole() == "-5x"
            && Parse("-5x", 10) == Parsed(5, 2, false) && !Right(Parse("-5x", 10), 5, true)
  {
    hide Value, Parse, MultiplicationOverflows, Text.Shaped;
    var t := Text("", "-", "", "5", "x");
    MinusFive(t);
    SingleDigit("5", 10);
    ParseMeans(t, 10);
  }

  lemma MinusFive(t: Text)
    requires t == Text("", "-", "", "5", "x")
    ensures t.Shaped(10) && t.Whole() == "-5x" && t.Start() == 1
    ensures !MultiplicationOverflows("5", 10) && DigitOf('5') == 5
  {
    hide Value;
    assert t.Whole() == "-5x" && "5" + "x" == "5x";
    SingleDigit("5", 10);
    Units();
    assert "5"[..0] == "";
  }

  // ---------------------------------------------------------------- numbers written down

  /** The number that a sequence of digits stands for in a base. */
  function Number(ds: seq<nat>, base: nat): nat {
    if ds == [] then 0 else Number(ds[..|ds| - 1], base) * base + ds[|ds| - 1]
  }

  /** `s` writes the digits `ds` of the base down, each as a small letter or a capital where it is one. */
  ghost predicate Writes(s: string, ds: seq<nat>, base: nat) {
    && |s| == |ds| && 2 <= base <= 36
    && forall i :: 0 <= i < |s| ==> Digits36(s[i], ds[i]) && ds[i] < base
  }

  ghost predicate Digits36(c: char, d: nat) {
    && d < 36
    && (c == "0123456789abcdefghijklmnopqrstuvwxyz"[d] || c == "0123456789ABCDEFGHIJKLMNOPQRSTUVWXYZ"[d])
  }

  lemma DigitWorth(c: char, d: nat)
    requires Digits36(c, d)
    ensures DigitOf(c) == d
  {
    DigitAlphabet(c);
  }

  lemma {:induction false} WritesValue(s: string, ds: seq<nat>, base: nat)
    requires Writes(s, ds, base)
    ensures Value(s, base) == Number(ds, base) && AllDigits(s, base)
  {
    hide DigitOf, Digits36;
    if s != "" {
      var n := |s| - 1;
      WritesValue(s[..n], ds[..n], base);
      DigitWorth(s[n], ds[n]);
      forall i | 0 <= i < |s| ensures DigitOf(s[i]) < base { DigitWorth(s[i], ds[i]); }
    }
  }

  /** White space is these four characters. */
  lemma BlankCharacters(c: char)
    ensures Blank(c) <==> c in " \t\r\n"
  {
  }

  /** `c` writes no digit of the base. */
  ghost predicate NoDigit(c: char, base: nat) {
    forall d :: 0 <= d < base ==> !Digits36(c, d)
  }

  lemma NoDigitWorth(c: char, base: nat)
    requires base <= 36 && NoDigit(c, base)
    ensures DigitOf(c) >= base
  {
    DigitAlphabet(c);
    if DigitOf(c) < 36 { AlphabetAt(DigitOf(c)); LetterBack(c); }
  }

  lemma LetterBack(c: char)
    requires DigitOf(c) < 36
    ensures Digits36(c, DigitOf(c))
  {
    AlphabetAt(DigitOf(c));
  }

  /**
   Any way of writing a 32-bit number down is read back: white space, a sign or none, 0x in base 16, the digits in
   either case, and then the end of the string or a character that writes no digit of the base.
   */
  lemma ReadsBack(blanks: string, sign: string, prefix: string, s: string, ds: seq<nat>, tail: string, base: nat)
    requires forall c :: c in blanks ==> c in " \t\r\n"
    requires sign in ["", "+", "-"] && (prefix == "" || (base == 16 && prefix in ["0x", "0X"]))
    requires Writes(s, ds, base) && s != "" && Number(ds, base) < 0x1_0000_0000
    requires '\0' !in tail && (tail != "" ==> NoDigit(tail[0], base))
    requires prefix == "" && base == 16 && s == "0" && tail != "" ==> tail[0] != 'x' && tail[0] != 'X'
    ensures var whole, n := blanks + sign + prefix + s + tail, Number(ds, base);
            && CString(whole)
            && Parse(whole, base) ==
               Parsed(if sign == "-" && tail == "" then (0x1_0000_0000 - n) % 0x1_0000_0000 else n,
                      |blanks| + |sign| + |prefix| + |s|, false)
  {
    hide DigitOf, Parse, Value, Digits36, MultiplicationOverflows, Text.Shaped, Writes, NoDigit, Number;
    var t := Text(blanks, sign, prefix, s, tail);
    BaseOf(s, ds, base);
    WrittenShaped(t, ds, base);
    WritesValue(s, ds, base);
    ParseMeans(t, base);
    OverflowedMeans(s, base);
    SmallMod(Number(ds, base));
  }

  lemma WrittenShaped(t: Text, ds: seq<nat>, base: nat)
    requires forall c :: c in t.blanks ==> c in " \t\r\n"
    requires t.sign in ["", "+", "-"] && (t.prefix == "" || (base == 16 && t.prefix in ["0x", "0X"]))
    requires Writes(t.digits, ds, base) && t.digits != ""
    requires '\0' !in t.tail && (t.tail != "" ==> NoDigit(t.tail[0], base))
    requires t.prefix == "" && base == 16 && t.digits == "0" && t.tail != "" ==> t.tail[0] != 'x' && t.tail[0] != 'X'
    ensures t.Shaped(base) && CString(t.Whole())
  {
    hide DigitOf, Digits36, HexPrefix, Blank, NoDigit, Writes, Text.Whole, CString;
    BaseOf(t.digits, ds, base);
    forall i | 0 <= i < |t.blanks| ensures Blank(t.blanks[i]) { BlankCharacters(t.blanks[i]); }
    WritesValue(t.digits, ds, base);
    if t.tail != "" { NoDigitWorth(t.tail[0], base); }
    WrittenCString(t, ds, base);
    if t.prefix == "" && base == 16 { NoPrefixWritten(t.digits, ds, t.tail); }
  }

  lemma BaseOf(s: string, ds: seq<nat>, base: nat)
    requires Writes(s, ds, base)
    ensures 2 <= base <= 36
  {
  }

  lemma WrittenCString(t: Text, ds: seq<nat>, base: nat)
    requires forall c :: c in t.blanks ==> c in " \t\r\n"
    requires t.sign in ["", "+", "-"] && t.prefix in ["", "0x", "0X"] && Writes(t.digits, ds, base) && '\0' !in t.tail
    ensures CString(t.Whole())
  {
    hide Digits36, DigitOf;
    assert DigitOf('\0') == 255 by { NoZeroDigit(); }
    forall i | 0 <= i < |t.digits| ensures t.digits[i] != '\0' { DigitWorth(t.digits[i], ds[i]); }
  }

  lemma NoZeroDigit()
    ensures DigitOf('\0') == 255
  {
  }

  lemma NoPrefixWritten(s: string, ds: seq<nat>, tail: string)
    requires Writes(s, ds, 16) && s != "" && (s == "0" && tail != "" ==> tail[0] != 'x' && tail[0] != 'X')
    ensures !HexPrefix(s + tail, 0)
  {
    hide Digits36;
    if |s| > 1 {
      DigitWorth(s[1], ds[1]);
    } else if tail != "" {
      assert (s + tail)[1] == tail[0];
      assert s[0] == '0' ==> s == "0";
    }
  }

  /** Every number can be written down in every base. */
  lemma {:induction false} EveryNumberWritten(m: nat, base: nat) returns (s: string, ds: seq<nat>)
    requires 2 <= base <= 36
    ensures s != "" && Writes(s, ds, base) && Number(ds, base) == m
    decreases m
  {
    hide Digits36, Writes, Number;
    if m < base {
      s, ds := WritePush("", [], 0, m, base);
    } else {
      var q, d := Divided(m, base);
      s, ds := EveryNumberWritten(q, base);
      s, ds := WritePush(s, ds, q, d, base);
    }
  }

  /** One digit more. */
  lemma WritePush(s0: string, ds0: seq<nat>, q: nat, d: nat, base: nat) returns (s: string, ds: seq<nat>)
    requires 2 <= base <= 36 && d < base
    requires (s0 == "" && ds0 == [] && q == 0) || (Writes(s0, ds0, base) && Number(ds0, base) == q)
    ensures s != "" && Writes(s, ds, base) && Number(ds, base) == q * base + d
  {
    hide Digits36;
    var c := WrittenDigit(d);
    s, ds := s0 + [c], ds0 + [d];
    assert ds[..|ds0|] == ds0;
  }

  lemma WrittenDigit(d: nat) returns (c: char)
    requires d < 36
    ensures Digits36(c, d)
  {
    c := "0123456789abcdefghijklmnopqrstuvwxyz"[d];
  }

  lemma Divided(m: nat, base: nat) returns (q: nat, d: nat)
    requires 2 <= base <= m
    ensures m == q * base + d && d < base && q < m
  {
    q, d := m / base, m % base;
    Halved(q, base, d);
  }

  lemma Halved(q: nat, base: nat, d: nat)
    requires base >= 2 && q * base + d >= 1
    ensures q < q * base + d
  {
    assert q * (base - 1) >= q * 1;
  }

  /** With base 0 a number behind 0x is hexadecimal, behind another 0 octal, and else decimal. */
  lemma ReadsBackBase0(blanks: string, sign: string, prefix: string, s: string, ds: seq<nat>, base: nat)
    requires forall c :: c in blanks ==> c in " \t\r\n"
    requires sign in ["", "+", "-"] && Writes(s, ds, base) && s != "" && Number(ds, base) < 0x1_0000_0000
    requires if prefix == "" then base == (if s[0] == '0' then 8 else 10) else base == 16 && prefix in ["0x", "0X"]
    ensures var whole, n := blanks + sign + prefix + s, Number(ds, base);
            && CString(whole)
            && Parse(whole, 0) ==
               Parsed(if sign == "-" then (0x1_0000_0000 - n) % 0x1_0000_0000 else n, |whole|, false)
  {
    hide DigitOf, Parse, Digits36, Text.Shaped, Text.Whole, Writes, Number, HexPrefix;
    var t := Text(blanks, sign, prefix, s, "");
    ReadsBack(blanks, sign, prefix, s, ds, "", base);
    WrittenShaped(t, ds, base);
    assert t.Whole() == blanks + sign + prefix + s by { WholeWithoutTail(t); }
    assert blanks + sign + prefix + s + "" == blanks + sign + prefix + s;
    assert s + "" == s;
    if prefix == "" { NoPrefixInside(s, ds, base); }
    BaseSettled(t, base);
  }

  lemma WholeWithoutTail(t: Text)
    requires t.tail == ""
    ensures t.Whole() == t.blanks + t.sign + t.prefix + t.digits
  {
  }

  lemma NoPrefixInside(s: string, ds: seq<nat>, base: nat)
    requires Writes(s, ds, base) && base <= 16
    ensures !HexPrefix(s, 0)
  {
    hide Digits36;
    if |s| > 1 { DigitWorth(s[1], ds[1]); }
  }

  /** strtoul on blanks and then nothing but digits of a valid base. */
  lemma ParseDigits(blanks: string, ds: string, base: nat)
    requires (forall c :: c in blanks ==> Blank(c)) && ds != "" && 2 <= base <= 36 && AllDigits(ds, base)
    ensures CString(blanks + ds)
    ensures var r := Parse(blanks + ds, base);
            && r.Parsed? && r.end == |blanks| + |ds|
            && (r.rangeError <==> MultiplicationOverflows(ds, base))
            && (r.rangeError ==> r.value == TWO32 - 1 && Value(ds, base) >= TWO32)
            && (!r.rangeError ==> r.value == Value(ds, base) % TWO32)
            && (Right(r, Value(ds, base), false) <==> Value(ds, base) < TWO32 || MultiplicationOverflows(ds, base))
  {
    hide Value, DigitOf, MultiplicationOverflows, Parse, Overflowed, Text.Shaped, Text.Whole, AllDigits, Blank;
    var t := Text(blanks, "", "", ds, "");
    DigitsText(blanks, ds, base);
    OverflowedMeans(ds, base);
    ParseMeans(t, base);
    StrtoulRight(t, base);
  }

  lemma DigitsText(blanks: string, ds: string, base: nat)
    requires (forall c :: c in blanks ==> Blank(c)) && ds != "" && 2 <= base <= 36 && AllDigits(ds, base)
    ensures var t := Text(blanks, "", "", ds, ""); t.Shaped(base) && t.Whole() == blanks + ds
  {
    var t := Text(blanks, "", "", ds, "");
    assert t.Whole() == blanks + ds && ds + "" == ds;
    assert DigitOf('\0') == 255 && !Blank('\0');
    if |ds| > 1 {
      assert DigitOf(ds[1]) < base;
    }
  }

  /** In front of any other character neither the sign nor an overflow counts: the value comes back modulo 2^32. */
  lemma StopsEarly(ds: string, c: char, rest: string, base: nat)
    requires ds != "" && 2 <= base <= 36 && AllDigits(ds, base) && DigitOf(c) >= base
    requires CString("-" + ds + [c] + rest) && !(base == 16 && HexPrefix("-" + ds + [c] + rest, 1))
    ensures Parse("-" + ds + [c] + rest, base) == Parsed(Value(ds, base) % TWO32, |ds| + 1, false)
  {
    hide Value, DigitOf, Parse, MultiplicationOverflows;
    var t := Text("", "-", "", ds, [c] + rest);
    assert t.Whole() == "-" + ds + [c] + rest;
    assert "" + ds + ([c] + rest) == ds + ([c] + rest);
    WholeAt(t, 0);
    WholeAt(t, 1);
    ParseMeans(t, base);
  }

  /** The four numbers from 2^32 on parse as 0 to 3 without a range error; above them ten times as far it is noticed. */
  lemma OverflowNoticed(m: nat)
    requires TWO32 <= m < 10 * TWO32
    ensures CString(Numeral(m))
    ensures Parse(Numeral(m), 10) == if m < TWO32 + 4 then Parsed(m - TWO32, |Numeral(m)|, false)
                                     else Parsed(TWO32 - 1, |Numeral(m)|, true)
  {
    hide DigitOf, Value, Accumulated, Parse, Overflowed, MultiplicationOverflows;
    var ds := Numeral(m);
    NumeralMeans(m);
    NumeralMeans(m / 10);
    DecimalDigits(ds);
    assert ds[..|ds| - 1] == Numeral(m / 10);
    OverflowedStep(ds, 10);
    OverflowedMeans(ds, 10);
    OverflowedMeans(Numeral(m / 10), 10);
    ParseDigits("", ds, 10);
    assert "" + ds == ds;
    TensOf(m);
  }

  lemma TensOf(m: nat)
    requires TWO32 <= m < 10 * TWO32
    ensures m / 10 % TWO32 * 10 >= TWO32 <==> m >= TWO32 + 4
    ensures m < TWO32 + 4 ==> m % TWO32 == m - TWO32
  {
    SmallMod(m / 10);
  }

  lemma DecimalDigits(ds: string)
    requires Decimal(ds)
    ensures AllDigits(ds, 10) && CString(ds)
  {
  }

  /** Printing a 32-bit value and parsing the text in base 10, or with the base left to strtoul, gives it back. */
  lemma PrintThenParse(u: nat, base: nat)
    requires u < TWO32 && (base == 10 || base == 0)
    ensures var text := Printed(u, false, false, 0, false);
            CString(text) && Parse(text, base) == Parsed(u, |text|, false)
  {
    hide Parse, Value, DigitOf, SkipBlanks, MultiplicationOverflows;
    var text := Numeral(u);
    SmallMod(u);
    assert Printed(u, false, false, 0, false) == text;
    NumeralMeans(u);
    DecimalDigits(text);
    ParseDigits("", text, 10);
    assert "" + text == text;
    if base == 0 {
      NumeralText(text);
      if text[0] == '0' {
        SingleDigit(text, 8);
        ParseDigits("", text, 8);
      }
    }
  }

  lemma NumeralText(ds: string)
    requires Canonical(ds)
    ensures CString(ds) && Parse(ds, 0) == Parse(ds, if ds[0] == '0' then 8 else 10)
  {
    hide Parse, Text.Shaped, HexPrefix, DigitOf, AllDigits;
    var base := if ds[0] == '0' then 8 else 10;
    DecimalDigits(ds);
    NumeralShaped(ds, base);
    NoHexPrefix(ds);
    assert ds + "" == ds;
    BaseSettled(Text("", "", "", ds, ""), base);
  }

  lemma NumeralShaped(ds: string, base: nat)
    requires Canonical(ds) && base == if ds[0] == '0' then 8 else 10
    ensures Text("", "", "", ds, "").Shaped(base) && Text("", "", "", ds, "").Whole() == ds
  {
    hide HexPrefix;
    DecimalDigits(ds);
    assert Text("", "", "", ds, "").Whole() == ds;
  }

  lemma NoHexPrefix(ds: string)
    requires Canonical(ds)
    ensures !HexPrefix(ds, 0)
  {
    if |ds| > 1 { assert Decimal([ds[1]]); }
  }

  /** With base 0 the prefix or else a leading zero settles the base. */
  lemma BaseSettled(t: Text, base: nat)
    requires t.Shaped(base) && (t.prefix == "" ==> !HexPrefix(t.digits + t.tail, 0))
    requires base == if t.prefix != "" then 16 else if t.digits[0] == '0' then 8 else 10
    ensures Parse(t.Whole(), 0) == Parse(t.Whole(), base)
  {
    ParseSplit(t, base, 0);
    ParseSplit(t, base, base);
  }

  lemma SingleDigit(ds: string, base: nat)
    requires |ds| == 1
    ensures Value(ds, base) == DigitOf(ds[0])
    ensures ds == "0" ==> AllDigits(ds, 8)
  {
    assert ds[..0] == "" && Value("", base) == 0;
  }
}
