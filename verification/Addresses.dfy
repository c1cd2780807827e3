/**
 IPv4 addresses as dotted quads: ipv4_print_addr and strtoipv4.
 */
module Addresses {
  import opened Bytes
  import opened Numerals
  import opened Options
  import opened Parsing

  /** What strtoipv4 takes as one part: one to three decimal digits worth at most 255. */
  predicate Octet(o: string) {
    1 <= |o| <= 3 && Decimal(o) && Value(o, 10) < 256
  }

  function Dotted(os: seq<string>): (s: string)
    requires |os| >= 1
  {
    if |os| == 1 then os[0] else os[0] + "." + Dotted(os[1..])
  }

  /** The parts as one big-endian number. */
  function Address(os: seq<string>): nat {
    if os == [] then 0 else Address(os[..|os| - 1]) * 256 + Value(os[|os| - 1], 10)
  }

  predicate DigitAt(s: string, i: nat) {
    '0' <= At(s, i) <= '9'
  }

  /** The last part must end at its third digit or before a character that is no digit, and not before a dot. */
  predicate Ends(s: string, i: nat, last: string) {
    At(s, i) != '.' && (|last| < 3 ==> !DigitAt(s, i))
  }

  // ---------------------------------------------------------------- parsing

  /** Where the part that starts at `p` stops: at most three digits on. */
  function OctetEnd(s: string, p: nat): (k: nat)
    requires p <= |s|
    ensures p <= k <= |s| && k <= p + 3 && Decimal(s[p..k])
    ensures k < p + 3 ==> !DigitAt(s, k)
  {
    if !DigitAt(s, p) then p
    else if !DigitAt(s, p + 1) then p + 1
    else if !DigitAt(s, p + 2) then p + 2
    else p + 3
  }

  /** The parts read from `p` on, none if the string is refused. */
  function Octets(s: string, p: nat, left: nat): (r: seq<string>)
    requires p <= |s| && left >= 1
    ensures r != [] ==> |r| == left
    decreases left
  {
    var k := OctetEnd(s, p);
    var o := s[p..k];
    if o == "" || Value(o, 10) > 255 then []
    else if left == 1 then if At(s, k) == '.' then [] else [o]
    else if At(s, k) != '.' then []
    else
      var rest := Octets(s, k + 1, left - 1);
      if rest == [] then [] else [o] + rest
  }

  ghost predicate Reads(s: string, p: nat, os: seq<string>) {
    && |os| >= 1 && p <= |s| && (forall o :: o in os ==> Octet(o))
    && Dotted(os) <= s[p..] && Ends(s, p + |Dotted(os)|, os[|os| - 1])
  }

  lemma OctetsLast(s: string, p: nat)
    requires p <= |s|
    ensures var k := OctetEnd(s, p); var o := s[p..k];
            Octets(s, p, 1) == if o == "" || Value(o, 10) > 255 || At(s, k) == '.' then [] else [o]
  {
    hide OctetEnd, Value, DigitAt, Decimal;
  }

  lemma OctetsStep(s: string, p: nat, left: nat)
    requires p <= |s| && left > 1
    ensures var k := OctetEnd(s, p); var o := s[p..k];
            Octets(s, p, left) ==
            if o == "" || Value(o, 10) > 255 || At(s, k) != '.' || Octets(s, k + 1, left - 1) == [] then []
            else [o] + Octets(s, k + 1, left - 1)
  {
    hide OctetEnd, Value, DigitAt, Decimal;
  }

  lemma ReadsLast(s: string, p: nat, k: nat)
    requires p <= k <= |s| && Octet(s[p..k]) && Ends(s, k, s[p..k])
    ensures Reads(s, p, [s[p..k]])
  {
    hide Octet, Ends;
    assert s[p..] == s[p..k] + s[k..];
  }

  lemma ReadsMore(s: string, p: nat, k: nat, rest: seq<string>)
    requires p <= k < |s| && Octet(s[p..k]) && s[k] == '.' && Reads(s, k + 1, rest)
    ensures Reads(s, p, [s[p..k]] + rest)
  {
    hide Octet, Ends, Dotted;
    var os := [s[p..k]] + rest;
    DottedMore(s[p..k], rest);
    assert os[|os| - 1] == rest[|rest| - 1];
    StartsBefore(s, p, k, Dotted(rest));
  }

  lemma DottedMore(o: string, rest: seq<string>)
    requires rest != []
    ensures Dotted([o] + rest) == o + "." + Dotted(rest)
  {
    assert ([o] + rest)[1..] == rest;
  }

  lemma StartsBefore(s: string, p: nat, k: nat, t: string)
    requires p <= k < |s| && s[k] == '.' && t <= s[k + 1..]
    ensures s[p..k] + "." + t <= s[p..]
  {
    assert s[p..] == s[p..k] + "." + s[k + 1..];
  }

  /** The parts found are octets, stand in the string with dots between them, and end it properly. */
  lemma {:induction false} OctetsSound(s: string, p: nat, left: nat)
    requires p <= |s| && left >= 1 && Octets(s, p, left) != []
    ensures Reads(s, p, Octets(s, p, left))
    decreases left
  {
    hide Value, OctetEnd, DigitAt, Octets, Reads, Decimal;
    var k := OctetEnd(s, p);
    if left > 1 {
      OctetsStep(s, p, left);
      OctetsSound(s, k + 1, left - 1);
      ReadsMore(s, p, k, Octets(s, k + 1, left - 1));
    } else {
      OctetsLast(s, p);
      ReadsLast(s, p, k);
    }
  }

  /** A part of the right shape, with a dot or a proper end behind it, is what the greedy scan takes. */
  lemma ScanTakes(s: string, p: nat, o: string)
    requires p <= |s| && Octet(o) && o <= s[p..] && (At(s, p + |o|) == '.' || Ends(s, p + |o|, o))
    ensures OctetEnd(s, p) == p + |o| && s[p..p + |o|] == o && p + |o| <= |s|
    ensures o != "" && Value(o, 10) <= 255
  {
    hide Value;
    forall i | p <= i < p + |o| ensures DigitAt(s, i) {
      assert s[p..][i - p] == o[i - p];
    }
  }

  /** Taking the parts of a reading apart. */
  lemma ReadsFirst(s: string, p: nat, os: seq<string>)
    requires Reads(s, p, os)
    ensures Octet(os[0]) && os[0] <= s[p..]
    ensures |os| == 1 ==> Ends(s, p + |os[0]|, os[0])
    ensures |os| > 1 ==> p + |os[0]| < |s| && s[p + |os[0]|] == '.' && Reads(s, p + |os[0]| + 1, os[1..])
  {
    hide Octet, Ends, Dotted;
    DottedFirst(os);
    assert os[0] in os;
    if |os| > 1 {
      StartsAfter(s, p, os[0], Dotted(os[1..]));
    }
  }

  lemma DottedFirst(os: seq<string>)
    requires os != []
    ensures Dotted(os) == if |os| == 1 then os[0] else os[0] + "." + Dotted(os[1..])
    ensures os[0] <= Dotted(os)
  {
  }

  lemma StartsAfter(s: string, p: nat, o: string, t: string)
    requires p <= |s| && o + "." + t <= s[p..]
    ensures p + |o| < |s| && s[p + |o|] == '.' && t <= s[p + |o| + 1..] && o <= s[p..]
  {
    var k, u := p + |o| + 1, o + "." + t;
    assert s[p..][|o|] == u[|o|];
    forall i | 0 <= i < |t| ensures s[k..][i] == t[i] {
      assert s[p..][|o| + 1 + i] == u[|o| + 1 + i];
    }
  }

  /** No other parts could have been found. */
  lemma {:induction false} OctetsComplete(s: string, p: nat, os: seq<string>)
    requires Reads(s, p, os)
    ensures p <= |s| && |os| >= 1 && Octets(s, p, |os|) == os
    decreases |os|
  {
    hide Value, OctetEnd, DigitAt, Octets, Octet, Dotted, Ends, Decimal;
    var o := os[0];
    ReadsFirst(s, p, os);
    ScanTakes(s, p, o);
    if |os| > 1 {
      OctetsComplete(s, p + |o| + 1, os[1..]);
      OctetsStep(s, p, |os|);
      Whole(os);
    } else {
      EndsBeforeNoDot(s, p + |o|, o);
      OctetsLast(s, p);
      Whole(os);
    }
  }

  lemma EndsBeforeNoDot(s: string, i: nat, o: string)
    requires Ends(s, i, o)
    ensures At(s, i) != '.'
  {
  }

  lemma Whole<T>(os: seq<T>)
    requires os != []
    ensures os == [os[0]] + os[1..] && (|os| == 1 ==> os == [os[0]])
  {
  }

  /** strtoipv4 succeeds exactly on four octets with dots between them that end properly, and then reads those. */
  lemma AcceptedExactly(s: string, os: seq<string>)
    requires |os| == 4
    ensures Octets(s, 0, 4) == os <==> Reads(s, 0, os)
  {
    hide *;
    if Octets(s, 0, 4) == os {
      OctetsSound(s, 0, 4);
    }
    if Reads(s, 0, os) {
      OctetsComplete(s, 0, os);
    }
  }

  /** One part as it may be written. */
  predicate Part(o: string) {
    && 1 <= |o| <= 3 && (forall i :: 0 <= i < |o| ==> '0' <= o[i] <= '9') && Value(o, 10) <= 255
  }

  /**
   The same in plain characters: four parts of one to three digits worth at most 255, three dots between them, and
   behind them no dot, nor a digit unless the last part has three.
   */
  lemma AcceptedSpelled(s: string, a: string, b: string, c: string, d: string)
    ensures var n := |a| + |b| + |c| + |d| + 3;
            Octets(s, 0, 4) == [a, b, c, d] <==>
              && Part(a) && Part(b) && Part(c) && Part(d) && a + "." + b + "." + c + "." + d <= s
              && (n < |s| ==> s[n] != '.' && (|d| < 3 ==> !('0' <= s[n] <= '9')))
  {
    hide *;
    AcceptedExactly(s, [a, b, c, d]);
    DottedFour(a, b, c, d);
    ReadsFour(s, a, b, c, d);
    PartIs(a);
    PartIs(b);
    PartIs(c);
    PartIs(d);
    EndsSpelled(s, |a| + |b| + |c| + |d| + 3, d);
  }

  lemma PartIs(o: string)
    ensures Octet(o) <==> Part(o)
  {
  }

  lemma EndsSpelled(s: string, n: nat, d: string)
    ensures Ends(s, n, d) <==> (n < |s| ==> s[n] != '.' && (|d| < 3 ==> !('0' <= s[n] <= '9')))
  {
  }

  lemma ReadsFour(s: string, a: string, b: string, c: string, d: string)
    ensures var os := [a, b, c, d];
            Reads(s, 0, os) <==> Octet(a) && Octet(b) && Octet(c) && Octet(d)
                                 && Dotted(os) <= s && Ends(s, |Dotted(os)|, d)
  {
    hide Octet, Dotted, Ends;
    var os := [a, b, c, d];
    assert s[0..] == s;
    assert os[0] == a && os[1] == b && os[2] == c && os[3] == d;
    assert forall o :: o in os <==> o == a || o == b || o == c || o == d;
  }

  lemma DottedFour(a: string, b: string, c: string, d: string)
    ensures Dotted([a, b, c, d]) == a + "." + b + "." + c + "." + d
    ensures |Dotted([a, b, c, d])| == |a| + |b| + |c| + |d| + 3
  {
    assert [a, b, c, d][1..] == [b, c, d] && [b, c, d][1..] == [c, d] && [c, d][1..] == [d];
    var cd := c + "." + d;
    var bcd := b + "." + cd;
    assert Dotted([c, d]) == cd && Dotted([b, c, d]) == bcd;
    assert b + "." + cd == b + "." + c + "." + d;
    assert a + "." + bcd == a + "." + b + "." + c + "." + d;
  }

  /** The first part is the most significant byte. */
  lemma AddressOfFour(a: string, b: string, c: string, d: string)
    ensures Address([a, b, c, d]) ==
            Value(a, 10) * 0x100_0000 + Value(b, 10) * 0x1_0000 + Value(c, 10) * 0x100 + Value(d, 10)
  {
    hide Value;
    AddressStep([a, b, c], d);
    AddressStep([a, b], c);
    AddressStep([a], b);
    AddressStep([], a);
    assert Address([]) == 0;
    assert [a, b, c] + [d] == [a, b, c, d] && [a, b] + [c] == [a, b, c] && [a] + [b] == [a, b] && [] + [a] == [a];
  }

  /** Text behind the last part does not stop strtoipv4, as long as it starts with neither a digit nor a dot. */
  lemma TextBehindAccepted(ip: nat, tail: string)
    requires ip < TWO32 && (tail != "" ==> tail[0] != '.' && !('0' <= tail[0] <= '9'))
    ensures Octets(Dotted(Quad(ip)) + tail, 0, 4) == Quad(ip)
  {
    hide Dotted, Octet, Octets, Value, Numeral, OctetEnd;
    var s := Dotted(Quad(ip)) + tail;
    QuadAddress(ip);
    assert s[0..] == s;
    OctetsComplete(s, 0, Quad(ip));
  }

  /** "1.2.3.4x" is taken for the address 1.2.3.4. */
  lemma JunkAccepted()
    ensures Octets("1.2.3.4x", 0, 4) == ["1", "2", "3", "4"]
  {
    hide Octets, OctetEnd, Numeral;
    var os := ["1", "2", "3", "4"];
    assert os[1..] == ["2", "3", "4"] && ["2", "3", "4"][1..] == ["3", "4"] && ["3", "4"][1..] == ["4"];
    assert Dotted(["3", "4"]) == "3.4" && Dotted(["2", "3", "4"]) == "2.3.4" && Dotted(os) == "1.2.3.4";
    forall o | o in os ensures Octet(o) {
      SingleDigit(o, 10);
    }
    OctetsComplete("1.2.3.4x", 0, os);
  }

  lemma SliceGrows<T>(s: seq<T>, a: nat, b: nat)
    requires a <= b < |s|
    ensures s[a..b + 1] == s[a..b] + [s[b]] && s[a..b + 1][..b - a] == s[a..b]
  {
  }

  /** One part: its digits and its value, which a 16-bit counter holds. */
  method TakeOctet(s: string, p0: nat) returns (p: nat, part: nat)
    requires CString(s) && p0 <= |s|
    ensures p == OctetEnd(s, p0) && part == Value(s[p0..p], 10) < 1000
  {
    hide Value;
    p, part := p0, 0;
    var j := 0;
    Units();
    assert s[p0..p0] == "";
    while j < 3 && DigitAt(s, p)
      invariant 0 <= j <= 3 && p == p0 + j <= |s| && (forall i :: p0 <= i < p ==> DigitAt(s, i))
      invariant part == Value(s[p0..p], 10) && Decimal(s[p0..p])
      invariant part < if j == 0 then 1 else if j == 1 then 10 else if j == 2 then 100 else 1000
    {
      SliceGrows(s, p0, p);
      ValueStep(s[p0..p + 1], 10);
      part := part * 10 + (s[p] - '0') as nat;
      p := p + 1;
      j := j + 1;
    }
  }

  lemma AddressStep(os: seq<string>, o: string)
    ensures Address(os + [o]) == Address(os) * 256 + Value(o, 10)
  {
    assert (os + [o])[..|os|] == os;
  }

  /** strtoipv4: the address on success. */
  method Strtoipv4(s: string) returns (r: Option<nat>)
    requires CString(s)
    ensures r.Some? <==> Octets(s, 0, 4) != []
    ensures r.Some? ==> r.value == Address(Octets(s, 0, 4)) < TWO32
  {
    hide Value, OctetEnd, Address, Dotted, Octets, Continues;
    NoOctets(s);
    var ip: nat, i: nat, p: nat := 0, 0, 0;
    ghost var os: seq<string>, bound: nat := [], 1;
    while i < 4
      invariant 0 <= i <= 4 && |os| == i && ip == Address(os) < bound
      invariant bound == if i == 0 then 1 else if i == 1 then 0x100 else if i == 2 then 0x1_0000
                         else if i == 3 then 0x100_0000 else TWO32
      invariant i < 4 ==> p <= |s| && Continues(s, p, 4 - i, os)
      invariant i == 4 ==> Octets(s, 0, 4) == []
    {
      var end, part := TakeOctet(s, p);
      OneOctet(s, p, 4 - i, os);
      if part > 255 || end == p {
        return None;
      }
      AddressStep(os, s[p..end]);
      ip := (ip * 256 % TWO32 + part) % TWO32;
      bound := bound * 256;
      os := os + [s[p..end]];
      p := end;
      if At(s, p) != '.' {
        break;
      }
      i := i + 1;
      p := p + 1;
    }
    if i == 3 {
      return Some(ip);
    }
    r := None;
  }

  lemma NoOctets(s: string)
    ensures Address([]) == 0 && Continues(s, 0, 4, [])
  {
    var rest := Octets(s, 0, 4);
    assert [] + rest == rest;
  }

  /** Reading from `p` with `os` behind it decides the whole. */
  ghost predicate Continues(s: string, p: nat, left: nat, os: seq<string>)
    requires p <= |s| && left >= 1
  {
    var rest := Octets(s, p, left);
    Octets(s, 0, 4) == if rest == [] then [] else os + rest
  }

  lemma Regroup<T>(a: seq<T>, b: seq<T>, c: seq<T>)
    ensures a + (b + c) == (a + b) + c
  {
  }

  /** What one round of the loop decides. */
  lemma OneOctet(s: string, p: nat, left: nat, os: seq<string>)
    requires p <= |s| && left >= 1 && Continues(s, p, left, os)
    ensures var k := OctetEnd(s, p); var o := s[p..k];
            if o == "" || Value(o, 10) > 255 || (left > 1) != (At(s, k) == '.') then Octets(s, 0, 4) == []
            else if left == 1 then Octets(s, 0, 4) == os + [o]
            else k < |s| && Continues(s, k + 1, left - 1, os + [o])
  {
    hide OctetEnd, Value, DigitAt, Octets, Decimal, At;
    if left == 1 {
      OctetsLast(s, p);
    } else {
      OctetsStep(s, p, left);
      DotInside(s, OctetEnd(s, p));
      if At(s, OctetEnd(s, p)) == '.' {
        Regroup(os, [s[p..OctetEnd(s, p)]], Octets(s, OctetEnd(s, p) + 1, left - 1));
      }
    }
  }

  lemma DotInside(s: string, k: nat)
    ensures At(s, k) == '.' ==> k < |s|
  {
  }

  // ---------------------------------------------------------------- printing

  function Quad(ip: nat): seq<string> {
    [Numeral(ip / 0x100_0000), Numeral(ip / 0x1_0000 % 256), Numeral(ip / 256 % 256), Numeral(ip % 256)]
  }

  /** ipv4_print_addr through snprintf: what fits, the terminator, and the length it would have taken. */
  method PrintAddr(buf: array<char>, len: nat, ip: nat) returns (n: nat)
    requires 1 <= len <= buf.Length && ip < TWO32
    modifies buf
    ensures var text := Dotted(Quad(ip)); var fit := if |text| <= len - 1 then |text| else len - 1;
            && n == |text| && buf[..fit] == text[..fit] && buf[fit] == '\0'
            && forall i :: fit < i < buf.Length ==> buf[i] == old(buf[i])
  {
    hide Shown, Printed, Numeral;
    ghost var a := buf[..];
    n := PutDecimal(buf, len - 1, 0, ip / 0x100_0000, false, false, 0, false);
    ghost var t := Numeral(ip / 0x100_0000);
    PlainPrinted(ip / 0x100_0000);
    n := PutDotted(buf, len - 1, n, ip / 0x1_0000 % 256, a, t);
    t := t + "." + Numeral(ip / 0x1_0000 % 256);
    n := PutDotted(buf, len - 1, n, ip / 256 % 256, a, t);
    t := t + "." + Numeral(ip / 256 % 256);
    n := PutDotted(buf, len - 1, n, ip % 256, a, t);
    t := t + "." + Numeral(ip % 256);
    QuadText(ip);
    ShownMeans(a, buf[..], len - 1, t);
    ghost var shown := buf[..];
    buf[if n <= len - 1 then n else len - 1] := '\0';
    ghost var fit := if |t| <= len - 1 then |t| else len - 1;
    assert buf[..fit] == shown[..fit];
  }

  /** The "%u" conversion. */
  lemma PlainPrinted(u: nat)
    requires u < TWO32
    ensures Printed(u, false, false, 0, false) == Numeral(u)
  {
    assert Repeat(' ', 0) == "";
  }

  /** One ".%u" of the format, after `t` has been printed. */
  method PutDotted(buf: array<char>, size: nat, n0: nat, u: nat, ghost a: seq<char>, ghost t: string) returns (n: nat)
    requires size <= buf.Length && u < TWO32 && n0 == |t| && Shown(a, buf[..], size, 0, t)
    modifies buf
    ensures n == |t + "." + Numeral(u)| && Shown(a, buf[..], size, 0, t + "." + Numeral(u))
  {
    hide Shown, Printed, Numeral;
    ghost var b := buf[..];
    n := PutChar(buf, size, n0, '.');
    ShownTwice(a, b, buf[..], size, 0, t, ".");
    ghost var c := buf[..];
    n := PutDecimal(buf, size, n, u, false, false, 0, false);
    PlainPrinted(u);
    ShownTwice(a, c, buf[..], size, 0, t + ".", Numeral(u));
  }

  lemma ShownMeans(a: seq<char>, b: seq<char>, size: nat, t: string)
    requires Shown(a, b, size, 0, t) && size <= |b|
    ensures var fit := if |t| <= size then |t| else size;
            b[..fit] == t[..fit] && forall i :: fit <= i < |b| ==> b[i] == a[i]
  {
  }

  lemma QuadText(ip: nat)
    ensures Dotted(Quad(ip)) == Numeral(ip / 0x100_0000) + "." + Numeral(ip / 0x1_0000 % 256)
                                + "." + Numeral(ip / 256 % 256) + "." + Numeral(ip % 256)
  {
    hide Numeral;
    var q := Quad(ip);
    assert q[1..][1..][1..] == [q[3]] && q[1..][1..] == [q[2], q[3]] && q[1..] == [q[1], q[2], q[3]];
    var c := Dotted([q[2], q[3]]);
    assert [q[2], q[3]][1..] == [q[3]] && Dotted([q[3]]) == q[3];
    assert c == q[2] + "." + q[3];
    assert Dotted(q[1..]) == q[1] + "." + c;
  }

  lemma NumeralOctet(m: nat)
    requires m < 256
    ensures Octet(Numeral(m)) && Value(Numeral(m), 10) == m
  {
    hide Value;
    NumeralMeans(m);
    if m >= 100 {
      assert Numeral(m / 10 / 10) == [Digit(m / 10 / 10)];
    }
  }

  lemma QuadAddress(ip: nat)
    requires ip < TWO32
    ensures (forall o :: o in Quad(ip) ==> Octet(o)) && Address(Quad(ip)) == ip
  {
    hide Numeral, Value;
    var q := Quad(ip);
    NumeralOctet(ip / 0x100_0000);
    NumeralOctet(ip / 0x1_0000 % 256);
    NumeralOctet(ip / 256 % 256);
    NumeralOctet(ip % 256);
    AddressStep([], q[0]);
    AddressStep([q[0]], q[1]);
    AddressStep([q[0], q[1]], q[2]);
    AddressStep([q[0], q[1], q[2]], q[3]);
    assert [] + [q[0]] == [q[0]] && [q[0]] + [q[1]] == [q[0], q[1]] && [q[0], q[1]] + [q[2]] == [q[0], q[1], q[2]];
    assert [q[0], q[1], q[2]] + [q[3]] == q;
    Bytes4(ip);
  }

  lemma Bytes4(ip: nat)
    requires ip < TWO32
    ensures ((ip / 0x100_0000 * 256 + ip / 0x1_0000 % 256) * 256 + ip / 256 % 256) * 256 + ip % 256 == ip
    ensures ip / 0x100_0000 < 256
  {
    assert ip / 256 / 256 == ip / 0x1_0000 && ip / 0x1_0000 / 256 == ip / 0x100_0000;
  }

  /** Parsing a printed address gives it back. */
  lemma ParsePrintedAddress(ip: nat)
    requires ip < TWO32
    ensures var os := Octets(Dotted(Quad(ip)), 0, 4); os != [] && Address(os) == ip
  {
    hide Numeral, Value, Dotted, Address;
    var s := Dotted(Quad(ip));
    QuadAddress(ip);
    assert s[0..] == s;
    OctetsComplete(s, 0, Quad(ip));
  }
}
