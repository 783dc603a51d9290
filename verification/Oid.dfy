/**
 Object identifiers of src/parser.c: from a dotted string to the octets of
 section 8.19 of X.690, with `unsigned long` as wide as the platform makes it.
 */
module Oid {
  import opened Common

  /** ULONG_MAX is at least this much. */
  const MIN_ULONG_MAX := 0xffff_ffff

  /** Five octets of seven bits. */
  const LIMIT := 0x8_0000_0000

  // ---------------------------------------------------------------- base 128

  /** 1 << (7 * k) */
  function Unit(k: nat): (u: nat)
    requires k <= 5
    ensures u > 0
  {
    match k case 0 => 1 case 1 => 128 case 2 => 16384 case 3 => 2097152 case 4 => 268435456 case _ => LIMIT
  }

  /** The octets for the digits from k down: none for leading zeros, a flag on all but the last, truncated to a byte. */
  function FlaggedFrom(v: nat, k: nat, more: bool): seq<Byte>
    requires k <= 4
    decreases k
  {
    if k == 0 then [v % 256]
    else if more || v >= Unit(k) then [128 + v / Unit(k) % 128] + FlaggedFrom(v % Unit(k), k - 1, true)
    else FlaggedFrom(v, k - 1, false)
  }

  function Flagged(v: nat): seq<Byte> {
    FlaggedFrom(v, 4, false)
  }

  function FlaggedLength(v: nat): nat {
    if v < 128 then 1 else if v < 16384 then 2 else if v < 2097152 then 3 else if v < 268435456 then 4 else 5
  }

  lemma {:induction false} FlaggedLengthIs(v: nat, k: nat, more: bool)
    requires k <= 4
    ensures |FlaggedFrom(v, k, more)| == if more || v >= Unit(k) then k + 1 else FlaggedLength(v)
    decreases k
  {
    if k > 0 {
      if more || v >= Unit(k) {
        FlaggedLengthIs(v % Unit(k), k - 1, true);
      } else {
        FlaggedLengthIs(v, k - 1, false);
      }
    }
  }

  /** make_flagged_int: append the octets of a value at a cursor. */
  method MakeFlaggedInt(value: nat, buf: array<Byte>, len: nat) returns (len': nat)
    requires len + FlaggedLength(value) <= buf.Length
    modifies buf
    ensures len' == len + FlaggedLength(value)
    ensures buf[..len'] == old(buf[..len]) + Flagged(value)
  {
    FlaggedLengthIs(value, 4, false);
    var more: bool, v: nat, k: nat := false, value, 4;   // k counts the shifts 28, 21, 14 and 7
    len' := len;
    while k > 0
      invariant 0 <= k <= 4
      invariant len <= len' && len' + |FlaggedFrom(v, k, more)| == len + FlaggedLength(value)
      invariant buf[..len'] + FlaggedFrom(v, k, more) == old(buf[..len]) + Flagged(value)
    {
      if more || v >= Unit(k) {
        var flagged, low := 128 + v / Unit(k) % 128, v % Unit(k);
        ghost var before, rest := buf[..len'], FlaggedFrom(low, k - 1, true);
        assert FlaggedFrom(v, k, more) == [flagged] + rest;
        FlaggedLengthIs(low, k - 1, true);
        buf[len'] := flagged;
        v, more, len' := low, true, len' + 1;
        assert buf[..len'] == before + [flagged];
        ConcatAssoc(before, [flagged], rest);
      }
      k := k - 1;
    }
    ghost var before := buf[..len'];
    buf[len'] := v % 256;
    len' := len' + 1;
    assert buf[..len'] == before + [v % 256];
  }

  /** One subidentifier: the digits up to the first octet without a flag. */
  function DecodeOne(bs: seq<Byte>, acc: nat): Option<(nat, seq<Byte>)>
    decreases |bs|
  {
    if bs == [] then None
    else if bs[0] < 128 then Some((acc * 128 + bs[0], bs[1..]))
    else DecodeOne(bs[1..], acc * 128 + bs[0] % 128)
  }

  /** Digits as octets: a flag on all but the last. */
  function FlagAll(ds: seq<nat>): seq<Byte>
    requires ds != [] && forall k :: 0 <= k < |ds| ==> ds[k] < 128
  {
    if |ds| == 1 then [ds[0]] else [128 + ds[0]] + FlagAll(ds[1..])
  }

  function Horner(acc: nat, ds: seq<nat>): nat
    decreases |ds|
  {
    if ds == [] then acc else Horner(acc * 128 + ds[0], ds[1..])
  }

  lemma {:induction false} DecodeFlagAll(ds: seq<nat>, acc: nat, rest: seq<Byte>)
    requires ds != [] && forall k :: 0 <= k < |ds| ==> ds[k] < 128
    ensures DecodeOne(FlagAll(ds) + rest, acc) == Some((Horner(acc, ds), rest))
    decreases |ds|
  {
    var bs := FlagAll(ds) + rest;
    if |ds| == 1 {
      assert bs[1..] == rest && Horner(acc, ds) == acc * 128 + ds[0];
    } else {
      assert bs[1..] == FlagAll(ds[1..]) + rest;
      DecodeFlagAll(ds[1..], acc * 128 + ds[0], rest);
    }
  }

  /** The k + 1 digits of a value. */
  function Digits(v: nat, k: nat): (ds: seq<nat>)
    requires k <= 4
    ensures |ds| == k + 1 && forall j :: 0 <= j < |ds| ==> ds[j] < 128
    decreases k
  {
    if k == 0 then [v % 128] else [v / Unit(k) % 128] + Digits(v % Unit(k), k - 1)
  }

  lemma {:induction false} FlaggedIsDigits(v: nat, k: nat)
    requires k <= 4 && v < Unit(k + 1)
    ensures FlaggedFrom(v, k, true) == FlagAll(Digits(v, k))
    decreases k
  {
    if k > 0 {
      var ds := Digits(v, k);
      assert ds[1..] == Digits(v % Unit(k), k - 1);
      FlaggedIsDigits(v % Unit(k), k - 1);
    }
  }

  /** acc << (7 * k) */
  function Shifted(acc: nat, k: nat): nat
    requires k <= 5
  {
    match k
    case 0 => acc
    case 1 => acc * 128
    case 2 => acc * 16384
    case 3 => acc * 2097152
    case 4 => acc * 268435456
    case _ => acc * LIMIT
  }

  lemma {:induction false} HornerDigits(v: nat, k: nat, acc: nat)
    requires k <= 4 && v < Unit(k + 1)
    ensures Horner(acc, Digits(v, k)) == Shifted(acc, k + 1) + v
    decreases k
  {
    var ds := Digits(v, k);
    if k == 0 {
      assert Horner(acc, ds) == acc * 128 + ds[0];
    } else {
      assert ds[1..] == Digits(v % Unit(k), k - 1);
      HornerDigits(v % Unit(k), k - 1, acc * 128 + ds[0]);
      ShiftDigit(v, k, acc);
    }
  }

  lemma {:induction false} ShiftDigit(v: nat, k: nat, acc: nat)
    requires 1 <= k <= 4 && v < Unit(k + 1)
    ensures Shifted(acc * 128 + v / Unit(k) % 128, k) + v % Unit(k) == Shifted(acc, k + 1) + v
  {
  }

  lemma {:induction false} DecodeDigits(v: nat, k: nat, rest: seq<Byte>)
    requires k <= 4 && v < Unit(k + 1)
    ensures DecodeOne(FlaggedFrom(v, k, true) + rest, 0) == Some((v, rest))
  {
    FlaggedIsDigits(v, k);
    DecodeFlagAll(Digits(v, k), 0, rest);
    HornerDigits(v, k, 0);
  }

  /** Decoding what was appended gives the value back modulo 2^35, and leaves what follows. */
  lemma {:induction false} FlaggedDecodes(v: nat, rest: seq<Byte>)
    ensures DecodeOne(Flagged(v) + rest, 0) == Some((v % LIMIT, rest))
  {
    var w := v % LIMIT;
    if v >= LIMIT {
      Truncated(v);
      DecodeDigits(w, 4, rest);
    } else {
      SkipZeros(v, 4);
      SmallMod(v);
      DecodeDigits(v, FlaggedLength(v) - 1, rest);
    }
  }

  lemma {:induction false} SmallMod(v: nat)
    requires v < LIMIT
    ensures v % LIMIT == v && v < Unit(FlaggedLength(v))
  {
  }

  /** Five octets hold no more than 35 bits. */
  lemma {:induction false} Truncated(v: nat)
    requires v >= LIMIT
    ensures Flagged(v) == FlaggedFrom(v % LIMIT, 4, true)
  {
    TopDigit(v);
  }

  lemma {:induction false} TopDigit(v: nat)
    ensures v / Unit(4) % 128 == v % LIMIT / Unit(4) % 128
    ensures v % Unit(4) == v % LIMIT % Unit(4)
  {
    var q, w := v / LIMIT, v % LIMIT;
    var d, r := w / Unit(4), w % Unit(4);
    DivUnique(v, Unit(4), q * 128 + d, r);
    DivUnique(q * 128 + d, 128, q, d);
  }

  /** Leading zero digits are not written. */
  lemma {:induction false} SkipZeros(v: nat, k: nat)
    requires k <= 4 && v < Unit(k + 1)
    ensures FlaggedLength(v) - 1 <= k && FlaggedFrom(v, k, false) == FlaggedFrom(v, FlaggedLength(v) - 1, true)
    decreases k
  {
    if k > 0 && v < Unit(k) {
      SkipZeros(v, k - 1);
    }
  }

  /**
   A subidentifier is minimal (section 8.19.2 of X.690), that is, it does not start with a flagged zero, if and only if
   it fits 35 bits or the highest seven of the bits that are kept are not all zero.
   */
  lemma {:induction false} FlaggedMinimal(v: nat)
    ensures Flagged(v)[0] != 128 <==> v < LIMIT || v / Unit(4) % 128 != 0
  {
    if v < LIMIT {
      SmallMinimal(v);
    }
  }

  lemma {:induction false} SmallMinimal(v: nat)
    requires v < LIMIT
    ensures Flagged(v)[0] != 128
  {
    SkipZeros(v, 4);
    var k := FlaggedLength(v) - 1;
    if k > 0 {
      assert v / Unit(k) >= 1 && v / Unit(k) < 128;
    }
  }

  // ---------------------------------------------------------------- dotted strings

  predicate IsDigit(c: char) { '0' <= c <= '9' }

  /** The length of the digits a string starts with. */
  function DigitRun(s: string): (n: nat)
    ensures n <= |s|
  {
    if s == "" || !IsDigit(s[0]) then 0 else 1 + DigitRun(s[1..])
  }

  function DigitValue(c: char): nat {
    if IsDigit(c) then c as int - '0' as int else 0
  }

  /** The number that a string of digits writes. */
  function Number(s: string): nat {
    if s == "" then 0 else Number(s[..|s| - 1]) * 10 + DigitValue(s[|s| - 1])
  }

  /** The arcs of a dotted string, after the ones already read: numbers with single dots between them. */
  function ArcsAfter(s: string, done: seq<nat>): Option<seq<nat>>
    decreases |s|
  {
    var n := DigitRun(s);
    if n == 0 then None
    else if n == |s| then Some(done + [Number(s)])
    else if s[n] != '.' then None
    else ArcsAfter(s[n + 1..], done + [Number(s[..n])])
  }

  function Arcs(s: string): Option<seq<nat>> {
    ArcsAfter(s, [])
  }

  // ---------------------------------------------------------------- encoding

  /** What strtoul returns for a number. */
  function Saturate(v: nat, max: nat): nat {
    if v <= max then v else max
  }

  /** The first subidentifier, from the first two arcs; the sum wraps at the width of the type. */
  function FirstSub(a0: nat, a1: nat, max: nat): nat {
    if a0 < 2 then a0 * 40 + a1 else (Saturate(a1, max) + 80) % (max + 1)
  }

  function TailBytes(arcs: seq<nat>, max: nat): seq<Byte> {
    if arcs == [] then [] else Flagged(Saturate(arcs[0], max)) + TailBytes(arcs[1..], max)
  }

  function OidBytes(arcs: seq<nat>, max: nat): seq<Byte>
    requires |arcs| >= 2
  {
    Flagged(FirstSub(arcs[0], arcs[1], max)) + TailBytes(arcs[2..], max)
  }

  /** The arcs X.690 allows, if the encoding has between 2 and 254 octets. */
  predicate Accepted(arcs: seq<nat>, max: nat) {
    && |arcs| >= 2 && arcs[0] <= 2 && (arcs[0] < 2 ==> arcs[1] <= 39)
    && 2 <= |OidBytes(arcs, max)| <= 254
  }

  function Encoding(s: string, max: nat): Option<seq<Byte>> {
    match Arcs(s)
    case None => None
    case Some(arcs) => if Accepted(arcs, max) then Some(OidBytes(arcs, max)) else None
  }

  // ---------------------------------------------------------------- decoding

  function DecodeTail(bs: seq<Byte>): Option<seq<nat>>
    decreases |bs|
  {
    if bs == [] then Some([])
    else
      match DecodeOne(bs, 0)
      case None => None
      case Some((v, rest)) =>
        if |rest| >= |bs| then None
        else
          match DecodeTail(rest)
          case None => None
          case Some(vs) => Some([v] + vs)
  }

  /** Section 8.19.4 of X.690: the first subidentifier holds two arcs. */
  function Decode(bs: seq<Byte>): Option<seq<nat>> {
    match DecodeTail(bs)
    case None => None
    case Some(subs) =>
      if subs == [] then None
      else
        Some(TopArcs(subs[0]) + subs[1..])
  }

  /** The arcs that survive: within the type, and within five octets. */
  predicate Representable(arcs: seq<nat>, max: nat)
    requires |arcs| >= 2
  {
    && (arcs[0] == 2 ==> arcs[1] + 80 <= max && arcs[1] + 80 < LIMIT)
    && AllRepresentable(arcs[2..], max)
  }

  predicate AllRepresentable(arcs: seq<nat>, max: nat) {
    arcs == [] || (arcs[0] <= max && arcs[0] < LIMIT && AllRepresentable(arcs[1..], max))
  }

  /** The subidentifiers as they decode. */
  function Reduced(arcs: seq<nat>, max: nat): seq<nat> {
    if arcs == [] then [] else [Saturate(arcs[0], max) % LIMIT] + Reduced(arcs[1..], max)
  }

  lemma {:induction false} FlaggedThenTail(v: nat, rest: seq<Byte>)
    ensures
      DecodeTail(Flagged(v) + rest) ==
      match DecodeTail(rest) case None => None case Some(vs) => Some([v % LIMIT] + vs)
  {
    FlaggedDecodes(v, rest);
    FlaggedLengthIs(v, 4, false);
  }

  lemma {:induction false} TailDecodes(arcs: seq<nat>, max: nat)
    ensures DecodeTail(TailBytes(arcs, max)) == Some(Reduced(arcs, max))
    decreases |arcs|
  {
    if arcs != [] {
      TailDecodes(arcs[1..], max);
      FlaggedThenTail(Saturate(arcs[0], max), TailBytes(arcs[1..], max));
    }
  }

  lemma {:induction false} ReducedSame(arcs: seq<nat>, max: nat)
    ensures Reduced(arcs, max) == arcs <==> AllRepresentable(arcs, max)
    decreases |arcs|
  {
    if arcs != [] {
      var r := Reduced(arcs, max);
      ReducedSame(arcs[1..], max);
      assert r[0] == Saturate(arcs[0], max) % LIMIT && r[1..] == Reduced(arcs[1..], max);
      assert r == arcs <==> r[0] == arcs[0] && r[1..] == arcs[1..] by {
        assert arcs == [arcs[0]] + arcs[1..];
      }
    }
  }

  /** The two arcs a subidentifier decodes to. */
  function TopArcs(x: nat): seq<nat> {
    if x < 40 then [0, x] else if x < 80 then [1, x - 40] else [2, x - 80]
  }

  lemma {:induction false} TopSame(a0: nat, a1: nat, max: nat)
    requires a0 <= 2 && (a0 < 2 ==> a1 <= 39) && max >= MIN_ULONG_MAX
    ensures TopArcs(FirstSub(a0, a1, max) % LIMIT) == [a0, a1] <==> (a0 == 2 ==> a1 + 80 <= max && a1 + 80 < LIMIT)
  {
    if a0 == 2 {
      SecondArc(a1, max);
    }
    var top := TopArcs(FirstSub(a0, a1, max) % LIMIT);
    assert top == [a0, a1] <==> top[0] == a0 && top[1] == a1;
  }

  lemma {:induction false} SecondArc(a1: nat, max: nat)
    requires max >= MIN_ULONG_MAX
    ensures FirstSub(2, a1, max) % LIMIT == a1 + 80 <==> a1 + 80 <= max && a1 + 80 < LIMIT
  {
    var sum := Saturate(a1, max) + 80;
    if sum <= max {
      DivUnique(sum, max + 1, 0, sum);
    }
    assert sum % (max + 1) <= max;
  }

  /** Decoding an encoded OID gives the arcs back exactly when each of them is representable. */
  lemma {:induction false} RoundTrip(arcs: seq<nat>, max: nat)
    requires Accepted(arcs, max) && max >= MIN_ULONG_MAX
    ensures Decode(OidBytes(arcs, max)) == Some(arcs) <==> Representable(arcs, max)
  {
    var first, tail := FirstSub(arcs[0], arcs[1], max), arcs[2..];
    var red := Reduced(tail, max);
    TailDecodes(tail, max);
    FlaggedThenTail(first, TailBytes(tail, max));
    assert ([first % LIMIT] + red)[1..] == red;
    ReducedSame(tail, max);
    TopSame(arcs[0], arcs[1], max);
    SplitSame(TopArcs(first % LIMIT), red, arcs);
  }

  lemma {:induction false} SplitSame(top: seq<nat>, tail: seq<nat>, arcs: seq<nat>)
    requires |top| == 2 <= |arcs|
    ensures top + tail == arcs <==> top == [arcs[0], arcs[1]] && tail == arcs[2..]
  {
    assert (top + tail)[..2] == top && (top + tail)[2..] == tail;
    assert arcs == [arcs[0], arcs[1]] + arcs[2..];
  }

  /** Every arc below 2^32, the second below 2^32 - 80, survives on every platform. */
  lemma {:induction false} SmallArcsRepresentable(arcs: seq<nat>, max: nat)
    requires max >= MIN_ULONG_MAX && forall k :: 0 <= k < |arcs| ==> arcs[k] <= MIN_ULONG_MAX
    ensures AllRepresentable(arcs, max)
    ensures |arcs| >= 2 && arcs[1] + 80 <= MIN_ULONG_MAX ==> Representable(arcs, max)
    decreases |arcs|
  {
    if arcs != [] {
      SmallArcsRepresentable(arcs[1..], max);
      if |arcs| >= 2 {
        SmallArcsRepresentable(arcs[2..], max);
      }
    }
  }

  // ---------------------------------------------------------------- the string loop

  /** A number of n digits needs at most n octets, even with the 80 of the second arc. */
  lemma {:induction false} OctetsPerDigits(s: string, max: nat)
    requires s != ""
    ensures FlaggedLength(Saturate(Number(s), max)) <= |s|
    ensures FlaggedLength(Number(s) + 80) <= |s|
    ensures FlaggedLength((Saturate(Number(s), max) + 80) % (max + 1)) <= |s|
  {
    SmallNumber(s);
    SumBelow(Saturate(Number(s), max) + 80, max + 1);
    OctetsBelow(Number(s) + 80, Number(s) + 80, |s|);
    OctetsBelow(Number(s) + 80, Saturate(Number(s), max), |s|);
    OctetsBelow(Number(s) + 80, (Saturate(Number(s), max) + 80) % (max + 1), |s|);
  }

  lemma {:induction false} SumBelow(sum: nat, m: nat)
    requires m > 0
    ensures sum % m <= sum
  {
    assert sum == sum / m * m + sum % m;
    assert sum / m >= 0;
  }

  lemma {:induction false} OctetsBelow(bound: nat, v: nat, n: nat)
    requires v <= bound && n > 0
    requires (n == 1 ==> bound < 90) && (n == 2 ==> bound < 180) && (n == 3 ==> bound < 1080)
    requires (n == 4 ==> bound < 10080)
    ensures FlaggedLength(v) <= n
  {
  }

  lemma {:induction false} SmallNumber(s: string)
    ensures |s| == 1 ==> Number(s) < 10
    ensures |s| == 2 ==> Number(s) < 100
    ensures |s| == 3 ==> Number(s) < 1000
    ensures |s| == 4 ==> Number(s) < 10000
    decreases |s|
  {
    if 0 < |s| {
      SmallNumber(s[..|s| - 1]);
    }
  }

  lemma {:induction false} NumberStep(t: string, c: char, max: nat)
    ensures Saturate(Number(t + [c]), max) == Saturate(Saturate(Number(t), max) * 10 + DigitValue(c), max)
  {
    assert (t + [c])[..|t|] == t;
  }

  lemma {:induction false} NumberAt(p: string, end: nat, max: nat)
    requires end < |p|
    ensures Saturate(Number(p[..end + 1]), max)
         == Saturate(Saturate(Number(p[..end]), max) * 10 + DigitValue(p[end]), max)
    ensures IsDigit(p[end]) ==> DigitRun(p[end..]) == 1 + DigitRun(p[end + 1..])
  {
    NumberStep(p[..end], p[end], max);
    assert p[..end] + [p[end]] == p[..end + 1];
    assert p[end..][1..] == p[end + 1..];
  }

  /** strtoul: the number at the head of the string, saturated, and the first position after its digits. */
  method ParseNumber(p: string, max: nat) returns (v: nat, end: nat)
    ensures end == DigitRun(p) && v == Saturate(Number(p[..end]), max)
  {
    v, end := 0, 0;
    assert p[0..] == p;
    while end < |p| && IsDigit(p[end])
      invariant end <= |p|
      invariant DigitRun(p) == end + DigitRun(p[end..])
      invariant v == Saturate(Number(p[..end]), max)
    {
      NumberAt(p, end, max);
      v := Saturate(v * 10 + (p[end] as int - '0' as int), max);
      end := end + 1;
    }
  }

  /** The octets of the arcs read so far. */
  function BytesSoFar(done: seq<nat>, max: nat): seq<Byte> {
    if |done| < 2 then [] else OidBytes(done, max)
  }

  /** The arcs of a string once those of p up to position n are read. */
  ghost function Onward(p: string, n: nat, done: seq<nat>): Option<seq<nat>>
    requires n <= |p|
  {
    if n == |p| then Some(done) else ArcsAfter(p[n + 1..], done)
  }

  predicate AllowedSoFar(done: seq<nat>) {
    (|done| >= 1 ==> done[0] <= 2) && (|done| >= 2 && done[0] < 2 ==> done[1] <= 39)
  }

  /** Reading one more arc of the string. */
  lemma {:induction false} ArcsStep(p: string, done: seq<nat>)
    ensures ArcsAfter(p, done) ==
            if DigitRun(p) == 0 || (DigitRun(p) < |p| && p[DigitRun(p)] != '.') then None
            else Onward(p, DigitRun(p), done + [Number(p[..DigitRun(p)])])
  {
    if DigitRun(p) == |p| {
      assert p[..|p|] == p;
    }
  }

  /** The arcs read first stay first. */
  lemma {:induction false} ArcsKeep(s: string, done: seq<nat>)
    ensures ArcsAfter(s, done).Some? ==> done <= ArcsAfter(s, done).value
    decreases |s|
  {
    var n := DigitRun(s);
    if 0 < n < |s| && s[n] == '.' {
      ArcsKeep(s[n + 1..], done + [Number(s[..n])]);
    }
  }

  lemma {:induction false} TailAppend(arcs: seq<nat>, a: nat, max: nat)
    ensures TailBytes(arcs + [a], max) == TailBytes(arcs, max) + Flagged(Saturate(a, max))
    decreases |arcs|
  {
    if arcs == [] {
      assert (arcs + [a])[1..] == [];
    } else {
      assert (arcs + [a])[1..] == arcs[1..] + [a];
      TailAppend(arcs[1..], a, max);
    }
  }

  /** What one more arc adds to the octets. */
  lemma {:induction false} BytesStep(done: seq<nat>, a: nat, max: nat)
    ensures |done| == 0 ==> BytesSoFar(done + [a], max) == []
    ensures |done| == 1 ==> BytesSoFar(done + [a], max) == Flagged(FirstSub(done[0], a, max))
    ensures |done| >= 2 ==> BytesSoFar(done + [a], max) == BytesSoFar(done, max) + Flagged(Saturate(a, max))
  {
    if |done| == 1 {
      assert (done + [a])[2..] == [];
    } else if |done| >= 2 {
      assert (done + [a])[2..] == done[2..] + [a];
      TailAppend(done[2..], a, max);
    }
  }

  /** A byte below 80 is its own subidentifier. */
  lemma {:induction false} FlaggedSmall(v: nat)
    requires v < 128
    ensures Flagged(v) == [v]
  {
    SkipZeros(v, 4);
  }

  /** The body of the loop after the number is read: check the arc, or append its octets. */
  method AppendArc(arcno: nat, val1: nat, val: nat, oid: array<Byte>, len: nat, n: nat,
                   ghost done: seq<nat>, ghost a: nat, max: nat) returns (ok: bool, len': nat)
    requires max >= MIN_ULONG_MAX && arcno == |done| && val == Saturate(a, max)
    requires AllowedSoFar(done) && (arcno >= 1 ==> val1 == done[0])
    requires len + n <= oid.Length && oid[..len] == BytesSoFar(done, max)
    requires 1 <= n && FlaggedLength(val) <= n && FlaggedLength((val + 80) % (max + 1)) <= n
    modifies oid
    ensures ok == AllowedSoFar(done + [a])
    ensures ok ==> len' <= len + n && oid[..len'] == BytesSoFar(done + [a], max)
  {
    ghost var before := oid[..len];
    BytesStep(done, a, max);
    ok, len' := true, len;
    if arcno == 0 {
      ok := val <= 2;
    } else if arcno == 1 {
      assert before == [];
      if val1 < 2 {
        if val > 39 {
          return false, len;
        }
        FlaggedSmall(val1 * 40 + val);
        oid[len] := val1 * 40 + val;
        len' := len + 1;
        assert oid[..len'] == before + [val1 * 40 + val];
      } else {
        len' := MakeFlaggedInt((val + 80) % (max + 1), oid, len);
      }
    } else {
      len' := MakeFlaggedInt(val, oid, len);
    }
  }

  /** A string with a forbidden arc among its first two has no encoding. */
  lemma {:induction false} Forbidden(s: string, rest: string, arcs: seq<nat>, max: nat)
    requires Arcs(s) == Some(arcs) || Arcs(s) == ArcsAfter(rest, arcs)
    requires !AllowedSoFar(arcs)
    ensures Encoding(s, max) == None
  {
    ArcsKeep(rest, arcs);
    if Arcs(s).Some? {
      assert arcs <= Arcs(s).value;
    }
  }

  /** Append the arc whose digits were read. */
  method TakeArc(s: string, p: string, n: nat, arcno: nat, val1: nat, val: nat, oid: array<Byte>, len: nat,
                 ghost done: seq<nat>, ghost a: nat, max: nat)
    returns (ok: bool, len': nat)
    requires max >= MIN_ULONG_MAX && 1 <= n <= |p| && len + n <= oid.Length
    requires arcno == |done| && AllowedSoFar(done) && (arcno >= 1 ==> val1 == done[0])
    requires val == Saturate(a, max) && FlaggedLength(val) <= n && FlaggedLength((val + 80) % (max + 1)) <= n
    requires Arcs(s) == Onward(p, n, done + [a]) && oid[..len] == BytesSoFar(done, max)
    modifies oid
    ensures !ok ==> Encoding(s, max) == None
    ensures ok ==> len' <= len + n && AllowedSoFar(done + [a]) && oid[..len'] == BytesSoFar(done + [a], max)
    ensures ok && arcno == 0 ==> val == a
  {
    ok, len' := AppendArc(arcno, val1, val, oid, len, n, done, a, max);
    if !ok {
      Forbidden(s, if n == |p| then "" else p[n + 1..], done + [a], max);
    }
  }

  /** One turn of the loop: read a number and append its arc. */
  method ReadArc(s: string, p: string, arcno: nat, val1: nat, oid: array<Byte>, len: nat, ghost done: seq<nat>,
                 max: nat)
    returns (ok: bool, end: nat, val1': nat, len': nat, ghost done': seq<nat>)
    requires max >= MIN_ULONG_MAX && len + |p| <= oid.Length
    requires arcno == |done| && AllowedSoFar(done) && (arcno >= 1 ==> val1 == done[0])
    requires Arcs(s) == ArcsAfter(p, done) && oid[..len] == BytesSoFar(done, max)
    modifies oid
    ensures !ok ==> Encoding(s, max) == None
    ensures ok ==>
              0 < end <= |p| && len' <= len + end && |done'| == arcno + 1 && val1' == done'[0] && AllowedSoFar(done')
    ensures ok ==> Arcs(s) == Onward(p, end, done')
    ensures ok ==> oid[..len'] == BytesSoFar(done', max)
  {
    var val;
    val, end := ParseNumber(p, max);
    ArcsStep(p, done);
    ok, len', val1', done' := false, len, val1, done;
    if end != 0 && (end < |p| ==> p[end] == '.') {
      ghost var a := Number(p[..end]);
      OctetsPerDigits(p[..end], max);
      ok, len' := TakeArc(s, p, end, arcno, val1, val, oid, len, done, a, max);
      done' := done + [a];
      if arcno == 0 {
        val1' := val;
      }
    }
  }

  /** The loop over the arcs; p is the part of the string still to be read. */
  method ReadArcs(s: string, oid: array<Byte>, max: nat) returns (ok: bool, arcno: nat, len: nat, ghost done: seq<nat>)
    requires max >= MIN_ULONG_MAX && oid.Length == 1 + |s| + 2
    modifies oid
    ensures !ok ==> Encoding(s, max) == None
    ensures ok ==> len <= |s| && arcno == |done| && Arcs(s) == Some(done) && AllowedSoFar(done)
    ensures ok ==> oid[..len] == BytesSoFar(done, max)
  {
    arcno, len, done := 0, 0, [];
    var val1: nat, p := 0, s;
    while true
      invariant len + |p| <= |s| && arcno == |done|
      invariant Arcs(s) == ArcsAfter(p, done)
      invariant oid[..len] == BytesSoFar(done, max) && AllowedSoFar(done)
      invariant arcno >= 1 ==> val1 == done[0]
      decreases |p|
    {
      var end;
      ok, end, val1, len, done := ReadArc(s, p, arcno, val1, oid, len, done, max);
      arcno := arcno + 1;
      if !ok || end == |p| {
        return;
      }
      p := p[end + 1..];
    }
  }

  /**
   oid_from_str: the buffer is three bytes longer than the string, and every
   octet is written inside it because no arc has more octets than digits.
   */
  method OidFromStr(s: string, max: nat) returns (r: Option<seq<Byte>>)
    requires max >= MIN_ULONG_MAX
    ensures r == Encoding(s, max)
    ensures r.Some? ==> |r.value| <= |s|
  {
    var oid := new Byte[1 + |s| + 2];
    var ok, arcno, len;
    ghost var done;
    ok, arcno, len, done := ReadArcs(s, oid, max);
    if !ok {
      return None;
    }
    Finish(s, done, max);
    if arcno == 1 || len < 2 || len > 254 {
      return None;
    }
    return Some(oid[..len]);
  }

  lemma {:induction false} Finish(s: string, done: seq<nat>, max: nat)
    requires Arcs(s) == Some(done) && AllowedSoFar(done)
    ensures Encoding(s, max) ==
            if |done| != 1 && 2 <= |BytesSoFar(done, max)| <= 254 then Some(BytesSoFar(done, max)) else None
  {
  }
}
