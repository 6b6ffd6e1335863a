/**
 UTF-8 (section 3 of RFC 3629) and the rune-safe cut of cmd/3ngram-hook/session.go. A `char` is a
 Unicode scalar value.
 */
module Utf8 {

  newtype Byte = b: int | 0 <= b < 256

  function EncodeRune(c: char): (r: seq<Byte>)
    ensures 1 <= |r| <= 4
  {
    var v := c as int;
    if v < 0x80 then [v as Byte]
    else if v < 0x800 then [(0xC0 + v / 0x40) as Byte, (0x80 + v % 0x40) as Byte]
    else if v < 0x10000 then
      [(0xE0 + v / 0x1000) as Byte, (0x80 + v / 0x40 % 0x40) as Byte, (0x80 + v % 0x40) as Byte]
    else
      [(0xF0 + v / 0x40000) as Byte, (0x80 + v / 0x1000 % 0x40) as Byte, (0x80 + v / 0x40 % 0x40) as Byte,
       (0x80 + v % 0x40) as Byte]
  }

  function Encode(s: string): seq<Byte> {
    if s == "" then [] else Encode(s[..|s| - 1]) + EncodeRune(s[|s| - 1])
  }

  /** utf8.RuneStart: not a continuation byte. */
  predicate RuneStart(b: Byte) {
    !(0x80 <= b < 0xC0)
  }

  /** How many bytes a rune takes, and what its first byte says of that. */
  lemma RuneWidth(c: char)
    ensures var (v, r) := (c as int, EncodeRune(c));
            var first := r[0] as int;
            && (v < 0x80 <==> |r| == 1) && (|r| == 1 ==> first == v)
            && (0x80 <= v < 0x800 <==> |r| == 2) && (|r| == 2 <==> 0xC0 <= first < 0xE0)
            && (0x800 <= v < 0x10000 <==> |r| == 3) && (|r| == 3 <==> 0xE0 <= first < 0xF0)
            && (0x10000 <= v <==> |r| == 4) && (|r| == 4 <==> 0xF0 <= first)
  {
  }

  // ---- The code can be read back ----

  function Payload(b: Byte): int {
    b as int % 0x40
  }

  /** The rune that starts a byte sequence, as its value and its length in bytes. */
  function DecodeRune(s: seq<Byte>): (int, nat) {
    if |s| >= 1 && s[0] < 0x80 then (s[0] as int, 1)
    else if |s| >= 2 && 0xC0 <= s[0] < 0xE0 then ((s[0] as int - 0xC0) * 0x40 + Payload(s[1]), 2)
    else if |s| >= 3 && 0xE0 <= s[0] < 0xF0 then
      ((s[0] as int - 0xE0) * 0x1000 + Payload(s[1]) * 0x40 + Payload(s[2]), 3)
    else if |s| >= 4 then
      ((s[0] as int - 0xF0) * 0x40000 + Payload(s[1]) * 0x1000 + Payload(s[2]) * 0x40 + Payload(s[3]), 4)
    else (0, 0)
  }

  lemma PayloadOf(x: int)
    requires 0 <= x < 0x40
    ensures Payload((0x80 + x) as Byte) == x
  {
  }

  lemma DivideTwice(v: int)
    requires 0 <= v
    ensures v / 0x1000 == v / 0x40 / 0x40
  {
  }

  lemma DivideAgain(v: int)
    requires 0 <= v
    ensures v / 0x40000 == v / 0x1000 / 0x40
  {
  }

  lemma Digits(v: int)
    requires 0 <= v
    ensures v == v / 0x40 * 0x40 + v % 0x40
    ensures v == v / 0x1000 * 0x1000 + v / 0x40 % 0x40 * 0x40 + v % 0x40
    ensures v == v / 0x40000 * 0x40000 + v / 0x1000 % 0x40 * 0x1000 + v / 0x40 % 0x40 * 0x40 + v % 0x40
  {
    DivideTwice(v);
    DivideAgain(v);
    var q, r := v / 0x40, v / 0x1000;
    assert v == q * 0x40 + v % 0x40;
    assert q == r * 0x40 + q % 0x40;
    assert r == v / 0x40000 * 0x40 + r % 0x40;
  }

  lemma DecodesRune(c: char, rest: seq<Byte>)
    ensures DecodeRune(EncodeRune(c) + rest) == (c as int, |EncodeRune(c)|)
  {
    var v, bytes := c as int, EncodeRune(c);
    Digits(v);
    PayloadOf(v % 0x40);
    PayloadOf(v / 0x40 % 0x40);
    PayloadOf(v / 0x1000 % 0x40);
    DecodePrefix(bytes, rest);
    if v < 0x80 {
    } else if v < 0x800 {
      assert bytes[0] as int - 0xC0 == v / 0x40;
    } else if v < 0x10000 {
      assert bytes[0] as int - 0xE0 == v / 0x1000;
    } else {
      assert bytes[0] as int - 0xF0 == v / 0x40000;
    }
  }

  lemma DecodePrefix(s: seq<Byte>, rest: seq<Byte>)
    requires DecodeRune(s).1 > 0
    ensures DecodeRune(s + rest) == DecodeRune(s)
  {
  }

  lemma Append<T>(a: seq<T>, b: seq<T>, c: seq<T>)
    ensures a + (b + c) == (a + b) + c
  {
  }

  lemma {:induction false} EncodeConcat(s: string, t: string)
    ensures Encode(s + t) == Encode(s) + Encode(t)
  {
    if t == "" {
      EncodeNothing(s, t);
    } else {
      var front, last := t[..|t| - 1], t[|t| - 1];
      EncodeConcat(s, front);
      EncodeMore(s, front, last, t);
    }
  }

  lemma EncodeNothing(s: string, t: string)
    requires t == ""
    ensures Encode(s + t) == Encode(s) + Encode(t)
  {
    assert s + t == s;
  }

  lemma EncodeMore(s: string, front: string, last: char, t: string)
    requires Encode(s + front) == Encode(s) + Encode(front) && t == front + [last]
    ensures Encode(s + t) == Encode(s) + Encode(t)
  {
    Append(s, front, [last]);
    EncodeLast(s + front, last);
    EncodeLast(front, last);
    Append(Encode(s), Encode(front), EncodeRune(last));
  }

  lemma EncodeLast(s: string, c: char)
    ensures Encode(s + [c]) == Encode(s) + EncodeRune(c)
  {
    assert (s + [c])[..|s|] == s;
  }

  lemma EncodeOne(c: char)
    ensures Encode([c]) == EncodeRune(c)
  {
    EncodeLast("", c);
    assert "" + [c] == [c];
  }

  lemma EncodeFirst(s: string)
    requires s != ""
    ensures Encode(s) == EncodeRune(s[0]) + Encode(s[1..])
  {
    EncodeOne(s[0]);
    EncodeConcat([s[0]], s[1..]);
    assert s == [s[0]] + s[1..];
  }

  /** Different texts have different bytes. */
  lemma {:induction false} EncodeInjective(s: string, t: string)
    requires Encode(s) == Encode(t)
    ensures s == t
  {
    if s == "" || t == "" {
      if s != "" { EncodeFirst(s); }
      if t != "" { EncodeFirst(t); }
    } else {
      EncodeFirst(s);
      EncodeFirst(t);
      DecodesRune(s[0], Encode(s[1..]));
      DecodesRune(t[0], Encode(t[1..]));
      assert Encode(s)[|EncodeRune(s[0])|..] == Encode(s[1..]);
      assert Encode(t)[|EncodeRune(t[0])|..] == Encode(t[1..]);
      EncodeInjective(s[1..], t[1..]);
    }
  }

  // ---- Boundaries ----

  /** The byte offset just before rune `k`. */
  function Offset(s: string, k: nat): nat
    requires k <= |s|
  {
    |Encode(s[..k])|
  }

  lemma OffsetStep(s: string, k: nat)
    requires k < |s|
    ensures Offset(s, k + 1) == Offset(s, k) + |EncodeRune(s[k])|
  {
    assert s[..k + 1][..k] == s[..k];
  }

  lemma {:induction false} OffsetGrows(s: string, j: nat, k: nat)
    requires j < k <= |s|
    ensures Offset(s, j) < Offset(s, k)
    decreases k
  {
    OffsetStep(s, k - 1);
    if j < k - 1 { OffsetGrows(s, j, k - 1); }
  }

  lemma OffsetOrder(s: string, j: nat, k: nat)
    requires j <= |s| && k <= |s|
    ensures j <= k <==> Offset(s, j) <= Offset(s, k)
  {
    if j < k { OffsetGrows(s, j, k); }
    if k < j { OffsetGrows(s, k, j); }
  }

  lemma PrefixBytes(s: string, k: nat)
    requires k <= |s|
    ensures Offset(s, k) <= |Encode(s)| && Encode(s)[..Offset(s, k)] == Encode(s[..k])
  {
    var front, back := Encode(s[..k]), Encode(s[k..]);
    EncodeConcat(s[..k], s[k..]);
    assert s == s[..k] + s[k..];
    assert (front + back)[..|front|] == front;
  }

  ghost predicate IsBoundary(s: string, i: nat) {
    exists k: nat :: k <= |s| && Offset(s, k) == i
  }

  lemma ContinuationBytes(c: char)
    ensures RuneStart(EncodeRune(c)[0])
    ensures forall i | 1 <= i < |EncodeRune(c)| :: !RuneStart(EncodeRune(c)[i])
  {
  }

  lemma ByteOfConcat(a: seq<Byte>, b: seq<Byte>, i: nat)
    requires i < |a| + |b|
    ensures (a + b)[i] == if i < |a| then a[i] else b[i - |a|]
  {
  }

  /** The rune a byte belongs to. */
  lemma {:induction false} RuneAt(s: string, i: nat) returns (k: nat)
    requires i < |Encode(s)|
    ensures k < |s| && Offset(s, k) <= i < Offset(s, k) + |EncodeRune(s[k])|
    ensures Encode(s)[i] == EncodeRune(s[k])[i - Offset(s, k)]
  {
    var front := s[..|s| - 1];
    ByteOfConcat(Encode(front), EncodeRune(s[|s| - 1]), i);
    if i < |Encode(front)| {
      k := RuneAt(front, i);
      assert front[..k] == s[..k];
    } else {
      k := |s| - 1;
    }
  }

  lemma InsideIsNoBoundary(s: string, k: nat, i: nat)
    requires k < |s| && Offset(s, k) < i < Offset(s, k) + |EncodeRune(s[k])|
    ensures !IsBoundary(s, i)
  {
    OffsetStep(s, k);
    forall j: nat | j <= |s| ensures Offset(s, j) != i {
      OffsetOrder(s, k + 1, j);
      OffsetOrder(s, j, k);
    }
  }

  /** A byte starts a rune exactly when its offset is a rune boundary. */
  lemma StartIsBoundary(s: string, i: nat)
    requires i < |Encode(s)|
    ensures RuneStart(Encode(s)[i]) <==> IsBoundary(s, i)
  {
    var k := RuneAt(s, i);
    ContinuationBytes(s[k]);
    if i > Offset(s, k) { InsideIsNoBoundary(s, k, i); }
  }

  // ---- The cut ----

  /** `runeSafeCut`, on any bytes. */
  method RuneSafeCut(s: seq<Byte>, limit: int) returns (n: nat)
    ensures n == SafeCut(s, limit)
    ensures limit >= |s| ==> n == |s|
    ensures limit <= 0 < |s| ==> n == 0
    ensures 0 < limit < |s| ==>
      && n <= limit && (n == 0 || !(0x80 <= s[n] < 0xC0))
      && forall i | n < i <= limit :: 0x80 <= s[i] < 0xC0
  {
    if limit >= |s| { return |s|; }
    if limit <= 0 { return 0; }
    n := limit;
    while n > 0 && !RuneStart(s[n])
      invariant n <= limit && n < |s| && SafeCut(s, n) == SafeCut(s, limit)
      invariant forall i | n < i <= limit :: 0x80 <= s[i] < 0xC0
      decreases n
    {
      n := n - 1;
    }
  }

  function SafeCut(s: seq<Byte>, n: int): (cut: nat)
    ensures cut <= |s| && (cut <= n || cut == 0)
    decreases n
  {
    if n >= |s| then |s|
    else if n <= 0 then 0
    else if RuneStart(s[n]) then n
    else SafeCut(s, n - 1)
  }

  ghost predicate LargestBoundary(s: string, n: nat, cut: nat) {
    && IsBoundary(s, cut) && cut <= n
    && forall i: nat | cut < i <= n :: !IsBoundary(s, i)
  }

  /** On valid text the cut is the largest rune boundary not past the limit. */
  lemma {:induction false} CutIsLargestBoundary(s: string, n: nat)
    ensures LargestBoundary(s, n, SafeCut(Encode(s), n))
    decreases n
  {
    EndsAreBoundaries(s);
    if n >= |Encode(s)| {
      forall i: nat | |Encode(s)| < i ensures !IsBoundary(s, i) { BeyondEnd(s, i); }
    } else if n > 0 {
      StartIsBoundary(s, n);
      if !RuneStart(Encode(s)[n]) { CutIsLargestBoundary(s, n - 1); }
    }
  }

  lemma EndsAreBoundaries(s: string)
    ensures IsBoundary(s, 0) && IsBoundary(s, |Encode(s)|)
  {
    assert s[..0] == "" && s[..|s|] == s;
    assert Offset(s, 0) == 0 && Offset(s, |s|) == |Encode(s)|;
  }

  lemma BeyondEnd(s: string, i: nat)
    requires |Encode(s)| < i
    ensures !IsBoundary(s, i)
  {
    forall k: nat | k <= |s| ensures Offset(s, k) != i {
      PrefixBytes(s, k);
    }
  }

  /** What is kept is the encoding of the first runes of the text. */
  lemma KeptIsValid(s: string, n: int) returns (k: nat)
    ensures k <= |s| && Offset(s, k) == SafeCut(Encode(s), n)
    ensures Encode(s)[..SafeCut(Encode(s), n)] == Encode(s[..k])
  {
    if n >= 0 { CutIsLargestBoundary(s, n); } else { EndsAreBoundaries(s); }
    k :| k <= |s| && Offset(s, k) == SafeCut(Encode(s), n);
    PrefixBytes(s, k);
  }
}
