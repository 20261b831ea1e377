/**
 * The unsigned LEB128 ("base-128 varint") length prefix as `PacketReader.ReadVarintAsync`
 * decodes it: seven data bits per byte, low group first, high bit set on every byte but
 * the last. The accumulator is a C# `int`, so the model keeps its 32-bit pattern: `|=` is
 * a bitwise or on 32 bits, and `<<` masks its count to five bits and drops the bits
 * shifted past bit 31.
 */
module Varint {
  import opened Packets

  const Two32: nat := 0x1_0000_0000

  /** `b & 0x7F`. */
  function Low7(b: byte): nat {
    b as int % 128
  }

  /** `(b & 0x80) != 0`: another prefix byte follows. */
  predicate Continues(b: byte) {
    b as int >= 128
  }

  function Pow2(k: nat): (r: nat)
    ensures r >= 1
  {
    if k == 0 then 1 else 2 * Pow2(k - 1)
  }

  function Pow128(k: nat): (r: nat)
    ensures r >= 1
  {
    if k == 0 then 1 else 128 * Pow128(k - 1)
  }

  /** Bitwise or of two naturals. */
  function BitOr(a: nat, b: nat): nat
    decreases a + b
  {
    if a == 0 then b
    else if b == 0 then a
    else (if a % 2 == 1 || b % 2 == 1 then 1 else 0) + 2 * BitOr(a / 2, b / 2)
  }

  /** The 32-bit pattern of C#'s `y << shift` on an `int`. */
  function Shl32(y: nat, shift: nat): nat {
    (y * Pow2(shift % 32)) % Two32
  }

  /** The arithmetic value of a prefix: the sum of `Low7(s[i]) * 128^i`. */
  function LebSum(s: seq<byte>): nat {
    if s == [] then 0 else LebSum(s[..|s| - 1]) + Low7(s[|s| - 1]) * Pow128(|s| - 1)
  }

  /** The bit pattern of `packetSize` after `packetSize |= (s[i] & 0x7F) << shift` for each byte, shift = 7i. */
  function Acc32(s: seq<byte>): nat {
    if s == [] then 0
    else BitOr(Acc32(s[..|s| - 1]), Shl32(Low7(s[|s| - 1]), 7 * (|s| - 1)))
  }

  /** The `int` a 32-bit pattern denotes in two's complement. */
  function ToInt32(v: nat): (r: int)
    requires v < Two32
    ensures -0x8000_0000 <= r < 0x8000_0000
    ensures v < 0x8000_0000 ==> r == v
    ensures v >= 0x8000_0000 ==> r < 0
  {
    if v < 0x8000_0000 then v else v - Two32
  }

  /** The index of the first byte without continuation bit, or `|s|` when there is none. */
  function FirstFinal(s: seq<byte>): (k: nat)
    ensures k <= |s|
    ensures forall i :: 0 <= i < k ==> Continues(s[i])
    ensures k < |s| ==> !Continues(s[k])
  {
    if s == [] then 0
    else if !Continues(s[0]) then 0
    else 1 + FirstFinal(s[1..])
  }

  /** The reference encoder: unsigned LEB128, as the writing side's length prefix. */
  function Encode(n: nat): (s: seq<byte>)
    ensures |s| >= 1
    decreases n
  {
    if n < 128 then [n as byte] else [(n % 128 + 128) as byte] + Encode(n / 128)
  }

  // ---------------------------------------------------------------- bit patterns

  lemma {:induction false} BitOrBound(a: nat, b: nat, m: nat)
    requires a < Pow2(m) && b < Pow2(m)
    ensures BitOr(a, b) < Pow2(m)
    decreases a + b
  {
    if a != 0 && b != 0 {
      assert m > 0;
      BitOrBound(a / 2, b / 2, m - 1);
    }
  }

  /** Or-ing `b`, a multiple of 2^m, onto `a < 2^m` sets disjoint bits: it is a sum. */
  lemma {:induction false} BitOrDisjoint(a: nat, c: nat, m: nat)
    requires a < Pow2(m)
    ensures BitOr(a, c * Pow2(m)) == a + c * Pow2(m)
    decreases m
  {
    var b := c * Pow2(m);
    if a != 0 && b != 0 {
      assert m > 0;
      assert b == 2 * (c * Pow2(m - 1));
      assert b % 2 == 0 && b / 2 == c * Pow2(m - 1);
      BitOrDisjoint(a / 2, c, m - 1);
    }
  }

  lemma {:induction false} Pow2Add(i: nat, j: nat)
    ensures Pow2(i + j) == Pow2(i) * Pow2(j)
    decreases i
  {
    if i > 0 {
      Pow2Add(i - 1, j);
    }
  }

  lemma {:induction false} Pow128IsPow2(k: nat)
    ensures Pow128(k) == Pow2(7 * k)
    decreases k
  {
    if k > 0 {
      Pow128IsPow2(k - 1);
      Pow2Add(7, 7 * (k - 1));
      assert Pow2(7) == 128;
      assert 7 * k == 7 + 7 * (k - 1);
    }
  }

  lemma {:induction false} PowMonotone(i: nat, j: nat)
    requires i <= j
    ensures Pow128(i) <= Pow128(j)
    decreases j
  {
    if i < j {
      PowMonotone(i, j - 1);
    }
  }

  lemma MulBound(a: nat, b: nat, c: nat)
    requires a <= b
    ensures a * c <= b * c
  {
  }

  lemma {:induction false} LebSumBound(s: seq<byte>)
    ensures LebSum(s) < Pow128(|s|)
    decreases |s|
  {
    if s != [] {
      var k := |s| - 1;
      LebSumBound(s[..k]);
      MulBound(Low7(s[k]), 127, Pow128(k));
    }
  }

  /** The fifth group, shifted by 28, keeps only its low four bits in 32. */
  lemma WrapTopGroup(x: nat, y: nat)
    requires x < 0x1000_0000 && y < 128
    ensures (y * 0x1000_0000) % Two32 == (y % 16) * 0x1000_0000
    ensures (x + y * 0x1000_0000) % Two32 == x + (y % 16) * 0x1000_0000
  {
    assert y * 0x1000_0000 == (y / 16) * Two32 + (y % 16) * 0x1000_0000;
  }

  /** A group placed below bit 28 stays below bit 28. */
  lemma LowGroupFits(g: nat, k: nat)
    requires k < 4 && g < 128
    ensures Pow128(k) <= 0x20_0000 && g * Pow128(k) < 0x1000_0000
  {
    PowMonotone(k, 3);
    assert Pow128(3) == 0x20_0000;
    MulBound(g, 127, Pow128(k));
  }

  /** Below bit 28 the 32-bit shift loses nothing. */
  lemma ShlLow(g: nat, k: nat)
    requires k < 4 && g < 128
    ensures Shl32(g, 7 * k) == g * Pow128(k)
  {
    var p := Pow128(k);
    LowGroupFits(g, k);
    Pow128IsPow2(k);
    assert 7 * k % 32 == 7 * k;
    assert Shl32(g, 7 * k) == (g * p) % Two32;
    var t := g * p;
    assert t % Two32 == t;
  }

  /** One accumulation step below bit 28: the group lands on clear bits and nothing wraps. */
  lemma AccStepLow(x: nat, g: nat, k: nat)
    requires k < 4 && x < Pow128(k) && g < 128
    ensures BitOr(x, Shl32(g, 7 * k)) == (x + g * Pow128(k)) % Two32
  {
    ShlLow(g, k);
    LowGroupFits(g, k);
    Pow128IsPow2(k);
    BitOrDisjoint(x, g, 7 * k);
  }

  lemma Pow2At28()
    ensures Pow2(28) == 0x1000_0000
  {
    Pow128IsPow2(4);
    assert Pow128(4) == 0x1000_0000;
  }

  /** The fifth group shifted by 28 keeps its low four bits. */
  lemma ShlTop(g: nat)
    requires g < 128
    ensures Shl32(g, 28) == (g % 16) * 0x1000_0000
  {
    var p := Pow2(28);
    Pow2At28();
    assert Shl32(g, 28) == (g * p) % Two32;
    WrapTopGroup(0, g);
  }

  /** The fifth step: the group is shifted by 28 and only its low four bits remain. */
  lemma AccStepTop(x: nat, g: nat)
    requires x < 0x1000_0000 && g < 128
    ensures BitOr(x, Shl32(g, 28)) == (x + g * 0x1000_0000) % Two32
  {
    ShlTop(g);
    Pow2At28();
    BitOrDisjoint(x, g % 16, 28);
    WrapTopGroup(x, g);
  }

  /** Up to five prefix bytes, the 32-bit accumulator is the arithmetic value modulo 2^32. */
  lemma {:induction false} Acc32IsLebSum(s: seq<byte>)
    requires |s| <= 5
    ensures Acc32(s) == LebSum(s) % Two32
    decreases |s|
  {
    if s != [] {
      Acc32IsLebSum(s[..|s| - 1]);
      AccStep(s);
    }
  }

  /** One step of the accumulator agrees with one step of the arithmetic value, given the shorter prefix does. */
  lemma AccStep(s: seq<byte>)
    requires 1 <= |s| <= 5
    requires Acc32(s[..|s| - 1]) == LebSum(s[..|s| - 1]) % Two32
    ensures Acc32(s) == LebSum(s) % Two32
  {
    var k := |s| - 1;
    var init := s[..k];
    var g := Low7(s[k]);
    ShortPrefixBound(init);
    var x := LebSum(init);
    assert Acc32(s) == BitOr(x, Shl32(g, 7 * k));
    assert LebSum(s) == x + g * Pow128(k);
    if k < 4 {
      AccStepLow(x, g, k);
    } else {
      assert Pow128(k) == 0x1000_0000;
      AccStepTop(x, g);
    }
  }

  /** Four groups or fewer stay below 2^28, so taking them modulo 2^32 changes nothing. */
  lemma ShortPrefixBound(s: seq<byte>)
    requires |s| <= 4
    ensures LebSum(s) < Pow128(|s|) && Pow128(|s|) <= 0x1000_0000
    ensures LebSum(s) % Two32 == LebSum(s)
  {
    LebSumBound(s);
    PowMonotone(|s|, 4);
    assert Pow128(4) == 0x1000_0000;
  }

  lemma Pow2Is32()
    ensures Pow2(32) == Two32
  {
    Pow128IsPow2(4);
    assert Pow128(4) == 0x1000_0000;
    Pow2Add(28, 4);
    assert Pow2(4) == 16;
  }

  /** The accumulator is always a 32-bit pattern. */
  lemma {:induction false} Acc32Bound(s: seq<byte>)
    ensures Acc32(s) < Two32
    decreases |s|
  {
    if s != [] {
      Acc32Bound(s[..|s| - 1]);
      Pow2Is32();
      BitOrBound(Acc32(s[..|s| - 1]), Shl32(Low7(s[|s| - 1]), 7 * (|s| - 1)), 32);
    }
  }

  /** Prepending a byte shifts the value of the rest up by one group. */
  lemma {:induction false} LebSumCons(b: byte, t: seq<byte>)
    ensures LebSum([b] + t) == Low7(b) + 128 * LebSum(t)
    decreases |t|
  {
    if t != [] {
      LebSumCons(b, t[..|t| - 1]);
      LebSumConsStep(b, t);
    }
  }

  lemma MulShift(c: nat, p: nat)
    ensures c * (128 * p) == 128 * (c * p)
  {
  }

  /** The inductive step of `LebSumCons`: the new last group is worth 128 times more after the shift. */
  lemma LebSumConsStep(b: byte, t: seq<byte>)
    requires t != []
    requires LebSum([b] + t[..|t| - 1]) == Low7(b) + 128 * LebSum(t[..|t| - 1])
    ensures LebSum([b] + t) == Low7(b) + 128 * LebSum(t)
  {
    var m := |t|;
    var init := t[..m - 1];
    var c := Low7(t[m - 1]);
    var p := Pow128(m - 1);
    var top := c * Pow128(m);
    var q := c * p;
    assert ([b] + t)[..m] == [b] + init;
    assert ([b] + t)[m] == t[m - 1];
    assert top == 128 * q by {
      assert Pow128(m) == 128 * p;
      MulShift(c, p);
    }
    ShiftSum(LebSum([b] + t), LebSum([b] + init), LebSum(init), LebSum(t), top, q, Low7(b));
  }

  /** The linear bookkeeping of `LebSumConsStep`. */
  lemma ShiftSum(whole: int, front: int, rest: int, tail: int, top: int, q: int, low: int)
    requires whole == front + top && front == low + 128 * rest && tail == rest + q && top == 128 * q
    ensures whole == low + 128 * tail
  {
  }

  /** The encoder's bytes carry exactly `n`. */
  lemma {:induction false} EncodeValue(n: nat)
    ensures LebSum(Encode(n)) == n
    decreases n
  {
    if n < 128 {
      assert LebSum([n as byte]) == LebSum([]) + Low7(n as byte) * Pow128(0);
    } else {
      var q, b := n / 128, (n % 128 + 128) as byte;
      var t := Encode(q);
      assert Encode(n) == [b] + t;
      EncodeValue(q);
      LebSumCons(b, t);
      EncodeDigit(n);
    }
  }

  /** The encoder's first byte carries `n % 128`, and the rest of the encoding carries `n / 128`. */
  lemma EncodeDigit(n: nat)
    requires n >= 128
    ensures Low7((n % 128 + 128) as byte) == n % 128 && n == n % 128 + 128 * (n / 128)
  {
  }

  /** Only the encoder's last byte lacks the continuation bit, whatever follows it. */
  lemma {:induction false} EncodeFinal(n: nat, rest: seq<byte>)
    ensures FirstFinal(Encode(n) + rest) == |Encode(n)| - 1
    decreases n
  {
    if n >= 128 {
      EncodeFinal(n / 128, rest);
      assert (Encode(n) + rest)[1..] == Encode(n / 128) + rest;
    }
  }

  /** A value below 128^k needs at most k bytes, and no value needs more bytes than itself (or one). */
  lemma {:induction false} EncodeLength(n: nat, k: nat)
    requires 1 <= k && n < Pow128(k)
    ensures |Encode(n)| <= k
    ensures |Encode(n)| <= if n == 0 then 1 else n
    decreases n
  {
    if n >= 128 {
      assert k > 1;
      EncodeLength(n / 128, k - 1);
    }
  }

  /** A size below 2^31, the range of a non-negative `int`, takes at most five prefix bytes. */
  lemma EncodeFitsFive(n: nat)
    requires n < 0x8000_0000
    ensures |Encode(n)| <= 5
  {
    assert Pow128(4) == 0x1000_0000;
    assert Pow128(5) == 128 * Pow128(4);
    EncodeLength(n, 5);
  }
}
