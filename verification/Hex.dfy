/** Chunk sizes: the shift/or hexadecimal parser against the base-16 value. */
module Hex {
  import opened Bytes

  datatype HexResult = Value(n: nat) | TooLong | InvalidByte

  predicate IsHexDigit(b: byte) {
    48 <= b <= 57 || 97 <= b <= 102 || 65 <= b <= 70
  }

  function HexDigit(b: byte): (d: nat)
    requires IsHexDigit(b)
    ensures d < 16
  {
    if b <= 57 then (b - 48) as nat
    else if 97 <= b then (b - 97 + 10) as nat
    else (b - 65 + 10) as nat
  }

  /** Digits and letters stand for consecutive values. */
  lemma DigitValues(b: byte)
    ensures 48 <= b <= 57 ==> IsHexDigit(b) && HexDigit(b) == b as nat - 48
    ensures 97 <= b <= 102 ==> IsHexDigit(b) && HexDigit(b) == 10 + (b as nat - 97)
    ensures 65 <= b <= 70 ==> IsHexDigit(b) && HexDigit(b) == 10 + (b as nat - 65)
    ensures IsHexDigit(b) ==> 48 <= b <= 57 || 97 <= b <= 102 || 65 <= b <= 70
  {
  }

  predicate AllHex(s: bytes) {
    forall i :: 0 <= i < |s| ==> IsHexDigit(s[i])
  }

  /** The base-16 value, most significant digit first. */
  function HexValue(s: bytes): nat
    requires AllHex(s)
  {
    if s == [] then 0 else 16 * HexValue(s[..|s| - 1]) + HexDigit(s[|s| - 1])
  }

  function Pow2(k: nat): (p: nat)
    ensures p > 0
  {
    if k == 0 then 1 else 2 * Pow2(k - 1)
  }

  lemma Pow2Digit(k: nat)
    ensures Pow2(k + 4) == 16 * Pow2(k)
  {
    assert Pow2(k + 1) == 2 * Pow2(k);
    assert Pow2(k + 2) == 2 * Pow2(k + 1);
    assert Pow2(k + 3) == 2 * Pow2(k + 2);
    assert Pow2(k + 4) == 2 * Pow2(k + 3);
  }

  /** Bitwise or, bit by bit from the low end. */
  function BitOr(a: nat, b: nat): nat {
    if a == 0 then b
    else if b == 0 then a
    else 2 * BitOr(a / 2, b / 2) + (if a % 2 == 1 || b % 2 == 1 then 1 else 0)
  }

  /** Bit number `i`, the lowest being number 0. */
  function Bit(n: nat, i: nat): nat {
    if i == 0 then n % 2 else Bit(n / 2, i - 1)
  }

  /** A bit of the result is set if and only if it is set in one of the two. */
  lemma {:induction false} OrBits(a: nat, b: nat, i: nat)
    ensures Bit(BitOr(a, b), i) == 1 <==> Bit(a, i) == 1 || Bit(b, i) == 1
    decreases i
  {
    if a == 0 || b == 0 {
      ZeroBits(i);
    } else if i > 0 {
      OrBits(a / 2, b / 2, i - 1);
    }
  }

  lemma {:induction false} ZeroBits(i: nat)
    ensures Bit(0, i) == 0
  {
    if i > 0 {
      ZeroBits(i - 1);
    }
  }

  function ShiftLeft(m: nat, k: nat): nat {
    if k == 0 then m else 2 * ShiftLeft(m, k - 1)
  }

  /** Or-ing a value into cleared low bits is addition. */
  lemma {:induction false} OrIntoClearedBits(m: nat, v: nat, k: nat)
    requires v < Pow2(k)
    ensures BitOr(ShiftLeft(m, k), v) == ShiftLeft(m, k) + v
  {
    if k > 0 {
      OrIntoClearedBits(m, v / 2, k - 1);
    }
  }

  lemma {:induction false} HexValueBound(s: bytes)
    requires AllHex(s)
    ensures HexValue(s) < Pow2(4 * |s|)
  {
    if s != [] {
      HexValueBound(s[..|s| - 1]);
      Pow2Digit(4 * (|s| - 1));
    }
  }

  lemma Pow2At60And64()
    ensures 16 * Pow2(60) == Pow2(64) == USIZE && Pow2(4) == 16
  {
    assert Pow2(8) == 256 && Pow2(4) == 16;
    assert Pow2(16) == 0x1_0000;
    assert Pow2(24) == 0x100_0000;
    assert Pow2(32) == 0x1_0000_0000;
    assert Pow2(40) == 0x100_0000_0000;
    assert Pow2(48) == 0x1_0000_0000_0000;
    assert Pow2(56) == 0x100_0000_0000_0000;
    assert Pow2(60) == 0x1000_0000_0000_0000;
  }

  /** What the parser answers, stated without its loop. */
  ghost function ParseHex(s: bytes): HexResult {
    var first := if |s| <= 16 then s else s[..16];
    if !AllHex(first) then InvalidByte
    else if |s| > 16 then TooLong
    else Value(HexValue(s))
  }

  /** One shift/or step appends one digit and loses no bit. */
  lemma ShiftOrStep(s: bytes)
    requires 0 < |s| <= 16 && AllHex(s)
    ensures var high := HexValue(s[..|s| - 1]);
      BitOr((high * 16) % USIZE, HexDigit(s[|s| - 1])) == HexValue(s)
  {
    hide BitOr, Pow2;
    var high := HexValue(s[..|s| - 1]);
    ShiftFits(s[..|s| - 1]);
    OrNibble(high, HexDigit(s[|s| - 1]));
  }

  lemma ShiftFits(s: bytes)
    requires |s| < 16 && AllHex(s)
    ensures (HexValue(s) * 16) % USIZE == HexValue(s) * 16
  {
    HexValueBound(s);
    Pow2Monotone(4 * |s|, 60);
    Pow2At60And64();
  }

  lemma OrNibble(high: nat, digit: nat)
    requires digit < 16
    ensures BitOr(high * 16, digit) == high * 16 + digit
  {
    assert ShiftLeft(high, 1) == 2 * high;
    assert ShiftLeft(high, 3) == 4 * ShiftLeft(high, 1);
    assert ShiftLeft(high, 4) == 16 * high;
    assert Pow2(4) == 16;
    OrIntoClearedBits(high, digit, 4);
  }

  lemma HexValueFits(s: bytes)
    requires |s| <= 16 && AllHex(s)
    ensures HexValue(s) < USIZE
  {
    HexValueBound(s);
    Pow2Monotone(4 * |s|, 64);
    Pow2At60And64();
  }

  method ParseHexUint(data: bytes) returns (r: HexResult)
    ensures r == ParseHex(data)
    ensures r.Value? ==> r.n < USIZE
  {
    hide Pow2, BitOr, HexValue;
    var n: nat := 0;
    assert n == HexValue(data[..0]) by { EmptyIsZero(data[..0]); }
    for i := 0 to |data|
      invariant i <= 16 && AllHex(data[..i]) && n == HexValue(data[..i])
    {
      if i == 16 {
        return TooLong;
      }
      var v := data[i];
      if !IsHexDigit(v) {
        assert data[i] == (if |data| <= 16 then data else data[..16])[i];
        return InvalidByte;
      }
      assert data[..i + 1][..i] == data[..i];
      ShiftOrStep(data[..i + 1]);
      n := (n * 16) % USIZE;         // n <<= 4
      n := BitOr(n, HexDigit(v));    // n |= vv
    }
    assert data[..|data|] == data;
    HexValueFits(data);
    r := Value(n);
  }

  lemma EmptyIsZero(s: bytes)
    requires s == []
    ensures HexValue(s) == 0
  {
  }

  lemma Pow2Monotone(a: nat, b: nat)
    requires a <= b
    ensures Pow2(a) <= Pow2(b)
  {
  }

  /** Lower-case printing with exactly `width` digits. */
  function ToHex(n: nat, width: nat): (s: bytes)
    ensures |s| == width
  {
    if width == 0 then []
    else ToHex(n / 16, width - 1) + [HexChar(n % 16)]
  }

  function HexChar(d: nat): (c: byte)
    requires d < 16
    ensures IsHexDigit(c) && HexDigit(c) == d
  {
    if d < 10 then (48 + d) as byte else (87 + d) as byte
  }

  /** Printing at any width from the minimal one to 16 digits, then parsing, is the identity. */
  lemma {:induction false} ParseInvertsPrint(n: nat, width: nat)
    requires width <= 16 && n < Pow2(4 * width)
    ensures ParseHex(ToHex(n, width)) == Value(n)
  {
    PrintedValue(n, width);
  }

  lemma {:induction false} PrintedValue(n: nat, width: nat)
    requires n < Pow2(4 * width)
    ensures AllHex(ToHex(n, width)) && HexValue(ToHex(n, width)) == n
  {
    if width == 0 {
    } else {
      assert n / 16 < Pow2(4 * (width - 1)) by { Pow2Digit(4 * (width - 1)); }
      hide Pow2;
      PrintedValue(n / 16, width - 1);
      AppendDigit(ToHex(n / 16, width - 1), HexChar(n % 16));
    }
  }

  lemma AppendDigit(s: bytes, c: byte)
    requires AllHex(s) && IsHexDigit(c)
    ensures AllHex(s + [c]) && HexValue(s + [c]) == 16 * HexValue(s) + HexDigit(c)
  {
    assert (s + [c])[..|s|] == s;
  }

  /** Letter case does not matter. */
  lemma {:induction false} CaseInsensitive(s: bytes, t: bytes)
    requires |s| == |t|
    requires forall i :: 0 <= i < |s| ==> s[i] == t[i] || (97 <= s[i] <= 102 && t[i] == s[i] - 32)
    ensures ParseHex(s) == ParseHex(t)
  {
    assert forall i :: 0 <= i < |s| ==> IsHexDigit(s[i]) == IsHexDigit(t[i]);
    assert forall k {:trigger s[..k]} {:trigger t[..k]} :: 0 <= k <= |s| ==> AllHex(s[..k]) == AllHex(t[..k]);
    if |s| <= 16 && AllHex(s) {
      SameValue(s, t);
    }
    assert s[..|s|] == s && t[..|t|] == t;
  }

  lemma {:induction false} SameValue(s: bytes, t: bytes)
    requires |s| == |t| && AllHex(s) && AllHex(t)
    requires forall i :: 0 <= i < |s| ==> HexDigit(s[i]) == HexDigit(t[i])
    ensures HexValue(s) == HexValue(t)
  {
    if s != [] {
      SameValue(s[..|s| - 1], t[..|t| - 1]);
    }
  }
}
