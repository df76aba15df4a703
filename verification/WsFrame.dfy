/** The WebSocket frame codec (RFC 6455, section 5.2): header layout, payload length forms and masking. */
module WsFrame {
  import opened Bytes
  import opened Hex

  datatype Opcode = Continuation | Text | Binary | Close | Ping | Pong

  type Key = k: bytes | |k| == 4 witness [0, 0, 0, 0]

  datatype Header = Header(fin: bool, op: Opcode, mask: Option<Key>, len: nat)
  datatype AnyFrame = Frame(fin: bool, op: Opcode, payload: bytes)
  type Frame = f: AnyFrame | |f.payload| < USIZE witness AnyFrame.Frame(true, Text, [])
  datatype HeaderRead = Incomplete | BadHeader | Whole(header: Header, size: nat)

  function OpcodeByte(op: Opcode): byte {
    match op
    case Continuation => 0
    case Text => 1
    case Binary => 2
    case Close => 8
    case Ping => 9
    case Pong => 10
  }

  function ByteOpcode(b: byte): Option<Opcode> {
    if b == 0 then Some(Continuation)
    else if b == 1 then Some(Text)
    else if b == 2 then Some(Binary)
    else if b == 8 then Some(Close)
    else if b == 9 then Some(Ping)
    else if b == 10 then Some(Pong)
    else None
  }

  /** Big-endian representation in `k` bytes, and its value. */
  function BigEndian(n: nat, k: nat): (s: bytes)
    ensures |s| == k
  {
    if k == 0 then [] else BigEndian(n / 256, k - 1) + [(n % 256) as byte]
  }

  function Value(s: bytes): nat {
    if s == [] then 0 else 256 * Value(s[..|s| - 1]) + s[|s| - 1] as nat
  }

  function Pow256(k: nat): nat {
    if k == 0 then 1 else 256 * Pow256(k - 1)
  }

  lemma {:induction false} ValueOfBigEndian(n: nat, k: nat)
    requires n < Pow256(k)
    ensures Value(BigEndian(n, k)) == n
  {
    if k > 0 {
      ValueOfBigEndian(n / 256, k - 1);
      assert BigEndian(n, k)[..k - 1] == BigEndian(n / 256, k - 1);
    }
  }

  lemma Pow256At2And8()
    ensures Pow256(2) == 65536 && Pow256(8) == USIZE
  {
    assert Pow256(2) == 65536;
    assert Pow256(4) == 0x1_0000_0000;
    assert Pow256(6) == 0x1_0000_0000_0000;
  }

  // ---- Header ----

  /** The 7-bit length field and the extended length behind it. */
  function LengthField(len: nat): (byte, bytes)
    requires len < USIZE
  {
    if len < 126 then (len as byte, [])
    else if len < 65536 then (126, BigEndian(len, 2))
    else (127, BigEndian(len, 8))
  }

  function MaskBytes(mask: Option<Key>): bytes {
    if mask.Some? then mask.value else []
  }

  function EncodeHeader(h: Header): (s: bytes)
    requires h.len < USIZE
    ensures |s| == 2 + |LengthField(h.len).1| + |MaskBytes(h.mask)|
  {
    var (field, extended) := LengthField(h.len);
    [OpcodeByte(h.op) + (if h.fin then 128 else 0), field + (if h.mask.Some? then 128 else 0)]
    + extended + MaskBytes(h.mask)
  }

  /** The weights of two and of eight bytes, most significant first. */
  lemma TwoBytes(s: bytes)
    requires |s| == 2
    ensures Value(s) == 0x100 * s[0] as nat + s[1] as nat
  {
    assert s[..1][..0] == [] && s[..2][..1] == s[..1] && s[..2] == s;
    assert Value(s[..1]) == s[0] as nat;
  }

  lemma FourMore(s: bytes, k: nat)
    requires k + 4 <= |s|
    ensures Value(s[..k + 4]) == 0x1_0000_0000 * Value(s[..k]) + 0x100_0000 * s[k] as nat + 0x1_0000 * s[k + 1] as nat
                                 + 0x100 * s[k + 2] as nat + s[k + 3] as nat
  {
    assert s[..k + 1][..k] == s[..k] && s[..k + 2][..k + 1] == s[..k + 1];
    assert s[..k + 3][..k + 2] == s[..k + 2] && s[..k + 4][..k + 3] == s[..k + 3];
    assert Value(s[..k + 1]) == 256 * Value(s[..k]) + s[k] as nat;
    assert Value(s[..k + 2]) == 256 * Value(s[..k + 1]) + s[k + 1] as nat;
    assert Value(s[..k + 3]) == 256 * Value(s[..k + 2]) + s[k + 2] as nat;
  }

  lemma EightBytes(s: bytes)
    requires |s| == 8
    ensures Value(s) ==
      0x1_0000_0000 * (0x100_0000 * s[0] as nat + 0x1_0000 * s[1] as nat + 0x100 * s[2] as nat + s[3] as nat)
      + 0x100_0000 * s[4] as nat + 0x1_0000 * s[5] as nat + 0x100 * s[6] as nat + s[7] as nat
  {
    FourMore(s, 0);
    FourMore(s, 4);
    assert s[..0] == [] && s[..8] == s;
  }

  /** FIN and opcode make the first byte, MASK and the length field the second (RFC 6455, section 5.2). */
  lemma HeaderBytes(h: Header)
    requires h.len < USIZE
    ensures var s := EncodeHeader(h);
      && s[0] as nat == (if h.fin then 0x80 else 0) + OpcodeNumber(h.op)
      && s[1] as nat == (if h.mask.Some? then 0x80 else 0)
                        + (if h.len < 126 then h.len else if h.len < 0x1_0000 then 126 else 127)
      && (126 <= h.len < 0x1_0000 ==> h.len == 0x100 * s[2] as nat + s[3] as nat)
      && (h.len >= 0x1_0000 ==>
            h.len ==
              0x1_0000_0000 * (0x100_0000 * s[2] as nat + 0x1_0000 * s[3] as nat + 0x100 * s[4] as nat + s[5] as nat)
              + 0x100_0000 * s[6] as nat + 0x1_0000 * s[7] as nat + 0x100 * s[8] as nat + s[9] as nat)
      && (h.mask.Some? ==> s[|s| - 4..] == h.mask.value)
  {
    hide BigEndian, Pow256, Value;
    var (field, extended) := LengthField(h.len);
    Pow256At2And8();
    if 126 <= h.len < 0x1_0000 {
      ValueOfBigEndian(h.len, 2);
      TwoBytes(extended);
    } else if h.len >= 0x1_0000 {
      ValueOfBigEndian(h.len, 8);
      EightBytes(extended);
    }
  }

  /** The opcodes of RFC 6455, section 5.2. */
  function OpcodeNumber(op: Opcode): nat {
    match op
    case Continuation => 0x0
    case Text => 0x1
    case Binary => 0x2
    case Close => 0x8
    case Ping => 0x9
    case Pong => 0xA
  }

  /** How many extended length bytes the 7-bit field announces. */
  function ExtendedSize(field: byte): nat {
    if field == 126 then 2 else if field == 127 then 8 else 0
  }

  /** Reads a header from the front of `s`; reserved bits are ignored. */
  function DecodeHeader(s: bytes): (r: HeaderRead)
    ensures r.Whole? ==> 2 <= r.size <= |s| && r.header.len < USIZE
  {
    if |s| < 2 then Incomplete
    else
      var op := ByteOpcode(s[0] % 16);
      var masked := s[1] >= 128;
      var field := s[1] % 128;
      var ext := ExtendedSize(field);
      var size := 2 + ext + (if masked then 4 else 0);
      if op.None? then BadHeader
      else if |s| < size then Incomplete
      else
        var len := if ext == 0 then field as nat else Value(s[2..2 + ext]);
        ValueBound(s[2..2 + ext]);
        Pow256At2And8();
        Whole(Header(s[0] >= 128, op.value, if masked then Some(s[2 + ext..size]) else None, len), size)
  }

  lemma {:induction false} ValueBound(s: bytes)
    ensures Value(s) < Pow256(|s|)
  {
    if s != [] {
      ValueBound(s[..|s| - 1]);
    }
  }

  /** Decoding a header in front of anything gives it back with its exact size. */
  lemma HeaderRoundTrip(h: Header, rest: bytes)
    requires h.len < USIZE
    ensures DecodeHeader(EncodeHeader(h) + rest) == Whole(h, |EncodeHeader(h)|)
  {
    hide BigEndian, Value, Pow256;
    var (field, extended) := LengthField(h.len);
    var s := EncodeHeader(h) + rest;
    assert s[0] % 16 == OpcodeByte(h.op) && (s[0] >= 128 <==> h.fin);
    assert s[1] % 128 == field && (s[1] >= 128 <==> h.mask.Some?);
    assert |extended| == ExtendedSize(field);
    var ext := |extended|;
    assert s[2..2 + ext] == extended;
    Pow256At2And8();
    if ext > 0 {
      ValueOfBigEndian(h.len, ext);
    }
    if h.mask.Some? {
      assert s[2 + ext..2 + ext + 4] == h.mask.value;
    }
  }

  /** A header is decided by exactly its own bytes: fewer are incomplete, more change nothing. */
  lemma HeaderExact(s: bytes, more: bytes)
    requires DecodeHeader(s).Whole?
    ensures DecodeHeader(s + more) == DecodeHeader(s)
    ensures forall k :: 0 <= k < DecodeHeader(s).size ==> DecodeHeader(s[..k]) == Incomplete
    ensures DecodeHeader(s[..DecodeHeader(s).size]) == DecodeHeader(s)
  {
    var size := DecodeHeader(s).size;
    var ext := ExtendedSize(s[1] % 128);
    SameSlices(s, more, size, 2, 2 + ext);
    SameSlices(s, more, size, 2 + ext, size);
  }

  lemma SameSlices(s: bytes, more: bytes, size: nat, a: nat, b: nat)
    requires a <= b <= size <= |s|
    ensures (s + more)[a..b] == s[a..b] && s[..size][a..b] == s[a..b]
  {
  }

  /** A header is refused exactly for the opcodes that RFC 6455 section 5.2 reserves. */
  lemma RefusedIff(s: bytes)
    ensures DecodeHeader(s) == BadHeader <==> |s| >= 2 && (3 <= s[0] % 16 <= 7 || 11 <= s[0] % 16)
  {
  }

  /** Any 16-bit length is read, also one that would have fitted seven bits. */
  lemma MediumLengthRead(s: bytes, op: Opcode)
    requires |s| >= 4 && s[1] % 128 == 126 && (s[1] == 254 ==> |s| >= 8) && s[0] as nat % 16 == OpcodeNumber(op)
    ensures var masked := s[1] == 254;
      DecodeHeader(s) == Whole(
        Header(s[0] >= 128, op, if masked then Some(s[4..8]) else None, 256 * s[2] as nat + s[3] as nat),
        if masked then 8 else 4)
  {
    var field := s[2..4];
    assert field[..1][..0] == [] && field[..1] == [s[2]];
    assert Value(field[..1]) == s[2] as nat;
    assert Value(field) == 256 * s[2] as nat + s[3] as nat;
  }

  lemma IncompletePrefix(s: bytes, k: nat)
    requires DecodeHeader(s) == Incomplete && k <= |s|
    ensures DecodeHeader(s[..k]) == Incomplete
  {
  }

  // ---- Masking ----

  /** Bitwise exclusive or on `bits` low bits. */
  function BitXor(a: nat, b: nat, bits: nat): (r: nat)
    ensures r < Pow2(bits)
  {
    if bits == 0 then 0 else 2 * BitXor(a / 2, b / 2, bits - 1) + (a + b) % 2
  }

  /** Bit by bit the sum modulo 2. */
  lemma {:induction false} XorBits(a: nat, b: nat, bits: nat, i: nat)
    requires i < bits
    ensures Bit(BitXor(a, b, bits), i) == (Bit(a, i) + Bit(b, i)) % 2
  {
    if i > 0 {
      XorBits(a / 2, b / 2, bits - 1, i - 1);
    }
  }

  lemma {:induction false} XorZeroAndSelf(a: nat, bits: nat)
    requires a < Pow2(bits)
    ensures BitXor(0, a, bits) == a && BitXor(a, a, bits) == 0
  {
    if bits > 0 {
      XorZeroAndSelf(a / 2, bits - 1);
    }
  }

  function Xor(a: byte, b: byte): byte {
    assert Pow2(8) == 256 by { assert Pow2(4) == 16; }
    BitXor(a as nat, b as nat, 8) as byte
  }

  lemma {:induction false} BitXorTwice(a: nat, b: nat, bits: nat)
    requires a < Pow2(bits)
    ensures BitXor(BitXor(a, b, bits), b, bits) == a
  {
    hide Pow2;
    if bits == 0 {
      assert Pow2(0) == 1 by { OnePattern(); }
    } else {
      assert a / 2 < Pow2(bits - 1) by { HalfFits(a, bits); }
      BitXorTwice(a / 2, b / 2, bits - 1);
      var half := BitXor(a / 2, b / 2, bits - 1);
      LowBit(a, b, half);
    }
  }

  lemma OnePattern()
    ensures Pow2(0) == 1
  {
  }

  lemma HalfFits(a: nat, bits: nat)
    requires bits > 0 && a < Pow2(bits)
    ensures a / 2 < Pow2(bits - 1)
  {
  }

  lemma LowBit(a: nat, b: nat, half: nat)
    ensures var x := 2 * half + (a + b) % 2; x / 2 == half && (x + b) % 2 == a % 2
    ensures 2 * (a / 2) + a % 2 == a
  {
  }

  lemma XorTwice(a: byte, b: byte)
    ensures Xor(Xor(a, b), b) == a
  {
    assert Pow2(8) == 256 by { assert Pow2(4) == 16; }
    BitXorTwice(a as nat, b as nat, 8);
  }

  /** Payload bytes number `pos`, `pos + 1`, … under the mask. */
  function ApplyMask(mask: Option<Key>, pos: nat, data: bytes): (r: bytes)
    ensures |r| == |data|
    ensures mask.None? ==> r == data
  {
    if mask.None? then data
    else seq(|data|, i requires 0 <= i < |data| => Xor(data[i], mask.value[(pos + i) % 4]))
  }

  lemma UnmaskMasked(mask: Option<Key>, pos: nat, data: bytes)
    ensures ApplyMask(mask, pos, ApplyMask(mask, pos, data)) == data
  {
    if mask.Some? {
      forall i | 0 <= i < |data|
        ensures ApplyMask(mask, pos, ApplyMask(mask, pos, data))[i] == data[i]
      {
        XorTwice(data[i], mask.value[(pos + i) % 4]);
      }
    }
  }

  /** The key starts at the first payload byte: masking zeros gives the key, masking the key gives zeros. */
  lemma MaskStartsWithKey(key: Key)
    ensures ApplyMask(Some(key), 0, [0, 0, 0, 0]) == key
    ensures ApplyMask(Some(key), 0, key) == [0, 0, 0, 0]
  {
    hide Xor;
    forall i | 0 <= i < 4
      ensures Xor(0, key[i]) == key[i] && Xor(key[i], key[i]) == 0
    {
      XorByte(key[i]);
    }
  }

  lemma XorByte(b: byte)
    ensures Xor(0, b) == b && Xor(b, b) == 0
  {
    XorZeroAndSelf(b as nat, 8);
  }

  lemma SamePosition(pos: nat, i: nat)
    ensures (pos + i) % 4 == (pos % 4 + i) % 4
  {
  }

  lemma MaskedByte(key: Key, pos: nat, data: bytes, i: nat)
    requires i < |data|
    ensures ApplyMask(Some(key), pos, data)[i] == Xor(data[i], key[(pos + i) % 4])
  {
    hide Xor;
  }

  /** The key repeats every four bytes. */
  lemma MaskRepeats(mask: Option<Key>, pos: nat, data: bytes)
    ensures ApplyMask(mask, pos, data) == ApplyMask(mask, pos % 4, data)
  {
    hide Xor, ApplyMask;
    if mask.Some? {
      var l, r := ApplyMask(mask, pos, data), ApplyMask(mask, pos % 4, data);
      forall i | 0 <= i < |data|
        ensures l[i] == r[i]
      {
        MaskedByte(mask.value, pos, data, i);
        MaskedByte(mask.value, pos % 4, data, i);
        SamePosition(pos, i);
      }
    }
  }

  lemma MaskSplits(mask: Option<Key>, pos: nat, a: bytes, b: bytes)
    ensures ApplyMask(mask, pos, a + b) == ApplyMask(mask, pos, a) + ApplyMask(mask, pos + |a|, b)
  {
    if mask.Some? {
      var l, r := ApplyMask(mask, pos, a + b), ApplyMask(mask, pos, a) + ApplyMask(mask, pos + |a|, b);
      hide Xor;
      forall i | 0 <= i < |a| + |b|
        ensures l[i] == r[i]
      {
        if i < |a| {
          assert (a + b)[i] == a[i];
        } else {
          assert (a + b)[i] == b[i - |a|];
          assert (pos + |a|) + (i - |a|) == pos + i;
        }
      }
    }
  }

  /** The masked "Hello" of RFC 6455, section 5.7, and the text inside. */
  const HELLO_FRAME: bytes := [0x81, 0x85, 0x37, 0xfa, 0x21, 0x3d, 0x7f, 0x9f, 0x4d, 0x51, 0x58]
  const HELLO: bytes := [0x48, 0x65, 0x6c, 0x6c, 0x6f]
  const HELLO_KEY: Key := [0x37, 0xfa, 0x21, 0x3d]

  lemma HelloFrame()
    ensures DecodeHeader(HELLO_FRAME) == Whole(Header(true, Text, Some(HELLO_KEY), 5), 6)
    ensures ApplyMask(Some(HELLO_KEY), 0, HELLO_FRAME[6..]) == HELLO
    ensures EncodeFrame(AnyFrame.Frame(true, Text, HELLO), Some(HELLO_KEY)) == HELLO_FRAME
  {
    HelloXor();
    hide Xor;
    assert HELLO_FRAME[6..] == [0x7f, 0x9f, 0x4d, 0x51, 0x58];
    assert HELLO_FRAME[2..6] == HELLO_KEY;
    var h := Header(true, Text, Some(HELLO_KEY), 5);
    assert ApplyMask(Some(HELLO_KEY), 0, HELLO_FRAME[6..]) == HELLO;
    UnmaskMasked(Some(HELLO_KEY), 0, HELLO_FRAME[6..]);
    assert EncodeHeader(h) == HELLO_FRAME[..6];
  }

  lemma HelloXor()
    ensures Xor(0x7f, 0x37) == 0x48 && Xor(0x9f, 0xfa) == 0x65 && Xor(0x4d, 0x21) == 0x6c && Xor(0x51, 0x3d) == 0x6c
    ensures Xor(0x58, 0x37) == 0x6f
  {
    hide Pow2;
    HelloByte(0x7f, 0x37, 0x48);
    HelloByte(0x9f, 0xfa, 0x65);
    HelloByte(0x4d, 0x21, 0x6c);
    HelloByte(0x51, 0x3d, 0x6c);
    HelloByte(0x58, 0x37, 0x6f);
  }

  /** Three numbers whose bits are the sums modulo 2 of each other's, down to the lowest eight. */
  predicate XorOf(a: nat, b: nat, r: nat, bits: nat) {
    bits == 0 || ((a + b) % 2 == r % 2 && XorOf(a / 2, b / 2, r / 2, bits - 1))
  }

  lemma {:induction false} XorOfIs(a: nat, b: nat, r: nat, bits: nat)
    requires XorOf(a, b, r, bits) && r < Pow2(bits)
    ensures BitXor(a, b, bits) == r
  {
    if bits > 0 {
      XorOfIs(a / 2, b / 2, r / 2, bits - 1);
    }
  }

  lemma HelloByte(a: byte, b: byte, r: byte)
    requires XorOf(a as nat, b as nat, r as nat, 8)
    ensures Xor(a, b) == r
  {
    XorOfIs(a as nat, b as nat, r as nat, 8);
  }

  function EncodeFrame(f: Frame, mask: Option<Key>): bytes {
    EncodeHeader(Header(f.fin, f.op, mask, |f.payload|)) + ApplyMask(mask, 0, f.payload)
  }
}
