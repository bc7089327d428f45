/**
 * Byte-level vocabulary shared by every layer of the TDS model:
 * fixed-width integers, the error kinds the protocol library raises,
 * little- and big-endian integer encodings, UTF-16 strings and the
 * Login7 password obfuscation of section 2.2.6.4 of [MS-TDS].
 */
module Wire {

  type byte = x: int | 0 <= x < 0x100
  type u16 = x: int | 0 <= x < 0x1_0000
  type u32 = x: int | 0 <= x < 0x1_0000_0000
  type u64 = x: int | 0 <= x < 0x1_0000_0000_0000_0000
  type i16 = x: int | -0x8000 <= x < 0x8000
  type i32 = x: int | -0x8000_0000 <= x < 0x8000_0000
  type bytes = seq<byte>

  /** A .NET string as its sequence of UTF-16 code units. */
  type Utf16 = seq<u16>

  datatype Option<T> = None | Some(value: T)

  /** The exception kinds raised by the protocol library. */
  datatype Error =
    | EndOfStream                        // System.IO.EndOfStreamException
    | IndexOutOfRange                    // indexing past the end of a short buffer
    | InvalidPacket(packetData: bytes)   // TDSInvalidPacketException and the bytes it carries
    | SmpInvalidPacket(smpData: bytes)   // SMPInvalidPacketException
    | SslInvalidPacket(sslData: bytes)   // SSLInvalidPacketException
    | InvalidMessage                     // TDSInvalidMessageException
    | InvalidOperation                   // InvalidOperationException
    | Argument                           // ArgumentException and its subclasses
    | NotSupported                       // writing past the end of a fixed-size MemoryStream
    | Overflow                           // OverflowException: an array size that is negative as an int
    | TokenInvalid(tokenNumber: nat, tokenOffset: nat)  // token stream: invalid token, with its position
    | TokenFault(tokenNumber: nat, tokenOffset: nat)    // token stream: any other failure, with its position

  datatype Result<T> = Ok(value: T) | Err(error: Error)
  {
    predicate IsFailure() { Err? }
    function PropagateFailure<U>(): Result<U> requires Err? { Err(error) }
    function Extract(): T requires Ok? { value }
  }

  function Min(a: int, b: int): int { if a <= b then a else b }

  /**
   * x reduced below n, as an unsigned cast to a narrower integer reduces
   * it. It is written by repeated subtraction so that reasoning about
   * values that already fit stays linear; WrapIsMod says it is x % n.
   */
  function Wrap(x: nat, n: nat): (r: nat)
    requires n > 0
    ensures r < n
    decreases x
  {
    if x < n then x else Wrap(x - n, n)
  }

  /** For the two widths the protocol casts to, Wrap is the remainder. */
  lemma {:induction false} WrapIsMod(x: nat, n: nat)
    requires n == 0x1_0000 || n == 0x1_0000_0000
    ensures Wrap(x, n) == x % n
    decreases x
  {
    if x >= n {
      WrapIsMod(x - n, n);
    }
  }

  function Max(a: int, b: int): int { if a >= b then a else b }

  function Pow256(n: nat): (r: nat)
    ensures r >= 1
  {
    if n == 0 then 1 else 256 * Pow256(n - 1)
  }

  // ---------------------------------------------------------------------
  // Little-endian (BinaryWriter / BinaryReader native order)
  // ---------------------------------------------------------------------

  /** The n-byte little-endian representation of x. */
  function LE(x: nat, n: nat): (r: bytes)
    requires x < Pow256(n)
    ensures |r| == n
  {
    if n == 0 then [] else [x % 256] + LE(x / 256, n - 1)
  }

  /** The value of a little-endian byte sequence. */
  function LEValue(s: bytes): (r: nat)
    ensures r < Pow256(|s|)
  {
    if |s| == 0 then 0 else s[0] + 256 * LEValue(s[1..])
  }

  lemma {:induction false} LEValueOfLE(x: nat, n: nat)
    requires x < Pow256(n)
    ensures LEValue(LE(x, n)) == x
  {
    if n > 0 {
      LEValueOfLE(x / 256, n - 1);
      assert LE(x, n)[1..] == LE(x / 256, n - 1);
    }
  }

  lemma {:induction false} LEOfLEValue(s: bytes)
    ensures LE(LEValue(s), |s|) == s
  {
    if |s| > 0 {
      LEOfLEValue(s[1..]);
      assert LEValue(s) % 256 == s[0];
      assert LEValue(s) / 256 == LEValue(s[1..]);
    }
  }

  lemma LEValue2(b: bytes)
    requires |b| == 2
    ensures LEValue(b) == b[0] as int + 0x100 * b[1] as int
  {
    assert b[1..][1..] == [];
  }

  lemma LEValue4(b: bytes)
    requires |b| == 4
    ensures LEValue(b) == b[0] as int + 0x100 * (b[1] as int + 0x100 * (b[2] as int + 0x100 * b[3] as int))
  {
    LEValue2(b[2..]);
    assert b[1..][1..] == b[2..];
  }

  /** Two little-endian encodings are equal only for equal values. */
  lemma LEInjective(x: nat, y: nat, n: nat)
    requires x < Pow256(n) && y < Pow256(n)
    requires LE(x, n) == LE(y, n)
    ensures x == y
  {
    LEValueOfLE(x, n);
    LEValueOfLE(y, n);
  }

  // ---------------------------------------------------------------------
  // Big-endian (network order)
  // ---------------------------------------------------------------------

  /** The n-byte big-endian representation of x: most significant byte first. */
  function BE(x: nat, n: nat): (r: bytes)
    requires x < Pow256(n)
    ensures |r| == n
  {
    if n == 0 then [] else BE(x / 256, n - 1) + [x % 256]
  }

  function BEValue(s: bytes): (r: nat)
    ensures r < Pow256(|s|)
  {
    if |s| == 0 then 0 else 256 * BEValue(s[..|s| - 1]) + s[|s| - 1]
  }

  lemma {:induction false} BEValueOfBE(x: nat, n: nat)
    requires x < Pow256(n)
    ensures BEValue(BE(x, n)) == x
  {
    if n > 0 {
      BEValueOfBE(x / 256, n - 1);
      assert BE(x, n)[..n - 1] == BE(x / 256, n - 1);
    }
  }

  lemma {:induction false} BEOfBEValue(s: bytes)
    ensures BE(BEValue(s), |s|) == s
  {
    if |s| > 0 {
      BEOfBEValue(s[..|s| - 1]);
      assert BEValue(s) % 256 == s[|s| - 1];
      assert BEValue(s) / 256 == BEValue(s[..|s| - 1]);
    }
  }

  lemma BEValue2(b: bytes)
    requires |b| == 2
    ensures BEValue(b) == b[0] as int * 0x100 + b[1]
  {
    assert b[..1][..0] == [];
  }

  lemma BEValue4(b: bytes)
    requires |b| == 4
    ensures BEValue(b) == ((b[0] as int * 0x100 + b[1]) * 0x100 + b[2]) * 0x100 + b[3]
  {
    BEValue2(b[..2]);
    assert b[..3][..2] == b[..2];
  }

  lemma BE4(v: nat)
    requires v < 0x1_0000_0000
    ensures BE(v, 4) == [v / 0x100_0000, (v / 0x1_0000) % 0x100, (v / 0x100) % 0x100, v % 0x100]
  {
    assert v / 0x100 / 0x100 == v / 0x1_0000;
    assert v / 0x1_0000 / 0x100 == v / 0x100_0000;
    assert v / 0x100_0000 / 0x100 == 0;
    assert BE(v / 0x100_0000, 1) == [v / 0x100_0000 % 0x100];
    assert BE(v / 0x1_0000, 2) == BE(v / 0x100_0000, 1) + [v / 0x1_0000 % 0x100];
    assert BE(v / 0x100, 3) == BE(v / 0x1_0000, 2) + [v / 0x100 % 0x100];
  }

  lemma ModAdd256(a: nat, b: nat)
    ensures (a % 256 + b) % 256 == (a + b) % 256
  {
  }

  /** All but the last element of a sequence: its head, then all but the last of its tail. */
  lemma InitOfCons<T>(s: seq<T>)
    requires |s| > 1
    ensures s[..|s| - 1] == [s[0]] + s[1..][..|s| - 2]
  {
    var a, b := s[..|s| - 1], [s[0]] + s[1..][..|s| - 2];
    assert forall x :: 0 <= x < |a| ==> a[x] == b[x];
  }

  /** Concatenation regrouped to the right. */
  lemma Assoc(a: bytes, b: bytes, c: bytes)
    ensures (a + b) + c == a + (b + c)
  {
  }

  /** A slice that lies in the second half of a concatenation. */
  lemma SliceOfAppend(a: bytes, b: bytes, i: nat, j: nat)
    requires |a| <= i <= j <= |a| + |b|
    ensures (a + b)[i..j] == b[i - |a|..j - |a|]
  {
    assert forall x :: 0 <= x < j - i ==> (a + b)[i..j][x] == b[i - |a|..j - |a|][x];
  }

  // ---------------------------------------------------------------------
  // Two's complement
  // ---------------------------------------------------------------------

  /** A 32-bit two's complement bit pattern as an unsigned number. */
  function U32OfI32(v: i32): u32 { if v < 0 then v + 0x1_0000_0000 else v }

  /** An unsigned 32-bit pattern reinterpreted as a signed number. */
  function I32OfU32(u: u32): i32 { if u >= 0x8000_0000 then u - 0x1_0000_0000 else u }

  function U16OfI16(v: i16): u16 { if v < 0 then v + 0x1_0000 else v }

  function I16OfU16(u: u16): i16 { if u >= 0x8000 then u - 0x1_0000 else u }

  // Fixed widths used throughout the model.
  function LE16(x: u16): (r: bytes) ensures |r| == 2 { LE(x, 2) }
  function LE32(x: u32): (r: bytes) ensures |r| == 4 { LE(x, 4) }
  function LE64(x: u64): (r: bytes) ensures |r| == 8 { LE(x, 8) }
  function LEI32(v: i32): (r: bytes) ensures |r| == 4 { LE(U32OfI32(v), 4) }
  function AsI32(s: bytes): i32 requires |s| == 4 { I32OfU32(LEValue(s)) }

  lemma LEI32RoundTrip(v: i32)
    ensures AsI32(LEI32(v)) == v
  {
    LEValueOfLE(U32OfI32(v), 4);
  }

  // ---------------------------------------------------------------------
  // UTF-16 strings
  // ---------------------------------------------------------------------

  /** The UTF-16LE bytes of a string: two bytes per code unit. */
  function UnicodeBytes(s: Utf16): (r: bytes)
    ensures |r| == 2 * |s|
  {
    if |s| == 0 then [] else LE(s[0], 2) + UnicodeBytes(s[1..])
  }

  /** The replacement character a decoder yields for a dangling odd byte. */
  const ReplacementChar: u16 := 0xFFFD

  /** Decodes UTF-16LE bytes into code units; an odd trailing byte is replaced. */
  function DecodeUnicode(b: bytes): (r: Utf16)
    ensures |r| == (|b| + 1) / 2
  {
    if |b| == 0 then []
    else if |b| == 1 then [ReplacementChar]
    else [LEValue(b[..2])] + DecodeUnicode(b[2..])
  }

  lemma {:induction false} UnicodeBytesAppend(s: Utf16, t: Utf16)
    ensures UnicodeBytes(s + t) == UnicodeBytes(s) + UnicodeBytes(t)
  {
    if |s| > 0 {
      assert (s + t)[1..] == s[1..] + t;
      UnicodeBytesAppend(s[1..], t);
    } else {
      assert s + t == t;
    }
  }

  lemma {:induction false} DecodeUnicodeBytes(s: Utf16)
    ensures DecodeUnicode(UnicodeBytes(s)) == s
  {
    if |s| > 0 {
      var b := UnicodeBytes(s);
      assert b[..2] == LE(s[0], 2);
      assert b[2..] == UnicodeBytes(s[1..]);
      LEValueOfLE(s[0], 2);
      DecodeUnicodeBytes(s[1..]);
    }
  }

  lemma {:induction false} UnicodeBytesDecode(b: bytes)
    requires |b| % 2 == 0
    ensures UnicodeBytes(DecodeUnicode(b)) == b
  {
    if |b| > 0 {
      UnicodeBytesDecode(b[2..]);
      LEOfLEValue(b[..2]);
      assert b == b[..2] + b[2..];
    }
  }

  // ---------------------------------------------------------------------
  // Login7 password obfuscation
  // ---------------------------------------------------------------------

  /** 2 to the power n. */
  function Pow2(n: nat): (r: nat)
    ensures r > 0
  {
    if n == 0 then 1 else 2 * Pow2(n - 1)
  }

  /** The exclusive or of the low width bits of a and k, bit by bit from the lowest. */
  function Xor(a: nat, k: nat, width: nat): (r: nat)
    ensures r < Pow2(width)
  {
    if width == 0 then 0 else (a % 2 + k % 2) % 2 + 2 * Xor(a / 2, k / 2, width - 1)
  }

  /** XOR with the same key undoes itself on values of the given width. */
  lemma {:induction false} XorXor(a: nat, k: nat, width: nat)
    requires a < Pow2(width)
    ensures Xor(Xor(a, k, width), k, width) == a
  {
    if width > 0 {
      var y := Xor(a / 2, k / 2, width - 1);
      var low := (a % 2 + k % 2) % 2;
      LowBit(low, y);
      assert (low + k % 2) % 2 == a % 2;
      assert a / 2 < Pow2(width - 1);
      XorXor(a / 2, k / 2, width - 1);
    }
  }

  /** A bit below twice a number: the bit is the remainder and the number the quotient. */
  lemma LowBit(low: nat, y: nat)
    requires low < 2
    ensures (low + 2 * y) % 2 == low && (low + 2 * y) / 2 == y
  {
  }

  /** (b >> 4) | (b << 4), cut to a byte: the two nibbles of b exchanged. */
  function SwapNibbles(b: byte): (r: byte)
  {
    (b % 16) * 16 + b / 16
  }

  lemma SwapSwap(b: byte)
    ensures SwapNibbles(SwapNibbles(b)) == b
  {
    var lo, hi := b % 16, b / 16;
    assert SwapNibbles(b) % 16 == hi && SwapNibbles(b) / 16 == lo;
  }

  /** The writer's map on a password byte: swap the nibbles, then XOR with 0xA5. */
  function ObfuscateByte(b: byte): byte
  {
    Xor(SwapNibbles(b), 0xA5, 8)
  }

  /** The reader's map on a password byte: XOR with 0xA5, then swap the nibbles. */
  function UnobfuscateByte(b: byte): byte
  {
    SwapNibbles(Xor(b, 0xA5, 8))
  }

  lemma UnobfuscateObfuscateByte(b: byte)
    ensures UnobfuscateByte(ObfuscateByte(b)) == b
  {
    assert Pow2(8) == 256;
    XorXor(SwapNibbles(b), 0xA5, 8);
    SwapSwap(b);
  }

  lemma ObfuscateUnobfuscateByte(b: byte)
    ensures ObfuscateByte(UnobfuscateByte(b)) == b
  {
    assert Pow2(8) == 256;
    SwapSwap(Xor(b, 0xA5, 8));
    XorXor(b, 0xA5, 8);
  }

  function Obfuscate(s: bytes): (r: bytes)
    ensures |r| == |s|
    ensures forall i :: 0 <= i < |s| ==> r[i] == ObfuscateByte(s[i])
  {
    seq(|s|, i requires 0 <= i < |s| => ObfuscateByte(s[i]))
  }

  function Unobfuscate(s: bytes): (r: bytes)
    ensures |r| == |s|
    ensures forall i :: 0 <= i < |s| ==> r[i] == UnobfuscateByte(s[i])
  {
    seq(|s|, i requires 0 <= i < |s| => UnobfuscateByte(s[i]))
  }

  /** Reading an obfuscated byte string restores the original bytes. */
  lemma UnobfuscateObfuscate(s: bytes)
    ensures Unobfuscate(Obfuscate(s)) == s
  {
    forall i | 0 <= i < |s| ensures Unobfuscate(Obfuscate(s))[i] == s[i] {
      UnobfuscateObfuscateByte(s[i]);
    }
  }

  lemma ObfuscateUnobfuscate(s: bytes)
    ensures Obfuscate(Unobfuscate(s)) == s
  {
    forall i | 0 <= i < |s| ensures Obfuscate(Unobfuscate(s))[i] == s[i] {
      ObfuscateUnobfuscateByte(s[i]);
    }
  }

  /** The bytes a password occupies on the wire. */
  function PasswordBytes(pw: Utf16): (r: bytes)
    ensures |r| == 2 * |pw|
  {
    Obfuscate(UnicodeBytes(pw))
  }

  lemma PasswordRoundTrip(pw: Utf16)
    ensures DecodeUnicode(Unobfuscate(PasswordBytes(pw))) == pw
  {
    UnobfuscateObfuscate(UnicodeBytes(pw));
    DecodeUnicodeBytes(pw);
  }

  // ---------------------------------------------------------------------
  // Reading from a byte buffer with a cursor (BinaryReader over a MemoryStream)
  // ---------------------------------------------------------------------

  /** n zero bytes: what a fresh array holds. */
  function Zeros(n: nat): (r: bytes)
    ensures |r| == n && forall i :: 0 <= i < n ==> r[i] == 0
  {
    seq(n, i => 0)
  }

  /** BinaryReader.ReadBytes: up to n bytes from pos; fewer at the end of the data. */
  function Take(data: bytes, pos: nat, n: nat): (r: bytes)
    ensures |r| <= n
    ensures pos + n <= |data| ==> r == data[pos..pos + n]
    ensures |r| == Max(0, Min(n, |data| - pos))
  {
    if pos >= |data| then [] else data[pos..Min(pos + n, |data|)]
  }
}
