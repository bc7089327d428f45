/**
 * The BinaryWriter and BinaryReader the codecs work through, with the
 * protocol library's extension methods on both: big-endian integers,
 * B_VARCHAR and US_VARCHAR strings and the obfuscated Login7 password.
 * A writer appends to a growable buffer; a reader is a cursor over an
 * immutable byte buffer (a MemoryStream), which may be positioned past
 * the end.
 */
module Io {
  import opened Wire
  import Streams

  // ---------------------------------------------------------------------
  // Wire formats of the extension methods, as values
  // ---------------------------------------------------------------------

  /** B_VARCHAR: a one-byte character count, then the UTF-16 bytes. */
  function BVarchar(s: Utf16): (r: bytes)
    requires |s| <= 0xFF
    ensures |r| == 1 + 2 * |s|
  {
    [|s|] + UnicodeBytes(s)
  }

  /** US_VARCHAR: a little-endian two-byte character count, then the UTF-16 bytes. */
  function UsVarchar(s: Utf16): (r: bytes)
    requires |s| <= 0xFFFF
    ensures |r| == 2 + 2 * |s|
  {
    LE16(|s|) + UnicodeBytes(s)
  }

  // ---------------------------------------------------------------------
  // Reading at a position, as values
  // ---------------------------------------------------------------------

  /** BinaryReader.ReadByte at pos. */
  function GetByte(data: bytes, pos: nat): (r: Result<byte>)
    ensures r.Ok? <==> pos < |data|
    ensures r.Err? ==> r.error == EndOfStream
  {
    if pos < |data| then Ok(data[pos]) else Err(EndOfStream)
  }

  /** A little-endian unsigned read of n bytes at pos; EndOfStream when fewer remain. */
  function GetLE(data: bytes, pos: nat, n: nat): (r: Result<nat>)
    ensures r.Ok? <==> pos + n <= |data|
    ensures r.Ok? ==> r.value < Pow256(n)
    ensures r.Err? ==> r.error == EndOfStream
  {
    if pos + n <= |data| then Ok(LEAt(data, pos, n)) else Err(EndOfStream)
  }

  /** The little-endian value of the n bytes at pos, read one byte at a time. */
  function LEAt(data: bytes, pos: nat, n: nat): (r: nat)
    requires pos + n <= |data|
    ensures r < Pow256(n)
    decreases n
  {
    if n == 0 then 0 else data[pos] + 256 * LEAt(data, pos + 1, n - 1)
  }

  /** Read byte by byte, the value is that of the slice they form. */
  lemma {:induction false} LEAtIsLEValue(data: bytes, pos: nat, n: nat)
    requires pos + n <= |data|
    ensures LEAt(data, pos, n) == LEValue(data[pos..pos + n])
    decreases n
  {
    if n > 0 {
      var b := data[pos..pos + n];
      assert b[0] == data[pos] && b[1..] == data[pos + 1..pos + n];
      LEAtIsLEValue(data, pos + 1, n - 1);
    }
  }

  /** n bytes laid out as LE(x, n) read back as x. */
  lemma {:induction false} LEAtOfLE(data: bytes, pos: nat, n: nat, x: nat)
    requires pos + n <= |data| && x < Pow256(n) && data[pos..pos + n] == LE(x, n)
    ensures LEAt(data, pos, n) == x
    decreases n
  {
    if n > 0 {
      var b := data[pos..pos + n];
      assert data[pos] == b[0] == x % 256;
      assert data[pos + 1..pos + n] == b[1..] == LE(x / 256, n - 1);
      LEAtOfLE(data, pos + 1, n - 1, x / 256);
    }
  }

  function GetU16(data: bytes, pos: nat): Result<u16>
  {
    var v :- GetLE(data, pos, 2); Ok(v)
  }

  function GetU32(data: bytes, pos: nat): Result<u32>
  {
    var v :- GetLE(data, pos, 4); Ok(v)
  }

  function GetI32(data: bytes, pos: nat): Result<i32>
  {
    var v :- GetLE(data, pos, 4); Ok(I32OfU32(v))
  }

  function GetU64(data: bytes, pos: nat): Result<u64>
  {
    var v :- GetLE(data, pos, 8); Ok(v)
  }

  /**
   * A big-endian read of n bytes at pos: the extension methods take a
   * short buffer from ReadBytes and then index past its end.
   */
  function GetBE(data: bytes, pos: nat, n: nat): (r: Result<nat>)
    ensures r.Ok? <==> pos + n <= |data|
    ensures r.Ok? ==> r.value < Pow256(n) && BE(r.value, n) == data[pos..pos + n]
    ensures r.Err? ==> r.error == IndexOutOfRange
  {
    if pos + n <= |data| then BEOfBEValue(data[pos..pos + n]); Ok(BEValue(data[pos..pos + n])) else Err(IndexOutOfRange)
  }

  function GetBEU16(data: bytes, pos: nat): Result<u16>
  {
    var v :- GetBE(data, pos, 2); Ok(v)
  }

  function GetBEU32(data: bytes, pos: nat): Result<u32>
  {
    var v :- GetBE(data, pos, 4); Ok(v)
  }

  /** ReadUnicode: the code units of the next 2n bytes (fewer at the end of the data). */
  function GetUnicode(data: bytes, pos: nat, n: nat): (r: Utf16)
    ensures pos + 2 * n <= |data| ==> |r| == n
    decreases n
  {
    if n == 0 || pos >= |data| then []
    else if pos + 1 == |data| then [ReplacementChar]
    else
      var lo: int, hi: int := data[pos], data[pos + 1];
      var c: u16 := lo + 256 * hi;
      [c] + GetUnicode(data, pos + 2, n - 1)
  }

  /** How many bytes ReadBytes(k) consumes at pos: k, or what is left. */
  function Avail(data: bytes, pos: nat, k: nat): (r: nat)
    ensures r <= k && pos + r <= Max(pos, |data|)
    ensures pos + k <= |data| ==> r == k
  {
    if pos >= |data| then 0 else Min(k, |data| - pos)
  }

  /** ReadBytes then GetString: the code units read one by one are the bytes read, decoded. */
  lemma {:induction false} GetUnicodeIsDecode(data: bytes, pos: nat, n: nat)
    ensures GetUnicode(data, pos, n) == DecodeUnicode(Take(data, pos, 2 * n))
    ensures Avail(data, pos, 2 * n) == |Take(data, pos, 2 * n)|
    decreases n
  {
    if n == 0 || pos >= |data| {
    } else if pos + 1 == |data| {
      assert Take(data, pos, 2 * n) == [data[pos]];
    } else {
      TakeStep(data, pos, n);
      GetUnicodeIsDecode(data, pos + 2, n - 1);
      LEAtIsLEValue(data, pos, 2);
      UnitStep(data, pos, n);
    }
  }

  /** At least two bytes are left: the first two taken, then the rest. */
  lemma TakeStep(data: bytes, pos: nat, n: nat)
    requires n > 0 && pos + 1 < |data|
    ensures |Take(data, pos, 2 * n)| >= 2
    ensures Take(data, pos, 2 * n)[..2] == data[pos..pos + 2]
    ensures Take(data, pos, 2 * n)[2..] == Take(data, pos + 2, 2 * (n - 1))
  {
  }

  /** One code unit, then the rest, on both sides of GetUnicodeIsDecode. */
  lemma UnitStep(data: bytes, pos: nat, n: nat)
    requires n > 0 && pos + 1 < |data|
    requires |Take(data, pos, 2 * n)| >= 2
    requires LEAt(data, pos, 2) == LEValue(Take(data, pos, 2 * n)[..2])
    requires GetUnicode(data, pos + 2, n - 1) == DecodeUnicode(Take(data, pos, 2 * n)[2..])
    ensures GetUnicode(data, pos, n) == DecodeUnicode(Take(data, pos, 2 * n))
  {
    var lo: int, hi: int := data[pos], data[pos + 1];
    assert LEAt(data, pos, 2) == lo + 256 * hi;
  }

  /** A little-endian read of the bytes a value was written as gives the value. */
  lemma GetLEOf(p: bytes, pos: nat, n: nat, x: nat)
    requires pos + n <= |p| && x < Pow256(n) && p[pos..pos + n] == LE(x, n)
    ensures GetLE(p, pos, n) == Ok(x)
  {
    LEAtOfLE(p, pos, n, x);
  }

  /** ReadUnicode as a value: the string read and the position after it. */
  function UnicodeFrom(data: bytes, pos: nat, n: nat): (r: (Utf16, nat))
    ensures r.1 >= pos
  {
    (GetUnicode(data, pos, n), pos + Avail(data, pos, 2 * n))
  }

  /**
   * What a token body reader returns: the value it assigned, the byte
   * count it reports to its caller, and the stream position it leaves.
   */
  datatype Parsed<T> = Parsed(value: T, count: nat, next: nat)

  /** A reader's catch of EndOfStreamException, rethrown as an invalid message. */
  function CatchEof<T>(r: Result<T>): (q: Result<T>)
    ensures q.Ok? <==> r.Ok?
    ensures r.Ok? ==> q.value == r.value
    ensures q.Err? ==> q.error == (if r.error == EndOfStream then InvalidMessage else r.error)
  {
    if r.Err? && r.error == EndOfStream then Err(InvalidMessage) else r
  }

  // ---------------------------------------------------------------------
  // Reading back what was written, piece by piece
  // ---------------------------------------------------------------------

  /** The data from pos on starts with piece, then more: reading piece leaves more. */
  lemma Peel(data: bytes, pos: nat, piece: bytes, more: bytes, rest: bytes)
    requires pos <= |data| && data[pos..] == (piece + more) + rest
    ensures pos + |piece| <= |data|
    ensures data[pos..pos + |piece|] == piece
    ensures data[pos + |piece|..] == more + rest
  {
    var s := data[pos..];
    assert s == piece + (more + rest);
    assert data[pos..pos + |piece|] == s[..|piece|];
    assert data[pos + |piece|..] == s[|piece|..];
  }

  /** The last piece: reading it leaves rest. */
  lemma PeelLast(data: bytes, pos: nat, piece: bytes, rest: bytes)
    requires pos <= |data| && data[pos..] == piece + rest
    ensures pos + |piece| <= |data|
    ensures data[pos..pos + |piece|] == piece
    ensures data[pos + |piece|..] == rest
  {
    var s := data[pos..];
    assert data[pos..pos + |piece|] == s[..|piece|];
    assert data[pos + |piece|..] == s[|piece|..];
  }

  lemma GetU16Of(data: bytes, pos: nat, x: u16, more: bytes, rest: bytes)
    requires pos <= |data| && data[pos..] == (LE16(x) + more) + rest
    ensures GetU16(data, pos) == Ok(x) && data[pos + 2..] == more + rest
  {
    Peel(data, pos, LE16(x), more, rest);
    GetLEOf(data, pos, 2, x);
  }

  lemma GetU32Of(data: bytes, pos: nat, x: u32, more: bytes, rest: bytes)
    requires pos <= |data| && data[pos..] == (LE32(x) + more) + rest
    ensures GetU32(data, pos) == Ok(x) && data[pos + 4..] == more + rest
  {
    Peel(data, pos, LE32(x), more, rest);
    GetLEOf(data, pos, 4, x);
  }

  lemma GetI32Of(data: bytes, pos: nat, x: i32, more: bytes, rest: bytes)
    requires pos <= |data| && data[pos..] == (LEI32(x) + more) + rest
    ensures GetI32(data, pos) == Ok(x) && data[pos + 4..] == more + rest
  {
    Peel(data, pos, LEI32(x), more, rest);
    GetLEOf(data, pos, 4, U32OfI32(x));
  }

  lemma GetU64Of(data: bytes, pos: nat, x: u64, more: bytes, rest: bytes)
    requires pos <= |data| && data[pos..] == (LE64(x) + more) + rest
    ensures GetU64(data, pos) == Ok(x) && data[pos + 8..] == more + rest
  {
    Peel(data, pos, LE64(x), more, rest);
    GetLEOf(data, pos, 8, x);
  }

  lemma GetByteOf(data: bytes, pos: nat, x: byte, more: bytes, rest: bytes)
    requires pos <= |data| && data[pos..] == ([x] + more) + rest
    ensures GetByte(data, pos) == Ok(x) && data[pos + 1..] == more + rest
  {
    Peel(data, pos, [x], more, rest);
  }

  /** The UTF-16 bytes of s at pos, read with its character count, give s back. */
  lemma UnicodeFromAt(data: bytes, pos: nat, s: Utf16)
    requires pos + 2 * |s| <= |data| && data[pos..pos + 2 * |s|] == UnicodeBytes(s)
    ensures UnicodeFrom(data, pos, |s|).0 == s && UnicodeFrom(data, pos, |s|).1 == pos + 2 * |s|
  {
    GetUnicodeAt(data, pos, s);
  }

  /** Code unit by code unit, UnicodeBytes(s) reads back as s. */
  lemma {:induction false} GetUnicodeAt(data: bytes, pos: nat, s: Utf16)
    requires pos + 2 * |s| <= |data| && data[pos..pos + 2 * |s|] == UnicodeBytes(s)
    ensures GetUnicode(data, pos, |s|) == s
    decreases |s|
  {
    if |s| > 0 {
      var b := data[pos..pos + 2 * |s|];
      assert b == LE(s[0], 2) + UnicodeBytes(s[1..]);
      assert data[pos..pos + 2] == b[..2] == LE(s[0], 2);
      LEAtOfLE(data, pos, 2, s[0]);
      assert data[pos + 2..pos + 2 * |s|] == b[2..] == UnicodeBytes(s[1..]);
      GetUnicodeAt(data, pos + 2, s[1..]);
      assert [s[0]] + s[1..] == s;
    }
  }

  lemma UnicodeFromOf(data: bytes, pos: nat, s: Utf16, more: bytes, rest: bytes)
    requires pos <= |data| && data[pos..] == (UnicodeBytes(s) + more) + rest
    ensures UnicodeFrom(data, pos, |s|).0 == s && UnicodeFrom(data, pos, |s|).1 == pos + 2 * |s|
    ensures data[pos + 2 * |s|..] == more + rest
  {
    var b := UnicodeBytes(s);
    assert |b| == 2 * |s|;
    Peel(data, pos, b, more, rest);
    assert data[pos + 2 * |s|..] == more + rest;
    UnicodeFromAt(data, pos, s);
  }

  /** Cutting a piece off the front of a suffix, with the position after it named. */
  lemma Cut(data: bytes, pos: nat, piece: bytes, more: bytes, rest: bytes, e: nat)
    requires pos <= |data| && data[pos..] == (piece + more) + rest && e == pos + |piece|
    ensures e <= |data| && data[pos..e] == piece && data[e..] == more + rest
  {
    Peel(data, pos, piece, more, rest);
  }

  /**
   * A US_VARCHAR as a token reader reads it: a 16-bit count, then that many
   * code units (fewer at the end of the data); running out of data before
   * the count is an invalid message. The position after it comes along.
   */
  function UsVarcharFrom(data: bytes, q: nat): (r: Result<(Utf16, nat)>)
    ensures r.Err? ==> r.error == InvalidMessage
    ensures r.Ok? ==> r.value.1 >= q + 2
  {
    var n :- CatchEof(GetU16(data, q));
    Ok(UnicodeFrom(data, q + 2, n))
  }

  /** A B_VARCHAR as a token reader reads it: an 8-bit count, then the code units. */
  function BVarcharFrom(data: bytes, q: nat): (r: Result<(Utf16, nat)>)
    ensures r.Err? ==> r.error == InvalidMessage
    ensures r.Ok? ==> r.value.1 >= q + 1
  {
    var n :- CatchEof(GetByte(data, q));
    Ok(UnicodeFrom(data, q + 1, n))
  }

  /** A US_VARCHAR found at q reads back as its string, ending at e. */
  lemma UsVarcharFromAt(data: bytes, q: nat, m: Utf16, e: nat)
    requires |m| <= 0xFFFF && e == q + 2 + 2 * |m| <= |data| && data[q..e] == UsVarchar(m)
    ensures UsVarcharFrom(data, q) == Ok((m, e))
  {
    var b := UsVarchar(m);
    assert data[q..q + 2] == b[..2] == LE16(|m|);
    assert data[q + 2..e] == b[2..] == UnicodeBytes(m);
    GetLEOf(data, q, 2, |m|);
    UnicodeFromAt(data, q + 2, m);
  }

  /** A B_VARCHAR found at q reads back as its string, ending at e. */
  lemma BVarcharFromAt(data: bytes, q: nat, m: Utf16, e: nat)
    requires |m| <= 0xFF && e == q + 1 + 2 * |m| <= |data| && data[q..e] == BVarchar(m)
    ensures BVarcharFrom(data, q) == Ok((m, e))
  {
    var b := BVarchar(m);
    assert data[q] == b[0] == |m|;
    assert data[q + 1..e] == b[1..] == UnicodeBytes(m);
    UnicodeFromAt(data, q + 1, m);
  }

  // ---------------------------------------------------------------------
  // BinaryWriter
  // ---------------------------------------------------------------------

  /** A BinaryWriter over a growable MemoryStream: every write appends. */
  class Writer {
    var written: bytes

    constructor ()
      ensures written == []
    {
      written := [];
    }

    method WriteByte(b: byte)
      modifies this
      ensures written == old(written) + [b]
    {
      written := written + [b];
    }

    method WriteBytes(b: bytes)
      modifies this
      ensures written == old(written) + b
    {
      written := written + b;
    }

    method WriteUInt16(v: u16)
      modifies this
      ensures written == old(written) + LE16(v)
    {
      written := written + LE16(v);
    }

    method WriteInt32(v: i32)
      modifies this
      ensures written == old(written) + LEI32(v)
    {
      written := written + LEI32(v);
    }

    method WriteUInt32(v: u32)
      modifies this
      ensures written == old(written) + LE32(v)
    {
      written := written + LE32(v);
    }

    method WriteUInt64(v: u64)
      modifies this
      ensures written == old(written) + LE64(v)
    {
      written := written + LE64(v);
    }

    /** WriteBigEndian(short): the high byte of the bit pattern, then the low byte. */
    method WriteBigEndianInt16(v: i16)
      modifies this
      ensures written == old(written) + BE(U16OfI16(v), 2)
    {
      var u := U16OfI16(v);
      written := written + [u / 0x100, u % 0x100];
    }

    method WriteBigEndianUInt16(v: u16)
      modifies this
      ensures written == old(written) + BE(v, 2)
    {
      written := written + [v / 0x100, v % 0x100];
    }

    method WriteBigEndianInt32(v: i32)
      modifies this
      ensures written == old(written) + BE(U32OfI32(v), 4)
    {
      var u := U32OfI32(v);
      BE4(u);
      written := written + [u / 0x100_0000, (u / 0x1_0000) % 0x100, (u / 0x100) % 0x100, u % 0x100];
    }

    method WriteBigEndianUInt32(v: u32)
      modifies this
      ensures written == old(written) + BE(v, 4)
    {
      BE4(v);
      written := written + [v / 0x100_0000, (v / 0x1_0000) % 0x100, (v / 0x100) % 0x100, v % 0x100];
    }

    /** WriteUnicodeBytes: a null string, like the empty one, writes nothing. */
    method WriteUnicodeBytes(s: Utf16)
      modifies this
      ensures written == old(written) + UnicodeBytes(s)
    {
      written := written + UnicodeBytes(s);
    }

    /** WriteBVarchar: more than 255 characters is an argument error and writes nothing. */
    method WriteBVarchar(s: Utf16) returns (r: Result<()>)
      modifies this
      ensures r.Ok? <==> |s| <= 0xFF
      ensures r.Err? ==> r.error == Argument && written == old(written)
      ensures r.Ok? ==> written == old(written) + BVarchar(s)
    {
      if |s| > 0xFF {
        return Err(Argument);
      }
      WriteByte(|s|);
      WriteUnicodeBytes(s);
      return Ok(());
    }

    /** WriteUsVarchar: more than 65535 characters is an argument error and writes nothing. */
    method WriteUsVarchar(s: Utf16) returns (r: Result<()>)
      modifies this
      ensures r.Ok? <==> |s| <= 0xFFFF
      ensures r.Err? ==> r.error == Argument && written == old(written)
      ensures r.Ok? ==> written == old(written) + UsVarchar(s)
    {
      if |s| > 0xFFFF {
        return Err(Argument);
      }
      WriteUInt16(|s|);
      WriteUnicodeBytes(s);
      return Ok(());
    }

    /** WriteObfuscatedPassword: the UTF-16 bytes, each obfuscated in place, then written. */
    method WriteObfuscatedPassword(pw: Utf16)
      modifies this
      ensures written == old(written) + PasswordBytes(pw)
    {
      var plain := UnicodeBytes(pw);
      var buffer := new byte[|plain|](i requires 0 <= i < |plain| => plain[i]);
      assert buffer[..] == plain;
      ObfuscateInPlace(buffer);
      written := written + buffer[..];
    }
  }

  /** The writer's loop over the password bytes. */
  method ObfuscateInPlace(a: array<byte>)
    modifies a
    ensures a[..] == Obfuscate(old(a[..]))
  {
    var i := 0;
    while i < a.Length
      invariant 0 <= i <= a.Length
      invariant forall k :: 0 <= k < i ==> a[k] == ObfuscateByte(old(a[k]))
      invariant forall k :: i <= k < a.Length ==> a[k] == old(a[k])
    {
      a[i] := ObfuscateByte(a[i]);
      i := i + 1;
    }
  }

  /** The reader's loop over the password bytes. */
  method UnobfuscateInPlace(a: array<byte>)
    modifies a
    ensures a[..] == Unobfuscate(old(a[..]))
  {
    var i := 0;
    while i < a.Length
      invariant 0 <= i <= a.Length
      invariant forall k :: 0 <= k < i ==> a[k] == UnobfuscateByte(old(a[k]))
      invariant forall k :: i <= k < a.Length ==> a[k] == old(a[k])
    {
      a[i] := UnobfuscateByte(a[i]);
      i := i + 1;
    }
  }

  // ---------------------------------------------------------------------
  // BinaryWriter over a MemoryStream on a fixed byte array
  // ---------------------------------------------------------------------

  /**
   * The bytes a sequence of writes leaves in a MemoryStream that cannot
   * grow, with room bytes left: each write whole, up to the first one
   * that would pass the end, which throws NotSupported before it writes
   * anything.
   */
  function WritesThatFit(calls: seq<bytes>, room: nat): (r: bytes)
    ensures |r| <= room
  {
    if |calls| == 0 || |calls[0]| > room then [] else calls[0] + WritesThatFit(calls[1..], room - |calls[0]|)
  }

  /** Some write of the sequence would pass the end of the stream. */
  predicate Overruns(calls: seq<bytes>, room: nat)
  {
    |calls| > 0 && (|calls[0]| > room || Overruns(calls[1..], room - |calls[0]|))
  }

  /** The writes overrun exactly when their bytes do not fit; when they fit, all of them are kept. */
  lemma {:induction false} FitsWhole(calls: seq<bytes>, room: nat)
    ensures Overruns(calls, room) <==> |Streams.Flatten(calls)| > room
    ensures !Overruns(calls, room) ==> WritesThatFit(calls, room) == Streams.Flatten(calls)
    decreases |calls|
  {
    if |calls| > 0 && |calls[0]| <= room {
      FitsWhole(calls[1..], room - |calls[0]|);
    }
  }

  /**
   * Writes a then writes b: after an overrun in a nothing of b is
   * written; otherwise a is written whole and b meets the room it left.
   */
  lemma {:induction false} WritesThen(a: seq<bytes>, b: seq<bytes>, room: nat)
    ensures Overruns(a, room) ==> Overruns(a + b, room) && WritesThatFit(a + b, room) == WritesThatFit(a, room)
    ensures !Overruns(a, room) ==>
      && |Streams.Flatten(a)| <= room
      && (Overruns(a + b, room) <==> Overruns(b, room - |Streams.Flatten(a)|))
      && WritesThatFit(a + b, room) == Streams.Flatten(a) + WritesThatFit(b, room - |Streams.Flatten(a)|)
    decreases |a|
  {
    if |a| == 0 {
      assert a + b == b;
    } else {
      assert (a + b)[0] == a[0] && (a + b)[1..] == a[1..] + b;
      if |a[0]| <= room {
        WritesThen(a[1..], b, room - |a[0]|);
      }
    }
  }

  /**
   * When the writes overrun, the stream holds the writes before the
   * first one that does not fit, and that one (call k) is left out whole.
   */
  lemma {:induction false} FirstOverrun(calls: seq<bytes>, room: nat) returns (k: nat)
    requires Overruns(calls, room)
    ensures k < |calls| && !Overruns(calls[..k], room)
    ensures WritesThatFit(calls, room) == Streams.Flatten(calls[..k])
    ensures |Streams.Flatten(calls[..k])| + |calls[k]| > room
    decreases |calls|
  {
    if |calls[0]| > room {
      k := 0;
    } else {
      var j := FirstOverrun(calls[1..], room - |calls[0]|);
      k := j + 1;
      assert calls[..k] == [calls[0]] + calls[1..][..j];
      assert calls[..k][0] == calls[0] && calls[..k][1..] == calls[1..][..j];
    }
  }

  /**
   * When the first writes fit and the rest overrun, the stream holds the
   * first writes whole and then the later writes before the first one
   * that does not fit (later write k).
   */
  lemma OverrunAfter(a: seq<bytes>, b: seq<bytes>, room: nat) returns (k: nat)
    requires !Overruns(a, room) && Overruns(a + b, room)
    ensures k < |b| && WritesThatFit(a + b, room) == Streams.Flatten(a) + Streams.Flatten(b[..k])
    ensures |Streams.Flatten(a)| + |Streams.Flatten(b[..k])| + |b[k]| > room
  {
    WritesThen(a, b, room);
    k := FirstOverrun(b, room - |Streams.Flatten(a)|);
  }

  /** The first call of a sequence of writes: it is written whole if it fits, and the rest follow in what is left. */
  lemma WritesFirst(c: seq<bytes>, left: nat)
    requires |c| > 0
    ensures |c[0]| > left ==> Overruns(c, left) && WritesThatFit(c, left) == []
    ensures |c[0]| <= left ==> (&& (Overruns(c, left) <==> Overruns(c[1..], left - |c[0]|))
      && WritesThatFit(c, left) == c[0] + WritesThatFit(c[1..], left - |c[0]|))
  {
  }

  /**
   * A BinaryWriter over new MemoryStream(buffer): the array's length is
   * fixed, the position moves on with each write, and the part of the
   * array not yet written keeps its zeros.
   */
  class FixedWriter {
    const buffer: array<byte>
    var pos: nat

    ghost predicate Valid()
      reads this, buffer
    {
      pos <= buffer.Length && buffer[pos..] == Zeros(buffer.Length - pos)
    }

    /** The bytes written so far, at the front of the array. */
    function Written(): bytes
      reads this, buffer
      requires pos <= buffer.Length
    {
      buffer[..pos]
    }

    /** The bytes that can still be written. */
    function Room(): nat
      reads this, buffer
      requires pos <= buffer.Length
    {
      buffer.Length - pos
    }

    constructor (capacity: nat)
      ensures Valid() && fresh(buffer) && buffer.Length == capacity && pos == 0
    {
      buffer := new byte[capacity](_ => 0);
      pos := 0;
      new;
      assert buffer[0..] == Zeros(capacity);
    }

    /** One Write call: the bytes whole when they fit, otherwise NotSupported with nothing written. */
    method Write(b: bytes) returns (ok: bool)
      requires Valid()
      modifies this, buffer
      ensures Valid()
      ensures ok <==> |b| <= old(Room())
      ensures Written() == old(Written()) + (if ok then b else [])
      ensures Room() == old(Room()) - (if ok then |b| else 0)
    {
      if |b| > buffer.Length - pos {
        return false;
      }
      forall i | pos <= i < pos + |b| {
        buffer[i] := b[i - pos];
      }
      assert buffer[..pos] == old(buffer[..pos]);
      assert buffer[pos..pos + |b|] == b;
      assert buffer[pos + |b|..] == old(buffer[pos..])[|b|..];
      assert buffer[..pos + |b|] == buffer[..pos] + buffer[pos..pos + |b|];
      pos := pos + |b|;
      ok := true;
    }

    /** Write calls one after the other, thrown out of at the first that does not fit. */
    method WriteEach(calls: seq<bytes>) returns (ok: bool)
      requires Valid()
      modifies this, buffer
      ensures Valid()
      ensures ok <==> !Overruns(calls, old(Room()))
      ensures Written() == old(Written()) + WritesThatFit(calls, old(Room()))
      ensures Room() == old(Room()) - |WritesThatFit(calls, old(Room()))|
    {
      ghost var base, room := Written(), Room();
      ghost var done: bytes := [];
      ok := true;
      var i := 0;
      while i < |calls|
        invariant 0 <= i <= |calls| && ok && Valid() && Written() == base + done
        invariant Overruns(calls, room) <==> Overruns(calls[i..], Room())
        invariant done + WritesThatFit(calls[i..], Room()) == WritesThatFit(calls, room)
        invariant Room() == room - |done|
      {
        ghost var left := Room();
        var c := calls[i];
        WritesFirst(calls[i..], left);
        assert calls[i..][0] == c && calls[i..][1..] == calls[i + 1..];
        ok := Write(c);
        if !ok {
          return;
        }
        Assoc(done, c, WritesThatFit(calls[i + 1..], left - |c|));
        Assoc(base, done, c);
        done := done + c;
        i := i + 1;
      }
      assert calls[i..] == [];
    }
  }
  /**
   * new BinaryWriter(new MemoryStream(new byte[capacity])) and the writes
   * into it: the array afterwards holds the writes that fit, then zeros,
   * whether or not a write threw NotSupported.
   */
  method WriteFixed(capacity: nat, calls: seq<bytes>) returns (ok: bool, buffer: bytes)
    ensures ok <==> !Overruns(calls, capacity)
    ensures buffer == WritesThatFit(calls, capacity) + Zeros(capacity - |WritesThatFit(calls, capacity)|)
  {
    var fw := new FixedWriter(capacity);
    ok := fw.WriteEach(calls);
    assert fw.buffer[..] == fw.buffer[..fw.pos] + fw.buffer[fw.pos..];
    buffer := fw.buffer[..];
  }


  // ---------------------------------------------------------------------
  // BinaryReader
  // ---------------------------------------------------------------------

  /** A BinaryReader over a MemoryStream holding data, at position pos. */
  class Reader {
    const data: bytes
    var pos: nat

    constructor (data: bytes)
      ensures this.data == data && pos == 0
    {
      this.data := data;
      pos := 0;
    }

    /** Setting BaseStream.Position. */
    method Seek(p: nat)
      modifies this
      ensures pos == p
    {
      pos := p;
    }

    method ReadByte() returns (r: Result<byte>)
      modifies this
      ensures r == GetByte(data, old(pos))
      ensures pos == if r.Ok? then old(pos) + 1 else old(pos)
    {
      r := GetByte(data, pos);
      if r.Ok? {
        pos := pos + 1;
      }
    }

    /** ReadBytes: up to n bytes; fewer, possibly none, at the end of the stream. */
    method ReadBytes(n: nat) returns (b: bytes)
      modifies this
      ensures b == Take(data, old(pos), n)
      ensures pos == old(pos) + |b|
    {
      b := Take(data, pos, n);
      pos := pos + |b|;
    }

    method ReadUInt16() returns (r: Result<u16>)
      modifies this
      ensures r == GetU16(data, old(pos))
      ensures r.Ok? ==> pos == old(pos) + 2
    {
      r := GetU16(data, pos);
      if r.Ok? {
        pos := pos + 2;
      }
    }

    method ReadUInt32() returns (r: Result<u32>)
      modifies this
      ensures r == GetU32(data, old(pos))
      ensures r.Ok? ==> pos == old(pos) + 4
    {
      r := GetU32(data, pos);
      if r.Ok? {
        pos := pos + 4;
      }
    }

    method ReadInt32() returns (r: Result<i32>)
      modifies this
      ensures r == GetI32(data, old(pos))
      ensures r.Ok? ==> pos == old(pos) + 4
    {
      r := GetI32(data, pos);
      if r.Ok? {
        pos := pos + 4;
      }
    }

    method ReadUInt64() returns (r: Result<u64>)
      modifies this
      ensures r == GetU64(data, old(pos))
      ensures r.Ok? ==> pos == old(pos) + 8
    {
      r := GetU64(data, pos);
      if r.Ok? {
        pos := pos + 8;
      }
    }

    method ReadBigEndianUInt16() returns (r: Result<u16>)
      modifies this
      ensures r == GetBEU16(data, old(pos))
      ensures r.Ok? ==> pos == old(pos) + 2
    {
      var b := ReadBytes(2);
      if |b| < 2 {
        return Err(IndexOutOfRange);
      }
      BEValue2(b);
      r := Ok(b[0] as int * 0x100 + b[1]);
    }

    method ReadBigEndianInt16() returns (r: Result<i16>)
      modifies this
      ensures r.Ok? <==> GetBEU16(data, old(pos)).Ok?
      ensures r.Ok? ==> r.value == I16OfU16(GetBEU16(data, old(pos)).value) && pos == old(pos) + 2
      ensures r.Err? ==> r.error == IndexOutOfRange
    {
      var u :- ReadBigEndianUInt16();
      r := Ok(I16OfU16(u));
    }

    method ReadBigEndianUInt32() returns (r: Result<u32>)
      modifies this
      ensures r == GetBEU32(data, old(pos))
      ensures r.Ok? ==> pos == old(pos) + 4
    {
      var b := ReadBytes(4);
      if |b| < 4 {
        return Err(IndexOutOfRange);
      }
      BEValue4(b);
      r := Ok(((b[0] as int * 0x100 + b[1]) * 0x100 + b[2]) * 0x100 + b[3]);
    }

    method ReadBigEndianInt32() returns (r: Result<i32>)
      modifies this
      ensures r.Ok? <==> GetBEU32(data, old(pos)).Ok?
      ensures r.Ok? ==> r.value == I32OfU32(GetBEU32(data, old(pos)).value) && pos == old(pos) + 4
      ensures r.Err? ==> r.error == IndexOutOfRange
    {
      var u :- ReadBigEndianUInt32();
      r := Ok(I32OfU32(u));
    }

    /** ReadUnicode: consumes up to 2n bytes and decodes them. */
    method ReadUnicode(n: nat) returns (s: Utf16)
      modifies this
      ensures s == GetUnicode(data, old(pos), n)
      ensures pos == old(pos) + Avail(data, old(pos), 2 * n)
    {
      var b := ReadBytes(2 * n);
      s := DecodeUnicode(b);
      GetUnicodeIsDecode(data, old(pos), n);
    }

    /** ReadUnicodeAt: seeks to p first. */
    method ReadUnicodeAt(p: nat, n: nat) returns (s: Utf16)
      modifies this
      ensures s == GetUnicode(data, p, n)
      ensures pos == p + Avail(data, p, 2 * n)
    {
      Seek(p);
      s := ReadUnicode(n);
    }

    /**
     * ReadObfuscatedPassword: reads 2n bytes from the CURRENT position,
     * whatever p says, and undoes the obfuscation in place.
     */
    method ReadObfuscatedPassword(p: nat, n: nat) returns (s: Utf16)
      modifies this
      ensures s == DecodeUnicode(Unobfuscate(Take(data, old(pos), 2 * n)))
      ensures pos == old(pos) + |Take(data, old(pos), 2 * n)|
    {
      var b := ReadBytes(2 * n);
      var buffer := new byte[|b|](i requires 0 <= i < |b| => b[i]);
      assert buffer[..] == b;
      UnobfuscateInPlace(buffer);
      s := DecodeUnicode(buffer[..]);
    }
  }

  // The reads inside a token reader's catch of EndOfStreamException.

  method ReadByteCaught(rd: Reader) returns (r: Result<byte>)
    modifies rd
    ensures r == CatchEof(GetByte(rd.data, old(rd.pos)))
    ensures r.Ok? ==> rd.pos == old(rd.pos) + 1
  {
    var v := rd.ReadByte();
    r := CatchEof(v);
  }

  method ReadUInt16Caught(rd: Reader) returns (r: Result<u16>)
    modifies rd
    ensures r == CatchEof(GetU16(rd.data, old(rd.pos)))
    ensures r.Ok? ==> rd.pos == old(rd.pos) + 2
  {
    var v := rd.ReadUInt16();
    r := CatchEof(v);
  }

  method ReadUInt32Caught(rd: Reader) returns (r: Result<u32>)
    modifies rd
    ensures r == CatchEof(GetU32(rd.data, old(rd.pos)))
    ensures r.Ok? ==> rd.pos == old(rd.pos) + 4
  {
    var v := rd.ReadUInt32();
    r := CatchEof(v);
  }

  method ReadInt32Caught(rd: Reader) returns (r: Result<i32>)
    modifies rd
    ensures r == CatchEof(GetI32(rd.data, old(rd.pos)))
    ensures r.Ok? ==> rd.pos == old(rd.pos) + 4
  {
    var v := rd.ReadInt32();
    r := CatchEof(v);
  }

  method ReadUInt64Caught(rd: Reader) returns (r: Result<u64>)
    modifies rd
    ensures r == CatchEof(GetU64(rd.data, old(rd.pos)))
    ensures r.Ok? ==> rd.pos == old(rd.pos) + 8
  {
    var v := rd.ReadUInt64();
    r := CatchEof(v);
  }

  /** A prefixed string with a 16-bit count, read inside the catch. */
  method ReadUsVarcharCaught(rd: Reader) returns (r: Result<(Utf16, nat)>)
    modifies rd
    ensures r == UsVarcharFrom(rd.data, old(rd.pos))
    ensures r.Ok? ==> rd.pos == r.value.1
  {
    var n :- ReadUInt16Caught(rd);
    var s := rd.ReadUnicode(n);
    r := Ok((s, rd.pos));
  }

  /** A prefixed string with an 8-bit count, read inside the catch. */
  method ReadBVarcharCaught(rd: Reader) returns (r: Result<(Utf16, nat)>)
    modifies rd
    ensures r == BVarcharFrom(rd.data, old(rd.pos))
    ensures r.Ok? ==> rd.pos == r.value.1
  {
    var n :- ReadByteCaught(rd);
    var s := rd.ReadUnicode(n);
    r := Ok((s, rd.pos));
  }

  /** A reader positioned at a written password reads the password back. */
  lemma ReadPasswordOfWritten(pre: bytes, pw: Utf16, post: bytes)
    ensures DecodeUnicode(Unobfuscate(Take(pre + PasswordBytes(pw) + post, |pre|, 2 * |pw|))) == pw
  {
    assert Take(pre + PasswordBytes(pw) + post, |pre|, 2 * |pw|) == PasswordBytes(pw);
    PasswordRoundTrip(pw);
  }
}
