/**
 * The LOGIN7 message: the client's login record. Its payload is a fixed
 * part (a header of little-endian integers and an offset/length table), a
 * data block holding the strings the table points at, and an optional
 * feature-extension chain.
 *
 * The fixed part is modelled as a table of little-endian words: word k
 * starts at byte FieldPos(k) and is FieldWidth(k) bytes wide. The writer
 * emits the words in order and the reader reads them back in the same
 * order, so both sides are stated against the same table.
 */
module Login7 {
  import opened Wire
  import opened Io

  const Version72: u32 := 0x7200_0000
  const Version74: u32 := 0x7400_0000
  /** OptionFlags3 bit saying that an extension block is present. */
  const ExtensionFlag: byte := 0x10
  /** OptionFlags2 bit asking for integrated (SSPI) security. */
  const IntegratedSecurityFlag: byte := 0x80
  /** OptionFlags3 bit asking for a user instance. */
  const UserInstanceFlag: byte := 0x04
  /** The feature identifier that ends the feature-extension chain. */
  const TerminatorId: byte := 0xFF

  type ClientIdBytes = s: bytes | |s| == 6 witness [0, 0, 0, 0, 0, 0]

  datatype FeatureOpt = FeatureOpt(id: byte, data: bytes)

  /**
   * Every property of a LOGIN7 message. A string that is null or empty is
   * the empty sequence (the writer treats both alike and the reader
   * decodes a zero count as null); an absent SSPI blob is empty too.
   */
  datatype Login7Fields = Login7Fields(
    tdsVersion: u32, packetSize: u32, clientProgVer: u32, clientPid: u32, connectionId: u32,
    optionFlags1: byte, optionFlags2: byte, typeFlags: byte, optionFlags3: byte,
    clientTimeZone: i32, clientLcid: u32,
    hostName: Utf16, userName: Utf16, password: Utf16, appName: Utf16, serverName: Utf16,
    featureExt: Option<seq<FeatureOpt>>,
    clientInterfaceName: Utf16, language: Utf16, database: Utf16,
    clientId: Option<ClientIdBytes>, sspi: bytes, attachDbFile: Utf16, changePassword: Utf16)

  /** A freshly constructed message: every number zero, every reference null. */
  const NoLogin7 := Login7Fields(0, 0, 0, 0, 0, 0, 0, 0, 0, 0, 0,
                                 [], [], [], [], [], None, [], [], [], None, [], [], [])

  /** Whether every bit of mask is set in b. */
  predicate HasFlag(b: byte, mask: byte)
  {
    (b as bv8) & (mask as bv8) == mask as bv8
  }

  // ---------------------------------------------------------------------
  // The fixed part as a table of words
  // ---------------------------------------------------------------------

  /**
   * Widths of the fixed-part words: Length, TDSVersion, PacketSize,
   * ClientProgVer, ClientPID, ConnectionID (4 bytes each); OptionFlags1,
   * OptionFlags2, TypeFlags, OptionFlags3 (1 byte each); ClientTimeZone,
   * ClientLCID (4 each); 18 offsets and counts (2 each, words 12-29);
   * ClientID (6 bytes, word 30); ibSSPI, cbSSPI, ibAtchDBFile,
   * cchAtchDBFile (2 each, words 31-34); and from TDS 7.2 on
   * ibChangePassword, cchChangePassword (2 each) and cbSSPILong (4).
   */
  function FieldWidth(k: nat): nat
  {
    if k < 6 then 4
    else if k < 10 then 1
    else if k < 12 then 4
    else if k < 30 then 2
    else if k == 30 then 6
    else if k < 37 then 2
    else 4
  }

  /** The byte position at which word k starts. */
  function FieldPos(k: nat): nat
  {
    if k <= 6 then 4 * k
    else if k <= 10 then 24 + (k - 6)
    else if k <= 12 then 28 + 4 * (k - 10)
    else if k <= 30 then 36 + 2 * (k - 12)
    else if k <= 37 then 78 + 2 * (k - 31)
    else 90 + 4 * (k - 37)
  }

  /** Words in the fixed part: 35 before TDS 7.2, 38 from 7.2 on. */
  function FixedCount(is72: bool): nat { if is72 then 38 else 35 }

  /** Length of the fixed part: 86 bytes before TDS 7.2, 94 from 7.2 on. */
  function FixedLength(is72: bool): (r: nat)
    ensures r == FieldPos(FixedCount(is72))
    ensures r == if is72 then 94 else 86
  {
    if is72 then 94 else 86
  }

  /** The first k words of vs, each cast to its width and written little-endian. */
  function WordBytes(vs: seq<nat>, k: nat): (r: bytes)
    requires k <= |vs|
    ensures |r| == FieldPos(k)
  {
    if k == 0 then [] else WordBytes(vs, k - 1) + LE(vs[k - 1] % Pow256(FieldWidth(k - 1)), FieldWidth(k - 1))
  }

  /** The largest value word k can hold. */
  function WordBound(k: nat): nat
  {
    if FieldWidth(k) == 1 then 0x100
    else if FieldWidth(k) == 2 then 0x1_0000
    else if FieldWidth(k) == 4 then 0x1_0000_0000
    else 0x1_0000_0000_0000
  }

  lemma Pow256Widths()
    ensures Pow256(1) == 0x100 && Pow256(2) == 0x1_0000
    ensures Pow256(4) == 0x1_0000_0000 && Pow256(6) == 0x1_0000_0000_0000
  {
  }

  /** Word k of a payload, as the reader sees it. */
  function Word(p: bytes, k: nat): (r: nat)
    requires FieldPos(k + 1) <= |p|
    ensures r < WordBound(k)
  {
    Pow256Widths();
    LEValue(p[FieldPos(k)..FieldPos(k + 1)])
  }

  function ByteWord(p: bytes, k: nat): byte
    requires FieldWidth(k) == 1 && FieldPos(k + 1) <= |p|
  {
    Word(p, k)
  }

  function U16Word(p: bytes, k: nat): u16
    requires FieldWidth(k) == 2 && FieldPos(k + 1) <= |p|
  {
    Word(p, k)
  }

  function U32Word(p: bytes, k: nat): u32
    requires FieldWidth(k) == 4 && FieldPos(k + 1) <= |p|
  {
    Word(p, k)
  }

  // ---------------------------------------------------------------------
  // GeneratePayload, as a function
  // ---------------------------------------------------------------------

  predicate Is72(m: Login7Fields) { m.tdsVersion >= Version72 }

  /** The writer reserves the extension slot whenever the flag is set, at any version. */
  predicate ExtensionFlagged(m: Login7Fields) { HasFlag(m.optionFlags3, ExtensionFlag) }

  /**
   * The bytes the offset table reserves for data item k, in table order:
   * HostName, UserName, Password, AppName, ServerName, the extension slot,
   * ClientInterfaceName, Language, Database, AttachDBFile, ChangePassword
   * (the last only from TDS 7.2 on). SSPI comes last and is not counted here.
   */
  function Size(m: Login7Fields, k: nat): nat
    requires k < 11
  {
    match k
    case 0 => 2 * |m.hostName|
    case 1 => 2 * |m.userName|
    case 2 => 2 * |m.password|
    case 3 => 2 * |m.appName|
    case 4 => 2 * |m.serverName|
    case 5 => if ExtensionFlagged(m) then 4 else 0
    case 6 => 2 * |m.clientInterfaceName|
    case 7 => 2 * |m.language|
    case 8 => 2 * |m.database|
    case 9 => 2 * |m.attachDbFile|
    case 10 => if Is72(m) then 2 * |m.changePassword| else 0
  }

  /** The bytes reserved for the first k data items. */
  function SizesBefore(m: Login7Fields, k: nat): nat
    requires k <= 11
  {
    if k == 0 then 0 else SizesBefore(m, k - 1) + Size(m, k - 1)
  }

  /**
   * The 16-bit offset the writer puts in the table for item k. The writer
   * keeps a running 16-bit offset that starts at the fixed length and
   * advances by each item's size; truncating every step gives the same
   * value as truncating the exact sum once.
   */
  function Offset(m: Login7Fields, k: nat): u16
    requires k <= 11
  {
    Wrap(FixedLength(Is72(m)) + SizesBefore(m, k), 0x1_0000)
  }

  /** Where the table says SSPI starts: past every other item, ChangePassword included. */
  function SspiOffset(m: Login7Fields): u16 { Offset(m, 11) }

  /** A character count as the table holds it. */
  function Count(s: Utf16): u16 { Wrap(|s|, 0x1_0000) }

  function DataLength(m: Login7Fields): nat { SizesBefore(m, 11) + |m.sspi| }

  /** The feature-extension chain without its terminator. */
  function FeatureBytes(fs: seq<FeatureOpt>): (r: bytes)
  {
    if |fs| == 0 then []
    else [fs[0].id] + LE(Wrap(|fs[0].data|, 0x1_0000_0000), 4) + fs[0].data + FeatureBytes(fs[1..])
  }

  function FeaturesLength(fs: seq<FeatureOpt>): nat
  {
    if |fs| == 0 then 0 else |fs[0].data| + 5 + FeaturesLength(fs[1..])
  }

  predicate WritesFeatures(m: Login7Fields) { ExtensionFlagged(m) && m.featureExt.Some? }

  function FeatureBlock(m: Login7Fields): bytes
  {
    if WritesFeatures(m) then FeatureBytes(m.featureExt.value) + [TerminatorId] else []
  }

  function FeatureBlockLength(m: Login7Fields): nat
  {
    if WritesFeatures(m) then FeaturesLength(m.featureExt.value) + 1 else 0
  }

  /** The size of the payload buffer the writer allocates. */
  function TotalLength(m: Login7Fields): nat
  {
    FixedLength(Is72(m)) + DataLength(m) + FeatureBlockLength(m)
  }

  /** Header word k (0-11): the buffer size, the version and identity words, the flags, the time zone and the LCID. */
  function HeaderWord(m: Login7Fields, total: nat, k: nat): nat
    requires k < 12
  {
    match k
    case 0 => Wrap(total, 0x1_0000_0000)
    case 1 => m.tdsVersion
    case 2 => m.packetSize
    case 3 => m.clientProgVer
    case 4 => m.clientPid
    case 5 => m.connectionId
    case 6 => m.optionFlags1
    case 7 => m.optionFlags2
    case 8 => m.typeFlags
    case 9 => m.optionFlags3
    case 10 => U32OfI32(m.clientTimeZone)
    case 11 => m.clientLcid
  }

  /** The offset the table gives item i (0-8); the extension slot holds one only when the flag is set. */
  function ItemOffset(m: Login7Fields, i: nat): nat
    requires i < 9
  {
    if i == 5 && !ExtensionFlagged(m) then 0 else Offset(m, i)
  }

  /** The length the table gives item i (0-8): a character count, or 4 bytes for the extension slot. */
  function ItemLength(m: Login7Fields, i: nat): nat
    requires i < 9
  {
    match i
    case 0 => Count(m.hostName)
    case 1 => Count(m.userName)
    case 2 => Count(m.password)
    case 3 => Count(m.appName)
    case 4 => Count(m.serverName)
    case 5 => if ExtensionFlagged(m) then 4 else 0
    case 6 => Count(m.clientInterfaceName)
    case 7 => Count(m.language)
    case 8 => Count(m.database)
  }

  /** Word 30 + k (k < 8): ClientID, the SSPI and AttachDBFile slots, then the TDS 7.2 words. */
  function TailWord(m: Login7Fields, cid: ClientIdBytes, k: nat): nat
    requires k < 8
  {
    match k
    case 0 => LEValue(cid)
    case 1 => SspiOffset(m)
    case 2 => Min(|m.sspi|, 0xFFFF)
    case 3 => Offset(m, 9)
    case 4 => Count(m.attachDbFile)
    case 5 => Offset(m, 10)
    case 6 => Count(m.changePassword)
    case 7 => if |m.sspi| > 0xFFFF then Wrap(|m.sspi|, 0x1_0000_0000) else 0
  }

  /**
   * Fixed-part word k, as the writer emits it: the header, then an
   * offset/length pair for each of the first nine data items, then the rest.
   */
  function FixedWord(m: Login7Fields, total: nat, cid: ClientIdBytes, k: nat): (r: nat)
    requires k < 38
    ensures r < WordBound(k)
  {
    if k < 12 then HeaderWord(m, total, k)
    else if k < 30 then
      if (k - 12) % 2 == 0 then ItemOffset(m, (k - 12) / 2) else ItemLength(m, (k - 12) / 2)
    else
      Pow256Widths();
      TailWord(m, cid, k - 30)
  }

  /** The fixed-part words, in the order the writer emits them. */
  function FixedWords(m: Login7Fields, total: nat, cid: ClientIdBytes): (r: seq<nat>)
    ensures |r| == FixedCount(Is72(m))
  {
    seq(FixedCount(Is72(m)), k requires 0 <= k < FixedCount(Is72(m)) => FixedWord(m, total, cid, k))
  }

  /**
   * Data item k, as the writer emits it. Language has a slot in the table
   * (item 7) but is never written, so what follows it lands 2·|Language|
   * bytes before the place the table gives. Item 11 is SSPI.
   */
  function DataSegment(m: Login7Fields, k: nat): bytes
    requires k < 12
  {
    match k
    case 0 => UnicodeBytes(m.hostName)
    case 1 => UnicodeBytes(m.userName)
    case 2 => PasswordBytes(m.password)
    case 3 => UnicodeBytes(m.appName)
    case 4 => UnicodeBytes(m.serverName)
    case 5 => if ExtensionFlagged(m) then LE(Wrap(FixedLength(Is72(m)) + DataLength(m), 0x1_0000_0000), 4) else []
    case 6 => UnicodeBytes(m.clientInterfaceName)
    case 7 => []
    case 8 => UnicodeBytes(m.database)
    case 9 => UnicodeBytes(m.attachDbFile)
    case 10 => if Is72(m) then PasswordBytes(m.changePassword) else []
    case 11 => m.sspi
  }

  /** The twelve data items, in the order they are written. */
  function DataSegments(m: Login7Fields): (r: seq<bytes>)
    ensures |r| == 12
  {
    seq(12, k requires 0 <= k < 12 => DataSegment(m, k))
  }

  /** The first k of a list of byte strings, one after the other. */
  function Joined(segs: seq<bytes>, k: nat): bytes
    requires k <= |segs|
  {
    if k == 0 then [] else Joined(segs, k - 1) + segs[k - 1]
  }

  /**
   * The payload GeneratePayload produces: an Overflow error when the
   * buffer size does not fit a 32-bit int, an Argument error when there
   * is no ClientID to write, and otherwise the fixed part, the data, the
   * feature chain and the buffer's unwritten tail.
   */
  function GeneratedPayload(m: Login7Fields): (r: Result<bytes>)
    ensures r.Err? ==> r.error == Overflow || r.error == Argument
    ensures r.Ok? ==> TotalLength(m) < 0x8000_0000 && m.clientId.Some?
  {
    var total := TotalLength(m);
    if total >= 0x8000_0000 then Err(Overflow)
    else if m.clientId.None? then Err(Argument)
    else
      var fixed := FixedWords(m, total, m.clientId.value);
      Ok(WordBytes(fixed, |fixed|) + (Joined(DataSegments(m), 12) + FeatureBlock(m) + Zeros(2 * |m.language|)))
  }

  // ---------------------------------------------------------------------
  // InterpretPayload, as functions (one per phase)
  // ---------------------------------------------------------------------

  /** What the reader takes from the fixed part. */
  datatype FixedPart = FixedPart(
    length: i32,
    tdsVersion: u32, packetSize: u32, clientProgVer: u32, clientPid: u32, connectionId: u32,
    optionFlags1: byte, optionFlags2: byte, typeFlags: byte, optionFlags3: byte,
    clientTimeZone: i32, clientLcid: u32,
    hostNameOffset: u16, hostNameLength: u16, userNameOffset: u16, userNameLength: u16,
    passwordOffset: u16, passwordLength: u16, appNameOffset: u16, appNameLength: u16,
    serverNameOffset: u16, serverNameLength: u16, extensionOffset: u16, extensionLength: u16,
    cltIntNameOffset: u16, cltIntNameLength: u16, languageOffset: u16, languageLength: u16,
    databaseOffset: u16, databaseLength: u16,
    clientId: ClientIdBytes, sspiOffset: u16, sspiLength: u32,
    attachDbFileOffset: u16, attachDbFileLength: u16,
    changePasswordOffset: u16, changePasswordLength: u16,
    fixedEnd: nat)

  /**
   * Reads the fixed part. The three TDS 7.2 words are read only when the
   * version says 7.2 and the data block starts at least 8 bytes past the
   * 86-byte base; a short cbSSPI of 0xFFFF then defers to cbSSPILong.
   */
  function DecodeFixed(p: bytes): (r: Result<FixedPart>)
    ensures r.Err? ==> r.error == EndOfStream || r.error == InvalidMessage
    ensures r.Ok? ==> r.value.length <= |p| && r.value.fixedEnd <= |p|
    ensures r.Ok? ==> (r.value.fixedEnd == 94 <==> r.value.tdsVersion >= Version72 && r.value.hostNameOffset >= 94)
    ensures r.Ok? ==> (r.value.fixedEnd == 86 <==> !(r.value.tdsVersion >= Version72 && r.value.hostNameOffset >= 94))
  {
    if |p| < 4 then Err(EndOfStream)
    else
      var length := I32OfU32(U32Word(p, 0));
      if length > |p| then Err(InvalidMessage)
      else if |p| < 86 then Err(EndOfStream)
      else
        var tdsVersion := U32Word(p, 1);
        var hostNameOffset := U16Word(p, 12);
        var extra := tdsVersion >= Version72 && hostNameOffset >= 86 + 8;
        if extra && |p| < 94 then Err(EndOfStream)
        else
          var cbSspi := U16Word(p, 32);
          var sspiLong: u32 := if extra then U32Word(p, 37) else 0;
          Ok(FixedPart(
            length, tdsVersion, U32Word(p, 2), U32Word(p, 3), U32Word(p, 4), U32Word(p, 5),
            ByteWord(p, 6), ByteWord(p, 7), ByteWord(p, 8), ByteWord(p, 9),
            I32OfU32(U32Word(p, 10)), U32Word(p, 11),
            hostNameOffset, U16Word(p, 13), U16Word(p, 14), U16Word(p, 15),
            U16Word(p, 16), U16Word(p, 17), U16Word(p, 18), U16Word(p, 19),
            U16Word(p, 20), U16Word(p, 21), U16Word(p, 22), U16Word(p, 23),
            U16Word(p, 24), U16Word(p, 25), U16Word(p, 26), U16Word(p, 27),
            U16Word(p, 28), U16Word(p, 29),
            p[72..78], U16Word(p, 31), if extra && cbSspi == 0xFFFF then sspiLong else cbSspi,
            U16Word(p, 33), U16Word(p, 34),
            if extra then U16Word(p, 35) else 0, if extra then U16Word(p, 36) else 0,
            if extra then 94 else 86))
  }

  /** The extension block counts only from TDS 7.4 on. */
  predicate HasExtension(fx: FixedPart)
  {
    fx.tdsVersion >= Version74 && HasFlag(fx.optionFlags3, ExtensionFlag)
  }

  /** Where an item of the data block ends, or 0 for an empty item. */
  function EndOffset(start: nat, len: nat): nat { if len > 0 then start + len else 0 }

  function MaxOf(s: seq<nat>): (r: nat)
    ensures forall k :: 0 <= k < |s| ==> s[k] <= r
    ensures |s| > 0 ==> exists k :: 0 <= k < |s| && s[k] == r
  {
    if |s| == 0 then 0
    else
      var rest := MaxOf(s[1..]);
      if |s| > 1 && rest >= s[0] then
        assert s[1..][0] == s[1];
        rest
      else s[0]
  }

  /**
   * The end of the data block: the furthest end of any item the table
   * declares, and at least ibHostName. The SSPI end is a 32-bit sum.
   */
  function DataEnd(fx: FixedPart): nat
  {
    MaxOf([fx.hostNameOffset,
           EndOffset(fx.hostNameOffset, 2 * fx.hostNameLength),
           EndOffset(fx.userNameOffset, 2 * fx.userNameLength),
           EndOffset(fx.passwordOffset, 2 * fx.passwordLength),
           EndOffset(fx.appNameOffset, 2 * fx.appNameLength),
           EndOffset(fx.serverNameOffset, 2 * fx.serverNameLength),
           if HasExtension(fx) then EndOffset(fx.extensionOffset, fx.extensionLength) else 0,
           EndOffset(fx.cltIntNameOffset, 2 * fx.cltIntNameLength),
           EndOffset(fx.languageOffset, 2 * fx.languageLength),
           EndOffset(fx.databaseOffset, 2 * fx.databaseLength),
           Wrap(EndOffset(fx.sspiOffset, fx.sspiLength), 0x1_0000_0000),
           EndOffset(fx.attachDbFileOffset, 2 * fx.attachDbFileLength),
           EndOffset(fx.changePasswordOffset, 2 * fx.changePasswordLength)])
  }

  /** A string item: the reader seeks to its offset, or skips it when its count is 0. Returns the new position too. */
  function StringAt(p: bytes, pos: nat, offset: nat, count: nat): (Utf16, nat)
  {
    if count == 0 then ([], pos) else (GetUnicode(p, offset, count), offset + Avail(p, offset, 2 * count))
  }

  /** A password item: the reader reads at its CURRENT position, whatever the offset says. */
  function PasswordAt(p: bytes, pos: nat, count: nat): (Utf16, nat)
  {
    if count == 0 then ([], pos)
    else (DecodeUnicode(Unobfuscate(Take(p, pos, 2 * count))), pos + |Take(p, pos, 2 * count)|)
  }

  /**
   * The extension slot: with an extension, cbExtension must be at least 4
   * and the ibFeatureExt it holds must lie neither in the fixed part nor
   * inside the data block. Returns ibFeatureExt (0 without an extension)
   * and the new position.
   */
  function ExtensionAt(p: bytes, fx: FixedPart, pos: nat): Result<(nat, nat)>
  {
    if !HasExtension(fx) then Ok((0, pos))
    else if fx.extensionLength < 4 then Err(InvalidMessage)
    else
      var featureExtOffset :- GetU32(p, fx.extensionOffset);
      if featureExtOffset != 0 && featureExtOffset < fx.fixedEnd then Err(InvalidMessage)
      else if featureExtOffset >= fx.hostNameOffset && featureExtOffset < DataEnd(fx) then Err(InvalidMessage)
      else Ok((featureExtOffset, fx.extensionOffset + 4))
  }

  /** The SSPI blob; a length of 2^31 or more is refused by the signed count the reader takes. */
  function SspiAt(p: bytes, fx: FixedPart, pos: nat): Result<(bytes, nat)>
  {
    if fx.sspiLength == 0 then Ok(([], pos))
    else if fx.sspiLength >= 0x8000_0000 then Err(Argument)
    else
      var b := Take(p, fx.sspiOffset, fx.sspiLength);
      Ok((b, fx.sspiOffset + |b|))
  }

  /**
   * The feature-extension chain from pos up to the terminator, bounded by
   * the declared length. Returns the features and the position after the
   * terminator.
   */
  function ReadFeatures(p: bytes, pos: nat, length: int): Result<(seq<FeatureOpt>, nat)>
    decreases length - pos
  {
    if pos >= length then Err(InvalidMessage)
    else
      var id :- GetByte(p, pos);
      if id == TerminatorId then Ok(([], pos + 1))
      else if pos + 1 + 4 > length then Err(InvalidMessage)
      else
        var len :- GetI32(p, pos + 1);
        if pos + 5 + len > length then Err(InvalidMessage)
        else if len < 0 then Err(Argument)
        else
          var rest :- ReadFeatures(p, pos + 5 + len, length);
          Ok(([FeatureOpt(id, Take(p, pos + 5, len))] + rest.0, rest.1))
  }

  /** The chain at ibFeatureExt; it may not run into the data block from before it. */
  function FeatureBlockAt(p: bytes, fx: FixedPart, featureExtOffset: nat): Result<seq<FeatureOpt>>
  {
    var r :- ReadFeatures(p, featureExtOffset, fx.length);
    if featureExtOffset < fx.hostNameOffset && r.1 > fx.hostNameOffset then Err(InvalidMessage)
    else Ok(r.0)
  }

  /**
   * Everything after the fixed part. The message's previous FeatureExt
   * survives unless a feature chain is read.
   */
  function DecodeData(prior: Option<seq<FeatureOpt>>, p: bytes, fx: FixedPart): (r: Result<Login7Fields>)
    ensures r.Ok? ==> fx.fixedEnd <= fx.hostNameOffset && DataEnd(fx) <= fx.length
    ensures r.Ok? ==> r.value.tdsVersion == fx.tdsVersion && r.value.clientId == Some(fx.clientId)
    ensures r.Ok? && !HasExtension(fx) ==> r.value.featureExt == prior
  {
    if fx.fixedEnd > fx.hostNameOffset then Err(InvalidMessage)
    else if DataEnd(fx) > fx.length then Err(InvalidMessage)
    else
      var (hostName, pos1) := StringAt(p, fx.fixedEnd, fx.hostNameOffset, fx.hostNameLength);
      var (userName, pos2) := StringAt(p, pos1, fx.userNameOffset, fx.userNameLength);
      var (password, pos3) := PasswordAt(p, pos2, fx.passwordLength);
      var (appName, pos4) := StringAt(p, pos3, fx.appNameOffset, fx.appNameLength);
      var (serverName, pos5) := StringAt(p, pos4, fx.serverNameOffset, fx.serverNameLength);
      var ext :- ExtensionAt(p, fx, pos5);
      var (cltIntName, pos7) := StringAt(p, ext.1, fx.cltIntNameOffset, fx.cltIntNameLength);
      var (language, pos8) := StringAt(p, pos7, fx.languageOffset, fx.languageLength);
      var (database, pos9) := StringAt(p, pos8, fx.databaseOffset, fx.databaseLength);
      var sspi :- SspiAt(p, fx, pos9);
      var (attachDbFile, pos11) := StringAt(p, sspi.1, fx.attachDbFileOffset, fx.attachDbFileLength);
      var (changePassword, _) := PasswordAt(p, pos11, fx.changePasswordLength);
      var featureExt :-
        if HasExtension(fx) && ext.0 > 0 then
          var fs :- FeatureBlockAt(p, fx, ext.0); Ok(Some(fs))
        else Ok(prior);
      Ok(Login7Fields(
        fx.tdsVersion, fx.packetSize, fx.clientProgVer, fx.clientPid, fx.connectionId,
        fx.optionFlags1, fx.optionFlags2, fx.typeFlags, fx.optionFlags3,
        fx.clientTimeZone, fx.clientLcid,
        hostName, userName, password, appName, serverName, featureExt,
        cltIntName, language, database, Some(fx.clientId), sspi.0, attachDbFile, changePassword))
  }

  /** InterpretPayload: the fields a payload decodes to, given the FeatureExt the message held before. */
  function Decode(prior: Option<seq<FeatureOpt>>, p: bytes): (r: Result<Login7Fields>)
    ensures |p| < 4 ==> r == Err(EndOfStream)
    ensures r.Ok? ==>
      && DecodeFixed(p).Ok? && DecodeFixed(p).value.length <= |p|
      && DecodeFixed(p).value.fixedEnd <= DecodeFixed(p).value.hostNameOffset
      && DataEnd(DecodeFixed(p).value) <= DecodeFixed(p).value.length
  {
    var fx :- DecodeFixed(p);
    DecodeData(prior, p, fx)
  }
}
