/**
 * What GeneratePayload and InterpretPayload of LOGIN7 promise about each
 * other: the layout of a generated payload, and that decoding it gives
 * back the message, for every message whose fields the wire format can
 * carry and that avoids the reader's known blind spots.
 */
module Login7Proofs {
  import opened Wire
  import opened Io
  import opened Login7

  // ---------------------------------------------------------------------
  // The word table
  // ---------------------------------------------------------------------

  lemma FieldPosStep(k: nat)
    ensures FieldPos(k + 1) == FieldPos(k) + FieldWidth(k)
  {
  }

  lemma FieldPosMonotone(i: nat, j: nat)
    requires i <= j
    ensures FieldPos(i) <= FieldPos(j)
  {
  }

  /** The first i words are a prefix of the first j. */
  lemma {:induction false} WordBytesPrefix(vs: seq<nat>, i: nat, j: nat)
    requires i <= j <= |vs|
    ensures WordBytes(vs, j)[..FieldPos(i)] == WordBytes(vs, i)
  {
    if i < j {
      WordBytesPrefix(vs, i, j - 1);
      FieldPosMonotone(i, j - 1);
      var w := FieldWidth(j - 1);
      assert WordBytes(vs, j) == WordBytes(vs, j - 1) + LE(vs[j - 1] % Pow256(w), w);
    }
  }

  /** Reading word k of written words gives the value written, cast to the word's width. */
  lemma WordOfWordBytes(vs: seq<nat>, n: nat, rest: bytes, k: nat)
    requires k < n <= |vs|
    ensures FieldPos(k + 1) <= |WordBytes(vs, n) + rest|
    ensures Word(WordBytes(vs, n) + rest, k) == vs[k] % Pow256(FieldWidth(k))
  {
    var p := WordBytes(vs, n) + rest;
    var w := FieldWidth(k);
    WordBytesPrefix(vs, k + 1, n);
    FieldPosMonotone(k + 1, n);
    FieldPosStep(k);
    assert p[..FieldPos(k + 1)] == WordBytes(vs, k + 1);
    assert WordBytes(vs, k + 1) == WordBytes(vs, k) + LE(vs[k] % Pow256(w), w);
    assert p[FieldPos(k)..FieldPos(k + 1)] == LE(vs[k] % Pow256(w), w);
    LEValueOfLE(vs[k] % Pow256(w), w);
  }

  // ---------------------------------------------------------------------
  // Messages the round trip covers
  // ---------------------------------------------------------------------

  /**
   * A message whose generated payload decodes back to itself:
   * - it has a ClientID, and the buffer size fits a 32-bit int;
   * - every offset fits 16 bits;
   * - Language is empty, since the writer reserves it but never writes it;
   * - ChangePassword is empty before TDS 7.2, where it has no slot;
   * - the extension flag is set exactly when a FeatureExt list is present,
   *   and only from TDS 7.4 on, where the reader honours it;
   * - no feature uses the terminator's identifier;
   * - SSPI does not take exactly 0xFFFF bytes, and takes more only from
   *   TDS 7.2 on, where cbSSPILong carries its length;
   * - ChangePassword is not read from a wrong position, as it would be
   *   when AttachDBFile is empty and SSPI is not.
   */
  predicate Encodable(m: Login7Fields)
  {
    && Fits(m)
    && m.clientId.Some?
    && TotalLength(m) < 0x8000_0000
    && (Is72(m) || m.changePassword == [])
    && (ExtensionFlagged(m) <==> m.featureExt.Some?)
    && (ExtensionFlagged(m) ==> m.tdsVersion >= Version74)
    && (m.featureExt.Some? ==> NoTerminator(m.featureExt.value))
    && (|m.sspi| < 0xFFFF || (Is72(m) && |m.sspi| > 0xFFFF))
    && (m.attachDbFile != [] || m.sspi == [] || m.changePassword == [])
  }

  /** Every offset fits 16 bits, and Language, which the writer never writes, is empty. */
  predicate Fits(m: Login7Fields)
  {
    FixedLength(Is72(m)) + SizesBefore(m, 11) <= 0xFFFF && m.language == []
  }

  /** No feature uses the terminator's identifier. */
  predicate NoTerminator(fs: seq<FeatureOpt>)
  {
    forall i :: 0 <= i < |fs| ==> fs[i].id != TerminatorId
  }

  function Fixed(m: Login7Fields): (r: seq<nat>)
    requires Encodable(m)
  {
    FixedWords(m, TotalLength(m), m.clientId.value)
  }

  /** What follows the fixed part: the data block, the feature chain and the unwritten tail. */
  function Tail(m: Login7Fields): bytes
  {
    Joined(DataSegments(m), 12) + FeatureBlock(m) + Zeros(2 * |m.language|)
  }

  /** The payload GeneratePayload produces for an encodable message. */
  function Payload(m: Login7Fields): bytes
    requires Encodable(m)
  {
    WordBytes(Fixed(m), |Fixed(m)|) + Tail(m)
  }

  lemma PayloadIsGenerated(m: Login7Fields)
    requires Encodable(m)
    ensures GeneratedPayload(m) == Ok(Payload(m))
  {
  }

  /** Word k of the payload is the fixed-part word the writer emitted, cast to its width. */
  lemma PayloadWord(m: Login7Fields, k: nat)
    requires Encodable(m) && k < FixedCount(Is72(m))
    ensures FieldPos(k + 1) <= |Payload(m)|
    ensures Word(Payload(m), k) == FixedWord(m, TotalLength(m), m.clientId.value, k) % Pow256(FieldWidth(k))
  {
    WordOfWordBytes(Fixed(m), |Fixed(m)|, Tail(m), k);
  }

  /** The fixed part the reader should take from the payload of m. */
  function ExpectedFixed(m: Login7Fields): FixedPart
    requires m.clientId.Some? && TotalLength(m) < 0x8000_0000
  {
    var ext := ExtensionFlagged(m);
    var is72 := Is72(m);
    FixedPart(
      TotalLength(m), m.tdsVersion, m.packetSize, m.clientProgVer, m.clientPid, m.connectionId,
      m.optionFlags1, m.optionFlags2, m.typeFlags, m.optionFlags3, m.clientTimeZone, m.clientLcid,
      Offset(m, 0), Count(m.hostName), Offset(m, 1), Count(m.userName), Offset(m, 2), Count(m.password),
      Offset(m, 3), Count(m.appName), Offset(m, 4), Count(m.serverName),
      if ext then Offset(m, 5) else 0, if ext then 4 else 0,
      Offset(m, 6), Count(m.clientInterfaceName), Offset(m, 7), Count(m.language),
      Offset(m, 8), Count(m.database),
      m.clientId.value, SspiOffset(m), |m.sspi|, Offset(m, 9), Count(m.attachDbFile),
      if is72 then Offset(m, 10) else 0, if is72 then Count(m.changePassword) else 0,
      FixedLength(is72))
  }

  // ---------------------------------------------------------------------
  // Running offsets and the data block
  // ---------------------------------------------------------------------

  lemma {:induction false} SizesBeforeMonotone(m: Login7Fields, i: nat, j: nat)
    requires i <= j <= 11
    ensures SizesBefore(m, i) <= SizesBefore(m, j)
  {
    if i < j {
      SizesBeforeMonotone(m, i, j - 1);
    }
  }

  /** Without a 16-bit wrap, the offset of item k is the fixed length plus the sizes before it. */
  lemma OffsetNoWrap(m: Login7Fields, k: nat)
    requires FixedLength(Is72(m)) + SizesBefore(m, 11) < 0x1_0000 && k <= 11
    ensures Offset(m, k) == FixedLength(Is72(m)) + SizesBefore(m, k)
  {
    SizesBeforeMonotone(m, k, 11);
  }

  /** Items j, ..., k - 1 of a list of byte strings, one after the other. */
  function JoinedFrom(segs: seq<bytes>, j: nat, k: nat): bytes
    requires j <= k <= |segs|
    decreases k
  {
    if k == j then [] else JoinedFrom(segs, j, k - 1) + segs[k - 1]
  }

  lemma {:induction false} JoinedSplit(segs: seq<bytes>, j: nat, k: nat)
    requires j <= k <= |segs|
    ensures Joined(segs, k) == Joined(segs, j) + JoinedFrom(segs, j, k)
  {
    if j < k {
      JoinedSplit(segs, j, k - 1);
    }
  }

  lemma {:induction false} JoinedFromFirst(segs: seq<bytes>, j: nat, k: nat)
    requires j < k <= |segs|
    ensures JoinedFrom(segs, j, k) == segs[j] + JoinedFrom(segs, j + 1, k)
  {
    if j + 1 < k {
      JoinedFromFirst(segs, j, k - 1);
    }
  }

  /** With Language empty, data item k takes the bytes its slot declares. */
  lemma SegmentSize(m: Login7Fields, k: nat)
    requires m.language == [] && k < 11
    ensures |DataSegments(m)[k]| == Size(m, k)
  {
  }

  lemma {:induction false} DataBeforeLength(m: Login7Fields, k: nat)
    requires m.language == [] && k <= 11
    ensures |Joined(DataSegments(m), k)| == SizesBefore(m, k)
  {
    if k > 0 {
      DataBeforeLength(m, k - 1);
      SegmentSize(m, k - 1);
    }
  }

  lemma {:induction false} FeatureBytesLength(fs: seq<FeatureOpt>)
    ensures |FeatureBytes(fs)| == FeaturesLength(fs)
  {
    if |fs| > 0 {
      FeatureBytesLength(fs[1..]);
    }
  }

  /** Where data item k starts in the payload of m. */
  function DataPos(m: Login7Fields, k: nat): nat
    requires k <= 12
  {
    FixedLength(Is72(m)) + |Joined(DataSegments(m), k)|
  }

  /** Before SSPI the items sit where the table's running offset says. */
  lemma DataPosIsOffset(m: Login7Fields, k: nat)
    requires Fits(m) && k <= 11
    ensures DataPos(m, k) == FixedLength(Is72(m)) + SizesBefore(m, k) == Offset(m, k)
  {
    DataBeforeLength(m, k);
    OffsetNoWrap(m, k);
  }

  lemma DataBlockLength(m: Login7Fields)
    requires Fits(m)
    ensures |Joined(DataSegments(m), 12)| == DataLength(m)
  {
    DataBeforeLength(m, 11);
  }

  /** The buffer is exactly filled: its length is the size the writer allocates. */
  lemma PayloadLength(m: Login7Fields)
    requires Encodable(m)
    ensures |Payload(m)| == TotalLength(m)
  {
    DataBlockLength(m);
    if WritesFeatures(m) {
      FeatureBytesLength(m.featureExt.value);
    }
  }

  /** A buffer holding joined segments, split around segment k. */
  lemma JoinedAt(pre: bytes, segs: seq<bytes>, k: nat, post1: bytes, post2: bytes)
    requires k < |segs|
    ensures pre + (Joined(segs, |segs|) + post1 + post2)
         == (pre + Joined(segs, k)) + segs[k] + (JoinedFrom(segs, k + 1, |segs|) + post1 + post2)
  {
    JoinedSplit(segs, k, |segs|);
    JoinedFromFirst(segs, k, |segs|);
    var jk, s, g := Joined(segs, k), segs[k], JoinedFrom(segs, k + 1, |segs|);
    calc {
      pre + (Joined(segs, |segs|) + post1 + post2);
      pre + ((jk + (s + g)) + post1 + post2);
      { Assoc(jk + (s + g), post1, post2); }
      pre + ((jk + (s + g)) + (post1 + post2));
      { Assoc(jk, s + g, post1 + post2); Assoc(s, g, post1 + post2); }
      pre + (jk + (s + (g + (post1 + post2))));
      { Assoc(g, post1, post2); }
      pre + (jk + (s + ((g + post1) + post2)));
      { Assoc(pre, jk, s + ((g + post1) + post2)); Assoc(pre + jk, s, (g + post1) + post2); }
      (pre + jk) + s + ((g + post1) + post2);
    }
  }

  lemma Assoc(a: bytes, b: bytes, c: bytes)
    ensures (a + b) + c == a + (b + c)
  {
  }

  /** The payload around data item k. */
  lemma PayloadAt(m: Login7Fields, k: nat)
    requires Encodable(m) && k < 12
    ensures var segs := DataSegments(m);
      Payload(m) == (WordBytes(Fixed(m), |Fixed(m)|) + Joined(segs, k))
                    + segs[k]
                    + (JoinedFrom(segs, k + 1, 12) + FeatureBlock(m) + Zeros(2 * |m.language|))
    ensures |WordBytes(Fixed(m), |Fixed(m)|) + Joined(DataSegments(m), k)| == DataPos(m, k)
  {
    JoinedAt(WordBytes(Fixed(m), |Fixed(m)|), DataSegments(m), k, FeatureBlock(m), Zeros(2 * |m.language|));
  }

  // ---------------------------------------------------------------------
  // Reading the fixed part back
  // ---------------------------------------------------------------------

  lemma LEValueBound(s: bytes)
    requires |s| == 6
    ensures LEValue(s) < 0x1_0000_0000_0000
  {
    Pow256Widths();
  }

  lemma ClientIdWord(p: bytes, cid: ClientIdBytes)
    requires |p| >= 78 && Word(p, 30) == LEValue(cid)
    ensures p[72..78] == cid
  {
    LEOfLEValue(p[72..78]);
    LEOfLEValue(cid);
  }

  /** Every word of vs fits its width. */
  ghost predicate InRange(vs: seq<nat>)
  {
    forall k :: 0 <= k < |vs| ==> vs[k] < WordBound(k)
  }

  lemma ModOfSmall(x: nat, n: nat)
    requires x < n
    ensures x % n == x
  {
  }

  lemma WordBoundIsPow(k: nat)
    ensures WordBound(k) == Pow256(FieldWidth(k))
  {
    Pow256Widths();
  }

  lemma WordInRange(vs: seq<nat>, rest: bytes, k: nat)
    requires InRange(vs) && k < |vs|
    ensures FieldPos(k + 1) <= |WordBytes(vs, |vs|) + rest|
    ensures Word(WordBytes(vs, |vs|) + rest, k) == vs[k]
  {
    WordOfWordBytes(vs, |vs|, rest, k);
    WordBoundIsPow(k);
    ModOfSmall(vs[k], Pow256(FieldWidth(k)));
  }

  /** Every word a writer emitted reads back. */
  lemma AllWords(vs: seq<nat>, rest: bytes)
    requires InRange(vs)
    ensures FieldPos(|vs|) <= |WordBytes(vs, |vs|) + rest|
    ensures forall k :: 0 <= k < |vs| ==> Word(WordBytes(vs, |vs|) + rest, k) == vs[k]
  {
    forall k | 0 <= k < |vs|
      ensures Word(WordBytes(vs, |vs|) + rest, k) == vs[k]
    {
      WordInRange(vs, rest, k);
    }
  }

  /** TDS 7.2 words are read when the version says 7.2 and ibHostName leaves room for them. */
  predicate ReadsExtra(vs: seq<nat>)
    requires |vs| > 12
  {
    vs[1] >= Version72 && vs[12] >= 86 + 8
  }

  /** The fixed part a reader takes from words vs (at least the 35 before TDS 7.2) and the ClientID bytes. */
  function FixedOfWords(vs: seq<nat>, cid: ClientIdBytes): FixedPart
    requires |vs| >= 35 && InRange(vs) && (ReadsExtra(vs) ==> |vs| == 38)
  {
    var extra := ReadsExtra(vs);
    FixedPart(
      I32OfU32(vs[0]), vs[1], vs[2], vs[3], vs[4], vs[5], vs[6], vs[7], vs[8], vs[9],
      I32OfU32(vs[10]), vs[11],
      vs[12], vs[13], vs[14], vs[15], vs[16], vs[17], vs[18], vs[19], vs[20], vs[21],
      vs[22], vs[23], vs[24], vs[25], vs[26], vs[27], vs[28], vs[29],
      cid, vs[31], if extra && vs[32] == 0xFFFF then vs[37] else vs[32], vs[33], vs[34],
      if extra then vs[35] else 0, if extra then vs[36] else 0,
      if extra then 94 else 86)
  }

  /** A buffer holding the words vs reads back as the fixed part they describe. */
  lemma DecodeFixedOfWords(p: bytes, vs: seq<nat>)
    requires |vs| >= 35 && InRange(vs) && (ReadsExtra(vs) ==> |vs| == 38)
    requires FieldPos(|vs|) <= |p| && I32OfU32(vs[0]) <= |p|
    requires forall k :: 0 <= k < |vs| ==> Word(p, k) == vs[k]
    ensures DecodeFixed(p) == Ok(FixedOfWords(vs, p[72..78]))
  {
    FieldPosMonotone(4, |vs|);
  }

  lemma FixedInRange(m: Login7Fields)
    requires Encodable(m)
    ensures InRange(Fixed(m))
  {
  }

  lemma PayloadWords(m: Login7Fields)
    requires Encodable(m)
    ensures |Payload(m)| == TotalLength(m)
    ensures InRange(Fixed(m))
    ensures FieldPos(|Fixed(m)|) <= |Payload(m)|
    ensures forall k :: 0 <= k < |Fixed(m)| ==> Word(Payload(m), k) == Fixed(m)[k]
  {
    PayloadLength(m);
    FixedInRange(m);
    AllWords(Fixed(m), Tail(m));
  }

  /** The header words vs[0..12] of a message m whose buffer has size total. */
  ghost predicate HeaderWordsAre(vs: seq<nat>, m: Login7Fields, total: nat)
  {
    && |vs| >= 12
    && vs[0] == Wrap(total, 0x1_0000_0000) && vs[1] == m.tdsVersion && vs[2] == m.packetSize
    && vs[3] == m.clientProgVer && vs[4] == m.clientPid && vs[5] == m.connectionId
    && vs[6] == m.optionFlags1 && vs[7] == m.optionFlags2 && vs[8] == m.typeFlags
    && vs[9] == m.optionFlags3 && vs[10] == U32OfI32(m.clientTimeZone) && vs[11] == m.clientLcid
  }

  /** The offset/length pairs vs[12..30] of m. */
  ghost predicate TableWordsAre(vs: seq<nat>, m: Login7Fields)
  {
    var ext := ExtensionFlagged(m);
    && |vs| >= 30
    && vs[12] == Offset(m, 0) && vs[13] == Count(m.hostName)
    && vs[14] == Offset(m, 1) && vs[15] == Count(m.userName)
    && vs[16] == Offset(m, 2) && vs[17] == Count(m.password)
    && vs[18] == Offset(m, 3) && vs[19] == Count(m.appName)
    && vs[20] == Offset(m, 4) && vs[21] == Count(m.serverName)
    && vs[22] == (if ext then Offset(m, 5) else 0) && vs[23] == (if ext then 4 else 0)
    && vs[24] == Offset(m, 6) && vs[25] == Count(m.clientInterfaceName)
    && vs[26] == Offset(m, 7) && vs[27] == Count(m.language)
    && vs[28] == Offset(m, 8) && vs[29] == Count(m.database)
  }

  /** The words vs[30..] of m with ClientID cid. */
  ghost predicate TailWordsAre(vs: seq<nat>, m: Login7Fields, cid: ClientIdBytes)
  {
    && |vs| >= 35
    && vs[30] == LEValue(cid) && vs[31] == SspiOffset(m) && vs[32] == Min(|m.sspi|, 0xFFFF)
    && vs[33] == Offset(m, 9) && vs[34] == Count(m.attachDbFile)
    && (|vs| >= 38 ==>
          && vs[35] == Offset(m, 10) && vs[36] == Count(m.changePassword)
          && vs[37] == if |m.sspi| > 0xFFFF then Wrap(|m.sspi|, 0x1_0000_0000) else 0)
  }

  lemma HeaderWordsOf(m: Login7Fields, total: nat, cid: ClientIdBytes)
    ensures HeaderWordsAre(FixedWords(m, total, cid), m, total)
  {
  }

  lemma TableWordsOf(m: Login7Fields, total: nat, cid: ClientIdBytes)
    ensures TableWordsAre(FixedWords(m, total, cid), m)
  {
  }

  lemma TailWordsOf(m: Login7Fields, total: nat, cid: ClientIdBytes)
    ensures TailWordsAre(FixedWords(m, total, cid), m, cid)
  {
  }

  lemma ExtraWords(m: Login7Fields, vs: seq<nat>)
    requires Encodable(m) && |vs| == FixedCount(Is72(m))
    requires HeaderWordsAre(vs, m, TotalLength(m)) && TableWordsAre(vs, m)
    ensures ReadsExtra(vs) <==> Is72(m)
  {
    OffsetNoWrap(m, 0);
  }

  lemma HeaderFields(m: Login7Fields, vs: seq<nat>)
    requires Encodable(m) && |vs| == FixedCount(Is72(m)) && InRange(vs)
    requires HeaderWordsAre(vs, m, TotalLength(m)) && (ReadsExtra(vs) ==> |vs| == 38)
    ensures var x, y := FixedOfWords(vs, m.clientId.value), ExpectedFixed(m);
      && x.length == y.length && x.tdsVersion == y.tdsVersion && x.packetSize == y.packetSize
      && x.clientProgVer == y.clientProgVer && x.clientPid == y.clientPid
      && x.connectionId == y.connectionId && x.optionFlags1 == y.optionFlags1
      && x.optionFlags2 == y.optionFlags2 && x.typeFlags == y.typeFlags
      && x.optionFlags3 == y.optionFlags3 && x.clientTimeZone == y.clientTimeZone
      && x.clientLcid == y.clientLcid
  {
    I32OfU32OfI32(m.clientTimeZone);
  }

  lemma I32OfU32OfI32(v: i32)
    ensures I32OfU32(U32OfI32(v)) == v
  {
  }

  lemma TableFields(m: Login7Fields, vs: seq<nat>)
    requires Encodable(m) && |vs| == FixedCount(Is72(m)) && InRange(vs)
    requires TableWordsAre(vs, m) && (ReadsExtra(vs) ==> |vs| == 38)
    ensures var x, y := FixedOfWords(vs, m.clientId.value), ExpectedFixed(m);
      && x.hostNameOffset == y.hostNameOffset && x.hostNameLength == y.hostNameLength
      && x.userNameOffset == y.userNameOffset && x.userNameLength == y.userNameLength
      && x.passwordOffset == y.passwordOffset && x.passwordLength == y.passwordLength
      && x.appNameOffset == y.appNameOffset && x.appNameLength == y.appNameLength
      && x.serverNameOffset == y.serverNameOffset && x.serverNameLength == y.serverNameLength
      && x.extensionOffset == y.extensionOffset && x.extensionLength == y.extensionLength
      && x.cltIntNameOffset == y.cltIntNameOffset && x.cltIntNameLength == y.cltIntNameLength
      && x.languageOffset == y.languageOffset && x.languageLength == y.languageLength
      && x.databaseOffset == y.databaseOffset && x.databaseLength == y.databaseLength
  {
  }

  lemma TailFields(m: Login7Fields, vs: seq<nat>)
    requires Encodable(m) && |vs| == FixedCount(Is72(m)) && InRange(vs)
    requires TailWordsAre(vs, m, m.clientId.value) && (ReadsExtra(vs) <==> Is72(m))
    ensures var x, y := FixedOfWords(vs, m.clientId.value), ExpectedFixed(m);
      && x.clientId == y.clientId && x.sspiOffset == y.sspiOffset && x.sspiLength == y.sspiLength
      && x.attachDbFileOffset == y.attachDbFileOffset && x.attachDbFileLength == y.attachDbFileLength
      && x.changePasswordOffset == y.changePasswordOffset
      && x.changePasswordLength == y.changePasswordLength && x.fixedEnd == y.fixedEnd
  {
    assert |m.sspi| <= DataLength(m) <= TotalLength(m);
  }

  /** Words laid out as the writer lays them out describe the expected fixed part. */
  lemma FixedOfExpectedWords(m: Login7Fields, vs: seq<nat>)
    requires Encodable(m) && |vs| == FixedCount(Is72(m)) && InRange(vs)
    requires HeaderWordsAre(vs, m, TotalLength(m)) && TableWordsAre(vs, m)
    requires TailWordsAre(vs, m, m.clientId.value)
    ensures ReadsExtra(vs) <==> Is72(m)
    ensures FixedOfWords(vs, m.clientId.value) == ExpectedFixed(m)
  {
    ExtraWords(m, vs);
    HeaderFields(m, vs);
    TableFields(m, vs);
    TailFields(m, vs);
  }

  /** A buffer of the payload's length holding words laid out as the writer lays them out reads back as the expected fixed part. */
  lemma DecodeFixedOfLayout(m: Login7Fields, p: bytes, vs: seq<nat>)
    requires Encodable(m) && |vs| == FixedCount(Is72(m)) && InRange(vs)
    requires HeaderWordsAre(vs, m, TotalLength(m)) && TableWordsAre(vs, m)
    requires TailWordsAre(vs, m, m.clientId.value)
    requires |p| == TotalLength(m) && forall k :: 0 <= k < |vs| ==> Word(p, k) == vs[k]
    ensures DecodeFixed(p) == Ok(ExpectedFixed(m))
  {
    FixedOfExpectedWords(m, vs);
    DecodeFixedOfWords(p, vs);
    LEValueBound(m.clientId.value);
    ClientIdWord(p, m.clientId.value);
  }

  /** The reader takes from a generated payload the fixed part the writer put there. */
  lemma DecodeFixedOfPayload(m: Login7Fields)
    requires Encodable(m)
    ensures DecodeFixed(Payload(m)) == Ok(ExpectedFixed(m))
  {
    var total, cid := TotalLength(m), m.clientId.value;
    PayloadWords(m);
    HeaderWordsOf(m, total, cid);
    TableWordsOf(m, total, cid);
    TailWordsOf(m, total, cid);
    DecodeFixedOfLayout(m, Payload(m), Fixed(m));
  }

  // ---------------------------------------------------------------------
  // Where the data block and the chain sit
  // ---------------------------------------------------------------------

  /**
   * A buffer laid out as the writer lays out m past the fixed part. The
   * lemmas about the data block speak of any such buffer, so that the
   * words of the fixed part stay out of their proofs.
   */
  predicate Laid(m: Login7Fields, p: bytes)
  {
    FixedLength(Is72(m)) <= |p| && p[FixedLength(Is72(m))..] == Tail(m)
  }

  lemma PayloadLaid(m: Login7Fields)
    requires Encodable(m)
    ensures Laid(m, Payload(m))
  {
    var w := WordBytes(Fixed(m), |Fixed(m)|);
    assert |w| == FixedLength(Is72(m));
    assert (w + Tail(m))[|w|..] == Tail(m);
  }

  lemma SliceOfSlice(p: bytes, base: nat, i: nat, j: nat)
    requires base + i <= base + j <= |p|
    ensures p[base..][i..j] == p[base + i..base + j]
  {
  }

  lemma Regroup(a: bytes, b: bytes, g: bytes, post: bytes)
    ensures (a + (b + g)) + post == a + (b + (g + post))
  {
    Assoc(a, b + g, post);
    Assoc(b, g, post);
  }

  lemma MidSlice(q: bytes, a: bytes, b: bytes, c: bytes)
    requires q == a + (b + c)
    ensures q[|a|..|a| + |b|] == b
  {
  }

  /** Segment k of joined segments, found in a buffer that holds them from base on. */
  lemma SegmentOfJoined(p: bytes, base: nat, segs: seq<bytes>, k: nat, post: bytes)
    requires k < |segs| && base <= |p| && p[base..] == Joined(segs, |segs|) + post
    ensures base + |Joined(segs, k)| + |segs[k]| <= |p|
    ensures p[base + |Joined(segs, k)|..base + |Joined(segs, k)| + |segs[k]|] == segs[k]
  {
    JoinedSplit(segs, k, |segs|);
    JoinedFromFirst(segs, k, |segs|);
    var a, b, g := Joined(segs, k), segs[k], JoinedFrom(segs, k + 1, |segs|);
    Regroup(a, b, g, post);
    MidSlice(p[base..], a, b, g + post);
    SliceOfSlice(p, base, |a|, |a| + |b|);
  }

  /** With Language empty, the unwritten tail is empty. */
  lemma TailIs(m: Login7Fields)
    requires m.language == []
    ensures Tail(m) == Joined(DataSegments(m), 12) + FeatureBlock(m)
  {
  }

  // ---------------------------------------------------------------------
  // Reading the data block back
  // ---------------------------------------------------------------------

  /** Reading n code units at o, when they are there. */
  lemma StringAtOf(p: bytes, o: nat, s: Utf16)
    requires 0 < |s| && GetUnicode(p, o, |s|) == s && Avail(p, o, 2 * |s|) == 2 * |s|
    ensures StringAt(p, o, o, |s|) == (s, o + 2 * |s|)
  {
  }

  lemma PasswordAtOf(p: bytes, o: nat, pw: Utf16)
    requires 0 < |pw| && |Take(p, o, 2 * |pw|)| == 2 * |pw|
    requires DecodeUnicode(Unobfuscate(Take(p, o, 2 * |pw|))) == pw
    ensures PasswordAt(p, o, |pw|) == (pw, o + 2 * |pw|)
  {
  }

  /** Item k ends where item k + 1 starts, and its size fits 16 bits. */
  lemma ItemBounds(m: Login7Fields, k: nat)
    requires Fits(m) && k < 11
    ensures Offset(m, k + 1) == Offset(m, k) + Size(m, k)
    ensures Offset(m, k) + Size(m, k) <= 0xFFFF
  {
    OffsetNoWrap(m, k);
    OffsetNoWrap(m, k + 1);
    SizesBeforeMonotone(m, k + 1, 11);
  }

  /** Data item k sits at DataPos(m, k) in the payload. */
  lemma SegmentIn(m: Login7Fields, p: bytes, k: nat)
    requires Fits(m) && Laid(m, p) && k < 12
    ensures DataPos(m, k) + |DataSegments(m)[k]| <= |p|
    ensures p[DataPos(m, k)..DataPos(m, k) + |DataSegments(m)[k]|] == DataSegments(m)[k]
  {
    var segs, base, block := DataSegments(m), FixedLength(Is72(m)), FeatureBlock(m);
    TailIs(m);
    assert p[base..] == Joined(segs, |segs|) + block;
    SegmentOfJoined(p, base, segs, k, block);
  }

  /** Data item k (k < 11) fills the payload from Offset(m, k) to Offset(m, k + 1). */
  lemma SegmentAt(m: Login7Fields, p: bytes, k: nat)
    requires Fits(m) && Laid(m, p) && k < 11
    ensures Offset(m, k + 1) == Offset(m, k) + |DataSegments(m)[k]| <= |p|
    ensures p[Offset(m, k)..Offset(m, k + 1)] == DataSegments(m)[k]
  {
    SegmentIn(m, p, k);
    DataPosIsOffset(m, k);
    DataPosIsOffset(m, k + 1);
  }

  lemma StringIn(p: bytes, pos: nat, o: nat, e: nat, s: Utf16)
    requires o <= e <= |p| && e < 0x1_0000 && p[o..e] == UnicodeBytes(s)
    ensures StringAt(p, pos, o, Count(s)) == (s, if s == [] then pos else e)
  {
    if |s| > 0 {
      GetUnicodeAt(p, o, s);
      StringAtOf(p, o, s);
    }
  }

  lemma PasswordIn(p: bytes, o: nat, e: nat, pw: Utf16)
    requires o <= e <= |p| && e < 0x1_0000 && p[o..e] == PasswordBytes(pw)
    ensures PasswordAt(p, o, Count(pw)) == (pw, e)
  {
    if |pw| > 0 {
      assert Take(p, o, 2 * |pw|) == PasswordBytes(pw);
      PasswordRoundTrip(pw);
      PasswordAtOf(p, o, pw);
    }
  }

  /**
   * A string item reads back from its offset, wherever the reader stands;
   * an empty one leaves the reader where it is.
   */
  lemma StringItemOf(m: Login7Fields, p: bytes, k: nat, s: Utf16, pos: nat)
    requires Fits(m) && Laid(m, p) && k < 11 && DataSegments(m)[k] == UnicodeBytes(s)
    ensures StringAt(p, pos, Offset(m, k), Count(s)) == (s, if s == [] then pos else Offset(m, k + 1))
  {
    SegmentAt(m, p, k);
    StringIn(p, pos, Offset(m, k), Offset(m, k + 1), s);
  }

  lemma PasswordItemOf(m: Login7Fields, p: bytes, k: nat, pw: Utf16)
    requires Fits(m) && Laid(m, p) && k < 11 && DataSegments(m)[k] == PasswordBytes(pw)
    ensures PasswordAt(p, Offset(m, k), Count(pw)) == (pw, Offset(m, k + 1))
  {
    SegmentAt(m, p, k);
    PasswordIn(p, Offset(m, k), Offset(m, k + 1), pw);
  }

  // ---------------------------------------------------------------------
  // The end of the data block, the extension slot and SSPI
  // ---------------------------------------------------------------------

  /** The data block ends no later than b when every end the table declares is at most b. */
  lemma DataEndAtMost(fx: FixedPart, b: nat)
    requires fx.hostNameOffset <= b
    requires EndOffset(fx.hostNameOffset, 2 * fx.hostNameLength) <= b
    requires EndOffset(fx.userNameOffset, 2 * fx.userNameLength) <= b
    requires EndOffset(fx.passwordOffset, 2 * fx.passwordLength) <= b
    requires EndOffset(fx.appNameOffset, 2 * fx.appNameLength) <= b
    requires EndOffset(fx.serverNameOffset, 2 * fx.serverNameLength) <= b
    requires HasExtension(fx) ==> EndOffset(fx.extensionOffset, fx.extensionLength) <= b
    requires EndOffset(fx.cltIntNameOffset, 2 * fx.cltIntNameLength) <= b
    requires EndOffset(fx.languageOffset, 2 * fx.languageLength) <= b
    requires EndOffset(fx.databaseOffset, 2 * fx.databaseLength) <= b
    requires EndOffset(fx.sspiOffset, fx.sspiLength) <= b
    requires EndOffset(fx.attachDbFileOffset, 2 * fx.attachDbFileLength) <= b
    requires EndOffset(fx.changePasswordOffset, 2 * fx.changePasswordLength) <= b
    ensures DataEnd(fx) <= b
  {
    var s := [fx.hostNameOffset,
           EndOffset(fx.hostNameOffset, 2 * fx.hostNameLength),
           EndOffset(fx.userNameOffset, 2 * fx.userNameLength),
           EndOffset(fx.passwordOffset, 2 * fx.passwordLength),
           EndOffset(fx.appNameOffset, 2 * fx.appNameLength),
           EndOffset(fx.serverNameOffset, 2 * fx.serverNameLength),
           if HasExtension(fx) then EndOffset(fx.extensionOffset, fx.extensionLength) else 0,
           EndOffset(fx.cltIntNameOffset, 2 * fx.cltIntNameLength),
           EndOffset(fx.languageOffset, 2 * fx.languageLength),
           EndOffset(fx.databaseOffset, 2 * fx.databaseLength),
           Wrap(EndOffset(fx.sspiOffset, fx.sspiLength), 0x1_0000_0000),
           EndOffset(fx.attachDbFileOffset, 2 * fx.attachDbFileLength),
           EndOffset(fx.changePasswordOffset, 2 * fx.changePasswordLength)];
    assert forall k :: 0 <= k < |s| ==> s[k] <= b;
  }

  /** A string item ends inside the data block, before SSPI. */
  lemma ItemEnd(m: Login7Fields, k: nat, n: nat)
    requires Fits(m) && k < 11 && Size(m, k) == 2 * n
    ensures FixedLength(Is72(m)) <= Offset(m, k)
    ensures EndOffset(Offset(m, k), 2 * Wrap(n, 0x1_0000)) <= FixedLength(Is72(m)) + DataLength(m)
  {
    ItemBounds(m, k);
    OffsetNoWrap(m, k + 1);
    SizesBeforeMonotone(m, k + 1, 11);
  }

  /** The extension slot ends inside the data block. */
  lemma SlotEnd(m: Login7Fields)
    requires Encodable(m) && ExtensionFlagged(m)
    ensures EndOffset(Offset(m, 5), 4) <= FixedLength(Is72(m)) + DataLength(m)
  {
    ItemEnd(m, 5, 2);
  }

  lemma LoginEndsOfExpected(m: Login7Fields)
    requires Encodable(m)
    ensures var fx := ExpectedFixed(m); var b := FixedLength(Is72(m)) + DataLength(m);
      && fx.hostNameOffset <= b
      && EndOffset(fx.hostNameOffset, 2 * fx.hostNameLength) <= b
      && EndOffset(fx.userNameOffset, 2 * fx.userNameLength) <= b
      && EndOffset(fx.passwordOffset, 2 * fx.passwordLength) <= b
  {
    ItemEnd(m, 0, |m.hostName|);
    ItemEnd(m, 1, |m.userName|);
    ItemEnd(m, 2, |m.password|);
  }

  lemma NameEndsOfExpected(m: Login7Fields)
    requires Encodable(m)
    ensures var fx := ExpectedFixed(m); var b := FixedLength(Is72(m)) + DataLength(m);
      && EndOffset(fx.appNameOffset, 2 * fx.appNameLength) <= b
      && EndOffset(fx.serverNameOffset, 2 * fx.serverNameLength) <= b
      && (HasExtension(fx) ==> EndOffset(fx.extensionOffset, fx.extensionLength) <= b)
      && EndOffset(fx.cltIntNameOffset, 2 * fx.cltIntNameLength) <= b
  {
    ItemEnd(m, 3, |m.appName|);
    ItemEnd(m, 4, |m.serverName|);
    if ExtensionFlagged(m) {
      SlotEnd(m);
    }
    ItemEnd(m, 6, |m.clientInterfaceName|);
  }

  lemma LaterEndsOfExpected(m: Login7Fields)
    requires Encodable(m)
    ensures var fx := ExpectedFixed(m); var b := FixedLength(Is72(m)) + DataLength(m);
      && EndOffset(fx.languageOffset, 2 * fx.languageLength) <= b
      && EndOffset(fx.databaseOffset, 2 * fx.databaseLength) <= b
      && EndOffset(fx.sspiOffset, fx.sspiLength) <= b
      && EndOffset(fx.attachDbFileOffset, 2 * fx.attachDbFileLength) <= b
      && EndOffset(fx.changePasswordOffset, 2 * fx.changePasswordLength) <= b
  {
    OffsetNoWrap(m, 11);
    ItemEnd(m, 7, |m.language|);
    ItemEnd(m, 8, |m.database|);
    ItemEnd(m, 9, |m.attachDbFile|);
    if Is72(m) {
      ItemEnd(m, 10, |m.changePassword|);
    }
  }

  /** The table of an encodable message declares a data block that ends before the feature chain. */
  lemma DataEndOfExpected(m: Login7Fields)
    requires Encodable(m)
    ensures DataEnd(ExpectedFixed(m)) <= FixedLength(Is72(m)) + DataLength(m)
  {
    LoginEndsOfExpected(m);
    NameEndsOfExpected(m);
    LaterEndsOfExpected(m);
    DataEndAtMost(ExpectedFixed(m), FixedLength(Is72(m)) + DataLength(m));
  }

  lemma ExtensionAtOf(p: bytes, fx: FixedPart, pos: nat, e: nat)
    requires HasExtension(fx) && fx.extensionLength >= 4
    requires fx.extensionOffset + 4 <= |p| && e < 0x1_0000_0000
    requires p[fx.extensionOffset..fx.extensionOffset + 4] == LE(e, 4)
    requires 0 < e && fx.fixedEnd <= e && DataEnd(fx) <= e
    ensures ExtensionAt(p, fx, pos) == Ok((e, fx.extensionOffset + 4))
  {
    Pow256Widths();
    GetLEOf(p, fx.extensionOffset, 4, e);
  }

  lemma SlotSegment(m: Login7Fields)
    requires ExtensionFlagged(m)
    ensures DataSegments(m)[5] == LE(Wrap(FixedLength(Is72(m)) + DataLength(m), 0x1_0000_0000), 4)
  {
  }

  /** With the extension flag, the slot holds where the feature chain starts: just past the data block. */
  lemma SlotSpan(m: Login7Fields, p: bytes)
    requires Encodable(m) && Laid(m, p) && ExtensionFlagged(m)
    ensures FixedLength(Is72(m)) + DataLength(m) < 0x1_0000_0000
    ensures Offset(m, 5) + 4 == Offset(m, 6) <= |p|
    ensures p[Offset(m, 5)..Offset(m, 6)] == LE(FixedLength(Is72(m)) + DataLength(m), 4)
  {
    SegmentAt(m, p, 5);
    SlotSegment(m);
  }

  /** The slot read at its offset passes the reader's checks. */
  lemma ExtensionItem(m: Login7Fields, p: bytes, pos: nat, o6: nat)
    requires Encodable(m) && Laid(m, p) && ExtensionFlagged(m) && o6 == Offset(m, 6)
    ensures ExtensionAt(p, ExpectedFixed(m), pos) == Ok((ChainStart(m), o6))
  {
    SlotSpan(m, p);
    DataEndOfExpected(m);
    ExtensionAtOf(p, ExpectedFixed(m), pos, FixedLength(Is72(m)) + DataLength(m));
  }

  lemma SspiAtOf(p: bytes, fx: FixedPart, pos: nat, b: bytes)
    requires 0 < |b| < 0x8000_0000 && fx.sspiLength == |b|
    requires fx.sspiOffset + |b| <= |p| && p[fx.sspiOffset..fx.sspiOffset + |b|] == b
    ensures SspiAt(p, fx, pos) == Ok((b, fx.sspiOffset + |b|))
  {
  }

  /** SSPI sits at its offset, past every other item. */
  lemma SspiSpan(m: Login7Fields, p: bytes)
    requires Fits(m) && Laid(m, p)
    ensures Offset(m, 11) + |m.sspi| <= |p|
    ensures p[Offset(m, 11)..Offset(m, 11) + |m.sspi|] == m.sspi
  {
    SegmentIn(m, p, 11);
    DataPosIsOffset(m, 11);
    assert DataSegments(m)[11] == m.sspi;
  }

  /** SSPI is read back from its offset. */
  lemma SspiItem(m: Login7Fields, p: bytes, pos: nat)
    requires Encodable(m) && Laid(m, p)
    ensures SspiAt(p, ExpectedFixed(m), pos)
         == Ok((m.sspi, if m.sspi == [] then pos else Offset(m, 11) + |m.sspi|))
  {
    var fx := ExpectedFixed(m);
    if m.sspi != [] {
      SspiSpan(m, p);
      assert fx.sspiOffset == Offset(m, 11) && fx.sspiLength == |m.sspi|;
      SspiAtOf(p, fx, pos, m.sspi);
    } else {
      assert fx.sspiLength == 0;
    }
  }

  // ---------------------------------------------------------------------
  // The feature-extension chain
  // ---------------------------------------------------------------------

  lemma SubSlice(p: bytes, o: nat, b: bytes, i: nat, j: nat)
    requires o + |b| <= |p| && p[o..o + |b|] == b && i <= j <= |b|
    ensures p[o + i..o + j] == b[i..j]
  {
    forall t | 0 <= t < j - i
      ensures p[o + i..o + j][t] == b[i..j][t]
    {
      assert p[o + i + t] == p[o..o + |b|][i + t];
    }
  }

  /** One feature as written: its identifier, its 32-bit length and its data. */
  function FeatureHead(f: FeatureOpt): bytes
  {
    [f.id] + LE(Wrap(|f.data|, 0x1_0000_0000), 4) + f.data
  }

  /** The three parts of a written feature, found in the payload. */
  lemma FeaturePartsAt(p: bytes, pos: nat, id: byte, lb: bytes, data: bytes)
    requires |lb| == 4 && pos + 5 + |data| <= |p|
    requires p[pos..pos + 5 + |data|] == [id] + lb + data
    ensures p[pos] == id && p[pos + 1..pos + 5] == lb && p[pos + 5..pos + 5 + |data|] == data
  {
    var h := [id] + lb + data;
    SubSlice(p, pos, h, 0, 1);
    SubSlice(p, pos, h, 1, 5);
    assert h[1..5] == lb;
    SubSlice(p, pos, h, 5, 5 + |data|);
    assert h[5..5 + |data|] == data;
  }

  lemma FeatureLengthOf(p: bytes, q: nat, n: nat)
    requires q + 4 <= |p| && n < 0x8000_0000 && p[q..q + 4] == LE(n, 4)
    ensures GetI32(p, q) == Ok(n)
  {
    Pow256Widths();
    GetLEOf(p, q, 4, n);
  }

  /** A written feature reads back as its identifier, its length and its data. */
  lemma FeatureHeadAt(p: bytes, pos: nat, f: FeatureOpt)
    requires pos + |FeatureHead(f)| <= |p| < 0x8000_0000
    requires p[pos..pos + |FeatureHead(f)|] == FeatureHead(f)
    ensures |FeatureHead(f)| == 5 + |f.data|
    ensures GetByte(p, pos) == Ok(f.id)
    ensures GetI32(p, pos + 1) == Ok(|f.data|)
    ensures Take(p, pos + 5, |f.data|) == f.data
  {
    var n := |f.data|;
    FeaturePartsAt(p, pos, f.id, LE(n, 4), f.data);
    FeatureLengthOf(p, pos + 1, n);
  }

  /** One step of the chain reader, on a feature that is not the terminator. */
  lemma ReadFeatureStep(p: bytes, pos: nat, length: nat, f: FeatureOpt, rest: seq<FeatureOpt>, next: nat, e: nat)
    requires pos < length && f.id != TerminatorId && next == pos + 5 + |f.data| <= length
    requires GetByte(p, pos) == Ok(f.id) && GetI32(p, pos + 1) == Ok(|f.data|)
    requires Take(p, pos + 5, |f.data|) == f.data
    requires ReadFeatures(p, next, length) == Ok((rest, e))
    ensures ReadFeatures(p, pos, length) == Ok(([f] + rest, e))
  {
  }

  /** A chain of at least one feature splits into its first feature and the rest of the chain. */
  lemma ChainSplit(p: bytes, pos: nat, fs: seq<FeatureOpt>)
    requires |fs| > 0
    requires pos + FeaturesLength(fs) + 1 <= |p|
    requires p[pos..pos + FeaturesLength(fs) + 1] == FeatureBytes(fs) + [TerminatorId]
    ensures FeaturesLength(fs) == |FeatureHead(fs[0])| + FeaturesLength(fs[1..])
    ensures p[pos..pos + |FeatureHead(fs[0])|] == FeatureHead(fs[0])
    ensures var e := pos + |FeatureHead(fs[0])|;
      p[e..e + FeaturesLength(fs[1..]) + 1] == FeatureBytes(fs[1..]) + [TerminatorId]
  {
    var b := FeatureBytes(fs) + [TerminatorId];
    var h := FeatureHead(fs[0]);
    FeatureBytesLength(fs);
    FeatureBytesLength(fs[1..]);
    assert b == h + (FeatureBytes(fs[1..]) + [TerminatorId]);
    SubSlice(p, pos, b, 0, |h|);
    SubSlice(p, pos, b, |h|, |b|);
  }

  /** The chain reader at a terminator. */
  lemma ReadFeaturesNil(p: bytes, pos: nat, length: nat)
    requires pos < length && pos + 1 <= |p| && p[pos..pos + 1] == [TerminatorId]
    ensures ReadFeatures(p, pos, length) == Ok(([], (pos + 1) as nat))
  {
    assert p[pos] == p[pos..pos + 1][0];
  }

  /** The chain reader on a chain of at least one feature, given what it reads after the first. */
  lemma ReadFeaturesCons(p: bytes, pos: nat, f: FeatureOpt, tail: seq<FeatureOpt>, length: nat, next: nat, e: nat)
    requires f.id != TerminatorId && next == pos + |FeatureHead(f)| && next < length <= |p| < 0x8000_0000
    requires p[pos..next] == FeatureHead(f)
    requires ReadFeatures(p, next, length) == Ok((tail, e))
    ensures ReadFeatures(p, pos, length) == Ok(([f] + tail, e))
  {
    FeatureHeadAt(p, pos, f);
    ReadFeatureStep(p, pos, length, f, tail, next, e);
  }

  /**
   * A chain of features without the terminator's identifier, followed by
   * a terminator, reads back as itself, inside any declared length that
   * covers it.
   */
  lemma {:induction false} ReadFeaturesOf(p: bytes, pos: nat, fs: seq<FeatureOpt>, length: nat, e: nat)
    requires NoTerminator(fs)
    requires e == pos + FeaturesLength(fs) + 1 && e <= length <= |p| < 0x8000_0000
    requires p[pos..e] == FeatureBytes(fs) + [TerminatorId]
    ensures ReadFeatures(p, pos, length) == Ok((fs, e))
    decreases |fs|
  {
    if |fs| == 0 {
      ReadFeaturesNil(p, pos, length);
    } else {
      var next := pos + |FeatureHead(fs[0])|;
      ChainSplit(p, pos, fs);
      assert NoTerminator(fs[1..]);
      ReadFeaturesOf(p, next, fs[1..], length, e);
      ReadFeaturesCons(p, pos, fs[0], fs[1..], length, next, e);
      assert [fs[0]] + fs[1..] == fs;
    }
  }

  /** With the extension flag, the feature chain fills the payload from just past the data block to its end. */
  lemma ChainSpan(m: Login7Fields, p: bytes)
    requires Encodable(m) && Laid(m, p) && ExtensionFlagged(m)
    ensures var e := FixedLength(Is72(m)) + DataLength(m);
      && e + FeaturesLength(m.featureExt.value) + 1 == |p| == TotalLength(m)
      && p[e..e + FeaturesLength(m.featureExt.value) + 1] == FeatureBytes(m.featureExt.value) + [TerminatorId]
  {
    var fl, j := FixedLength(Is72(m)), Joined(DataSegments(m), 12);
    TailIs(m);
    DataBlockLength(m);
    FeatureBytesLength(m.featureExt.value);
    assert p[fl..][|j|..] == FeatureBlock(m);
    SliceOfSlice(p, fl, |j|, |p| - fl);
  }

  /** A chain that runs to the end of the message reads back whole. */
  lemma ChainReadOf(p: bytes, e: nat, fs: seq<FeatureOpt>, n: nat)
    requires NoTerminator(fs) && e + FeaturesLength(fs) + 1 == n == |p| < 0x8000_0000
    requires p[e..n] == FeatureBytes(fs) + [TerminatorId]
    ensures ReadFeatures(p, e, n) == Ok((fs, n))
  {
    ReadFeaturesOf(p, e, fs, n, n);
  }

  /** The chain the extension slot points at reads back as the message's FeatureExt list. */
  lemma ChainRead(m: Login7Fields, p: bytes)
    requires Encodable(m) && Laid(m, p) && ExtensionFlagged(m)
    ensures ReadFeatures(p, FixedLength(Is72(m)) + DataLength(m), TotalLength(m)) == Ok((m.featureExt.value, TotalLength(m)))
  {
    var e, fs, n := FixedLength(Is72(m)) + DataLength(m), m.featureExt.value, TotalLength(m);
    ChainSpan(m, p);
    assert NoTerminator(fs) && n < 0x8000_0000;
    ChainReadOf(p, e, fs, n);
  }
  lemma FeatureBlockItem(m: Login7Fields, p: bytes)
    requires Encodable(m) && Laid(m, p) && ExtensionFlagged(m)
    ensures FeatureBlockAt(p, ExpectedFixed(m), FixedLength(Is72(m)) + DataLength(m)) == Ok(m.featureExt.value)
  {
    ChainRead(m, p);
    OffsetNoWrap(m, 0);
  }

  // ---------------------------------------------------------------------
  // The round trip
  // ---------------------------------------------------------------------

  /** The reader's positions before each data item, as DecodeData threads them. */
  datatype Cursor = Cursor(o1: nat, o2: nat, o3: nat, o4: nat, o5: nat, o6: nat,
                           o7: nat, o8: nat, o9: nat, o10: nat, o11: nat)

  /** DecodeData, given what each of its phases reads: the message it returns is m with the feature list f. */
  lemma DecodeDataOf(prior: Option<seq<FeatureOpt>>, p: bytes, fx: FixedPart, c: Cursor, m: Login7Fields, e: nat,
                     f: Option<seq<FeatureOpt>>)
    requires fx.fixedEnd <= fx.hostNameOffset && DataEnd(fx) <= fx.length
    requires StringAt(p, fx.fixedEnd, fx.hostNameOffset, fx.hostNameLength) == (m.hostName, c.o1)
    requires StringAt(p, c.o1, fx.userNameOffset, fx.userNameLength) == (m.userName, c.o2)
    requires PasswordAt(p, c.o2, fx.passwordLength) == (m.password, c.o3)
    requires StringAt(p, c.o3, fx.appNameOffset, fx.appNameLength) == (m.appName, c.o4)
    requires StringAt(p, c.o4, fx.serverNameOffset, fx.serverNameLength) == (m.serverName, c.o5)
    requires ExtensionAt(p, fx, c.o5) == Ok((e, c.o6))
    requires StringAt(p, c.o6, fx.cltIntNameOffset, fx.cltIntNameLength) == (m.clientInterfaceName, c.o7)
    requires StringAt(p, c.o7, fx.languageOffset, fx.languageLength) == (m.language, c.o8)
    requires StringAt(p, c.o8, fx.databaseOffset, fx.databaseLength) == (m.database, c.o9)
    requires SspiAt(p, fx, c.o9) == Ok((m.sspi, c.o10))
    requires StringAt(p, c.o10, fx.attachDbFileOffset, fx.attachDbFileLength) == (m.attachDbFile, c.o11)
    requires PasswordAt(p, c.o11, fx.changePasswordLength).0 == m.changePassword
    requires if HasExtension(fx) && e > 0 then FeatureBlockAt(p, fx, e).Ok? && f == Some(FeatureBlockAt(p, fx, e).value)
             else f == prior
    requires m.tdsVersion == fx.tdsVersion && m.packetSize == fx.packetSize && m.clientProgVer == fx.clientProgVer
    requires m.clientPid == fx.clientPid && m.connectionId == fx.connectionId
    requires m.optionFlags1 == fx.optionFlags1 && m.optionFlags2 == fx.optionFlags2
    requires m.typeFlags == fx.typeFlags && m.optionFlags3 == fx.optionFlags3
    requires m.clientTimeZone == fx.clientTimeZone && m.clientLcid == fx.clientLcid
    requires m.clientId == Some(fx.clientId)
    ensures DecodeData(prior, p, fx) == Ok(m.(featureExt := f))
  {
  }

  /** One string item read from where the previous one ended. */
  lemma StringStep(m: Login7Fields, p: bytes, k: nat, s: Utf16)
    requires Fits(m) && Laid(m, p) && k < 11 && DataSegments(m)[k] == UnicodeBytes(s)
    ensures StringAt(p, Offset(m, k), Offset(m, k), Count(s)) == (s, Offset(m, k + 1))
  {
    StringItemOf(m, p, k, s, Offset(m, k));
    ItemBounds(m, k);
    SegmentSize(m, k);
  }

  function CursorOf(m: Login7Fields): Cursor
  {
    var o10 := if m.sspi == [] then Offset(m, 9) else Offset(m, 11) + |m.sspi|;
    Cursor(Offset(m, 1), Offset(m, 2), Offset(m, 3), Offset(m, 4), Offset(m, 5), Offset(m, 6),
           Offset(m, 7), Offset(m, 8), Offset(m, 9), o10, if m.attachDbFile == [] then o10 else Offset(m, 10))
  }

  lemma ExpectedHeader(m: Login7Fields)
    requires Encodable(m)
    ensures var fx := ExpectedFixed(m);
      && m.tdsVersion == fx.tdsVersion && m.packetSize == fx.packetSize && m.clientProgVer == fx.clientProgVer
      && m.clientPid == fx.clientPid && m.connectionId == fx.connectionId
      && m.optionFlags1 == fx.optionFlags1 && m.optionFlags2 == fx.optionFlags2
      && m.typeFlags == fx.typeFlags && m.optionFlags3 == fx.optionFlags3
      && m.clientTimeZone == fx.clientTimeZone && m.clientLcid == fx.clientLcid
      && m.clientId == Some(fx.clientId)
  {
  }

  /** The data block starts right after the fixed part, and every item ends inside the message. */
  lemma ExpectedBounds(m: Login7Fields)
    requires Encodable(m)
    ensures var fx := ExpectedFixed(m);
      fx.fixedEnd <= fx.hostNameOffset && DataEnd(fx) <= fx.length
  {
    OffsetNoWrap(m, 0);
    DataEndOfExpected(m);
  }

  lemma HostItem(m: Login7Fields, p: bytes)
    requires Fits(m) && m.clientId.Some? && TotalLength(m) < 0x8000_0000 && Laid(m, p)
    ensures var fx, c := ExpectedFixed(m), CursorOf(m);
      StringAt(p, fx.fixedEnd, fx.hostNameOffset, fx.hostNameLength) == (m.hostName, c.o1)
  {
    var fx, c := ExpectedFixed(m), CursorOf(m);
    OffsetNoWrap(m, 0);
    assert fx.fixedEnd == Offset(m, 0) && c.o1 == Offset(m, 1);
    assert fx.hostNameOffset == Offset(m, 0) && fx.hostNameLength == Count(m.hostName);
    assert DataSegments(m)[0] == UnicodeBytes(m.hostName);
    StringStep(m, p, 0, m.hostName);
  }

  lemma UserItem(m: Login7Fields, p: bytes)
    requires Fits(m) && m.clientId.Some? && TotalLength(m) < 0x8000_0000 && Laid(m, p)
    ensures var fx, c := ExpectedFixed(m), CursorOf(m);
      StringAt(p, c.o1, fx.userNameOffset, fx.userNameLength) == (m.userName, c.o2)
  {
    var fx, c := ExpectedFixed(m), CursorOf(m);
    assert c.o1 == Offset(m, 1) && c.o2 == Offset(m, 2);
    assert fx.userNameOffset == Offset(m, 1) && fx.userNameLength == Count(m.userName);
    assert DataSegments(m)[1] == UnicodeBytes(m.userName);
    StringStep(m, p, 1, m.userName);
  }

  lemma PasswordItem(m: Login7Fields, p: bytes)
    requires Fits(m) && m.clientId.Some? && TotalLength(m) < 0x8000_0000 && Laid(m, p)
    ensures var fx, c := ExpectedFixed(m), CursorOf(m);
      PasswordAt(p, c.o2, fx.passwordLength) == (m.password, c.o3)
  {
    var fx, c := ExpectedFixed(m), CursorOf(m);
    assert c.o2 == Offset(m, 2) && c.o3 == Offset(m, 3) && fx.passwordLength == Count(m.password);
    assert DataSegments(m)[2] == PasswordBytes(m.password);
    PasswordItemOf(m, p, 2, m.password);
  }

  lemma AppItem(m: Login7Fields, p: bytes)
    requires Fits(m) && m.clientId.Some? && TotalLength(m) < 0x8000_0000 && Laid(m, p)
    ensures var fx, c := ExpectedFixed(m), CursorOf(m);
      StringAt(p, c.o3, fx.appNameOffset, fx.appNameLength) == (m.appName, c.o4)
  {
    var fx, c := ExpectedFixed(m), CursorOf(m);
    assert c.o3 == Offset(m, 3) && c.o4 == Offset(m, 4);
    assert fx.appNameOffset == Offset(m, 3) && fx.appNameLength == Count(m.appName);
    assert DataSegments(m)[3] == UnicodeBytes(m.appName);
    StringStep(m, p, 3, m.appName);
  }

  lemma ServerItem(m: Login7Fields, p: bytes)
    requires Fits(m) && m.clientId.Some? && TotalLength(m) < 0x8000_0000 && Laid(m, p)
    ensures var fx, c := ExpectedFixed(m), CursorOf(m);
      StringAt(p, c.o4, fx.serverNameOffset, fx.serverNameLength) == (m.serverName, c.o5)
  {
    var fx, c := ExpectedFixed(m), CursorOf(m);
    assert c.o4 == Offset(m, 4) && c.o5 == Offset(m, 5);
    assert fx.serverNameOffset == Offset(m, 4) && fx.serverNameLength == Count(m.serverName);
    assert DataSegments(m)[4] == UnicodeBytes(m.serverName);
    StringStep(m, p, 4, m.serverName);
  }

  /** Where the feature chain starts, as the extension slot announces it; 0 when there is no chain. */
  function ChainStart(m: Login7Fields): nat
  {
    if ExtensionFlagged(m) then FixedLength(Is72(m)) + DataLength(m) else 0
  }

  /** The extension slot, with or without the flag. */
  lemma SlotItem(m: Login7Fields, p: bytes)
    requires Encodable(m) && Laid(m, p)
    ensures var fx, c := ExpectedFixed(m), CursorOf(m);
      ExtensionAt(p, fx, c.o5) == Ok((ChainStart(m), c.o6))
  {
    var c := CursorOf(m);
    SlotAt(m, p, c.o5, c.o6);
  }

  lemma SlotAt(m: Login7Fields, p: bytes, o5: nat, o6: nat)
    requires Encodable(m) && Laid(m, p) && o5 == Offset(m, 5) && o6 == Offset(m, 6)
    ensures ExtensionAt(p, ExpectedFixed(m), o5) == Ok((ChainStart(m), o6))
  {
    if ExtensionFlagged(m) {
      ExtensionItem(m, p, o5, o6);
    } else {
      UnflaggedSlotAt(m, p, o5, o6);
    }
  }

  lemma UnflaggedSlotAt(m: Login7Fields, p: bytes, o5: nat, o6: nat)
    requires Encodable(m) && o5 == Offset(m, 5) && o6 == Offset(m, 6) && !ExtensionFlagged(m)
    ensures ExtensionAt(p, ExpectedFixed(m), o5) == Ok((ChainStart(m), o6))
  {
    UnflaggedSlot(m);
    NoExtensionAt(p, ExpectedFixed(m), o5);
  }

  /** A table announcing no extension reads none and stays where it is. */
  lemma NoExtensionAt(p: bytes, fx: FixedPart, pos: nat)
    requires !HasExtension(fx)
    ensures ExtensionAt(p, fx, pos) == Ok((0, pos))
  {
  }

  /** Without the flag the slot is empty and the table announces no extension. */
  lemma UnflaggedSlot(m: Login7Fields)
    requires Encodable(m) && !ExtensionFlagged(m)
    ensures !HasExtension(ExpectedFixed(m)) && Offset(m, 6) == Offset(m, 5)
  {
    ItemBounds(m, 5);
    assert Size(m, 5) == 0;
  }

  lemma CltIntItem(m: Login7Fields, p: bytes)
    requires Fits(m) && m.clientId.Some? && TotalLength(m) < 0x8000_0000 && Laid(m, p)
    ensures var fx, c := ExpectedFixed(m), CursorOf(m);
      StringAt(p, c.o6, fx.cltIntNameOffset, fx.cltIntNameLength) == (m.clientInterfaceName, c.o7)
  {
    var fx, c := ExpectedFixed(m), CursorOf(m);
    assert c.o6 == Offset(m, 6) && c.o7 == Offset(m, 7);
    assert fx.cltIntNameOffset == Offset(m, 6) && fx.cltIntNameLength == Count(m.clientInterfaceName);
    assert DataSegments(m)[6] == UnicodeBytes(m.clientInterfaceName);
    StringStep(m, p, 6, m.clientInterfaceName);
  }

  lemma LanguageItem(m: Login7Fields, p: bytes)
    requires Fits(m) && m.clientId.Some? && TotalLength(m) < 0x8000_0000 && Laid(m, p)
    ensures var fx, c := ExpectedFixed(m), CursorOf(m);
      StringAt(p, c.o7, fx.languageOffset, fx.languageLength) == (m.language, c.o8)
  {
    var fx, c := ExpectedFixed(m), CursorOf(m);
    assert c.o7 == Offset(m, 7) && c.o8 == Offset(m, 8);
    assert fx.languageOffset == Offset(m, 7) && fx.languageLength == Count(m.language);
    assert DataSegments(m)[7] == UnicodeBytes(m.language);
    StringStep(m, p, 7, m.language);
  }

  lemma DatabaseItem(m: Login7Fields, p: bytes)
    requires Fits(m) && m.clientId.Some? && TotalLength(m) < 0x8000_0000 && Laid(m, p)
    ensures var fx, c := ExpectedFixed(m), CursorOf(m);
      StringAt(p, c.o8, fx.databaseOffset, fx.databaseLength) == (m.database, c.o9)
  {
    var fx, c := ExpectedFixed(m), CursorOf(m);
    assert c.o8 == Offset(m, 8) && c.o9 == Offset(m, 9);
    assert fx.databaseOffset == Offset(m, 8) && fx.databaseLength == Count(m.database);
    assert DataSegments(m)[8] == UnicodeBytes(m.database);
    StringStep(m, p, 8, m.database);
  }

  lemma SspiCursorItem(m: Login7Fields, p: bytes)
    requires Encodable(m) && Laid(m, p)
    ensures var fx, c := ExpectedFixed(m), CursorOf(m);
      SspiAt(p, fx, c.o9) == Ok((m.sspi, c.o10))
  {
    var c := CursorOf(m);
    assert c.o9 == Offset(m, 9) && c.o10 == (if m.sspi == [] then Offset(m, 9) else Offset(m, 11) + |m.sspi|);
    SspiItem(m, p, c.o9);
  }

  lemma AttachItem(m: Login7Fields, p: bytes)
    requires Fits(m) && m.clientId.Some? && TotalLength(m) < 0x8000_0000 && Laid(m, p)
    ensures var fx, c := ExpectedFixed(m), CursorOf(m);
      StringAt(p, c.o10, fx.attachDbFileOffset, fx.attachDbFileLength) == (m.attachDbFile, c.o11)
  {
    assert DataSegments(m)[9] == UnicodeBytes(m.attachDbFile);
    StringItemOf(m, p, 9, m.attachDbFile, CursorOf(m).o10);
  }

  /** ChangePassword is read where it was written, or is empty. */
  lemma ChangePasswordItem(m: Login7Fields, p: bytes)
    requires Encodable(m) && Laid(m, p)
    ensures PasswordAt(p, CursorOf(m).o11, ExpectedFixed(m).changePasswordLength).0 == m.changePassword
  {
    if Is72(m) && m.changePassword != [] {
      ItemBounds(m, 9);
      assert CursorOf(m).o11 == Offset(m, 10);
      assert DataSegments(m)[10] == PasswordBytes(m.changePassword);
      PasswordItemOf(m, p, 10, m.changePassword);
    }
  }

  /** The FeatureExt list DecodeData returns for m: m's own when the flag is set, the prior one otherwise. */
  function DecodedFeatures(m: Login7Fields, prior: Option<seq<FeatureOpt>>): Option<seq<FeatureOpt>>
  {
    if ExtensionFlagged(m) then m.featureExt else prior
  }

  /** The message DecodeData returns for m. */
  function Decoded(m: Login7Fields, prior: Option<seq<FeatureOpt>>): Login7Fields
  {
    m.(featureExt := DecodedFeatures(m, prior))
  }

  /** The feature chain, with or without the flag. */
  lemma ChainItem(m: Login7Fields, p: bytes, prior: Option<seq<FeatureOpt>>)
    requires Encodable(m) && Laid(m, p)
    ensures var fx, e, f := ExpectedFixed(m), ChainStart(m), DecodedFeatures(m, prior);
      if HasExtension(fx) && e > 0 then FeatureBlockAt(p, fx, e).Ok? && f == Some(FeatureBlockAt(p, fx, e).value)
      else f == prior
  {
    if ExtensionFlagged(m) {
      FeatureBlockItem(m, p);
    }
  }

  /** Every item of the data block reads back, one after the other. */
  lemma DecodeDataOfLaid(m: Login7Fields, p: bytes, prior: Option<seq<FeatureOpt>>)
    requires Encodable(m) && Laid(m, p)
    ensures DecodeData(prior, p, ExpectedFixed(m)) == Ok(Decoded(m, prior))
  {
    ExpectedBounds(m);
    HostItem(m, p);
    UserItem(m, p);
    PasswordItem(m, p);
    AppItem(m, p);
    ServerItem(m, p);
    SlotItem(m, p);
    CltIntItem(m, p);
    LanguageItem(m, p);
    DatabaseItem(m, p);
    SspiCursorItem(m, p);
    AttachItem(m, p);
    ChangePasswordItem(m, p);
    ChainItem(m, p, prior);
    ExpectedHeader(m);
    DecodeDataOf(prior, p, ExpectedFixed(m), CursorOf(m), m, ChainStart(m), DecodedFeatures(m, prior));
  }

  /**
   * The Login7 round trip: the payload the generator writes for an encodable message
   * decodes back to that message (the prior FeatureExt list survives when no chain is written).
   */
  lemma RoundTrip(m: Login7Fields, prior: Option<seq<FeatureOpt>>)
    requires Encodable(m)
    ensures GeneratedPayload(m).Ok?
    ensures Decode(prior, GeneratedPayload(m).value) == Ok(Decoded(m, prior))
  {
    PayloadIsGenerated(m);
    DecodeFixedOfPayload(m);
    PayloadLaid(m);
    DecodeDataOfLaid(m, Payload(m), prior);
  }

  /** Read into a fresh message, the payload gives back exactly the message that was written. */
  lemma RoundTripFresh(m: Login7Fields)
    requires Encodable(m)
    ensures GeneratedPayload(m).Ok? && Decode(None, GeneratedPayload(m).value) == Ok(m)
  {
    RoundTrip(m, None);
  }

  // ---------------------------------------------------------------------
  // Payloads the reader refuses
  // ---------------------------------------------------------------------

  /**
   * The reader's checks on the fixed part and the table: a payload too
   * short for its fields ends the stream, a declared length beyond the
   * payload, a data block starting inside the fixed part or one running
   * past the declared length is an invalid message.
   */
  lemma DecodeRejects(prior: Option<seq<FeatureOpt>>, p: bytes)
    ensures |p| < 4 ==> Decode(prior, p) == Err(EndOfStream)
    ensures |p| >= 4 && I32OfU32(U32Word(p, 0)) > |p| ==> Decode(prior, p) == Err(InvalidMessage)
    ensures |p| >= 4 && I32OfU32(U32Word(p, 0)) <= |p| && |p| < 86 ==> Decode(prior, p) == Err(EndOfStream)
    ensures DecodeFixed(p).Ok? && DecodeFixed(p).value.fixedEnd > DecodeFixed(p).value.hostNameOffset
      ==> Decode(prior, p) == Err(InvalidMessage)
    ensures DecodeFixed(p).Ok? && DataEnd(DecodeFixed(p).value) > DecodeFixed(p).value.length
      ==> Decode(prior, p) == Err(InvalidMessage)
  {
  }

  /**
   * The writer fails exactly when the buffer size does not fit a 32-bit
   * int (an overflow) or when there is no ClientID to write (an argument
   * error).
   */
  lemma GenerateRejects(m: Login7Fields)
    ensures GeneratedPayload(m).Err? <==> TotalLength(m) >= 0x8000_0000 || m.clientId.None?
    ensures TotalLength(m) >= 0x8000_0000 ==> GeneratedPayload(m) == Err(Overflow)
    ensures TotalLength(m) < 0x8000_0000 && m.clientId.None? ==> GeneratedPayload(m) == Err(Argument)
  {
  }

  /**
   * A successful chain read from pos: features none of which uses the
   * terminator's identifier, and an end just past a terminator that lies
   * inside both the declared length and the payload.
   */
  ghost predicate ChainShaped(p: bytes, pos: nat, length: int, r: Result<(seq<FeatureOpt>, nat)>)
  {
    r.Ok? ==> pos < r.value.1 <= length && r.value.1 <= |p| && p[r.value.1 - 1] == TerminatorId && NoTerminator(r.value.0)
  }

  /**
   * What the chain reader accepts: a chain of features none of which uses
   * the terminator's identifier, ended by a terminator that lies inside
   * both the declared length and the payload.
   */
  lemma {:induction false} ReadFeaturesShape(p: bytes, pos: nat, length: int)
    ensures ChainShaped(p, pos, length, ReadFeatures(p, pos, length))
    decreases length - pos
  {
    if pos < length && pos < |p| && p[pos] == TerminatorId {
      assert ReadFeatures(p, pos, length).Ok? && ReadFeatures(p, pos, length).value == ([], pos + 1);
    } else if ReadFeatures(p, pos, length).Ok? {
      var x, next := ReadFeaturesStep(p, pos, length);
      ReadFeaturesShape(p, next, length);
      NoTerminatorCons(x, ReadFeatures(p, next, length).value.0);
    }
  }

  /**
   * A chain read that succeeds without starting at a terminator read one
   * option x that is not the terminator, then the rest of the chain from next.
   */
  lemma ReadFeaturesStep(p: bytes, pos: nat, length: int) returns (x: FeatureOpt, next: nat)
    requires ReadFeatures(p, pos, length).Ok?
    requires !(pos < length && pos < |p| && p[pos] == TerminatorId)
    ensures x.id != TerminatorId && pos < next <= length
    ensures ReadFeatures(p, next, length).Ok?
    ensures ReadFeatures(p, pos, length).value.0 == [x] + ReadFeatures(p, next, length).value.0
    ensures ReadFeatures(p, pos, length).value.1 == ReadFeatures(p, next, length).value.1
  {
    var len := GetI32(p, pos + 1).value;
    x, next := FeatureOpt(p[pos], Take(p, pos + 5, len)), pos + 5 + len;
  }

  lemma NoTerminatorCons(x: FeatureOpt, fs: seq<FeatureOpt>)
    requires x.id != TerminatorId && NoTerminator(fs)
    ensures NoTerminator([x] + fs)
  {
    assert forall i :: 0 < i < |[x] + fs| ==> ([x] + fs)[i] == fs[i - 1];
  }
}
