/**
 * The PRELOGIN message of the unit tests of TDSPreLoginMessage: the
 * fields they set, the bytes GeneratePayload gives for them, and the
 * fields InterpretPayload reads back.
 */
module PreLoginSample {
  import opened Wire
  import opened PreLogin
  // ---------------------------------------------------------------------
  // The PRELOGIN of the unit tests
  // ---------------------------------------------------------------------

  /** Version 9.0.0.0, encryption on, an empty instance name, thread 0xDB8, MARS on. */
  const SampleFields := Fields(Some(VersionInfo(0x0900_0000, 0)), Some(EncryptOn), Some([0]), Some(0xDB8),
                               Some(MarsOn), None, None, None)

  /** The 39 bytes of the sample: a table of five options and the terminator, then their values. */
  const SamplePayload: bytes := SampleTable + SampleValues

  /** The table, one five-byte row per option (token, big-endian offset and length), then 0xFF. */
  const SampleTable: bytes :=
    VersionRow + (EncryptionRow + (InstOptRow + (ThreadRow + (MarsRow + [0xFF]))))

  const VersionRow: bytes := [0x00, 0x00, 0x1A, 0x00, 0x06]
  const EncryptionRow: bytes := [0x01, 0x00, 0x20, 0x00, 0x01]
  const InstOptRow: bytes := [0x02, 0x00, 0x21, 0x00, 0x01]
  const ThreadRow: bytes := [0x03, 0x00, 0x22, 0x00, 0x04]
  const MarsRow: bytes := [0x04, 0x00, 0x26, 0x00, 0x01]

  const SampleValues: bytes := [0x09, 0x00, 0x00, 0x00, 0x00, 0x00, 0x01, 0x00, 0xB8, 0x0D, 0x00, 0x00, 0x01]

  const VersionEntry := Entry(TokVersion, 6, [9, 0, 0, 0, 0, 0])
  const EncryptionEntry := Entry(TokEncryption, 1, [1])
  const InstOptEntry := Entry(TokInstOpt, 1, [0])
  const ThreadEntry := Entry(TokThreadId, 4, [0xB8, 0x0D, 0, 0])
  const MarsEntry := Entry(TokMars, 1, [1])

  const SampleEntries := [VersionEntry, EncryptionEntry, InstOptEntry, ThreadEntry, MarsEntry, TerminatorEntry]

  const VersionOption := OptionData(TokVersion, 26, 6)
  const EncryptionOption := OptionData(TokEncryption, 32, 1)
  const InstOptOption := OptionData(TokInstOpt, 33, 1)
  const ThreadOption := OptionData(TokThreadId, 34, 4)
  const MarsOption := OptionData(TokMars, 38, 1)
  const TerminatorOption := OptionData(Terminator, 39, 0)

  const SampleOptions := [VersionOption, EncryptionOption, InstOptOption, ThreadOption, MarsOption, TerminatorOption]

  lemma SampleVersionEntry()
    ensures EntryAt(SampleFields, 0, 32) == Some(SampleEntries[0])
  {
    assert LE16(0) == [0, 0];
    assert BE(9, 1) == [9];
    assert BE(0x900, 2) == [9, 0];
    assert BE(0x9_0000, 3) == [9, 0, 0];
    assert BE(0x0900_0000, 4) == [9, 0, 0, 0];
    assert BE(0x0900_0000, 4) + LE16(0) == [9, 0, 0, 0, 0, 0];
  }

  lemma SampleNoLaterOptions()
    ensures EntriesFrom(SampleFields, 5, 32) == []
  {
    var f := SampleFields;
    assert EntriesFrom(f, 7, 32) == [];
    assert EntriesFrom(f, 6, 32) == [];
  }

  lemma SampleMarsEntry()
    ensures EntriesFrom(SampleFields, 4, 32) == [MarsEntry]
  {
    SampleNoLaterOptions();
  }

  lemma SampleThreadBytes()
    ensures LE32(0xDB8) == [0xB8, 0x0D, 0, 0]
  {
    var b: bytes := [0xB8, 0x0D, 0, 0];
    LEValue4(b);
    LEOfLEValue(b);
  }

  lemma SampleLastEntries()
    ensures EntriesFrom(SampleFields, 3, 32) == [ThreadEntry, MarsEntry]
  {
    SampleMarsEntry();
    SampleThreadBytes();
  }

  lemma SampleInstOptEntries()
    ensures EntriesFrom(SampleFields, 2, 32) == [InstOptEntry, ThreadEntry, MarsEntry]
  {
    SampleLastEntries();
  }

  lemma SampleLaterEntries()
    ensures EntriesFrom(SampleFields, 1, 32) == [EncryptionEntry, InstOptEntry, ThreadEntry, MarsEntry]
  {
    SampleInstOptEntries();
  }

  lemma SampleFirstEntries()
    ensures EntriesFrom(SampleFields, 0, 32) == [VersionEntry, EncryptionEntry, InstOptEntry, ThreadEntry, MarsEntry]
  {
    SampleVersionEntry();
    SampleLaterEntries();
  }

  lemma SampleEntriesListed()
    ensures Entries(SampleFields, 32) == SampleEntries
  {
    SampleFirstEntries();
  }

  /** The option table before the offsets move past the table itself. */
  const SampleAdded := [
    OptionData(TokVersion, 0, 6), OptionData(TokEncryption, 6, 1), OptionData(TokInstOpt, 7, 1),
    OptionData(TokThreadId, 8, 4), OptionData(TokMars, 12, 1), OptionData(Terminator, 13, 0)]

  lemma SampleAddedMars()
    ensures AddTokens([MarsEntry, TerminatorEntry], 12) == [OptionData(TokMars, 12, 1), OptionData(Terminator, 13, 0)]
  {
  }

  lemma SampleAddedThread()
    ensures AddTokens([ThreadEntry, MarsEntry, TerminatorEntry], 8) ==
      [OptionData(TokThreadId, 8, 4), OptionData(TokMars, 12, 1), OptionData(Terminator, 13, 0)]
  {
    SampleAddedMars();
  }

  lemma SampleAddedInstOpt()
    ensures AddTokens([InstOptEntry, ThreadEntry, MarsEntry, TerminatorEntry], 7) == SampleAdded[2..]
  {
    SampleAddedThread();
  }

  lemma SampleAddedEncryption()
    ensures AddTokens([EncryptionEntry, InstOptEntry, ThreadEntry, MarsEntry, TerminatorEntry], 6) == SampleAdded[1..]
  {
    SampleAddedInstOpt();
  }

  lemma SampleAddedAll()
    ensures AddTokens(SampleEntries, 0) == SampleAdded
  {
    SampleAddedEncryption();
  }

  lemma SampleBumped()
    ensures Bumped(SampleAdded, 26) == SampleOptions
  {
    var b := Bumped(SampleAdded, 26);
    assert b[0] == SampleOptions[0] && b[1] == SampleOptions[1] && b[2] == SampleOptions[2];
    assert b[3] == SampleOptions[3] && b[4] == SampleOptions[4] && b[5] == SampleOptions[5];
  }

  lemma SampleTableOptions()
    ensures TableOptions(SampleEntries) == SampleOptions
  {
    SampleAddedAll();
    SampleBumped();
    assert InitOffset(|SampleEntries|) == 26;
  }

  lemma SampleFits()
    ensures Fits(SampleEntries) && Capacity(SampleEntries) == 39
  {
    var es := SampleEntries;
    assert SumDeclared(es[5..]) == 0;
    assert SumDeclared(es[4..]) == 1 + SumDeclared(es[5..]);
    assert SumDeclared(es[3..]) == 4 + SumDeclared(es[4..]);
    assert SumDeclared(es[2..]) == 1 + SumDeclared(es[3..]);
    assert SumDeclared(es[1..]) == 1 + SumDeclared(es[2..]);
    assert SumDeclared(es) == 6 + SumDeclared(es[1..]);
  }

  lemma SampleMarsRows()
    ensures TableBytes([MarsOption, TerminatorOption]) == MarsRow + [0xFF]
  {
    assert TableBytes([TerminatorOption]) == [0xFF];
    assert BE(38, 2) == [0, 38] && BE(1, 2) == [0, 1];
  }

  lemma SampleThreadRows()
    ensures TableBytes([ThreadOption, MarsOption, TerminatorOption]) == ThreadRow + (MarsRow + [0xFF])
  {
    SampleMarsRows();
    assert BE(34, 2) == [0, 34] && BE(4, 2) == [0, 4];
  }

  lemma SampleInstOptRows()
    ensures TableBytes([InstOptOption, ThreadOption, MarsOption, TerminatorOption]) ==
      InstOptRow + (ThreadRow + (MarsRow + [0xFF]))
  {
    SampleThreadRows();
    assert BE(33, 2) == [0, 33] && BE(1, 2) == [0, 1];
  }

  lemma SampleEncryptionRows()
    ensures TableBytes([EncryptionOption, InstOptOption, ThreadOption, MarsOption, TerminatorOption]) ==
      EncryptionRow + (InstOptRow + (ThreadRow + (MarsRow + [0xFF])))
  {
    SampleInstOptRows();
    assert BE(32, 2) == [0, 32] && BE(1, 2) == [0, 1];
  }

  lemma SampleTableBytes()
    ensures TableBytes(SampleOptions) == SampleTable
  {
    SampleEncryptionRows();
    assert BE(26, 2) == [0, 26] && BE(6, 2) == [0, 6];
  }

  lemma SampleValueBytes()
    ensures ValueBytes(SampleEntries) == SampleValues
  {
    var es := SampleEntries;
    assert ValueBytes(es[5..]) == [];
    assert ValueBytes(es[4..]) == es[4].value + ValueBytes(es[5..]);
    assert ValueBytes(es[3..]) == es[3].value + ValueBytes(es[4..]);
    assert ValueBytes(es[2..]) == es[2].value + ValueBytes(es[3..]);
    assert ValueBytes(es[1..]) == es[1].value + ValueBytes(es[2..]);
    assert ValueBytes(es) == es[0].value + ValueBytes(es[1..]);
  }

  /** The PRELOGIN GeneratePayload test: these fields encode to the 39 bytes of the sample. */
  lemma SampleGenerate()
    ensures GeneratedPayload(SampleFields) == Ok(SamplePayload)
  {
    SampleEntriesListed();
    SampleFits();
    GeneratedLayout(SampleEntries);
    SampleTableOptions();
    SampleTableBytes();
    SampleValueBytes();
  }

  /** The PRELOGIN InterpretPayload test: the 39 sample bytes decode to these fields. */
  lemma SampleInterpret()
    ensures Interpret(NoFields, Some(SamplePayload)) == (SampleFields, None)
  {
    SampleGenerate();
    GeneratedPayloadRoundTrip(SampleFields);
  }
}
