/**
 * The body of the FEATUREEXTACK token (MS-TDS section 2.2.7.11): a list
 * of acknowledged features, each an id byte, a little-endian int32 data
 * length and the data, closed by the terminator id 0xFF.
 *
 * The writer stops at the first terminator in the list and appends one
 * when the list has none; the reader loops until it reads the terminator
 * and keeps it as the last entry of the list. The byte count the reader
 * reports adds `len + 3` per feature, two short of the five header bytes
 * each feature occupies.
 */
module FeatureExtAckTokens {
  import opened Wire
  import opened Io
  import Login7

  /** The feature id that ends the list. */
  const Terminator: byte := Login7.TerminatorId

  /** The width of the length in front of each feature's data. */
  const LengthBytes: nat := 4

  /** One acknowledged feature; a null FeatureAckData is the empty sequence. */
  datatype FeatureAckOpt = FeatureAckOpt(featureId: byte, featureAckData: bytes)

  /** The entry the reader stores for the terminator it reads. */
  const TerminatorOpt := FeatureAckOpt(Terminator, [])

  predicate NoTerminator(opts: seq<FeatureAckOpt>)
  {
    forall i :: 0 <= i < |opts| ==> opts[i].featureId != Terminator
  }

  /** A list as the reader leaves it: features, then the terminator entry. */
  predicate Terminated(opts: seq<FeatureAckOpt>)
  {
    |opts| > 0 && opts[|opts| - 1] == TerminatorOpt && NoTerminator(opts[..|opts| - 1])
  }

  /** Every data length fits the int32 the writer puts in front of it. */
  predicate Sized(opts: seq<FeatureAckOpt>)
  {
    forall i :: 0 <= i < |opts| ==> |opts[i].featureAckData| < 0x8000_0000
  }

  // ---------------------------------------------------------------------
  // The FeatureAckOpts setter
  // ---------------------------------------------------------------------

  /** The value the setter stores: null becomes the empty list. */
  function StoredOpts(value: Option<seq<FeatureAckOpt>>): (r: seq<FeatureAckOpt>)
    ensures value.None? ==> r == []
    ensures value.Some? ==> r == value.value
  {
    if value.None? then [] else value.value
  }

  // ---------------------------------------------------------------------
  // The writer, as the bytes it writes
  // ---------------------------------------------------------------------

  /** One feature: its id, the length of its data as an int, and the data. */
  function OptBytes(o: FeatureAckOpt): (r: bytes)
    ensures |r| == 5 + |o.featureAckData|
  {
    [o.featureId] + LE32(Wrap(|o.featureAckData|, 0x1_0000_0000)) + o.featureAckData
  }

  /** Features one after the other, with no terminator. */
  function Chain(opts: seq<FeatureAckOpt>): (r: bytes)
  {
    if |opts| == 0 then [] else OptBytes(opts[0]) + Chain(opts[1..])
  }

  /** WriteBodyToBinaryWriter: the features up to the first terminator, then the terminator byte. */
  function EncodeBody(opts: seq<FeatureAckOpt>): (r: bytes)
    ensures |r| > 0 && r[|r| - 1] == Terminator
  {
    if |opts| == 0 || opts[0].featureId == Terminator then [Terminator]
    else OptBytes(opts[0]) + EncodeBody(opts[1..])
  }

  /** A list without a terminator is written feature by feature and then closed with 0xFF. */
  lemma {:induction false} EncodePlain(opts: seq<FeatureAckOpt>)
    requires NoTerminator(opts)
    ensures EncodeBody(opts) == Chain(opts) + [Terminator]
  {
    if |opts| > 0 {
      EncodePlain(opts[1..]);
      Assoc(OptBytes(opts[0]), Chain(opts[1..]), [Terminator]);
    }
  }

  /** Everything from the first terminator on is left unwritten, save the terminator byte. */
  lemma {:induction false} EncodeStopsAtTerminator(opts: seq<FeatureAckOpt>, t: FeatureAckOpt, more: seq<FeatureAckOpt>)
    requires NoTerminator(opts) && t.featureId == Terminator
    ensures EncodeBody(opts + [t] + more) == Chain(opts) + [Terminator]
  {
    if |opts| == 0 {
      assert (opts + [t] + more)[0] == t;
    } else {
      assert (opts + [t] + more)[1..] == opts[1..] + [t] + more;
      EncodeStopsAtTerminator(opts[1..], t, more);
      Assoc(OptBytes(opts[0]), Chain(opts[1..]), [Terminator]);
    }
  }

  /** The count the reader reports for these features and the terminator, less the terminator's 1. */
  function AckCount(opts: seq<FeatureAckOpt>): (r: nat)
  {
    if |opts| == 0 then 0 else |opts[0].featureAckData| + 3 + AckCount(opts[1..])
  }

  /** The bytes of features and terminator exceed the count the reader reports by two per feature. */
  lemma {:induction false} CountFallsShort(opts: seq<FeatureAckOpt>)
    requires NoTerminator(opts)
    ensures |EncodeBody(opts)| == AckCount(opts) + 1 + 2 * |opts|
  {
    if |opts| > 0 {
      CountFallsShort(opts[1..]);
    }
  }

  // ---------------------------------------------------------------------
  // The reader, as a value
  // ---------------------------------------------------------------------

  /**
   * One pass of the reader's loop: the terminator, or a feature with the
   * length read for it and the position the reader reaches after its data.
   */
  datatype Entry = Closing | Feature(opt: FeatureAckOpt, len: nat, end: nat)

  /**
   * One pass of ReadFromBinaryReader's loop at pos.
   * Running out of data while reading the id or the length is an invalid
   * message; a negative length makes ReadBytes throw an argument error,
   * which the loop does not catch; a length past the data reads what is
   * left.
   */
  function FeatureAt(data: bytes, pos: nat): Result<Entry>
  {
    if pos >= |data| then Err(InvalidMessage)
    else if data[pos] == Terminator then Ok(Closing)
    else if pos + 5 > |data| then Err(InvalidMessage)
    else
      var len := I32OfU32(LEAt(data, pos + 1, LengthBytes));
      if len < 0 then Err(Argument)
      else
        var end := pos + 5 + Min(len, |data| - (pos + 5));
        Ok(Feature(FeatureAckOpt(data[pos], data[pos + 5..end]), len, end))
  }

  /**
   * A pass of the loop fails only with an invalid message or an argument
   * error; it closes exactly on the terminator id; it fails with an
   * invalid message exactly when the id or the length runs past the data;
   * a feature holds the id read, the length read and the data after them.
   */
  lemma FeatureFacts(data: bytes, pos: nat)
    ensures var r := FeatureAt(data, pos); r.Err? ==> r.error == InvalidMessage || r.error == Argument
    ensures FeatureAt(data, pos) == Ok(Closing) <==> pos < |data| && data[pos] == Terminator
    ensures (pos >= |data| || (data[pos] != Terminator && pos + 5 > |data|)) <==> FeatureAt(data, pos) == Err(InvalidMessage)
    ensures var r := FeatureAt(data, pos); r.Ok? && r.value.Feature? ==>
      var o, len := r.value.opt, r.value.len;
      && r.value.end == pos + 5 + |o.featureAckData| <= |data| && o.featureId == data[pos] != Terminator
      && GetI32(data, pos + 1) == Ok(len) && o.featureAckData == Take(data, pos + 5, len)
  {
  }

  /** The features read so far, with what a reader from here on returns. */
  function Resume(opts: seq<FeatureAckOpt>, count: nat, r: Result<Parsed<seq<FeatureAckOpt>>>): (q: Result<Parsed<seq<FeatureAckOpt>>>)
    ensures q.Ok? <==> r.Ok?
    ensures r.Err? ==> q == r
  {
    if r.Err? then r else Ok(Parsed(opts + r.value.value, count + r.value.count, r.value.next))
  }

  /**
   * ReadFromBinaryReader from pos: the entries up to and including the
   * terminator; the count adds each feature's length plus three, and one
   * for the terminator; the reader ends right after the terminator byte.
   */
  function ParseBody(data: bytes, pos: nat): (r: Result<Parsed<seq<FeatureAckOpt>>>)
    ensures r.Ok? ==> pos < r.value.next <= |data|
    decreases |data| - pos
  {
    FeatureFacts(data, pos);
    var h := FeatureAt(data, pos);
    if h.Err? then Err(h.error)
    else if h.value.Closing? then Ok(Parsed([TerminatorOpt], 1, pos + 1))
    else Resume([h.value.opt], h.value.len + 3, ParseBody(data, h.value.end))
  }

  /** Where the reader fails: at the end of the data, in a feature header, or on a negative length. */
  lemma ParseRejects(data: bytes, pos: nat)
    ensures pos >= |data| ==> ParseBody(data, pos) == Err(InvalidMessage)
    ensures pos < |data| && data[pos] != Terminator && pos + 5 > |data| ==> ParseBody(data, pos) == Err(InvalidMessage)
    ensures pos + 5 <= |data| && data[pos] != Terminator && GetI32(data, pos + 1).value < 0
            ==> ParseBody(data, pos) == Err(Argument)
  {
  }

  /** The reader fails only with an invalid message, or with the argument error of a negative length. */
  lemma {:induction false} ParseErrors(data: bytes, pos: nat)
    requires ParseBody(data, pos).Err?
    ensures ParseBody(data, pos).error in {InvalidMessage, Argument}
    decreases |data| - pos
  {
    var h := FeatureAt(data, pos);
    if h.Ok? && h.value.Feature? {
      ParseErrors(data, h.value.end);
    }
  }

  /** A feature's data is as long as the length read for it when the reader goes on past it. */
  lemma FullData(data: bytes, pos: nat)
    requires FeatureAt(data, pos).Ok? && FeatureAt(data, pos).value.Feature?
    requires ParseBody(data, FeatureAt(data, pos).value.end).Ok?
    ensures var o, len := FeatureAt(data, pos).value.opt, FeatureAt(data, pos).value.len; |o.featureAckData| == len
  {
  }

  /**
   * The list read ends with the terminator entry and holds no other; the
   * reader moves two bytes per feature further than the count it reports.
   */
  lemma {:induction false} ParseShape(data: bytes, pos: nat)
    requires ParseBody(data, pos).Ok?
    ensures var p := ParseBody(data, pos).value;
      Terminated(p.value) && pos < p.next <= |data| && p.next == pos + p.count + 2 * (|p.value| - 1)
    decreases |data| - pos
  {
    var h := FeatureAt(data, pos);
    if h.value.Feature? {
      var o, after := h.value.opt, h.value.end;
      var q := ParseBody(data, after).value;
      ParseShape(data, after);
      FullData(data, pos);
      var opts := [o] + q.value;
      assert opts[..|opts| - 1] == [o] + q.value[..|q.value| - 1];
    }
  }

  lemma ResumeResume(opts: seq<FeatureAckOpt>, count: nat, more: seq<FeatureAckOpt>, k: nat,
                     r: Result<Parsed<seq<FeatureAckOpt>>>)
    ensures Resume(opts, count, Resume(more, k, r)) == Resume(opts + more, count + k, r)
  {
    if r.Ok? {
      assert opts + (more + r.value.value) == (opts + more) + r.value.value;
    }
  }

  lemma ResumeNothing(r: Result<Parsed<seq<FeatureAckOpt>>>)
    ensures Resume([], 0, r) == r
  {
    if r.Ok? {
      assert [] + r.value.value == r.value.value;
    }
  }

  /** A feature read at pos, then the reader from after its data. */
  lemma ParseStep(data: bytes, pos: nat, o: FeatureAckOpt, len: nat, end: nat)
    requires FeatureAt(data, pos) == Ok(Feature(o, len, end))
    ensures ParseBody(data, pos) == Resume([o], len + 3, ParseBody(data, end))
  {
  }

  // ---------------------------------------------------------------------
  // Round trips
  // ---------------------------------------------------------------------

  /** One feature's bytes at pos: the reader takes the feature and moves past it. */
  lemma OptAt(data: bytes, pos: nat, o: FeatureAckOpt, more: bytes, next: nat)
    requires o.featureId != Terminator && |o.featureAckData| < 0x8000_0000
    requires pos <= |data| && data[pos..] == OptBytes(o) + more && next == pos + 5 + |o.featureAckData|
    ensures FeatureAt(data, pos) == Ok(Feature(o, |o.featureAckData|, next))
    ensures next <= |data| && data[next..] == more
  {
    var d := o.featureAckData;
    assert OptBytes(o) + more == ([o.featureId] + (LEI32(|d|) + (d + more)));
    GetByteOf(data, pos, o.featureId, LEI32(|d|) + d, more);
    GetI32Of(data, pos + 1, |d|, d, more);
    Peel(data, pos + 5, d, [], more);
  }

  /** The first feature of a written list, and the rest of the list written after it. */
  lemma LaidFirst(opts: seq<FeatureAckOpt>, data: bytes, pos: nat, rest: bytes, after: nat)
    requires |opts| > 0 && NoTerminator(opts) && Sized(opts)
    requires pos <= |data| && data[pos..] == EncodeBody(opts) + rest
    requires after == pos + 5 + |opts[0].featureAckData|
    ensures FeatureAt(data, pos) == Ok(Feature(opts[0], |opts[0].featureAckData|, after))
    ensures after <= |data| && data[after..] == EncodeBody(opts[1..]) + rest
    ensures |EncodeBody(opts)| == 5 + |opts[0].featureAckData| + |EncodeBody(opts[1..])|
    ensures NoTerminator(opts[1..]) && Sized(opts[1..])
  {
    var o, tail := opts[0], opts[1..];
    EncodeFrom(opts, 0);
    assert opts[0..] == opts;
    Assoc(OptBytes(o), EncodeBody(tail), rest);
    OptAt(data, pos, o, EncodeBody(tail) + rest, after);
  }

  /** A non-empty list, closed: its head in front of its tail, closed. */
  lemma ConsClosed(opts: seq<FeatureAckOpt>)
    requires |opts| > 0
    ensures [opts[0]] + (opts[1..] + [TerminatorOpt]) == opts + [TerminatorOpt]
    ensures AckCount(opts) + 1 == |opts[0].featureAckData| + 3 + (AckCount(opts[1..]) + 1)
  {
    assert [opts[0]] + (opts[1..] + [TerminatorOpt]) == opts + [TerminatorOpt];
  }

  /** The reader fails at pos exactly as the pass of its loop there fails. */
  lemma ParseFails(data: bytes, pos: nat)
    requires FeatureAt(data, pos).Err?
    ensures ParseBody(data, pos) == Err(FeatureAt(data, pos).error)
  {
  }

  /** The reader at a terminator byte returns the terminator entry alone. */
  lemma ParseClosing(data: bytes, pos: nat)
    requires pos < |data| && data[pos] == Terminator
    ensures ParseBody(data, pos) == Ok(Parsed([TerminatorOpt], 1, pos + 1))
  {
  }

  /** The features of opts at pos, one after the other, then a terminator byte ending before next. */
  predicate Laid(data: bytes, pos: nat, opts: seq<FeatureAckOpt>, next: nat)
    decreases |opts|
  {
    if |opts| == 0 then pos < |data| && data[pos] == Terminator && next == pos + 1
    else
      var h := FeatureAt(data, pos);
      && h.Ok? && h.value.Feature? && h.value.opt == opts[0] && h.value.len == |opts[0].featureAckData|
      && Laid(data, h.value.end, opts[1..], next)
  }

  /** A written list without a terminator is laid out feature by feature. */
  lemma {:induction false} LaidOf(opts: seq<FeatureAckOpt>, data: bytes, pos: nat, rest: bytes, next: nat)
    requires NoTerminator(opts) && Sized(opts)
    requires pos <= |data| && data[pos..] == EncodeBody(opts) + rest
    requires next == pos + |EncodeBody(opts)|
    ensures Laid(data, pos, opts, next)
    decreases |opts|
  {
    if |opts| == 0 {
      assert data[pos] == Terminator;
    } else {
      var after := pos + 5 + |opts[0].featureAckData|;
      LaidFirst(opts, data, pos, rest, after);
      LaidOf(opts[1..], data, after, rest, next);
    }
  }

  /** The reader over laid-out features returns them, then the terminator entry. */
  lemma {:induction false} ParseOfLaid(data: bytes, pos: nat, opts: seq<FeatureAckOpt>, next: nat)
    requires Laid(data, pos, opts, next)
    ensures ParseBody(data, pos) == Ok(Parsed(opts + [TerminatorOpt], AckCount(opts) + 1, next))
    decreases |opts|
  {
    if |opts| == 0 {
      ParseClosing(data, pos);
      assert opts + [TerminatorOpt] == [TerminatorOpt];
    } else {
      var o, tail, after := opts[0], opts[1..], FeatureAt(data, pos).value.end;
      ParseOfLaid(data, after, tail, next);
      ConsClosed(opts);
      ParseCons(data, pos, o, tail + [TerminatorOpt], AckCount(tail) + 1, after, next, opts + [TerminatorOpt], AckCount(opts) + 1);
    }
  }

  /**
   * Reading a written list without a terminator gives the features back,
   * followed by the terminator entry, and ends right after the written
   * bytes.
   */
  lemma RoundTrip(opts: seq<FeatureAckOpt>, data: bytes, pos: nat, rest: bytes, next: nat)
    requires NoTerminator(opts) && Sized(opts)
    requires pos <= |data| && data[pos..] == EncodeBody(opts) + rest
    requires next == pos + |EncodeBody(opts)|
    ensures ParseBody(data, pos) == Ok(Parsed(opts + [TerminatorOpt], AckCount(opts) + 1, next))
  {
    LaidOf(opts, data, pos, rest, next);
    ParseOfLaid(data, pos, opts, next);
  }

  /** A feature at pos in front of a list the reader takes from after it. */
  lemma ParseCons(data: bytes, pos: nat, o: FeatureAckOpt, tail: seq<FeatureAckOpt>, k: nat, after: nat, next: nat,
                  all: seq<FeatureAckOpt>, count: nat)
    requires FeatureAt(data, pos) == Ok(Feature(o, |o.featureAckData|, after))
    requires ParseBody(data, after) == Ok(Parsed(tail, k, next))
    requires all == [o] + tail && count == |o.featureAckData| + 3 + k
    ensures ParseBody(data, pos) == Ok(Parsed(all, count, next))
  {
    ParseStep(data, pos, o, |o.featureAckData|, after);
    ResumeOk(o, |o.featureAckData| + 3, tail, k, next);
  }

  lemma ResumeOk(o: FeatureAckOpt, n: nat, tail: seq<FeatureAckOpt>, k: nat, next: nat)
    ensures Resume([o], n, Ok(Parsed(tail, k, next))) == Ok(Parsed([o] + tail, n + k, next))
  {
  }

  /** Without a terminator in the list, the count reported is two per feature short of the bytes read. */
  lemma CountOfWritten(opts: seq<FeatureAckOpt>, data: bytes, pos: nat, rest: bytes)
    requires NoTerminator(opts) && Sized(opts)
    requires pos <= |data| && data[pos..] == EncodeBody(opts) + rest
    ensures ParseBody(data, pos).Ok?
    ensures ParseBody(data, pos).value.count + 2 * |opts| == |EncodeBody(opts)|
  {
    RoundTrip(opts, data, pos, rest, pos + |EncodeBody(opts)|);
    CountFallsShort(opts);
  }

  /** Writing the list the reader returns reproduces exactly the bytes it read. */
  lemma {:induction false} Reencode(data: bytes, pos: nat)
    requires ParseBody(data, pos).Ok?
    ensures var p := ParseBody(data, pos).value; pos < p.next <= |data| && EncodeBody(p.value) == data[pos..p.next]
    decreases |data| - pos
  {
    var p := ParseBody(data, pos).value;
    var h := FeatureAt(data, pos);
    if h.value.Closing? {
      assert data[pos..p.next] == [data[pos]];
    } else {
      var o, after := h.value.opt, h.value.end;
      var d := o.featureAckData;
      var q := ParseBody(data, after).value;
      Reencode(data, after);
      FullData(data, pos);
      HeaderBytes(data, pos, d);
      assert p.value[1..] == q.value;
      assert data[pos + 5..after] == d;
      SplitFeature(data, pos, after, q.next);
    }
  }

  /** The four length bytes of a feature whose data is as long as the length they hold. */
  lemma HeaderBytes(data: bytes, pos: nat, d: bytes)
    requires pos + 5 <= |data| && I32OfU32(LEAt(data, pos + 1, 4)) == |d|
    ensures LE32(Wrap(|d|, 0x1_0000_0000)) == data[pos + 1..pos + 5]
  {
    LEAtIsLEValue(data, pos + 1, 4);
    LEOfLEValue(data[pos + 1..pos + 5]);
  }

  /** A feature's bytes cut into its id, its length, its data and what follows. */
  lemma SplitFeature(data: bytes, pos: nat, after: nat, next: nat)
    requires pos + 5 <= after <= next <= |data|
    ensures data[pos..next] == [data[pos]] + data[pos + 1..pos + 5] + data[pos + 5..after] + data[after..next]
  {
    assert data[pos..next] == [data[pos]] + data[pos + 1..next];
    assert data[pos + 1..next] == data[pos + 1..pos + 5] + data[pos + 5..next];
    assert data[pos + 5..next] == data[pos + 5..after] + data[after..next];
  }

  // ---------------------------------------------------------------------
  // The writer and the reader, step by step
  // ---------------------------------------------------------------------

  /** The list from i on, written: one feature, then the list from i + 1 on. */
  lemma EncodeFrom(opts: seq<FeatureAckOpt>, i: nat)
    requires i < |opts| && opts[i].featureId != Terminator
    ensures EncodeBody(opts[i..]) == OptBytes(opts[i]) + EncodeBody(opts[i + 1..])
  {
    assert opts[i..][1..] == opts[i + 1..];
  }

  /** WriteBodyToBinaryWriter: each feature in turn, returning at the first terminator. */
  method WriteBody(w: Writer, opts: seq<FeatureAckOpt>)
    modifies w
    ensures w.written == old(w.written) + EncodeBody(opts)
  {
    ghost var o := w.written;
    var i := 0;
    while i < |opts|
      invariant i <= |opts|
      invariant o + EncodeBody(opts) == w.written + EncodeBody(opts[i..])
    {
      var fo := opts[i];
      ghost var before := w.written;
      w.WriteByte(fo.featureId);
      if fo.featureId == Terminator {
        return;
      }
      if |fo.featureAckData| > 0 {
        w.WriteUInt32(Wrap(|fo.featureAckData|, 0x1_0000_0000));
        w.WriteBytes(fo.featureAckData);
      } else {
        w.WriteUInt32(0);
      }
      assert w.written == before + OptBytes(fo);
      EncodeFrom(opts, i);
      Assoc(before, OptBytes(fo), EncodeBody(opts[i + 1..]));
      i := i + 1;
    }
    assert opts[i..] == [];
    w.WriteByte(Terminator);
  }

  /** One pass of ReadFromBinaryReader's loop: the id, then for a feature its length and data. */
  method ReadFeature(rd: Reader) returns (r: Result<Entry>)
    modifies rd
    ensures r == FeatureAt(rd.data, old(rd.pos))
    ensures r.Ok? && r.value.Closing? ==> rd.pos == old(rd.pos) + 1
    ensures r.Ok? && r.value.Feature? ==> rd.pos == r.value.end
  {
    var id :- ReadByteCaught(rd);
    if id == Terminator {
      return Ok(Closing);
    }
    var len :- ReadInt32Caught(rd);
    if len < 0 {
      return Err(Argument);
    }
    ghost var start := rd.pos;
    var data := rd.ReadBytes(len);
    assert data == rd.data[start..rd.pos];
    return Ok(Feature(FeatureAckOpt(id, data), len, rd.pos));
  }

  /** ReadFromBinaryReader: the loop that reads features until the terminator. */
  method ReadBody(rd: Reader) returns (r: Result<Parsed<seq<FeatureAckOpt>>>)
    modifies rd
    ensures r == ParseBody(rd.data, old(rd.pos))
    ensures r.Ok? ==> rd.pos == r.value.next
  {
    var opts: seq<FeatureAckOpt> := [];
    var length: nat := 0;
    ResumeNothing(ParseBody(rd.data, rd.pos));
    while true
      invariant ParseBody(rd.data, old(rd.pos)) == Resume(opts, length, ParseBody(rd.data, rd.pos))
      decreases |rd.data| - rd.pos
    {
      ghost var at := rd.pos;
      var e := ReadFeature(rd);
      if e.Err? {
        ParseFails(rd.data, at);
        return Err(e.error);
      }
      if e.value.Closing? {
        ParseClosing(rd.data, at);
        return Ok(Parsed(opts + [TerminatorOpt], length + 1, rd.pos));
      }
      var o, len := e.value.opt, e.value.len;
      ParseStep(rd.data, at, o, len, rd.pos);
      ResumeResume(opts, length, [o], len + 3, ParseBody(rd.data, rd.pos));
      opts := opts + [o];
      length := length + len + 3;
    }
  }
}
