/**
 * TDSLogin7Message as an object: the message's properties, the payload
 * cached for sending, and the payload as it was received. Every property
 * setter discards the cached payload, so that the next send generates it
 * again from the properties.
 */
module Login7Messages {
  import opened Wire
  import opened Login7
  import Login7Proofs

  /**
   * Whether InterpretPayload reads a feature-extension chain from p: the
   * extension counts at the payload's version and its ibFeatureExt is not
   * zero. The reader then stores the chain through the FeatureExt setter.
   */
  predicate ReadsChain(p: bytes)
  {
    var fx := DecodeFixed(p);
    && fx.Ok? && HasExtension(fx.value)
    && var ext := ExtensionAt(p, fx.value, 0);
    ext.Ok? && ext.value.0 > 0
  }

  /**
   * What InterpretPayload does to a message with fields f and payload p:
   * no payload is the argument error of a stream over null; otherwise the
   * fields become what Decode reads, the FeatureExt held before surviving
   * when no chain is read, and a chain read through the setter discards
   * the cached payload. On a failure the model keeps the message as it
   * was; the source has by then assigned the properties read before the
   * throw, but TDSMessage.FromPackets, which calls InterpretPayload, lets
   * the exception through and never hands the message out, so those
   * assignments are not observable.
   */
  function Interpretation(f: Login7Fields, p: Option<bytes>): (r: (Result<()>, Login7Fields, Option<bytes>))
    ensures p.None? ==> r == (Err(Argument), f, p)
    ensures r.0.Err? && p.Some? ==> r.1 == f && r.2 == p
    ensures r.0.Ok? ==> p.Some? && Decode(f.featureExt, p.value) == Ok(r.1)
    ensures r.0.Ok? ==> (r.2.None? <==> ReadsChain(p.value))
  {
    if p.None? then (Err(Argument), f, p)
    else
      match Decode(f.featureExt, p.value)
      case Err(e) => (Err(e), f, p)
      case Ok(g) => (Ok(()), g, if ReadsChain(p.value) then None else p)
  }

  /**
   * A message that received the payload its own fields generate reads
   * those fields back, given it held the same FeatureExt list before: a
   * payload without a feature chain leaves the list it held in place.
   */
  lemma GenerateThenInterpret(m: Login7Fields, before: Login7Fields)
    requires Login7Proofs.Encodable(m) && before.featureExt == m.featureExt
    ensures GeneratedPayload(m).Ok?
    ensures var o := Interpretation(before, Some(GeneratedPayload(m).value)); o.0 == Ok(()) && o.1 == m
  {
    Login7Proofs.RoundTrip(m, m.featureExt);
  }

  class Login7Message {
    var fields: Login7Fields
    var payload: Option<bytes>
    var receivedPayload: Option<bytes>

    constructor ()
      ensures fields == NoLogin7 && payload == None && receivedPayload == None
    {
      fields := NoLogin7;
      payload := None;
      receivedPayload := None;
    }

    // The setters the proxy uses; the others follow the same pattern.

    method SetTdsVersion(v: u32)
      modifies this
      ensures fields == old(fields).(tdsVersion := v) && payload == None && receivedPayload == old(receivedPayload)
    {
      payload := None;
      fields := fields.(tdsVersion := v);
    }

    method SetHostName(s: Utf16)
      modifies this
      ensures fields == old(fields).(hostName := s) && payload == None && receivedPayload == old(receivedPayload)
    {
      payload := None;
      fields := fields.(hostName := s);
    }

    method SetUserName(s: Utf16)
      modifies this
      ensures fields == old(fields).(userName := s) && payload == None && receivedPayload == old(receivedPayload)
    {
      payload := None;
      fields := fields.(userName := s);
    }

    method SetPassword(s: Utf16)
      modifies this
      ensures fields == old(fields).(password := s) && payload == None && receivedPayload == old(receivedPayload)
    {
      payload := None;
      fields := fields.(password := s);
    }

    method SetDatabase(s: Utf16)
      modifies this
      ensures fields == old(fields).(database := s) && payload == None && receivedPayload == old(receivedPayload)
    {
      payload := None;
      fields := fields.(database := s);
    }

    method SetFeatureExt(fs: Option<seq<FeatureOpt>>)
      modifies this
      ensures fields == old(fields).(featureExt := fs) && payload == None && receivedPayload == old(receivedPayload)
    {
      payload := None;
      fields := fields.(featureExt := fs);
    }

    /** GeneratePayload: the payload becomes the bytes GeneratedPayload gives, or the call fails as it does. */
    method GeneratePayload() returns (r: Result<()>)
      modifies this
      ensures fields == old(fields) && receivedPayload == old(receivedPayload)
      ensures GeneratedPayload(fields).Ok? ==> r == Ok(()) && payload == Some(GeneratedPayload(fields).value)
      ensures GeneratedPayload(fields).Err? ==> r == Err(GeneratedPayload(fields).error) && payload == old(payload)
    {
      var g := GeneratedPayload(fields);
      if g.Err? {
        return Err(g.error);
      }
      payload := Some(g.value);
      r := Ok(());
    }

    /** EnsurePayload: the payload is generated only when there is none. */
    method EnsurePayload() returns (r: Result<()>)
      modifies this
      ensures fields == old(fields) && receivedPayload == old(receivedPayload)
      ensures old(payload).Some? ==> r == Ok(()) && payload == old(payload)
      ensures old(payload).None? ==> var g := GeneratedPayload(fields);
        && (g.Ok? ==> r == Ok(()) && payload == Some(g.value))
        && (g.Err? ==> r == Err(g.error) && payload == None)
    {
      if payload.None? {
        r := GeneratePayload();
      } else {
        r := Ok(());
      }
    }

    /** InterpretPayload, as Interpretation has it; the payload as received is kept. */
    method InterpretPayload() returns (r: Result<()>)
      modifies this
      ensures receivedPayload == old(receivedPayload)
      ensures (r, fields, payload) == Interpretation(old(fields), old(payload))
    {
      var outcome := Interpretation(fields, payload);
      r, fields, payload := outcome.0, outcome.1, outcome.2;
    }
  }
}
