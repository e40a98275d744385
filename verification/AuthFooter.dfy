/** The security footer that ends every authenticated frame: sequence number, then tag. */
module AuthFooter {
  import opened Types
  import opened BigEndian

  const AUTH_TAG_SIZE := 8
  const SECURITY_FOOTER_SIZE := 16

  datatype SecurityFooter = SecurityFooter(sequenceNumber: u64, authTag: Tag)

  /** The bytes `write_to` appends. */
  function FooterBytes(f: SecurityFooter): (r: Bytes)
    ensures |r| == SECURITY_FOOTER_SIZE
  {
    ToBe(f.sequenceNumber, 8) + f.authTag
  }

  function ReadFooter(input: Bytes): Result<SecurityFooter> {
    if |input| != SECURITY_FOOTER_SIZE then Err(ErrInvalidLen)
    else Ok(SecurityFooter(U64(input[..8]), input[8..16]))
  }

  function SplitPayloadAndFooter(payload: Bytes): Result<(Bytes, SecurityFooter)> {
    if |payload| < SECURITY_FOOTER_SIZE then Err(ErrInvalidLen)
    else
      var start := |payload| - SECURITY_FOOTER_SIZE;
      match ReadFooter(payload[start..])
      case Err(code) => Err(code)
      case Ok(footer) => Ok((payload[..start], footer))
  }

  /** Splitting undoes appending a footer, whatever the payload. */
  lemma SplitAppend(payload: Bytes, f: SecurityFooter)
    ensures SplitPayloadAndFooter(payload + FooterBytes(f)) == Ok((payload, f))
  {
    var whole := payload + FooterBytes(f);
    assert whole[|payload|..] == FooterBytes(f);
    assert whole[..|payload|] == payload;
    assert FooterBytes(f)[..8] == ToBe(f.sequenceNumber, 8);
    assert FooterBytes(f)[8..16] == f.authTag;
    RoundTrip64(f.sequenceNumber);
  }

  /** Splitting succeeds exactly on inputs that hold a footer, and loses nothing. */
  lemma AppendSplit(whole: Bytes)
    ensures SplitPayloadAndFooter(whole).Ok? <==> |whole| >= SECURITY_FOOTER_SIZE
    ensures SplitPayloadAndFooter(whole).Ok? ==>
              var (payload, f) := SplitPayloadAndFooter(whole).value;
              payload + FooterBytes(f) == whole
  {
    if |whole| >= SECURITY_FOOTER_SIZE {
      var tail := whole[|whole| - 16..];
      EncodeDecode(tail[..8]);
      assert tail == tail[..8] + tail[8..16];
      assert whole == whole[..|whole| - 16] + tail;
    }
  }
}
