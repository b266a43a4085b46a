/** kerberos_gss.go: splitting a GSS Wrap token (RFC 4121, section 4.2.6.2) into the security header and the payload
    that WinRM sends separately. */
module KerberosGss {

  import opened Wrappers
  import opened Bytes

  const HEADER_LENGTH := 16

  /** The unseen security context at the moment of one call: what Wrap (with its confidentiality flag) and Unwrap
      would return.  Its keys and sequence numbers are not modelled. */
  datatype GssContext = GssContext(
    wrap: (bytes, bool) -> Result<bytes>,
    unwrap: bytes -> Result<(bytes, bool)>)

  /** Token ID 05 04, the Sealed flag, and the filler byte. */
  predicate ValidHeader(header: bytes) {
    && |header| == HEADER_LENGTH
    && header[0] as int == 0x05
    && header[1] as int == 0x04
    && header[3] as int == 0xFF
    && header[2] as int / 2 % 2 == 1
  }

  /** A token whose header names a Wrap token (05 04), has the Sealed bit (the second lowest) and the filler byte FF,
      and which has a payload. */
  predicate SealedToken(token: bytes) {
    && |token| > 16
    && token[..2] == [5 as char, 4 as char]
    && token[2] as int % 4 >= 2
    && token[3] == 255 as char
  }

  /** Splits the token that sealing `message` gives. */
  function Wrap(context: GssContext, message: bytes): (r: Result<(bytes, bytes)>)
    ensures r.Ok? <==>
              && context.wrap(message, true).Ok?
              && var token := context.wrap(message, true).value;
                 && |token| > 16 && token[0] as int == 5 && token[1] as int == 4
                 && token[2] as int % 4 >= 2 && token[3] as int == 255
    ensures r.Ok? ==> |r.value.0| == 16 && |r.value.1| > 0
    ensures r.Ok? ==> context.wrap(message, true) == Ok(r.value.0 + r.value.1)
  {
    var sealed := context.wrap(message, true);
    if sealed.Err? then Err("wrap")
    else
      var token := sealed.value;
      if |token| <= HEADER_LENGTH then Err("short token")
      else if !ValidHeader(token[..HEADER_LENGTH]) then Err("token header")
      else
        assert token == token[..HEADER_LENGTH] + token[HEADER_LENGTH..];
        Ok((token[..HEADER_LENGTH], token[HEADER_LENGTH..]))
  }

  /** Rejoins the token, and accepts only what the context reports as confidential. */
  function Unwrap(context: GssContext, header: bytes, payload: bytes): (r: Result<bytes>)
    ensures r.Ok? <==>
              && |header| == 16 && header[0] as int == 5 && header[1] as int == 4
              && header[2] as int % 4 >= 2 && header[3] as int == 255
              && context.unwrap(header + payload).Ok? && context.unwrap(header + payload).value.1
    ensures r.Ok? ==> context.unwrap(header + payload) == Ok((r.value, true))
  {
    if !ValidHeader(header) then Err("token header")
    else
      var opened_ := context.unwrap(header + payload);
      if opened_.Err? then Err("unwrap")
      else if !opened_.value.1 then Err("not confidential")
      else Ok(opened_.value.0)
  }

  /** When the peer's context opens what this one sealed, splitting and rejoining loses nothing. */
  lemma WrapUnwrap(sender: GssContext, receiver: GssContext, message: bytes)
    requires Wrap(sender, message).Ok?
    requires receiver.unwrap(sender.wrap(message, true).value) == Ok((message, true))
    ensures Unwrap(receiver, Wrap(sender, message).value.0, Wrap(sender, message).value.1) == Ok(message)
  {
  }
}
