/** Per-device sequence state of discovery authentication. */
module DiscoveryAuth {
  import opened Types
  import opened BigEndian
  import opened Crypto
  import opened SdcpCodec

  datatype Context = Context(transmitted: u64, lastReceived: u64)

  const DEFAULT_CONTEXT := Context(1, 0)

  type Contexts = map<Mac, Context>

  function AddDevice(cs: Contexts, device: Mac): Contexts {
    if device in cs then cs else cs[device := DEFAULT_CONTEXT]
  }

  /** `create_auth_tag`: the number and tag, and the contexts with the counter moved on. */
  function CreateTag(
    mac: KeyedMac, cs: Contexts, device: Mac, h: SdcpHeader, payload: Bytes): (Option<(u64, Tag)>, Contexts) {
    if device !in cs then (None, cs)
    else
      var c := cs[device];
      (Some((c.transmitted, mac(SdcpTaggedBytes(h, payload, c.transmitted)))),
       cs[device := c.(transmitted := SaturatingAdd64(c.transmitted, 1))])
  }

  predicate SdcpTagMatches(mac: KeyedMac, b: ParsedSdcp) {
    b.authTag == mac(SdcpTaggedBytes(b.header, b.tlvPayload, b.sequenceNumber))
  }

  /** `validate_auth_tag` for a known device. */
  function ValidateTag(mac: KeyedMac, cs: Contexts, device: Mac, b: ParsedSdcp): (bool, Contexts) {
    if device !in cs || b.sequenceNumber <= cs[device].lastReceived || !SdcpTagMatches(mac, b) then (false, cs)
    else (true, cs[device := cs[device].(lastReceived := b.sequenceNumber)])
  }

  /** `validate_discovery_response`: an unknown device must start with number one. */
  predicate ValidDiscoveryResponse(mac: KeyedMac, b: ParsedSdcp) {
    b.sequenceNumber == 1 && SdcpTagMatches(mac, b)
  }

  class DiscoveryAuthHandler {
    const mac: KeyedMac
    var devices: Contexts

    constructor (mac: KeyedMac)
      ensures this.mac == mac && devices == map[]
    {
      this.mac := mac;
      devices := map[];
    }

    method AddNewDevice(device: Mac)
      modifies this
      ensures devices == AddDevice(old(devices), device)
    {
      if device !in devices { devices := devices[device := DEFAULT_CONTEXT]; }
    }

    method SetLastValidReceived(device: Mac, sequenceNumber: u64) returns (known: bool)
      modifies this
      ensures known == (device in old(devices))
      ensures devices ==
              if known then old(devices)[device := old(devices)[device].(lastReceived := sequenceNumber)]
              else old(devices)
    {
      known := device in devices;
      if known { devices := devices[device := devices[device].(lastReceived := sequenceNumber)]; }
    }

    method CreateAuthTag(device: Mac, h: SdcpHeader, payload: Bytes) returns (r: Option<(u64, Tag)>)
      modifies this
      ensures (r, devices) == CreateTag(mac, old(devices), device, h, payload)
    {
      if device !in devices {
        return None;
      }
      var context := devices[device];
      var header, sequence := SerializeSdcpHeader(h), ToBe(context.transmitted, 8);
      var tag := CalculateHmac(mac, [header, payload, sequence]);
      Concat3(header, payload, sequence);
      devices := devices[device := context.(transmitted := SaturatingAdd64(context.transmitted, 1))];
      r := Some((context.transmitted, tag));
    }

    method VerifyTag(b: ParsedSdcp) returns (valid: bool)
      ensures valid == SdcpTagMatches(mac, b)
    {
      var header, sequence := SerializeSdcpHeader(b.header), ToBe(b.sequenceNumber, 8);
      valid := VerifyHmac(mac, [header, b.tlvPayload, sequence], b.authTag);
      Concat3(header, b.tlvPayload, sequence);
    }

    method ValidateAuthTag(device: Mac, b: ParsedSdcp) returns (valid: bool)
      modifies this
      ensures (valid, devices) == ValidateTag(mac, old(devices), device, b)
      ensures valid <==>
                && device in old(devices) && b.sequenceNumber > old(devices)[device].lastReceived
                && b.authTag == mac(SdcpTaggedBytes(b.header, b.tlvPayload, b.sequenceNumber))
      ensures devices == if valid then old(devices)[device := old(devices)[device].(lastReceived := b.sequenceNumber)]
                         else old(devices)
    {
      if device !in devices {
        return false;
      }
      if b.sequenceNumber <= devices[device].lastReceived {
        return false;
      }
      valid := VerifyTag(b);
      if valid {
        devices := devices[device := devices[device].(lastReceived := b.sequenceNumber)];
      }
    }

    method ValidateDiscoveryResponse(b: ParsedSdcp) returns (valid: bool)
      ensures valid == ValidDiscoveryResponse(mac, b)
    {
      if b.sequenceNumber != 1 {
        return false;
      }
      valid := VerifyTag(b);
    }
  }
}
