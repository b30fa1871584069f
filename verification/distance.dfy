/** distance.py: the header-only decoder. It reads the signed tx power
    from byte 0 and takes the student id as the UTF-8 text of the bytes
    after it. */
module Distance {
  import opened Bytes
  import opened Advert

  const ServiceUuid: string := "0000feed-0000-1000-8000-00805f9b34fb"

  /** `bytes.decode("utf-8", errors="ignore")`, kept uninterpreted. */
  type Utf8Decoder = seq<byte> -> string

  datatype Header = Header(txPower: int, studentId: string)

  /** The lookup key of parse_payload, `SERVICE_UUID.lower()`. */
  function LookupKey(): (key: string)
    ensures key == Lower(ServiceUuid)
  {
    Lower(ServiceUuid)
  }

  /** The constant is already lower case, so parse_payload looks up the
      same key scanner.py does. */
  lemma LookupKeyIsTargetUuid()
    ensures LookupKey() == ServiceUuid == TargetServiceUuid
  {
    var l := Lower(ServiceUuid);
    forall i | 0 <= i < |ServiceUuid| ensures l[i] == ServiceUuid[i] {
      assert !('A' <= ServiceUuid[i] <= 'Z');
    }
  }

  /** parse_payload: `None` stands for `(None, None)`, returned when the
      service data is missing or shorter than two bytes. The tx power is
      byte 0 read as a signed byte; the student id comes from bytes 1..
      only. */
  function ParsePayload(ad: Advertisement, decode: Utf8Decoder): (r: Option<Header>)
    ensures r.Some? <==> HasPayload(ad, Lower(ServiceUuid), 2)
    ensures r.Some? ==>
      var raw := ad.serviceData[Lower(ServiceUuid)];
      && -128 <= r.value.txPower < 128
      && r.value.txPower == (if raw[0] < 128 then raw[0] as int else raw[0] as int - 256)
      && r.value.studentId == decode(raw[1..])
  {
    var key := LookupKey();
    if HasPayload(ad, key, 2) then
      var raw := ad.serviceData[key];
      Some(Header(FromBytesSigned(raw[0..1]), decode(raw[1..])))
    else
      None
  }

  /** Byte 0 never contributes to the student id. */
  lemma StudentIdIgnoresTxByte(ad1: Advertisement, ad2: Advertisement, decode: Utf8Decoder)
    requires HasPayload(ad1, LookupKey(), 2) && HasPayload(ad2, LookupKey(), 2)
    requires ad1.serviceData[LookupKey()][1..] == ad2.serviceData[LookupKey()][1..]
    ensures ParsePayload(ad1, decode).value.studentId == ParsePayload(ad2, decode).value.studentId
  {
  }

  /** The test main applies to each discovered device: the reading is used when the
      advertisement data is there, the payload parses and the decoded id
      is non-empty. The tx power only has to be present, so a tx power of
      0 is accepted. */
  function UsableHeader(adData: Option<Advertisement>, decode: Utf8Decoder): (r: Option<Header>)
    ensures r.Some? <==>
      && adData.Some?
      && HasPayload(adData.value, ServiceUuid, 2)
      && decode(adData.value.serviceData[ServiceUuid][1..]) != ""
    ensures r.Some? ==> r == ParsePayload(adData.value, decode)
  {
    LookupKeyIsTargetUuid();
    match adData
    case None => None
    case Some(ad) =>
      var h := ParsePayload(ad, decode);
      if h.Some? && h.value.studentId != "" then h else None
  }
}
