/** What a detection callback receives from the BLE scanner, the frame
    filter the two scanning receivers share, and the shape of a callback's
    result. */
module Advert {
  import opened Bytes

  datatype Option<+T> = None | Some(value: T)

  /** bleak's AdvertisementData, reduced to the fields the receivers read:
      `service_uuids` (which may be None), `service_data` (UUID string to
      payload bytes) and `rssi` in dBm. */
  datatype Advertisement = Advertisement(
    serviceUuids: Option<seq<string>>,
    serviceData: map<string, seq<byte>>,
    rssi: int)

  /** One detection the scanner delivers to a callback: the device name
      (None when the device has none) and the advertisement data. */
  datatype Sighting = Sighting(name: Option<string>, ad: Advertisement)

  /** 16-bit UUID 0xFEED on the Bluetooth base UUID; only string-compared. */
  const TargetServiceUuid: string := "0000feed-0000-1000-8000-00805f9b34fb"
  const DeviceNamePrefix: string := "IndoorScanner"

  /** `rssi_to_distance(rssi, tx_power)` (a float power of ten, rounded),
      kept uninterpreted. */
  type DistanceModel = (int, int) -> real

  /** The result of one callback invocation: it returned normally, or it
      raised (struct.error, IndexError, TypeError) after making the writes
      held in `state`; the scan goes on with that state. */
  datatype Outcome<S> = Done(state: S) | Failed(state: S)

  function LowerChar(c: char): char {
    if 'A' <= c <= 'Z' then (c as int + 32) as char else c
  }

  /** `str.lower()` on ASCII letters. */
  function Lower(s: string): (r: string)
    ensures |r| == |s|
    ensures forall i :: 0 <= i < |s| ==> r[i] == LowerChar(s[i])
  {
    seq(|s|, i requires 0 <= i < |s| => LowerChar(s[i]))
  }

  /** `TARGET_SERVICE_UUID.lower() == uuid.lower()`. */
  predicate IsTargetUuid(uuid: string) {
    Lower(TargetServiceUuid) == Lower(uuid)
  }

  /** `any(TARGET_SERVICE_UUID.lower() == uuid.lower() for uuid in uuids)`. */
  function AnyUuidMatches(uuids: seq<string>): (r: bool)
    ensures r <==> exists i :: 0 <= i < |uuids| && IsTargetUuid(uuids[i])
  {
    if |uuids| == 0 then false
    else
      assert forall i :: 1 <= i < |uuids| ==> uuids[1..][i - 1] == uuids[i];
      IsTargetUuid(uuids[0]) || AnyUuidMatches(uuids[1..])
  }

  /** `advertisement_data.service_uuids or []`. */
  function UuidsOrEmpty(ad: Advertisement): seq<string> {
    match ad.serviceUuids
    case None => []
    case Some(us) => us
  }

  /** `device.name and device.name.startswith(DEVICE_NAME_PREFIX)`. */
  predicate NameMatches(name: Option<string>) {
    name.Some? && |name.value| > 0 && DeviceNamePrefix <= name.value
  }

  /** `uuid_match or name_match`: some advertised service UUID equals the
      target ignoring case, or the device name starts with the prefix. */
  function FrameAccepted(name: Option<string>, ad: Advertisement): (r: bool)
    ensures r <==>
      (exists u :: u in UuidsOrEmpty(ad) && IsTargetUuid(u))
      || (name.Some? && DeviceNamePrefix <= name.value)
  {
    var uuids := UuidsOrEmpty(ad);
    assert forall u :: u in uuids ==> exists i :: 0 <= i < |uuids| && uuids[i] == u;
    AnyUuidMatches(uuids) || NameMatches(name)
  }

  /** `service_data.get(key)`, present and at least `len` bytes long. */
  predicate HasPayload(ad: Advertisement, key: string, len: nat) {
    key in ad.serviceData && |ad.serviceData[key]| >= len
  }
}
