/**
 * The outbound command: the ASCII text `#100;` turned into the byte list written
 * to the write characteristic, and the guard that decides whether it is written.
 */
module Command {
  import opened Wrappers

  newtype byte = x: int | 0 <= x < 256

  /** The command the screen sends to request telemetry. */
  const COMMAND := "#100;"

  predicate IsAscii(s: string) {
    forall i :: 0 <= i < |s| ==> s[i] < 128 as char
  }

  /** `Buffer.from(text)` for ASCII text: one byte per character, its code. */
  function AsciiBytes(s: string): (b: seq<byte>)
    requires IsAscii(s)
    ensures |b| == |s|
    ensures forall i :: 0 <= i < |s| ==> b[i] as int == s[i] as int
  {
    seq(|s|, i requires 0 <= i < |s| => s[i] as int as byte)
  }

  /** `buffer.toString()` for bytes below 128: one character per byte. */
  function AsciiText(b: seq<byte>): (s: string)
    requires forall i :: 0 <= i < |b| ==> b[i] < 128
    ensures |s| == |b|
    ensures forall i :: 0 <= i < |b| ==> s[i] as int == b[i] as int
  {
    seq(|b|, i requires 0 <= i < |b| => b[i] as int as char)
  }

  /** Decoding the encoded text gives the text back. */
  lemma AsciiTextOfBytes(s: string)
    requires IsAscii(s)
    ensures AsciiText(AsciiBytes(s)) == s
  {
    var b := AsciiBytes(s);
    assert forall i :: 0 <= i < |b| ==> b[i] < 128;
    assert forall i :: 0 <= i < |s| ==> AsciiText(b)[i] == s[i];
  }

  /** Encoding the decoded bytes gives the bytes back. */
  lemma AsciiBytesOfText(b: seq<byte>)
    requires forall i :: 0 <= i < |b| ==> b[i] < 128
    ensures IsAscii(AsciiText(b)) && AsciiBytes(AsciiText(b)) == b
  {
    var s := AsciiText(b);
    assert forall i :: 0 <= i < |b| ==> AsciiBytes(s)[i] == b[i];
  }

  /** The payload of `#100;` is the bytes 35, 49, 48, 48, 59. */
  lemma CommandBytes()
    ensures IsAscii(COMMAND)
    ensures AsciiBytes(COMMAND) == [35, 49, 48, 48, 59]
  {
  }

  /** `toArrayBuffer`: a new buffer of the same length, filled byte by byte. */
  method ToArrayBuffer(buffer: seq<byte>) returns (view: array<byte>)
    ensures fresh(view)
    ensures view.Length == |buffer| && view[..] == buffer
  {
    view := new byte[|buffer|];
    for i := 0 to |buffer|
      invariant forall k :: 0 <= k < i ==> view[k] == buffer[k]
    {
      view[i] := buffer[i];
    }
  }

  /** `Array.from(buffer)`: the bytes as plain numbers. */
  function Numbers(b: seq<byte>): (r: seq<int>)
    ensures |r| == |b| && forall i :: 0 <= i < |b| ==> r[i] == b[i] as int
  {
    seq(|b|, i requires 0 <= i < |b| => b[i] as int)
  }

  /** The payload `sendToDevice` builds: `#100;` through `toArrayBuffer` into numbers. */
  method CommandPayload() returns (regularArr: seq<int>)
    ensures regularArr == [35, 49, 48, 48, 59]
  {
    CommandBytes();
    var arrayBuffer := ToArrayBuffer(AsciiBytes(COMMAND));
    regularArr := Numbers(arrayBuffer[..]);
  }

  /** The screen's `blueInfo` record. */
  datatype BlueInfo = BlueInfo(
    serviceUUID: Option<string>,
    writeUUID: Option<string>,
    readUUID: Option<string>,
    serialnumber: Option<string>,
    deviceName: Option<string>,
    deviceId: Option<string>,
    peripheralId: Option<string>)

  /** Its initial value: service `fff0`, write `fff2`, read `fff1`, no device yet. */
  const INITIAL_BLUE_INFO := BlueInfo(Some("fff0"), Some("fff2"), Some("fff1"), None, None, None, None)

  /** A `writeWithoutResponse(deviceId, serviceUUID, writeUUID, data)` call, with
      the identifiers exactly as read from `blueInfo`. */
  datatype WriteRequest = WriteRequest(
    deviceId: Option<string>,
    serviceUUID: Option<string>,
    characteristicUUID: Option<string>,
    data: seq<int>)

  /** The write of the command through the characteristics `info` names. */
  function CommandWrite(info: BlueInfo): (w: WriteRequest)
    ensures w.deviceId == info.deviceId && w.serviceUUID == info.serviceUUID
    ensures w.characteristicUUID == info.writeUUID && w.data == [35, 49, 48, 48, 59]
  {
    WriteRequest(info.deviceId, info.serviceUUID, info.writeUUID, [35, 49, 48, 48, 59])
  }

  /** The guard of `sendToDevice`: a service UUID and a device id are both set. */
  predicate CanSend(info: BlueInfo) {
    IsTruthy(info.serviceUUID) && IsTruthy(info.deviceId)
  }

  /** `setBlueInfo({...blueInfo, serialnumber: id, deviceName: name, deviceId: id})`:
      the chosen device's id and name, every other field kept. */
  function SelectDevice(info: BlueInfo, id: string, name: Option<string>): (r: BlueInfo)
    ensures r.serialnumber == Some(id) && r.deviceId == Some(id) && r.deviceName == name
    ensures r.(serialnumber := info.serialnumber, deviceName := info.deviceName, deviceId := info.deviceId) == info
  {
    info.(serialnumber := Some(id), deviceName := name, deviceId := Some(id))
  }

  /** `sendToDevice`, given whether the BLE connect it awaits first succeeds: the
      command is written only after a successful connect, and only when both the
      service UUID and the device id are set. */
  method SendToDevice(info: BlueInfo, connectOk: bool) returns (write: Option<WriteRequest>)
    ensures write.Some? <==> connectOk && CanSend(info)
    ensures write.Some? ==> write.value == CommandWrite(info)
  {
    if !connectOk {
      return None;
    }
    if !IsTruthy(info.serviceUUID) || !IsTruthy(info.deviceId) {
      return None;
    }
    var regularArr := CommandPayload();
    write := Some(WriteRequest(info.deviceId, info.serviceUUID, info.writeUUID, regularArr));
  }

  /** Before any device is chosen nothing can be sent; the write characteristic
      is `fff2` of service `fff0`. */
  lemma InitialInfoCannotSend()
    ensures !CanSend(INITIAL_BLUE_INFO)
    ensures CommandWrite(INITIAL_BLUE_INFO).serviceUUID == Some("fff0")
    ensures CommandWrite(INITIAL_BLUE_INFO).characteristicUUID == Some("fff2")
  {
  }

  /** Choosing a device with a non-empty id opens the guard exactly when a service
      UUID is set, and the command then goes to that device. */
  lemma SelectDeviceEnablesSend(info: BlueInfo, id: string, name: Option<string>)
    requires id != ""
    ensures CanSend(SelectDevice(info, id, name)) <==> IsTruthy(info.serviceUUID)
    ensures CommandWrite(SelectDevice(info, id, name)).deviceId == Some(id)
    ensures CommandWrite(SelectDevice(info, id, name)).characteristicUUID == info.writeUUID
  {
  }
}
