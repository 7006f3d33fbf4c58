# BLE scan screen: a Dafny model

The `ScanDevicesScreen` component of a React Native BLE app scans for
peripherals that offer service `fff0`, keeps a registry of those it found,
connects to them, sends the command `#100;` to the chosen device and collects
the telemetry lines the device notifies back. This project models three parts
of it and proves their properties:

- **Telemetry** (`jstext.dfy`, `telemetry.dfy`). Each decoded notification
  line is cut into tokens with `split(' ')` and a filter on
  `item.trim().length > 0`. JavaScript's `split` with a one-character
  separator and `trim` (ECMAScript WhiteSpace and LineTerminator) are modelled
  in `JsText`. A start marker (`print` or `date`) empties the record list
  `lisRef.current` (class `RecordBuffer`), and an end marker (`-----end-----`
  or `-&`) leaves it as it is. Any other line is read by `formatStringToObject`
  into `{stt, date, time, lat, long}` and appended to the list, unless it has
  fewer than four tokens, in which case formatting throws.
- **Peripheral registry** (`registry.dfy`). The `peripherals` Map is modelled
  as a key-to-value map plus the first-insertion order that JavaScript `Map`
  iteration follows. Class `ScanScreen` holds that Map together with
  `isScanning` and `blueInfo`, and its methods are the handlers that update
  them: scan start and stop, discovery, disconnect, the connect flow, the
  connect/disconnect toggle, the list of connected peripherals, and the list of
  associated peripherals. Each handler is proved against a function on the
  registry's value, and lemmas state what those functions do to the entries.
- **Command** (`command.dfy`). `toArrayBuffer` is modelled as its byte-copy
  loop. The `#100;` payload is proved to be `[35, 49, 48, 48, 59]`. The
  `sendToDevice` guard writes only after a successful connect and only when
  both a service UUID and a device id are set.

Results of the BLE library take the place of the library calls. Whether
connect, service retrieval or a write succeeds is a `bool` parameter. The
signal-strength read is an `Option<int>` parameter. The peripheral lists the
library reports are `seq` parameters; for `getAssociatedPeripherals` the list is
an `Option`, `None` standing for a rejected request. In `retrieveConnected` a
rejected request changes nothing, as the empty list does. React's state
setters are modelled as immediate assignments to the class fields.

Where the code's behaviour may surprise, the model follows the code as written:
- A data line with fewer than four tokens makes `exist[3].trim()` throw; it is
  not reported as a parse error. The model gives it the outcome `Throws`, and
  the handler then ends before its `push`, so the record list is unchanged.
- Discovery stores the event's peripheral object as it is. This replaces any
  `connected`/`connecting` flags the old entry had (`DiscoverReplaces`).
- A rejected connect ends `connectPeripheral` in its `catch`. The entry then
  stays marked `connecting` (`ConnectFlowOutcome`).
- `sendToDevice` awaits `connect(deviceId)` before it tests its guard.
- `getAssociatedPeripherals` writes the command through the `blueInfo` it
  read before its own `setBlueInfo` (`CommandWrite(old(blueInfo))`), that is,
  to the previously selected device.

## Model

| member | source | states |
|---|---|---|
| JsText.Trim | example/components/ScanDevicesScreen.tsx:195 | `trim` removes a whitespace prefix and a whitespace suffix, so the result is a slice of the string between two blank parts, with no whitespace at either end, and is empty exactly when the string is all whitespace |
| JsText.TrimPadded | example/components/ScanDevicesScreen.tsx:221 | a string with no whitespace at either end, padded with whitespace on both sides, trims back to exactly that string |
| JsText.TrimUnchanged | example/components/ScanDevicesScreen.tsx:221 | a string with no whitespace at either end is its own trim |
| JsText.Split | example/components/ScanDevicesScreen.tsx:194 | `split` yields at least one piece and no piece holds the separator |
| JsText.JoinSplit | example/components/ScanDevicesScreen.tsx:194 | joining the pieces of `split` with the separator gives back the original string |
| JsText.SplitJoin | example/components/ScanDevicesScreen.tsx:194 | splitting a join of separator-free pieces gives back exactly those pieces |
| JsText.SplitFirst | example/components/ScanDevicesScreen.tsx:221 | the first piece is the longest separator-free prefix, and there is one piece exactly when the separator does not occur |
| JsText.SplitAtFirst | example/components/ScanDevicesScreen.tsx:221 | with the separator present, the pieces are the first one followed by the pieces after the first separator |
| Telemetry.HasTextIsNotBlank | example/components/ScanDevicesScreen.tsx:195 | the filter keeps an item exactly when it is not all whitespace |
| Telemetry.Filter | example/components/ScanDevicesScreen.tsx:195 | every item `filter` keeps is accepted and is one of the pieces, and every accepted piece is kept |
| Telemetry.FilterAppend | example/components/ScanDevicesScreen.tsx:195 | filtering a concatenation is concatenating the filtered parts, so order and multiplicity are kept |
| Telemetry.FilterSingle | example/components/ScanDevicesScreen.tsx:195 | a single piece is kept exactly when it is accepted |
| Telemetry.FilterKeepsAll | example/components/ScanDevicesScreen.tsx:195 | a list whose every piece is accepted passes the filter whole and in order |
| Telemetry.Tokens | example/components/ScanDevicesScreen.tsx:193-195 | no token is empty, all whitespace, or holds a space |
| Telemetry.TokensOfWords | example/components/ScanDevicesScreen.tsx:193-195 | non-blank space-free words joined by single spaces tokenise back into exactly those words |
| Telemetry.LatLong | example/components/ScanDevicesScreen.tsx:221 | latitude is a comma-free prefix of the trimmed field; longitude is absent exactly when the field has no comma |
| Telemetry.LatLongOfParts | example/components/ScanDevicesScreen.tsx:221-227 | a trimmed field `a,b,...` of comma-free parts gives latitude `a` and longitude `b` |
| Telemetry.LatLongOfPair | example/components/ScanDevicesScreen.tsx:221-227 | a field that trims to `lat,long` with comma-free halves yields exactly those halves |
| Telemetry.LatLongPadded | example/components/ScanDevicesScreen.tsx:221-227 | a position `lat,long` followed by trailing whitespace still yields exactly that latitude and longitude |
| Telemetry.LatLongCarriageReturnExample | example/components/ScanDevicesScreen.tsx:221-227 | the field `21.0,105.8\r` yields latitude `21.0` and longitude `105.8` |
| Telemetry.LatLongWithoutComma | example/components/ScanDevicesScreen.tsx:221-227 | a field without a comma is all latitude, with no longitude |
| Telemetry.FormatStringToObject | example/components/ScanDevicesScreen.tsx:211-229 | `null` exactly for lines holding a control token; a throw exactly for other lines with fewer than four tokens; otherwise stt, date and time are tokens 0 to 2 and the position comes from token 3 |
| Telemetry.IsStart | example/components/ScanDevicesScreen.tsx:198 | a start marker holds `print` or `date`: definition; used by `Classify` and `StartLineExample` |
| Telemetry.IsEnd | example/components/ScanDevicesScreen.tsx:204 | an end marker holds `-----end-----` or `-&`: definition; used by `Classify` and `EndLineExample` |
| Telemetry.Classify | example/components/ScanDevicesScreen.tsx:197-208 | start tokens are tested before end tokens; a data line carries the record `formatStringToObject` builds, and a line on which it throws is marked broken |
| Telemetry.Step | example/components/ScanDevicesScreen.tsx:197-208 | one line's effect on the record list: definition; its properties are stated in `ReplayWithoutStart`, `ReplayAfterStart`, `RecordsSinceLastStart` and `RecordBuffer.OnLine` |
| Telemetry.ReplayWithoutStart | example/components/ScanDevicesScreen.tsx:187-209 | with no start marker, each data line appends its record to those already held, in order |
| Telemetry.ReplayAfterStart | example/components/ScanDevicesScreen.tsx:198-201 | a start marker forgets everything received before it |
| Telemetry.RecordsSinceLastStart | example/components/ScanDevicesScreen.tsx:187-209 | after the last start marker, the list holds exactly the records of the data lines that followed it |
| Telemetry.PositionRoundTrip | example/components/ScanDevicesScreen.tsx:221-227 | a position written `lat,long` is one token and reads back as that latitude and longitude |
| Telemetry.FormatOfFourTokens | example/components/ScanDevicesScreen.tsx:211-229 | a line of four non-control tokens reads as the record of the first three and the latitude and longitude of the fourth |
| Telemetry.DataLineOfWords | example/components/ScanDevicesScreen.tsx:211-229 | four non-control words joined by spaces parse into the record of those words |
| Telemetry.DataLineRoundTrip | example/components/ScanDevicesScreen.tsx:211-229 | the line `stt date time lat,long` built from words reads back as exactly that record |
| Telemetry.DataLineWithoutLongitude | example/components/ScanDevicesScreen.tsx:221-227 | a data line whose position has no comma parses into a record without longitude |
| Telemetry.ShortLineThrows | example/components/ScanDevicesScreen.tsx:221 | formatting a non-control line of one to three words throws |
| Telemetry.StartLineExample | example/components/ScanDevicesScreen.tsx:198 | `print start` is a start marker |
| Telemetry.EndLineExample | example/components/ScanDevicesScreen.tsx:204 | `-----end-----` is an end marker and not a start marker |
| Telemetry.RecordBuffer.constructor | example/components/ScanDevicesScreen.tsx:186 | the record list starts empty |
| Telemetry.RecordBuffer.OnLine | example/components/ScanDevicesScreen.tsx:187-209 | a start marker empties the list, an end marker keeps it, a data line appends exactly its record and keeps the rest, and a throw leaves it unchanged; the new list is one `Step` of the old one |
| Registry.WithDefaultName | example/components/ScanDevicesScreen.tsx:233-235 | the name becomes truthy; a truthy name is kept; nothing else changes |
| Registry.Apply | example/components/ScanDevicesScreen.tsx:341-428 | an in-place update never changes a peripheral's id or name |
| Registry.ApplyIdempotent | example/components/ScanDevicesScreen.tsx:173-180 | repeating an in-place update changes nothing further |
| Registry.Snapshot | example/components/ScanDevicesScreen.tsx:597 | `Array.from(map.values())` lists the entries in key-insertion order |
| Registry.Set | example/components/ScanDevicesScreen.tsx:236-238 | `map.set`: definition; its properties are stated in `SetWellFormed`, `SnapshotAfterSet` and `SetIdempotent` |
| Registry.SetWellFormed | example/components/ScanDevicesScreen.tsx:236-238 | `map.set` under the entry's own id keeps one position per key, keeps the existing positions, adds at most one, and stores the value |
| Registry.SnapshotSize | example/components/ScanDevicesScreen.tsx:597 | the listed entries are one per key, with distinct ids |
| Registry.SnapshotAfterSet | example/components/ScanDevicesScreen.tsx:236-238 | setting a known id replaces its entry in place in the list; a new id is listed last |
| Registry.SetIdempotent | example/components/ScanDevicesScreen.tsx:236-238 | setting the same entry twice is setting it once |
| Registry.Update | example/components/ScanDevicesScreen.tsx:173-180 | the guarded in-place update: definition; its properties are stated in `UpdateOnlyTouchesId` |
| Registry.UpdateOnlyTouchesId | example/components/ScanDevicesScreen.tsx:173-180 | a guarded update never creates or moves an entry, leaves an absent id's registry untouched, and changes only its own entry |
| Registry.DisconnectIdempotent | example/components/ScanDevicesScreen.tsx:167-181 | a second disconnect event changes nothing more |
| Registry.Discover | example/components/ScanDevicesScreen.tsx:231-239 | discovery: definition; its properties are stated in `DiscoverReplaces` |
| Registry.DiscoverReplaces | example/components/ScanDevicesScreen.tsx:231-239 | discovery stores the named peripheral under its id, replacing the old entry whole, and keeps a known id's position |
| Registry.Ids | example/components/ScanDevicesScreen.tsx:269-278 | the ids of a list, position by position |
| Registry.MarkAllConnected | example/components/ScanDevicesScreen.tsx:269-278 | the connected list applied entry by entry: definition; its properties are stated in `MarkAllConnectedEntries` |
| Registry.MarkAllConnectedEntries | example/components/ScanDevicesScreen.tsx:269-278 | exactly the registered peripherals the library reports are marked connected; nothing is created, moved or otherwise changed |
| Registry.SetAll | example/components/ScanDevicesScreen.tsx:319-323 | the associated list stored entry by entry: definition; its properties are stated in `SetAllShape` and `SetAllEntry` |
| Registry.LastWithId | example/components/ScanDevicesScreen.tsx:319-323 | a listed peripheral with the given id that no later peripheral of the list shares its id with; absent exactly when the id is not listed |
| Registry.NewIds | example/components/ScanDevicesScreen.tsx:321 | the ids not yet in the registry, each once, in order of first occurrence: `map.set` appends new keys in that order |
| Registry.SetAllShape | example/components/ScanDevicesScreen.tsx:319-323 | storing a list keeps the registry well formed; the new order is the old order followed by the listed ids not yet present, in order of first occurrence |
| Registry.SetAllEntry | example/components/ScanDevicesScreen.tsx:319-323 | after storing a list, each id holds the last listed peripheral with that id, or its old entry if none is listed |
| Registry.ConnectFlow | example/components/ScanDevicesScreen.tsx:341-440 | the connect flow on the registry: definition; its properties are stated in `ConnectFlowOutcome` |
| Registry.ConnectFlowOutcome | example/components/ScanDevicesScreen.tsx:341-440 | after a successful connect the entry is connected and not connecting; a rejected connect leaves it connecting; rssi is stored only after connect and services succeed and it is read; other entries and unknown ids are untouched |
| Registry.ScanScreen.constructor | example/components/ScanDevicesScreen.tsx:50-53 | an empty registry, not scanning, and the initial `blueInfo` |
| Registry.ScanScreen.StartScan | example/components/ScanDevicesScreen.tsx:57-79 | when not scanning, clears the registry, sets the flag and requests a scan; otherwise changes nothing |
| Registry.ScanScreen.HandleStopScan | example/components/ScanDevicesScreen.tsx:162-165 | lowers the flag and changes nothing else |
| Registry.ScanScreen.StartCompanionScan | example/components/ScanDevicesScreen.tsx:92-93 | clears the registry whatever the flag |
| Registry.ScanScreen.OnCompanionSelected | example/components/ScanDevicesScreen.tsx:97-109 | a chosen peripheral becomes the `blueInfo` device; a cancelled chooser changes nothing |
| Registry.ScanScreen.SetEntry | example/components/ScanDevicesScreen.tsx:236-238 | the registry becomes `Set` of the old one, still well formed |
| Registry.ScanScreen.UpdateEntry | example/components/ScanDevicesScreen.tsx:173-180 | the registry becomes the guarded `Update` of the old one |
| Registry.ScanScreen.HandleDiscoverPeripheral | example/components/ScanDevicesScreen.tsx:231-239 | the registry becomes `Discover` of the old one |
| Registry.ScanScreen.HandleDisconnectedPeripheral | example/components/ScanDevicesScreen.tsx:167-181 | the entry, if present, is marked disconnected |
| Registry.ScanScreen.ConnectPeripheral | example/components/ScanDevicesScreen.tsx:341-440 | the registry becomes `ConnectFlow` of the old one for the given BLE outcomes |
| Registry.ScanScreen.TogglePeripheralConnection | example/components/ScanDevicesScreen.tsx:241-254 | a connected peripheral only gets a disconnect request; any other goes through the connect flow |
| Registry.ScanScreen.RetrieveConnected | example/components/ScanDevicesScreen.tsx:256-285 | the registry becomes `MarkAllConnected` of the old one over the reported list |
| Registry.ScanScreen.GetAssociatedPeripherals | example/components/ScanDevicesScreen.tsx:287-330 | a rejected request changes nothing; an empty list falls back to the companion scan; otherwise the first peripheral becomes the device, the command goes out through the old `blueInfo`, and the reported peripherals are stored unless the write rejects |
| Command.AsciiBytes | example/components/ScanDevicesScreen.tsx:149 | one byte per character, equal to its code |
| Command.AsciiText | example/components/ScanDevicesScreen.tsx:149 | the inverse of the ASCII encoding: one character per byte, equal to its value |
| Command.AsciiTextOfBytes | example/components/ScanDevicesScreen.tsx:149 | decoding the encoded text gives back the text |
| Command.AsciiBytesOfText | example/components/ScanDevicesScreen.tsx:149 | encoding the decoded bytes gives back the bytes |
| Command.CommandBytes | example/components/ScanDevicesScreen.tsx:149 | `#100;` encodes to the bytes 35, 49, 48, 48, 59 |
| Command.ToArrayBuffer | example/components/ScanDevicesScreen.tsx:332-339 | a new buffer of the same length holding the same bytes |
| Command.Numbers | example/components/ScanDevicesScreen.tsx:152 | `Array.from` gives the same values as numbers |
| Command.CommandPayload | example/components/ScanDevicesScreen.tsx:148-152 | the payload is `[35, 49, 48, 48, 59]` |
| Command.CommandWrite | example/components/ScanDevicesScreen.tsx:153-158 | the write goes to `blueInfo`'s device, service and write characteristic, carrying the payload |
| Command.SelectDevice | example/components/ScanDevicesScreen.tsx:104-109 | the chosen id becomes serial number and device id, its name becomes the device name, and every other field is kept |
| Command.CanSend | example/components/ScanDevicesScreen.tsx:146 | the guard `blueInfo.serviceUUID && blueInfo.deviceId`: definition; its properties are stated in `SendToDevice`, `InitialInfoCannotSend` and `SelectDeviceEnablesSend` |
| Command.SendToDevice | example/components/ScanDevicesScreen.tsx:143-160 | the command is written exactly when the connect succeeds and both service UUID and device id are set, and then through `blueInfo`'s identifiers |
| Command.InitialInfoCannotSend | example/components/ScanDevicesScreen.tsx:81-89 | the initial `blueInfo` has no device, so nothing can be sent yet; its service is `fff0` and its write characteristic `fff2` |
| Command.SelectDeviceEnablesSend | example/components/ScanDevicesScreen.tsx:104-109 | choosing a device with a non-empty id opens the guard exactly when a service UUID is set, and the command then goes to that device |

## Left out

- The exception a short data line raises is modelled only as the outcome `Throws`; what the event emitter does with an exception thrown by a listener is not modelled.
- The BLE library calls `scan`, `companionScan`, `connect`, `retrieveServices`, `readRSSI`, `getConnectedPeripherals` and `writeWithoutResponse` become parameters carrying their outcomes, and the calls the screen only issues are returned as flags or write requests.
- `BleManager.start` in the mount effect (line 448) and `enableBluetooth` (lines 133-140) are not modelled: they change none of the modelled state.
- The `disconnect` and `connect` that `startCompanionScan` issues after a device is chosen (lines 110-117) are not modelled, neither as parameters nor as flags; only the `blueInfo` update before them is.
- Decoding a notification (`JSON.parse` of the value and `Buffer.toString`) is not modelled; `OnLine` starts from the decoded line. `AsciiText` serves only as the inverse of the command's ASCII encoding.
- `Buffer` and `Uint8Array` wrappers around the payload are modelled only as the byte copy they perform; the payload's encoding is ASCII only.
- Peripheral fields other than id, name, rssi, connected and connecting are not modelled. No handler reads them; only rendering shows `advertising.localName` (line 540).
- React concurrency: state updates are applied at once and in program order; interleavings of the asynchronous handlers, and stale reads of state beyond the one `getAssociatedPeripherals` shows, are not modelled.
- `sleep(900)`, console logging, the loop that only logs the retrieved characteristics, and the re-set of the unchanged entry after service retrieval (it changes nothing) are left out.
- `handleConnectPeripheral` only logs, so it is not modelled. A scan promise that rejects leaves the flag raised in the component too, and the scan request is returned as a flag.
- Listener registration and removal, Android permission requests, navigation and rendering are not modelled (rendering only through `Snapshot`).
