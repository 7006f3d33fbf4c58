/**
 * The scan screen's peripheral registry: a JavaScript `Map` from peripheral id to
 * peripheral (one entry per id, iterated in first-insertion order), the
 * `isScanning` flag, and the event handlers and connection flows that update them.
 */
module Registry {
  import opened Wrappers
  import opened Command

  /** The name given to a peripheral discovered without one. */
  const NO_NAME := "NO NAME"

  /** A peripheral as the screen holds it: what the BLE library reports (id, name,
      signal strength) and the two flags the screen adds (`undefined` until set). */
  datatype Peripheral = Peripheral(
    id: string,
    name: Option<string>,
    rssi: int,
    connected: Option<bool>,
    connecting: Option<bool>)

  /** `if (!peripheral.name) peripheral.name = 'NO NAME'`. */
  function WithDefaultName(p: Peripheral): (r: Peripheral)
    ensures IsTruthy(r.name)
    ensures IsTruthy(p.name) ==> r == p
    ensures r.(name := p.name) == p
  {
    if IsTruthy(p.name) then p else p.(name := Some(NO_NAME))
  }

  /** The in-place field updates the handlers make on an existing entry. */
  datatype Change =
    | MarkDisconnected      // disconnect event: `connected = false`
    | MarkConnecting        // before connecting: `connecting = true`
    | MarkConnectSucceeded  // after connecting: `connecting = false, connected = true`
    | MarkConnected         // reported connected by the library: `connected = true`
    | MarkRssi(rssi: int)   // signal strength read after connecting

  function Apply(p: Peripheral, c: Change): (r: Peripheral)
    ensures r.id == p.id && r.name == p.name
  {
    match c
    case MarkDisconnected => p.(connected := Some(false))
    case MarkConnecting => p.(connecting := Some(true))
    case MarkConnectSucceeded => p.(connecting := Some(false), connected := Some(true))
    case MarkConnected => p.(connected := Some(true))
    case MarkRssi(v) => p.(rssi := v)
  }

  /** Each update sets its fields to fixed values: doing it twice is doing it once. */
  lemma ApplyIdempotent(p: Peripheral, c: Change)
    ensures Apply(Apply(p, c), c) == Apply(p, c)
  {
  }

  /** The value of the Map: its entries and the order in which the keys were first set. */
  datatype Table = Table(byId: map<string, Peripheral>, order: seq<string>)

  predicate NoDuplicates(s: seq<string>) {
    forall i, j :: 0 <= i < j < |s| ==> s[i] != s[j]
  }

  /** One position per key, the keys of the order are those of the map, and every
      entry is stored under its own id. */
  ghost predicate WellFormed(t: Table) {
    NoDuplicates(t.order)
    && (forall k :: k in t.byId <==> k in t.order)
    && (forall k :: k in t.byId ==> t.byId[k].id == k)
  }

  const EmptyTable := Table(map[], [])

  /** `map.set(key, value)`: an existing key keeps its position, a new one goes last. */
  function Set(t: Table, key: string, value: Peripheral): Table {
    Table(t.byId[key := value], if key in t.byId then t.order else t.order + [key])
  }

  /** The entries in iteration order: `Array.from(map.values())`. */
  function Snapshot(t: Table): (s: seq<Peripheral>)
    requires WellFormed(t)
    ensures |s| == |t.order|
    ensures forall i :: 0 <= i < |s| ==> s[i] == t.byId[t.order[i]]
  {
    seq(|t.order|, i requires 0 <= i < |t.order| => t.byId[t.order[i]])
  }

  /** Setting an entry under its own id keeps the map well formed, and the
      positions of the keys already present. */
  lemma SetWellFormed(t: Table, p: Peripheral)
    requires WellFormed(t)
    ensures WellFormed(Set(t, p.id, p))
    ensures |Set(t, p.id, p).order| == |t.order| + (if p.id in t.byId then 0 else 1)
    ensures Set(t, p.id, p).order[..|t.order|] == t.order
    ensures p.id in Set(t, p.id, p).byId && Set(t, p.id, p).byId[p.id] == p
  {
    var r := Set(t, p.id, p);
    if p.id !in t.byId {
      assert r.order == t.order + [p.id];
      assert forall k :: k in r.order <==> k in t.order || k == p.id;
    }
  }

  /** The snapshot holds exactly one entry per key. */
  lemma {:induction false} SnapshotSize(t: Table)
    requires WellFormed(t)
    ensures |Snapshot(t)| == |t.byId|
    ensures forall i, j :: 0 <= i < j < |Snapshot(t)| ==> Snapshot(t)[i].id != Snapshot(t)[j].id
  {
    DistinctCard(t.order);
    assert t.byId.Keys == set k | k in t.order;
  }

  /** A sequence without duplicates has as many elements as the set of its elements. */
  lemma {:induction false} DistinctCard(s: seq<string>)
    requires NoDuplicates(s)
    ensures |set k | k in s| == |s|
    decreases |s|
  {
    if s != [] {
      var last := s[|s| - 1];
      var init := s[..|s| - 1];
      assert NoDuplicates(init);
      DistinctCard(init);
      assert last !in init;
      assert (set k | k in s) == (set k | k in init) + {last} by {
        assert s == init + [last];
      }
    }
  }

  /** Re-discovering a known id replaces its entry in place; a new id is listed last. */
  lemma SnapshotAfterSet(t: Table, p: Peripheral)
    requires WellFormed(t)
    ensures WellFormed(Set(t, p.id, p))
    ensures p.id !in t.byId ==> Snapshot(Set(t, p.id, p)) == Snapshot(t) + [p]
    ensures forall i :: 0 <= i < |t.order| && t.order[i] == p.id ==>
      Snapshot(Set(t, p.id, p)) == Snapshot(t)[i := p]
  {
    SetWellFormed(t, p);
    if p.id !in t.byId {
      SnapshotAppends(t, p);
    } else {
      forall i | 0 <= i < |t.order| && t.order[i] == p.id
        ensures Snapshot(Set(t, p.id, p)) == Snapshot(t)[i := p]
      {
        SnapshotReplaces(t, p, i);
      }
    }
  }

  /** Setting a new id lists it after every entry already there. */
  lemma SnapshotAppends(t: Table, p: Peripheral)
    requires WellFormed(t) && p.id !in t.byId
    ensures WellFormed(Set(t, p.id, p))
    ensures Snapshot(Set(t, p.id, p)) == Snapshot(t) + [p]
  {
    SetWellFormed(t, p);
  }

  /** Setting the id at position `i` replaces that position only. */
  lemma SnapshotReplaces(t: Table, p: Peripheral, i: int)
    requires WellFormed(t) && 0 <= i < |t.order| && t.order[i] == p.id
    ensures WellFormed(Set(t, p.id, p))
    ensures Snapshot(Set(t, p.id, p)) == Snapshot(t)[i := p]
  {
    SetWellFormed(t, p);
    assert forall j :: 0 <= j < |t.order| && j != i ==> t.order[j] != p.id;
  }

  /** Setting the same entry twice is setting it once. */
  lemma SetIdempotent(t: Table, key: string, value: Peripheral)
    ensures Set(Set(t, key, value), key, value) == Set(t, key, value)
  {
  }

  /** A guarded update: `const p = map.get(id); if (p) { ...; map.set(id, p) }`. */
  function Update(t: Table, id: string, c: Change): Table {
    if id in t.byId then Set(t, id, Apply(t.byId[id], c)) else t
  }

  /** An update never creates an entry, never moves one, and changes only the
      entry of its id, and on it only the fields the change names. */
  lemma UpdateOnlyTouchesId(t: Table, id: string, c: Change)
    requires WellFormed(t)
    ensures WellFormed(Update(t, id, c))
    ensures id !in t.byId ==> Update(t, id, c) == t
    ensures Update(t, id, c).order == t.order
    ensures Update(t, id, c).byId.Keys == t.byId.Keys
    ensures forall k :: k in t.byId ==>
      Update(t, id, c).byId[k] == if k == id then Apply(t.byId[k], c) else t.byId[k]
  {
  }

  /** A second disconnect event for the same peripheral changes nothing more. */
  lemma DisconnectIdempotent(t: Table, id: string)
    ensures Update(Update(t, id, MarkDisconnected), id, MarkDisconnected)
      == Update(t, id, MarkDisconnected)
  {
  }

  /** The discovery handler: name defaulted, then `map.set(peripheral.id, peripheral)`. */
  function Discover(t: Table, p: Peripheral): Table {
    Set(t, p.id, WithDefaultName(p))
  }

  /** Discovery stores the event's peripheral as it is, named, replacing whatever was
      known of that id, flags included. */
  lemma DiscoverReplaces(t: Table, p: Peripheral)
    requires WellFormed(t)
    ensures WellFormed(Discover(t, p))
    ensures Discover(t, p).byId == t.byId[p.id := WithDefaultName(p)]
    ensures IsTruthy(Discover(t, p).byId[p.id].name)
    ensures p.id in t.byId ==> Discover(t, p).order == t.order
  {
    SetWellFormed(t, WithDefaultName(p));
  }

  /** The ids of a list of peripherals, in order. */
  function Ids(ps: seq<Peripheral>): (ids: seq<string>)
    ensures |ids| == |ps|
    ensures forall i :: 0 <= i < |ps| ==> ids[i] == ps[i].id
    decreases |ps|
  {
    if ps == [] then [] else Ids(ps[..|ps| - 1]) + [ps[|ps| - 1].id]
  }

  /** The list of peripherals the library reports connected, applied one by one. */
  function MarkAllConnected(t: Table, ps: seq<Peripheral>): Table
    decreases |ps|
  {
    if ps == [] then t
    else Update(MarkAllConnected(t, ps[..|ps| - 1]), ps[|ps| - 1].id, MarkConnected)
  }

  /** Exactly the registered peripherals the library reports are marked connected;
      no entry is created, moved, or otherwise changed. */
  lemma {:induction false} MarkAllConnectedEntries(t: Table, ps: seq<Peripheral>)
    requires WellFormed(t)
    ensures WellFormed(MarkAllConnected(t, ps))
    ensures MarkAllConnected(t, ps).order == t.order
    ensures MarkAllConnected(t, ps).byId.Keys == t.byId.Keys
    ensures forall k :: k in t.byId ==>
      MarkAllConnected(t, ps).byId[k] ==
        (if k in Ids(ps) then Apply(t.byId[k], MarkConnected) else t.byId[k])
    decreases |ps|
  {
    if ps != [] {
      var init := ps[..|ps| - 1];
      var last := ps[|ps| - 1];
      MarkAllConnectedEntries(t, init);
      var mid := MarkAllConnected(t, init);
      UpdateOnlyTouchesId(mid, last.id, MarkConnected);
      assert Ids(ps) == Ids(init) + [last.id];
      forall k | k in t.byId
        ensures MarkAllConnected(t, ps).byId[k] ==
          (if k in Ids(ps) then Apply(t.byId[k], MarkConnected) else t.byId[k])
      {
        ApplyIdempotent(t.byId[k], MarkConnected);
      }
    }
  }

  /** The associated peripherals, each stored under its id as the library reports it. */
  function SetAll(t: Table, ps: seq<Peripheral>): Table
    decreases |ps|
  {
    if ps == [] then t
    else
      var last := ps[|ps| - 1];
      Set(SetAll(t, ps[..|ps| - 1]), last.id, last)
  }

  /** The last peripheral of the list with id `k`, if any. */
  function LastWithId(ps: seq<Peripheral>, k: string): (r: Option<Peripheral>)
    ensures r.Some? ==> r.value.id == k
    ensures r.Some? ==>
      exists i :: 0 <= i < |ps| && ps[i] == r.value && forall j :: i < j < |ps| ==> ps[j].id != k
    ensures r.None? <==> k !in Ids(ps)
    decreases |ps|
  {
    if ps == [] then None
    else if ps[|ps| - 1].id == k then Some(ps[|ps| - 1])
    else
      var init := ps[..|ps| - 1];
      var r := LastWithId(init, k);
      assert Ids(ps) == Ids(init) + [ps[|ps| - 1].id];
      if r.Some? then
        var i :| 0 <= i < |init| && init[i] == r.value && forall j :: i < j < |init| ==> init[j].id != k;
        assert ps[i] == r.value;
        assert forall j :: i < j < |ps| ==> ps[j].id != k by {
          forall j | i < j < |ps| ensures ps[j].id != k {
            if j < |init| {
              assert ps[j] == init[j];
            }
          }
        }
        r
      else r
  }

  /** The ids of `ids` absent from `seen`, each once, in order of first occurrence. */
  function NewIds(seen: seq<string>, ids: seq<string>): (r: seq<string>)
    ensures NoDuplicates(r)
    ensures forall k :: k in r <==> k in ids && k !in seen
    decreases |ids|
  {
    if ids == [] then []
    else
      var front := NewIds(seen, ids[..|ids| - 1]);
      var x := ids[|ids| - 1];
      assert forall k :: k in ids <==> k in ids[..|ids| - 1] || k == x by {
        assert ids == ids[..|ids| - 1] + [x];
      }
      if x in seen || x in front then front else front + [x]
  }

  /** Storing a list keeps the registry well formed; the keys already present keep
      their positions and the new ones follow, in order of first occurrence. */
  lemma {:induction false} SetAllShape(t: Table, ps: seq<Peripheral>)
    requires WellFormed(t)
    ensures WellFormed(SetAll(t, ps))
    ensures SetAll(t, ps).order == t.order + NewIds(t.order, Ids(ps))
    decreases |ps|
  {
    if ps != [] {
      var init := ps[..|ps| - 1];
      var last := ps[|ps| - 1];
      var mid := SetAll(t, init);
      SetAllShape(t, init);
      SetWellFormed(mid, last);
      assert Ids(ps)[..|ps| - 1] == Ids(init);
      assert Ids(ps)[|ps| - 1] == last.id;
      assert last.id in mid.byId <==> last.id in t.order + NewIds(t.order, Ids(init));
    }
  }

  /** After storing a list, `k` holds the last peripheral of the list with that id,
      or what it held before when the list has none. */
  lemma {:induction false} SetAllEntry(t: Table, ps: seq<Peripheral>, k: string)
    ensures k in SetAll(t, ps).byId <==> k in t.byId || k in Ids(ps)
    ensures LastWithId(ps, k).Some? ==> SetAll(t, ps).byId[k] == LastWithId(ps, k).value
    ensures LastWithId(ps, k).None? && k in t.byId ==> SetAll(t, ps).byId[k] == t.byId[k]
    decreases |ps|
  {
    if ps != [] {
      SetAllEntry(t, ps[..|ps| - 1], k);
      assert Ids(ps) == Ids(ps[..|ps| - 1]) + [ps[|ps| - 1].id];
    }
  }

  /** `connectPeripheral` on the registry: mark connecting, and after each BLE step
      that succeeds, the next update. A rejected step ends the flow. */
  function ConnectFlow(t: Table, id: string, connectOk: bool, servicesOk: bool, rssi: Option<int>): Table {
    var t1 := Update(t, id, MarkConnecting);
    if !connectOk then t1
    else
      var t2 := Update(t1, id, MarkConnectSucceeded);
      if !servicesOk || rssi.None? then t2
      else Update(t2, id, MarkRssi(rssi.value))
  }

  /** After a successful connection the entry is connected and no longer connecting,
      and holds the signal strength if it was read; a rejected connection leaves the
      entry marked connecting; an unknown id is never added. */
  lemma ConnectFlowOutcome(t: Table, id: string, connectOk: bool, servicesOk: bool, rssi: Option<int>)
    requires WellFormed(t)
    ensures WellFormed(ConnectFlow(t, id, connectOk, servicesOk, rssi))
    ensures ConnectFlow(t, id, connectOk, servicesOk, rssi).order == t.order
    ensures id !in t.byId ==> ConnectFlow(t, id, connectOk, servicesOk, rssi) == t
    ensures id in t.byId ==>
      var p := ConnectFlow(t, id, connectOk, servicesOk, rssi).byId[id];
      var was := t.byId[id];
      p.id == was.id && p.name == was.name
      && (connectOk ==> p.connecting == Some(false) && p.connected == Some(true))
      && (!connectOk ==> p.connecting == Some(true) && p.connected == was.connected)
      && p.rssi == (if connectOk && servicesOk && rssi.Some? then rssi.value else was.rssi)
    ensures forall k :: k in t.byId && k != id ==>
      ConnectFlow(t, id, connectOk, servicesOk, rssi).byId[k] == t.byId[k]
  {
    var t1 := Update(t, id, MarkConnecting);
    UpdateOnlyTouchesId(t, id, MarkConnecting);
    if connectOk {
      var t2 := Update(t1, id, MarkConnectSucceeded);
      UpdateOnlyTouchesId(t1, id, MarkConnectSucceeded);
      if servicesOk && rssi.Some? {
        UpdateOnlyTouchesId(t2, id, MarkRssi(rssi.value));
      }
    }
  }

  /** The screen's registry state: the `peripherals` Map and the `isScanning` flag. */
  class ScanScreen {
    var peripherals: map<string, Peripheral>
    var order: seq<string>
    var isScanning: bool
    var blueInfo: BlueInfo

    function View(): Table
      reads this
    {
      Table(peripherals, order)
    }

    ghost predicate Valid()
      reads this
    {
      WellFormed(View())
    }

    constructor ()
      ensures Valid() && View() == EmptyTable && !isScanning
      ensures blueInfo == INITIAL_BLUE_INFO
    {
      peripherals := map[];
      order := [];
      isScanning := false;
      blueInfo := INITIAL_BLUE_INFO;
    }

    /** `startScan`: clears the registry and raises the flag unless a scan is
        already running; tells whether the BLE scan is requested. */
    method StartScan() returns (scanRequested: bool)
      requires Valid()
      modifies this
      ensures Valid() && isScanning && blueInfo == old(blueInfo)
      ensures scanRequested == !old(isScanning)
      ensures View() == if old(isScanning) then old(View()) else EmptyTable
    {
      scanRequested := false;
      if !isScanning {
        peripherals, order := map[], [];
        isScanning := true;
        scanRequested := true;
      }
    }

    /** `handleStopScan`: only lowers the flag. */
    method HandleStopScan()
      requires Valid()
      modifies this
      ensures Valid() && !isScanning && View() == old(View()) && blueInfo == old(blueInfo)
    {
      isScanning := false;
    }

    /** `startCompanionScan`: clears the registry whatever the flag. */
    method StartCompanionScan()
      requires Valid()
      modifies this
      ensures Valid() && View() == EmptyTable && isScanning == old(isScanning) && blueInfo == old(blueInfo)
    {
      peripherals, order := map[], [];
    }

    /** The companion scan's result arriving later: a chosen peripheral becomes
        the device of `blueInfo`; cancelling the chooser changes nothing. */
    method OnCompanionSelected(selected: Option<Peripheral>)
      requires Valid()
      modifies this
      ensures Valid() && View() == old(View()) && isScanning == old(isScanning)
      ensures blueInfo == if selected.None? then old(blueInfo)
                          else SelectDevice(old(blueInfo), selected.value.id, selected.value.name)
    {
      if selected.Some? {
        blueInfo := SelectDevice(blueInfo, selected.value.id, selected.value.name);
      }
    }

    /** `map.set(key, value)` on the screen's Map. */
    method SetEntry(key: string, value: Peripheral)
      requires Valid() && value.id == key
      modifies this
      ensures Valid() && View() == Set(old(View()), key, value)
      ensures isScanning == old(isScanning) && blueInfo == old(blueInfo)
    {
      SetWellFormed(View(), value);
      if key !in peripherals {
        order := order + [key];
      }
      peripherals := peripherals[key := value];
    }

    /** A guarded in-place update of the entry for `id`, a no-op when it is absent. */
    method UpdateEntry(id: string, c: Change)
      requires Valid()
      modifies this
      ensures Valid() && View() == Update(old(View()), id, c)
      ensures isScanning == old(isScanning) && blueInfo == old(blueInfo)
    {
      UpdateOnlyTouchesId(View(), id, c);
      if id in peripherals {
        var p := peripherals[id];
        p := Apply(p, c);
        SetEntry(id, p);
      }
    }

    /** `handleDiscoverPeripheral`. */
    method HandleDiscoverPeripheral(peripheral: Peripheral)
      requires Valid()
      modifies this
      ensures Valid() && View() == Discover(old(View()), peripheral)
      ensures isScanning == old(isScanning) && blueInfo == old(blueInfo)
    {
      var p := peripheral;
      if !IsTruthy(p.name) {
        p := p.(name := Some(NO_NAME));
      }
      SetEntry(p.id, p);
    }

    /** `handleDisconnectedPeripheral`. */
    method HandleDisconnectedPeripheral(id: string)
      requires Valid()
      modifies this
      ensures Valid() && View() == Update(old(View()), id, MarkDisconnected)
      ensures isScanning == old(isScanning) && blueInfo == old(blueInfo)
    {
      UpdateEntry(id, MarkDisconnected);
    }

    /** `connectPeripheral`, with the outcomes of the BLE connect, service retrieval
        and signal-strength read (`None` when the read rejects) as parameters. */
    method ConnectPeripheral(id: string, connectOk: bool, servicesOk: bool, rssi: Option<int>)
      requires Valid()
      modifies this
      ensures Valid() && View() == ConnectFlow(old(View()), id, connectOk, servicesOk, rssi)
      ensures isScanning == old(isScanning) && blueInfo == old(blueInfo)
    {
      UpdateEntry(id, MarkConnecting);
      if !connectOk {
        return;
      }
      UpdateEntry(id, MarkConnectSucceeded);
      if !servicesOk {
        return;
      }
      // re-setting the entry unchanged (`map.set(p.id, p)`) changes nothing
      if rssi.None? {
        return;
      }
      UpdateEntry(id, MarkRssi(rssi.value));
    }

    /** `togglePeripheralConnection`: a connected peripheral only gets a BLE
        disconnect request (the registry changes when the disconnect event arrives);
        any other is connected. */
    method TogglePeripheralConnection(p: Peripheral, connectOk: bool, servicesOk: bool, rssi: Option<int>)
      returns (disconnectRequested: bool)
      requires Valid()
      modifies this
      ensures Valid() && isScanning == old(isScanning) && blueInfo == old(blueInfo)
      ensures disconnectRequested == (p.connected == Some(true))
      ensures View() == if disconnectRequested then old(View())
                        else ConnectFlow(old(View()), p.id, connectOk, servicesOk, rssi)
    {
      disconnectRequested := p.connected == Some(true);
      if !disconnectRequested {
        ConnectPeripheral(p.id, connectOk, servicesOk, rssi);
      }
    }

    /** `retrieveConnected`, given the list the library reports; a rejected request
        changes nothing, as the empty list does. */
    method RetrieveConnected(connectedPeripherals: seq<Peripheral>)
      requires Valid()
      modifies this
      ensures Valid() && View() == MarkAllConnected(old(View()), connectedPeripherals)
      ensures isScanning == old(isScanning) && blueInfo == old(blueInfo)
    {
      if |connectedPeripherals| == 0 {
        return;
      }
      for i := 0 to |connectedPeripherals|
        invariant Valid() && isScanning == old(isScanning) && blueInfo == old(blueInfo)
        invariant View() == MarkAllConnected(old(View()), connectedPeripherals[..i])
      {
        assert connectedPeripherals[..i + 1][..i] == connectedPeripherals[..i];
        UpdateEntry(connectedPeripherals[i].id, MarkConnected);
      }
      assert connectedPeripherals[..|connectedPeripherals|] == connectedPeripherals;
    }

    /** `getAssociatedPeripherals`, given the list the library reports (`None` when
        the request rejects, which the `catch` absorbs without changing anything) and
        whether the command write succeeds: an empty list falls back to the companion
        scan (which clears the registry); otherwise the first peripheral becomes the
        device of `blueInfo`, the command is written through the `blueInfo` read
        before that update, and every reported peripheral is stored as it is,
        unless the write rejected. */
    method GetAssociatedPeripherals(reported: Option<seq<Peripheral>>, writeOk: bool)
      returns (companionScan: bool, write: Option<WriteRequest>)
      requires Valid()
      modifies this
      ensures Valid() && isScanning == old(isScanning)
      ensures companionScan == (reported == Some([]))
      ensures blueInfo == if reported.None? || companionScan then old(blueInfo)
                          else SelectDevice(old(blueInfo), reported.value[0].id, reported.value[0].name)
      ensures write == if reported.None? || companionScan then None else Some(CommandWrite(old(blueInfo)))
      ensures View() == if reported.None? then old(View())
                        else if companionScan then EmptyTable
                        else if !writeOk then old(View())
                        else SetAll(old(View()), reported.value)
    {
      if reported.None? {
        return false, None;
      }
      var associated := reported.value;
      companionScan := |associated| == 0;
      if companionScan {
        StartCompanionScan();
        return companionScan, None;
      }
      var staleInfo := blueInfo;
      blueInfo := SelectDevice(blueInfo, associated[0].id, associated[0].name);
      var regularArr := CommandPayload();
      write := Some(WriteRequest(staleInfo.deviceId, staleInfo.serviceUUID, staleInfo.writeUUID, regularArr));
      if !writeOk {
        return;
      }
      var info := blueInfo;
      for i := 0 to |associated|
        invariant Valid() && isScanning == old(isScanning) && blueInfo == info
        invariant View() == SetAll(old(View()), associated[..i])
      {
        assert associated[..i + 1][..i] == associated[..i];
        SetEntry(associated[i].id, associated[i]);
      }
      assert associated[..|associated|] == associated;
    }
  }
}
