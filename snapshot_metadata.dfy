/**
 * The CCTV snapshot metadata endpoint (GET /api/cctv-snapshots/metadata).
 *
 * The handler merges two optional sources into one report per camera: the
 * sidecar document `metadata.json` and the listing of the snapshot
 * directory. Reading and parsing are outside this model: the already parsed
 * sidecar and the already obtained listing are inputs, `None` standing for a
 * source that is missing or unreadable, and the clock is the input `now`.
 */
module SnapshotMetadata {
  import opened Wrappers
  import opened OrderedMap

  /**
   * One device of the sidecar's `devices` object, in `Object.entries` order.
   * `timestamp` is `None` when the field is absent or not a number, `success`
   * when it is absent or not a boolean.
   */
  datatype SidecarEntry = SidecarEntry(deviceId: string, timestamp: Option<int>, success: Option<bool>)

  /**
   * The parsed sidecar document. `lastUpdated` is `None` when absent or not a
   * number; `devices` is empty when the field is absent or not an object.
   */
  datatype Sidecar = Sidecar(lastUpdated: Option<int>, devices: seq<SidecarEntry>)

  /** One entry of the snapshot directory listing. */
  datatype DirEntry = DirEntry(name: string, isFile: bool)

  /** What the handler's map stores per device id. */
  datatype DeviceStatus = DeviceStatus(timestamp: int, success: bool)

  /** One record of the response (`SnapshotDeviceMeta`). */
  datatype SnapshotDeviceMeta = SnapshotDeviceMeta(deviceId: string, timestamp: int, success: bool, imageUrl: string)

  /** The response body (`SnapshotMetadataResponse`). */
  datatype SnapshotMetadataResponse = SnapshotMetadataResponse(lastUpdated: int, devices: seq<SnapshotDeviceMeta>)

  type DeviceMap = seq<(string, DeviceStatus)>

  const UrlPrefix: string := "/cctv-snapshots/"
  const JpgSuffix: string := ".jpg"

  // ---------------------------------------------------------------------
  // Names and URLs
  // ---------------------------------------------------------------------

  /** `String.prototype.toLowerCase` on one character (ASCII letters only). */
  function ToLowerChar(c: char): char {
    if 'A' <= c <= 'Z' then (c as int + 32) as char else c
  }

  function ToLower(s: string): string {
    seq(|s|, i requires 0 <= i < |s| => ToLowerChar(s[i]))
  }

  predicate EndsWith(s: string, suffix: string) {
    |suffix| <= |s| && s[|s| - |suffix|..] == suffix
  }

  /**
   * The device a directory entry is the snapshot of: a regular file whose
   * lower-cased name ends in ".jpg" gives its name without the last four
   * characters; any other entry gives nothing.
   */
  function SnapshotDeviceId(e: DirEntry): (r: Option<string>)
    ensures r.Some? <==>
      && e.isFile && |e.name| >= 4
      && e.name[|e.name| - 4] == '.'
      && e.name[|e.name| - 3] in {'j', 'J'}
      && e.name[|e.name| - 2] in {'p', 'P'}
      && e.name[|e.name| - 1] in {'g', 'G'}
    ensures r.Some? ==> r.value == e.name[..|e.name| - 4]
  {
    if !e.isFile then None
    else if !EndsWith(ToLower(e.name), JpgSuffix) then None
    else
      var n := |e.name|;
      assert ToLower(e.name)[n - 4..] == [ToLowerChar(e.name[n - 4]), ToLowerChar(e.name[n - 3]),
                                          ToLowerChar(e.name[n - 2]), ToLowerChar(e.name[n - 1])];
      Some(e.name[..n - 4])
  }

  /** The URL under which the snapshot of `deviceId` is served. */
  function ImageUrl(deviceId: string): string {
    UrlPrefix + deviceId + JpgSuffix
  }

  // ---------------------------------------------------------------------
  // The handler
  // ---------------------------------------------------------------------

  /** The map entry the first loop stores for a sidecar device. */
  function SidecarStatus(e: SidecarEntry, now: int): DeviceStatus {
    DeviceStatus(e.timestamp.GetOr(now), e.success == Some(true))
  }

  function ToRecord(deviceId: string, st: DeviceStatus): SnapshotDeviceMeta {
    SnapshotDeviceMeta(deviceId, st.timestamp, st.success, ImageUrl(deviceId))
  }

  /** The final projection of the map into response records, in iteration order. */
  function Project(m: DeviceMap): seq<SnapshotDeviceMeta> {
    seq(|m|, i requires 0 <= i < |m| => ToRecord(m[i].0, m[i].1))
  }

  /** The sidecar's `lastUpdated` when it is a non-zero number, otherwise `now`. */
  function LastUpdatedOrNow(sidecar: Option<Sidecar>, now: int): int {
    var v := if sidecar.Some? then sidecar.value.lastUpdated.GetOr(0) else 0;
    if v != 0 then v else now
  }

  /**
   * The GET handler, with its two loops over the sidecar devices and over the
   * directory listing, both updating the insertion-ordered map `devicesMap`.
   */
  method GetMetadata(sidecar: Option<Sidecar>, listing: Option<seq<DirEntry>>, now: int)
    returns (resp: SnapshotMetadataResponse)
    ensures resp == Merge(sidecar, listing, now)
    ensures MeetsContract(resp, sidecar, listing, now)
  {
    var devicesMap: DeviceMap := [];
    var lastUpdated := 0;

    if sidecar.Some? {
      var meta := sidecar.value;
      if meta.lastUpdated.Some? {
        lastUpdated := meta.lastUpdated.value;
      }
      for i := 0 to |meta.devices|
        invariant devicesMap == SidecarTable(meta.devices[..i], now)
      {
        var entry := meta.devices[i];
        assert meta.devices[..i + 1][..i] == meta.devices[..i];
        devicesMap := Put(devicesMap, entry.deviceId, SidecarStatus(entry, now));
      }
      assert meta.devices[..|meta.devices|] == meta.devices;
    }
    assert devicesMap == SidecarTable(SidecarDevices(sidecar), now);
    assert lastUpdated == (if sidecar.Some? then sidecar.value.lastUpdated.GetOr(0) else 0);
    ghost var base := devicesMap;

    if listing.Some? {
      var entries := listing.value;
      for i := 0 to |entries|
        invariant devicesMap == Overlay(base, entries[..i], now)
      {
        var e := entries[i];
        assert entries[..i + 1][..i] == entries[..i];
        ghost var prev := devicesMap;
        if !e.isFile {
          assert SnapshotDeviceId(e) == None;
          continue;
        }
        var name := e.name;
        if !EndsWith(ToLower(name), JpgSuffix) {
          assert SnapshotDeviceId(e) == None;
          continue;
        }
        var deviceId := name[..|name| - 4];
        assert SnapshotDeviceId(e) == Some(deviceId);
        if !Has(devicesMap, deviceId) {
          devicesMap := Put(devicesMap, deviceId, DeviceStatus(now, true));
        } else {
          var existing := Get(devicesMap, deviceId).value;
          devicesMap := Put(devicesMap, deviceId, existing.(success := true));
        }
        assert devicesMap == OverlayEntry(prev, e, now);
      }
      assert entries[..|entries|] == entries;
    }
    assert devicesMap == Overlay(base, ListingEntries(listing), now);

    var devices := Project(devicesMap);
    resp := SnapshotMetadataResponse(if lastUpdated != 0 then lastUpdated else now, devices);
    MergeMeetsContract(sidecar, listing, now);
  }

  // ---------------------------------------------------------------------
  // The merge as a function of its inputs
  // ---------------------------------------------------------------------

  /** The map after the first loop has run over `devs`. */
  function SidecarTable(devs: seq<SidecarEntry>, now: int): DeviceMap {
    if devs == [] then []
    else
      var n := |devs| - 1;
      Put(SidecarTable(devs[..n], now), devs[n].deviceId, SidecarStatus(devs[n], now))
  }

  /** One step of the second loop: a snapshot file adds its device, or marks it successful. */
  function OverlayEntry(m: DeviceMap, e: DirEntry, now: int): DeviceMap {
    match SnapshotDeviceId(e)
    case None => m
    case Some(id) =>
      match Get(m, id)
      case None => Put(m, id, DeviceStatus(now, true))
      case Some(existing) => Put(m, id, existing.(success := true))
  }

  /** The map after the second loop has run over `entries`, starting from `m`. */
  function Overlay(m: DeviceMap, entries: seq<DirEntry>, now: int): DeviceMap {
    if entries == [] then m
    else
      var n := |entries| - 1;
      OverlayEntry(Overlay(m, entries[..n], now), entries[n], now)
  }

  /** The response the handler builds from the two sources. */
  function Merge(sidecar: Option<Sidecar>, listing: Option<seq<DirEntry>>, now: int): SnapshotMetadataResponse {
    var merged := Overlay(SidecarTable(SidecarDevices(sidecar), now), ListingEntries(listing), now);
    SnapshotMetadataResponse(LastUpdatedOrNow(sidecar, now), Project(merged))
  }

  // ---------------------------------------------------------------------
  // What the response should be, stated per device
  // ---------------------------------------------------------------------

  function SidecarDevices(sidecar: Option<Sidecar>): seq<SidecarEntry> {
    if sidecar.Some? then sidecar.value.devices else []
  }

  function Ids(devs: seq<SidecarEntry>): seq<string> {
    seq(|devs|, i requires 0 <= i < |devs| => devs[i].deviceId)
  }

  /** The device ids the sidecar names, in the order of its device list (`Object.entries` order). */
  function SidecarIds(sidecar: Option<Sidecar>): seq<string> {
    Ids(SidecarDevices(sidecar))
  }

  /** The device ids of the snapshot files among `entries`, in listing order. */
  function SnapshotIds(entries: seq<DirEntry>): seq<string> {
    if entries == [] then []
    else
      var n := |entries| - 1;
      match SnapshotDeviceId(entries[n])
      case None => SnapshotIds(entries[..n])
      case Some(id) => SnapshotIds(entries[..n]) + [id]
  }

  function ListingEntries(listing: Option<seq<DirEntry>>): seq<DirEntry> {
    if listing.Some? then listing.value else []
  }

  /** The device ids of the snapshot files in the listing, in listing order. */
  function FileIds(listing: Option<seq<DirEntry>>): seq<string> {
    SnapshotIds(ListingEntries(listing))
  }

  /** The last sidecar entry for `id`: the one whose value a JavaScript object keeps. */
  function LastEntry(devs: seq<SidecarEntry>, id: string): Option<SidecarEntry> {
    if devs == [] then None
    else if devs[|devs| - 1].deviceId == id then Some(devs[|devs| - 1])
    else LastEntry(devs[..|devs| - 1], id)
  }

  /**
   * The record a device should get: a sidecar device keeps its sidecar
   * timestamp (or `now`) and succeeds when the sidecar says exactly `true` or
   * a snapshot file exists; a device known only from a file has `now` and
   * success; any other id gets no record.
   */
  function ExpectedStatus(sidecar: Option<Sidecar>, listing: Option<seq<DirEntry>>, now: int, id: string)
    : Option<DeviceStatus>
  {
    var hasFile := id in FileIds(listing);
    match LastEntry(SidecarDevices(sidecar), id)
    case Some(e) => Some(DeviceStatus(e.timestamp.GetOr(now), hasFile || e.success == Some(true)))
    case None => if hasFile then Some(DeviceStatus(now, true)) else None
  }

  function DeviceIds(devices: seq<SnapshotDeviceMeta>): seq<string> {
    seq(|devices|, i requires 0 <= i < |devices| => devices[i].deviceId)
  }

  /** Everything the response promises about its inputs. */
  ghost predicate MeetsContract(
    resp: SnapshotMetadataResponse, sidecar: Option<Sidecar>, listing: Option<seq<DirEntry>>, now: int)
  {
    && IsDedupOf(DeviceIds(resp.devices), SidecarIds(sidecar) + FileIds(listing))
    && (forall d | d in resp.devices :: d.imageUrl == ImageUrl(d.deviceId))
    && (forall d | d in resp.devices ::
          ExpectedStatus(sidecar, listing, now, d.deviceId) == Some(DeviceStatus(d.timestamp, d.success)))
    && (if sidecar.Some? && sidecar.value.lastUpdated.Some? && sidecar.value.lastUpdated.value != 0
        then resp.lastUpdated == sidecar.value.lastUpdated.value
        else resp.lastUpdated == now)
  }

  // ---------------------------------------------------------------------
  // Proofs
  // ---------------------------------------------------------------------

  /** The map value of the last sidecar entry for `id`. */
  function SidecarLookup(devs: seq<SidecarEntry>, id: string, now: int): Option<DeviceStatus> {
    match LastEntry(devs, id)
    case Some(e) => Some(SidecarStatus(e, now))
    case None => None
  }

  /** The first loop leaves one entry per sidecar id, listed in the order the ids first occur. */
  lemma {:induction false} SidecarTableKeys(devs: seq<SidecarEntry>, now: int)
    ensures UniqueKeys(SidecarTable(devs, now))
    ensures IsDedupOf(Keys(SidecarTable(devs, now)), Ids(devs))
  {
    if devs != [] {
      var n := |devs| - 1;
      SidecarTableKeys(devs[..n], now);
      assert Ids(devs) == Ids(devs[..n]) + [devs[n].deviceId];
      DedupAppend(Keys(SidecarTable(devs[..n], now)), Ids(devs[..n]), devs[n].deviceId);
    } else {
      assert Keys(SidecarTable(devs, now)) == [];
    }
  }

  /** After the first loop, each sidecar id holds the values of its last entry. */
  lemma {:induction false} SidecarTableGet(devs: seq<SidecarEntry>, now: int, id: string)
    ensures Get(SidecarTable(devs, now), id) == SidecarLookup(devs, id, now)
  {
    if devs != [] {
      var n := |devs| - 1;
      SidecarTableGet(devs[..n], now, id);
      if id != devs[n].deviceId {
        assert LastEntry(devs, id) == LastEntry(devs[..n], id);
      }
    }
  }

  /** With distinct sidecar ids, the first loop's keys are exactly those ids, in the order of the device list. */
  lemma {:induction false} SidecarTableKeysUnique(devs: seq<SidecarEntry>, now: int)
    requires forall i, j :: 0 <= i < j < |devs| ==> devs[i].deviceId != devs[j].deviceId
    ensures Keys(SidecarTable(devs, now)) == Ids(devs)
  {
    if devs != [] {
      var n := |devs| - 1;
      SidecarTableKeysUnique(devs[..n], now);
      assert Ids(devs) == Ids(devs[..n]) + [devs[n].deviceId];
    } else {
      assert Keys(SidecarTable(devs, now)) == [];
    }
  }

  /** The status of `id` after the second loop, given its status before. */
  function Overlaid(before: Option<DeviceStatus>, hasFile: bool, now: int): Option<DeviceStatus> {
    if !hasFile then before
    else match before
      case Some(st) => Some(st.(success := true))
      case None => Some(DeviceStatus(now, true))
  }

  /** One step of the second loop changes only the entry of the file's device. */
  lemma OverlayEntryGet(m: DeviceMap, e: DirEntry, now: int, id: string)
    ensures Get(OverlayEntry(m, e, now), id) == Overlaid(Get(m, id), SnapshotDeviceId(e) == Some(id), now)
  {
  }

  /**
   * The second loop keeps the map's keys as a prefix and appends the new
   * snapshot ids in listing order, each once.
   */
  lemma {:induction false} OverlayKeys(m: DeviceMap, entries: seq<DirEntry>, now: int, s: seq<string>)
    requires IsDedupOf(Keys(m), s)
    ensures UniqueKeys(Overlay(m, entries, now))
    ensures Keys(m) <= Keys(Overlay(m, entries, now))
    ensures IsDedupOf(Keys(Overlay(m, entries, now)), s + SnapshotIds(entries))
  {
    if entries == [] {
      assert s + SnapshotIds(entries) == s;
      assert forall i :: 0 <= i < |m| ==> Keys(m)[i] == m[i].0;
    } else {
      var n := |entries| - 1;
      var prev := Overlay(m, entries[..n], now);
      OverlayKeys(m, entries[..n], now, s);
      match SnapshotDeviceId(entries[n])
      case None =>
      case Some(id) =>
        assert s + SnapshotIds(entries) == (s + SnapshotIds(entries[..n])) + [id];
        DedupAppend(Keys(prev), s + SnapshotIds(entries[..n]), id);
    }
  }

  /**
   * The second loop changes a device exactly when it has a snapshot file:
   * success becomes true, an existing timestamp is kept, a new device gets `now`.
   */
  lemma {:induction false} OverlayGet(m: DeviceMap, entries: seq<DirEntry>, now: int, id: string)
    ensures Get(Overlay(m, entries, now), id) == Overlaid(Get(m, id), id in SnapshotIds(entries), now)
  {
    if entries != [] {
      var n := |entries| - 1;
      OverlayGet(m, entries[..n], now, id);
      OverlayEntryGet(Overlay(m, entries[..n], now), entries[n], now, id);
    }
  }

  /** The projection lists the map's keys in order, each with the status stored under it and its URL. */
  lemma ProjectFacts(m: DeviceMap)
    requires UniqueKeys(m)
    ensures DeviceIds(Project(m)) == Keys(m)
    ensures forall d | d in Project(m) ::
      d.imageUrl == ImageUrl(d.deviceId) && Get(m, d.deviceId) == Some(DeviceStatus(d.timestamp, d.success))
  {
    forall d | d in Project(m)
      ensures Get(m, d.deviceId) == Some(DeviceStatus(d.timestamp, d.success))
    {
      var i :| 0 <= i < |m| && Project(m)[i] == d;
      GetAt(m, i);
    }
  }

  /** The merge meets the per-device contract. */
  lemma MergeMeetsContract(sidecar: Option<Sidecar>, listing: Option<seq<DirEntry>>, now: int)
    ensures MeetsContract(Merge(sidecar, listing, now), sidecar, listing, now)
  {
    var devs := SidecarDevices(sidecar);
    var base := SidecarTable(devs, now);
    var entries := ListingEntries(listing);
    var merged := Overlay(base, entries, now);
    var resp := Merge(sidecar, listing, now);
    assert resp.devices == Project(merged);
    SidecarTableKeys(devs, now);
    OverlayKeys(base, entries, now, Ids(devs));
    ProjectFacts(merged);
    assert IsDedupOf(DeviceIds(resp.devices), SidecarIds(sidecar) + FileIds(listing));
    forall d | d in resp.devices
      ensures ExpectedStatus(sidecar, listing, now, d.deviceId) == Some(DeviceStatus(d.timestamp, d.success))
    {
      DeviceStatusExpected(sidecar, listing, now, d);
    }
  }

  /** A device's stored status after both loops is the one `ExpectedStatus` describes. */
  lemma DeviceStatusExpected(sidecar: Option<Sidecar>, listing: Option<seq<DirEntry>>, now: int, d: SnapshotDeviceMeta)
    requires Get(Overlay(SidecarTable(SidecarDevices(sidecar), now), ListingEntries(listing), now), d.deviceId)
             == Some(DeviceStatus(d.timestamp, d.success))
    ensures ExpectedStatus(sidecar, listing, now, d.deviceId) == Some(DeviceStatus(d.timestamp, d.success))
  {
    var devs := SidecarDevices(sidecar);
    var base := SidecarTable(devs, now);
    OverlayGet(base, ListingEntries(listing), now, d.deviceId);
    SidecarTableGet(devs, now, d.deviceId);
  }

  // ---------------------------------------------------------------------
  // The properties of the endpoint, one by one
  // ---------------------------------------------------------------------

  /** The response lists every id named by the sidecar or by a snapshot file, each exactly once, and no other. */
  lemma DeviceIdsAreUnion(sidecar: Option<Sidecar>, listing: Option<seq<DirEntry>>, now: int, id: string)
    ensures id in DeviceIds(Merge(sidecar, listing, now).devices) <==> id in SidecarIds(sidecar) || id in FileIds(listing)
    ensures forall i, j :: 0 <= i < j < |Merge(sidecar, listing, now).devices| ==>
      Merge(sidecar, listing, now).devices[i].deviceId != Merge(sidecar, listing, now).devices[j].deviceId
  {
    var devices := Merge(sidecar, listing, now).devices;
    var ids := DeviceIds(devices);
    MergeMeetsContract(sidecar, listing, now);
    assert forall i :: 0 <= i < |devices| ==> ids[i] == devices[i].deviceId;
    assert id in ids <==> id in SidecarIds(sidecar) + FileIds(listing);
  }

  /** A device with a snapshot file is reported successful, whatever the sidecar says. */
  lemma FileForcesSuccess(sidecar: Option<Sidecar>, listing: Option<seq<DirEntry>>, now: int, d: SnapshotDeviceMeta)
    requires d in Merge(sidecar, listing, now).devices
    requires d.deviceId in FileIds(listing)
    ensures d.success
  {
    MergeMeetsContract(sidecar, listing, now);
  }

  /** A sidecar device keeps the sidecar's timestamp (or `now` when it has none), with or without a snapshot file. */
  lemma SidecarTimestampKept(
    sidecar: Option<Sidecar>, listing: Option<seq<DirEntry>>, now: int, d: SnapshotDeviceMeta, e: SidecarEntry)
    requires d in Merge(sidecar, listing, now).devices
    requires LastEntry(SidecarDevices(sidecar), d.deviceId) == Some(e)
    ensures d.timestamp == e.timestamp.GetOr(now)
  {
    MergeMeetsContract(sidecar, listing, now);
  }

  /**
   * A device without a snapshot file comes from the sidecar alone: it
   * succeeds exactly when the sidecar says `true`, and its timestamp is the
   * sidecar's number or `now`.
   */
  lemma SidecarOnlyDevice(sidecar: Option<Sidecar>, listing: Option<seq<DirEntry>>, now: int, d: SnapshotDeviceMeta)
    requires d in Merge(sidecar, listing, now).devices
    requires d.deviceId !in FileIds(listing)
    ensures LastEntry(SidecarDevices(sidecar), d.deviceId).Some?
    ensures var e := LastEntry(SidecarDevices(sidecar), d.deviceId).value;
      d.success == (e.success == Some(true)) && d.timestamp == e.timestamp.GetOr(now)
  {
    MergeMeetsContract(sidecar, listing, now);
  }

  /** A device the sidecar does not name comes from a snapshot file: it succeeds and is stamped `now`. */
  lemma FileOnlyDevice(sidecar: Option<Sidecar>, listing: Option<seq<DirEntry>>, now: int, d: SnapshotDeviceMeta)
    requires d in Merge(sidecar, listing, now).devices
    requires d.deviceId !in SidecarIds(sidecar)
    ensures d.deviceId in FileIds(listing)
    ensures d.success && d.timestamp == now
  {
    MergeMeetsContract(sidecar, listing, now);
    LastEntryIn(SidecarDevices(sidecar), d.deviceId);
  }

  /** A last entry for `id` exists exactly when some entry has that id. */
  lemma {:induction false} LastEntryIn(devs: seq<SidecarEntry>, id: string)
    ensures LastEntry(devs, id).Some? <==> id in Ids(devs)
    ensures LastEntry(devs, id).Some? ==> LastEntry(devs, id).value in devs && LastEntry(devs, id).value.deviceId == id
  {
    if devs != [] {
      var n := |devs| - 1;
      LastEntryIn(devs[..n], id);
      assert Ids(devs) == Ids(devs[..n]) + [devs[n].deviceId];
    }
  }

  /**
   * With distinct sidecar ids (as `Object.entries` gives them), the sidecar
   * devices come first, in the order of the sidecar's device list
   * (`Object.entries` order); the files only append new ids.
   */
  lemma SidecarEntriesComeFirst(sidecar: Option<Sidecar>, listing: Option<seq<DirEntry>>, now: int)
    requires forall i, j :: 0 <= i < j < |SidecarDevices(sidecar)| ==>
      SidecarDevices(sidecar)[i].deviceId != SidecarDevices(sidecar)[j].deviceId
    ensures SidecarIds(sidecar) <= DeviceIds(Merge(sidecar, listing, now).devices)
  {
    var devs := SidecarDevices(sidecar);
    var base := SidecarTable(devs, now);
    var merged := Overlay(base, ListingEntries(listing), now);
    SidecarTableKeys(devs, now);
    SidecarTableKeysUnique(devs, now);
    OverlayKeys(base, ListingEntries(listing), now, Ids(devs));
    ProjectFacts(merged);
  }

  /** Any capitalisation of ".jpg" names a snapshot of the same device; only regular files count. */
  lemma JpgSuffixAnyCase(id: string, ext: string)
    requires ToLower(ext) == JpgSuffix
    ensures SnapshotDeviceId(DirEntry(id + ext, true)) == Some(id)
    ensures SnapshotDeviceId(DirEntry(id + ext, false)) == None
  {
    var name := id + ext;
    assert |ext| == 4;
    assert name[|name| - 4..] == ext;
    assert name[..|name| - 4] == id;
  }

  /** Every record points at the snapshot file of its own device. */
  lemma ImageUrlOfDevice(sidecar: Option<Sidecar>, listing: Option<seq<DirEntry>>, now: int, d: SnapshotDeviceMeta)
    requires d in Merge(sidecar, listing, now).devices
    ensures d.imageUrl == "/cctv-snapshots/" + d.deviceId + ".jpg"
  {
    MergeMeetsContract(sidecar, listing, now);
  }

  /**
   * The URL keeps the lower-case extension whatever the file's own
   * capitalisation: a snapshot stored as `<id>.JPG` is announced as
   * `<id>.jpg`, which is not its file name.
   */
  lemma ImageUrlLowerCasesExtension(id: string, ext: string)
    requires ToLower(ext) == JpgSuffix && ext != JpgSuffix
    ensures SnapshotDeviceId(DirEntry(id + ext, true)) == Some(id)
    ensures ImageUrl(id) != UrlPrefix + id + ext
  {
    JpgSuffixAnyCase(id, ext);
    var url, named := ImageUrl(id), UrlPrefix + id + ext;
    var k := |UrlPrefix + id|;
    assert url[k..] == JpgSuffix;
    assert named[k..] == ext;
  }
}
