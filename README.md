# CCTV snapshot metadata merge, in Dafny

This project models the `GET /api/cctv-snapshots/metadata` handler of the
municipal dashboard. The handler reports one record per camera. It merges two
optional sources: the sidecar document `metadata.json` and the listing of the
snapshot directory `public/cctv-snapshots`.

The handler keeps a JavaScript `Map` from device id to `{timestamp, success}`
and updates it in place in two loops:

1. one entry per device of the sidecar document, in `Object.entries` order:
   the timestamp if it is a number, else the current time; success only when
   the document says exactly `true`;
2. one step per directory entry: a regular file whose lower-cased name ends in
   `.jpg` names the device `name` minus its last four characters. A new id is
   appended as `{now, true}`. An id already present keeps its timestamp and its
   position, and its `success` becomes `true`.

The map is then projected, in iteration order, into `SnapshotDeviceMeta`
records with `imageUrl = "/cctv-snapshots/<id>.jpg"`. `lastUpdated` is the
document's non-zero numeric `lastUpdated`, or the current time.

The URL always ends in lower-case `.jpg`. A file named `camA.JPG` is reported
as device `camA` with `imageUrl` `/cctv-snapshots/camA.jpg`, which is not the
name of the file (`ImageUrlLowerCasesExtension`); the model keeps this
behaviour as written.

Files:

- `wrappers.dfy`: `Option`.
- `ordered_map.dfy`, module `OrderedMap`: the insertion-ordered `Map` as a
  sequence of (key, value) pairs. `Has`, `Get` and `Put` (`Map.prototype.set`)
  each carry a contract stated by key position and by lookup. `IsDedupOf` says that a list
  holds each element of another exactly once, in the order of first
  occurrence.
- `snapshot_metadata.dfy`, module `SnapshotMetadata`: the data shapes, the
  `.jpg` filter, and the handler `GetMetadata`. That method keeps the source's
  two loops (with their `continue`s) over a local map variable. The file also
  holds the merge as a function of its inputs (`Merge`) and a per-device
  reference statement of what the response must be (`ExpectedStatus`,
  `MeetsContract`). The lemmas connect them.

The model's inputs replace the I/O:

- `sidecar: Option<Sidecar>` is `None` when `metadata.json` is missing or
  cannot be parsed.
- `listing: Option<seq<DirEntry>>` is `None` when the directory cannot be read.
- `now: int` stands for the clock.

`GetMetadata` has no error result. Neither a missing source nor an unreadable
source stops the report; the other source still contributes.

## Model

| member | source | states |
|---|---|---|
| `OrderedMap.Put` | src/app/api/cctv-snapshots/metadata/route.ts:59-67 | `Map.set`. A present key keeps its position and a new key is appended. The key now maps to the new value, every other key maps to what it did before, and keys stay distinct. |
| `OrderedMap.Get` | src/app/api/cctv-snapshots/metadata/route.ts:66 | `Map.get` gives a value exactly when `Map.has` holds, and that value is the one stored under the key. |
| `OrderedMap.Has` | src/app/api/cctv-snapshots/metadata/route.ts:59 | `Map.has` holds exactly when some pair of the map carries the key. |
| `SnapshotMetadata.SnapshotDeviceId` | src/app/api/cctv-snapshots/metadata/route.ts:55-58 | An entry contributes exactly when it is a regular file whose last four characters are `.` followed by j/J, p/P and g/G. The device id is the name without those four characters. |
| `SnapshotMetadata.JpgSuffixAnyCase` | src/app/api/cctv-snapshots/metadata/route.ts:55-58 | Any capitalisation of `.jpg` after an id gives that id. A non-file entry gives nothing. |
| `SnapshotMetadata.ImageUrlLowerCasesExtension` | src/app/api/cctv-snapshots/metadata/route.ts:79 | A file `<id>.JPG` (any capitalisation other than `.jpg`) gives device `<id>`, yet its `imageUrl` (`ImageUrl`) ends in `<id>.jpg`, which differs from the file's own name. |
| `SnapshotMetadata.GetMetadata` | src/app/api/cctv-snapshots/metadata/route.ts:25-86 | The imperative handler, with both loops, returns the merge of its two inputs. The result meets the whole per-device contract (`MeetsContract`). |
| `SnapshotMetadata.SidecarTableKeys` | src/app/api/cctv-snapshots/metadata/route.ts:40-45 | `SidecarTable` is the map after the first loop. It holds each sidecar id exactly once, in the order of first occurrence in the sidecar's device list. |
| `SnapshotMetadata.SidecarTableKeysUnique` | src/app/api/cctv-snapshots/metadata/route.ts:40-45 | When the sidecar's ids are distinct, the keys of `SidecarTable` are exactly those ids, in the order of the sidecar's device list (`Object.entries` order). |
| `SnapshotMetadata.SidecarTableGet` | src/app/api/cctv-snapshots/metadata/route.ts:40-45 | In `SidecarTable` (the map after the first loop), an id maps to its (last) sidecar entry's timestamp, or `now` when that is not a number. Its success is true only when the entry says exactly `true`. An id the sidecar does not name maps to nothing. |
| `SnapshotMetadata.OverlayKeys` | src/app/api/cctv-snapshots/metadata/route.ts:54-68 | `Overlay` (one `OverlayEntry` step per directory entry) is the directory loop. It never moves or removes an entry, since the old keys are a prefix of the new ones. It appends the new snapshot ids in listing order, with no duplicates. |
| `SnapshotMetadata.OverlayGet` | src/app/api/cctv-snapshots/metadata/route.ts:59-67 | After `Overlay`, a device is changed exactly when it has a snapshot file. Success becomes true and an existing timestamp is kept, while a new device gets `now`. |
| `SnapshotMetadata.ProjectFacts` | src/app/api/cctv-snapshots/metadata/route.ts:74-81 | `Project` lists the map's keys in iteration order. Each record carries the status stored under its id and the URL of its id. |
| `SnapshotMetadata.MergeMeetsContract` | src/app/api/cctv-snapshots/metadata/route.ts:27-86 | `Merge` is the composition `SidecarTable`, `Overlay`, `Project`, with `LastUpdatedOrNow` for route.ts:28, 38 and 84. Its response ids are the deduplicated sidecar ids followed by the file ids, in order of first occurrence. Every record's status is the one `ExpectedStatus` gives and its URL is that of its id. `lastUpdated` is the sidecar's non-zero number, or otherwise `now`. |
| `SnapshotMetadata.DeviceIdsAreUnion` | src/app/api/cctv-snapshots/metadata/route.ts:40-68 | An id is reported exactly when the sidecar or a snapshot file names it, and no id is reported twice. |
| `SnapshotMetadata.FileForcesSuccess` | src/app/api/cctv-snapshots/metadata/route.ts:59-67 | A device with a snapshot file is reported successful, whatever the sidecar says. |
| `SnapshotMetadata.SidecarTimestampKept` | src/app/api/cctv-snapshots/metadata/route.ts:64-67 | A sidecar device keeps the sidecar's timestamp (or `now` when that is not a number), even when a file overlays it. |
| `SnapshotMetadata.SidecarOnlyDevice` | src/app/api/cctv-snapshots/metadata/route.ts:41-44 | A device without a snapshot file is a sidecar device. Its success is "the sidecar says exactly `true`", so a missing or non-boolean flag gives false. Its timestamp is the sidecar's number, or otherwise `now`. |
| `SnapshotMetadata.FileOnlyDevice` | src/app/api/cctv-snapshots/metadata/route.ts:59-63 | A device the sidecar does not name has a snapshot file, is successful and is stamped `now` (see the clock line under Left out). |
| `SnapshotMetadata.SidecarEntriesComeFirst` | src/app/api/cctv-snapshots/metadata/route.ts:40-74 | With distinct sidecar ids, the response starts with the sidecar devices in the order of the sidecar's device list (`Object.entries` order). Files only append new ids after them. |
| `SnapshotMetadata.ImageUrlOfDevice` | src/app/api/cctv-snapshots/metadata/route.ts:79 | Every record's `imageUrl` is `"/cctv-snapshots/" + deviceId + ".jpg"`. |

## Left out

- File system I/O (`readFile`, `readdir`, `path.join`, `process.cwd()`): the parsed sidecar and the directory listing are inputs. `None` stands for a missing or unreadable source.
- `JSON.parse` and the `typeof` tests on untyped JSON: the document is a typed value. A field that is absent or has the wrong type is `None`, and a `devices` field that is not an object is an empty list. A document that fails to parse is `None`, and so is one whose property access throws (`null`).
- `Object.entries` ordering (integer-like keys first): the sidecar's `devices` are given in the order `Object.entries` yields them. The model does not assume distinct ids; it treats a repeated id as `Map.set` would.
- The clock: the handler calls `Date.now()` at three call sites (route.ts:42, 61 and 84). These are evaluated once per sidecar entry without a numeric timestamp, once per new snapshot id and once for a zero `lastUpdated`, so the source's default timestamps can differ from each other and from `lastUpdated`. The model uses one `now` for all of them.
- FileOnlyDevice: its `d.timestamp == now`, and the equality of all defaulted timestamps in `SidecarTableGet`, `OverlayGet`, `SidecarTimestampKept`, `SidecarOnlyDevice` and `MergeMeetsContract`, hold only because of the single `now`. In the source each defaulted timestamp is its own reading of the clock.
- Number semantics: timestamps are unbounded integers. NaN, floating point and the truthiness of NaN in `lastUpdated || Date.now()` are not modelled.
- Strings are sequences of `char`, not UTF-16 code units. `toLowerCase` is modelled on ASCII letters only. No other character lower-cases to `.`, `j`, `p` or `g`, so the `.jpg` test is unaffected.
- `NextResponse.json`, the HTTP 500 path of the outer `try`/`catch`, and `console.error` logging: these are response plumbing. Once its inputs are given, nothing in the modelled merge can throw.
- The layer-data endpoint (`src/app/api/db-data/[layer]/route.ts`) with its allow-list and bundled datasets is not part of this model.
