# regclient core, modelled in Dafny

This project models the core of `regclient`, a Docker/OCI registry client,
together with the `regsync` mirror tool built on it and a small read-write
filesystem layer (`internal/rwfs`).

- `Reference` — image references. It covers `NewRef` over an external
  normaliser and the canonical `CommonName` rendering
  `registry/repository[:tag][@digest]`. It also has an independent reader
  `ParseCommonName`, used to prove that the rendering can be read back.
- `RegClient` — the registry client:
  - the per-host table with its `docker.io` default and lazily created
    entries (`getHost`);
  - the transport built once per host (`newRetryableForHost`);
  - the four Registry HTTP API V2 lookups (manifest, manifest list, blob,
    tag list) and their choice between tag and digest;
  - the content-type check of `ManifestListGet`;
  - the assembly of an `ImageExport` tree: layers under `<hex>/layer.tar`,
    the rewritten config and `manifest.json`.

  The network (including the retrying executor), the JSON codecs, gzip and
  SHA-256 are oracles collected in `Env`.
- `RegSync` — the `regsync` decisions:
  - how a sync step fans out into (source, target) pairs;
  - how `processRef` skips a pair already in sync, returns early in check
    mode, takes a slot of the shared parallelism semaphore, waits out the
    source registry's rate limit, stops on cancellation, copies the old
    target to its backup reference, and only then copies the source;
  - how `runCheck` reports the first error.

  The run is recorded as a trace of observable events (lookups, tag
  listings, slot acquire/release, sleeps, copies). Registry calls, the
  template engine and the context are oracles indexed by the position in
  that trace. The `Syncer` class keeps the trace and the number of slots
  held, and its methods are proved to produce exactly the traces of the
  specification functions.
- `Rwfs` — the filesystem helpers:
  - the open-flag helpers `flagMode` and `flagSet` on 64-bit words;
  - `Copy`, `CopyRecursive`, `MkdirAll`, `WriteFile` and `Stat`.

  The writable filesystem is the `MemFS` class: a map from names to files
  and directories, plus fixed fault sets (locked names, write and close
  errors). The filesystem copied from is an immutable tree value.
- `Strings` and `Paths` give the Go library functions the core relies on:
  `strings.Split`, `strings.HasPrefix`, `strings.ContainsAny`,
  `strings.TrimSpace`, `path.Clean` and `path.Join`.
- `Wrappers` holds the `Option` and `Result` types.

On one path of `processRef` the slot is not given back: when the source registry reports a rate limit,
`Min` is positive, and the HEAD request that refreshes the limit fails
(cmd/regsync/root.go:352-358). That early return comes before the deferred
release at line 394. `RegSync.ProcessRefSlots` proves that this path, and
only this path, ends holding one slot more than it started with. The model
keeps the behaviour as written.

## Model

| member | source | states |
|---|---|---|
| Reference.NewRef | regclient/regclient.go:146-168 | The raw text is kept. Parsing fails exactly when the normaliser fails, with its error. On success registry and repository are the normaliser's domain and path. The tag is the normaliser's tag, or empty when it found none, and the same holds for the digest. |
| Reference.CommonName | regclient/regclient.go:171-186 | Empty whenever the repository is empty. Otherwise the length is that of the repository, plus registry and "/" when there is a registry, plus ":tag" and "@digest" for whichever is set. |
| Reference.CommonNameSegments | regclient/regclient.go:171-186 | For a name whose first three fields have no '@', an '@' appears exactly when a digest is set. The name starts with "registry/" when there is a registry, and with the repository itself (no leading slash) when there is none. |
| Reference.CommonNameRoundTrip | regclient/regclient.go:171-186 | Reading back the common name of a reference of the readable shape gives back its registry, repository, tag and digest. |
| RegClient.TagOrDigest | regclient/regclient.go:395-402 | The digest wins over the tag. With neither set the lookup fails with ErrMissingTag, and only then. |
| RegClient.EndpointsDistinct | regclient/regclient.go:404-408 | Within one repository the manifest, blob and tag-list paths never coincide, and a manifest path determines its tag or digest. |
| RegClient.Endpoint | regclient/regclient.go:515-522 | A host not in the table is reached over https at its own name. |
| RegClient.ManifestRequest | regclient/regclient.go:395-415 | A manifest request is built exactly when the reference has a tag or a digest. |
| RegClient.ManifestLookupSelection | regclient/regclient.go:391-432 | With neither tag nor digest, both manifest lookups fail with ErrMissingTag whatever the network does. Otherwise a single GET goes to the manifests path of the digest (or else the tag) with the two manifest media types, and its body is decoded. |
| RegClient.ManifestListContentType | regclient/regclient.go:434-483 | A successful response whose content type is neither a Docker manifest list nor an OCI index gives ErrNotFound. A list type is decoded as an index. A failed request passes its error on. |
| RegClient.AssembleExport | regclient/regclient.go:322-352 | From the exported layers, the re-encoded config under "<sha256>.json" and the encoded manifest.json, the archive is a faithful export: RepoTags is the common name, the config is the pulled one with the recomputed DiffIDs, and the tree holds exactly these files. |
| RegClient.LayerKeyLength | regclient/regclient.go:307-320 | Every exported layer path "<hex>/layer.tar" is 74 characters long, so it cannot collide with the config file or manifest.json. |
| RegClient.Transport.constructor | regclient/regclient.go:525-543 | Certificate verification is skipped exactly for an insecure host. The proxy comes from the environment. Dial timeout and keep-alive are 30s and the fallback delay 300ms. At most 10 idle connections are kept, for 30s. The TLS handshake timeout is 10s and the expect-continue timeout 5s. |
| RegClient.Client.constructor | regclient/regclient.go:94-107 | The host table holds only "docker.io": https, TLS verified, reached at registry-1.docker.io, no transport yet. The retry limit is 3, and the options leave both unchanged. |
| RegClient.Client.ApplyOpt | regclient/regclient.go:109-143 | WithDockerCerts and WithRegClientConf leave hosts and retry limit unchanged. |
| RegClient.Client.GetHost | regclient/regclient.go:515-522 | A known host's entry is returned and the table is unchanged. An unknown host gets a fresh https, TLS-verified entry named after itself, and no other entry changes. Either way the endpoint used for the host is the one it had before. |
| RegClient.Client.NewRetryableForHost | regclient/regclient.go:524-547 | The transport is built once per host and reused afterwards. A new one skips verification exactly for an insecure host and keeps 10 idle connections. The executor uses that transport and the client's retry limit. |
| RegClient.Client.ManifestGet | regclient/regclient.go:391-432 | The result is the manifest lookup at the host's endpoint. The host table only gains the registry. Only this registry's transport may change: one it already had is kept, every other host keeps its own, and a transport exists afterwards whenever the reference has a tag or digest, so that a request went out. |
| RegClient.Client.ManifestListGet | regclient/regclient.go:434-483 | The result is the manifest-list lookup, content-type check included. The host table only gains the registry. Only this registry's transport may change: one it already had is kept, every other host keeps its own, and a transport exists afterwards whenever the reference has a tag or digest. |
| RegClient.Client.BlobGet | regclient/regclient.go:193-216 | The result is the GET of the blob path with the given accept types. The host table only gains the registry. Only this registry's transport may change: one it already had is kept, every other host keeps its own, and a transport exists afterwards. |
| RegClient.Client.TagsList | regclient/regclient.go:485-513 | The result is the decoded GET of the tags/list path. The host table only gains the registry. Only this registry's transport may change: one it already had is kept, every other host keeps its own, and a transport exists afterwards. |
| RegClient.Client.PullConfig | regclient/regclient.go:226-257 | Succeeds exactly when the manifest lookup for the reference succeeds and the config blob it names can be fetched and decoded, and then returns that manifest and that config. The host table only gains the registry, the retry limit is unchanged, and only the registry's transport may change: one it already had is kept, and one exists afterwards once the manifest request went out. |
| RegClient.Client.ExportLayers | regclient/regclient.go:262-321 | On success there is one layer per manifest layer, in order. Each is the decompressed blob stored at "<sha256 of the tar>/layer.tar", with DiffID "sha256:<hex>". No two layers share a directory, and nothing else is written. The host table and retry limit are unchanged. Only the registry's transport may change: one it already had is kept, and one exists afterwards when there was a layer to pull. |
| RegClient.Client.ImageExport | regclient/regclient.go:218-364 | A reference with an empty common name fails with ErrNotFound and leaves the host table alone. Otherwise the table only gains the registry. The retry limit never changes. Only the registry's transport may change: one it already had is kept, and one exists afterwards once the manifest request went out. On success the archive is a faithful export of the manifest pulled for the reference. |
| RegSync.BackupRefCases | cmd/regsync/root.go:417-434 | Expanded text without ':' or '/' only replaces the target's tag, by the trimmed text. Text with one of them yields exactly NewRef of the trimmed text: every field is the normaliser's, and it fails exactly when the normaliser rejects the trimmed text. |
| RegSync.Pairs | cmd/regsync/root.go:278-287 | One pair per listed tag, in order: the source and target repositories with only the tag replaced. |
| RegSync.FirstError | cmd/regsync/root.go:236-248 | No error exactly when every step succeeded. Any error reported is one of the steps' errors. |
| RegSync.FirstErrorIsEarliest | cmd/regsync/root.go:240-246 | The error reported is the earliest one. |
| RegSync.ProcessRefEarlyExits | cmd/regsync/root.go:322-345 | A failed source lookup returns its error after that lookup alone. A target already holding the source digest, and check mode, return nil after the two lookups, with no slot taken and nothing copied. |
| RegSync.RateLoopBalance | cmd/regsync/root.go:362-387 | The delay loop copies nothing. It gives the slot back when it returns an error (its last event is then a release) and otherwise holds it again at the end. |
| RegSync.RateLoopExit | cmd/regsync/root.go:362-387 | The loop ends without error either at once, with enough requests remaining, or after a fresh lookup of the source that reports enough remaining. |
| RegSync.RateLoopRound | cmd/regsync/root.go:363-386 | One round: cancellation returns ErrCanceled after the release. Otherwise the round releases, sleeps, re-acquires and looks the source up. A failed lookup releases and returns its error, and a successful one decides the next round. |
| RegSync.GateBalance | cmd/regsync/root.go:350-393 | The gate before copying copies nothing. It keeps the slot when it lets the copy go ahead, or when the rate-limit refresh fails; otherwise it gives the slot back. |
| RegSync.HeldBalance | cmd/regsync/root.go:348-463 | Once a slot is taken, the step gives it back on every path except a failed rate-limit refresh. |
| RegSync.ProcessRefSlots | cmd/regsync/root.go:321-463 | A pair leaves the number of slots held unchanged, except on the refresh-failure path, which ends with one extra slot. |
| RegSync.AfterSlotCopies | cmd/regsync/root.go:394-463 | After the gate: cancellation copies nothing. With an existing target and a backup template, the target is copied to the backup reference first, and a failed backup or backup reference stops before the main copy. Otherwise the only copy is source to target. |
| RegSync.HeldCopies | cmd/regsync/root.go:350-463 | Copies happen only after the gate lets the pair through, and the step then ends with a release. |
| RegSync.ProcessRefCopies | cmd/regsync/root.go:321-463 | A pair that copies anything took a slot, is not in check mode, had a successful source lookup, and ends with the release and error of the held part. |
| RegSync.PairsCheckDryRun | cmd/regsync/root.go:278-287 | In check mode a repository step's pairs take no slot and copy nothing. |
| RegSync.CheckDryRun | cmd/regsync/root.go:251-318 | In check mode any sync entry, of any type, takes no slot and copies nothing. |
| RegSync.RunCheckDryRun | cmd/regsync/root.go:236-248 | A whole check run takes no slot and copies nothing. |
| RegSync.Syncer.RateRound | cmd/regsync/root.go:363-386 | One delay round's events and outcome, as RateLoopRound describes. |
| RegSync.Syncer.WaitRateLimit | cmd/regsync/root.go:362-387 | The loop's error and events are those of RateLoop. |
| RegSync.Syncer.Gate | cmd/regsync/root.go:350-393 | Error and events are those of the gate specification, whose slot count GateBalance gives. |
| RegSync.Syncer.CopyWithBackup | cmd/regsync/root.go:394-463 | Error and events are those of AfterSlot, with the backup reference from the template. |
| RegSync.Syncer.HoldSlot | cmd/regsync/root.go:348-463 | Error and events are those of the held part of the step. |
| RegSync.Syncer.ProcessRef | cmd/regsync/root.go:321-463 | Error and events are those of the processRef specification. |
| RegSync.Syncer.ProcessPairs | cmd/regsync/root.go:278-287 | The pairs are processed in order, stopping at the first error. |
| RegSync.Syncer.Process | cmd/regsync/root.go:251-318 | A repository step lists the source tags and processes the pairs. An image step processes its one pair. Any other type fails with an invalid-input error. Parse and listing errors are returned as they come. |
| RegSync.Syncer.Check | cmd/regsync/root.go:240 | One entry processed in check mode. |
| RegSync.Syncer.RunCheck | cmd/regsync/root.go:236-248 | Every entry is checked in order, and the run returns the first error. |
| Rwfs.FlagMode | internal/rwfs/rwfs.go:184-186 | The mode has no bit outside the access bits and agrees with the flags on them. |
| Rwfs.FlagModeIgnoresOptions | internal/rwfs/rwfs.go:184-186 | Option bits do not change the mode, and taking the mode twice changes nothing. |
| Rwfs.FlagSet | internal/rwfs/rwfs.go:188-190 | A flag reported set is non-zero and so are the flags; a non-zero flag all of whose bits are in the flags is reported set. |
| Rwfs.FlagSetUnion | internal/rwfs/rwfs.go:188-190 | A flag is set in a union exactly when it is set in one of the parts. |
| Rwfs.ReadOnlyNeverSet | internal/rwfs/rwfs.go:188-190 | O_RDONLY, being zero, is never reported set. |
| Rwfs.OpenFlagSets | internal/rwfs/rwfs.go:173 | WriteFile opens write-only with create and truncate, without exclusive or append. Create opens read-write with create and truncate, without exclusive. |
| Rwfs.Stat | internal/rwfs/rwfs.go:154-165 | A locked name fails with a permission error and a missing name with a not-exist error; any other name succeeds, and reports a directory exactly when it is one. |
| Rwfs.MkdirStat | internal/rwfs/rwfs.go:40 | Mkdir (the RWFS interface's Mkdir) succeeds exactly on an unlocked, absent name whose parent is a directory. It then adds only that directory, which Stat (internal/rwfs/rwfs.go:154-165) reports as one; a failed Mkdir changes nothing. |
| Rwfs.WriteFileOutcome | internal/rwfs/rwfs.go:171-182 | A name that cannot be opened is left as it was, with an error. A failed write leaves an emptied file and its error, whatever the close does. Otherwise the file holds exactly the data, and the close's error is returned. No other name changes. |
| Rwfs.WriteFileStat | internal/rwfs/rwfs.go:171-182 | After a successful WriteFile, Stat reports a file that is not a directory. |
| Rwfs.CopyOutcome | internal/rwfs/rwfs.go:57-71 | A source that does not open changes nothing and returns its error. A file copies exactly when the destination can be created and, for non-empty data, written. Close errors play no part. The destination then holds the source's bytes, and nothing else changes. A directory never copies. |
| Rwfs.CopyRecursiveFile | internal/rwfs/rwfs.go:84-86 | A source that is not a directory is copied exactly as Copy does. |
| Rwfs.CopyRecursiveMkdirFails | internal/rwfs/rwfs.go:92-95 | A Mkdir error other than "exists" is returned at once, and nothing is copied. |
| Rwfs.CopyEntryGrows | internal/rwfs/rwfs.go:74-105 | A recursive copy never removes a name and never turns a directory into a file. |
| Rwfs.CopyDirResult | internal/rwfs/rwfs.go:88-104 | A directory copied without error leaves a directory at the destination, unless a file was already there. |
| Rwfs.CopyEntryFrame | internal/rwfs/rwfs.go:84-104 | Copying a well-named tree to a name of plain elements leaves every name outside that destination as it was. |
| Rwfs.CopyTreeEntry | internal/rwfs/rwfs.go:84-104 | After a copy without error, every entry at path p in the tree is at the destination followed by p: a file with the same bytes, or a directory unless a file already stood there. |
| Rwfs.CopyRecursiveTree | internal/rwfs/rwfs.go:73-105 | When CopyRecursive succeeds on a well-named source and a destination of plain elements, every file below the opened source is at the same relative path below the destination with the same bytes, and every directory is a directory there unless a file already stood in its place. |
| Rwfs.CopyRecursiveFrame | internal/rwfs/rwfs.go:73-105 | CopyRecursive changes no name outside the destination. |
| Rwfs.MkdirAllKeeps | internal/rwfs/rwfs.go:115-148 | Existing entries stay as they were. Everything added is a directory named by one of the path's prefixes. |
| Rwfs.MkdirAllMade | internal/rwfs/rwfs.go:115-149 | On success every non-skipped prefix of the path is a directory. |
| Rwfs.MkdirAllError | internal/rwfs/rwfs.go:121-146 | Every error is a "mkdir" path error naming a non-skipped prefix. An "exists" error names a file that was there before. |
| Rwfs.MkdirAllStopsAtFile | internal/rwfs/rwfs.go:139-146 | When the earlier prefixes are directories, a file at a prefix stops MkdirAll there with an "exists" error and nothing created. |
| Rwfs.StepsRooted | internal/rwfs/rwfs.go:110-117 | Every prefix of an absolute path is itself absolute. |
| Rwfs.MemFS.Mkdir | internal/rwfs/rwfs.go:40 | Error and new store are those of MkdirOn, whose behaviour MkdirStat gives. |
| Rwfs.MemFS.OpenFile | internal/rwfs/rwfs.go:42 | Handle and new store are those of OpenOn: locked names, exclusive create, directories opened for writing and missing names without create are refused, and truncation empties a file. |
| Rwfs.MemFS.Create | internal/rwfs/rwfs.go:38 | OpenFile with read-write, create and truncate. |
| Rwfs.MemFS.Write | internal/rwfs/rwfs.go:54 | Error and new store are those of WriteOn: a read-only handle is refused, and otherwise the data is appended to the file. |
| Rwfs.MemFS.WriteFile | internal/rwfs/rwfs.go:171-182 | Error and new store are those of WriteFileSpec, characterised by WriteFileOutcome. |
| Rwfs.MemFS.Copy | internal/rwfs/rwfs.go:57-71 | Error and new store are those of CopySpec, characterised by CopyOutcome. |
| Rwfs.MemFS.CopyEntry | internal/rwfs/rwfs.go:84-104 | Error and new store are those of the recursive copy of an opened entry, whose content CopyTreeEntry and frame CopyEntryFrame give. |
| Rwfs.MemFS.CopyRecursive | internal/rwfs/rwfs.go:73-105 | Error and new store are those of CopyRecursiveSpec, which copies the tree (CopyRecursiveTree) and nothing outside the destination (CopyRecursiveFrame). |
| Rwfs.MemFS.MkdirAll | internal/rwfs/rwfs.go:109-150 | Error and new store are those of MkdirAllSpec, about which MkdirAllKeeps, MkdirAllMade, MkdirAllError and MkdirAllStopsAtFile speak. |

## Left out

- The HTTP executor, its retries and authentication (`rty.Req`, `Auth`, `WithDockerCreds`) are one oracle, `Env.send`. Building a request from a URL is taken to succeed.
- JSON, gzip, SHA-256 and digest parsing are oracles. `HexLength` only assumes that SHA-256 in hex is 64 digits long.
- ImageExport's temporary directory, file times and the final tar stream to the output writer are not modelled. The config digest mismatch is only a warning in the source, so it has no effect in the model either.
- RegClient.Client.ExportLayers: says nothing about which error a failed export returns, only what a successful one produces.
- RegClient.Client.ImageExport: beyond the empty-name case, says nothing about which error a failed export returns.
- RegClient.Client.ImageExport: the image config has no creation time in the model. The source sets the file times of the layer and config files from `*conf.Created` (regclient/regclient.go:316 and :335), and panics on a nil pointer when a config has no `created` field. The model does not capture that panic.
- `ImageInspect` and the remaining `RegClient` interface methods are not part of this model.
- regsync concurrency (goroutines, the WaitGroup, the semaphore's capacity and blocking) is not modelled. Each pair runs alone, and only the number of slots it holds is tracked. The ignored error of the semaphore's Acquire, logging and the configuration file loader are left out.
- `time.After` is a `Sleep` event, and the context's cancellation is the oracle `Env.canceled`.
- RegSync.Syncer.WaitRateLimit: modelled only when the source registry reports enough remaining requests from some time on (`Recovered`). Without that the source's loop may never end, and a function needs a measure.
- RegSync.HeldAt: is the model of the held part only where that delay loop can end (`RateEnds`).
- The backup template engine and reference normalisation are oracles (`Env.template`, `Env.normalize`).
- Rwfs permissions: the `perm` arguments and file modes are ignored.
- Rwfs `Remove` and `ReadFile` are not modelled: the modelled helpers never call them.
- Rwfs.MemFS.Write: a write appends to the file's current contents. Positions of concurrently open handles are not modelled, and `io.Copy` is a single write of the whole source.
- Rwfs.CopyEntry: the source tree is an immutable value, and a directory's children are copied from its listing. The source reopens each child by the joined name, which finds the same entry, so aliasing between the source and destination filesystems is not captured. The listing order stands for the name order of `fs.ReadDir`.
- Rwfs.CopyRecursiveTree: stated for sources whose listed names are plain and distinct, and for destinations made of plain relative elements. A rooted destination, or one that is "." or holds ".." or empty elements, is not covered. Rwfs.CopyRecursiveFrame carries the same restriction.
- A source entry that opens is taken to stat and list successfully. Only opening can fail, as `DeniedEntry`.
- Rwfs errors are compared by value; Go's `errors.Is` unwrapping is not modelled beyond `PathError` carrying its cause.
- The flag constants take their Linux values, and `Stat` on the writable filesystem reads the store directly instead of going through Open and the handle's Stat.
