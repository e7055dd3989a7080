# Waiveo: a verified model of its archive, scheduling, bundle and delivery logic

Waiveo distributes signage content from an app server (with its feeder) to relays that
serve screens. This project models, in Dafny, the four parts of it where correctness is
hardest to see, and proves what each is for.

**The `archive/1` container** (`internal/archive`). A cleartext signed header, then a body
cut into authenticated frames, then a digest of that body patched into the header once the
body is known. `FrameLanguage` is the theory of framed bodies over an abstract frame codec;
`FrameFormat` instantiates it with the length prefix, nonce derivation and AEAD;
`FrameWriting` and `FrameReading` are the streaming writer and reader as classes, proved
against it; `TarReading` is the decompressor and tar reader over the latter; `HeaderJson`,
`Manifests` and `Entries` are the signed header's canonical form, the manifest's rules and
the entry sequence; `Containers` is `Create` and `Open` over a seekable file, and
`ContainerTheorems` relates the two. `Preflights` is the restore pre-flight, with its walk
along base archives that may refer to one another in a cycle.

**The scheduling core** (`internal/datamodel`). `Dayparts` expands weekly dayparts with
midnight wrap; `Overlaps` is the overlap validator and what it guarantees at run time;
`Resolution` and `ResolutionTheorems` are the cross-schedule precedence resolver and its
order-free specification; `Presets` is the edge-triggered preset rule over runs of clock
ticks and generation applies.

**The `.cast` bundle** (`internal/castbundle`). `CastBundles`, `CastExchange`,
`CastTheorems` and `CastSizes`: planning with every refusal up front, streaming that can refuse
nothing, reading back, the size arithmetic that makes every permitted export a permitted import,
and what the reader's size limit comes to.

**Generation delivery**. `Overrides`, `SnapshotCache`, `LapseLoop` and `MirrorFaults` are the
feeder's expiry arithmetic, its one-snapshot cache, its override-lapse publisher and its
failure reporter; `LiveApply` is the relay's live apply as classes, and `LiveApplyRuns` the
transition system of every interleaving of applies with resolver writes.

## What is abstract

Cryptography, compression, JSON, tar, zip and timezone data are function-valued parameters
with laws, collected in `Lawful` predicates: `Cipher` (AEAD in the shape of RFC 5116, sections
2.1 and 2.2), `Manifests.Codec`, `Archiver`, `Suite` and `CastBundles.Codec`. Concrete instances
of each are given and proved lawful (`Aead.Toy`; `ToySuites.Toy`, `ToyMarshals` and
`ToyBundles.Toy` over the small verified serializer in `Wires`), and `ToyContainers` and
`ToyBundles` carry an archive and an export through them. The law of `Archiver` is that a
parser goes forward: what it reads off a beginning stays, and once it has met the end marker or
an error nothing that follows matters. The AEAD law that an output never
opens under another nonce or flag is asked only of nonces that agree on their first 16 bytes,
which is what all frames of one archive have in common and what a 16-byte tag can provide. A
timezone is a function from instants to local readings (weekday, second of day). Which
effective timezone a node has is an input to resolution. Salts and base nonces are
parameters. The zip size law over-estimates framing and lets deflate expand its input by an
eighth and 64 bytes; that a zip reader yields an entry only at the length it declares is asked
where it is needed (`CastSizes.Measured`).

## Facts the contracts respect

- `Create` caps neither the frame size nor the header, while the reader caps both.
  `ContainerTheorems.CreatedContainerOpens` states, for every source and option, exactly when
  a created container opens and with which code it is refused otherwise;
  `FrameFormat.FrameSizeTooLargeToRead` is a concrete body no reader accepts.
- `readEntries` accepts a repeated asset entry, so the carried assets are equal to the declared
  ones as a set.
- `castbundle.NewPlan` hashes nothing, so an accepted plan need not be importable;
  `CastTheorems.ExportIsImportable` is the exact condition. Its refusal for want of overhead
  room can never fire, which is why `CastExchange.NewPlan` has no such condition; the room is
  reckoned with entry names as long as a hash makes them, and `NewPlan` does not check them.
- The reader's running total is a 64-bit sum of sizes a file declares, and it wraps. The limit on
  the whole content therefore does not hold of every file that passes it: `CastSizes.TotalCanWrap`
  is one, and `CastSizes.LimitHoldsIff` the exact condition.
- The feeder's snapshot source reads its clock before it takes the cache's lock, so it may serve a
  snapshot built later than the instant it asks about: `SnapshotCache.BeforeTheBuild`.
- `Create` does not cut off what a longer file holds behind the container, and the reader refuses
  a container with anything behind it: `ContainerTheorems.CreatedInAFileOpens`.
- The lapse loop records a lapse as published even when advancing the generation fails, so a
  failed advance is not retried: `LapseLoop.DeliveredIff` and
  `LapseLoop.FailedAdvanceIsNotRetried`. The loop reads the clock again before arming its timer:
  an expiry between the two readings is neither announced nor armed and waits for the poll.
- The same loop multiplies milliseconds into 64-bit nanoseconds. An expiry centuries away, which
  `internal/datamodel/identityrows.go` accepts, makes the product negative, and the loop re-reads
  the store without pause: `LapseLoop.WaitsNotAtAllIff` and `LapseLoop.FarExpirySpins`.
- A live apply never clears the program of a screen that a new generation drops.
- A same-generation write of ordinary priority does not replace a takeover: the code in
  `internal/relay/playerserver/program.go` has this second fence beside the generation fence that
  `cmd/waiveo-relay/livepull.go` describes, and the model has both.
- Structural comparison tells an absent list from an empty one; the rows it compares carry
  `Option`s.

## Model

| member | source | states |
|---|---|---|
| Aead.DeriveFrameNonce | internal/archive/frame.go:72-82 | the byte-by-byte XOR into the last eight bytes yields the base nonce with the big-endian frame number XORed in |
| Aead.FrameNonceInjective | internal/archive/frame.go:60-82 | two frame numbers below 2^64 never share a nonce |
| FrameFormat.FrameNoncesDistinct | internal/archive/frame.go:60-82 | all frames of one body have pairwise distinct nonces |
| Aead.ToyIsLawful | internal/archive/frame.go:84-106 | the laws asked of the AEAD are met by a concrete cipher |
| FrameWriting.FrameWriter.Write | internal/archive/frame.go:118-139 | takes all the bytes while open and none once closed; what is out so far is exactly full frames, none of them final, and a non-empty rest is held back. When the destination fails it has the full frames and a beginning of the next, and the count is what the writer took in |
| FrameWriting.FrameWriter.Close | internal/archive/frame.go:144-150 | leaves the body of everything written: it depends on the concatenation only, and closing twice changes nothing. When the destination fails it has a beginning of that body |
| FrameWriting.FrameWriter.Emit | internal/archive/frame.go:152-172 | appends one frame under the next number and empties the buffer, or, a write failing, appends a beginning of it and stays at that frame |
| FrameLanguage.ChunkedIsTheCut | internal/archive/frame.go:118-150 | every frame but the last holds exactly the frame size, the last is non-empty unless the whole is, and together they are the plaintext |
| FrameLanguage.FrameCount | internal/archive/frame.go:118-150 | the number of frames is max(1, the length over the frame size, rounded up) |
| FrameLanguage.CutIsUnique | internal/archive/frame.go:118-150 | no other way of cutting has that shape |
| FrameReading.FrameReader.Read | internal/archive/frame.go:208-226 | for any sequence of buffer sizes: end of stream only after the whole plaintext of an accepted body, an error only after everything its verdict releases, and then for ever; bytes of a refused frame are never handed out |
| FrameReading.FrameReader.Next | internal/archive/frame.go:232-302 | one more authenticated frame, or the body's own verdict, or the source's own error where reading fails |
| FrameReading.FrameReader.CheckEnd | internal/archive/frame.go:308-339 | after the final frame a following byte is a truncation, then a failing read its own error, and only then a wrong digest a bad signature |
| FrameReading.FrameReader.Finish | internal/archive/frame.go:347-362 | the verdict is a function of the body, and of whether its source fails, alone, whatever was read before |
| FrameLanguage.AcceptedIff | internal/archive/frame.go:232-362 | accepted exactly when the digest agrees and the bytes are a run of non-final frames closed by one final frame, with nothing after it |
| FrameLanguage.BodyReadsBack | internal/archive/frame.go:232-362 | what reading a written body followed by anything yields |
| FrameLanguage.BrokenIsTheBeginning | internal/archive/frame.go:232-362 | what is handed out before the source fails is the beginning of what the whole body yields, however it goes on |
| FrameLanguage.BrokenDiffersAtTheEnd | internal/archive/frame.go:232-339 | a failing source changes what its end is taken for and nothing else: never acceptance, a failed authentication exactly where it was one, and its own error in place of acceptance |
| FrameFormat.FrameReadsBack | internal/archive/frame.go:232-302 | the reader takes a frame off the front exactly as it was written, its flag found by trial |
| FrameFormat.FrameWasWritten | internal/archive/frame.go:232-302 | whatever the reader takes for a frame is one the writer's function writes at that number |
| FrameFormat.WrittenBodyReadsBack | internal/archive/frame.go:118-362 | for every plaintext and frame size: read back whole and accepted, or exactly how it is refused when a frame is too large or the digest differs |
| FrameFormat.AcceptedExactly | internal/archive/frame.go:232-362 | a body is accepted exactly when its hash is the digest and it is length-prefixed frames authenticating in order with one final frame, last |
| FrameFormat.MovedFrameIsUnauthentic | internal/archive/frame.go:60-82 | a frame moved to another position does not authenticate |
| FrameFormat.CutBodyIsTruncated | internal/archive/frame.go:232-318 | every strict prefix of a written body is refused as truncated with only a prefix of the plaintext released, except exactly where the first frame is over the reader's cap and its length is in: then as a failed decryption |
| FrameFormat.ExtendedBodyIsTruncated | internal/archive/frame.go:308-318 | a written body with anything after it is refused as truncated, except exactly where its first frame is over the cap |
| FrameFormat.OversizedFrameRefused | internal/archive/frame.go:240-256 | a first frame over the reader's cap is refused on its length alone, whatever follows it |
| FrameFormat.FrameSizeTooLargeToRead | internal/archive/frame.go:240-256 | a concrete frame size whose body the reader refuses |
| ToySuites.ToyIsLawful | internal/archive/create.go:178-353 | the laws asked of hash, base64, keys, JSON, tar and signatures together, and an injective marshaller, are met by a concrete suite |
| ToyContainers.OneAssetIsArchived | internal/archive/create.go:178-353 | a source with an embedded asset meets what the container theorems suppose of one, and its container opens |
| HeaderJson.ScanForDuplicates | internal/archive/archive.go:235-285 | accepts exactly the documents in which no object at any depth repeats a member |
| HeaderJson.ReadersAgree | internal/archive/archive.go:219-285 | on such documents a first-wins and a last-wins reader see the same value |
| HeaderJson.ReadersMayDisagree | internal/archive/archive.go:219-285 | without the check they need not |
| HeaderJson.CanonicalSignedHeader | internal/archive/archive.go:191-217 | the signed bytes are those of the document without its signature member, and none for a document with repeats |
| HeaderJson.SignedScopeIsEverythingElse | internal/archive/archive.go:191-217 | two headers have the same signed bytes exactly when they agree on every member but the signature |
| Containers.SignatureSignsItselfOut | internal/archive/create.go:297-321 | the canonical form is the same with the placeholder and with the real signature |
| Manifests.ValidateManifest | internal/archive/manifest.go:180-280 | accepts exactly the manifests that keep every rule, with distinct references and identifiers |
| Manifests.ParseManifest | internal/archive/manifest.go:151-174 | a manifest is read only when every required member is present and not null and every rule holds |
| Manifests.RenderedManifestParses | internal/archive/manifest.go:151-280 | a rendered manifest parses back to itself exactly when it is valid |
| Entries.EntryNameRoundTrip | internal/archive/manifest.go:285-307 | a valid reference comes back from its entry name, which is never a reserved name |
| Entries.RefRoundTrip | internal/archive/manifest.go:285-307 | and an entry name that yields a reference is that reference's name |
| Entries.BuildManifest | internal/archive/create.go:382-440 | succeeds exactly for a source whose manifest is valid, and yields that manifest |
| Entries.BodyEntries | internal/archive/create.go:447-523 | writes manifest, snapshot, then each embedded asset once in manifest order, failing exactly when the snapshot or an asset does not deliver its declared length |
| Entries.EntryChecker.Take | internal/archive/open.go:255-324 | takes an entry exactly when the entries are not doomed by it: a valid manifest first, then at most one snapshot and declared embedded assets hashing to their reference |
| Entries.EntryChecker.Conclude | internal/archive/open.go:326-344 | accepts exactly what has one snapshot and every declared embedded asset besides, and returns its manifest |
| Entries.DoomedStays | internal/archive/open.go:246-324 | what is refused at an entry stays refused whatever follows |
| TarReading.TarReader.Advance | internal/archive/open.go:132-137 | however far the decompressor reads ahead, the next entry handed out is the next of the whole stream's, and over an accepted body its end is found exactly |
| Containers.ReadEntries | internal/archive/open.go:246-345 | stops at the end marker, at the first entry it refuses or where the stream cannot be read; over an accepted body its outcome is that of the whole plaintext |
| Entries.WrittenEntriesAreRead | internal/archive/open.go:246-345 | what a source writes is read back to its own manifest exactly when its asset store is content-addressed |
| Entries.AcceptedStreamCarriesTheDeclared | internal/archive/open.go:246-345 | the carried assets are the declared embedded ones, as a set, and every other entry is named by its own hash |
| Containers.Create | internal/archive/create.go:178-353 | succeeds exactly for an offered source and a destination none of whose operations fails; then the file holds the container at the start offset and is unchanged elsewhere, and the cursor stands at its end. In every case, whatever fails and wherever, the file is as it was but for one stretch from the start offset |
| Containers.FirstPass | internal/archive/create.go:273-295 | after the first pass the file holds placeholder header and body, streamed frame by frame; a failing entry or write leaves it touched from the start offset on only |
| Containers.Finish | internal/archive/create.go:297-352 | the rewrite replaces the header alone, byte for byte in place, and leaves the body and the cursor at its end; it fails exactly when the signature does not verify or an operation of the file fails |
| Containers.SameWidths | internal/archive/create.go:323-335 | the final header is exactly as long as the placeholder, since a hex digest and the base64 of 64 bytes have one width each and nothing to escape |
| Containers.ReadGate | internal/archive/open.go:59-128 | magic, version, signature and key material are judged in that order, before any of the body |
| Containers.VerifyHeaderSignature | internal/archive/open.go:188-202 | verifies exactly a decodable signature over the canonical bytes |
| Containers.Open | internal/archive/open.go:59-149 | the outcome is a function of the file, passphrase and key: the header's refusal, then the body's verdict, then the entries', however far the decompressor reads ahead and wherever the entries' reader stops; a file that cannot be read to its end never opens, and the code is given |
| ContainerTheorems.RegionReadsBack | internal/archive/open.go:162-177 | a written header region is read back, unless it is over the reader's cap |
| ContainerTheorems.OwnHeaderPasses | internal/archive/open.go:59-128 | the header Create leaves passes every check of Open with the writer's public key |
| ContainerTheorems.CreatedContainerOpens | internal/archive/create.go:178-353 | a created container opens to the writer's own manifest and entries exactly when header and frames are under the caps and the asset store is content-addressed, and otherwise the code it is refused with |
| ContainerTheorems.CutContainerIsTruncated | internal/archive/open.go:59-177 | the outcome of a created container cut anywhere: within its header, or under one over the cap, not recognized; past it truncated, or a failed decryption exactly where the first frame is over the cap |
| ContainerTheorems.ExtendedContainerIsTruncated | internal/archive/open.go:59-177 | the outcome of a created container with anything appended |
| ContainerTheorems.CreatedInAFileOpens | internal/archive/create.go:264-295 | a container created in the middle of a file and opened there: as by itself exactly when the file was no longer, and otherwise refused, with the code, for the old bytes left behind it |
| ContainerTheorems.ForeignBodyNeverOpens | internal/archive/open.go:130-148 | under a given accepted header no body with another hash opens, with any passphrase |
| ContainerTheorems.AlteredHeaderIsRefused | internal/archive/open.go:188-202 | a header with any signed member altered, added or dropped is refused before its body is read, or it carries a signature that verifies over bytes other than the original header's, which are given |
| Preflights.ResolveBaseChain | internal/archive/preflight.go:215-248 | terminates on any finite store, cyclic or not, and passes exactly when following base references reaches a full archive |
| Preflights.StuckInside | internal/archive/preflight.go:215-248 | a walk confined to archives that are not full reaches none, so the cycle refusal rejects no resolvable chain |
| Preflights.Preflight | internal/archive/preflight.go:148-201 | collects every fatal finding in order, and one outcome per pack |
| Preflights.MayProceedIff | internal/archive/preflight.go:142-201 | nothing is fatal exactly when epoch, assets, base chain and boot-critical packs are all in order |
| Preflights.OnlyVouchedPacksAreSilent | internal/archive/preflight.go:250-287 | a pack restores without a signal only if its trust source vouches for it as it is |
| Dayparts.ParseTimeOfDay | internal/datamodel/daypart.go:35-52 | splitting at colons accepts exactly two digits, colon, two digits, colon, two digits, in range |
| Dayparts.ClockRoundTrip | internal/datamodel/daypart.go:166-171 | a clock rendering parses back to its second, except the end of the day, which is no time of day |
| Dayparts.TimeRoundTrip | internal/datamodel/daypart.go:35-52 | and every time of day is the rendering of its second |
| Dayparts.DaypartSegments | internal/datamodel/daypart.go:61-91 | the loop's expansion, phantom weekdays contributing nothing |
| Dayparts.CoverageIsArcs | internal/datamodel/daypart.go:61-91 | the segments of a daypart cover exactly one arc of the weekly circle per declared day, from the start time and as long as the window, start equal to end being a full day |
| Overlaps.ValidateNoOverlap | internal/datamodel/daypart.go:117-162 | refuses nothing exactly when no two parseable rows of one schedule cover a common local reading; a refusal is the first there is, schedules in the order their rows are met, and names two such rows and a stretch of a weekday that both cover throughout |
| Overlaps.ValidateGroup | internal/datamodel/daypart.go:130-160 | within a schedule the refused pair is the first in scan order |
| Overlaps.OverlapIsClash | internal/datamodel/daypart.go:97-99 | two rows share a reading exactly when a segment of one intersects a segment of the other |
| Overlaps.HoldsOnArcs | internal/datamodel/holding.go:41-60 | a daypart holds exactly while the local reading is on one of its arcs |
| Overlaps.HoldingDaypart | internal/datamodel/holding.go:70-81 | a holding row of that schedule, or none when none holds |
| Overlaps.TheHolderIsFound | internal/datamodel/holding.go:62-81 | where rows partition time at most one row of a schedule holds at any instant in any zone, and the scan finds it |
| Overlaps.HolderIgnoresRowOrder | internal/datamodel/holding.go:70-81 | the holding daypart does not depend on row order |
| Overlaps.OverlapIsObservable | internal/datamodel/daypart.go:101-116 | two rows overlap exactly when in some zone at some instant both hold |
| Grouping.GroupBy | internal/datamodel/daypart.go:118-127 | every row in its group in row order, and each group's id once, as first met |
| Grouping.FirstMetInOrder | internal/datamodel/daypart.go:118-127 | ids stand in the order of their first rows, none twice |
| Resolution.AncestorChain | internal/datamodel/resolve.go:78-101 | terminates on any tree, cyclic parents included; repetition-free, each element the parent of the one before, stopping only where the tree ends or would repeat |
| Resolution.ChainIsReachability | internal/datamodel/resolve.go:68-101 | holds every node reached by any number of steps up, at its least distance |
| Resolution.ChainIsUnique | internal/datamodel/resolve.go:68-101 | and is the only such chain |
| Resolution.InForce | internal/datamodel/resolve.go:163-173 | no windows, or some window containing the instant |
| Resolution.ApplicableSchedules | internal/datamodel/resolve.go:110-157 | exactly the schedules attached on the chain and in force, each as often as its row stands, none above one before it in the order priority, distance, id |
| Resolution.AboveIsAnOrder | internal/datamodel/resolve.go:139-150 | the precedence is a strict order, total on distinct ids |
| Resolution.Resolve | internal/datamodel/resolve.go:182-218 | an error only for an unresolvable zone; otherwise the state of the contender that no contender beats, any holding daypart before any fallback, or the terminal default when nothing is claimed |
| ResolutionTheorems.ResolvedIsUnique | internal/datamodel/resolve.go:175-218 | with distinct ids the rows call for exactly one state |
| ResolutionTheorems.StateIsCoherent | internal/datamodel/resolve.go:175-231 | what is shown is what the governing row commands: content and its playlist only where that row is on; a daypart in effect holds, a fallback only where no applicable schedule has a holding daypart |
| ResolutionTheorems.RowOrderIsIrrelevant | internal/datamodel/resolve.go:182-218 | permuting any of the rows changes nothing |
| ResolutionTheorems.AddingASchedule | internal/datamodel/resolve.go:182-218 | adding a schedule changes the state exactly when it applies, claims something and beats every contender, and then to its own; off the chain or outranked it changes nothing |
| Presets.MayCarryIff | internal/datamodel/preset.go:106-164 | a baseline is carried exactly when the daypart row and its bound batch differ at most in bookkeeping and recorded outcome |
| Presets.TwoFiringsAreSeparated | internal/datamodel/preset.go:54-121 | over any run two firings of one daypart are separated by a resolve that found another or none, or by an apply that started from no baseline |
| Presets.TickFiresOnChange | internal/datamodel/preset.go:54-67 | no edge is missed and none made up: a tick fires a daypart's own batch exactly when it binds one and the last successful resolve found another daypart or none |
| Presets.BaselineIsLastResolve | internal/relay/schedulehost/schedulehost.go:678-699 | the baseline is what the last successful resolve found, failed ticks leaving it alone |
| Presets.StartsFreshIff | cmd/waiveo-relay/livepull.go:207-218 | at any point of any run, an apply over a node being resolved starts from no baseline exactly when the daypart in effect, or the batch it binds, was edited |
| Presets.BookkeepingNeverFires | internal/datamodel/preset.go:123-164 | so recording outcomes and re-stamping rows, with any edit elsewhere in the section, fires only if the clock moved the node to another daypart |
| Presets.EditIsDelivered | internal/relay/schedulehost/schedulehost.go:819-1025 | and an edit to the daypart in effect or its batch is delivered by the apply that carries it, unless the daypart then effective binds none or its misfire is skip |
| Presets.GroundedRun | cmd/waiveo-relay/livepull.go:207-218 | through any run the baseline's daypart is a row of the generation in force |
| Presets.ResolvedIsFromRows | internal/datamodel/resolve.go:182-218 | a resolved daypart is a row of the generation it was resolved from |
| CastBundles.ReferencedAssets | internal/castbundle/castbundle.go:489-506 | every distinct reference the slides make, strictly ascending |
| CastBundles.ReferencesAreDetermined | internal/castbundle/castbundle.go:484-506 | so the list is determined by the slides |
| ToyBundles.ToyIsLawful | internal/castbundle/castbundle.go:438-464 | the laws asked of container, JSON and hash are met by a concrete codec |
| ToyBundles.OneImageIsExported | internal/castbundle/castbundle.go:357-417 | an export carrying an asset meets what the theorems suppose of one |
| CastExchange.NewPlan | internal/castbundle/castbundle.go:357-417 | a plan exactly when the count, presence, per-asset, total and manifest limits hold; otherwise exactly which refusal, the first condition to fail in the order of the checks deciding, and among the assets the first reference that cannot be carried; the one for overhead room is unreachable |
| CastExchange.Stream | internal/castbundle/castbundle.go:438-464 | the manifest first, then every planned asset |
| CastExchange.ScanFiles | internal/castbundle/castbundle.go:535-561 | accepts exactly recognized names within the running total, the last entry of a name counting |
| CastExchange.ReadAssets | internal/castbundle/castbundle.go:581-607 | accepts exactly when every declared asset is carried under a name of its own and hashes to its reference, and nothing is left over |
| CastExchange.Read | internal/castbundle/castbundle.go:526-617 | accepts exactly the acceptable files, yielding their manifest and the bodies keyed by reference; a file in order but of another format is told so |
| CastTheorems.AcceptedBundle | internal/castbundle/castbundle.go:508-617 | distinct declared references, assets keyed by exactly those, every value hashing to its key, every slide reference present |
| CastTheorems.NothingIsSmuggled | internal/castbundle/castbundle.go:600-607 | no entry the manifest does not declare |
| CastTheorems.PlanFits | internal/castbundle/castbundle.go:110-176 | content, manifest and framing of a plan whose entry names are no longer than a hash's stay within the reader's whole-file limit |
| CastTheorems.TotalsPass | internal/castbundle/castbundle.go:535-565 | the reader's running total and entry count pass on every plan, whatever its references are called |
| CastTheorems.ExportIsImportable | internal/castbundle/castbundle.go:357-617 | a planned export is accepted back exactly when every asset's bytes are what their reference says |
| CastTheorems.ImportIsTheExport | internal/castbundle/castbundle.go:357-617 | and then it is the same cast with exactly its assets |
| CastSizes.LimitHoldsIff | internal/castbundle/castbundle.go:535-548 | of the files whose 64-bit running total passes, the declared sizes really are within the limit exactly when no entry declares 2^63 less the limit or more |
| CastSizes.TotalCanWrap | internal/castbundle/castbundle.go:535-548 | a concrete list of files that passes and is over the limit, with three full-size assets that are kept and readable |
| CastSizes.AcceptedBundleFits | internal/castbundle/castbundle.go:508-617 | under that condition the manifest and the bodies an accepted bundle yields are within the limit together, since a zip reader yields no more than an entry declares |
| Overrides.NextOverrideExpiry | cmd/waiveo-feeder/main.go:2913-2925 | the earliest expiry strictly after now, zero exactly when none is pending |
| SnapshotCache.CacheWindowEnd | cmd/waiveo-feeder/main.go:2852-2858 | the earlier of next expiry and re-mint deadline |
| SnapshotCache.WindowIsExact | cmd/waiveo-feeder/main.go:2840-2858 | from the build on, the window is exactly the time for which every override projects as at the build and the build is younger than the re-mint interval, and it is over for ever when it ends |
| SnapshotCache.BeforeTheBuild | cmd/waiveo-feeder/main.go:2863-2897 | for a clock read before the build, a snapshot is right exactly when no override ran out in between |
| SnapshotCache.DesiredStateSource.Current | cmd/waiveo-feeder/main.go:2863-2897 | an open window at the same generation is served again untouched, anything else is rebuilt; exactly when what is served is still right now; a failure leaves the cache as it was |
| LapseLoop.LapsedOverrides | cmd/waiveo-feeder/overrideexpiry.go:179-189 | the lapsed pairs, the last row of a screen counting |
| LapseLoop.HasUnpublishedLapse | cmd/waiveo-feeder/overrideexpiry.go:199-206 | some lapsed pair was not published, whatever order the map is walked in |
| LapseLoop.OverrideExpiryLoop.Pass | cmd/waiveo-feeder/overrideexpiry.go:103-156 | one round: what is recorded, when an advance is asked for, and the wait for every input, never past 1 ms after the next pending expiry |
| LapseLoop.WaitIsSoonEnough | cmd/waiveo-feeder/overrideexpiry.go:128-137 | the wait is not too long even where the nanosecond product overflows |
| LapseLoop.WaitsNotAtAllIff | cmd/waiveo-feeder/overrideexpiry.go:128-137 | exactly when an expiry still to come makes the loop not wait at all, and exactly when it waits as long as it should |
| LapseLoop.FarExpirySpins | cmd/waiveo-feeder/overrideexpiry.go:128-137 | an expiry 9223372036854 ms away or more, up to twice that, is re-read without pause; no nearer one is |
| LapseLoop.AskedIff | cmd/waiveo-feeder/overrideexpiry.go:103-126 | a round asks for an advance exactly when some pair is lapsed that was not at the previous successful round |
| LapseLoop.AnnouncedExactlyOnce | cmd/waiveo-feeder/overrideexpiry.go:76-126 | a lapse left on its row is announced by the first round that reads the store once it has run out, and by no other |
| LapseLoop.DeliveredIff | cmd/waiveo-feeder/overrideexpiry.go:117-125 | a lapse is carried by some successful advance exactly when the announcing round's succeeds or a later one does that another screen's lapse asked for |
| LapseLoop.FailedAdvanceIsNotRetried | cmd/waiveo-feeder/overrideexpiry.go:117-125 | a concrete run in which a failed advance loses the announcement |
| MirrorFaults.Tracker.Fail | cmd/waiveo-feeder/candidatemirror.go:129-157 | one failure recorded, and whether it is reported |
| MirrorFaults.Tracker.Recover | cmd/waiveo-feeder/candidatemirror.go:173-186 | reports a run once, and the next one starts as the first did |
| MirrorFaults.ReportsIff | cmd/waiveo-feeder/candidatemirror.go:129-157 | a failure is reported exactly when its number is a power of two or the last report is a quiet ceiling ago |
| MirrorFaults.NeverQuietForLong | cmd/waiveo-feeder/candidatemirror.go:120-157 | after any failure the last report is less than the quiet ceiling ago |
| MirrorFaults.ReportsAreFew | cmd/waiveo-feeder/candidatemirror.go:95-157 | n failures over T ms are reported at most floor(log2 n) + 1 + floor(T / ceiling) times |
| LiveApply.PlayerServer.SetProgram | internal/relay/playerserver/program.go:242-264 | drops a write naming no screen, of an older generation, or demoting its own generation's takeover; stores any other |
| LiveApply.PlayerServer.SetRevokedScreens | internal/relay/playerserver/pairing.go:692-751 | replaces the revocation view unless a newer generation set it, and drops exactly the sessions it voids, reviving none |
| LiveApply.PlayerServer.SetPairingGrants | internal/relay/playerserver/pairing.go:570-582 | replaces the grants unless a newer generation set them |
| LiveApply.ServeAppAuthoredPrograms | cmd/waiveo-relay/main.go:2192-2206 | installs every entry that names a screen, in order, and counts them |
| LiveApply.FinalIsLastTakeoverElseLast | cmd/waiveo-relay/main.go:2192-2206 | a screen ends up with its last takeover if it has one, else with its last entry |
| LiveApply.SoleServedScreenId | cmd/waiveo-relay/main.go:2342-2367 | a screen exactly when one node is governed, one screen is named and nothing pins it |
| LiveApply.RePuller.ApplyPrograms | cmd/waiveo-relay/livepull.go:133-196 | the revocation view, then the baseline, then each node's first resolve |
| LiveApply.RePuller.Tick | cmd/waiveo-relay/livepull.go:324-416 | applies exactly a newer generation with other sections, and then whole: programs, revocation, grants, inventory and rules are all of that generation; a newer one with the same sections moves only the generation, anything else nothing |
| LiveApplyRuns.NextInv | cmd/waiveo-relay/livepull.go:133-196 | every step of every interleaving keeps the invariant |
| LiveApplyRuns.GenerationsNeverGoBack | cmd/waiveo-relay/livepull.go:324-416 | in every run neither the applied generation nor any screen's served generation decreases |
| LiveApplyRuns.PinnedScreenKeepsItsProgram | cmd/waiveo-relay/main.go:2318-2367 | in every run a screen pinned by an applied generation serves that generation's own entry exactly until a newer apply installs another for it: through the start of newer applies, through generations that do not name it, and whatever late writes come |
| LiveApplyRuns.KeptUntilReplaced | cmd/waiveo-relay/livepull.go:27-44 | and so does any screen a generation names that its schedule may not write |
| LiveApplyRuns.RevokedScreenIsGivenNothing | cmd/waiveo-relay/livepull.go:172-196 | from the start of an apply that revokes its screen no player is given a program, old or new, until an apply that does not |
| LiveApplyRuns.InstallIsNeverUndone | cmd/waiveo-relay/livepull.go:133-196 | during an apply a screen serves its new entry as soon as it is installed, and an older generation until then |
| LiveApplyRuns.LateWriteIsFenced | cmd/waiveo-relay/livepull.go:37-44 | a late write of a replaced generation changes nothing the new one installed |
| LiveApplyRuns.TickIsARun | cmd/waiveo-relay/livepull.go:324-416 | an uninterrupted pull is one of these runs |

## Left out

- Tar and compressor buffering on the way out: which bytes have been written when an entry fails is a parameter of `Containers.Create`.
- FrameWriting.FrameWriter.Write: says nothing of a writer used again after its destination failed; `Create` never does.
- Frames whose ciphertext does not fit the four-byte length prefix, and headers of 4 GiB and more: `ContainerTheorems.Created` and `FrameFormat.WrittenBodyReadsBack` exclude them.
- Failure to obtain random salts and nonces, and the strength of any cryptographic primitive.
- A source whose snapshot is absent and one whose snapshot fails to open are one case; manifest lists that are absent and those that are empty are one case.
- Unforgeability of signatures: `ContainerTheorems.AlteredHeaderIsRefused` exhibits the forgery instead.
- LiveApply.RePuller.ApplyPrograms: the cancelling of loops and the harvest of baselines in the same span are not part of it; `Presets` models the harvest, and `LiveApplyRuns` what cancelled resolvers still write.
- LiveApply.RePuller.Tick: device inventory and edge rules are carried as they stand; which devices and rules they admit, and site geo, are not modelled.
- Sessions in the durable store and the redeeming of grants: `LiveApply.PlayerServer` has the sessions in memory only.
- A resolve still in flight in a cancelled resolver when its baseline is harvested: in `Presets` the harvest and the ticks are atomic, so the one extra firing this window allows is not modelled. In `LiveApplyRuns` its late program write is.
- Resolution.ApplicableSchedules: the sort is a function with the library's stable contract, not an in-place algorithm.
- CastExchange.Read: reading an entry is a function of the entry, so partial reads and descriptor handling are not stated; the wording of refusals is not modelled.
- Effective timezone and geo lookup, scope-tree validation, and IANA zone data.
- `reflect.DeepEqual` on opaque JSON parameters is equality of their text.
- `BatchOutcome` and `classifyOutcome`, content signing and playlist projection in `schedulehost`, `FileName`, and the message texts: branch tables that would add only easy members.
- Presets.TwoFiringsAreSeparated: an event is a whole tick or a whole apply; resolution's result is any state, so the statement covers every result `Resolve` can give.
- LapseLoop.DeliveredIff: generation advances by other writers, which carry a lapse as well, are not part of the loop and not modelled.
- LapseLoop.OverrideExpiryLoop.Pass: the bound on the wait supposes that two consecutive clock readings are less than nine trillion milliseconds apart; timers and the wake channel are not modelled.
- Decoding the header into a record that matches member names but for their case: `HeaderJson` compares names exactly, as the duplicate check does, so two names that differ in case are two members to it.
- A nil `mirrorFaults`, which reports everything; the doubling counter is unbounded.
