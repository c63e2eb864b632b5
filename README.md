# wlan.recon: a verified model of the 802.11 recon and deauthentication engine

This project models the `wlan.recon` module (`modules/wlan_recon.go`). The
module puts a wireless interface in monitor mode and classifies every captured
frame. From those frames it builds a directory of base stations, or of the
clients of one base station. On command it injects deauthentication frames.

The model has these parts:

- `GoTypes`: the Go values the engine uses. Addresses are `net.HardwareAddr`
  byte sequences, Go strings are byte sequences, and there are the errors it
  reports.
- `Channel`: `WlanMhzToChannel`, with Go's truncating division written out.
- `GoStrings`: Go's `<` on strings, which is byte-wise lexicographic.
- `HwAddr`: how `net.HardwareAddr.String()` renders an address. The lemmas show
  the rendering is injective. For addresses of one length it also orders them
  the same way as their bytes.
- `Ordering`: what `sort.Sort` promises, with an insertion sort as the model.
- `Directory`: the target directory `WlanTargets`. Its source is not part of
  this model, so it is a map from address to entry offering the operations the
  engine calls.
- `Sorters`: the `ByEssidSorter` and `ByWlanSeenSorter` comparators.
- `Dot11`: captured frames and built deauthentication frames, as records of the
  fields the engine reads or writes.
- `Classifier`: the `BSScan` and `ClientScan` rules as functions, and the
  capture loop folded over a sequence of frames.
- `Deauth`: the injection handle and the frames one attack writes. The handle
  records every write and has a write-failure oracle.
- `Sweep`: the `SendDeauth` dispatch, both as written and with the missing
  guard. It also holds the frames a sweep over the directory writes.
- `WlanRecon`: the `WDiscovery` object as a class. Its methods are the command
  handlers, the scanners, the capture loop, `Configure`, `Start`, `Stop`,
  `SendDeauthPacket`, `SendDeauth` and `Show`.

Each round `s` of a deauth attack (`modules/wlan_recon.go:282` and `:290`)
writes two frames:

- write `2s` is (address1 = ap, address2 = client, address3 = ap);
- write `2s+1` is (address1 = client, address2 = ap, address3 = ap).

Below 2412 MHz the channel mapper gives Go's result. For example, 2411 MHz maps
to channel 1, because truncating division rounds toward zero. Euclidean
division would give 0.

## Model

| member | source | states |
|---|---|---|
| `Channel.TruncDiv` | modules/wlan_recon.go:168 | The quotient truncates toward zero: the remainder takes the dividend's sign and is smaller than the divisor. |
| `Channel.WlanMhzToChannel` | modules/wlan_recon.go:166-172 | Above 2484 MHz the result is the sentinel 0. From 2412 to 2484 MHz it is a channel from 1 to 15 whose centre lies at or at most 4 MHz below the frequency. Below 2412 MHz it is at most 1, with its centre at or at most 4 MHz above the frequency. |
| `Channel.CentreRoundTrip` | modules/wlan_recon.go:166-172 | Every c from 1 to 14 maps back from 2407 + 5c. For channels 1 to 13 that is the real centre frequency. Channel 14's real centre is 2484 MHz, which maps to 15 (`Channel.BandEdges`). |
| `Channel.BandEdges` | modules/wlan_recon.go:166-172 | 2412 MHz gives 1, 2484 MHz gives 15, and 2485 and 2500 MHz give 0. |
| `Channel.BelowBand` | modules/wlan_recon.go:166-172 | 2408 to 2411 MHz give channel 1, where Euclidean division would give 0. 2403 to 2407 MHz give 0. |
| `Channel.InBandIff` | modules/wlan_recon.go:166-172 | The result lies from 1 to 15 exactly when the frequency lies from 2408 to 2484 MHz. |
| `GoStrings.LessIrreflexive` | modules/wlan_recon.go:180-182 | No string is less than itself under Go's `<`. |
| `GoStrings.LessTransitive` | modules/wlan_recon.go:180-182 | Go's `<` on strings is transitive. |
| `GoStrings.LessTotal` | modules/wlan_recon.go:180-182 | Of two different strings, one is less than the other. |
| `GoStrings.LessAsymmetric` | modules/wlan_recon.go:180-182 | Two strings are never each less than the other. |
| `HwAddr.MacStringLength` | modules/wlan_recon.go:180 | A rendered address of n > 0 bytes is 3n - 1 characters long. |
| `HwAddr.MacStringInjective` | modules/wlan_recon.go:180 | Two addresses that render to the same text are equal. So keying the directory by the address bytes is equivalent to keying it by the rendered text. |
| `HwAddr.MacStringOrder` | modules/wlan_recon.go:180 | For addresses of equal length, the rendered texts compare the same way as the address bytes, in both directions. |
| `Ordering.Insert` | modules/wlan_recon.go:209-211 | Inserting adds the element and keeps every other element, counted with multiplicity. |
| `Ordering.SortBy` | modules/wlan_recon.go:209-211 | The sorted sequence is a permutation of the input. |
| `Ordering.InsertSorted` | modules/wlan_recon.go:209-211 | Under a strict weak order, inserting into a sorted sequence keeps it sorted. |
| `Ordering.SortBySorted` | modules/wlan_recon.go:209-211 | Under a strict weak order, the result is sorted: no element is less than an element before it. |
| `Ordering.SortedUnique` | modules/wlan_recon.go:209-211 | Take two sorted permutations of one sequence whose distinct elements are all comparable. They are equal, so any correct sort gives the same result. |
| `Sorters.EssidLess` | modules/wlan_recon.go:178-183 | An entry comes before another only if its SSID is not greater. Among equal SSIDs, it comes first only if its address is different. |
| `Sorters.SeenLess` | modules/wlan_recon.go:189-191 | An entry never comes before itself. |
| `Sorters.EssidNotLess` | modules/wlan_recon.go:178-183 | `a` is not ByEssid-less than `b` exactly when `a` and `b` have the same SSID and rendered address, or `b` is less than `a`. |
| `Sorters.EssidLessTransitive` | modules/wlan_recon.go:178-183 | ByEssid is transitive. |
| `Sorters.EssidLessIrreflexive` | modules/wlan_recon.go:178-183 | No entry is ByEssid-less than itself. |
| `Sorters.EssidLessIsStrictWeakOrder` | modules/wlan_recon.go:178-183 | ByEssid meets `sort.Sort`'s contract for a comparator: irreflexive, transitive, and incomparability is transitive. |
| `Sorters.EssidLessConnected` | modules/wlan_recon.go:178-183 | Entries with different addresses are always ordered one way or the other. |
| `Sorters.EssidSortedMeaning` | modules/wlan_recon.go:178-183 | In a ByEssid-sorted listing with distinct addresses, SSIDs ascend, and among equal SSIDs the rendered addresses strictly ascend. |
| `Sorters.EssidOrderUnique` | modules/wlan_recon.go:207-211 | Two ByEssid-sorted arrangements of the same entries with distinct addresses are equal. |
| `Sorters.EssidTableUnique` | modules/wlan_recon.go:207-211 | Any two ByEssid-sorted listings of one directory are identical, so the table does not depend on the order `List()` returns. |
| `Sorters.SeenLessIsStrictWeakOrder` | modules/wlan_recon.go:189-191 | ByWlanSeen meets `sort.Sort`'s contract for a comparator. |
| `Sorters.SeenSortedMeaning` | modules/wlan_recon.go:189-191 | A ByWlanSeen-sorted listing runs from the most recently seen entry to the least recently seen. |
| `Directory.AddEntry` | modules/wlan_recon.go:354 | One `AddIfNew` adds its address to the keys and changes no other entry. It keeps every entry stored under its own address. |
| `Directory.AddEntrySize` | modules/wlan_recon.go:354 | A new address grows the directory by one entry. A known address leaves its size unchanged. |
| `Directory.ListsSameMultiset` | modules/wlan_recon.go:207 | Two listings of one directory hold the same entries. |
| `Directory.ListsPermutation` | modules/wlan_recon.go:207-211 | Any rearrangement of a listing is still a listing: each entry once, nothing else. |
| `Directory.WlanTargets.constructor` | modules/wlan_recon.go:395 | A new directory is empty. |
| `Directory.WlanTargets.AddIfNew` | modules/wlan_recon.go:354 | The directory becomes `AddEntry` of its old contents. |
| `Directory.WlanTargets.ClearAll` | modules/wlan_recon.go:85 | The directory becomes empty. |
| `Directory.WlanTargets.List` | modules/wlan_recon.go:207 | The result lists every entry of the directory exactly once, and nothing else. |
| `Dot11.BuildDeauthPkt` | modules/wlan_recon.go:247-274 | The three addresses go to address 1, 2 and 3 in the given order. The frame type, reason code and sequence number are the given ones. |
| `Deauth.AttackFrame` | modules/wlan_recon.go:280-297 | Write k is a deauthentication with reason Class2FromNonAuth, address 3 = ap and sequence number k / 2. An even k has address 1 = ap and address 2 = client. An odd k has address 1 = client and address 2 = ap. |
| `Deauth.DeauthFrames` | modules/wlan_recon.go:280-297 | A complete attack is 128 frames. |
| `Deauth.AttackTrace` | modules/wlan_recon.go:280-297 | An attack writes from 1 to 128 frames, and they are a prefix of the complete attack. |
| `Deauth.InjectionHandle.WritePacketData` | modules/wlan_recon.go:283 | Every attempt is appended to the trace. It fails exactly when the oracle names its attempt number. |
| `Deauth.DeauthFramesShape` | modules/wlan_recon.go:280-297 | A complete attack is 128 frames. Write 2s is (ap, client, ap) and write 2s+1 is (client, ap, ap), both with sequence number s. Every frame is a deauthentication with reason Class2FromNonAuth, and sequence numbers never decrease. |
| `Deauth.RoundFrames` | modules/wlan_recon.go:281-296 | Round s appends the frame to the base station and then the frame to the client. |
| `Deauth.AttemptsStopAtFailure` | modules/wlan_recon.go:283-294 | An attack makes from 1 to 128 attempts. Every attempt before the last succeeded. If there were fewer than 128, the last one failed, so nothing is written after a failure. |
| `Deauth.AttemptsAllSucceed` | modules/wlan_recon.go:280-297 | If no write fails, an attack makes exactly 128 attempts. |
| `Deauth.AttemptsFirstFailure` | modules/wlan_recon.go:283-294 | If write k is the first to fail, the attack makes exactly k + 1 attempts. |
| `Deauth.AttackTraceStopsAt` | modules/wlan_recon.go:283-294 | If write k is the first to fail, the attack writes exactly frames 0 to k of the complete attack. |
| `Deauth.AttackTraceAllSucceed` | modules/wlan_recon.go:280-297 | If no write fails, the attack writes the complete 128-frame sequence. |
| `Sweep.SweepTraceStep` | modules/wlan_recon.go:306-308 | Attacking one more client appends that client's attack, starting at the handle position where the earlier attacks stopped. |
| `Sweep.SweepAllSucceed` | modules/wlan_recon.go:306-308 | If no write fails, a sweep over N clients writes the N complete attacks in turn, 128 × N frames. |
| `Sweep.SendDeauthAsWritten` | modules/wlan_recon.go:300-315 | As written, the dispatch refuses exactly when no base station is set. It panics exactly when a base station is set and either (with a client) there is no handle, or (without a client) there is no directory, or the directory is non-empty and there is no handle. |
| `Sweep.DeauthBeforeStartPanics` | modules/wlan_recon.go:300-311 | As written, `set bs` followed by `wlan.deauth` before any `wlan.recon on` reads through the nil directory (the `SendDeauthAsWritten` model). |
| `Sweep.SendDeauthPlan` | modules/wlan_recon.go:300-315 | The guarded dispatch never panics. It attacks the pair exactly when both filters and a handle are set. It sweeps exactly when only the base station is set and the source would not panic: a directory exists, and either a handle exists or the directory is empty. It refuses with "Base station is not set." exactly when no base station is set. |
| `Sweep.SendDeauthPlanAgrees` | modules/wlan_recon.go:300-315 | Wherever the source does not panic, the guarded dispatch equals the source's. Where the source panics, the guarded one reports NotInitialized. |
| `Classifier.BeaconDetection` | modules/wlan_recon.go:323-355 | A frame is recorded exactly when it has radiotap, an SSID element and an 802.11 layer, is addressed to broadcast, and has a non-empty SSID. It is recorded as a base station: address 3, that SSID, and the channel of its frequency. |
| `Classifier.ClientDetection` | modules/wlan_recon.go:360-389 | A frame is recorded exactly when it has radiotap and is a data frame with ToDS set, FromDS clear and address 1 equal to the filter. It is recorded as a client: address 2, an empty SSID, and the channel of its frequency. |
| `Classifier.Classify` | modules/wlan_recon.go:437-441 | A detection is a base station exactly when no base-station filter is set. Its SSID is empty exactly when a filter is set. |
| `Classifier.RecordKeepsScope` | modules/wlan_recon.go:437-441 | Handling one frame keeps the directory in scope. Without a filter every SSID is non-empty. With a filter every SSID is empty. |
| `Classifier.ScanAllKeepsScope` | modules/wlan_recon.go:429-443 | The capture loop keeps the directory in scope over any number of frames. |
| `Classifier.ScanAllKeys` | modules/wlan_recon.go:429-443 | After the loop the directory's addresses are the old ones plus the accepted ones: nothing is removed and nothing else appears. |
| `Classifier.ScanAllKeyed` | modules/wlan_recon.go:429-443 | The loop keeps every entry stored under its own address. |
| `Classifier.AcceptedClients` | modules/wlan_recon.go:380-388 | In client mode, every accepted address is the transmitter of some captured to-DS data frame whose BSSID is the filter. |
| `WlanRecon.LastEvents` | modules/wlan_recon.go:221-231 | The shown events are the last min(n, 20) of the n session events. |
| `WlanRecon.WDiscovery.constructor` | modules/wlan_recon.go:40-45 | A new engine is stopped, with no directory, no handle, and both filters empty. |
| `WlanRecon.WDiscovery.SetClientTarget` | modules/wlan_recon.go:65-71 | The client filter becomes the parsed address, or empty with an error when parsing fails. The directory is not touched. |
| `WlanRecon.WDiscovery.ClearClientTarget` | modules/wlan_recon.go:73-78 | The client filter becomes empty. The directory is not touched. |
| `WlanRecon.WDiscovery.SetBSTarget` | modules/wlan_recon.go:80-89 | The directory, if any, is emptied whatever the parse result. The filter becomes the parsed address, or empty with an error. |
| `WlanRecon.WDiscovery.ClearBSTarget` | modules/wlan_recon.go:91-99 | The directory, if any, is emptied and the filter becomes empty. |
| `WlanRecon.WDiscovery.BSScan` | modules/wlan_recon.go:317-356 | The directory changes exactly as `BeaconDetection` of the frame says. |
| `WlanRecon.WDiscovery.ClientScan` | modules/wlan_recon.go:358-390 | The directory changes exactly as `ClientDetection` of the frame says. |
| `WlanRecon.WDiscovery.HandleFrame` | modules/wlan_recon.go:437-441 | A frame goes to `ClientScan` while a base-station filter is set and to `BSScan` otherwise. The directory stays in scope. |
| `WlanRecon.WDiscovery.CaptureLoop` | modules/wlan_recon.go:429-443 | If running, every delivered frame is handled in order. If stopped, the loop breaks at the first frame. The directory becomes the fold of the handled frames. |
| `WlanRecon.WDiscovery.Configure` | modules/wlan_recon.go:392-420 | The result is a fresh empty directory and the broadcast address. The handle becomes the activated one. A failed activation leaves it nil. A failure before activation keeps the old handle. Any device error is returned. |
| `WlanRecon.WDiscovery.Start` | modules/wlan_recon.go:422-446 | If already running, it returns AlreadyStarted and no field of the engine changes. Otherwise it configures, and it is running exactly when activation succeeded. |
| `WlanRecon.WDiscovery.Stop` | modules/wlan_recon.go:448-450 | The running flag is cleared. |
| `WlanRecon.WDiscovery.SendDeauthPacket` | modules/wlan_recon.go:276-298 | The handle's trace grows by exactly the attack's frames, up to and including the first failing write or all 128. |
| `WlanRecon.WDiscovery.AttackNext` | modules/wlan_recon.go:306-308 | One more attack extends the sweep trace by that client's attack. |
| `WlanRecon.WDiscovery.SweepDeauth` | modules/wlan_recon.go:305-308 | Every directory entry is attacked exactly once, in some order. The trace grows by the sweep over that order. |
| `WlanRecon.WDiscovery.SendDeauth` | modules/wlan_recon.go:300-315 | The three outcomes of the guarded dispatch, for the directory and handle the engine has. A refusal writes nothing. A pair attack writes one attack. A sweep writes one attack per entry, each entry exactly once; over an empty directory it writes nothing, even without a handle. |
| `WlanRecon.WDiscovery.Show` | modules/wlan_recon.go:202-245 | Without a directory, it fails with NotInitialized. Otherwise the rows are a permutation of the directory listing, sorted by last-seen for "seen" and by SSID then address otherwise, and the shown events are the last 20. |

## Left out

- Frame serialisation (`gopacket.SerializeLayers` in `buildDeauthPkt`) and frame decoding: a built frame is the record of its header and body fields, and a captured frame is the set of layers the decoder found in it.
- The capture device: `pcap` handle creation, monitor mode, snap length, timeout and activation are I/O. Their outcome is a parameter (`Activation`). The error ignored from `pcap.NewInactiveHandle` and the deferred `CleanUp`/`Close` are not modelled.
- Packet delivery: the capture loop receives the frames as a sequence with their arrival times.
- `time.Sleep` pacing (2 ms between writes) and the goroutine started through `SetRunning`. The model does not cover the race between the capture goroutine and the command handlers on `Targets`, `BSTarget` and `Running`.
- The session framework (`SetRunning`, `Running`, events, `Refresh`) is not part of this model. `Stop` is modelled as clearing the flag and succeeding. The framework's `ErrAlreadyStopped` is not modelled.
- Presentation: `showTable`, `getRow` colouring, `WasMissed`, event rendering and the `Name`/`Description`/`Author` strings.
- The `WlanTargets` directory's source is not part of this model. This model assumes `AddIfNew` inserts an absent address, and otherwise refreshes the channel and last-seen time while keeping the SSID and first-seen time (`Directory.AddEntry`, with `Directory.AddEntryKeepsIdentity` spelling it out). That assumption, not the directory's code, is what the scope lemmas rest on. How the directory uses `isBaseStation`, and its missed-entry bookkeeping, are not modelled. The directory is keyed by address bytes rather than by the rendered text, which `HwAddr.MacStringInjective` shows to be equivalent.
- `net.ParseMAC` is opaque: the handlers receive its result. The command pattern admits mixed `:`/`-` separators, which the parser rejects.
- `sort.Sort` works in place on the slice. It is modelled on values by an insertion sort. `Sorters.EssidTableUnique` shows the ByEssid result does not depend on the sorting algorithm. For ByWlanSeen, entries seen at the same time may come out in another order than Go's.
- Go's map iteration order in the sweep is arbitrary. `SweepDeauth` takes it as any order (a ghost `order`).
- `modules/http_proxy_script.go` (the HTTP proxy's JavaScript bridge) is not part of this model: it only forwards to a foreign interpreter.
- Timestamps are integers, and "after" on `time.Time` is `>`.

## Findings

| source | as written | input that shows it | evidently intended | confidence | as-written member | corrected member |
|---|---|---|---|---|---|---|
| modules/wlan_recon.go:300-311 | `SendDeauth` reads `w.Targets.Targets` and writes through `w.Handle` with no check that the engine was ever started. | `wlan.recon set bs 00:11:22:33:44:55`, then `wlan.deauth` before any `wlan.recon on`: `Targets` is nil and the sweep branch dereferences it. Likewise, with both filters set and no handle, the write goes through a nil handle. | Refuse with a "not initialized" error, as `Show` does for a nil directory. Where the source does not panic, keep its result, including a sweep over an empty directory that succeeds without a handle. | not executed | `Sweep.DeauthBeforeStartPanics` | `Sweep.SendDeauthPlan` |
