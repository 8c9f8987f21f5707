# Verification model of the 3x-ui panel

The panel generates configurations for the Xray core, keeps the core and the mtg proxies running, accounts for their
traffic and draws keys in the browser. This project models the parts of it whose correctness is not visible from one
function body, and proves what they are for:

- **WireGuard keys in the browser.** Sixteen-limb arithmetic modulo 2^255 - 19 over JavaScript doubles, the Montgomery
  ladder of section 5 of RFC 7748 on top of it, and the base32 and base64 encoders (RFC 4648) beside it.
  `Arith`, `JsNumber` (doubles as exact integers, 32-bit operators), `Rfc7748` (the reference), `Montgomery` (multiples
  of a point, which the reference computes), `Limbs`, `Field`, `PublicKey`, `Rfc4648`, `Base32`, `KeyBase64`.
- **Hot configuration changes.** Two configurations compiled into operations that take a running core from one to the
  other without a restart, compared up to JSON formatting. `Json`, `RawJson`, `HandlerDiff`, `HotDiffs` (the
  specification), `HotDiffCode` (the loops), `DiffConditions` (when there is a diff and what is in it, field by field),
  `HotApply` (what the operations do to a running core).
- **Lifecycles.** The reconnecting WebSocket client (`WebSocketModel`, `WebSocketCode`); the manager of mtg processes,
  its change detection and its traffic collection, which drops the lock between snapshot, scrape and write-back
  (`MtgConfig`, `MtgManager`, `MtgTraffic`).
- **Accounting.** Deltas over cumulative counters, told apart by two regular expressions over their names
  (`CounterNames`, `StatsDeltas`), and the set of online clients with its grace window and node trees (`OnlineSet`).
- **Streams, names, literals, schemas.** The line splitter of a child process's output (`Unicode`, `Bytes`,
  `LogWriter`), unique proxy names (`ProxyNames`), the SQL literal printer (`SqliteDump`, with a reader by SQLite's
  rules) and the example generator over cyclic schemas (`Examples`; `ExampleValues` says what it returns).

Code that updates fields, maps or arrays is written as classes, methods and loops, each proved to compute a function of
the old state; the laws are lemmas about those functions. Code that only computes is written as functions.

`dafny verify dfyconfig.toml` verifies everything. Some proofs start by hiding the bodies of functions they do not need;
this changes nothing but the cost.

## Where the code does less than its documentation

Each of these is stated in the model with its exact condition and a concrete input.

- Replacing the routing rules needs the new routing text to be one JSON value that is an object; the diff itself only
  reads the first value of the text. `HotApply.HotApplyTransforms` has the condition,
  `HotApply.TrailingTextCannotApply` a diff that cannot be carried out. Only a configuration built by hand gets there:
  in the panel every section is a raw message that was decoded or marshalled as one JSON value.
- A routing section that changed in formatting only is still an operation, unlike every other section
  (`HotApply.EmptyDiff`; `HotApply.SpacedRoutingIsAnOperation` is `{}` against `{ }`), and needs a restart exactly when
  one of the two texts is empty or they hold neither an object nor null (`HotApply.ReformattingRestarts`;
  `HotApply.NullRoutingRestarts` is the empty text against `null`).
- A handler changed behind the panel's back stays wrong after a hot apply exactly when the diff does not name its tag
  (`HotApply.StaleCoreReconciled`; `HotApply.UnknownHandlerStays` is such a handler).
- A fingerprint of mtg settings does not determine the generated file exactly when a `|` occurs in one of the two
  address options, or the segments before them can be read as another address, secret and pair of truth values
  (`MtgConfig.AmbiguousExactly`; `MtgConfig.ListenAndSecretAmbiguous` and `MtgConfig.AddressOptionsAmbiguous` are pairs
  of settings).
- An inbound and an outbound with one tag: the later counter overwrites the earlier one in the same poll
  (`StatsDeltas.AmountConserved` says exactly when, `StatsDeltas.SharedTagLosesTraffic` shows bytes lost).
- A counter is read from its name exactly when its tag or email is not empty and holds no `>`
  (`CounterNames.ReadsBackExactly`; `CounterNames.ArrowTagUnread` is one that is read as nothing). It is read as another
  counter exactly when its label opens, closes or holds the name of one, which the checks on emails and outbound tags
  allow (`CounterNames.MisreadExactly`, `CounterNames.UserTakenForHandler`). Its bytes are then charged to the other
  account: where nothing is overwritten, an account is credited with what its own counters gained exactly when it can be
  read and the foreign counters taken for it gained nothing, or cannot be read and its own gained nothing
  (`StatsDeltas.TotalsConserved`; `StatsDeltas.ClientChargedToInbound` is a client whose bytes go to an inbound).
- `isConnected` stays set after the open socket has begun to close, until it has closed, another one opens or
  `disconnect` is called (`WebSocketModel.FlagLagsExactly`, over all runs), and so over a new socket that is still
  connecting when `connect` is called meanwhile (`WebSocketModel.ConnectUnderFlag`; `WebSocketModel.StaleConnectedFlag`
  is such a run).
- The example generator does not return exactly when a field whose tags give no example leads to aliases that stand for
  each other in a circle (`Examples.EmitReturnsExactly`; `Examples.AliasCircleHangs` has such a field, and the same
  circle unused).
- A dumped text that holds a NUL makes the script unreadable from there on (`SqliteDump.DumpReadsBack`,
  `SqliteDump.NulCutsScript`).

## Model

| member | source | states |
|---|---|---|
| `JsNumber.AndMask` | frontend/src/utils/index.ts:569 | masking with k ones is the remainder modulo 2^k, for negative numbers too |
| `JsNumber.XorCancel` | frontend/src/utils/index.ts:573-583 | exclusive-or with the first operand undoes itself, the fact behind the branch-free swap |
| `JsNumber.OrDisjoint` | frontend/src/utils/index.ts:276 | or of a multiple of 2^k with a k-bit number is their sum |
| `Rfc7748.DecodedScalarShape` | frontend/src/utils/index.ts:644-648 | every clamped scalar is a multiple of eight whose highest bit is bit 254 |
| `Rfc7748.DecodedScalar` | frontend/src/utils/index.ts:644-648 | the scalar is the key's number with bits 3 to 253 kept, the lower ones cleared, bit 254 set and what is above dropped |
| `Rfc7748.SettledStep` | frontend/src/utils/index.ts:670-691 | swapping before and after a round is the deferred swap of the standard |
| `Montgomery.RoundDoubles` | frontend/src/utils/index.ts:672-689 | a round doubles the first point of the curve y^2 = x^3 + 486662 x^2 + x by the projective doubling formula |
| `Montgomery.RoundAdds` | frontend/src/utils/index.ts:672-689 | and adds the two points by the differential addition formula |
| `Montgomery.LadderHolds` | frontend/src/utils/index.ts:667-692 | before each bit the ladder holds the multiples of the point by the bits taken so far and by one more |
| `Montgomery.LadderMultiplies` | frontend/src/utils/index.ts:667-695 | the whole ladder gives the coordinate of the scalar's multiple of the point, for every scalar of 255 bits |
| `Rfc7748.LittleEndianInjective` | frontend/src/utils/index.ts:557-561 | a number has one little-endian form of a given length, so the packed key is determined by its value |
| `Rfc7748.BitOfByte` | frontend/src/utils/index.ts:669 | bit t of a little-endian number is bit t % 8 of byte t / 8 |
| `Limbs.TopWeight` | frontend/src/utils/index.ts:568 | 2^256 is 2 (2^255 - 19) + 38, why the top carry re-enters as 38 times itself |
| `Limbs.CarriedValue` | frontend/src/utils/index.ts:564-571 | a carry pass changes the value by a multiple of 2 (2^255 - 19) and keeps the residue |
| `Limbs.TwoCarriesReduce` | frontend/src/utils/index.ts:619-620 | two carry passes bring any limbs up to 2^47 to limb 0 in [-38, 65573] and the others in [0, 65535] |
| `Limbs.ReducedCarriesToNormal` | frontend/src/utils/index.ts:541-543 | one carry pass turns the output of a multiplication into sixteen digits |
| `Limbs.NormalCarriedUnchanged` | frontend/src/utils/index.ts:541-543 | further carry passes change nothing |
| `Limbs.FoldedValue` | frontend/src/utils/index.ts:611-618 | folding limb i + 16 into limb i with factor 38 keeps the residue |
| `Field.Gf` | frontend/src/utils/index.ts:519-530 | a fresh sixteen-limb array holding the given limbs, zero beyond them |
| `Field.Carry` | frontend/src/utils/index.ts:564-571 | in place, exactly one carry pass, every operation exact in a double and every mask a remainder |
| `Field.CSwap` | frontend/src/utils/index.ts:573-583 | exchanges two arrays of 32-bit limbs when the flag is 1 and keeps both when it is 0 |
| `Field.Add` | frontend/src/utils/index.ts:585-591 | addition modulo the prime of two reduced elements, the target possibly one of them |
| `Field.Subtract` | frontend/src/utils/index.ts:593-599 | subtraction modulo the prime, the target possibly one of the operands |
| `Field.Product` | frontend/src/utils/index.ts:603-610 | the schoolbook loops compute the integer product, no intermediate reaching 2^53 |
| `Field.ProductReduces` | frontend/src/utils/index.ts:611-620 | folding and two carries reduce a product and keep its residue |
| `Field.MultMod` | frontend/src/utils/index.ts:601-621 | multiplication modulo the prime for limbs far beyond sums of reduced elements, reduced output, any aliasing |
| `Field.Invert` | frontend/src/utils/index.ts:623-643 | raises to exactly 2^255 - 21, also when the target is the argument |
| `Field.ExponentEnd` | frontend/src/utils/index.ts:630-637 | 254 squarings with multiplications skipped at 2 and 4 reach the exponent 2^255 - 21 |
| `Field.BorrowChain` | frontend/src/utils/index.ts:546-554 | leaves the limbs of the difference with the prime and returns its final borrow |
| `Field.DifferenceValue` | frontend/src/utils/index.ts:546-553 | the borrow chain computes value minus prime; its top limb is negative exactly when the value is below the prime |
| `Field.SubtractPrimeOnce` | frontend/src/utils/index.ts:544-556 | one round subtracts the prime exactly when the value is not below it |
| `Field.StoreBytes` | frontend/src/utils/index.ts:557-561 | sixteen digits written as 32 little-endian bytes of the same value |
| `Field.Pack` | frontend/src/utils/index.ts:532-562 | the 32 bytes are the little-endian form of the unique representative below 2^255 - 19 |
| `PublicKey.Clamp` | frontend/src/utils/index.ts:644-648 | the bytes become the clamped scalar of the standard |
| `PublicKey.ScalarBit` | frontend/src/utils/index.ts:669 | the shifts and masks read the scalar's bit i |
| `PublicKey.ThirdPoint` | frontend/src/utils/index.ts:678-688 | the code's order of the cross products and the sign of their difference give the standard's third point |
| `PublicKey.SumsAndSquares` | frontend/src/utils/index.ts:672-677 | what the first six in-place operations of a round leave in each array |
| `PublicKey.CrossProducts` | frontend/src/utils/index.ts:678-683 | what the next six leave |
| `PublicKey.NextPoints` | frontend/src/utils/index.ts:684-689 | what the last six leave |
| `PublicKey.LadderRound` | frontend/src/utils/index.ts:672-689 | the eighteen in-place operations compute the standard's ladder arithmetic for u = 9 and keep all arrays reduced |
| `PublicKey.SwapPoints` | frontend/src/utils/index.ts:670-671 | the two array swaps are the conditional swap of the ladder state |
| `PublicKey.LadderLoop` | frontend/src/utils/index.ts:667-692 | through all 255 iterations limbs stay bounded and the arrays hold the standard's ladder state |
| `PublicKey.FinishKey` | frontend/src/utils/index.ts:693-695 | the bytes written are x2 times z2 to the power 2^255 - 21 |
| `PublicKey.LadderAndPack` | frontend/src/utils/index.ts:667-696 | ladder, inversion and packing compute X25519 of the scalar and 9 |
| `PublicKey.GeneratePublicKey` | frontend/src/utils/index.ts:650-697 | for every private key the result encodes X25519 (section 5 of RFC 7748) of base point 9 and, for 32 bytes, of the key's own number with its low three bits cleared and bit 254 set |
| `Rfc4648.DecodeEncode` | frontend/src/utils/index.ts:272-289 | digits of any width up to eight bits decode to the octets they encode |
| `Base32.Base32String` | frontend/src/utils/index.ts:264-292 | the shift-register loop emits the unpadded base32 text of section 6 of RFC 4648 for every byte array |
| `Base32.ShiftIn` | frontend/src/utils/index.ts:276-277 | shifting an octet in appends its bits although the 32-bit register wraps |
| `Base32.TakeDigit` | frontend/src/utils/index.ts:281-282 | the five bits read are the next group and the bits kept stay right |
| `Base32.RoundTrip` | frontend/src/utils/index.ts:264-292 | the text decodes to the bytes |
| `Base32.TestVectors` | frontend/src/utils/index.ts:264-292 | the first two test vectors of section 10 of RFC 4648 |
| `KeyBase64.CodeIsAlphabet` | frontend/src/utils/index.ts:723-727 | the branch-free character arithmetic is the alphabet table |
| `KeyBase64.TripleSextets` | frontend/src/utils/index.ts:715-720 | three octets make the four sextets of section 4 of RFC 4648 |
| `KeyBase64.EncodeBase64` | frontend/src/utils/index.ts:713-729 | writes the four characters of a group, missing octets read as zero, nothing else changed |
| `KeyBase64.KeyToBase64` | frontend/src/utils/index.ts:731-742 | 43 characters of the first 33 bytes and one padding character |
| `KeyBase64.KeyEncoding` | frontend/src/utils/index.ts:731-742 | for a 32-byte key that is its base64 encoding, final short group included |
| `KeyBase64.KeyRoundTrip` | frontend/src/utils/index.ts:731-742 | the padded text that encodes any octets, a key among them, decodes to them: alphabet, sextets and padding undone |
| `KeyBase64.TestVectors` | frontend/src/utils/index.ts:713-742 | three test vectors of section 10 of RFC 4648 |
| `Json.SortedKeysAscend` | internal/xray/hot_diff.go:270-272 | canonical text lists object keys in strictly ascending byte order |
| `Json.RenderUnique` | internal/xray/hot_diff.go:270-291 | a rendered value ends where it must: two texts that agree hold the same value and the same rest |
| `Json.RenderInjective` | internal/xray/hot_diff.go:270-291 | different values have different canonical texts |
| `Json.Rendered` | internal/xray/hot_diff.go:270-291 | a list in canonical text, escapes and digits as they are |
| `Json.RenderedObject` | internal/xray/hot_diff.go:270-291 | an object in canonical text, keys in order |
| `RawJson.RawEqualIsMeaning` | internal/xray/hot_diff.go:248-268 | normalized equality holds exactly for equal values up to key order and space, absent being null, or for equal unparsable bytes |
| `RawJson.RawEqualExactly` | internal/xray/hot_diff.go:248-268 | two sections are equal exactly if their texts are, or they decode to one value, an absent one being null |
| `RawJson.RawEqualEquivalence` | internal/xray/hot_diff.go:248-268 | normalized equality is an equivalence relation |
| `HandlerDiff.DiffTransforms` | internal/xray/hot_diff.go:102-133 | removals then additions all succeed and take the old handlers to the new ones |
| `HandlerDiff.AddedItems` | internal/xray/hot_diff.go:112-133 | an added handler is a new one whose tag did not exist or meant something else |
| `HandlerDiff.RemovedMeaning` | internal/xray/hot_diff.go:102-111 | a tag is removed exactly when its handler is gone or changed |
| `HandlerDiff.NoOperations` | internal/xray/hot_diff.go:102-133 | no operation exactly when both lists run the same handlers |
| `HandlerDiff.DiffReconciles` | internal/web/service/xray.go:969-1042 | from any core, missing handlers ignored and taken tags freed, the operations end in the new handlers exactly when the core differs from the old list at most under tags whose handler changes |
| `HandlerDiff.PlaceIsFree` | internal/web/service/xray.go:967-994 | with removals first no handler is added while anything that runs holds its place, even where handlers swap places |
| `HotDiffs.SectionsDecide` | internal/xray/hot_diff.go:45-67 | the table of static sections is equal exactly if each of the twelve sections means the same in both configurations, by its own name |
| `HotDiffs.InboundEqualIsMeaning` | internal/xray/hot_diff.go:238-246 | inbound equality is equality of tag, port and protocol and of the meanings of listen, settings, stream settings and sniffing |
| `HotDiffCode.HotDiff.DiffInbounds` | internal/xray/hot_diff.go:90-135 | refuses exactly when tags cannot be addressed, the api inbound is touched or a new inbound cannot be marshalled |
| `HotDiffCode.HotDiff.ChangedInbounds` | internal/xray/hot_diff.go:102-119 | the first loop fills removals and replacements in order, or a restart is needed |
| `HotDiffCode.HotDiff.NewInbounds` | internal/xray/hot_diff.go:120-133 | the second loop appends the inbounds whose tag is new, or a restart is needed |
| `HotDiffCode.HotDiff.DiffOutbounds` | internal/xray/hot_diff.go:141-185 | refuses exactly when a list cannot be parsed or the default outbound changes |
| `HotDiffCode.HotDiff.OutboundLoops` | internal/xray/hot_diff.go:169-183 | fills outbound removals and additions in order |
| `HotDiffCode.HotDiff.DiffRouting` | internal/xray/hot_diff.go:191-213 | keeps the new section exactly when only rules and balancers differ |
| `HotDiffCode.InboundsByTag` | internal/xray/hot_diff.go:295-308 | succeeds exactly when tags are neither empty nor repeated, and indexes every inbound |
| `HotDiffCode.ParseOutboundList` | internal/xray/hot_diff.go:319-350 | the parsed entries in order, or nothing when one cannot be addressed |
| `HotDiffCode.StaticSectionsEqual` | internal/xray/hot_diff.go:45-67 | all twelve sections without a reload API mean the same |
| `HotDiffCode.ComputeHotDiff` | internal/xray/hot_diff.go:36-85 | computes the specified diff, or refuses exactly when there is none |
| `HotDiffCode.HotDiff.Empty` | internal/xray/hot_diff.go:24-30 | holds exactly for the diff without operations |
| `DiffConditions.RemovedExactly` | internal/xray/hot_diff.go:102-111 | a tag is removed exactly for an old inbound that is not, by its fields, in the new list |
| `DiffConditions.AddedExactly` | internal/xray/hot_diff.go:112-133 | an inbound is added exactly if it is in the new list and not, by its fields, in the old one |
| `DiffConditions.InboundsExactly` | internal/xray/hot_diff.go:90-135 | inbounds can be changed hot exactly if tags are usable and distinct, no inbound under the api tag changes, and what is new can be marshalled |
| `DiffConditions.OutboundsExactly` | internal/xray/hot_diff.go:319-350 | outbounds can be read exactly if each has a usable tag of its own and a value |
| `DiffConditions.DefaultExactly` | internal/xray/hot_diff.go:141-167 | and changed hot exactly if both lists are empty or start with outbounds of one tag that mean the same |
| `DiffConditions.OutboundRemovedExactly` | internal/xray/hot_diff.go:169-183 | a tag is removed exactly for an old outbound that the new section has not, by tag and meaning |
| `DiffConditions.OutboundAddedExactly` | internal/xray/hot_diff.go:169-183 | an outbound is added, in its own text, exactly if the old section has it not |
| `DiffConditions.RoutingExactly` | internal/xray/hot_diff.go:191-233 | routing can be changed hot exactly if the texts are equal, both are null, or both are objects that agree on every key but `rules` and `balancers` |
| `DiffConditions.DiffExistsExactly` | internal/xray/hot_diff.go:36-85 | a change needs no restart exactly if log, dns, transport, policy, api, stats, reverse, fakedns, observatory, burstObservatory, metrics and geodata mean the same and inbounds, outbounds and routing allow it |
| `HotApply.OutboundsTransform` | internal/web/service/xray.go:975-987 | the outbound operations succeed on a running list, keep its default where it is, and give the new handlers exactly when it differs from the old list at most under changed tags |
| `HotApply.RoutingTransforms` | internal/xray/hot_diff.go:187-233 | replacing rules and balancers gives the new section, the rest being equal already; it can be done exactly when the text is one JSON object |
| `HotApply.StaleCoreReconciled` | internal/web/service/xray.go:969-1042 | a diff applied to a core whose handlers were changed behind the panel's back succeeds exactly when its routing text is one JSON object, and gives a core running the new configuration exactly when the changes were confined to handlers the diff names |
| `HotApply.HotApplyTransforms` | internal/web/service/xray.go:943-1003 | applying a diff to any core running the old configuration gives one running the new; it succeeds exactly when the routing text, if any, is one JSON object |
| `HotApply.PortsNeverCollide` | internal/web/service/xray.go:967-994 | if the new inbounds listen on distinct addresses, no running inbound listens on that of an inbound at the moment it is added, port swaps included |
| `HotApply.UnknownHandlerStays` | internal/web/service/xray.go:969-994 | an inbound that neither configuration has survives the diff |
| `HotApply.NothingRetried` | internal/web/service/xray.go:1005-1042 | from such a core no removal meets a missing handler and no addition a taken tag |
| `HotApply.DiffIsMinimal` | internal/xray/hot_diff.go:90-185 | removals name running handlers that change or go, additions are new; the api inbound and the default outbound are in no operation |
| `HotApply.EmptyDiff` | internal/xray/hot_diff.go:24-30 | an empty diff means the same handlers and the same routing text to the byte |
| `HotApply.RoutingIsHotExactly` | internal/xray/hot_diff.go:191-213 | the routing change needs no restart exactly when the texts are equal, or both are non-empty and agree on all but rules and balancers |
| `HotApply.RoutingAloneDecides` | internal/xray/hot_diff.go:36-85 | when nothing else changes its meaning the diff names no handler, and a restart is needed exactly when the routing sections cannot be exchanged |
| `HotApply.ReformattingRestarts` | internal/xray/hot_diff.go:36-85 | a configuration that changed in JSON formatting only forces a restart exactly when the routing texts differ and one is empty or they hold neither an object nor null |
| `HotApply.NullRoutingRestarts` | internal/xray/hot_diff.go:197-199 | a routing section left out against one written as null: equal in meaning, and a restart |
| `HotApply.SpacedRoutingIsAnOperation` | internal/xray/hot_diff.go:191-213 | a space in the routing section is an operation to carry out |
| `HotApply.TrailingTextCannotApply` | internal/xray/hot_diff.go:217-225 | text after the routing object: the diff exists and cannot be carried out |
| `HotApply.SnapshotTracksCore` | internal/xray/process.go:283-288 | over any chain of hot applies and restarts the stored configuration is what runs |
| `WebSocketModel.StepKeepsInv` | frontend/src/api/websocket.ts:39-284 | every event keeps: one live socket at most and it is the current one, one timer at most and then nothing is live, attempts and delays bounded |
| `WebSocketModel.RunKeepsInv` | frontend/src/api/websocket.ts:39-284 | so does every run |
| `WebSocketModel.SafeStates` | frontend/src/api/websocket.ts:39-284 | in every reachable state two live sockets are one, two timers are one, a timer excludes a live socket and is at most 75 s |
| `WebSocketModel.StaleEventsIgnored` | frontend/src/api/websocket.ts:124-166 | an event of a superseded socket changes nothing but that socket |
| `WebSocketModel.NoSocketAfterDisconnect` | frontend/src/api/websocket.ts:50-68 | after disconnect no socket is constructed and no timer set until connect |
| `WebSocketModel.ConnectTries` | frontend/src/api/websocket.ts:39-48 | connect keeps a live socket, opens one, or leaves a timer when the constructor throws |
| `WebSocketModel.NeverStranded` | frontend/src/api/websocket.ts:153-166 | after connect and until disconnect there is always a socket yet to close or a timer to open the next |
| `WebSocketModel.BackOff` | frontend/src/api/websocket.ts:244-274 | after n failed attempts in a row, the constructor throwing or the new socket closing unopened in any mix, one timer is pending with the back-off of attempt n |
| `WebSocketModel.BaseDelays` | frontend/src/api/websocket.ts:253-262 | base delays double from 1 s, stop at 30 s and are 60 s once attempts are used up |
| `WebSocketModel.DelaySpread` | frontend/src/api/websocket.ts:253-263 | a delay is three quarters of its base and, by the random number, up to half of it more |
| `WebSocketModel.AttemptsCount` | frontend/src/api/websocket.ts:124-274 | over all runs the attempts are the retries scheduled since the current socket last opened, since disconnect or since the start, up to ten |
| `WebSocketModel.OpenMeansNoAttempts` | frontend/src/api/websocket.ts:124-133 | in every reachable state with an open current socket no attempt is counted |
| `WebSocketModel.FirstRetryIsFast` | frontend/src/api/websocket.ts:124-274 | however many attempts it took to open, the first retry after an open socket drops has the base delay of one second |
| `WebSocketModel.LagStep` | frontend/src/api/websocket.ts:39-202 | the connected flag never misses an open socket; which events make it lag behind one and which set it right, exactly |
| `WebSocketModel.FlagLagsExactly` | frontend/src/api/websocket.ts:39-202 | over all runs: the flag is set without an open current socket exactly when that socket began to close and nothing has set the flag right since |
| `WebSocketModel.ConnectUnderFlag` | frontend/src/api/websocket.ts:39-48 | connect leaves the flag set over a connecting socket exactly when it was set and no socket was live |
| `WebSocketModel.StaleConnectedFlag` | frontend/src/api/websocket.ts:39-48 | a run after which the connected flag is set while the current socket is connecting |
| `WebSocketCode.WebSocketClient.DoConnect` | frontend/src/api/websocket.ts:39-48 | takes the connect step of the model |
| `WebSocketCode.WebSocketClient.DoDisconnect` | frontend/src/api/websocket.ts:50-68 | takes the disconnect step |
| `WebSocketCode.WebSocketClient.OpenNewSocket` | frontend/src/api/websocket.ts:107-122 | constructs the current socket or schedules a retry when that throws |
| `WebSocketCode.WebSocketClient.OnOpen` | frontend/src/api/websocket.ts:124-133 | takes the step of a socket opening |
| `WebSocketCode.WebSocketClient.OnMessage` | frontend/src/api/websocket.ts:184-202 | closes the current socket on a payload above ten mebibytes and changes nothing otherwise |
| `WebSocketCode.WebSocketClient.OnClose` | frontend/src/api/websocket.ts:153-166 | takes the step of a socket closing |
| `WebSocketCode.WebSocketClient.OnTimer` | frontend/src/api/websocket.ts:265-273 | takes the step of the timer firing |
| `WebSocketCode.WebSocketClient.Schedule` | frontend/src/api/websocket.ts:244-274 | replaces the timer by one with the next back-off |
| `WebSocketCode.WebSocketClient.CancelTimer` | frontend/src/api/websocket.ts:276-283 | cancels the recorded timer |
| `MtgConfig.FingerprintSound` | internal/mtproto/manager.go:51-66 | instances without separators that share a fingerprint share the generated TOML |
| `MtgConfig.RenderExactly` | internal/mtproto/manager.go:338-371 | the generated TOML is the same exactly for the same metrics port and settings that mean the same: secret, address, flags, address options, fronting port if positive, route if on |
| `MtgConfig.EveryLine` | internal/mtproto/manager.go:338-371 | the file of an inbound with every option on, each setting under its key |
| `MtgConfig.DebugLineOnly` | internal/mtproto/manager.go:338-371 | the file of an inbound with debugging alone, on every address |
| `MtgConfig.BindExactly` | internal/mtproto/manager.go:43-49 | the address to bind to determines listen address and port, an empty one being 0.0.0.0 |
| `MtgConfig.RenderInjective` | internal/mtproto/manager.go:338-371 | instances that agree on the settings after the address options and generate the same TOML agree on every part of the fingerprint |
| `MtgConfig.AmbiguousExactly` | internal/mtproto/manager.go:51-66 | for every instance: two different TOMLs share its fingerprint exactly when an address option contains the separator or the leading segments have another reading |
| `MtgConfig.PlainLeadingOneReading` | internal/mtproto/manager.go:51-66 | without a separator in its strings an instance has no other reading |
| `MtgConfig.ListenAndSecretAmbiguous` | internal/mtproto/manager.go:51-66 | two settings that differ in listen address, port and secret, share a fingerprint and generate different files |
| `MtgConfig.AddressOptionsAmbiguous` | internal/mtproto/manager.go:51-66 | two settings that differ in the address options alone, share a fingerprint and generate different files |
| `MtgManager.EnsureKeepsInv` | internal/mtproto/manager.go:177-207 | every running process is managed, by one entry |
| `MtgManager.ReconcileConverges` | internal/mtproto/manager.go:221-244 | managed ids become the desired ones whose process matched or started, with the desired fingerprint; a matching process and its baselines stay |
| `MtgManager.ReconcileRestarts` | internal/mtproto/manager.go:177-244 | at each desired id a live process of the desired fingerprint is kept with its baselines under the desired tag; anything else, a crashed process among it, is replaced by a new live process, or dropped if that cannot be started |
| `MtgManager.ReconcileStops` | internal/mtproto/manager.go:221-244 | whatever runs afterwards is new or ran before for a desired id with its fingerprint, and is managed |
| `MtgManager.ReconcileIdempotent` | internal/mtproto/manager.go:221-244 | a repeat without crashes is a no-op exactly when no start that failed before now succeeds |
| `MtgManager.Manager.EnsureLocked` | internal/mtproto/manager.go:177-207 | keeps and retags a matching entry, or stops it and starts a fresh one; fails exactly when the start does |
| `MtgManager.Manager.Remove` | internal/mtproto/manager.go:210-219 | stops and forgets the entry |
| `MtgManager.Manager.StopExtra` | internal/mtproto/manager.go:232-238 | stops exactly the unwanted processes, in any order of the map |
| `MtgManager.Manager.ReconcileAll` | internal/mtproto/manager.go:224-244 | stops what is unwanted, then ensures every desired instance in turn |
| `MtgManager.Manager.Snapshot` | internal/mtproto/manager.go:270-286 | every running entry once, with its baseline |
| `MtgManager.Manager.WriteBack` | internal/mtproto/manager.go:294-317 | stores the readings if the id is still managed and reports the clamped delta |
| `MtgTraffic.EnsureAllInAgrees` | internal/mtproto/manager.go:239-243 | the machine's management steps are the manager's own operations |
| `MtgTraffic.WriteBackCredits` | internal/mtproto/manager.go:294-317 | a write-back credits the scraped process with the clamped delta and no other |
| `MtgTraffic.CreditedWithinReading` | internal/mtproto/manager.go:294-317 | no process is ever credited past the reading the delta came from, inherited baseline or not |
| `MtgTraffic.EvolvesKeepsInv` | internal/mtproto/manager.go:177-244 | management, crashes and traffic at any moment keep planned scrapes safe |
| `MtgTraffic.StepKeepsInv` | internal/mtproto/manager.go:177-320 | every step keeps the invariant |
| `MtgTraffic.ReportsBounded` | internal/mtproto/manager.go:257-320 | in every interleaving reported deltas are never negative and their total per inbound never exceeds what its processes counted |
| `MtgTraffic.RunKeepsSteady` | internal/mtproto/manager.go:177-320 | while an entry keeps its process every prefix of a run credits that process its present baseline minus its first |
| `MtgTraffic.SteadyReportsExact` | internal/mtproto/manager.go:257-320 | over any run of the collector that starts with a fresh entry and does not replace its process, the reports of that process add up to its present baseline minus its first |
| `MtgTraffic.ReportsTagged` | internal/mtproto/manager.go:257-320 | in every interleaving each report carries the tag under which its process ran when its scrape was planned |
| `Bytes.TrimMeaning` | internal/mtproto/process.go:92 | trimming cuts white space, all of it and nothing else, off both ends |
| `Bytes.SpaceExactly` | internal/mtproto/process.go:92 | white space is exactly the encodings of the runes with the Unicode property White_Space |
| `Bytes.ReturnsAbsorbed` | internal/mtproto/process.go:92 | the separate trim of carriage returns makes no difference |
| `LogWriter.PiecesJoin` | internal/mtproto/process.go:67-74 | pieces are newline-free and give the text back when joined |
| `LogWriter.PiecesUnique` | internal/mtproto/process.go:67-74 | there is no other way to cut the text |
| `LogWriter.PiecesConcat` | internal/mtproto/process.go:66-75 | only the unfinished piece meets what comes next |
| `LogWriter.WriteTwice` | internal/mtproto/process.go:63-77 | two writes are one write of both chunks |
| `LogWriter.ChunkingIrrelevant` | internal/mtproto/process.go:63-104 | however the stream is cut, the log holds its trimmed non-blank lines in order, the buffer the newline-free tail, the last line the last of them |
| `LogWriter.LoggedLines` | internal/mtproto/process.go:91-98 | every logged line is a line of the stream without the white space at its ends |
| `LogWriter.BlankDropped` | internal/mtproto/process.go:92-95 | a line is dropped exactly when it is made of white space |
| `LogWriter.LineLogged` | internal/mtproto/process.go:91-98 | a further line adds exactly its trimmed text, or nothing if it is made of white space |
| `LogWriter.ProcLogWriter.Write` | internal/mtproto/process.go:63-77 | emits the finished lines and keeps the rest |
| `LogWriter.ProcLogWriter.Flush` | internal/mtproto/process.go:81-89 | emits the unfinished line and empties the buffer |
| `LogWriter.ProcLogWriter.Emit` | internal/mtproto/process.go:91-98 | logs and remembers the trimmed line unless it is blank |
| `ProxyNames.CandidateInjective` | internal/sub/clash_service.go:122-127 | no two numbered candidates of a base are equal |
| `ProxyNames.TakenNameTried` | internal/sub/clash_service.go:122-127 | each failed attempt uses up one of the finitely many taken names, so the unbounded loop ends |
| `ProxyNames.EachFirstFree` | internal/sub/clash_service.go:114-131 | each name is its base or base-n with the least n from 2 that no earlier proxy has |
| `ProxyNames.NamesUnique` | internal/sub/clash_service.go:110-131 | all names end non-empty and pairwise distinct |
| `ProxyNames.NamesDetermined` | internal/sub/clash_service.go:114-131 | being first free in order determines the names |
| `ProxyNames.UniqueUnchanged` | internal/sub/clash_service.go:114-131 | a list is unchanged exactly when its names are already distinct |
| `ProxyNames.NumberedNames` | internal/sub/clash_service.go:114-131 | three proxies named node become node, node-2 and node-3 |
| `ProxyNames.FallbackNames` | internal/sub/clash_service.go:133-140 | the fallback with a type and a server, and without |
| `ProxyNames.FallbackProxyName` | internal/sub/clash_service.go:133-140 | the fallback is never empty |
| `ProxyNames.PickName` | internal/sub/clash_service.go:117-127 | the loop settles on the first free candidate of the proxy's base |
| `ProxyNames.EnsureUniqueProxyNames` | internal/sub/clash_service.go:114-131 | renames the proxy objects in place to those names and changes nothing else; an object that occurs again asks for the name it was given before |
| `SqliteDump.DumpTableData` | internal/database/dump_sqlite.go:143-176 | appends one INSERT statement per row |
| `SqliteDump.WriteValues` | internal/database/dump_sqlite.go:167-172 | appends the values of a row with commas between them |
| `SqliteDump.QuotedReadsBack` | internal/database/dump_sqlite.go:210-212 | a quoted text ends at its own closing quote and nowhere else, unless it holds a NUL |
| `SqliteDump.HexReadsBack` | internal/database/dump_sqlite.go:198-204 | hexadecimal blobs read back byte for byte |
| `Unicode.Utf8Exactly` | internal/database/dump_sqlite.go:195 | a blob is text exactly if it is a concatenation of encodings of Unicode scalar values (section 3 of RFC 3629) |
| `SqliteDump.LiteralReadsBack` | internal/database/dump_sqlite.go:179-208 | by SQLite's rules a literal ends exactly where it was meant to and means the stored value |
| `SqliteDump.RowReadsBack` | internal/database/dump_sqlite.go:167-172 | a row reads back value by value |
| `SqliteDump.DumpReadsBack` | internal/database/dump_sqlite.go:143-176 | the script reads back as the stored rows in order exactly when no printed text holds a NUL |
| `SqliteDump.NulCutsScript` | internal/database/dump_sqlite.go:143-212 | a row with a NUL text, among any others, makes the script unreadable |
| `SqliteDump.RowsPreservedExactly` | internal/database/dump_sqlite.go:143-208 | the very rows come back exactly for NULL, integers, NUL-free text and blobs that are not text |
| `OnlineSet.GraceWindow` | internal/xray/process.go:392-432 | after any run the local names are exactly those reported within the grace of the latest refresh, clients and inbounds alike |
| `OnlineSet.TreesAreLatest` | internal/xray/process.go:434-454 | a node contributes its last tree and nothing once cleared |
| `OnlineSet.CollectedMeans` | internal/xray/process.go:338-374 | the merged trees hold, per non-empty GUID, the union of what any node reports under it, and no empty list |
| `OnlineSet.Rebuild` | internal/xray/process.go:404-416 | stamps the reported names, prunes the old ones and lists the rest once each |
| `OnlineSet.Process.RefreshLocalOnline` | internal/xray/process.go:398-432 | takes the refresh step and keeps lists and time maps in agreement |
| `OnlineSet.Process.SetNodeOnlineTree` | internal/xray/process.go:438-445 | replaces the node's tree |
| `OnlineSet.Process.ClearNodeOnlineClients` | internal/xray/process.go:450-454 | drops the node's tree |
| `OnlineSet.Process.GetOnlineClients` | internal/xray/process.go:290-323 | each name once that is in the local list or under any GUID of any node's tree, and no other |
| `OnlineSet.Process.GetMergedNodeTrees` | internal/xray/process.go:338-374 | one duplicate-free list per GUID, the collected ones |
| `CounterNames.FormatInjective` | internal/xray/api.go:540-541 | no two counters have one name |
| `CounterNames.NamesRead` | internal/xray/api.go:540-541 | a counter name of each kind, and what it is taken for |
| `CounterNames.MeantIsNamed` | internal/xray/api.go:540-571 | a name is taken for a counter that is named somewhere in it, with a clean label, and for a handler if one is named at all |
| `CounterNames.MeantIsClean` | internal/xray/api.go:540-541 | whatever the expressions capture is not empty and holds no `>` |
| `CounterNames.NamedInName` | internal/xray/api.go:540-541 | where another counter can be named in a name: by the opening of its label, in the end of it, or in its midst, and never across head or tail |
| `CounterNames.ReadsBackExactly` | internal/xray/api.go:540-571 | the name of a counter is taken for that counter exactly when its tag or email is not empty and holds no `>` |
| `CounterNames.MisreadExactly` | internal/xray/api.go:540-571 | it is taken for another counter exactly when its label, from its text alone, opens, closes or holds the name of one |
| `CounterNames.UserTakenForHandler` | internal/xray/api.go:540-571 | a client whose email is the head and tag of a handler is taken for that handler |
| `CounterNames.HonestIsCanonical` | internal/xray/api.go:540-571 | a name whose label does not mislead is taken for its own counter or for none |
| `CounterNames.CanonicalName` | internal/xray/api.go:540-571 | among names that are their own counter's, one name and no other is taken for a counter |
| `CounterNames.ArrowTagUnread` | internal/xray/api.go:540-541 | a tag with a `>` in it whose counter is taken for none |
| `StatsDeltas.AmountConserved` | internal/xray/api.go:633-683 | an account never gets more than the counters read as its own gained in the poll, and gets exactly that unless two of them report and the earlier gained |
| `StatsDeltas.SharedTagLosesTraffic` | internal/xray/api.go:633-657 | a poll in which the bytes of an inbound vanish behind an idle outbound of the same tag |
| `StatsDeltas.ApiExcluded` | internal/xray/api.go:638-640 | the tag api never appears |
| `StatsDeltas.TagRecords` | internal/xray/api.go:642-650 | a record carries its tag and the kind of a counter of that tag that reported |
| `StatsDeltas.EmailRecords` | internal/xray/api.go:664-668 | a client record carries its email |
| `StatsDeltas.OnePoll` | internal/xray/api.go:633-683 | a poll of an inbound and a client, and its two records field by field |
| `StatsDeltas.GainedIsIncreases` | internal/xray/api.go:559-566 | over any polls the deltas of a counter add up to its increases between consecutive observations |
| `StatsDeltas.Telescopes` | internal/xray/api.go:559-566 | for a counter that never drops that is last minus first |
| `StatsDeltas.NeverExceedsCounted` | internal/xray/api.go:556-566 | over any polls of a core that restarts, noticed or not, no counter is reported to have gained more than the core counted |
| `StatsDeltas.GainByNames` | internal/xray/api.go:556-573 | an account gains in a poll what the counters gain whose names are taken for it |
| `StatsDeltas.CreditedExactly` | internal/xray/api.go:556-573 | over any polls an account gets at most all that the counters taken for it gained, and exactly that unless in some poll two of them report and the earlier gained |
| `StatsDeltas.TotalsConserved` | internal/xray/api.go:556-573 | where nothing is overwritten a readable account gets what its own counters and the foreign ones taken for it gained, any other nothing; so it is conserved exactly when the foreign ones gained nothing |
| `StatsDeltas.ForeignMisleads` | internal/xray/api.go:540-571 | a foreign counter is one whose own tag or email misleads |
| `StatsDeltas.HonestTotals` | internal/xray/api.go:556-573 | with no misleading label and no tag shared by an inbound and an outbound every account gets, over all polls, all its counters gained, or nothing when it cannot be read |
| `StatsDeltas.ClientChargedToInbound` | internal/web/service/client_crud.go:29-42 | an email that passes the check and whose five bytes are charged to an inbound without a counter |
| `StatsDeltas.ProcessTraffic` | internal/xray/api.go:633-657 | the aggregation of one handler counter |
| `StatsDeltas.ProcessClientTraffic` | internal/xray/api.go:660-683 | the aggregation of one client counter |
| `StatsDeltas.XrayAPI.GetTraffic` | internal/xray/api.go:535-574 | one poll updates the remembered values and collects the deltas under the counters the names are taken for; a failed query changes nothing |
| `Examples.OneEntryPerField` | tools/openapigen/emit_examples.go:46-52 | an object has an entry for each JSON name and no other, with the value of the last field of that name |
| `ExampleValues.TagsExactly` | tools/openapigen/emit_examples.go:54-69 | a field's tags give exactly: its example as its kind reads it, else the first word of the first rule of enumerated values, else for a number the first lower bound |
| `ExampleValues.ReturnedFits` | tools/openapigen/emit_examples.go:71-105 | a value returned for a type fits it: the zero of its kind, an array of one fitting element or none for a visited reference, an empty object for a map or an unknown or visited reference, null for nullable, what the aliased type gives, or an object whose entries come from their fields |
| `ExampleValues.FitsUnique` | tools/openapigen/emit_examples.go:71-105 | only one value fits a type |
| `ExampleValues.ValueExactly` | tools/openapigen/emit_examples.go:71-105 | where the walk returns it returns the value that fits |
| `ExampleValues.EmittedFits` | tools/openapigen/emit_examples.go:24-27 | the example emitted under a name fits the fields of the last schema of that name |
| `ExampleValues.LastNamed` | tools/openapigen/emit_examples.go:12-19 | a name stands for the last schema or alias of that name |
| `Examples.TypeReturns` | tools/openapigen/emit_examples.go:71-105 | where no circle of aliases can be reached the walk returns however schemas refer to each other: unvisited schemas, alias steps, type size |
| `Examples.SchemaReturns` | tools/openapigen/emit_examples.go:46-52 | so does the walk over a schema's fields |
| `Examples.MoreDepth` | tools/openapigen/emit_examples.go:71-105 | a result does not depend on how deep a run may nest |
| `Examples.LongChainForever` | tools/openapigen/emit_examples.go:93-95 | a chain of aliases longer than their number never ends |
| `Examples.Shortcut` | tools/openapigen/emit_examples.go:96-102 | a way to a circle can be cut short until it enters no schema twice, so the visited schemas do not hide the circle from the walk |
| `Examples.TypeReturnsExactly` | tools/openapigen/emit_examples.go:71-105 | the walk over a type returns exactly when it leads to no circle of aliases |
| `Examples.ReturnsExactly` | tools/openapigen/emit_examples.go:71-105 | it does for every type there could be exactly when there is no circle at all |
| `Examples.SchemaReturnsExactly` | tools/openapigen/emit_examples.go:46-69 | the walk over a schema returns exactly when no field whose tags give no example leads to a circle |
| `Examples.EmitReturnsExactly` | tools/openapigen/emit_examples.go:11-27 | the generator returns exactly when that holds of every schema |
| `Examples.OneExamplePerSchema` | tools/openapigen/emit_examples.go:24-27 | one example for each schema name |
| `Examples.AliasCircleHangs` | tools/openapigen/emit_examples.go:93-95 | an alias of arrays of itself: used by a field it keeps the generator from returning, unused it does not |

## Left out

- Curve theory: that doubling and differential addition are the group law, and that the power 2^255 - 21 is the inverse (primality), is not stated.
- Random numbers, `btoa`/`atob` and `String.fromCharCode`: byte arrays are arbitrary inputs, texts are character codes.
- Field.Carry: the index `(i + 1) % 16` and the factor are written as the two cases of one branch.
- PublicKey.LadderRound: the round and the end of `generatePublicKey` are split into several methods; the order of operations and the aliasing are kept.
- Parsing JSON text: `RawJson.Codec` stands for the library; what it decodes is arbitrary except that numbers are well formed. Duplicate keys are merged by it.
- HotApply.StaleCoreReconciled: the core's API is modelled as map and list operations; that the core refuses a handler for its content, a lost connection, and partially applied operations before a restart are not modelled; drift never touches the default outbound.
- HotDiffCode.HotDiff.DiffInbounds: an added inbound is kept as a record instead of its marshalled text; only the failure of marshalling is modelled.
- WebSocketModel.SafeStates: delays are computed over the reals; the rounding of doubles, being monotone, keeps the bounds.
- WebSocketModel.StepKeepsInv: listeners do not call connect or disconnect; message parsing and dispatch to listeners change no modelled field.
- MtgManager.ReconcileConverges: desired ids are distinct, as they are database keys; a start needs a free port, a written file and a started process, which succeed or fail together; stopping a process always ends it.
- MtgConfig.AmbiguousExactly: `%q` is any quoting under which quoted texts can be told apart.
- MtgTraffic.ReportsBounded: one collector at a time, and a scrape reads the process it was planned for, not one that took over its port.
- Sweeping of orphaned processes, `StopAll`, `/proc` scanning, metric parsing and signals of the mtg manager.
- SqliteDump.DumpReadsBack: table names hold no double quote and no NUL, since they are printed unescaped, and rows have at least one column; floating point values and values of other Go types are not printed; comments and other statements are not read.
- OnlineSet.Process.RefreshLocalOnline: times are unbounded integers; the two identical loops over clients and tags share one method.
- StatsDeltas.XrayAPI.GetTraffic: counters are unbounded integers; the returned slices, whose order is that of a map, are maps.
- Examples.TypeReturns: the parsers of numbers and JSON texts and the splitting of `oneof` parameters into words are parameters.
- gRPC calls, process spawning, database queries, settings, tenants, share links, React pages and logging.
