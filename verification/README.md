# Verified model of the BrowserMesh apps package

This project models the behaviour of four source files of `packages/browsermesh-apps/src` in Dafny and proves
what they promise:

- **The audit trail** (`audit.mjs`). Canonical JSON down to code units and UTF-8 bytes, the signed payload and hash
  of an entry, the hash chain with `verify`, overlapping `append` calls as an event-loop state machine, fork
  detection, Merkle roots and inclusion proofs, and serialisation.
- **The app ecosystem** (`apps.mjs`). The instance lifecycle, the registry and its observers, the store and its
  ranking, RPC over an unreliable network, and the event bus.
- **The agent loop and its tools** (`agent-runtime.mjs`, `compat.mjs`). The tool registry, dispatch, one run of the
  loop, and any number of overlapping runs over one shared conversation.

Code that changes objects or runs loops is a class or a method with a contract that ties it to a specification
function (`Chain`, `AppRegistry`, `AppStore`, `AppRPC`, `AppEventBus`, `BrowserToolRegistry`, `AgentRuntime`, and the
methods of `Fork` and `Merkle`); the theorems are lemmas about those functions. Asynchronous interleaving is modelled
by runs: sequences of enabled steps, one module per protocol (`AppendProtocol`, `AppRpc`, `AgentOverlap`); callbacks
that emit from inside an emit are runs over a stack of emits (`EventNesting`).

Each specification function is also described from outside: texts by readers that do not share its code
(`JsonReader`, the string, UTF-8 and number readers of `JsText`), orders and trees by positions and halves, and state
changes field by field (the lemmas named `...Means`).

## What the environment may do

- SHA-256 is an arbitrary function from byte strings to 32 bytes, passed as the parameter `sha`. It is never assumed
  injective. Each binding result names a collision by a computable function (`BindingCollision`, `ForkCollision`,
  `InclusionCollision`, `RootCollision`); the two strings are payloads or node inputs that the computation hashes.
- Signature checking is an arbitrary function of author, signature and payload, the parameter `check`; it stands for
  key lookup, key import and Ed25519 together.
- `encodeBase64url` and `decodeBase64url` are not part of the repository. The codec is written out after section 5 of
  RFC 4648 without padding; text outside the alphabet is assumed to be refused.
- A finite number is identified with its ECMAScript decimal text; `sequence` and `timestamp` are integers written in
  plain decimal. Clock readings, handler results, tool results, `llmFn` answers, the requests of callbacks, and
  what other code pushes or registers while a call awaits are inputs, quantified over.
- An object value is the list of assignments that built it, a later assignment to a key replacing an earlier one.

- Runs of overlapping `append` calls start from any list of entries, as `fromJSON` leaves them. The steps of a call may
  be interleaved wherever the source might await; on an empty chain a call in fact reads and drafts in one step.

## Findings

Where code and expectation differ the model follows the code.

- `canonicalJSON` rebuilds each object by plain assignment, so an own property named `__proto__` (which `JSON.parse`
  can create) becomes the prototype and is neither signed nor hashed (`CanonicalJson.ProtoIsInvisible`).
  `CanonicalJson.CanonicalJSONExact` says exactly which values share a canonical text.
- Two different strings can have the same UTF-8 encoding (`JsText.Utf8IsLossy`), but signed payloads never do, because
  `JSON.stringify` escapes lone surrogates.
- Any two overlapping `append` calls break an accepted chain for good (`AppendProtocol.OverlapBreaksChain`,
  `OverlapRejectedForever`); `AppendProtocol.OverlapOnEmptyChain` is the shortest such run, and `HonestRunVerdict` the
  exact condition.
- `toJSON` drops a zero-length signature; `AuditChain.SerialisationKeepsVerdict` says exactly when the verdict survives.
- `verifyMerkleProof` ignores its index. A proof shorter than the tree is accepted for an inner node
  (`Merkle.InnerNodeAccepted`, with `Merkle.NodeSound` as the converse), and the root does not fix the number of entries
  (`Merkle.RepeatedLast`). A verifier
  that hashes an entry itself is safe without knowing the depth, provided it accepts only 32-byte siblings: a step
  with a longer sibling can spell out the payload of an entry, such a proof is accepted, and there is no other way to
  be fooled short of a collision (`Merkle.InclusionSound`, `Merkle.SpellingProofAccepted`). `Merkle.RootBinding` says
  exactly what equal roots mean.
- An RPC handler that throws an empty or missing message resolves the caller with `null` (`AppRpc.RejectedExactly`).
- `AppRegistry.update` on a paused, stopped or failed app changes its state without telling observers
  (`AppRegistry.SilentChangeExactly`); the installed and running sets still stay exact.
- A spec offered by a tool whose `name` differs from `spec.name` is never dispatched to that tool
  (`ToolRegistry.OfferedDispatchExactly`).
- `off` with the original callback does not cancel a `once` subscription (`EventBus.OnceWaitsExactly`).
- A `once` listener is called twice when a callback emits the same event again before the listener's turn
  (`EventNesting.CalledTwice`). `EventNesting.TwiceExactly` says exactly when, and without such nesting once means once
  (`EventNesting.UnnestedOnce`, `EventBus.OnceFate`).

## Model

| member | source | states |
|---|---|---|
| JsText.QuoteTailInjective | packages/browsermesh-apps/src/audit.mjs:52 | JSON string quoting is a prefix code: the string and the text after it can be read back |
| JsText.ReadQuoteTail | packages/browsermesh-apps/src/audit.mjs:52 | a standard JSON string reader gets back the quoted string and what follows it |
| JsText.EscapeForms | packages/browsermesh-apps/src/audit.mjs:52 | which units are written as they are, with two units, or as six in lower case |
| JsText.QuotePlain | packages/browsermesh-apps/src/audit.mjs:52 | text without quotes, backslashes, control characters and lone surrogates stands unchanged between the quotes |
| JsText.LexIsFirstDifference | packages/browsermesh-apps/src/audit.mjs:58 | the sort order decides at the first unit where two keys differ, or by proper prefix |
| JsText.Utf8Injective | packages/browsermesh-apps/src/audit.mjs:73-76 | TextEncoder loses nothing on well-formed UTF-16 |
| JsText.Utf8Read | packages/browsermesh-apps/src/audit.mjs:73-76 | a standard UTF-8 reader gets back the text, with U+FFFD for lone surrogates |
| JsText.Utf8IsLossy | packages/browsermesh-apps/src/audit.mjs:73-76 | on arbitrary strings TextEncoder is not injective |
| Base64url.RoundTrip | packages/browsermesh-apps/src/audit.mjs:190-210 | decoding undoes encoding for every byte string |
| Base64url.Alphabet | packages/browsermesh-apps/src/audit.mjs:54 | the letters are A to Z, a to z, 0 to 9, minus, underscore |
| Base64url.EncodeMeans | packages/browsermesh-apps/src/audit.mjs:54 | each three bytes are the four letters of the same number; one or two last bytes are shifted by four or two bits |
| CanonicalJson.PrintInjective | packages/browsermesh-apps/src/audit.mjs:51-65 | the printed form of a normalised value, followed by nothing or a delimiter, determines the value |
| CanonicalJson.CanonicalJSONExact | packages/browsermesh-apps/src/audit.mjs:51-65 | two values print identically if and only if they agree up to key order, byte-array text, null-like values and invisible properties |
| CanonicalJson.KeyOrderIrrelevant | packages/browsermesh-apps/src/audit.mjs:56-62 | reordering the properties of an object never changes the text |
| CanonicalJson.ProtoIsInvisible | packages/browsermesh-apps/src/audit.mjs:57-61 | an own `__proto__` property never reaches the text |
| CanonicalJson.PrintWellFormed | packages/browsermesh-apps/src/audit.mjs:51-65 | every canonical text is well-formed UTF-16 |
| JsonReader.PrintRead | packages/browsermesh-apps/src/audit.mjs:51-65 | a strict JSON reader without white space gets back exactly what was printed |
| JsonReader.PrecedesMeans | packages/browsermesh-apps/src/audit.mjs:58-60 | keys ascend: array indices first and by number, then the others by their first differing unit |
| JsonReader.CanonicalTextMeans | packages/browsermesh-apps/src/audit.mjs:51-65 | reading the canonical text of any value gives the JSON expected for it: each key once, in ascending order, with the value last assigned to it, nothing undefined, and byte arrays as base64url |
| AuditEntry.PayloadExact | packages/browsermesh-apps/src/audit.mjs:159-177 | equal payload bytes if and only if all six signed fields agree, data up to key order |
| AuditEntry.PayloadReads | packages/browsermesh-apps/src/audit.mjs:159-168 | the signed text is a JSON object of exactly the named six fields in ascending order, data left out when undefined |
| AuditEntry.IntNumeralReads | packages/browsermesh-apps/src/audit.mjs:161-166 | sequence and timestamp are written in decimal with an optional minus sign |
| AuditEntry.PayloadLongerThanNode | packages/browsermesh-apps/src/audit.mjs:159-168 | a payload is longer than the 64 bytes hashed for an inner Merkle node |
| AuditEntry.EntryRoundTrip | packages/browsermesh-apps/src/audit.mjs:184-212 | reading back a serialised entry loses exactly a zero-length signature |
| AuditEntry.JsonIsSigned | packages/browsermesh-apps/src/audit.mjs:159-192 | the serialised form without its signature has the signed payload as its canonical text, and its signature text decodes to the signature |
| AuditEntry.FromJsonMeans | packages/browsermesh-apps/src/audit.mjs:200-210 | reading an entry fails exactly when a text does not decode, and takes every other field as it is |
| AuditChain.VerdictFrom | packages/browsermesh-apps/src/audit.mjs:289-333 | valid if and only if every entry passes; otherwise failedAt and error are those of the first failing entry |
| AuditChain.AcceptedMeans | packages/browsermesh-apps/src/audit.mjs:289-333 | accepted if and only if every entry has its position as sequence, the hash of the entry before (32 zero bytes at first), and a signature for which the check holds |
| AuditChain.EntryErrorMeans | packages/browsermesh-apps/src/audit.mjs:293-329 | which of the four errors an entry gets, with the checks in their order |
| AuditChain.PrefixVerdict | packages/browsermesh-apps/src/audit.mjs:289-333 | accepted chains are closed under prefixes, and failedAt is the least n whose prefix of length n + 1 is rejected |
| AuditChain.VerdictExtend | packages/browsermesh-apps/src/audit.mjs:278-333 | pushing an entry never repairs a rejected chain and extends an accepted one only if the entry checks out |
| AuditChain.ChainBinding | packages/browsermesh-apps/src/audit.mjs:289-333 | a hash shared by two accepted chains fixes its position and everything signed before it, or a collision is extracted |
| AuditChain.TamperLocated | packages/browsermesh-apps/src/audit.mjs:289-333 | changing what a non-last entry signed makes verify fail there or at the next entry, or gives a collision |
| AuditChain.ForgeryLocated | packages/browsermesh-apps/src/audit.mjs:306-329 | replacing a signature by one that does not verify, or removing it, gives exactly that error at exactly that entry |
| AuditChain.SerialisationKeepsEntries | packages/browsermesh-apps/src/audit.mjs:372-391 | fromJSON after toJSON keeps all hashes, and keeps the entries if and only if no signature is empty |
| AuditChain.SerialisationKeepsVerdict | packages/browsermesh-apps/src/audit.mjs:289-391 | the verdict is the same after serialisation if and only if no empty signature lies before the first failing entry, nor at it when its signature is what fails |
| AuditChain.SerialisationKeepsPlace | packages/browsermesh-apps/src/audit.mjs:289-391 | when no empty signature verifies, serialisation keeps the valid flag and failedAt of every chain |
| AuditChain.AcceptedAfterSerialisation | packages/browsermesh-apps/src/audit.mjs:372-391 | an accepted chain is accepted after serialisation if and only if no signature is empty |
| AuditChain.EntriesFromJsonMeans | packages/browsermesh-apps/src/audit.mjs:385-391 | entries are read one by one in order, and the list is refused exactly when one cannot be read |
| AuditChain.Chain.Create | packages/browsermesh-apps/src/audit.mjs:234-239 | an empty chain id is refused; otherwise a fresh empty chain |
| AuditChain.Chain.Append | packages/browsermesh-apps/src/audit.mjs:260-280 | uninterrupted append adds one linked entry, or nothing when the signer rejects, and the new verdict is determined |
| AuditChain.Chain.Verify | packages/browsermesh-apps/src/audit.mjs:289-333 | the loop, run without interruption, returns the verdict of the first failing check, and accepts exactly the chains whose every entry is in place, linked and verified by the check |
| AuditChain.Chain.VerifyWhileAppending | packages/browsermesh-apps/src/audit.mjs:289-333 | with entries pushed at any of its awaits, verify returns the verdict on the chain as it stands when it returns, accepts exactly when every entry then is in place, linked and verified, and changes nothing itself |
| AuditChain.Chain.FromJSON | packages/browsermesh-apps/src/audit.mjs:385-391 | reads all entries back in order, or refuses |
| AppendProtocol.CallReadsStart | packages/browsermesh-apps/src/audit.mjs:261-264 | at any later time a pending append still holds the length and last hash of the chain at its start |
| AppendProtocol.CallEndsOnce | packages/browsermesh-apps/src/audit.mjs:260-280 | a call pushes or fails at most once and does nothing afterwards |
| AppendProtocol.StaleBySequence | packages/browsermesh-apps/src/audit.mjs:260-280 | another push fell between start and push if and only if the pushed sequence is below the current length |
| AppendProtocol.RunVerdict | packages/browsermesh-apps/src/audit.mjs:260-333 | in every interleaving, from any chain, the verdict is the first fault among the old entries and then the pushes: a stale or badly signed push, at the position where it landed |
| AppendProtocol.HonestRunVerdict | packages/browsermesh-apps/src/audit.mjs:260-333 | with correct signers the chain verifies if and only if it did at first and no push was stale |
| AppendProtocol.NeverRepaired | packages/browsermesh-apps/src/audit.mjs:260-333 | once verify fails it gives the same answer in every later state |
| AppendProtocol.FirstStaleReported | packages/browsermesh-apps/src/audit.mjs:260-333 | the first stale push onto an accepted chain gives 'sequence mismatch' at its index, then and ever after |
| AppendProtocol.OverlapBreaksChain | packages/browsermesh-apps/src/audit.mjs:260-333 | two calls that started since the last push onto an accepted chain, in any order and among any other steps: the chain is accepted after the first push and fails with 'sequence mismatch' at the second |
| AppendProtocol.OverlapRejectedForever | packages/browsermesh-apps/src/audit.mjs:260-333 | a push between the start and the push of another call makes every later state of any run fail to verify |
| AppendProtocol.OverlapPossible | packages/browsermesh-apps/src/audit.mjs:260-333 | from any accepted state two new calls can overlap so |
| AppendProtocol.OverlapOnEmptyChain | packages/browsermesh-apps/src/audit.mjs:260-333 | the six-step run in which a second first call starts while the first awaits its signature is rejected at index 1 |
| AppendProtocol.StaleForks | packages/browsermesh-apps/src/audit.mjs:481-522 | the first stale entry shares its sequence with an earlier one, and detectFork reports it when they hash differently |
| AppendProtocol.UninterruptedAppend | packages/browsermesh-apps/src/audit.mjs:260-280 | the three steps in a row add the entry that append builds |
| Fork.GroupBySequence | packages/browsermesh-apps/src/audit.mjs:485-491 | the map holds exactly the non-empty groups, in order |
| Fork.CollectBranches | packages/browsermesh-apps/src/audit.mjs:507-512 | branches are keyed by hash in order of first occurrence and hold the matching entries in order |
| Fork.DetectFork | packages/browsermesh-apps/src/audit.mjs:481-522 | the branches at the least sequence number with different hashes, or nothing if there is none |
| Fork.ForkInOrder | packages/browsermesh-apps/src/audit.mjs:485-518 | by position in the input: each branch lists its entries in order, branches are ordered by first position, equal hashes share a branch, and no entry of the forked sequence is missing |
| Fork.BranchesPartition | packages/browsermesh-apps/src/audit.mjs:505-518 | every entry of the forked group is in exactly one branch, shared exactly by the entries with its key |
| Fork.SilentExactly | packages/browsermesh-apps/src/audit.mjs:481-522 | null if and only if entries with equal sequence numbers have equal hashes |
| Fork.NeverRejoin | packages/browsermesh-apps/src/audit.mjs:289-333 | accepted chains that once sign different things never sign the same thing again |
| Fork.ForkIsLongestCommonPrefix | packages/browsermesh-apps/src/audit.mjs:481-522 | for two accepted chains mixed in any order: null if and only if one extends the other, else the last common position and exactly two branches, or a collision |
| Fork.ForkOfTwoChains | packages/browsermesh-apps/src/audit.mjs:481-522 | for one accepted chain followed by another: null if one extends the other, else the last common position and the two next entries in this order |
| Merkle.BuildMerkleRoot | packages/browsermesh-apps/src/audit.mjs:537-555 | the layer loop computes the layered root; zero bytes for no entries |
| Merkle.SmallRoots | packages/browsermesh-apps/src/audit.mjs:538-540 | 32 zero bytes for no entries, and the hash of the payload for one |
| Merkle.RootOfHalves | packages/browsermesh-apps/src/audit.mjs:537-555 | for two lists of equal length 2^k the root of the whole is sha(left root + right root), in this order |
| Merkle.RootByHalves | packages/browsermesh-apps/src/audit.mjs:537-555 | for any larger list the root is the hash of the root of the first 2^k and the root of the rest, which is hashed with itself up to the same height |
| Merkle.RootIsClampedTree | packages/browsermesh-apps/src/audit.mjs:542-554 | the layered root is the root of the complete binary tree over the clamped leaves |
| Merkle.BuildMerkleProof | packages/browsermesh-apps/src/audit.mjs:564-597 | refuses exactly the indices out of range; otherwise the root and the sibling of the index on every layer |
| Merkle.VerifyMerkleProof | packages/browsermesh-apps/src/audit.mjs:608-622 | accepts if and only if hashing each sibling on its side, from the entry hash on, gives the root, whatever the index |
| Merkle.MerkleComplete | packages/browsermesh-apps/src/audit.mjs:564-622 | built proofs are accepted, their positions are the binary digits of the index, and n <= 2^L < 2n |
| Merkle.PathSound | packages/browsermesh-apps/src/audit.mjs:608-622 | an accepted proof no longer than the tree starts at the node its positions lead to, or a collision is extracted |
| Merkle.ValueSound | packages/browsermesh-apps/src/audit.mjs:608-622 | a 32-byte value accepted with a full-length proof is the hash of the entry its positions lead to, or a collision is extracted |
| Merkle.InclusionSound | packages/browsermesh-apps/src/audit.mjs:608-622 | acceptance for the hash of an entry implies the right proof length and that entry at the path's position, or a collision is extracted, or the proof is too long and its last extra step spells out the payload of the entry reached with a sibling over 32 bytes |
| Merkle.SpellingProofAccepted | packages/browsermesh-apps/src/audit.mjs:608-622 | conversely, a step that spells out the payload of an entry extends its built proof to an accepted one that is too long |
| Merkle.ClampExact | packages/browsermesh-apps/src/audit.mjs:548 | a path reaches the entry with its own number if and only if the number is below the length |
| Merkle.RootBinding | packages/browsermesh-apps/src/audit.mjs:537-555 | equal roots mean equal padded lists up to an extracted collision, and equal padded lists mean equal roots |
| Merkle.EqualLengthBinding | packages/browsermesh-apps/src/audit.mjs:537-555 | lists of equal length with equal roots signed the same things entry by entry, or a collision is extracted |
| Merkle.RepeatedLast | packages/browsermesh-apps/src/audit.mjs:548 | for odd n >= 3 repeating the last entry leaves the root unchanged |
| Merkle.SerialisationKeepsRoot | packages/browsermesh-apps/src/audit.mjs:372-391 | serialising and reading back keeps the Merkle root, whatever the signatures are |
| Merkle.InnerNodeAccepted | packages/browsermesh-apps/src/audit.mjs:608-622 | every node k layers above the leaves is accepted with the proof of its own position, exactly k steps shorter than the tree is deep |
| Merkle.NodeSound | packages/browsermesh-apps/src/audit.mjs:608-622 | a 32-byte value accepted with a proof k steps too short is the node of layer k its positions lead to, or a collision is extracted |
| AppRegistry.NoResurrection | packages/browsermesh-apps/src/apps.mjs:293-332 | no sequence of calls leaves stopped and error, and starting and stopping are never visible |
| AppRegistry.CanRunExactly | packages/browsermesh-apps/src/apps.mjs:293-332 | an instance can be brought to run if and only if it is installed, paused or running |
| AppRegistry.VersionMeans | packages/browsermesh-apps/src/apps.mjs:51-53 | a valid version is three non-empty runs of digits with full stops between |
| AppRegistry.ApplyMeans | packages/browsermesh-apps/src/apps.mjs:535-685 | field by field what each operation does to the apps, which callbacks it fires, and exactly when it throws instead |
| AppRegistry.ProvenanceKept | packages/browsermesh-apps/src/apps.mjs:535-685 | through any calls but its own uninstall an app keeps installer, install time, data and peers |
| AppRegistry.OwnInstalls | packages/browsermesh-apps/src/apps.mjs:535-685 | in any run every app was installed by the local pod and has a valid manifest |
| AppRegistry.ReplicaExact | packages/browsermesh-apps/src/apps.mjs:535-685 | after any run of calls an observer of the callbacks knows exactly the installed and the running ids |
| AppRegistry.SilentChangeExactly | packages/browsermesh-apps/src/apps.mjs:656-685 | a state changes without notice if and only if a paused, stopped or failed app is updated |
| AppRegistry.AppInstance.Start | packages/browsermesh-apps/src/apps.mjs:293-299 | succeeds from installed and paused only |
| AppRegistry.AppInstance.Stop | packages/browsermesh-apps/src/apps.mjs:316-322 | succeeds from every state but stopped |
| AppRegistry.AppRegistry.Install | packages/browsermesh-apps/src/apps.mjs:535-556 | on the heap: refuses invalid and installed ids without effect, else adds one fresh installed instance under its id, touches no other key, and notifies |
| AppRegistry.AppRegistry.Uninstall | packages/browsermesh-apps/src/apps.mjs:563-575 | the removed instance is terminal, every other key keeps its instance, and no other instance changes |
| AppRegistry.AppRegistry.Update | packages/browsermesh-apps/src/apps.mjs:656-685 | puts a fresh instance under the key and leaves every other key, keeps data, peers and installer, and runs again exactly if it ran |
| AppRegistry.AppRegistry.OnlyRegisteredRun | packages/browsermesh-apps/src/apps.mjs:563-685 | of all instances ever made only registered ones are running, and uninstalled ones can never run again |
| AppRegistry.AppRegistry.PerformAll | packages/browsermesh-apps/src/apps.mjs:535-685 | any sequence of calls on the heap gives the specified snapshot, forgets no instance it has made, and leaves only registered ones running |
| AppStore.CountsExact | packages/browsermesh-apps/src/apps.mjs:845-872 | manifests and counts have the same keys, and a count equals the installs since the app was last absent |
| AppStore.ServeMeans | packages/browsermesh-apps/src/apps.mjs:845-942 | publishing sets the manifest and keeps a count, only the author unpublishes, an install adds one, all else stays |
| AppStore.PopularIsRanking | packages/browsermesh-apps/src/apps.mjs:925-930 | the sorted ids, cut at the limit, are distinct, descending, and no omitted app beats a returned one |
| AppStore.AppStore.UnpublishApp | packages/browsermesh-apps/src/apps.mjs:864-872 | only the author removes a manifest, and its count goes with it |
| AppStore.AppStore.GetPopular | packages/browsermesh-apps/src/apps.mjs:925-930 | returns the manifests of such a ranking, as many as slice(0, limit) keeps, with ties in the order of the store |
| AppRpc.RpcIdInjective | packages/browsermesh-apps/src/apps.mjs:1106 | different counters give different id texts |
| AppRpc.FreshId | packages/browsermesh-apps/src/apps.mjs:1105-1126 | the id of the next call has never been issued before |
| AppRpc.ParamsSent | packages/browsermesh-apps/src/apps.mjs:1105-1115 | value by value what a call sends: the given target, method and params, or an empty object for a falsy value |
| AppRpc.ReplyMeans | packages/browsermesh-apps/src/apps.mjs:1145-1182 | a reply carries the id and sender of its request and either the result or the error |
| AppRpc.RejectedExactly | packages/browsermesh-apps/src/apps.mjs:1145-1197 | a call is rejected if and only if the method is missing or threw a non-empty message |
| AppRpc.CallCompletes | packages/browsermesh-apps/src/apps.mjs:1105-1197 | from call to answer: delivering the request and then the reply settles the call with the outcome of the handler on the caller's own params |
| AppRpc.ResponseFindsCaller | packages/browsermesh-apps/src/apps.mjs:1145-1197 | a response reaches the endpoint that issued the very request it answers |
| AppRpc.RunInvariant | packages/browsermesh-apps/src/apps.mjs:1105-1197 | with messages dropped, duplicated and reordered: pending ids are issued minus settled, and each outcome comes from an execution of that request |
| AppRpc.SettledForever | packages/browsermesh-apps/src/apps.mjs:1184-1194 | a call settles at most once and its outcome never changes |
| AppRpc.AppRPC.Call | packages/browsermesh-apps/src/apps.mjs:1105-1126 | the whole new state: counter, pending table, and a message with the next id, the given target and method, and the params or an empty object |
| AppRpc.AppRPC.HandleIncoming | packages/browsermesh-apps/src/apps.mjs:1145-1197 | the reply to a request, or the settled promise of a pending response, and nothing else |
| EventBus.EmitDelivers | packages/browsermesh-apps/src/apps.mjs:1267-1277 | an emit runs exactly the listeners present at its start, in order, whatever callbacks do |
| EventBus.ServeMeans | packages/browsermesh-apps/src/apps.mjs:1285-1350 | on and once add at the end, off takes out the first equal callback and drops an empty list, removeAllListeners drops one list or all |
| EventBus.RunKeeps | packages/browsermesh-apps/src/apps.mjs:1267-1350 | in every run without emits from inside callbacks no empty list is kept and no one-shot listener runs twice |
| EventBus.OnceRunsNext | packages/browsermesh-apps/src/apps.mjs:1316-1322 | a waiting one-shot listener runs in the next emit of its type and is gone afterwards |
| EventBus.OnceWaitsExactly | packages/browsermesh-apps/src/apps.mjs:1298-1350 | until then a single request removes it if and only if it clears its event type |
| EventBus.EmitWaitsExactly | packages/browsermesh-apps/src/apps.mjs:1267-1350 | an emit of another type removes it if and only if a callback that it runs clears its event type |
| EventBus.OnceFate | packages/browsermesh-apps/src/apps.mjs:1267-1350 | over whole runs: a one-shot listener runs exactly once, in the first emit of its type, if nobody cleared the type between, else never |
| EventNesting.CallsCounted | packages/browsermesh-apps/src/apps.mjs:1267-1322 | with emits from inside callbacks: the calls of a one-shot listener, made or still due, are the emits that began while it waited |
| EventNesting.WaitsExactly | packages/browsermesh-apps/src/apps.mjs:1267-1350 | it waits until its type is cleared or it is called, whatever emits are in progress |
| EventNesting.TwiceExactly | packages/browsermesh-apps/src/apps.mjs:1267-1322 | it is called more than once if and only if an emit of its type began while an earlier one had still to call it |
| EventNesting.UnnestedOnce | packages/browsermesh-apps/src/apps.mjs:1267-1322 | when no emit of a type begins inside another of that type, no one-shot listener is called twice |
| EventNesting.CalledTwice | packages/browsermesh-apps/src/apps.mjs:1267-1322 | on, once and an emit whose first callback emits again: the one-shot listener is called twice |
| EventNesting.EmitRefined | packages/browsermesh-apps/src/apps.mjs:1267-1277 | an emit whose callbacks do not emit does in the nested machine what the emit specification says |
| EventBus.AppEventBus.Drop | packages/browsermesh-apps/src/apps.mjs:1298-1308 | splices out the first equal listener and drops an empty list |
| EventBus.AppEventBus.EmitEvent | packages/browsermesh-apps/src/apps.mjs:1267-1277 | the loop over the copied list refines the emit specification |
| ToolRegistry.OfferedDispatch | packages/browsermesh-apps/src/compat.mjs:87-127 | tools named like their specs: offered names are distinct and each reaches its own tool |
| ToolRegistry.OfferedDispatchExactly | packages/browsermesh-apps/src/compat.mjs:87-127 | an offered name reaches its tool if and only if the tool is named like its spec |
| ToolRegistry.RegisterMeans | packages/browsermesh-apps/src/compat.mjs:87-101 | refuses exactly ill-shaped tools and taken names without effect, else adds the tool at the end |
| ToolRegistry.UnregisterMeans | packages/browsermesh-apps/src/compat.mjs:125-127 | takes out exactly the named tool and keeps the order of the others |
| ToolRegistry.BrowserToolRegistry.Register | packages/browsermesh-apps/src/compat.mjs:87-101 | refuses exactly ill-shaped tools and taken names, and keeps every tool under its own name |
| ToolRegistry.BrowserToolRegistry.Unregister | packages/browsermesh-apps/src/compat.mjs:125-127 | removes exactly the named tool and keeps the registry keyed |
| AgentRuntime.DispatchToolCalls | packages/browsermesh-apps/src/agent-runtime.mjs:226-251 | exactly one result for every call, in order, with matching id and name, even after failures, each from the registry as that call finds it |
| AgentRuntime.OfferedCallRuns | packages/browsermesh-apps/src/agent-runtime.mjs:229-248 | a call naming an offered spec is executed by that very tool, and a failure becomes an error result |
| AgentRuntime.FailureReads | packages/browsermesh-apps/src/agent-runtime.mjs:229-248 | unknown names and failing tools give the JSON object with success false and the expected error text; a successful tool gives its own result |
| AgentRuntime.ConversationGrammar | packages/browsermesh-apps/src/agent-runtime.mjs:303-333 | whatever llmFn answers and however the registry changes, a run writes complete blocks and is cut off after exactly the limit, ends call-free within it, or throws below it |
| AgentRuntime.ConversationMeans | packages/browsermesh-apps/src/agent-runtime.mjs:303-333 | turn by turn: llmFn is given the conversation so far and the specs registered then, its answer and the results are added, and the run ends with the last answer, the truncated one, or the rejection |
| AgentRuntime.AgentRuntime.Run | packages/browsermesh-apps/src/agent-runtime.mjs:303-333 | with the registry changing between turns and dispatches and llmFn free to reject, the loop appends exactly what the turn-by-turn specification says |
| AgentOverlap.StepMeans | packages/browsermesh-apps/src/agent-runtime.mjs:303-333 | which messages each step of a run adds to the shared conversation, and when a run goes on, ends, breaks or is cut off |
| AgentOverlap.OverlapGrammar | packages/browsermesh-apps/src/agent-runtime.mjs:303-333 | in every interleaving the messages of each run follow the grammar of its phase |
| AgentOverlap.LlmCallsBounded | packages/browsermesh-apps/src/agent-runtime.mjs:309-311 | no run calls llmFn more often than its limit |

## Left out

- `AuditStore`, `get`, `entries`, `slice`: plain lookups.
- Values with their own `toJSON`, functions, symbols, BigInt and sparse arrays in audit data.
- `sequence` values that are not integers, and integers too large for plain decimal notation.
- A public key lookup that throws or changes its answer between calls.
- The permission checker, `search`, `getCategories`, `getByAuthor`, `getByPermission`, version comparison, dependency
  checks, statistics, listener registration and serialisation in `apps.mjs`: easy members.
- `updateData`, `addPeer`, `removePeer` of an instance: they do not touch its state.
- Instances built or deserialised in an arbitrary state, and instances driven directly while registered.
- Callbacks of the registry and the store that call back into it.
- Two RPC objects at one address, messages that no endpoint sent, and thrown `null` or `undefined` in a handler.
- Store callbacks and the manifest fields that ranking and lifecycle do not read.
- `reset` during a run, answers with a `role` field, tool results that JSON cannot write, and malformed tool calls.
