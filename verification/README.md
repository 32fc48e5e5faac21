# KVMService, verified model

KVMService gives numeric identities to external workloads (virtual machines), indexes them by
label, mirrors that index in etcd, and routes host policies to the agents that serve the
identities. This project models the three components that share the state, and proves what every
run of them keeps.

* **Operator** (`src/operator/core`). Watch events drive a policy list and four maps, each written
  through to an etcd namespace. `Registry.dfy` says what an event does to the memory and to the
  store, as values; `Operator.dfy` holds the daemon as a class whose methods update the fields in
  place and are proved to do exactly that, Go slices included: a slice is a window on a backing
  array, so the swap-remove loop (`SwapRemove.dfy`) writes through to the slice the map keeps.
  `RegistryMaps.dfy` proves the invariants of the maps over all runs, `Allocator.dfy` when the
  draw-until-free loop can exit, `EventWrites.dfy` what an event does to each key, and
  `StoreMirror.dfy` exactly when the store equals the maps.
* **Store** (`src/etcd`). `Etcd.dfy`: a put is exact, a get or delete reaches every key that
  extends its argument, and leases expire. `Text.dfy`, `Decimal.dfy`, `Json.dfy` and `Keys.dfy`
  are the strings underneath: splitting, decimals and which of them extend which, the JSON of
  identity lists, and the five namespaces.
* **Service** (`src/service`). `Cache.dfy` refreshes the service's copy of the lists and fans a
  policy out (`FanOut.dfy`). `Server.dfy` is registration and disconnect. `Cluster.dfy` puts the
  operator, the servers and the store together, one handler at a time; on these interleavings
  `TwoWriters.dfy` compares the lists that both sides write, `Serving.dfy` follows who serves an
  identity, and `Routing.dfy` adds policy events and proves end to end whom a policy reaches.
  `ClusterMirror.dfy` says when the keys of identities and names equal the operator's maps meanwhile.
  `Streams.dfy` has the streams that share one channel, `Delivery.dfy` joins them to the routing, and
  `Cli.dfy` is the lookup of the command line.
* **Examples.** `Examples.dfy` holds concrete runs that show why the conditions are needed.
* **Side cores.** `CommaExpansion.dfy` and `Common.dfy` (`src/common/common.go`), and
  `HostPolicy.dfy` (the host policy validators).

A *run* is a sequence of states from the initial one, related by the handlers' steps; every
theorem about runs holds for every run of every length. Choices the program does not fix (the label
that `convertLabelsToStr` ends on, the random draw, the order of a map iteration or of a scan, which
waiting sender a receiver meets) are left open and the theorems hold for all of them.

A *well-formed* event has a non-empty name; an ADDED event repeats a tracked entry exactly, or carries
a new name and draws an identity other than 0; a DELETED event for a tracked name carries the
tracked entry. These are facts about the API server and the random source, not checks that the code
makes. A *single* label map leaves `convertLabelsToStr` no choice.

## Where the code does not do what one might expect

* Deleting identity 1's keys deletes identity 12's (`Keys.DeletingOneDeletesTwelve`), and then store
  and memory differ (`Examples.ShortIdentitiesBreakTheMirror`, a run of three events).
* With two labels in one workload the DELETED event may pick the other label and write a stray key
  holding `null`; identities and names without common prefixes do not prevent it
  (`Examples.TwoLabelsBreakTheMirror`). `StoreMirror.StoreMirrorsMemoryExactlyWhen` gives the exact
  condition over all runs.
* A MODIFIED event that changes the label leaves the identity in its old list
  (`Examples.ChangedLabelStaysListed`); the lists are exact over a run exactly when no such event
  occurs (`RegistryMaps.LabelIndexExactlyWhen`).
* The operator panics exactly on the DELETED event of a tracked entry whose name maps to 0, or to
  nothing, when the list of the chosen label holds a 0 before the last position (`RegistryMaps.CrashesExactlyWhen`).
* An identity that a list holds more than once may outlive its removal or not, as in `[5, 5]` and
  `[5, 5, 7]` (`SwapRemove.DuplicatesMayGoEitherWay`); `SwapRemove.SurvivesExactlyWhen` says when.
  No run of the operator gets there: no nonzero identity ever stands twice in a list
  (`RegistryMaps.NoIdentityTwice`).
* A disconnect scans by prefix and writes every edited list under one label, so the last scanned list
  wins (`TwoWriters.LastScannedListWins`). With labels `a=b` and `a=bc` this puts an identity under a
  label it does not have (`Examples.OverlappingLabelsBreakTheOrder`).
  `TwoWriters.DisconnectStaysOrderedExactlyWhen` is the test on the store before the call.
* Two selector entries can spell the same label when a key contains `=`; then a workload gets the
  policy twice (`Examples.EqualsSignDeliversTwice`). `Routing.EndToEndRouting` counts this,
  `Routing.RoutedExactlyOnce` excludes it.
* A workload that disconnected gets no policy until the operator next writes its label's list,
  although it is still live (`Routing.EndToEndRouting`, `Examples.DisconnectedMissesPolicy`).
* A label with a slash is cut to its last segment (`Cache.SegmentOfLabelKey`), and the refresh
  dereferences nil unless a stored label extends that segment (`Cache.RefreshEnds`); one workload
  labelled `kubernetes.io/os=linux` is enough (`Examples.SlashedLabelCrashes`).

## Model

| member | source | states |
|---|---|---|
| SwapRemove.NonzeroStaysInBounds | src/operator/core/crdHandler.go:72-79 | for a nonzero identity the loop never leaves the slice, however often the identity occurs; the slots freed at the end hold 0 and the rest comes from the list |
| SwapRemove.ZeroCrashesExactlyWhen | src/operator/core/crdHandler.go:72-79 | for identity 0 the loop goes out of range if and only if a 0 stands before the last position |
| SwapRemove.RemoveExact | src/operator/core/crdHandler.go:72-79 | an identity held at most once: nothing changes, or the last element moves into its slot and the last slot becomes 0 |
| SwapRemove.RemoveCounts | src/service/server/kvmserver.go:66-72 | as multisets, the server's window loses exactly the identity, while the operator's stored slice keeps its length and trades it for one 0 |
| SwapRemove.RemoveMembers | src/operator/core/crdHandler.go:72-79 | which nonzero identities remain, and that none of them becomes duplicated |
| SwapRemove.ZeroChangesNothing | src/operator/core/crdHandler.go:72-79 | removing identity 0 goes out of range or leaves the stored slice as it was |
| SwapRemove.RemoveKeepsNoRepeats | src/operator/core/crdHandler.go:72-79 | removing any identity, 0 included, keeps slice and window free of repeated nonzero identities |
| SwapRemove.SurvivesExactlyWhen | src/operator/core/crdHandler.go:72-79 | a nonzero identity held any number of times outlives its removal if and only if some occurrence, with k others before it, is filled from slot length-1-k, which lies further up and holds the identity too |
| SwapRemove.DuplicatesMayGoEitherWay | src/operator/core/crdHandler.go:72-79 | `[5, 5]` without 5 is `[5, 0]`, `[5, 5, 7]` without 5 is `[7, 0, 0]`: at-most-once is needed for exact removal |
| SwapRemove.RemoveInPlace | src/operator/core/crdHandler.go:72-79 | the loop on the backing array does what the specification says, panics exactly when it does, and leaves the array beyond the slice alone |
| Operator.Find | src/operator/core/crdHandler.go:35-42 | the first position of the identity, or -1 exactly when it is absent |
| Operator.Append | src/operator/core/crdHandler.go:99 | Go's append: the old elements and the new one; in place when there is room, leaving the rest of the array alone, else in a fresh array with the old one untouched |
| Operator.KVMSOperator.constructor | src/operator/core/kvmOperator.go:60-80 | the daemon starts with an empty list and four empty maps |
| Operator.KVMSOperator.ConvertLabelsToStr | src/operator/core/crdHandler.go:44-50 | some `key=value` pair of the map; the empty string exactly when the map has no pairs |
| Operator.KVMSOperator.AddToList | src/operator/core/crdHandler.go:97-99 | appends the identity to the label's list if and only if it is not in it |
| Operator.KVMSOperator.RemoveFromList | src/operator/core/crdHandler.go:72-79 | the label's stored slice is rewritten through the shared array; no other list changes |
| Operator.KVMSOperator.PutList | src/operator/core/crdHandler.go:82-83 | stores the JSON of the label's slice, `null` for a label without one |
| Operator.KVMSOperator.UpdateIdentityLabelsMap | src/operator/core/crdHandler.go:89-106 | memory and store after a relabelling, as specified |
| Operator.KVMSOperator.Forget | src/operator/core/crdHandler.go:53-70 | three map entries go exactly, their three keys go by prefix |
| Operator.KVMSOperator.UnMapLabelIdentity | src/operator/core/crdHandler.go:52-87 | memory and store after a removal, when it panics, and what the store holds if it does |
| Operator.KVMSOperator.GenerateExternalWorkloadIdentity | src/operator/core/crdHandler.go:108-129 | the loop ends with the first draw whose value modulo 65536 has no name or an empty one before the call; that value is the identity, and both maps and keys record it; or every draw is taken and nothing changes |
| Operator.KVMSOperator.Admit | src/operator/core/crdHandler.go:187-188 | the policy joins the list and is given the first free draw, if there is one; otherwise nothing else changes |
| Operator.KVMSOperator.Enroll | src/operator/core/crdHandler.go:186-191 | an untracked policy joins the list, gets the first free draw and is labelled: the specified step on memory and store |
| Operator.KVMSOperator.OnAdded | src/operator/core/crdHandler.go:184-192 | the ADDED case is the specified step on memory and store with the first free draw as the identity; it never panics, and keeps drawing exactly when the policy is new and every draw is taken; what memory and store hold meanwhile |
| Operator.KVMSOperator.OnModified | src/operator/core/crdHandler.go:193-202 | the MODIFIED case is the specified step on memory and store |
| Operator.KVMSOperator.OnDeleted | src/operator/core/crdHandler.go:203-215 | the DELETED case is the specified step; it panics exactly when the swap-remove goes out of range, and then the store has lost the keys but kept the list |
| Operator.KVMSOperator.HandleEvent | src/operator/core/crdHandler.go:163-217 | an entry whose status is neither empty nor OK, or whose type is none of the three, changes nothing; any other is the step of its type with its policy and draws; it keeps drawing exactly for an untracked ADDED policy when every draw is taken, panics exactly when that step does, and leaves what that case leaves |
| Operator.KVMSOperator.Watch | src/operator/core/crdHandler.go:151-223 | from the initial state the loop performs a run of the specification, memory and store alike: its events come one each from the entries with a handled type and an empty or OK status, in the order of the stream, none left out and none added up to the entry where the loop ends; that is the end of the stream, unless an entry keeps it drawing or panics |
| Operator.DaemonRunsAreWellFormed | src/operator/core/crdHandler.go:110-111 | if no draw is 0 modulo 65536 and the events are as the API server sends them, that run is well-formed, so the theorems below hold of the daemon |
| Operator.KVMSOperator.DestroyKVMSOperator | src/operator/core/kvmOperator.go:83-95 | shutdown empties the label namespace and leaves the other four unchanged |
| RegistryMaps.CrashesExactlyWhen | src/operator/core/crdHandler.go:184-215 | in any state an event panics if and only if it is the DELETED event of a tracked entry whose name maps to 0 or to nothing and the chosen label's list holds a 0 before its last position |
| RegistryMaps.EventNeverCrashes | src/operator/core/crdHandler.go:184-215 | no well-formed event panics in a consistent state, whatever the label choice |
| Examples.DrawingZeroPanics | src/operator/core/crdHandler.go:72-79 | a run that draws 0 for one workload and 5 for another under one label, after which the deletion of the first panics |
| RegistryMaps.RunsNeverCrash | src/operator/core/crdHandler.go:151-223 | no well-formed event panics at any point of any well-formed run |
| RegistryMaps.ConsistentThroughout | src/operator/core/crdHandler.go:184-215 | the invariant of the policy list and the identity maps at every point of every well-formed run |
| RegistryMaps.IdentityBijection | src/operator/core/crdHandler.go:108-129 | in every well-formed run the two maps are mutual inverses, their names are exactly the tracked ones, and no two workloads share an identity |
| RegistryMaps.OnePairIsSingle | src/operator/core/crdHandler.go:44-50 | at most one pair leaves no choice of label |
| RegistryMaps.LabelIndex | src/operator/core/crdHandler.go:52-106 | in every well-formed single-label run each live identity is listed under its label and no nonzero identity twice in a list |
| RegistryMaps.LabelIndexExact | src/operator/core/crdHandler.go:184-215 | without label changes every nonzero member of a list is live and carries that label |
| RegistryMaps.ModifiedKeepsExactlyWhen | src/operator/core/crdHandler.go:193-202 | a MODIFIED event keeps the lists exact if and only if it keeps the workload's label |
| RegistryMaps.LabelIndexExactlyWhen | src/operator/core/crdHandler.go:193-202 | over a whole single-label run the lists are exact throughout if and only if no MODIFIED event changes a label |
| RegistryMaps.NoIdentityTwice | src/operator/core/crdHandler.go:97-99 | in any run at all, well-formed or not, no nonzero identity stands twice in a list |
| RegistryMaps.ListsNeverShrink | src/operator/core/crdHandler.go:72-83 | in any run at all no list gets shorter |
| Allocator.ExitingDrawExistsExactlyWhen | src/operator/core/crdHandler.go:109-111 | with non-empty names some draw exits the loop if and only if fewer than 65536 identities are mapped |
| Allocator.CoveringDrawsExit | src/operator/core/crdHandler.go:109-111 | and then any draws that cover every value modulo 65536 do exit |
| Etcd.EtcdClient.EtcdPut | src/etcd/etcdClient.go:67-75 | the key gets the value without a lease; every other key stays |
| Etcd.EtcdClient.EtcdPutWithTTL | src/etcd/etcdClient.go:57-65 | the key gets the value under the client's own lease; every other key stays |
| Etcd.EtcdClient.EtcdGetRaw | src/etcd/etcdClient.go:77-90 | every binding whose key extends the argument, once each; nothing exactly when there is none |
| Etcd.EtcdClient.EtcdGet | src/etcd/etcdClient.go:92-110 | the map of all bindings whose key extends the argument |
| Etcd.EtcdClient.EtcdDelete | src/etcd/etcdClient.go:112-120 | removes every key that extends the argument and no other |
| Decimal.DecRoundTrip | src/operator/core/crdHandler.go:57 | a formatted identity is digits that stand for it |
| Decimal.PrefixReach | src/etcd/etcdClient.go:114 | for i > 0, decimal(i) is a prefix of decimal(j) if and only if j lies in a range [i·10^k, (i+1)·10^k) |
| Decimal.ZeroReach | src/etcd/etcdClient.go:114 | decimal(0) is a prefix of no other decimal |
| Decimal.FiveDigitsArePrefixFree | src/etcd/etcdClient.go:114 | an identity of at least 10000 leads no other identity |
| Decimal.AtoiRoundTrip | src/service/server/kvmserver.go:174-175 | formatting, then Atoi and truncation to uint16, returns every identity |
| Decimal.DecOfValue | src/service/server/kvmserver.go:32 | digits without a leading zero are what formatting their value gives |
| Decimal.ToUint16Exactly | src/operator/core/crdHandler.go:110 | `uint16(n)` is below 65536 and differs from n by a multiple of 65536, for every n, negative or large |
| Decimal.AtoiOfDigits | src/service/server/kvmserver.go:32 | Atoi of digits is their value, or the largest int64 |
| Decimal.AtoiOfSigned | src/service/server/kvmserver.go:32 | a plus sign changes nothing, a minus sign negates, down to the smallest int64 |
| Decimal.AtoiOfOthers | src/service/server/kvmserver.go:32 | anything else gives 0 |
| Json.MarshalRoundTrip | src/operator/core/crdHandler.go:82 | every list, nil included, survives marshalling and unmarshalling |
| Json.UnmarshalExactly | src/service/server/kvmserver.go:60 | a text decodes to a list if and only if it is that list's compact JSON |
| Json.MarshalShort | src/operator/core/crdHandler.go:82 | the JSON of nil, of an empty list and of one identity |
| Json.MarshalMore | src/operator/core/crdHandler.go:82 | a further identity in front adds its digits and a comma |
| Text.SplitMeaning | src/service/core/kvmsUpdate.go:68 | splitting cuts at every separator, nowhere else, and joining undoes it |
| Text.SplitOfJoin | src/common/common.go:84 | splitting undoes joining when no part holds the separator |
| Text.LastSegmentRoundTrip | src/service/core/kvmsUpdate.go:68-69 | a suffix survives key decoding if and only if it has no slash |
| Keys.NoPrefixOfAnother | src/constants/constants.go:6-10 | no namespace is a prefix of another |
| Keys.KeyPrefix | src/constants/constants.go:6-10 | a key extends another if and only if both are in one namespace and the suffixes extend |
| Keys.NamespaceIsolation | src/constants/constants.go:6-10 | for all suffixes a put, leased put, get or delete in one namespace does not see or change another |
| Keys.IdentityDeleteReach | src/operator/core/crdHandler.go:57-70 | deleting identity i's key removes exactly the identities in the ranges it leads; every key it does not lead keeps its entry |
| Keys.DeletingOneDeletesTwelve | src/etcd/etcdClient.go:114 | after deleting identity 1's key, identity 12's is gone |
| StoreMirror.EventMirrorsExactlyWhen | src/operator/core/crdHandler.go:52-129 | each of these three namespaces keeps equal to its map if and only if the event is no removal whose own key leads another live one |
| StoreMirror.EventListsExactlyWhen | src/operator/core/crdHandler.go:82-105 | the label namespace keeps equal to the lists if and only if a DELETED event names a label that has a list |
| StoreMirror.EventKeepsMirrorExactlyWhen | src/operator/core/crdHandler.go:184-215 | an event keeps all four equal if and only if it is clean in each |
| StoreMirror.StoreMirrorsMemoryExactlyWhen | src/operator/core/crdHandler.go:52-129 | in any run the four namespaces equal the four maps at every point if and only if every DELETED event is clean |
| StoreMirror.PrefixFreeRunsMirror | src/operator/core/crdHandler.go:52-129 | single labels and prefix-free live identities and names keep the four namespaces equal to the four maps after every event |
| ClusterMirror.ClusterMirrorsExactlyWhen | src/operator/core/crdHandler.go:52-129 | in any interleaving with registrations, disconnects, lease expiries and the wipe, each of the two identity namespaces and the name namespace equals its map throughout if and only if no DELETED event leads another live key of it |
| ClusterMirror.LiveIdentitiesAccepted | src/service/server/kvmserver.go:137-163 | with well-formed events and prefix-free identities, at any point of any such interleaving a string is accepted if and only if it is the decimal of a live identity that no served key extends |
| ClusterMirror.LiveNamesFound | src/service/server/clihandler.go:20-33 | with well-formed events and prefix-free names, at any point the command line finds exactly the live workloads, with their identities |
| StoreMirror.FiveDigitsSuffice | src/operator/core/crdHandler.go:110 | for the identities it is enough that all are at least 10000 |
| Examples.TwoLabelsBreakTheMirror | src/operator/core/crdHandler.go:44-50 | a well-formed two-label run with prefix-free identities and names, and its store, which ends with a stray label key holding `null` |
| Examples.ShortIdentitiesBreakTheMirror | src/operator/core/crdHandler.go:57 | a well-formed single-label run of identities 1 and 12, and its store, which differs once 1 is deleted |
| Examples.ChangedLabelStaysListed | src/operator/core/crdHandler.go:193-202 | a run in which an identity is listed under a label it no longer has |
| Examples.FirstStore | src/constants/constants.go:6-10 | the exact four keys and values that one added workload leaves in etcd |
| Examples.FirstPod | src/constants/constants.go:6-10 | the exact key, value and lease of a registration |
| EventWrites.EventList | src/operator/core/crdHandler.go:82-105 | an event puts exactly the list it writes, as memory then has it, and touches no other list; no condition on the event |
| EventWrites.EventKey | src/operator/core/crdHandler.go:57-121 | in the two identity namespaces and the name namespace an event puts its own key, a removal deletes every key that its own one leads, and the rest stays |
| EventWrites.EventPods | src/operator/core/crdHandler.go:52-129 | the operator never touches a served entry |
| Common.ContainsElement | src/common/common.go:37-50 | membership, both directions |
| Common.MatchIdentities | src/common/common.go:300-318 | a non-empty list contained in the other, both directions |
| FanOut.SendListsCounts | src/service/core/kvmsUpdate.go:93-103 | each (event, identity) is put as often as the selected lists hold the identity together, and nothing else is put |
| FanOut.FanOutOrderIndependent | src/service/core/kvmsUpdate.go:126-144 | the multiset of messages is the same for every iteration order of the selector map |
| Cache.StoredLabelsAt | src/service/core/kvmsUpdate.go:61 | which labels the store holds |
| Cache.SegmentOfLabelKey | src/service/core/kvmsUpdate.go:68-69 | a label is decoded back if and only if it has no slash |
| Cache.SegmentsAreLabels | src/service/core/kvmsUpdate.go:67-71 | with slash-free labels the first loop collects exactly the stored ones |
| Cache.RefreshEnds | src/service/core/kvmsUpdate.go:67-90 | when the stored lists decode, the refresh completes if and only if every label known before leads a stored one and so does the last segment of each stored label; otherwise it dereferences nil |
| Cache.SlashFreeOverwrites | src/service/core/kvmsUpdate.go:87-88 | with slash-free labels the order of the scans leaves no choice |
| Cache.RefreshAgrees | src/service/core/kvmsUpdate.go:59-91 | with slash-free labels a completed refresh gives every stored label etcd's list, changes no other entry, and makes known old union stored |
| Cache.RefreshIsIdempotent | src/service/core/kvmsUpdate.go:59-91 | a second refresh against the same store ends normally and changes neither the map nor the set of known labels |
| Cache.KVMS.AppendStoredLabels | src/service/core/kvmsUpdate.go:61-71 | known labels are the old ones in place followed by one per stored key |
| Cache.KVMS.LoadLabel | src/service/core/kvmsUpdate.go:74-89 | one scan overwrites the entries that the stored labels extending the label are cut to, each with the list of such a label, and no other; nil exactly when there is none, fatal exactly when one does not decode |
| Cache.KVMS.LoadLabels | src/service/core/kvmsUpdate.go:73-90 | overlapping scans in any order add up to the union of what they cover, slashes or not; it completes exactly when every scan finds something and all of it decodes |
| Cache.KVMS.GetAllEtcdEWLabels | src/service/core/kvmsUpdate.go:59-91 | the outcome, the known labels and the map after the refresh, slashes or not; it completes exactly when every known label leads a key and what it leads decodes |
| Cache.KVMS.SelectorLabels | src/service/core/kvmsUpdate.go:126-128 | the selector's pairs, each once, in some order |
| Cache.KVMS.PassOverToKVMSAgent | src/service/core/kvmsUpdate.go:93-103 | one message per identity, in order |
| Cache.KVMS.SendToLabels | src/service/core/kvmsUpdate.go:137-143 | the lists of the labels, one after the other |
| Cache.KVMS.UpdateHostSecurityPolicies | src/service/core/kvmsUpdate.go:114-145 | refresh, match and fan out: the outcome, the known labels, the map and the channel after one policy event |
| Routing.HostStepRefreshes | src/service/core/kvmsUpdate.go:59-91 | in a reachable state a policy event never crashes the service and leaves its lists equal to etcd's |
| Routing.InvThroughout | src/service/core/kvmsUpdate.go:59-145 | operator events, registrations, lease expiries, orderly disconnects and policy events in any interleaving keep the system invariant |
| Routing.ListsAgree | src/service/server/kvmserver.go:37-80 | at any point etcd lists under a label exactly the nonzero identities that the operator lists there, those aside that disconnected after the operator last wrote the list |
| Routing.LeftMeaning | src/service/server/kvmserver.go:37-80 | who those are, in terms of the run: a disconnect under the label and no later write of its list |
| Routing.EndToEndRouting | src/service/core/kvmsUpdate.go:114-145 | at any point of any such run a policy event completes and puts, for each nonzero identity, one message per selector entry that spells its live label, if all selector labels are known and it has not disconnected since the operator last wrote that list; none otherwise |
| Routing.RoutedExactlyOnce | src/service/core/kvmsUpdate.go:114-145 | with `=`-free selector keys: exactly once for each live workload that the selector names and that has not so disconnected, never for any other nonzero identity |
| Routing.NeverDisconnected | src/service/core/kvmsUpdate.go:114-145 | a workload that never disconnected is not among those, so it gets every policy that names it |
| Routing.RoutedExactlyWhenStored | src/service/core/kvmsUpdate.go:114-145 | the same as a test on memory and store: exactly once if the selector names the live label and etcd's list of it holds the identity, never otherwise |
| Delivery.ChannelHoldsDue | src/service/core/kvmsUpdate.go:98-102 | over a run, the channel was given each message exactly as often as the policy events owe it |
| Delivery.PoliciesExactly | src/service/core/kvmsUpdate.go:98-102 | the policies among two sequences of puts are those of the one and then those of the other |
| Delivery.LoneStreamDelivers | src/service/server/kvmserver.go:105-124 | end to end with a lone stream of a nonzero identity: the copies of a policy due to it that were sent, that wait for the stream and that are still to be put add up to those due |
| Examples.DisconnectedMissesPolicy | src/service/server/kvmserver.go:98-100 | a run in which a live workload disconnects and then gets no copy of a policy that names its label |
| Examples.SlashedLabelCrashes | src/service/core/kvmsUpdate.go:67-80 | with one workload labelled `kubernetes.io/os=linux`, any first policy event ends in the nil dereference |
| Examples.EqualsSignDeliversTwice | src/service/core/kvmsUpdate.go:126-128 | a run in which a selector spells one label twice and its workload gets the policy twice |
| Server.EditMeaning | src/service/server/kvmserver.go:58-79 | editing a stored list only takes away, and of an identity held once takes exactly that |
| Server.DisconnectRemoves | src/service/server/kvmserver.go:37-80 | if no stored label extends the identity's label, a disconnect rewrites that list alone and unserves the identity |
| Server.LastEditDecides | src/service/server/kvmserver.go:58-79 | whatever is scanned, the last list edited before the first failure is what the label ends up with, and that failure is how the clean-up ends |
| Server.UpdateETCDLabelToIdentitiesMaps | src/service/server/kvmserver.go:37-80 | the store and the way the clean-up ended, for the scan it saw |
| Server.EditLists | src/service/server/kvmserver.go:58-79 | the loop over the scanned keys |
| Server.EditInPlace | src/service/server/kvmserver.go:60-72 | unmarshal and swap-remove on the array, with the three ways it can fail |
| Server.ContextDecodesBack | src/service/server/kvmserver.go:21-35 | a formatted identity in the metadata comes back; no metadata means identity 0 |
| Server.IsIdentityServing | src/service/server/kvmserver.go:137-163 | accepted if and only if no served key extends the string and it is the last segment of some identity-to-label key |
| Server.RegisterAgentIdentity | src/service/server/kvmserver.go:165-185 | if accepted, status 0 and the identity's pod key holds the given address under this client's lease; status -1 and no change otherwise |
| Server.AcceptedDecodesBack | src/service/server/kvmserver.go:137-176 | when every identity-to-label key ends in a formatted identity, the accepted strings are exactly those with a label key that no served key extends, they have no slash and parse back |
| Cluster.LabelKeysAlwaysLive | src/operator/core/crdHandler.go:89-95 | at any point of any interleaving every identity-to-label key ends in a formatted live identity and holds the label it has in memory |
| Cluster.AcceptedInRuns | src/service/server/kvmserver.go:137-176 | hence at any point of any run a string is accepted if and only if it is the decimal of an identity with a label key that no served key extends; it parses back to it, and it is live |
| TwoWriters.WritersStayOrdered | src/service/server/kvmserver.go:37-80 | in every interleaving of operator events, registrations, lease expiries and disconnects of labelled identities whose label no stored label extends, each nonzero identity in etcd's list for a label is in the operator's |
| TwoWriters.DisconnectCrashesExactlyWhen | src/service/server/kvmserver.go:52-72 | at any point of any run without the wipe, how the disconnect of any identity ends: it dereferences nil if and only if no stored label extends its label, panics if and only if one does and it is identity 0 and such a label's list holds a 0 before its last position, and otherwise succeeds |
| Examples.DisconnectOfZeroPanics | src/service/server/kvmserver.go:66-70 | four well-formed events that leave the list `[10002, 0, 10003]`, after which the disconnect of a stream without metadata panics |
| TwoWriters.LastScannedListWins | src/service/server/kvmserver.go:58-79 | a disconnect leaves the last list it edited, without the identity, under the identity's label |
| TwoWriters.DisconnectStaysOrderedExactlyWhen | src/service/server/kvmserver.go:45-79 | a disconnect of any identity keeps the order for every scan order if and only if, in the store before it, every list under a label that extends the identity's, those that the edit panics on aside, holds nothing but the identity that the operator does not list under that label |
| TwoWriters.WritersOrderedExactlyWhen | src/service/server/kvmserver.go:37-80 | a whole run is ordered throughout if and only if, at each disconnect, the last list edited, as stored before it, belongs under the label |
| TwoWriters.PlanStaysOrderedExactlyWhen | src/service/server/kvmserver.go:37-80 | for any plan of actions, all its runs in all scan orders are ordered throughout if and only if each disconnect that comes up in one of them passes the test on the store it meets |
| Examples.OverlappingLabelsBreakTheOrder | src/service/server/kvmserver.go:52-79 | a run with labels `a=b` and `a=bc` in which a disconnect makes etcd list 10002 under `a=b`, where the operator does not |
| Serving.StepKeepsEntry | src/service/server/kvmserver.go:37-43 | a step keeps a served entry unchanged unless it ends it, and it ends it if and only if it is the entry's lease expiring or the disconnect of an identity whose decimal is a prefix |
| Serving.ServingIsExclusive | src/service/server/kvmserver.go:165-185 | over any run a served entry is never overwritten and disappears only in those two ways |
| Serving.NoSecondRegistration | src/service/server/kvmserver.go:137-147 | until then no second registration of the identity is accepted |
| Serving.RegistrationWrites | src/service/server/kvmserver.go:178 | an accepted registration leaves the address under the client's lease and touches no other key |
| Serving.RegistrationLapses | src/etcd/etcdClient.go:57-65 | the entry then ends with the expiry of that client's lease, and of no other client's |
| Serving.CanRegisterAgain | src/service/server/kvmserver.go:137-163 | after that expiry the identity is accepted again |
| Streams.Conservation | src/service/server/kvmserver.go:105-134 | each put is exactly once sent, discarded, consumed as a close, or pending |
| Streams.StreamSendsInOrder | src/service/server/kvmserver.go:105-124 | a stream's sends are policies put for its own identity, in the order of the puts |
| Streams.ReceivedOnce | src/service/server/kvmserver.go:107 | no put is received by two streams |
| Streams.StreamsStopAtClose | src/service/server/kvmserver.go:125-129 | a stream is stopped if and only if the last message it received is a close for its own identity, and no earlier one is |
| Streams.LoneStreamMissesNothing | src/service/server/kvmserver.go:105-134 | a lone stream has sent every policy put for it, or the policy still waits |
| Streams.LoneStreamSends | src/service/server/kvmserver.go:105-134 | and as often as it was put, the copies that wait included |
| Streams.SendPolicy | src/service/server/kvmserver.go:82-135 | it stops if and only if some event is a close for its own identity, at the first such event; it sends exactly the policies for its own identity among the events consumed, each once, in order, at stated positions |
| Cli.CliReadsOneKey | src/service/server/clihandler.go:20-33 | the answer is the exact key's value if it is there and not empty, and `not present` otherwise, however many other names extend the requested one |
| Cli.CliFindsLiveWorkloads | src/service/server/clihandler.go:20-33 | when the name namespace equals its map it finds exactly the live workloads, with their identities |
| CommaExpansion.CanBeExpandedExactlyWhen | src/common/common.go:53-80 | expansion happens if and only if the first element's field has a comma |
| CommaExpansion.GroupMeaning | src/common/common.go:93-98 | a group has one element per comma and one more, clean fields, copied others, and joins back to the original without spaces |
| CommaExpansion.SqueezeExactly | src/common/common.go:95 | trimming takes out each space, wherever it stands, and keeps every other character in place |
| CommaExpansion.ExpansionIsGroups | src/common/common.go:93-99 | the result is the groups in order: its length is the sum, and each group stands at its offset |
| CommaExpansion.ExpansionIsClean | src/common/common.go:95-97 | no new field has a comma or a space |
| CommaExpansion.ExpansionIsIdempotent | src/common/common.go:88-103 | a second application changes nothing |
| CommaExpansion.ExpandedMeaning | src/common/common.go:88-103 | a slice without a comma in its first field stays; any other becomes the groups of all its elements at their offsets |
| CommaExpansion.Pointer.ObjCommaExpandFirstDupOthers | src/common/common.go:88-103 | without a comma in the first field the caller's slice stays; otherwise its length is the sum of one more than the commas of each element, and each element's group stands at its offset: fields without comma and space, others copied, joining to the field without its spaces |
| HostPolicy.ValidatePathRules | pkg/KubeArmorHostPolicy/controllers/kubearmorhostpolicy_controller.go:90-162 | process and file rules pass if and only if ownerOnly and sources are used as allowed |
| HostPolicy.ValidateSourceRules | pkg/KubeArmorHostPolicy/controllers/kubearmorhostpolicy_controller.go:164-192 | network and capability rules pass if and only if no source has a path |
| HostPolicy.Reconcile | pkg/KubeArmorHostPolicy/controllers/kubearmorhostpolicy_controller.go:29-82 | a fetched policy gets status OK if and only if it is acceptable; an unfetched one is untouched |
| HostPolicy.DeletingEntriesKeepsAcceptable | pkg/KubeArmorHostPolicy/controllers/kubearmorhostpolicy_controller.go:90-192 | an acceptable policy stays acceptable when entries, or sources of entries, are deleted |

## Left out

- HTTP, Kubernetes clients, gRPC, protobuf and deep-copy code: watch streams are arbitrary event sequences, and a stream's Send and Recv succeed.
- The real etcd client, its connection and its keep-alive loop: a lease expires in a step of its own.
- Store errors and `log.Fatal`: an error ends the run, so the model has no step after one.
- JSON beyond the compact text of a `[]uint16`: white space, and host policy payloads, which are passed on as values.
- Order of an etcd range read and of a Go map iteration: any order is allowed.
- Which list stays in the map when several stored labels are cut to one segment: it depends on the order of iteration.
- The test `EtcdEWLabels == nil` (`src/service/core/kvmsUpdate.go:131-134`): an empty list of known labels fails the match in any case, with the same effect.
- Interleavings inside one handler, refresh, registration or disconnect: each is one step, and the interleavings are of these steps. The shared `loop` variable of a stream's closer is not modelled; a close event may come at any time.
- Goroutines other than the one policy producer, the closers and the streams; the busy wait of the stream's `default` case.
- The random source: a sequence of draws, fixed before the event is handled. Go's growth factor for `append`: some larger array.
- The choice of a label is made once, at the start of a handler; the code makes it where it is used, and again for its log lines, which read nothing else.
- Pointer, slice, struct and string checks by reflection in the comma expansion: the model's argument has those kinds.
- The script generator: `HandleCliRequest` returns the name and identity it would be made for.
- Texts of errors and log lines, sleeps, signals, start-up.
- `UpdateExternalWorkloadSecurityPolicies` (`src/operator/core/crdHandler.go:23-34`), which builds a local copy and has no effect, and the external-workload reconciler, which validates nothing.
- Operator.KVMSOperator.UnMapLabelIdentity: after a panic says only what the store holds, because the process and its memory are gone.
- Cache.KVMS.GetAllEtcdEWLabels: says nothing about the map when the refresh crashes, because the process is gone.
- Routing.EndToEndRouting: not after the wipe at shutdown, which takes away every list the service knows.
- TwoWriters.DisconnectCrashesExactlyWhen: not after the wipe at shutdown, when a labelled identity may have no list.
