# kube-ipam in Dafny

A model of the address allocation of kube-ipam, and of the parts of the CNI plugins it builds on, with proofs
of what they promise. `dafny verify dfyconfig.toml` checks everything.

| file | models |
|---|---|
| `GoNet.dfy`, `Cidr.dfy`, `Network.dfy` | Go's `net.IP` and masks as byte strings, the big-endian arithmetic of `NextIP`, `PrevIP` and `Cmp`, and why a subnet is an interval of numbers |
| `Range.dfy`, `RangeSet.dfy`, `Config.dfy` | ranges, range sets and `LoadIPAMConfig`, in the kube-ipam and the host-local copy (they differ in two checks) |
| `Rounds.dfy`, `Walk.dfy`, `Allocator.dfy`, `Fairness.dfy` | the round-robin iterator against a rotated list, `Get` and `Release` on a store, many calls in a row |
| `Store.dfy`, `EtcdProtocol.dfy`, `EtcdGet.dfy` | the etcd store as one client sees it, and as interleaved requests of many clients with leases that expire; a whole Get among them |
| `Cni.dfy` | ADD and DEL over several range sets, with requested addresses and rollback |
| `HostLocal.dfy`, `HostCni.dfy`, `DiskProtocol.dfy` | the disk store, its allocator and host-local's ADD and DEL: whole operations under the lock, and interleaved file operations without it |
| `IPTables.dfy`, `Chain.dfy`, `Portmap.dfy`, `ChangedPorts.dfy`, `Forward.dfy`, `Containers.dfy` | the nat table, go-iptables, chain setup and teardown, port mappings as rules, what the rules do to packets, the plugin's ADD, CHECK and DEL, and several containers on one table |
| `Types.dfy`, `Results.dfy`, `DhcpOptions.dfy` | conversion between the 0.2.0 and the current result, and the classless route option of RFC 3442 |

An address is a byte string; nil is `None`. A class stands for a struct whose methods write its fields, and each
of its methods is proved against a function of the old state.

The code differs in ten things from what its comments and tests promise. The model follows the code. Each item
names the theorem that says exactly when the promise is kept, and in most a concrete failing case; for the
etcd lock (fourth item) safety is proved from two assumptions, and two runs show that neither can be dropped.

* The iterator is to give up once it is back where it started. It fixes its starting range before it first moves,
  so it never does when the last reserved address is the RangeEnd of a range in a set of several: `Get` then
  loops for ever if the set is full (`Walk.ExhaustionExactly`, `Fairness.GetEndsExactly`; a full set of two ranges
  in `Fairness.FullSetIsNeverLeft`).
* A range is to be non-empty. In the host-local copy a RangeStart at the IPv4 broadcast address with no RangeEnd
  gives an empty one; kube-ipam's copy also accepts a subnet address with host bits set, whose default start may
  lie past its end (`Ranges.HostLocalReady`, `Ranges.KubeIpamDefaults`; cases in
  `Ranges.HostLocalAcceptsEmptyRange`, `Ranges.KubeIpamAcceptsEmptyRange`). For 10.0.0.255/24 kube-ipam then
  allocates 10.0.1.1, outside the subnet (`Fairness.EmptyRangeGivesOutside`).
* Two range sets are not to share an address. A default start that has lost its leading zero bytes, or has grown by
  one, is no address: the overlap test takes it for another family, and `Cmp` for the number 0. Disjointness holds
  for ranges whose start is given or whose subnet address keeps its length when one is added; in both copies every
  other range that contains an address is accepted together with one that contains it too
  (`Config.ConfigIsDisjoint`, `Config.IrregularIsUnsafe`; 255.255.255.255/24 in `Config.KubeIpamSharesAddress`,
  64:ff9b::/96 in `Config.HostLocalSharesAddress`).
* The etcd lock is to keep allocations apart. `Get` ignores the error of `Lock`, and no one renews the lease.
  `EtcdProtocol.RunIsSafe` assumes that no Lock returns an error and no lease expires in its client's critical
  section; it goes one way, and without either assumption one address can be given to two containers
  (`DiscardedLockErrorBreaksSafety`, `ExpiredLeaseBreaksSafety`).
* A failed host-local ADD is to leave no address reserved. The address file stays when the last-reserved file of
  the first set cannot be written, for the failing allocator is not among those that are released
  (`HostCni.FailedAddKeepsFiles`, `HostCni.FailedAddExactly`, `HostCni.FileStays`).
* DEL is to be idempotent. host-local's is not where there is one range set and the interface has address files of
  both the current and an older version: the first DEL removes only the former (`HostCni.DelTwice`,
  `HostCni.DelTwiceDiffers`). With two range sets or more it is.
* The container's DNAT chain is to be torn down before it is filled. It is not, so that mappings of an earlier setup
  come before the new ones (`ChangedPorts.ChangedMeaning`, `ChangedPorts.ChangedExactly`; a port moved from 80 to 81
  in `ChangedPorts.MovedPortStays`).
* A comment is to be cut to the 255 characters iptables allows. It is cut to 256, so setup fails for a network and
  container whose names are too long together (`Portmap.TrimCommentExactly`, `Portmap.GeneratedIsAccepted`,
  `Portmap.LongNameFails`).
* CHECK is to report that port mappings are gone. It passes as soon as a usable table lacks the container's chain,
  and does not look at the tables after that one: when it passes, all rules are there if and only if the chain is in
  every usable table. Where IPv4 iptables are usable it never looks at the rules of a container with only an IPv6
  address (`Forward.PassesExactly`, `Forward.CheckPassMeans`, `Forward.MissingFromIPv4Passes`; a flushed chain in
  `Forward.FlushedChainPasses`).
* CHECK is to pass after ADD. For a container with addresses of both families it fails if there is any mapping: the
  rules of each family are looked for in the other's table too, where the chain has the same name
  (`Forward.CheckAfterDualAdd`; with one address it passes, `Forward.CheckAfterSingleAdd`).

## Model

| member | source | states |
|---|---|---|
| Cidr.NextIPIsIncrement | plugins/pkg/ip/cidr.go:22-26 | NextIP is the byte-wise successor with carries if and only if the address does not wrap and keeps its length after leading zero bytes are dropped |
| Cidr.NextIPAdds | plugins/pkg/ip/cidr.go:22-53 | with a non-zero top byte and below all ones, NextIP adds one to the big-endian value, yields an address of the same length, and PrevIP takes it back |
| Cidr.NextIPLosesLeadingZeros | plugins/pkg/ip/cidr.go:51-53 | the successor of 0.0.0.0 is one byte long and no address any more |
| Cidr.CmpIsByteOrder | plugins/pkg/ip/cidr.go:37-42 | Cmp is the lexicographic order of the bytes for addresses of one length |
| Network.NetworkIsInterval | backend/allocator/range.go:101-104 | for every prefix length, byte-wise equality under the mask is lying between the masked address and the highest one, as numbers |
| Network.NetworkWidth | backend/allocator/range.go:153-164 | the highest address of a subnet is the lowest plus 2^hostbits - 1 |
| Ranges.Range.Canonicalize | backend/allocator/range.go:26-87 | fills in the fields as the specified function of the old record does, in either copy, errors and partly filled records included |
| Ranges.CanonicalizeSucceedsExactly | backend/allocator/range.go:26-87 | which ranges are accepted, in either copy, as a test on the input: a subnet address with a standard form of the mask's length, a prefix that leaves two host bits, clear host bits in host-local's copy, given addresses that parse and lie in the subnet (the gateway only in kube-ipam's copy), and a given end not before the start |
| Ranges.CanonicalizeFailsWith | backend/allocator/range.go:26-87 | which error comes otherwise, in the order of the tests, a start after the given end being refused before that end is looked at |
| Ranges.SlashThirty | backend/allocator/range.go:33-37 | 10.0.0.0/30 is accepted, /31 and /32 are too small |
| Ranges.ComputeLastIP | backend/allocator/range.go:153-164 | the byte loop computes the default RangeEnd |
| Ranges.ContainsIsInterval | backend/allocator/range.go:89-122 | on a canonical range Contains is the test RangeStart <= a <= RangeEnd within one family, in whichever form the address is stored |
| Ranges.OverlapsIsExact | backend/allocator/range.go:124-135 | the four end-point tests find every shared address; on non-empty ranges they hold if and only if there is one |
| Ranges.OverlapsOfSane | backend/allocator/range.go:124-135 | on ranges that may be empty the overlap test is one on four numbers: some end point of the one lies between those of the other, in one family |
| Ranges.SharedIsFound | backend/allocator/range.go:124-135 | for any two ranges that start in their subnet with an address of its family, whatever their ends, the overlap test finds every address they share |
| Ranges.LastIPValue | plugins/plugins/ipam/host-local/backend/allocator/range.go:155-166 | lastIP is base + 2^(32-n) - 2 for IPv4, with no underflow of the last byte thanks to the prefix-size check, and base + 2^(128-n) - 1 for IPv6 |
| Ranges.CanonicalizedFields | backend/allocator/range.go:26-87 | a successful Canonicalize leaves a canonical subnet with two host bits, and end points that are the defaults or the canonical form of the given ones, checked against subnet and each other |
| Ranges.CanonicalizedIsSane | backend/allocator/range.go:26-87 | when a canonicalized range is one of addresses of its own family inside its subnet, and when it is not empty either, as tests on the input: the unset end points have defaults that are addresses, and in the right order |
| Ranges.CanonicalizedIsWellStarted | backend/allocator/range.go:26-87 | a canonicalized range is such a one if and only if its start was given or the subnet's address keeps its length when one is added |
| Ranges.CountsUpExactly | backend/allocator/range.go:26-87 | a canonicalized range is non-empty and starts with a byte other than zero if and only if the range as given passes a test on its end points |
| Ranges.HostLocalReady | plugins/plugins/ipam/host-local/backend/allocator/range.go:26-88 | with the host-bit check the end points are addresses of the subnet unless a default one is no address (an unset start below a zero top byte, an unset end in IPv4's 16-byte form), and then the range is non-empty unless RangeEnd is unset and RangeStart is the IPv4 broadcast address |
| Ranges.HostLocalDefaults | plugins/plugins/ipam/host-local/backend/allocator/range.go:45-86 | the default gateway and start are base + 1, in the subnet exactly if the top byte is not zero; the default end is the last host, in the subnet exactly if it is an address |
| Ranges.CanonicalizeTwice | plugins/plugins/ipam/host-local/backend/allocator/range.go:26-88 | a second Canonicalize changes nothing if and only if the range is non-empty and its gateway was given or has a default that is an address and, in kube-ipam's copy, lies in the subnet |
| Ranges.HostLocalTwice | plugins/plugins/ipam/host-local/backend/allocator/range.go:26-88 | in the host-local copy a second Canonicalize changes nothing if and only if the range is non-empty and the gateway was given or has a default that is an address, which matters only for a given start below a zero top byte |
| Ranges.KubeIpamDefaults | backend/allocator/range.go:26-87 | without the host-bit check every subnet address is accepted; the range is non-empty if and only if both defaults are addresses and the subnet's address is not one of its last |
| Ranges.KubeIpamAcceptsEmptyRange | backend/allocator/range.go:26-87 | 10.0.0.255/24 is accepted with an empty range |
| Ranges.HostLocalAcceptsEmptyRange | plugins/plugins/ipam/host-local/backend/allocator/range.go:26-88 | 10.0.0.0/24 with RangeStart 10.0.0.255 is accepted with an empty range |
| RangeSets.RangeFor | backend/allocator/range_set.go:29-42 | the first range of the set that contains the address, or none if no range does |
| RangeSets.CanonicalizeSet | backend/allocator/range_set.go:56-88 | the error of the first range that has one or is of another family than the first, an empty set, or an overlap; else each range is canonicalized in place |
| RangeSets.SetAcceptedExactly | backend/allocator/range_set.go:56-88 | which sets that accepts: those that are not empty, all of whose ranges are accepted and have starts of one length, and of whose canonicalized ranges no two overlap |
| RangeSets.CanonicalizeRanges | backend/allocator/range_set.go:63-75 | the loop over the ranges: each is canonicalized in place, and the family of the first is that of all |
| RangeSets.FindOverlap | backend/allocator/range_set.go:77-87 | the nested loops find an overlapping pair if and only if there is one |
| RangeSets.NoOverlapsIsDisjoint | backend/allocator/range_set.go:77-87 | in a set of well-started ranges that passes the overlap test no address is in two ranges |
| RangeSets.NoOverlapsExactly | backend/allocator/range_set.go:77-87 | on ranges that are not empty a set passes the overlap test if and only if no address is in two of them |
| RangeSets.SetsOverlapExactly | backend/allocator/range_set.go:44-54 | two sets of ranges that are not empty overlap if and only if they share an address |
| RangeSets.RangeForIsUnique | backend/allocator/range_set.go:29-42 | RangeFor's answer is the only range that contains the address |
| Config.LoadIPAMConfig | backend/allocator/config.go:100-163 | accepts exactly the inputs whose requested addresses parse, with at least one set, all sets acceptable, at most one per family for old CNI versions and no two sets overlapping; else returns the first error in the order of the tests |
| Config.LoadedInOrder | backend/allocator/config.go:115-126 | a loaded configuration has the canonical runtime sets, then the old-style range as a set of its own, if it has a subnet, then the configured sets, and no other |
| Config.LoadedAddresses | backend/allocator/config.go:92-113 | the requested addresses are that of the environment and then those of the args, each in standard form |
| Config.NoRangesExactly | backend/allocator/config.go:115-130 | NoRanges is the error if and only if there are no runtime sets, no old-style range and no configured sets, and the requested addresses parse |
| Config.SingleAlone | backend/allocator/config.go:115-120 | an old-style range alone is a configuration, accepted or refused as the range is |
| Config.FamiliesFitExactly | backend/allocator/config.go:146-153 | for CNI versions "", 0.1.0 and 0.2.0, and only for these, no two sets may be of one family |
| Config.CanonicalizeIPs | backend/allocator/config.go:109-113 | every requested address in standard form, or an error if one has none |
| Config.ValidateSets | backend/allocator/config.go:131-144 | every set is canonicalized in turn, and the families are counted |
| Config.FindSetOverlap | backend/allocator/config.go:155-163 | the nested loops find two overlapping sets if and only if there are two |
| Config.ConfigIsDisjoint | backend/allocator/config.go:131-163 | after acceptance every address is in at most one range with a regular start of one range set: the start was given, or the subnet's address keeps its length when one is added |
| Config.IrregularIsUnsafe | backend/allocator/config.go:131-163 | the condition on starts cannot be dropped, in either copy: every acceptable range with an irregular start that contains some address is accepted together with another one that contains it too |
| Config.KubeIpamSharesAddress | backend/allocator/range.go:89-135 | 255.255.255.255/24 is accepted beside a range of 255.255.255.15, which both contain |
| Config.HostLocalSharesAddress | plugins/plugins/ipam/host-local/backend/allocator/range.go:90-136 | host-local accepts 64:ff9b::/96 beside a range of 64:ff9b::a, which both contain |
| Walk.ClosesExactly | backend/allocator/allocator.go:155-166 | the walk can recognize its starting place if and only if the last reserved address is not a RangeEnd with another range after it |
| Walk.OneRound | backend/allocator/allocator.go:178-218 | one round of Next visits every address of the set exactly once, in the rotated order, and does not end the walk |
| Walk.ExhaustionExactly | backend/allocator/allocator.go:206-211 | after the round the walk ends if and only if it closes; else no number of calls ends it |
| Walk.RangeEndNeverCloses | backend/allocator/allocator.go:155-166 | in every set of several ranges each RangeEnd, in whatever form it is stored, is a last reserved address from which the walk never ends |
| Walk.AcceptedIsWalkable | backend/allocator/range_set.go:56-88 | a set that Canonicalize accepts can be walked if and only if every range, as given, counts up: its end points are or have defaults that are addresses in the right order, and a given start has a non-zero top byte |
| Walk.HostLocalCountsUp | plugins/plugins/ipam/host-local/backend/allocator/range.go:26-88 | in the host-local copy that is: a given start, or else the subnet, has a non-zero top byte, the default end is an address, and no start is the IPv4 broadcast address with no end given |
| Allocator.RangeIter.constructor | backend/allocator/allocator.go:140-176 | GetIter, for any set: the iterator stands at the last reserved address if the set contains it, else before range 0 |
| Allocator.RangeIter.Next | backend/allocator/allocator.go:178-218 | for any set, whenever Next returns at all: the first pass from here on that is no gateway or the end of the walk, with a measure that covers the recursion |
| Allocator.RangeIter.Move | backend/allocator/allocator.go:180-211 | makes one pass: the cursor moves on, and it is said whether the walk has come round |
| Allocator.StepMeans | backend/allocator/allocator.go:178-218 | for any set: a pass that does not end the walk stands at an address of some range, skips it if and only if that range's gateway field equals it, and else returns it with the range's mask and gateway |
| Allocator.HaltsExactly | backend/allocator/allocator.go:178-218 | in a walkable set Next returns if and only if the walk closes or some address is not a gateway |
| Allocator.IPAllocator.Get | backend/allocator/allocator.go:44-111 | yields the requested address, or for any set and whenever the loop ends the first unreserved one of the walk, or the error, and changes the store by exactly that reservation or not at all |
| Allocator.IPAllocator.GetRequested | backend/allocator/allocator.go:53-75 | the errors in their order, or the canonical requested address reserved |
| Allocator.RequestedExactly | backend/allocator/allocator.go:53-75 | for any set and request: which of the four errors comes, among them the gateway error exactly if the address equals the gateway field of the first range that contains it, and what is allocated otherwise |
| Allocator.IPAllocator.GetDynamic | backend/allocator/allocator.go:77-96 | for any set, whenever the loop ends: it stops at the first pass whose address is not reserved or that ends the walk; it fails only with the store unchanged |
| Allocator.AllocatedConfig | backend/allocator/allocator.go:76-110 | for any set: what a dynamic Get allocates was not reserved, and has the version of its family and the mask and gateway of a range whose gateway it is not |
| Allocator.AllocatedFromOwnRange | backend/allocator/allocator.go:76-110 | in a walkable set that is the range that contains the address |
| Allocator.IPAllocator.Release | backend/allocator/allocator.go:113-119 | gives back all addresses of the container and nothing else |
| Allocator.NextFound | backend/allocator/allocator.go:77-96 | while the loop goes on Next returns, no later than at the loop's end, and the address it returns is free if and only if that is the end |
| Allocator.OutcomeIsChoice | backend/allocator/allocator.go:76-110 | in a walkable set the loop ends if some address is free or the walk closes, and its outcome is the first free address of the rotated list, or that there is none |
| Fairness.ChoiceIsFirstFree | backend/allocator/allocator.go:76-110 | Get's choice is the address at which every earlier one of the rotated list is a gateway or taken, in both directions |
| Fairness.FailsExactly | backend/allocator/allocator.go:98-100 | Get finds nothing if and only if every address of the set is reserved or equals its range's gateway |
| Fairness.GetEndsExactly | backend/allocator/allocator.go:81-96 | in a walkable set a dynamic Get ends if and only if some address is free or the last reserved one is not a RangeEnd with another range after it |
| Fairness.GetThenRelease | backend/allocator/allocator.go:44-119 | a Get and a Release by a container that held nothing restore the reservations and move the last reserved address |
| Fairness.GetAndReleaseRepeatedly | backend/allocator/allocator.go:44-119 | n Get and Release pairs on the store return, call by call, the addresses of the specified sequence, and leave the reservations as they were |
| Fairness.CandidatesAfter | backend/allocator/allocator.go:140-176 | after an address was reserved the rotated list is the old one turned to start behind it |
| Fairness.RoundRobin | backend/allocator/allocator.go:135-218 | as many Get and Release pairs as there are free addresses return each free address exactly once, from any starting point, over any number of ranges |
| Fairness.FullSetIsNeverLeft | backend/allocator/allocator.go:81-96 | a set of two one-address ranges, accepted by both copies, with both addresses reserved and the first one last, as the store returns it: a dynamic Get does not end |
| Fairness.EmptyRangeGivesOutside | backend/allocator/allocator.go:178-218 | with 10.0.0.255/24 as its only range kube-ipam allocates 10.0.1.1, which is outside the subnet |
| Stores.Store.Reserve | backend/etcd/backend.go:73-96 | reserves if and only if the address is not reserved, and then notes it as last reserved |
| Stores.SameKeyExactly | backend/etcd/backend.go:73-80 | two addresses are stored under one key if and only if they are equal, in whatever form they come |
| Stores.Store.ReleaseByID | backend/etcd/backend.go:122-141 | the delete loop removes exactly the container's reservations |
| EtcdProtocol.StepInv | backend/etcd/backend.go:73-216 | every step of every client and every lease expiry keeps the invariant, in states in which critical clients hold existing leases |
| EtcdProtocol.StepSound | backend/etcd/backend.go:148-216 | such a state stays so in every step but two: a Lock that returns an error, and the expiry of the lease of a client in its critical section; in particular no Unlock of another client ends such a lease |
| EtcdProtocol.RevokeSparesOthers | backend/etcd/backend.go:200-216 | Unlock's Revoke leaves every other client's lease and the lock key under it as they were |
| EtcdProtocol.OkIsSound | backend/etcd/backend.go:148-216 | in a run neither of these two events happens if and only if in every state each client in its critical section got nil from Lock and its lease exists |
| EtcdProtocol.LockTriesTwentyTimes | backend/etcd/backend.go:148-198 | in any run, what a transaction of Lock leads to: into the critical section under the lease granted last if it finds no lock key and that lease exists; back to another attempt if it finds the key and is not the twentieth in a row to do so; an error if it is, or finds no key and its lease gone |
| EtcdProtocol.RunIsSafe | backend/etcd/backend.go:73-216 | in every interleaving in which no Lock returns an error and no lease expires in its client's critical section (one way; the two runs below show that neither can be dropped): mutual exclusion, the lock key names the holder's lease, no Put overwrites an owner, no address is live for two containers |
| EtcdProtocol.MutualExclusion | backend/etcd/backend.go:148-198 | at most one client is between Lock and Unlock, and the lock key holds its lease |
| EtcdProtocol.UnlockRevokesOwn | backend/etcd/backend.go:200-216 | the lease that Unlock reads and revokes is its own |
| EtcdProtocol.UnlockFrees | backend/etcd/backend.go:200-216 | when Unlock's Revoke is done its lease is gone, and the lock key if that was under it |
| EtcdProtocol.ExpiryFrees | backend/etcd/backend.go:153-168 | the expiry of the lease that the lock key names removes the key |
| EtcdProtocol.OthersKeepStore | backend/etcd/backend.go:73-141 | while one client is in its critical section no other step touches the reservations |
| EtcdProtocol.ReserveIsAtomic | backend/etcd/backend.go:73-96 | Reserve's Get, Put and Put, interleaved with anything, have the effect of the one-step Reserve |
| EtcdProtocol.ReserveCallIsAtomic | backend/etcd/backend.go:73-96 | a whole Reserve, from its first request on, takes the address if and only if it is free then, and notes it |
| EtcdProtocol.ReleaseIsAtomic | backend/etcd/backend.go:122-141 | the listing and the deletes of ReleaseByID, interleaved with anything, have the effect of the one-step release |
| EtcdProtocol.ReleaseCallIsAtomic | backend/etcd/backend.go:122-141 | a whole ReleaseByID, from its listing on, removes exactly the reservations the container had then |
| EtcdGet.GetIsAtomic | backend/allocator/allocator.go:44-111 | a whole dynamic Get between Lock and Unlock, each of its requests interleaved with anything, ends as the sequential Get does on the store as it was when the last reserved address was read, and leaves the store as that Get does |
| EtcdProtocol.DiscardedLockErrorBreaksSafety | backend/allocator/allocator.go:45-47 | a run in which no lease expires in a critical section, but one before the transaction of its Lock, whose error is ignored, leaves an address live for two containers |
| EtcdProtocol.ExpiredLeaseBreaksSafety | backend/etcd/backend.go:153-168 | so does a run in which every Lock succeeds and a lease expires in a critical section |
| Cni.PickRequested | lib/cni.go:153-159 | takes some requested address of the set off the requests, in whatever order they come, or none if there is none |
| Cni.CmdAdd | lib/cni.go:105-186 | for any range sets whose Gets return: each set in turn gives an address that Get finds, with every request granted, or some set fails or a request is left and the container is released once for each set served |
| Cni.Serve | lib/cni.go:146-172 | one round of the loop: some request of the set is picked, or none if there is none, and the set's Get answers |
| Cni.RollBack | lib/cni.go:162-168 | releasing the used allocators takes back every address of this ADD, leaving what the container had not held before |
| Cni.AddIsOutcome | lib/cni.go:105-186 | on sets that can be walked and share no address ADD succeeds if and only if every requested address is in some set, no two in one, and each set has an address to give; then each set gives what it would give alone |
| Cni.ProperReturns | lib/cni.go:143-186 | on such sets ADD returns if each set of which no address is requested has a free address, or its walk closes, at the beginning |
| Cni.CmdDel | lib/cni.go:211-238 | leaves exactly the other containers' reservations |
| Cni.AddIsDeterministic | lib/cni.go:143-186 | result and reservations do not depend on the order in which the map of requests is walked |
| Cni.FailedAddChangesNothing | lib/cni.go:162-184 | for any sets: for a container that held nothing a failed ADD leaves the reservations exactly as they were |
| Cni.AddTakesOneEach | lib/cni.go:146-184 | for any sets: a successful ADD makes exactly one new reservation per set, all different and free before, with every requested address among them |
| Cni.AddTakesOnePerSet | lib/cni.go:146-184 | on sets that can be walked and share no address each of them lies in its own set and no other |
| Cni.DelUndoesAdd | lib/cni.go:211-238 | for any sets: DEL after ADD restores the reservations, and a second DEL changes nothing |
| Cni.LoadedSetsAreApart | backend/allocator/config.go:131-163 | the sets of an accepted configuration whose ranges have regular starts share no address |
| Cni.LoadedSetsAreWalkable | backend/allocator/config.go:131-163 | they can be walked if and only if every range, as given in the configuration, counts up |
| HostLocal.Store.Reserve | plugins/plugins/ipam/host-local/backend/disk/backend.go:59-85 | creates the address file if and only if there is none and it can be created, then writes the last-reserved file; where that cannot be written the call fails and the address file stays |
| HostLocal.Store.ReleaseByKey | plugins/plugins/ipam/host-local/backend/disk/backend.go:138-158 | the walk removes exactly the files with that content, and says whether there were any |
| HostLocal.Store.ReleaseByID | plugins/plugins/ipam/host-local/backend/disk/backend.go:160-173 | files of the interface, or, if there are none, those of older versions |
| HostLocal.Store.GetByID | plugins/plugins/ipam/host-local/backend/disk/backend.go:175-202 | exactly the addresses of the container's interface, new or old form of the file |
| HostLocal.HostAllocator.Get | plugins/plugins/ipam/host-local/backend/allocator/allocator.go:43-121 | for any set, whenever the call returns: the requested address without, or the first unreserved one of the walk after, the duplicate check; the directory changes by exactly that reservation, by the address file alone if the last-reserved file cannot be written, or not at all |
| HostLocal.AnsweredInWalkable | plugins/plugins/ipam/host-local/backend/allocator/allocator.go:75-106 | in a walkable set that is the first free address of the rotated list |
| HostLocal.HostAllocator.HoldsOne | plugins/plugins/ipam/host-local/backend/allocator/allocator.go:75-85 | the check finds an address if and only if the interface holds one in this range set |
| HostLocal.StepKeepsOne | plugins/plugins/ipam/host-local/backend/allocator/allocator.go:75-106 | one dynamic Get (with any failure to write its files), Release or rewriting of the last-reserved files keeps at most one address per interface and range set |
| HostLocal.RunKeepsOne | plugins/plugins/ipam/host-local/backend/allocator/allocator.go:75-106 | so does any run of them |
| HostLocal.RequestedKeepsOneExactly | plugins/plugins/ipam/host-local/backend/allocator/allocator.go:51-73 | a requested address skips the check: it keeps the property if and only if the interface holds none in the set |
| HostLocal.ReleaseUndoesGet | plugins/plugins/ipam/host-local/backend/allocator/allocator.go:123-129 | releasing an interface that held nothing before restores the directory, also after a Get that failed with the address file written |
| HostCni.CmdAdd | plugins/plugins/ipam/host-local/main.go:92-139 | for any range sets whose Gets return: each set in turn gives an address that Get finds, with every request granted; or some set gives none or its last-reserved file cannot be written, and the interface is released once for each set served |
| HostCni.Serve | plugins/plugins/ipam/host-local/main.go:94-121 | one round of the loop: some request of the set is picked, or none if there is none, and the set's Get answers |
| HostCni.HostAddIsAdd | plugins/plugins/ipam/host-local/main.go:92-139 | for any sets: a successful ADD is one of kube-ipam's on the containers' names, so that what is proved of those holds |
| HostCni.HostAddExactly | plugins/plugins/ipam/host-local/main.go:92-139 | on sets that can be walked and share no address ADD returns, and succeeds if and only if kube-ipam's does, the interface holds no address of a set it asks for no particular address of, and the files can be written |
| HostCni.FailedAddKeepsFiles | plugins/plugins/ipam/host-local/main.go:107-139 | for any sets and requests: for an interface that held nothing a failed ADD leaves the address files as they were unless the first set's last-reserved file cannot be written |
| HostCni.FailedAddExactly | plugins/plugins/ipam/host-local/main.go:107-139 | where at most one address of the first set is asked for, a file stays if and only if that set has an address to give and its last-reserved file cannot be written |
| HostCni.FileStays | plugins/plugins/ipam/host-local/backend/disk/backend.go:59-85 | one set of 10.0.0.2, an empty directory and a last-reserved file that cannot be written: ADD fails and the address file stays |
| HostCni.FailedAddOfHolder | plugins/plugins/ipam/host-local/main.go:107-139 | what a failed ADD leaves of an interface that held something: all of it after no set served, none of its current files after one, nothing after two; other owners lose nothing |
| HostCni.CmdDel | plugins/plugins/ipam/host-local/main.go:146-173 | one release per range set |
| HostCni.DelUndoesAdd | plugins/plugins/ipam/host-local/main.go:92-173 | for any sets: DEL after a successful ADD by an interface that held nothing restores the directory |
| HostCni.SecondRelease | plugins/plugins/ipam/host-local/backend/disk/backend.go:160-173 | a second release changes nothing if and only if the interface did not have files of both the current and an older version |
| HostCni.FurtherReleases | plugins/plugins/ipam/host-local/backend/disk/backend.go:160-173 | two releases or more remove exactly the files of both kinds |
| HostCni.DelTwice | plugins/plugins/ipam/host-local/main.go:146-173 | DEL twice is DEL once if and only if there is not exactly one range set with files of the interface of both the current and an older version |
| HostCni.DelTwiceDiffers | plugins/plugins/ipam/host-local/backend/disk/backend.go:160-173 | a directory of two files and one range set where the second DEL removes what the first one left |
| DiskProtocol.RunOneOwner | plugins/plugins/ipam/host-local/backend/disk/backend.go:59-77 | in every interleaving of file operations an address file has one creator, holds that creator or nothing yet, and never changes its owner |
| DiskProtocol.FailedWriteUndoesCreate | plugins/plugins/ipam/host-local/backend/disk/backend.go:69-77 | a create whose write fails leaves the directory as it was |
| DiskProtocol.NoLockNeeded | plugins/plugins/ipam/host-local/backend/disk/backend.go:59-173 | with no lock at all, if no container has two operations going on at once, no address is live for two containers, and it is live for the one its file names |
| DiskProtocol.ParallelReleasesBreakIt | plugins/plugins/ipam/host-local/backend/disk/backend.go:138-173 | two releases of one container at once, unlocked, can leave an address live for two others |
| IPTables.EnsureChain | plugins/pkg/utils/iptables.go:28-46 | the chain exists afterwards, with the rules it had |
| IPTables.DeleteRule | plugins/pkg/utils/iptables.go:68-86 | the first equal rule is gone; a rule or chain that is missing is no error |
| IPTables.DeleteChain | plugins/pkg/utils/iptables.go:88-104 | an empty chain that nothing jumps to is gone; a missing one is no error |
| IPTables.RefusedExactly | plugins/plugins/meta/portmap/chain.go:106-120 | which rules are refused, and why: a chain or jump target that is missing, a port list that is empty or longer than fifteen, a comment longer than 255 characters |
| IPTables.EvalAppend | plugins/plugins/meta/portmap/chain.go:106-120 | appended rules apply to the packets that the rules before them let through |
| Chains.InsertUnique | plugins/plugins/meta/portmap/chain.go:104-120 | adds a rule at the front or the end unless it is there, or says why iptables refuses it |
| Chains.Setup | plugins/plugins/meta/portmap/chain.go:37-65 | the loops change the table as the specified function does, up to the first failure |
| Chains.Check | plugins/plugins/meta/portmap/chain.go:123-153 | true if and only if the chain, all its rules and all its entry rules are there |
| Chains.Teardown | plugins/plugins/meta/portmap/chain.go:69-102 | flushes the chain, removes exactly the jumps to it from the entry chains, and deletes it unless something still jumps to it |
| Chains.SetupSucceedsExactly | plugins/plugins/meta/portmap/chain.go:37-65 | setup succeeds if and only if each rule is there already or its chain and target exist and its port list is short enough |
| Chains.SetupThenCheck | plugins/plugins/meta/portmap/chain.go:38-153 | after a successful setup check succeeds |
| Chains.CheckIsFixpoint | plugins/plugins/meta/portmap/chain.go:38-153 | check succeeds if and only if setup would change nothing |
| Chains.SetupIdempotent | plugins/plugins/meta/portmap/chain.go:37-65 | a second setup changes nothing |
| Chains.SetupThenTeardown | plugins/plugins/meta/portmap/chain.go:38-102 | teardown after setup, even one that failed half-way, restores the table exactly if and only if the chain was not there before |
| Chains.TeardownFailsExactly | plugins/plugins/meta/portmap/chain.go:69-102 | teardown fails if and only if some chain other than the entry chains jumps to this one |
| Chains.TeardownIdempotent | plugins/plugins/meta/portmap/chain.go:69-102 | a second teardown succeeds and changes nothing |
| Chains.KeptInOrder | plugins/plugins/meta/portmap/chain.go:85-98 | teardown keeps the unrelated rules of an entry chain in order |
| Portmap.GroupByProto | plugins/plugins/meta/portmap/utils.go:62-78 | every protocol with its host ports in order |
| Portmap.SplitPortList | plugins/plugins/meta/portmap/utils.go:83-99 | the accumulating loop computes the pieces |
| Portmap.ChunksFacts | plugins/plugins/meta/portmap/utils.go:83-99 | the pieces put together are the list; none is empty or longer than 15, and only the last is shorter |
| Portmap.FillDnatRules | plugins/plugins/meta/portmap/portmap.go:183-286 | the loops generate the specified entry rules (for the protocols in some order) and rules |
| Portmap.RulesOfMapping | plugins/plugins/meta/portmap/portmap.go:228-285 | one mapping: skipped for the other family, no destination for an unspecified address, mark rules before the redirect |
| Portmap.DnatRulesMean | plugins/plugins/meta/portmap/portmap.go:225-285 | the container's rules redirect to the first same-family mapping that matches, mark what is to be masqueraded, and leave other packets alone |
| Portmap.FreshMeansSame | plugins/plugins/meta/portmap/chain.go:106-120 | dropping duplicate rules does not change what happens to any packet |
| Portmap.EntryRulesMatch | plugins/plugins/meta/portmap/portmap.go:195-223 | grouping by protocol and splitting lose nothing: an entry rule matches if and only if some mapping has the packet's protocol and port and the extra conditions hold |
| Portmap.ConditionsExactly | plugins/plugins/meta/portmap/portmap.go:211-215 | the extra conditions hold for a packet if and only if those configured for the container's own family (conditionsV4 for IPv4, conditionsV6 for IPv6) are unset, empty or hold |
| Portmap.ForwardedExactly | plugins/plugins/meta/portmap/portmap.go:183-286 | in the terms of the configuration alone: a packet outside those conditions, or hit by no mapping, is left alone; else it is redirected to the container's address and the container port of the first mapping with its protocol, port and (if given) host address, and marked if SNAT is on and it comes from the container's net or, for IPv4, from 127.0.0.1 |
| Portmap.TargetsExactly | plugins/plugins/meta/portmap/portmap.go:186-285 | every rule redirects to the container at a mapping's container port, or, with SNAT on, jumps to the configured external mark chain or else to the plugin's own |
| Portmap.TrimCommentExactly | plugins/plugins/meta/portmap/utils.go:101-108 | a comment of up to 255 characters stays as it is, a longer one becomes its first 253 and three dots, 256 in all |
| Portmap.GeneratedIsAccepted | plugins/plugins/meta/portmap/portmap.go:183-286 | thanks to the splitting iptables takes every generated rule, so that setup succeeds, if and only if the network's name and the container's id have at most 235 characters together or there is no mapping |
| Portmap.LongNameFails | plugins/plugins/meta/portmap/utils.go:101-108 | with a network name of 256 letters and one mapping setup fails |
| Portmap.PortmapMeaning | plugins/plugins/meta/portmap/portmap.go:183-286 | after setup every packet in the top-level chain goes where the rules that were there send it, and otherwise to the first matching mapping |
| Portmap.PacketGoes | plugins/plugins/meta/portmap/portmap.go:183-286 | lifted to the table: a packet that the earlier rules let through goes on unchanged outside its family's conditions or without a mapping, and else to the first mapping that hits it |
| Portmap.OwnMarkChain | plugins/plugins/meta/portmap/portmap.go:288-305 | the plugin's own mark chain sets its bit and does nothing else |
| Portmap.MasqueradeExactly | plugins/plugins/meta/portmap/portmap.go:225-331 | a packet is masqueraded if and only if it was redirected, SNAT is on, and its source is in the container's net or, for IPv4, 127.0.0.1 |
| ChangedPorts.ChangedMeaning | plugins/plugins/meta/portmap/portmap.go:104-110 | a second setup of the same container with other mappings and no teardown in between does what one setup of the earlier mappings followed by the new ones would do, for every packet |
| ChangedPorts.ChangedExactly | plugins/plugins/meta/portmap/portmap.go:104-110 | it sends a packet where the new mappings alone would if and only if the conditions do not hold for it, no earlier mapping matches it, or the first new one that does has the same container port |
| ChangedPorts.MovedPortStays | plugins/plugins/meta/portmap/portmap.go:104-110 | host port 8080 moved from container port 80 to 81 goes on to port 80 |
| Forward.ForwardPorts | plugins/plugins/meta/portmap/portmap.go:52-113 | sets up the shared chains and the container's chain in order, up to the first failure |
| Forward.SharedChainsExactly | plugins/plugins/meta/portmap/portmap.go:63-102 | forwarding adds, besides the container's chain, the top-level chain, and the two mark chains if and only if SNAT is on and no external mark chain is configured |
| Forward.UnforwardPorts | plugins/plugins/meta/portmap/portmap.go:361-387 | tears down the container's chain and, whatever comes of it, the one of older versions |
| Forward.CheckPorts | plugins/plugins/meta/portmap/portmap.go:115-153 | for every order in which the protocols come: passes if and only if some table is usable and each table it looks at lacks the chain or has it complete, the first that lacks it being the last it looks at |
| Forward.PassesExactly | plugins/plugins/meta/portmap/portmap.go:115-153 | checkPorts passes if and only if some table is usable and the chain is complete in those before the first that lacks it, whatever the tables after that one hold |
| Forward.CompleteExactly | plugins/plugins/meta/portmap/portmap.go:115-153 | when it passes, all rules and entry rules of the chain are in every usable table if and only if the chain is |
| Forward.CmdCheck | plugins/plugins/meta/portmap/main.go:128-158 | passes if and only if there is no mapping or the check of each of the container's addresses passes |
| Forward.CheckPassMeans | plugins/plugins/meta/portmap/main.go:128-158 | when CHECK of a container with mappings passes, the rules for its addresses are in every usable table if and only if its chain is |
| Forward.MissingFromIPv4Passes | plugins/plugins/meta/portmap/portmap.go:126-138 | where iptables is usable for IPv4 and has no such chain CHECK passes whatever the IPv6 table holds |
| Forward.FlushedChainPasses | plugins/plugins/meta/portmap/portmap.go:126-138 | the container fd00::5 with one mapping, its IPv6 chain flushed: CHECK passes |
| Forward.CheckAfterSingleAdd | plugins/plugins/meta/portmap/main.go:72-158 | after a successful ADD of a container with one address CHECK passes, and the rules are there; for an IPv6 address beside usable IPv4 iptables it passes without a look at any rule |
| Forward.CheckAfterDualAdd | plugins/plugins/meta/portmap/main.go:72-158 | after a successful ADD of a container with addresses of both families CHECK passes if and only if there is no mapping |
| Forward.MasqueradeComesFirst | plugins/plugins/meta/portmap/portmap.go:307-331 | thanks to the prepended entry a marked packet is masqueraded before any other rule of POSTROUTING, and other packets see the rules as before |
| Forward.TopLevelEntered | plugins/plugins/meta/portmap/portmap.go:155-168 | a packet for a local address that PREROUTING or OUTPUT lets through goes on in the top-level chain, any other is not affected |
| Forward.ForwardIdempotent | plugins/plugins/meta/portmap/portmap.go:52-113 | forwarding the same ports twice is forwarding them once |
| Forward.ForwardMeaning | plugins/plugins/meta/portmap/portmap.go:52-113 | on a table without the plugin's chains, forwarding does to every packet what the mappings say |
| Forward.ForwardSucceedsExactly | plugins/plugins/meta/portmap/portmap.go:52-113 | on a table without the plugin's chains forwarding succeeds if and only if the built-in chains it is entered from exist, POSTROUTING with own marks, and the comment is within its limit or there is no mapping |
| Forward.UnforwardUndoesForward | plugins/plugins/meta/portmap/portmap.go:352-387 | unforwarding leaves exactly the chains that containers share |
| Forward.UnforwardRemovesOld | plugins/plugins/meta/portmap/portmap.go:343-387 | the second teardown removes the chain of older versions, with the jumps to it from the old SNAT chain and nothing else; if some other chain jumps to it, it stays, empty, without an error |
| Containers.SeveralMeaning | plugins/plugins/meta/portmap/portmap.go:52-113 | after any containers were forwarded one after the other, every packet in the top-level chain goes where the rules that were there send it, and otherwise where the first container that has a mapping for it does |
| Containers.NetworkMeaning | plugins/plugins/meta/portmap/portmap.go:52-113 | so for the containers of one network on a table that had none of the plugin's chains, the first of them setting up the shared ones |
| Containers.UnforwardLeavesOthers | plugins/plugins/meta/portmap/chain.go:69-102 | teardown of any one container's chain leaves exactly the table that forwarding the others alone would have made |
| Results.Result020.GetAsVersion | cni/pkg/types/020/types.go:66-74 | exactly the three old versions, on the same object |
| Results.Result.GetAsVersion | cni/pkg/types/current/types.go:186-195 | stays the same object for the current versions, converts for the old ones, else fails |
| Results.Result.ConvertTo020 | cni/pkg/types/current/types.go:134-180 | the first address of each version, each with the routes of its family; fails only without any address |
| Results.To020Exactly | cni/pkg/types/current/types.go:134-180 | field by field: version 0.2.0, for each family the first address of its version with the family's routes, and an error if and only if there is no address of version 4 or 6 |
| Results.RoutesOfExactly | cni/pkg/types/current/types.go:159-173 | the routes of a family are those whose destination is of it, in order |
| Results.ConvertFrom020 | cni/pkg/types/current/types.go:60-101 | addresses and routes in order, IPv4 first; the old result's own version is set too |
| Results.From020Exactly | cni/pkg/types/current/types.go:60-101 | field by field: version 0.4.0, no interfaces, the IPv4 address and its routes before the IPv6 ones |
| Results.OldRoundTrip | cni/pkg/types/current/types.go:60-180 | 0.2.0 to current and back is the identity up to the version if and only if some address is there and each route sits under its own family |
| Results.CurrentRoundTrip | cni/pkg/types/current/types.go:60-180 | on every current result that converts, converting, going back and converting again is converting once |
| DhcpOptions.ParseCIDRRoutes | plugins/plugins/ipam/dhcp/options.go:65-105 | the loop returns the routes of the decoded descriptors, or nil where decoding fails, within bounds and with widths up to 32 |
| DhcpOptions.RoutesExactly | plugins/plugins/ipam/dhcp/options.go:65-105 | each decoded route leads to its subnet of four bytes, with a mask of as many ones as its width says, by its own router |
| DhcpOptions.OctetsHoldWidth | plugins/plugins/ipam/dhcp/options.go:75-79 | a width takes the least number of octets that holds as many bits |
| DhcpOptions.DecodeEncoded | plugins/plugins/ipam/dhcp/options.go:65-105 | decoding any concatenation of RFC 3442 descriptors returns exactly those |
| DhcpOptions.DecodeExactly | plugins/plugins/ipam/dhcp/options.go:65-105 | the decoder returns given descriptors if and only if the option is their encoding followed by fewer than five bytes |
| DhcpOptions.TwoRoutes | plugins/plugins/ipam/dhcp/options.go:65-105 | a concrete option with a /16 and a default route |

## Left out

- Cni.CmdAdd: does not model ADD when a dynamic Get would loop for ever, because the call does not return. When it succeeds is stated in `AddIsOutcome` for sets that can be walked and share no address only: a set with an empty range can give an address of another set's subnet (`EmptyRangeGivesOutside`), so that what one set gives depends on the others.
- Allocator.RangeIter.Next: does not model calls that recurse for ever (every address a gateway, and the walk does not close); `HaltsExactly` says which those are. The same holds of a dynamic Get that loops for ever, which `GetEndsExactly` describes.
- Config.LoadIPAMConfig: starts from decoded input, and hands over the range sets as values: `CanonicalizeSet` works in place on freshly allocated objects, so that two entries sharing one object are not modelled.
- HostLocal.Store.ReleaseByKey: file contents are pairs of container and interface, so that names with white space in them, and a container named like the text in a last-reserved file, are not modelled.
- DiskProtocol.NoLockNeeded: the last-reserved files are left out, and so is a process that dies between creating and writing a file.
- Portmap.FillDnatRules: mappings with a HostIP that does not parse are not modelled; the protocols come in any order where the code sorts them; the chain is returned rather than changed in place.
- Portmap.PortmapMeaning: rules are match fields and a target, not strings, and the extra conditions of the configuration are one test whose outcome belongs to the packet.
- Chains.Teardown: a listed rule is the rule, with no printing and parsing in between.
- What the kernel does with a packet (first match, ACCEPT, RETURN, marks) is this model's own reading of iptables; the repository only generates the rules.
- The kernel's own rule that a table holds no loops of jumps is replaced by a jump depth; the results hold at every depth of two and more.
- etcd requests that fail, time-outs, TLS, and waiting between attempts at the lock: each request is one atomic step that succeeds. That a lease lasts ten seconds is replaced by expiry at any time.
- The fixed-address annotation of Kubernetes in ADD, which does not touch the store, and the Kubernetes client.
- HostCni.CmdAdd: leaves out what Cni.CmdAdd does.
- HostLocal.Store.Reserve: a last-reserved file that a failed write leaves truncated is not part of the call; the file's content may be anything in `RunKeepsOne`. Removing the address file after a failed write of its content is taken to succeed.
- Releasing a single address, which nothing calls in either store.
- IPTables.MatchAccepted: that iptables refuses a comment of 256 characters is an assumption; the source names the limit of 255 in a comment only.
- Failures of ReleaseByID in rollback and DEL, which the code collects or ignores.
- The choice of iptables per family, where not a parameter; route_localnet; the hash in chain names, which are given.
- The other DHCP options, and the classful static routes of parseRoutes.
- JSON, flags, logging, resolv.conf, exec of plugins, netlink, namespaces, and the bridge, ipvlan, macvlan, ptp, vlan and tuning plugins.
