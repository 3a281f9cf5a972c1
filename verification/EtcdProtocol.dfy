/**
 backend/etcd/backend.go as a protocol: any number of clients, each etcd request one atomic step, leases
 that may expire between any two of them. Get and Release run as Lock, some Reserve or ReleaseByID calls
 (nothing else touches the keys), Unlock.
 */
module EtcdProtocol {
  import opened Options
  import opened GoNet
  import opened Stores

  /** Lock gives up after this many attempts. */
  const RETRY_TIMES := 20

  /** Where a client is. `lease` is the one it got from Lock; None means that Lock returned an error, which
      Get discards. */
  datatype PC =
    | Idle
    | Acquiring(tries: nat)
    | Granted(tries: nat, newLease: nat)
    | Critical(lease: Option<nat>)
    | Reserving(lease: Option<nat>, ip: IP, range: nat)
    | Recording(lease: Option<nat>, ip: IP, range: nat)
    | Releasing(lease: Option<nat>, keys: set<IP>)
    | Revoking(read: nat)
  {
    /** Between Lock's return and Unlock's reading of the lock key. */
    predicate InCritical() { Critical? || Reserving? || Recording? || Releasing? }
  }

  /** The keys in etcd, the leases that exist and those ever granted, and the clients with the containers they
      act for. `live` records the reservations that were reported as successful and not yet released. */
  datatype State = State(
    used: map<IP, string>, lastReserved: map<nat, IP>, lock: Option<nat>,
    leases: set<nat>, granted: set<nat>,
    clients: map<nat, PC>, ids: map<nat, string>, live: set<(IP, string)>)

  datatype Action =
    | StartLock(c: nat)
    | Grant(c: nat, l: nat)
    | Commit(c: nat)
    | ReserveGet(c: nat, ip: IP, range: nat)
    | ReservePut(c: nat)
    | RecordPut(c: nat)
    | ReleaseList(c: nat)
    | ReleaseDelete(c: nat, ip: IP)
    | ReleaseDone(c: nat)
    | UnlockGet(c: nat)
    | Revoke(c: nat)
    | Expire(l: nat)

  predicate Known(s: State, c: nat) { c in s.clients && c in s.ids }

  predicate Enabled(s: State, a: Action) {
    match a
    case StartLock(c) => Known(s, c) && s.clients[c].Idle?
    case Grant(c, l) => Known(s, c) && s.clients[c].Acquiring? && l !in s.granted
    case Commit(c) => Known(s, c) && s.clients[c].Granted?
    case ReserveGet(c, _, _) => Known(s, c) && s.clients[c].Critical?
    case ReservePut(c) => Known(s, c) && s.clients[c].Reserving?
    case RecordPut(c) => Known(s, c) && s.clients[c].Recording?
    case ReleaseList(c) => Known(s, c) && s.clients[c].Critical?
    case ReleaseDelete(c, ip) => Known(s, c) && s.clients[c].Releasing? && ip in s.clients[c].keys
    case ReleaseDone(c) => Known(s, c) && s.clients[c].Releasing? && s.clients[c].keys == {}
    case UnlockGet(c) => Known(s, c) && s.clients[c].Critical?
    case Revoke(c) => Known(s, c) && s.clients[c].Revoking?
    case Expire(l) => l in s.leases
  }

  function Goto(s: State, c: nat, pc: PC): State { s.(clients := s.clients[c := pc]) }

  /** A lease that ends takes the keys attached to it along. */
  function Drop(s: State, l: nat): State {
    s.(leases := s.leases - {l}, lock := if s.lock == Some(l) then None else s.lock)
  }

  /** Lock's transaction: create the lock key if it does not exist. Creating it under a lease that is gone is
      an error; finding it present costs one of the attempts. */
  function CommitTxn(s: State, c: nat, tries: nat, l: nat): State {
    if s.lock.Some? then Goto(s, c, if tries + 1 == RETRY_TIMES then Critical(None) else Acquiring(tries + 1))
    else if l in s.leases then Goto(s.(lock := Some(l)), c, Critical(Some(l)))
    else Goto(s, c, Critical(None))
  }

  function Apply(s: State, a: Action): State
    requires Enabled(s, a)
  {
    match a
    case StartLock(c) => Goto(s, c, Acquiring(0))
    case Grant(c, l) =>
      Goto(s.(leases := s.leases + {l}, granted := s.granted + {l}), c, Granted(s.clients[c].tries, l))
    case Commit(c) => CommitTxn(s, c, s.clients[c].tries, s.clients[c].newLease)
    case ReserveGet(c, ip, n) => if ip in s.used then s else Goto(s, c, Reserving(s.clients[c].lease, ip, n))
    case ReservePut(c) =>
      var ip, id := s.clients[c].ip, s.ids[c];
      Goto(s.(used := s.used[ip := id], live := s.live + {(ip, id)}), c,
           Recording(s.clients[c].lease, ip, s.clients[c].range))
    case RecordPut(c) =>
      Goto(s.(lastReserved := s.lastReserved[s.clients[c].range := s.clients[c].ip]), c,
           Critical(s.clients[c].lease))
    case ReleaseList(c) =>
      Goto(s, c, Releasing(s.clients[c].lease, set ip | ip in s.used && s.used[ip] == s.ids[c]))
    case ReleaseDelete(c, ip) =>
      Goto(s.(used := s.used - {ip}, live := s.live - {(ip, s.ids[c])}), c,
           Releasing(s.clients[c].lease, s.clients[c].keys - {ip}))
    case ReleaseDone(c) => Goto(s, c, Critical(s.clients[c].lease))
    case UnlockGet(c) => Goto(s, c, if s.lock.Some? then Revoking(s.lock.value) else Idle)
    case Revoke(c) => Goto(Drop(s, s.clients[c].read), c, Idle)
    case Expire(l) => Drop(s, l)
  }

  // ---------- Runs ----------

  predicate Init(s: State) {
    && s.lock.None? && s.leases == {} && s.granted == {}
    && (forall c :: c in s.clients ==> s.clients[c].Idle?)
    && s.live == set ip | ip in s.used :: (ip, s.used[ip])
  }

  predicate Legal(s: State, run: seq<Action>)
    decreases |run|
  {
    run == [] || (Enabled(s, run[0]) && Legal(Apply(s, run[0]), run[1..]))
  }

  function End(s: State, run: seq<Action>): State
    requires Legal(s, run)
    decreases |run|
  {
    if run == [] then s else End(Apply(s, run[0]), run[1..])
  }

  // ---------- The hypotheses, on events ----------

  /** Lock does not return an error. */
  predicate LockGranted(s: State, a: Action)
    requires Enabled(s, a)
  {
    a.Commit? ==> Apply(s, a).clients[a.c] != Critical(None)
  }

  /** What expires is not the lease of a client in its critical section. */
  predicate SparesHolders(s: State, a: Action) {
    a.Expire? ==>
      forall c {:trigger s.clients[c]} :: c in s.clients && s.clients[c].InCritical() ==>
        s.clients[c].lease != Some(a.l)
  }

  predicate AllLocksGranted(s: State, run: seq<Action>)
    requires Legal(s, run)
    decreases |run|
  {
    run == [] || (LockGranted(s, run[0]) && AllLocksGranted(Apply(s, run[0]), run[1..]))
  }

  predicate NoHolderExpires(s: State, run: seq<Action>)
    requires Legal(s, run)
    decreases |run|
  {
    run == [] || (SparesHolders(s, run[0]) && NoHolderExpires(Apply(s, run[0]), run[1..]))
  }

  predicate OkRun(s: State, run: seq<Action>)
    requires Legal(s, run)
  {
    AllLocksGranted(s, run) && NoHolderExpires(s, run)
  }

  // ---------- The invariant ----------

  /** The lease that a client may yet put into the lock key, holds, or is about to revoke. */
  function OwnLease(pc: PC): Option<nat> {
    match pc
    case Idle => None
    case Acquiring(_) => None
    case Granted(_, l) => Some(l)
    case Critical(l) => l
    case Reserving(l, _, _) => l
    case Recording(l, _, _) => l
    case Releasing(l, _) => l
    case Revoking(l) => Some(l)
  }

  ghost predicate LeasesGranted(s: State) {
    && s.leases <= s.granted
    && (s.lock.Some? ==> s.lock.value in s.leases)
    && forall c {:trigger s.clients[c]} :: c in s.clients && OwnLease(s.clients[c]).Some? ==>
         OwnLease(s.clients[c]).value in s.granted
  }

  ghost predicate LeasesDiffer(s: State) {
    forall c, d {:trigger s.clients[c], s.clients[d]} ::
      (c in s.clients && d in s.clients && c != d && OwnLease(s.clients[c]).Some?) ==>
        OwnLease(s.clients[c]) != OwnLease(s.clients[d])
  }

  /** A client whose lease from Lock still exists holds the lock key. */
  ghost predicate HoldersLock(s: State) {
    forall c {:trigger s.clients[c]} ::
      (c in s.clients && s.clients[c].InCritical()
       && s.clients[c].lease.Some? && s.clients[c].lease.value in s.leases) ==>
        s.lock == s.clients[c].lease
  }

  /** What a client found before its Put or Deletes is still so. */
  ghost predicate PendingValid(s: State, c: nat)
    requires c in s.clients
  {
    match s.clients[c]
    case Reserving(_, ip, _) => ip !in s.used
    case Releasing(_, keys) => c in s.ids && forall ip :: ip in keys ==> ip in s.used && s.used[ip] == s.ids[c]
    case _ => true
  }

  ghost predicate LiveIsUsed(s: State) {
    forall ip, id :: (ip, id) in s.live <==> ip in s.used && s.used[ip] == id
  }

  /** Whoever is in its critical section got nil from Lock, and its lease exists. */
  predicate Sound(s: State) {
    forall c {:trigger s.clients[c]} :: c in s.clients && s.clients[c].InCritical() ==>
      s.clients[c].lease.Some? && s.clients[c].lease.value in s.leases
  }

  ghost predicate Inv(s: State) {
    && LeasesGranted(s) && LeasesDiffer(s) && HoldersLock(s) && LiveIsUsed(s)
    && forall c {:trigger PendingValid(s, c)} :: c in s.clients ==> PendingValid(s, c)
  }

  /** At most one client is in its critical section, and the lock key names its lease. */
  lemma MutualExclusion(s: State, c: nat, d: nat)
    requires Inv(s) && Sound(s)
    requires c in s.clients && s.clients[c].InCritical() && d in s.clients && s.clients[d].InCritical()
    ensures c == d && s.lock == s.clients[c].lease
  {
  }

  lemma InitInv(s: State)
    requires Init(s)
    ensures Inv(s) && Sound(s)
  {
  }

  lemma StepGranted(s: State, a: Action)
    requires Inv(s) && Enabled(s, a)
    ensures LeasesGranted(Apply(s, a))
  {
  }

  lemma StepDiffer(s: State, a: Action)
    requires Inv(s) && Sound(s) && Enabled(s, a)
    ensures LeasesDiffer(Apply(s, a))
  {
    forall c, d | c in s.clients && d in s.clients && c != d && OwnLease(Apply(s, a).clients[c]).Some?
      ensures OwnLease(Apply(s, a).clients[c]) != OwnLease(Apply(s, a).clients[d])
    {
      StepDifferPair(s, a, c, d);
    }
  }

  lemma StepDifferPair(s: State, a: Action, c: nat, d: nat)
    requires LeasesGranted(s) && LeasesDiffer(s) && HoldersLock(s) && Sound(s) && Enabled(s, a)
    requires c in s.clients && d in s.clients && c != d && OwnLease(Apply(s, a).clients[c]).Some?
    ensures OwnLease(Apply(s, a).clients[c]) != OwnLease(Apply(s, a).clients[d])
  {
    StepOwn(s, a, c);
    StepOwn(s, a, d);
    assert OwnLease(s.clients[c]).Some? ==> OwnLease(s.clients[c]) != OwnLease(s.clients[d]);
  }

  /** A client keeps its own lease, gives it up, or is granted a new one. */
  lemma StepOwn(s: State, a: Action, c: nat)
    requires HoldersLock(s) && Sound(s) && Enabled(s, a) && c in s.clients
    ensures c in Apply(s, a).clients
    ensures var own, own' := OwnLease(s.clients[c]), OwnLease(Apply(s, a).clients[c]);
      own' == None || own' == own || (a.Grant? && a.c == c && own' == Some(a.l) && a.l !in s.granted)
  {
    assert s.clients[c].InCritical() ==> s.lock == s.clients[c].lease;
  }

  lemma StepHolders(s: State, a: Action)
    requires Inv(s) && Sound(s) && Enabled(s, a)
    ensures HoldersLock(Apply(s, a))
  {
  }

  lemma StepPending(s: State, a: Action, c: nat)
    requires Inv(s) && Sound(s) && Enabled(s, a) && c in s.clients
    ensures c in Apply(s, a).clients && PendingValid(Apply(s, a), c)
  {
    assert PendingValid(s, c);
    match a
    case ReservePut(d) => if s.clients[c].InCritical() { MutualExclusion(s, c, d); }
    case ReleaseDelete(d, _) => if s.clients[c].InCritical() { MutualExclusion(s, c, d); }
    case _ =>
  }

  lemma StepLive(s: State, a: Action)
    requires Inv(s) && Enabled(s, a)
    ensures LiveIsUsed(Apply(s, a))
  {
    if !a.Expire? && a.c in s.clients { assert PendingValid(s, a.c); }
  }

  /** Every step of every client, and every expiry, keeps the invariant. */
  lemma StepInv(s: State, a: Action)
    requires Inv(s) && Sound(s) && Enabled(s, a)
    ensures Inv(Apply(s, a))
  {
    StepGranted(s, a);
    StepDiffer(s, a);
    StepHolders(s, a);
    StepLive(s, a);
    forall c | c in Apply(s, a).clients ensures PendingValid(Apply(s, a), c) { StepPending(s, a, c); }
  }

  /** Revoking drops no other client's lease: the one that Unlock read is its own. */
  lemma RevokeSparesOthers(s: State, c: nat, d: nat)
    requires Inv(s) && Enabled(s, Revoke(c)) && d in s.clients && d != c && OwnLease(s.clients[d]).Some?
    ensures var t, l := Apply(s, Revoke(c)), OwnLease(s.clients[d]);
      (l.value in t.leases <==> l.value in s.leases) && (t.lock == l <==> s.lock == l)
  {
    assert OwnLease(s.clients[c]) == Some(s.clients[c].read);
  }

  /** Only a Lock that fails and the expiry of a holder's lease make a state unsound: no other step, of
      whatever client, ends a lease whose client is in its critical section. */
  lemma StepSound(s: State, a: Action)
    requires Inv(s) && Sound(s) && Enabled(s, a)
    ensures Sound(Apply(s, a)) <==> LockGranted(s, a) && SparesHolders(s, a)
  {
    if !LockGranted(s, a) {
      assert Apply(s, a).clients[a.c] == Critical(None);
    } else if !SparesHolders(s, a) {
      var c :| c in s.clients && s.clients[c].InCritical() && s.clients[c].lease == Some(a.l);
      assert Apply(s, a).clients[c] == s.clients[c];
    } else {
      forall c | c in Apply(s, a).clients && Apply(s, a).clients[c].InCritical()
        ensures Apply(s, a).clients[c].lease.Some? && Apply(s, a).clients[c].lease.value in Apply(s, a).leases
      {
        StaysSound(s, a, c);
      }
    }
  }

  lemma StaysSound(s: State, a: Action, c: nat)
    requires Inv(s) && Sound(s) && Enabled(s, a) && LockGranted(s, a) && SparesHolders(s, a)
    requires c in Apply(s, a).clients && Apply(s, a).clients[c].InCritical()
    ensures Apply(s, a).clients[c].lease.Some? && Apply(s, a).clients[c].lease.value in Apply(s, a).leases
  {
    if a.Revoke? { RevokeSparesOthers(s, a.c, c); }
  }

  /** The hypotheses as they were needed of every state. */
  predicate SoundRun(s: State, run: seq<Action>)
    requires Legal(s, run)
    decreases |run|
  {
    Sound(s) && (run == [] || SoundRun(Apply(s, run[0]), run[1..]))
  }

  /** It is enough that these two events do not happen. */
  lemma {:induction false} OkIsSound(s: State, run: seq<Action>)
    requires Inv(s) && Sound(s) && Legal(s, run)
    ensures OkRun(s, run) <==> SoundRun(s, run)
    decreases |run|
  {
    if run != [] {
      StepSound(s, run[0]);
      StepInv(s, run[0]);
      if Sound(Apply(s, run[0])) { OkIsSound(Apply(s, run[0]), run[1..]); }
    }
  }

  lemma {:induction false} RunInv(s: State, run: seq<Action>)
    requires Inv(s) && Sound(s) && Legal(s, run) && OkRun(s, run)
    ensures Inv(End(s, run)) && Sound(End(s, run))
    decreases |run|
  {
    if run != [] {
      StepInv(s, run[0]);
      StepSound(s, run[0]);
      RunInv(Apply(s, run[0]), run[1..]);
    }
  }

  /** Safety over whole runs. In every interleaving in which no Lock returns an error and no lease expires in its
      client's critical section, whatever the others revoke: one client at a time is in it, the lock key holds
      that client's lease, a pending Put has no owner to overwrite, and no address is live for two containers. */
  lemma RunIsSafe(s: State, run: seq<Action>)
    requires Init(s) && Legal(s, run) && OkRun(s, run)
    ensures var t := End(s, run);
      && (forall c, d :: c in t.clients && d in t.clients && t.clients[c].InCritical() && t.clients[d].InCritical()
            ==> c == d && t.lock == t.clients[c].lease)
      && (forall c :: c in t.clients && t.clients[c].Reserving? ==> t.clients[c].ip !in t.used)
      && (forall ip, id, other :: (ip, id) in t.live && (ip, other) in t.live ==> id == other)
      && (forall ip, id :: (ip, id) in t.live ==> ip in t.used && t.used[ip] == id)
  {
    InitInv(s);
    RunInv(s, run);
    var t := End(s, run);
    forall c | c in t.clients && t.clients[c].Reserving? ensures t.clients[c].ip !in t.used {
      assert PendingValid(t, c);
    }
  }

  /** So Unlock, when it reads the lock key, reads the lease of its own client. */
  lemma UnlockRevokesOwn(s: State, c: nat)
    requires Inv(s) && Sound(s) && Enabled(s, UnlockGet(c))
    ensures Apply(s, UnlockGet(c)).clients[c] == Revoking(s.clients[c].lease.value)
  {
  }

  /** Unlock gives the lock back: when its Revoke is done its lease is gone, and the lock key with it. */
  lemma UnlockFrees(s: State, c: nat)
    requires Inv(s) && Enabled(s, Revoke(c))
    ensures var t, l := Apply(s, Revoke(c)), s.clients[c].read;
      t.clients[c].Idle? && l !in t.leases && t.lock != Some(l) && (s.lock == Some(l) ==> t.lock.None?)
  {
  }

  /** So does the expiry of the lease of a client that never comes to Unlock. */
  lemma ExpiryFrees(s: State, l: nat)
    requires Enabled(s, Expire(l)) && s.lock == Some(l)
    ensures Apply(s, Expire(l)).lock.None?
  {
  }

  // ---------- How often Lock tries ----------

  /** How many of the client's transactions have found the lock key present since it last began to lock. */
  function Contended(s: State, run: seq<Action>, c: nat, n: nat): nat
    requires Legal(s, run)
    decreases |run|
  {
    if run == [] then n
    else
      Contended(Apply(s, run[0]), run[1..], c,
                if run[0] == StartLock(c) then 0 else if run[0] == Commit(c) && s.lock.Some? then n + 1 else n)
  }

  /** The lease that the client was granted last. */
  function LastGranted(run: seq<Action>, c: nat, g: Option<nat>): Option<nat>
    decreases |run|
  {
    if run == [] then g
    else LastGranted(run[1..], c, if run[0].Grant? && run[0].c == c then Some(run[0].l) else g)
  }

  /** The client is where its attempts so far have brought it. */
  predicate Trying(pc: PC, n: nat, g: Option<nat>) {
    match pc
    case Acquiring(tries) => tries == n && n < 20
    case Granted(tries, l) => tries == n && n < 20 && g == Some(l)
    case _ => true
  }

  lemma {:induction false} RunTries(s: State, run: seq<Action>, c: nat, n: nat, g: Option<nat>)
    requires Legal(s, run) && c in s.clients && Trying(s.clients[c], n, g)
    ensures var t := End(s, run);
      c in t.clients && Trying(t.clients[c], Contended(s, run, c, n), LastGranted(run, c, g))
    decreases |run|
  {
    if run != [] {
      var a := run[0];
      RunTries(Apply(s, a), run[1..], c,
               if a == StartLock(c) then 0 else if a == Commit(c) && s.lock.Some? then n + 1 else n,
               if a.Grant? && a.c == c then Some(a.l) else g);
    }
  }

  /** What a transaction of Lock leads to in any run: into the critical section, under the lease granted last, if it
      finds no lock key and that lease still exists; back to another attempt if it finds the key and is not the
      twentieth to do so; and to an error exactly if it is, or finds no key and its lease gone. */
  lemma LockTriesTwentyTimes(s: State, run: seq<Action>, c: nat)
    requires Init(s) && Legal(s, run) && Enabled(End(s, run), Commit(c))
    ensures var t, k, g := End(s, run), Contended(s, run, c, 0), LastGranted(run, c, None);
      var pc := Apply(t, Commit(c)).clients[c];
      && k < 20 && g.Some?
      && (pc == Critical(g) <==> t.lock.None? && g.value in t.leases)
      && (pc == Acquiring(k + 1) <==> t.lock.Some? && k < 19)
      && (pc == Critical(None) <==> (t.lock.Some? && k == 19) || (t.lock.None? && g.value !in t.leases))
  {
    var t := End(s, run);
    KeepsClients(s, run, c);
    RunTries(s, run, c, 0, None);
  }

  lemma {:induction false} KeepsClients(s: State, run: seq<Action>, c: nat)
    requires Legal(s, run)
    ensures c in End(s, run).clients ==> c in s.clients
    decreases |run|
  {
    if run != [] { KeepsClients(Apply(s, run[0]), run[1..], c); }
  }

  // ---------- Reserve and ReleaseByID are atomic ----------

  predicate ActsFor(a: Action, c: nat) { !a.Expire? && a.c == c }

  /** While a client is in its critical section, nobody else touches the reservations. */
  lemma OthersKeepStore(s: State, a: Action, c: nat)
    requires Inv(s) && Sound(s) && Enabled(s, a)
    requires c in s.clients && s.clients[c].InCritical() && !ActsFor(a, c)
    ensures var t := Apply(s, a);
      t.used == s.used && t.lastReserved == s.lastReserved && t.ids == s.ids
      && c in t.clients && t.clients[c] == s.clients[c]
  {
    if !a.Expire? && a.c in s.clients && s.clients[a.c].InCritical() { MutualExclusion(s, c, a.c); }
  }

  /** The client is back from its call only after the last step of the run. */
  predicate OneCall(s: State, run: seq<Action>, c: nat)
    requires Legal(s, run)
    decreases |run|
  {
    run == [] || (c in s.clients && !s.clients[c].Critical? && OneCall(Apply(s, run[0]), run[1..], c))
  }

  predicate Returned(s: State, run: seq<Action>, c: nat)
    requires Legal(s, run)
  {
    OneCall(s, run, c) && c in End(s, run).clients && End(s, run).clients[c].Critical?
  }

  /** Whatever the other clients do meanwhile, a Reserve that found the key absent has in the end done what the
      store's Reserve does in one step to the reservations as they were when it began. */
  lemma {:induction false} ReserveIsAtomic(s: State, run: seq<Action>, c: nat, used: map<IP, string>,
                                           last: map<nat, IP>)
    requires Inv(s) && Sound(s) && Legal(s, run) && OkRun(s, run) && Returned(s, run, c)
    requires c in s.clients && c in s.ids && s.lastReserved == last
    requires (s.clients[c].Reserving? && s.used == used) ||
             (s.clients[c].Recording? && s.used == used[s.clients[c].ip := s.ids[c]])
    ensures End(s, run).used == used[s.clients[c].ip := s.ids[c]]
    ensures End(s, run).lastReserved == last[s.clients[c].range := s.clients[c].ip]
    ensures End(s, run).ids == s.ids
    decreases |run|
  {
    var a := run[0];
    var t := Apply(s, a);
    StepInv(s, a);
    StepSound(s, a);
    if ActsFor(a, c) && a.RecordPut? {
      assert OneCall(t, run[1..], c);
    } else {
      if !ActsFor(a, c) { OthersKeepStore(s, a, c); }
      ReserveIsAtomic(t, run[1..], c, used, last);
    }
  }

  /** Likewise a ReleaseByID removes exactly the reservations its container had when it began. */
  lemma {:induction false} ReleaseIsAtomic(s: State, run: seq<Action>, c: nat, used: map<IP, string>,
                                           last: map<nat, IP>)
    requires Inv(s) && Sound(s) && Legal(s, run) && OkRun(s, run) && Returned(s, run, c)
    requires c in s.clients && c in s.ids && s.lastReserved == last && s.clients[c].Releasing?
    requires s.clients[c].keys <= used.Keys
    requires s.used == map k | k in used && (k in s.clients[c].keys || used[k] != s.ids[c]) :: used[k]
    ensures End(s, run).used == Without(used, s.ids[c]) && End(s, run).lastReserved == last
    decreases |run|
  {
    var a := run[0];
    var t := Apply(s, a);
    assert PendingValid(s, c);
    StepInv(s, a);
    StepSound(s, a);
    if ActsFor(a, c) && a.ReleaseDone? {
      assert OneCall(t, run[1..], c);
    } else {
      if !ActsFor(a, c) { OthersKeepStore(s, a, c); }
      ReleaseIsAtomic(t, run[1..], c, used, last);
    }
  }

  /** A whole call, from its listing on. */
  lemma ReleaseCallIsAtomic(s: State, run: seq<Action>, c: nat)
    requires Inv(s) && Sound(s) && Legal(s, run) && OkRun(s, run) && run != [] && run[0] == ReleaseList(c)
    requires Returned(Apply(s, run[0]), run[1..], c)
    ensures End(s, run).used == Without(s.used, s.ids[c]) && End(s, run).lastReserved == s.lastReserved
  {
    var t := Apply(s, run[0]);
    StepInv(s, run[0]);
    StepSound(s, run[0]);
    assert t.used == map k | k in s.used && (k in t.clients[c].keys || s.used[k] != t.ids[c]) :: s.used[k];
    ReleaseIsAtomic(t, run[1..], c, s.used, s.lastReserved);
  }

  /** Likewise a whole Reserve: it takes the address exactly if it is free. */
  lemma ReserveCallIsAtomic(s: State, run: seq<Action>, c: nat, ip: IP, n: nat)
    requires Inv(s) && Sound(s) && Legal(s, run) && OkRun(s, run) && run != [] && run[0] == ReserveGet(c, ip, n)
    requires Returned(Apply(s, run[0]), run[1..], c)
    ensures End(s, run).used == if ip in s.used then s.used else s.used[ip := s.ids[c]]
    ensures End(s, run).lastReserved == if ip in s.used then s.lastReserved else s.lastReserved[n := ip]
  {
    var t := Apply(s, run[0]);
    StepInv(s, run[0]);
    StepSound(s, run[0]);
    if ip !in s.used { ReserveIsAtomic(t, run[1..], c, s.used, s.lastReserved); }
  }

  // ---------- Neither hypothesis can be dropped ----------

  lemma {:induction false} Extend(s: State, run: seq<Action>, a: Action)
    requires Legal(s, run) && Enabled(End(s, run), a)
    ensures Legal(s, run + [a]) && End(s, run + [a]) == Apply(End(s, run), a)
    ensures AllLocksGranted(s, run + [a]) <==> AllLocksGranted(s, run) && LockGranted(End(s, run), a)
    ensures NoHolderExpires(s, run + [a]) <==> NoHolderExpires(s, run) && SparesHolders(End(s, run), a)
    decreases |run|
  {
    if run != [] {
      Extend(Apply(s, run[0]), run[1..], a);
      assert (run + [a])[1..] == run[1..] + [a];
    } else {
      assert [a][1..] == [];
    }
  }

  /** The hypotheses that hold of one run hold of the other. */
  predicate KeepsHypotheses(s: State, run: seq<Action>, run': seq<Action>)
    requires Legal(s, run) && Legal(s, run')
  {
    && (AllLocksGranted(s, run) ==> AllLocksGranted(s, run'))
    && (NoHolderExpires(s, run) ==> NoHolderExpires(s, run'))
  }

  function TwoClients(): State {
    State(map[], map[], None, {}, {}, map[1 := Idle, 2 := Idle], map[1 := "a", 2 := "b"], {})
  }

  /** Both containers of `TwoClients` are told that the address is theirs. */
  predicate DoublyLive(s: State, ip: IP) { (ip, "a") in s.live && (ip, "b") in s.live }

  /** From two critical sections at once, the address goes to both. */
  lemma BothReserve(s: State, run: seq<Action>, ip: IP) returns (run': seq<Action>)
    requires Legal(s, run)
    requires var t := End(s, run);
      Known(t, 1) && Known(t, 2) && t.ids[1] == "a" && t.ids[2] == "b"
      && t.clients[1].Critical? && t.clients[2].Critical? && ip !in t.used
    ensures Legal(s, run') && DoublyLive(End(s, run'), ip) && KeepsHypotheses(s, run, run')
  {
    run' := run;
    for k := 0 to 4
      invariant Legal(s, run') && KeepsHypotheses(s, run, run')
      invariant var t := End(s, run');
        && Known(t, 1) && Known(t, 2) && t.ids[1] == "a" && t.ids[2] == "b"
        && (k < 3 ==> ip !in t.used)
        && (k == 0 ==> t.clients[1].Critical? && t.clients[2].Critical?)
        && (k == 1 ==> t.clients[1].Reserving? && t.clients[1].ip == ip && t.clients[2].Critical?)
        && (k == 2 ==> t.clients[1].Reserving? && t.clients[1].ip == ip)
        && (k == 2 || k == 3 ==> t.clients[2].Reserving? && t.clients[2].ip == ip)
        && (k >= 3 ==> (ip, "a") in t.live) && (k == 4 ==> (ip, "b") in t.live)
    {
      var a := if k == 0 then ReserveGet(1, ip, 0) else if k == 1 then ReserveGet(2, ip, 0)
               else if k == 2 then ReservePut(1) else ReservePut(2);
      Extend(s, run', a);
      run' := run' + [a];
    }
  }

  /** A client gets the lock. */
  lemma Locks(s: State, run: seq<Action>, c: nat, l: nat) returns (run': seq<Action>)
    requires Legal(s, run)
    requires var t := End(s, run); Known(t, c) && t.clients[c].Idle? && t.lock.None? && l !in t.granted
    ensures Legal(s, run') && KeepsHypotheses(s, run, run')
    ensures var t := End(s, run);
      End(s, run') == t.(lock := Some(l), leases := t.leases + {l}, granted := t.granted + {l},
                         clients := t.clients[c := Critical(Some(l))])
  {
    Extend(s, run, StartLock(c));
    run' := run + [StartLock(c)];
    Extend(s, run', Grant(c, l));
    run' := run' + [Grant(c, l)];
    Extend(s, run', Commit(c));
    run' := run' + [Commit(c)];
  }

  /** A client whose lease expires before its transaction fails to get the lock, and Get carries on. */
  lemma LockFails(s: State, c: nat, l: nat) returns (run: seq<Action>)
    requires Known(s, c) && s.clients[c].Idle? && s.lock.None? && l !in s.granted
    requires forall d :: d in s.clients ==> s.clients[d].Idle?
    ensures Legal(s, run) && NoHolderExpires(s, run)
    ensures End(s, run) == s.(leases := s.leases - {l}, granted := s.granted + {l},
                              clients := s.clients[c := Critical(None)])
  {
    Extend(s, [], StartLock(c));
    run := [] + [StartLock(c)];
    Extend(s, run, Grant(c, l));
    run := run + [Grant(c, l)];
    Extend(s, run, Expire(l));
    run := run + [Expire(l)];
    Extend(s, run, Commit(c));
    run := run + [Commit(c)];
  }

  /** If Lock's error is discarded, one address can be handed to two containers although no lease expires in a
      critical section. */
  lemma DiscardedLockErrorBreaksSafety(ip: IP) returns (run: seq<Action>)
    ensures Init(TwoClients()) && Legal(TwoClients(), run) && NoHolderExpires(TwoClients(), run)
    ensures DoublyLive(End(TwoClients(), run), ip)
  {
    var s := TwoClients();
    run := LockFails(s, 2, 0);
    run := Locks(s, run, 1, 1);
    run := BothReserve(s, run, ip);
  }

  /** If a lease may expire in a critical section, so can it although every Lock succeeds. */
  lemma ExpiredLeaseBreaksSafety(ip: IP) returns (run: seq<Action>)
    ensures Init(TwoClients()) && Legal(TwoClients(), run) && AllLocksGranted(TwoClients(), run)
    ensures DoublyLive(End(TwoClients(), run), ip)
  {
    var s := TwoClients();
    run := Locks(s, [], 1, 0);
    Extend(s, run, Expire(0));
    run := Locks(s, run + [Expire(0)], 2, 1);
    run := BothReserve(s, run, ip);
  }
}
