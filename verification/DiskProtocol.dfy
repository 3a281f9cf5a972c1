/**
 backend/disk/backend.go as interleaved file operations of many plugin processes, with no file lock. An
 address file is a name that refers to an inode; an open file keeps its inode when the name is removed.
 */
module DiskProtocol {
  import opened Options
  import opened GoNet

  /** What a process is about to do: write the file it has created, or remove a file it has found to be its own. */
  datatype PC = Idle | Created(ip: IP, inode: nat) | Found(ip: IP)

  /** Which container every process works for is fixed. `creator` and `live` are ghost: who created an inode,
      and the reservations reported as made and not yet as released. */
  datatype State = State(files: map<IP, nat>, content: map<nat, nat>, inodes: nat, procs: map<nat, PC>,
                         container: map<nat, nat>, creator: map<nat, nat>, live: set<(IP, nat)>)

  datatype Action =
    | Create(p: nat, ip: IP)   // OpenFile with O_EXCL and O_CREATE
    | Write(p: nat)            // WriteString, and Reserve returns true
    | FailWrite(p: nat)        // WriteString fails, and the name is removed
    | Find(p: nat, ip: IP)     // ReleaseByKey reads a file that holds its container
    | Remove(p: nat)           // ... and removes the name

  predicate Holds(s: State, ip: IP, c: nat) {
    ip in s.files && s.files[ip] in s.content && s.content[s.files[ip]] == c
  }

  predicate Enabled(s: State, a: Action) {
    && a.p in s.procs && a.p in s.container
    && match a
       case Create(p, _) => s.procs[p].Idle?
       case Write(p) => s.procs[p].Created?
       case FailWrite(p) => s.procs[p].Created?
       case Find(p, ip) => s.procs[p].Idle? && Holds(s, ip, s.container[p])
       case Remove(p) => s.procs[p].Found?
  }

  function Apply(s: State, a: Action): State
    requires Enabled(s, a)
  {
    match a
    case Create(p, ip) =>
      if ip in s.files then s
      else s.(files := s.files[ip := s.inodes], inodes := s.inodes + 1,
              procs := s.procs[p := Created(ip, s.inodes)], creator := s.creator[s.inodes := s.container[p]])
    case Write(p) =>
      s.(content := s.content[s.procs[p].inode := s.container[p]], procs := s.procs[p := Idle],
         live := s.live + {(s.procs[p].ip, s.container[p])})
    case FailWrite(p) => s.(files := s.files - {s.procs[p].ip}, procs := s.procs[p := Idle])
    case Find(p, ip) => s.(procs := s.procs[p := Found(ip)])
    case Remove(p) =>
      s.(files := s.files - {s.procs[p].ip}, procs := s.procs[p := Idle],
         live := s.live - {(s.procs[p].ip, s.container[p])})
  }

  predicate Init(s: State) {
    && s.files == map[] && s.content == map[] && s.creator == map[] && s.live == {}
    && s.procs.Keys == s.container.Keys
    && forall p {:trigger s.procs[p]} :: p in s.procs ==> s.procs[p] == Idle
  }

  predicate Legal(s: State, run: seq<Action>)
    decreases |run|
  {
    run == [] || (Enabled(s, run[0]) && Legal(Apply(s, run[0]), run[1..]))
  }

  function End(s: State, run: seq<Action>): State
    requires Legal(s, run)
    decreases |run|
  {
    if run == [] then s else End(Apply(s, run[0]), run[1..])
  }

  // ---------- One owner per file ----------

  /** A file is written by nobody but the container whose exclusive create made it. */
  ghost predicate OneOwner(s: State) {
    && s.procs.Keys == s.container.Keys
    && (forall i {:trigger i in s.creator} :: i in s.creator ==> i < s.inodes)
    && (forall ip {:trigger s.files[ip]} :: ip in s.files ==> s.files[ip] in s.creator)
    && (forall i {:trigger s.content[i]} :: i in s.content ==> i in s.creator && s.content[i] == s.creator[i])
    && (forall p {:trigger s.procs[p]} :: p in s.procs && s.procs[p].Created? ==>
          s.procs[p].inode in s.creator && s.creator[s.procs[p].inode] == s.container[p])
    && (forall a, b {:trigger s.files[a], s.files[b]} ::
          a in s.files && b in s.files && s.files[a] == s.files[b] ==> a == b)
  }

  ghost predicate SameOwners(s: State, s': State) {
    forall i {:trigger i in s.content} :: i in s.content ==> i in s'.content && s'.content[i] == s.content[i]
  }

  lemma StepOneOwner(s: State, a: Action)
    requires OneOwner(s) && Enabled(s, a)
    ensures OneOwner(Apply(s, a)) && SameOwners(s, Apply(s, a))
  {
  }

  /** In every interleaving an address file has one creator, holds that creator or nothing yet, and never
      changes its owner. */
  lemma {:induction false} RunOneOwner(s: State, run: seq<Action>)
    requires OneOwner(s) && Legal(s, run)
    ensures OneOwner(End(s, run)) && SameOwners(s, End(s, run))
    decreases |run|
  {
    if run != [] {
      StepOneOwner(s, run[0]);
      RunOneOwner(Apply(s, run[0]), run[1..]);
    }
  }

  /** A create whose write fails leaves the directory as it was, so that the address can be created again. */
  lemma FailedWriteUndoesCreate(s: State, p: nat, ip: IP)
    requires Enabled(s, Create(p, ip)) && ip !in s.files
    ensures var s' := Apply(s, Create(p, ip));
      Enabled(s', FailWrite(p)) && Apply(s', FailWrite(p)).files == s.files && Apply(s', FailWrite(p)).live == s.live
  {
  }

  // ---------- Reservations are exclusive ----------

  /** No container has two operations going on at once. */
  predicate Serial(s: State) {
    forall p, q {:trigger s.procs[p], s.procs[q]} ::
      (p in s.procs && q in s.procs && p in s.container && q in s.container
       && !s.procs[p].Idle? && !s.procs[q].Idle? && s.container[p] == s.container[q]) ==> p == q
  }

  predicate SerialRun(s: State, run: seq<Action>)
    requires Legal(s, run)
    decreases |run|
  {
    Serial(s) && (run == [] || SerialRun(Apply(s, run[0]), run[1..]))
  }

  /** What a process found before its last step is still so. */
  predicate Pending(s: State, p: nat)
    requires p in s.procs && p in s.container
  {
    match s.procs[p]
    case Idle => true
    case Created(ip, inode) => ip in s.files && s.files[ip] == inode && inode !in s.content
    case Found(ip) => Holds(s, ip, s.container[p])
  }

  /** A reservation is live exactly when its file names the container. */
  ghost predicate Exclusive(s: State) {
    && OneOwner(s)
    && (forall p {:trigger Pending(s, p)} :: p in s.procs ==> Pending(s, p))
    && (forall ip, c: nat {:trigger Holds(s, ip, c)} :: (ip, c) in s.live <==> Holds(s, ip, c))
  }

  lemma StepPending(s: State, a: Action, p: nat)
    requires Exclusive(s) && Serial(s) && Enabled(s, a) && p in s.procs
    ensures Pending(Apply(s, a), p)
  {
    assert Pending(s, p) && Pending(s, a.p);
  }

  lemma StepExclusive(s: State, a: Action)
    requires Exclusive(s) && Serial(s) && Enabled(s, a)
    ensures Exclusive(Apply(s, a))
  {
    var s' := Apply(s, a);
    StepOneOwner(s, a);
    forall p | p in s'.procs ensures Pending(s', p) { StepPending(s, a, p); }
    forall ip, c: nat ensures (ip, c) in s'.live <==> Holds(s', ip, c) {
      assert Holds(s, ip, c) <==> (ip, c) in s.live;
      assert Pending(s, a.p);
    }
  }

  lemma {:induction false} RunExclusive(s: State, run: seq<Action>)
    requires Exclusive(s) && Legal(s, run) && SerialRun(s, run)
    ensures Exclusive(End(s, run))
    decreases |run|
  {
    if run != [] {
      StepExclusive(s, run[0]);
      RunExclusive(Apply(s, run[0]), run[1..]);
    }
  }

  /** From an empty directory, in every interleaving of the containers' operations, with no lock at all, no
      address is live for two containers: it is live for the one its file names. */
  lemma NoLockNeeded(s: State, run: seq<Action>, ip: IP, c: nat, d: nat)
    requires Init(s) && Legal(s, run) && SerialRun(s, run)
    ensures (ip, c) in End(s, run).live <==> Holds(End(s, run), ip, c)
    ensures (ip, c) in End(s, run).live && (ip, d) in End(s, run).live ==> c == d
  {
    RunExclusive(s, run);
    assert Holds(End(s, run), ip, c) <==> (ip, c) in End(s, run).live;
    assert Holds(End(s, run), ip, d) <==> (ip, d) in End(s, run).live;
  }

  // ---------- What the lock is needed for ----------

  lemma Prepend(s: State, a: Action, run: seq<Action>)
    requires Enabled(s, a) && Legal(Apply(s, a), run)
    ensures Legal(s, [a] + run) && End(s, [a] + run) == End(Apply(s, a), run)
  {
    assert ([a] + run)[1..] == run;
  }

  /** Processes 0 and 1 both work for container 0. */
  function FourProcesses(): State {
    State(map[], map[], 0, map[0 := Idle, 1 := Idle, 2 := Idle, 3 := Idle], map[0 := 0, 1 := 0, 2 := 1, 3 := 2],
          map[], {})
  }

  /** A release that goes on after its file has gone removes the file of the container that was given the
      address in between, and a third container is given it too. */
  lemma LateRemove(s: State, ip: IP) returns (run: seq<Action>)
    requires ip !in s.files && 1 in s.procs && 2 in s.procs && 3 in s.procs
    requires 1 in s.container && 2 in s.container && 3 in s.container && s.container[1] != s.container[2]
    requires s.procs[1] == Found(ip) && s.procs[2] == Idle && s.procs[3] == Idle
    ensures Legal(s, run)
    ensures (ip, s.container[2]) in End(s, run).live && (ip, s.container[3]) in End(s, run).live
  {
    var s1 := Apply(s, Create(2, ip));
    var s2 := Apply(s1, Write(2));
    var s3 := Apply(s2, Remove(1));
    var s4 := Apply(s3, Create(3, ip));
    run := [Write(3)];
    Prepend(s4, Write(3), []);
    Prepend(s3, Create(3, ip), run); run := [Create(3, ip)] + run;
    Prepend(s2, Remove(1), run); run := [Remove(1)] + run;
    Prepend(s1, Write(2), run); run := [Write(2)] + run;
    Prepend(s, Create(2, ip), run); run := [Create(2, ip)] + run;
  }

  /** So two releases of one container at once can leave an address live for two others. */
  lemma ParallelReleasesBreakIt(ip: IP) returns (run: seq<Action>)
    ensures Init(FourProcesses()) && Legal(FourProcesses(), run)
    ensures (ip, 1) in End(FourProcesses(), run).live && (ip, 2) in End(FourProcesses(), run).live
  {
    var s0 := FourProcesses();
    var s1 := Apply(s0, Create(0, ip));
    var s2 := Apply(s1, Write(0));
    var s3 := Apply(s2, Find(0, ip));
    var s4 := Apply(s3, Find(1, ip));
    run := LateRemove(Apply(s4, Remove(0)), ip);
    Prepend(s4, Remove(0), run); run := [Remove(0)] + run;
    Prepend(s3, Find(1, ip), run); run := [Find(1, ip)] + run;
    Prepend(s2, Find(0, ip), run); run := [Find(0, ip)] + run;
    Prepend(s1, Write(0), run); run := [Write(0)] + run;
    Prepend(s0, Create(0, ip), run); run := [Create(0, ip)] + run;
  }
}
