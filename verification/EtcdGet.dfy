/**
 A whole Get or Release of the etcd store's allocator among the requests of other clients: from the reading of
 the last reserved address to Unlock it does what one Get does that has the store to itself.
 */
module EtcdGet {
  import opened Options
  import opened GoNet
  import opened Ranges
  import opened Walk
  import opened Stores
  import opened Allocator
  import opened EtcdProtocol

  /** A dynamic Get on range set number `n` by client `c`, which has read `last` as the last reserved address. */
  datatype Call = Call(c: nat, rangeset: seq<Conf>, n: nat, last: Option<IP>)

  /** Next found an address, and it is reserved. */
  predicate Taken(found: Option<Found>, used: map<IP, string>) { found.Some? && Key(found.value.addr) in used }

  /** The requests that the call makes in the run are those of its loop, from the `k`-th pass of the walk on:
      each address that Next returns is tried until one is free or Next returns none. */
  ghost predicate Loops(s: State, run: seq<Action>, g: Call, k: nat)
    requires Legal(s, run)
    decreases |run|
  {
    && Halts(g.rangeset, g.last, k)
    && var found := NextAnswer(g.rangeset, g.last, k);
       if found.None? then forall i :: 0 <= i < |run| ==> !ActsFor(run[i], g.c)
       else
         && run != []
         && if !ActsFor(run[0], g.c) then Loops(Apply(s, run[0]), run[1..], g, k)
            else run[0] == ReserveGet(g.c, Key(found.value.addr), g.n)
                 && if Taken(found, s.used) then
                      Loops(s, run[1..], g, FirstStop(g.rangeset, g.last, k) + 1)
                    else Returned(Apply(s, run[0]), run[1..], g.c)
  }

  /** While a client that is in its critical section makes no request, its reservations stay. */
  lemma {:induction false} IdleKeepsStore(s: State, run: seq<Action>, c: nat)
    requires Inv(s) && Sound(s) && Legal(s, run) && OkRun(s, run) && c in s.clients && s.clients[c].InCritical()
    requires forall i :: 0 <= i < |run| ==> !ActsFor(run[i], c)
    ensures End(s, run).used == s.used && End(s, run).lastReserved == s.lastReserved
    decreases |run|
  {
    if run != [] {
      StepInv(s, run[0]);
      StepSound(s, run[0]);
      OthersKeepStore(s, run[0], c);
      IdleKeepsStore(Apply(s, run[0]), run[1..], c);
    }
  }

  /** Whatever others do meanwhile, the call ends as the allocator's Get does on the store as it was when the
      last reserved address was read, and leaves the store as that Get does. */
  lemma GetIsAtomic(s: State, run: seq<Action>, g: Call)
    requires Inv(s) && Sound(s) && Legal(s, run) && OkRun(s, run)
    requires Known(s, g.c) && s.clients[g.c].Critical? && g.last == StoredLast(s.lastReserved, g.n)
    requires Loops(s, run, g, 0)
    ensures GetEnds(g.rangeset, s.used, g.last)
    ensures (End(s, run).used, End(s, run).lastReserved) ==
            StoreAfter(s.used, s.lastReserved, GetOutcome(g.rangeset, s.used, g.last), s.ids[g.c], g.n)
  {
    LoopIsAtomic(s, run, g, 0);
  }

  /** No pass before the `k`-th brings the call to an end. */
  ghost predicate NotYet(g: Call, used: map<IP, string>, k: nat) {
    forall j :: 0 <= j < k ==> !EndsAt(g.rangeset, used, g.last, j)
  }

  ghost predicate DoneAsGet(g: Call, used: map<IP, string>, last: map<nat, IP>, id: string, t: State) {
    && GetEnds(g.rangeset, used, g.last)
    && (t.used, t.lastReserved) == StoreAfter(used, last, GetOutcome(g.rangeset, used, g.last), id, g.n)
  }

  /** What the call returns when Next has given this answer. */
  function ResultOf(found: Option<Found>): GetResult {
    match found
    case None => Failed(NoAddresses)
    case Some(f) => Allocated(Configured(f.addr, f.mask, f.gateway))
  }

  lemma StopEnds(g: Call, used: map<IP, string>, m: nat)
    requires Stops(g.rangeset, g.last, m)
    ensures EndsAt(g.rangeset, used, g.last, m) <==> !Taken(Reported(StepOf(g.rangeset, g.last, m)), used)
  {
  }

  lemma OutcomeAt(g: Call, used: map<IP, string>, m: nat)
    requires Stops(g.rangeset, g.last, m) && EndsAt(g.rangeset, used, g.last, m) && NotYet(g, used, m)
    ensures GetEnds(g.rangeset, used, g.last)
    ensures GetOutcome(g.rangeset, used, g.last) == ResultOf(Reported(StepOf(g.rangeset, g.last, m)))
  {
    var e := FirstEnd(g.rangeset, used, g.last);
    assert e <= m && m <= e;
  }

  lemma SkipIsNoEnd(g: Call, used: map<IP, string>, j: nat)
    requires !Stops(g.rangeset, g.last, j)
    ensures !EndsAt(g.rangeset, used, g.last, j)
  {
  }

  lemma NotYetUpToStop(g: Call, used: map<IP, string>, k: nat)
    requires Halts(g.rangeset, g.last, k) && NotYet(g, used, k)
    ensures NotYet(g, used, FirstStop(g.rangeset, g.last, k))
  {
    forall j | k <= j < FirstStop(g.rangeset, g.last, k) ensures !EndsAt(g.rangeset, used, g.last, j) {
      SkipIsNoEnd(g, used, j);
    }
  }

  lemma NotYetNext(g: Call, used: map<IP, string>, m: nat)
    requires NotYet(g, used, m) && !EndsAt(g.rangeset, used, g.last, m)
    ensures NotYet(g, used, m + 1)
  {
  }

  /** What the answer of Next means for the call. */
  lemma AnswerEnds(g: Call, used: map<IP, string>, k: nat)
    requires Halts(g.rangeset, g.last, k) && NotYet(g, used, k)
    ensures var m, found := FirstStop(g.rangeset, g.last, k), NextAnswer(g.rangeset, g.last, k);
      if Taken(found, used) then NotYet(g, used, m + 1)
      else GetEnds(g.rangeset, used, g.last) && GetOutcome(g.rangeset, used, g.last) == ResultOf(found)
  {
    var m := FirstStop(g.rangeset, g.last, k);
    NotYetUpToStop(g, used, k);
    StopEnds(g, used, m);
    if EndsAt(g.rangeset, used, g.last, m) { OutcomeAt(g, used, m); } else { NotYetNext(g, used, m); }
  }

  lemma {:induction false} LoopIsAtomic(s: State, run: seq<Action>, g: Call, k: nat)
    requires Inv(s) && Sound(s) && Legal(s, run) && OkRun(s, run)
    requires Known(s, g.c) && s.clients[g.c].Critical? && Loops(s, run, g, k) && NotYet(g, s.used, k)
    ensures DoneAsGet(g, s.used, s.lastReserved, s.ids[g.c], End(s, run))
    decreases |run|
  {
    var found := NextAnswer(g.rangeset, g.last, k);
    AnswerEnds(g, s.used, k);
    if found.None? {
      IdleKeepsStore(s, run, g.c);
    } else {
      StepInv(s, run[0]);
      StepSound(s, run[0]);
      if !ActsFor(run[0], g.c) {
        OthersKeepStore(s, run[0], g.c);
        LoopIsAtomic(Apply(s, run[0]), run[1..], g, k);
      } else if Taken(found, s.used) {
        LoopIsAtomic(s, run[1..], g, FirstStop(g.rangeset, g.last, k) + 1);
      } else {
        ReserveIsAtomic(Apply(s, run[0]), run[1..], g.c, s.used, s.lastReserved);
      }
    }
  }
}
