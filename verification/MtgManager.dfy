/** The manager of mtg processes (internal/mtproto/manager.go): `Ensure`, `Remove`, `Reconcile` and the two locked
    sections of `CollectTraffic`. Processes are numbered in the order they are started; finding a port, writing the
    configuration and starting the process succeed or fail together, as the environment decides. */
module MtgManager {
  import opened Options
  import opened Sets
  import opened MtgConfig

  datatype Managed = Managed(
    proc: nat, tag: string, fingerprint: string, metricsPort: int, lastUp: int, lastDown: int, haveLast: bool)

  /** The managed entries by inbound id, the processes alive, and the number of the next process. */
  datatype State = State(procs: map<int, Managed>, running: set<nat>, nextProc: nat)

  /** The environment's answer to a start: the port found, or a failure of any of the steps. */
  datatype Outcome = Outcome(ok: bool, port: int)

  /** The entry is the wanted configuration and its process is alive. */
  predicate Matches(st: State, inst: Instance) {
    && inst.id in st.procs
    && st.procs[inst.id].fingerprint == Fingerprint(inst)
    && st.procs[inst.id].proc in st.running
  }

  function Stop(st: State, id: int): State {
    if id in st.procs then st.(procs := st.procs - {id}, running := st.running - {st.procs[id].proc}) else st
  }

  function Ensure(st: State, inst: Instance, out: Outcome): State {
    if Matches(st, inst) then st.(procs := st.procs[inst.id := st.procs[inst.id].(tag := inst.tag)])
    else
      var v := Stop(st, inst.id);
      if !out.ok then v
      else
        State(v.procs[inst.id := Managed(v.nextProc, inst.tag, Fingerprint(inst), out.port, 0, 0, false)],
              v.running + {v.nextProc}, v.nextProc + 1)
  }

  function EnsureAll(st: State, desired: seq<Instance>, outs: seq<Outcome>): State
    requires |desired| == |outs|
    decreases |desired|
  {
    if desired == [] then st
    else Ensure(EnsureAll(st, desired[..|desired| - 1], outs[..|outs| - 1]), desired[|desired| - 1], outs[|outs| - 1])
  }

  function WantedIds(desired: seq<Instance>): set<int> {
    set i | i in desired :: i.id
  }

  function StopUnwanted(st: State, wanted: set<int>): State {
    st.(procs := map id | id in st.procs && id in wanted :: st.procs[id],
        running := set p | p in st.running && !exists id :: id in st.procs && id !in wanted && st.procs[id].proc == p)
  }

  function Reconcile(st: State, desired: seq<Instance>, outs: seq<Outcome>): State
    requires |desired| == |outs|
  {
    EnsureAll(StopUnwanted(st, WantedIds(desired)), desired, outs)
  }

  // ----- The invariant: every running process is managed, by one entry -----

  ghost predicate Inv(st: State) {
    && (forall id :: id in st.procs ==> st.procs[id].proc < st.nextProc)
    && (forall id, id' :: id in st.procs && id' in st.procs && st.procs[id].proc == st.procs[id'].proc ==> id == id')
    && (forall p :: p in st.running ==> exists id :: id in st.procs && st.procs[id].proc == p)
  }

  lemma StopKeepsInv(st: State, id: int)
    requires Inv(st)
    ensures Inv(Stop(st, id))
  {
    forall p | p in Stop(st, id).running ensures exists k :: k in Stop(st, id).procs && Stop(st, id).procs[k].proc == p {
      var k :| k in st.procs && st.procs[k].proc == p;
      assert k in Stop(st, id).procs;
    }
  }

  lemma EnsureKeepsInv(st: State, inst: Instance, out: Outcome)
    requires Inv(st)
    ensures Inv(Ensure(st, inst, out))
  {
    var v := Ensure(st, inst, out);
    StopKeepsInv(st, inst.id);
    var w := if Matches(st, inst) then st else Stop(st, inst.id);
    forall p | p in v.running ensures exists k :: k in v.procs && v.procs[k].proc == p {
      if p in w.running {
        var k :| k in w.procs && w.procs[k].proc == p;
        assert k in v.procs && v.procs[k].proc == p;
      } else {
        assert v.procs[inst.id].proc == p;
      }
    }
  }

  lemma StopUnwantedKeepsInv(st: State, wanted: set<int>)
    requires Inv(st)
    ensures Inv(StopUnwanted(st, wanted)) && forall id :: id in StopUnwanted(st, wanted).procs ==> id in wanted
  {
    var v := StopUnwanted(st, wanted);
    forall p | p in v.running ensures exists k :: k in v.procs && v.procs[k].proc == p {
      var k :| k in st.procs && st.procs[k].proc == p;
      assert k in v.procs;
    }
  }

  lemma {:induction false} EnsureAllKeepsInv(st: State, desired: seq<Instance>, outs: seq<Outcome>)
    requires Inv(st) && |desired| == |outs|
    ensures Inv(EnsureAll(st, desired, outs))
    decreases |desired|
  {
    if desired != [] {
      var n := |desired| - 1;
      EnsureAllKeepsInv(st, desired[..n], outs[..n]);
      EnsureKeepsInv(EnsureAll(st, desired[..n], outs[..n]), desired[n], outs[n]);
    }
  }

  // ----- Convergence -----

  predicate DistinctIds(desired: seq<Instance>) {
    forall i, j :: 0 <= i < j < |desired| ==> desired[i].id != desired[j].id
  }

  /** What one desired instance finds at its id, when no other desired instance has that id. */
  ghost predicate Settled(st: State, v: State, inst: Instance, out: Outcome) {
    if Matches(st, inst) then
      Matches(v, inst) && v.procs[inst.id] == st.procs[inst.id].(tag := inst.tag)
    else if out.ok then
      && Matches(v, inst)
      && v.procs[inst.id].proc >= st.nextProc
      && v.procs[inst.id] == Managed(v.procs[inst.id].proc, inst.tag, Fingerprint(inst), out.port, 0, 0, false)
    else inst.id !in v.procs
  }

  /** Starting one instance leaves the entries and processes of other ids alone. */
  lemma EnsureFrame(st: State, inst: Instance, out: Outcome, id: int)
    requires Inv(st) && id != inst.id
    ensures var v := Ensure(st, inst, out);
            && st.nextProc <= v.nextProc
            && (id in v.procs <==> id in st.procs)
            && (id in st.procs ==> v.procs[id] == st.procs[id] && (v.procs[id].proc in v.running <==> st.procs[id].proc in st.running))
  {
  }

  lemma {:induction false} EnsureAllFrame(st: State, desired: seq<Instance>, outs: seq<Outcome>, id: int)
    requires Inv(st) && |desired| == |outs| && id !in WantedIds(desired)
    ensures var v := EnsureAll(st, desired, outs);
            && st.nextProc <= v.nextProc
            && (id in v.procs <==> id in st.procs)
            && (id in st.procs ==> v.procs[id] == st.procs[id] && (v.procs[id].proc in v.running <==> st.procs[id].proc in st.running))
    decreases |desired|
  {
    if desired != [] {
      var n := |desired| - 1;
      WantedSplit(desired, id);
      EnsureAllFrame(st, desired[..n], outs[..n], id);
      EnsureAllKeepsInv(st, desired[..n], outs[..n]);
      EnsureFrame(EnsureAll(st, desired[..n], outs[..n]), desired[n], outs[n], id);
    }
  }

  lemma WantedSplit(desired: seq<Instance>, id: int)
    requires desired != []
    ensures id in WantedIds(desired) <==> id in WantedIds(desired[..|desired| - 1]) || desired[|desired| - 1].id == id
  {
    var n := |desired| - 1;
    assert desired == desired[..n] + [desired[n]];
    if desired[n].id == id {
      assert desired[n] in desired;
    }
    if id in WantedIds(desired[..n]) {
      var i :| i in desired[..n] && i.id == id;
      assert i in desired;
    }
  }

  lemma {:induction false} EnsureAllSettles(st: State, desired: seq<Instance>, outs: seq<Outcome>, k: nat)
    requires Inv(st) && |desired| == |outs| && DistinctIds(desired) && k < |desired|
    ensures Settled(st, EnsureAll(st, desired, outs), desired[k], outs[k])
    decreases |desired|
  {
    hide Inv, Ensure, Settled, Matches;
    var n := |desired| - 1;
    var front := EnsureAll(st, desired[..n], outs[..n]);
    EnsureAllKeepsInv(st, desired[..n], outs[..n]);
    if k < n {
      EnsureAllSettles(st, desired[..n], outs[..n], k);
      StaysSettled(st, front, desired[n], outs[n], desired[k], outs[k]);
    } else {
      forall i | i in desired[..n] ensures i.id != desired[n].id {
        var j :| 0 <= j < n && desired[..n][j] == i;
        assert desired[j].id != desired[n].id;
      }
      EnsureAllFrame(st, desired[..n], outs[..n], desired[n].id);
      EnsureSettles(st, front, desired[n], outs[n]);
    }
  }

  lemma StaysSettled(st: State, v: State, other: Instance, o: Outcome, inst: Instance, out: Outcome)
    requires Inv(v) && inst.id != other.id && Settled(st, v, inst, out)
    ensures Settled(st, Ensure(v, other, o), inst, out)
  {
    hide Fingerprint;
    EnsureFrame(v, other, o, inst.id);
  }

  /** An instance whose entry is as it was settles when it is its turn. */
  lemma EnsureSettles(st: State, v: State, inst: Instance, out: Outcome)
    requires Inv(v) && st.nextProc <= v.nextProc
    requires inst.id in v.procs <==> inst.id in st.procs
    requires inst.id in st.procs ==>
               && v.procs[inst.id] == st.procs[inst.id]
               && (v.procs[inst.id].proc in v.running <==> st.procs[inst.id].proc in st.running)
    ensures Settled(st, Ensure(v, inst, out), inst, out)
  {
    hide Fingerprint;
  }

  /**
   Reconciling converges: the managed ids are the desired ones whose process matched or started, each with the
   desired fingerprint and a live process; a matching process is kept with its baselines.
   */
  lemma ReconcileConverges(st: State, desired: seq<Instance>, outs: seq<Outcome>)
    requires Inv(st) && |desired| == |outs| && DistinctIds(desired)
    ensures var v := Reconcile(st, desired, outs);
            && Inv(v)
            && (forall id :: id in v.procs ==> id in WantedIds(desired))
            && (forall k :: 0 <= k < |desired| ==> Settled(st, v, desired[k], outs[k]))
  {
    hide Inv, Ensure, EnsureAll, Settled, StopUnwanted, DistinctIds;
    var wanted := WantedIds(desired);
    var w := StopUnwanted(st, wanted);
    StopUnwantedKeepsInv(st, wanted);
    EnsureAllKeepsInv(w, desired, outs);
    forall id | id in EnsureAll(w, desired, outs).procs ensures id in wanted {
      if id !in wanted {
        EnsureAllFrame(w, desired, outs, id);
      }
    }
    forall k | 0 <= k < |desired| ensures Settled(st, EnsureAll(w, desired, outs), desired[k], outs[k]) {
      EnsureAllSettles(w, desired, outs, k);
      assert desired[k] in desired;
      SettledBefore(st, wanted, EnsureAll(w, desired, outs), desired[k], outs[k]);
    }
  }

  /**
   What reconciling leaves at a desired id: a live process of the desired fingerprint is kept with its baselines, under
   the desired tag; anything else, a crashed process among it, is replaced by a new live process, or dropped if that
   cannot be started.
   */
  lemma ReconcileRestarts(st: State, desired: seq<Instance>, outs: seq<Outcome>, k: nat)
    requires Inv(st) && |desired| == |outs| && DistinctIds(desired) && k < |desired|
    ensures var v, id, fp := Reconcile(st, desired, outs), desired[k].id, Fingerprint(desired[k]);
            if id in st.procs && st.procs[id].fingerprint == fp && st.procs[id].proc in st.running then
              id in v.procs && v.procs[id] == st.procs[id].(tag := desired[k].tag) && v.procs[id].proc in v.running
            else if outs[k].ok then
              && id in v.procs && v.procs[id].proc >= st.nextProc && v.procs[id].proc in v.running
              && v.procs[id] == Managed(v.procs[id].proc, desired[k].tag, fp, outs[k].port, 0, 0, false)
            else id !in v.procs
  {
    hide Inv, Reconcile, DistinctIds, Fingerprint;
    ReconcileConverges(st, desired, outs);
  }

  /** What runs afterwards was started for a desired id, or ran before with the fingerprint desired of its id. */
  lemma ReconcileStops(st: State, desired: seq<Instance>, outs: seq<Outcome>, p: nat)
    requires Inv(st) && |desired| == |outs| && DistinctIds(desired) && p in Reconcile(st, desired, outs).running
    ensures exists k :: 0 <= k < |desired| && desired[k].id in Reconcile(st, desired, outs).procs
                        && Reconcile(st, desired, outs).procs[desired[k].id].proc == p
    ensures p < st.nextProc ==>
              p in st.running
              && exists k :: 0 <= k < |desired| && desired[k].id in st.procs && st.procs[desired[k].id].proc == p
                             && st.procs[desired[k].id].fingerprint == Fingerprint(desired[k])
  {
    hide Reconcile, DistinctIds, Fingerprint;
    var v := Reconcile(st, desired, outs);
    ReconcileConverges(st, desired, outs);
    var id :| id in v.procs && v.procs[id].proc == p;
    var i :| i in desired && i.id == id;
    var k :| 0 <= k < |desired| && desired[k] == i;
    assert Settled(st, v, desired[k], outs[k]);
  }

  /** Stopping unwanted processes does not touch a wanted one. */
  lemma SettledBefore(st: State, wanted: set<int>, v: State, inst: Instance, out: Outcome)
    requires Inv(st) && inst.id in wanted && Settled(StopUnwanted(st, wanted), v, inst, out)
    ensures Settled(st, v, inst, out)
  {
    var w := StopUnwanted(st, wanted);
    if inst.id in st.procs {
      assert w.procs[inst.id] == st.procs[inst.id];
      assert st.procs[inst.id].proc in st.running ==> st.procs[inst.id].proc in w.running;
    }
  }

  /**
   Reconciling again, with nothing crashed in between, changes nothing exactly when no start that failed the first
   time succeeds the second time.
   */
  lemma ReconcileIdempotent(st: State, desired: seq<Instance>, outs: seq<Outcome>, outs': seq<Outcome>)
    requires Inv(st) && |desired| == |outs| == |outs'| && DistinctIds(desired)
    ensures var v := Reconcile(st, desired, outs);
            Reconcile(v, desired, outs') == v
            <==> forall k :: 0 <= k < |desired| ==> Matches(st, desired[k]) || outs[k].ok || !outs'[k].ok
  {
    var v := Reconcile(st, desired, outs);
    ReconcileConverges(st, desired, outs);
    ReconcileConverges(v, desired, outs');
    hide Reconcile, EnsureAll, DistinctIds, Ensure, Inv, Settled;
    if forall k :: 0 <= k < |desired| ==> Matches(st, desired[k]) || outs[k].ok || !outs'[k].ok {
      NothingUnwanted(v, WantedIds(desired));
      forall k | 0 <= k < |desired| ensures Ensure(v, desired[k], outs'[k]) == v {
        SettledAgain(st, v, v, desired[k], outs[k], outs'[k]);
      }
      AllUnchanged(v, desired, outs');
      ReconcileIsEnsureAll(v, desired, outs');
    } else {
      var k :| 0 <= k < |desired| && !(Matches(st, desired[k]) || outs[k].ok || !outs'[k].ok);
      SettledAgain(st, v, Reconcile(v, desired, outs'), desired[k], outs[k], outs'[k]);
    }
  }

  /** A settled instance is left alone unless its start failed and now succeeds; then the state changes. */
  lemma SettledAgain(st: State, v: State, w: State, inst: Instance, out: Outcome, out': Outcome)
    requires Settled(st, v, inst, out)
    ensures Matches(st, inst) || out.ok || !out'.ok ==> Ensure(v, inst, out') == v
    ensures !(Matches(st, inst) || out.ok || !out'.ok) && Settled(v, w, inst, out') ==> v != w
  {
    hide Fingerprint;
    if inst.id in v.procs {
      assert v.procs[inst.id := v.procs[inst.id]] == v.procs;
    }
  }

  lemma ReconcileIsEnsureAll(v: State, desired: seq<Instance>, outs: seq<Outcome>)
    requires |desired| == |outs|
    ensures Reconcile(v, desired, outs) == EnsureAll(StopUnwanted(v, WantedIds(desired)), desired, outs)
  {
  }

  lemma NothingUnwanted(v: State, wanted: set<int>)
    requires forall id :: id in v.procs ==> id in wanted
    ensures StopUnwanted(v, wanted) == v
  {
    var w := StopUnwanted(v, wanted);
    forall id ensures id in w.procs <==> id in v.procs {
    }
    assert w.procs.Keys == v.procs.Keys;
    assert w.procs == v.procs && w.running == v.running;
  }

  lemma {:induction false} AllUnchanged(v: State, desired: seq<Instance>, outs: seq<Outcome>)
    requires |desired| == |outs|
    requires forall k :: 0 <= k < |desired| ==> Ensure(v, desired[k], outs[k]) == v
    ensures EnsureAll(v, desired, outs) == v
    decreases |desired|
  {
    hide Ensure;
    if desired != [] {
      var n := |desired| - 1;
      AllUnchanged(v, desired[..n], outs[..n]);
      assert Ensure(v, desired[n], outs[n]) == v;
    }
  }

  // ----- The class -----

  /** One entry as the collector remembers it after releasing the lock; proc is the process it will scrape. */
  datatype Snap = Snap(id: int, proc: nat, tag: string, haveLast: bool, lastUp: int, lastDown: int)

  function SnapOf(id: int, m: Managed): Snap {
    Snap(id, m.proc, m.tag, m.haveLast, m.lastUp, m.lastDown)
  }

  /** The running entries, each once, in any order. */
  ghost predicate ListsRunning(procs: map<int, Managed>, running: set<nat>, snaps: seq<Snap>) {
    Lists(procs, running, procs.Keys, snaps)
  }

  /** Of the given entries, the running ones. */
  ghost predicate Lists(procs: map<int, Managed>, running: set<nat>, ids: set<int>, snaps: seq<Snap>) {
    && (forall k :: 0 <= k < |snaps| ==>
          && snaps[k].id in procs && snaps[k].id in ids && procs[snaps[k].id].proc in running
          && snaps[k] == SnapOf(snaps[k].id, procs[snaps[k].id]))
    && (forall j, k :: 0 <= j < k < |snaps| ==> snaps[j].id != snaps[k].id)
    && (forall id :: id in procs && id in ids && procs[id].proc in running ==> exists k :: 0 <= k < |snaps| && snaps[k].id == id)
  }

  lemma ListsMore(procs: map<int, Managed>, running: set<nat>, ids: set<int>, snaps: seq<Snap>, id: int)
    requires Lists(procs, running, ids, snaps) && id in procs && id !in ids
    ensures var snaps' := if procs[id].proc in running then snaps + [SnapOf(id, procs[id])] else snaps;
            Lists(procs, running, ids + {id}, snaps')
  {
    var snaps' := if procs[id].proc in running then snaps + [SnapOf(id, procs[id])] else snaps;
    forall i | i in procs && i in ids + {id} && procs[i].proc in running
      ensures exists k :: 0 <= k < |snaps'| && snaps'[k].id == i
    {
      if i == id {
        assert snaps'[|snaps|].id == i;
      } else {
        var k :| 0 <= k < |snaps| && snaps[k].id == i;
        assert snaps'[k].id == i;
      }
    }
  }

  datatype Traffic = Traffic(tag: string, up: int, down: int)

  function Delta(have: bool, now: int, last: int): int {
    if have && now - last > 0 then now - last else 0
  }

  /** The new baseline, written only if the id is still managed. */
  function WriteBaseline(procs: map<int, Managed>, id: int, up: int, down: int): map<int, Managed> {
    if id in procs then procs[id := procs[id].(lastUp := up, lastDown := down, haveLast := true)] else procs
  }

  function ReportOf(s: Snap, up: int, down: int): Option<Traffic> {
    var du, dd := Delta(s.haveLast, up, s.lastUp), Delta(s.haveLast, down, s.lastDown);
    if s.haveLast && (du > 0 || dd > 0) then Some(Traffic(s.tag, du, dd)) else None
  }

  lemma NothingDesired(st: State)
    ensures EnsureAll(st, [], []) == st && WantedIds([]) == {}
  {
  }

  lemma OneMoreDesired(st: State, desired: seq<Instance>, outs: seq<Outcome>, i: nat)
    requires i < |desired| == |outs|
    ensures EnsureAll(st, desired[..i + 1], outs[..i + 1]) == Ensure(EnsureAll(st, desired[..i], outs[..i]), desired[i], outs[i])
    ensures WantedIds(desired[..i + 1]) == WantedIds(desired[..i]) + {desired[i].id}
  {
    hide Ensure;
    assert desired[..i + 1][..i] == desired[..i] && outs[..i + 1][..i] == outs[..i];
    assert desired[..i + 1] == desired[..i] + [desired[i]];
  }

  class Manager {
    var procs: map<int, Managed>
    var running: set<nat>
    var nextProc: nat

    constructor ()
      ensures Abs() == State(map[], {}, 0)
    {
      procs, running, nextProc := map[], {}, 0;
    }

    function Abs(): State
      reads this
    {
      State(procs, running, nextProc)
    }

    method EnsureLocked(inst: Instance, out: Outcome) returns (ok: bool)
      modifies this
      ensures Abs() == Ensure(old(Abs()), inst, out)
      ensures ok <==> out.ok || (inst.id in old(procs) && old(procs)[inst.id].fingerprint == Fingerprint(inst)
                                 && old(procs)[inst.id].proc in old(running))
    {
      hide Fingerprint;
      var fp := Fingerprint(inst);
      if inst.id in procs {
        var cur := procs[inst.id];
        if cur.fingerprint == fp && cur.proc in running {
          procs := procs[inst.id := cur.(tag := inst.tag)];
          return true;
        }
        running := running - {cur.proc};
        procs := procs - {inst.id};
      }
      if !out.ok {
        return false;
      }
      var proc := nextProc;
      nextProc := nextProc + 1;
      running := running + {proc};
      procs := procs[inst.id := Managed(proc, inst.tag, fp, out.port, 0, 0, false)];
      return true;
    }

    method Remove(id: int)
      modifies this
      ensures Abs() == Stop(old(Abs()), id)
    {
      if id in procs {
        running := running - {procs[id].proc};
        procs := procs - {id};
      }
    }

    method ReconcileAll(desired: seq<Instance>, outs: seq<Outcome>)
      requires |desired| == |outs|
      modifies this
      ensures Abs() == Reconcile(old(Abs()), desired, outs)
    {
      hide Ensure, EnsureAll, WantedIds, StopUnwanted;
      var want: set<int> := {};
      NothingDesired(Abs());
      for i := 0 to |desired|
        invariant want == WantedIds(desired[..i])
        invariant Abs() == old(Abs())
      {
        OneMoreDesired(old(Abs()), desired, outs, i);
        want := want + {desired[i].id};
      }
      assert desired[..|desired|] == desired;
      StopExtra(want);
      assert outs[..|outs|] == outs;
      ghost var w := Abs();
      NothingDesired(w);
      assert desired[..0] == [] && outs[..0] == [];
      for i := 0 to |desired|
        invariant Abs() == EnsureAll(w, desired[..i], outs[..i])
      {
        OneMoreDesired(w, desired, outs, i);
        var _ := EnsureLocked(desired[i], outs[i]);
      }
    }

    /** The loop that stops every process that is no longer wanted, in whatever order the map is visited. */
    method StopExtra(want: set<int>)
      modifies this
      ensures Abs() == StopUnwanted(old(Abs()), want)
    {
      ghost var st := Abs();
      var todo: set<int> := procs.Keys;
      while todo != {}
        invariant todo <= procs.Keys && nextProc == st.nextProc
        invariant procs == map id | id in st.procs && (id in want || id in todo) :: st.procs[id]
        invariant running == set p | p in st.running
                                  && !exists id :: id in st.procs && id !in want && id !in todo && st.procs[id].proc == p
        decreases |todo|
      {
        SomeInt(todo);
        var id :| id in todo;
        todo := todo - {id};
        if id !in want {
          running := running - {procs[id].proc};
          procs := procs - {id};
        }
      }
    }

    /** The first locked section of a collection: the running entries, each id once. */
    method Snapshot() returns (snaps: seq<Snap>)
      ensures ListsRunning(procs, running, snaps)
    {
      snaps := [];
      var todo: set<int> := procs.Keys;
      while todo != {}
        invariant todo <= procs.Keys && Lists(procs, running, procs.Keys - todo, snaps)
        decreases |todo|
      {
        SomeInt(todo);
        var id :| id in todo;
        ListsMore(procs, running, procs.Keys - todo, snaps, id);
        assert procs.Keys - (todo - {id}) == procs.Keys - todo + {id};
        todo := todo - {id};
        if procs[id].proc in running {
          snaps := snaps + [SnapOf(id, procs[id])];
        }
      }
      assert procs.Keys - todo == procs.Keys;
    }

    /** The second locked section: the baseline is written if the id is still managed, then the delta reported. */
    method WriteBack(s: Snap, up: int, down: int) returns (report: Option<Traffic>)
      modifies this
      ensures procs == WriteBaseline(old(procs), s.id, up, down)
      ensures running == old(running) && nextProc == old(nextProc)
      ensures report == ReportOf(s, up, down)
    {
      var du, dd := 0, 0;
      if s.haveLast {
        du := up - s.lastUp;
        dd := down - s.lastDown;
        if du < 0 {
          du := 0;
        }
        if dd < 0 {
          dd := 0;
        }
      }
      if s.id in procs {
        procs := procs[s.id := procs[s.id].(lastUp := up, lastDown := down, haveLast := true)];
      }
      if s.haveLast && (du > 0 || dd > 0) {
        return Some(Traffic(s.tag, du, dd));
      }
      return None;
    }
  }

}
