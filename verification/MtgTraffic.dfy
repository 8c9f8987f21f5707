/** `Manager.CollectTraffic` (internal/mtproto/manager.go) as a machine of small steps: the snapshot and every
    write-back hold the lock, the scrapes do not, and management calls, crashes and traffic fall anywhere between.
    A scrape reads the counters of the process it was planned for; a process never counts backwards. */
module MtgTraffic {
  import opened Options
  import opened MtgConfig
  import opened MtgManager

  datatype Dir = Up | Down

  /** The bytes a process has counted since it started. */
  datatype Load = Load(up: nat, down: nat)

  function Count(l: Load, d: Dir): nat {
    match d case Up => l.up case Down => l.down
  }

  function Bytes(t: Traffic, d: Dir): int {
    match d case Up => t.up case Down => t.down
  }

  /** A reported delta, with the inbound and the process it came from. */
  datatype Entry = Entry(id: int, proc: nat, traffic: Traffic)

  datatype Collector =
    | Idle
    | Scanning(todo: seq<Snap>)
    | Scraped(s: Snap, reading: Load, todo: seq<Snap>)

  /** owner and count are indexed by process; log holds everything reported so far. */
  datatype World = World(m: State, owner: seq<int>, count: seq<Load>, collector: Collector, log: seq<Entry>)

  datatype Event =
    | Ensured(inst: Instance, out: Outcome)
    | Removed(id: int)
    | Reconciled(desired: seq<Instance>, outs: seq<Outcome>)
    | Crashed(proc: nat)
    | Counted(proc: nat, more: Load)
    | Began(snaps: seq<Snap>)
    | Scrape(ok: bool)
    | WroteBack

  function Init(): World {
    World(State(map[], {}, 0), [], [], Idle, [])
  }

  // ----- Steps -----

  function EnsureIn(w: World, inst: Instance, out: Outcome): World {
    var m := Ensure(w.m, inst, out);
    if m.nextProc == w.m.nextProc then w.(m := m)
    else w.(m := m, owner := w.owner + [inst.id], count := w.count + [Load(0, 0)])
  }

  function EnsureAllIn(w: World, desired: seq<Instance>, outs: seq<Outcome>): World
    requires |desired| == |outs|
    decreases |desired|
  {
    if desired == [] then w
    else EnsureIn(EnsureAllIn(w, desired[..|desired| - 1], outs[..|outs| - 1]), desired[|desired| - 1], outs[|outs| - 1])
  }

  function WriteBackIn(w: World): World
    requires w.collector.Scraped?
  {
    var s, r := w.collector.s, w.collector.reading;
    var report := ReportOf(s, r.up, r.down);
    w.(m := w.m.(procs := WriteBaseline(w.m.procs, s.id, r.up, r.down)),
       collector := Scanning(w.collector.todo),
       log := if report.Some? then w.log + [Entry(s.id, s.proc, report.value)] else w.log)
  }

  /** One step; an event that cannot happen now changes nothing. */
  ghost function Step(w: World, e: Event): World {
    match e
    case Ensured(inst, out) => EnsureIn(w, inst, out)
    case Removed(id) => w.(m := Stop(w.m, id))
    case Reconciled(desired, outs) =>
      if |desired| != |outs| then w
      else EnsureAllIn(w.(m := StopUnwanted(w.m, WantedIds(desired))), desired, outs)
    case Crashed(p) => w.(m := w.m.(running := w.m.running - {p}))
    case Counted(p, more) =>
      if p >= |w.count| then w
      else w.(count := w.count[p := Load(w.count[p].up + more.up, w.count[p].down + more.down)])
    case Began(snaps) =>
      if w.collector.Idle? && ListsRunning(w.m.procs, w.m.running, snaps) then w.(collector := Scanning(snaps)) else w
    case Scrape(ok) =>
      if !w.collector.Scanning? then w
      else if w.collector.todo == [] then w.(collector := Idle)
      else
        var s, rest := w.collector.todo[0], w.collector.todo[1..];
        if ok && s.proc < |w.count| then w.(collector := Scraped(s, w.count[s.proc], rest))
        else w.(collector := Scanning(rest))
    case WroteBack => if w.collector.Scraped? then WriteBackIn(w) else w
  }

  ghost function Run(w: World, events: seq<Event>): World
    decreases |events|
  {
    if events == [] then w else Step(Run(w, events[..|events| - 1]), events[|events| - 1])
  }

  /** The steps move the manager exactly as its own operations do. */
  lemma {:induction false} EnsureAllInAgrees(w: World, desired: seq<Instance>, outs: seq<Outcome>)
    requires |desired| == |outs|
    ensures EnsureAllIn(w, desired, outs).m == EnsureAll(w.m, desired, outs)
    decreases |desired|
  {
    hide Ensure;
    if desired != [] {
      EnsureAllInAgrees(w, desired[..|desired| - 1], outs[..|outs| - 1]);
    }
  }

  // ----- What has been credited to a process -----

  function Credited(log: seq<Entry>, p: nat, d: Dir): int {
    if log == [] then 0
    else
      var n := |log| - 1;
      Credited(log[..n], p, d) + if log[n].proc == p then Bytes(log[n].traffic, d) else 0
  }

  lemma CreditedAppend(log: seq<Entry>, e: Entry, p: nat, d: Dir)
    ensures Credited(log + [e], p, d) == Credited(log, p, d) + if e.proc == p then Bytes(e.traffic, d) else 0
  {
    assert (log + [e])[..|log|] == log;
  }

  lemma {:induction false} NothingCredited(log: seq<Entry>, p: nat, d: Dir)
    requires forall k :: 0 <= k < |log| ==> log[k].proc < p
    ensures Credited(log, p, d) == 0
  {
    if log != [] {
      NothingCredited(log[..|log| - 1], p, d);
    }
  }

  // ----- The invariant -----

  /** No more has been credited to p than the baseline, or nothing without one. */
  predicate Below(log: seq<Entry>, p: nat, have: bool, up: int, down: int) {
    Credited(log, p, Up) <= (if have then up else 0) && Credited(log, p, Down) <= (if have then down else 0)
  }

  predicate Untouched(log: seq<Entry>, p: nat) {
    Credited(log, p, Up) == 0 && Credited(log, p, Down) == 0
  }

  predicate WithinCount(log: seq<Entry>, p: nat, l: Load) {
    Credited(log, p, Up) <= l.up && Credited(log, p, Down) <= l.down
  }

  ghost predicate Books(w: World) {
    && MtgManager.Inv(w.m) && |w.owner| == |w.count| == w.m.nextProc
    && (forall k :: 0 <= k < |w.log| ==> w.log[k].proc < |w.owner| && w.owner[w.log[k].proc] == w.log[k].id)
    && (forall k :: 0 <= k < |w.log| ==> w.log[k].traffic.up >= 0 && w.log[k].traffic.down >= 0)
    && (forall p :: 0 <= p < |w.count| ==> WithinCount(w.log, p, w.count[p]))
  }

  ghost predicate EntryOk(w: World, id: int) {
    id in w.m.procs &&
    var m := w.m.procs[id];
    m.proc < |w.owner| && w.owner[m.proc] == id && Below(w.log, m.proc, m.haveLast, m.lastUp, m.lastDown)
  }

  /** A planned scrape: a process restarted since the snapshot has not been credited anything yet. */
  ghost predicate SnapOk(w: World, s: Snap) {
    && s.proc < |w.owner| && w.owner[s.proc] == s.id && Below(w.log, s.proc, s.haveLast, s.lastUp, s.lastDown)
    && (s.id in w.m.procs && w.m.procs[s.id].proc != s.proc ==> Untouched(w.log, w.m.procs[s.id].proc))
  }

  ghost predicate SnapsOk(w: World, snaps: seq<Snap>) {
    && (forall k :: 0 <= k < |snaps| ==> SnapOk(w, snaps[k]))
    && (forall j, k :: 0 <= j < k < |snaps| ==> snaps[j].id != snaps[k].id)
  }

  ghost predicate CollectorOk(w: World) {
    match w.collector
    case Idle => true
    case Scanning(todo) => SnapsOk(w, todo)
    case Scraped(s, r, todo) =>
      && SnapsOk(w, todo) && SnapOk(w, s) && (forall k :: 0 <= k < |todo| ==> todo[k].id != s.id)
      && s.proc < |w.count| && WithinCount(w.log, s.proc, r) && r.up <= w.count[s.proc].up && r.down <= w.count[s.proc].down
  }

  ghost predicate Inv(w: World) {
    Books(w) && (forall id :: id in w.m.procs ==> EntryOk(w, id)) && CollectorOk(w)
  }

  // ----- Management, crashes and traffic keep the invariant -----

  /** What everything but the collector does: entries stay as they are, go, or come with a fresh process. */
  ghost predicate Evolves(w: World, v: World) {
    && MtgManager.Inv(v.m) && |v.owner| == |v.count| == v.m.nextProc >= w.m.nextProc == |w.owner| == |w.count|
    && v.log == w.log && v.collector == w.collector
    && (forall p :: 0 <= p < |w.owner| ==>
          v.owner[p] == w.owner[p] && w.count[p].up <= v.count[p].up && w.count[p].down <= v.count[p].down)
    && (forall id :: id in v.m.procs ==> Kept(w, v, id) || Fresh(w, v, id))
  }

  ghost predicate Kept(w: World, v: World, id: int) {
    && id in v.m.procs && id in w.m.procs
    && SnapOf(id, v.m.procs[id].(tag := "")) == SnapOf(id, w.m.procs[id].(tag := ""))
  }

  ghost predicate Fresh(w: World, v: World, id: int) {
    id in v.m.procs &&
    var m := v.m.procs[id];
    |w.owner| <= m.proc < |v.owner| && v.owner[m.proc] == id && !m.haveLast
  }

  lemma NewUntouched(w: World, p: nat)
    requires Books(w) && p >= |w.owner|
    ensures Untouched(w.log, p)
  {
    NothingCredited(w.log, p, Up);
    NothingCredited(w.log, p, Down);
  }

  lemma EvolvesKeepsBooks(w: World, v: World)
    requires Books(w) && Evolves(w, v)
    ensures Books(v)
  {
    hide MtgManager.Inv, Credited;
    forall p | 0 <= p < |v.count| ensures WithinCount(v.log, p, v.count[p]) {
      if p >= |w.count| {
        NewUntouched(w, p);
      } else {
        assert WithinCount(w.log, p, w.count[p]);
      }
    }
  }

  lemma EvolvesKeepsEntry(w: World, v: World, id: int)
    requires Books(w) && Evolves(w, v) && id in v.m.procs && (id in w.m.procs ==> EntryOk(w, id))
    ensures EntryOk(v, id)
  {
    hide MtgManager.Inv, Credited, Books;
    if !Kept(w, v, id) {
      NewUntouched(w, v.m.procs[id].proc);
    }
  }

  lemma EvolvesKeepsSnap(w: World, v: World, s: Snap)
    requires Books(w) && Evolves(w, v) && SnapOk(w, s)
    ensures SnapOk(v, s)
  {
    hide MtgManager.Inv, Credited, Books;
    if s.id in v.m.procs && !Kept(w, v, s.id) {
      NewUntouched(w, v.m.procs[s.id].proc);
    }
  }

  lemma EvolvesKeepsSnaps(w: World, v: World, snaps: seq<Snap>)
    requires Books(w) && Evolves(w, v) && SnapsOk(w, snaps)
    ensures SnapsOk(v, snaps)
  {
    hide Books, Evolves, SnapOk;
    forall k | 0 <= k < |snaps| ensures SnapOk(v, snaps[k]) {
      EvolvesKeepsSnap(w, v, snaps[k]);
    }
  }

  lemma EvolvesKeepsInv(w: World, v: World)
    requires Inv(w) && Evolves(w, v)
    ensures Inv(v)
  {
    EvolvesKeepsBooks(w, v);
    EvolvesKeepsCollector(w, v);
    hide Books, Evolves, EntryOk, CollectorOk;
    forall id | id in v.m.procs ensures EntryOk(v, id) {
      EvolvesKeepsEntry(w, v, id);
    }
  }

  lemma EvolvesKeepsCollector(w: World, v: World)
    requires Books(w) && Evolves(w, v) && CollectorOk(w)
    ensures CollectorOk(v)
  {
    hide MtgManager.Inv, Credited, Books, SnapOk, SnapsOk;
    match w.collector
    case Idle =>
    case Scanning(todo) =>
      EvolvesKeepsSnaps(w, v, todo);
    case Scraped(s, r, todo) =>
      EvolvesKeepsSnaps(w, v, todo);
      EvolvesKeepsSnap(w, v, s);
  }

  lemma EnsureEvolves(w: World, inst: Instance, out: Outcome)
    requires Inv(w)
    ensures Evolves(w, EnsureIn(w, inst, out))
  {
    hide Credited, Fingerprint, CollectorOk, MtgManager.Inv;
    EnsureKeepsInv(w.m, inst, out);
  }

  lemma EvolvesTrans(w: World, u: World, v: World)
    requires Evolves(w, u) && Evolves(u, v)
    ensures Evolves(w, v)
  {
    hide MtgManager.Inv;
    forall id | id in v.m.procs ensures Kept(w, v, id) || Fresh(w, v, id) {
      if Kept(u, v, id) {
        assert Kept(w, u, id) || Fresh(w, u, id);
      }
    }
  }

  lemma {:induction false} EnsureAllEvolves(w: World, desired: seq<Instance>, outs: seq<Outcome>)
    requires Inv(w) && |desired| == |outs|
    ensures Evolves(w, EnsureAllIn(w, desired, outs)) && Inv(EnsureAllIn(w, desired, outs))
    decreases |desired|
  {
    hide Inv, EnsureIn, Evolves;
    if desired == [] {
      SelfEvolves(w);
    } else {
      var n := |desired| - 1;
      var u := EnsureAllIn(w, desired[..n], outs[..n]);
      EnsureAllEvolves(w, desired[..n], outs[..n]);
      EnsureEvolves(u, desired[n], outs[n]);
      EvolvesTrans(w, u, EnsureIn(u, desired[n], outs[n]));
      EvolvesKeepsInv(u, EnsureIn(u, desired[n], outs[n]));
    }
  }

  lemma SelfEvolves(w: World)
    requires Inv(w)
    ensures Evolves(w, w)
  {
    hide MtgManager.Inv, CollectorOk, Credited;
  }

  /** Stopping entries, or processes dying by themselves. */
  lemma FewerEvolves(w: World, v: World)
    requires Inv(w) && MtgManager.Inv(v.m) && v == w.(m := v.m) && v.m.nextProc == w.m.nextProc
    requires forall id :: id in v.m.procs ==> id in w.m.procs && v.m.procs[id] == w.m.procs[id]
    ensures Evolves(w, v)
  {
    hide Credited, CollectorOk, MtgManager.Inv;
  }

  lemma CountEvolves(w: World, p: nat, more: Load)
    requires Inv(w)
    ensures Evolves(w, Step(w, Counted(p, more)))
  {
    hide Credited, CollectorOk, MtgManager.Inv;
  }

  // ----- The collector's own steps -----

  lemma BeganKeepsInv(w: World, snaps: seq<Snap>)
    requires Inv(w) && ListsRunning(w.m.procs, w.m.running, snaps)
    ensures Inv(w.(collector := Scanning(snaps)))
  {
    hide Credited, Books, MtgManager.Inv;
    var v := w.(collector := Scanning(snaps));
    BooksFrame(w, v);
    forall k | 0 <= k < |snaps| ensures SnapOk(v, snaps[k]) {
      assert EntryOk(w, snaps[k].id);
    }
    forall id | id in v.m.procs ensures EntryOk(v, id) {
      assert EntryOk(w, id);
    }
  }

  lemma BooksFrame(w: World, v: World)
    requires Books(w) && v.m == w.m && v.owner == w.owner && v.count == w.count && v.log == w.log
    ensures Books(v)
  {
  }

  lemma ScrapeKeepsInv(w: World, ok: bool)
    requires Inv(w)
    ensures Inv(Step(w, Scrape(ok)))
  {
    hide Credited, MtgManager.Inv;
    var v := Step(w, Scrape(ok));
    BooksFrame(w, v);
    assert forall id :: id in v.m.procs ==> EntryOk(w, id);
    if w.collector.Scanning? && w.collector.todo != [] {
      var todo := w.collector.todo;
      assert SnapOk(w, todo[0]);
      forall k | 0 <= k < |todo| - 1 ensures SnapOk(v, todo[1..][k]) && todo[1..][k].id != todo[0].id {
        assert SnapOk(w, todo[k + 1]);
      }
    }
  }

  /** What a write-back credits to the scraped process; nothing to any other. */
  lemma WriteBackCredits(w: World, p: nat, d: Dir)
    requires w.collector.Scraped?
    ensures var s := w.collector.s;
            var last := if d == Up then s.lastUp else s.lastDown;
            Credited(WriteBackIn(w).log, p, d)
            == Credited(w.log, p, d) + if p == s.proc then Delta(s.haveLast, Count(w.collector.reading, d), last) else 0
  {
    hide Credited;
    var s, r := w.collector.s, w.collector.reading;
    var report := ReportOf(s, r.up, r.down);
    if report.Some? {
      CreditedAppend(w.log, Entry(s.id, s.proc, report.value), p, d);
    }
  }

  lemma OthersUncredited(w: World, p: nat)
    requires w.collector.Scraped? && p != w.collector.s.proc
    ensures Credited(WriteBackIn(w).log, p, Up) == Credited(w.log, p, Up)
    ensures Credited(WriteBackIn(w).log, p, Down) == Credited(w.log, p, Down)
  {
    hide Credited, WriteBackIn;
    WriteBackCredits(w, p, Up);
    WriteBackCredits(w, p, Down);
  }

  /** A process is never credited past the reading its delta came from. */
  lemma CreditedWithinReading(w: World)
    requires CollectorOk(w) && w.collector.Scraped?
    ensures WithinCount(WriteBackIn(w).log, w.collector.s.proc, w.collector.reading)
  {
    hide Credited, WriteBackIn;
    WriteBackCredits(w, w.collector.s.proc, Up);
    WriteBackCredits(w, w.collector.s.proc, Down);
  }

  lemma WriteBackBooks(w: World)
    requires Books(w) && CollectorOk(w) && w.collector.Scraped?
    ensures Books(WriteBackIn(w))
  {
    hide Credited, MtgManager.Inv;
    var v, s := WriteBackIn(w), w.collector.s;
    CreditedWithinReading(w);
    WriteBackManager(w);
    forall p | 0 <= p < |v.count| ensures WithinCount(v.log, p, v.count[p]) {
      assert WithinCount(w.log, p, w.count[p]);
      if p != s.proc {
        OthersUncredited(w, p);
      }
    }
    assert forall k :: 0 <= k < |w.log| ==> v.log[k] == w.log[k];
  }

  lemma WriteBackManager(w: World)
    requires MtgManager.Inv(w.m) && w.collector.Scraped?
    ensures MtgManager.Inv(WriteBackIn(w).m)
  {
    var v := WriteBackIn(w).m;
    assert v.procs.Keys == w.m.procs.Keys;
    forall p | p in v.running ensures exists id :: id in v.procs && v.procs[id].proc == p {
      var id :| id in w.m.procs && w.m.procs[id].proc == p;
      assert id in v.procs && v.procs[id].proc == p;
    }
  }

  lemma WriteBackEntry(w: World, id: int)
    requires CollectorOk(w) && w.collector.Scraped? && id in w.m.procs && EntryOk(w, id)
    ensures EntryOk(WriteBackIn(w), id)
  {
    CreditedWithinReading(w);
    if w.m.procs[id].proc != w.collector.s.proc {
      OthersUncredited(w, w.m.procs[id].proc);
    }
    hide Credited;
  }

  lemma WriteBackSnap(w: World, t: Snap)
    requires CollectorOk(w) && w.collector.Scraped? && SnapOk(w, t) && t.id != w.collector.s.id
    requires t.id in w.m.procs ==> EntryOk(w, t.id)
    ensures SnapOk(WriteBackIn(w), t)
  {
    OthersUncredited(w, t.proc);
    if t.id in w.m.procs {
      OthersUncredited(w, w.m.procs[t.id].proc);
    }
    hide Credited;
  }

  lemma WriteBackKeepsInv(w: World)
    requires Inv(w) && w.collector.Scraped?
    ensures Inv(WriteBackIn(w))
  {
    var v, todo := WriteBackIn(w), w.collector.todo;
    WriteBackBooks(w);
    hide Books, EntryOk, SnapOk;
    forall id | id in v.m.procs ensures EntryOk(v, id) {
      WriteBackEntry(w, id);
    }
    forall k | 0 <= k < |todo| ensures SnapOk(v, todo[k]) {
      WriteBackSnap(w, todo[k]);
    }
  }

  // ----- Every run -----

  lemma StepKeepsInv(w: World, e: Event)
    requires Inv(w)
    ensures Inv(Step(w, e))
  {
    hide Books, Inv, WriteBackIn, Evolves;
    match e
    case Began(snaps) =>
      if w.collector.Idle? && ListsRunning(w.m.procs, w.m.running, snaps) {
        BeganKeepsInv(w, snaps);
      }
    case Scrape(ok) =>
      ScrapeKeepsInv(w, ok);
    case WroteBack =>
      if w.collector.Scraped? {
        WriteBackKeepsInv(w);
      }
    case _ =>
      ManageEvolves(w, e);
      EvolvesKeepsInv(w, Step(w, e));
  }

  /** The collector's own events. */
  predicate Collects(e: Event) {
    e.Began? || e.Scrape? || e.WroteBack?
  }

  lemma ManageEvolves(w: World, e: Event)
    requires Inv(w) && !Collects(e)
    ensures Evolves(w, Step(w, e))
  {
    hide Books, Inv, Evolves;
    InvManager(w);
    SelfEvolves(w);
    match e
    case Ensured(inst, out) =>
      EnsureEvolves(w, inst, out);
    case Removed(id) =>
      StopKeepsInv(w.m, id);
      FewerEvolves(w, Step(w, e));
    case Reconciled(desired, outs) =>
      if |desired| == |outs| {
        var v := w.(m := StopUnwanted(w.m, WantedIds(desired)));
        StopUnwantedKeepsInv(w.m, WantedIds(desired));
        FewerEvolves(w, v);
        EvolvesKeepsInv(w, v);
        EnsureAllEvolves(v, desired, outs);
        EvolvesTrans(w, v, Step(w, e));
      }
    case Crashed(p) =>
      CrashKeepsManager(w.m, p);
      FewerEvolves(w, Step(w, e));
    case Counted(p, more) =>
      CountEvolves(w, p, more);
  }

  lemma CrashKeepsManager(m: State, p: nat)
    requires MtgManager.Inv(m)
    ensures MtgManager.Inv(m.(running := m.running - {p}))
  {
  }

  lemma InvManager(w: World)
    requires Inv(w)
    ensures MtgManager.Inv(w.m)
  {
  }

  lemma {:induction false} RunKeepsInv(w: World, events: seq<Event>)
    requires Inv(w)
    ensures Inv(Run(w, events))
    decreases |events|
  {
    hide Inv, Step;
    if events != [] {
      RunKeepsInv(w, events[..|events| - 1]);
      StepKeepsInv(Run(w, events[..|events| - 1]), events[|events| - 1]);
    }
  }

  // ----- Totals per inbound -----

  function Reported(log: seq<Entry>, id: int, d: Dir): int {
    if log == [] then 0
    else
      var n := |log| - 1;
      Reported(log[..n], id, d) + if log[n].id == id then Bytes(log[n].traffic, d) else 0
  }

  /** The bytes counted by every process ever started for the inbound. */
  function CountedFor(owner: seq<int>, count: seq<Load>, id: int, d: Dir): nat
    requires |owner| == |count|
  {
    if owner == [] then 0
    else
      var n := |owner| - 1;
      CountedFor(owner[..n], count[..n], id, d) + if owner[n] == id then Count(count[n], d) else 0
  }

  function CreditedFor(log: seq<Entry>, owner: seq<int>, id: int, d: Dir): int {
    if owner == [] then 0
    else
      var n := |owner| - 1;
      CreditedFor(log, owner[..n], id, d) + if owner[n] == id then Credited(log, n, d) else 0
  }

  lemma {:induction false} CreditedForAppend(log: seq<Entry>, e: Entry, owner: seq<int>, id: int, d: Dir)
    ensures CreditedFor(log + [e], owner, id, d)
            == CreditedFor(log, owner, id, d)
               + if e.proc < |owner| && owner[e.proc] == id then Bytes(e.traffic, d) else 0
    decreases |owner|
  {
    hide Credited;
    if owner != [] {
      var n := |owner| - 1;
      CreditedForAppend(log, e, owner[..n], id, d);
      CreditedAppend(log, e, n, d);
    }
  }

  lemma {:induction false} NothingCreditedFor(owner: seq<int>, id: int, d: Dir)
    ensures CreditedFor([], owner, id, d) == 0
  {
    if owner != [] {
      NothingCreditedFor(owner[..|owner| - 1], id, d);
    }
  }

  lemma {:induction false} ReportedByProcess(log: seq<Entry>, owner: seq<int>, id: int, d: Dir)
    requires forall k :: 0 <= k < |log| ==> log[k].proc < |owner| && owner[log[k].proc] == log[k].id
    ensures Reported(log, id, d) == CreditedFor(log, owner, id, d)
    decreases |log|
  {
    hide CreditedFor;
    if log == [] {
      NothingCreditedFor(owner, id, d);
    } else {
      var n := |log| - 1;
      ReportedByProcess(log[..n], owner, id, d);
      CreditedForAppend(log[..n], log[n], owner, id, d);
      assert log[..n] + [log[n]] == log;
    }
  }

  lemma {:induction false} CreditedWithinCounted(log: seq<Entry>, owner: seq<int>, count: seq<Load>, id: int, d: Dir)
    requires |owner| == |count|
    requires forall p :: 0 <= p < |count| ==> Credited(log, p, d) <= Count(count[p], d)
    ensures CreditedFor(log, owner, id, d) <= CountedFor(owner, count, id, d)
    decreases |owner|
  {
    hide Credited;
    if owner != [] {
      CreditedWithinCounted(log, owner[..|owner| - 1], count[..|owner| - 1], id, d);
    }
  }

  /**
   However collections interleave with management, crashes and traffic: no reported delta is negative, and what is
   reported for an inbound, in either direction, is never more than its processes counted.
   */
  lemma ReportsBounded(events: seq<Event>, id: int, d: Dir)
    ensures var w := Run(Init(), events);
            && (forall k :: 0 <= k < |w.log| ==> w.log[k].traffic.up >= 0 && w.log[k].traffic.down >= 0)
            && |w.owner| == |w.count| && Reported(w.log, id, d) <= CountedFor(w.owner, w.count, id, d)
  {
    var w := Run(Init(), events);
    RunKeepsInv(Init(), events);
    hide Run, Step, MtgManager.Inv, Credited, Reported, CountedFor, CreditedFor;
    ReportedByProcess(w.log, w.owner, id, d);
    forall p | 0 <= p < |w.count| ensures Credited(w.log, p, d) <= Count(w.count[p], d) {
      assert WithinCount(w.log, p, w.count[p]);
    }
    CreditedWithinCounted(w.log, w.owner, w.count, id, d);
  }

  // ----- A process that is not replaced is credited exactly -----

  function Last(m: Managed, d: Dir): int {
    match d case Up => m.lastUp case Down => m.lastDown
  }

  /** The entry as it was when it had a baseline for the first time during the run. */
  ghost function First(w: World, events: seq<Event>, id: int): Option<Managed>
    decreases |events|
  {
    var v := Run(w, events);
    var here := if id in v.m.procs && v.m.procs[id].haveLast then Some(v.m.procs[id]) else None;
    if events == [] then here
    else
      var before := First(w, events[..|events| - 1], id);
      if before.Some? then before else here
  }

  /** The entry keeps its process. */
  predicate Holds(w: World, id: int, p: nat) {
    id in w.m.procs && w.m.procs[id].proc == p
  }

  ghost predicate Undisturbed(w: World, events: seq<Event>, id: int, p: nat) {
    forall k :: 0 <= k <= |events| ==> Holds(Run(w, events[..k]), id, p)
  }

  /** What is credited to an entry with this first baseline. */
  function Exact(m: Managed, first: Option<Managed>, d: Dir): int {
    match first case None => 0 case Some(f) => Last(m, d) - Last(f, d)
  }

  /** A planned scrape of the entry knows its process and its present baseline. */
  predicate Current(s: Snap, m: Managed) {
    s.proc == m.proc && s.haveLast == m.haveLast && s.lastUp == m.lastUp && s.lastDown == m.lastDown
  }

  ghost predicate PlansCurrent(snaps: seq<Snap>, id: int, m: Managed) {
    forall k :: 0 <= k < |snaps| && snaps[k].id == id ==> Current(snaps[k], m)
  }

  ghost predicate CollectorCurrent(c: Collector, id: int, m: Managed) {
    match c
    case Idle => true
    case Scanning(todo) => PlansCurrent(todo, id, m)
    case Scraped(s, r, todo) =>
      && PlansCurrent(todo, id, m)
      && (s.id == id ==> Current(s, m) && (m.haveLast ==> m.lastUp <= r.up && m.lastDown <= r.down))
  }

  ghost predicate Steady(w: World, id: int, p: nat, first: Option<Managed>) {
    && Holds(w, id, p) && p < |w.count|
    && var m := w.m.procs[id];
       && (m.haveLast <==> first.Some?)
       && Credited(w.log, p, Up) == Exact(m, first, Up) && Credited(w.log, p, Down) == Exact(m, first, Down)
       && (m.haveLast ==> m.lastUp <= w.count[p].up && m.lastDown <= w.count[p].down)
       && CollectorCurrent(w.collector, id, m)
  }

  lemma KeptWhenHeld(w: World, v: World, id: int, p: nat)
    requires Inv(w) && Evolves(w, v) && Holds(w, id, p) && Holds(v, id, p)
    ensures Kept(w, v, id)
  {
    hide MtgManager.Inv, Credited, CollectorOk, Books;
    assert EntryOk(w, id);
  }

  lemma ManageKeepsSteady(w: World, v: World, id: int, p: nat, first: Option<Managed>)
    requires Inv(w) && Evolves(w, v) && Steady(w, id, p, first) && Holds(v, id, p)
    ensures Steady(v, id, p, first) && v.m.procs[id].haveLast == w.m.procs[id].haveLast
  {
    KeptWhenHeld(w, v, id, p);
    hide MtgManager.Inv, Credited, CollectorOk, Books, EntryOk, Inv;
    assert SnapOf(id, v.m.procs[id].(tag := "")) == SnapOf(id, w.m.procs[id].(tag := ""));
    assert Current(SnapOf(id, v.m.procs[id]), w.m.procs[id]);
  }

  lemma BeganKeepsSteady(w: World, snaps: seq<Snap>, id: int, p: nat, first: Option<Managed>)
    requires Steady(w, id, p, first) && ListsRunning(w.m.procs, w.m.running, snaps)
    ensures Steady(w.(collector := Scanning(snaps)), id, p, first)
  {
    hide Credited;
  }

  lemma ScrapeKeepsSteady(w: World, ok: bool, id: int, p: nat, first: Option<Managed>)
    requires Steady(w, id, p, first)
    ensures Steady(Step(w, Scrape(ok)), id, p, first)
  {
    hide Credited;
  }

  /** After a write-back the entry has a baseline; if it is the entry's own, that is the reading. */
  lemma WriteBackKeepsSteady(w: World, id: int, p: nat, first: Option<Managed>)
    requires Inv(w) && w.collector.Scraped? && Steady(w, id, p, first)
    ensures var v := WriteBackIn(w);
            && Holds(v, id, p)
            && Steady(v, id, p, if first.Some? || !v.m.procs[id].haveLast then first else Some(v.m.procs[id]))
  {
    var v, s := WriteBackIn(w), w.collector.s;
    OtherOwner(w, id, p);
    WriteBackCredits(w, p, Up);
    WriteBackCredits(w, p, Down);
    hide Credited, MtgManager.Inv, Books, EntryOk, SnapOk, ReportOf;
  }

  /** Two ids never share a process. */
  lemma OtherOwner(w: World, id: int, p: nat)
    requires Inv(w) && w.collector.Scraped? && Holds(w, id, p)
    ensures w.collector.s.id != id ==> w.collector.s.proc != p
    ensures forall k :: 0 <= k < |w.collector.todo| && w.collector.s.id == id ==> w.collector.todo[k].id != id
  {
    hide MtgManager.Inv, Credited, Books;
    assert EntryOk(w, id) && SnapOk(w, w.collector.s);
  }

  lemma StepKeepsSteady(w: World, e: Event, id: int, p: nat, first: Option<Managed>)
    requires Inv(w) && Steady(w, id, p, first) && Holds(Step(w, e), id, p)
    ensures var v := Step(w, e);
            Steady(v, id, p, if first.Some? || !v.m.procs[id].haveLast then first else Some(v.m.procs[id]))
  {
    hide Inv, Evolves, WriteBackIn;
    HaveLastIsFirst(w, id, p, first);
    match e
    case Began(snaps) =>
      if w.collector.Idle? && ListsRunning(w.m.procs, w.m.running, snaps) {
        BeganKeepsSteady(w, snaps, id, p, first);
      }
    case Scrape(ok) =>
      ScrapeKeepsSteady(w, ok, id, p, first);
    case WroteBack =>
      if w.collector.Scraped? {
        WriteBackKeepsSteady(w, id, p, first);
      }
    case _ =>
      ManageEvolves(w, e);
      ManageKeepsSteady(w, Step(w, e), id, p, first);
  }

  lemma HaveLastIsFirst(w: World, id: int, p: nat, first: Option<Managed>)
    requires Steady(w, id, p, first)
    ensures w.m.procs[id].haveLast <==> first.Some?
  {
  }

  lemma {:induction false} RunKeepsSteady(w: World, events: seq<Event>, id: int, p: nat)
    requires Inv(w) && Steady(w, id, p, None) && Undisturbed(w, events, id, p)
    ensures Steady(Run(w, events), id, p, First(w, events, id))
    decreases |events|
  {
    hide Inv, Steady, Step;
    if events == [] {
      HaveLastIsFirst(w, id, p, None);
    } else {
      var n := |events| - 1;
      var front := events[..n];
      assert events[..|events|] == events;
      assert forall k :: 0 <= k <= n ==> front[..k] == events[..k];
      RunKeepsSteady(w, front, id, p);
      RunKeepsInv(w, front);
      StepKeepsSteady(Run(w, front), events[n], id, p, First(w, front, id));
    }
  }

  /** Nothing is planned for the entry. */
  predicate NotPlanned(c: Collector, id: int) {
    match c
    case Idle => true
    case Scanning(todo) => forall k :: 0 <= k < |todo| ==> todo[k].id != id
    case Scraped(s, _, todo) => s.id != id && forall k :: 0 <= k < |todo| ==> todo[k].id != id
  }

  lemma {:induction false} CreditedNotNegative(log: seq<Entry>, p: nat, d: Dir)
    requires forall k :: 0 <= k < |log| ==> log[k].traffic.up >= 0 && log[k].traffic.down >= 0
    ensures Credited(log, p, d) >= 0
  {
    if log != [] {
      CreditedNotNegative(log[..|log| - 1], p, d);
    }
  }

  lemma FreshSteady(w: World, id: int, p: nat)
    requires Inv(w) && Holds(w, id, p) && !w.m.procs[id].haveLast && NotPlanned(w.collector, id)
    ensures Steady(w, id, p, None)
  {
    hide Credited, MtgManager.Inv;
    assert EntryOk(w, id);
    CreditedNotNegative(w.log, p, Up);
    CreditedNotNegative(w.log, p, Down);
  }

  /**
   From a state in which an entry has no baseline yet and no scrape of it is under way, and for as long as its process
   is not replaced: what is reported for the process is its present baseline minus its first, to the byte.
   */
  lemma SteadyReportsExact(w: World, events: seq<Event>, id: int, p: nat, d: Dir)
    requires Inv(w) && Undisturbed(w, events, id, p)
    requires id in w.m.procs && !w.m.procs[id].haveLast && NotPlanned(w.collector, id)
    ensures var v := Run(w, events);
            id in v.m.procs && Credited(v.log, p, d) == Exact(v.m.procs[id], First(w, events, id), d)
  {
    assert events[..0] == [];
    assert Holds(Run(w, events[..0]), id, p);
    FreshSteady(w, id, p);
    RunKeepsSteady(w, events, id, p);
    hide Run, First, Credited, Exact, CollectorCurrent;
  }

  // ----- The tag of a report -----

  /** At some time of the run the process ran for the id under the tag. */
  ghost predicate RanUnder(w: World, events: seq<Event>, id: int, p: nat, tag: string) {
    exists n :: 0 <= n <= |events| && RunsUnder(Run(w, events[..n]), id, p, tag)
  }

  predicate RunsUnder(w: World, id: int, p: nat, tag: string) {
    id in w.m.procs && w.m.procs[id].proc == p && w.m.procs[id].tag == tag && p in w.m.running
  }

  function Plans(c: Collector): seq<Snap> {
    match c
    case Idle => []
    case Scanning(todo) => todo
    case Scraped(s, _, todo) => [s] + todo
  }

  /** Every planned scrape and every report of v is of a process that ran for its id under its tag. */
  ghost predicate Tagged(w: World, events: seq<Event>, v: World) {
    && (forall k :: 0 <= k < |Plans(v.collector)| ==>
          RanUnder(w, events, Plans(v.collector)[k].id, Plans(v.collector)[k].proc, Plans(v.collector)[k].tag))
    && (forall k :: 0 <= k < |v.log| ==> RanUnder(w, events, v.log[k].id, v.log[k].proc, v.log[k].traffic.tag))
  }

  lemma RanBefore(w: World, events: seq<Event>, id: int, p: nat, tag: string)
    requires events != [] && RanUnder(w, events[..|events| - 1], id, p, tag)
    ensures RanUnder(w, events, id, p, tag)
  {
    hide Run, RunsUnder;
    var n :| 0 <= n <= |events| - 1 && RunsUnder(Run(w, events[..|events| - 1][..n]), id, p, tag);
    assert events[..|events| - 1][..n] == events[..n];
  }

  /** Each report carries the tag its entry had when the scrape was planned. */
  lemma {:induction false} ReportsTagged(w: World, events: seq<Event>)
    requires w.collector.Idle? && w.log == []
    ensures Tagged(w, events, Run(w, events))
    decreases |events|
  {
    hide RanUnder;
    if events != [] {
      var n := |events| - 1;
      var u := Run(w, events[..n]);
      ReportsTagged(w, events[..n]);
      forall id, p, tag | RanUnder(w, events[..n], id, p, tag) ensures RanUnder(w, events, id, p, tag) {
        RanBefore(w, events, id, p, tag);
      }
      forall id, p, tag | RunsUnder(u, id, p, tag) ensures RanUnder(w, events, id, p, tag) {
        RunsNow(w, events, n, id, p, tag);
      }
      StepKeepsTagged(w, events, u, events[n]);
    }
  }

  lemma RunsNow(w: World, events: seq<Event>, n: nat, id: int, p: nat, tag: string)
    requires n <= |events| && RunsUnder(Run(w, events[..n]), id, p, tag)
    ensures RanUnder(w, events, id, p, tag)
  {
  }

  lemma StepKeepsTagged(w: World, events: seq<Event>, u: World, e: Event)
    requires Tagged(w, events, u)
    requires forall id, p, tag :: RunsUnder(u, id, p, tag) ==> RanUnder(w, events, id, p, tag)
    ensures Tagged(w, events, Step(u, e))
  {
    hide RanUnder, EnsureIn, EnsureAllIn, StopUnwanted;
    match e
    case Ensured(inst, out) => EnsureInKeeps(u, inst, out);
    case Reconciled(desired, outs) =>
      if |desired| == |outs| {
        EnsureAllInKeeps(u.(m := StopUnwanted(u.m, WantedIds(desired))), desired, outs);
      }
    case Began(snaps) =>
      forall k | 0 <= k < |snaps| && ListsRunning(u.m.procs, u.m.running, snaps)
        ensures RunsUnder(u, snaps[k].id, snaps[k].proc, snaps[k].tag)
      {
      }
    case Scrape(ok) =>
      if u.collector.Scanning? && u.collector.todo != [] {
        var s, rest := u.collector.todo[0], u.collector.todo[1..];
        assert [s] + rest == Plans(u.collector);
        assert forall k :: 0 <= k < |rest| ==> rest[k] == Plans(u.collector)[k + 1];
      }
    case WroteBack =>
      if u.collector.Scraped? {
        assert Plans(u.collector)[0] == u.collector.s;
        assert forall k :: 0 <= k < |u.collector.todo| ==> u.collector.todo[k] == Plans(u.collector)[k + 1];
      }
    case _ =>
  }

  lemma EnsureInKeeps(w: World, inst: Instance, out: Outcome)
    ensures EnsureIn(w, inst, out).collector == w.collector && EnsureIn(w, inst, out).log == w.log
  {
  }

  lemma {:induction false} EnsureAllInKeeps(w: World, desired: seq<Instance>, outs: seq<Outcome>)
    requires |desired| == |outs|
    ensures EnsureAllIn(w, desired, outs).collector == w.collector && EnsureAllIn(w, desired, outs).log == w.log
    decreases |desired|
  {
    hide Ensure;
    if desired != [] {
      EnsureAllInKeeps(w, desired[..|desired| - 1], outs[..|outs| - 1]);
    }
  }
}
