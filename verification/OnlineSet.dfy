/** The online bookkeeping of the Xray process wrapper (internal/xray/process.go): clients and inbounds seen within a
    grace window, and the online subtrees that remote nodes report. Maps are visited in whatever order they come. */
module OnlineSet {
  import opened Options
  import opened Sets

  type Tree = map<string, seq<string>>

  predicate NoDuplicates(s: seq<string>) {
    forall i, j :: 0 <= i < j < |s| ==> s[i] != s[j]
  }

  function Elements(s: seq<string>): set<string> {
    set e | e in s
  }

  /** The sequence holds the elements of the set, each once. */
  predicate Lists(s: seq<string>, all: set<string>) {
    NoDuplicates(s) && Elements(s) == all
  }

  lemma ListsMore(s: seq<string>, all: set<string>, e: string)
    requires Lists(s, all)
    ensures e in all ==> e in s
    ensures e !in all ==> Lists(s + [e], all + {e})
  {
    forall x ensures x in Elements(s + [e]) <==> x in all + {e} {
      assert x in Elements(s) <==> x in all;
    }
  }

  lemma ListsSelf(s: seq<string>, all: set<string>)
    ensures Lists([], {}) && (Lists(s, all) ==> Lists(s, Elements(s)))
  {
  }

  // ----- Specification -----

  datatype State = State(lastOnline: map<string, int>, lastActive: map<string, int>, trees: map<int, Tree>)

  const NOTHING := State(map[], map[], map[])

  function Stamped(last: map<string, int>, names: seq<string>, now: int): map<string, int> {
    last + map e | e in names :: now
  }

  function Pruned(last: map<string, int>, now: int, grace: int): map<string, int> {
    map e | e in last && now - last[e] < grace :: last[e]
  }

  /** Every name reported now is stamped, then what has not been seen within the grace is forgotten. */
  function Refreshed(last: map<string, int>, names: seq<string>, now: int, grace: int): map<string, int> {
    Pruned(Stamped(last, names, now), now, grace)
  }

  lemma RefreshedAt(last: map<string, int>, names: seq<string>, now: int, grace: int, e: string)
    ensures var m := Refreshed(last, names, now, grace);
            && (e in m <==> if e in names then 0 < grace else e in last && now - last[e] < grace)
            && (e in m ==> m[e] == if e in names then now else last[e])
  {
  }

  datatype Event =
    | Refresh(emails: seq<string>, tags: seq<string>, now: int)
    | SetTree(node: int, tree: Tree)
    | ClearNode(node: int)

  function Step(st: State, e: Event, grace: int): State {
    match e
    case Refresh(emails, tags, now) =>
      st.(lastOnline := Refreshed(st.lastOnline, emails, now, grace), lastActive := Refreshed(st.lastActive, tags, now, grace))
    case SetTree(node, tree) => st.(trees := st.trees[node := tree])
    case ClearNode(node) => st.(trees := st.trees - {node})
  }

  function Run(events: seq<Event>, grace: int): State {
    if events == [] then NOTHING else Step(Run(events[..|events| - 1], grace), events[|events| - 1], grace)
  }

  // ----- The grace window over whole runs -----

  /** The time of the latest refresh. */
  function Latest(events: seq<Event>): Option<int> {
    if events == [] then None
    else
      var e := events[|events| - 1];
      if e.Refresh? then Some(e.now) else Latest(events[..|events| - 1])
  }

  predicate NonDecreasing(events: seq<Event>) {
    forall i, j :: 0 <= i < j < |events| && events[i].Refresh? && events[j].Refresh? ==> events[i].now <= events[j].now
  }

  /** Which of the two lists of a refresh is meant: clients or inbound tags. */
  datatype Kind = Clients | Inbounds

  function NamesIn(e: Event, kind: Kind): seq<string>
    requires e.Refresh?
  {
    match kind case Clients => e.emails case Inbounds => e.tags
  }

  function LastSeen(st: State, kind: Kind): map<string, int> {
    match kind case Clients => st.lastOnline case Inbounds => st.lastActive
  }

  /** The k-th event reported the name less than the grace before the time now. */
  predicate ReportedWithin(events: seq<Event>, k: nat, name: string, kind: Kind, now: int, grace: int) {
    k < |events| && events[k].Refresh? && name in NamesIn(events[k], kind) && now - events[k].now < grace
  }

  function LatestReport(events: seq<Event>, name: string, kind: Kind): (r: Option<nat>)
    ensures r.Some? ==> r.value < |events| && events[r.value].Refresh? && name in NamesIn(events[r.value], kind)
    ensures forall k :: (match r case None => 0 case Some(n) => n + 1) <= k < |events| && events[k].Refresh? ==>
              name !in NamesIn(events[k], kind)
  {
    if events == [] then None
    else
      var n := |events| - 1;
      var r := LatestReport(events[..n], name, kind);
      assert forall k :: 0 <= k < n ==> events[..n][k] == events[k];
      if events[n].Refresh? && name in NamesIn(events[n], kind) then Some(n) else r
  }

  /** What the time map says about a name last reported at the time `at`, when the latest refresh was at `latest`. */
  predicate SeenAt(last: map<string, int>, latest: Option<int>, at: Option<int>, grace: int, name: string) {
    && (name in last <==> at.Some? && latest.Some? && latest.value - at.value < grace)
    && (name in last ==> last[name] == at.value)
  }

  lemma SeenStep(last: map<string, int>, latest: Option<int>, at: Option<int>, grace: int, name: string,
                 names: seq<string>, now: int)
    requires SeenAt(last, latest, at, grace, name) && (latest.Some? ==> latest.value <= now) && (at.Some? ==> latest.Some?)
    ensures SeenAt(Refreshed(last, names, now, grace), Some(now), if name in names then Some(now) else at, grace, name)
  {
    hide Refreshed;
    RefreshedAt(last, names, now, grace, name);
  }

  function ReportTime(events: seq<Event>, name: string, kind: Kind): Option<int> {
    match LatestReport(events, name, kind) case None => None case Some(n) => Some(events[n].now)
  }

  lemma ReportTimeStep(events: seq<Event>, name: string, kind: Kind)
    requires events != []
    ensures var e := events[|events| - 1];
            ReportTime(events, name, kind)
            == if e.Refresh? && name in NamesIn(e, kind) then Some(e.now)
               else ReportTime(events[..|events| - 1], name, kind)
    ensures ReportTime(events[..|events| - 1], name, kind).Some? ==> Latest(events[..|events| - 1]).Some?
  {
    LatestIsRefresh(events[..|events| - 1]);
  }

  lemma {:induction false} SeenAtLatestReport(events: seq<Event>, grace: int, name: string, kind: Kind)
    requires NonDecreasing(events)
    ensures SeenAt(LastSeen(Run(events, grace), kind), Latest(events), ReportTime(events, name, kind), grace, name)
    decreases |events|
  {
    hide Refreshed, SeenAt, ReportTime;
    if events == [] {
      NeverSeen(grace, name, kind);
    } else {
      var n := |events| - 1;
      SeenAtLatestReport(events[..n], grace, name, kind);
      LatestIsRefresh(events[..n]);
      ReportTimeStep(events, name, kind);
      if events[n].Refresh? {
        SeenStep(LastSeen(Run(events[..n], grace), kind), Latest(events[..n]), ReportTime(events[..n], name, kind),
                 grace, name, NamesIn(events[n], kind), events[n].now);
      }
    }
  }

  lemma NeverSeen(grace: int, name: string, kind: Kind)
    ensures SeenAt(LastSeen(NOTHING, kind), None, ReportTime([], name, kind), grace, name)
  {
  }

  lemma {:induction false} LatestIsRefresh(events: seq<Event>)
    ensures Latest(events).Some? ==> exists k :: 0 <= k < |events| && events[k].Refresh? && events[k].now == Latest(events).value
    ensures Latest(events).None? ==> forall k :: 0 <= k < |events| ==> !events[k].Refresh?
  {
    if events != [] {
      LatestIsRefresh(events[..|events| - 1]);
    }
  }

  /**
   After any run of refreshes at non-decreasing times, however node updates interleave, the names held are exactly
   those reported within the grace of the latest refresh.
   */
  lemma GraceWindow(events: seq<Event>, grace: int, name: string, kind: Kind)
    requires NonDecreasing(events)
    ensures name in LastSeen(Run(events, grace), kind)
            <==> Latest(events).Some?
                 && exists k :: ReportedWithin(events, k, name, kind, Latest(events).value, grace)
  {
    hide Run, LastSeen, Latest, LatestReport, NamesIn;
    SeenAtLatestReport(events, grace, name, kind);
    var r := LatestReport(events, name, kind);
    if Latest(events).Some? {
      if name in LastSeen(Run(events, grace), kind) {
        assert ReportedWithin(events, r.value, name, kind, Latest(events).value, grace);
      }
      if k :| ReportedWithin(events, k, name, kind, Latest(events).value, grace) {
        assert r.Some? && k <= r.value;
      }
    }
  }

  /** The tree a node reported last, unless it was cleared since. */
  function LastTree(events: seq<Event>, node: int): Option<Tree> {
    if events == [] then None
    else
      match events[|events| - 1]
      case Refresh(_, _, _) => LastTree(events[..|events| - 1], node)
      case SetTree(n, tree) => if n == node then Some(tree) else LastTree(events[..|events| - 1], node)
      case ClearNode(n) => if n == node then None else LastTree(events[..|events| - 1], node)
  }

  /** Each node contributes its last reported tree and nothing once cleared, whatever else happens. */
  lemma {:induction false} TreesAreLatest(events: seq<Event>, grace: int, node: int)
    ensures var trees := Run(events, grace).trees;
            LastTree(events, node) == if node in trees then Some(trees[node]) else None
  {
    hide Refreshed;
    if events != [] {
      TreesAreLatest(events[..|events| - 1], grace, node);
    }
  }

  // ----- The node trees -----

  function TreeOnline(tree: Tree): set<string> {
    set g, e | g in tree && e in tree[g] :: e
  }

  /** Everyone online anywhere: the local list and every list of every node's tree. */
  function AllOnline(locals: seq<string>, trees: map<int, Tree>): set<string> {
    Elements(locals) + set n, e | n in trees && e in TreeOnline(trees[n]) :: e
  }

  lemma AllOnlineMeans(locals: seq<string>, trees: map<int, Tree>, e: string)
    ensures e in AllOnline(locals, trees)
            <==> e in locals || exists n, g :: n in trees && g in trees[n] && e in trees[n][g]
  {
    if n, g :| n in trees && g in trees[n] && e in trees[n][g] {
      assert e in TreeOnline(trees[n]);
    }
    if n :| n in trees && e in TreeOnline(trees[n]) {
      var g :| g in trees[n] && e in trees[n][g];
    }
  }

  /** The GUIDs that any node reports clients for. */
  function AllGuids(trees: map<int, Tree>): set<string> {
    set n, g | n in trees && g in trees[n] && g != "" && trees[n][g] != [] :: g
  }

  function AtGuid(trees: map<int, Tree>, guid: string): set<string> {
    set n, e | n in trees && guid in trees[n] && e in trees[n][guid] :: e
  }

  // ----- Loops over lists and maps -----

  /** Appends the names not seen yet. */
  method Add(out: seq<string>, seen: set<string>, emails: seq<string>) returns (out': seq<string>, seen': set<string>)
    requires Lists(out, seen)
    ensures Lists(out', seen') && seen' == seen + Elements(emails)
  {
    hide Lists;
    out', seen' := out, seen;
    for i := 0 to |emails|
      invariant Lists(out', seen') && seen' == seen + Elements(emails[..i])
    {
      assert emails[..i + 1] == emails[..i] + [emails[i]];
      assert Elements(emails[..i + 1]) == Elements(emails[..i]) + {emails[i]};
      if emails[i] !in seen' {
        ListsMore(out', seen', emails[i]);
        seen' := seen' + {emails[i]};
        out' := out' + [emails[i]];
      }
    }
    assert emails[..|emails|] == emails;
  }

  /** Stamps the names, then visits the map: what is within the grace is listed, the rest deleted. */
  method Rebuild(last: map<string, int>, names: seq<string>, now: int, grace: int)
    returns (kept: map<string, int>, listed: seq<string>)
    ensures kept == Refreshed(last, names, now, grace) && Lists(listed, kept.Keys)
  {
    hide Lists, Stamped;
    kept := last;
    NothingStamped(last, now);
    for i := 0 to |names|
      invariant kept == Stamped(last, names[..i], now)
    {
      StampedMore(last, names, i, now);
      kept := kept[names[i] := now];
    }
    assert names[..|names|] == names;
    ghost var stamped := kept;
    ghost var shown: set<string> := {};
    listed := [];
    ListsSelf([], {});
    var todo := kept.Keys;
    while todo != {}
      invariant todo <= kept.Keys && kept.Keys == todo + shown && todo !! shown
      invariant forall e :: e in kept ==> e in stamped && kept[e] == stamped[e]
      invariant forall e :: e in stamped && e !in kept ==> now - stamped[e] >= grace
      invariant forall e :: e in shown ==> now - stamped[e] < grace
      invariant Lists(listed, shown)
      decreases todo
    {
      SomeString(todo);
      var e :| e in todo;
      ListsMore(listed, shown, e);
      todo := todo - {e};
      if now - kept[e] < grace {
        listed := listed + [e];
        shown := shown + {e};
      } else {
        kept := kept - {e};
      }
    }
    assert kept.Keys == shown;
    assert kept == Pruned(stamped, now, grace);
  }

  lemma NothingStamped(last: map<string, int>, now: int)
    ensures Stamped(last, [], now) == last
  {
  }

  lemma StampedMore(last: map<string, int>, names: seq<string>, i: nat, now: int)
    requires i < |names|
    ensures Stamped(last, names[..i + 1], now) == Stamped(last, names[..i], now)[names[i] := now]
  {
    assert names[..i + 1] == names[..i] + [names[i]];
  }

  method AddTree(out: seq<string>, seen: set<string>, tree: Tree) returns (out': seq<string>, seen': set<string>)
    requires Lists(out, seen)
    ensures Lists(out', seen') && seen' == seen + TreeOnline(tree)
  {
    hide Lists;
    out', seen' := out, seen;
    var todo := tree.Keys;
    ghost var done: Tree := map[];
    while todo != {}
      invariant todo <= tree.Keys && Lists(out', seen') && seen' == seen + TreeOnline(done)
      invariant Visited(tree, todo, done)
      decreases todo
    {
      SomeString(todo);
      var g :| g in todo;
      TreeOnlineMore(done, g, tree[g]);
      done := done[g := tree[g]];
      out', seen' := Add(out', seen', tree[g]);
      todo := todo - {g};
    }
    assert done == tree;
  }

  /** The part of the map whose keys are no longer to do. */
  ghost predicate Visited<K(!new), V>(m: map<K, V>, todo: set<K>, done: map<K, V>) {
    (forall k :: k in done <==> k in m && k !in todo) && (forall k :: k in done ==> done[k] == m[k])
  }

  lemma TreeOnlineMore(done: Tree, g: string, names: seq<string>)
    requires g !in done
    ensures TreeOnline(done[g := names]) == TreeOnline(done) + Elements(names)
  {
    var more := done[g := names];
    forall e ensures e in TreeOnline(more) <==> e in TreeOnline(done) + Elements(names) {
      if e in TreeOnline(done) {
        var h :| h in done && e in done[h];
        assert h in more && more[h] == done[h];
      }
      if e in names {
        assert g in more && e in more[g];
      }
    }
  }

  lemma AllOnlineMore(locals: seq<string>, done: map<int, Tree>, n: int, tree: Tree)
    requires n !in done
    ensures AllOnline(locals, done[n := tree]) == AllOnline(locals, done) + TreeOnline(tree)
  {
    hide TreeOnline;
    var more := done[n := tree];
    forall e ensures e in AllOnline(locals, more) <==> e in AllOnline(locals, done) + TreeOnline(tree) {
      if m :| m in done && e in TreeOnline(done[m]) {
        assert m in more && more[m] == done[m];
      }
      if e in TreeOnline(tree) {
        assert n in more && e in TreeOnline(more[n]);
      }
    }
  }

  lemma NoTrees(locals: seq<string>, trees: map<int, Tree>)
    requires trees == map[]
    ensures AllOnline(locals, trees) == Elements(locals)
  {
  }

  // ----- Merging node trees -----

  /** The lists of a merge in progress, and the sets that keep them duplicate-free. */
  predicate Holds(out: Tree, seen: map<string, set<string>>) {
    out.Keys == seen.Keys && forall g :: g in out ==> Lists(out[g], seen[g])
  }

  function Collected(trees: map<int, Tree>): map<string, set<string>> {
    map g | g in AllGuids(trees) :: AtGuid(trees, g)
  }

  function MergeOne(seen: map<string, set<string>>, guid: string, emails: seq<string>): map<string, set<string>> {
    if guid == "" || emails == [] then seen
    else seen[guid := (if guid in seen then seen[guid] else {}) + Elements(emails)]
  }

  /** Under each GUID that any node reports clients for, the union of what is reported; no empty GUID, no empty list. */
  lemma CollectedMeans(trees: map<int, Tree>, g: string, e: string)
    ensures g in Collected(trees) <==> g != "" && exists n :: n in trees && g in trees[n] && trees[n][g] != []
    ensures g in Collected(trees) ==>
              (e in Collected(trees)[g] <==> exists n :: n in trees && g in trees[n] && e in trees[n][g])
  {
  }

  lemma CollectedMore(done: map<int, Tree>, n: int, part: Tree, g: string, emails: seq<string>)
    requires n !in done && g !in part
    ensures Collected(done[n := part[g := emails]]) == MergeOne(Collected(done[n := part]), g, emails)
  {
    hide Collected;
    var a, b := done[n := part], done[n := part[g := emails]];
    forall h ensures h in Collected(b) <==> h in MergeOne(Collected(a), g, emails) {
      CollectedMeans(a, h, "");
      CollectedMeans(b, h, "");
      KeyMore(done, n, part, g, emails, h);
    }
    forall h | h in Collected(b) ensures Collected(b)[h] == MergeOne(Collected(a), g, emails)[h] {
      forall e ensures e in Collected(b)[h] <==> e in MergeOne(Collected(a), g, emails)[h] {
        CollectedMeans(a, h, e);
        CollectedMeans(b, h, e);
        NameMore(done, n, part, g, emails, h, e);
      }
    }
    assert Collected(b).Keys == MergeOne(Collected(a), g, emails).Keys;
  }

  lemma KeyMore(done: map<int, Tree>, n: int, part: Tree, g: string, emails: seq<string>, h: string)
    requires n !in done && g !in part
    ensures var a, b := done[n := part], done[n := part[g := emails]];
            (exists m :: m in b && h in b[m] && b[m][h] != [])
            <==> (exists m :: m in a && h in a[m] && a[m][h] != []) || (h == g && emails != [])
  {
    var a, b := done[n := part], done[n := part[g := emails]];
    if m :| m in a && h in a[m] && a[m][h] != [] {
      assert m in b && h in b[m] && b[m][h] == a[m][h];
    }
    if h == g && emails != [] {
      assert n in b && h in b[n];
    }
    if m :| m in b && h in b[m] && b[m][h] != [] {
      assert m in a && !(m == n && h == g) ==> h in a[m] && a[m][h] == b[m][h];
    }
  }

  lemma NameMore(done: map<int, Tree>, n: int, part: Tree, g: string, emails: seq<string>, h: string, e: string)
    requires n !in done && g !in part
    ensures var a, b := done[n := part], done[n := part[g := emails]];
            (exists m :: m in b && h in b[m] && e in b[m][h])
            <==> (exists m :: m in a && h in a[m] && e in a[m][h]) || (h == g && e in emails)
  {
    var a, b := done[n := part], done[n := part[g := emails]];
    if m :| m in a && h in a[m] && e in a[m][h] {
      assert m in b && h in b[m] && b[m][h] == a[m][h];
    }
    if h == g && e in emails {
      assert n in b && h in b[n];
    }
    if m :| m in b && h in b[m] && e in b[m][h] {
      assert m in a && !(m == n && h == g) ==> h in a[m] && a[m][h] == b[m][h];
    }
  }

  lemma EmptyTreeMore(done: map<int, Tree>, n: int)
    requires n !in done
    ensures Collected(done[n := map[]]) == Collected(done)
  {
    hide Collected;
    var a, b := done, done[n := map[]];
    forall h ensures h in Collected(a) <==> h in Collected(b) {
      CollectedMeans(a, h, "");
      CollectedMeans(b, h, "");
      if m :| m in a && h in a[m] && a[m][h] != [] {
        assert m in b && b[m] == a[m];
      }
    }
    forall h | h in Collected(a) ensures Collected(a)[h] == Collected(b)[h] {
      forall e ensures e in Collected(a)[h] <==> e in Collected(b)[h] {
        CollectedMeans(a, h, e);
        CollectedMeans(b, h, e);
        if m :| m in a && h in a[m] && e in a[m][h] {
          assert m in b && b[m] == a[m];
        }
      }
    }
    assert Collected(a).Keys == Collected(b).Keys;
  }

  method MergeTree(out: Tree, seen: map<string, set<string>>, ghost done: map<int, Tree>, ghost n: int, tree: Tree)
    returns (out': Tree, seen': map<string, set<string>>)
    requires Holds(out, seen) && seen == Collected(done) && n !in done
    ensures Holds(out', seen') && seen' == Collected(done[n := tree])
  {
    hide Collected, Lists;
    out', seen' := out, seen;
    var todo := tree.Keys;
    ghost var part: Tree := map[];
    EmptyTreeMore(done, n);
    ListsSelf([], {});
    while todo != {}
      invariant todo <= tree.Keys && Visited(tree, todo, part)
      invariant Holds(out', seen') && seen' == Collected(done[n := part])
      decreases todo
    {
      SomeString(todo);
      var guid :| guid in todo;
      var emails := tree[guid];
      CollectedMore(done, n, part, guid, emails);
      if guid != "" && emails != [] {
        var list, names := [], {};
        if guid in seen' {
          list, names := out'[guid], seen'[guid];
        }
        list, names := Add(list, names, emails);
        out', seen' := out'[guid := list], seen'[guid := names];
      }
      part := part[guid := emails];
      todo := todo - {guid};
    }
    assert part == tree;
  }

  // ----- The class -----

  class Process {
    var localLastOnline: map<string, int>
    var onlineClients: seq<string>
    var localInboundLastActive: map<string, int>
    var localActiveInbounds: seq<string>
    var nodeOnlineTrees: map<int, Tree>

    constructor ()
      ensures Valid() && Abs() == NOTHING
    {
      localLastOnline, onlineClients := map[], [];
      localInboundLastActive, localActiveInbounds := map[], [];
      nodeOnlineTrees := map[];
    }

    /** The lists hold exactly the names of the time maps. */
    predicate Valid()
      reads this
    {
      Lists(onlineClients, localLastOnline.Keys) && Lists(localActiveInbounds, localInboundLastActive.Keys)
    }

    function Abs(): State
      reads this
    {
      State(localLastOnline, localInboundLastActive, nodeOnlineTrees)
    }

    method RefreshLocalOnline(activeEmails: seq<string>, activeInboundTags: seq<string>, now: int, graceMs: int)
      requires Valid()
      modifies this
      ensures Valid() && Abs() == Step(old(Abs()), Refresh(activeEmails, activeInboundTags, now), graceMs)
    {
      hide Refreshed, Lists;
      localLastOnline, onlineClients := Rebuild(localLastOnline, activeEmails, now, graceMs);
      localInboundLastActive, localActiveInbounds := Rebuild(localInboundLastActive, activeInboundTags, now, graceMs);
    }

    method SetNodeOnlineTree(nodeID: int, tree: Tree)
      requires Valid()
      modifies this
      ensures Valid() && Abs() == Step(old(Abs()), SetTree(nodeID, tree), 0)
    {
      nodeOnlineTrees := nodeOnlineTrees[nodeID := tree];
    }

    method ClearNodeOnlineClients(nodeID: int)
      requires Valid()
      modifies this
      ensures Valid() && Abs() == Step(old(Abs()), ClearNode(nodeID), 0)
    {
      nodeOnlineTrees := nodeOnlineTrees - {nodeID};
    }

    method GetOnlineClients() returns (out: seq<string>)
      requires Valid()
      ensures Lists(out, AllOnline(onlineClients, nodeOnlineTrees))
      ensures forall e :: e in out <==>
                e in onlineClients
                || exists n, g :: n in nodeOnlineTrees && g in nodeOnlineTrees[n] && e in nodeOnlineTrees[n][g]
    {
      hide Lists, AllOnline, TreeOnline;
      if nodeOnlineTrees == map[] {
        NoTrees(onlineClients, nodeOnlineTrees);
        ListsSelf(onlineClients, localLastOnline.Keys);
        ListedOnline(onlineClients, onlineClients, nodeOnlineTrees);
        return onlineClients;
      }
      var seen: set<string>;
      ListsSelf([], {});
      out, seen := Add([], {}, onlineClients);
      var todo := nodeOnlineTrees.Keys;
      ghost var done: map<int, Tree> := map[];
      NoTrees(onlineClients, done);
      while todo != {}
        invariant todo <= nodeOnlineTrees.Keys && Lists(out, seen) && seen == AllOnline(onlineClients, done)
        invariant Visited(nodeOnlineTrees, todo, done)
        decreases todo
      {
        SomeInt(todo);
        var n :| n in todo;
        AllOnlineMore(onlineClients, done, n, nodeOnlineTrees[n]);
        done := done[n := nodeOnlineTrees[n]];
        out, seen := AddTree(out, seen, nodeOnlineTrees[n]);
        todo := todo - {n};
      }
      assert done == nodeOnlineTrees;
      ListedOnline(out, onlineClients, nodeOnlineTrees);
    }

    method GetMergedNodeTrees() returns (out: Tree)
      ensures Holds(out, Collected(nodeOnlineTrees))
    {
      hide Collected, Lists;
      out := map[];
      NothingCollected();
      var seen: map<string, set<string>> := map[];
      var todo := nodeOnlineTrees.Keys;
      ghost var done: map<int, Tree> := map[];
      while todo != {}
        invariant todo <= nodeOnlineTrees.Keys && Visited(nodeOnlineTrees, todo, done)
        invariant Holds(out, seen) && seen == Collected(done)
        decreases todo
      {
        SomeInt(todo);
        var n :| n in todo;
        out, seen := MergeTree(out, seen, done, n, nodeOnlineTrees[n]);
        done := done[n := nodeOnlineTrees[n]];
        todo := todo - {n};
      }
      assert done == nodeOnlineTrees;
    }
  }

  lemma ListedOnline(out: seq<string>, locals: seq<string>, trees: map<int, Tree>)
    requires Lists(out, AllOnline(locals, trees))
    ensures forall e :: e in out <==> e in locals || exists n, g :: n in trees && g in trees[n] && e in trees[n][g]
  {
    hide AllOnline;
    forall e ensures e in out <==> e in locals || exists n, g :: n in trees && g in trees[n] && e in trees[n][g] {
      assert e in out <==> e in Elements(out);
      AllOnlineMeans(locals, trees, e);
    }
  }

  lemma NothingCollected()
    ensures Collected(map[]) == map[]
  {
    assert AllGuids(map[]) == {};
  }
}
