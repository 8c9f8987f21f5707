/** Unique proxy names for the Clash subscription (internal/sub/clash_service.go): every proxy keeps its name if it is
    free, or takes the first free numbered one. */
module ProxyNames {
  import opened Decimal
  import opened Options

  /** What a proxy map holds under a key: nothing, a string, or anything else, known by how `%v` prints it. */
  datatype Value = Missing | Str(s: string) | Other(printed: string)

  /** A proxy map, reduced to the keys that are read or written here. */
  class Proxy {
    var name: Value
    const typ: Value
    const server: Value
    const port: Value

    constructor (name: Value, typ: Value, server: Value, port: Value)
      ensures this.name == name && this.typ == typ && this.server == server && this.port == port
    {
      this.name, this.typ, this.server, this.port := name, typ, server, port;
    }
  }

  function AsString(v: Value): string {
    if v.Str? then v.s else ""
  }

  function Printed(v: Value): string {
    match v case Missing => "<nil>" case Str(s) => s case Other(t) => t
  }

  function FallbackProxyName(typ: Value, server: Value, port: Value, idx: nat): (r: string)
    ensures r != ""
  {
    if AsString(typ) != "" && AsString(server) != "" then AsString(typ) + "-" + AsString(server) + "-" + Printed(port)
    else "proxy-" + OfInt(idx + 1)
  }

  /** The name a proxy asks for. */
  function BaseOf(name: Value, typ: Value, server: Value, port: Value, i: nat): (r: string)
    ensures r != "" && (AsString(name) != "" ==> r == AsString(name))
  {
    if AsString(name) != "" then AsString(name) else FallbackProxyName(typ, server, port, i)
  }

  function Base(p: Proxy, i: nat): (r: string)
    reads p
    ensures r != ""
  {
    BaseOf(p.name, p.typ, p.server, p.port, i)
  }

  /** The names tried for a base: itself, then numbered from 2. */
  function Candidate(base: string, n: nat): string {
    if n <= 1 then base else base + "-" + OfInt(n)
  }

  lemma CandidateInjective(base: string, m: nat, n: nat)
    requires m >= 1 && n >= 1 && Candidate(base, m) == Candidate(base, n)
    ensures m == n
  {
    hide OfInt;
    if m > 1 && n > 1 {
      assert Candidate(base, m)[|base| + 1..] == OfInt(m) && Candidate(base, n)[|base| + 1..] == OfInt(n);
      IntInjective(m, n);
    }
  }

  /** The taken names that have not been tried yet: what bounds the search. */
  ghost function Untried(base: string, seen: set<string>, n: nat): set<string> {
    set t | t in seen && forall k: nat :: 1 <= k < n ==> Candidate(base, k) != t
  }

  lemma TakenNameTried(base: string, seen: set<string>, n: nat)
    requires n >= 1 && Candidate(base, n) in seen
    ensures Untried(base, seen, n + 1) < Untried(base, seen, n)
  {
    forall k: nat | 1 <= k < n ensures Candidate(base, k) != Candidate(base, n) {
      if Candidate(base, k) == Candidate(base, n) {
        CandidateInjective(base, k, n);
      }
    }
    assert Candidate(base, n) in Untried(base, seen, n) && Candidate(base, n) !in Untried(base, seen, n + 1);
  }

  /** The first free candidate from n on. */
  ghost function FirstFree(base: string, seen: set<string>, n: nat): (r: nat)
    requires n >= 1
    ensures r >= n && Candidate(base, r) !in seen && forall k: nat :: n <= k < r ==> Candidate(base, k) in seen
    decreases Untried(base, seen, n)
  {
    if Candidate(base, n) !in seen then n
    else
      TakenNameTried(base, seen, n);
      FirstFree(base, seen, n + 1)
  }

  ghost function Names(bases: seq<string>): (r: seq<string>)
    ensures |r| == |bases|
  {
    if bases == [] then []
    else
      var n := |bases| - 1;
      var front := Names(bases[..n]);
      front + [Candidate(bases[n], FirstFree(bases[n], Taken(front), 1))]
  }

  function Taken(names: seq<string>): set<string> {
    set t | t in names
  }

  // ----- What the names are -----

  lemma {:induction false} NamesPrefix(bases: seq<string>, k: nat)
    requires k <= |bases|
    ensures Names(bases)[..k] == Names(bases[..k])
  {
    hide Names;
    if k < |bases| {
      var n := |bases| - 1;
      var front := Names(bases[..n]);
      NamesPrefix(bases[..n], k);
      NamesStep(bases);
      assert bases[..n][..k] == bases[..k];
      TakeFromFront(front, Names(bases), k);
    } else {
      assert bases[..k] == bases && Names(bases)[..k] == Names(bases);
    }
  }

  lemma TakeFromFront(front: seq<string>, all: seq<string>, k: nat)
    requires k <= |front| < |all| && all[..|front|] == front
    ensures all[..k] == front[..k]
  {
    assert all[..|front|][..k] == all[..k];
  }

  /** The name is the base's n-th candidate, and the first that is not among the earlier names. */
  ghost predicate FirstFreeAt(base: string, earlier: seq<string>, name: string, n: nat) {
    && n >= 1 && name == Candidate(base, n) && name !in earlier
    && forall k: nat :: 1 <= k < n ==> Candidate(base, k) in earlier
  }

  lemma FirstFreeAtAgrees(base: string, earlier: seq<string>, name: string, n: nat)
    requires FirstFreeAt(base, earlier, name, n)
    ensures FirstFree(base, Taken(earlier), 1) == n && n >= 1 && name == Candidate(base, n)
  {
    hide Candidate;
    var m := FirstFree(base, Taken(earlier), 1);
  }

  ghost predicate FirstFreeName(bases: seq<string>, names: seq<string>, i: nat) {
    i < |bases| == |names| && exists n: nat :: FirstFreeAt(bases[i], names[..i], names[i], n)
  }

  lemma EachFirstFree(bases: seq<string>, i: nat)
    requires i < |bases|
    ensures FirstFreeName(bases, Names(bases), i)
  {
    hide Names;
    var names := Names(bases);
    NamesPrefix(bases, i);
    NamesPrefix(bases, i + 1);
    NamesStep(bases[..i + 1]);
    assert bases[..i + 1][..i] == bases[..i];
    assert names[i] == names[..i + 1][i];
    var n := FirstFree(bases[i], Taken(names[..i]), 1);
    assert FirstFreeAt(bases[i], names[..i], names[i], n);
  }

  predicate Distinct(names: seq<string>) {
    forall i, j :: 0 <= i < j < |names| ==> names[i] != names[j]
  }

  /** The names are pairwise distinct and not empty; they are determined by being first free in order. */
  lemma NamesUnique(bases: seq<string>)
    requires forall i :: 0 <= i < |bases| ==> bases[i] != ""
    ensures Distinct(Names(bases)) && forall i :: 0 <= i < |bases| ==> Names(bases)[i] != ""
  {
    var names := Names(bases);
    forall j | 0 <= j < |bases| ensures names[j] != "" && forall i :: 0 <= i < j ==> names[i] != names[j] {
      EachFirstFree(bases, j);
      forall i | 0 <= i < j ensures names[i] != names[j] {
        assert names[i] == names[..j][i];
      }
    }
  }

  lemma {:induction false} NamesDetermined(bases: seq<string>, names: seq<string>)
    requires |bases| == |names| && forall i :: 0 <= i < |bases| ==> FirstFreeName(bases, names, i)
    ensures names == Names(bases)
    decreases |bases|
  {
    hide FirstFreeAt, Names, Candidate, Taken;
    if bases != [] {
      var last := |bases| - 1;
      var b, s := bases[..last], names[..last];
      forall i | 0 <= i < last ensures FirstFreeName(b, s, i) {
        FirstFreeInFront(bases, names, i);
      }
      NamesDetermined(b, s);
      NamesStep(bases);
      assert FirstFreeName(bases, names, last);
      var n: nat :| FirstFreeAt(bases[last], s, names[last], n);
      FirstFreeAtAgrees(bases[last], s, names[last], n);
      assert names == s + [names[last]];
    } else {
      NamesStep(bases);
    }
  }

  lemma FirstFreeInFront(bases: seq<string>, names: seq<string>, i: nat)
    requires i + 1 < |bases| && FirstFreeName(bases, names, i)
    ensures FirstFreeName(bases[..|bases| - 1], names[..|names| - 1], i)
  {
    hide FirstFreeAt;
    assert names[..|names| - 1][..i] == names[..i];
  }

  lemma NamesStep(bases: seq<string>)
    ensures Names(bases)
            == if bases == [] then []
               else
                 var front := Names(bases[..|bases| - 1]);
                 var base := bases[|bases| - 1];
                 front + [Candidate(base, FirstFree(base, Taken(front), 1))]
  {
  }

  /** A list is left as it is exactly when its names are already distinct. */
  lemma UniqueUnchanged(bases: seq<string>)
    requires forall i :: 0 <= i < |bases| ==> bases[i] != ""
    ensures Names(bases) == bases <==> Distinct(bases)
  {
    NamesUnique(bases);
    if Distinct(bases) {
      forall i | 0 <= i < |bases| ensures FirstFreeName(bases, bases, i) {
        assert FirstFreeAt(bases[i], bases[..i], bases[i], 1);
      }
      NamesDetermined(bases, bases);
    }
  }

  // ----- Renaming in place -----

  ghost function Bases(proxies: seq<Proxy>): (r: seq<string>)
    reads proxies
    ensures |r| == |proxies| && forall i :: 0 <= i < |r| ==> r[i] == Base(proxies[i], i) && r[i] != ""
  {
    if proxies == [] then []
    else
      var n := |proxies| - 1;
      Bases(proxies[..n]) + [Base(proxies[n], n)]
  }

  lemma TakenAppend(names: seq<string>, name: string)
    ensures Taken(names + [name]) == Taken(names) + {name} && Taken([]) == {}
  {
  }

  /** The latest place before the n-th where the list holds the proxy. */
  ghost function Previous(proxies: seq<Proxy>, p: Proxy, n: nat): (r: Option<nat>)
    requires n <= |proxies|
    ensures r.Some? ==> r.value < n && proxies[r.value] == p
    ensures forall k :: (match r case None => 0 case Some(j) => j + 1) <= k < n ==> proxies[k] != p
  {
    if n == 0 then None
    else if proxies[n - 1] == p then Some(n - 1)
    else Previous(proxies, p, n - 1)
  }

  /** `asked` are the names asked for turn by turn; each proxy has the name given at its last turn. */
  ghost predicate Renamed(proxies: seq<Proxy>, asked: seq<string>, bases: seq<string>)
    reads proxies
  {
    && |asked| == |proxies| == |bases|
    && (forall i :: 0 <= i < |asked| ==> asked[i] != "")
    && (forall i :: 0 <= i < |proxies| ==>
          asked[i] == match Previous(proxies, proxies[i], i) case None => bases[i] case Some(j) => Names(asked)[j])
    && (forall i :: 0 <= i < |proxies| ==>
          Previous(proxies, proxies[i], |proxies|).Some?
          && proxies[i].name == Str(Names(asked)[Previous(proxies, proxies[i], |proxies|).value]))
  }

  ghost predicate DistinctMaps(proxies: seq<Proxy>) {
    forall i, j :: 0 <= i < j < |proxies| ==> proxies[i] != proxies[j]
  }

  ghost predicate NamesAre(proxies: seq<Proxy>, names: seq<string>)
    reads proxies
  {
    |names| == |proxies| && forall i :: 0 <= i < |proxies| ==> proxies[i].name == Str(names[i])
  }

  /**
   Renames the proxies in place. A map that occurs again asks for the name it was given before; if none does, as in
   the lists the subscription builds, the names are those of the bases.
   */
  method EnsureUniqueProxyNames(proxies: seq<Proxy>) returns (ghost asked: seq<string>)
    modifies proxies
    ensures Renamed(proxies, asked, old(Bases(proxies)))
    ensures DistinctMaps(proxies) ==> asked == old(Bases(proxies)) && NamesAre(proxies, Names(old(Bases(proxies))))
  {
    hide BaseOf, Candidate, Taken, Names, Bases, Named, Asked, Renamed, DistinctMaps, NamesAre;
    ghost var bases, olds := Bases(proxies), seq(|proxies|, k requires 0 <= k < |proxies| reads proxies => proxies[k].name);
    asked := [];
    ghost var names: seq<string> := [];
    Start(proxies, olds, bases);
    var seen: set<string> := {};
    TakenAppend([], "");
    for i := 0 to |proxies|
      invariant Asked(proxies, i, asked, names, bases) && Named(proxies, i, names, olds) && seen == Taken(names)
    {
      var proxy := proxies[i];
      var name := PickName(proxy, i, seen, names);
      NextBase(proxies, i, asked, names, olds, bases);
      AskedStep(proxies, i, asked, names, bases, Base(proxy, i), name);
      TakenAppend(names, name);
      asked := asked + [Base(proxy, i)];
      Rename(proxies, i, name, names, olds);
      names := names + [name];
      seen := seen + {name};
    }
    Finish(proxies, asked, names, olds, bases);
  }

  /** Each proxy has the name given at its latest turn before the i-th, or still its own. */
  ghost predicate Named(proxies: seq<Proxy>, i: nat, names: seq<string>, olds: seq<Value>)
    reads proxies
  {
    && i <= |proxies| == |olds| && |names| == i
    && forall k :: 0 <= k < |proxies| ==> proxies[k].name == Given(olds[k], Previous(proxies, proxies[k], i), names)
  }

  /** What the first i turns asked for, and the names they were given. */
  ghost predicate Asked(proxies: seq<Proxy>, i: nat, asked: seq<string>, names: seq<string>, bases: seq<string>) {
    && i <= |proxies| == |bases| && |asked| == i && names == Names(asked)
    && (forall k :: 0 <= k < i ==> names[k] != "")
    && (forall k :: 0 <= k < i ==> asked[k] != "" && asked[k] == Wanted(bases[k], Previous(proxies, proxies[k], k), names))
  }

  lemma Start(proxies: seq<Proxy>, olds: seq<Value>, bases: seq<string>)
    requires |bases| == |proxies| == |olds| && forall k :: 0 <= k < |proxies| ==> proxies[k].name == olds[k]
    ensures Asked(proxies, 0, [], [], bases) && Named(proxies, 0, [], olds)
  {
  }

  lemma NextBase(proxies: seq<Proxy>, i: nat, asked: seq<string>, names: seq<string>, olds: seq<Value>, bases: seq<string>)
    requires i < |proxies| && Asked(proxies, i, asked, names, bases) && Named(proxies, i, names, olds)
    requires forall k :: 0 <= k < |proxies| ==>
               bases[k] == BaseOf(olds[k], proxies[k].typ, proxies[k].server, proxies[k].port, k)
    ensures Base(proxies[i], i) == Wanted(bases[i], Previous(proxies, proxies[i], i), names)
  {
    hide BaseOf, Names;
    BaseGiven(proxies[i], i, olds[i], Previous(proxies, proxies[i], i), names);
  }

  lemma AskedStep(proxies: seq<Proxy>, i: nat, asked: seq<string>, names: seq<string>, bases: seq<string>,
                  base: string, name: string)
    requires i < |proxies| && Asked(proxies, i, asked, names, bases)
    requires base != "" && base == Wanted(bases[i], Previous(proxies, proxies[i], i), names)
    requires name != "" && name == Candidate(base, FirstFree(base, Taken(names), 1))
    ensures Asked(proxies, i + 1, asked + [base], names + [name], bases)
  {
    hide Candidate, Names, Taken;
    NamesStep(asked + [base]);
    assert (asked + [base])[..i] == asked;
  }

  /** The assignment that ends a turn. */
  method Rename(proxies: seq<Proxy>, i: nat, name: string, ghost names: seq<string>, ghost olds: seq<Value>)
    requires i < |proxies| && Named(proxies, i, names, olds)
    modifies proxies[i]
    ensures Named(proxies, i + 1, names + [name], olds)
  {
    proxies[i].name := Str(name);
  }

  lemma Finish(proxies: seq<Proxy>, asked: seq<string>, names: seq<string>, olds: seq<Value>, bases: seq<string>)
    requires Asked(proxies, |proxies|, asked, names, bases) && Named(proxies, |proxies|, names, olds)
    ensures Renamed(proxies, asked, bases)
    ensures DistinctMaps(proxies) ==> asked == bases && NamesAre(proxies, Names(bases))
  {
    hide Names, Previous;
    forall i | 0 <= i < |proxies| ensures Previous(proxies, proxies[i], |proxies|).Some? {
      HasLastTurn(proxies, i);
    }
    if DistinctMaps(proxies) {
      forall i | 0 <= i < |proxies|
        ensures Previous(proxies, proxies[i], i) == None && Previous(proxies, proxies[i], |proxies|) == Some(i)
      {
        OnlyTurn(proxies, i);
      }
      assert asked == bases;
    }
  }

  lemma HasLastTurn(proxies: seq<Proxy>, i: nat)
    requires i < |proxies|
    ensures Previous(proxies, proxies[i], |proxies|).Some?
  {
    hide Previous;
    var r := Previous(proxies, proxies[i], |proxies|);
  }

  lemma OnlyTurn(proxies: seq<Proxy>, i: nat)
    requires i < |proxies| && forall k :: 0 <= k < |proxies| && proxies[k] == proxies[i] ==> k == i
    ensures Previous(proxies, proxies[i], i) == None && Previous(proxies, proxies[i], |proxies|) == Some(i)
  {
    hide Previous;
    HasLastTurn(proxies, i);
    var r := Previous(proxies, proxies[i], i);
  }

  function Wanted(base: string, previous: Option<nat>, names: seq<string>): string {
    match previous
    case None => base
    case Some(j) => if j < |names| then names[j] else base
  }

  function Given(name: Value, previous: Option<nat>, names: seq<string>): Value {
    match previous
    case None => name
    case Some(j) => if j < |names| then Str(names[j]) else name
  }

  lemma BaseGiven(p: Proxy, i: nat, name: Value, previous: Option<nat>, names: seq<string>)
    requires p.name == Given(name, previous, names) && forall k :: 0 <= k < |names| ==> names[k] != ""
    ensures Base(p, i) == Wanted(BaseOf(name, p.typ, p.server, p.port, i), previous, names)
  {
    hide FallbackProxyName;
  }

  /** The name the loop body settles on. */
  method PickName(proxy: Proxy, i: nat, seen: set<string>, ghost earlier: seq<string>) returns (name: string)
    requires seen == Taken(earlier)
    ensures name == Candidate(Base(proxy, i), FirstFree(Base(proxy, i), seen, 1)) && name != ""
  {
    hide OfInt;
    var base := AsString(proxy.name);
    if base == "" {
      base := FallbackProxyName(proxy.typ, proxy.server, proxy.port, i);
    }
    name := base;
    var n := 2;
    while name in seen
      invariant n >= 2 && name == Candidate(base, n - 1)
      invariant forall k: nat :: 1 <= k < n - 1 ==> Candidate(base, k) in seen
      decreases Untried(base, seen, n - 1)
    {
      TakenNameTried(base, seen, n - 1);
      name := base + "-" + OfInt(n);
      n := n + 1;
    }
    FirstFreeAtAgrees(base, earlier, name, n - 1);
  }

  // ----- Some names -----

  lemma SmallNumbers()
    ensures OfInt(1) == "1" && OfInt(2) == "2" && OfInt(3) == "3"
  {
  }

  /** Three proxies of one name. */
  lemma NumberedNames()
    ensures Names(["node", "node", "node"]) == ["node", "node-2", "node-3"]
  {
    hide OfInt, Candidate, FirstFree;
    var bases := ["node", "node", "node"];
    SmallCandidates();
    assert bases[..2][..1] == bases[..1] && bases[..1][..0] == [] && bases[..3] == bases;
    assert Names([]) == [];
    NextName("node", [], 1);
    assert Names(bases[..1]) == [] + [Candidate("node", 1)];
    NextName("node", ["node"], 2);
    assert Names(bases[..2]) == ["node"] + [Candidate("node", 2)];
    NextName("node", ["node", "node-2"], 3);
    assert Names(bases) == ["node", "node-2"] + [Candidate("node", 3)];
  }

  lemma SmallCandidates()
    ensures Candidate("node", 1) == "node" && Candidate("node", 2) == "node-2" && Candidate("node", 3) == "node-3"
    ensures "node-2" != "node" && "node-3" !in {"node", "node-2"}
  {
    SmallNumbers();
    assert |"node-2"| != |"node"| && "node-3"[5] != "node-2"[5];
  }

  lemma NextName(base: string, front: seq<string>, n: nat)
    requires n >= 1 && Candidate(base, n) !in front
    requires forall k: nat :: 1 <= k < n ==> Candidate(base, k) in front
    ensures FirstFree(base, Taken(front), 1) == n
  {
    hide Candidate, FirstFree;
    var r := FirstFree(base, Taken(front), 1);
    assert forall k: nat :: 1 <= k < n ==> Candidate(base, k) in Taken(front);
  }

  /** The first proxy, without a name: with a type and a server, and without. */
  lemma FallbackNames()
    ensures FallbackProxyName(Str("vless"), Str("a.com"), Other("443"), 0) == "vless-a.com-443"
    ensures FallbackProxyName(Missing, Str("a.com"), Other("443"), 0) == "proxy-1"
  {
    SmallNumbers();
  }
}
