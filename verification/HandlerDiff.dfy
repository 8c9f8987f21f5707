/** The comparison both `diffInbounds` and `diffOutbounds` make between two lists of handlers that are
    addressed by tag: which tags to remove and which handlers to add, a changed handler being removed and
    added again. The content of a handler is compared through its meaning, so formatting never counts. */
module HandlerDiff {
  import opened Options

  /** Handlers in a list indexed by tag. */
  function TagMap<T>(s: seq<T>, tag: T -> string): (m: map<string, T>)
    ensures forall t :: t in m ==> tag(m[t]) == t
    ensures forall i :: 0 <= i < |s| ==> tag(s[i]) in m
  {
    if s == [] then map[] else TagMap(s[..|s| - 1], tag)[tag(s[|s| - 1]) := s[|s| - 1]]
  }

  predicate Distinct<T>(s: seq<T>, tag: T -> string) {
    forall i, j :: 0 <= i < j < |s| ==> tag(s[i]) != tag(s[j])
  }

  /** Every handler found in the index is in the list. */
  lemma {:induction false} TagMapFrom<T>(s: seq<T>, tag: T -> string, t: string)
    requires t in TagMap(s, tag)
    ensures TagMap(s, tag)[t] in s
  {
    if tag(s[|s| - 1]) != t {
      TagMapFrom(s[..|s| - 1], tag, t);
    }
  }

  /** With distinct tags every handler is found under its own tag. */
  lemma TagMapFinds<T>(s: seq<T>, tag: T -> string, i: nat)
    requires Distinct(s, tag) && i < |s|
    ensures TagMap(s, tag)[tag(s[i])] == s[i]
  {
  }

  function Meanings<T, M>(s: seq<T>, tag: T -> string, mean: T -> M): map<string, M> {
    map t | t in TagMap(s, tag) :: mean(TagMap(s, tag)[t])
  }

  // ----- The operations -----

  /** A handler stays when the other list has one of the same tag and meaning. */
  predicate Kept<T, M(==)>(x: T, others: map<string, T>, tag: T -> string, mean: T -> M) {
    tag(x) in others && mean(others[tag(x)]) == mean(x)
  }

  function Removed<T, M(==)>(before: seq<T>, news: map<string, T>, tag: T -> string, mean: T -> M): seq<string> {
    if before == [] then []
    else
      var x := before[|before| - 1];
      Removed(before[..|before| - 1], news, tag, mean) + if Kept(x, news, tag, mean) then [] else [tag(x)]
  }

  function Replaced<T, M(==)>(before: seq<T>, news: map<string, T>, tag: T -> string, mean: T -> M): seq<T> {
    if before == [] then []
    else
      var x := before[|before| - 1];
      Replaced(before[..|before| - 1], news, tag, mean)
      + if Kept(x, news, tag, mean) || tag(x) !in news then [] else [news[tag(x)]]
  }

  function Appeared<T>(after: seq<T>, olds: map<string, T>, tag: T -> string): seq<T> {
    if after == [] then []
    else
      var x := after[|after| - 1];
      Appeared(after[..|after| - 1], olds, tag) + if tag(x) in olds then [] else [x]
  }

  function Added<T, M(==)>(before: seq<T>, after: seq<T>, tag: T -> string, mean: T -> M): seq<T> {
    Replaced(before, TagMap(after, tag), tag, mean) + Appeared(after, TagMap(before, tag), tag)
  }

  // ----- Which handlers the operations name -----

  lemma RemovedTags<T, M>(before: seq<T>, news: map<string, T>, tag: T -> string, mean: T -> M, t: string)
    ensures t in Removed(before, news, tag, mean) <==>
            exists i :: 0 <= i < |before| && tag(before[i]) == t && !Kept(before[i], news, tag, mean)
  {
    hide Kept, Removed;
    if t in Removed(before, news, tag, mean) {
      var i := RemovedFrom(before, news, tag, mean, t);
    }
    forall i | 0 <= i < |before| && tag(before[i]) == t && !Kept(before[i], news, tag, mean)
      ensures t in Removed(before, news, tag, mean)
    {
      NotKeptRemoved(before, news, tag, mean, i);
    }
  }

  lemma {:induction false} RemovedFrom<T, M>(before: seq<T>, news: map<string, T>, tag: T -> string, mean: T -> M, t: string)
    returns (i: nat)
    requires t in Removed(before, news, tag, mean)
    ensures i < |before| && tag(before[i]) == t && !Kept(before[i], news, tag, mean)
  {
    hide Kept;
    var n := |before| - 1;
    if t in Removed(before[..n], news, tag, mean) {
      i := RemovedFrom(before[..n], news, tag, mean, t);
    } else {
      i := n;
    }
  }

  lemma {:induction false} NotKeptRemoved<T, M>(before: seq<T>, news: map<string, T>, tag: T -> string, mean: T -> M, i: nat)
    requires i < |before| && !Kept(before[i], news, tag, mean)
    ensures tag(before[i]) in Removed(before, news, tag, mean)
  {
    hide Kept;
    var n := |before| - 1;
    if i < n {
      NotKeptRemoved(before[..n], news, tag, mean, i);
    }
  }

  lemma {:induction false} ReplacedItems<T, M>(before: seq<T>, news: map<string, T>, tag: T -> string, mean: T -> M, x: T)
    requires forall t :: t in news ==> tag(news[t]) == t
    ensures x in Replaced(before, news, tag, mean) <==>
            tag(x) in news && news[tag(x)] == x && tag(x) in Removed(before, news, tag, mean)
  {
    if before != [] {
      ReplacedItems(before[..|before| - 1], news, tag, mean, x);
    }
  }

  lemma {:induction false} AppearedItems<T>(after: seq<T>, olds: map<string, T>, tag: T -> string, x: T)
    ensures x in Appeared(after, olds, tag) <==> x in after && tag(x) !in olds
  {
    if after != [] {
      AppearedItems(after[..|after| - 1], olds, tag, x);
      assert after == after[..|after| - 1] + [after[|after| - 1]];
    }
  }

  predicate NoRepeats(s: seq<string>) {
    forall i, j :: 0 <= i < j < |s| ==> s[i] != s[j]
  }

  lemma {:induction false} RemovedOnce<T, M>(before: seq<T>, news: map<string, T>, tag: T -> string, mean: T -> M)
    requires Distinct(before, tag)
    ensures NoRepeats(Removed(before, news, tag, mean))
  {
    if before != [] {
      var n := |before| - 1;
      RemovedOnce(before[..n], news, tag, mean);
      RemovedTags(before[..n], news, tag, mean, tag(before[n]));
    }
  }

  lemma {:induction false} ReplacedDistinct<T, M>(before: seq<T>, news: map<string, T>, tag: T -> string, mean: T -> M)
    requires Distinct(before, tag) && forall t :: t in news ==> tag(news[t]) == t
    ensures Distinct(Replaced(before, news, tag, mean), tag)
  {
    if before != [] {
      var n := |before| - 1;
      ReplacedDistinct(before[..n], news, tag, mean);
      RemovedTags(before[..n], news, tag, mean, tag(before[n]));
      var r := Replaced(before[..n], news, tag, mean);
      forall i | 0 <= i < |r| ensures tag(r[i]) != tag(before[n]) {
        ReplacedItems(before[..n], news, tag, mean, r[i]);
      }
    }
  }

  lemma {:induction false} AppearedDistinct<T>(after: seq<T>, olds: map<string, T>, tag: T -> string)
    requires Distinct(after, tag)
    ensures Distinct(Appeared(after, olds, tag), tag)
  {
    if after != [] {
      var n := |after| - 1;
      AppearedDistinct(after[..n], olds, tag);
      var r := Appeared(after[..n], olds, tag);
      forall i | 0 <= i < |r| ensures tag(r[i]) != tag(after[n]) {
        AppearedItems(after[..n], olds, tag, r[i]);
      }
    }
  }

  lemma AddedDistinct<T, M>(before: seq<T>, after: seq<T>, tag: T -> string, mean: T -> M)
    requires Distinct(before, tag) && Distinct(after, tag)
    ensures Distinct(Added(before, after, tag, mean), tag)
  {
    var olds, news := TagMap(before, tag), TagMap(after, tag);
    ReplacedDistinct(before, news, tag, mean);
    AppearedDistinct(after, olds, tag);
    var r, a := Replaced(before, news, tag, mean), Appeared(after, olds, tag);
    forall i, j | 0 <= i < |r| && 0 <= j < |a| ensures tag(r[i]) != tag(a[j]) {
      ReplacedItems(before, news, tag, mean, r[i]);
      RemovedTags(before, news, tag, mean, tag(r[i]));
      AppearedItems(after, olds, tag, a[j]);
    }
  }

  /** An added handler is the new list's handler for a tag that is changed or did not exist. */
  lemma AddedItems<T, M>(before: seq<T>, after: seq<T>, tag: T -> string, mean: T -> M, x: T)
    requires Distinct(before, tag) && Distinct(after, tag)
    ensures x in Added(before, after, tag, mean) <==>
            x in after && (tag(x) in TagMap(before, tag) ==> mean(TagMap(before, tag)[tag(x)]) != mean(x))
  {
    var olds, news := TagMap(before, tag), TagMap(after, tag);
    ReplacedItems(before, news, tag, mean, x);
    RemovedTags(before, news, tag, mean, tag(x));
    AppearedItems(after, olds, tag, x);
    if x in after {
      var k :| 0 <= k < |after| && after[k] == x;
      TagMapFinds(after, tag, k);
    }
    if tag(x) in news {
      TagMapFrom(after, tag, tag(x));
    }
    forall i | 0 <= i < |before| ensures olds[tag(before[i])] == before[i] {
      TagMapFinds(before, tag, i);
    }
    if tag(x) in olds {
      TagMapFrom(before, tag, tag(x));
    }
  }

  // ----- A running core's handlers -----

  /** Removing each tag in turn; None when a tag names no running handler. */
  function RemoveAll<M>(core: map<string, M>, tags: seq<string>): Option<map<string, M>> {
    if tags == [] then Some(core)
    else if tags[0] !in core then None
    else RemoveAll(core - {tags[0]}, tags[1..])
  }

  /** Adding each handler in turn; None when its tag is taken. */
  function AddAll<T, M>(core: map<string, M>, items: seq<T>, tag: T -> string, mean: T -> M): Option<map<string, M>>
    decreases |items|
  {
    if items == [] then Some(core)
    else if tag(items[0]) in core then None
    else AddAll(core[tag(items[0]) := mean(items[0])], items[1..], tag, mean)
  }

  lemma {:induction false} RemoveAllResult<M>(core: map<string, M>, tags: seq<string>)
    requires NoRepeats(tags) && forall t :: t in tags ==> t in core
    ensures RemoveAll(core, tags) == Some(map t | t in core && t !in tags :: core[t])
  {
    if tags == [] {
      assert (map t | t in core && t !in tags :: core[t]) == core;
    } else {
      var rest := core - {tags[0]};
      RemoveAllResult(rest, tags[1..]);
      assert (map t | t in core && t !in tags :: core[t]) == (map t | t in rest && t !in tags[1..] :: rest[t]);
    }
  }

  ghost predicate HoldsExactly<T, M>(r: map<string, M>, core: map<string, M>, items: seq<T>, tag: T -> string, mean: T -> M) {
    && (forall t :: t in core ==> t in r && r[t] == core[t])
    && (forall i :: 0 <= i < |items| ==> tag(items[i]) in r && r[tag(items[i])] == mean(items[i]))
    && (forall t :: t in r ==> t in core || exists i :: 0 <= i < |items| && tag(items[i]) == t)
  }

  lemma {:induction false} AddAllResult<T, M>(core: map<string, M>, items: seq<T>, tag: T -> string, mean: T -> M)
    requires Distinct(items, tag) && forall i :: 0 <= i < |items| ==> tag(items[i]) !in core
    ensures AddAll(core, items, tag, mean).Some?
    ensures HoldsExactly(AddAll(core, items, tag, mean).value, core, items, tag, mean)
    decreases |items|
  {
    if items != [] {
      var x, rest := items[0], items[1..];
      AddAllResult(core[tag(x) := mean(x)], rest, tag, mean);
      var r := AddAll(core, items, tag, mean).value;
      forall i | 0 <= i < |items| ensures tag(items[i]) in r && r[tag(items[i])] == mean(items[i]) {
        if i > 0 {
          assert items[i] == rest[i - 1];
        }
      }
      forall t | t in r && t !in core ensures exists i :: 0 <= i < |items| && tag(items[i]) == t {
        if t != tag(x) {
          var k :| 0 <= k < |rest| && tag(rest[k]) == t;
          assert items[k + 1] == rest[k];
        }
      }
    }
  }

  /** Removals, then additions, take a core running the old handlers to one running the new ones. */
  lemma DiffTransforms<T, M>(before: seq<T>, after: seq<T>, tag: T -> string, mean: T -> M)
    requires Distinct(before, tag) && Distinct(after, tag)
    ensures var removed := RemoveAll(Meanings(before, tag, mean), Removed(before, TagMap(after, tag), tag, mean));
            && removed.Some?
            && AddAll(removed.value, Added(before, after, tag, mean), tag, mean) == Some(Meanings(after, tag, mean))
  {
    var core, target := Meanings(before, tag, mean), Meanings(after, tag, mean);
    var tags, items := Removed(before, TagMap(after, tag), tag, mean), Added(before, after, tag, mean);
    hide Removed, Added, TagMap, Meanings;
    RemovedOnce(before, TagMap(after, tag), tag, mean);
    forall t ensures t in tags <==> t in core && !(t in target && target[t] == core[t]) {
      RemovedMeaning(before, after, tag, mean, t);
    }
    RemoveAllResult(core, tags);
    var rest := map t | t in core && t !in tags :: core[t];
    AddedDistinct(before, after, tag, mean);
    forall i | 0 <= i < |items| ensures ItemIsNew(items[i], core, target, tag, mean) {
      AddedMeaning(before, after, tag, mean, items[i]);
    }
    AddAllResult(rest, items, tag, mean);
    forall t | t in target && t !in rest ensures exists i :: 0 <= i < |items| && tag(items[i]) == t {
      NewHandlerAdded(before, after, tag, mean, t);
    }
    SameMap(AddAll(rest, items, tag, mean).value, target, rest, items, tag, mean);
  }

  lemma SameMap<T, M>(r: map<string, M>, target: map<string, M>, rest: map<string, M>, items: seq<T>, tag: T -> string, mean: T -> M)
    requires HoldsExactly(r, rest, items, tag, mean)
    requires forall t :: t in rest ==> t in target && target[t] == rest[t]
    requires forall i :: 0 <= i < |items| ==> tag(items[i]) in target && target[tag(items[i])] == mean(items[i])
    requires forall t :: t in target && t !in rest ==> exists i :: 0 <= i < |items| && tag(items[i]) == t
    ensures r == target
  {
    forall t | t in target ensures t in r && r[t] == target[t] {
      if t !in rest {
        var i :| 0 <= i < |items| && tag(items[i]) == t;
        assert tag(items[i]) in r;
      }
    }
    assert r.Keys == target.Keys;
  }

  /** The handler is the new one for its tag, and no old handler of that tag means the same. */
  ghost predicate ItemIsNew<T, M>(x: T, core: map<string, M>, target: map<string, M>, tag: T -> string, mean: T -> M) {
    && tag(x) in target && target[tag(x)] == mean(x)
    && !(tag(x) in core && core[tag(x)] == mean(x))
  }

  lemma AddedMeaning<T, M>(before: seq<T>, after: seq<T>, tag: T -> string, mean: T -> M, x: T)
    requires Distinct(before, tag) && Distinct(after, tag) && x in Added(before, after, tag, mean)
    ensures ItemIsNew(x, Meanings(before, tag, mean), Meanings(after, tag, mean), tag, mean)
  {
    AddedItems(before, after, tag, mean, x);
    NewMeaning(after, tag, mean, x);
  }

  lemma NewHandlerAdded<T, M>(before: seq<T>, after: seq<T>, tag: T -> string, mean: T -> M, t: string)
    requires Distinct(before, tag) && Distinct(after, tag)
    requires var core, target := Meanings(before, tag, mean), Meanings(after, tag, mean);
             t in target && !(t in core && core[t] == target[t])
    ensures var items := Added(before, after, tag, mean); exists i :: 0 <= i < |items| && tag(items[i]) == t
  {
    var x := TagMap(after, tag)[t];
    TagMapFrom(after, tag, t);
    AddedItems(before, after, tag, mean, x);
    assert x in Added(before, after, tag, mean);
  }

  lemma NewMeaning<T, M>(s: seq<T>, tag: T -> string, mean: T -> M, x: T)
    requires Distinct(s, tag) && x in s
    ensures tag(x) in TagMap(s, tag) && TagMap(s, tag)[tag(x)] == x
  {
    var k :| 0 <= k < |s| && s[k] == x;
    TagMapFinds(s, tag, k);
  }

  lemma RemovedMeaning<T, M>(before: seq<T>, after: seq<T>, tag: T -> string, mean: T -> M, t: string)
    requires Distinct(before, tag)
    ensures t in Removed(before, TagMap(after, tag), tag, mean) <==>
            var core, target := Meanings(before, tag, mean), Meanings(after, tag, mean);
            t in core && !(t in target && target[t] == core[t])
  {
    RemovedTags(before, TagMap(after, tag), tag, mean, t);
    if t in TagMap(before, tag) {
      TagMapFrom(before, tag, t);
      var i :| 0 <= i < |before| && before[i] == TagMap(before, tag)[t];
      forall j | 0 <= j < |before| && tag(before[j]) == t ensures j == i {
      }
    }
  }

  /** No operation at all exactly when both lists run the same handlers. */
  lemma NoOperations<T, M>(before: seq<T>, after: seq<T>, tag: T -> string, mean: T -> M)
    requires Distinct(before, tag) && Distinct(after, tag)
    ensures Removed(before, TagMap(after, tag), tag, mean) == [] && Added(before, after, tag, mean) == [] <==>
            Meanings(before, tag, mean) == Meanings(after, tag, mean)
  {
    var core, target := Meanings(before, tag, mean), Meanings(after, tag, mean);
    var tags, items := Removed(before, TagMap(after, tag), tag, mean), Added(before, after, tag, mean);
    DiffTransforms(before, after, tag, mean);
    if tags != [] {
      RemovedMeaning(before, after, tag, mean, tags[0]);
    }
    if items != [] {
      AddedMeaning(before, after, tag, mean, items[0]);
    }
  }

  // ----- A core that is not as remembered -----

  /** Removing each tag in turn as the panel does it: a handler that is missing counts as removed. */
  function RemoveEach<M>(core: map<string, M>, tags: seq<string>): map<string, M> {
    if tags == [] then core else RemoveEach(core - {tags[0]}, tags[1..])
  }

  /** Adding each handler in turn as the panel does it: one that runs under the tag already is removed first. */
  function AddEach<T, M>(core: map<string, M>, items: seq<T>, tag: T -> string, mean: T -> M): map<string, M>
    decreases |items|
  {
    if items == [] then core
    else
      var t := tag(items[0]);
      var free := if t in core then core - {t} else core;
      AddEach(free[t := mean(items[0])], items[1..], tag, mean)
  }

  /** The same handler runs under the tag on both sides, or none on either. */
  ghost predicate AgreeAt<M>(a: map<string, M>, b: map<string, M>, t: string) {
    (t in a <==> t in b) && (t in a ==> a[t] == b[t])
  }

  /** A core that may have changed behind the panel's back, but only where the new list changes handlers anyway. */
  ghost predicate DriftConfined<M>(running: map<string, M>, core: map<string, M>, target: map<string, M>) {
    forall t :: AgreeAt(core, target, t) ==> AgreeAt(running, core, t)
  }

  lemma {:induction false} RemoveEachResult<M>(core: map<string, M>, tags: seq<string>, t: string)
    ensures AgreeAt(RemoveEach(core, tags), if t in tags then map[] else core, t)
    decreases |tags|
  {
    if tags != [] {
      RemoveEachResult(core - {tags[0]}, tags[1..], t);
    }
  }

  lemma {:induction false} AddEachResult<T, M>(core: map<string, M>, items: seq<T>, tag: T -> string, mean: T -> M, t: string)
    requires Distinct(items, tag)
    ensures (forall i :: 0 <= i < |items| ==> tag(items[i]) != t) ==> AgreeAt(AddEach(core, items, tag, mean), core, t)
    ensures forall i :: 0 <= i < |items| && tag(items[i]) == t ==>
              AgreeAt(AddEach(core, items, tag, mean), map[t := mean(items[i])], t)
    decreases |items|
  {
    if items != [] {
      var x, rest := items[0], items[1..];
      var free := if tag(x) in core then core - {tag(x)} else core;
      AddEachResult(free[tag(x) := mean(x)], rest, tag, mean, t);
      forall i | 0 <= i < |items| && tag(items[i]) == t
        ensures AgreeAt(AddEach(core, items, tag, mean), map[t := mean(items[i])], t)
      {
        if i > 0 {
          assert items[i] == rest[i - 1];
        }
      }
    }
  }

  /**
   From any core, remembered rightly or not, the operations end in the new handlers exactly when the core differs
   from the old list at most under tags whose handler the new list changes, drops or brings.
   */
  lemma DiffReconciles<T, M>(running: map<string, M>, before: seq<T>, after: seq<T>, tag: T -> string, mean: T -> M)
    requires Distinct(before, tag) && Distinct(after, tag)
    ensures var removed := RemoveEach(running, Removed(before, TagMap(after, tag), tag, mean));
            AddEach(removed, Added(before, after, tag, mean), tag, mean) == Meanings(after, tag, mean)
            <==> DriftConfined(running, Meanings(before, tag, mean), Meanings(after, tag, mean))
  {
    hide Removed, Added, TagMap, Meanings, RemoveEach, AddEach, AgreeAt;
    var core, target := Meanings(before, tag, mean), Meanings(after, tag, mean);
    var removed := RemoveEach(running, Removed(before, TagMap(after, tag), tag, mean));
    var r := AddEach(removed, Added(before, after, tag, mean), tag, mean);
    forall t ensures AgreeAt(r, target, t) <==> (AgreeAt(core, target, t) ==> AgreeAt(running, core, t)) {
      ReconciledAt(running, before, after, tag, mean, t);
    }
    SameEverywhere(r, target);
  }

  lemma SameEverywhere<M>(a: map<string, M>, b: map<string, M>)
    ensures a == b <==> forall t :: AgreeAt(a, b, t)
  {
    if forall t :: AgreeAt(a, b, t) {
      forall t ensures t in a <==> t in b {
        assert AgreeAt(a, b, t);
      }
      forall t | t in a ensures a[t] == b[t] {
        assert AgreeAt(a, b, t);
      }
      assert a.Keys == b.Keys;
    }
  }

  lemma ReconciledAt<T, M>(running: map<string, M>, before: seq<T>, after: seq<T>, tag: T -> string, mean: T -> M, t: string)
    requires Distinct(before, tag) && Distinct(after, tag)
    ensures var core, target := Meanings(before, tag, mean), Meanings(after, tag, mean);
            var removed := RemoveEach(running, Removed(before, TagMap(after, tag), tag, mean));
            AgreeAt(AddEach(removed, Added(before, after, tag, mean), tag, mean), target, t)
            <==> (AgreeAt(core, target, t) ==> AgreeAt(running, core, t))
  {
    hide Removed, Added, TagMap, Meanings, RemoveEach, AddEach;
    var core, target := Meanings(before, tag, mean), Meanings(after, tag, mean);
    var tags, items := Removed(before, TagMap(after, tag), tag, mean), Added(before, after, tag, mean);
    AddedDistinct(before, after, tag, mean);
    RemovedMeaning(before, after, tag, mean, t);
    RemoveEachResult(running, tags, t);
    AddEachResult(RemoveEach(running, tags), items, tag, mean, t);
    if i :| 0 <= i < |items| && tag(items[i]) == t {
      AddedMeaning(before, after, tag, mean, items[i]);
    } else if t in target && !(t in core && core[t] == target[t]) {
      NewHandlerAdded(before, after, tag, mean, t);
    }
  }

  // ----- Places that only one handler can hold -----

  /** No two handlers of the list hold one place. */
  predicate OwnPlaces<T, M, A(==)>(s: seq<T>, mean: T -> M, place: M -> A) {
    forall i, j :: 0 <= i < j < |s| ==> place(mean(s[i])) != place(mean(s[j]))
  }

  lemma PlacesApart<T, M, A>(s: seq<T>, tag: T -> string, mean: T -> M, place: M -> A, x: T, y: T)
    requires OwnPlaces(s, mean, place) && x in s && y in s && tag(x) != tag(y)
    ensures place(mean(x)) != place(mean(y))
  {
    var i :| 0 <= i < |s| && s[i] == x;
    var j :| 0 <= j < |s| && s[j] == y;
    if i < j {
      assert place(mean(s[i])) != place(mean(s[j]));
    } else {
      assert place(mean(s[j])) != place(mean(s[i]));
    }
  }

  /** A handler that stays is one of the new list. */
  lemma StayingHandler<T, M>(before: seq<T>, after: seq<T>, tag: T -> string, mean: T -> M, t: string) returns (x: T)
    requires Distinct(before, tag) && t in Meanings(before, tag, mean)
    requires t !in Removed(before, TagMap(after, tag), tag, mean)
    ensures x in after && tag(x) == t && mean(x) == Meanings(before, tag, mean)[t]
    ensures t in Meanings(after, tag, mean) && Meanings(after, tag, mean)[t] == mean(x)
  {
    RemovedMeaning(before, after, tag, mean, t);
    TagMapFrom(after, tag, t);
    x := TagMap(after, tag)[t];
  }

  /**
   All removals come first: at the moment a handler is added to a core that ran the old list, nothing that runs holds
   its place, even where handlers swap places.
   */
  lemma PlaceIsFree<T, M, A>(before: seq<T>, after: seq<T>, tag: T -> string, mean: T -> M, place: M -> A, k: nat, t: string)
    requires Distinct(before, tag) && Distinct(after, tag) && OwnPlaces(after, mean, place)
    requires k < |Added(before, after, tag, mean)|
    ensures var items := Added(before, after, tag, mean);
            var rest := RemoveEach(Meanings(before, tag, mean), Removed(before, TagMap(after, tag), tag, mean));
            var running := AddEach(rest, items[..k], tag, mean);
            t in running ==> t != tag(items[k]) && place(running[t]) != place(mean(items[k]))
  {
    hide Removed, Added, TagMap, Meanings, RemoveEach, AddEach, OwnPlaces;
    var core, tags := Meanings(before, tag, mean), Removed(before, TagMap(after, tag), tag, mean);
    var items := Added(before, after, tag, mean);
    var done := items[..k];
    AddedDistinct(before, after, tag, mean);
    AddedItems(before, after, tag, mean, items[k]);
    AddedMeaning(before, after, tag, mean, items[k]);
    RemoveEachResult(core, tags, t);
    AddEachResult(RemoveEach(core, tags), done, tag, mean, t);
    if i :| 0 <= i < k && tag(done[i]) == t {
      AddedItems(before, after, tag, mean, items[i]);
      PlacesApart(after, tag, mean, place, items[i], items[k]);
    } else if t in core && t !in tags {
      var x := StayingHandler(before, after, tag, mean, t);
      PlacesApart(after, tag, mean, place, x, items[k]);
    }
  }
}
