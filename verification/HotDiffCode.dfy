/** `ComputeHotDiff` and its helpers as they run: loops that fill a HotDiff, proved to compute `DiffOf`. */
module HotDiffCode {
  import opened Options
  import opened Json
  import opened RawJson
  import opened HandlerDiff
  import opened HotDiffs

  class HotDiff {
    var removedInboundTags: seq<string>
    var addedInbounds: seq<Inbound>
    var removedOutboundTags: seq<string>
    var addedOutbounds: seq<string>
    var routingConfig: Option<string>

    constructor ()
      ensures Contents() == Diff([], [], [], [], None)
    {
      removedInboundTags, addedInbounds, removedOutboundTags, addedOutbounds := [], [], [], [];
      routingConfig := None;
    }

    function Contents(): Diff
      reads this
    {
      Diff(removedInboundTags, addedInbounds, removedOutboundTags, addedOutbounds, routingConfig)
    }

    predicate Empty()
      reads this
      ensures Empty() <==> HasNoOperations(Contents())
    {
      |removedInboundTags| == 0 && |addedInbounds| == 0 && |removedOutboundTags| == 0 && |addedOutbounds| == 0
      && routingConfig == None
    }

    /** Removals and additions of inbounds; false when a restart is needed. */
    method DiffInbounds(c: Codec, a: Config, b: Config) returns (ok: bool)
      requires Sound(c) && removedInboundTags == [] && addedInbounds == []
      modifies this`removedInboundTags, this`addedInbounds
      ensures ok <==> InboundsApplicable(c, a, b)
      ensures ok ==> removedInboundTags == RemovedInbounds(c, a, b) && addedInbounds == AddedInbounds(c, a, b)
    {
      hide TagMap, Removed, Replaced, Appeared, IsApi, Marshals;
      var oldByTag, newByTag;
      oldByTag, ok := InboundsByTag(a.inbounds);
      if !ok {
        return;
      }
      newByTag, ok := InboundsByTag(b.inbounds);
      if !ok {
        return;
      }
      ok := ChangedInbounds(c, a, b, newByTag);
      if !ok {
        return;
      }
      ok := NewInbounds(c, a, b, oldByTag);
    }

    /** The loop over the old inbounds. */
    method ChangedInbounds(c: Codec, a: Config, b: Config, newByTag: map<string, Inbound>) returns (ok: bool)
      requires Sound(c) && removedInboundTags == [] && addedInbounds == []
      requires Addressable(a.inbounds) && Addressable(b.inbounds) && newByTag == TagMap(b.inbounds, InboundTag())
      modifies this`removedInboundTags, this`addedInbounds
      ensures !ok ==> !InboundsApplicable(c, a, b)
      ensures ok ==> removedInboundTags == RemovedInbounds(c, a, b)
      ensures ok ==> addedInbounds == Replaced(a.inbounds, newByTag, InboundTag(), InboundMean(c))
      ensures ok ==> (forall t :: t in removedInboundTags ==> !IsApi(c, b.api, t))
      ensures ok ==> (forall x :: x in addedInbounds ==> !IsApi(c, b.api, x.tag) && Marshals(c, x))
    {
      hide TagMap, Removed, Replaced, IsApi, Marshals, InboundEqual, Kept, InboundsApplicable, Addressable;
      var tag, mean := InboundTag(), InboundMean(c);
      DiffStart(newByTag, tag, mean);
      assert a.inbounds[..0] == [];
      for i := 0 to |a.inbounds|
        invariant removedInboundTags == Removed(a.inbounds[..i], newByTag, tag, mean)
        invariant addedInbounds == Replaced(a.inbounds[..i], newByTag, tag, mean)
        invariant forall t :: t in removedInboundTags ==> !IsApi(c, b.api, t)
        invariant forall x :: x in addedInbounds ==> !IsApi(c, b.api, x.tag) && Marshals(c, x)
      {
        var oldIb := a.inbounds[i];
        DiffStep(a.inbounds, newByTag, tag, mean, i);
        KeptIsEqual(c, oldIb, newByTag);
        ApiOrNot(c, b.api, oldIb.tag);
        RefusedChange(c, a, b, i);
        if !(oldIb.tag in newByTag && InboundEqual(c, oldIb, newByTag[oldIb.tag])) {
          if oldIb.tag == ApiTag(c, b.api) || oldIb.tag == "api" {
            return false;
          }
          removedInboundTags := removedInboundTags + [oldIb.tag];
          if oldIb.tag in newByTag {
            if !Marshals(c, newByTag[oldIb.tag]) {
              return false;
            }
            addedInbounds := addedInbounds + [newByTag[oldIb.tag]];
          }
        }
      }
      assert a.inbounds[..|a.inbounds|] == a.inbounds;
      return true;
    }

    /** The loop over the new inbounds. */
    method NewInbounds(c: Codec, a: Config, b: Config, oldByTag: map<string, Inbound>) returns (ok: bool)
      requires Addressable(a.inbounds) && Addressable(b.inbounds) && oldByTag == TagMap(a.inbounds, InboundTag())
      requires forall x :: x in addedInbounds ==> !IsApi(c, b.api, x.tag) && Marshals(c, x)
      modifies this`addedInbounds
      ensures !ok ==> !InboundsApplicable(c, a, b)
      ensures ok ==> addedInbounds == old(addedInbounds) + Appeared(b.inbounds, oldByTag, InboundTag())
      ensures ok ==> (forall x :: x in addedInbounds ==> !IsApi(c, b.api, x.tag) && Marshals(c, x))
    {
      hide TagMap, Appeared, IsApi, Marshals, InboundsApplicable, Addressable;
      var tag := InboundTag();
      DiffStart(oldByTag, tag, InboundMean(c));
      assert b.inbounds[..0] == [];
      for i := 0 to |b.inbounds|
        invariant addedInbounds == old(addedInbounds) + Appeared(b.inbounds[..i], oldByTag, tag)
        invariant forall x :: x in addedInbounds ==> !IsApi(c, b.api, x.tag) && Marshals(c, x)
      {
        var newIb := b.inbounds[i];
        AppearedStep(b.inbounds, oldByTag, tag, i);
        ApiOrNot(c, b.api, newIb.tag);
        if newIb.tag !in oldByTag {
          RefusedAddition(c, a, b, i);
          if newIb.tag == ApiTag(c, b.api) || newIb.tag == "api" {
            return false;
          }
          if !Marshals(c, newIb) {
            return false;
          }
          addedInbounds := addedInbounds + [newIb];
        }
      }
      assert b.inbounds[..|b.inbounds|] == b.inbounds;
      return true;
    }

    /** Removals and additions of outbounds; false when they cannot be parsed or the default one changes. */
    method DiffOutbounds(c: Codec, a: Config, b: Config) returns (ok: bool)
      requires removedOutboundTags == [] && addedOutbounds == []
      modifies this`removedOutboundTags, this`addedOutbounds
      ensures var outA, outB := ParseOutbounds(c, a.outbounds), ParseOutbounds(c, b.outbounds);
              && (ok <==> outA.Some? && outB.Some? && SameDefault(outA.value, outB.value))
              && (ok ==>
                    && removedOutboundTags == Removed(outA.value, TagMap(outB.value, OutboundTag()), OutboundTag(), OutboundNorm())
                    && addedOutbounds == Raws(Added(outA.value, outB.value, OutboundTag(), OutboundNorm())))
    {
      hide ParseOutbounds, TagMap, Removed, Replaced, Appeared, Raws;
      var parsedOld := ParseOutboundList(c, a.outbounds);
      if parsedOld.None? {
        return false;
      }
      var parsedNew := ParseOutboundList(c, b.outbounds);
      if parsedNew.None? {
        return false;
      }
      var oldOut, newOut := parsedOld.value, parsedNew.value;
      if (|oldOut| == 0) != (|newOut| == 0) {
        return false;
      }
      if |oldOut| > 0 {
        if oldOut[0].tag != newOut[0].tag || oldOut[0].norm != newOut[0].norm {
          return false;
        }
      }
      var oldByTag := OutboundsByTag(oldOut);
      var newByTag := OutboundsByTag(newOut);
      OutboundLoops(oldOut, newOut, oldByTag, newByTag);
      return true;
    }

    method OutboundLoops(oldOut: seq<Outbound>, newOut: seq<Outbound>,
                         oldByTag: map<string, Outbound>, newByTag: map<string, Outbound>)
      requires removedOutboundTags == [] && addedOutbounds == []
      requires oldByTag == TagMap(oldOut, OutboundTag()) && newByTag == TagMap(newOut, OutboundTag())
      modifies this`removedOutboundTags, this`addedOutbounds
      ensures removedOutboundTags == Removed(oldOut, newByTag, OutboundTag(), OutboundNorm())
      ensures addedOutbounds == Raws(Added(oldOut, newOut, OutboundTag(), OutboundNorm()))
    {
      hide TagMap, Removed, Replaced, Appeared;
      var tag, norm := OutboundTag(), OutboundNorm();
      ghost var added: seq<Outbound> := [];
      DiffStart(newByTag, tag, norm);
      DiffStart(oldByTag, tag, norm);
      assert oldOut[..0] == [] && newOut[..0] == [];
      for i := 0 to |oldOut|
        invariant removedOutboundTags == Removed(oldOut[..i], newByTag, tag, norm)
        invariant added == Replaced(oldOut[..i], newByTag, tag, norm) && addedOutbounds == Raws(added)
      {
        var oldE := oldOut[i];
        DiffStep(oldOut, newByTag, tag, norm, i);
        if !(oldE.tag in newByTag && oldE.norm == newByTag[oldE.tag].norm) {
          removedOutboundTags := removedOutboundTags + [oldE.tag];
          if oldE.tag in newByTag {
            addedOutbounds := addedOutbounds + [newByTag[oldE.tag].raw];
            added := added + [newByTag[oldE.tag]];
          }
        }
      }
      assert oldOut[..|oldOut|] == oldOut;
      ghost var replaced := added;
      for i := 0 to |newOut|
        invariant removedOutboundTags == Removed(oldOut, newByTag, tag, norm)
        invariant added == replaced + Appeared(newOut[..i], oldByTag, tag) && addedOutbounds == Raws(added)
      {
        var newE := newOut[i];
        AppearedStep(newOut, oldByTag, tag, i);
        if newE.tag !in oldByTag {
          addedOutbounds := addedOutbounds + [newE.raw];
          added := added + [newE];
        }
      }
      assert newOut[..|newOut|] == newOut;
    }

    method DiffRouting(c: Codec, a: Config, b: Config) returns (ok: bool)
      requires routingConfig == None
      modifies this`routingConfig
      ensures ok <==> RoutingChange(c, a.router, b.router).Some?
      ensures ok ==> Some(routingConfig) == RoutingChange(c, a.router, b.router)
    {
      hide RoutingWithoutReloadable;
      if a.router == b.router {
        return true;
      }
      if |a.router| == 0 || |b.router| == 0 {
        return false;
      }
      var oldRest := RoutingWithoutReloadable(c, a.router);
      if oldRest.None? {
        return false;
      }
      var newRest := RoutingWithoutReloadable(c, b.router);
      if newRest.None? || oldRest != newRest {
        return false;
      }
      routingConfig := Some(b.router);
      return true;
    }
  }

  lemma LoopStep<T>(s: seq<T>, i: nat)
    requires i < |s|
    ensures s[..i + 1] == s[..i] + [s[i]] && s[..i + 1][..|s[..i + 1]| - 1] == s[..i]
  {
  }

  lemma DiffStart<T, M>(others: map<string, T>, tag: T -> string, mean: T -> M)
    ensures Removed([], others, tag, mean) == [] && Replaced([], others, tag, mean) == [] && Appeared([], others, tag) == []
  {
  }

  /** What one more old handler contributes. */
  lemma DiffStep<T, M>(s: seq<T>, news: map<string, T>, tag: T -> string, mean: T -> M, i: nat)
    requires i < |s|
    ensures Removed(s[..i + 1], news, tag, mean)
         == Removed(s[..i], news, tag, mean) + if Kept(s[i], news, tag, mean) then [] else [tag(s[i])]
    ensures Replaced(s[..i + 1], news, tag, mean)
         == Replaced(s[..i], news, tag, mean)
          + if Kept(s[i], news, tag, mean) || tag(s[i]) !in news then [] else [news[tag(s[i])]]
  {
    LoopStep(s, i);
  }

  lemma AppearedStep<T>(s: seq<T>, olds: map<string, T>, tag: T -> string, i: nat)
    requires i < |s|
    ensures Appeared(s[..i + 1], olds, tag) == Appeared(s[..i], olds, tag) + if tag(s[i]) in olds then [] else [s[i]]
  {
    LoopStep(s, i);
  }

  lemma ApiOrNot(c: Codec, api: string, t: string)
    ensures IsApi(c, api, t) <==> t == ApiTag(c, api) || t == "api"
  {
  }

  lemma KeptIsEqual(c: Codec, x: Inbound, others: map<string, Inbound>)
    requires Sound(c) && forall t :: t in others ==> InboundTag()(others[t]) == t
    ensures Kept(x, others, InboundTag(), InboundMean(c)) <==>
            x.tag in others && InboundEqual(c, x, others[x.tag])
  {
    hide MeaningOf, RawEqual;
    if x.tag in others {
      InboundEqualIsMeaning(c, x, others[x.tag]);
    }
  }

  /** A changed api inbound, or a replacement that cannot be marshalled, makes the diff inapplicable. */
  lemma RefusedChange(c: Codec, a: Config, b: Config, i: nat)
    requires Addressable(a.inbounds) && Addressable(b.inbounds) && i < |a.inbounds|
    ensures var x, news := a.inbounds[i], TagMap(b.inbounds, InboundTag());
            !Kept(x, news, InboundTag(), InboundMean(c))
            && (IsApi(c, b.api, x.tag) || (x.tag in news && !Marshals(c, news[x.tag])))
            ==> !InboundsApplicable(c, a, b)
  {
    hide IsApi, Marshals, TagMap, Removed, Added, Addressable;
    var x, news := a.inbounds[i], TagMap(b.inbounds, InboundTag());
    AddressableDistinct(a.inbounds);
    AddressableDistinct(b.inbounds);
    RemovedTags(a.inbounds, news, InboundTag(), InboundMean(c), x.tag);
    TagMapFinds(a.inbounds, InboundTag(), i);
    if x.tag in news {
      TagMapFrom(b.inbounds, InboundTag(), x.tag);
      AddedItems(a.inbounds, b.inbounds, InboundTag(), InboundMean(c), news[x.tag]);
    }
  }

  lemma AddressableDistinct(s: seq<Inbound>)
    requires Addressable(s)
    ensures Distinct(s, InboundTag())
  {
  }

  lemma RefusedAddition(c: Codec, a: Config, b: Config, i: nat)
    requires Addressable(a.inbounds) && Addressable(b.inbounds) && i < |b.inbounds|
    requires b.inbounds[i].tag !in TagMap(a.inbounds, InboundTag())
    ensures IsApi(c, b.api, b.inbounds[i].tag) || !Marshals(c, b.inbounds[i]) ==> !InboundsApplicable(c, a, b)
  {
    hide IsApi, Marshals;
    AddedItems(a.inbounds, b.inbounds, InboundTag(), InboundMean(c), b.inbounds[i]);
    assert b.inbounds[i] in AddedInbounds(c, a, b);
  }

  method InboundsByTag(inbounds: seq<Inbound>) returns (byTag: map<string, Inbound>, ok: bool)
    ensures ok <==> Addressable(inbounds)
    ensures ok ==> byTag == TagMap(inbounds, InboundTag())
  {
    hide Addressable;
    byTag := map[];
    AddressableStart();
    assert inbounds[..0] == [];
    for i := 0 to |inbounds|
      invariant byTag == TagMap(inbounds[..i], InboundTag())
      invariant Addressable(inbounds[..i])
    {
      AddressableStep(inbounds, i);
      var tag := inbounds[i].tag;
      if tag == "" {
        return byTag, false;
      }
      if tag in byTag {
        return byTag, false;
      }
      byTag := byTag[tag := inbounds[i]];
    }
    assert inbounds[..|inbounds|] == inbounds;
    return byTag, true;
  }

  lemma AddressableStart()
    ensures Addressable([]) && TagMap<Inbound>([], InboundTag()) == map[]
  {
  }

  lemma AddressableStep(s: seq<Inbound>, i: nat)
    requires i < |s| && Addressable(s[..i])
    ensures var m := TagMap(s[..i], InboundTag());
            && (s[i].tag == "" || s[i].tag in m ==> !Addressable(s))
            && (s[i].tag != "" && s[i].tag !in m ==> Addressable(s[..i + 1]))
            && TagMap(s[..i + 1], InboundTag()) == m[s[i].tag := s[i]]
  {
    var m := TagMap(s[..i], InboundTag());
    LoopStep(s, i);
    if s[i].tag in m {
      RepeatedTag(s, i, m);
    } else if s[i].tag != "" {
      FreshTag(s, i, m);
    }
  }

  lemma RepeatedTag(s: seq<Inbound>, i: nat, m: map<string, Inbound>)
    requires i < |s| && m == TagMap(s[..i], InboundTag()) && s[i].tag in m
    ensures !Addressable(s)
  {
    hide TagMap;
    TagMapFrom(s[..i], InboundTag(), s[i].tag);
    var k :| 0 <= k < i && s[..i][k] == m[s[i].tag];
    assert InboundTag()(s[k]) == InboundTag()(s[i]);
  }

  lemma FreshTag(s: seq<Inbound>, i: nat, m: map<string, Inbound>)
    requires i < |s| && Addressable(s[..i]) && m == TagMap(s[..i], InboundTag())
    requires s[i].tag !in m && s[i].tag != ""
    ensures Addressable(s[..i + 1])
  {
    hide TagMap;
    forall k | 0 <= k < i ensures InboundTag()(s[k]) != InboundTag()(s[i]) && s[k].tag != "" {
      assert s[..i][k] == s[k];
    }
    forall j, k | 0 <= j < k < i ensures InboundTag()(s[j]) != InboundTag()(s[k]) {
      assert s[..i][j] == s[j] && s[..i][k] == s[k];
    }
  }

  method OutboundsByTag(entries: seq<Outbound>) returns (byTag: map<string, Outbound>)
    ensures byTag == TagMap(entries, OutboundTag())
  {
    byTag := map[];
    for i := 0 to |entries|
      invariant byTag == TagMap(entries[..i], OutboundTag())
    {
      LoopStep(entries, i);
      byTag := byTag[entries[i].tag := entries[i]];
    }
    assert entries[..|entries|] == entries;
  }

  method ParseOutboundList(c: Codec, raw: string) returns (entries: Option<seq<Outbound>>)
    ensures entries == ParseOutbounds(c, raw)
  {
    hide TagsOf, CanonicalJson;
    if |raw| == 0 {
      return Some([]);
    }
    if c.elements(raw).None? {
      return None;
    }
    var elems := c.elements(raw).value;
    var list: seq<Outbound> := [];
    var seen: set<string> := {};
    assert elems[..0] == [];
    for i := 0 to |elems|
      invariant ParseElements(c, elems[..i]) == Some(list)
      invariant seen == TagsOf(list)
    {
      LoopStep(elems, i);
      ParseRefused(c, elems, i + 1);
      TagsSeen(list);
      var tag := c.tag(elems[i]);
      if tag.None? || tag.value == "" || tag.value in seen {
        return None;
      }
      seen := seen + {tag.value};
      var norm := CanonicalJson(c, elems[i]);
      if norm.None? {
        return None;
      }
      TagsGrow(list, Outbound(tag.value, elems[i], norm.value));
      list := list + [Outbound(tag.value, elems[i], norm.value)];
    }
    assert elems[..|elems|] == elems;
    return Some(list);
  }

  ghost function TagsOf(list: seq<Outbound>): (tags: set<string>)
    ensures list == [] ==> tags == {}
  {
    set o | o in list :: o.tag
  }

  lemma TagsSeen(list: seq<Outbound>)
    ensures forall t :: t in TagsOf(list) <==> exists i :: 0 <= i < |list| && list[i].tag == t
  {
  }

  lemma TagsGrow(list: seq<Outbound>, x: Outbound)
    ensures TagsOf(list + [x]) == TagsOf(list) + {x.tag}
  {
    forall t | t in TagsOf(list) + {x.tag} ensures t in TagsOf(list + [x]) {
      if t == x.tag {
        assert x in list + [x];
      } else {
        var o :| o in list && o.tag == t;
        assert o in list + [x];
      }
    }
  }

  /** A list whose prefix is refused is refused. */
  lemma {:induction false} ParseRefused(c: Codec, elems: seq<string>, n: nat)
    requires n <= |elems|
    ensures ParseElements(c, elems[..n]).None? ==> ParseElements(c, elems).None?
    decreases |elems|
  {
    if n < |elems| {
      ParseRefused(c, elems[..|elems| - 1], n);
      assert elems[..|elems| - 1][..n] == elems[..n];
    } else {
      assert elems[..n] == elems;
    }
  }

  method StaticSectionsEqual(c: Codec, a: Config, b: Config) returns (ok: bool)
    ensures ok <==> StaticsEqual(c, a, b)
  {
    hide RawEqual, Statics;
    for k := 0 to 12
      invariant forall j :: 0 <= j < k ==> RawEqual(c, Statics(a)[j], Statics(b)[j])
    {
      if !RawEqual(c, Statics(a)[k], Statics(b)[k]) {
        return false;
      }
    }
    return true;
  }

  /** The diff from one configuration to another; ok is false when a restart is required. */
  method ComputeHotDiff(c: Codec, oldCfg: Option<Config>, newCfg: Option<Config>) returns (diff: HotDiff?, ok: bool)
    requires Sound(c)
    ensures ok <==> oldCfg.Some? && newCfg.Some? && DiffOf(c, oldCfg.value, newCfg.value).Some?
    ensures ok ==> diff != null && fresh(diff) && Some(diff.Contents()) == DiffOf(c, oldCfg.value, newCfg.value)
  {
    hide InboundsApplicable, RoutingChange, ParseOutbounds, SameDefault, StaticsEqual, RemovedInbounds, AddedInbounds,
      Removed, Added, TagMap, Raws;
    if oldCfg.None? || newCfg.None? {
      return null, false;
    }
    var a, b := oldCfg.value, newCfg.value;
    ok := StaticSectionsEqual(c, a, b);
    if !ok {
      return null, false;
    }
    var d := new HotDiff();
    ok := d.DiffInbounds(c, a, b);
    if !ok {
      return null, false;
    }
    ok := d.DiffOutbounds(c, a, b);
    if !ok {
      return null, false;
    }
    ok := d.DiffRouting(c, a, b);
    if !ok {
      return null, false;
    }
    return d, true;
  }
}
