/** When a change of configuration can be applied without a restart, section by section and field by field: what
    `ComputeHotDiff` (internal/xray/hot_diff.go) decides, in terms of the configurations alone. */
module DiffConditions {
  import opened Options
  import opened Json
  import opened RawJson
  import opened HandlerDiff
  import opened HotDiffs
  import opened HotApply

  // ----- Inbounds -----

  /** The tag of the inbound the panel talks through. */
  predicate Reserved(c: Codec, api: string, tag: string) {
    tag == "api" || (api != "" && c.tag(api) == Some(tag))
  }

  ghost predicate InSome(c: Codec, x: Inbound, s: seq<Inbound>) {
    exists y :: y in s && SameInbound(c, x, y)
  }

  lemma Found(s: seq<Inbound>, x: Inbound)
    requires Addressable(s) && x in s
    ensures x.tag in TagMap(s, InboundTag()) && TagMap(s, InboundTag())[x.tag] == x
  {
    NewMeaning(s, InboundTag(), (i: Inbound) => i, x);
  }

  lemma SameFields(c: Codec, x: Inbound, y: Inbound)
    ensures SameInbound(c, x, y) <==> MeaningOfInbound(c, x) == MeaningOfInbound(c, y)
    ensures SameInbound(c, x, y) <==> SameInbound(c, y, x)
  {
    hide MeaningOf;
  }

  /** Being in the other list is being there under one's own tag. */
  lemma InSomeByTag(c: Codec, x: Inbound, s: seq<Inbound>)
    requires Addressable(s)
    ensures var m := Meanings(s, InboundTag(), InboundMean(c));
            InSome(c, x, s) <==> x.tag in m && m[x.tag] == MeaningOfInbound(c, x)
  {
    hide TagMap, MeaningOfInbound, SameInbound, Addressable;
    if y :| y in s && SameInbound(c, x, y) {
      Found(s, y);
      SameFields(c, x, y);
      SameTag(c, x, y);
    }
    if x.tag in TagMap(s, InboundTag()) {
      TagMapFrom(s, InboundTag(), x.tag);
      SameFields(c, x, TagMap(s, InboundTag())[x.tag]);
    }
  }

  lemma SameTag(c: Codec, x: Inbound, y: Inbound)
    requires SameInbound(c, x, y)
    ensures x.tag == y.tag
  {
  }

  /** A tag is removed exactly for an old inbound that is not in the new list. */
  lemma RemovedExactly(c: Codec, a: Config, b: Config, t: string)
    requires Addressable(a.inbounds) && Addressable(b.inbounds)
    ensures t in RemovedInbounds(c, a, b) <==> exists x :: x in a.inbounds && x.tag == t && !InSome(c, x, b.inbounds)
  {
    hide Removed, TagMap, InSome, MeaningOfInbound;
    RemovedMeaning(a.inbounds, b.inbounds, InboundTag(), InboundMean(c), t);
    forall x | x in a.inbounds && x.tag == t ensures
      TagMap(a.inbounds, InboundTag())[t] == x && t in TagMap(a.inbounds, InboundTag())
    {
      Found(a.inbounds, x);
      InSomeByTag(c, x, b.inbounds);
    }
    if t in TagMap(a.inbounds, InboundTag()) {
      TagMapFrom(a.inbounds, InboundTag(), t);
      InSomeByTag(c, TagMap(a.inbounds, InboundTag())[t], b.inbounds);
    }
  }

  /** An inbound is added exactly if it is in the new list and not in the old one. */
  lemma AddedExactly(c: Codec, a: Config, b: Config, y: Inbound)
    requires Addressable(a.inbounds) && Addressable(b.inbounds)
    ensures y in AddedInbounds(c, a, b) <==> y in b.inbounds && !InSome(c, y, a.inbounds)
  {
    hide Added, TagMap, InSome, MeaningOfInbound;
    AddedItems(a.inbounds, b.inbounds, InboundTag(), InboundMean(c), y);
    InSomeByTag(c, y, a.inbounds);
  }

  lemma ReservedIsApi(c: Codec, api: string, tag: string)
    requires tag != ""
    ensures Reserved(c, api, tag) <==> IsApi(c, api, tag)
  {
  }

  predicate OwnTags(s: seq<Inbound>) {
    && (forall i :: 0 <= i < |s| ==> s[i].tag != "")
    && (forall i, j :: 0 <= i < j < |s| ==> s[i].tag != s[j].tag)
  }

  /** Tags can be addressed, what changes is not the panel's own inbound, and what is new can be marshalled. */
  ghost predicate InboundsAllow(c: Codec, a: Config, b: Config) {
    && OwnTags(a.inbounds) && OwnTags(b.inbounds)
    && (forall x :: x in a.inbounds && !InSome(c, x, b.inbounds) ==> !Reserved(c, b.api, x.tag))
    && (forall y :: y in b.inbounds && !InSome(c, y, a.inbounds) ==>
          && !Reserved(c, b.api, y.tag)
          && (y.listen == "" || c.valid(y.listen)) && (y.settings == "" || c.valid(y.settings))
          && (y.streamSettings == "" || c.valid(y.streamSettings)) && (y.sniffing == "" || c.valid(y.sniffing)))
  }

  lemma InboundsExactly(c: Codec, a: Config, b: Config)
    ensures InboundsApplicable(c, a, b) <==> InboundsAllow(c, a, b)
  {
    hide RemovedInbounds, AddedInbounds, InSome, Reserved, IsApi;
    TagsAddressable(a.inbounds);
    TagsAddressable(b.inbounds);
    if Addressable(a.inbounds) && Addressable(b.inbounds) {
      forall t ensures t in RemovedInbounds(c, a, b) <==> exists x :: x in a.inbounds && x.tag == t && !InSome(c, x, b.inbounds) {
        RemovedExactly(c, a, b, t);
      }
      forall y ensures y in AddedInbounds(c, a, b) <==> y in b.inbounds && !InSome(c, y, a.inbounds) {
        AddedExactly(c, a, b, y);
      }
      forall x | x in a.inbounds || x in b.inbounds ensures Reserved(c, b.api, x.tag) <==> IsApi(c, b.api, x.tag) {
        ReservedIsApi(c, b.api, x.tag);
      }
    }
  }

  lemma TagsAddressable(s: seq<Inbound>)
    ensures Addressable(s) <==> OwnTags(s)
  {
    if forall i, j :: 0 <= i < j < |s| ==> s[i].tag != s[j].tag {
      assert forall i, j :: 0 <= i < j < |s| ==> InboundTag()(s[i]) != InboundTag()(s[j]);
    }
    if Distinct(s, InboundTag()) {
      assert forall i, j :: 0 <= i < j < |s| ==> InboundTag()(s[i]) != InboundTag()(s[j]) ==> s[i].tag != s[j].tag;
    }
  }

  // ----- Outbounds -----

  predicate Usable(c: Codec, raw: string) {
    c.tag(raw).Some? && c.tag(raw).value != "" && (raw == "" || c.decode(raw).Some?)
  }

  /** Every outbound has a tag of its own and a value that can be decoded. */
  predicate Readable(c: Codec, elems: seq<string>) {
    && (forall i :: 0 <= i < |elems| ==> Usable(c, elems[i]))
    && (forall i, j :: 0 <= i < j < |elems| ==> c.tag(elems[i]) != c.tag(elems[j]))
  }

  lemma {:induction false} ElementsExactly(c: Codec, elems: seq<string>)
    ensures ParseElements(c, elems).Some? <==> Readable(c, elems)
    ensures ParseElements(c, elems).Some? ==>
              forall k :: 0 <= k < |elems| ==> Some(ParseElements(c, elems).value[k]) == ParseOutbound(c, elems[k])
    decreases |elems|
  {
    if elems != [] {
      var n := |elems| - 1;
      var front := elems[..n];
      ElementsExactly(c, front);
      OneExactly(c, elems[n]);
      assert elems == front + [elems[n]];
      if ParseElements(c, front).Some? {
        var list := ParseElements(c, front).value;
        forall k | 0 <= k < n ensures Some(list[k].tag) == c.tag(elems[k]) {
          assert front[k] == elems[k];
          OneExactly(c, elems[k]);
        }
      }
      ReadableStep(c, front, elems[n]);
    }
  }

  lemma OneExactly(c: Codec, raw: string)
    ensures ParseOutbound(c, raw).Some? <==> Usable(c, raw)
    ensures ParseOutbound(c, raw).Some? ==> Some(ParseOutbound(c, raw).value.tag) == c.tag(raw)
    ensures ParseOutbound(c, raw).Some? ==> Some(ParseOutbound(c, raw).value.norm) == CanonicalJson(c, raw)
  {
  }

  lemma ReadableStep(c: Codec, front: seq<string>, x: string)
    ensures Readable(c, front + [x]) <==>
            && Readable(c, front) && Usable(c, x)
            && forall i :: 0 <= i < |front| ==> c.tag(front[i]) != c.tag(x)
  {
    var s := front + [x];
    assert s[|front|] == x && forall i :: 0 <= i < |front| ==> s[i] == front[i];
  }

  /** The texts of the outbounds in a section; None when it is no array. */
  function Elements(c: Codec, raw: string): Option<seq<string>> {
    if raw == "" then Some([]) else c.elements(raw)
  }

  lemma OutboundsExactly(c: Codec, raw: string)
    ensures ParseOutbounds(c, raw).Some? <==> Elements(c, raw).Some? && Readable(c, Elements(c, raw).value)
    ensures ParseOutbounds(c, raw).Some? ==>
              var list, elems := ParseOutbounds(c, raw).value, Elements(c, raw).value;
              && |list| == |elems|
              && forall k :: 0 <= k < |elems| ==> Some(list[k]) == ParseOutbound(c, elems[k])
  {
    hide ParseElements, ParseOutbound, Readable;
    if raw != "" && c.elements(raw).Some? {
      ElementsExactly(c, c.elements(raw).value);
    }
    assert Readable(c, []) by { NothingReadable(c); }
  }

  lemma NothingReadable(c: Codec)
    ensures Readable(c, [])
  {
  }

  /** Both lists can be read, and are empty or start with outbounds of one tag that mean the same. */
  ghost predicate OutboundsAllow(c: Codec, x: string, y: string) {
    && Elements(c, x).Some? && Readable(c, Elements(c, x).value)
    && Elements(c, y).Some? && Readable(c, Elements(c, y).value)
    && var s, t := Elements(c, x).value, Elements(c, y).value;
       || (s == [] && t == [])
       || (s != [] && t != [] && c.tag(s[0]) == c.tag(t[0]) && MeaningOf(c, s[0]) == MeaningOf(c, t[0]))
  }

  lemma DefaultExactly(c: Codec, x: string, y: string)
    requires Sound(c)
    ensures OutboundsAllow(c, x, y) <==>
            && ParseOutbounds(c, x).Some? && ParseOutbounds(c, y).Some?
            && SameDefault(ParseOutbounds(c, x).value, ParseOutbounds(c, y).value)
  {
    hide ParseOutbounds, ParseOutbound, MeaningOf, CanonicalJson;
    OutboundsExactly(c, x);
    OutboundsExactly(c, y);
    if ParseOutbounds(c, x).Some? && ParseOutbounds(c, y).Some? {
      var s, t := Elements(c, x).value, Elements(c, y).value;
      if s != [] && t != [] {
        OneExactly(c, s[0]);
        OneExactly(c, t[0]);
        RawEqualIsMeaning(c, s[0], t[0]);
      }
    }
  }

  /** The list has an outbound of the same tag that means the same. */
  ghost predicate OutIn(c: Codec, raw: string, elems: seq<string>) {
    exists j :: 0 <= j < |elems| && c.tag(elems[j]) == c.tag(raw) && MeaningOf(c, elems[j]) == MeaningOf(c, raw)
  }

  /** An entry is kept exactly when the other section has an outbound of its tag that means the same. */
  lemma KeptExactly(c: Codec, o: Outbound, raw: string, section: string)
    requires Sound(c) && ParseOutbound(c, raw) == Some(o) && ParseOutbounds(c, section).Some?
    ensures Kept(o, TagMap(ParseOutbounds(c, section).value, OutboundTag()), OutboundTag(), OutboundNorm())
            <==> OutIn(c, raw, Elements(c, section).value)
  {
    hide ParseOutbounds, ParseOutbound, MeaningOf, CanonicalJson, TagMap, Elements, Readable;
    OutboundsExactly(c, section);
    var list, elems := ParseOutbounds(c, section).value, Elements(c, section).value;
    var m := TagMap(list, OutboundTag());
    OneExactly(c, raw);
    forall j | 0 <= j < |elems|
      ensures list[j].tag in m && m[list[j].tag] == list[j] && Some(list[j].tag) == c.tag(elems[j])
      ensures list[j].norm == o.norm <==> MeaningOf(c, elems[j]) == MeaningOf(c, raw)
    {
      OneExactly(c, elems[j]);
      TagMapFinds(list, OutboundTag(), j);
      assert OutboundTag()(list[j]) == list[j].tag;
      RawEqualIsMeaning(c, elems[j], raw);
    }
    if o.tag in m {
      TagMapFrom(list, OutboundTag(), o.tag);
      var j :| 0 <= j < |list| && list[j] == m[o.tag];
    }
  }

  /** A tag is removed exactly for an old outbound that the new section has not, by tag and meaning. */
  lemma OutboundRemovedExactly(c: Codec, a: Config, b: Config, t: string)
    requires Sound(c) && DiffOf(c, a, b).Some?
    ensures var s, u := Elements(c, a.outbounds).value, Elements(c, b.outbounds).value;
            t in DiffOf(c, a, b).value.removedOutbounds
            <==> exists k :: 0 <= k < |s| && c.tag(s[k]) == Some(t) && !OutIn(c, s[k], u)
  {
    hide ParseOutbounds, ParseOutbound, OutIn, TagMap, Removed, Added, Elements, Readable, StaticsEqual, InboundsApplicable,
      RemovedInbounds, AddedInbounds, RoutingChange, SameDefault, Raws, Kept;
    OutboundsExactly(c, a.outbounds);
    OutboundsExactly(c, b.outbounds);
    var list, s := ParseOutbounds(c, a.outbounds).value, Elements(c, a.outbounds).value;
    RemovedTags(list, TagMap(ParseOutbounds(c, b.outbounds).value, OutboundTag()), OutboundTag(), OutboundNorm(), t);
    forall k | 0 <= k < |s|
      ensures Some(OutboundTag()(list[k])) == c.tag(s[k])
      ensures Kept(list[k], TagMap(ParseOutbounds(c, b.outbounds).value, OutboundTag()), OutboundTag(), OutboundNorm())
              <==> OutIn(c, s[k], Elements(c, b.outbounds).value)
    {
      OneExactly(c, s[k]);
      KeptExactly(c, list[k], s[k], b.outbounds);
    }
  }

  /** An outbound is added, in its own text, exactly if the old section has it not. */
  lemma OutboundAddedExactly(c: Codec, a: Config, b: Config, raw: string)
    requires Sound(c) && DiffOf(c, a, b).Some?
    ensures var s, u := Elements(c, a.outbounds).value, Elements(c, b.outbounds).value;
            raw in DiffOf(c, a, b).value.addedOutbounds <==> raw in u && !OutIn(c, raw, s)
  {
    hide ParseOutbounds, ParseOutbound, OutIn, TagMap, Removed, Added, Elements, Readable, StaticsEqual, InboundsApplicable,
      RemovedInbounds, AddedInbounds, RoutingChange, SameDefault, Kept;
    OutboundsExactly(c, a.outbounds);
    OutboundsExactly(c, b.outbounds);
    var before, after := ParseOutbounds(c, a.outbounds).value, ParseOutbounds(c, b.outbounds).value;
    var items, u := Added(before, after, OutboundTag(), OutboundNorm()), Elements(c, b.outbounds).value;
    forall o ensures o in items <==> o in after && !Kept(o, TagMap(before, OutboundTag()), OutboundTag(), OutboundNorm()) {
      AddedItems(before, after, OutboundTag(), OutboundNorm(), o);
      KeptMeans(o, before);
    }
    forall k | 0 <= k < |u|
      ensures after[k].raw == u[k]
      ensures Kept(after[k], TagMap(before, OutboundTag()), OutboundTag(), OutboundNorm())
              <==> OutIn(c, u[k], Elements(c, a.outbounds).value)
    {
      OwnText(c, u[k]);
      KeptExactly(c, after[k], u[k], a.outbounds);
    }
    if raw in u {
      var k :| 0 <= k < |u| && u[k] == raw;
      if !OutIn(c, raw, Elements(c, a.outbounds).value) {
        assert after[k] in items;
      }
    }
    if i :| 0 <= i < |items| && Raws(items)[i] == raw {
      assert items[i] in after;
    }
  }

  lemma OwnText(c: Codec, raw: string)
    ensures ParseOutbound(c, raw).Some? ==> ParseOutbound(c, raw).value.raw == raw
  {
  }

  lemma KeptMeans(o: Outbound, s: seq<Outbound>)
    ensures var m := TagMap(s, OutboundTag());
            Kept(o, m, OutboundTag(), OutboundNorm())
            <==> !(OutboundTag()(o) in m ==> OutboundNorm()(m[OutboundTag()(o)]) != OutboundNorm()(o))
  {
    hide TagMap;
  }

  // ----- Routing -----

  /** Two routing objects agree on everything but rules and balancers. */
  ghost predicate SameRouting(m: map<string, Json>, m': map<string, Json>) {
    forall k :: k != "rules" && k != "balancers" ==> (k in m <==> k in m') && (k in m ==> m[k] == m'[k])
  }

  ghost predicate RoutingAllows(c: Codec, x: string, y: string) {
    || x == y
    || (x != "" && y != ""
        && match (c.decode(x), c.decode(y))
           case (Some(Obj(m)), Some(Obj(m'))) => SameRouting(m, m')
           case (Some(Null), Some(Null)) => true
           case _ => false)
  }

  lemma RoutingExactly(c: Codec, x: string, y: string)
    requires Sound(c)
    ensures RoutingChange(c, x, y).Some? <==> RoutingAllows(c, x, y)
  {
    hide RoutingChange;
    RoutingIsHotExactly(c, x, y);
    match (c.decode(x), c.decode(y))
    case (Some(Obj(m)), Some(Obj(m'))) => RestAgrees(m, m');
    case _ =>
  }

  lemma RestAgrees(m: map<string, Json>, m': map<string, Json>)
    ensures m - RELOADABLE == m' - RELOADABLE <==> SameRouting(m, m')
  {
    var r, r' := m - RELOADABLE, m' - RELOADABLE;
    if r == r' {
      forall k | k != "rules" && k != "balancers" ensures (k in m <==> k in m') && (k in m ==> m[k] == m'[k]) {
        assert (k in m <==> k in r) && (k in m' <==> k in r');
      }
    }
    if SameRouting(m, m') {
      assert r.Keys == r'.Keys;
      assert r == r';
    }
  }

  // ----- The whole configuration -----

  /**
   A change of configuration needs no restart exactly when the twelve sections without a reload API mean the same,
   inbounds are addressed by tags of their own and the panel's inbound stays, new inbounds can be marshalled, the
   outbounds can be read and their default stays, and the routing sections agree on all but rules and balancers.
   */
  lemma DiffExistsExactly(c: Codec, a: Config, b: Config)
    requires Sound(c)
    ensures DiffOf(c, a, b).Some? <==>
            && MeaningOf(c, a.log) == MeaningOf(c, b.log) && MeaningOf(c, a.dns) == MeaningOf(c, b.dns)
            && MeaningOf(c, a.transport) == MeaningOf(c, b.transport)
            && MeaningOf(c, a.policy) == MeaningOf(c, b.policy)
            && MeaningOf(c, a.api) == MeaningOf(c, b.api) && MeaningOf(c, a.stats) == MeaningOf(c, b.stats)
            && MeaningOf(c, a.reverse) == MeaningOf(c, b.reverse) && MeaningOf(c, a.fakedns) == MeaningOf(c, b.fakedns)
            && MeaningOf(c, a.observatory) == MeaningOf(c, b.observatory)
            && MeaningOf(c, a.burstObservatory) == MeaningOf(c, b.burstObservatory)
            && MeaningOf(c, a.metrics) == MeaningOf(c, b.metrics) && MeaningOf(c, a.geodata) == MeaningOf(c, b.geodata)
            && InboundsAllow(c, a, b) && OutboundsAllow(c, a.outbounds, b.outbounds) && RoutingAllows(c, a.router, b.router)
  {
    hide StaticsEqual, MeaningOf, InboundsApplicable, InboundsAllow, OutboundsAllow, ParseOutbounds, SameDefault,
      RoutingChange, RoutingAllows, RemovedInbounds, AddedInbounds, Removed, Added, Raws, TagMap;
    SectionsDecide(c, a, b);
    InboundsExactly(c, a, b);
    DefaultExactly(c, a.outbounds, b.outbounds);
    RoutingExactly(c, a.router, b.router);
  }
}
