/** Applying a diff to a running core, in the order of `tryHotApply` (internal/web/service/xray.go): inbound
    removals, outbound removals, outbound additions, inbound additions, then the routing rules and balancers. The core may
    have been changed behind the panel's back: a missing handler counts as removed and a taken tag is freed. */
module HotApply {
  import opened Options
  import opened Json
  import opened RawJson
  import opened HandlerDiff
  import opened HotDiffs

  /** The routing feature of a core: absent, as an empty section reaches the core as null, or started from a section;
      Unreadable keeps a text that is neither. */
  datatype Router = NoRouter | Router(section: map<string, Json>) | Unreadable(text: string)

  /** A running core: inbound handlers by tag, outbound handlers in order (the first is the default), routing, the rest. */
  datatype Core = Core(
    log: Meaning, dns: Meaning, transport: Meaning, policy: Meaning, api: Meaning, stats: Meaning, reverse: Meaning,
    fakedns: Meaning, observatory: Meaning, burstObservatory: Meaning, metrics: Meaning, geodata: Meaning,
    inbounds: map<string, InboundMeaning>, outbounds: seq<Outbound>, router: Router)

  function RouterOf(c: Codec, raw: string): Router {
    if raw == "" then NoRouter
    else
      match c.decode(raw)
      case Some(Obj(m)) => Router(m)
      case Some(Null) => NoRouter
      case _ => Unreadable(raw)
  }

  function OutMeanings(s: seq<Outbound>): map<string, string> {
    Meanings(s, OutboundTag(), OutboundNorm())
  }

  predicate SameOutbounds(a: seq<Outbound>, b: seq<Outbound>) {
    Distinct(a, OutboundTag()) && OutMeanings(a) == OutMeanings(b) && SameDefault(a, b)
  }

  /** The sections that only a start can set. */
  ghost predicate RunsSections(c: Codec, core: Core, cfg: Config) {
    && core.log == MeaningOf(c, cfg.log) && core.dns == MeaningOf(c, cfg.dns)
    && core.transport == MeaningOf(c, cfg.transport) && core.policy == MeaningOf(c, cfg.policy)
    && core.api == MeaningOf(c, cfg.api) && core.stats == MeaningOf(c, cfg.stats)
    && core.reverse == MeaningOf(c, cfg.reverse) && core.fakedns == MeaningOf(c, cfg.fakedns)
    && core.observatory == MeaningOf(c, cfg.observatory)
    && core.burstObservatory == MeaningOf(c, cfg.burstObservatory)
    && core.metrics == MeaningOf(c, cfg.metrics) && core.geodata == MeaningOf(c, cfg.geodata)
  }

  /** The core runs the configuration up to JSON formatting and the order of the other outbounds. */
  ghost predicate Matches(c: Codec, core: Core, cfg: Config) {
    && RunsSections(c, core, cfg)
    && (Addressable(cfg.inbounds) ==> core.inbounds == Meanings(cfg.inbounds, InboundTag(), InboundMean(c)))
    && (ParseOutbounds(c, cfg.outbounds).Some? ==> SameOutbounds(core.outbounds, ParseOutbounds(c, cfg.outbounds).value))
    && core.router == RouterOf(c, cfg.router)
  }

  // ----- Operations of the core -----

  function Without(s: seq<Outbound>, t: string): seq<Outbound> {
    if s == [] then []
    else Without(s[..|s| - 1], t) + if s[|s| - 1].tag == t then [] else [s[|s| - 1]]
  }

  /** A handler that is missing counts as removed. */
  function RemoveOutbounds(s: seq<Outbound>, tags: seq<string>): seq<Outbound>
    decreases |tags|
  {
    if tags == [] then s else RemoveOutbounds(Without(s, tags[0]), tags[1..])
  }

  /** A handler that runs under the tag already is removed first; None when a text is no handler. */
  function AddOutbounds(c: Codec, s: seq<Outbound>, raws: seq<string>): Option<seq<Outbound>>
    decreases |raws|
  {
    if raws == [] then Some(s)
    else
      match ParseOutbound(c, raws[0])
      case None => None
      case Some(o) =>
        var free := if o.tag in TagMap(s, OutboundTag()) then Without(s, o.tag) else s;
        AddOutbounds(c, free + [o], raws[1..])
  }

  /** Rules and balancers replaced by those of the given section; the rest of the router stays. */
  function ReplaceRules(c: Codec, router: Router, raw: string): Option<Router> {
    if !router.Router? || !c.valid(raw) then None
    else
      match RouterOf(c, raw)
      case Router(m) => Some(Router((router.section - RELOADABLE) + (map k | k in m && k in RELOADABLE :: m[k])))
      case _ => None
  }

  /** All operations in turn; None as soon as one fails. */
  function ApplyDiff(c: Codec, core: Core, d: Diff): Option<Core> {
    var ins := RemoveEach(core.inbounds, d.removedInbounds);
    var outs := AddOutbounds(c, RemoveOutbounds(core.outbounds, d.removedOutbounds), d.addedOutbounds);
    if outs.None? then None else
    var ins' := AddEach(ins, d.addedInbounds, InboundTag(), InboundMean(c));
    var router := if d.routing.None? then Some(core.router) else ReplaceRules(c, core.router, d.routing.value);
    if router.None? then None
    else Some(core.(inbounds := ins', outbounds := outs.value, router := router.value))
  }

  // ----- Outbounds: the list operations act on the handlers by tag and keep the default -----

  lemma {:induction false} WithoutMap(s: seq<Outbound>, t: string)
    ensures TagMap(Without(s, t), OutboundTag()) == TagMap(s, OutboundTag()) - {t}
  {
    hide TagMap;
    if s == [] {
      EmptyList(t);
    } else {
      var front, last := s[..|s| - 1], s[|s| - 1];
      WithoutMap(front, t);
      TagMapAppend(front, last);
      TagMapAppend(Without(front, t), last);
      assert s == front + [last] && Without(front, t) + [] == Without(front, t);
      UpdateThenRemove(TagMap(front, OutboundTag()), last.tag, last, t);
    }
  }

  lemma UpdateThenRemove(m: map<string, Outbound>, k: string, o: Outbound, t: string)
    ensures m[k := o] - {t} == if k == t then m - {t} else (m - {t})[k := o]
  {
  }

  lemma EmptyList(t: string)
    ensures TagMap([], OutboundTag()) == map[] && Without([], t) == []
  {
  }

  lemma TagMapAppend(s: seq<Outbound>, o: Outbound)
    ensures TagMap(s + [o], OutboundTag()) == TagMap(s, OutboundTag())[o.tag := o]
  {
    assert (s + [o])[..|s|] == s;
  }

  lemma {:induction false} WithoutKeepsOthers(s: seq<Outbound>, t: string)
    requires Distinct(s, OutboundTag())
    ensures Distinct(Without(s, t), OutboundTag())
    ensures s != [] && s[0].tag != t ==> Without(s, t) != [] && Without(s, t)[0] == s[0]
  {
    hide TagMap;
    if s != [] {
      var front, last := s[..|s| - 1], s[|s| - 1];
      WithoutKeepsOthers(front, t);
      var w := Without(front, t);
      forall i | 0 <= i < |w| ensures OutboundTag()(w[i]) != last.tag {
        WithoutMember(front, t, w[i]);
      }
      assert |s| > 1 ==> front[0] == s[0];
    }
  }

  lemma {:induction false} WithoutMember(s: seq<Outbound>, t: string, o: Outbound)
    requires o in Without(s, t)
    ensures o in s
  {
    if s != [] && o in Without(s[..|s| - 1], t) {
      WithoutMember(s[..|s| - 1], t, o);
    }
  }

  lemma WithoutMeanings(s: seq<Outbound>, t: string)
    ensures OutMeanings(Without(s, t)) == OutMeanings(s) - {t}
  {
    hide TagMap, Without;
    WithoutMap(s, t);
  }

  lemma {:induction false} RemoveOutboundsResult(s: seq<Outbound>, tags: seq<string>)
    requires Distinct(s, OutboundTag()) && (s != [] ==> s[0].tag !in tags)
    ensures var r := RemoveOutbounds(s, tags);
            && Distinct(r, OutboundTag()) && OutMeanings(r) == RemoveEach(OutMeanings(s), tags)
            && (s != [] ==> r != [] && r[0] == s[0])
            && (s == [] ==> r == [])
    decreases |tags|
  {
    hide TagMap, Without, Distinct;
    if tags != [] {
      WithoutMeanings(s, tags[0]);
      WithoutKeepsOthers(s, tags[0]);
      EmptyList(tags[0]);
      RemoveOutboundsResult(Without(s, tags[0]), tags[1..]);
    }
  }

  lemma {:induction false} AddOutboundsResult(c: Codec, s: seq<Outbound>, items: seq<Outbound>, raws: seq<string>)
    requires Distinct(s, OutboundTag()) && Distinct(items, OutboundTag())
    requires s != [] ==> forall o :: o in items ==> o.tag != s[0].tag
    requires raws == Raws(items) && forall k :: 0 <= k < |items| ==> ParseOutbound(c, raws[k]) == Some(items[k])
    ensures AddOutbounds(c, s, raws).Some?
    ensures var r := AddOutbounds(c, s, raws).value;
            && Distinct(r, OutboundTag())
            && OutMeanings(r) == AddEach(OutMeanings(s), items, OutboundTag(), OutboundNorm())
            && (s != [] ==> r != [] && r[0] == s[0])
            && (s == [] && items == [] ==> r == [])
    decreases |raws|
  {
    hide TagMap, Without, Distinct, ParseOutbound;
    if raws != [] {
      var o := items[0];
      var free := if o.tag in TagMap(s, OutboundTag()) then Without(s, o.tag) else s;
      FreeTag(s, o);
      AppendTag(free, o);
      OtherTags(free, items);
      assert raws[1..] == Raws(items[1..]);
      AddOutboundsResult(c, free + [o], items[1..], raws[1..]);
    }
  }

  lemma OtherTags(free: seq<Outbound>, items: seq<Outbound>)
    requires items != [] && Distinct(items, OutboundTag())
    requires free != [] ==> forall o :: o in items ==> o.tag != free[0].tag
    ensures Distinct(items[1..], OutboundTag())
    ensures forall o :: o in items[1..] ==> o.tag != (free + [items[0]])[0].tag
  {
    forall o | o in items[1..] ensures o in items && o.tag != items[0].tag {
      var k :| 0 <= k < |items| - 1 && items[1..][k] == o;
      assert OutboundTag()(items[0]) != OutboundTag()(items[k + 1]);
    }
  }

  lemma FreeTag(s: seq<Outbound>, o: Outbound)
    requires Distinct(s, OutboundTag()) && (s != [] ==> s[0].tag != o.tag)
    ensures var free := if o.tag in TagMap(s, OutboundTag()) then Without(s, o.tag) else s;
            && Distinct(free, OutboundTag()) && o.tag !in OutMeanings(free)
            && OutMeanings(free) == (if o.tag in OutMeanings(s) then OutMeanings(s) - {o.tag} else OutMeanings(s))
            && (if s == [] then free == [] else free != [] && free[0] == s[0])
  {
    hide TagMap, Without, Distinct;
    EmptyList(o.tag);
    WithoutMeanings(s, o.tag);
    WithoutKeepsOthers(s, o.tag);
  }

  lemma AppendTag(s: seq<Outbound>, o: Outbound)
    requires Distinct(s, OutboundTag()) && o.tag !in OutMeanings(s)
    ensures Distinct(s + [o], OutboundTag()) && OutMeanings(s + [o]) == OutMeanings(s)[o.tag := o.norm]
    ensures o.tag !in TagMap(s, OutboundTag())
  {
    hide TagMap;
    TagMapAppend(s, o);
    forall i | 0 <= i < |s| ensures OutboundTag()(s[i]) != o.tag {
      assert OutboundTag()(s[i]) in TagMap(s, OutboundTag());
    }
  }

  /** Entries of a parsed list parse back from their own text. */
  lemma {:induction false} EntriesParse(c: Codec, elems: seq<string>, o: Outbound)
    requires ParseElements(c, elems).Some? && o in ParseElements(c, elems).value
    ensures ParseOutbound(c, o.raw) == Some(o)
  {
    if elems != [] && o in ParseElements(c, elems[..|elems| - 1]).value {
      EntriesParse(c, elems[..|elems| - 1], o);
    }
  }

  /**
   The outbound operations on a running list with the old default handler: they succeed, keep that handler where it
   is, and give the new handlers exactly when the list differs from the old one at most under tags being changed.
   */
  lemma OutboundsTransform(c: Codec, running: seq<Outbound>, a: Config, b: Config)
    requires ParseOutbounds(c, a.outbounds).Some? && ParseOutbounds(c, b.outbounds).Some?
    requires var outA, outB := ParseOutbounds(c, a.outbounds).value, ParseOutbounds(c, b.outbounds).value;
             SameDefault(outA, outB) && Distinct(running, OutboundTag()) && SameDefault(running, outA)
    ensures var outA, outB := ParseOutbounds(c, a.outbounds).value, ParseOutbounds(c, b.outbounds).value;
            var tags := Removed(outA, TagMap(outB, OutboundTag()), OutboundTag(), OutboundNorm());
            var items := Added(outA, outB, OutboundTag(), OutboundNorm());
            var r := AddOutbounds(c, RemoveOutbounds(running, tags), Raws(items));
            && r.Some?
            && (SameOutbounds(r.value, outB) <==> DriftConfined(OutMeanings(running), OutMeanings(outA), OutMeanings(outB)))
            && (running != [] ==> r.value != [] && r.value[0] == running[0] && running[0].tag !in tags)
  {
    hide ParseOutbounds, ParseOutbound, Removed, Added, RemoveOutbounds, AddOutbounds, Raws, TagMap, SameDefault,
      SameOutbounds, Distinct, DriftConfined, Meanings;
    AddedParseAll(c, a, b);
    ListTransforms(c, running, ParseOutbounds(c, a.outbounds).value, ParseOutbounds(c, b.outbounds).value);
  }

  lemma ListTransforms(c: Codec, running: seq<Outbound>, outA: seq<Outbound>, outB: seq<Outbound>)
    requires Distinct(outA, OutboundTag()) && Distinct(outB, OutboundTag()) && SameDefault(outA, outB)
    requires Distinct(running, OutboundTag()) && SameDefault(running, outA)
    requires var items := Added(outA, outB, OutboundTag(), OutboundNorm());
             forall k :: 0 <= k < |items| ==> ParseOutbound(c, Raws(items)[k]) == Some(items[k])
    ensures var tags := Removed(outA, TagMap(outB, OutboundTag()), OutboundTag(), OutboundNorm());
            var items := Added(outA, outB, OutboundTag(), OutboundNorm());
            var r := AddOutbounds(c, RemoveOutbounds(running, tags), Raws(items));
            && r.Some?
            && (SameOutbounds(r.value, outB) <==> DriftConfined(OutMeanings(running), OutMeanings(outA), OutMeanings(outB)))
            && (running != [] ==> r.value != [] && r.value[0] == running[0] && running[0].tag !in tags)
  {
    hide ParseOutbound, Removed, Added, RemoveOutbounds, AddOutbounds, RemoveEach, AddEach, Raws, TagMap, Meanings,
      Distinct, DriftConfined;
    var tag, norm := OutboundTag(), OutboundNorm();
    var tags, items := Removed(outA, TagMap(outB, tag), tag, norm), Added(outA, outB, tag, norm);
    DiffReconciles(OutMeanings(running), outA, outB, tag, norm);
    DefaultStays(outA, outB);
    AddedDistinct(outA, outB, tag, norm);
    RemoveOutboundsResult(running, tags);
    AddOutboundsResult(c, RemoveOutbounds(running, tags), items, Raws(items));
  }

  lemma AddedParseAll(c: Codec, a: Config, b: Config)
    requires ParseOutbounds(c, a.outbounds).Some? && ParseOutbounds(c, b.outbounds).Some?
    ensures var items := Added(ParseOutbounds(c, a.outbounds).value, ParseOutbounds(c, b.outbounds).value, OutboundTag(), OutboundNorm());
            forall k :: 0 <= k < |items| ==> ParseOutbound(c, Raws(items)[k]) == Some(items[k])
  {
    hide ParseOutbounds, ParseOutbound, Added, Raws;
    var items := Added(ParseOutbounds(c, a.outbounds).value, ParseOutbounds(c, b.outbounds).value, OutboundTag(), OutboundNorm());
    forall k | 0 <= k < |items| ensures ParseOutbound(c, Raws(items)[k]) == Some(items[k]) {
      AddedParse(c, a, b, items[k]);
    }
  }

  lemma AddedParse(c: Codec, a: Config, b: Config, o: Outbound)
    requires ParseOutbounds(c, a.outbounds).Some? && ParseOutbounds(c, b.outbounds).Some?
    requires o in Added(ParseOutbounds(c, a.outbounds).value, ParseOutbounds(c, b.outbounds).value, OutboundTag(), OutboundNorm())
    ensures ParseOutbound(c, o.raw) == Some(o)
  {
    AddedItems(ParseOutbounds(c, a.outbounds).value, ParseOutbounds(c, b.outbounds).value, OutboundTag(), OutboundNorm(), o);
    EntriesParse(c, c.elements(b.outbounds).value, o);
  }

  /** The default outbound is in no operation; an empty list stays empty. */
  lemma DefaultStays(outA: seq<Outbound>, outB: seq<Outbound>)
    requires Distinct(outA, OutboundTag()) && Distinct(outB, OutboundTag()) && SameDefault(outA, outB)
    ensures var tags, items := Removed(outA, TagMap(outB, OutboundTag()), OutboundTag(), OutboundNorm()),
                               Added(outA, outB, OutboundTag(), OutboundNorm());
            && (outA != [] ==> outA[0].tag !in tags && forall o :: o in items ==> o.tag != outA[0].tag)
            && (outA == [] ==> items == [])
  {
    var tag, norm := OutboundTag(), OutboundNorm();
    if outA != [] {
      RemovedTags(outA, TagMap(outB, tag), tag, norm, outA[0].tag);
      TagMapFinds(outA, tag, 0);
      TagMapFinds(outB, tag, 0);
      assert forall i :: 0 < i < |outA| ==> tag(outA[0]) != tag(outA[i]);
      forall o | o in Added(outA, outB, tag, norm) ensures o.tag != outA[0].tag {
        AddedItems(outA, outB, tag, norm, o);
        NewMeaning(outB, tag, norm, o);
      }
    }
  }

  // ----- Routing -----

  /** What of a routing section cannot be replaced at run time; None when the section is neither object nor null. */
  function RestOf(c: Codec, raw: string): Option<Json> {
    match c.decode(raw)
    case Some(Obj(m)) => Some(Obj(m - RELOADABLE))
    case Some(Null) => Some(Null)
    case _ => None
  }

  lemma RoutingTransforms(c: Codec, a: Config, b: Config)
    requires Sound(c) && RoutingChange(c, a.router, b.router).Some?
    ensures match RoutingChange(c, a.router, b.router).value
            case None => RouterOf(c, a.router) == RouterOf(c, b.router)
            case Some(t) =>
              && t == b.router
              && ReplaceRules(c, RouterOf(c, a.router), t)
                 == if c.valid(t) && RouterOf(c, t).Router? then Some(RouterOf(c, b.router)) else None
  {
    hide Render, WellFormed;
    if a.router != b.router {
      RestOfRouter(c, a.router);
      RestOfRouter(c, b.router);
      var x, y := RestOf(c, a.router).value, RestOf(c, b.router).value;
      RenderInjective(x, y);
      if x.Obj? && c.valid(b.router) {
        var m, m' := RouterOf(c, a.router).section, RouterOf(c, b.router).section;
        assert (m - RELOADABLE) + (map k | k in m' && k in RELOADABLE :: m'[k]) == m';
      }
    }
  }

  lemma RestOfRouter(c: Codec, raw: string)
    requires Sound(c) && raw != ""
    ensures RoutingWithoutReloadable(c, raw).Some? <==> RestOf(c, raw).Some?
    ensures match RestOf(c, raw)
            case None => true
            case Some(v) =>
              && RoutingWithoutReloadable(c, raw) == Some(Render(v)) && WellFormed(v)
              && (v == Null ==> RouterOf(c, raw) == NoRouter)
              && (v.Obj? ==> RouterOf(c, raw).Router? && v == Obj(RouterOf(c, raw).section - RELOADABLE))
  {
    hide Render;
  }

  // ----- The main results -----

  /** Everything but the handlers is as the configuration says; of those, the default outbound is. */
  ghost predicate MatchesButHandlers(c: Codec, core: Core, cfg: Config) {
    && RunsSections(c, core, cfg)
    && core.router == RouterOf(c, cfg.router)
    && Distinct(core.outbounds, OutboundTag())
    && ParseOutbounds(c, cfg.outbounds).Some? && SameDefault(core.outbounds, ParseOutbounds(c, cfg.outbounds).value)
  }

  /** The handlers of the core differ from those of the old configuration at most under tags that change anyway. */
  ghost predicate HandlersReconcile(c: Codec, core: Core, a: Config, b: Config)
    requires ParseOutbounds(c, a.outbounds).Some? && ParseOutbounds(c, b.outbounds).Some?
  {
    && DriftConfined(core.inbounds, Meanings(a.inbounds, InboundTag(), InboundMean(c)),
                     Meanings(b.inbounds, InboundTag(), InboundMean(c)))
    && DriftConfined(OutMeanings(core.outbounds), OutMeanings(ParseOutbounds(c, a.outbounds).value),
                     OutMeanings(ParseOutbounds(c, b.outbounds).value))
  }

  /**
   A diff applied to a core whose handlers were changed behind the panel's back. Every operation succeeds, except that
   replacing the rules needs the new routing text to be one JSON value and nothing more, and that value to be an
   object. The core then runs the new configuration exactly when the changes were confined to handlers of the diff.
   */
  lemma StaleCoreReconciled(c: Codec, core: Core, a: Config, b: Config)
    requires Sound(c) && MatchesButHandlers(c, core, a) && DiffOf(c, a, b).Some?
    ensures var d := DiffOf(c, a, b).value;
            && (ApplyDiff(c, core, d).Some?
                <==> d.routing.None? || (c.valid(d.routing.value) && RouterOf(c, d.routing.value).Router?))
            && (ApplyDiff(c, core, d).Some? ==>
                  (Matches(c, ApplyDiff(c, core, d).value, b) <==> HandlersReconcile(c, core, a, b)))
  {
    hide ParseOutbounds, Removed, Added, RemoveOutbounds, AddOutbounds, RemoveEach, AddEach, RoutingChange, ReplaceRules,
      StaticsEqual, MeaningOf, SameOutbounds, SameDefault, Meanings, TagMap, Raws, DriftConfined, Distinct;
    DiffReconciles(core.inbounds, a.inbounds, b.inbounds, InboundTag(), InboundMean(c));
    OutboundsTransform(c, core.outbounds, a, b);
    RoutingTransforms(c, a, b);
    SectionsDecide(c, a, b);
  }

  /** In particular a core that runs the old configuration comes to run the new one. */
  lemma HotApplyTransforms(c: Codec, core: Core, a: Config, b: Config)
    requires Sound(c) && Matches(c, core, a) && DiffOf(c, a, b).Some?
    ensures var d := DiffOf(c, a, b).value;
            && (ApplyDiff(c, core, d).Some?
                <==> d.routing.None? || (c.valid(d.routing.value) && RouterOf(c, d.routing.value).Router?))
            && (ApplyDiff(c, core, d).Some? ==> Matches(c, ApplyDiff(c, core, d).value, b))
  {
    hide ParseOutbounds, ApplyDiff, RouterOf, RawEqual, MeaningOf, Meanings, TagMap, RoutingChange;
    StaleCoreReconciled(c, core, a, b);
  }

  /** From such a core no removal meets a missing handler and no addition a taken tag, so nothing is retried. */
  lemma NothingRetried(c: Codec, core: Core, a: Config, b: Config)
    requires Sound(c) && Matches(c, core, a) && DiffOf(c, a, b).Some?
    ensures var d := DiffOf(c, a, b).value;
            var outA, outB := ParseOutbounds(c, a.outbounds).value, ParseOutbounds(c, b.outbounds).value;
            var items := Added(outA, outB, OutboundTag(), OutboundNorm());
            var ins := RemoveAll(core.inbounds, d.removedInbounds);
            var outs := RemoveAll(OutMeanings(core.outbounds), d.removedOutbounds);
            && ins.Some? && AddAll(ins.value, d.addedInbounds, InboundTag(), InboundMean(c)).Some?
            && outs.Some? && AddAll(outs.value, items, OutboundTag(), OutboundNorm()).Some? && d.addedOutbounds == Raws(items)
  {
    hide ParseOutbounds, Removed, Added, RemoveAll, AddAll, RoutingChange, RawEqual, MeaningOf, Meanings,
      TagMap, Raws;
    DiffTransforms(a.inbounds, b.inbounds, InboundTag(), InboundMean(c));
    DiffTransforms(ParseOutbounds(c, a.outbounds).value, ParseOutbounds(c, b.outbounds).value, OutboundTag(), OutboundNorm());
  }

  /**
   What a diff names: removals are running handlers that the new configuration changes or drops, additions are
   its handlers that nothing running already provides; neither the api inbound nor the default outbound appears.
   */
  lemma DiffIsMinimal(c: Codec, core: Core, a: Config, b: Config)
    requires Sound(c) && Matches(c, core, a) && DiffOf(c, a, b).Some?
    ensures var d := DiffOf(c, a, b).value;
            var target := Meanings(b.inbounds, InboundTag(), InboundMean(c));
            && (forall t :: t in d.removedInbounds <==>
                  t in core.inbounds && !(t in target && target[t] == core.inbounds[t]))
            && (forall t :: t in d.removedInbounds ==> !IsApi(c, b.api, t))
            && (forall i :: i in d.addedInbounds ==>
                  && i in b.inbounds && !IsApi(c, b.api, i.tag)
                  && ItemIsNew(i, core.inbounds, target, InboundTag(), InboundMean(c)))
    ensures var d := DiffOf(c, a, b).value;
            var running, target := OutMeanings(core.outbounds), OutMeanings(ParseOutbounds(c, b.outbounds).value);
            && (forall t :: t in d.removedOutbounds <==> t in running && !(t in target && target[t] == running[t]))
            && (core.outbounds != [] ==> core.outbounds[0].tag !in d.removedOutbounds)
            && (forall k :: 0 <= k < |d.addedOutbounds| ==>
                  && ParseOutbound(c, d.addedOutbounds[k]).Some?
                  && ItemIsNew(ParseOutbound(c, d.addedOutbounds[k]).value, running, target, OutboundTag(), OutboundNorm()))
  {
    hide ParseOutbounds, ParseOutbound, TagMap, Removed, Added, IsApi, Meanings, Raws, StaticsEqual, RoutingChange;
    InboundsNamed(c, a, b);
    OutboundsTransform(c, core.outbounds, a, b);
    OutboundsNamed(c, a, b);
  }

  lemma InboundsNamed(c: Codec, a: Config, b: Config)
    requires InboundsApplicable(c, a, b)
    ensures var core := Meanings(a.inbounds, InboundTag(), InboundMean(c));
            var target := Meanings(b.inbounds, InboundTag(), InboundMean(c));
            && (forall t :: t in RemovedInbounds(c, a, b) <==> t in core && !(t in target && target[t] == core[t]))
            && (forall i :: i in AddedInbounds(c, a, b) ==>
                  i in b.inbounds && ItemIsNew(i, core, target, InboundTag(), InboundMean(c)))
  {
    hide Removed, Added, TagMap, Meanings;
    forall t ensures t in RemovedInbounds(c, a, b) <==>
      var core := Meanings(a.inbounds, InboundTag(), InboundMean(c));
      var target := Meanings(b.inbounds, InboundTag(), InboundMean(c));
      t in core && !(t in target && target[t] == core[t])
    {
      RemovedMeaning(a.inbounds, b.inbounds, InboundTag(), InboundMean(c), t);
    }
    forall i | i in AddedInbounds(c, a, b)
      ensures i in b.inbounds
      ensures ItemIsNew(i, Meanings(a.inbounds, InboundTag(), InboundMean(c)),
                        Meanings(b.inbounds, InboundTag(), InboundMean(c)), InboundTag(), InboundMean(c))
    {
      AddedItems(a.inbounds, b.inbounds, InboundTag(), InboundMean(c), i);
      AddedMeaning(a.inbounds, b.inbounds, InboundTag(), InboundMean(c), i);
    }
  }

  lemma OutboundsNamed(c: Codec, a: Config, b: Config)
    requires ParseOutbounds(c, a.outbounds).Some? && ParseOutbounds(c, b.outbounds).Some?
    ensures var outA, outB := ParseOutbounds(c, a.outbounds).value, ParseOutbounds(c, b.outbounds).value;
            var running, target := OutMeanings(outA), OutMeanings(outB);
            var raws := Raws(Added(outA, outB, OutboundTag(), OutboundNorm()));
            && (forall t :: t in Removed(outA, TagMap(outB, OutboundTag()), OutboundTag(), OutboundNorm()) <==>
                  t in running && !(t in target && target[t] == running[t]))
            && (forall k :: 0 <= k < |raws| ==>
                  && ParseOutbound(c, raws[k]).Some?
                  && ItemIsNew(ParseOutbound(c, raws[k]).value, running, target, OutboundTag(), OutboundNorm()))
  {
    hide ParseOutbounds, ParseOutbound, Removed, Added, TagMap, Meanings, Raws;
    var outA, outB := ParseOutbounds(c, a.outbounds).value, ParseOutbounds(c, b.outbounds).value;
    var items := Added(outA, outB, OutboundTag(), OutboundNorm());
    forall t ensures t in Removed(outA, TagMap(outB, OutboundTag()), OutboundTag(), OutboundNorm()) <==>
      t in OutMeanings(outA) && !(t in OutMeanings(outB) && OutMeanings(outB)[t] == OutMeanings(outA)[t])
    {
      RemovedMeaning(outA, outB, OutboundTag(), OutboundNorm(), t);
    }
    AddedParseAll(c, a, b);
    forall k | 0 <= k < |items|
      ensures ItemIsNew(items[k], OutMeanings(outA), OutMeanings(outB), OutboundTag(), OutboundNorm())
    {
      AddedMeaning(outA, outB, OutboundTag(), OutboundNorm(), items[k]);
    }
  }

  /** An empty diff means the same handlers and, unlike every other part, the same routing text to the byte. */
  lemma EmptyDiff(c: Codec, a: Config, b: Config)
    requires DiffOf(c, a, b).Some?
    ensures HasNoOperations(DiffOf(c, a, b).value) <==>
            && Meanings(a.inbounds, InboundTag(), InboundMean(c)) == Meanings(b.inbounds, InboundTag(), InboundMean(c))
            && OutMeanings(ParseOutbounds(c, a.outbounds).value) == OutMeanings(ParseOutbounds(c, b.outbounds).value)
            && a.router == b.router
  {
    hide ParseOutbounds, Removed, Added, TagMap, Meanings, IsApi, Marshals, StaticsEqual;
    NoOperations(a.inbounds, b.inbounds, InboundTag(), InboundMean(c));
    NoOperations(ParseOutbounds(c, a.outbounds).value, ParseOutbounds(c, b.outbounds).value, OutboundTag(), OutboundNorm());
  }

  // ----- Reformatting -----

  /** The routing sections can be exchanged without a restart. */
  predicate RoutingIsHot(c: Codec, x: string, y: string) {
    x == y || (x != "" && y != "" && RestOf(c, x).Some? && RestOf(c, x) == RestOf(c, y))
  }

  lemma RoutingIsHotExactly(c: Codec, x: string, y: string)
    requires Sound(c)
    ensures RoutingChange(c, x, y).Some? <==> RoutingIsHot(c, x, y)
    ensures RoutingChange(c, x, y).Some? ==> RoutingChange(c, x, y).value == if x == y then None else Some(y)
  {
    hide Render, WellFormed;
    if x != y && x != "" && y != "" && RestOf(c, x).Some? && RestOf(c, y).Some? {
      RestOfRouter(c, x);
      RestOfRouter(c, y);
      if RestOf(c, x) != RestOf(c, y) && Render(RestOf(c, x).value) == Render(RestOf(c, y).value) {
        RenderInjective(RestOf(c, x).value, RestOf(c, y).value);
      }
    }
  }

  /** Two configurations that mean the same everywhere but in the routing section. */
  ghost predicate SameButRouting(c: Codec, a: Config, b: Config) {
    && Addressable(a.inbounds) && Addressable(b.inbounds)
    && SameSections(c, a, b)
    && Meanings(a.inbounds, InboundTag(), InboundMean(c)) == Meanings(b.inbounds, InboundTag(), InboundMean(c))
    && ParseOutbounds(c, a.outbounds).Some? && ParseOutbounds(c, b.outbounds).Some?
    && SameOutbounds(ParseOutbounds(c, a.outbounds).value, ParseOutbounds(c, b.outbounds).value)
  }

  /**
   When nothing else changes its meaning, the routing section alone decides: the diff names no handler, and a restart
   is needed exactly when the sections cannot be exchanged.
   */
  lemma RoutingAloneDecides(c: Codec, a: Config, b: Config)
    requires Sound(c) && SameButRouting(c, a, b)
    ensures DiffOf(c, a, b) == if RoutingIsHot(c, a.router, b.router)
                               then Some(Diff([], [], [], [], if a.router == b.router then None else Some(b.router)))
                               else None
  {
    hide ParseOutbounds, Removed, Added, TagMap, Meanings, IsApi, Marshals, RoutingChange, MeaningOf, StaticsEqual,
      RoutingIsHot;
    RoutingIsHotExactly(c, a.router, b.router);
    SectionsDecide(c, a, b);
    NoOperations(a.inbounds, b.inbounds, InboundTag(), InboundMean(c));
    NoOperations(ParseOutbounds(c, a.outbounds).value, ParseOutbounds(c, b.outbounds).value, OutboundTag(), OutboundNorm());
  }

  /**
   Saving a template again in another format forces a restart exactly when the routing texts differ and either one of
   them is empty or they hold neither an object nor null.
   */
  lemma ReformattingRestarts(c: Codec, a: Config, b: Config)
    requires Sound(c) && SameButRouting(c, a, b) && MeaningOf(c, a.router) == MeaningOf(c, b.router)
    ensures var x, y := a.router, b.router;
            DiffOf(c, a, b).Some?
            <==> x == y
                 || (x != "" && y != ""
                     && (MeaningOf(c, x).Absent? || (MeaningOf(c, x).Parsed? && MeaningOf(c, x).value.Obj?)))
  {
    hide DiffOf, SameButRouting;
    RoutingAloneDecides(c, a, b);
  }

  /** A routing section written as null instead of left out means the same, and yet needs a restart. */
  lemma NullRoutingRestarts(c: Codec, a: Config)
    requires Sound(c) && c.decode("null") == Some(Null) && a.router == ""
    ensures MeaningOf(c, a.router) == MeaningOf(c, "null") && DiffOf(c, a, a.(router := "null")).None?
  {
    hide StaticsEqual, InboundsApplicable, ParseOutbounds, SameDefault;
  }

  /** A space in a routing section is an operation to carry out, though nothing changes its meaning. */
  lemma SpacedRoutingIsAnOperation(c: Codec, a: Config)
    requires Sound(c) && SameButRouting(c, a, a) && a.router == "{}"
    requires c.decode("{}") == Some(Obj(map[])) == c.decode("{ }")
    ensures MeaningOf(c, a.router) == MeaningOf(c, "{ }")
    ensures DiffOf(c, a, a.(router := "{ }")) == Some(Diff([], [], [], [], Some("{ }")))
  {
    hide DiffOf;
    RoutingAloneDecides(c, a, a.(router := "{ }"));
  }

  /** Text after the routing value: the diff exists and cannot be carried out. */
  lemma TrailingTextCannotApply(c: Codec, core: Core, a: Config)
    requires Sound(c) && Matches(c, core, a) && SameButRouting(c, a, a) && a.router == "{}"
    requires c.decode("{}") == Some(Obj(map[])) == c.decode("{} x") && !c.valid("{} x")
    ensures var b := a.(router := "{} x");
            DiffOf(c, a, b).Some? && ApplyDiff(c, core, DiffOf(c, a, b).value).None?
  {
    hide DiffOf, ApplyDiff, Matches;
    RoutingAloneDecides(c, a, a.(router := "{} x"));
    HotApplyTransforms(c, core, a, a.(router := "{} x"));
  }

  /** Where an inbound listens. */
  function Address(): InboundMeaning -> (Meaning, int) {
    (m: InboundMeaning) => (m.listen, m.port)
  }

  /** With removals first, ports may be swapped: no inbound is added while another one listens on its address. */
  lemma PortsNeverCollide(c: Codec, core: Core, a: Config, b: Config, k: nat, t: string)
    requires Matches(c, core, a) && DiffOf(c, a, b).Some? && OwnPlaces(b.inbounds, InboundMean(c), Address())
    requires k < |DiffOf(c, a, b).value.addedInbounds|
    ensures var d := DiffOf(c, a, b).value;
            var next := MeaningOfInbound(c, d.addedInbounds[k]);
            var running := AddEach(RemoveEach(core.inbounds, d.removedInbounds), d.addedInbounds[..k], InboundTag(), InboundMean(c));
            t in running ==> t != next.tag && Address()(running[t]) != Address()(next)
  {
    hide ParseOutbounds, Removed, Added, RemoveEach, AddEach, RoutingChange, StaticsEqual, Meanings, TagMap, OwnPlaces;
    PlaceIsFree(a.inbounds, b.inbounds, InboundTag(), InboundMean(c), Address(), k, t);
  }

  /** A handler that neither configuration has, running unknown to the panel, survives the diff. */
  lemma UnknownHandlerStays(c: Codec, core: Core, a: Config, tag: string, m: InboundMeaning)
    requires Sound(c) && Matches(c, core, a) && SameButRouting(c, a, a) && tag !in core.inbounds
    ensures var stale := core.(inbounds := core.inbounds[tag := m]);
            && DiffOf(c, a, a).Some? && ApplyDiff(c, stale, DiffOf(c, a, a).value).Some?
            && !Matches(c, ApplyDiff(c, stale, DiffOf(c, a, a).value).value, a)
  {
    hide DiffOf, ApplyDiff, MeaningOf, ParseOutbounds, Meanings, TagMap, RouterOf;
    RoutingAloneDecides(c, a, a);
    EmptyApply(c, core.(inbounds := core.inbounds[tag := m]));
  }

  // ----- Chains of configuration changes -----

  /** The panel: the running core and the configuration stored for later comparisons. */
  datatype Panel = Panel(core: Core, snapshot: Config)

  /** The hot path; None when the caller must fall back to a restart. apiUp tells whether the core can be reached. */
  function TryHotApply(c: Codec, p: Panel, cfg: Config, apiUp: bool): Option<Panel> {
    match DiffOf(c, p.snapshot, cfg)
    case None => None
    case Some(d) =>
      if HasNoOperations(d) then Some(Panel(p.core, cfg))
      else if !apiUp || ApplyDiff(c, p.core, d).None? then None
      else Some(Panel(ApplyDiff(c, p.core, d).value, cfg))
  }

  /** One change of configuration: applied hot, or by a restart that runs the new configuration from scratch. */
  ghost predicate Changes(c: Codec, p: Panel, p': Panel) {
    || (exists apiUp :: TryHotApply(c, p, p'.snapshot, apiUp) == Some(p'))
    || Matches(c, p'.core, p'.snapshot)
  }

  /** Over any chain of hot applies and restarts the stored configuration is what runs. */
  lemma {:induction false} SnapshotTracksCore(c: Codec, run: seq<Panel>, i: nat)
    requires Sound(c) && i < |run| && Matches(c, run[0].core, run[0].snapshot)
    requires forall k :: 0 <= k < |run| - 1 ==> Changes(c, run[k], run[k + 1])
    ensures Matches(c, run[i].core, run[i].snapshot)
    decreases i
  {
    hide Matches, DiffOf, ApplyDiff;
    if i > 0 {
      SnapshotTracksCore(c, run, i - 1);
      assert Changes(c, run[i - 1], run[i]);
      var a, b := run[i - 1].snapshot, run[i].snapshot;
      if DiffOf(c, a, b).Some? {
        EmptyApply(c, run[i - 1].core);
        HotApplyTransforms(c, run[i - 1].core, a, b);
      }
    }
  }

  lemma EmptyApply(c: Codec, core: Core)
    ensures ApplyDiff(c, core, Diff([], [], [], [], None)) == Some(core)
  {
  }
}
