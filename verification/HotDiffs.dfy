/** The comparison of two generated configurations into runtime operations: internal/xray/hot_diff.go. */
module HotDiffs {
  import opened Options
  import opened Json
  import opened RawJson
  import opened HandlerDiff

  datatype Inbound = Inbound(
    listen: string, port: int, protocol: string, settings: string, streamSettings: string, tag: string, sniffing: string)

  datatype Config = Config(
    log: string, router: string, dns: string, inbounds: seq<Inbound>, outbounds: string, transport: string,
    policy: string, api: string, stats: string, reverse: string, fakedns: string, observatory: string,
    burstObservatory: string, metrics: string, geodata: string)

  /** One outbound: its text and the canonical form used to detect changes. */
  datatype Outbound = Outbound(tag: string, raw: string, norm: string)

  // ----- Sections without a reload API -----

  function Statics(cfg: Config): (r: seq<string>)
    ensures |r| == 12
  {
    [cfg.log, cfg.dns, cfg.transport, cfg.policy, cfg.api, cfg.stats, cfg.reverse, cfg.fakedns, cfg.observatory,
     cfg.burstObservatory, cfg.metrics, cfg.geodata]
  }

  predicate StaticsEqual(c: Codec, a: Config, b: Config) {
    forall k :: 0 <= k < 12 ==> RawEqual(c, Statics(a)[k], Statics(b)[k])
  }

  /** The sections mean the same, by name. */
  ghost predicate SameSections(c: Codec, a: Config, b: Config) {
    && MeaningOf(c, a.log) == MeaningOf(c, b.log)
    && MeaningOf(c, a.dns) == MeaningOf(c, b.dns)
    && MeaningOf(c, a.transport) == MeaningOf(c, b.transport)
    && MeaningOf(c, a.policy) == MeaningOf(c, b.policy)
    && MeaningOf(c, a.api) == MeaningOf(c, b.api)
    && MeaningOf(c, a.stats) == MeaningOf(c, b.stats)
    && MeaningOf(c, a.reverse) == MeaningOf(c, b.reverse)
    && MeaningOf(c, a.fakedns) == MeaningOf(c, b.fakedns)
    && MeaningOf(c, a.observatory) == MeaningOf(c, b.observatory)
    && MeaningOf(c, a.burstObservatory) == MeaningOf(c, b.burstObservatory)
    && MeaningOf(c, a.metrics) == MeaningOf(c, b.metrics)
    && MeaningOf(c, a.geodata) == MeaningOf(c, b.geodata)
  }

  /** The loop over the table of sections compares every section by its own name. */
  lemma SectionsDecide(c: Codec, a: Config, b: Config)
    requires Sound(c)
    ensures StaticsEqual(c, a, b) <==> SameSections(c, a, b)
  {
    hide RawEqual, MeaningOf;
    var s, t := Statics(a), Statics(b);
    forall k | 0 <= k < 12 ensures RawEqual(c, s[k], t[k]) <==> MeaningOf(c, s[k]) == MeaningOf(c, t[k]) {
      RawEqualIsMeaning(c, s[k], t[k]);
    }
    assert RawEqual(c, s[0], t[0]) <==> MeaningOf(c, a.log) == MeaningOf(c, b.log);
    assert RawEqual(c, s[1], t[1]) <==> MeaningOf(c, a.dns) == MeaningOf(c, b.dns);
    assert RawEqual(c, s[2], t[2]) <==> MeaningOf(c, a.transport) == MeaningOf(c, b.transport);
    assert RawEqual(c, s[3], t[3]) <==> MeaningOf(c, a.policy) == MeaningOf(c, b.policy);
    assert RawEqual(c, s[4], t[4]) <==> MeaningOf(c, a.api) == MeaningOf(c, b.api);
    assert RawEqual(c, s[5], t[5]) <==> MeaningOf(c, a.stats) == MeaningOf(c, b.stats);
    assert RawEqual(c, s[6], t[6]) <==> MeaningOf(c, a.reverse) == MeaningOf(c, b.reverse);
    assert RawEqual(c, s[7], t[7]) <==> MeaningOf(c, a.fakedns) == MeaningOf(c, b.fakedns);
    assert RawEqual(c, s[8], t[8]) <==> MeaningOf(c, a.observatory) == MeaningOf(c, b.observatory);
    assert RawEqual(c, s[9], t[9]) <==> MeaningOf(c, a.burstObservatory) == MeaningOf(c, b.burstObservatory);
    assert RawEqual(c, s[10], t[10]) <==> MeaningOf(c, a.metrics) == MeaningOf(c, b.metrics);
    assert RawEqual(c, s[11], t[11]) <==> MeaningOf(c, a.geodata) == MeaningOf(c, b.geodata);
  }

  // ----- Inbounds -----

  datatype InboundMeaning = InboundMeaning(
    port: int, protocol: string, tag: string, listen: Meaning, settings: Meaning, streamSettings: Meaning, sniffing: Meaning)

  function MeaningOfInbound(c: Codec, i: Inbound): InboundMeaning {
    InboundMeaning(i.port, i.protocol, i.tag, MeaningOf(c, i.listen), MeaningOf(c, i.settings),
                   MeaningOf(c, i.streamSettings), MeaningOf(c, i.sniffing))
  }

  function InboundTag(): Inbound -> string {
    (i: Inbound) => i.tag
  }

  function InboundMean(c: Codec): Inbound -> InboundMeaning {
    (i: Inbound) => MeaningOfInbound(c, i)
  }

  predicate InboundEqual(c: Codec, a: Inbound, b: Inbound) {
    && a.port == b.port && a.protocol == b.protocol && a.tag == b.tag
    && RawEqual(c, a.listen, b.listen)
    && RawEqual(c, a.settings, b.settings)
    && RawEqual(c, a.streamSettings, b.streamSettings)
    && RawEqual(c, a.sniffing, b.sniffing)
  }

  /** The same inbound up to the formatting of its sections, by name. */
  ghost predicate SameInbound(c: Codec, a: Inbound, b: Inbound) {
    && a.tag == b.tag && a.port == b.port && a.protocol == b.protocol
    && MeaningOf(c, a.listen) == MeaningOf(c, b.listen)
    && MeaningOf(c, a.settings) == MeaningOf(c, b.settings)
    && MeaningOf(c, a.streamSettings) == MeaningOf(c, b.streamSettings)
    && MeaningOf(c, a.sniffing) == MeaningOf(c, b.sniffing)
  }

  lemma InboundEqualIsMeaning(c: Codec, a: Inbound, b: Inbound)
    requires Sound(c)
    ensures InboundEqual(c, a, b) <==> SameInbound(c, a, b)
    ensures InboundEqual(c, a, b) <==> MeaningOfInbound(c, a) == MeaningOfInbound(c, b)
  {
    hide RawEqual, MeaningOf;
    RawEqualIsMeaning(c, a.listen, b.listen);
    RawEqualIsMeaning(c, a.settings, b.settings);
    RawEqualIsMeaning(c, a.streamSettings, b.streamSettings);
    RawEqualIsMeaning(c, a.sniffing, b.sniffing);
  }

  /** Every inbound can be addressed through the API: tags are neither empty nor repeated. */
  predicate Addressable(s: seq<Inbound>) {
    Distinct(s, InboundTag()) && forall i :: 0 <= i < |s| ==> s[i].tag != ""
  }

  /** `json.Marshal` fails on an inbound that embeds a text that is not JSON. */
  predicate Marshals(c: Codec, i: Inbound) {
    && (i.listen == "" || c.valid(i.listen)) && (i.settings == "" || c.valid(i.settings))
    && (i.streamSettings == "" || c.valid(i.streamSettings)) && (i.sniffing == "" || c.valid(i.sniffing))
  }

  function ApiTag(c: Codec, api: string): string {
    if api != "" && c.tag(api).Some? && c.tag(api).value != "" then c.tag(api).value else "api"
  }

  predicate IsApi(c: Codec, api: string, tag: string) {
    tag == ApiTag(c, api) || tag == "api"
  }

  // ----- Outbounds -----

  function OutboundTag(): Outbound -> string {
    (o: Outbound) => o.tag
  }

  function OutboundNorm(): Outbound -> string {
    (o: Outbound) => o.norm
  }

  /** An element with a usable tag and a canonical form. */
  function ParseOutbound(c: Codec, raw: string): Option<Outbound> {
    if c.tag(raw).None? || c.tag(raw).value == "" || CanonicalJson(c, raw).None? then None
    else Some(Outbound(c.tag(raw).value, raw, CanonicalJson(c, raw).value))
  }

  /** All elements parsed, or None when one cannot be or repeats a tag. */
  function ParseElements(c: Codec, elems: seq<string>): (r: Option<seq<Outbound>>)
    ensures r.Some? ==> |r.value| == |elems| && Distinct(r.value, OutboundTag())
  {
    if elems == [] then Some([])
    else
      var front := ParseElements(c, elems[..|elems| - 1]);
      var last := ParseOutbound(c, elems[|elems| - 1]);
      if front.None? || last.None? || exists i :: 0 <= i < |front.value| && front.value[i].tag == last.value.tag then None
      else Some(front.value + [last.value])
  }

  function ParseOutbounds(c: Codec, raw: string): (r: Option<seq<Outbound>>)
    ensures r.Some? ==> Distinct(r.value, OutboundTag())
  {
    if raw == "" then Some([])
    else if c.elements(raw).None? then None
    else ParseElements(c, c.elements(raw).value)
  }

  /** The default outbound, the first one, is the same on both sides or absent on both. */
  predicate SameDefault(a: seq<Outbound>, b: seq<Outbound>) {
    || (a == [] && b == [])
    || (a != [] && b != [] && a[0].tag == b[0].tag && a[0].norm == b[0].norm)
  }

  // ----- Routing -----

  const RELOADABLE: set<string> := {"rules", "balancers"}

  /** The routing section in canonical form without the keys that can be replaced at run time. */
  function RoutingWithoutReloadable(c: Codec, raw: string): Option<string> {
    if raw == "" then Some(Render(Obj(map[])))
    else
      match c.decode(raw)
      case Some(Obj(m)) => Some(Render(Obj(m - RELOADABLE)))
      case Some(Null) => Some(Render(Null))
      case _ => None
  }

  /** None: a restart is needed. Some(None): nothing to do. Some(Some(t)): replace rules and balancers by those of t. */
  function RoutingChange(c: Codec, before: string, after: string): Option<Option<string>> {
    if before == after then Some(None)
    else if before == "" || after == "" then None
    else
      var a, b := RoutingWithoutReloadable(c, before), RoutingWithoutReloadable(c, after);
      if a.None? || b.None? || a != b then None else Some(Some(after))
  }

  // ----- The whole diff -----

  datatype Diff = Diff(
    removedInbounds: seq<string>, addedInbounds: seq<Inbound>,
    removedOutbounds: seq<string>, addedOutbounds: seq<string>, routing: Option<string>)

  predicate HasNoOperations(d: Diff) {
    d == Diff([], [], [], [], None)
  }

  function RemovedInbounds(c: Codec, a: Config, b: Config): seq<string> {
    Removed(a.inbounds, TagMap(b.inbounds, InboundTag()), InboundTag(), InboundMean(c))
  }

  function AddedInbounds(c: Codec, a: Config, b: Config): seq<Inbound> {
    Added(a.inbounds, b.inbounds, InboundTag(), InboundMean(c))
  }

  predicate InboundsApplicable(c: Codec, a: Config, b: Config) {
    && Addressable(a.inbounds) && Addressable(b.inbounds)
    && (forall t :: t in RemovedInbounds(c, a, b) ==> !IsApi(c, b.api, t))
    && (forall i :: i in AddedInbounds(c, a, b) ==> !IsApi(c, b.api, i.tag) && Marshals(c, i))
  }

  function Raws(s: seq<Outbound>): (r: seq<string>)
    ensures |r| == |s| && forall k :: 0 <= k < |s| ==> r[k] == s[k].raw
  {
    seq(|s|, k requires 0 <= k < |s| => s[k].raw)
  }

  /** The diff of two configurations, or None when only a restart can apply the change. */
  function DiffOf(c: Codec, a: Config, b: Config): Option<Diff> {
    var outA, outB := ParseOutbounds(c, a.outbounds), ParseOutbounds(c, b.outbounds);
    var routing := RoutingChange(c, a.router, b.router);
    if !StaticsEqual(c, a, b) || !InboundsApplicable(c, a, b) || outA.None? || outB.None?
       || !SameDefault(outA.value, outB.value) || routing.None? then None
    else
      Some(Diff(RemovedInbounds(c, a, b), AddedInbounds(c, a, b),
                Removed(outA.value, TagMap(outB.value, OutboundTag()), OutboundTag(), OutboundNorm()),
                Raws(Added(outA.value, outB.value, OutboundTag(), OutboundNorm())), routing.value))
  }
}
