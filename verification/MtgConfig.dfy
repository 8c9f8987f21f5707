/** The configuration of an mtg process and the fingerprint that decides restarts: internal/mtproto/manager.go. */
module MtgConfig {
  import opened Decimal
  import opened Texts

  datatype Instance = Instance(
    id: int, tag: string, listen: string, port: int, secret: string, debug: bool, proxyProtocolListener: bool,
    preferIP: string, frontingIP: string, frontingPort: int, frontingProxyProtocol: bool, routeThroughXray: bool,
    xrayRoutePort: int)

  function BindTo(i: Instance): string {
    (if i.listen == "" then "0.0.0.0" else i.listen) + ":" + OfInt(i.port)
  }

  function FormatBool(b: bool): string {
    if b then "true" else "false"
  }

  function Parts(i: Instance): (r: seq<string>)
    ensures |r| == 10
  {
    [BindTo(i), i.secret, FormatBool(i.debug), FormatBool(i.proxyProtocolListener), i.preferIP, i.frontingIP,
     OfInt(i.frontingPort), FormatBool(i.frontingProxyProtocol), FormatBool(i.routeThroughXray), OfInt(i.xrayRoutePort)]
  }

  function Join(parts: seq<string>): string {
    if parts == [] then ""
    else if |parts| == 1 then parts[0]
    else parts[0] + "|" + Join(parts[1..])
  }

  function Fingerprint(i: Instance): string {
    Join(Parts(i))
  }

  // ----- The generated TOML; quote stands for the %q verb -----

  function Head(i: Instance, quote: string -> string): string {
    "secret = " + quote(i.secret) + "\n" + "bind-to = " + quote(BindTo(i)) + "\n"
    + (if i.debug then "debug = true\n" else "")
    + (if i.proxyProtocolListener then "proxy-protocol-listener = true\n" else "")
  }

  function PreferLine(i: Instance, quote: string -> string): string {
    if i.preferIP != "" then "prefer-ip = " + quote(i.preferIP) + "\n" else ""
  }

  function FrontingSection(i: Instance, quote: string -> string): string {
    if i.frontingIP != "" || i.frontingPort > 0 || i.frontingProxyProtocol then
      "\n[domain-fronting]\n"
      + (if i.frontingIP != "" then "ip = " + quote(i.frontingIP) + "\n" else "")
      + (if i.frontingPort > 0 then "port = " + OfInt(i.frontingPort) + "\n" else "")
      + (if i.frontingProxyProtocol then "proxy-protocol = true\n" else "")
    else ""
  }

  function Tail(i: Instance, metricsPort: int): string {
    (if i.routeThroughXray && i.xrayRoutePort > 0 then NetworkSection(i.xrayRoutePort) else "") + StatsSection(metricsPort)
  }

  function NetworkSection(port: int): string {
    "\n[network]\n" + ("proxies = [\"socks5://127.0.0.1:" + OfInt(port) + "\"]\n")
  }

  function StatsSection(port: int): string {
    "\n[stats.prometheus]\n"
    + ("enabled = true\n" + "bind-to = \"127.0.0.1:" + OfInt(port) + "\"\n"
       + "http-path = \"/metrics\"\n" + "metric-prefix = \"mtg\"\n")
  }

  function RenderConfig(i: Instance, metricsPort: int, quote: string -> string): string {
    Head(i, quote) + (PreferLine(i, quote) + (FrontingSection(i, quote) + Tail(i, metricsPort)))
  }

  // ----- Equal parts make equal texts -----

  lemma SamePartsRender(i: Instance, j: Instance, metricsPort: int, quote: string -> string)
    requires Parts(i) == Parts(j)
    ensures RenderConfig(i, metricsPort, quote) == RenderConfig(j, metricsPort, quote)
  {
    hide Parts, Head, PreferLine, FrontingSection, Tail;
    SamePartsFields(i, j);
    SameFieldsSections(i, j, metricsPort, quote);
  }

  lemma SamePartsFields(i: Instance, j: Instance)
    requires Parts(i) == Parts(j)
    ensures BindTo(i) == BindTo(j)
    ensures i == j.(id := i.id, tag := i.tag, listen := i.listen, port := i.port)
  {
    hide BindTo, FormatBool, OfInt;
    var a, b := Parts(i), Parts(j);
    assert a[0] == b[0] && a[1] == b[1] && a[2] == b[2] && a[3] == b[3] && a[4] == b[4];
    assert a[5] == b[5] && a[6] == b[6] && a[7] == b[7] && a[8] == b[8] && a[9] == b[9];
    BoolInjective(i.debug, j.debug);
    BoolInjective(i.proxyProtocolListener, j.proxyProtocolListener);
    BoolInjective(i.frontingProxyProtocol, j.frontingProxyProtocol);
    BoolInjective(i.routeThroughXray, j.routeThroughXray);
    IntInjective(i.frontingPort, j.frontingPort);
    IntInjective(i.xrayRoutePort, j.xrayRoutePort);
  }

  lemma BoolInjective(b: bool, b': bool)
    ensures FormatBool(b) == FormatBool(b') ==> b == b'
  {
    assert FormatBool(b)[0] == if b then 't' else 'f';
    assert FormatBool(b')[0] == if b' then 't' else 'f';
  }

  lemma SameFieldsSections(i: Instance, j: Instance, metricsPort: int, quote: string -> string)
    requires BindTo(i) == BindTo(j) && i == j.(id := i.id, tag := i.tag, listen := i.listen, port := i.port)
    ensures Head(i, quote) == Head(j, quote) && PreferLine(i, quote) == PreferLine(j, quote)
    ensures FrontingSection(i, quote) == FrontingSection(j, quote) && Tail(i, metricsPort) == Tail(j, metricsPort)
  {
    hide BindTo, OfInt;
  }

  // ----- The generated text determines its settings -----

  /** Quoted text can be told from any other quoted text it starts like. */
  ghost predicate PrefixFree(quote: string -> string) {
    forall s, t, r, r' :: quote(s) + r == quote(t) + r' ==> s == t
  }

  lemma SameQuoted(p: string, s: string, r: string, s': string, r': string, quote: string -> string)
    requires PrefixFree(quote) && p + (quote(s) + r) == p + (quote(s') + r')
    ensures s == s' && r == r'
  {
    SameTail(p, quote(s) + r, quote(s') + r');
    SameTail(quote(s), r, r');
  }

  function DebugLine(i: Instance): string {
    if i.debug then "debug = true\n" else ""
  }

  function ListenerLine(i: Instance): string {
    if i.proxyProtocolListener then "proxy-protocol-listener = true\n" else ""
  }

  /** The text from the address option on. */
  function Rest(i: Instance, metricsPort: int, quote: string -> string): string {
    PreferLine(i, quote) + (FrontingSection(i, quote) + Tail(i, metricsPort))
  }

  lemma RenderShape(i: Instance, metricsPort: int, quote: string -> string)
    ensures RenderConfig(i, metricsPort, quote)
            == "secret = " + (quote(i.secret) + ("\nbind-to = " + (quote(BindTo(i))
               + ("\n" + (DebugLine(i) + (ListenerLine(i) + Rest(i, metricsPort, quote)))))))
  {
    hide BindTo, PreferLine, FrontingSection, Tail;
    var s, b, d, l := quote(i.secret), quote(BindTo(i)), DebugLine(i), ListenerLine(i);
    var r := Rest(i, metricsPort, quote);
    assert Head(i, quote) == "secret = " + s + "\n" + "bind-to = " + b + "\n" + d + l;
    Associate("secret = ", s, "\n", "bind-to = ", b, d, l, r);
  }

  lemma Associate(p: string, s: string, n: string, q: string, b: string, d: string, l: string, r: string)
    ensures (p + s + n + q + b + n + d + l) + r == p + (s + ((n + q) + (b + (n + (d + (l + r))))))
  {
  }

  /** The settings the fingerprint lists last. */
  predicate SameLast(i: Instance, j: Instance) {
    && i.frontingPort == j.frontingPort && i.frontingProxyProtocol == j.frontingProxyProtocol
    && i.routeThroughXray == j.routeThroughXray && i.xrayRoutePort == j.xrayRoutePort
  }

  /** The two instances mean the same to mtg; a port that is not positive, or a route that is off, means nothing. */
  predicate SameSettings(i: Instance, j: Instance) {
    && i.secret == j.secret && BindTo(i) == BindTo(j)
    && i.debug == j.debug && i.proxyProtocolListener == j.proxyProtocolListener
    && i.preferIP == j.preferIP && i.frontingIP == j.frontingIP
    && (if i.frontingPort > 0 then i.frontingPort == j.frontingPort else j.frontingPort <= 0)
    && i.frontingProxyProtocol == j.frontingProxyProtocol
    && (if i.routeThroughXray && i.xrayRoutePort > 0 then j.routeThroughXray && i.xrayRoutePort == j.xrayRoutePort
        else !(j.routeThroughXray && j.xrayRoutePort > 0))
  }

  /** The generated TOML is the same exactly for instances that mean the same, on the same metrics port. */
  lemma RenderExactly(i: Instance, j: Instance, m: int, m': int, quote: string -> string)
    requires PrefixFree(quote)
    ensures RenderConfig(i, m, quote) == RenderConfig(j, m', quote) <==> SameSettings(i, j) && m == m'
  {
    hide PrefixFree, RenderConfig, SameSettings;
    if RenderConfig(i, m, quote) == RenderConfig(j, m', quote) {
      RenderDetermines(i, j, m, m', quote);
    } else if SameSettings(i, j) {
      SettingsRender(i, j, m, quote);
    }
  }

  lemma SettingsRender(i: Instance, j: Instance, m: int, quote: string -> string)
    requires SameSettings(i, j)
    ensures RenderConfig(i, m, quote) == RenderConfig(j, m, quote)
  {
    hide BindTo, OfInt, NetworkSection, StatsSection;
  }

  lemma RenderDetermines(i: Instance, j: Instance, m: int, m': int, quote: string -> string)
    requires PrefixFree(quote) && RenderConfig(i, m, quote) == RenderConfig(j, m', quote)
    ensures SameSettings(i, j) && m == m'
  {
    hide PrefixFree, RenderConfig, BindTo, PreferLine, FrontingSection, Tail, DebugLine, ListenerLine, Rest;
    RenderShape(i, m, quote);
    RenderShape(j, m', quote);
    var u := "\n" + (DebugLine(i) + (ListenerLine(i) + Rest(i, m, quote)));
    var v := "\n" + (DebugLine(j) + (ListenerLine(j) + Rest(j, m', quote)));
    SameQuoted("secret = ", i.secret, "\nbind-to = " + (quote(BindTo(i)) + u),
               j.secret, "\nbind-to = " + (quote(BindTo(j)) + v), quote);
    SameQuoted("\nbind-to = ", BindTo(i), u, BindTo(j), v, quote);
    SameTail("\n", DebugLine(i) + (ListenerLine(i) + Rest(i, m, quote)),
             DebugLine(j) + (ListenerLine(j) + Rest(j, m', quote)));
    SameFlags(i, j, m, m', quote);
    SamePrefer(i, j, m, m', quote);
    SameFronting(i, j, m, m', quote);
    SameNetwork(i, j, m, m');
  }

  /** In particular it determines every part of the fingerprint that it shows. */
  lemma RenderInjective(i: Instance, j: Instance, metricsPort: int, quote: string -> string)
    requires PrefixFree(quote) && SameLast(i, j)
    requires RenderConfig(i, metricsPort, quote) == RenderConfig(j, metricsPort, quote)
    ensures Parts(i) == Parts(j)
  {
    hide PrefixFree, RenderConfig, BindTo, FormatBool, OfInt;
    RenderDetermines(i, j, metricsPort, metricsPort, quote);
  }

  /** How the text goes on tells which optional lines there are. */
  lemma SameFlags(i: Instance, j: Instance, m: int, m': int, quote: string -> string)
    requires DebugLine(i) + (ListenerLine(i) + Rest(i, m, quote)) == DebugLine(j) + (ListenerLine(j) + Rest(j, m', quote))
    ensures i.debug == j.debug && i.proxyProtocolListener == j.proxyProtocolListener
    ensures Rest(i, m, quote) == Rest(j, m', quote)
  {
    hide Rest;
    var r, r' := Rest(i, m, quote), Rest(j, m', quote);
    RestStart(i, m, quote);
    RestStart(j, m', quote);
    FirstLetter(i, r);
    FirstLetter(j, r');
    SameTail(DebugLine(i), ListenerLine(i) + r, ListenerLine(j) + r');
    ThirdLetter(i, r);
    ThirdLetter(j, r');
    SameTail(ListenerLine(i), r, r');
  }

  lemma RestStart(i: Instance, metricsPort: int, quote: string -> string)
    ensures var r := Rest(i, metricsPort, quote);
            |r| > 2 && if i.preferIP == "" then r[0] == '\n' else r[0] == 'p' && r[2] == 'e'
  {
    LastStart(i, metricsPort, quote);
    hide FrontingSection, Tail;
    var y := FrontingSection(i, quote) + Tail(i, metricsPort);
    if i.preferIP == "" {
      assert "" + y == y;
    } else {
      assert PreferLine(i, quote) == "prefer-ip = " + (quote(i.preferIP) + "\n");
      assert Rest(i, metricsPort, quote)[..12] == "prefer-ip = ";
    }
  }

  lemma TailStart(i: Instance, metricsPort: int)
    ensures var t := Tail(i, metricsPort); |t| > 2 && t[0] == '\n' && (t[2] == 'n' || t[2] == 's')
  {
    var n, t := "\n[network]\n", "\n[stats.prometheus]\n";
    assert n[0] == '\n' && n[2] == 'n' && t[0] == '\n' && t[2] == 's';
    StartsLike(n, NetworkSection(i.xrayRoutePort));
    StartsLike(t, StatsSection(metricsPort));
    hide NetworkSection, StatsSection;
    var net := if i.routeThroughXray && i.xrayRoutePort > 0 then NetworkSection(i.xrayRoutePort) else "";
    assert Tail(i, metricsPort) == net + StatsSection(metricsPort);
  }

  lemma FrontingHead(f: string, r: string)
    requires f == "\n[domain-fronting]\n" + r
    ensures |f| > 2 && f[0] == '\n' && f[2] == 'd'
  {
  }

  lemma StartsLike(lead: string, t: string)
    requires lead <= t && |lead| > 2
    ensures |t| > 2 && t[0] == lead[0] && t[2] == lead[2]
  {
  }

  lemma LastStart(i: Instance, metricsPort: int, quote: string -> string)
    ensures var y := FrontingSection(i, quote) + Tail(i, metricsPort);
            |y| > 2 && y[0] == '\n'
            && (y[2] == 'd' <==> i.frontingIP != "" || i.frontingPort > 0 || i.frontingProxyProtocol)
  {
    hide Tail, FrontingSection, FrontingRest, AddressLine;
    TailStart(i, metricsPort);
    FrontingShape(i, quote);
    var f, t := FrontingSection(i, quote), Tail(i, metricsPort);
    if f == "" {
      assert f + t == t;
    } else {
      FrontingHead(f, AddressLine(i, quote) + FrontingRest(i));
      StartsLike(f, f + t);
    }
  }

  /** The fronting section after its header and address line. */
  function FrontingRest(i: Instance): string {
    (if i.frontingPort > 0 then "port = " + OfInt(i.frontingPort) + "\n" else "")
    + (if i.frontingProxyProtocol then "proxy-protocol = true\n" else "")
  }

  function AddressLine(i: Instance, quote: string -> string): string {
    if i.frontingIP != "" then "ip = " + quote(i.frontingIP) + "\n" else ""
  }

  lemma FrontingShape(i: Instance, quote: string -> string)
    ensures FrontingSection(i, quote)
            == if i.frontingIP != "" || i.frontingPort > 0 || i.frontingProxyProtocol
               then "\n[domain-fronting]\n" + (AddressLine(i, quote) + FrontingRest(i)) else ""
  {
    hide OfInt;
    var h := "\n[domain-fronting]\n";
    var p := if i.frontingPort > 0 then "port = " + OfInt(i.frontingPort) + "\n" else "";
    var q := if i.frontingProxyProtocol then "proxy-protocol = true\n" else "";
    assert h + AddressLine(i, quote) + p + q == h + (AddressLine(i, quote) + (p + q));
  }

  lemma FirstLetter(i: Instance, r: string)
    requires r != "" && r[0] != 'd'
    ensures (DebugLine(i) + (ListenerLine(i) + r))[0] == 'd' <==> i.debug
  {
  }

  lemma ThirdLetter(i: Instance, r: string)
    requires |r| > 2 && (r[0] == 'p' ==> r[2] != 'o')
    ensures var t := ListenerLine(i) + r; |t| > 2 && (t[0] == 'p' && t[2] == 'o' <==> i.proxyProtocolListener)
  {
  }

  lemma SamePrefer(i: Instance, j: Instance, m: int, m': int, quote: string -> string)
    requires PrefixFree(quote) && Rest(i, m, quote) == Rest(j, m', quote)
    ensures i.preferIP == j.preferIP
    ensures FrontingSection(i, quote) + Tail(i, m) == FrontingSection(j, quote) + Tail(j, m')
  {
    hide PrefixFree, FrontingSection, Tail;
    RestStart(i, m, quote);
    RestStart(j, m', quote);
    PreferShape(i, m, quote);
    PreferShape(j, m', quote);
    var y, y' := FrontingSection(i, quote) + Tail(i, m), FrontingSection(j, quote) + Tail(j, m');
    if i.preferIP != "" {
      SameQuoted("prefer-ip = ", i.preferIP, "\n" + y, j.preferIP, "\n" + y', quote);
      SameTail("\n", y, y');
    }
  }

  lemma PreferShape(i: Instance, metricsPort: int, quote: string -> string)
    ensures var y := FrontingSection(i, quote) + Tail(i, metricsPort);
            Rest(i, metricsPort, quote) == if i.preferIP == "" then y else "prefer-ip = " + (quote(i.preferIP) + ("\n" + y))
  {
    hide FrontingSection, Tail;
    var y := FrontingSection(i, quote) + Tail(i, metricsPort);
    assert "prefer-ip = " + quote(i.preferIP) + "\n" + y == "prefer-ip = " + (quote(i.preferIP) + ("\n" + y));
    assert "" + y == y;
  }

  lemma SameFronting(i: Instance, j: Instance, m: int, m': int, quote: string -> string)
    requires PrefixFree(quote) && FrontingSection(i, quote) + Tail(i, m) == FrontingSection(j, quote) + Tail(j, m')
    ensures i.frontingIP == j.frontingIP && i.frontingProxyProtocol == j.frontingProxyProtocol
    ensures if i.frontingPort > 0 then i.frontingPort == j.frontingPort else j.frontingPort <= 0
    ensures Tail(i, m) == Tail(j, m')
  {
    hide PrefixFree, FrontingSection, Tail, AddressLine, FrontingRest;
    LastStart(i, m, quote);
    LastStart(j, m', quote);
    FrontingShape(i, quote);
    FrontingShape(j, quote);
    var t, t' := Tail(i, m), Tail(j, m');
    TailStart(i, m);
    TailStart(j, m');
    if i.frontingIP != "" || i.frontingPort > 0 || i.frontingProxyProtocol {
      SameMiddle("\n[domain-fronting]\n", AddressLine(i, quote) + FrontingRest(i), t, AddressLine(j, quote) + FrontingRest(j), t');
      SameAddress(i, j, t, t', quote);
      SamePort(i, j, t, t');
    } else {
      assert "" + t == t && "" + t' == t';
    }
  }

  lemma SameMiddle(h: string, u: string, t: string, v: string, t': string)
    requires h + u + t == h + v + t'
    ensures u + t == v + t'
  {
    Reassociate(h, u, t);
    Reassociate(h, v, t');
    SameTail(h, u + t, v + t');
  }

  lemma SameAddress(i: Instance, j: Instance, t: string, t': string, quote: string -> string)
    requires PrefixFree(quote) && t != "" && t[0] == '\n' && t' != "" && t'[0] == '\n'
    requires AddressLine(i, quote) + FrontingRest(i) + t == AddressLine(j, quote) + FrontingRest(j) + t'
    ensures i.frontingIP == j.frontingIP && FrontingRest(i) + t == FrontingRest(j) + t'
  {
    hide PrefixFree, FrontingRest;
    AddressShape(i, t, quote);
    AddressShape(j, t', quote);
    if i.frontingIP != "" && j.frontingIP != "" {
      SameQuoted("ip = ", i.frontingIP, "\n" + (FrontingRest(i) + t), j.frontingIP, "\n" + (FrontingRest(j) + t'), quote);
      SameTail("\n", FrontingRest(i) + t, FrontingRest(j) + t');
    } else {
      assert "" + FrontingRest(i) == FrontingRest(i) && "" + FrontingRest(j) == FrontingRest(j);
    }
  }

  function ProxyLine(i: Instance): string {
    if i.frontingProxyProtocol then "proxy-protocol = true\n" else ""
  }

  lemma RestShape(i: Instance, t: string)
    requires |t| > 1 && t[0] == '\n'
    ensures var s := FrontingRest(i) + t;
            && |s| > 1 && (i.frontingPort > 0 <==> s[0] == 'p' && s[1] == 'o')
            && s == if i.frontingPort > 0 then "port = " + (OfInt(i.frontingPort) + ("\n" + (ProxyLine(i) + t)))
                    else ProxyLine(i) + t
  {
    hide OfInt;
    var n, q := OfInt(i.frontingPort), ProxyLine(i);
    if i.frontingPort > 0 {
      assert "port = " + n + "\n" + q + t == "port = " + (n + ("\n" + (q + t)));
    } else {
      assert "" + q + t == q + t;
    }
  }

  lemma SamePort(i: Instance, j: Instance, t: string, t': string)
    requires |t| > 1 && t[0] == '\n' && |t'| > 1 && t'[0] == '\n' && FrontingRest(i) + t == FrontingRest(j) + t'
    ensures if i.frontingPort > 0 then i.frontingPort == j.frontingPort else j.frontingPort <= 0
    ensures i.frontingProxyProtocol == j.frontingProxyProtocol && t == t'
  {
    hide OfInt, FrontingRest, ProxyLine;
    RestShape(i, t);
    RestShape(j, t');
    if i.frontingPort > 0 {
      SameNumber("port = ", i.frontingPort, '\n', ProxyLine(i) + t, j.frontingPort, ProxyLine(j) + t');
    }
    SameProxy(i, j, t, t');
  }

  lemma SameProxy(i: Instance, j: Instance, t: string, t': string)
    requires t != "" && t[0] == '\n' && t' != "" && t'[0] == '\n' && ProxyLine(i) + t == ProxyLine(j) + t'
    ensures i.frontingProxyProtocol == j.frontingProxyProtocol && t == t'
  {
    assert (ProxyLine(i) + t)[0] == if i.frontingProxyProtocol then 'p' else '\n';
    assert (ProxyLine(j) + t')[0] == if j.frontingProxyProtocol then 'p' else '\n';
    SameTail(ProxyLine(i), t, t');
  }

  /** A number is determined up to the character after it. */
  lemma SameNumber(p: string, n: int, c: char, r: string, n': int, r': string)
    requires p + (OfInt(n) + ([c] + r)) == p + (OfInt(n') + ([c] + r')) && c != '-' && !IsDigit(c)
    ensures n == n' && r == r'
  {
    hide OfInt;
    SameTail(p, OfInt(n) + ([c] + r), OfInt(n') + ([c] + r'));
    SameUpTo(OfInt(n), c, r, OfInt(n'), r');
    IntInjective(n, n');
  }

  /** What precedes the first c of a text is determined. */
  lemma SameUpTo(s: string, c: char, r: string, s': string, r': string)
    requires c !in s && c !in s' && s + ([c] + r) == s' + ([c] + r')
    ensures s == s' && r == r'
  {
    var t := s + ([c] + r);
    assert t[|s|] == c && t[|s'|] == c;
    assert forall k :: 0 <= k < |s| ==> t[k] == s[k];
    assert forall k :: 0 <= k < |s'| ==> t[k] == s'[k];
    assert s == t[..|s|] && s' == t[..|s'|];
    SameTail(s, [c] + r, [c] + r');
    SameTail([c], r, r');
  }

  lemma NetworkShape(port: int)
    ensures NetworkSection(port) == "\n[network]\nproxies = [\"socks5://127.0.0.1:" + (OfInt(port) + (['"'] + "]\n"))
  {
    hide OfInt;
    assert "\n[network]\n" + "proxies = [\"socks5://127.0.0.1:" == "\n[network]\nproxies = [\"socks5://127.0.0.1:";
    assert ['"'] + "]\n" == "\"]\n";
  }

  function StatsStart(): string {
    "\n[stats.prometheus]\n" + ("enabled = true\n" + "bind-to = \"127.0.0.1:")
  }

  function StatsEnd(): string {
    "\n" + ("http-path = \"/metrics\"\n" + "metric-prefix = \"mtg\"\n")
  }

  lemma StatsShape(port: int)
    ensures StatsSection(port) == StatsStart() + (OfInt(port) + (['"'] + StatsEnd()))
  {
    hide OfInt;
    var e, f := "http-path = \"/metrics\"\n", "metric-prefix = \"mtg\"\n";
    StatsParts("\n[stats.prometheus]\n", "enabled = true\n", "bind-to = \"127.0.0.1:", OfInt(port), "\"\n", e, f);
    QuoteFirst(e + f);
  }

  lemma QuoteFirst(x: string)
    ensures "\"\n" + x == ['"'] + ("\n" + x)
  {
  }

  lemma StatsParts(a: string, b: string, c: string, n: string, d: string, e: string, f: string)
    ensures a + (b + c + n + d + e + f) == (a + (b + c)) + (n + (d + (e + f)))
  {
  }

  /** The rest of the text determines the route and the metrics port. */
  lemma SameNetwork(i: Instance, j: Instance, m: int, m': int)
    requires Tail(i, m) == Tail(j, m')
    ensures if i.routeThroughXray && i.xrayRoutePort > 0 then j.routeThroughXray && i.xrayRoutePort == j.xrayRoutePort
            else !(j.routeThroughXray && j.xrayRoutePort > 0)
    ensures m == m'
  {
    hide OfInt, NetworkSection, StatsSection;
    TailLetter(i, m);
    TailLetter(j, m');
    if i.routeThroughXray && i.xrayRoutePort > 0 {
      SameRoute(i.xrayRoutePort, StatsSection(m), j.xrayRoutePort, StatsSection(m'));
    } else {
      assert "" + StatsSection(m) == StatsSection(m) && "" + StatsSection(m') == StatsSection(m');
    }
    SameMetrics(m, m');
  }

  lemma SameMetrics(m: int, m': int)
    requires StatsSection(m) == StatsSection(m')
    ensures m == m'
  {
    hide OfInt, StatsSection, StatsStart, StatsEnd;
    StatsShape(m);
    StatsShape(m');
    SameNumber(StatsStart(), m, '"', StatsEnd(), m', StatsEnd());
  }

  lemma SameRoute(port: int, t: string, port': int, t': string)
    requires NetworkSection(port) + t == NetworkSection(port') + t'
    ensures port == port' && t == t'
  {
    hide OfInt, NetworkSection;
    NetworkShape(port);
    NetworkShape(port');
    var h := "\n[network]\nproxies = [\"socks5://127.0.0.1:";
    RouteParts(h, OfInt(port), "]\n", t);
    RouteParts(h, OfInt(port'), "]\n", t');
    SameNumber(h, port, '"', "]\n" + t, port', "]\n" + t');
    SameTail("]\n", t, t');
  }

  lemma RouteParts(h: string, n: string, e: string, t: string)
    ensures h + (n + (['"'] + e)) + t == h + (n + (['"'] + (e + t)))
  {
  }

  lemma TailLetter(i: Instance, m: int)
    ensures |Tail(i, m)| > 2 && (Tail(i, m)[2] == 'n' <==> i.routeThroughXray && i.xrayRoutePort > 0)
  {
    var n, t := "\n[network]\n", "\n[stats.prometheus]\n";
    assert n[2] == 'n' && t[2] == 's';
    StartsLike(n, NetworkSection(i.xrayRoutePort));
    StartsLike(t, StatsSection(m));
    hide NetworkSection, StatsSection;
    var net := if i.routeThroughXray && i.xrayRoutePort > 0 then NetworkSection(i.xrayRoutePort) else "";
    assert Tail(i, m) == net + StatsSection(m);
  }

  /** Where mtg listens: the address, "0.0.0.0" if it is empty, and the port. */
  lemma BindExactly(i: Instance, j: Instance)
    ensures BindTo(i) == BindTo(j)
            <==> i.port == j.port
                 && (i.listen == j.listen || (i.listen in {"", "0.0.0.0"} && j.listen in {"", "0.0.0.0"}))
  {
    hide OfInt;
    if BindTo(i) == BindTo(j) {
      SameFromLast(if i.listen == "" then "0.0.0.0" else i.listen, OfInt(i.port),
                   if j.listen == "" then "0.0.0.0" else j.listen, OfInt(j.port));
      IntInjective(i.port, j.port);
    }
  }

  lemma SameFromLast(s: string, d: string, s': string, d': string)
    requires s + ":" + d == s' + ":" + d' && ':' !in d && ':' !in d'
    ensures s == s' && d == d'
  {
    var t, n := s + ":" + d, |s + ":" + d|;
    assert t[|s|] == ':' && t[|s'|] == ':';
    assert forall k :: |s| < k < n ==> t[k] == d[k - |s| - 1];
    assert forall k :: |s'| < k < n ==> t[k] == d'[k - |s'| - 1];
    assert s == t[..|s|] && s' == t[..|s'|] && d == t[|s| + 1..] && d' == t[|s'| + 1..];
  }

  lemma AddressShape(i: Instance, t: string, quote: string -> string)
    requires t != "" && t[0] == '\n'
    ensures var s := AddressLine(i, quote) + FrontingRest(i) + t;
            && s != "" && (s[0] == 'i' <==> i.frontingIP != "")
            && (i.frontingIP != "" ==> s == "ip = " + (quote(i.frontingIP) + ("\n" + (FrontingRest(i) + t))))
  {
    hide OfInt;
    var r := FrontingRest(i) + t;
    assert r[0] == '\n' || r[0] == 'p';
    assert AddressLine(i, quote) + FrontingRest(i) + t == AddressLine(i, quote) + r;
    if i.frontingIP != "" {
      assert "ip = " + quote(i.frontingIP) + "\n" + r == "ip = " + (quote(i.frontingIP) + ("\n" + r));
    }
  }

  // ----- Segments of a fingerprint -----

  function Split(s: string): (r: seq<string>)
    ensures r != []
  {
    if s == "" then [""]
    else if s[0] == '|' then [""] + Split(s[1..])
    else Prepend(s[0], Split(s[1..]))
  }

  function Prepend(c: char, r: seq<string>): seq<string>
    requires r != []
  {
    [[c] + r[0]] + r[1..]
  }

  predicate Plain(parts: seq<string>) {
    forall k :: 0 <= k < |parts| ==> '|' !in parts[k]
  }

  lemma {:induction false} SplitPlain(s: string)
    ensures Plain(Split(s))
    ensures '|' !in s <==> |Split(s)| == 1
    ensures '|' !in s ==> Split(s) == [s]
  {
    if s != "" {
      SplitPlain(s[1..]);
      assert s == [s[0]] + s[1..];
    }
  }

  lemma {:induction false} SplitConcat(s: string, t: string)
    ensures Split(s + "|" + t) == Split(s) + Split(t)
  {
    hide Prepend;
    if s == "" {
      assert "" + "|" + t == "|" + t && ("|" + t)[1..] == t;
    } else {
      SplitConcat(s[1..], t);
      assert (s + "|" + t)[1..] == s[1..] + "|" + t && (s + "|" + t)[0] == s[0];
      PrependConcat(s[0], Split(s[1..]), Split(t));
    }
  }

  lemma PrependConcat(c: char, r: seq<string>, t: seq<string>)
    requires r != []
    ensures Prepend(c, r + t) == Prepend(c, r) + t && [""] + (r + t) == [""] + r + t
  {
    assert (r + t)[1..] == r[1..] + t;
  }

  function SplitAll(parts: seq<string>): seq<string> {
    if parts == [] then [] else Split(parts[0]) + SplitAll(parts[1..])
  }

  lemma {:induction false} SplitOfJoin(parts: seq<string>)
    requires parts != []
    ensures Split(Join(parts)) == SplitAll(parts)
  {
    hide Split;
    if |parts| == 1 {
      assert SplitAll(parts[1..]) == [];
      assert Split(parts[0]) + [] == Split(parts[0]);
    } else {
      SplitOfJoin(parts[1..]);
      SplitConcat(parts[0], Join(parts[1..]));
    }
  }

  lemma {:induction false} SplitAllPlain(parts: seq<string>)
    requires Plain(parts)
    ensures SplitAll(parts) == parts
  {
    hide Split;
    if parts != [] {
      SplitPlain(parts[0]);
      SplitAllPlain(parts[1..]);
      assert parts == [parts[0]] + parts[1..];
    }
  }

  lemma {:induction false} SplitAllLength(parts: seq<string>)
    ensures |SplitAll(parts)| >= |parts|
    ensures |SplitAll(parts)| == |parts| <==> Plain(parts)
  {
    hide Split;
    if parts != [] {
      SplitPlain(parts[0]);
      SplitAllLength(parts[1..]);
      assert parts == [parts[0]] + parts[1..];
    }
  }

  /** Splitting and joining undo each other. */
  lemma SplitJoin(parts: seq<string>)
    requires parts != [] && Plain(parts)
    ensures Split(Join(parts)) == parts
  {
    SplitOfJoin(parts);
    SplitAllPlain(parts);
  }

  lemma {:induction false} JoinSplit(s: string)
    ensures Join(Split(s)) == s
  {
    if s != "" {
      var r := Split(s[1..]);
      JoinSplit(s[1..]);
      assert s == [s[0]] + s[1..];
      if s[0] == '|' {
        assert ([""] + r)[1..] == r;
      } else {
        assert Prepend(s[0], r)[1..] == r[1..];
      }
    }
  }

  /** The four last segments, which never hold a separator. */
  function LastFour(i: Instance): (r: seq<string>)
    ensures |r| == 4
  {
    [OfInt(i.frontingPort), FormatBool(i.frontingProxyProtocol), FormatBool(i.routeThroughXray), OfInt(i.xrayRoutePort)]
  }

  function Leading(i: Instance): seq<string> {
    Split(BindTo(i)) + Split(i.secret) + [FormatBool(i.debug), FormatBool(i.proxyProtocolListener)]
  }

  function Segments(i: Instance): seq<string> {
    Split(Fingerprint(i))
  }

  lemma SegmentsOf(i: Instance)
    ensures Segments(i) == Leading(i) + (Split(i.preferIP) + Split(i.frontingIP)) + LastFour(i)
    ensures Plain(Segments(i))
  {
    hide Split, BindTo, FormatBool, OfInt, Join;
    var p := Parts(i);
    SplitOfJoin(p);
    SplitPlain(Fingerprint(i));
    PlainParts(i);
    SplitAllSix(p);
    SplitAllPlain(p[6..]);
    assert p[2..4] == [FormatBool(i.debug), FormatBool(i.proxyProtocolListener)] && p[6..] == LastFour(i);
  }

  lemma SplitAllSix(p: seq<string>)
    requires |p| == 10 && '|' !in p[2] && '|' !in p[3]
    ensures SplitAll(p) == Split(p[0]) + Split(p[1]) + [p[2], p[3]] + (Split(p[4]) + Split(p[5])) + SplitAll(p[6..])
  {
    hide Split, SplitAll;
    SplitPlain(p[2]);
    SplitPlain(p[3]);
    assert p[0..] == p;
    SplitAllStep(p, 0);
    SplitAllStep(p, 1);
    SplitAllStep(p, 2);
    SplitAllStep(p, 3);
    SplitAllStep(p, 4);
    SplitAllStep(p, 5);
    SixConcat(Split(p[0]), Split(p[1]), p[2], p[3], Split(p[4]), Split(p[5]), SplitAll(p[6..]));
  }

  lemma SplitAllStep(p: seq<string>, k: nat)
    requires k < |p|
    ensures SplitAll(p[k..]) == Split(p[k]) + SplitAll(p[k + 1..])
  {
    hide Split;
    assert p[k..][1..] == p[k + 1..];
  }

  lemma SixConcat(a: seq<string>, b: seq<string>, c: string, d: string, e: seq<string>, f: seq<string>, g: seq<string>)
    ensures a + (b + ([c] + ([d] + (e + (f + g))))) == a + b + [c, d] + (e + f) + g
  {
  }

  lemma PlainParts(i: Instance)
    ensures '|' !in FormatBool(i.debug) && '|' !in FormatBool(i.proxyProtocolListener) && Plain(LastFour(i))
  {
  }

  // ----- Without separators a fingerprint is sound -----

  predicate PipeFree(i: Instance) {
    '|' !in i.listen && '|' !in i.secret && '|' !in i.preferIP && '|' !in i.frontingIP
  }

  lemma PartsPipeFree(i: Instance)
    ensures PipeFree(i) <==> Plain(Parts(i))
  {
    hide BindTo, FormatBool, OfInt;
    PlainParts(i);
    PlainBind(i);
    assert Parts(i)[6..] == LastFour(i);
    assert forall k :: 6 <= k < 10 ==> Parts(i)[k] == LastFour(i)[k - 6];
    assert Parts(i)[0] == BindTo(i) && Parts(i)[1] == i.secret && Parts(i)[4] == i.preferIP && Parts(i)[5] == i.frontingIP;
  }

  lemma PlainBind(i: Instance)
    ensures '|' in BindTo(i) <==> '|' in i.listen
  {
  }

  /** The fingerprint of an instance without separators in its strings belongs to it alone: no other TOML shares it. */
  lemma FingerprintSound(i: Instance, j: Instance, metricsPort: int, quote: string -> string)
    requires PipeFree(i) && Fingerprint(i) == Fingerprint(j)
    ensures Parts(i) == Parts(j) && RenderConfig(i, metricsPort, quote) == RenderConfig(j, metricsPort, quote)
  {
    hide Parts, RenderConfig, PipeFree, SplitAll, Join;
    PartsPipeFree(i);
    SplitOfJoin(Parts(i));
    SplitOfJoin(Parts(j));
    SplitAllLength(Parts(i));
    SplitAllLength(Parts(j));
    SplitAllPlain(Parts(i));
    assert Plain(Parts(j));
    SplitAllPlain(Parts(j));
    SamePartsRender(i, j, metricsPort, quote);
  }

  // ----- Exactly when a fingerprint is ambiguous -----

  ghost predicate Ambiguous(i: Instance, metricsPort: int, quote: string -> string) {
    exists j :: Fingerprint(i) == Fingerprint(j) && RenderConfig(i, metricsPort, quote) != RenderConfig(j, metricsPort, quote)
  }

  predicate IsBool(t: string) {
    t == "true" || t == "false"
  }

  ghost predicate IsBind(t: string) {
    exists l, p :: l != "" && t == l + ":" + OfInt(p)
  }

  /** The first a segments read as an address to bind to, those up to b as a secret, the next two as truth values. */
  ghost predicate Reading(segs: seq<string>, a: nat, b: nat) {
    && 1 <= a < b && b + 8 <= |segs|
    && IsBind(Join(segs[..a])) && IsBool(segs[b]) && IsBool(segs[b + 1])
  }

  /** Where the instance's own address and secret end. */
  function AddressEnd(i: Instance): nat {
    |Split(BindTo(i))|
  }

  function SecretEnd(i: Instance): nat {
    AddressEnd(i) + |Split(i.secret)|
  }

  /** The fingerprint can be cut in another way than the instance was put together. */
  ghost predicate OtherReading(i: Instance) {
    exists a, b :: Reading(Segments(i), a, b) && !(a == AddressEnd(i) && b == SecretEnd(i))
  }

  lemma OwnReading(i: Instance)
    ensures var g, a, b := Segments(i), AddressEnd(i), SecretEnd(i);
            && Reading(g, a, b)
            && g[..a] == Split(BindTo(i)) && g[a..b] == Split(i.secret)
            && g[b] == FormatBool(i.debug) && g[b + 1] == FormatBool(i.proxyProtocolListener)
            && g[b + 2..|g| - 4] == Split(i.preferIP) + Split(i.frontingIP) && g[|g| - 4..] == LastFour(i)
  {
    hide Split, OfInt, Segments, LastFour;
    SegmentsOf(i);
    var g, a, b := Segments(i), AddressEnd(i), SecretEnd(i);
    CutSegments(g, Split(BindTo(i)), Split(i.secret), FormatBool(i.debug), FormatBool(i.proxyProtocolListener),
                Split(i.preferIP) + Split(i.frontingIP), LastFour(i));
    JoinSplit(BindTo(i));
    assert IsBind(BindTo(i)) by { assert BindTo(i) == (if i.listen == "" then "0.0.0.0" else i.listen) + ":" + OfInt(i.port); }
  }

  lemma CutSegments(g: seq<string>, x: seq<string>, y: seq<string>, c: string, d: string, z: seq<string>, l: seq<string>)
    requires g == x + y + [c, d] + z + l
    ensures var a, b := |x|, |x| + |y|;
            && g[..a] == x && g[a..b] == y && g[b] == c && g[b + 1] == d && g[b + 2..|g| - |l|] == z && g[|g| - |l|..] == l
  {
  }

  /** The instance that another reading describes. */
  function ReadAs(i: Instance, g: seq<string>, a: nat, b: nat, l: string, p: int): Instance
    requires a <= b && b + 8 <= |g|
  {
    i.(listen := l, port := p, secret := Join(g[a..b]), debug := g[b] == "true",
       proxyProtocolListener := g[b + 1] == "true", preferIP := g[b + 2], frontingIP := Join(g[b + 3..|g| - 4]))
  }

  lemma ReadAsAgrees(i: Instance, a: nat, b: nat, l: string, p: int)
    requires Reading(Segments(i), a, b) && l != "" && Join(Segments(i)[..a]) == l + ":" + OfInt(p)
    ensures var j := ReadAs(i, Segments(i), a, b, l, p);
            && Fingerprint(j) == Fingerprint(i) && AddressEnd(j) == a && SecretEnd(j) == b && SameLast(i, j)
  {
    hide Split, OfInt, Join, Fingerprint, LastFour;
    var g := Segments(i);
    var j := ReadAs(i, g, a, b, l, p);
    SegmentsOf(i);
    SegmentsOf(j);
    OwnReading(i);
    SplitJoin(g[..a]);
    SplitJoin(g[a..b]);
    SplitPlain(g[b + 2]);
    SplitJoin(g[b + 3..|g| - 4]);
    assert LastFour(j) == LastFour(i) by { SameLastFour(i, j); }
    Recombine(g, a, b);
    assert FormatBool(j.debug) == g[b] && FormatBool(j.proxyProtocolListener) == g[b + 1];
    JoinSplit(Fingerprint(i));
    JoinSplit(Fingerprint(j));
  }

  lemma SameLastFour(i: Instance, j: Instance)
    ensures SameLast(i, j) ==> LastFour(i) == LastFour(j)
    ensures LastFour(i) == LastFour(j) ==> SameLast(i, j)
  {
    hide OfInt, FormatBool;
    var u, v := LastFour(i), LastFour(j);
    if u == v {
      assert u[0] == v[0] && u[1] == v[1] && u[2] == v[2] && u[3] == v[3];
      IntInjective(i.frontingPort, j.frontingPort);
      BoolInjective(i.frontingProxyProtocol, j.frontingProxyProtocol);
      BoolInjective(i.routeThroughXray, j.routeThroughXray);
      IntInjective(i.xrayRoutePort, j.xrayRoutePort);
    }
  }

  lemma Recombine(g: seq<string>, a: nat, b: nat)
    requires a <= b && b + 8 <= |g|
    ensures g[..a] + g[a..b] + [g[b], g[b + 1]] + ([g[b + 2]] + g[b + 3..|g| - 4]) + g[|g| - 4..] == g
  {
  }

  /** A different text for the same fingerprint: it is enough that the parts differ. */
  lemma PartsDiffer(i: Instance, j: Instance, metricsPort: int, quote: string -> string)
    requires PrefixFree(quote) && SameLast(i, j) && Fingerprint(i) == Fingerprint(j) && Parts(i) != Parts(j)
    ensures Ambiguous(i, metricsPort, quote)
  {
    hide Parts, RenderConfig, Fingerprint, PrefixFree;
    if RenderConfig(i, metricsPort, quote) == RenderConfig(j, metricsPort, quote) {
      RenderInjective(i, j, metricsPort, quote);
    }
  }

  lemma ReadingRange(g: seq<string>, a: nat, b: nat)
    requires Reading(g, a, b)
    ensures 1 <= a < b <= |g| - 8
  {
  }

  lemma ReadingBind(g: seq<string>, a: nat, b: nat) returns (l: string, p: int)
    requires Reading(g, a, b)
    ensures a <= |g| && l != "" && Join(g[..a]) == l + ":" + OfInt(p)
  {
    l, p :| l != "" && Join(g[..a]) == l + ":" + OfInt(p);
  }

  lemma OtherReadingAmbiguous(i: Instance, metricsPort: int, quote: string -> string)
    requires PrefixFree(quote) && OtherReading(i)
    ensures Ambiguous(i, metricsPort, quote)
  {
    hide Segments, PrefixFree, Ambiguous, Parts, Join, OfInt, Split, Fingerprint;
    var a: nat, b: nat :| Reading(Segments(i), a, b) && !(a == AddressEnd(i) && b == SecretEnd(i));
    ReadingRange(Segments(i), a, b);
    var l, p := ReadingBind(Segments(i), a, b);
    var j := ReadAs(i, Segments(i), a, b, l, p);
    ReadAsAgrees(i, a, b, l, p);
    if Parts(i) == Parts(j) {
      SamePartsCuts(i, j);
    } else {
      PartsDiffer(i, j, metricsPort, quote);
    }
  }

  lemma SamePartsCuts(i: Instance, j: Instance)
    requires Parts(i) == Parts(j)
    ensures AddressEnd(i) == AddressEnd(j) && SecretEnd(i) == SecretEnd(j)
  {
    hide Split, BindTo;
    assert Parts(i)[0] == Parts(j)[0] && Parts(i)[1] == Parts(j)[1];
  }

  /** The two address options sit side by side: a separator in one can be read as the boundary between them. */
  function Shifted(i: Instance, u: string, v: string): Instance {
    i.(preferIP := u, frontingIP := v)
  }

  lemma ShiftedAmbiguous(i: Instance, u: string, v: string, metricsPort: int, quote: string -> string)
    requires PrefixFree(quote) && u + "|" + v == i.preferIP + "|" + i.frontingIP && u != i.preferIP
    ensures Ambiguous(i, metricsPort, quote)
  {
    hide Parts, RenderConfig, Fingerprint, PrefixFree, Ambiguous, Split, BindTo, OfInt, LastFour;
    var j := Shifted(i, u, v);
    SegmentsOf(i);
    SegmentsOf(j);
    SplitConcat(u, v);
    SplitConcat(i.preferIP, i.frontingIP);
    SameLastFour(i, j);
    SameLeading(i, u, v);
    JoinSplit(Fingerprint(i));
    JoinSplit(Fingerprint(j));
    PartFour(i);
    PartFour(j);
    PartsDiffer(i, j, metricsPort, quote);
  }

  lemma SameLeading(i: Instance, u: string, v: string)
    ensures Leading(Shifted(i, u, v)) == Leading(i)
  {
    hide Split, OfInt;
  }

  lemma PartFour(i: Instance)
    ensures Parts(i)[4] == i.preferIP
  {
  }

  lemma SplitAtPipe(s: string) returns (u: string, v: string)
    requires '|' in s
    ensures s == u + "|" + v
  {
    var k :| 0 <= k < |s| && s[k] == '|';
    u, v := s[..k], s[k + 1..];
  }

  /** Instances that are cut alike and hold no separator in the address options have equal parts. */
  lemma SameCutsSameParts(i: Instance, j: Instance)
    requires Fingerprint(i) == Fingerprint(j) && AddressEnd(i) == AddressEnd(j) && SecretEnd(i) == SecretEnd(j)
    requires '|' !in i.preferIP && '|' !in i.frontingIP
    ensures Parts(i) == Parts(j)
  {
    hide Split, BindTo, OfInt, FormatBool, Fingerprint, Join, Reading, LastFour;
    OwnReading(i);
    OwnReading(j);
    JoinSplit(BindTo(i));
    JoinSplit(BindTo(j));
    JoinSplit(i.secret);
    JoinSplit(j.secret);
    SameLastFour(i, j);
    SplitPlain(i.preferIP);
    SplitPlain(i.frontingIP);
    TwoSegments(Split(i.preferIP), Split(i.frontingIP), Split(j.preferIP), Split(j.frontingIP));
    JoinSplit(i.preferIP);
    JoinSplit(j.preferIP);
    JoinSplit(i.frontingIP);
    JoinSplit(j.frontingIP);
  }

  lemma TwoSegments(x: seq<string>, y: seq<string>, x': seq<string>, y': seq<string>)
    requires x + y == x' + y' && |x| == |y| == 1 && x' != [] && y' != []
    ensures x == x' && y == y'
  {
    assert |x' + y'| == 2;
    assert (x + y)[..1] == x && (x' + y')[..1] == x' && (x + y)[1..] == y && (x' + y')[1..] == y';
  }

  /**
   Two different generated texts share the fingerprint of an instance exactly when an address option holds the
   separator, or the segments before them can be read as another address, secret and pair of truth values.
   */
  lemma AmbiguousExactly(i: Instance, metricsPort: int, quote: string -> string)
    requires PrefixFree(quote)
    ensures Ambiguous(i, metricsPort, quote) <==> '|' in i.preferIP || '|' in i.frontingIP || OtherReading(i)
  {
    hide Fingerprint, RenderConfig, PrefixFree, Reading, Segments, AddressEnd, SecretEnd, Parts;
    if '|' in i.preferIP {
      var u, v := SplitAtPipe(i.preferIP);
      assert u + "|" + (v + "|" + i.frontingIP) == i.preferIP + "|" + i.frontingIP;
      ShiftedAmbiguous(i, u, v + "|" + i.frontingIP, metricsPort, quote);
    } else if '|' in i.frontingIP {
      var u, v := SplitAtPipe(i.frontingIP);
      assert i.preferIP + "|" + u + "|" + v == i.preferIP + "|" + i.frontingIP;
      ShiftedAmbiguous(i, i.preferIP + "|" + u, v, metricsPort, quote);
    } else if OtherReading(i) {
      OtherReadingAmbiguous(i, metricsPort, quote);
    } else if Ambiguous(i, metricsPort, quote) {
      var j :| Fingerprint(i) == Fingerprint(j) && RenderConfig(i, metricsPort, quote) != RenderConfig(j, metricsPort, quote);
      OwnReading(j);
      SameSegments(i, j);
      assert AddressEnd(i) == AddressEnd(j) && SecretEnd(i) == SecretEnd(j);
      SameCutsSameParts(i, j);
      SamePartsRender(i, j, metricsPort, quote);
    }
  }

  lemma SameSegments(i: Instance, j: Instance)
    requires Fingerprint(i) == Fingerprint(j)
    ensures Segments(i) == Segments(j)
  {
  }

  /** Without a separator in address and secret there is no other reading; the address options decide. */
  lemma PlainLeadingOneReading(i: Instance)
    requires '|' !in i.listen && '|' !in i.secret && '|' !in i.preferIP && '|' !in i.frontingIP
    ensures !OtherReading(i)
  {
    hide Split, Reading, Segments, OfInt;
    SegmentsOf(i);
    SplitPlain(BindTo(i));
    SplitPlain(i.secret);
    SplitPlain(i.preferIP);
    SplitPlain(i.frontingIP);
    assert |Segments(i)| == 10;
    forall a, b | Reading(Segments(i), a, b) ensures a == 1 && b == 2 {
      ReadingRange(Segments(i), a, b);
    }
  }

  /** Two settings with one fingerprint: the secret of one holds what follows the address of the other. */
  lemma ListenAndSecretAmbiguous(i: Instance, metricsPort: int, quote: string -> string)
    requires PrefixFree(quote)
    ensures var x := i.(listen := "a:1|b", port := 443, secret := "S");
            var y := i.(listen := "a", port := 1, secret := "b:443|S");
            Fingerprint(x) == Fingerprint(y) && RenderConfig(x, metricsPort, quote) != RenderConfig(y, metricsPort, quote)
  {
    hide BindTo, OfInt, FormatBool, RenderConfig, PrefixFree, Join;
    var x := i.(listen := "a:1|b", port := 443, secret := "S");
    var y := i.(listen := "a", port := 1, secret := "b:443|S");
    TwoBinds(i);
    assert Parts(x)[2..] == Parts(y)[2..];
    FirstTwo(Parts(x));
    FirstTwo(Parts(y));
    assert "a:1|b:443" + "|" + "S" == "a:1" + "|" + "b:443|S";
    if RenderConfig(x, metricsPort, quote) == RenderConfig(y, metricsPort, quote) {
      RenderInjective(x, y, metricsPort, quote);
    }
  }

  lemma TwoBinds(i: Instance)
    ensures BindTo(i.(listen := "a:1|b", port := 443, secret := "S")) == "a:1|b:443"
    ensures BindTo(i.(listen := "a", port := 1, secret := "b:443|S")) == "a:1"
  {
    assert OfNat(4) == "4" && OfNat(44) == "44";
    assert OfInt(443) == "443" && OfInt(1) == "1";
  }

  lemma FirstTwo(p: seq<string>)
    requires |p| > 2
    ensures Join(p) == p[0] + "|" + p[1] + ("|" + Join(p[2..]))
  {
    hide Join;
    var rest := p[1..];
    JoinStep(p);
    JoinStep(rest);
    assert rest[1..] == p[2..] && rest[0] == p[1];
    Pair(p[0], p[1], Join(p[2..]));
  }

  lemma JoinStep(p: seq<string>)
    requires |p| > 1
    ensures Join(p) == p[0] + "|" + Join(p[1..])
  {
  }

  lemma Pair(s: string, t: string, r: string)
    ensures s + "|" + (t + "|" + r) == s + "|" + t + ("|" + r)
  {
  }

  /** Two settings with one fingerprint that differ in the address options. */
  lemma AddressOptionsAmbiguous(i: Instance, metricsPort: int, quote: string -> string)
    requires PrefixFree(quote) && i.preferIP == "u|v" && i.frontingIP == "w"
    ensures Ambiguous(i, metricsPort, quote)
  {
    hide Ambiguous, PrefixFree;
    assert "u" + "|" + "v|w" == i.preferIP + "|" + i.frontingIP;
    ShiftedAmbiguous(i, "u", "v|w", metricsPort, quote);
  }

  // ----- A generated file -----

  /** The settings of an inbound with every option on. */
  function EveryOption(): Instance {
    Instance(7, "in-7", "1.2.3.4", 443, "S", true, true, "only-ipv4", "10.0.0.1", 8443, true, true, 1080)
  }

  /** Its file, line by line: every setting under its own key. */
  lemma EveryLine(quote: string -> string)
    ensures RenderConfig(EveryOption(), 9000, quote)
            == "secret = " + (quote("S") + ("\nbind-to = " + (quote("1.2.3.4:443")
               + ("\n" + ("debug = true\n" + ("proxy-protocol-listener = true\n"
               + ("prefer-ip = " + (quote("only-ipv4") + ("\n"
               + ("\n[domain-fronting]\n" + ("ip = " + quote("10.0.0.1") + "\n" + ("port = " + "8443" + "\n" + "proxy-protocol = true\n"))
               + ("\n[network]\nproxies = [\"socks5://127.0.0.1:" + ("1080" + (['"'] + "]\n"))
               + (StatsStart() + ("9000" + (['"'] + StatsEnd()))))))))))))))
  {
    var i := EveryOption();
    Numerals();
    hide OfInt, NetworkSection, StatsSection, StatsStart, StatsEnd, FrontingSection;
    RenderShape(i, 9000, quote);
    PreferShape(i, 9000, quote);
    FrontingShape(i, quote);
    NetworkShape(1080);
    StatsShape(9000);
    assert BindTo(i) == "1.2.3.4:443";
  }

  /** With debugging alone switched on, on every address. */
  lemma DebugLineOnly(quote: string -> string)
    ensures RenderConfig(Instance(7, "in-7", "", 443, "S", true, false, "", "", 0, false, false, 0), 9000, quote)
            == "secret = " + (quote("S") + ("\nbind-to = " + (quote("0.0.0.0:443")
               + ("\n" + ("debug = true\n" + (StatsStart() + ("9000" + (['"'] + StatsEnd()))))))))
  {
    var i := Instance(7, "in-7", "", 443, "S", true, false, "", "", 0, false, false, 0);
    Numerals();
    hide OfInt, StatsSection, StatsStart, StatsEnd, FrontingSection;
    RenderShape(i, 9000, quote);
    FrontingShape(i, quote);
    StatsShape(9000);
    var t := StatsSection(9000);
    assert "" + t == t;
    assert BindTo(i) == "0.0.0.0:443";
  }

  lemma Numerals()
    ensures OfInt(443) == "443" && OfInt(8443) == "8443" && OfInt(1080) == "1080" && OfInt(9000) == "9000"
  {
    assert OfNat(4) == "4" && OfNat(44) == "44" && OfNat(8) == "8" && OfNat(84) == "84" && OfNat(844) == "844";
    assert OfNat(1) == "1" && OfNat(10) == "10" && OfNat(108) == "108";
    assert OfNat(9) == "9" && OfNat(90) == "90" && OfNat(900) == "900";
  }
}
