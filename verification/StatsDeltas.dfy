/** Traffic accounting over the cumulative counters of the Xray core (internal/xray/api.go): each poll reports what every
    counter gained since it was last seen, collected by handler tag and by client email. Values are remembered under
    the counter's name as it is; the order in which the collected records are returned is not kept. */
module StatsDeltas {
  import opened Options
  import opened CounterNames

  datatype Stat = Stat(name: string, value: int)

  datatype Traffic = Traffic(isInbound: bool, isOutbound: bool, tag: string, up: int, down: int)

  datatype ClientTraffic = ClientTraffic(email: string, up: int, down: int)

  type Values = map<string, int>

  // ----- One poll -----

  /** What a counter gained; nothing the first time it is seen, or when it went back. */
  function Delta(last: Values, s: Stat): Option<int> {
    if s.name in last && s.value >= last[s.name] then Some(s.value - last[s.name]) else None
  }

  function PutTag(tags: map<string, Traffic>, inbound: bool, tag: string, dir: Dir, value: int): map<string, Traffic> {
    if tag == "api" then tags
    else
      var t := if tag in tags then tags[tag] else Traffic(inbound, !inbound, tag, 0, 0);
      tags[tag := if dir == Downlink then t.(down := value) else t.(up := value)]
  }

  function PutEmail(emails: map<string, ClientTraffic>, email: string, dir: Dir, value: int): map<string, ClientTraffic> {
    var t := if email in emails then emails[email] else ClientTraffic(email, 0, 0);
    emails[email := if dir == Downlink then t.(down := value) else t.(up := value)]
  }

  datatype Poll = Poll(last: Values, tags: map<string, Traffic>, emails: map<string, ClientTraffic>)

  function Collect(p: Poll, counter: Option<Counter>, value: int): Poll {
    match counter
    case Some(Inbound(tag, dir)) => p.(tags := PutTag(p.tags, true, tag, dir, value))
    case Some(Outbound(tag, dir)) => p.(tags := PutTag(p.tags, false, tag, dir, value))
    case Some(User(email, dir)) => p.(emails := PutEmail(p.emails, email, dir, value))
    case None => p
  }

  function Step(p: Poll, s: Stat): Poll {
    var q := p.(last := p.last[s.name := s.value]);
    match Delta(p.last, s) case None => q case Some(value) => Collect(q, Meant(s.name), value)
  }

  function Polled(last: Values, stats: seq<Stat>): Poll {
    if stats == [] then Poll(last, map[], map[])
    else Step(Polled(last, stats[..|stats| - 1]), stats[|stats| - 1])
  }

  function TagAmount(tags: map<string, Traffic>, tag: string, dir: Dir): int {
    if tag !in tags then 0 else if dir == Downlink then tags[tag].down else tags[tag].up
  }

  function EmailAmount(emails: map<string, ClientTraffic>, email: string, dir: Dir): int {
    if email !in emails then 0 else if dir == Downlink then emails[email].down else emails[email].up
  }

  /** Where the amount of a counter goes. */
  datatype Account = TagOf(tag: string, dir: Dir) | EmailOf(email: string, dir: Dir)

  function Amount(p: Poll, a: Account): int {
    match a case TagOf(tag, dir) => TagAmount(p.tags, tag, dir) case EmailOf(email, dir) => EmailAmount(p.emails, email, dir)
  }

  /** The counter, if the name was taken for one, is of the account. */
  predicate Of(counter: Option<Counter>, a: Account) {
    match a
    case TagOf(tag, dir) => counter == Some(Inbound(tag, dir)) || counter == Some(Outbound(tag, dir))
    case EmailOf(email, dir) => counter == Some(User(email, dir))
  }

  predicate BelongsTo(name: string, a: Account) {
    Of(Meant(name), a)
  }

  predicate Billed(a: Account) {
    a.TagOf? ==> a.tag != "api"
  }

  /** One counter sets the amount of its own account and touches no other. */
  lemma CollectSets(p: Poll, counter: Option<Counter>, value: int, a: Account)
    requires Billed(a)
    ensures Amount(Collect(p, counter, value), a) == if Of(counter, a) then value else Amount(p, a)
    ensures forall last :: Amount(p.(last := last), a) == Amount(p, a)
  {
  }

  lemma {:induction false} ApiExcluded(last: Values, stats: seq<Stat>)
    ensures "api" !in Polled(last, stats).tags
  {
    hide Meant, Delta;
    if stats != [] {
      ApiExcluded(last, stats[..|stats| - 1]);
    }
  }

  /** A record under a tag carries that tag, and the kind of a counter of that tag that reported. */
  lemma {:induction false} TagRecords(last: Values, stats: seq<Stat>, tag: string)
    requires tag in Polled(last, stats).tags
    ensures var t := Polled(last, stats).tags[tag];
            && t.tag == tag && t.isOutbound == !t.isInbound
            && exists i :: 0 <= i < |stats| && OfKind(Meant(stats[i].name), t.isInbound, tag)
  {
    hide Polled, OfKind, Meant;
    TagStep(last, stats, tag);
    var n := |stats| - 1;
    if tag in Polled(last, stats[..n]).tags {
      TagRecords(last, stats[..n], tag);
      var i :| 0 <= i < n && OfKind(Meant(stats[..n][i].name), Polled(last, stats[..n]).tags[tag].isInbound, tag);
      assert OfKind(Meant(stats[i].name), Polled(last, stats).tags[tag].isInbound, tag);
    }
  }

  /** A record is created for the counter that reports first, and keeps its kind. */
  lemma TagStep(last: Values, stats: seq<Stat>, tag: string)
    requires tag in Polled(last, stats).tags
    ensures stats != []
    ensures var n := |stats| - 1;
            RecordKept(Polled(last, stats[..n]).tags, Polled(last, stats).tags, Meant(stats[n].name), tag)
  {
    hide Delta, Collect, RecordKept, Meant;
    var n := |stats| - 1;
    var p, s := Polled(last, stats[..n]), stats[n];
    CollectRecord(p.(last := p.last[s.name := s.value]), Meant(s.name), Gain(Delta(p.last, s)), tag);
    KeptAsIs(p.tags, Meant(s.name), tag);
  }

  ghost predicate RecordKept(front: map<string, Traffic>, tags: map<string, Traffic>, counter: Option<Counter>, tag: string) {
    tag in tags ==>
      if tag in front then
        tags[tag].tag == front[tag].tag && tags[tag].isInbound == front[tag].isInbound
        && tags[tag].isOutbound == front[tag].isOutbound
      else
        tags[tag].tag == tag && tags[tag].isOutbound == !tags[tag].isInbound
        && OfKind(counter, tags[tag].isInbound, tag)
  }

  lemma CollectRecord(p: Poll, counter: Option<Counter>, value: int, tag: string)
    ensures RecordKept(p.tags, Collect(p, counter, value).tags, counter, tag)
  {
    hide PutEmail;
  }

  lemma KeptAsIs(tags: map<string, Traffic>, counter: Option<Counter>, tag: string)
    ensures RecordKept(tags, tags, counter, tag)
  {
  }

  predicate OfKind(counter: Option<Counter>, inbound: bool, tag: string) {
    counter.Some? && Label(counter.value) == tag && if inbound then counter.value.Inbound? else counter.value.Outbound?
  }

  lemma {:induction false} EmailRecords(last: Values, stats: seq<Stat>, email: string)
    requires email in Polled(last, stats).emails
    ensures Polled(last, stats).emails[email].email == email
  {
    hide Delta, Meant;
    if email in Polled(last, stats[..|stats| - 1]).emails {
      EmailRecords(last, stats[..|stats| - 1], email);
    }
  }

  // ----- What a poll reports for one counter and for one account -----

  function Gain(d: Option<int>): int {
    match d case None => 0 case Some(v) => v
  }

  function NameGain(last: Values, stats: seq<Stat>, name: string): int {
    if stats == [] then 0
    else
      var n := |stats| - 1;
      NameGain(last, stats[..n], name)
      + if stats[n].name == name then Gain(Delta(Polled(last, stats[..n]).last, stats[n])) else 0
  }

  /** What all counters of the account gained in the poll. */
  function AccountGain(last: Values, stats: seq<Stat>, a: Account): int {
    if stats == [] then 0
    else
      var n := |stats| - 1;
      AccountGain(last, stats[..n], a)
      + if BelongsTo(stats[n].name, a) then Gain(Delta(Polled(last, stats[..n]).last, stats[n])) else 0
  }

  predicate DistinctNames(stats: seq<Stat>) {
    forall i, j :: 0 <= i < j < |stats| ==> stats[i].name != stats[j].name
  }

  lemma {:induction false} ValueUntouched(last: Values, stats: seq<Stat>, name: string)
    requires forall i :: 0 <= i < |stats| ==> stats[i].name != name
    ensures var v := Polled(last, stats).last; (name in v <==> name in last) && (name in v ==> v[name] == last[name])
  {
    hide Collect, Meant, Delta;
    CollectKeepsValues(last, stats);
    if stats != [] {
      ValueUntouched(last, stats[..|stats| - 1], name);
    }
  }

  predicate Gains(last: Values, s: Stat, a: Account) {
    BelongsTo(s.name, a) && Gain(Delta(last, s)) > 0
  }

  /** The pair of counters of one account that report in the same poll, the earlier one a gain. */
  predicate ShadowedBy(last: Values, stats: seq<Stat>, a: Account, i: int, j: int) {
    0 <= i < j < |stats| && Gains(last, stats[i], a) && BelongsTo(stats[j].name, a) && Delta(last, stats[j]).Some?
  }

  ghost predicate Shadowed(last: Values, stats: seq<Stat>, a: Account) {
    exists i, j :: ShadowedBy(last, stats, a, i, j)
  }

  predicate SomeGain(last: Values, stats: seq<Stat>, a: Account) {
    exists i :: 0 <= i < |stats| && Gains(last, stats[i], a)
  }

  lemma AmountStep(last: Values, stats: seq<Stat>, a: Account)
    requires stats != [] && DistinctNames(stats) && Billed(a)
    ensures var n := |stats| - 1;
            && Amount(Polled(last, stats), a)
               == (if BelongsTo(stats[n].name, a) && Delta(last, stats[n]).Some? then Delta(last, stats[n]).value
                   else Amount(Polled(last, stats[..n]), a))
            && AccountGain(last, stats, a)
               == AccountGain(last, stats[..n], a)
                  + (if BelongsTo(stats[n].name, a) then Gain(Delta(last, stats[n])) else 0)
            && Gain(Delta(last, stats[n])) >= 0
  {
    hide Collect, Amount, Meant;
    var n := |stats| - 1;
    var p, s := Polled(last, stats[..n]), stats[n];
    ValueUntouched(last, stats[..n], s.name);
    CollectSets(p, Meant(s.name), Gain(Delta(last, s)), a);
    CollectSets(p.(last := p.last[s.name := s.value]), Meant(s.name), Gain(Delta(last, s)), a);
  }

  lemma SomeGainStep(last: Values, stats: seq<Stat>, a: Account)
    requires stats != []
    ensures var n := |stats| - 1;
            SomeGain(last, stats, a) <==> SomeGain(last, stats[..n], a) || Gains(last, stats[n], a)
  {
    hide Gains;
    var n := |stats| - 1;
    if i :| 0 <= i < n && Gains(last, stats[..n][i], a) {
      assert Gains(last, stats[i], a);
    }
  }

  lemma ShadowedStep(last: Values, stats: seq<Stat>, a: Account)
    requires stats != []
    ensures var n := |stats| - 1;
            Shadowed(last, stats, a)
            <==> Shadowed(last, stats[..n], a)
                 || (BelongsTo(stats[n].name, a) && Delta(last, stats[n]).Some? && SomeGain(last, stats[..n], a))
  {
    hide BelongsTo, Delta, Gains;
    var n := |stats| - 1;
    var front := stats[..n];
    if i, j :| ShadowedBy(last, front, a, i, j) {
      assert ShadowedBy(last, stats, a, i, j);
    }
    if i, j :| ShadowedBy(last, stats, a, i, j) {
      if j < n {
        assert ShadowedBy(last, front, a, i, j);
      } else {
        assert Gains(last, front[i], a);
      }
    }
    if BelongsTo(stats[n].name, a) && Delta(last, stats[n]).Some? {
      if i :| 0 <= i < n && Gains(last, front[i], a) {
        assert ShadowedBy(last, stats, a, i, n);
      }
    }
  }

  lemma ShadowedGains(last: Values, stats: seq<Stat>, a: Account)
    ensures Shadowed(last, stats, a) ==> SomeGain(last, stats, a)
  {
    if Shadowed(last, stats, a) {
      var i, j :| ShadowedBy(last, stats, a, i, j);
      assert Gains(last, stats[i], a);
    }
  }

  /**
   An account is credited with exactly what the counters read as its own gained in the poll, unless two of them, such
   as an inbound and an outbound of one tag, both report, the earlier one a gain: the later value is then written over
   it.
   */
  lemma {:induction false} AmountConserved(last: Values, stats: seq<Stat>, a: Account)
    requires DistinctNames(stats) && Billed(a)
    ensures Amount(Polled(last, stats), a) == AccountGain(last, stats, a) <==> !Shadowed(last, stats, a)
    ensures Amount(Polled(last, stats), a) <= AccountGain(last, stats, a)
    ensures AccountGain(last, stats, a) >= 0
    ensures AccountGain(last, stats, a) > 0 <==> SomeGain(last, stats, a)
  {
    hide Delta, Shadowed, SomeGain, Amount, AccountGain;
    if stats == [] {
      NothingPolled(last, a);
    } else {
      var n := |stats| - 1;
      AmountConserved(last, stats[..n], a);
      AmountStep(last, stats, a);
      SomeGainStep(last, stats, a);
      ShadowedStep(last, stats, a);
      ShadowedGains(last, stats[..n], a);
    }
  }

  lemma NothingPolled(last: Values, a: Account)
    ensures Amount(Polled(last, []), a) == 0 == AccountGain(last, [], a)
    ensures !Shadowed(last, [], a) && !SomeGain(last, [], a)
  {
  }

  /** An inbound and an outbound of one tag: five bytes up of the inbound vanish behind the idle outbound. */
  lemma SharedTagLosesTraffic()
    ensures var x, y := Format(Inbound("x", Uplink)), Format(Outbound("x", Uplink));
            var last, stats, a := map[x := 0, y := 0], [Stat(x, 5), Stat(y, 0)], TagOf("x", Uplink);
            Amount(Polled(last, stats), a) == 0 && AccountGain(last, stats, a) == 5
  {
    hide Polled, Format, Meant;
    var x, y := Format(Inbound("x", Uplink)), Format(Outbound("x", Uplink));
    var last, stats, a := map[x := 0, y := 0], [Stat(x, 5), Stat(y, 0)], TagOf("x", Uplink);
    ReadsBackExactly(Inbound("x", Uplink));
    ReadsBackExactly(Outbound("x", Uplink));
    if x == y {
      FormatInjective(Inbound("x", Uplink), Outbound("x", Uplink));
    }
    assert stats[..1] == [stats[0]] && stats[..1][..0] == [];
    NothingPolled(last, a);
    AmountStep(last, stats[..1], a);
    AmountStep(last, stats, a);
  }

  // ----- Many polls -----

  function ValuesAfter(polls: seq<seq<Stat>>): Values {
    if polls == [] then map[] else Polled(ValuesAfter(polls[..|polls| - 1]), polls[|polls| - 1]).last
  }

  /** All that is credited to an account, poll after poll. */
  function Credited(polls: seq<seq<Stat>>, a: Account): int {
    if polls == [] then 0
    else
      var n := |polls| - 1;
      Credited(polls[..n], a) + Amount(Polled(ValuesAfter(polls[..n]), polls[n]), a)
  }

  function Gained(polls: seq<seq<Stat>>, name: string): int {
    if polls == [] then 0
    else
      var n := |polls| - 1;
      Gained(polls[..n], name) + NameGain(ValuesAfter(polls[..n]), polls[n], name)
  }

  /** The values seen for a counter, in order. */
  function Observed(stats: seq<Stat>, name: string): seq<int> {
    if stats == [] then []
    else
      var n := |stats| - 1;
      Observed(stats[..n], name) + if stats[n].name == name then [stats[n].value] else []
  }

  function ObservedIn(polls: seq<seq<Stat>>, name: string): seq<int> {
    if polls == [] then [] else ObservedIn(polls[..|polls| - 1], name) + Observed(polls[|polls| - 1], name)
  }

  /** The increases between consecutive values; a decrease counts for nothing. */
  function Increases(seen: seq<int>): int {
    if |seen| < 2 then 0
    else
      var n := |seen| - 1;
      Increases(seen[..n]) + if seen[n] >= seen[n - 1] then seen[n] - seen[n - 1] else 0
  }

  /** The remembered value is the last one seen. */
  predicate Remembers(last: Values, name: string, seen: seq<int>) {
    (name in last <==> seen != []) && (name in last ==> last[name] == seen[|seen| - 1])
  }

  lemma {:induction false} PollIncreases(last: Values, stats: seq<Stat>, name: string, seen: seq<int>)
    requires Remembers(last, name, seen)
    ensures Remembers(Polled(last, stats).last, name, seen + Observed(stats, name))
    ensures Increases(seen + Observed(stats, name)) == Increases(seen) + NameGain(last, stats, name)
    decreases |stats|
  {
    hide Increases, Polled;
    CollectKeepsValues(last, stats);
    if stats == [] {
      assert seen + [] == seen;
    } else {
      var n := |stats| - 1;
      var front := seen + Observed(stats[..n], name);
      PollIncreases(last, stats[..n], name, seen);
      if stats[n].name == name {
        assert seen + Observed(stats, name) == front + [stats[n].value];
        IncreasesStep(front, stats[n].value);
      } else {
        assert seen + Observed(stats, name) == front;
      }
    }
  }

  lemma CollectKeepsValues(last: Values, stats: seq<Stat>)
    ensures Polled(last, stats).last
            == if stats == [] then last
               else Polled(last, stats[..|stats| - 1]).last[stats[|stats| - 1].name := stats[|stats| - 1].value]
  {
    hide PutTag, PutEmail, Delta, Meant;
  }

  lemma IncreasesStep(front: seq<int>, value: int)
    ensures Increases(front + [value])
            == Increases(front) + (if front != [] && value >= front[|front| - 1] then value - front[|front| - 1] else 0)
    ensures Increases([]) == 0
  {
    assert (front + [value])[..|front|] == front;
  }

  /** Over any polls, what is reported for a counter adds up to its increases between consecutive observations. */
  lemma {:induction false} GainedIsIncreases(polls: seq<seq<Stat>>, name: string)
    ensures Gained(polls, name) == Increases(ObservedIn(polls, name))
    ensures Remembers(ValuesAfter(polls), name, ObservedIn(polls, name))
    decreases |polls|
  {
    hide NameGain, Observed, Polled, Increases;
    if polls == [] {
      IncreasesStep([], 0);
    } else {
      var n := |polls| - 1;
      GainedIsIncreases(polls[..n], name);
      PollIncreases(ValuesAfter(polls[..n]), polls[n], name, ObservedIn(polls[..n], name));
    }
  }

  /** For a counter that never drops, that is the last value minus the first. */
  lemma {:induction false} Telescopes(seen: seq<int>)
    requires seen != [] && forall i :: 0 < i < |seen| ==> seen[i - 1] <= seen[i]
    ensures Increases(seen) == seen[|seen| - 1] - seen[0]
  {
    if |seen| > 1 {
      Telescopes(seen[..|seen| - 1]);
    }
  }

  /** An observation, and whether the core restarted, with its counters at zero, since the one before. */
  datatype Sample = Sample(restarted: bool, value: nat)

  function SampleValues(samples: seq<Sample>): (r: seq<int>)
    ensures |r| == |samples|
    ensures forall i :: 0 <= i < |r| ==> r[i] == samples[i].value
  {
    if samples == [] then [] else SampleValues(samples[..|samples| - 1]) + [samples[|samples| - 1].value]
  }

  /** What the core counted, at the least: the last observation of every run of it. */
  function CountedAtLeast(samples: seq<Sample>): int {
    if samples == [] then 0
    else
      var n := |samples| - 1;
      CountedAtLeast(samples[..n]) + samples[n].value - if n == 0 || samples[n].restarted then 0 else samples[n - 1].value
  }

  predicate SteadyBetweenRestarts(samples: seq<Sample>) {
    forall i :: 0 < i < |samples| && !samples[i].restarted ==> samples[i - 1].value <= samples[i].value
  }

  /** Across restarts, whether a poll notices them or not, never more is reported than the core counted. */
  lemma NeverExceedsCounted(polls: seq<seq<Stat>>, name: string, samples: seq<Sample>)
    requires ObservedIn(polls, name) == SampleValues(samples) && SteadyBetweenRestarts(samples)
    ensures Gained(polls, name) <= CountedAtLeast(samples)
  {
    GainedIsIncreases(polls, name);
    IncreasesCounted(samples);
  }

  lemma {:induction false} IncreasesCounted(samples: seq<Sample>)
    requires SteadyBetweenRestarts(samples)
    ensures Increases(SampleValues(samples)) <= CountedAtLeast(samples)
  {
    hide Increases;
    IncreasesStep([], 0);
    if samples != [] {
      var n := |samples| - 1;
      IncreasesCounted(samples[..n]);
      IncreasesStep(SampleValues(samples[..n]), samples[n].value);
    }
  }

  // ----- Sums over names -----

  ghost function SumOver(names: set<string>, f: string -> int): int {
    if names == {} then 0
    else
      var x :| x in names;
      f(x) + SumOver(names - {x}, f)
  }

  lemma {:induction false} SumOverStep(names: set<string>, f: string -> int, x: string)
    requires x in names
    ensures SumOver(names, f) == f(x) + SumOver(names - {x}, f)
    decreases names
  {
    var y :| y in names && SumOver(names, f) == f(y) + SumOver(names - {y}, f);
    if y != x {
      SumOverStep(names - {y}, f, x);
      SumOverStep(names - {x}, f, y);
      assert names - {y} - {x} == names - {x} - {y};
    }
  }

  lemma {:induction false} SumOverAdd(names: set<string>, f: string -> int, g: string -> int, h: string -> int)
    requires forall x :: x in names ==> h(x) == f(x) + g(x)
    ensures SumOver(names, h) == SumOver(names, f) + SumOver(names, g)
    decreases names
  {
    if x :| x in names {
      SumOverStep(names, f, x);
      SumOverStep(names, g, x);
      SumOverStep(names, h, x);
      SumOverAdd(names - {x}, f, g, h);
    }
  }

  lemma {:induction false} SumOverZero(names: set<string>, f: string -> int)
    requires forall x :: x in names ==> f(x) >= 0
    ensures SumOver(names, f) >= 0
    ensures SumOver(names, f) == 0 <==> forall x :: x in names ==> f(x) == 0
    decreases names
  {
    if x :| x in names {
      SumOverStep(names, f, x);
      SumOverZero(names - {x}, f);
    }
  }

  lemma {:induction false} SumOverSplit(names: set<string>, part: set<string>, f: string -> int)
    requires part <= names
    ensures SumOver(names, f) == SumOver(part, f) + SumOver(names - part, f)
    decreases part
  {
    if x :| x in part {
      SumOverStep(names, f, x);
      SumOverStep(part, f, x);
      SumOverSplit(names - {x}, part - {x}, f);
      assert names - {x} - (part - {x}) == names - part;
    } else {
      assert part == {} && names - part == names;
    }
  }

  // ----- Conservation over many polls -----

  predicate Belong(names: set<string>, a: Account) {
    forall n :: n in names ==> BelongsTo(n, a)
  }

  /** The set holds every name of the poll that is taken for a counter of the account. */
  predicate Covers(names: set<string>, stats: seq<Stat>, a: Account) {
    forall i :: 0 <= i < |stats| && BelongsTo(stats[i].name, a) ==> stats[i].name in names
  }

  /** What an account gains in a poll is what the counters whose names are taken for it gain. */
  lemma {:induction false} GainByNames(last: Values, stats: seq<Stat>, a: Account, names: set<string>)
    requires Belong(names, a) && Covers(names, stats, a)
    ensures AccountGain(last, stats, a) == SumOver(names, name => NameGain(last, stats, name))
    decreases |stats|
  {
    hide Delta, Polled, BelongsTo, SumOver;
    var f := name => NameGain(last, stats, name);
    if stats == [] {
      SumOverZero(names, f);
    } else {
      var n := |stats| - 1;
      var x, g := stats[n].name, Gain(Delta(Polled(last, stats[..n]).last, stats[n]));
      var before := name => NameGain(last, stats[..n], name);
      var here := name => if name == x then g else 0;
      GainByNames(last, stats[..n], a, names);
      SumOverAdd(names, before, here, f);
      OneName(names, x, g);
    }
  }

  lemma OneName(names: set<string>, x: string, g: int)
    ensures SumOver(names, name => if name == x then g else 0) == if x in names then g else 0
  {
    hide SumOver;
    var here := name => if name == x then g else 0;
    if x in names {
      SumOverStep(names, here, x);
    }
    SumOverZero(names - {x}, here);
    assert x !in names ==> names - {x} == names;
  }

  function AccountGained(polls: seq<seq<Stat>>, a: Account): int {
    if polls == [] then 0
    else
      var n := |polls| - 1;
      AccountGained(polls[..n], a) + AccountGain(ValuesAfter(polls[..n]), polls[n], a)
  }

  lemma {:induction false} GainedByNames(polls: seq<seq<Stat>>, a: Account, names: set<string>)
    requires Belong(names, a) && forall k :: 0 <= k < |polls| ==> Covers(names, polls[k], a)
    ensures AccountGained(polls, a) == SumOver(names, name => Gained(polls, name))
    decreases |polls|
  {
    hide Covers, Belong, NameGain, AccountGain, ValuesAfter, SumOver;
    var f := name => Gained(polls, name);
    if polls == [] {
      SumOverZero(names, f);
    } else {
      var n := |polls| - 1;
      GainedByNames(polls[..n], a, names);
      GainByNames(ValuesAfter(polls[..n]), polls[n], a, names);
      SumOverAdd(names, name => Gained(polls[..n], name), name => NameGain(ValuesAfter(polls[..n]), polls[n], name), f);
    }
  }

  function NamesOf(stats: seq<Stat>): set<string> {
    set i | 0 <= i < |stats| :: stats[i].name
  }

  function NamesIn(polls: seq<seq<Stat>>): set<string> {
    if polls == [] then {} else NamesIn(polls[..|polls| - 1]) + NamesOf(polls[|polls| - 1])
  }

  /** The names in the polls that are taken for a counter of the account. */
  function TakenNames(polls: seq<seq<Stat>>, a: Account): set<string> {
    set n | n in NamesIn(polls) && BelongsTo(n, a)
  }

  ghost function IncreasesOver(polls: seq<seq<Stat>>, names: set<string>): int {
    SumOver(names, name => Increases(ObservedIn(polls, name)))
  }

  lemma {:induction false} NamesCovered(polls: seq<seq<Stat>>, k: nat, i: nat)
    requires k < |polls| && i < |polls[k]|
    ensures polls[k][i].name in NamesIn(polls)
    decreases |polls|
  {
    if k < |polls| - 1 {
      NamesCovered(polls[..|polls| - 1], k, i);
    }
  }

  /** Nothing is observed of a name that does not occur. */
  lemma {:induction false} NotObserved(polls: seq<seq<Stat>>, name: string)
    requires name !in NamesIn(polls)
    ensures ObservedIn(polls, name) == []
    decreases |polls|
  {
    if polls != [] {
      NotObserved(polls[..|polls| - 1], name);
      NotObservedIn(polls[|polls| - 1], name);
    }
  }

  lemma {:induction false} NotObservedIn(stats: seq<Stat>, name: string)
    requires name !in NamesOf(stats)
    ensures Observed(stats, name) == []
    decreases |stats|
  {
    if stats != [] {
      var n := |stats| - 1;
      assert stats[n].name in NamesOf(stats);
      forall m | m in NamesOf(stats[..n]) ensures m in NamesOf(stats) {
        var i :| 0 <= i < n && stats[..n][i].name == m;
        assert stats[i].name == m;
      }
      NotObservedIn(stats[..n], name);
    }
  }

  lemma TakenIncreases(polls: seq<seq<Stat>>, a: Account)
    ensures AccountGained(polls, a) == IncreasesOver(polls, TakenNames(polls, a))
  {
    hide AccountGained, SumOver, Gained, Increases, ObservedIn, BelongsTo, NamesIn;
    var names := TakenNames(polls, a);
    forall k | 0 <= k < |polls| ensures Covers(names, polls[k], a) {
      forall i | 0 <= i < |polls[k]| && BelongsTo(polls[k][i].name, a) ensures polls[k][i].name in names {
        NamesCovered(polls, k, i);
      }
    }
    GainedByNames(polls, a, names);
    var f, zero := name => Gained(polls, name), (name: string) => 0;
    forall name ensures Gained(polls, name) == Increases(ObservedIn(polls, name)) {
      GainedIsIncreases(polls, name);
    }
    SumOverZero(names, zero);
    SumOverAdd(names, f, zero, name => Increases(ObservedIn(polls, name)));
  }

  ghost predicate EverShadowed(polls: seq<seq<Stat>>, a: Account) {
    exists k :: 0 <= k < |polls| && Shadowed(ValuesAfter(polls[..k]), polls[k], a)
  }

  /**
   Over any polls, an account is credited with all that the counters whose names are taken for it gained, and with less
   exactly when in some poll two of them report, the earlier one a gain.
   */
  lemma CreditedExactly(polls: seq<seq<Stat>>, a: Account)
    requires Billed(a) && forall k :: 0 <= k < |polls| ==> DistinctNames(polls[k])
    ensures Credited(polls, a) <= IncreasesOver(polls, TakenNames(polls, a))
    ensures Credited(polls, a) == IncreasesOver(polls, TakenNames(polls, a)) <==> !EverShadowed(polls, a)
  {
    hide DistinctNames, Credited, AccountGained, TakenNames, IncreasesOver, EverShadowed;
    TakenIncreases(polls, a);
    CreditedGained(polls, a);
  }

  lemma {:induction false} CreditedGained(polls: seq<seq<Stat>>, a: Account)
    requires Billed(a) && forall k :: 0 <= k < |polls| ==> DistinctNames(polls[k])
    ensures Credited(polls, a) <= AccountGained(polls, a)
    ensures Credited(polls, a) == AccountGained(polls, a) <==> !EverShadowed(polls, a)
    decreases |polls|
  {
    hide DistinctNames, Amount, Polled, AccountGain, Shadowed, EverShadowed;
    if polls == [] {
      EverShadowedStep(polls, a);
    } else {
      var n := |polls| - 1;
      CreditedGained(polls[..n], a);
      AmountConserved(ValuesAfter(polls[..n]), polls[n], a);
      EverShadowedStep(polls, a);
    }
  }

  lemma EverShadowedStep(polls: seq<seq<Stat>>, a: Account)
    ensures EverShadowed(polls, a)
            <==> polls != []
                 && (EverShadowed(polls[..|polls| - 1], a)
                     || Shadowed(ValuesAfter(polls[..|polls| - 1]), polls[|polls| - 1], a))
  {
    hide Shadowed, ValuesAfter;
    if polls != [] {
      var n := |polls| - 1;
      var front := polls[..n];
      assert forall k :: 0 <= k < n ==> front[..k] == polls[..k] && front[k] == polls[k];
    }
  }

  // ----- Own counters and foreign ones -----

  function Word(a: Account): string {
    match a case TagOf(tag, _) => tag case EmailOf(email, _) => email
  }

  /** The names of the account's own counters. */
  function OwnNames(a: Account): set<string> {
    match a
    case TagOf(tag, dir) => {Format(Inbound(tag, dir)), Format(Outbound(tag, dir))}
    case EmailOf(email, dir) => {Format(User(email, dir))}
  }

  /** The names of other counters that are taken for one of the account. */
  function ForeignNames(polls: seq<seq<Stat>>, a: Account): set<string> {
    TakenNames(polls, a) - OwnNames(a)
  }

  lemma OwnTaken(name: string, a: Account)
    ensures BelongsTo(name, a) ==> Clean(Word(a))
    ensures Clean(Word(a)) && name in OwnNames(a) ==> BelongsTo(name, a)
  {
    hide Meant, Format, Clean;
    MeantIsClean(name);
    match a
    case TagOf(tag, dir) =>
      ReadsBackExactly(Inbound(tag, dir));
      ReadsBackExactly(Outbound(tag, dir));
    case EmailOf(email, dir) =>
      ReadsBackExactly(User(email, dir));
  }

  lemma {:induction false} IncreasesNotNegative(seen: seq<int>)
    ensures Increases(seen) >= 0
    decreases |seen|
  {
    if |seen| >= 2 {
      IncreasesNotNegative(seen[..|seen| - 1]);
    }
  }

  /** A readable account is taken for all its own counters and the foreign ones; any other for none. */
  lemma TakenSplits(polls: seq<seq<Stat>>, a: Account)
    ensures IncreasesOver(polls, TakenNames(polls, a))
            == if Clean(Word(a)) then IncreasesOver(polls, OwnNames(a)) + IncreasesOver(polls, ForeignNames(polls, a)) else 0
  {
    hide SumOver, Increases, ObservedIn, BelongsTo, NamesIn, OwnNames, Clean;
    var taken, own, f := TakenNames(polls, a), OwnNames(a), name => Increases(ObservedIn(polls, name));
    forall name
      ensures (BelongsTo(name, a) ==> Clean(Word(a))) && (Clean(Word(a)) && name in own ==> BelongsTo(name, a))
    {
      OwnTaken(name, a);
    }
    if Clean(Word(a)) {
      SumOverSplit(taken, taken * own, f);
      SumOverSplit(own, taken * own, f);
      assert taken - taken * own == ForeignNames(polls, a);
      forall name | name in own - taken * own ensures f(name) == 0 {
        NotObserved(polls, name);
        NothingIncreases();
      }
      SumOverZero(own - taken * own, f);
    } else {
      SumOverZero(taken, f);
    }
  }

  lemma NothingIncreases()
    ensures Increases([]) == 0
  {
  }

  /**
   Where nothing is overwritten: a readable account is credited with what its own counters gained and with what foreign
   counters taken for it gained, any other with nothing. So a readable account is conserved exactly when the foreign
   counters gained nothing.
   */
  lemma TotalsConserved(polls: seq<seq<Stat>>, a: Account)
    requires Billed(a) && (forall k :: 0 <= k < |polls| ==> DistinctNames(polls[k])) && !EverShadowed(polls, a)
    ensures Credited(polls, a)
            == if Clean(Word(a)) then IncreasesOver(polls, OwnNames(a)) + IncreasesOver(polls, ForeignNames(polls, a)) else 0
    ensures Credited(polls, a) == IncreasesOver(polls, OwnNames(a))
            <==> NothingGained(polls, if Clean(Word(a)) then ForeignNames(polls, a) else OwnNames(a))
  {
    hide DistinctNames, Credited, TakenNames, ForeignNames, OwnNames, EverShadowed, IncreasesOver, NothingGained, Clean;
    CreditedExactly(polls, a);
    TakenSplits(polls, a);
    NothingGainedIsZero(polls, ForeignNames(polls, a));
    NothingGainedIsZero(polls, OwnNames(a));
  }

  ghost predicate NothingGained(polls: seq<seq<Stat>>, names: set<string>) {
    forall n :: n in names ==> Increases(ObservedIn(polls, n)) == 0
  }

  lemma NothingGainedIsZero(polls: seq<seq<Stat>>, names: set<string>)
    ensures IncreasesOver(polls, names) == 0 <==> NothingGained(polls, names)
  {
    hide SumOver, Increases, ObservedIn;
    var f := name => Increases(ObservedIn(polls, name));
    forall name ensures f(name) >= 0 {
      IncreasesNotNegative(ObservedIn(polls, name));
    }
    SumOverZero(names, f);
  }

  /** A foreign counter is one whose own tag or email misleads. */
  lemma ForeignMisleads(polls: seq<seq<Stat>>, a: Account, c: Counter)
    requires Format(c) in ForeignNames(polls, a)
    ensures Misleading(Label(c))
  {
    hide Meant, Format, Misleading;
    MisreadExactly(c);
  }

  // ----- Polls without misleading labels -----

  /** Every name is that of a counter with a label in which no other can be read. */
  ghost predicate HonestNames(stats: seq<Stat>) {
    forall i :: 0 <= i < |stats| ==> HonestName(stats[i].name)
  }

  ghost predicate HonestName(name: string) {
    exists c :: name == Format(c) && !Misleading(Label(c))
  }

  predicate ShareTag(c: Option<Counter>, d: Option<Counter>) {
    c.Some? && d.Some? && c.value.Inbound? && d.value.Outbound? && c.value.tag == d.value.tag
  }

  predicate NoSharedTag(stats: seq<Stat>) {
    forall i, j :: 0 <= i < |stats| && 0 <= j < |stats| ==> !ShareTag(Meant(stats[i].name), Meant(stats[j].name))
  }

  lemma HonestCanonical(stats: seq<Stat>, i: nat)
    requires HonestNames(stats) && i < |stats|
    ensures Canonical(stats[i].name)
  {
    hide Canonical, Format, Misleading;
    assert HonestName(stats[i].name);
    var c :| stats[i].name == Format(c) && !Misleading(Label(c));
    HonestIsCanonical(c);
  }

  lemma DisjointNotShadowed(last: Values, stats: seq<Stat>, a: Account)
    requires DistinctNames(stats) && NoSharedTag(stats) && HonestNames(stats)
    ensures !Shadowed(last, stats, a)
  {
    hide Meant, Format, Delta, HonestNames;
    forall i | 0 <= i < |stats| ensures Canonical(stats[i].name) {
      HonestCanonical(stats, i);
    }
  }

  /**
   With honest labels and no tag shared by an inbound and an outbound, every account is credited with all its counters
   gained, provided its tag or email is not empty and holds no arrow; otherwise with nothing.
   */
  lemma HonestTotals(polls: seq<seq<Stat>>, a: Account)
    requires forall k :: 0 <= k < |polls| ==> DistinctNames(polls[k]) && NoSharedTag(polls[k]) && HonestNames(polls[k])
    requires Billed(a)
    ensures Credited(polls, a) == if Clean(Word(a)) then IncreasesOver(polls, OwnNames(a)) else 0
  {
    hide DistinctNames, NoSharedTag, HonestNames, Credited, TakenNames, ForeignNames, OwnNames, Shadowed, SumOver, Clean;
    forall k | 0 <= k < |polls| ensures !Shadowed(ValuesAfter(polls[..k]), polls[k], a) {
      DisjointNotShadowed(ValuesAfter(polls[..k]), polls[k], a);
    }
    TotalsConserved(polls, a);
    NothingForeign(polls, a);
    NoSum(name => Increases(ObservedIn(polls, name)));
  }

  lemma NoSum(f: string -> int)
    ensures SumOver({}, f) == 0
  {
  }

  lemma NothingForeign(polls: seq<seq<Stat>>, a: Account)
    requires forall k :: 0 <= k < |polls| ==> HonestNames(polls[k])
    ensures ForeignNames(polls, a) == {}
  {
    hide HonestNames, Meant, Format, NamesIn;
    forall name | name in TakenNames(polls, a) ensures name in OwnNames(a) {
      var k, i := Occurs(polls, name);
      HonestCanonical(polls[k], i);
    }
  }

  lemma {:induction false} Occurs(polls: seq<seq<Stat>>, name: string) returns (k: nat, i: nat)
    requires name in NamesIn(polls)
    ensures k < |polls| && i < |polls[k]| && polls[k][i].name == name
    decreases |polls|
  {
    var n := |polls| - 1;
    if name in NamesOf(polls[n]) {
      k := n;
      i :| 0 <= i < |polls[n]| && polls[n][i].name == name;
    } else {
      k, i := Occurs(polls[..n], name);
    }
  }

  /** The five bytes of the client "inbound>>>x" are charged to the inbound x, of which there is no counter. */
  lemma ClientChargedToInbound()
    ensures var n := Format(User("inbound>>>x", Uplink));
            var polls := [[Stat(n, 0)], [Stat(n, 5)]];
            var tag, client := TagOf("x", Uplink), EmailOf("inbound>>>x", Uplink);
            && (forall k :: 0 <= k < |polls| ==> DistinctNames(polls[k]) && NoSharedTag(polls[k]))
            && Credited(polls, tag) == 5 && IncreasesOver(polls, OwnNames(tag)) == 0
            && Credited(polls, client) == 0 && IncreasesOver(polls, OwnNames(client)) == 5
  {
    hide Format, Meant, IncreasesOver, Credited, TakenNames;
    var n := Format(User("inbound>>>x", Uplink));
    var polls := [[Stat(n, 0)], [Stat(n, 5)]];
    var tag, client := TagOf("x", Uplink), EmailOf("inbound>>>x", Uplink);
    assert Head(Inbound("x", Uplink)) + "x" == "inbound>>>x";
    UserTakenForHandler(Inbound("x", Uplink));
    if c: Counter :| c in {Inbound("x", Uplink), Outbound("x", Uplink)} && Format(c) == n {
      FormatInjective(c, User("inbound>>>x", Uplink));
    }
    OneCounter(n, tag);
    OneCounter(n, client);
    TwoPolls(n, OwnNames(tag));
    TwoPolls(n, OwnNames(client));
  }

  lemma OneCounter(n: string, a: Account)
    requires Billed(a)
    ensures Credited([[Stat(n, 0)], [Stat(n, 5)]], a) == if BelongsTo(n, a) then 5 else 0
  {
    hide Meant, IncreasesOver, Credited, ObservedIn, Delta, Polled, ValuesAfter;
    var polls := [[Stat(n, 0)], [Stat(n, 5)]];
    CreditedExactly(polls, a);
    TwoPolls(n, TakenNames(polls, a));
    NamesCovered(polls, 0, 0);
  }

  lemma TwoPolls(n: string, names: set<string>)
    ensures IncreasesOver([[Stat(n, 0)], [Stat(n, 5)]], names) == if n in names then 5 else 0
  {
    hide SumOver, ObservedIn, Increases;
    var polls := [[Stat(n, 0)], [Stat(n, 5)]];
    var f := name => Increases(ObservedIn(polls, name));
    forall name ensures f(name) == if name == n then 5 else 0 {
      SeenInTwo(n, name);
    }
    OneName(names, n, 5);
    SumOverZero(names, (name: string) => 0);
    SumOverAdd(names, name => if name == n then 5 else 0, (name: string) => 0, f);
  }

  lemma SeenInTwo(n: string, name: string)
    ensures Increases(ObservedIn([[Stat(n, 0)], [Stat(n, 5)]], name)) == if name == n then 5 else 0
  {
    hide Increases;
    var polls := [[Stat(n, 0)], [Stat(n, 5)]];
    assert polls[..1] == [[Stat(n, 0)]] && polls[..1][..0] == [];
    OneSeen(Stat(n, 0), name);
    OneSeen(Stat(n, 5), name);
    assert ObservedIn(polls[..1], name) == if name == n then [0] else [];
    assert ObservedIn(polls, name) == if name == n then [0] + [5] else [];
    IncreasesStep([0], 5);
    IncreasesStep([], 0);
  }

  lemma OneSeen(s: Stat, name: string)
    ensures Observed([s], name) == if name == s.name then [s.value] else []
  {
    assert [s][..0] == [];
  }

  // ----- The client -----

  method ProcessTraffic(inbound: bool, tag: string, dir: Dir, value: int, tags: map<string, Traffic>)
    returns (tags': map<string, Traffic>)
    ensures tags' == PutTag(tags, inbound, tag, dir, value)
  {
    if tag == "api" {
      return tags;
    }
    var traffic := Traffic(inbound, !inbound, tag, 0, 0);
    if tag in tags {
      traffic := tags[tag];
    }
    if dir == Downlink {
      traffic := traffic.(down := value);
    } else {
      traffic := traffic.(up := value);
    }
    return tags[tag := traffic];
  }

  method ProcessClientTraffic(email: string, dir: Dir, value: int, emails: map<string, ClientTraffic>)
    returns (emails': map<string, ClientTraffic>)
    ensures emails' == PutEmail(emails, email, dir, value)
  {
    var traffic := ClientTraffic(email, 0, 0);
    if email in emails {
      traffic := emails[email];
    }
    if dir == Downlink {
      traffic := traffic.(down := value);
    } else {
      traffic := traffic.(up := value);
    }
    return emails[email := traffic];
  }

  class XrayAPI {
    var statsLastValues: Values

    constructor ()
      ensures statsLastValues == map[]
    {
      statsLastValues := map[];
    }

    /** resp is the core's answer, or nothing when the query failed. */
    method GetTraffic(resp: Option<seq<Stat>>)
      returns (ok: bool, tags: map<string, Traffic>, emails: map<string, ClientTraffic>)
      modifies this
      ensures ok <==> resp.Some?
      ensures !ok ==> statsLastValues == old(statsLastValues)
      ensures ok ==> Poll(statsLastValues, tags, emails) == Polled(old(statsLastValues), resp.value)
    {
      hide PutTag, PutEmail, FindHandler, FindUser;
      tags, emails := map[], map[];
      if resp == None {
        return false, tags, emails;
      }
      var stats := resp.value;
      for i := 0 to |stats|
        invariant Poll(statsLastValues, tags, emails) == Polled(old(statsLastValues), stats[..i])
      {
        var stat := stats[i];
        assert stats[..i + 1][..i] == stats[..i];
        var seen := stat.name in statsLastValues;
        var lastValue := if seen then statsLastValues[stat.name] else 0;
        statsLastValues := statsLastValues[stat.name := stat.value];
        if !seen || stat.value < lastValue {
          continue;
        }
        var value := stat.value - lastValue;
        var matches := FindHandler(stat.name);
        if matches.Some? {
          ghost var place := HandlerFound(stat.name);
          tags := ProcessTraffic(matches.value.Inbound?, matches.value.tag, matches.value.dir, value, tags);
        } else {
          matches := FindUser(stat.name);
          if matches.Some? {
            ghost var place := UserFound(stat.name);
            emails := ProcessClientTraffic(matches.value.email, matches.value.dir, value, emails);
          }
        }
      }
      assert stats[..|stats|] == stats;
      ok := true;
    }
  }

  /** Five bytes down of an inbound, seven up of a client: the records of one poll. */
  lemma OnePoll()
    ensures var i, u := "inbound>>>x>>>traffic>>>downlink", "user>>>x>>>traffic>>>uplink";
            var p := Polled(map[i := 1, u := 2], [Stat(i, 6), Stat(u, 9)]);
            && p.tags == map["x" := Traffic(true, false, "x", 0, 5)]
            && p.emails == map["x" := ClientTraffic("x", 7, 0)]
  {
    var i, u := "inbound>>>x>>>traffic>>>downlink", "user>>>x>>>traffic>>>uplink";
    NamesRead();
    assert i[0] != u[0];
    TwoStats(i, u);
  }

  lemma TwoStats(i: string, u: string)
    requires i != u && Meant(i) == Some(Inbound("x", Downlink)) && Meant(u) == Some(User("x", Uplink))
    ensures var p := Polled(map[i := 1, u := 2], [Stat(i, 6), Stat(u, 9)]);
            && p.tags == map["x" := Traffic(true, false, "x", 0, 5)]
            && p.emails == map["x" := ClientTraffic("x", 7, 0)]
  {
    hide Meant;
    var stats := [Stat(i, 6), Stat(u, 9)];
    assert stats[..1] == [Stat(i, 6)] && stats[..1][..0] == [];
    var last: Values := map[i := 1, u := 2];
    assert Polled(last, []) == Poll(last, map[], map[]);
    assert Polled(last, stats[..1]) == Step(Polled(last, []), Stat(i, 6));
    assert Polled(last, stats) == Step(Polled(last, stats[..1]), Stat(u, 9));
  }
}
