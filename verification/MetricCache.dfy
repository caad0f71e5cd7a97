/**
  The metric cache as a system of interleaved steps.  Streams replace and remove groups
  under the collector's lock, handler goroutines append to the group of their message at any
  time, and a scrape holds the lock while it reads the groups one by one.  A run is any
  sequence of enabled steps.
 */
module MetricCache {
  import opened Wire

  /** The cache key: a node and a YANG path. */
  datatype Source = Source(node: seq<byte>, path: seq<byte>)

  /** A Prometheus metric: the message it was computed from, and the bits of its float64. */
  datatype Metric = Metric(message: nat, value: uint64)

  /** A `DeviceGroupedMetrics`: allocated by one stream for one message. */
  datatype Group = Group(source: Source, message: nat, owner: nat, metrics: seq<Metric>)

  /** Where a stream is in its receive loop, and its variable `telemetrySource`. */
  datatype Phase = Waiting | Received(message: nat) | Installed(message: nat, group: nat)

  datatype Stream = Stream(source: Source, phase: Phase)

  /** A goroutine running a record function on a message and a group. */
  datatype Handler = Handler(message: nat, group: nat)

  /** A scrape: the cache and the groups when it took the lock, the sources it has still to
      read, and what it read. */
  datatype Scrape = Scrape(began: nat, cache: map<Source, nat>, groups: seq<Group>, pending: set<Source>,
                           read: map<Source, seq<Metric>>)

  datatype Event = Install(source: Source, group: nat) | Remove(source: Source)

  datatype State = State(
    time: nat,
    cache: map<Source, nat>,
    groups: seq<Group>,
    messages: seq<Source>,
    streams: map<nat, Stream>,
    handlers: set<Handler>,
    holder: Option<Scrape>,
    scrapes: seq<Scrape>,
    log: seq<Event>)

  const NO_SOURCE := Source([], [])

  const INITIAL := State(0, map[], [], [], map[], {}, None, [], [])

  // ---- Steps -----------------------------------------------------------------------------------

  datatype Step =
    | Open(stream: nat)
    | Receive(stream: nat, source: Source)
    | Stop(stream: nat)
    | Replace(stream: nat)
    | Dispatch(stream: nat, supported: bool)
    | Disconnect(stream: nat)
    | Append(handler: Handler, value: uint64)
    | BeginScrape
    | ReadGroup(source: Source)
    | EndScrape

  predicate Enabled(s: State, step: Step) {
    match step
    case Open(i) => i !in s.streams && forall g | 0 <= g < |s.groups| :: s.groups[g].owner != i
    case Receive(i, _) => i in s.streams && s.streams[i].phase.Waiting?
    case Stop(i) => i in s.streams && s.streams[i].phase.Waiting?
    case Replace(i) => i in s.streams && s.streams[i].phase.Received? && s.holder.None?
    case Dispatch(i, _) => i in s.streams && s.streams[i].phase.Installed?
    case Disconnect(i) => i in s.streams && s.streams[i].phase.Waiting? && s.holder.None?
    case Append(h, _) => h in s.handlers && h.group < |s.groups|
    case BeginScrape => s.holder.None?
    case ReadGroup(source) =>
      s.holder.Some? && source in s.holder.value.pending && source in s.cache && s.cache[source] < |s.groups|
    case EndScrape => s.holder.Some? && s.holder.value.pending == {}
  }

  /** The effect of the locked region of `MdtDialout` on cache and groups: an existing entry is
      deleted, and a new empty group takes its place. */
  function InstallIn(cache: map<Source, nat>, groups: seq<Group>, g: Group): (map<Source, nat>, seq<Group>) {
    ((cache - {g.source})[g.source := |groups|], groups + [g])
  }

  function AppendTo(groups: seq<Group>, at: nat, m: Metric): seq<Group>
    requires at < |groups|
  {
    groups[at := groups[at].(metrics := groups[at].metrics + [m])]
  }

  function Do(s: State, step: Step): State
    requires Enabled(s, step)
  {
    match step
    case Open(i) => s.(streams := s.streams[i := Stream(NO_SOURCE, Waiting)])
    case Receive(i, source) =>
      // the message decodes; the stream variable is set before the lock is taken
      s.(messages := s.messages + [source], streams := s.streams[i := Stream(source, Received(|s.messages|))])
    case Stop(i) =>
      // end of stream, or a message that does not decode: the cache is left as it is
      s.(streams := s.streams - {i})
    case Replace(i) =>
      var st := s.streams[i];
      var (cache, groups) := InstallIn(s.cache, s.groups, Group(st.source, st.phase.message, i, []));
      s.(cache := cache, groups := groups, log := s.log + [Install(st.source, |s.groups|)],
         streams := s.streams[i := st.(phase := Installed(st.phase.message, |s.groups|))])
    case Dispatch(i, supported) =>
      var st := s.streams[i];
      if supported then
        s.(handlers := s.handlers + {Handler(st.phase.message, st.phase.group)},
           streams := s.streams[i := st.(phase := Waiting)])
      else s.(streams := s.streams - {i})
    case Disconnect(i) =>
      s.(cache := s.cache - {s.streams[i].source}, log := s.log + [Remove(s.streams[i].source)],
         streams := s.streams - {i})
    case Append(h, value) => s.(groups := AppendTo(s.groups, h.group, Metric(h.message, value)))
    case BeginScrape => s.(holder := Some(Scrape(s.time, s.cache, s.groups, s.cache.Keys, map[])))
    case ReadGroup(source) =>
      var sc := s.holder.value;
      s.(holder := Some(sc.(pending := sc.pending - {source},
                            read := sc.read[source := s.groups[s.cache[source]].metrics])))
    case EndScrape => s.(holder := None, scrapes := s.scrapes + [s.holder.value])
  }

  /** One step of a run, on a clock that counts steps. */
  function Next(s: State, step: Step): State
    requires Enabled(s, step)
  {
    Do(s, step).(time := s.time + 1)
  }

  /** The state after a run, or `None` if some step was not enabled. */
  function Run(s: State, steps: seq<Step>): Option<State>
    decreases |steps|
  {
    if steps == [] then Some(s)
    else if Enabled(s, steps[0]) then Run(Next(s, steps[0]), steps[1..])
    else None
  }

  // ---- Invariants ---------------------------------------------------------------------------------

  /** Which group the log of installs and removals leaves under a source. */
  function Live(log: seq<Event>, source: Source): Option<nat> {
    if log == [] then None
    else
      var e := log[|log| - 1];
      if e.source != source then Live(log[..|log| - 1], source)
      else if e.Install? then Some(e.group)
      else None
  }

  /** Each cached group is the one its source was last given, and not removed since. */
  ghost predicate CacheIsLatest(s: State) {
    forall source :: Live(s.log, source) == if source in s.cache then Some(s.cache[source]) else None
  }

  predicate CacheValid(s: State) {
    && (forall source | source in s.cache :: s.cache[source] < |s.groups| && s.groups[s.cache[source]].source == source)
  }

  /** Every group belongs to one message, every message to at most one group, and all metrics
      of a group come from its message. */
  predicate Provenance(s: State) {
    && (forall g | 0 <= g < |s.groups| ::
          s.groups[g].message < |s.messages| && s.messages[s.groups[g].message] == s.groups[g].source)
    && (forall g, h | 0 <= g < h < |s.groups| :: s.groups[g].message != s.groups[h].message)
    && (forall g, k | 0 <= g < |s.groups| && 0 <= k < |s.groups[g].metrics| ::
          s.groups[g].metrics[k].message == s.groups[g].message)
    && (forall h | h in s.handlers :: h.group < |s.groups| && s.groups[h.group].message == h.message)
  }

  predicate StreamsValid(s: State) {
    && (forall i | i in s.streams && s.streams[i].phase.Received? ::
          var m := s.streams[i].phase.message;
          m < |s.messages| && s.messages[m] == s.streams[i].source
          && (forall g | 0 <= g < |s.groups| :: s.groups[g].message != m))
    && (forall i, j | i in s.streams && j in s.streams && i != j
          && s.streams[i].phase.Received? && s.streams[j].phase.Received? ::
          s.streams[i].phase.message != s.streams[j].phase.message)
    && (forall i | i in s.streams && s.streams[i].phase.Installed? ::
          var p := s.streams[i].phase;
          p.group < |s.groups| && s.groups[p.group].message == p.message)
  }

  /** `later` has all groups of `earlier`, each with at least its metrics. */
  predicate Grown(earlier: seq<Group>, later: seq<Group>) {
    && |earlier| <= |later|
    && (forall g | 0 <= g < |earlier| ::
          earlier[g].metrics <= later[g].metrics && later[g] == earlier[g].(metrics := later[g].metrics))
  }

  /** What a scrape has read so far: for each source, the metrics of the group cached when the
      lock was taken, at some moment between then and now. */
  predicate ReadsBetween(sc: Scrape, now: seq<Group>) {
    && Grown(sc.groups, now)
    && sc.read.Keys <= sc.cache.Keys
    && (forall source | source in sc.read ::
          sc.cache[source] < |sc.groups| && sc.groups[sc.cache[source]].source == source
          && sc.groups[sc.cache[source]].metrics <= sc.read[source] <= now[sc.cache[source]].metrics)
  }

  predicate ScrapesValid(s: State) {
    && (s.holder.Some? ==>
          var sc := s.holder.value;
          (forall source | source in sc.cache :: sc.cache[source] < |sc.groups| && sc.groups[sc.cache[source]].source == source)
          && sc.cache == s.cache && sc.began < s.time && sc.pending !! sc.read.Keys
          && sc.pending + sc.read.Keys == sc.cache.Keys && ReadsBetween(sc, s.groups))
    && (forall k | 0 <= k < |s.scrapes| ::
          s.scrapes[k].read.Keys == s.scrapes[k].cache.Keys && ReadsBetween(s.scrapes[k], s.groups)
          && s.scrapes[k].began < s.time)
  }

  ghost predicate Inv(s: State) {
    CacheIsLatest(s) && Owned(s) && ScrapesValid(s)
  }

  lemma GrownTransitive(a: seq<Group>, b: seq<Group>, c: seq<Group>)
    requires Grown(a, b) && Grown(b, c)
    ensures Grown(a, c)
  {}

  lemma GroupsGrow(s: State, step: Step)
    requires Enabled(s, step)
    ensures Grown(s.groups, Next(s, step).groups)
  {}

  lemma ReadsStayBetween(sc: Scrape, before: seq<Group>, after: seq<Group>)
    requires ReadsBetween(sc, before) && Grown(before, after)
    ensures ReadsBetween(sc, after)
  {
    GrownTransitive(sc.groups, before, after);
  }

  lemma LiveStep(log: seq<Event>, e: Event, source: Source)
    ensures Live(log + [e], source) ==
            if e.source != source then Live(log, source) else if e.Install? then Some(e.group) else None
  {
    assert (log + [e])[..|log|] == log;
  }

  lemma LatestKept(s: State, step: Step)
    requires Enabled(s, step) && CacheIsLatest(s)
    ensures CacheIsLatest(Next(s, step))
  {
    var t := Next(s, step);
    forall source
      ensures Live(t.log, source) == if source in t.cache then Some(t.cache[source]) else None
    {
      assert Live(s.log, source) == if source in s.cache then Some(s.cache[source]) else None;
      if step.Replace? || step.Disconnect? {
        LiveStep(s.log, t.log[|s.log|], source);
      }
    }
  }

  predicate Owned(s: State) {
    CacheValid(s) && Provenance(s) && StreamsValid(s)
  }

  lemma ReplaceKeepsOwned(s: State, i: nat)
    requires Enabled(s, Replace(i)) && Owned(s)
    ensures Owned(Next(s, Replace(i)))
  {
    ReplaceKeepsStreams(s, i);
    var t := Next(s, Replace(i));
    assert forall g | 0 <= g < |s.groups| :: t.groups[g] == s.groups[g];
    hide StreamsValid;
    assert CacheValid(t);
    assert Provenance(t);
  }

  lemma ReplaceKeepsStreams(s: State, i: nat)
    requires Enabled(s, Replace(i)) && StreamsValid(s)
    ensures StreamsValid(Next(s, Replace(i)))
    ensures var m := s.streams[i].phase.message;
            m < |s.messages| && s.messages[m] == s.streams[i].source
            && forall g | 0 <= g < |s.groups| :: s.groups[g].message != m
  {
    var t := Next(s, Replace(i));
    assert forall g | 0 <= g < |s.groups| :: t.groups[g] == s.groups[g];
    forall j | j in t.streams && t.streams[j].phase.Received?
      ensures t.streams[j].phase.message != s.streams[i].phase.message && t.streams[j] == s.streams[j]
    {}
  }

  lemma AppendKeepsOwned(s: State, h: Handler, value: uint64)
    requires Enabled(s, Append(h, value)) && Owned(s)
    ensures Owned(Next(s, Append(h, value)))
  {
    var t := Next(s, Append(h, value));
    forall g | 0 <= g < |s.groups|
      ensures t.groups[g].message == s.groups[g].message && t.groups[g].source == s.groups[g].source
      ensures forall k | 0 <= k < |t.groups[g].metrics| :: t.groups[g].metrics[k].message == t.groups[g].message
    {}
  }

  lemma ReceiveKeepsOwned(s: State, i: nat, source: Source)
    requires Enabled(s, Receive(i, source)) && Owned(s)
    ensures Owned(Next(s, Receive(i, source)))
  {
    var t := Next(s, Receive(i, source));
    assert forall m | 0 <= m < |s.messages| :: t.messages[m] == s.messages[m];
    assert Provenance(t);
    assert StreamsValid(t);
  }

  lemma DispatchKeepsOwned(s: State, i: nat, supported: bool)
    requires Enabled(s, Dispatch(i, supported)) && Owned(s)
    ensures Owned(Next(s, Dispatch(i, supported)))
  {}

  /** Steps that leave groups, messages and handlers alone, and start or drop a stream. */
  lemma StreamsKeepOwned(s: State, step: Step)
    requires Enabled(s, step) && Owned(s) && (step.Open? || step.Stop? || step.Disconnect?)
    ensures Owned(Next(s, step))
  {
    var t := Next(s, step);
    assert Provenance(t) by { hide StreamsValid, CacheValid; }
    assert CacheValid(t) by { hide StreamsValid, Provenance; }
    assert StreamsValid(t) by { hide Provenance, CacheValid; }
  }

  lemma ScrapeKeepsOwned(s: State, step: Step)
    requires Enabled(s, step) && Owned(s) && (step.BeginScrape? || step.ReadGroup? || step.EndScrape?)
    ensures Owned(Next(s, step))
  {
    var t := Next(s, step);
    assert Provenance(t) by { hide StreamsValid, CacheValid; }
    assert CacheValid(t) by { hide StreamsValid, Provenance; }
    assert StreamsValid(t) by { hide Provenance, CacheValid; }
  }

  lemma OwnedKept(s: State, step: Step)
    requires Enabled(s, step) && Owned(s)
    ensures Owned(Next(s, step))
  {
    hide Owned, Next, Enabled;
    match step
    case Replace(i) => ReplaceKeepsOwned(s, i);
    case Append(h, value) => AppendKeepsOwned(s, h, value);
    case Receive(i, source) => ReceiveKeepsOwned(s, i, source);
    case Dispatch(i, supported) => DispatchKeepsOwned(s, i, supported);
    case Open(_) => StreamsKeepOwned(s, step);
    case Stop(_) => StreamsKeepOwned(s, step);
    case Disconnect(_) => StreamsKeepOwned(s, step);
    case _ => ScrapeKeepsOwned(s, step);
  }

  lemma FinishedKept(s: State, step: Step)
    requires Enabled(s, step) && ScrapesValid(s)
    ensures var t := Next(s, step);
            forall k | 0 <= k < |s.scrapes| ::
              t.scrapes[k] == s.scrapes[k] && ReadsBetween(t.scrapes[k], t.groups)
  {
    var t := Next(s, step);
    GroupsGrow(s, step);
    hide ReadsBetween, Grown;
    forall k | 0 <= k < |s.scrapes|
      ensures t.scrapes[k] == s.scrapes[k] && ReadsBetween(s.scrapes[k], t.groups)
    {
      ReadsStayBetween(s.scrapes[k], s.groups, t.groups);
    }
  }

  lemma ReadGroupKeeps(s: State, source: Source)
    requires Enabled(s, ReadGroup(source)) && CacheValid(s) && ScrapesValid(s)
    ensures ScrapesValid(Next(s, ReadGroup(source)))
  {
    var sc, t := s.holder.value, Next(s, ReadGroup(source));
    var sc' := t.holder.value;
    assert Grown(sc.groups, s.groups);
    assert sc.cache[source] < |sc.groups|;
    assert ReadsBetween(sc', t.groups);
    assert sc'.pending + sc'.read.Keys == sc'.cache.Keys;
  }

  lemma ScrapesKept(s: State, step: Step)
    requires Enabled(s, step) && CacheValid(s) && ScrapesValid(s)
    ensures ScrapesValid(Next(s, step))
  {
    hide InstallIn, AppendTo;
    FinishedKept(s, step);
    if step.ReadGroup? {
      ReadGroupKeeps(s, step.source);
    } else {
      GroupsGrow(s, step);
      if s.holder.Some? {
        ReadsStayBetween(s.holder.value, s.groups, Next(s, step).groups);
      } else if step.BeginScrape? {
        assert ReadsBetween(Next(s, step).holder.value, s.groups);
      }
      hide ReadsBetween, Grown;
    }
  }

  /** Every step of every interleaving keeps the invariant. */
  lemma InvKept(s: State, step: Step)
    requires Inv(s) && Enabled(s, step)
    ensures Inv(Next(s, step))
  {
    LatestKept(s, step);
    OwnedKept(s, step);
    ScrapesKept(s, step);
  }

  lemma {:induction false} InvAlways(s: State, steps: seq<Step>)
    requires Inv(s) && Run(s, steps).Some?
    ensures Inv(Run(s, steps).value)
    decreases |steps|
  {
    hide Inv, Next, Enabled;
    if steps == [] {
    } else {
      InvKept(s, steps[0]);
      InvAlways(Next(s, steps[0]), steps[1..]);
    }
  }

  // ---- Freshness and snapshots over whole runs -----------------------------------------------------------

  lemma InitialInv()
    ensures Inv(INITIAL)
  {}

  /** A group that is allocated and no longer under any source. */
  predicate Gone(s: State, g: nat) {
    g < |s.groups| && g !in s.cache.Values
  }

  lemma StaysGoneStep(s: State, step: Step, g: nat)
    requires Enabled(s, step) && Gone(s, g)
    ensures Gone(Next(s, step), g)
  {
    var t := Next(s, step);
    forall source | source in t.cache ensures t.cache[source] != g {
      if source in s.cache && s.cache[source] == t.cache[source] {
        assert s.cache[source] in s.cache.Values;
      }
    }
  }

  /** A superseded or removed group never comes back. */
  lemma {:induction false} StaysGone(s: State, steps: seq<Step>, g: nat)
    requires Run(s, steps).Some? && Gone(s, g)
    ensures Gone(Run(s, steps).value, g)
    decreases |steps|
  {
    hide Next, Enabled, Gone;
    if steps == [] {
    } else {
      StaysGoneStep(s, steps[0], g);
      StaysGone(Next(s, steps[0]), steps[1..], g);
    }
  }

  lemma {:induction false} RunConcat(s: State, a: seq<Step>, b: seq<Step>)
    ensures Run(s, a + b) == if Run(s, a).None? then None else Run(Run(s, a).value, b)
    decreases |a|
  {
    hide Next, Enabled;
    if a == [] {
      assert a + b == b;
    } else {
      assert (a + b)[1..] == a[1..] + b;
      if Enabled(s, a[0]) {
        RunConcat(Next(s, a[0]), a[1..], b);
      }
    }
  }

  lemma RunSnoc(steps: seq<Step>)
    requires steps != [] && Run(INITIAL, steps).Some?
    ensures var init := steps[..|steps| - 1];
            Run(INITIAL, init).Some? && Enabled(Run(INITIAL, init).value, steps[|steps| - 1])
            && Run(INITIAL, steps).value == Next(Run(INITIAL, init).value, steps[|steps| - 1])
  {
    var init, last := steps[..|steps| - 1], steps[|steps| - 1];
    assert steps == init + [last];
    RunConcat(INITIAL, init, [last]);
    hide Next, Enabled;
    assert [last][1..] == [];
  }

  /** What a scrape recorded when it took the lock is the state of the run at that moment. */
  ghost predicate RecordedAt(sc: Scrape, steps: seq<Step>) {
    sc.began <= |steps| && Run(INITIAL, steps[..sc.began]).Some?
    && sc.cache == Run(INITIAL, steps[..sc.began]).value.cache
    && sc.groups == Run(INITIAL, steps[..sc.began]).value.groups
  }

  lemma RecordedNow(sc: Scrape, steps: seq<Step>, step: Step)
    requires Run(INITIAL, steps).Some? && sc.began == |steps|
    requires sc.cache == Run(INITIAL, steps).value.cache && sc.groups == Run(INITIAL, steps).value.groups
    ensures RecordedAt(sc, steps + [step])
  {
    assert (steps + [step])[..sc.began] == steps;
  }

  lemma RecordedLater(sc: Scrape, steps: seq<Step>, step: Step)
    requires RecordedAt(sc, steps)
    ensures RecordedAt(sc, steps + [step])
  {
    assert (steps + [step])[..sc.began] == steps[..sc.began];
  }

  lemma RecordedReading(sc: Scrape, further: Scrape, steps: seq<Step>)
    requires RecordedAt(sc, steps)
    requires further.began == sc.began && further.cache == sc.cache && further.groups == sc.groups
    ensures RecordedAt(further, steps)
  {}

  /** A scrape takes over its record from the state, from the scrape it was before the step, or
      from the scrape that ends. */
  lemma ScrapeEffects(s: State, step: Step)
    requires Enabled(s, step)
    ensures var t := Next(s, step);
            && t.time == s.time + 1
            && (t.holder.Some? ==>
                  if step.BeginScrape? then
                    t.holder.value.began == s.time && t.holder.value.cache == s.cache && t.holder.value.groups == s.groups
                  else
                    s.holder.Some? && t.holder.value.began == s.holder.value.began
                    && t.holder.value.cache == s.holder.value.cache && t.holder.value.groups == s.holder.value.groups)
            && (forall k | 0 <= k < |t.scrapes| ::
                  if k < |s.scrapes| then t.scrapes[k] == s.scrapes[k]
                  else s.holder.Some? && t.scrapes[k] == s.holder.value)
  {
    hide InstallIn, AppendTo;
  }

  lemma {:induction false} ScrapesAreRecorded(steps: seq<Step>)
    requires Run(INITIAL, steps).Some?
    ensures var s := Run(INITIAL, steps).value;
            s.time == |steps|
            && (s.holder.Some? ==> RecordedAt(s.holder.value, steps))
            && forall k | 0 <= k < |s.scrapes| :: RecordedAt(s.scrapes[k], steps)
    decreases |steps|
  {
    if steps == [] {
    } else {
      hide Run, RecordedAt, Next, Enabled;
      RunSnoc(steps);
      var init, last := steps[..|steps| - 1], steps[|steps| - 1];
      assert steps == init + [last];
      ScrapesAreRecorded(init);
      var s, t := Run(INITIAL, init).value, Run(INITIAL, steps).value;
      ScrapeEffects(s, last);
      if t.holder.Some? {
        if last.BeginScrape? {
          RecordedNow(t.holder.value, init, last);
        } else {
          RecordedReading(s.holder.value, t.holder.value, init);
          RecordedLater(t.holder.value, init, last);
        }
      }
      forall k | 0 <= k < |t.scrapes| ensures RecordedAt(t.scrapes[k], steps) {
        RecordedLater(t.scrapes[k], init, last);
      }
    }
  }

  lemma ReachableInv(steps: seq<Step>)
    requires Run(INITIAL, steps).Some?
    ensures Inv(Run(INITIAL, steps).value)
  {
    InitialInv();
    InvAlways(INITIAL, steps);
  }

  /** The metrics that the append steps of a run make for a group, in order. */
  function Appended(steps: seq<Step>, g: nat): seq<Metric> {
    if steps == [] then []
    else
      var last := steps[|steps| - 1];
      Appended(steps[..|steps| - 1], g)
      + (if last.Append? && last.handler.group == g then [Metric(last.handler.message, last.value)] else [])
  }

  lemma AppendedStep(s: State, step: Step, g: nat)
    requires Enabled(s, step)
    ensures |s.groups| <= |Next(s, step).groups|
    ensures var more := if step.Append? && step.handler.group == g then [Metric(step.handler.message, step.value)] else [];
            (g < |s.groups| ==> Next(s, step).groups[g].metrics == s.groups[g].metrics + more)
            && (g >= |s.groups| ==> more == [])
            && (|s.groups| <= g < |Next(s, step).groups| ==> Next(s, step).groups[g].metrics == [])
  {}

  /** In every run, a group holds exactly the metrics appended to it, message and value, in the
      order of the append steps. */
  lemma {:induction false} GroupsHoldAppended(steps: seq<Step>, g: nat)
    requires Run(INITIAL, steps).Some?
    ensures var s := Run(INITIAL, steps).value;
            if g < |s.groups| then s.groups[g].metrics == Appended(steps, g) else Appended(steps, g) == []
    decreases |steps|
  {
    if steps == [] {
    } else {
      hide Run, Next, Enabled;
      RunSnoc(steps);
      var init, last := steps[..|steps| - 1], steps[|steps| - 1];
      GroupsHoldAppended(init, g);
      AppendedStep(Run(INITIAL, init).value, last, g);
    }
  }

  /** In every run, a scrape returns for exactly the sources live when it took the lock a
      prefix of the metrics appended to the group live then, with everything appended before;
      and all of them come from one message for that source. */
  lemma ScrapeIsSnapshot(steps: seq<Step>, k: nat)
    requires Run(INITIAL, steps).Some? && k < |Run(INITIAL, steps).value.scrapes|
    ensures var t := Run(INITIAL, steps).value;
            var sc := t.scrapes[k];
            sc.began <= |steps| && Run(INITIAL, steps[..sc.began]).Some?
            && var s := Run(INITIAL, steps[..sc.began]).value;
               sc.read.Keys == s.cache.Keys
               && forall source | source in s.cache ::
                    var g := s.cache[source];
                    g < |s.groups| && g < |t.groups|
                    && Appended(steps[..sc.began], g) <= sc.read[source] <= Appended(steps, g)
                    && t.groups[g].message < |t.messages| && t.messages[t.groups[g].message] == source
                    && forall m | m in sc.read[source] :: m.message == t.groups[g].message
  {
    ReachableInv(steps);
    ScrapesAreRecorded(steps);
    hide Run, Appended;
    var t := Run(INITIAL, steps).value;
    var sc := t.scrapes[k];
    assert ReadsBetween(sc, t.groups) && RecordedAt(sc, steps);
    forall source | source in sc.cache
      ensures Appended(steps[..sc.began], sc.cache[source]) <= sc.read[source] <= Appended(steps, sc.cache[source])
      ensures forall m | m in sc.read[source] :: m.message == t.groups[sc.cache[source]].message
    {
      var g := sc.cache[source];
      GroupsHoldAppended(steps, g);
      GroupsHoldAppended(steps[..sc.began], g);
      forall m | m in sc.read[source] ensures m.message == t.groups[g].message {
        var n :| 0 <= n < |sc.read[source]| && sc.read[source][n] == m;
        assert t.groups[g].metrics[n] == m;
      }
    }
  }

  /** In every run no group is under two sources, and its metrics, its message and its source
      belong together. */
  lemma GroupsAreSingleMessage(steps: seq<Step>, source: Source, other: Source)
    requires Run(INITIAL, steps).Some?
    ensures var s := Run(INITIAL, steps).value;
            source in s.cache ==>
              && s.cache[source] < |s.groups|
              && var g := s.groups[s.cache[source]];
                 g.source == source && g.message < |s.messages| && s.messages[g.message] == source
                 && (forall k | 0 <= k < |g.metrics| :: g.metrics[k].message == g.message)
                 && (other in s.cache && s.cache[other] == s.cache[source] ==> other == source)
  {
    ReachableInv(steps);
  }

  /** A metric of a message whose group has been superseded or removed appears in no scrape
      that begins afterwards, however late its handlers append. */
  lemma NeverScrapedAgain(steps: seq<Step>, more: seq<Step>, g: nat, k: nat, source: Source, m: Metric)
    requires Run(INITIAL, steps).Some? && Run(INITIAL, steps + more).Some?
    requires Gone(Run(INITIAL, steps).value, g) && k < |Run(INITIAL, steps + more).value.scrapes|
    requires var sc := Run(INITIAL, steps + more).value.scrapes[k];
             sc.began >= |steps| && source in sc.read && m in sc.read[source]
    ensures m.message != Run(INITIAL, steps).value.groups[g].message
  {
    var all := steps + more;
    var s, t := Run(INITIAL, steps).value, Run(INITIAL, all).value;
    var sc := t.scrapes[k];
    ScrapesAreRecorded(all);
    ScrapeIsSnapshot(all, k);
    var between := more[..sc.began - |steps|];
    assert all[..sc.began] == steps + between;
    RunConcat(INITIAL, steps, between);
    StaysGone(s, between, g);
    RunConcat(INITIAL, steps, more);
    ReachableInv(all);
    GroupKeptInRun(s, more, g);
    hide Run;
    assert sc.cache[source] in sc.cache.Values;
    assert sc.cache[source] != g;
  }

  lemma {:induction false} GroupKeptInRun(s: State, steps: seq<Step>, g: nat)
    requires Run(s, steps).Some? && g < |s.groups|
    ensures var t := Run(s, steps).value; g < |t.groups| && t.groups[g].message == s.groups[g].message
    decreases |steps|
  {
    if steps == [] {
    } else {
      GroupsGrow(s, steps[0]);
      hide Next, Enabled;
      GroupKeptInRun(Next(s, steps[0]), steps[1..], g);
    }
  }

  /** In every run, a source is cached exactly when its last event is an install, and then
      with the group of that install. */
  lemma CacheHoldsLatest(steps: seq<Step>, source: Source)
    requires Run(INITIAL, steps).Some?
    ensures var s := Run(INITIAL, steps).value;
            Live(s.log, source) == if source in s.cache then Some(s.cache[source]) else None
  {
    ReachableInv(steps);
    hide Run, Live;
    assert CacheIsLatest(Run(INITIAL, steps).value);
  }

  // ---- Who appends ---------------------------------------------------------------------------------

  /** Step `k` of a run dispatches a supported message to its record function. */
  predicate Starts(steps: seq<Step>, k: int, h: Handler) {
    0 <= k < |steps| && steps[k].Dispatch? && steps[k].supported && Run(INITIAL, steps[..k]).Some?
    && var s := Run(INITIAL, steps[..k]).value;
       steps[k].stream in s.streams && s.streams[steps[k].stream].phase == Installed(h.message, h.group)
  }

  lemma HandlersStep(s: State, step: Step)
    requires Enabled(s, step)
    ensures Next(s, step).handlers ==
            if step.Dispatch? && step.supported then
              s.handlers + {Handler(s.streams[step.stream].phase.message, s.streams[step.stream].phase.group)}
            else s.handlers
    ensures step.Dispatch? ==> step.stream in s.streams && s.streams[step.stream].phase.Installed?
  {}

  /** In every run the record functions are exactly those of the supported dispatches, each for
      the message and the group that its stream had installed. */
  lemma {:induction false} HandlersAreDispatched(steps: seq<Step>, h: Handler)
    requires Run(INITIAL, steps).Some?
    ensures h in Run(INITIAL, steps).value.handlers <==> exists k :: Starts(steps, k, h)
    decreases |steps|
  {
    if steps == [] {
    } else {
      var init, last := steps[..|steps| - 1], |steps| - 1;
      RunSnoc(steps);
      HandlersAreDispatched(init, h);
      HandlersStep(Run(INITIAL, init).value, steps[last]);
      hide Run, Next, Enabled;
      forall k | 0 <= k < last ensures Starts(steps, k, h) <==> Starts(init, k, h) {
        assert steps[..k] == init[..k];
      }
      assert Starts(steps, last, h) <==>
             h in Next(Run(INITIAL, init).value, steps[last]).handlers && steps[last].Dispatch? && steps[last].supported
             && h == Handler(Run(INITIAL, init).value.streams[steps[last].stream].phase.message,
                             Run(INITIAL, init).value.streams[steps[last].stream].phase.group);
      if h in Run(INITIAL, init).value.handlers {
        var k :| Starts(init, k, h);
        assert Starts(steps, k, h);
      }
    }
  }

  // ---- What a disconnect cleans up ------------------------------------------------------------------------

  predicate HasLiveGroup(s: State, i: nat) {
    exists source :: source in s.cache && s.cache[source] < |s.groups| && s.groups[s.cache[source]].owner == i
  }

  /** Event `k` of the log installs a group, and nothing happens to its source later. */
  predicate Standing(s: State, k: int) {
    && 0 <= k < |s.log| && s.log[k].Install? && s.log[k].group < |s.groups|
    && (forall l | k < l < |s.log| :: s.log[l].source != s.log[k].source)
  }

  /** What is live under a source is the group of the last install, if no event follows it. */
  lemma {:induction false} LiveIsLastInstall(log: seq<Event>, source: Source, g: nat)
    ensures Live(log, source) == Some(g) <==>
            exists k :: 0 <= k < |log| && log[k] == Install(source, g)
                        && forall l | k < l < |log| :: log[l].source != source
    decreases |log|
  {
    if log == [] {
    } else {
      var init, last := log[..|log| - 1], |log| - 1;
      LiveIsLastInstall(init, source, g);
      if log[last].source != source && Live(log, source) == Some(g) {
        var k :| 0 <= k < |init| && init[k] == Install(source, g)
          && forall l | k < l < |init| :: init[l].source != source;
        assert log[k] == Install(source, g) && forall l | k < l < |log| :: log[l].source != source;
      } else if log[last] == Install(source, g) {
        assert forall l | last < l < |log| :: log[l].source != source;
      }
    }
  }

  /** In every run, the standing installs and the cache are the same. */
  lemma StandingIsCached(steps: seq<Step>, source: Source, g: nat)
    requires Run(INITIAL, steps).Some?
    ensures var s := Run(INITIAL, steps).value;
            source in s.cache && s.cache[source] == g <==>
            exists k :: Standing(s, k) && s.log[k] == Install(source, g)
  {
    ReachableInv(steps);
    CacheHoldsLatest(steps, source);
    var s := Run(INITIAL, steps).value;
    LiveIsLastInstall(s.log, source, g);
    hide Run, Live;
    if source in s.cache && s.cache[source] == g {
      var k :| 0 <= k < |s.log| && s.log[k] == Install(source, g)
        && forall l | k < l < |s.log| :: s.log[l].source != source;
      assert Standing(s, k);
    }
    if k :| Standing(s, k) && s.log[k] == Install(source, g) {
      assert forall l | k < l < |s.log| :: s.log[l].source != source;
    }
  }

  /** Which stream's group a standing install put there. */
  function OwnerOf(s: State, k: int): nat
    requires Standing(s, k)
  {
    s.groups[s.log[k].group].owner
  }

  /** In every run, a stream has live groups left after its disconnect if and only if some
      install of its own stands under another source than that of its last message. */
  lemma DisconnectLeavesIff(steps: seq<Step>, i: nat)
    requires Run(INITIAL, steps).Some? && Enabled(Run(INITIAL, steps).value, Disconnect(i))
    ensures var s := Run(INITIAL, steps).value;
            HasLiveGroup(Next(s, Disconnect(i)), i) <==>
            exists k :: Standing(s, k) && OwnerOf(s, k) == i && s.log[k].source != s.streams[i].source
  {
    var s := Run(INITIAL, steps).value;
    var t, last := Next(s, Disconnect(i)), s.streams[i].source;
    assert t.groups == s.groups && t.cache == s.cache - {last};
    hide Run, Next, Enabled;
    if HasLiveGroup(t, i) {
      var source :| source in t.cache && t.cache[source] < |t.groups| && t.groups[t.cache[source]].owner == i;
      StandingIsCached(steps, source, s.cache[source]);
      var k :| Standing(s, k) && s.log[k] == Install(source, s.cache[source]);
      assert OwnerOf(s, k) == i && s.log[k].source != last;
    }
    if k :| Standing(s, k) && OwnerOf(s, k) == i && s.log[k].source != last {
      StandingIsCached(steps, s.log[k].source, s.log[k].group);
      assert s.log[k] == Install(s.log[k].source, s.log[k].group);
      assert s.log[k].source in t.cache;
    }
  }

  /** Every live group of another stream stays live. */
  predicate OthersSpared(s: State, t: State, i: nat) {
    forall source | source in s.cache && s.cache[source] < |s.groups| && s.groups[s.cache[source]].owner != i ::
      source in t.cache && t.cache[source] == s.cache[source]
  }

  /** In every run, a disconnect spares the groups of all other streams if and only if what is
      cached under its last source, if anything, is its own; that is, no install of another
      stream stands under that source. */
  lemma DisconnectSparesOthersIff(steps: seq<Step>, i: nat)
    requires Run(INITIAL, steps).Some? && Enabled(Run(INITIAL, steps).value, Disconnect(i))
    ensures var s := Run(INITIAL, steps).value;
            var last := s.streams[i].source;
            && CacheValid(s)
            && (OthersSpared(s, Next(s, Disconnect(i)), i) <==>
                (last in s.cache ==> s.groups[s.cache[last]].owner == i))
            && (OthersSpared(s, Next(s, Disconnect(i)), i) <==>
                !exists k :: Standing(s, k) && OwnerOf(s, k) != i && s.log[k].source == last)
  {
    ReachableInv(steps);
    var s := Run(INITIAL, steps).value;
    var t, last := Next(s, Disconnect(i)), s.streams[i].source;
    assert t.cache == s.cache - {last};
    hide Run, Next, Enabled;
    if last in s.cache {
      StandingIsCached(steps, last, s.cache[last]);
      var k :| Standing(s, k) && s.log[k] == Install(last, s.cache[last]);
      assert OwnerOf(s, k) == s.groups[s.cache[last]].owner;
    }
    if k :| Standing(s, k) && OwnerOf(s, k) != i && s.log[k].source == last {
      StandingIsCached(steps, last, s.log[k].group);
      assert s.log[k] == Install(last, s.log[k].group);
    }
  }

  function OneMessage(i: nat, source: Source, supported: bool): seq<Step> {
    [Receive(i, source), Replace(i), Dispatch(i, supported)]
  }

  predicate Idle(s: State, i: nat) {
    i in s.streams && s.streams[i].phase.Waiting? && s.holder.None?
  }

  /** What one message does when nothing happens in between. */
  lemma OneMessageRun(s: State, i: nat, source: Source, supported: bool)
    requires Idle(s, i)
    ensures var r := Run(s, OneMessage(i, source, supported));
            r.Some? && r.value.cache == s.cache[source := |s.groups|] && r.value.holder.None?
            && r.value.streams == (if supported then s.streams[i := Stream(source, Waiting)] else s.streams - {i})
            && r.value.groups == s.groups + [Group(source, |s.messages|, i, [])]
            && r.value.messages == s.messages + [source]
            && r.value.handlers == s.handlers + (if supported then {Handler(|s.messages|, |s.groups|)} else {})
  {
    var steps := OneMessage(i, source, supported);
    var a := Next(s, steps[0]);
    var b := Next(a, steps[1]);
    var c := Next(b, steps[2]);
    assert steps[1..][1..] == [steps[2]] && [steps[2]][1..] == [];
    assert Run(c, []) == Some(c);
    assert Run(b, [steps[2]]) == Some(c);
    assert Run(a, steps[1..]) == Some(c);
  }

  /** The messages of two streams, or twice of one, and then a disconnect. */
  function TwoMessages(i: nat, a: Source, j: nat, b: Source, gone: nat): seq<Step> {
    OneMessage(i, a, true) + (OneMessage(j, b, true) + [Disconnect(gone)])
  }

  lemma TwoMessagesRun(s: State, i: nat, a: Source, j: nat, b: Source, gone: nat)
    requires Idle(s, i) && Idle(s, j) && (gone == i || gone == j)
    ensures var r := Run(s, TwoMessages(i, a, j, b, gone));
            r.Some? && r.value.cache == s.cache[a := |s.groups|][b := |s.groups| + 1] - {if gone == j then b else a}
            && r.value.groups == s.groups + [Group(a, |s.messages|, i, [])] + [Group(b, |s.messages| + 1, j, [])]
            && r.value.streams == s.streams[i := Stream(a, Waiting)][j := Stream(b, Waiting)] - {gone}
  {
    OneMessageRun(s, i, a, true);
    var t := Run(s, OneMessage(i, a, true)).value;
    OneMessageRun(t, j, b, true);
    var u := Run(t, OneMessage(j, b, true)).value;
    RunConcat(s, OneMessage(i, a, true), OneMessage(j, b, true) + [Disconnect(gone)]);
    RunConcat(t, OneMessage(j, b, true), [Disconnect(gone)]);
    hide OneMessage;
    assert Run(Next(u, Disconnect(gone)), []) == Some(Next(u, Disconnect(gone)));
    assert [Disconnect(gone)][1..] == [];
  }

  /** A stream that reports two paths leaves the first one behind when it disconnects. */
  lemma DisconnectLeavesEarlierSource(s: State, i: nat, a: Source, b: Source)
    requires Idle(s, i) && a != b
    ensures var r := Run(s, TwoMessages(i, a, i, b, i));
            r.Some? && i !in r.value.streams && b !in r.value.cache && HasLiveGroup(r.value, i)
  {
    TwoMessagesRun(s, i, a, i, b, i);
    hide Run, TwoMessages;
    assert a in Run(s, TwoMessages(i, a, i, b, i)).value.cache;
  }

  /** When two streams report the same source, the first one's disconnect removes the group of
      the second, which is still connected. */
  lemma DisconnectRemovesAnother(s: State, i: nat, j: nat, a: Source)
    requires Idle(s, i) && Idle(s, j) && i != j
    ensures var r := Run(s, TwoMessages(i, a, j, a, i));
            r.Some? && a !in r.value.cache && j in r.value.streams && r.value.streams[j].source == a
            && |r.value.groups| > |s.groups| && r.value.groups[|r.value.groups| - 1].source == a
            && r.value.groups[|r.value.groups| - 1].owner == j
  {
    TwoMessagesRun(s, i, a, j, a, i);
  }
}
