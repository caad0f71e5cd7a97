/**
  The collector as it is written: objects whose fields are updated in place.  The collector
  carries, as ghost state, the state of the step system of the metric cache, and every method
  says which steps it takes.
 */
module CollectorCache {
  import opened Wire
  import opened Natives
  import opened MetricCache

  class DeviceGroupedMetrics {
    var metrics: seq<Metric>
    /** How many groups were installed before this one. */
    ghost const index: nat

    constructor (ghost index: nat)
      ensures metrics == [] && this.index == index
    {
      metrics := [];
      this.index := index;
    }
  }

  /** The steps of an undisturbed scrape that reads the sources in the given order. */
  function ReadSteps(order: seq<Source>): seq<Step> {
    if order == [] then [] else ReadSteps(order[..|order| - 1]) + [ReadGroup(order[|order| - 1])]
  }

  function Flatten(order: seq<Source>, read: map<Source, seq<Metric>>): seq<Metric>
    requires forall source | source in order :: source in read
  {
    if order == [] then [] else Flatten(order[..|order| - 1], read) + read[order[|order| - 1]]
  }

  lemma FlattenExtends(order: seq<Source>, read: map<Source, seq<Metric>>, source: Source, ms: seq<Metric>)
    requires (forall x | x in order :: x in read) && source !in order
    ensures Flatten(order + [source], read[source := ms]) == Flatten(order, read) + ms
  {
    FlattenSame(order, read, read[source := ms]);
    assert (order + [source])[..|order|] == order;
  }

  lemma {:induction false} FlattenSame(order: seq<Source>, a: map<Source, seq<Metric>>, b: map<Source, seq<Metric>>)
    requires forall x | x in order :: x in a && x in b && a[x] == b[x]
    ensures Flatten(order, a) == Flatten(order, b)
  {
    if order == [] {
    } else {
      FlattenSame(order[..|order| - 1], a, b);
    }
  }

  lemma RunExtends(s: State, steps: seq<Step>, t: State, step: Step)
    requires Run(s, steps) == Some(t) && Enabled(t, step)
    ensures Run(s, steps + [step]) == Some(Next(t, step))
  {
    RunConcat(s, steps, [step]);
    hide Enabled, Next;
    assert [step][1..] == [];
    assert Run(Next(t, step), []) == Some(Next(t, step));
  }

  lemma ReplaceEffect(s: State, i: nat)
    requires Enabled(s, Replace(i))
    ensures var t, source := Next(s, Replace(i)), s.streams[i].source;
            t.cache == s.cache[source := |s.groups|] && t.holder.None?
            && (exists g: Group :: g.metrics == [] && t.groups == s.groups + [g])
            && i in t.streams && t.streams[i].source == source && t.streams[i].phase.Installed?
  {
    assert Next(s, Replace(i)).groups == s.groups + [Group(s.streams[i].source, s.streams[i].phase.message, i, [])];
  }

  /** `order` lists `sources`, each once. */
  predicate Lists(order: seq<Source>, sources: set<Source>) {
    (set source | source in order) == sources && |order| == |sources|
  }

  lemma ListsExtends(order: seq<Source>, sources: set<Source>, source: Source)
    requires Lists(order, sources) && source !in sources
    ensures Lists(order + [source], sources + {source}) && source !in order
  {
    assert source !in (set x | x in order);
  }

  lemma ReadStepsExtends(order: seq<Source>, source: Source)
    ensures [BeginScrape] + ReadSteps(order + [source]) == [BeginScrape] + ReadSteps(order) + [ReadGroup(source)]
  {
    assert (order + [source])[..|order|] == order;
  }

  /** The sources were read in the given order, each with all metrics of its group in `s`, and
      `copied` is all of that. */
  predicate ReadInOrder(s: State, order: seq<Source>, read: map<Source, seq<Metric>>, copied: seq<Metric>) {
    && Lists(order, read.Keys) && (forall source | source in order :: source in read)
    && (forall source | source in read ::
          source in s.cache && s.cache[source] < |s.groups| && read[source] == s.groups[s.cache[source]].metrics)
    && copied == Flatten(order, read)
  }

  lemma ReadOneMore(s: State, order: seq<Source>, read: map<Source, seq<Metric>>, copied: seq<Metric>, source: Source)
    requires ReadInOrder(s, order, read, copied)
    requires source !in read && source in s.cache && s.cache[source] < |s.groups|
    ensures var ms := s.groups[s.cache[source]].metrics;
            ReadInOrder(s, order + [source], read[source := ms], copied + ms)
  {
    hide Lists, Flatten;
    var ms := s.groups[s.cache[source]].metrics;
    ListsExtends(order, read.Keys, source);
    FlattenExtends(order, read, source, ms);
    assert read[source := ms].Keys == read.Keys + {source};
  }

  /** State `s` is reached from `s0` by an undisturbed scrape that has `pending` still to read. */
  ghost predicate Scraping(s0: State, s: State, order: seq<Source>, pending: set<Source>, copied: seq<Metric>) {
    && Run(s0, [BeginScrape] + ReadSteps(order)) == Some(s)
    && s.holder.Some? && s.holder.value.pending == pending
    && s.scrapes == s0.scrapes && s.cache == s0.cache && s.groups == s0.groups
    && var read := s.holder.value.read;
       read.Keys !! pending && read.Keys + pending == s.cache.Keys && ReadInOrder(s0, order, read, copied)
  }

  /** State `t` is reached from `s0` by an undisturbed scrape that reads every source once, in
      the given order, and `copied` is what it read. */
  ghost predicate Scraped(s0: State, t: State, order: seq<Source>, copied: seq<Metric>) {
    && Run(s0, [BeginScrape] + ReadSteps(order) + [EndScrape]) == Some(t)
    && |t.scrapes| == |s0.scrapes| + 1
    && t.scrapes[|s0.scrapes|].read.Keys == s0.cache.Keys
    && ReadInOrder(s0, order, t.scrapes[|s0.scrapes|].read, copied)
  }

  lemma RunNothing(s: State)
    ensures Run(s, []) == Some(s)
  {}

  lemma NothingRead(s: State)
    ensures ReadInOrder(s, [], map[], []) && ReadSteps([]) == []
  {}

  lemma BeginEffect(s: State)
    requires s.holder.None?
    ensures Enabled(s, BeginScrape)
    ensures var t := Next(s, BeginScrape);
            t.holder == Some(Scrape(s.time, s.cache, s.groups, s.cache.Keys, map[]))
            && t.scrapes == s.scrapes && t.cache == s.cache && t.groups == s.groups
  {}

  lemma ScrapeBegins(s: State)
    requires s.holder.None?
    ensures Enabled(s, BeginScrape)
    ensures Scraping(s, Next(s, BeginScrape), [], s.cache.Keys, [])
  {
    RunNothing(s);
    BeginEffect(s);
    NothingRead(s);
    hide Run, ReadSteps, Next, Enabled, ReadInOrder;
    RunExtends(s, [], s, BeginScrape);
    assert [BeginScrape] + ReadSteps([]) == [] + [BeginScrape];
  }

  lemma ReadEffect(s: State, source: Source)
    requires s.holder.Some? && source in s.holder.value.pending && source in s.cache && s.cache[source] < |s.groups|
    ensures Enabled(s, ReadGroup(source))
    ensures var sc, t := s.holder.value, Next(s, ReadGroup(source));
            t.scrapes == s.scrapes && t.cache == s.cache && t.groups == s.groups
            && t.holder == Some(sc.(pending := sc.pending - {source},
                                    read := sc.read[source := s.groups[s.cache[source]].metrics]))
  {}

  lemma ScrapeReads(s0: State, s: State, order: seq<Source>, pending: set<Source>, copied: seq<Metric>, source: Source)
    requires Scraping(s0, s, order, pending, copied)
    requires source in pending && s.cache[source] < |s.groups|
    ensures Enabled(s, ReadGroup(source))
    ensures Scraping(s0, Next(s, ReadGroup(source)), order + [source], pending - {source},
                     copied + s.groups[s.cache[source]].metrics)
  {
    hide Run, ReadSteps, Next, Enabled, ReadInOrder;
    var read := s.holder.value.read;
    ReadEffect(s, source);
    RunExtends(s0, [BeginScrape] + ReadSteps(order), s, ReadGroup(source));
    ReadStepsExtends(order, source);
    ReadOneMore(s0, order, read, copied, source);
    assert read[source := s.groups[s.cache[source]].metrics].Keys == read.Keys + {source};
  }

  lemma ScrapeEnds(s0: State, s: State, order: seq<Source>, copied: seq<Metric>)
    requires Scraping(s0, s, order, {}, copied)
    ensures Enabled(s, EndScrape)
    ensures Scraped(s0, Next(s, EndScrape), order, copied)
  {
    RunExtends(s0, [BeginScrape] + ReadSteps(order), s, EndScrape);
    hide Run, ReadSteps, ReadInOrder;
  }

  class Collector {
    var metrics: map<Source, DeviceGroupedMetrics>

    ghost var state: State
    ghost var groups: seq<DeviceGroupedMetrics>

    ghost predicate Valid()
      reads this, groups
    {
      && |groups| == |state.groups|
      && (forall i | 0 <= i < |groups| :: groups[i].index == i && groups[i].metrics == state.groups[i].metrics)
      && metrics.Keys == state.cache.Keys
      && (forall source | source in metrics ::
            state.cache[source] < |groups| && metrics[source] == groups[state.cache[source]])
    }

    constructor ()
      ensures Valid() && state == INITIAL && metrics == map[]
    {
      metrics := map[];
      state := INITIAL;
      groups := [];
    }

    lemma ValidCache()
      requires Valid()
      ensures metrics.Keys == state.cache.Keys
      ensures forall source | source in metrics :: state.cache[source] < |state.groups|
    {}

    /** A step of a stream that leaves the cache and the groups alone. */
    ghost method Observe(step: Step)
      requires Valid() && Enabled(state, step)
      requires step.Open? || step.Receive? || step.Stop? || step.Dispatch? || step.BeginScrape? || step.ReadGroup? || step.EndScrape?
      modifies this`state
      ensures Valid() && state == Next(old(state), step)
    {
      state := Next(state, step);
    }

    /** The locked region that replaces the group of the stream's source. */
    method Install(source: Source, dm: DeviceGroupedMetrics, ghost i: nat)
      requires Valid() && Enabled(state, Replace(i)) && source == state.streams[i].source
      requires dm.index == |groups| && dm.metrics == []
      modifies this
      ensures Valid() && state == Next(old(state), Replace(i)) && groups == old(groups) + [dm]
      ensures metrics == old(metrics)[source := dm]
    {
      ReplaceEffect(state, i);
      hide Next, Enabled;
      if source in metrics {
        metrics := metrics - {source};
      }
      metrics := metrics[source := dm];
      assert metrics == old(metrics)[source := dm];
      state := Next(state, Replace(i));
      groups := groups + [dm];
    }

    /** The locked region of a stream whose connection failed. */
    method Remove(source: Source, ghost i: nat)
      requires Valid() && Enabled(state, Disconnect(i)) && source == state.streams[i].source
      modifies this
      ensures Valid() && state == Next(old(state), Disconnect(i)) && groups == old(groups)
      ensures metrics == old(metrics) - {source}
    {
      if source in metrics {
        metrics := metrics - {source};
      }
      state := Next(state, Disconnect(i));
    }

    /** Appends a metric of a handler's message to its group; a value that is no float64 is
        skipped.  The group may have left the cache already. */
    method CreatePromMetric(val: Native, dm: DeviceGroupedMetrics, message: nat, ghost at: nat)
      requires Valid() && Handler(message, at) in state.handlers && at < |groups| && dm == groups[at]
      modifies this`state, dm
      ensures Valid()
      ensures val.Float64? ==> state == Next(old(state), Append(Handler(message, at), val.bits))
      ensures val.Float64? ==> dm.metrics == old(dm.metrics) + [Metric(message, val.bits)]
      ensures !val.Float64? ==> state == old(state) && dm.metrics == old(dm.metrics)
    {
      if !val.Float64? {
        return;
      }
      dm.metrics := dm.metrics + [Metric(message, val.bits)];
      state := Next(state, Append(Handler(message, at), val.bits));
    }

    /** Copies out the metrics of one source. */
    method CopyGroup(copied: seq<Metric>, source: Source) returns (more: seq<Metric>)
      requires Valid() && source in metrics && Enabled(state, ReadGroup(source))
      modifies this`state
      ensures Valid() && state == Next(old(state), ReadGroup(source))
      ensures more == copied + old(state).groups[old(state).cache[source]].metrics
    {
      hide Next, Enabled;
      var dm := metrics[source];
      more := copied;
      var k := 0;
      while k < |dm.metrics|
        invariant 0 <= k <= |dm.metrics| && more == copied + dm.metrics[..k]
      {
        more := more + [dm.metrics[k]];
        k := k + 1;
      }
      assert dm.metrics[..k] == dm.metrics;
      Observe(ReadGroup(source));
    }

    /** Copies out all metrics while holding the lock.  The order of the sources is the map's,
        which is arbitrary. */
    method Collect() returns (copied: seq<Metric>, ghost order: seq<Source>)
      requires Valid() && state.holder.None?
      modifies this`state
      ensures Valid()
      ensures Scraped(old(state), state, order, copied)
    {
      hide *;
      ValidCache();
      ScrapeBegins(state);
      Observe(BeginScrape);
      copied, order := [], [];
      var pending := metrics.Keys;
      while pending != {}
        invariant Valid() && pending <= metrics.Keys
        invariant Scraping(old(state), state, order, pending, copied)
        decreases |pending|
      {
        var source :| source in pending;
        ValidCache();
        ScrapeReads(old(state), state, order, pending, copied, source);
        copied := CopyGroup(copied, source);
        order := order + [source];
        pending := pending - {source};
      }
      ScrapeEnds(old(state), state, order, copied);
      Observe(EndScrape);
    }
  }
}
