/** The Kepler source: its state, the functional options that configure it,
    and the Fetch call that queries Prometheus and updates the instance
    registry in place. The query itself is a parameter (`backend`) that maps
    a PromQL query to its result; the providers table is a parameter too. */
module Kepler {
  import opened Types
  import opened Ingest

  /** The functional options New accepts. Each sets one field, possibly to
      nil (None). */
  datatype SourceOption =
    | WithLogger(logger: Option<Logger>)
    | WithConfig(cfg: Option<Config>)
    | WithPrometheusClient(client: Option<Client>)

  /** The field an option sets. */
  datatype OptionKind = LoggerOption | ConfigOption | ClientOption

  function KindOf(o: SourceOption): OptionKind
  {
    match o
    case WithLogger(_) => LoggerOption
    case WithConfig(_) => ConfigOption
    case WithPrometheusClient(_) => ClientOption
  }

  /** The last option of a kind in `opts`, if there is one. */
  function LastOf(opts: seq<SourceOption>, kind: OptionKind): (r: Option<SourceOption>)
    ensures r.Some? ==> KindOf(r.value) == kind && r.value in opts
    ensures r.None? <==> forall i :: 0 <= i < |opts| ==> KindOf(opts[i]) != kind
    decreases |opts|
  {
    if opts == [] then None
    else if KindOf(opts[|opts| - 1]) == kind then Some(opts[|opts| - 1])
    else LastOf(opts[..|opts| - 1], kind)
  }

  /** The option of a kind that no later option of that kind follows is the
      one that wins. */
  lemma {:induction false} LastOfIsLast(opts: seq<SourceOption>, kind: OptionKind, i: nat)
    requires i < |opts| && KindOf(opts[i]) == kind
    requires forall j :: i < j < |opts| ==> KindOf(opts[j]) != kind
    ensures LastOf(opts, kind) == Some(opts[i])
    decreases |opts|
  {
    if i < |opts| - 1 {
      var front := opts[..|opts| - 1];
      assert front[i] == opts[i];
      forall j | i < j < |front| ensures KindOf(front[j]) != kind {
        assert front[j] == opts[j];
      }
      LastOfIsLast(front, kind, i);
    }
  }

  /** The logger, configuration and client after the options are applied. */
  function LoggerOf(opts: seq<SourceOption>): Option<Logger>
  {
    match LastOf(opts, LoggerOption)
    case Some(WithLogger(l)) => l
    case _ => None
  }

  function ConfigOf(opts: seq<SourceOption>): Option<Config>
  {
    match LastOf(opts, ConfigOption)
    case Some(WithConfig(c)) => c
    case _ => None
  }

  function ClientOf(opts: seq<SourceOption>): Option<Client>
  {
    match LastOf(opts, ClientOption)
    case Some(WithPrometheusClient(c)) => c
    case _ => None
  }

  /** With no option of a kind, its field stays unset. */
  lemma NoOptionLeavesUnset(opts: seq<SourceOption>)
    ensures (forall i :: 0 <= i < |opts| ==> !opts[i].WithLogger?) ==> LoggerOf(opts) == None
    ensures (forall i :: 0 <= i < |opts| ==> !opts[i].WithConfig?) ==> ConfigOf(opts) == None
    ensures (forall i :: 0 <= i < |opts| ==> !opts[i].WithPrometheusClient?) ==> ClientOf(opts) == None
  {
  }

  /** The sequence of registry values, one per key, in some order: what the
      flattening loop of Fetch appends. `keys` records which key each entry
      came from. */
  method Flatten(m: Registry) returns (instances: seq<Instance>, ghost keys: seq<string>)
    ensures |instances| == |keys| == |m|
    ensures forall i :: 0 <= i < |keys| ==> keys[i] in m && instances[i] == m[keys[i]]
    ensures forall i, j :: 0 <= i < j < |keys| ==> keys[i] != keys[j]
    ensures forall k :: k in m ==> k in keys
    ensures forall x :: x in instances <==> x in m.Values
  {
    instances, keys := [], [];
    var rest := m.Keys;
    while rest != {}
      invariant rest <= m.Keys
      invariant |instances| == |keys| && |keys| + |rest| == |m|
      invariant forall i :: 0 <= i < |keys| ==> keys[i] in m && keys[i] !in rest && instances[i] == m[keys[i]]
      invariant forall i, j :: 0 <= i < j < |keys| ==> keys[i] != keys[j]
      invariant forall k :: k in m ==> k in rest || k in keys
      decreases |rest|
    {
      var k :| k in rest;
      instances := instances + [m[k]];
      keys := keys + [k];
      rest := rest - {k};
    }
    forall x | x in m.Values ensures x in instances {
      var k :| k in m && m[k] == x;
      var i :| 0 <= i < |keys| && keys[i] == k;
      assert instances[i] == x;
    }
  }

  /** The Kepler source. `instancesMap` is created empty by New and is never
      cleared: every Fetch adds to what earlier fetches registered. */
  class KeplerSource {
    var logger: Option<Logger>
    var cfg: Option<Config>
    var client: Option<Client>
    var v1API: Option<Api>
    var instancesMap: Registry

    ghost predicate Valid()
      reads this
    {
      WellFormed(instancesMap)
    }

    /** New: an empty registry, then the options in the order given. */
    constructor (opts: seq<SourceOption>)
      ensures Valid()
      ensures instancesMap == map[] && v1API == None
      ensures logger == LoggerOf(opts) && cfg == ConfigOf(opts) && client == ClientOf(opts)
    {
      logger, cfg, client, v1API := None, None, None, None;
      instancesMap := map[];
      new;
      var i := 0;
      while i < |opts|
        invariant 0 <= i <= |opts|
        invariant instancesMap == map[] && v1API == None
        invariant logger == LoggerOf(opts[..i]) && cfg == ConfigOf(opts[..i]) && client == ClientOf(opts[..i])
      {
        assert opts[..i + 1][..i] == opts[..i];
        Apply(opts[i]);
        i := i + 1;
      }
      assert opts[..i] == opts;
    }

    /** Applying one option sets its field and leaves every other field,
        the registry included, as it was. */
    method Apply(o: SourceOption)
      modifies this
      ensures instancesMap == old(instancesMap) && v1API == old(v1API)
      ensures logger == (if o.WithLogger? then o.logger else old(logger))
      ensures cfg == (if o.WithConfig? then o.cfg else old(cfg))
      ensures client == (if o.WithPrometheusClient? then o.client else old(client))
    {
      match o
      case WithLogger(l) => logger := l;
      case WithConfig(c) => cfg := c;
      case WithPrometheusClient(c) => client := c;
    }

    /** Stop has nothing to release. */
    method Stop() returns (err: Option<Error>)
      ensures err == None
    {
      err := None;
    }

    /** cpuMetrics and memMetrics: one query, then, for a vector, its sample
        loop. The new registry and the error are those of the phase
        specification; earlier registrations survive an error. */
    method MetricsPhase(query: string, rt: ResourceType, backend: string -> QueryResult,
                        providers: map<string, Provider>) returns (err: Option<Error>)
      requires Valid() && cfg.Some? && v1API.Some?
      modifies this`instancesMap
      ensures Valid()
      ensures logger == old(logger) && cfg == old(cfg) && client == old(client) && v1API == old(v1API)
      ensures var o := RunPhase(old(instancesMap), backend(query), rt, cfg.value.provider, providers);
        instancesMap == o.registry && err == o.err
    {
      var result := backend(query);
      match result {
        case QueryFailed(msg) =>
          return Some(QueryError(msg));
        case Vector(samples) =>
          ProcessKeepsWellFormed(instancesMap, samples, rt, cfg.value.provider, providers);
          err := AddSamples(samples, rt, cfg.value.provider, providers);
        case _ =>
          return Some(NotAVector(result));
      }
    }

    /** The sample loop of cpuMetrics and memMetrics, updating the registry
        in place, one sample at a time; the first error ends it. */
    method AddSamples(samples: seq<Sample>, rt: ResourceType, provider: string,
                      providers: map<string, Provider>) returns (err: Option<Error>)
      modifies this`instancesMap
      ensures var o := ProcessSamples(old(instancesMap), samples, rt, provider, providers);
        instancesMap == o.registry && err == o.err
    {
      var i := 0;
      while i < |samples|
        invariant 0 <= i <= |samples|
        invariant ProcessSamples(instancesMap, samples[i..], rt, provider, providers) ==
                  ProcessSamples(old(instancesMap), samples, rt, provider, providers)
      {
        assert samples[i..][0] == samples[i] && samples[i..][1..] == samples[i + 1..];
        ghost var before := instancesMap;
        err := AddSample(samples[i], rt, provider, providers);
        if err.Some? {
          assert ProcessSamples(before, samples[i..], rt, provider, providers) == PhaseOutcome(before, err);
          return;
        }
        assert ProcessSamples(before, samples[i..], rt, provider, providers) ==
               ProcessSamples(instancesMap, samples[i + 1..], rt, provider, providers);
        i := i + 1;
      }
      return None;
    }

    /** One pass of the sample loop: upsert the metric onto the instance
        registered under the sample's key, or skip the sample when its
        region cannot be found, or stop at an unknown provider, or register
        a new instance. */
    method AddSample(sample: Sample, rt: ResourceType, provider: string,
                     providers: map<string, Provider>) returns (err: Option<Error>)
      modifies this`instancesMap
      ensures StepSample(old(instancesMap), sample, rt, provider, providers) ==
        if err.Some? then Abort(err.value) else Continue(instancesMap)
      ensures err.Some? ==> instancesMap == old(instancesMap)
    {
      var labels := sample.labels;
      var m := NewMetric(rt, sample);
      var name := InstanceKey(labels);
      if name in instancesMap {
        var instance := instancesMap[name];
        instancesMap := instancesMap[name := instance.(metrics := Upsert(instance.metrics, m))];
        return None;
      }
      var region: string;
      if "region" in labels {
        region := labels["region"];
      } else {
        var found := Region.GetRegionFromInstance(Label(labels, "instance"));
        if found.err.Some? {
          return None;
        }
        region := found.region;
      }
      if provider !in providers {
        return Some(ProviderNotFound(provider));
      }
      var instance := Instance(providers[provider], "kepler", name, region, labels, Upsert(map[], m));
      instancesMap := instancesMap[name := instance];
      return None;
    }

    /** Fetch: the CPU phase, then the memory phase, then the registry's
        instances, one per key. On the first error it returns no instances
        and the error; the registry keeps what the phases added. */
    method Fetch(backend: string -> QueryResult, providers: map<string, Provider>)
      returns (instances: seq<Instance>, err: Option<Error>)
      requires Valid() && cfg.Some? && client.Some?
      modifies this
      ensures Valid()
      ensures logger == old(logger) && cfg == old(cfg) && client == old(client)
      ensures v1API == Some(Api(client.value))
      ensures var window := cfg.value.interval;
        var o := FetchPhases(old(instancesMap), backend(PromQuery(CPU, window)),
                             backend(PromQuery(Memory, window)), cfg.value.provider, providers);
        instancesMap == o.registry && err == o.err
      ensures err.Some? ==> instances == []
      ensures err.None? ==> |instances| == |instancesMap|
      ensures err.None? ==> forall x :: x in instances <==> x in instancesMap.Values
      ensures err.None? ==> forall i, j :: 0 <= i < j < |instances| ==> instances[i].name != instances[j].name
    {
      v1API := Some(Api(client.value));
      var window := cfg.value.interval;
      err := MetricsPhase(PromQuery(CPU, window), CPU, backend, providers);
      if err.Some? {
        return [], err;
      }
      err := MetricsPhase(PromQuery(Memory, window), Memory, backend, providers);
      if err.Some? {
        return [], err;
      }
      ghost var keys;
      instances, keys := Flatten(instancesMap);
      forall i, j | 0 <= i < j < |instances| ensures instances[i].name != instances[j].name {
        assert instances[i].name == keys[i] && instances[j].name == keys[j];
      }
    }
  }
}
