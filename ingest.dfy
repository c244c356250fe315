/** The registry update of the Kepler source, as a specification on values.
    One query phase walks the samples of a Prometheus vector and, per sample,
    either adds its metric to the instance already registered under the
    sample's key, or registers a new instance, or skips the sample, or stops
    the phase with an error. A fetch runs the CPU phase and then the memory
    phase over the same registry. The class in module Kepler performs these
    steps in place and is proved to agree with the functions here. */
module Ingest {
  import opened Types
  import opened Region

  /** The instance registry: instances by key. */
  type Registry = map<string, Instance>

  /** The key of a sample: pod name and container name joined by '/', an
      absent label read as "". */
  function InstanceKey(labels: Labels): (r: string)
    ensures var p, c := Label(labels, "pod_name"), Label(labels, "container_name");
      |r| == |p| + 1 + |c| && r[..|p|] == p && r[|p|] == '/' && r[|p| + 1..] == c
  {
    Label(labels, "pod_name") + "/" + Label(labels, "container_name")
  }

  /** The metric a sample carries for one resource type. */
  function NewMetric(rt: ResourceType, sample: Sample): (r: Metric)
    ensures r.resourceType == rt && r.energy == sample.value && r.labels == sample.labels
  {
    Metric(rt, sample.value, sample.labels)
  }

  /** The region of a sample: its "region" label when present (even if
      empty), otherwise the region derived from its "instance" label. */
  function SampleRegion(labels: Labels): (r: RegionResult)
    ensures "region" in labels ==> r.err.None? && r.region == labels["region"]
    ensures "region" !in labels ==> r == GetRegionFromInstance(Label(labels, "instance"))
    ensures r.err.Some? ==> r.region == ""
  {
    if "region" in labels then RegionResult(labels["region"], None)
    else GetRegionFromInstance(Label(labels, "instance"))
  }

  /** The instance a sample creates. */
  function NewInstance(p: Provider, key: string, region: string, sample: Sample, rt: ResourceType): (r: Instance)
    ensures r.provider == p && r.service == "kepler" && r.name == key && r.region == region
    ensures r.labels == sample.labels
    ensures r.metrics == map[rt := NewMetric(rt, sample)]
  {
    Instance(p, "kepler", key, region, sample.labels, Upsert(map[], NewMetric(rt, sample)))
  }

  /** Two instances that agree on everything but their metrics. */
  predicate SameIdentity(a: Instance, b: Instance)
  {
    a.provider == b.provider && a.service == b.service && a.name == b.name &&
    a.region == b.region && a.labels == b.labels
  }

  /** The outcome of one sample: carry on with a registry, or stop. */
  datatype Step = Continue(registry: Registry) | Abort(err: Error)

  /** One iteration of the sample loop. */
  function StepSample(m: Registry, sample: Sample, rt: ResourceType, provider: string,
                      providers: map<string, Provider>): (r: Step)
    // a known key: only that instance's metric of this resource type changes
    ensures InstanceKey(sample.labels) in m ==>
      var key := InstanceKey(sample.labels);
      r.Continue? && r.registry.Keys == m.Keys &&
      SameIdentity(m[key], r.registry[key]) &&
      r.registry[key].metrics == Upsert(m[key].metrics, NewMetric(rt, sample)) &&
      (forall k :: k in m && k != key ==> r.registry[k] == m[k])
    // a new key whose region cannot be found: the sample is skipped
    ensures InstanceKey(sample.labels) !in m && SampleRegion(sample.labels).err.Some? ==>
      r == Continue(m)
    // the loop stops exactly when a new instance would need an unknown provider
    ensures r.Abort? <==>
      InstanceKey(sample.labels) !in m && SampleRegion(sample.labels).err.None? &&
      provider !in providers
    ensures r.Abort? ==> r.err == ProviderNotFound(provider)
    // otherwise a new instance is registered under the key, and nothing else changes
    ensures InstanceKey(sample.labels) !in m && SampleRegion(sample.labels).err.None? &&
            provider in providers ==>
      var key := InstanceKey(sample.labels);
      r.Continue? && r.registry.Keys == m.Keys + {key} &&
      var inst := r.registry[key];
      inst.provider == providers[provider] && inst.service == "kepler" && inst.name == key &&
      inst.region == SampleRegion(sample.labels).region && inst.labels == sample.labels &&
      inst.metrics == map[rt := NewMetric(rt, sample)] &&
      (forall k :: k in m ==> r.registry[k] == m[k])
  {
    var key := InstanceKey(sample.labels);
    var metric := NewMetric(rt, sample);
    if key in m then
      Continue(m[key := m[key].(metrics := Upsert(m[key].metrics, metric))])
    else
      var region := SampleRegion(sample.labels);
      if region.err.Some? then Continue(m)
      else if provider !in providers then Abort(ProviderNotFound(provider))
      else Continue(m[key := NewInstance(providers[provider], key, region.region, sample, rt)])
  }

  /** The registry a phase leaves behind and the error it stopped with, if
      any. A phase that stops keeps what it registered before stopping. */
  datatype PhaseOutcome = PhaseOutcome(registry: Registry, err: Option<Error>)

  /** The sample loop of one phase, from the first sample to the last. */
  function ProcessSamples(m: Registry, samples: seq<Sample>, rt: ResourceType, provider: string,
                          providers: map<string, Provider>): (r: PhaseOutcome)
    ensures provider in providers ==> r.err.None?
    ensures r.err.Some? ==> r.err == Some(ProviderNotFound(provider))
    decreases |samples|
  {
    if samples == [] then PhaseOutcome(m, None)
    else
      match StepSample(m, samples[0], rt, provider, providers)
      case Abort(e) => PhaseOutcome(m, Some(e))
      case Continue(m') => ProcessSamples(m', samples[1..], rt, provider, providers)
  }

  /** One phase: a failed query or a result that is not a vector stops it
      before any sample is read. */
  function RunPhase(m: Registry, result: QueryResult, rt: ResourceType, provider: string,
                    providers: map<string, Provider>): (r: PhaseOutcome)
    ensures result.QueryFailed? ==> r == PhaseOutcome(m, Some(QueryError(result.message)))
    ensures !result.QueryFailed? && !result.Vector? ==> r == PhaseOutcome(m, Some(NotAVector(result)))
    ensures result.Vector? ==> r == ProcessSamples(m, result.samples, rt, provider, providers)
  {
    match result
    case QueryFailed(msg) => PhaseOutcome(m, Some(QueryError(msg)))
    case Vector(samples) => ProcessSamples(m, samples, rt, provider, providers)
    case _ => PhaseOutcome(m, Some(NotAVector(result)))
  }

  /** A fetch: the CPU phase, then, only if it succeeded, the memory phase. */
  function FetchPhases(m: Registry, cpu: QueryResult, mem: QueryResult, provider: string,
                       providers: map<string, Provider>): (r: PhaseOutcome)
    ensures r.err.None? ==> cpu.Vector? && mem.Vector?
    ensures provider in providers ==> (r.err.None? <==> cpu.Vector? && mem.Vector?)
  {
    var c := RunPhase(m, cpu, CPU, provider, providers);
    if c.err.Some? then c else RunPhase(c.registry, mem, Memory, provider, providers)
  }

  /** The name of the Kepler counter for a resource type. */
  function CounterTag(rt: ResourceType): string
  {
    match rt
    case CPU => "core"
    case Memory => "dram"
  }

  /** The PromQL query of a phase over a rate window. */
  function PromQuery(rt: ResourceType, window: string): (q: string)
    ensures |q| == 42 + |window|
    ensures q[22..26] == CounterTag(rt) && q[40..|q| - 2] == window
  {
    "rate(kepler_container_" + CounterTag(rt) + "_joules_total[" + window + "])"
  }

  // ---------------------------------------------------------------------
  // Properties of the registry update

  /** Every registered instance is named after its key, belongs to the
      "kepler" service and carries at least one metric. */
  predicate WellFormed(m: Registry)
  {
    forall k :: k in m ==> m[k].name == k && m[k].service == "kepler" && m[k].metrics != map[]
  }

  /** `m'` extends `m`: no key is lost, no instance changes identity and no
      metric is dropped. */
  predicate Grows(m: Registry, m': Registry)
  {
    m.Keys <= m'.Keys &&
    forall k :: k in m ==> SameIdentity(m[k], m'[k]) && m[k].metrics.Keys <= m'[k].metrics.Keys
  }

  lemma GrowsTransitive(m1: Registry, m2: Registry, m3: Registry)
    requires Grows(m1, m2) && Grows(m2, m3)
    ensures Grows(m1, m3)
  {
  }

  /** A phase keeps the registry well formed. */
  lemma {:induction false} ProcessKeepsWellFormed(m: Registry, samples: seq<Sample>, rt: ResourceType,
                                                  provider: string, providers: map<string, Provider>)
    requires WellFormed(m)
    ensures WellFormed(ProcessSamples(m, samples, rt, provider, providers).registry)
    decreases |samples|
  {
    if samples != [] {
      var r := StepSample(m, samples[0], rt, provider, providers);
      if r.Continue? {
        assert WellFormed(r.registry);
        ProcessKeepsWellFormed(r.registry, samples[1..], rt, provider, providers);
      }
    }
  }

  /** A phase only extends the registry, whether it succeeds or stops. */
  lemma {:induction false} ProcessGrows(m: Registry, samples: seq<Sample>, rt: ResourceType,
                                        provider: string, providers: map<string, Provider>)
    ensures Grows(m, ProcessSamples(m, samples, rt, provider, providers).registry)
    decreases |samples|
  {
    if samples != [] {
      var r := StepSample(m, samples[0], rt, provider, providers);
      if r.Continue? {
        assert Grows(m, r.registry);
        ProcessGrows(r.registry, samples[1..], rt, provider, providers);
        GrowsTransitive(m, r.registry, ProcessSamples(r.registry, samples[1..], rt, provider, providers).registry);
      }
    }
  }

  /** A phase stops on a sample only for an unknown provider, and only at a
      sample whose key was not registered before the phase and whose region
      was found. */
  lemma {:induction false} AbortNeedsNewKey(m: Registry, samples: seq<Sample>, rt: ResourceType,
                                            provider: string, providers: map<string, Provider>)
    requires ProcessSamples(m, samples, rt, provider, providers).err.Some?
    ensures provider !in providers
    ensures ProcessSamples(m, samples, rt, provider, providers).err == Some(ProviderNotFound(provider))
    ensures exists i :: 0 <= i < |samples| && InstanceKey(samples[i].labels) !in m &&
                        SampleRegion(samples[i].labels).err.None?
    decreases |samples|
  {
    assert samples != [];
    var r := StepSample(m, samples[0], rt, provider, providers);
    if r.Continue? {
      var rest := samples[1..];
      AbortNeedsNewKey(r.registry, rest, rt, provider, providers);
      var i :| 0 <= i < |rest| && InstanceKey(rest[i].labels) !in r.registry &&
               SampleRegion(rest[i].labels).err.None?;
      assert m.Keys <= r.registry.Keys;
      assert samples[i + 1] == rest[i];
    } else {
      assert InstanceKey(samples[0].labels) !in m && SampleRegion(samples[0].labels).err.None?;
    }
  }

  /** With an unknown provider, a sample whose key was not registered before
      the phase and whose region is found always stops the phase: nothing
      before it can register its key, since no sample registers anything. */
  lemma {:induction false} UnknownProviderAborts(m: Registry, samples: seq<Sample>, rt: ResourceType,
                                                 provider: string, providers: map<string, Provider>, i: nat)
    requires provider !in providers
    requires i < |samples| && InstanceKey(samples[i].labels) !in m && SampleRegion(samples[i].labels).err.None?
    ensures ProcessSamples(m, samples, rt, provider, providers).err == Some(ProviderNotFound(provider))
    decreases i
  {
    var r := StepSample(m, samples[0], rt, provider, providers);
    if r.Continue? && i > 0 {
      assert r.registry.Keys == m.Keys;
      assert samples[1..][i - 1] == samples[i];
      UnknownProviderAborts(r.registry, samples[1..], rt, provider, providers, i - 1);
    }
  }

  /** With a known provider, a sample whose key is registered, or whose region
      is found, leaves its key registered with a metric of the phase's
      resource type, wherever it stands in the vector. */
  lemma PhaseRegisters(m: Registry, samples: seq<Sample>, rt: ResourceType,
                       provider: string, providers: map<string, Provider>, i: nat)
    requires provider in providers
    requires i < |samples|
    requires InstanceKey(samples[i].labels) in m || SampleRegion(samples[i].labels).err.None?
    ensures var r := ProcessSamples(m, samples, rt, provider, providers).registry;
      InstanceKey(samples[i].labels) in r && rt in r[InstanceKey(samples[i].labels)].metrics
  {
    var key := InstanceKey(samples[i].labels);
    var a, b := samples[..i], samples[i..];
    assert samples == a + b;
    ProcessAppend(m, a, b, rt, provider, providers);
    var m1 := ProcessSamples(m, a, rt, provider, providers).registry;
    ProcessGrows(m, a, rt, provider, providers);
    var m2 := StepSample(m1, b[0], rt, provider, providers).registry;
    assert b[0] == samples[i];
    assert key in m2 && rt in m2[key].metrics;
    assert ProcessSamples(m1, b, rt, provider, providers) == ProcessSamples(m2, b[1..], rt, provider, providers);
    ProcessGrows(m2, b[1..], rt, provider, providers);
  }

  /** A key that no sample of the phase carries keeps its instance, and a
      key that is not registered stays unregistered. */
  lemma {:induction false} ProcessLeavesOtherKeys(m: Registry, samples: seq<Sample>, rt: ResourceType,
                                                  provider: string, providers: map<string, Provider>, k: string)
    requires forall i :: 0 <= i < |samples| ==> InstanceKey(samples[i].labels) != k
    ensures var m' := ProcessSamples(m, samples, rt, provider, providers).registry;
      (k in m' <==> k in m) && (k in m ==> m'[k] == m[k])
    decreases |samples|
  {
    if samples != [] {
      var r := StepSample(m, samples[0], rt, provider, providers);
      if r.Continue? {
        ProcessLeavesOtherKeys(r.registry, samples[1..], rt, provider, providers, k);
      }
    }
  }

  /** A phase for one resource type leaves the metrics of every other
      resource type as they were. */
  lemma {:induction false} ProcessKeepsOtherMetrics(m: Registry, samples: seq<Sample>, rt: ResourceType,
                                                    provider: string, providers: map<string, Provider>,
                                                    k: string, t: ResourceType)
    requires k in m && t != rt && t in m[k].metrics
    ensures var m' := ProcessSamples(m, samples, rt, provider, providers).registry;
      k in m' && t in m'[k].metrics && m'[k].metrics[t] == m[k].metrics[t]
    decreases |samples|
  {
    if samples != [] {
      var r := StepSample(m, samples[0], rt, provider, providers);
      if r.Continue? {
        ProcessKeepsOtherMetrics(r.registry, samples[1..], rt, provider, providers, k, t);
      }
    }
  }

  /** Processing two runs of samples is processing the first and, unless it
      stopped, carrying on with the second. */
  lemma {:induction false} ProcessAppend(m: Registry, a: seq<Sample>, b: seq<Sample>, rt: ResourceType,
                                         provider: string, providers: map<string, Provider>)
    ensures var first := ProcessSamples(m, a, rt, provider, providers);
      ProcessSamples(m, a + b, rt, provider, providers) ==
        if first.err.Some? then first else ProcessSamples(first.registry, b, rt, provider, providers)
    decreases |a|
  {
    if a == [] {
      assert a + b == b;
    } else {
      assert (a + b)[0] == a[0];
      assert (a + b)[1..] == a[1..] + b;
      var r := StepSample(m, a[0], rt, provider, providers);
      if r.Continue? {
        ProcessAppend(r.registry, a[1..], b, rt, provider, providers);
      }
    }
  }

  /** Processing the same sample a second time right away changes nothing:
      the metric is replaced, not added up. */
  lemma StepIdempotent(m: Registry, x: Sample, rt: ResourceType, provider: string,
                       providers: map<string, Provider>)
    requires StepSample(m, x, rt, provider, providers).Continue?
    ensures var m' := StepSample(m, x, rt, provider, providers).registry;
      StepSample(m', x, rt, provider, providers) == Continue(m')
  {
    var key := InstanceKey(x.labels);
    var m' := StepSample(m, x, rt, provider, providers).registry;
    if key in m' {
      var m'' := StepSample(m', x, rt, provider, providers).registry;
      assert m'[key].metrics[rt] == NewMetric(rt, x);
      assert m''[key].metrics == m'[key].metrics;
      assert m''[key] == m'[key];
      assert m'' == m';
    }
  }

  /** A sample that is repeated at the end of a vector leaves the registry as
      a single copy does. */
  lemma DuplicateSampleIdempotent(m: Registry, a: seq<Sample>, x: Sample, rt: ResourceType,
                                  provider: string, providers: map<string, Provider>)
    ensures ProcessSamples(m, a + [x, x], rt, provider, providers) ==
            ProcessSamples(m, a + [x], rt, provider, providers)
  {
    ProcessAppend(m, a, [x, x], rt, provider, providers);
    ProcessAppend(m, a, [x], rt, provider, providers);
    var first := ProcessSamples(m, a, rt, provider, providers);
    if first.err.None? {
      var r := StepSample(first.registry, x, rt, provider, providers);
      assert [x, x][1..] == [x];
      if r.Continue? {
        StepIdempotent(first.registry, x, rt, provider, providers);
        assert ProcessSamples(r.registry, [x], rt, provider, providers) == PhaseOutcome(r.registry, None);
      }
    }
  }

  /** The last sample of a vector decides the metric of its key: whatever an
      earlier sample with the same key recorded is replaced. */
  lemma LastSampleWins(m: Registry, a: seq<Sample>, x: Sample, rt: ResourceType,
                       provider: string, providers: map<string, Provider>)
    requires var o := ProcessSamples(m, a + [x], rt, provider, providers);
      o.err.None? && InstanceKey(x.labels) in o.registry
    ensures var o := ProcessSamples(m, a + [x], rt, provider, providers);
      rt in o.registry[InstanceKey(x.labels)].metrics &&
      o.registry[InstanceKey(x.labels)].metrics[rt] == NewMetric(rt, x)
  {
    ProcessAppend(m, a, [x], rt, provider, providers);
    var first := ProcessSamples(m, a, rt, provider, providers);
    var r := StepSample(first.registry, x, rt, provider, providers);
    assert ProcessSamples(first.registry, [x], rt, provider, providers) ==
      if r.Abort? then PhaseOutcome(first.registry, Some(r.err))
      else ProcessSamples(r.registry, [], rt, provider, providers);
  }

  // ---------------------------------------------------------------------
  // Properties of a fetch

  /** A fetch only extends the registry, whatever the queries return. */
  lemma FetchGrows(m: Registry, cpu: QueryResult, mem: QueryResult, provider: string,
                   providers: map<string, Provider>)
    ensures Grows(m, FetchPhases(m, cpu, mem, provider, providers).registry)
  {
    var c := RunPhase(m, cpu, CPU, provider, providers);
    if cpu.Vector? {
      ProcessGrows(m, cpu.samples, CPU, provider, providers);
    }
    if c.err.None? && mem.Vector? {
      ProcessGrows(c.registry, mem.samples, Memory, provider, providers);
      GrowsTransitive(m, c.registry, FetchPhases(m, cpu, mem, provider, providers).registry);
    }
  }

  /** A fetch keeps the registry well formed. */
  lemma FetchKeepsWellFormed(m: Registry, cpu: QueryResult, mem: QueryResult, provider: string,
                             providers: map<string, Provider>)
    requires WellFormed(m)
    ensures WellFormed(FetchPhases(m, cpu, mem, provider, providers).registry)
  {
    var c := RunPhase(m, cpu, CPU, provider, providers);
    if cpu.Vector? {
      ProcessKeepsWellFormed(m, cpu.samples, CPU, provider, providers);
    }
    if c.err.None? && mem.Vector? {
      ProcessKeepsWellFormed(c.registry, mem.samples, Memory, provider, providers);
    }
  }

  /** An instance registered by an earlier fetch whose key no sample of this
      fetch carries is still in the registry, unchanged: the registry is
      never cleared between fetches. */
  lemma StaleInstancePersists(m: Registry, cpu: QueryResult, mem: QueryResult, provider: string,
                              providers: map<string, Provider>, k: string)
    requires k in m
    requires cpu.Vector? ==> forall i :: 0 <= i < |cpu.samples| ==> InstanceKey(cpu.samples[i].labels) != k
    requires mem.Vector? ==> forall i :: 0 <= i < |mem.samples| ==> InstanceKey(mem.samples[i].labels) != k
    ensures var m' := FetchPhases(m, cpu, mem, provider, providers).registry;
      k in m' && m'[k] == m[k]
  {
    var c := RunPhase(m, cpu, CPU, provider, providers);
    if cpu.Vector? {
      ProcessLeavesOtherKeys(m, cpu.samples, CPU, provider, providers, k);
    }
    if c.err.None? && mem.Vector? {
      ProcessLeavesOtherKeys(c.registry, mem.samples, Memory, provider, providers, k);
    }
  }

  /** When the CPU phase fails, the memory result is never looked at: the
      fetch stops with the CPU phase's outcome. A CPU query that fails or
      does not return a vector leaves the registry untouched. */
  lemma CpuFailureSkipsMemory(m: Registry, cpu: QueryResult, mem: QueryResult, provider: string,
                              providers: map<string, Provider>)
    requires RunPhase(m, cpu, CPU, provider, providers).err.Some?
    ensures FetchPhases(m, cpu, mem, provider, providers) == RunPhase(m, cpu, CPU, provider, providers)
    ensures !cpu.Vector? ==> FetchPhases(m, cpu, mem, provider, providers).registry == m
  {
  }

  /** A CPU sample and a memory sample with the same key end up on one
      instance carrying both metrics; the instance is the one the CPU
      sample created when the key was new. */
  lemma CrossPhaseMerge(m: Registry, c: Sample, d: Sample, provider: string,
                        providers: map<string, Provider>)
    requires InstanceKey(c.labels) == InstanceKey(d.labels)
    requires provider in providers
    requires InstanceKey(c.labels) in m || SampleRegion(c.labels).err.None?
    ensures var o := FetchPhases(m, Vector([c]), Vector([d]), provider, providers);
      var key := InstanceKey(c.labels);
      o.err.None? && key in o.registry &&
      CPU in o.registry[key].metrics && Memory in o.registry[key].metrics &&
      o.registry[key].metrics[CPU] == NewMetric(CPU, c) &&
      o.registry[key].metrics[Memory] == NewMetric(Memory, d) &&
      (key !in m ==> o.registry[key].name == key && o.registry[key].region == SampleRegion(c.labels).region &&
                     o.registry[key].labels == c.labels)
  {
    var key := InstanceKey(c.labels);
    var r1 := StepSample(m, c, CPU, provider, providers);
    assert ProcessSamples(m, [c], CPU, provider, providers) == ProcessSamples(r1.registry, [], CPU, provider, providers);
    var r2 := StepSample(r1.registry, d, Memory, provider, providers);
    assert ProcessSamples(r1.registry, [d], Memory, provider, providers) ==
           ProcessSamples(r2.registry, [], Memory, provider, providers);
  }

  /** Fetches are not independent of one another. Take a CPU sample whose
      region cannot be found and a memory sample with the same key that
      carries a region label. The first fetch registers the key from the
      memory sample, with the memory metric only. The same fetch repeated
      then finds the key registered and adds the CPU metric. */
  lemma RepeatedFetchDiffers(m: Registry, c: Sample, d: Sample, provider: string,
                             providers: map<string, Provider>)
    requires InstanceKey(c.labels) == InstanceKey(d.labels) && InstanceKey(c.labels) !in m
    requires SampleRegion(c.labels).err.Some? && "region" in d.labels
    requires provider in providers
    ensures var o1 := FetchPhases(m, Vector([c]), Vector([d]), provider, providers);
      var o2 := FetchPhases(o1.registry, Vector([c]), Vector([d]), provider, providers);
      var key := InstanceKey(c.labels);
      o1.err.None? && o2.err.None? &&
      key in o1.registry && CPU !in o1.registry[key].metrics &&
      key in o2.registry && CPU in o2.registry[key].metrics &&
      o1.registry != o2.registry
  {
    var key := InstanceKey(c.labels);
    var s1 := StepSample(m, c, CPU, provider, providers);
    assert ProcessSamples(m, [c], CPU, provider, providers) == ProcessSamples(s1.registry, [], CPU, provider, providers);
    var s2 := StepSample(s1.registry, d, Memory, provider, providers);
    assert ProcessSamples(s1.registry, [d], Memory, provider, providers) ==
           ProcessSamples(s2.registry, [], Memory, provider, providers);
    var m1 := s2.registry;
    var s3 := StepSample(m1, c, CPU, provider, providers);
    assert ProcessSamples(m1, [c], CPU, provider, providers) == ProcessSamples(s3.registry, [], CPU, provider, providers);
    var s4 := StepSample(s3.registry, d, Memory, provider, providers);
    assert ProcessSamples(s3.registry, [d], Memory, provider, providers) ==
           ProcessSamples(s4.registry, [], Memory, provider, providers);
    assert CPU in s4.registry[key].metrics;
  }

  /** For any CPU and memory vectors: a CPU sample and a memory sample with
      the same key, where the key is registered or the CPU sample's region is
      found, end on one instance that carries both a CPU and a memory
      metric. */
  lemma CrossPhaseMergeVectors(m: Registry, cs: seq<Sample>, ds: seq<Sample>, provider: string,
                               providers: map<string, Provider>, i: nat, j: nat)
    requires provider in providers
    requires i < |cs| && j < |ds| && InstanceKey(cs[i].labels) == InstanceKey(ds[j].labels)
    requires InstanceKey(cs[i].labels) in m || SampleRegion(cs[i].labels).err.None?
    ensures var o := FetchPhases(m, Vector(cs), Vector(ds), provider, providers);
      var key := InstanceKey(cs[i].labels);
      o.err.None? && key in o.registry &&
      CPU in o.registry[key].metrics && Memory in o.registry[key].metrics
  {
    var key := InstanceKey(cs[i].labels);
    PhaseRegisters(m, cs, CPU, provider, providers, i);
    var c := ProcessSamples(m, cs, CPU, provider, providers).registry;
    PhaseRegisters(c, ds, Memory, provider, providers, j);
    ProcessKeepsOtherMetrics(c, ds, Memory, provider, providers, key, CPU);
  }

  /** The CPU and memory queries differ exactly in the counter they read. */
  lemma QueriesDiffer(window: string)
    ensures PromQuery(CPU, window) != PromQuery(Memory, window)
  {
    var prefix := "rate(kepler_container_";
    assert |prefix| == 22;
    assert PromQuery(CPU, window)[22] == 'c';
    assert PromQuery(Memory, window)[22] == 'd';
  }

  /** Distinct pods or containers get distinct keys, as long as neither name
      holds a '/' (Kubernetes names never do). */
  lemma KeyInjective(l1: Labels, l2: Labels)
    requires '/' !in Label(l1, "pod_name") && '/' !in Label(l2, "pod_name")
    ensures InstanceKey(l1) == InstanceKey(l2) <==>
      Label(l1, "pod_name") == Label(l2, "pod_name") &&
      Label(l1, "container_name") == Label(l2, "container_name")
  {
    var p1, p2 := Label(l1, "pod_name"), Label(l2, "pod_name");
    var c1, c2 := Label(l1, "container_name"), Label(l2, "container_name");
    if InstanceKey(l1) == InstanceKey(l2) {
      SlashSplit(p1, c1, p2, c2);
    }
  }

  /** Where the first '/' of a key lies fixes the pod name. */
  lemma SlashSplit(p1: string, c1: string, p2: string, c2: string)
    requires '/' !in p1 && '/' !in p2
    requires p1 + "/" + c1 == p2 + "/" + c2
    ensures p1 == p2 && c1 == c2
  {
    var s := p1 + "/" + c1;
    assert IndexOf(s, '/') == |p1| by { SlashAt(p1, c1); }
    assert IndexOf(s, '/') == |p2| by { SlashAt(p2, c2); }
    assert p1 == s[..|p1|] && p2 == s[..|p2|];
    assert c1 == s[|p1| + 1..] && c2 == s[|p2| + 1..];
  }

  lemma SlashAt(p: string, c: string)
    ensures '/' in p + "/" + c
    ensures '/' !in p ==> IndexOf(p + "/" + c, '/') == |p|
  {
    var s := p + "/" + c;
    assert s[|p|] == '/';
    assert s[..|p|] == p;
    if '/' !in p {
      IndexOfUnique(s, '/', |p|);
    }
  }

  /** The index of the first occurrence is the only index of an occurrence
      with none before it. */
  lemma {:induction false} IndexOfUnique(s: string, c: char, j: nat)
    requires j < |s| && s[j] == c && c !in s[..j]
    ensures c in s && IndexOf(s, c) == j
    decreases |s|
  {
    if s[0] != c {
      assert s[1..][..j - 1] == s[..j][1..];
      IndexOfUnique(s[1..], c, j - 1);
    }
  }
}
