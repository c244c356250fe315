# Kepler energy source: region resolver and instance registry

This project models the Kepler source of the Aether energy plugin, which is
the `pkg/kepler` package. Each Fetch runs two PromQL queries against
Prometheus, one for the CPU counter (`kepler_container_core_joules_total`)
and one for the memory counter (`kepler_container_dram_joules_total`). The
samples they return are merged into a registry of container instances keyed
`pod_name/container_name`. Fetch then returns the registry's instances.

The model has four modules:

- `Types` (`types.dfy`): the value types. These are label sets, metrics and
  a metric collection with at most one metric per resource type, instances,
  samples, the possible query results and the errors Fetch returns.
- `Region` (`region.dfy`): `getRegionFromInstance`, modelled as pure
  functions.
  - The pattern `(europe|asia|australia|southamerica|me|africa|us)-[a-z]+[0-9]+`
    is matched by a hand-written scanner.
  - The scanner is proved equal to a declarative reading of Go's
    `FindString`: the leftmost match and, at that start, the longest one.
  - `strings.Split` is modelled together with its round trip through `Join`.
  - The examples from the function's doc comment and tests are proved as
    lemmas.
- `Ingest` (`ingest.dfy`): a specification on values. It covers one
  iteration of the sample loop of `cpuMetrics`/`memMetrics` (`StepSample`),
  a whole phase (`ProcessSamples`, `RunPhase`) and the two phases of a
  fetch (`FetchPhases`). It also holds the properties of these.
- `Kepler` (`kepler.dfy`): the `KeplerSource` class.
  - Its fields are `logger`, `cfg`, `client`, `v1API` and `instancesMap`.
  - `New` and its functional options, `Stop` and `Fetch` are methods that
    update those fields in place.
  - One method models `cpuMetrics` and `memMetrics` (they differ only in the
    resource type and a per-sample debug log in `cpuMetrics`). Its sample loop is proved to compute what `Ingest`
    specifies, one pass of the loop at a time.
  - `Fetch`'s flattening loop is proved to return the registry's values.

The Prometheus query is a parameter `backend: string -> QueryResult` that
maps the PromQL text to its result: a failure, a vector of samples, or
another result shape. The provider table `v1.Providers` is a parameter
`providers: map<string, Provider>`.

Where the code and the design description of the system disagree, the model
follows the code:

- The registry key is `pod_name + "/" + container_name`, not `container_id`.
- Instances get no id and no status.
- The registry is created once, in `New`, and is never cleared. Instances
  therefore accumulate across fetches (`Ingest.StaleInstancePersists`).
  They are not rebuilt per cycle.
- As a consequence, a fetch depends on the fetches before it: two identical
  fetches can leave different registries (`Ingest.RepeatedFetchDiffers`).
  In that case a CPU sample with no resolvable region is skipped the first
  time. The memory sample then registers its key from its `region` label.
  The second time round, the CPU sample finds the key and adds its metric.
- No conversion to kWh is applied. A zero reading is not skipped: the
  energy is copied from the sample unchanged.

## Model

| member | source | states |
|---|---|---|
| Region.GetRegionFromInstance | pkg/kepler/fetch.go:220-240 | Every failure is the empty region plus "unable to get region from instance: " followed by the name. A `gke-` name succeeds exactly when the pattern occurs in it, and its region is then the leftmost-longest occurrence. Any other name succeeds exactly when it contains a '.'. |
| Region.FindString | pkg/kepler/fetch.go:223-224 | The result is "" exactly when the pattern occurs nowhere. Otherwise it is the substring at the leftmost start where the pattern occurs, taken to the longest end at that start. |
| Region.MatchEndSound | pkg/kepler/fetch.go:223 | An end the scanner reports at a start is a match of the pattern there: an area word, '-', letters, then digits. |
| Region.MatchEndComplete | pkg/kepler/fetch.go:223 | Every match of the pattern at a start ends at or before the end the scanner reports, so the scanner finds the longest match there. |
| Region.LongestAt | pkg/kepler/fetch.go:223 | The end the scanner reports at a start is a match there, and no match there ends later. |
| Region.NoMatchAtStart | pkg/kepler/fetch.go:223 | Where the scanner reports no end, no match of the pattern starts. |
| Region.FindFromNone | pkg/kepler/fetch.go:224 | A scan from a position that finds nothing means no match starts at or after that position. |
| Region.FindFromSome | pkg/kepler/fetch.go:224 | A scan that finds (p, j) means s[p..j] matches, no match starts between the scan's start and p, and no match at p ends after j. |
| Region.Split | pkg/kepler/fetch.go:233 | strings.Split yields at least one field, and no field contains the separator. |
| Region.SplitJoin | pkg/kepler/fetch.go:233 | Joining the fields of strings.Split with the separator gives back the original string. |
| Region.SplitHasTwoFields | pkg/kepler/fetch.go:232-235 | A string that contains the separator splits into at least two fields, so the `len(parts) >= 2` guard always holds. |
| Region.DottedNameRegion | pkg/kepler/fetch.go:231-237 | A non-`gke-` name with a '.' always resolves, to the text between its first dot and the next dot or the end. |
| Region.GkeNameIgnoresDots | pkg/kepler/fetch.go:221-229 | A `gke-` name with a '.' splits into two or more fields, yet it fails exactly when the pattern has no match. The dotted rule never applies to it. |
| Region.GkeDottedExample | pkg/kepler/fetch.go:221-229 | "gke-pool.eu-west-1.internal" fails even though its second dotted field is "eu-west-1". |
| Region.GkeExampleEurope | pkg/kepler/fetch_test.go:84-90 | "gke-gc0-europe-west1-default-f0c26727-1irq" resolves to "europe-west1" without error. |
| Region.GkeExampleUs | pkg/kepler/fetch_test.go:91-98 | "gke-gc0-apps-us-central1-default-f0c26727-1irq" resolves to "us-central1" without error. |
| Region.GkeExampleFromDocs | pkg/kepler/fetch.go:218 | "gke-gc0-apps-europe-west1-default-ca15cfa4-hrb7" resolves to "europe-west1". |
| Region.GkeExampleWithoutZone | pkg/kepler/fetch_test.go:108-116 | "gke-gc0-apps-europe-west-medium-nodes-f09525f4-uokn" fails with the empty region. |
| Region.DottedExampleFromTests | pkg/kepler/fetch_test.go:75-82 | "ip-10-12-12-154.eu-central-1.compute.internal" resolves to "eu-central-1" without error. |
| Region.DottedExampleFromDocs | pkg/kepler/fetch.go:219 | "ip-192-168-29-157.eu-north-1.compute.internal" resolves to "eu-north-1". |
| Region.NeitherSchemeExample | pkg/kepler/fetch_test.go:99-106 | "invalid-instance" fails with the empty region. |
| Types.Upsert | pkg/kepler/fetch.go:100 | The metric collection gains the metric's resource type, holds the new metric under it, and keeps every other resource type's metric. This is the behaviour assumed of the external `Metrics.Upsert`. |
| Ingest.InstanceKey | pkg/kepler/fetch.go:93-95 | The key is the pod name, a '/', then the container name, with an absent label read as "". With KeyInjective, a key made from a pod name without '/' identifies its pod and container. |
| Ingest.NewMetric | pkg/kepler/fetch.go:85-88 | The metric built for a sample has the phase's resource type, the sample's value as its energy and the sample's labels. |
| Ingest.SampleRegion | pkg/kepler/fetch.go:106-113 | A present `region` label is the region, even when empty, and never fails. Otherwise the result is the resolver's result for the `instance` label, read as "" when absent. A failure carries the empty region. |
| Ingest.NewInstance | pkg/kepler/fetch.go:120-128 | A new instance has the provider from the table, service "kepler", name equal to the key, the region and the sample's labels. Its metrics hold exactly one entry, under the phase's resource type, and that entry is the sample's metric (NewMetric). |
| Ingest.StepSample | pkg/kepler/fetch.go:90-129 | For a known key, only that instance's metric of the phase's resource type is upserted. The keys, the instance's identity and every other entry stay as they were. For a new key whose region cannot be resolved, the registry is unchanged. The step aborts, with "provider not found", exactly when the key is new, the region resolved and the provider is unknown. Otherwise a new instance is added: provider from the table, service "kepler", name equal to the key, the resolved region, the sample's labels and exactly the one metric. |
| Ingest.ProcessSamples | pkg/kepler/fetch.go:74-130 | The loop runs the samples front to back and stops at the first abort, keeping the registry reached so far. Its only error is "provider not found", and a known provider never errors. |
| Ingest.RunPhase | pkg/kepler/fetch.go:58-72 | A failed query ends the phase with its error, and a non-vector result with a "not a vector" error. Both leave the registry untouched. A vector is processed sample by sample. |
| Ingest.FetchPhases | pkg/kepler/fetch.go:31-41 | A fetch succeeds only when both queries return vectors. With a known provider it succeeds exactly then. |
| Ingest.PromQuery | pkg/kepler/fetch.go:16 | The query text has the fixed template's length plus the window's. It carries the counter name ("core" or "dram") at its fixed place and the window between "[" and "])", so both can be read back. |
| Ingest.ProcessKeepsWellFormed | pkg/kepler/fetch.go:120-129 | A phase keeps every instance named after its key, with service "kepler" and at least one metric. |
| Ingest.ProcessGrows | pkg/kepler/fetch.go:97-129 | A phase only adds keys and metrics. No instance loses its identity, whether the phase succeeds or aborts. |
| Ingest.AbortNeedsNewKey | pkg/kepler/fetch.go:97-118 | A phase that errors in its loop errors only with "provider not found" for an unknown provider. Some sample of the phase then had a key absent before the phase and a resolvable region. With UnknownProviderAborts: with an unknown provider, a phase errors exactly when some sample has such a key and region. |
| Ingest.UnknownProviderAborts | pkg/kepler/fetch.go:115-118 | With an unknown provider, any sample whose key was absent before the phase and whose region resolves makes the phase error with "provider not found". |
| Ingest.PhaseRegisters | pkg/kepler/fetch.go:97-129 | With a known provider, a sample anywhere in the vector whose key is registered or whose region resolves leaves its key registered, with a metric of the phase's resource type. |
| Ingest.ProcessLeavesOtherKeys | pkg/kepler/fetch.go:93-101 | A key that no sample carries keeps its instance unchanged. An unregistered key stays unregistered. |
| Ingest.ProcessKeepsOtherMetrics | pkg/kepler/fetch.go:177-181 | A phase for one resource type leaves every metric of another resource type unchanged. |
| Ingest.ProcessAppend | pkg/kepler/fetch.go:74-130 | Processing a + b is processing a and then, unless a aborted, b from the resulting registry. |
| Ingest.StepIdempotent | pkg/kepler/fetch.go:99-101 | Processing the same sample twice in a row leaves the registry as one pass does, because the metric is replaced and not accumulated. |
| Ingest.DuplicateSampleIdempotent | pkg/kepler/fetch.go:74-101 | A vector ending in a repeated sample gives the same outcome as with a single copy. |
| Ingest.LastSampleWins | pkg/kepler/fetch.go:97-101 | After a phase, the metric of the last sample's key for the phase's resource type is that sample's metric. |
| Ingest.FetchGrows | pkg/kepler/fetch.go:26-41 | A fetch only extends the registry, whatever either query returns. |
| Ingest.FetchKeepsWellFormed | pkg/kepler/fetch.go:26-41 | A fetch keeps the registry well formed. |
| Ingest.StaleInstancePersists | pkg/kepler/kepler.go:45-47 | An instance from an earlier fetch that no sample of this fetch mentions is still in the registry, unchanged. The map is never cleared. |
| Ingest.CpuFailureSkipsMemory | pkg/kepler/fetch.go:32-35 | When the CPU phase fails, the fetch's outcome is that phase's outcome, and the memory result is never used. A CPU query that fails or is not a vector leaves the registry untouched. |
| Ingest.CrossPhaseMerge | pkg/kepler/fetch.go:31-41 | For one-sample vectors: a CPU sample and a memory sample with the same key end on one instance that carries both metrics, with their values. A new key's instance is the one the CPU sample created. |
| Ingest.CrossPhaseMergeVectors | pkg/kepler/fetch.go:31-41 | For vectors of any length, with a known provider: a CPU sample and a memory sample with the same key, the CPU one registered or resolvable, make the fetch succeed with one instance under that key carrying both a CPU and a memory metric. |
| Ingest.RepeatedFetchDiffers | pkg/kepler/kepler.go:45-47 | Two identical fetches can leave different registries. A CPU sample with no resolvable region, plus a memory sample with the same key and a `region` label, give an instance without a CPU metric the first time. The second time the instance has the CPU metric. |
| Ingest.QueriesDiffer | pkg/kepler/fetch.go:32-38 | The CPU and memory queries are different PromQL texts for every window. |
| Ingest.KeyInjective | pkg/kepler/fetch.go:90-95 | For pod names without '/', two samples share a key exactly when their pod names and container names are equal. |
| Kepler.LastOf | pkg/kepler/kepler.go:50-52 | The option found is of the kind asked for and is one of the options. None is found exactly when no option of that kind is given. |
| Kepler.LastOfIsLast | pkg/kepler/kepler.go:50-52 | The option of a kind that no later option of that kind follows is the one that takes effect. |
| Kepler.NoOptionLeavesUnset | pkg/kepler/kepler.go:43-55 | With no option of a kind, the corresponding field stays nil. |
| Kepler.Flatten | pkg/kepler/fetch.go:43-47 | The output has one entry per key, each equal to that key's instance, with no key repeated. Its elements are exactly the registry's values. |
| Kepler.KeplerSource.constructor | pkg/kepler/kepler.go:43-55 | New starts with an empty registry and then applies the options in order. Each field holds the last option given for it, or nil. |
| Kepler.KeplerSource.Apply | pkg/kepler/kepler.go:25-41 | Each option sets its own field and leaves every other field unchanged, including the registry. |
| Kepler.KeplerSource.Stop | pkg/kepler/fetch.go:20-22 | Stop returns no error. |
| Kepler.KeplerSource.MetricsPhase | pkg/kepler/fetch.go:52-72 | The query's outcome is handled as RunPhase specifies. A failed query or a non-vector result returns its error with the registry unchanged. A vector goes through the sample loop. Only the registry changes, and it stays well formed. |
| Kepler.KeplerSource.AddSamples | pkg/kepler/fetch.go:74-132 | The in-place sample loop leaves the registry and the error that ProcessSamples specifies. An error returns at once, keeping what earlier samples registered. |
| Kepler.KeplerSource.AddSample | pkg/kepler/fetch.go:75-129 | One pass of the loop body, with its `continue` and `return`, changes the registry exactly as StepSample specifies. It returns an error exactly when StepSample aborts, and then leaves the registry as it was. |
| Kepler.KeplerSource.Fetch | pkg/kepler/fetch.go:26-50 | Fetch sets the API from the client, then runs the CPU phase and then the memory phase, with the queries for the configured window. The registry and the error are those of FetchPhases. On error it returns no instances. On success it returns one instance per key, with no name repeated, and exactly the registry's values. |

## Left out

- Kepler.KeplerSource.Fetch: requires the configuration and the Prometheus client to be set. The code dereferences them with no check (`*k.client` at fetch.go:29, `k.cfg.Interval` at fetch.go:32), so `Fetch` after a `New` without those options panics. That panic is not modelled.
- Kepler.KeplerSource.Fetch: a nil logger is not a precondition. The code panics at the first log call when the logger is nil, and the model carries on without logging. Log calls happen on:
  - a query error in either phase;
  - query warnings;
  - every CPU sample;
  - a sample, in either phase, whose key is new and whose region cannot be resolved.
- Kepler.KeplerSource.MetricsPhase: requires the configuration and the API to be set, and the nil-logger panic is not modelled, as for Fetch.
- Logging and query warnings (fetch.go:60, 64-66, 81, 110): these do not affect control flow.
- The Prometheus client library: `prometheus.NewAPI`, `Query`, the context and `time.Now()`.
  - `v1API` becomes `Api(client)`.
  - The query becomes the `backend` parameter.
  - A Prometheus error is represented only by its message.
- The text of formatted errors (`fmt.Errorf` with `%T`): the error values carry the result or the provider name instead.
- `cfg.Interval.String()`: the configured window is kept already rendered as a string, because `time.Duration` formatting is not part of this package.
- External aether types (`v1.Instance`, `v1.Metric`, `Metrics.Upsert`, `v1.Providers`). Their source is not part of this model.
  - Only the fields this package sets are kept. The metric name given to `v1.NewMetric` (the resource type's string, fetch.go:85) is not kept: the metric carries its resource type instead.
  - Upsert is assumed to replace the metric of the same resource type.
  - The provider table is a parameter.
- Pointer identity: the registry holds `*v1.Instance` values. The model holds instance values, so the aliasing between the returned slice and the registry is not captured.
- Floating-point energy: `sample.Value` is copied unchanged, so it is an opaque `real`.
- `convertJoulesTokWh`: no source file of this package defines it.
- Go map iteration order in the flattening loop: the output order is chosen nondeterministically, and the contract speaks only of its contents.
- The order in which `sample.Metric` is copied into `labels` (fetch.go:77-79): the copy is the same map in any order, so the labels are the sample's label set.
- cmd/kepler.go (process bootstrap and plugin serving) and pkg/config/config.go (environment parsing): these are I/O with no logic of their own.
- General regular-expression semantics: only the one fixed pattern is implemented.
