/** Value types shared by the region resolver, the instance registry and the
    Kepler source. The instance, metric and provider types belong to an
    external module whose source is not part of this model; only the fields
    the Kepler source fills in are kept. */
module Types {

  datatype Option<+T> = None | Some(value: T)

  /** A Prometheus label set (label name to label value). */
  type Labels = map<string, string>

  /** The value of a label, read as "" when the label is absent (a Go map
      lookup of a missing key). */
  function Label(labels: Labels, name: string): string
  {
    if name in labels then labels[name] else ""
  }

  datatype ResourceType = CPU | Memory

  /** One energy reading. The float64 energy is copied from the sample
      unchanged, so it is carried as an opaque `real`. */
  datatype Metric = Metric(resourceType: ResourceType, energy: real, labels: Labels)

  /** An instance's metric collection: at most one metric per resource type. */
  type Metrics = map<ResourceType, Metric>

  /** Metrics.Upsert: the metric replaces any metric of the same resource type. */
  function Upsert(ms: Metrics, m: Metric): (r: Metrics)
    ensures r.Keys == ms.Keys + {m.resourceType}
    ensures r[m.resourceType] == m
    ensures forall t :: t in ms && t != m.resourceType ==> r[t] == ms[t]
  {
    ms[m.resourceType := m]
  }

  datatype Provider = Provider(name: string)

  datatype Instance = Instance(
    provider: Provider,
    service: string,
    name: string,
    region: string,
    labels: Labels,
    metrics: Metrics)

  /** One sample of a Prometheus vector result: its label set and value. */
  datatype Sample = Sample(labels: Labels, value: real)

  /** The result of one Prometheus query: a transport or query error, or one
      of the four result shapes the API can return. */
  datatype QueryResult =
    | QueryFailed(message: string)
    | Vector(samples: seq<Sample>)
    | Scalar
    | Matrix
    | StringResult

  /** The errors Fetch can return. */
  datatype Error =
    | QueryError(message: string)
    | NotAVector(result: QueryResult)
    | ProviderNotFound(provider: string)

  /** Handles the Kepler source holds; their internals are not modelled. */
  datatype Logger = Logger(id: nat)
  datatype Client = Client(address: string)
  datatype Api = Api(client: Client)

  /** The configuration the Kepler source reads: the query window, already
      rendered the way Go's time.Duration.String renders it, and the name of
      the cloud provider. */
  datatype Config = Config(interval: string, provider: string)
}
