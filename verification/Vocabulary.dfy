/** The vocabulary every component shares: optional values, decoded JSON, targets and manifests. */
module Vocabulary {

  datatype Option<+T> = None | Some(value: T)

  /** A point on the controller's clock. Zero is the zero value of the source's time type: "never". */
  type Time = int
  const NEVER: Time := 0

  /** Times count nanoseconds. */
  const SECOND: Time := 1_000_000_000

  /** What a time written as RFC 3339 text without a fraction can say. */
  type WholeTime = t: Time | t % SECOND == 0 witness 0

  /** Writing a time as text drops the fraction of its second. */
  function WholeSecond(t: Time): (w: WholeTime)
    ensures w <= t < w + 1_000_000_000 && w % 1_000_000_000 == 0
    ensures t % SECOND == 0 ==> w == t
  {
    t - t % SECOND
  }

  /** A decoded JSON value. Objects hold their fields in a map, so a tree never shares a node. */
  datatype Json =
    | Null
    | Bool(flag: bool)
    | Number(number: int)
    | Str(text: string)
    | Arr(items: seq<Json>)
    | Obj(fields: map<string, Json>)

  datatype TargetRef = TargetRef(namespace: string, kind: string, name: string, labels: map<string, string>)

  datatype Manifest = Manifest(
    uid: string,
    source: string,
    engine: string,
    resourceKind: string,
    spec: map<string, Json>,
    targets: seq<TargetRef>,
    duration: int,
    tier: string,
    planID: string)
  {
    /** The namespaces the manifest names a target in; targets without one do not count. */
    ghost function TargetNamespaces(): set<string> {
      set t | t in targets && t.namespace != "" :: t.namespace
    }

    /** Whether a namespace filter keeps the manifest; the empty filter keeps everything. */
    predicate TargetsNamespace(ns: string) {
      ns == "" || exists t | t in targets :: t.namespace == ns
    }
  }
}
