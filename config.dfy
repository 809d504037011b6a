/** Container configurations and the two ways the search derives a candidate
    configuration from a baseline. */
module Configs {
  import opened Catalog

  /** A JSON value: the parts of the OCI configuration the search never reads. */
  datatype Json =
    | JNull
    | JBool(b: bool)
    | JNumber(n: int)
    | JString(s: string)
    | JArray(items: seq<Json>)
    | JObject(members: seq<(string, Json)>)

  /** An OCI configuration: the lists under `process.capabilities`, and the
      rest of the document (root, mounts, args, ...) as one opaque value. */
  datatype Config = Config(caps: map<CapType, seq<Cap>>, rest: Json)

  /** Every capability-set type has a list. */
  predicate Complete(c: Config) {
    forall t: CapType :: t in c.caps
  }

  /** No type's list holds a capability twice. */
  predicate NoDupsAll(c: Config) {
    forall t :: t in c.caps ==> NoDups(c.caps[t])
  }

  /** A copy of `conf` whose capability object is replaced by one that gives
      every type the list `caps`. */
  function MakeNewConfAllSameCaps(conf: Config, caps: seq<Cap>): (r: Config)
    ensures Complete(r)
    ensures forall t :: r.caps[t] == caps
    ensures r.rest == conf.rest
  {
    var m := map[Bounding := caps, Effective := caps, Permitted := caps, Ambient := caps, Inheritable := caps];
    assert forall t: CapType :: t in m by {
      forall t: CapType ensures t in m {
        CapTypeCases(t);
      }
    }
    Config(m, conf.rest)
  }

  /** A copy of `conf` in which only the list of type `typ` is replaced. */
  function MakeNewConfChangeType(conf: Config, typ: CapType, caps: seq<Cap>): (r: Config)
    ensures typ in r.caps && r.caps[typ] == caps
    ensures forall t :: t != typ ==> (t in r.caps <==> t in conf.caps)
    ensures forall t :: t != typ && t in conf.caps ==> r.caps[t] == conf.caps[t]
    ensures r.rest == conf.rest
    ensures Complete(conf) ==> Complete(r)
  {
    Config(conf.caps[typ := caps], conf.rest)
  }
}
