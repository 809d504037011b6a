/** Running a candidate configuration. The container runtime is replaced by an
    oracle: a deterministic verdict per configuration (true when the test
    program exits with status zero). */
module Trials {
  import opened Configs

  type Oracle = Config -> bool

  /** What one trial reports: the verdict, and the configuration it ran. */
  datatype Outcome = Outcome(success: bool, conf: Config)

  /** One trial: the verdict comes with the very configuration that was run. */
  function RunContainer(oracle: Oracle, conf: Config): (r: Outcome)
    ensures r.conf == conf
    ensures r.success <==> oracle(conf)
  {
    Outcome(oracle(conf), conf)
  }

  /** A batch of trials: one outcome per candidate, in the candidates' order. */
  function RunBatch(oracle: Oracle, cands: seq<Config>): (r: seq<Outcome>)
    ensures |r| == |cands|
    ensures forall k :: 0 <= k < |cands| ==> r[k].conf == cands[k] && (r[k].success <==> oracle(cands[k]))
  {
    seq(|cands|, k requires 0 <= k < |cands| => RunContainer(oracle, cands[k]))
  }

  /** Every successful outcome carries a list for every type. */
  predicate SuccessesComplete(outs: seq<Outcome>) {
    forall k :: 0 <= k < |outs| && outs[k].success ==> Complete(outs[k].conf)
  }
}
