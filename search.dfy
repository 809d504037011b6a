/** The minimisation driver: one joint leave-one-out round over the whole
    catalogue, then one leave-one-out round per capability-set type. */
module Search {
  import opened Catalog
  import opened Configs
  import opened Trials
  import opened Candidates
  import opened Reducer

  /** What the joint round keeps: the capabilities whose omission from every
      type made the trial fail. Only `conf.rest` matters here. */
  function JointSurvivors(oracle: Oracle, conf: Config): set<Cap> {
    set c | c in AllCaps && !oracle(MakeNewConfAllSameCaps(conf, RemoveCap(AllCaps, c)))
  }

  /** What the round for `typ` keeps: the members of that type's list whose
      omission from that type alone made the trial fail. */
  function TypeSurvivors(oracle: Oracle, conf: Config, typ: CapType): set<Cap>
    requires typ in conf.caps
  {
    set c | c in conf.caps[typ] && !oracle(MakeNewConfChangeType(conf, typ, RemoveCap(conf.caps[typ], c)))
  }

  /** The configurations tried by the joint round: candidate k gives every
      type the catalogue without its k-th name. */
  function JointCandidates(conf: Config): (r: seq<Config>)
    ensures |r| == |AllCaps|
    ensures forall k :: 0 <= k < |AllCaps| ==> r[k] == MakeNewConfAllSameCaps(conf, RemoveCap(AllCaps, AllCaps[k]))
  {
    AllSameCandidates(conf, LeaveOneOut(AllCaps))
  }

  /** The configurations tried by the round for `typ` from baseline `conf`:
      candidate k replaces that type's list by the list without its k-th
      member. */
  function RoundCandidates(conf: Config, typ: CapType): (r: seq<Config>)
    requires typ in conf.caps
    ensures |r| == |conf.caps[typ]|
    ensures forall k :: 0 <= k < |r| ==>
              r[k] == MakeNewConfChangeType(conf, typ, RemoveCap(conf.caps[typ], conf.caps[typ][k]))
  {
    ChangeTypeCandidates(conf, typ, LeaveOneOut(conf.caps[typ]))
  }

  /** The joint round narrows every type to JointSurvivors. */
  lemma JointRoundNarrowing(oracle: Oracle, conf: Config)
    ensures SuccessesComplete(RunBatch(oracle, JointCandidates(conf)))
    ensures forall t :: Narrowed(Elems(AllCaps), RunBatch(oracle, JointCandidates(conf)), t) == JointSurvivors(oracle, conf)
  {
    AllCapsDistinct();
    var cands := JointCandidates(conf);
    var outs := RunBatch(oracle, cands);
    forall t ensures Narrowed(Elems(AllCaps), outs, t) == JointSurvivors(oracle, conf) {
      LeaveOneOutNarrowing(AllCaps, outs, t);
      forall c | c in Narrowed(Elems(AllCaps), outs, t) ensures c in JointSurvivors(oracle, conf) {
        var k :| 0 <= k < |AllCaps| && AllCaps[k] == c;
        assert cands[k] == MakeNewConfAllSameCaps(conf, RemoveCap(AllCaps, c));
      }
      forall c | c in JointSurvivors(oracle, conf) ensures c in Narrowed(Elems(AllCaps), outs, t) {
        var k :| 0 <= k < |AllCaps| && AllCaps[k] == c;
        assert cands[k] == MakeNewConfAllSameCaps(conf, RemoveCap(AllCaps, c));
      }
    }
  }

  /** The outcomes of the round for `typ`: one per member of that type's
      list, each trying the baseline with that member left out of `typ`. */
  lemma RoundOutcomes(oracle: Oracle, conf: Config, typ: CapType)
    requires Complete(conf)
    ensures SuccessesComplete(RunBatch(oracle, RoundCandidates(conf, typ)))
    ensures |RunBatch(oracle, RoundCandidates(conf, typ))| == |conf.caps[typ]|
    ensures forall k :: 0 <= k < |conf.caps[typ]| ==>
              var o := RunBatch(oracle, RoundCandidates(conf, typ))[k];
              && typ in o.conf.caps && o.conf.caps[typ] == RemoveCap(conf.caps[typ], conf.caps[typ][k])
              && (o.success <==> oracle(MakeNewConfChangeType(conf, typ, RemoveCap(conf.caps[typ], conf.caps[typ][k]))))
  {
    var outs := RunBatch(oracle, RoundCandidates(conf, typ));
    assert forall k :: 0 <= k < |outs| ==> outs[k].conf == RoundCandidates(conf, typ)[k];
  }

  /** The round for `typ` narrows `typ` to TypeSurvivors. */
  lemma TypeRoundNarrowing(oracle: Oracle, conf: Config, typ: CapType)
    requires Complete(conf) && NoDups(conf.caps[typ])
    ensures SuccessesComplete(RunBatch(oracle, RoundCandidates(conf, typ)))
    ensures Narrowed(Elems(conf.caps[typ]), RunBatch(oracle, RoundCandidates(conf, typ)), typ)
            == TypeSurvivors(oracle, conf, typ)
  {
    var l := conf.caps[typ];
    var outs := RunBatch(oracle, RoundCandidates(conf, typ));
    RoundOutcomes(oracle, conf, typ);
    LeaveOneOutNarrowing(l, outs, typ);
    forall c | c in Narrowed(Elems(l), outs, typ) ensures c in TypeSurvivors(oracle, conf, typ) {
      var k :| 0 <= k < |l| && l[k] == c;
    }
    forall c | c in TypeSurvivors(oracle, conf, typ) ensures c in Narrowed(Elems(l), outs, typ) {
      var k :| 0 <= k < |l| && l[k] == c;
    }
  }

  /** Every candidate of the round for `typ` holds the baseline's list for
      any other type. */
  lemma RoundCandidatesKeep(conf: Config, typ: CapType, t: CapType)
    requires Complete(conf) && t != typ
    ensures forall k :: 0 <= k < |RoundCandidates(conf, typ)| ==>
              t in RoundCandidates(conf, typ)[k].caps && RoundCandidates(conf, typ)[k].caps[t] == conf.caps[t]
  {
    var subcaps := LeaveOneOut(conf.caps[typ]);
    var cands := ChangeTypeCandidates(conf, typ, subcaps);
    forall k | 0 <= k < |cands| ensures t in cands[k].caps && cands[k].caps[t] == conf.caps[t] {
      assert cands[k] == MakeNewConfChangeType(conf, typ, subcaps[k]);
    }
  }

  /** The round for `typ` leaves every other type's set as it was, since
      every candidate holds that type's list fixed. */
  lemma TypeRoundKeepsOthers(oracle: Oracle, conf: Config, typ: CapType, t: CapType)
    requires Complete(conf) && t != typ
    ensures SuccessesComplete(RunBatch(oracle, RoundCandidates(conf, typ)))
    ensures Narrowed(Elems(conf.caps[t]), RunBatch(oracle, RoundCandidates(conf, typ)), t) == Elems(conf.caps[t])
  {
    var cands := RoundCandidates(conf, typ);
    RoundCandidatesKeep(conf, typ, t);
    var outs := RunBatch(oracle, cands);
    assert forall k :: 0 <= k < |outs| ==> outs[k].conf == cands[k];
    NarrowedKeepsAll(Elems(conf.caps[t]), outs, t);
  }

  /** One per-type round, as a relation between the baseline before and
      after it. */
  ghost predicate TypeRoundStep(oracle: Oracle, before: Config, typ: CapType, after: Config) {
    && Complete(before) && Complete(after) && NoDupsAll(after)
    && after.rest == before.rest
    && Elems(after.caps[typ]) == TypeSurvivors(oracle, before, typ)
    && forall t :: t != typ ==> Elems(after.caps[t]) == Elems(before.caps[t])
  }

  /** The baselines of a whole search: trace[0] after the joint round, then
      one more after each per-type round, in TypesCaps order; the per-type
      rounds happen exactly when the joint round kept something. */
  ghost predicate SearchTrace(oracle: Oracle, conf: Config, trace: seq<Config>) {
    && (|trace| == 1 || |trace| == 1 + |TypesCaps|)
    && Complete(trace[0]) && NoDupsAll(trace[0]) && trace[0].rest == conf.rest
    && (forall t :: Elems(trace[0].caps[t]) == JointSurvivors(oracle, conf))
    && (|trace| == 1 <==> JointSurvivors(oracle, conf) == {})
    && (forall k :: 0 <= k < |trace| ==> Complete(trace[k]))
    && forall k :: 0 <= k < |trace| - 1 ==> TypeRoundStep(oracle, trace[k], TypesCaps[k], trace[k + 1])
  }

  /** The configurations the per-type rounds of a trace submit, in order. */
  ghost function RoundTrials(trace: seq<Config>): seq<Config>
    requires |trace| <= 1 + |TypesCaps|
    requires forall k :: 0 <= k < |trace| ==> Complete(trace[k])
  {
    if |trace| <= 1 then []
    else RoundTrials(trace[..|trace| - 1]) + RoundCandidates(trace[|trace| - 2], TypesCaps[|trace| - 2])
  }

  /** Every list of `c` holds only catalogue members. */
  predicate WithinCatalogue(c: Config) {
    forall t :: t in c.caps ==> Elems(c.caps[t]) <= Elems(AllCaps)
  }

  /** Every baseline of a search holds only catalogue members. */
  lemma {:induction false} TraceWithinCatalogue(oracle: Oracle, conf: Config, trace: seq<Config>, k: nat)
    requires SearchTrace(oracle, conf, trace) && k < |trace|
    ensures WithinCatalogue(trace[k])
  {
    if k > 0 {
      TraceWithinCatalogue(oracle, conf, trace, k - 1);
      assert TypeRoundStep(oracle, trace[k - 1], TypesCaps[k - 1], trace[k]);
    }
  }

  /** The candidates of the joint round hold only catalogue members. */
  lemma JointCandidatesWithinCatalogue(conf: Config)
    ensures forall k :: 0 <= k < |JointCandidates(conf)| ==> WithinCatalogue(JointCandidates(conf)[k])
  {
    forall k | 0 <= k < |JointCandidates(conf)| ensures WithinCatalogue(JointCandidates(conf)[k]) {
      RemoveCapShrinks(AllCaps, AllCaps[k]);
    }
  }

  /** The candidates of a per-type round from a baseline within the catalogue
      hold only catalogue members. */
  lemma RoundCandidatesWithinCatalogue(conf: Config, typ: CapType)
    requires typ in conf.caps && WithinCatalogue(conf)
    ensures forall k :: 0 <= k < |RoundCandidates(conf, typ)| ==> WithinCatalogue(RoundCandidates(conf, typ)[k])
  {
    var l := conf.caps[typ];
    forall k | 0 <= k < |RoundCandidates(conf, typ)| ensures WithinCatalogue(RoundCandidates(conf, typ)[k]) {
      RemoveCapShrinks(l, l[k]);
    }
  }

  /** The per-type trials of a trace whose baselines lie within the catalogue
      hold only catalogue members. */
  lemma {:induction false} RoundTrialsWithinCatalogue(trace: seq<Config>)
    requires |trace| <= 1 + |TypesCaps|
    requires forall k :: 0 <= k < |trace| ==> Complete(trace[k]) && WithinCatalogue(trace[k])
    ensures forall k :: 0 <= k < |RoundTrials(trace)| ==> WithinCatalogue(RoundTrials(trace)[k])
  {
    if |trace| > 1 {
      var front := trace[..|trace| - 1];
      RoundTrialsWithinCatalogue(front);
      RoundCandidatesWithinCatalogue(trace[|trace| - 2], TypesCaps[|trace| - 2]);
      assert RoundTrials(trace) == RoundTrials(front) + RoundCandidates(trace[|trace| - 2], TypesCaps[|trace| - 2]);
    }
  }

  /** Every configuration a search hands to the oracle holds only catalogue
      members. */
  lemma TrialsWithinCatalogue(oracle: Oracle, conf: Config, trace: seq<Config>)
    requires SearchTrace(oracle, conf, trace)
    ensures forall k :: 0 <= k < |trace| ==> WithinCatalogue(trace[k])
    ensures forall k :: 0 <= k < |JointCandidates(conf) + RoundTrials(trace)| ==>
              WithinCatalogue((JointCandidates(conf) + RoundTrials(trace))[k])
  {
    forall k | 0 <= k < |trace| ensures WithinCatalogue(trace[k]) {
      TraceWithinCatalogue(oracle, conf, trace, k);
    }
    JointCandidatesWithinCatalogue(conf);
    RoundTrialsWithinCatalogue(trace);
  }

  /** The joint round from a baseline that gives every type the whole
      catalogue. */
  method JointRound(oracle: Oracle, full: Config) returns (next: Config, ghost cands: seq<Config>)
    requires Complete(full) && forall t :: full.caps[t] == AllCaps
    ensures cands == JointCandidates(full)
    ensures Complete(next) && NoDupsAll(next) && next.rest == full.rest
    ensures forall t :: Elems(next.caps[t]) == JointSurvivors(oracle, full)
  {
    var subcaps := LeaveOneOut(AllCaps);
    var batch := AllSameCandidates(full, subcaps);
    cands := batch;
    var outs := RunBatch(oracle, batch);
    JointRoundNarrowing(oracle, full);
    next := Intersect(full, outs);
  }

  /** The round for `typ`: one leave-one-out batch over that type's list. */
  method TypeRound(oracle: Oracle, cur: Config, typ: CapType) returns (next: Config, ghost cands: seq<Config>)
    requires Complete(cur) && NoDupsAll(cur)
    ensures cands == RoundCandidates(cur, typ)
    ensures TypeRoundStep(oracle, cur, typ, next)
  {
    var allTypeCaps := cur.caps[typ];
    var subcaps := LeaveOneOut(allTypeCaps);
    var batch := ChangeTypeCandidates(cur, typ, subcaps);
    cands := batch;
    var outs := RunBatch(oracle, batch);
    TypeRoundNarrowing(oracle, cur, typ);
    forall t | t != typ ensures Narrowed(Elems(cur.caps[t]), outs, t) == Elems(cur.caps[t]) {
      TypeRoundKeepsOthers(oracle, cur, typ, t);
    }
    next := Intersect(cur, outs);
  }

  /** The joint round reads nothing of its baseline but the rest of the
      configuration: the lists it starts from are always the whole catalogue. */
  lemma JointReadsOnlyRest(oracle: Oracle, a: Config, b: Config)
    requires a.rest == b.rest
    ensures JointCandidates(a) == JointCandidates(b)
    ensures JointSurvivors(oracle, a) == JointSurvivors(oracle, b)
  {
    forall caps ensures MakeNewConfAllSameCaps(a, caps) == MakeNewConfAllSameCaps(b, caps) {
    }
  }

  /** The early-exit test of `start` (some type still has a non-empty list)
      holds exactly when the joint round kept some capability. */
  lemma AnyListNonEmpty(cur: Config, kept: set<Cap>)
    requires Complete(cur) && forall t :: Elems(cur.caps[t]) == kept
    ensures (exists l :: l in cur.caps.Values && |l| > 0) <==> kept != {}
  {
    if kept != {} {
      assert cur.caps[Bounding] in cur.caps.Values;
      var c :| c in Elems(cur.caps[Bounding]);
    } else if l :| l in cur.caps.Values && |l| > 0 {
      var t :| t in cur.caps && cur.caps[t] == l;
      assert l[0] in Elems(cur.caps[t]);
    }
  }

  /** The first loop of `start`: every type gets the whole catalogue. */
  method FullCatalogue(conf: Config) returns (full: Config)
    ensures Complete(full) && full.rest == conf.rest
    ensures forall t :: full.caps[t] == AllCaps
  {
    TypesCapsEnumerates();
    var caps: map<CapType, seq<Cap>> := map[];
    for i := 0 to |TypesCaps|
      invariant forall t :: t in TypesCaps[..i] ==> t in caps
      invariant forall t :: t in caps ==> caps[t] == AllCaps
    {
      caps := caps[TypesCaps[i] := AllCaps];
    }
    assert TypesCaps[..|TypesCaps|] == TypesCaps;
    full := Config(caps, conf.rest);
  }

  /** The per-type loop of `start`: one round per type, in TypesCaps order,
      each from the baseline the previous one produced. */
  method TypeRounds(oracle: Oracle, first: Config) returns (r: Config, ghost trace: seq<Config>, ghost trials: seq<Config>)
    requires Complete(first) && NoDupsAll(first)
    ensures |trace| == 1 + |TypesCaps| && trace[0] == first && r == trace[|TypesCaps|]
    ensures forall k :: 0 <= k < |trace| ==> Complete(trace[k])
    ensures forall k :: 0 <= k < |TypesCaps| ==> TypeRoundStep(oracle, trace[k], TypesCaps[k], trace[k + 1])
    ensures trials == RoundTrials(trace)
    ensures r.rest == first.rest
    ensures forall t :: Elems(r.caps[t]) <= Elems(first.caps[t])
  {
    var cur := first;
    trace := [first];
    trials := [];
    for i := 0 to |TypesCaps|
      invariant |trace| == i + 1 && trace[0] == first && trace[i] == cur
      invariant forall k :: 0 <= k < |trace| ==> Complete(trace[k])
      invariant forall k :: 0 <= k < i ==> TypeRoundStep(oracle, trace[k], TypesCaps[k], trace[k + 1])
      invariant Complete(cur) && NoDupsAll(cur) && cur.rest == first.rest
      invariant forall t :: Elems(cur.caps[t]) <= Elems(first.caps[t])
      invariant trials == RoundTrials(trace)
    {
      ghost var typeCands;
      var next;
      next, typeCands := TypeRound(oracle, cur, TypesCaps[i]);
      assert (trace + [next])[..|trace|] == trace;
      trials := trials + typeCands;
      trace := trace + [next];
      cur := next;
    }
    r := cur;
  }

  /** `start`: returns the final baseline `r`; `trace` holds the baselines
      after each round and `trials` every configuration handed to the
      oracle, in order. */
  method Start(oracle: Oracle, conf: Config) returns (r: Config, ghost trace: seq<Config>, ghost trials: seq<Config>)
    ensures SearchTrace(oracle, conf, trace) && r == trace[|trace| - 1]
    ensures trials == JointCandidates(conf) + RoundTrials(trace)
    ensures Complete(r) && r.rest == conf.rest
    ensures forall t :: Elems(r.caps[t]) <= JointSurvivors(oracle, conf) <= Elems(AllCaps)
    ensures forall k :: 0 <= k < |trace| ==> WithinCatalogue(trace[k])
    ensures forall k :: 0 <= k < |trials| ==> WithinCatalogue(trials[k])
  {
    var full := FullCatalogue(conf);
    ghost var cands;
    var cur;
    cur, cands := JointRound(oracle, full);
    JointReadsOnlyRest(oracle, full, conf);
    AnyListNonEmpty(cur, JointSurvivors(oracle, conf));

    // no capability needed at all: stop here
    if !(exists l :: l in cur.caps.Values && |l| > 0) {
      r, trace, trials := cur, [cur], cands;
      TrialsWithinCatalogue(oracle, conf, trace);
      return;
    }

    ghost var rounds, roundTrials;
    r, rounds, roundTrials := TypeRounds(oracle, cur);
    trace, trials := rounds, cands + roundTrials;
    TrialsWithinCatalogue(oracle, conf, trace);
  }
}
