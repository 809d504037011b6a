/** What a whole search finds for two families of synthetic oracles: one that
    accepts a configuration exactly when every type holds a fixed required
    set, and one that accepts it exactly when no type holds a forbidden
    capability. */
module Convergence {
  import opened Catalog
  import opened Configs
  import opened Trials
  import opened Candidates
  import opened Search

  /** Every type of `c` holds at least `req` of that type. */
  predicate Meets(c: Config, req: map<CapType, set<Cap>>) {
    forall t :: t in req ==> t in c.caps && req[t] <= Elems(c.caps[t])
  }

  /** Every capability some type requires. */
  function RequiredAnywhere(req: map<CapType, set<Cap>>): (r: set<Cap>)
    requires forall t :: t in req && req[t] <= Elems(AllCaps)
    ensures forall t :: req[t] <= r
    ensures r <= Elems(AllCaps)
  {
    set c | c in AllCaps && exists t :: t in req && c in req[t]
  }

  /** Against a required-set oracle, the joint round keeps exactly the
      capabilities some type requires. */
  lemma JointKeepsRequired(oracle: Oracle, conf: Config, req: map<CapType, set<Cap>>)
    requires forall c :: oracle(c) == Meets(c, req)
    requires forall t :: t in req && req[t] <= Elems(AllCaps)
    ensures JointSurvivors(oracle, conf) == RequiredAnywhere(req)
  {
    AllCapsDistinct();
    forall c | c in AllCaps
      ensures !oracle(MakeNewConfAllSameCaps(conf, RemoveCap(AllCaps, c))) <==> c in RequiredAnywhere(req)
    {
      RemoveCapDistinct(AllCaps, c);
      var cand := MakeNewConfAllSameCaps(conf, RemoveCap(AllCaps, c));
      if c in RequiredAnywhere(req) {
        var t :| t in req && c in req[t];
        assert c !in Elems(cand.caps[t]);
      }
    }
  }

  /** Against a required-set oracle, a per-type round from a baseline that
      meets the requirement keeps exactly what that type requires. */
  lemma TypeRoundKeepsRequired(oracle: Oracle, before: Config, typ: CapType, req: map<CapType, set<Cap>>)
    requires forall c :: oracle(c) == Meets(c, req)
    requires Complete(before) && NoDups(before.caps[typ])
    requires forall t :: t in req && req[t] <= Elems(before.caps[t])
    ensures TypeSurvivors(oracle, before, typ) == req[typ]
  {
    var l := before.caps[typ];
    forall c | c in l
      ensures !oracle(MakeNewConfChangeType(before, typ, RemoveCap(l, c))) <==> c in req[typ]
    {
      RemoveCapDistinct(l, c);
    }
  }

  /** The per-type rounds of a search against a required-set oracle, from a
      first baseline that meets the requirement: every baseline still meets
      it, and every type already processed holds exactly its requirement. */
  lemma {:induction false} RoundsKeepRequired(oracle: Oracle, req: map<CapType, set<Cap>>, trace: seq<Config>, k: nat)
    requires forall c :: oracle(c) == Meets(c, req)
    requires k < |trace| <= 1 + |TypesCaps|
    requires Complete(trace[0]) && NoDupsAll(trace[0])
    requires forall t :: t in req && req[t] <= Elems(trace[0].caps[t])
    requires forall i :: 0 <= i < |trace| - 1 ==> TypeRoundStep(oracle, trace[i], TypesCaps[i], trace[i + 1])
    ensures Complete(trace[k]) && NoDupsAll(trace[k])
    ensures forall t :: req[t] <= Elems(trace[k].caps[t])
    ensures forall i :: 0 <= i < k ==> Elems(trace[k].caps[TypesCaps[i]]) == req[TypesCaps[i]]
  {
    if k > 0 {
      RoundsKeepRequired(oracle, req, trace, k - 1);
      var typ := TypesCaps[k - 1];
      assert TypeRoundStep(oracle, trace[k - 1], typ, trace[k]);
      TypeRoundKeepsRequired(oracle, trace[k - 1], typ, req);
      TypesCapsEnumerates();
      forall i | 0 <= i < k - 1 ensures TypesCaps[i] != typ {
      }
    }
  }

  /** Single-removal correctness: against a required-set oracle whose
      requirement lies within the catalogue, a whole search ends with every
      type holding exactly its requirement. */
  lemma SearchFindsRequired(oracle: Oracle, conf: Config, req: map<CapType, set<Cap>>, trace: seq<Config>)
    requires forall c :: oracle(c) == Meets(c, req)
    requires forall t :: t in req && req[t] <= Elems(AllCaps)
    requires SearchTrace(oracle, conf, trace)
    ensures forall t :: Elems(trace[|trace| - 1].caps[t]) == req[t]
  {
    JointKeepsRequired(oracle, conf, req);
    if |trace| == 1 {
      assert RequiredAnywhere(req) == {};
    } else {
      RoundsKeepRequired(oracle, req, trace, |TypesCaps|);
      TypesCapsEnumerates();
      forall t ensures Elems(trace[|TypesCaps|].caps[t]) == req[t] {
        assert TypesCaps[TypeIndex(t)] == t;
      }
    }
  }

  /** No type of `c` holds `x`. */
  predicate Excludes(c: Config, x: Cap) {
    forall t :: t in c.caps ==> x !in c.caps[t]
  }

  /** Against a forbidden-capability oracle, the joint round keeps everything
      but the forbidden capability: leaving out anything else still leaves it
      in. */
  lemma JointKeepsAllButForbidden(oracle: Oracle, conf: Config, x: Cap)
    requires forall c :: oracle(c) == Excludes(c, x)
    requires x in AllCaps
    ensures JointSurvivors(oracle, conf) == Elems(AllCaps) - {x}
  {
    AllCapsDistinct();
    forall c | c in AllCaps
      ensures !oracle(MakeNewConfAllSameCaps(conf, RemoveCap(AllCaps, c))) <==> c != x
    {
      RemoveCapDistinct(AllCaps, c);
      var cand := MakeNewConfAllSameCaps(conf, RemoveCap(AllCaps, c));
      if c != x {
        assert x in Elems(cand.caps[Bounding]);
      }
    }
  }

  /** Against a forbidden-capability oracle, a per-type round from a baseline
      without the forbidden capability empties that type: every candidate
      still excludes it, so every trial succeeds. */
  lemma TypeRoundEmpties(oracle: Oracle, before: Config, typ: CapType, x: Cap)
    requires forall c :: oracle(c) == Excludes(c, x)
    requires Complete(before) && NoDups(before.caps[typ]) && Excludes(before, x)
    ensures TypeSurvivors(oracle, before, typ) == {}
  {
    var l := before.caps[typ];
    forall c | c in l ensures oracle(MakeNewConfChangeType(before, typ, RemoveCap(l, c))) {
      RemoveCapDistinct(l, c);
    }
  }

  /** The per-type rounds of a search against a forbidden-capability oracle,
      from a first baseline without the forbidden capability: no baseline
      holds it, and every type already processed is empty. */
  lemma {:induction false} RoundsEmpty(oracle: Oracle, x: Cap, trace: seq<Config>, k: nat)
    requires forall c :: oracle(c) == Excludes(c, x)
    requires k < |trace| <= 1 + |TypesCaps|
    requires Complete(trace[0]) && NoDupsAll(trace[0]) && Excludes(trace[0], x)
    requires forall i :: 0 <= i < |trace| - 1 ==> TypeRoundStep(oracle, trace[i], TypesCaps[i], trace[i + 1])
    ensures Complete(trace[k]) && NoDupsAll(trace[k]) && Excludes(trace[k], x)
    ensures forall i :: 0 <= i < k ==> Elems(trace[k].caps[TypesCaps[i]]) == {}
  {
    if k > 0 {
      RoundsEmpty(oracle, x, trace, k - 1);
      var typ := TypesCaps[k - 1];
      assert TypeRoundStep(oracle, trace[k - 1], typ, trace[k]);
      TypeRoundEmpties(oracle, trace[k - 1], typ, x);
      TypesCapsEnumerates();
      forall i | 0 <= i < k - 1 ensures TypesCaps[i] != typ {
      }
      forall t | t in trace[k].caps ensures x !in trace[k].caps[t] {
        if t == typ {
          assert Elems(trace[k].caps[t]) == {};
          assert x !in Elems(trace[k].caps[t]);
        } else {
          assert x !in Elems(trace[k - 1].caps[t]);
          assert x !in Elems(trace[k].caps[t]);
        }
      }
    }
  }

  /** The forbidden-capability scenario: the joint round keeps everything but
      the forbidden capability, so all five per-type rounds run, and each of
      them empties its type. */
  lemma SearchDropsAllButForbidden(oracle: Oracle, conf: Config, x: Cap, trace: seq<Config>)
    requires forall c :: oracle(c) == Excludes(c, x)
    requires x in AllCaps
    requires SearchTrace(oracle, conf, trace)
    ensures JointSurvivors(oracle, conf) == Elems(AllCaps) - {x}
    ensures |trace| == 1 + |TypesCaps|
    ensures forall t :: trace[|TypesCaps|].caps[t] == []
  {
    JointKeepsAllButForbidden(oracle, conf, x);
    AllCapsDistinct();
    assert AllCaps[0] in Elems(AllCaps) - {x} || AllCaps[1] in Elems(AllCaps) - {x};
    forall t | t in trace[0].caps ensures x !in trace[0].caps[t] {
      assert x !in Elems(trace[0].caps[t]);
    }
    RoundsEmpty(oracle, x, trace, |TypesCaps|);
    forall t ensures trace[|TypesCaps|].caps[t] == [] {
      assert TypesCaps[TypeIndex(t)] == t;
      ElemsEmpty(trace[|TypesCaps|].caps[t]);
    }
  }
}
