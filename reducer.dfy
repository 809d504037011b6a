/** The reducer: folding a batch of outcomes into a narrower baseline. */
module Reducer {
  import opened Catalog
  import opened Configs
  import opened Trials
  import opened Candidates

  /** Every successful outcome has a list for type t. `SuccessesComplete`
      asks this of every type at once, as `intersect` needs of its batch;
      the narrowing lemmas reason about one type at a time, so they ask only
      for the type they narrow. */
  predicate HasType(outs: seq<Outcome>, t: CapType) {
    forall k :: 0 <= k < |outs| && outs[k].success ==> t in outs[k].conf.caps
  }

  /** What survives of `base` for type t: the members found in the t-list of
      every successful outcome. Failed outcomes take no part. */
  function Narrowed(base: set<Cap>, outs: seq<Outcome>, t: CapType): (r: set<Cap>)
    requires HasType(outs, t)
    ensures r <= base
    ensures (forall k :: 0 <= k < |outs| ==> !outs[k].success) ==> r == base
  {
    set c | c in base && forall k :: 0 <= k < |outs| && outs[k].success ==> c in outs[k].conf.caps[t]
  }

  /** The successful outcomes of a batch, as a set. */
  function Successes(outs: seq<Outcome>): set<Outcome> {
    set k | 0 <= k < |outs| && outs[k].success :: outs[k]
  }

  /** Adding one outcome at the end narrows by that outcome's list when it
      succeeded, and changes nothing when it failed. */
  lemma NarrowedStep(base: set<Cap>, outs: seq<Outcome>, j: nat, t: CapType)
    requires HasType(outs, t) && j < |outs|
    ensures HasType(outs[..j], t) && HasType(outs[..j + 1], t)
    ensures Narrowed(base, outs[..j + 1], t) ==
            if outs[j].success then Narrowed(base, outs[..j], t) * Elems(outs[j].conf.caps[t])
            else Narrowed(base, outs[..j], t)
  {
    assert forall k :: 0 <= k <= j ==> outs[..j + 1][k] == outs[k];
    assert forall k :: 0 <= k < j ==> outs[..j][k] == outs[k];
  }

  /** A batch whose every success kept the whole baseline leaves it as it was. */
  lemma NarrowedKeepsAll(base: set<Cap>, outs: seq<Outcome>, t: CapType)
    requires HasType(outs, t)
    requires forall k :: 0 <= k < |outs| && outs[k].success ==> base <= Elems(outs[k].conf.caps[t])
    ensures Narrowed(base, outs, t) == base
  {
    forall c | c in base ensures c in Narrowed(base, outs, t) {
      forall k | 0 <= k < |outs| && outs[k].success ensures c in outs[k].conf.caps[t] {
        assert c in Elems(outs[k].conf.caps[t]);
      }
    }
  }

  /** The result depends only on the set of successful outcomes: not on their
      order, their repetitions, or any failed outcome. */
  lemma {:induction false} NarrowedBySuccesses(base: set<Cap>, a: seq<Outcome>, b: seq<Outcome>, t: CapType)
    requires HasType(a, t) && HasType(b, t)
    requires Successes(a) == Successes(b)
    ensures Narrowed(base, a, t) == Narrowed(base, b, t)
  {
    forall c | c in Narrowed(base, a, t) ensures c in Narrowed(base, b, t) {
      forall k | 0 <= k < |b| && b[k].success ensures c in b[k].conf.caps[t] {
        assert b[k] in Successes(a);
        var i :| 0 <= i < |a| && a[i].success && a[i] == b[k];
      }
    }
    forall c | c in Narrowed(base, b, t) ensures c in Narrowed(base, a, t) {
      forall k | 0 <= k < |a| && a[k].success ensures c in a[k].conf.caps[t] {
        assert a[k] in Successes(b);
        var i :| 0 <= i < |b| && b[i].success && b[i] == a[k];
      }
    }
  }

  /** Reordering a batch does not change the result. */
  lemma NarrowedOrderFree(base: set<Cap>, a: seq<Outcome>, b: seq<Outcome>, t: CapType)
    requires HasType(a, t) && multiset(a) == multiset(b)
    ensures HasType(b, t)
    ensures Narrowed(base, a, t) == Narrowed(base, b, t)
  {
    forall k | 0 <= k < |b| ensures b[k] in a {
      assert b[k] in multiset(b);
    }
    forall k | 0 <= k < |a| ensures a[k] in b {
      assert a[k] in multiset(a);
    }
    assert Successes(a) == Successes(b);
    NarrowedBySuccesses(base, a, b, t);
  }

  /** The successful outcomes of a batch, in order. */
  function SuccessfulOnly(outs: seq<Outcome>): (r: seq<Outcome>)
    ensures forall o :: o in r <==> o in outs && o.success
  {
    if |outs| == 0 then []
    else if outs[0].success then [outs[0]] + SuccessfulOnly(outs[1..])
    else SuccessfulOnly(outs[1..])
  }

  /** Dropping the failed outcomes of a batch does not change the result. */
  lemma NarrowedIgnoresFailures(base: set<Cap>, outs: seq<Outcome>, t: CapType)
    requires HasType(outs, t)
    ensures HasType(SuccessfulOnly(outs), t)
    ensures Narrowed(base, SuccessfulOnly(outs), t) == Narrowed(base, outs, t)
  {
    var s := SuccessfulOnly(outs);
    assert forall k :: 0 <= k < |s| ==> s[k] in s;
    assert Successes(s) == Successes(outs);
    NarrowedBySuccesses(base, s, outs, t);
  }

  /** In a leave-one-out batch over a list without duplicates, a member is
      dropped exactly when the candidate that omitted it succeeded. */
  lemma LeaveOneOutNarrowing(l: seq<Cap>, outs: seq<Outcome>, t: CapType)
    requires NoDups(l) && |outs| == |l|
    requires forall k :: 0 <= k < |l| ==> t in outs[k].conf.caps && outs[k].conf.caps[t] == RemoveCap(l, l[k])
    ensures HasType(outs, t)
    ensures forall k :: 0 <= k < |l| ==> (l[k] in Narrowed(Elems(l), outs, t) <==> !outs[k].success)
  {
    forall k | 0 <= k < |l| ensures l[k] in Narrowed(Elems(l), outs, t) <==> !outs[k].success {
      RemoveCapDistinct(l, l[k]);
      if !outs[k].success {
        forall j | 0 <= j < |outs| && outs[j].success ensures l[k] in outs[j].conf.caps[t] {
          RemoveCapDistinct(l, l[j]);
        }
      }
    }
  }

  /** Python's `list(set)`: some order, each member once. */
  method SetToList(s: set<Cap>) returns (l: seq<Cap>)
    ensures NoDups(l) && Elems(l) == s
  {
    l := [];
    var left := s;
    while left != {}
      invariant NoDups(l)
      invariant Elems(l) !! left && Elems(l) + left == s
      decreases |left|
    {
      var c :| c in left;
      l := l + [c];
      left := left - {c};
    }
  }

  /** The first loop of `intersect`: every type's list as a set. */
  method ListsToSets(conf: Config) returns (sets: map<CapType, set<Cap>>)
    requires Complete(conf)
    ensures forall t :: t in sets && sets[t] == Elems(conf.caps[t])
  {
    TypesCapsEnumerates();
    sets := map[];
    for i := 0 to |TypesCaps|
      invariant forall t :: t in sets ==> sets[t] == Elems(conf.caps[t])
      invariant forall t :: t in TypesCaps[..i] ==> t in sets
    {
      sets := sets[TypesCaps[i] := Elems(conf.caps[TypesCaps[i]])];
    }
    assert TypesCaps[..|TypesCaps|] == TypesCaps;
  }

  /** The last loop of `intersect`: every type's set as a list, in some order. */
  method SetsToLists(caps: map<CapType, seq<Cap>>, sets: map<CapType, set<Cap>>) returns (r: map<CapType, seq<Cap>>)
    requires forall t :: t in sets
    ensures forall t :: t in r && NoDups(r[t]) && Elems(r[t]) == sets[t]
  {
    TypesCapsEnumerates();
    r := caps;
    for i := 0 to |TypesCaps|
      invariant forall t :: t in TypesCaps[..i] ==> t in r && NoDups(r[t]) && Elems(r[t]) == sets[t]
    {
      var t := TypesCaps[i];
      var l := SetToList(sets[t]);
      r := r[t := l];
    }
    assert TypesCaps[..|TypesCaps|] == TypesCaps;
  }

  /** `intersect`: for each type, the baseline's members that every successful
      outcome kept. Every list of the result is rebuilt from a set, so its
      order is unspecified; the rest of the configuration is untouched. */
  method Intersect(conf: Config, outs: seq<Outcome>) returns (r: Config)
    requires Complete(conf) && SuccessesComplete(outs)
    ensures Complete(r) && NoDupsAll(r) && r.rest == conf.rest
    ensures forall t :: Elems(r.caps[t]) == Narrowed(Elems(conf.caps[t]), outs, t)
  {
    TypesCapsEnumerates();
    var sets := ListsToSets(conf);
    assert forall t :: HasType(outs[..0], t);
    for j := 0 to |outs|
      invariant forall t :: t in sets && HasType(outs[..j], t) && sets[t] == Narrowed(Elems(conf.caps[t]), outs[..j], t)
    {
      var Outcome(success, futureConf) := outs[j];
      ghost var upToJ := outs[..j + 1];
      forall t ensures HasType(upToJ, t) {
        NarrowedStep(Elems(conf.caps[t]), outs, j, t);
      }
      if success {
        for i := 0 to |TypesCaps|
          invariant forall t :: t in sets
          invariant forall t :: t in TypesCaps[..i] ==> sets[t] == Narrowed(Elems(conf.caps[t]), upToJ, t)
          invariant forall t :: t !in TypesCaps[..i] ==> sets[t] == Narrowed(Elems(conf.caps[t]), outs[..j], t)
        {
          var t := TypesCaps[i];
          NarrowedStep(Elems(conf.caps[t]), outs, j, t);
          sets := sets[t := sets[t] * Elems(futureConf.caps[t])];
        }
        assert TypesCaps[..|TypesCaps|] == TypesCaps;
      } else {
        forall t ensures sets[t] == Narrowed(Elems(conf.caps[t]), upToJ, t) {
          NarrowedStep(Elems(conf.caps[t]), outs, j, t);
        }
      }
    }
    assert outs[..|outs|] == outs;
    var caps := SetsToLists(conf.caps, sets);
    r := Config(caps, conf.rest);
  }
}
