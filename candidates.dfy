/** Candidate generation: leave-one-out lists and the configurations built
    from them. */
module Candidates {
  import opened Catalog
  import opened Configs

  /** Position of the first occurrence of `cap` (Python's `list.index`). */
  function IndexOf(caps: seq<Cap>, cap: Cap): (k: nat)
    requires cap in caps
    ensures k < |caps| && caps[k] == cap
    ensures cap !in caps[..k]
  {
    if caps[0] == cap then 0 else 1 + IndexOf(caps[1..], cap)
  }

  /** A copy of `caps` with the first occurrence of `cap` removed; an equal
      copy when `cap` does not occur. */
  function RemoveCap(caps: seq<Cap>, cap: Cap): (r: seq<Cap>)
    ensures cap !in caps ==> r == caps
    ensures cap in caps ==> r == caps[..IndexOf(caps, cap)] + caps[IndexOf(caps, cap) + 1..]
  {
    if |caps| == 0 then []
    else if caps[0] == cap then caps[1..]
    else
      var tail := RemoveCap(caps[1..], cap);
      assert cap in caps ==> caps[..IndexOf(caps, cap)] == [caps[0]] + caps[1..][..IndexOf(caps[1..], cap)];
      [caps[0]] + tail
  }

  /** Removing a capability from a list never adds a member. */
  lemma RemoveCapShrinks(l: seq<Cap>, c: Cap)
    ensures Elems(RemoveCap(l, c)) <= Elems(l)
  {
    if c in l {
      var i := IndexOf(l, c);
      var r := l[..i] + l[i + 1..];
      assert forall j :: 0 <= j < |r| ==> r[j] in l;
    }
  }

  /** Deleting position k of a list without duplicates leaves a list without
      duplicates holding every element but the k-th. */
  lemma DeleteAt(s: seq<Cap>, k: nat)
    requires NoDups(s) && k < |s|
    ensures |s[..k] + s[k + 1..]| == |s| - 1
    ensures NoDups(s[..k] + s[k + 1..])
    ensures Elems(s[..k] + s[k + 1..]) == Elems(s) - {s[k]}
  {
    var r := s[..k] + s[k + 1..];
    assert forall i :: 0 <= i < |r| ==> r[i] == if i < k then s[i] else s[i + 1];
    forall i, j | 0 <= i < j < |r| ensures r[i] != r[j] {
    }
    forall x | x in r ensures x in s && x != s[k] {
      var i :| 0 <= i < |r| && r[i] == x;
      assert s[if i < k then i else i + 1] == x;
    }
    forall x | x in s && x != s[k] ensures x in r {
      var i :| 0 <= i < |s| && s[i] == x;
      assert r[if i < k then i else i - 1] == x;
    }
  }

  /** On a list without duplicates, removing a member leaves a list without
      duplicates that is one shorter and holds every other member. */
  lemma RemoveCapDistinct(caps: seq<Cap>, cap: Cap)
    requires NoDups(caps)
    ensures NoDups(RemoveCap(caps, cap))
    ensures Elems(RemoveCap(caps, cap)) == Elems(caps) - {cap}
    ensures cap in caps ==> |RemoveCap(caps, cap)| == |caps| - 1
  {
    if cap in caps {
      DeleteAt(caps, IndexOf(caps, cap));
    }
  }

  /** One list per member of `l`, each omitting that member (the list
      comprehension over `remove_cap`). */
  function LeaveOneOut(l: seq<Cap>): (r: seq<seq<Cap>>)
    ensures |r| == |l|
    ensures forall k :: 0 <= k < |l| ==> r[k] == RemoveCap(l, l[k])
  {
    seq(|l|, k requires 0 <= k < |l| => RemoveCap(l, l[k]))
  }

  /** Over a list without duplicates, the k-th leave-one-out list omits exactly
      the k-th member. */
  lemma LeaveOneOutOmitsOne(l: seq<Cap>, k: nat)
    requires NoDups(l) && k < |l|
    ensures NoDups(LeaveOneOut(l)[k])
    ensures |LeaveOneOut(l)[k]| == |l| - 1
    ensures Elems(LeaveOneOut(l)[k]) == Elems(l) - {l[k]}
    ensures l[k] !in LeaveOneOut(l)[k]
  {
    RemoveCapDistinct(l, l[k]);
  }

  /** Joint-round candidates: every type set to the same leave-one-out list. */
  function AllSameCandidates(conf: Config, subcaps: seq<seq<Cap>>): (r: seq<Config>)
    ensures |r| == |subcaps|
    ensures forall k :: 0 <= k < |subcaps| ==> r[k] == MakeNewConfAllSameCaps(conf, subcaps[k])
  {
    seq(|subcaps|, k requires 0 <= k < |subcaps| => MakeNewConfAllSameCaps(conf, subcaps[k]))
  }

  /** Per-type candidates: only the list of `typ` replaced. */
  function ChangeTypeCandidates(conf: Config, typ: CapType, subcaps: seq<seq<Cap>>): (r: seq<Config>)
    ensures |r| == |subcaps|
    ensures forall k :: 0 <= k < |subcaps| ==> r[k] == MakeNewConfChangeType(conf, typ, subcaps[k])
  {
    seq(|subcaps|, k requires 0 <= k < |subcaps| => MakeNewConfChangeType(conf, typ, subcaps[k]))
  }
}
