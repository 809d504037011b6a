/** The fixed catalogue of Linux capability names and the five capability-set
    types of an OCI process, in the order the search visits them. */
module Catalog {

  /** The five capability sets of an OCI `process.capabilities` object. */
  datatype CapType = Bounding | Effective | Permitted | Ambient | Inheritable

  /** The order in which the per-type rounds visit the types. */
  const TypesCaps: seq<CapType> := [Bounding, Effective, Permitted, Ambient, Inheritable]

  /** A capability name as it appears in the JSON configuration, e.g. "CAP_KILL". */
  type Cap = string

  // The catalogue is written as four consecutive runs so that the distinctness
  // of its 38 names can be checked run by run; AllCaps is their concatenation
  // and lists the names in the order of the program's `ALL_CAPS`.
  const CatalogRun1: seq<Cap> := ["CAP_CHOWN", "CAP_DAC_OVERRIDE", "CAP_DAC_READ_SEARCH", "CAP_FOWNER",
    "CAP_FSETID", "CAP_KILL", "CAP_SETGID", "CAP_SETUID", "CAP_SETPCAP", "CAP_LINUX_IMMUTABLE"]
  const CatalogRun2: seq<Cap> := ["CAP_NET_BIND_SERVICE", "CAP_NET_BROADCAST", "CAP_NET_ADMIN", "CAP_NET_RAW",
    "CAP_IPC_LOCK", "CAP_IPC_OWNER", "CAP_SYS_MODULE", "CAP_SYS_RAWIO", "CAP_SYS_CHROOT", "CAP_SYS_PTRACE"]
  const CatalogRun3: seq<Cap> := ["CAP_SYS_PACCT", "CAP_SYS_ADMIN", "CAP_SYS_BOOT", "CAP_SYS_NICE",
    "CAP_SYS_RESOURCE", "CAP_SYS_TIME", "CAP_SYS_TTY_CONFIG", "CAP_MKNOD", "CAP_LEASE", "CAP_AUDIT_WRITE"]
  const CatalogRun4: seq<Cap> := ["CAP_AUDIT_CONTROL", "CAP_SETFCAP", "CAP_MAC_OVERRIDE", "CAP_MAC_ADMIN",
    "CAP_SYSLOG", "CAP_WAKE_ALARM", "CAP_BLOCK_SUSPEND", "CAP_AUDIT_READ"]

  /** Every capability the search knows about. */
  const AllCaps: seq<Cap> := CatalogRun1 + CatalogRun2 + CatalogRun3 + CatalogRun4

  /** The elements of a list, as a set. */
  function Elems<T>(s: seq<T>): set<T> {
    set x | x in s
  }

  /** No element occurs twice. */
  predicate NoDups<T(==)>(s: seq<T>) {
    forall i, j :: 0 <= i < j < |s| ==> s[i] != s[j]
  }

  /** No element of `a` occurs in `b`. */
  predicate Apart<T(==)>(a: seq<T>, b: seq<T>) {
    forall i :: 0 <= i < |a| ==> a[i] !in b
  }

  /** Where each type sits in TypesCaps. */
  function TypeIndex(t: CapType): (i: nat)
    ensures i < |TypesCaps| && TypesCaps[i] == t
  {
    match t
    case Bounding => 0
    case Effective => 1
    case Permitted => 2
    case Ambient => 3
    case Inheritable => 4
  }

  /** Every capability-set type is visited, exactly once. */
  lemma TypesCapsEnumerates()
    ensures |TypesCaps| == 5 && NoDups(TypesCaps)
    ensures forall t: CapType :: t in TypesCaps
  {
    forall t: CapType ensures t in TypesCaps {
      assert TypesCaps[TypeIndex(t)] == t;
    }
  }

  /** Only the empty list has no members. */
  lemma ElemsEmpty<T>(s: seq<T>)
    ensures Elems(s) == {} <==> s == []
  {
    if s != [] {
      assert s[0] in Elems(s);
    }
  }

  /** The five constructors are all the values of CapType. */
  lemma CapTypeCases(t: CapType)
    ensures t == Bounding || t == Effective || t == Permitted || t == Ambient || t == Inheritable
  {
  }

  lemma {:induction false} NoDupsConcat<T>(a: seq<T>, b: seq<T>)
    requires NoDups(a) && NoDups(b) && Apart(a, b)
    ensures NoDups(a + b)
  {
    forall i, j | 0 <= i < j < |a + b| ensures (a + b)[i] != (a + b)[j] {
      if j < |a| {
        assert (a + b)[i] == a[i] && (a + b)[j] == a[j];
      } else if i >= |a| {
        assert (a + b)[i] == b[i - |a|] && (a + b)[j] == b[j - |a|];
      } else {
        assert (a + b)[i] == a[i] && (a + b)[j] == b[j - |a|];
      }
    }
  }

  // Distinctness within each run, and between each pair of runs.
  lemma RunsDistinct()
    ensures NoDups(CatalogRun1) && NoDups(CatalogRun2) && NoDups(CatalogRun3) && NoDups(CatalogRun4)
  {
  }

  lemma Run1Apart2()
    ensures Apart(CatalogRun1, CatalogRun2)
  {
  }

  lemma Run1Apart3()
    ensures Apart(CatalogRun1, CatalogRun3)
  {
  }

  lemma Run1Apart4()
    ensures Apart(CatalogRun1, CatalogRun4)
  {
  }

  lemma Run2Apart3()
    ensures Apart(CatalogRun2, CatalogRun3)
  {
  }

  lemma Run2Apart4()
    ensures Apart(CatalogRun2, CatalogRun4)
  {
  }

  lemma Run3Apart4()
    ensures Apart(CatalogRun3, CatalogRun4)
  {
  }

  /** The catalogue holds 38 distinct names. */
  lemma AllCapsDistinct()
    ensures |AllCaps| == 38 && NoDups(AllCaps)
  {
    RunsDistinct();
    Run1Apart2();
    Run1Apart3();
    Run1Apart4();
    Run2Apart3();
    Run2Apart4();
    Run3Apart4();
    NoDupsConcat(CatalogRun3, CatalogRun4);
    NoDupsConcat(CatalogRun2, CatalogRun3 + CatalogRun4);
    NoDupsConcat(CatalogRun1, CatalogRun2 + CatalogRun3 + CatalogRun4);
    assert AllCaps == CatalogRun1 + (CatalogRun2 + (CatalogRun3 + CatalogRun4));
  }
}
