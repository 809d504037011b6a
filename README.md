# oci-auto-capabilities, modelled in Dafny

`oci-auto-capabilities.py` finds a small set of Linux capabilities that an OCI
container needs. It runs the container's test again and again. Each run uses
a configuration with some capabilities left out. A capability stays only when
leaving it out made the test fail. There are two phases:

- A joint round tries the whole 38-name catalogue minus one capability, given
  to all five capability-set types (bounding, effective, permitted, ambient,
  inheritable) at once.
- If anything survives the joint round, there is one round per type. Each
  tries that type's current list minus one member. The other four types stay
  as they are.

After each round, `intersect` keeps only the capabilities that every
successful trial still held.

This project models that search:

- `catalog.dfy` (`Catalog`): the catalogue `ALL_CAPS`, the five types
  `TYPES_CAPS`, and small facts about lists without duplicates.
- `config.dfy` (`Configs`): a configuration is a value. It holds the
  capability lists per type plus the rest of the OCI document as opaque JSON.
  The module also has the two candidate builders, `make_new_conf_all_same_caps`
  and `make_new_conf_change_type`.
- `trials.dfy` (`Trials`): `run_container` becomes a deterministic oracle
  `Config -> bool`. `executor.map` becomes a map over the candidates, in order.
- `candidates.dfy` (`Candidates`): `remove_cap` (a copy with the first
  occurrence removed) and the leave-one-out lists built from it.
- `reducer.dfy` (`Reducer`): `intersect` as a method with its three loops. It
  is specified by `Narrowed`, the set of baseline members that every
  successful outcome kept. Lemmas show that `Narrowed` depends only on the
  set of successful outcomes: not on their order, not on repetitions, not on
  failed trials.
- `search.dfy` (`Search`): `start` as a method. The rounds are specified by
  reference sets: `JointSurvivors` is what the joint round keeps, and
  `TypeSurvivors` is what a per-type round keeps. `Start` also returns two
  ghost values:
  - `trace`: the baseline after each round;
  - `trials`: every configuration handed to the oracle, in order.

  `SearchTrace` states how consecutive baselines relate.
- `convergence.dfy` (`Convergence`): what a whole search finds for two kinds
  of synthetic oracle.
  - A required-set oracle accepts a configuration exactly when every type
    holds a fixed set. For it, the search ends with each type holding exactly
    its required set. This holds for any required sets within the catalogue,
    empty ones included: the early exit covers the all-empty case.
  - A forbidden-capability oracle accepts a configuration exactly when no
    type holds one given capability. For it:
    - the joint round keeps everything else;
    - all five per-type rounds run;
    - every list ends up empty.

## Model

| member | source | states |
|---|---|---|
| `Catalog.AllCapsDistinct` | oci-auto-capabilities.py:29-66 | the catalogue has 38 names and none appears twice |
| `Catalog.TypesCapsEnumerates` | oci-auto-capabilities.py:68 | there are five types; none is listed twice; every capability-set type is listed |
| `Trials.RunContainer` | oci-auto-capabilities.py:69-79 | the outcome carries the very configuration that was run; it succeeds exactly when the oracle accepts that configuration |
| `Trials.RunBatch` | oci-auto-capabilities.py:115 | there is one outcome per candidate, in the candidates' order; outcome k carries candidate k and the oracle's verdict on it |
| `Configs.MakeNewConfAllSameCaps` | oci-auto-capabilities.py:81-86 | the copy gives all five types the given list; the rest of the configuration is unchanged |
| `Configs.MakeNewConfChangeType` | oci-auto-capabilities.py:88-91 | the copy has the given list for `typ`; every other type keeps its presence and its list; the rest is unchanged; a complete configuration stays complete |
| `Candidates.IndexOf` | oci-auto-capabilities.py:107 | the position `list.remove` deletes: it holds the capability, and no earlier position does |
| `Candidates.RemoveCap` | oci-auto-capabilities.py:104-108 | an absent capability gives an equal copy; otherwise exactly its first occurrence is cut out and the order is kept |
| `Candidates.RemoveCapDistinct` | oci-auto-capabilities.py:104-108 | on a list without duplicates, the result has no duplicates; its members are the old members minus the capability; it is one shorter when the capability was present |
| `Candidates.LeaveOneOut` | oci-auto-capabilities.py:114 | there is one list per member, in order; list k is the input with member k removed |
| `Candidates.LeaveOneOutOmitsOne` | oci-auto-capabilities.py:124 | over a list without duplicates, list k has no duplicates, is one shorter, and holds every member except member k |
| `Candidates.AllSameCandidates` | oci-auto-capabilities.py:115 | candidate k gives every type leave-one-out list k |
| `Candidates.ChangeTypeCandidates` | oci-auto-capabilities.py:125 | candidate k replaces only the list of `typ`, by leave-one-out list k |
| `Reducer.Narrowed` | oci-auto-capabilities.py:96-99 | the result is within the baseline set; a batch with no success leaves the baseline as it was |
| `Reducer.NarrowedStep` | oci-auto-capabilities.py:96-99 | one more outcome intersects the result with that outcome's list if it succeeded, and changes nothing if it failed |
| `Reducer.NarrowedBySuccesses` | oci-auto-capabilities.py:96-99 | two batches with the same set of successful outcomes narrow alike |
| `Reducer.NarrowedOrderFree` | oci-auto-capabilities.py:96 | reordering a batch does not change the result |
| `Reducer.SuccessfulOnly` | oci-auto-capabilities.py:97 | the filtered batch holds exactly the successful outcomes |
| `Reducer.NarrowedIgnoresFailures` | oci-auto-capabilities.py:97 | dropping the failed outcomes does not change the result |
| `Reducer.LeaveOneOutNarrowing` | oci-auto-capabilities.py:124-126 | in a leave-one-out batch over a list without duplicates, member k survives exactly when trial k failed |
| `Reducer.SetToList` | oci-auto-capabilities.py:101 | `list(set)`: a list without duplicates whose members are exactly the set |
| `Reducer.ListsToSets` | oci-auto-capabilities.py:94-95 | every type's list becomes the set of its members |
| `Reducer.SetsToLists` | oci-auto-capabilities.py:100-101 | every type's set becomes a list without duplicates holding exactly that set |
| `Reducer.Intersect` | oci-auto-capabilities.py:93-102 | every type ends as the baseline members kept by every successful outcome; each list has no duplicates; the rest of the configuration is untouched |
| `Search.JointCandidates` | oci-auto-capabilities.py:114-115 | there are 38 joint candidates; candidate k gives every type the catalogue without its k-th name |
| `Search.RoundCandidates` | oci-auto-capabilities.py:124-125 | there is one candidate per member of the type's list; candidate k replaces only that type's list, by the list without its k-th member |
| `Search.JointRoundNarrowing` | oci-auto-capabilities.py:114-116 | the joint batch narrows every type to exactly the capabilities whose omission made the trial fail |
| `Search.RoundOutcomes` | oci-auto-capabilities.py:123-125 | outcome k of a per-type round carries member k removed from `typ`, and its verdict on that candidate |
| `Search.TypeRoundNarrowing` | oci-auto-capabilities.py:123-126 | a per-type round keeps exactly the members of `typ` whose omission made the trial fail |
| `Search.RoundCandidatesKeep` | oci-auto-capabilities.py:125 | every candidate of the round for `typ` keeps the baseline's list for every other type |
| `Reducer.NarrowedKeepsAll` | oci-auto-capabilities.py:96-99 | a batch whose every success kept the whole baseline leaves the baseline as it was |
| `Search.TypeRoundKeepsOthers` | oci-auto-capabilities.py:125-126 | a per-type round leaves every other type's set as it was |
| `Search.TraceWithinCatalogue` | oci-auto-capabilities.py:110-127 | every baseline of a search, not just the last, holds only catalogue members |
| `Candidates.RemoveCapShrinks` | oci-auto-capabilities.py:104-108 | removing a capability never adds a member to a list |
| `Search.JointCandidatesWithinCatalogue` | oci-auto-capabilities.py:114-115 | every joint candidate gives every type only catalogue members |
| `Search.RoundCandidatesWithinCatalogue` | oci-auto-capabilities.py:123-125 | every candidate of a per-type round from a baseline within the catalogue holds only catalogue members |
| `Search.RoundTrialsWithinCatalogue` | oci-auto-capabilities.py:122-126 | every per-type trial of a trace whose baselines lie within the catalogue holds only catalogue members |
| `Search.TrialsWithinCatalogue` | oci-auto-capabilities.py:110-127 | every baseline of a search and every configuration the search hands to the oracle holds only catalogue members |
| `Search.JointReadsOnlyRest` | oci-auto-capabilities.py:111-115 | the joint candidates and survivors depend only on the non-capability part of the configuration |
| `Search.AnyListNonEmpty` | oci-auto-capabilities.py:118-120 | after the joint round, the early-exit test finds a non-empty list exactly when the joint round kept some capability |
| `Search.FullCatalogue` | oci-auto-capabilities.py:111-113 | every type gets the whole catalogue; the rest is unchanged |
| `Search.JointRound` | oci-auto-capabilities.py:114-116 | it submits the joint candidates; every type ends as the joint survivors, without duplicates |
| `Search.TypeRound` | oci-auto-capabilities.py:122-126 | it submits the leave-one-out candidates of `typ`; `typ` ends as its survivors; every other type's set is unchanged |
| `Search.TypeRounds` | oci-auto-capabilities.py:122-126 | one round per type in `TYPES_CAPS` order, each from the previous result; the trials are the rounds' candidates in order; no type grows |
| `Search.Start` | oci-auto-capabilities.py:110-127 | the baselines form a search trace: exactly one round when the joint round kept nothing, otherwise six; the trials are the joint candidates followed by each round's candidates; every final set is within the joint survivors, which are within the catalogue; every baseline in `trace` and every configuration in `trials` holds only catalogue members (through `Search.TrialsWithinCatalogue`) |
| `Convergence.JointKeepsRequired` | oci-auto-capabilities.py:114-116 | against a required-set oracle, the joint round keeps exactly the capabilities some type requires |
| `Convergence.TypeRoundKeepsRequired` | oci-auto-capabilities.py:123-126 | against a required-set oracle, a per-type round from a baseline that meets the requirement keeps exactly that type's requirement |
| `Convergence.RoundsKeepRequired` | oci-auto-capabilities.py:122-126 | every later baseline still meets the requirement; every type already processed holds exactly its requirement |
| `Convergence.SearchFindsRequired` | oci-auto-capabilities.py:110-127 | single-removal correctness: a whole search against a required-set oracle ends with every type holding exactly its requirement |
| `Convergence.JointKeepsAllButForbidden` | oci-auto-capabilities.py:114-116 | against a forbidden-capability oracle, the joint round keeps every capability except the forbidden one |
| `Convergence.TypeRoundEmpties` | oci-auto-capabilities.py:123-126 | from a baseline without the forbidden capability, a per-type round empties its type |
| `Convergence.RoundsEmpty` | oci-auto-capabilities.py:122-126 | no baseline holds the forbidden capability; every type already processed is empty |
| `Convergence.SearchDropsAllButForbidden` | oci-auto-capabilities.py:110-127 | the forbidden-capability scenario: the joint round keeps all but the forbidden capability; all five per-type rounds run; every final list is empty |

## Left out

- `run_container` (lines 69-79) is left out. It serialises the configuration, loads it into crun, gives the container a random name and runs it. The model replaces all of that with the oracle parameter, which is total and deterministic:
  - Only an exception raised by the run itself (line 74) is caught and turned into failure (lines 76-78).
  - An exception from serialising, loading or creating the context (lines 70-72) is not caught. It escapes `run_container`, is raised again when `intersect` reads that outcome (line 96), and ends the whole search. The model does not capture this abort.
  - A flaky runtime, which can give different verdicts for the same configuration, is not modelled.
- The thread pool behind `executor.map` and the `--sequential` switch are left out. The model submits the candidates one after another and collects the outcomes in candidate order, which is the order `executor.map` returns them in.
- The `__main__` block (lines 129-167) is left out:
  - argument parsing and the `--test` and `--sequential` options;
  - reading `config.json` from the bundle (line 152);
  - making `root.path` absolute (line 155);
  - the two changes to the configuration that `start` then receives: a bind mount of the test program at `/usr/bin/test-script` (lines 156-158), and `process.args` rewritten to run it (line 159);
  - writing the result to `config.json.new` (lines 145 and 164-166), which copies only `process.capabilities` into the original document (line 165);
  - refusing to overwrite an existing `config.json.new` without `--force` (lines 145-148);
  - the printed output.
- `copy.deepcopy` and in-place mutation become value semantics. `start` and `intersect` overwrite the caller's dictionary; the model returns new values instead. The model does not capture that the caller's configuration changes too.
- `list(set)` returns its members in an order Python does not specify. `SetToList` may pick any order, and every contract compares lists as sets.
- JSON floating-point numbers are not modelled. The rest of the document is opaque and never read.
- A configuration without a `process` object makes `start` raise at line 111. The model always has a capability map, so that error path is not modelled.
- `Reducer.Intersect`: `intersect` raises `KeyError` when a successful outcome lacks one of the five types. The model states this as a precondition: every successful outcome is complete. Every candidate the search builds is complete, so the search never meets the missing-key case.
