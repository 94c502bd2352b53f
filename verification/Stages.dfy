/**
  The two readers of a resolved pipeline archive in `pipeline.rs`: the compiled stages and
  the performance statistics.
 */
module Stages {
  import opened Machine
  import opened Wrappers
  import opened Plist
  import opened Archive
  import opened ArchiveRoundTrip

  datatype StageKind = Vertex | Fragment | Compute

  datatype Stage = Stage(kind: StageKind, machO: seq<byte>, uniqueId: u64)

  datatype PipelineError =
    | BadArchive(why: ArchiveError)
    | EntryNotDictionary(kind: StageKind)
    | DataMissing(kind: StageKind)
    | NoStatistics
    | StatisticsNotDictionary
    | NotSingleStage(entries: nat)

  function KeyOf(kind: StageKind): string {
    match kind
    case Vertex => "vertex"
    case Fragment => "fragment"
    case Compute => "compute"
  }

  const KINDS := [Vertex, Fragment, Compute]

  /** `get("uniqueId").and_then(as_unsigned_integer).unwrap_or(0)` */
  function UniqueIdIn(d: map<string, Value>): u64 {
    if "uniqueId" in d && d["uniqueId"].Integer? && 0 <= d["uniqueId"].number < U64_LIMIT then d["uniqueId"].number
    else 0
  }

  function StageIn(kind: StageKind, entry: Value): Result<Stage, PipelineError> {
    if !entry.Dictionary? then Failure(EntryNotDictionary(kind))
    else
      var data := DataAt(entry.entries, "data");
      if data.None? then Failure(DataMissing(kind))
      else Success(Stage(kind, data.value, UniqueIdIn(entry.entries)))
  }

  /** The stages of one kind: the first entry that is not one is the error. */
  function StagesOfKind(kind: StageKind, entries: seq<Value>): Result<seq<Stage>, PipelineError> {
    if entries == [] then Success([])
    else
      var n := |entries| - 1;
      var before :- StagesOfKind(kind, entries[..n]);
      var stage :- StageIn(kind, entries[n]);
      Success(before + [stage])
  }

  /** A kind that is absent, or not an array, has no stages. */
  function EntriesOf(dict: map<string, Value>, kind: StageKind): seq<Value> {
    var arr := ArrayAt(dict, KeyOf(kind));
    if arr.Some? then arr.value else []
  }

  function StagesOfKinds(dict: map<string, Value>, kinds: seq<StageKind>): Result<seq<Stage>, PipelineError> {
    if kinds == [] then Success([])
    else
      var n := |kinds| - 1;
      var before :- StagesOfKinds(dict, kinds[..n]);
      var these :- StagesOfKind(kinds[n], EntriesOf(dict, kinds[n]));
      Success(before + these)
  }

  function StagesOf(root: Value): Result<seq<Stage>, PipelineError> {
    var dict := UnarchiveRoot(root);
    if dict.Failure? then Failure(BadArchive(dict.error)) else StagesOfKinds(dict.value, KINDS)
  }

  lemma {:induction false} KindsPrefixFails(dict: map<string, Value>, kinds: seq<StageKind>, n: nat)
    requires n <= |kinds| && StagesOfKinds(dict, kinds[..n]).Failure?
    ensures StagesOfKinds(dict, kinds) == StagesOfKinds(dict, kinds[..n])
    decreases |kinds|
  {
    if n < |kinds| {
      var last := |kinds| - 1;
      assert kinds[..last][..n] == kinds[..n];
      KindsPrefixFails(dict, kinds[..last], n);
    } else {
      assert kinds[..n] == kinds;
    }
  }

  lemma {:induction false} EntriesPrefixFail(kind: StageKind, entries: seq<Value>, n: nat)
    requires n <= |entries| && StagesOfKind(kind, entries[..n]).Failure?
    ensures StagesOfKind(kind, entries) == StagesOfKind(kind, entries[..n])
    decreases |entries|
  {
    if n < |entries| {
      var last := |entries| - 1;
      assert entries[..last][..n] == entries[..n];
      EntriesPrefixFail(kind, entries[..last], n);
    } else {
      assert entries[..n] == entries;
    }
  }

  /** `Pipeline::stages`: three kinds in order, every entry of each. */
  method ReadStages(root: Value) returns (r: Result<seq<Stage>, PipelineError>)
    ensures r == StagesOf(root)
  {
    var dict := UnarchiveRoot(root);
    if dict.Failure? {
      return Failure(BadArchive(dict.error));
    }
    r := CollectKinds(dict.value, KINDS);
  }

  method CollectKinds(dict: map<string, Value>, kinds: seq<StageKind>) returns (r: Result<seq<Stage>, PipelineError>)
    ensures r == StagesOfKinds(dict, kinds)
  {
    var stages: seq<Stage> := [];
    for i := 0 to |kinds|
      invariant StagesOfKinds(dict, kinds[..i]) == Success(stages)
    {
      assert kinds[..i + 1][..i] == kinds[..i];
      var these := CollectEntries(kinds[i], EntriesOf(dict, kinds[i]));
      if these.Failure? {
        KindsPrefixFails(dict, kinds, i + 1);
        return these;
      }
      stages := stages + these.value;
    }
    assert kinds[..|kinds|] == kinds;
    r := Success(stages);
  }

  method CollectEntries(kind: StageKind, entries: seq<Value>) returns (r: Result<seq<Stage>, PipelineError>)
    ensures r == StagesOfKind(kind, entries)
  {
    var stages: seq<Stage> := [];
    for i := 0 to |entries|
      invariant StagesOfKind(kind, entries[..i]) == Success(stages)
    {
      assert entries[..i + 1][..i] == entries[..i];
      var stage := StageIn(kind, entries[i]);
      if stage.Failure? {
        EntriesPrefixFail(kind, entries, i + 1);
        return Failure(stage.error);
      }
      stages := stages + [stage.value];
    }
    assert entries[..|entries|] == entries;
    r := Success(stages);
  }

  // ---------------------------------------------------------------------------
  // Nothing dropped
  // ---------------------------------------------------------------------------

  /** The entry holds this stage, whatever else it holds; a missing or unfit id stands for 0. */
  ghost predicate HoldsStage(entry: Value, stage: Stage) {
    && entry.Dictionary?
    && "data" in entry.entries && entry.entries["data"] == Data(stage.machO)
    && (if "uniqueId" in entry.entries && entry.entries["uniqueId"].Integer?
           && 0 <= entry.entries["uniqueId"].number < U64_LIMIT
        then entry.entries["uniqueId"].number == stage.uniqueId
        else stage.uniqueId == 0)
  }

  ghost predicate HoldAll(kind: StageKind, entries: seq<Value>, stages: seq<Stage>) {
    && |stages| == |entries|
    && forall i | 0 <= i < |entries| :: stages[i].kind == kind && HoldsStage(entries[i], stages[i])
  }

  /** The stages of a kind are read exactly when every entry holds one, and are those. */
  lemma StagesOfKindExactly(kind: StageKind, entries: seq<Value>, out: seq<Stage>)
    ensures StagesOfKind(kind, entries) == Success(out) <==> HoldAll(kind, entries, out)
  {
    if StagesOfKind(kind, entries) == Success(out) {
      ReadIsHeld(kind, entries, out);
    }
    if HoldAll(kind, entries, out) {
      HeldIsRead(kind, entries, out);
    }
  }

  lemma {:induction false} ReadIsHeld(kind: StageKind, entries: seq<Value>, out: seq<Stage>)
    requires StagesOfKind(kind, entries) == Success(out)
    ensures HoldAll(kind, entries, out)
    decreases |entries|
  {
    if entries != [] {
      var n := |entries| - 1;
      var before := StagesOfKind(kind, entries[..n]).value;
      var stage := StageIn(kind, entries[n]).value;
      ReadIsHeld(kind, entries[..n], before);
      OneMoreHeld(kind, entries, before, stage);
    }
  }

  lemma {:induction false} HeldIsRead(kind: StageKind, entries: seq<Value>, out: seq<Stage>)
    requires HoldAll(kind, entries, out)
    ensures StagesOfKind(kind, entries) == Success(out)
    decreases |entries|
  {
    if entries != [] {
      var n := |entries| - 1;
      HeldBefore(kind, entries, out);
      HeldIsRead(kind, entries[..n], out[..n]);
      assert out == out[..n] + [out[n]];
    }
  }

  lemma HeldBefore(kind: StageKind, entries: seq<Value>, out: seq<Stage>)
    requires entries != [] && HoldAll(kind, entries, out)
    ensures var n := |entries| - 1;
            HoldAll(kind, entries[..n], out[..n]) && StageIn(kind, entries[n]) == Success(out[n])
  {
    assert HoldsStage(entries[|entries| - 1], out[|entries| - 1]);
  }

  lemma OneMoreHeld(kind: StageKind, entries: seq<Value>, before: seq<Stage>, stage: Stage)
    requires entries != [] && HoldAll(kind, entries[..|entries| - 1], before)
    requires stage.kind == kind && HoldsStage(entries[|entries| - 1], stage)
    ensures HoldAll(kind, entries, before + [stage])
  {
    forall i | 0 <= i < |entries| - 1 ensures before[i].kind == kind && HoldsStage(entries[i], before[i]) {
      assert entries[..|entries| - 1][i] == entries[i];
    }
  }

  /** `dict` holds these stages under the three kinds, an absent kind standing for none,
      whatever else it holds. */
  ghost predicate HoldsStages(dict: map<string, Value>, vertex: seq<Stage>, fragment: seq<Stage>, compute: seq<Stage>) {
    && HoldAll(Vertex, ArrayNamed(dict, "vertex"), vertex)
    && HoldAll(Fragment, ArrayNamed(dict, "fragment"), fragment)
    && HoldAll(Compute, ArrayNamed(dict, "compute"), compute)
  }

  /** The items under that name; anything but an array there holds none. */
  ghost function ArrayNamed(dict: map<string, Value>, name: string): seq<Value> {
    if name in dict && dict[name].Array? then dict[name].items else []
  }

  ghost predicate HoldsSome(entry: Value) {
    entry.Dictionary? && "data" in entry.entries && entry.entries["data"].Data?
  }

  /** The first entry that holds no stage is the error of its kind: it is no dictionary, or has
      no code. */
  lemma {:induction false} FirstUnfit(kind: StageKind, entries: seq<Value>, i: nat)
    requires i < |entries| && !HoldsSome(entries[i]) && forall j | 0 <= j < i :: HoldsSome(entries[j])
    ensures StagesOfKind(kind, entries)
         == Failure(if entries[i].Dictionary? then DataMissing(kind) else EntryNotDictionary(kind))
    decreases |entries|
  {
    var n := |entries| - 1;
    if i < n {
      FirstUnfit(kind, entries[..n], i);
    } else {
      AllFit(kind, entries[..n]);
    }
  }

  lemma {:induction false} AllFit(kind: StageKind, entries: seq<Value>)
    requires forall j | 0 <= j < |entries| :: HoldsSome(entries[j])
    ensures StagesOfKind(kind, entries).Success?
    decreases |entries|
  {
    if entries != [] {
      AllFit(kind, entries[..|entries| - 1]);
    }
  }

  /** Of the kinds, the first with an unfit entry, vertex before fragment before compute. */
  lemma FirstKindUnfit(dict: map<string, Value>, error: PipelineError)
    ensures StagesOfKind(Vertex, ArrayNamed(dict, "vertex")) == Failure(error) ==>
              StagesOfKinds(dict, KINDS) == Failure(error)
    ensures StagesOfKind(Vertex, ArrayNamed(dict, "vertex")).Success?
            && StagesOfKind(Fragment, ArrayNamed(dict, "fragment")) == Failure(error) ==>
              StagesOfKinds(dict, KINDS) == Failure(error)
    ensures StagesOfKind(Vertex, ArrayNamed(dict, "vertex")).Success?
            && StagesOfKind(Fragment, ArrayNamed(dict, "fragment")).Success?
            && StagesOfKind(Compute, ArrayNamed(dict, "compute")) == Failure(error) ==>
              StagesOfKinds(dict, KINDS) == Failure(error)
  {
    FirstOfThreeFails(dict, Vertex, Fragment, Compute, error);
  }

  lemma FirstOfThreeFails(dict: map<string, Value>, k0: StageKind, k1: StageKind, k2: StageKind, error: PipelineError)
    ensures var r0, r1, r2 := StagesOfKind(k0, EntriesOf(dict, k0)), StagesOfKind(k1, EntriesOf(dict, k1)),
                              StagesOfKind(k2, EntriesOf(dict, k2));
            && (r0 == Failure(error) ==> StagesOfKinds(dict, [k0, k1, k2]) == Failure(error))
            && (r0.Success? && r1 == Failure(error) ==> StagesOfKinds(dict, [k0, k1, k2]) == Failure(error))
            && (r0.Success? && r1.Success? && r2 == Failure(error) ==>
                  StagesOfKinds(dict, [k0, k1, k2]) == Failure(error))
  {
    var r0, r1 := StagesOfKind(k0, EntriesOf(dict, k0)), StagesOfKind(k1, EntriesOf(dict, k1));
    OneMoreFails(dict, [], k0, []);
    assert [] + [k0] == [k0];
    if r0.Failure? {
      FailsBefore(dict, [k0], [k1, k2]);
      assert [k0] + [k1, k2] == [k0, k1, k2];
    } else {
      OneMoreKind(dict, [], k0, [], r0.value);
      assert [] + r0.value == r0.value;
      OneMoreFails(dict, [k0], k1, r0.value);
      assert [k0] + [k1] == [k0, k1];
      if r1.Failure? {
        FailsBefore(dict, [k0, k1], [k2]);
      } else {
        TwoKinds(dict, k0, k1, r0.value, r1.value);
        OneMoreFails(dict, [k0, k1], k2, r0.value + r1.value);
      }
      assert [k0, k1] + [k2] == [k0, k1, k2];
    }
  }

  lemma OneMoreFails(dict: map<string, Value>, kinds: seq<StageKind>, kind: StageKind, before: seq<Stage>)
    requires StagesOfKinds(dict, kinds) == Success(before)
    ensures StagesOfKind(kind, EntriesOf(dict, kind)).Failure? ==>
              StagesOfKinds(dict, kinds + [kind]) == Failure(StagesOfKind(kind, EntriesOf(dict, kind)).error)
  {
    assert (kinds + [kind])[..|kinds|] == kinds;
  }

  lemma FailsBefore(dict: map<string, Value>, kinds: seq<StageKind>, more: seq<StageKind>)
    requires StagesOfKinds(dict, kinds).Failure?
    ensures StagesOfKinds(dict, kinds + more) == StagesOfKinds(dict, kinds)
  {
    assert (kinds + more)[..|kinds|] == kinds;
    KindsPrefixFails(dict, kinds + more, |kinds|);
  }

  /** An archive the resolver refuses is refused with the resolver's own error. */
  lemma RefusedArchive(root: Value, why: ArchiveError)
    ensures UnarchiveRoot(root) == Failure(why) ==> StagesOf(root) == Failure(BadArchive(why))
    ensures UnarchiveRoot(root) == Failure(why) ==> StatisticsOf(root) == Failure(BadArchive(why))
  {
  }

  /** Every stage of every kind comes back, vertex before fragment before compute. */
  lemma StagesRoundTrip(dict: map<string, Value>, vertex: seq<Stage>, fragment: seq<Stage>, compute: seq<Stage>)
    requires HoldsStages(dict, vertex, fragment, compute)
    ensures StagesOfKinds(dict, KINDS) == Success(vertex + fragment + compute)
  {
    StagesOfKindExactly(Vertex, EntriesOf(dict, Vertex), vertex);
    StagesOfKindExactly(Fragment, EntriesOf(dict, Fragment), fragment);
    StagesOfKindExactly(Compute, EntriesOf(dict, Compute), compute);
    ThreeKinds(dict, Vertex, Fragment, Compute, vertex, fragment, compute);
  }

  lemma ThreeKinds(dict: map<string, Value>, k0: StageKind, k1: StageKind, k2: StageKind,
                   s0: seq<Stage>, s1: seq<Stage>, s2: seq<Stage>)
    requires StagesOfKind(k0, EntriesOf(dict, k0)) == Success(s0)
    requires StagesOfKind(k1, EntriesOf(dict, k1)) == Success(s1)
    requires StagesOfKind(k2, EntriesOf(dict, k2)) == Success(s2)
    ensures StagesOfKinds(dict, [k0, k1, k2]) == Success(s0 + s1 + s2)
  {
    TwoKinds(dict, k0, k1, s0, s1);
    OneMoreKind(dict, [k0, k1], k2, s0 + s1, s2);
    assert [k0, k1] + [k2] == [k0, k1, k2];
  }

  lemma TwoKinds(dict: map<string, Value>, k0: StageKind, k1: StageKind, s0: seq<Stage>, s1: seq<Stage>)
    requires StagesOfKind(k0, EntriesOf(dict, k0)) == Success(s0)
    requires StagesOfKind(k1, EntriesOf(dict, k1)) == Success(s1)
    ensures StagesOfKinds(dict, [k0, k1]) == Success(s0 + s1)
  {
    OneMoreKind(dict, [], k0, [], s0);
    assert [] + [k0] == [k0] && [] + s0 == s0;
    OneMoreKind(dict, [k0], k1, s0, s1);
    assert [k0] + [k1] == [k0, k1];
  }

  lemma OneMoreKind(dict: map<string, Value>, kinds: seq<StageKind>, kind: StageKind, before: seq<Stage>,
                    these: seq<Stage>)
    requires StagesOfKinds(dict, kinds) == Success(before)
    requires StagesOfKind(kind, EntriesOf(dict, kind)) == Success(these)
    ensures StagesOfKinds(dict, kinds + [kind]) == Success(before + these)
  {
    assert (kinds + [kind])[..|kinds|] == kinds;
  }

  /** From any archive of such a dictionary within the depth budget, exactly the stages are read. */
  lemma ArchivedStagesRead(root: Value, objects: seq<Value>, u: nat, dict: map<string, Value>,
                           vertex: seq<Stage>, fragment: seq<Stage>, compute: seq<Stage>)
    requires HoldsStages(dict, vertex, fragment, compute)
    requires Envelope(root) == Success((objects, Uid(u))) && Archives(objects, u, Dictionary(dict))
    requires HeightAtMost(Dictionary(dict), 31)
    ensures StagesOf(root) == Success(vertex + fragment + compute)
  {
    ArchivedRootResolves(root, objects, u, dict);
    StagesRoundTrip(dict, vertex, fragment, compute);
  }

  // ---------------------------------------------------------------------------
  // Performance statistics
  // ---------------------------------------------------------------------------

  /** `Pipeline::performance_stats`. */
  function StatisticsOf(root: Value): Result<map<string, Value>, PipelineError> {
    var dict := UnarchiveRoot(root);
    if dict.Failure? then Failure(BadArchive(dict.error))
    else
      var arr := ArrayAt(dict.value, "PerformanceStatistics");
      if arr.None? then Failure(NoStatistics)
      else if |arr.value| == 1 then
        if arr.value[0].Dictionary? then Success(arr.value[0].entries) else Failure(StatisticsNotDictionary)
      else Failure(NotSingleStage(|arr.value|))
  }

  /** The statistics of a single stage come back whole from any archive of them that is not
      too deep; those of any other number of stages never do. */
  lemma StatisticsExactly(root: Value, objects: seq<Value>, u: nat, dict: map<string, Value>, all: seq<Value>)
    requires Envelope(root) == Success((objects, Uid(u))) && Archives(objects, u, Dictionary(dict))
    requires HeightAtMost(Dictionary(dict), 31)
    requires "PerformanceStatistics" in dict && dict["PerformanceStatistics"] == Array(all)
    ensures forall raw :: StatisticsOf(root) == Success(raw) <==> all == [Dictionary(raw)]
    ensures |all| != 1 ==> StatisticsOf(root) == Failure(NotSingleStage(|all|))
    ensures |all| == 1 && !all[0].Dictionary? ==> StatisticsOf(root) == Failure(StatisticsNotDictionary)
  {
    ArchivedRootResolves(root, objects, u, dict);
    assert |all| == 1 ==> all == [all[0]];
  }
}
