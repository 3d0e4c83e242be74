/**
  One renaming pass (`AIRenamingService.PerformRenamingIterationAsync`): take the snapshot of
  the records still to name, skip the model when there are none, otherwise ask it and merge its
  answer into the registry.
 */
module RenamingService {
  import opened Text
  import opened Model
  import opened Registry
  import opened RegistryProperties
  import JsonHelper

  /**
    The language model's answer to the prompt of one pass. The prompt is built from the system
    instructions and the decompiled code, which are fixed for a run, the snapshot and the 0-based
    pass number; the answer is taken as a function of the last two.
   */
  type Oracle = (string, nat) -> string

  /** `IsNullOrWhiteSpace(snapshot) || snapshot.Trim() == "{}"`: nothing left to ask about. */
  predicate NothingToAsk(snapshot: string) {
    AllWhiteSpace(snapshot) || Trim(snapshot) == "{}"
  }

  /** The effect of one pass on the list of records. */
  function Iteration(ms: seq<MemberInfo>, prefix: string, passCount: nat, ask: Oracle, lib: JsonLibrary): MergeResult {
    var snapshot := PromptData(ms, lib.serialize);
    if NothingToAsk(snapshot) then NoChange(ms)
    else MergeResponse(ms, ask(snapshot, passCount), prefix, lib)
  }

  /** `PerformRenamingIterationAsync`: the number of records the pass renamed. */
  method PerformRenamingIteration(memberManager: MemberInfoManager, descriptiveNamePrefix: string, passCount: nat,
                                  ask: Oracle, lib: JsonLibrary) returns (updated: nat)
    modifies memberManager
    ensures var r := Iteration(old(memberManager.members), descriptiveNamePrefix, passCount, ask, lib);
      memberManager.members == r.members && updated == r.count
      && memberManager.renameLog == old(memberManager.renameLog) + r.events
  {
    var enumerationResults := memberManager.GenerateAIPromptData(lib.serialize);
    if NothingToAsk(enumerationResults) {
      assert memberManager.renameLog + [] == memberManager.renameLog;
      return 0;
    }
    var aiResponse := ask(enumerationResults, passCount);
    updated := memberManager.UpdateMembersFromAIResponse(aiResponse, descriptiveNamePrefix, lib);
  }

  /** The serializer writes neither a blank text nor `{}` for a non-empty dictionary. */
  ghost predicate SerializerWritesEntries(lib: JsonLibrary) {
    forall m :: m != map[] ==> !NothingToAsk(lib.serialize(m))
  }

  /** With nothing left to name the pass sends no prompt and changes nothing. */
  lemma SettledRegistrySkipsOracle(ms: seq<MemberInfo>, prefix: string, passCount: nat, ask: Oracle, lib: JsonLibrary)
    requires !HasEligible(ms)
    ensures Iteration(ms, prefix, passCount, ask, lib) == NoChange(ms)
  {
    TrimUnchanged("{}");
  }

  /** The model is asked exactly when some record is still eligible, and its answer is then merged. */
  lemma OracleAskedIffEligible(ms: seq<MemberInfo>, prefix: string, passCount: nat, ask: Oracle, lib: JsonLibrary)
    requires SerializerWritesEntries(lib)
    ensures NothingToAsk(PromptData(ms, lib.serialize)) <==> !HasEligible(ms)
    ensures HasEligible(ms) ==>
      Iteration(ms, prefix, passCount, ask, lib) == MergeResponse(ms, ask(PromptData(ms, lib.serialize), passCount), prefix, lib)
  {
    TrimUnchanged("{}");
    if HasEligible(ms) {
      var i :| 0 <= i < |ms| && Eligible(ms[i]);
      PromptMapKeys(ms, ms[i].UniqueId);
      assert PromptMap(ms) != map[];
    }
  }

  /** A merged payload keeps every record in place, never unnames one, and writes and announces only prefixed names. */
  lemma DeserializeAndMergePreserves(ms: seq<MemberInfo>, json: string, prefix: string, lib: JsonLibrary)
    ensures var r := DeserializeAndMerge(ms, json, prefix, lib);
      Keeps(ms, r.members) && NamesPrefixed(ms, r.members, prefix) && EventsPrefixed(r.events, prefix)
  {
    if json != [] && lib.deserialize(json).Some? && DistinctIds(ms) {
      MergePreserves(ms, IdLookup(Ids(ms)), lib.deserialize(json).value, prefix);
    }
  }

  /** A merged answer keeps every record in place, never unnames one, and writes and announces only prefixed names. */
  lemma MergeResponsePreserves(ms: seq<MemberInfo>, aiResponse: string, prefix: string, lib: JsonLibrary)
    ensures var r := MergeResponse(ms, aiResponse, prefix, lib);
      Keeps(ms, r.members) && NamesPrefixed(ms, r.members, prefix) && EventsPrefixed(r.events, prefix)
  {
    if aiResponse != [] {
      match JsonHelper.ExtractAndFixJsonFromResponse(aiResponse, lib.parses)
      case None =>
      case Some(json) =>
        DeserializeAndMergePreserves(ms, json, prefix, lib);
    }
  }

  /** A pass keeps every record in place, never unnames one, and writes and announces only prefixed names. */
  lemma IterationPreserves(ms: seq<MemberInfo>, prefix: string, passCount: nat, ask: Oracle, lib: JsonLibrary)
    ensures var r := Iteration(ms, prefix, passCount, ask, lib);
      Keeps(ms, r.members) && NamesPrefixed(ms, r.members, prefix) && EventsPrefixed(r.events, prefix)
  {
    var snapshot := PromptData(ms, lib.serialize);
    if !NothingToAsk(snapshot) {
      MergeResponsePreserves(ms, ask(snapshot, passCount), prefix, lib);
    }
  }
}
