/**
  The part of `ApplicationRunner` that drives a renaming run: the pass loop with its two early
  stops, the outcome it reports, the recommended number of passes, the name of the renamed file,
  and the quotes stripped from the path the user types.
 */
module Runner {
  import opened Wrappers
  import opened Text
  import opened Model
  import opened Symbols
  import opened Registry
  import opened RegistryProperties
  import opened Renamer
  import opened RenamerProperties
  import opened RenamingService

  // ---------------------------------------------------------------------------------------
  // The pass loop
  // ---------------------------------------------------------------------------------------

  /**
    Where a run of passes ends: the records, the pass counter, the rename log, how many passes
    ran, and whether one of the two early stops ended it.
   */
  datatype RunOutcome = RunOutcome(
    members: seq<MemberInfo>,
    passCount: nat,
    log: seq<RenameEvent>,
    passes: nat,
    stoppedEarly: bool)

  /**
    The pass loop from pass `passCount` on, `passes` having run so far: it stops once every
    record is named, or after a pass past the first that renamed nothing, or when the counter
    reaches `maxPasses`. An early stop leaves the counter on the pass that ran last.
   */
  function Run(ms: seq<MemberInfo>, passCount: nat, maxPasses: nat, log: seq<RenameEvent>, passes: nat,
               prefix: string, ask: Oracle, lib: JsonLibrary): RunOutcome
    decreases maxPasses - passCount
  {
    if passCount >= maxPasses then RunOutcome(ms, passCount, log, passes, false)
    else
      var o := Iteration(ms, prefix, passCount, ask, lib);
      if NamedCount(o.members) == |o.members| || (o.count == 0 && passCount > 0) then
        RunOutcome(o.members, passCount, log + o.events, passes + 1, true)
      else Run(o.members, passCount + 1, maxPasses, log + o.events, passes + 1, prefix, ask, lib)
  }

  /** The loop of `RunFullAnalysisAsync`; returns the pass counter the renamed file is labelled with. */
  method RunRenamingPasses(memberManager: MemberInfoManager, maxPasses: nat, descriptiveNamePrefix: string,
                           ask: Oracle, lib: JsonLibrary) returns (passCount: nat)
    modifies memberManager
    ensures var r := Run(old(memberManager.members), 0, maxPasses, old(memberManager.renameLog), 0, descriptiveNamePrefix, ask, lib);
      memberManager.members == r.members && memberManager.renameLog == r.log && passCount == r.passCount
  {
    passCount := 0;
    ghost var passes := 0;
    while passCount < maxPasses
      invariant passes == passCount
      invariant Run(old(memberManager.members), 0, maxPasses, old(memberManager.renameLog), 0, descriptiveNamePrefix, ask, lib)
             == Run(memberManager.members, passCount, maxPasses, memberManager.renameLog, passes, descriptiveNamePrefix, ask, lib)
      decreases maxPasses - passCount
    {
      ghost var ms := memberManager.members;
      ghost var log := memberManager.renameLog;
      var newMappingsCount := PerformRenamingIteration(memberManager, descriptiveNamePrefix, passCount, ask, lib);
      ghost var o := Iteration(ms, descriptiveNamePrefix, passCount, ask, lib);
      assert memberManager.members == o.members && newMappingsCount == o.count && memberManager.renameLog == log + o.events;
      if memberManager.GetNamedMembersCount() == memberManager.GetTotalMembersCount() {
        break;
      }
      if newMappingsCount == 0 && passCount > 0 {
        break;
      }
      passCount := passCount + 1;
      passes := passes + 1;
    }
  }

  /** The run ends with every record named ("Full Renaming") or not ("Partial Renaming"). */
  predicate Partial(ms: seq<MemberInfo>) {
    NamedCount(ms) < |ms|
  }

  /** The run reports a partial renaming exactly when some record is still unnamed. */
  lemma PartialIffUnnamed(ms: seq<MemberInfo>)
    ensures Partial(ms) <==> exists i :: 0 <= i < |ms| && !ms[i].IsNamed
  {
    NamedCountFull(ms);
  }

  /**
    The loop runs at most `maxPasses` passes and at least one when it may run any; the counter
    it ends on is the number of passes run, less one when an early stop ended the loop.
   */
  lemma {:induction false} RunCounts(ms: seq<MemberInfo>, passCount: nat, maxPasses: nat, log: seq<RenameEvent>, passes: nat,
                                     prefix: string, ask: Oracle, lib: JsonLibrary)
    requires passes == passCount <= maxPasses
    ensures var r := Run(ms, passCount, maxPasses, log, passes, prefix, ask, lib);
      && r.passes <= maxPasses
      && (passCount < maxPasses ==> r.passes > passes)
      && r.passCount == (if r.stoppedEarly then r.passes - 1 else r.passes)
      && (!r.stoppedEarly ==> r.passCount == maxPasses)
    decreases maxPasses - passCount
  {
    if passCount < maxPasses {
      var o := Iteration(ms, prefix, passCount, ask, lib);
      if !(NamedCount(o.members) == |o.members| || (o.count == 0 && passCount > 0)) {
        RunCounts(o.members, passCount + 1, maxPasses, log + o.events, passes + 1, prefix, ask, lib);
      }
    }
  }

  /** Keeps is transitive. */
  lemma KeepsTrans(a: seq<MemberInfo>, b: seq<MemberInfo>, c: seq<MemberInfo>)
    requires Keeps(a, b) && Keeps(b, c)
    ensures Keeps(a, c)
  {
    forall i | 0 <= i < |a| ensures SameMember(a[i], c[i]) {
      assert SameMember(a[i], b[i]) && SameMember(b[i], c[i]);
    }
  }

  /** Names changed over two merges were last written by one of them, so they start with the prefix. */
  lemma NamesPrefixedTrans(a: seq<MemberInfo>, b: seq<MemberInfo>, c: seq<MemberInfo>, prefix: string)
    requires NamesPrefixed(a, b, prefix) && NamesPrefixed(b, c, prefix)
    ensures NamesPrefixed(a, c, prefix)
  {
  }

  /** Events added to the log, one merge after the other, all start with the prefix. */
  lemma EventsPrefixedConcat(log: seq<RenameEvent>, evs: seq<RenameEvent>, rest: seq<RenameEvent>, prefix: string)
    requires EventsPrefixed(evs, prefix)
    requires |log + evs| <= |rest| && rest[..|log + evs|] == log + evs && EventsPrefixed(rest[|log + evs|..], prefix)
    ensures |log| <= |rest| && rest[..|log|] == log && EventsPrefixed(rest[|log|..], prefix)
  {
    assert rest[..|log|] == (log + evs)[..|log|];
    forall k | 0 <= k < |rest| - |log| ensures StartsWithIgnoreCase(rest[|log|..][k].NewName, prefix) {
      if k < |evs| {
        assert rest[|log|..][k] == (log + evs)[|log| + k] == evs[k];
      } else {
        assert rest[|log|..][k] == rest[|log + evs|..][k - |evs|];
      }
    }
  }

  /**
    A run keeps every record in place and never unnames one, every name it changes starts with
    the prefix, and it only appends to the rename log, with prefixed names.
   */
  lemma {:induction false} RunPreserves(ms: seq<MemberInfo>, passCount: nat, maxPasses: nat, log: seq<RenameEvent>, passes: nat,
                                        prefix: string, ask: Oracle, lib: JsonLibrary)
    ensures var r := Run(ms, passCount, maxPasses, log, passes, prefix, ask, lib);
      && Keeps(ms, r.members) && NamesPrefixed(ms, r.members, prefix)
      && |log| <= |r.log| && r.log[..|log|] == log && EventsPrefixed(r.log[|log|..], prefix)
    decreases maxPasses - passCount
  {
    var r := Run(ms, passCount, maxPasses, log, passes, prefix, ask, lib);
    if passCount >= maxPasses {
      assert r.log[..|log|] == log;
    } else {
      var o := Iteration(ms, prefix, passCount, ask, lib);
      IterationPreserves(ms, prefix, passCount, ask, lib);
      if NamedCount(o.members) == |o.members| || (o.count == 0 && passCount > 0) {
        assert r.log[..|log|] == log;
        assert r.log[|log|..] == o.events;
      } else {
        RunPreserves(o.members, passCount + 1, maxPasses, log + o.events, passes + 1, prefix, ask, lib);
        KeepsTrans(ms, o.members, r.members);
        NamesPrefixedTrans(ms, o.members, r.members, prefix);
        EventsPrefixedConcat(log, o.events, r.log, prefix);
      }
    }
  }

  /**
    When no pass can change anything, the run leaves the records and the log alone and stops
    after one pass if every record is named, otherwise after two (one if only one is allowed).
   */
  lemma IdleRun(ms: seq<MemberInfo>, maxPasses: nat, log: seq<RenameEvent>, prefix: string, ask: Oracle, lib: JsonLibrary)
    requires forall p: nat :: Iteration(ms, prefix, p, ask, lib) == NoChange(ms)
    ensures var r := Run(ms, 0, maxPasses, log, 0, prefix, ask, lib);
      && r.members == ms && r.log == log
      && r.passes == (if maxPasses == 0 then 0 else if NamedCount(ms) == |ms| || maxPasses == 1 then 1 else 2)
      && r.passCount == (if maxPasses == 0 || NamedCount(ms) == |ms| then 0 else 1)
  {
    assert log + [] == log;
    if maxPasses > 0 && NamedCount(ms) != |ms| {
      assert Iteration(ms, prefix, 0, ask, lib) == NoChange(ms);
      if maxPasses > 1 {
        assert Iteration(ms, prefix, 1, ask, lib) == NoChange(ms);
      }
    }
  }

  /**
    An empty registry, or one where every record is already named, stops after the first pass
    without asking the model.
   */
  lemma SettledRegistryRun(ms: seq<MemberInfo>, maxPasses: nat, log: seq<RenameEvent>, prefix: string, ask: Oracle, lib: JsonLibrary)
    requires forall i :: 0 <= i < |ms| ==> ms[i].IsNamed
    requires maxPasses > 0
    ensures Run(ms, 0, maxPasses, log, 0, prefix, ask, lib) == RunOutcome(ms, 0, log, 1, true)
  {
    NamedCountFull(ms);
    SettledRegistrySkipsOracle(ms, prefix, 0, ask, lib);
    assert log + [] == log;
  }

  /**
    A model that answers nothing usable leaves everything as it was, and the run stops after two
    passes at most: the first pass never stops on a zero count, the second does.
   */
  lemma SilentModelRun(ms: seq<MemberInfo>, maxPasses: nat, log: seq<RenameEvent>, prefix: string, ask: Oracle, lib: JsonLibrary)
    requires forall snapshot: string, p: nat :: ask(snapshot, p) == ""
    ensures var r := Run(ms, 0, maxPasses, log, 0, prefix, ask, lib);
      r.members == ms && r.log == log && r.passes <= 2
  {
    IdleRun(ms, maxPasses, log, prefix, ask, lib);
  }

  // ---------------------------------------------------------------------------------------
  // Recommended passes and the renamed file
  // ---------------------------------------------------------------------------------------

  /**
    `CalculateRecommendedPasses`: one pass per started batch of 80 records. The quotient
    `total / 80.0` is exact enough that its ceiling is the integer ceiling, so the guard that
    raises a zero to one never fires.
   */
  function RecommendedPasses(totalMembers: nat): (r: int)
    ensures totalMembers == 0 ==> r == 0
    ensures totalMembers > 0 ==> (r - 1) * 80 < totalMembers <= r * 80
  {
    var recommendedPasses := (totalMembers + 79) / 80;
    if totalMembers > 0 && recommendedPasses == 0 then 1 else recommendedPasses
  }

  /** `pat` occurs somewhere in `s` (`String.Contains`). */
  predicate Contains(s: string, pat: string) {
    exists k :: 0 <= k <= |s| && OccursAt(s, k, pat)
  }

  /**
    The file name of `GetRenamedAssemblyPath`, without its directory: the base name, `_renamed_`,
    the first eight characters of the SHA-256 text, `_pass`, the pass counter and the extension.
   */
  function RenamedFileName(baseName: string, sha256Hash: string, passCount: nat, extension: string): string
    requires |sha256Hash| >= 8
  {
    baseName + "_renamed_" + sha256Hash[..8] + "_pass" + DecimalString(passCount) + extension
  }

  /** Every renamed file passes the filter the start-up scan applies to earlier runs. */
  lemma RenamedFileNameFound(baseName: string, sha256Hash: string, passCount: nat, extension: string)
    requires |sha256Hash| >= 8
    ensures Contains(RenamedFileName(baseName, sha256Hash, passCount, extension), "_renamed")
    ensures Contains(RenamedFileName(baseName, sha256Hash, passCount, extension), "_pass")
  {
    var name := RenamedFileName(baseName, sha256Hash, passCount, extension);
    var b := |baseName|;
    assert name[b..b + 8] == "_renamed";
    assert OccursAt(name, b, "_renamed");
    assert name[b + 17..b + 22] == "_pass";
    assert OccursAt(name, b + 17, "_pass");
  }

  /** The base name, the hash prefix and the pass counter can be read back from the file name. */
  lemma RenamedFileNameReadBack(baseName: string, sha256Hash: string, passCount: nat, extension: string)
    requires |sha256Hash| >= 8
    ensures var name := RenamedFileName(baseName, sha256Hash, passCount, extension);
      var b := |baseName|;
      && b + 22 <= |name| - |extension|
      && name[..b] == baseName
      && name[b + 9..b + 17] == sha256Hash[..8]
      && name[|name| - |extension|..] == extension
      && ParseDecimal(name[b + 22..|name| - |extension|]) == passCount
  {
    var name := RenamedFileName(baseName, sha256Hash, passCount, extension);
    var b := |baseName|;
    assert name[b + 22..|name| - |extension|] == DecimalString(passCount);
    DecimalRoundTrip(passCount);
  }

  // ---------------------------------------------------------------------------------------
  // The path the user types
  // ---------------------------------------------------------------------------------------

  /**
    The quote stripping of `RunAsync` as written, on the trimmed input: a text that starts and
    ends with `"` loses both, through `Substring(1, Length - 2)`, which throws (None) on a lone
    `"`, whose first quote is also its last.
   */
  function StripQuotesAsWritten(s: string): Option<string> {
    if StartsWith(s, "\"") && EndsWith(s, "\"") then
      if |s| >= 2 then Some(s[1..|s| - 1]) else None
    else Some(s)
  }

  /** The typed path `"` makes the quote stripping throw instead of reaching the missing-file message. */
  lemma LoneQuoteThrows()
    ensures Trim("\"") == "\"" && StripQuotesAsWritten("\"") == None
  {
    TrimUnchanged("\"");
  }

  /** The quote stripping with the lone quote left as it is. */
  function StripQuotes(s: string): (r: string)
    ensures |r| <= |s|
  {
    if |s| >= 2 && StartsWith(s, "\"") && EndsWith(s, "\"") then s[1..|s| - 1] else s
  }

  /** A quoted path loses exactly its quotes; a text not quoted at both ends, or the lone quote, is kept. */
  lemma StripQuotesUnquotes(p: string, s: string)
    ensures StripQuotes("\"" + p + "\"") == p
    ensures !(|s| >= 2 && StartsWith(s, "\"") && EndsWith(s, "\"")) ==> StripQuotes(s) == s
    ensures StripQuotes("\"") == "\""
  {
    var q := "\"" + p + "\"";
    assert q[..1] == "\"" && q[|q| - 1..] == "\"";
    assert q[1..|q| - 1] == p;
  }

  /** The corrected stripping agrees with the one as written wherever that does not throw, and it throws only on the lone quote. */
  lemma StripQuotesAgrees(s: string)
    ensures StripQuotesAsWritten(s).None? <==> s == "\""
    ensures StripQuotesAsWritten(s).Some? ==> StripQuotesAsWritten(s).value == StripQuotes(s)
  {
    if s == "\"" {
      assert StartsWith(s, "\"") && EndsWith(s, "\"");
    }
    if |s| == 1 && StartsWith(s, "\"") {
      assert s == s[..1];
    }
  }

  /**
    The assembly path taken from what the user typed, as written: trimmed, then unquoted. It
    throws (None) exactly when the input trims to a lone `"`; otherwise it is the corrected
    stripping of the trimmed input, never longer than the input.
   */
  function AssemblyPathFromInput(input: string): (path: Option<string>)
    ensures path.None? <==> Trim(input) == "\""
    ensures path.Some? ==> path.value == StripQuotes(Trim(input)) && |path.value| <= |input|
  {
    StripQuotesAgrees(Trim(input));
    StripQuotesAsWritten(Trim(input))
  }

  /** A path typed in quotes, with whitespace around it, comes out without the quotes. */
  lemma QuotedInputUnquoted(ws1: string, p: string, ws2: string)
    requires AllWhiteSpace(ws1) && AllWhiteSpace(ws2)
    ensures AssemblyPathFromInput(ws1 + "\"" + p + "\"" + ws2) == Some(p)
  {
    var q := "\"" + p + "\"";
    assert ws1 + "\"" + p + "\"" + ws2 == ws1 + q + ws2;
    TrimAroundWhiteSpace(ws1, q, ws2);
    StripQuotesUnquotes(p, q);
    StripQuotesAgrees(q);
  }

  // ---------------------------------------------------------------------------------------
  // The whole renaming run
  // ---------------------------------------------------------------------------------------

  /**
    The renaming part of `RunFullAnalysisAsync`: populate the registry from the module, run the
    passes, report whether the renaming is partial, write the names back into the module, and
    name the output file after the pass counter.
   */
  method RenameAssembly(moduleDef: ModuleDef, memberManager: MemberInfoManager, maxPasses: nat, descriptiveNamePrefix: string,
                        ask: Oracle, lib: JsonLibrary, baseName: string, sha256Hash: string, extension: string)
      returns (partial: bool, renamedFileName: string)
    requires moduleDef.Valid()
    requires |sha256Hash| >= 8
    modifies memberManager, moduleDef.types, moduleDef.methods, moduleDef.fields
    ensures AllWellIndexed(old(moduleDef.types[..]), old(moduleDef.methods[..]), old(moduleDef.fields[..]))
    ensures var ts, mds, fds := old(moduleDef.types[..]), old(moduleDef.methods[..]), old(moduleDef.fields[..]);
      var r := Run(Population(ts, mds, fds), 0, maxPasses, old(memberManager.renameLog), 0, descriptiveNamePrefix, ask, lib);
      && memberManager.members == r.members
      && (partial <==> exists i :: 0 <= i < |r.members| && !r.members[i].IsNamed)
      && Tables(moduleDef.types[..], moduleDef.methods[..], moduleDef.fields[..]) ==
           ApplyMembers(Tables(RetargetNamespaces(ts, NamespaceRenames(r.members)), mds, fds), r.members, descriptiveNamePrefix)
      && renamedFileName == RenamedFileName(baseName, sha256Hash, r.passCount, extension)
  {
    ghost var ts, mds, fds := moduleDef.types[..], moduleDef.methods[..], moduleDef.fields[..];
    memberManager.PopulateFromModule(moduleDef);
    ghost var p := memberManager.members;
    var passCount := RunRenamingPasses(memberManager, maxPasses, descriptiveNamePrefix, ask, lib);
    partial := memberManager.GetNamedMembersCount() < memberManager.GetTotalMembersCount();
    PartialIffUnnamed(memberManager.members);
    RunPreserves(p, 0, maxPasses, old(memberManager.renameLog), 0, descriptiveNamePrefix, ask, lib);
    RegistryFitsModule(ts, mds, fds, memberManager.members);
    ApplyRenames(moduleDef, memberManager, descriptiveNamePrefix);
    renamedFileName := RenamedFileName(baseName, sha256Hash, passCount, extension);
  }
}
