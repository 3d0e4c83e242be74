/**
  The member registry (`MemberInfoManager`): the list of nameable members of a module, the
  snapshot of the still unnamed ones that is sent to the model, and the merge of the model's
  answer back into the list.
 */
module Registry {
  import opened Wrappers
  import opened Text
  import opened Model
  import opened Symbols
  import JsonHelper

  // ---------------------------------------------------------------------------------------
  // Population
  // ---------------------------------------------------------------------------------------

  /**
    The population's constructor test, the regex `^\.ctor$` with IgnoreCase: `.ctor` in any
    letter case, optionally followed by one final line feed, which `$` lets through.
   */
  predicate IsConstructorName(name: string) {
    (|name| == 5 && EqualsIgnoreCase(name, ".ctor"))
    || (|name| == 6 && name[5] == '\n' && EqualsIgnoreCase(name[..5], ".ctor"))
  }

  /** A record fresh from population: unnamed, with an empty description and its own name. */
  predicate Fresh(r: MemberInfo) {
    !r.IsNamed && r.Description == Some("") && r.CurrentDescriptiveName == r.OriginalShortName
  }

  function NamespaceRecord(ns: string): (r: MemberInfo)
    ensures Fresh(r)
  {
    MemberInfo(ns, ns, ns, Namespace, Some(""), false, None)
  }

  function TypeRecord(t: TypeDef, i: nat): (r: MemberInfo)
    ensures Fresh(r)
  {
    MemberInfo(t.FullName, t.Name, t.Name, Class, Some(""), false, Some(TypeHandle(i)))
  }

  function MethodRecord(m: MethodDef, j: nat): (r: MemberInfo)
    ensures Fresh(r)
  {
    MemberInfo(m.FullName, m.Name, m.Name, Method, Some(""), false, Some(MethodHandle(j)))
  }

  function FieldRecord(f: FieldDef, j: nat): (r: MemberInfo)
    ensures Fresh(r)
  {
    MemberInfo(f.FullName, f.Name, f.Name, Field, Some(""), false, Some(FieldHandle(j)))
  }

  /** The namespaces of the given types, the global one as "". */
  function NamespacesOf(ts: seq<TypeDef>): (r: set<string>)
    ensures forall i :: 0 <= i < |ts| ==> ts[i].Namespace in r
  {
    if ts == [] then {} else NamespacesOf(ts[..|ts| - 1]) + {ts[|ts| - 1].Namespace}
  }

  /**
    `r` is the fresh record of the symbol its handle names, and a method record never names
    a method called `.ctor`; a record without a handle is a namespace record.
   */
  predicate Describes(r: MemberInfo, ts: seq<TypeDef>, mds: seq<MethodDef>, fds: seq<FieldDef>) {
    match r.DnlibMember
    case None => r.MemberType == Namespace && r == NamespaceRecord(r.UniqueId)
    case Some(TypeHandle(t)) => t < |ts| && r == TypeRecord(ts[t], t)
    case Some(MethodHandle(j)) => j < |mds| && r == MethodRecord(mds[j], j) && !IsConstructorName(mds[j].Name)
    case Some(FieldHandle(j)) => j < |fds| && r == FieldRecord(fds[j], j)
  }

  /** One record per listed method, in order, skipping constructors by name. */
  function MethodRecords(idx: seq<nat>, mds: seq<MethodDef>): (r: seq<MemberInfo>)
    requires forall k :: 0 <= k < |idx| ==> idx[k] < |mds|
  {
    if idx == [] then []
    else
      MethodRecords(idx[..|idx| - 1], mds) + MethodRecordUnlessConstructor(mds[idx[|idx| - 1]], idx[|idx| - 1])
  }

  /** The record of a method, or none for a method named `.ctor`. */
  function MethodRecordUnlessConstructor(m: MethodDef, j: nat): seq<MemberInfo> {
    if IsConstructorName(m.Name) then [] else [MethodRecord(m, j)]
  }

  /** One record per listed field, in order. */
  function FieldRecords(idx: seq<nat>, fds: seq<FieldDef>): (r: seq<MemberInfo>)
    requires forall k :: 0 <= k < |idx| ==> idx[k] < |fds|
  {
    if idx == [] then []
    else FieldRecords(idx[..|idx| - 1], fds) + [FieldRecord(fds[idx[|idx| - 1]], idx[|idx| - 1])]
  }

  /**
    The records one type adds: its namespace unless an earlier type had it, the type itself,
    its methods other than constructors, and its fields.
   */
  function TypeRecords(t: TypeDef, i: nat, mds: seq<MethodDef>, fds: seq<FieldDef>, seen: set<string>): seq<MemberInfo>
    requires WellIndexed(t, |mds|, |fds|)
  {
    (if t.Namespace in seen then [] else [NamespaceRecord(t.Namespace)]) + OwnRecords(t, i, mds, fds)
  }

  /** The records of a type and its members, without its namespace. */
  function OwnRecords(t: TypeDef, i: nat, mds: seq<MethodDef>, fds: seq<FieldDef>): seq<MemberInfo>
    requires WellIndexed(t, |mds|, |fds|)
  {
    [TypeRecord(t, i)] + MethodRecords(t.Methods, mds) + FieldRecords(t.Fields, fds)
  }

  /** Every type lists only existing methods and fields. */
  predicate AllWellIndexed(ts: seq<TypeDef>, mds: seq<MethodDef>, fds: seq<FieldDef>) {
    forall i :: 0 <= i < |ts| ==> WellIndexed(ts[i], |mds|, |fds|)
  }

  /** The records of the first `j + 1` methods: those of the first `j`, then the next one's unless it is a constructor. */
  lemma MethodRecordsLast(head: seq<MemberInfo>, idx: seq<nat>, j: nat, mds: seq<MethodDef>)
    requires j < |idx| && forall k :: 0 <= k < |idx| ==> idx[k] < |mds|
    ensures head + MethodRecords(idx[..j + 1], mds) == head + MethodRecords(idx[..j], mds) + MethodRecordUnlessConstructor(mds[idx[j]], idx[j])
  {
    assert idx[..j + 1][..j] == idx[..j];
    AppendAssoc(head, MethodRecords(idx[..j], mds), MethodRecordUnlessConstructor(mds[idx[j]], idx[j]));
  }

  /** The records of the first `j + 1` fields. */
  lemma FieldRecordsLast(head: seq<MemberInfo>, idx: seq<nat>, j: nat, fds: seq<FieldDef>)
    requires j < |idx| && forall k :: 0 <= k < |idx| ==> idx[k] < |fds|
    ensures head + FieldRecords(idx[..j + 1], fds) == head + FieldRecords(idx[..j], fds) + [FieldRecord(fds[idx[j]], idx[j])]
  {
    assert idx[..j + 1][..j] == idx[..j];
    AppendAssoc(head, FieldRecords(idx[..j], fds), [FieldRecord(fds[idx[j]], idx[j])]);
  }

  /** `PopulateFromModule`: the records of all types, type by type. */
  function Population(ts: seq<TypeDef>, mds: seq<MethodDef>, fds: seq<FieldDef>): seq<MemberInfo>
    requires AllWellIndexed(ts, mds, fds)
  {
    if ts == [] then []
    else
      var n := |ts| - 1;
      Population(ts[..n], mds, fds) + TypeRecords(ts[n], n, mds, fds, NamespacesOf(ts[..n]))
  }

  // ---------------------------------------------------------------------------------------
  // Snapshot
  // ---------------------------------------------------------------------------------------

  /** A record the snapshot sends: not named yet, and its original name does not start with `.ctor`. */
  predicate Eligible(r: MemberInfo) {
    !r.IsNamed && !StartsWithIgnoreCase(r.OriginalShortName, ".ctor")
  }

  /** Some record is eligible for the snapshot. */
  predicate HasEligible(ms: seq<MemberInfo>) {
    exists i :: 0 <= i < |ms| && Eligible(ms[i])
  }

  /** What the snapshot sends for one record: its original short name, not its current name. */
  function EntryOf(r: MemberInfo): PromptEntry {
    PromptEntry(r.MemberType, r.OriginalShortName, r.Description)
  }

  /** The snapshot dictionary: eligible records keyed by `UniqueId`, a later record overwriting an earlier one. */
  function PromptMap(ms: seq<MemberInfo>): map<string, PromptEntry> {
    if ms == [] then map[]
    else
      var m := PromptMap(ms[..|ms| - 1]);
      var r := ms[|ms| - 1];
      if Eligible(r) then m[r.UniqueId := EntryOf(r)] else m
  }

  /** `GenerateAIPromptData`: the `{}` sentinel when nothing is eligible, else the serialized dictionary. */
  function PromptData(ms: seq<MemberInfo>, serialize: map<string, PromptEntry> -> string): string {
    if HasEligible(ms) then serialize(PromptMap(ms)) else "{}"
  }

  // ---------------------------------------------------------------------------------------
  // Merge
  // ---------------------------------------------------------------------------------------

  /** The name written for a suggestion: the prefix is prepended unless already there, in any letter case. */
  function WithPrefix(name: string, prefix: string): (r: string)
    ensures StartsWithIgnoreCase(r, prefix)
    ensures StartsWithIgnoreCase(name, prefix) ==> r == name
    ensures !StartsWithIgnoreCase(name, prefix) ==> r == prefix + name
  {
    if StartsWithIgnoreCase(name, prefix) then name
    else
      PrefixedStartsWith(prefix, name);
      prefix + name
  }

  /** The `UniqueId` of every record, in order. */
  function Ids(ms: seq<MemberInfo>): (r: seq<string>)
    ensures |r| == |ms| && forall i :: 0 <= i < |ms| ==> r[i] == ms[i].UniqueId
  {
    seq(|ms|, i requires 0 <= i < |ms| => ms[i].UniqueId)
  }

  /** No two records share a `UniqueId`. */
  predicate DistinctIds(ms: seq<MemberInfo>) {
    forall i, j :: 0 <= i < j < |ms| ==> ms[i].UniqueId != ms[j].UniqueId
  }

  /** `ToDictionary(m => m.UniqueId)`, with each id mapped to the position of its record. */
  function IdLookup(ids: seq<string>): (r: map<string, nat>)
    ensures forall k :: k in r ==> r[k] < |ids| && ids[r[k]] == k
    ensures forall i :: 0 <= i < |ids| ==> ids[i] in r
  {
    if ids == [] then map[]
    else IdLookup(ids[..|ids| - 1])[ids[|ids| - 1] := |ids| - 1]
  }

  /** Every position the lookup holds is a record of a list of `n`. */
  predicate LookupInRange(lookup: map<string, nat>, n: nat) {
    forall k :: k in lookup ==> lookup[k] < n
  }

  /** `y` is `x` after a merge: same record, same symbol, and still named if it was. */
  predicate SameMember(x: MemberInfo, y: MemberInfo) {
    && x.UniqueId == y.UniqueId && x.OriginalShortName == y.OriginalShortName
    && x.MemberType == y.MemberType && x.DnlibMember == y.DnlibMember
    && (x.IsNamed ==> y.IsNamed)
  }

  /** A merge turned `a` into `b`: no record added, removed or moved, none unnamed. */
  predicate Keeps(a: seq<MemberInfo>, b: seq<MemberInfo>) {
    |a| == |b| && forall i :: 0 <= i < |a| ==> SameMember(a[i], b[i])
  }

  /** Every name that differs between `a` and `b` starts, in `b`, with the prefix in some letter case. */
  predicate NamesPrefixed(a: seq<MemberInfo>, b: seq<MemberInfo>, prefix: string) {
    |a| == |b|
    && forall i :: 0 <= i < |a| && b[i].CurrentDescriptiveName != a[i].CurrentDescriptiveName ==>
         StartsWithIgnoreCase(b[i].CurrentDescriptiveName, prefix)
  }

  /** Every announced new name starts with the prefix in some letter case. */
  predicate EventsPrefixed(evs: seq<RenameEvent>, prefix: string) {
    forall k :: 0 <= k < |evs| ==> StartsWithIgnoreCase(evs[k].NewName, prefix)
  }

  /** The result of one payload entry: the new list, the count and the events, or the exception that ends the merge. */
  datatype StepOutcome = Continue(members: seq<MemberInfo>, count: nat, events: seq<RenameEvent>) | Abort

  /**
    One entry of the payload. An unknown key, a missing name or a blank name changes nothing;
    a `null` name throws (`Trim` on null) and ends the merge. Otherwise a changed name on a
    record whose original name does not start with `.ctor` is written with its description,
    marks the record named and raises one event; an unchanged name only marks it named.
   */
  function Step(ms: seq<MemberInfo>, lookup: map<string, nat>, e: PayloadEntry, prefix: string): (o: StepOutcome)
    requires LookupInRange(lookup, |ms|)
    ensures o.Continue? ==> |o.members| == |ms| && o.count == |o.events| <= 1
  {
    if e.Key !in lookup then Continue(ms, 0, [])
    else
      match e.DescriptiveName
      case Absent => Continue(ms, 0, [])
      case NullName => Abort
      case Name(n) =>
        if Trim(n) == [] then Continue(ms, 0, [])
        else
          var i := lookup[e.Key];
          var r := ms[i];
          var name := WithPrefix(n, prefix);
          var ctor := StartsWithIgnoreCase(r.OriginalShortName, ".ctor");
          if r.CurrentDescriptiveName != name && !ctor then
            var r' := r.(CurrentDescriptiveName := name, Description := e.Description, IsNamed := true);
            Continue(ms[i := r'], 1, [RenameEvent(r.OriginalShortName, name, r.MemberType, r.UniqueId)])
          else if !r.IsNamed && !ctor then
            Continue(ms[i := r.(IsNamed := true)], 0, [])
          else Continue(ms, 0, [])
  }

  /** Where a merge stands: the list, the count, the events, and whether an entry threw. */
  datatype MergeResult = MergeResult(members: seq<MemberInfo>, count: nat, events: seq<RenameEvent>, aborted: bool)

  /** The loop over the payload entries, in order; after an entry throws, the rest are not read. */
  function Merge(ms: seq<MemberInfo>, lookup: map<string, nat>, es: seq<PayloadEntry>, prefix: string): (r: MergeResult)
    requires LookupInRange(lookup, |ms|)
    ensures |r.members| == |ms| && r.count == |r.events|
  {
    if es == [] then MergeResult(ms, 0, [], false)
    else
      var r := Merge(ms, lookup, es[..|es| - 1], prefix);
      if r.aborted then r
      else
        match Step(r.members, lookup, es[|es| - 1], prefix)
        case Abort => r.(aborted := true)
        case Continue(ms', c, ev) => MergeResult(ms', r.count + c, r.events + ev, false)
  }

  /** Nothing changes and nothing is counted. */
  function NoChange(ms: seq<MemberInfo>): MergeResult {
    MergeResult(ms, 0, [], false)
  }

  /**
    `TryDeserializeAndUpdateMasterList`: an empty text, a payload the library cannot read, or a
    list with a repeated `UniqueId` (on which `ToDictionary` throws) change nothing.
   */
  function DeserializeAndMerge(ms: seq<MemberInfo>, json: string, prefix: string, lib: JsonLibrary): (r: MergeResult)
    ensures |r.members| == |ms| && r.count == |r.events|
  {
    if json == [] then NoChange(ms)
    else
      match lib.deserialize(json)
      case None => NoChange(ms)
      case Some(es) =>
        if !DistinctIds(ms) then NoChange(ms)
        else Merge(ms, IdLookup(Ids(ms)), es, prefix)
  }

  /**
    `UpdateMembersFromAIResponse`: an empty answer, or one from which no JSON object can be
    recovered, changes nothing; otherwise the recovered object is merged.
   */
  function MergeResponse(ms: seq<MemberInfo>, aiResponse: string, prefix: string, lib: JsonLibrary): (r: MergeResult)
    ensures |r.members| == |ms| && r.count == |r.events|
  {
    if aiResponse == [] then NoChange(ms)
    else
      match JsonHelper.ExtractAndFixJsonFromResponse(aiResponse, lib.parses)
      case None => NoChange(ms)
      case Some(json) => if json == [] then NoChange(ms) else DeserializeAndMerge(ms, json, prefix, lib)
  }

  /** `GetNamedMembersCount`: how many records are named. */
  function NamedCount(ms: seq<MemberInfo>): (n: nat)
    ensures n <= |ms|
  {
    if ms == [] then 0
    else NamedCount(ms[..|ms| - 1]) + (if ms[|ms| - 1].IsNamed then 1 else 0)
  }

  // ---------------------------------------------------------------------------------------
  // The registry object
  // ---------------------------------------------------------------------------------------

  /**
    `MemberInfoManager`: the master list of records, and the `MemberRenamed` notifications
    raised so far, kept as a log.
   */
  class MemberInfoManager {
    var members: seq<MemberInfo>
    ghost var renameLog: seq<RenameEvent>

    constructor()
      ensures members == [] && renameLog == []
    {
      members := [];
      renameLog := [];
    }

    /** Clears the list and records every namespace once, every type, its methods other than `.ctor`, and its fields. */
    method PopulateFromModule(moduleDef: ModuleDef)
      requires moduleDef.Valid()
      modifies this
      ensures members == Population(moduleDef.types[..], moduleDef.methods[..], moduleDef.fields[..])
      ensures renameLog == old(renameLog)
    {
      ghost var ts := moduleDef.types[..];
      ghost var mds := moduleDef.methods[..];
      ghost var fds := moduleDef.fields[..];
      members := [];
      var seenNamespaces: set<string> := {};
      var i := 0;
      while i < moduleDef.types.Length
        invariant 0 <= i <= |ts|
        invariant seenNamespaces == NamespacesOf(ts[..i])
        invariant members == Population(ts[..i], mds, fds)
        invariant renameLog == old(renameLog)
      {
        var t := moduleDef.types[i];
        ghost var nsRecords := if t.Namespace in seenNamespaces then [] else [NamespaceRecord(t.Namespace)];
        PopulationLast(ts, i, mds, fds, members, nsRecords);
        var ns := t.Namespace;
        if ns !in seenNamespaces {
          seenNamespaces := seenNamespaces + {ns};
          members := members + [NamespaceRecord(ns)];
        } else {
          assert members + nsRecords == members;
        }
        AppendTypeRecords(moduleDef, t, i);
        i := i + 1;
      }
      assert ts[..i] == ts;
    }

    /** Records type `t`, which sits at index `i`, then its methods and its fields. */
    method AppendTypeRecords(moduleDef: ModuleDef, t: TypeDef, i: nat)
      requires WellIndexed(t, moduleDef.methods.Length, moduleDef.fields.Length)
      modifies this
      ensures members == old(members) + OwnRecords(t, i, moduleDef.methods[..], moduleDef.fields[..])
      ensures renameLog == old(renameLog)
    {
      ghost var mds := moduleDef.methods[..];
      ghost var fds := moduleDef.fields[..];
      ghost var head := members;
      members := members + [TypeRecord(t, i)];
      AppendMethodRecords(moduleDef, t);
      AppendAssoc(head, [TypeRecord(t, i)], MethodRecords(t.Methods, mds));
      AppendFieldRecords(moduleDef, t);
      AppendAssoc(head, [TypeRecord(t, i)] + MethodRecords(t.Methods, mds), FieldRecords(t.Fields, fds));
    }

    /** Records the methods `t` lists, in order, except those named `.ctor`. */
    method AppendMethodRecords(moduleDef: ModuleDef, t: TypeDef)
      requires WellIndexed(t, moduleDef.methods.Length, moduleDef.fields.Length)
      modifies this
      ensures members == old(members) + MethodRecords(t.Methods, moduleDef.methods[..])
      ensures renameLog == old(renameLog)
    {
      ghost var mds := moduleDef.methods[..];
      ghost var head := members;
      var j := 0;
      while j < |t.Methods|
        invariant 0 <= j <= |t.Methods|
        invariant members == head + MethodRecords(t.Methods[..j], mds)
        invariant renameLog == old(renameLog)
      {
        MethodRecordsLast(head, t.Methods, j, mds);
        var method_ := moduleDef.methods[t.Methods[j]];
        if !IsConstructorName(method_.Name) {
          members := members + [MethodRecord(method_, t.Methods[j])];
        } else {
          assert members + MethodRecordUnlessConstructor(method_, t.Methods[j]) == members;
        }
        j := j + 1;
      }
      assert t.Methods[..j] == t.Methods;
    }

    /** Records the fields `t` lists, in order. */
    method AppendFieldRecords(moduleDef: ModuleDef, t: TypeDef)
      requires WellIndexed(t, moduleDef.methods.Length, moduleDef.fields.Length)
      modifies this
      ensures members == old(members) + FieldRecords(t.Fields, moduleDef.fields[..])
      ensures renameLog == old(renameLog)
    {
      ghost var fds := moduleDef.fields[..];
      ghost var head := members;
      var j := 0;
      while j < |t.Fields|
        invariant 0 <= j <= |t.Fields|
        invariant members == head + FieldRecords(t.Fields[..j], fds)
        invariant renameLog == old(renameLog)
      {
        FieldRecordsLast(head, t.Fields, j, fds);
        var field := moduleDef.fields[t.Fields[j]];
        members := members + [FieldRecord(field, t.Fields[j])];
        j := j + 1;
      }
      assert t.Fields[..j] == t.Fields;
    }

    /**
      The snapshot of the records still to be named: the serialized dictionary of the
      eligible records, or the `{}` sentinel when none is eligible.
     */
    function GenerateAIPromptData(serialize: map<string, PromptEntry> -> string): (r: string)
      reads this
      ensures HasEligible(members) ==> r == serialize(PromptMap(members))
      ensures !HasEligible(members) ==> r == "{}"
    {
      PromptData(members, serialize)
    }

    /**
      Recovers a JSON object from the model's answer and merges it; the count of records
      renamed, each of which raised one notification.
     */
    method UpdateMembersFromAIResponse(aiResponse: string, prefix: string, lib: JsonLibrary) returns (updatedCount: nat)
      modifies this
      ensures var r := MergeResponse(old(members), aiResponse, prefix, lib);
        members == r.members && updatedCount == r.count && renameLog == old(renameLog) + r.events
    {
      if aiResponse == [] {
        return 0;
      }
      var jsonToProcess := JsonHelper.ExtractAndFixJsonFromResponse(aiResponse, lib.parses);
      updatedCount := 0;
      if jsonToProcess.Some? && jsonToProcess.value != [] {
        updatedCount := TryDeserializeAndUpdateMasterList(jsonToProcess.value, prefix, lib);
      }
    }

    /** Reads the payload and applies its entries in order, stopping at the first that throws. */
    method TryDeserializeAndUpdateMasterList(jsonString: string, prefix: string, lib: JsonLibrary) returns (updatedCount: nat)
      modifies this
      ensures var r := DeserializeAndMerge(old(members), jsonString, prefix, lib);
        members == r.members && updatedCount == r.count && renameLog == old(renameLog) + r.events
    {
      if jsonString == [] {
        return 0;
      }
      updatedCount := 0;
      var deserialized := lib.deserialize(jsonString);
      if deserialized.None? || !DistinctIds(members) {
        return;
      }
      var memberLookup := IdLookup(Ids(members));
      var entries := deserialized.value;
      ghost var ms0 := members;
      var k := 0;
      while k < |entries|
        invariant 0 <= k <= |entries|
        invariant LookupInRange(memberLookup, |ms0|)
        invariant var r := Merge(ms0, memberLookup, entries[..k], prefix);
          !r.aborted && members == r.members && updatedCount == r.count && renameLog == old(renameLog) + r.events
      {
        ghost var prev := Merge(ms0, memberLookup, entries[..k], prefix);
        ghost var step := Step(members, memberLookup, entries[k], prefix);
        var count, threw := ApplyPayloadEntry(entries[k], memberLookup, prefix);
        if threw {
          MergeStopsAtAbort(ms0, memberLookup, entries, prefix, k);
          return;
        }
        updatedCount := updatedCount + count;
        AppendAssoc(old(renameLog), prev.events, step.events);
        MergeContinues(ms0, memberLookup, entries, prefix, k);
        k := k + 1;
      }
      assert entries[..k] == entries;
    }

    /** The body of the payload loop for one entry: the count it adds, or whether it threw. */
    method ApplyPayloadEntry(kvp: PayloadEntry, memberLookup: map<string, nat>, prefix: string) returns (count: nat, threw: bool)
      requires LookupInRange(memberLookup, |members|)
      modifies this
      ensures var o := Step(old(members), memberLookup, kvp, prefix);
        (threw <==> o.Abort?)
        && (threw ==> members == old(members) && renameLog == old(renameLog))
        && (!threw ==> members == o.members && count == o.count && renameLog == old(renameLog) + o.events)
    {
      count, threw := 0, false;
      if kvp.Key in memberLookup {
        var i := memberLookup[kvp.Key];
        match kvp.DescriptiveName {
          case Absent =>
          case NullName =>
            threw := true;
          case Name(descriptiveName) =>
            if Trim(descriptiveName) != [] {
              var finalDescriptiveName := WithPrefix(descriptiveName, prefix);
              var matchingMember := members[i];
              var isConstructor := StartsWithIgnoreCase(matchingMember.OriginalShortName, ".ctor");
              var hasChanged := matchingMember.CurrentDescriptiveName != finalDescriptiveName;
              if hasChanged && !isConstructor {
                members := members[i := matchingMember.(CurrentDescriptiveName := finalDescriptiveName,
                                                        Description := kvp.Description, IsNamed := true)];
                count := 1;
                renameLog := renameLog + [RenameEvent(matchingMember.OriginalShortName, finalDescriptiveName,
                                                      matchingMember.MemberType, matchingMember.UniqueId)];
              } else if !matchingMember.IsNamed && !isConstructor {
                members := members[i := matchingMember.(IsNamed := true)];
              }
            }
        }
      }
    }

    /** `GetTotalMembersCount`: the number of records, named or not. */
    function GetTotalMembersCount(): (n: nat)
      reads this
      ensures n == |members|
      ensures NamedCount(members) <= n
    {
      |members|
    }

    /** `GetNamedMembersCount`: never more than the total. */
    function GetNamedMembersCount(): (n: nat)
      reads this
      ensures n <= GetTotalMembersCount()
    {
      NamedCount(members)
    }
  }

  /** Once an entry throws, the entries after it are not read: the merge ends where it stood. */
  lemma {:induction false} MergeStopsAtAbort(ms: seq<MemberInfo>, lookup: map<string, nat>, es: seq<PayloadEntry>, prefix: string, k: nat)
    requires LookupInRange(lookup, |ms|) && k < |es|
    requires !Merge(ms, lookup, es[..k], prefix).aborted
    requires Step(Merge(ms, lookup, es[..k], prefix).members, lookup, es[k], prefix).Abort?
    ensures Merge(ms, lookup, es, prefix) == Merge(ms, lookup, es[..k], prefix).(aborted := true)
    decreases |es|
  {
    var n := |es| - 1;
    if k == n {
      assert es[..n] == es[..k];
      MergeLast(ms, lookup, es, prefix);
    } else {
      assert es[..n][..k] == es[..k];
      MergeStopsAtAbort(ms, lookup, es[..n], prefix, k);
      MergeLast(ms, lookup, es, prefix);
    }
  }

  /** An entry that does not throw adds its changes, count and events to the merge so far. */
  lemma MergeContinues(ms: seq<MemberInfo>, lookup: map<string, nat>, es: seq<PayloadEntry>, prefix: string, k: nat)
    requires LookupInRange(lookup, |ms|) && k < |es|
    requires !Merge(ms, lookup, es[..k], prefix).aborted
    requires Step(Merge(ms, lookup, es[..k], prefix).members, lookup, es[k], prefix).Continue?
    ensures var r := Merge(ms, lookup, es[..k], prefix);
      var o := Step(r.members, lookup, es[k], prefix);
      Merge(ms, lookup, es[..k + 1], prefix) == MergeResult(o.members, r.count + o.count, r.events + o.events, false)
  {
    assert es[..k + 1][..k] == es[..k];
    MergeLast(ms, lookup, es[..k + 1], prefix);
  }

  /** The last entry of a merge, read only when the earlier ones did not throw. */
  lemma MergeLast(ms: seq<MemberInfo>, lookup: map<string, nat>, es: seq<PayloadEntry>, prefix: string)
    requires LookupInRange(lookup, |ms|) && es != []
    ensures var r := Merge(ms, lookup, es[..|es| - 1], prefix);
      Merge(ms, lookup, es, prefix) ==
        if r.aborted then r
        else match Step(r.members, lookup, es[|es| - 1], prefix)
          case Abort => r.(aborted := true)
          case Continue(ms', c, ev) => MergeResult(ms', r.count + c, r.events + ev, false)
  {
  }

  /** One entry keeps every record in place, never unnames one, and writes only prefixed names. */
  lemma StepPreserves(ms: seq<MemberInfo>, lookup: map<string, nat>, e: PayloadEntry, prefix: string)
    requires LookupInRange(lookup, |ms|)
    ensures var o := Step(ms, lookup, e, prefix);
      o.Continue? ==> Keeps(ms, o.members) && NamesPrefixed(ms, o.members, prefix) && EventsPrefixed(o.events, prefix)
  {
  }

  /** The whole merge keeps every record in place, never unnames one, and writes and announces only prefixed names. */
  lemma {:induction false} MergePreserves(ms: seq<MemberInfo>, lookup: map<string, nat>, es: seq<PayloadEntry>, prefix: string)
    requires LookupInRange(lookup, |ms|)
    ensures var r := Merge(ms, lookup, es, prefix);
      Keeps(ms, r.members) && NamesPrefixed(ms, r.members, prefix) && EventsPrefixed(r.events, prefix)
    decreases |es|
  {
    if es != [] {
      var r := Merge(ms, lookup, es[..|es| - 1], prefix);
      MergePreserves(ms, lookup, es[..|es| - 1], prefix);
      if !r.aborted {
        StepPreserves(r.members, lookup, es[|es| - 1], prefix);
      }
    }
  }

  /**
    The population of the first `i + 1` types: that of the first `i`, the namespace record of
    type `i` unless an earlier type had its namespace, and its own records.
   */
  lemma PopulationLast(ts: seq<TypeDef>, i: nat, mds: seq<MethodDef>, fds: seq<FieldDef>,
                       before: seq<MemberInfo>, nsRecords: seq<MemberInfo>)
    requires i < |ts| && AllWellIndexed(ts, mds, fds)
    requires AllWellIndexed(ts[..i], mds, fds) && before == Population(ts[..i], mds, fds)
    requires nsRecords == if ts[i].Namespace in NamespacesOf(ts[..i]) then [] else [NamespaceRecord(ts[i].Namespace)]
    ensures WellIndexed(ts[i], |mds|, |fds|) && AllWellIndexed(ts[..i + 1], mds, fds)
    ensures before + nsRecords + OwnRecords(ts[i], i, mds, fds) == Population(ts[..i + 1], mds, fds)
    ensures NamespacesOf(ts[..i + 1]) == NamespacesOf(ts[..i]) + {ts[i].Namespace}
  {
    assert ts[..i + 1][..i] == ts[..i];
    AppendAssoc(before, nsRecords, OwnRecords(ts[i], i, mds, fds));
  }
}
