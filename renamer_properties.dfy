/**
  What the assembly renamer does to each symbol: which namespace a top-level type ends up in,
  which name each type, method and field ends up with, and that every registry built from the
  module and merged since fits the renamer's preconditions.
 */
module RenamerProperties {
  import opened Wrappers
  import opened Model
  import opened Symbols
  import opened Registry
  import opened RegistryProperties
  import opened Renamer

  // ---------------------------------------------------------------------------------------
  // Pass 1: the namespace dictionary and where each type goes
  // ---------------------------------------------------------------------------------------

  /** A namespace is a key of the dictionary exactly when some record renamed it. */
  lemma {:induction false} NamespaceRenamesKeys(ms: seq<MemberInfo>, ns: string)
    ensures ns in NamespaceRenames(ms) <==>
      exists k :: 0 <= k < |ms| && RenamesNamespace(ms[k]) && ms[k].UniqueId == ns
  {
    if ms != [] {
      var n := |ms| - 1;
      NamespaceRenamesKeys(ms[..n], ns);
      if ns in NamespaceRenames(ms) && !(RenamesNamespace(ms[n]) && ms[n].UniqueId == ns) {
        var k :| 0 <= k < n && RenamesNamespace(ms[..n][k]) && ms[..n][k].UniqueId == ns;
        assert ms[k] == ms[..n][k];
      }
      if exists k :: 0 <= k < |ms| && RenamesNamespace(ms[k]) && ms[k].UniqueId == ns {
        var k :| 0 <= k < |ms| && RenamesNamespace(ms[k]) && ms[k].UniqueId == ns;
        if k < n {
          assert ms[..n][k] == ms[k];
        }
      }
    }
  }

  /** With distinct keys, a renamed namespace maps to the name its record holds. */
  lemma {:induction false} NamespaceRenamesValues(ms: seq<MemberInfo>, k: nat)
    requires NamespaceRenameKeysDistinct(ms)
    requires k < |ms| && RenamesNamespace(ms[k])
    ensures ms[k].UniqueId in NamespaceRenames(ms)
    ensures NamespaceRenames(ms)[ms[k].UniqueId] == ms[k].CurrentDescriptiveName
  {
    var n := |ms| - 1;
    if k < n {
      assert ms[..n][k] == ms[k];
      assert NamespaceRenameKeysDistinct(ms[..n]) by {
        forall a, b | 0 <= a < b < n && RenamesNamespace(ms[..n][a]) && RenamesNamespace(ms[..n][b])
          ensures ms[..n][a].UniqueId != ms[..n][b].UniqueId
        {
          assert ms[..n][a] == ms[a] && ms[..n][b] == ms[b];
        }
      }
      NamespaceRenamesValues(ms[..n], k);
    }
  }

  /**
    Pass 1 changes only namespaces of top-level types: a type whose namespace some record
    renamed moves to that record's name, every other type is left as it was.
   */
  lemma RetargetNamespacesMoves(ts: seq<TypeDef>, ms: seq<MemberInfo>, i: nat)
    requires NamespaceRenameKeysDistinct(ms)
    requires i < |ts|
    ensures var r := RetargetNamespaces(ts, NamespaceRenames(ms))[i];
      && r.(Namespace := ts[i].Namespace) == ts[i]
      && (ts[i].IsNested ==> r == ts[i])
      && ((forall k :: 0 <= k < |ms| && RenamesNamespace(ms[k]) ==> ms[k].UniqueId != ts[i].Namespace) ==> r == ts[i])
      && (forall k :: 0 <= k < |ms| && RenamesNamespace(ms[k]) && ms[k].UniqueId == ts[i].Namespace && !ts[i].IsNested ==>
            r.Namespace == ms[k].CurrentDescriptiveName)
  {
    NamespaceRenamesKeys(ms, ts[i].Namespace);
    forall k | 0 <= k < |ms| && RenamesNamespace(ms[k]) && ms[k].UniqueId == ts[i].Namespace {
      NamespaceRenamesValues(ms, k);
    }
  }

  // ---------------------------------------------------------------------------------------
  // Pass 2: the name each symbol ends up with
  // ---------------------------------------------------------------------------------------

  /** The kind of record that may name a symbol of the handle's table. */
  function KindOf(h: Handle): MemberKind {
    match h
    case TypeHandle(_) => Class
    case MethodHandle(_) => Method
    case FieldHandle(_) => Field
  }

  /** Record `r` asks pass 2 to rename the symbol `h`. */
  predicate Renames(r: MemberInfo, prefix: string, h: Handle) {
    Applies(r, prefix) && r.DnlibMember == Some(h) && r.MemberType == KindOf(h)
  }

  /** No record after the `k`-th asks to rename `h`. */
  predicate LastToRename(ms: seq<MemberInfo>, k: nat, prefix: string, h: Handle) {
    forall k2 :: k < k2 < |ms| ==> !Renames(ms[k2], prefix, h)
  }

  predicate SlotInRange(h: Handle, st: Tables) {
    match h
    case TypeHandle(t) => t < |st.types|
    case MethodHandle(j) => j < |st.methods|
    case FieldHandle(j) => j < |st.fields|
  }

  /** The symbol is an instance or static constructor, which pass 2 never renames. */
  predicate Frozen(st: Tables, h: Handle) {
    h.MethodHandle? && h.m < |st.methods| && (st.methods[h.m].IsConstructor || st.methods[h.m].IsStaticConstructor)
  }

  function SlotName(st: Tables, h: Handle): string
    requires SlotInRange(h, st)
  {
    match h
    case TypeHandle(t) => st.types[t].Name
    case MethodHandle(j) => st.methods[j].Name
    case FieldHandle(j) => st.fields[j].Name
  }

  /** `b` is `a` with, at most, some symbols renamed: same tables, every symbol equal but for its name. */
  predicate SameShape(a: Tables, b: Tables) {
    && |a.types| == |b.types| && |a.methods| == |b.methods| && |a.fields| == |b.fields|
    && (forall i :: 0 <= i < |a.types| ==> a.types[i].(Name := "") == b.types[i].(Name := ""))
    && (forall i :: 0 <= i < |a.methods| ==> a.methods[i].(Name := "") == b.methods[i].(Name := ""))
    && (forall i :: 0 <= i < |a.fields| ==> a.fields[i].(Name := "") == b.fields[i].(Name := ""))
  }

  lemma SameShapeTrans(a: Tables, b: Tables, c: Tables)
    requires SameShape(a, b) && SameShape(b, c)
    ensures SameShape(a, c)
  {
  }

  /** One record renames, at most, the name of one symbol. */
  lemma ApplyMemberShape(st: Tables, r: MemberInfo, prefix: string)
    ensures SameShape(st, ApplyMember(st, r, prefix))
  {
  }

  /** One record renames its own symbol, unless it is a constructor, and no other. */
  lemma ApplyMemberSlot(st: Tables, r: MemberInfo, prefix: string, h: Handle)
    requires SlotInRange(h, st)
    ensures SlotName(ApplyMember(st, r, prefix), h) ==
      if Renames(r, prefix, h) && !Frozen(st, h) then r.CurrentDescriptiveName else SlotName(st, h)
  {
  }

  /** Tables of the same shape agree on which symbols exist and which are constructors. */
  lemma SameShapeFrozen(a: Tables, b: Tables, h: Handle)
    requires SameShape(a, b)
    ensures SlotInRange(h, a) == SlotInRange(h, b)
    ensures Frozen(a, h) == Frozen(b, h)
  {
    if h.MethodHandle? && h.m < |a.methods| {
      assert a.methods[h.m].(Name := "") == b.methods[h.m].(Name := "");
    }
  }

  /** Pass 2 renames symbols and changes nothing else about them. */
  lemma {:induction false} ApplyMembersShape(st: Tables, ms: seq<MemberInfo>, prefix: string)
    ensures SameShape(st, ApplyMembers(st, ms, prefix))
  {
    if ms != [] {
      var n := |ms| - 1;
      ApplyMembersShape(st, ms[..n], prefix);
      var mid := ApplyMembers(st, ms[..n], prefix);
      ApplyMemberShape(mid, ms[n], prefix);
      SameShapeTrans(st, mid, ApplyMember(mid, ms[n], prefix));
    }
  }

  /** A constructor, or a symbol no record asks to rename, keeps its name through pass 2. */
  lemma {:induction false} ApplyMembersUntouched(st: Tables, ms: seq<MemberInfo>, prefix: string, h: Handle)
    requires SlotInRange(h, st)
    requires Frozen(st, h) || forall k :: 0 <= k < |ms| ==> !Renames(ms[k], prefix, h)
    ensures SlotName(ApplyMembers(st, ms, prefix), h) == SlotName(st, h)
  {
    if ms != [] {
      var n := |ms| - 1;
      var front := ms[..n];
      assert forall k :: 0 <= k < n ==> front[k] == ms[k];
      ApplyMembersUntouched(st, front, prefix, h);
      var mid := ApplyMembers(st, front, prefix);
      ApplyMembersShape(st, front, prefix);
      SameShapeFrozen(st, mid, h);
      ApplyMemberSlot(mid, ms[n], prefix, h);
    }
  }

  /** After pass 2 a symbol other than a constructor bears the name of the last record that asked to rename it. */
  lemma {:induction false} ApplyMembersLastWins(st: Tables, ms: seq<MemberInfo>, prefix: string, h: Handle, k: nat)
    requires SlotInRange(h, st) && !Frozen(st, h)
    requires k < |ms| && Renames(ms[k], prefix, h) && LastToRename(ms, k, prefix, h)
    ensures SlotName(ApplyMembers(st, ms, prefix), h) == ms[k].CurrentDescriptiveName
  {
    var n := |ms| - 1;
    var front := ms[..n];
    var mid := ApplyMembers(st, front, prefix);
    ApplyMembersShape(st, front, prefix);
    SameShapeFrozen(st, mid, h);
    ApplyMemberSlot(mid, ms[n], prefix, h);
    if k < n {
      assert front[k] == ms[k];
      assert LastToRename(front, k, prefix, h) by {
        forall k2 | k < k2 < n ensures !Renames(front[k2], prefix, h) {
          assert front[k2] == ms[k2];
        }
      }
      assert !Renames(ms[n], prefix, h);
      ApplyMembersLastWins(st, front, prefix, h, k);
    }
  }

  // ---------------------------------------------------------------------------------------
  // Registries fit the module
  // ---------------------------------------------------------------------------------------

  /** Every registry populated from a module, and merged any number of times since, meets the renamer's preconditions on that module. */
  lemma RegistryFitsModule(ts: seq<TypeDef>, mds: seq<MethodDef>, fds: seq<FieldDef>, ms: seq<MemberInfo>)
    requires AllWellIndexed(ts, mds, fds)
    requires Keeps(Population(ts, mds, fds), ms)
    ensures NamespaceRenameKeysDistinct(ms)
    ensures HandlesInRange(ms, Tables(ts, mds, fds))
  {
    var p := Population(ts, mds, fds);
    PopulationDescribes(ts, mds, fds);
    PopulationNamespaces(ts, mds, fds);
    KeepsIds(p, ms);
    forall k | 0 <= k < |ms| ensures HandleInRange(ms[k], Tables(ts, mds, fds)) {
      assert SameMember(p[k], ms[k]);
      assert Describes(p[k], ts, mds, fds);
    }
  }

  /**
    A static constructor is named `.cctor`, which the population's `.ctor` test lets through:
    it gets a record the model may name, but pass 2 leaves the method as it was.
   */
  lemma StaticConstructorRecordedButKept(m: MethodDef, j: nat, st: Tables, ms: seq<MemberInfo>, prefix: string)
    requires m.Name == ".cctor" && m.IsStaticConstructor
    requires j < |st.methods| && st.methods[j] == m
    ensures MethodRecordUnlessConstructor(m, j) == [MethodRecord(m, j)]
    ensures ApplyMembers(st, ms, prefix).methods[j] == m
  {
    assert !IsConstructorName(m.Name) by {
      assert m.Name[1] == 'c' && ".ctor"[1] == 'c';
      assert m.Name[2] != ".ctor"[2];
    }
    ApplyMembersUntouched(st, ms, prefix, MethodHandle(j));
    ApplyMembersShape(st, ms, prefix);
    assert st.methods[j].(Name := "") == ApplyMembers(st, ms, prefix).methods[j].(Name := "");
  }
}
