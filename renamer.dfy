/**
  The assembly renamer (`DnlibAssemblyRenamer.ApplyRenames`): writes the names the registry
  holds back into the module's symbols, first the namespaces of the top-level types, then the
  names of types, methods and fields.
 */
module Renamer {
  import opened Wrappers
  import opened Text
  import opened Model
  import opened Symbols
  import opened Registry

  // ---------------------------------------------------------------------------------------
  // Pass 1: namespaces
  // ---------------------------------------------------------------------------------------

  /** A namespace record whose name the model changed. */
  predicate RenamesNamespace(r: MemberInfo) {
    r.MemberType == Namespace && r.IsNamed && r.CurrentDescriptiveName != r.OriginalShortName
  }

  /** No two renamed namespace records share an id, so the dictionary of namespace renames can be built. */
  predicate NamespaceRenameKeysDistinct(ms: seq<MemberInfo>) {
    forall a, b :: 0 <= a < b < |ms| && RenamesNamespace(ms[a]) && RenamesNamespace(ms[b]) ==>
      ms[a].UniqueId != ms[b].UniqueId
  }

  /** The dictionary of namespace renames: original namespace to new name. */
  function NamespaceRenames(ms: seq<MemberInfo>): map<string, string> {
    if ms == [] then map[]
    else
      var m := NamespaceRenames(ms[..|ms| - 1]);
      var r := ms[|ms| - 1];
      if RenamesNamespace(r) then m[r.UniqueId := r.CurrentDescriptiveName] else m
  }

  /**
    The namespace a top-level type ends up in: a named namespace is looked up once, by its
    original text; the global namespace only takes a non-empty new name.
   */
  function NewNamespace(ns: string, renames: map<string, string>): string {
    if ns != "" && ns in renames then renames[ns]
    else if ns == "" && "" in renames && renames[""] != "" then renames[""]
    else ns
  }

  /** Pass 1 on every type: top-level types move to their new namespace, nested ones are left alone. */
  function RetargetNamespaces(ts: seq<TypeDef>, renames: map<string, string>): (r: seq<TypeDef>)
    ensures |r| == |ts|
  {
    seq(|ts|, i requires 0 <= i < |ts| =>
      if ts[i].IsNested then ts[i] else ts[i].(Namespace := NewNamespace(ts[i].Namespace, renames)))
  }

  // ---------------------------------------------------------------------------------------
  // Pass 2: types, methods and fields
  // ---------------------------------------------------------------------------------------

  /** The three symbol tables of a module. */
  datatype Tables = Tables(types: seq<TypeDef>, methods: seq<MethodDef>, fields: seq<FieldDef>)

  /**
    A record pass 2 writes back: named, with a non-empty name, not a namespace, and not a name
    equal to the original that lacks the prefix.
   */
  predicate Applies(r: MemberInfo, prefix: string) {
    r.IsNamed && r.CurrentDescriptiveName != "" && r.MemberType != Namespace
    && !(r.CurrentDescriptiveName == r.OriginalShortName && !StartsWithIgnoreCase(r.CurrentDescriptiveName, prefix))
  }

  /** Every symbol a record names exists. */
  predicate HandlesInRange(ms: seq<MemberInfo>, st: Tables) {
    forall k :: 0 <= k < |ms| ==> HandleInRange(ms[k], st)
  }

  /** One record of pass 2: the symbol its kind and handle name takes its name, unless it is a constructor. */
  function ApplyMember(st: Tables, r: MemberInfo, prefix: string): (r': Tables)
    ensures |r'.types| == |st.types| && |r'.methods| == |st.methods| && |r'.fields| == |st.fields|
  {
    if !Applies(r, prefix) then st
    else
      match r.DnlibMember
      case Some(TypeHandle(t)) =>
        if r.MemberType == Class && t < |st.types|
        then st.(types := st.types[t := st.types[t].(Name := r.CurrentDescriptiveName)])
        else st
      case Some(MethodHandle(j)) =>
        if r.MemberType == Method && j < |st.methods|
           && !st.methods[j].IsConstructor && !st.methods[j].IsStaticConstructor
        then st.(methods := st.methods[j := st.methods[j].(Name := r.CurrentDescriptiveName)])
        else st
      case Some(FieldHandle(j)) =>
        if r.MemberType == Field && j < |st.fields|
        then st.(fields := st.fields[j := st.fields[j].(Name := r.CurrentDescriptiveName)])
        else st
      case None => st
  }

  /** Pass 2: the records in registry order. */
  function ApplyMembers(st: Tables, ms: seq<MemberInfo>, prefix: string): (r: Tables)
    ensures |r.types| == |st.types| && |r.methods| == |st.methods| && |r.fields| == |st.fields|
  {
    if ms == [] then st
    else ApplyMember(ApplyMembers(st, ms[..|ms| - 1], prefix), ms[|ms| - 1], prefix)
  }

  // ---------------------------------------------------------------------------------------
  // ApplyRenames
  // ---------------------------------------------------------------------------------------

  /** `ApplyRenames`: pass 1 over the top-level types, then pass 2 over the registry. */
  method ApplyRenames(moduleDef: ModuleDef, memberManager: MemberInfoManager, descriptiveNamePrefix: string)
    requires NamespaceRenameKeysDistinct(memberManager.members)
    requires HandlesInRange(memberManager.members, Tables(moduleDef.types[..], moduleDef.methods[..], moduleDef.fields[..]))
    modifies moduleDef.types, moduleDef.methods, moduleDef.fields
    ensures Tables(moduleDef.types[..], moduleDef.methods[..], moduleDef.fields[..]) ==
      ApplyMembers(Tables(RetargetNamespaces(old(moduleDef.types[..]), NamespaceRenames(memberManager.members)),
                          old(moduleDef.methods[..]), old(moduleDef.fields[..])),
                   memberManager.members, descriptiveNamePrefix)
  {
    var renamedNamespacesMap := NamespaceRenames(memberManager.members);
    RenameNamespaces(moduleDef, renamedNamespacesMap);
    RenameMembers(moduleDef, memberManager.members, descriptiveNamePrefix);
  }

  /** Pass 1: every top-level type whose namespace was renamed moves to the new one. */
  method RenameNamespaces(moduleDef: ModuleDef, renamedNamespacesMap: map<string, string>)
    modifies moduleDef.types
    ensures moduleDef.types[..] == RetargetNamespaces(old(moduleDef.types[..]), renamedNamespacesMap)
  {
    ghost var ts := moduleDef.types[..];
    var i := 0;
    while i < moduleDef.types.Length
      invariant 0 <= i <= moduleDef.types.Length
      invariant forall k :: 0 <= k < i ==> moduleDef.types[k] == RetargetNamespaces(ts, renamedNamespacesMap)[k]
      invariant forall k :: i <= k < moduleDef.types.Length ==> moduleDef.types[k] == ts[k]
    {
      var typeDef := moduleDef.types[i];
      if !typeDef.IsNested {
        if typeDef.Namespace != "" && typeDef.Namespace in renamedNamespacesMap {
          var newNamespace := renamedNamespacesMap[typeDef.Namespace];
          if typeDef.Namespace != newNamespace {
            moduleDef.types[i] := typeDef.(Namespace := newNamespace);
          }
        } else if typeDef.Namespace == "" && "" in renamedNamespacesMap {
          var newNamespace := renamedNamespacesMap[""];
          if typeDef.Namespace == "" && newNamespace != "" {
            moduleDef.types[i] := typeDef.(Namespace := newNamespace);
          }
        }
      }
      i := i + 1;
    }
  }

  /** Pass 2: each record, in order, renames the symbol it names. */
  method RenameMembers(moduleDef: ModuleDef, members: seq<MemberInfo>, descriptiveNamePrefix: string)
    requires HandlesInRange(members, Tables(moduleDef.types[..], moduleDef.methods[..], moduleDef.fields[..]))
    modifies moduleDef.types, moduleDef.methods, moduleDef.fields
    ensures Tables(moduleDef.types[..], moduleDef.methods[..], moduleDef.fields[..]) ==
      ApplyMembers(Tables(old(moduleDef.types[..]), old(moduleDef.methods[..]), old(moduleDef.fields[..])),
                   members, descriptiveNamePrefix)
  {
    ghost var st := Tables(moduleDef.types[..], moduleDef.methods[..], moduleDef.fields[..]);
    var k := 0;
    while k < |members|
      invariant 0 <= k <= |members|
      invariant Tables(moduleDef.types[..], moduleDef.methods[..], moduleDef.fields[..]) ==
        ApplyMembers(st, members[..k], descriptiveNamePrefix)
    {
      assert HandleInRange(members[k], st);
      RenameMember(moduleDef, members[k], descriptiveNamePrefix);
      ApplyMembersLast(st, members, k, descriptiveNamePrefix);
      k := k + 1;
    }
    assert members[..k] == members;
  }

  /** The symbol `r` names exists in `st`. */
  predicate HandleInRange(r: MemberInfo, st: Tables) {
    match r.DnlibMember
    case None => true
    case Some(TypeHandle(t)) => t < |st.types|
    case Some(MethodHandle(j)) => j < |st.methods|
    case Some(FieldHandle(j)) => j < |st.fields|
  }

  /** The body of pass 2 for one record. */
  method RenameMember(moduleDef: ModuleDef, memberInfo: MemberInfo, descriptiveNamePrefix: string)
    requires HandleInRange(memberInfo, Tables(moduleDef.types[..], moduleDef.methods[..], moduleDef.fields[..]))
    modifies moduleDef.types, moduleDef.methods, moduleDef.fields
    ensures Tables(moduleDef.types[..], moduleDef.methods[..], moduleDef.fields[..]) ==
      ApplyMember(Tables(old(moduleDef.types[..]), old(moduleDef.methods[..]), old(moduleDef.fields[..])),
                  memberInfo, descriptiveNamePrefix)
  {
    if !memberInfo.IsNamed || memberInfo.CurrentDescriptiveName == "" || memberInfo.MemberType == Namespace {
    } else if memberInfo.CurrentDescriptiveName == memberInfo.OriginalShortName
              && !StartsWithIgnoreCase(memberInfo.CurrentDescriptiveName, descriptiveNamePrefix) {
    } else {
      match memberInfo.MemberType {
        case Class =>
          if memberInfo.DnlibMember.Some? && memberInfo.DnlibMember.value.TypeHandle? {
            var t := memberInfo.DnlibMember.value.t;
            if moduleDef.types[t].Name != memberInfo.CurrentDescriptiveName {
              moduleDef.types[t] := moduleDef.types[t].(Name := memberInfo.CurrentDescriptiveName);
            }
          }
        case Method =>
          if memberInfo.DnlibMember.Some? && memberInfo.DnlibMember.value.MethodHandle? {
            var j := memberInfo.DnlibMember.value.m;
            var methodDef := moduleDef.methods[j];
            if !methodDef.IsConstructor && !methodDef.IsStaticConstructor && methodDef.Name != memberInfo.CurrentDescriptiveName {
              moduleDef.methods[j] := methodDef.(Name := memberInfo.CurrentDescriptiveName);
            }
          }
        case Field =>
          if memberInfo.DnlibMember.Some? && memberInfo.DnlibMember.value.FieldHandle? {
            var j := memberInfo.DnlibMember.value.f;
            if moduleDef.fields[j].Name != memberInfo.CurrentDescriptiveName {
              moduleDef.fields[j] := moduleDef.fields[j].(Name := memberInfo.CurrentDescriptiveName);
            }
          }
        case Namespace =>
      }
    }
  }

  /** One more record of pass 2. */
  lemma ApplyMembersLast(st: Tables, ms: seq<MemberInfo>, k: nat, prefix: string)
    requires k < |ms|
    ensures ApplyMembers(st, ms[..k + 1], prefix) == ApplyMember(ApplyMembers(st, ms[..k], prefix), ms[k], prefix)
  {
    assert ms[..k + 1][..k] == ms[..k];
  }
}
