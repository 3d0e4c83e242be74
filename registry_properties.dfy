/**
  What the member registry promises: the population records each symbol once and only
  symbols, each namespace once; the snapshot holds exactly the records still to be named; a
  merge never unnames a record and re-applying the same answer changes nothing.
 */
module RegistryProperties {
  import opened Wrappers
  import opened Text
  import opened Model
  import opened Symbols
  import opened Registry
  import JsonHelper

  // ---------------------------------------------------------------------------------------
  // Population
  // ---------------------------------------------------------------------------------------

  /** Every record of `s` is fresh and is the record of the symbol its handle names. */
  predicate AllDescribe(s: seq<MemberInfo>, ts: seq<TypeDef>, mds: seq<MethodDef>, fds: seq<FieldDef>) {
    forall k :: 0 <= k < |s| ==> Fresh(s[k]) && Describes(s[k], ts, mds, fds)
  }

  lemma AllDescribeConcat(a: seq<MemberInfo>, b: seq<MemberInfo>, ts: seq<TypeDef>, mds: seq<MethodDef>, fds: seq<FieldDef>)
    requires AllDescribe(a, ts, mds, fds) && AllDescribe(b, ts, mds, fds)
    ensures AllDescribe(a + b, ts, mds, fds)
  {
    forall k | 0 <= k < |a + b|
      ensures Fresh((a + b)[k]) && Describes((a + b)[k], ts, mds, fds)
    {
      if k < |a| {
        assert (a + b)[k] == a[k];
      } else {
        assert (a + b)[k] == b[k - |a|];
      }
    }
  }

  /** A record that describes a symbol of the first `n` types describes it among all of them. */
  lemma AllDescribePrefix(s: seq<MemberInfo>, ts: seq<TypeDef>, n: nat, mds: seq<MethodDef>, fds: seq<FieldDef>)
    requires n <= |ts| && AllDescribe(s, ts[..n], mds, fds)
    ensures AllDescribe(s, ts, mds, fds)
  {
    forall k | 0 <= k < |s|
      ensures Describes(s[k], ts, mds, fds)
    {
      assert Describes(s[k], ts[..n], mds, fds);
      match s[k].DnlibMember
      case None =>
      case Some(h) =>
        if h.TypeHandle? {
          assert ts[..n][h.t] == ts[h.t];
        }
    }
  }

  /** The method records of a type are fresh records of those methods, none named `.ctor`. */
  lemma {:induction false} MethodRecordsDescribe(idx: seq<nat>, ts: seq<TypeDef>, mds: seq<MethodDef>, fds: seq<FieldDef>)
    requires forall k :: 0 <= k < |idx| ==> idx[k] < |mds|
    ensures AllDescribe(MethodRecords(idx, mds), ts, mds, fds)
  {
    if idx != [] {
      var j := idx[|idx| - 1];
      MethodRecordsDescribe(idx[..|idx| - 1], ts, mds, fds);
      assert AllDescribe(MethodRecordUnlessConstructor(mds[j], j), ts, mds, fds);
      AllDescribeConcat(MethodRecords(idx[..|idx| - 1], mds), MethodRecordUnlessConstructor(mds[j], j), ts, mds, fds);
    }
  }

  /** The field records of a type are fresh records of those fields. */
  lemma {:induction false} FieldRecordsDescribe(idx: seq<nat>, ts: seq<TypeDef>, mds: seq<MethodDef>, fds: seq<FieldDef>)
    requires forall k :: 0 <= k < |idx| ==> idx[k] < |fds|
    ensures AllDescribe(FieldRecords(idx, fds), ts, mds, fds)
  {
    if idx != [] {
      var j := idx[|idx| - 1];
      FieldRecordsDescribe(idx[..|idx| - 1], ts, mds, fds);
      assert AllDescribe([FieldRecord(fds[j], j)], ts, mds, fds);
      AllDescribeConcat(FieldRecords(idx[..|idx| - 1], fds), [FieldRecord(fds[j], j)], ts, mds, fds);
    }
  }

  /** The records one type adds describe that type, its namespace, its methods and its fields. */
  lemma TypeRecordsDescribe(ts: seq<TypeDef>, n: nat, mds: seq<MethodDef>, fds: seq<FieldDef>, seen: set<string>)
    requires n < |ts| && WellIndexed(ts[n], |mds|, |fds|)
    ensures AllDescribe(TypeRecords(ts[n], n, mds, fds, seen), ts, mds, fds)
  {
    var t := ts[n];
    var nsRecords := if t.Namespace in seen then [] else [NamespaceRecord(t.Namespace)];
    assert AllDescribe(nsRecords + [TypeRecord(t, n)], ts, mds, fds);
    MethodRecordsDescribe(t.Methods, ts, mds, fds);
    FieldRecordsDescribe(t.Fields, ts, mds, fds);
    AllDescribeConcat(nsRecords + [TypeRecord(t, n)], MethodRecords(t.Methods, mds), ts, mds, fds);
    AllDescribeConcat(nsRecords + [TypeRecord(t, n)] + MethodRecords(t.Methods, mds), FieldRecords(t.Fields, fds), ts, mds, fds);
    AppendAssoc(nsRecords, [TypeRecord(t, n)], MethodRecords(t.Methods, mds));
    AppendAssoc(nsRecords, [TypeRecord(t, n)] + MethodRecords(t.Methods, mds), FieldRecords(t.Fields, fds));
  }

  /**
    Population records only what is there: every record is unnamed, carries its own name and
    an empty description, and is the namespace record of its id or the record of the type,
    method (never one named `.ctor`) or field its handle names.
   */
  lemma {:induction false} PopulationDescribes(ts: seq<TypeDef>, mds: seq<MethodDef>, fds: seq<FieldDef>)
    requires AllWellIndexed(ts, mds, fds)
    ensures AllDescribe(Population(ts, mds, fds), ts, mds, fds)
  {
    if ts != [] {
      var n := |ts| - 1;
      assert AllWellIndexed(ts[..n], mds, fds);
      PopulationDescribes(ts[..n], mds, fds);
      AllDescribePrefix(Population(ts[..n], mds, fds), ts, n, mds, fds);
      TypeRecordsDescribe(ts, n, mds, fds, NamespacesOf(ts[..n]));
      AllDescribeConcat(Population(ts[..n], mds, fds), TypeRecords(ts[n], n, mds, fds, NamespacesOf(ts[..n])), ts, mds, fds);
    }
  }

  /** Every listed method other than a `.ctor` has its record. */
  lemma {:induction false} MethodRecordsCover(idx: seq<nat>, mds: seq<MethodDef>)
    requires forall k :: 0 <= k < |idx| ==> idx[k] < |mds|
    ensures forall j :: 0 <= j < |idx| && !IsConstructorName(mds[idx[j]].Name) ==>
      MethodRecord(mds[idx[j]], idx[j]) in MethodRecords(idx, mds)
  {
    if idx != [] {
      var n := |idx| - 1;
      MethodRecordsCover(idx[..n], mds);
      forall j | 0 <= j < |idx| && !IsConstructorName(mds[idx[j]].Name)
        ensures MethodRecord(mds[idx[j]], idx[j]) in MethodRecords(idx, mds)
      {
        if j < n {
          assert idx[..n][j] == idx[j];
        }
      }
    }
  }

  /** Every listed field has its record. */
  lemma {:induction false} FieldRecordsCover(idx: seq<nat>, fds: seq<FieldDef>)
    requires forall k :: 0 <= k < |idx| ==> idx[k] < |fds|
    ensures forall j :: 0 <= j < |idx| ==> FieldRecord(fds[idx[j]], idx[j]) in FieldRecords(idx, fds)
  {
    if idx != [] {
      var n := |idx| - 1;
      FieldRecordsCover(idx[..n], fds);
      forall j | 0 <= j < |idx|
        ensures FieldRecord(fds[idx[j]], idx[j]) in FieldRecords(idx, fds)
      {
        if j < n {
          assert idx[..n][j] == idx[j];
        }
      }
    }
  }

  /** A namespace seen among some types is the namespace of one of them. */
  lemma {:induction false} NamespaceSeen(ts: seq<TypeDef>, ns: string) returns (i: nat)
    requires ns in NamespacesOf(ts)
    ensures i < |ts| && ts[i].Namespace == ns
  {
    var n := |ts| - 1;
    if ts[n].Namespace == ns {
      i := n;
    } else {
      i := NamespaceSeen(ts[..n], ns);
    }
  }

  /** `P` holds the record of every type and of the namespace of each. */
  predicate CoversTypes(P: seq<MemberInfo>, ts: seq<TypeDef>) {
    forall i :: 0 <= i < |ts| ==> TypeRecord(ts[i], i) in P && NamespaceRecord(ts[i].Namespace) in P
  }

  /** `P` holds the record of every method a type lists, unless it is named `.ctor`. */
  predicate CoversMethods(P: seq<MemberInfo>, ts: seq<TypeDef>, mds: seq<MethodDef>, fds: seq<FieldDef>)
    requires AllWellIndexed(ts, mds, fds)
  {
    forall i, j :: 0 <= i < |ts| && 0 <= j < |ts[i].Methods| && !IsConstructorName(mds[ts[i].Methods[j]].Name) ==>
      MethodRecord(mds[ts[i].Methods[j]], ts[i].Methods[j]) in P
  }

  /** `P` holds the record of every field a type lists. */
  predicate CoversFields(P: seq<MemberInfo>, ts: seq<TypeDef>, mds: seq<MethodDef>, fds: seq<FieldDef>)
    requires AllWellIndexed(ts, mds, fds)
  {
    forall i, j :: 0 <= i < |ts| && 0 <= j < |ts[i].Fields| ==> FieldRecord(fds[ts[i].Fields[j]], ts[i].Fields[j]) in P
  }

  /** The records one type adds cover that type, its methods other than `.ctor` and its fields. */
  lemma TypeRecordsCover(t: TypeDef, n: nat, mds: seq<MethodDef>, fds: seq<FieldDef>, seen: set<string>)
    requires WellIndexed(t, |mds|, |fds|)
    ensures TypeRecord(t, n) in TypeRecords(t, n, mds, fds, seen)
    ensures t.Namespace !in seen ==> NamespaceRecord(t.Namespace) in TypeRecords(t, n, mds, fds, seen)
    ensures forall j :: 0 <= j < |t.Methods| && !IsConstructorName(mds[t.Methods[j]].Name) ==>
      MethodRecord(mds[t.Methods[j]], t.Methods[j]) in TypeRecords(t, n, mds, fds, seen)
    ensures forall j :: 0 <= j < |t.Fields| ==> FieldRecord(fds[t.Fields[j]], t.Fields[j]) in TypeRecords(t, n, mds, fds, seen)
  {
    MethodRecordsCover(t.Methods, mds);
    FieldRecordsCover(t.Fields, fds);
  }

  lemma InHead(a: seq<MemberInfo>, b: seq<MemberInfo>)
    ensures forall x :: x in a ==> x in a + b
  {
  }

  lemma InTail(a: seq<MemberInfo>, b: seq<MemberInfo>)
    ensures forall x :: x in b ==> x in a + b
  {
  }

  /** Covering the types before the last one, then adding the records of the last, covers them all. */
  lemma {:induction false} CoversTypesStep(ts: seq<TypeDef>, mds: seq<MethodDef>, fds: seq<FieldDef>, head: seq<MemberInfo>)
    requires ts != [] && WellIndexed(ts[|ts| - 1], |mds|, |fds|)
    requires CoversTypes(head, ts[..|ts| - 1])
    ensures CoversTypes(head + TypeRecords(ts[|ts| - 1], |ts| - 1, mds, fds, NamespacesOf(ts[..|ts| - 1])), ts)
  {
    var n := |ts| - 1;
    var front := ts[..n];
    var added := TypeRecords(ts[n], n, mds, fds, NamespacesOf(front));
    TypeRecordsCover(ts[n], n, mds, fds, NamespacesOf(front));
    InHead(head, added);
    InTail(head, added);
    forall i | 0 <= i < |ts|
      ensures TypeRecord(ts[i], i) in head + added && NamespaceRecord(ts[i].Namespace) in head + added
    {
      if i < n {
        assert front[i] == ts[i];
      } else if ts[n].Namespace in NamespacesOf(front) {
        var w := NamespaceSeen(front, ts[n].Namespace);
        assert NamespaceRecord(front[w].Namespace) in head;
      }
    }
  }

  lemma {:induction false} CoversMethodsStep(ts: seq<TypeDef>, mds: seq<MethodDef>, fds: seq<FieldDef>, head: seq<MemberInfo>)
    requires ts != [] && AllWellIndexed(ts, mds, fds) && AllWellIndexed(ts[..|ts| - 1], mds, fds)
    requires CoversMethods(head, ts[..|ts| - 1], mds, fds)
    ensures CoversMethods(head + TypeRecords(ts[|ts| - 1], |ts| - 1, mds, fds, NamespacesOf(ts[..|ts| - 1])), ts, mds, fds)
  {
    var n := |ts| - 1;
    var added := TypeRecords(ts[n], n, mds, fds, NamespacesOf(ts[..n]));
    TypeRecordsCover(ts[n], n, mds, fds, NamespacesOf(ts[..n]));
    InHead(head, added);
    InTail(head, added);
    forall i, j | 0 <= i < |ts| && 0 <= j < |ts[i].Methods| && !IsConstructorName(mds[ts[i].Methods[j]].Name)
      ensures MethodRecord(mds[ts[i].Methods[j]], ts[i].Methods[j]) in head + added
    {
      if i < n {
        assert ts[..n][i] == ts[i];
        assert MethodRecord(mds[ts[i].Methods[j]], ts[i].Methods[j]) in head;
      } else {
        assert MethodRecord(mds[ts[n].Methods[j]], ts[n].Methods[j]) in added;
      }
    }
  }

  lemma {:induction false} CoversFieldsStep(ts: seq<TypeDef>, mds: seq<MethodDef>, fds: seq<FieldDef>, head: seq<MemberInfo>)
    requires ts != [] && AllWellIndexed(ts, mds, fds) && AllWellIndexed(ts[..|ts| - 1], mds, fds)
    requires CoversFields(head, ts[..|ts| - 1], mds, fds)
    ensures CoversFields(head + TypeRecords(ts[|ts| - 1], |ts| - 1, mds, fds, NamespacesOf(ts[..|ts| - 1])), ts, mds, fds)
  {
    var n := |ts| - 1;
    var added := TypeRecords(ts[n], n, mds, fds, NamespacesOf(ts[..n]));
    TypeRecordsCover(ts[n], n, mds, fds, NamespacesOf(ts[..n]));
    InHead(head, added);
    InTail(head, added);
    forall i, j | 0 <= i < |ts| && 0 <= j < |ts[i].Fields|
      ensures FieldRecord(fds[ts[i].Fields[j]], ts[i].Fields[j]) in head + added
    {
      if i < n {
        assert ts[..n][i] == ts[i];
        assert FieldRecord(fds[ts[i].Fields[j]], ts[i].Fields[j]) in head;
      }
    }
  }

  /**
    Population misses nothing: every type, the namespace of every type, every method not named
    `.ctor` and every field has its record.
   */
  lemma PopulationCovers(ts: seq<TypeDef>, mds: seq<MethodDef>, fds: seq<FieldDef>)
    requires AllWellIndexed(ts, mds, fds)
    ensures var P := Population(ts, mds, fds);
      CoversTypes(P, ts) && CoversMethods(P, ts, mds, fds) && CoversFields(P, ts, mds, fds)
  {
    PopulationCoversTypes(ts, mds, fds);
    PopulationCoversMethods(ts, mds, fds);
    PopulationCoversFields(ts, mds, fds);
  }

  /** Every type and the namespace of every type have their records. */
  lemma {:induction false} PopulationCoversTypes(ts: seq<TypeDef>, mds: seq<MethodDef>, fds: seq<FieldDef>)
    requires AllWellIndexed(ts, mds, fds)
    ensures CoversTypes(Population(ts, mds, fds), ts)
  {
    if ts != [] {
      var n := |ts| - 1;
      assert AllWellIndexed(ts[..n], mds, fds);
      PopulationCoversTypes(ts[..n], mds, fds);
      CoversTypesStep(ts, mds, fds, Population(ts[..n], mds, fds));
    }
  }

  /** Every method not named `.ctor` has its record. */
  lemma {:induction false} PopulationCoversMethods(ts: seq<TypeDef>, mds: seq<MethodDef>, fds: seq<FieldDef>)
    requires AllWellIndexed(ts, mds, fds)
    ensures CoversMethods(Population(ts, mds, fds), ts, mds, fds)
  {
    if ts != [] {
      var n := |ts| - 1;
      assert AllWellIndexed(ts[..n], mds, fds);
      PopulationCoversMethods(ts[..n], mds, fds);
      CoversMethodsStep(ts, mds, fds, Population(ts[..n], mds, fds));
    }
  }

  /** Every field has its record. */
  lemma {:induction false} PopulationCoversFields(ts: seq<TypeDef>, mds: seq<MethodDef>, fds: seq<FieldDef>)
    requires AllWellIndexed(ts, mds, fds)
    ensures CoversFields(Population(ts, mds, fds), ts, mds, fds)
  {
    if ts != [] {
      var n := |ts| - 1;
      assert AllWellIndexed(ts[..n], mds, fds);
      PopulationCoversFields(ts[..n], mds, fds);
      CoversFieldsStep(ts, mds, fds, Population(ts[..n], mds, fds));
    }
  }

  /** No two namespace records share an id: the renamer's namespace dictionary can be built. */
  predicate NamespaceIdsDistinct(ms: seq<MemberInfo>) {
    forall a, b :: 0 <= a < b < |ms| && ms[a].MemberType == Namespace && ms[b].MemberType == Namespace ==>
      ms[a].UniqueId != ms[b].UniqueId
  }

  /** The id of every namespace record of `ms` is in `S`. */
  predicate NamespaceIdsWithin(ms: seq<MemberInfo>, S: set<string>) {
    forall k :: 0 <= k < |ms| && ms[k].MemberType == Namespace ==> ms[k].UniqueId in S
  }

  /** `ms` holds no namespace record. */
  predicate NoNamespaceRecords(ms: seq<MemberInfo>) {
    forall k :: 0 <= k < |ms| ==> ms[k].MemberType != Namespace
  }

  lemma NoNamespaceConcat(a: seq<MemberInfo>, b: seq<MemberInfo>)
    requires NoNamespaceRecords(a) && NoNamespaceRecords(b)
    ensures NoNamespaceRecords(a + b)
  {
    forall k | 0 <= k < |a + b|
      ensures (a + b)[k].MemberType != Namespace
    {
      if k < |a| {
        assert (a + b)[k] == a[k];
      } else {
        assert (a + b)[k] == b[k - |a|];
      }
    }
  }

  lemma {:induction false} MethodRecordsNoNamespace(idx: seq<nat>, mds: seq<MethodDef>)
    requires forall k :: 0 <= k < |idx| ==> idx[k] < |mds|
    ensures NoNamespaceRecords(MethodRecords(idx, mds))
  {
    if idx != [] {
      var j := idx[|idx| - 1];
      MethodRecordsNoNamespace(idx[..|idx| - 1], mds);
      NoNamespaceConcat(MethodRecords(idx[..|idx| - 1], mds), MethodRecordUnlessConstructor(mds[j], j));
    }
  }

  lemma {:induction false} FieldRecordsNoNamespace(idx: seq<nat>, fds: seq<FieldDef>)
    requires forall k :: 0 <= k < |idx| ==> idx[k] < |fds|
    ensures NoNamespaceRecords(FieldRecords(idx, fds))
  {
    if idx != [] {
      var j := idx[|idx| - 1];
      FieldRecordsNoNamespace(idx[..|idx| - 1], fds);
      NoNamespaceConcat(FieldRecords(idx[..|idx| - 1], fds), [FieldRecord(fds[j], j)]);
    }
  }

  /** A type's own records hold no namespace record. */
  lemma OwnRecordsNoNamespace(t: TypeDef, i: nat, mds: seq<MethodDef>, fds: seq<FieldDef>)
    requires WellIndexed(t, |mds|, |fds|)
    ensures NoNamespaceRecords(OwnRecords(t, i, mds, fds))
  {
    MethodRecordsNoNamespace(t.Methods, mds);
    FieldRecordsNoNamespace(t.Fields, fds);
    NoNamespaceConcat([TypeRecord(t, i)], MethodRecords(t.Methods, mds));
    NoNamespaceConcat([TypeRecord(t, i)] + MethodRecords(t.Methods, mds), FieldRecords(t.Fields, fds));
  }

  /** Two lists whose namespace ids are distinct and disjoint join into one whose namespace ids are distinct. */
  lemma NamespaceIdsConcat(a: seq<MemberInfo>, b: seq<MemberInfo>, S: set<string>)
    requires NamespaceIdsDistinct(a) && NamespaceIdsDistinct(b) && NamespaceIdsWithin(a, S)
    requires forall k :: 0 <= k < |b| && b[k].MemberType == Namespace ==> b[k].UniqueId !in S
    ensures NamespaceIdsDistinct(a + b)
  {
    var c := a + b;
    forall x, y | 0 <= x < y < |c| && c[x].MemberType == Namespace && c[y].MemberType == Namespace
      ensures c[x].UniqueId != c[y].UniqueId
    {
      if y < |a| {
        assert c[x] == a[x] && c[y] == a[y];
      } else if x < |a| {
        assert c[x] == a[x] && c[y] == b[y - |a|];
      } else {
        assert c[x] == b[x - |a|] && c[y] == b[y - |a|];
      }
    }
  }

  lemma NamespaceIdsWithinConcat(a: seq<MemberInfo>, b: seq<MemberInfo>, S: set<string>)
    requires NamespaceIdsWithin(a, S) && NamespaceIdsWithin(b, S)
    ensures NamespaceIdsWithin(a + b, S)
  {
    forall k | 0 <= k < |a + b| && (a + b)[k].MemberType == Namespace
      ensures (a + b)[k].UniqueId in S
    {
      if k < |a| {
        assert (a + b)[k] == a[k];
      } else {
        assert (a + b)[k] == b[k - |a|];
      }
    }
  }

  /** The records one type adds hold at most its namespace record, and only for a namespace not seen before. */
  lemma TypeRecordsNamespaces(t: TypeDef, i: nat, mds: seq<MethodDef>, fds: seq<FieldDef>, seen: set<string>)
    requires WellIndexed(t, |mds|, |fds|)
    ensures var added := TypeRecords(t, i, mds, fds, seen);
      NamespaceIdsDistinct(added) && NamespaceIdsWithin(added, {t.Namespace})
      && forall k :: 0 <= k < |added| && added[k].MemberType == Namespace ==> added[k].UniqueId !in seen
  {
    var nsRecords := if t.Namespace in seen then [] else [NamespaceRecord(t.Namespace)];
    var own := OwnRecords(t, i, mds, fds);
    OwnRecordsNoNamespace(t, i, mds, fds);
    var added := nsRecords + own;
    forall k | 0 <= k < |added| && added[k].MemberType == Namespace
      ensures k == 0 && added[k] == NamespaceRecord(t.Namespace) && t.Namespace !in seen
    {
    }
  }

  /** Population records each namespace once, and only namespaces of its types. */
  lemma {:induction false} PopulationNamespaces(ts: seq<TypeDef>, mds: seq<MethodDef>, fds: seq<FieldDef>)
    requires AllWellIndexed(ts, mds, fds)
    ensures NamespaceIdsDistinct(Population(ts, mds, fds))
    ensures NamespaceIdsWithin(Population(ts, mds, fds), NamespacesOf(ts))
  {
    if ts != [] {
      var n := |ts| - 1;
      var front := ts[..n];
      assert AllWellIndexed(front, mds, fds);
      PopulationNamespaces(front, mds, fds);
      var head := Population(front, mds, fds);
      var added := TypeRecords(ts[n], n, mds, fds, NamespacesOf(front));
      TypeRecordsNamespaces(ts[n], n, mds, fds, NamespacesOf(front));
      NamespaceIdsConcat(head, added, NamespacesOf(front));
      assert NamespaceIdsWithin(head, NamespacesOf(ts));
      assert NamespaceIdsWithin(added, NamespacesOf(ts));
      NamespaceIdsWithinConcat(head, added, NamespacesOf(ts));
    }
  }

  // ---------------------------------------------------------------------------------------
  // Counts
  // ---------------------------------------------------------------------------------------

  /** A merge never lowers the named count. */
  lemma {:induction false} NamedCountMonotone(a: seq<MemberInfo>, b: seq<MemberInfo>)
    requires Keeps(a, b)
    ensures NamedCount(a) <= NamedCount(b)
  {
    if a != [] {
      var n := |a| - 1;
      assert Keeps(a[..n], b[..n]);
      NamedCountMonotone(a[..n], b[..n]);
    }
  }

  /** Every record is named exactly when the named count reaches the total. */
  lemma {:induction false} NamedCountFull(ms: seq<MemberInfo>)
    ensures NamedCount(ms) == |ms| <==> forall i :: 0 <= i < |ms| ==> ms[i].IsNamed
  {
    if ms != [] {
      var n := |ms| - 1;
      NamedCountFull(ms[..n]);
      if NamedCount(ms) == |ms| {
        forall i | 0 <= i < |ms|
          ensures ms[i].IsNamed
        {
          if i < n {
            assert ms[..n][i] == ms[i];
          }
        }
      }
    }
  }

  // ---------------------------------------------------------------------------------------
  // Snapshot
  // ---------------------------------------------------------------------------------------

  /** The snapshot holds exactly the ids of the eligible records. */
  lemma {:induction false} PromptMapKeys(ms: seq<MemberInfo>, id: string)
    ensures id in PromptMap(ms) <==> exists i :: 0 <= i < |ms| && Eligible(ms[i]) && ms[i].UniqueId == id
  {
    if ms != [] {
      var n := |ms| - 1;
      PromptMapKeys(ms[..n], id);
      if exists i :: 0 <= i < n && Eligible(ms[..n][i]) && ms[..n][i].UniqueId == id {
        var i :| 0 <= i < n && Eligible(ms[..n][i]) && ms[..n][i].UniqueId == id;
        assert Eligible(ms[i]) && ms[i].UniqueId == id;
      }
      if exists i :: 0 <= i < |ms| && Eligible(ms[i]) && ms[i].UniqueId == id {
        var i :| 0 <= i < |ms| && Eligible(ms[i]) && ms[i].UniqueId == id;
        if i < n {
          assert Eligible(ms[..n][i]) && ms[..n][i].UniqueId == id;
        }
      }
    }
  }

  /**
    The snapshot sends, for each id, the kind, original short name and description of the
    last eligible record with that id.
   */
  lemma {:induction false} PromptMapValues(ms: seq<MemberInfo>, i: nat)
    requires i < |ms| && Eligible(ms[i])
    requires forall j :: i < j < |ms| && Eligible(ms[j]) ==> ms[j].UniqueId != ms[i].UniqueId
    ensures ms[i].UniqueId in PromptMap(ms) && PromptMap(ms)[ms[i].UniqueId] == EntryOf(ms[i])
  {
    var n := |ms| - 1;
    if i < n {
      assert ms[..n][i] == ms[i];
      PromptMapValues(ms[..n], i);
    }
  }

  /** The `{}` sentinel is sent exactly when no record is eligible, given a serializer that never writes `{}` for a non-empty dictionary. */
  lemma SnapshotSentinel(ms: seq<MemberInfo>, serialize: map<string, PromptEntry> -> string)
    requires forall m :: m != map[] ==> serialize(m) != "{}"
    ensures PromptData(ms, serialize) == "{}" <==> !HasEligible(ms)
  {
    if HasEligible(ms) {
      var i :| 0 <= i < |ms| && Eligible(ms[i]);
      PromptMapKeys(ms, ms[i].UniqueId);
    }
  }

  // ---------------------------------------------------------------------------------------
  // Merge
  // ---------------------------------------------------------------------------------------

  /** A lookup that sends distinct ids to distinct records. */
  predicate Injective(lookup: map<string, nat>) {
    forall a, b :: a in lookup && b in lookup && a != b ==> lookup[a] != lookup[b]
  }

  /** The entries of a payload read into a dictionary: no key twice. */
  predicate DistinctKeys(es: seq<PayloadEntry>) {
    forall x, y :: 0 <= x < y < |es| ==> es[x].Key != es[y].Key
  }

  /** Applying `e` to `ms` changes nothing, counts nothing and does not throw. */
  predicate Settled(ms: seq<MemberInfo>, lookup: map<string, nat>, e: PayloadEntry, prefix: string)
    requires LookupInRange(lookup, |ms|)
  {
    Step(ms, lookup, e, prefix) == Continue(ms, 0, [])
  }

  /** The id lookup built from a list sends distinct ids to distinct records. */
  lemma IdLookupInjective(ids: seq<string>)
    ensures Injective(IdLookup(ids))
  {
  }

  /** Only a `null` name for a known key throws, whatever the list holds. */
  lemma StepAborts(ms: seq<MemberInfo>, lookup: map<string, nat>, e: PayloadEntry, prefix: string)
    requires LookupInRange(lookup, |ms|)
    ensures Step(ms, lookup, e, prefix).Abort? <==> e.Key in lookup && e.DescriptiveName == NullName
  {
  }

  /** An entry touches at most the record its key names. */
  lemma StepLocal(ms: seq<MemberInfo>, lookup: map<string, nat>, e: PayloadEntry, prefix: string)
    requires LookupInRange(lookup, |ms|) && Step(ms, lookup, e, prefix).Continue?
    ensures forall j :: 0 <= j < |ms| && (e.Key !in lookup || j != lookup[e.Key]) ==>
      Step(ms, lookup, e, prefix).members[j] == ms[j]
  {
  }

  /** A name that is empty or all whitespace is ignored: the entry changes and counts nothing. */
  lemma StepIgnoresBlankName(ms: seq<MemberInfo>, lookup: map<string, nat>, e: PayloadEntry, prefix: string)
    requires LookupInRange(lookup, |ms|) && e.DescriptiveName.Name? && AllWhiteSpace(e.DescriptiveName.value)
    ensures Step(ms, lookup, e, prefix) == Continue(ms, 0, [])
  {
    TrimEmptyIffAllWhiteSpace(e.DescriptiveName.value);
  }

  /**
    An accepted entry -- a known key with a name that is not blank, for a record whose original
    name does not start with `.ctor` -- leaves that record named with the prefixed name. Its
    description is the entry's when the name changed and is kept otherwise; nothing else about
    the record changes.
   */
  lemma StepAdoptsName(ms: seq<MemberInfo>, lookup: map<string, nat>, e: PayloadEntry, prefix: string)
    requires LookupInRange(lookup, |ms|) && e.Key in lookup
    requires e.DescriptiveName.Name? && !AllWhiteSpace(e.DescriptiveName.value)
    requires !StartsWithIgnoreCase(ms[lookup[e.Key]].OriginalShortName, ".ctor")
    ensures var o := Step(ms, lookup, e, prefix); var i := lookup[e.Key];
      var name := WithPrefix(e.DescriptiveName.value, prefix);
      o.Continue? && |o.members| == |ms|
      && o.members[i] == ms[i].(CurrentDescriptiveName := name, IsNamed := true,
                               Description := if ms[i].CurrentDescriptiveName != name then e.Description else ms[i].Description)
  {
    TrimEmptyIffAllWhiteSpace(e.DescriptiveName.value);
  }

  /** A record whose original name starts with `.ctor` (in any letter case) is never changed by an entry. */
  lemma StepSkipsConstructorNames(ms: seq<MemberInfo>, lookup: map<string, nat>, e: PayloadEntry, prefix: string)
    requires LookupInRange(lookup, |ms|) && e.Key in lookup
    requires StartsWithIgnoreCase(ms[lookup[e.Key]].OriginalShortName, ".ctor")
    requires Step(ms, lookup, e, prefix).Continue?
    ensures Step(ms, lookup, e, prefix) == Continue(ms, 0, [])
  {
  }

  /**
    The answer of the first finding, cut off after its first complete entry and without a
    fence, is dropped by the merge: nothing changes and nothing is counted.
   */
  lemma TruncatedAnswerChangesNothing(ms: seq<MemberInfo>, entry: string, rest: string, prefix: string, lib: JsonLibrary)
    requires |entry| >= 2 && entry[0] == '{' && entry[|entry| - 1] == '}'
    requires forall k :: !OccursAt(entry, k, JsonHelper.EntryEnd)
    requires JsonHelper.NoFence(entry + "," + rest) && '}' !in rest
    requires rest == [] || !IsWhiteSpace(rest[|rest| - 1])
    requires !lib.parses(entry)
    ensures MergeResponse(ms, entry + "," + rest, prefix, lib) == NoChange(ms)
  {
    JsonHelper.TruncatedAfterCompleteEntryIsLost(entry, rest, lib.parses);
  }

  /**
    An entry counts one exactly when it changes a name, and then it announces that one rename:
    the record's original name, its new name, its kind and its id.
   */
  lemma StepCountsRenames(ms: seq<MemberInfo>, lookup: map<string, nat>, e: PayloadEntry, prefix: string)
    requires LookupInRange(lookup, |ms|) && Step(ms, lookup, e, prefix).Continue?
    ensures var o := Step(ms, lookup, e, prefix);
      o.count == 1 <==> exists j :: 0 <= j < |ms| && o.members[j].CurrentDescriptiveName != ms[j].CurrentDescriptiveName
    ensures var o := Step(ms, lookup, e, prefix);
      o.count == 1 ==>
        (e.Key in lookup &&
         var j := lookup[e.Key];
         o.events == [RenameEvent(ms[j].OriginalShortName, o.members[j].CurrentDescriptiveName, ms[j].MemberType, ms[j].UniqueId)])
  {
    var o := Step(ms, lookup, e, prefix);
    if exists j :: 0 <= j < |ms| && o.members[j].CurrentDescriptiveName != ms[j].CurrentDescriptiveName {
      StepLocal(ms, lookup, e, prefix);
    }
  }

  /** Applying an entry a second time changes nothing. */
  lemma StepSettles(ms: seq<MemberInfo>, lookup: map<string, nat>, e: PayloadEntry, prefix: string)
    requires LookupInRange(lookup, |ms|) && Step(ms, lookup, e, prefix).Continue?
    ensures Settled(Step(ms, lookup, e, prefix).members, lookup, e, prefix)
  {
  }

  /** An entry for another key leaves a settled entry settled. */
  lemma StepKeepsSettled(ms: seq<MemberInfo>, lookup: map<string, nat>, e1: PayloadEntry, e2: PayloadEntry, prefix: string)
    requires LookupInRange(lookup, |ms|) && Injective(lookup) && e1.Key != e2.Key
    requires Step(ms, lookup, e2, prefix).Continue? && Settled(ms, lookup, e1, prefix)
    ensures Settled(Step(ms, lookup, e2, prefix).members, lookup, e1, prefix)
  {
    StepLocal(ms, lookup, e2, prefix);
    var ms' := Step(ms, lookup, e2, prefix).members;
    if e1.Key in lookup {
      var i := lookup[e1.Key];
      assert ms'[i] == ms[i];
    }
  }

  /** After a merge that did not throw, every entry of the payload is settled. */
  lemma {:induction false} MergeSettles(ms: seq<MemberInfo>, lookup: map<string, nat>, es: seq<PayloadEntry>, prefix: string)
    requires LookupInRange(lookup, |ms|) && Injective(lookup) && DistinctKeys(es)
    ensures var r := Merge(ms, lookup, es, prefix);
      !r.aborted ==> forall k :: 0 <= k < |es| ==> Settled(r.members, lookup, es[k], prefix)
    decreases |es|
  {
    if es != [] {
      var n := |es| - 1;
      var front := es[..n];
      var r := Merge(ms, lookup, front, prefix);
      assert DistinctKeys(front);
      MergeSettles(ms, lookup, front, prefix);
      MergeLast(ms, lookup, es, prefix);
      if !r.aborted && Step(r.members, lookup, es[n], prefix).Continue? {
        assert forall k :: 0 <= k < n ==> es[k].Key != es[n].Key;
        StepKeepsAllSettled(r.members, lookup, front, es[n], prefix);
        assert es == front + [es[n]];
      }
    }
  }

  /** An entry for a new key leaves the earlier settled entries settled, and settles itself. */
  lemma StepKeepsAllSettled(ms: seq<MemberInfo>, lookup: map<string, nat>, front: seq<PayloadEntry>, e: PayloadEntry, prefix: string)
    requires LookupInRange(lookup, |ms|) && Injective(lookup) && Step(ms, lookup, e, prefix).Continue?
    requires forall k :: 0 <= k < |front| ==> front[k].Key != e.Key && Settled(ms, lookup, front[k], prefix)
    ensures var ms' := Step(ms, lookup, e, prefix).members;
      forall k :: 0 <= k < |front + [e]| ==> Settled(ms', lookup, (front + [e])[k], prefix)
  {
    var ms' := Step(ms, lookup, e, prefix).members;
    forall k | 0 <= k < |front + [e]|
      ensures Settled(ms', lookup, (front + [e])[k], prefix)
    {
      if k < |front| {
        assert (front + [e])[k] == front[k];
        StepKeepsSettled(ms, lookup, front[k], e, prefix);
      } else {
        StepSettles(ms, lookup, e, prefix);
      }
    }
  }

  /** A payload whose every entry is settled leaves the list as it is. */
  lemma {:induction false} MergeOfSettled(ms: seq<MemberInfo>, lookup: map<string, nat>, es: seq<PayloadEntry>, prefix: string)
    requires LookupInRange(lookup, |ms|)
    requires forall k :: 0 <= k < |es| ==> Settled(ms, lookup, es[k], prefix)
    ensures Merge(ms, lookup, es, prefix) == MergeResult(ms, 0, [], false)
  {
    if es != [] {
      var n := |es| - 1;
      assert forall k :: 0 <= k < n ==> es[..n][k] == es[k];
      MergeOfSettled(ms, lookup, es[..n], prefix);
      assert Settled(ms, lookup, es[n], prefix);
    }
  }

  /** A merge that threw did so at one entry, with the entries before it applied. */
  lemma {:induction false} AbortPoint(ms: seq<MemberInfo>, lookup: map<string, nat>, es: seq<PayloadEntry>, prefix: string) returns (k: nat)
    requires LookupInRange(lookup, |ms|) && Merge(ms, lookup, es, prefix).aborted
    ensures k < |es| && !Merge(ms, lookup, es[..k], prefix).aborted
    ensures Step(Merge(ms, lookup, es[..k], prefix).members, lookup, es[k], prefix).Abort?
    ensures Merge(ms, lookup, es, prefix) == Merge(ms, lookup, es[..k], prefix).(aborted := true)
  {
    var n := |es| - 1;
    if Merge(ms, lookup, es[..n], prefix).aborted {
      k := AbortPoint(ms, lookup, es[..n], prefix);
      assert es[..n][..k] == es[..k] && es[..n][k] == es[k];
    } else {
      k := n;
    }
  }

  /**
    Merging the same payload a second time renames nothing, raises no event and leaves the
    list as the first merge left it; if the first merge threw, so does the second.
   */
  lemma MergeIdempotent(ms: seq<MemberInfo>, lookup: map<string, nat>, es: seq<PayloadEntry>, prefix: string)
    requires LookupInRange(lookup, |ms|) && Injective(lookup) && DistinctKeys(es)
    ensures var r1 := Merge(ms, lookup, es, prefix);
      Merge(r1.members, lookup, es, prefix) == MergeResult(r1.members, 0, [], r1.aborted)
  {
    var r1 := Merge(ms, lookup, es, prefix);
    if !r1.aborted {
      MergeSettles(ms, lookup, es, prefix);
      MergeOfSettled(r1.members, lookup, es, prefix);
    } else {
      var k := AbortPoint(ms, lookup, es, prefix);
      var front := es[..k];
      assert DistinctKeys(front);
      MergeSettles(ms, lookup, front, prefix);
      MergeOfSettled(r1.members, lookup, front, prefix);
      MergeStopsAtAbort(r1.members, lookup, es, prefix, k);
    }
  }

  /** A merge keeps every id and kind in place, so the id lookup and both distinctness conditions survive it. */
  lemma KeepsIds(a: seq<MemberInfo>, b: seq<MemberInfo>)
    requires Keeps(a, b)
    ensures Ids(a) == Ids(b)
    ensures DistinctIds(a) <==> DistinctIds(b)
    ensures NamespaceIdsDistinct(a) <==> NamespaceIdsDistinct(b)
  {
    assert forall i :: 0 <= i < |a| ==> SameMember(a[i], b[i]);
  }

  /** The JSON library reads an object into a dictionary, so a payload never holds a key twice. */
  ghost predicate DictionaryPayloads(lib: JsonLibrary) {
    forall json :: lib.deserialize(json).Some? ==> DistinctKeys(lib.deserialize(json).value)
  }

  /** Merging the same payload text a second time renames nothing and leaves the list as it is. */
  lemma ResubmittedPayloadChangesNothing(ms: seq<MemberInfo>, json: string, prefix: string, lib: JsonLibrary)
    requires DictionaryPayloads(lib)
    ensures var r1 := DeserializeAndMerge(ms, json, prefix, lib);
      DeserializeAndMerge(r1.members, json, prefix, lib) == MergeResult(r1.members, 0, [], r1.aborted)
  {
    var r1 := DeserializeAndMerge(ms, json, prefix, lib);
    if json != [] && lib.deserialize(json).Some? && DistinctIds(ms) {
      var es := lib.deserialize(json).value;
      var lookup := IdLookup(Ids(ms));
      MergePreserves(ms, lookup, es, prefix);
      KeepsIds(ms, r1.members);
      IdLookupInjective(Ids(ms));
      MergeIdempotent(ms, lookup, es, prefix);
    }
  }

  /**
    Sending the same answer back a second time renames nothing, raises no event and leaves
    the list as the first time left it: the pass loop would stop on a zero count.
   */
  lemma ResubmittedAnswerChangesNothing(ms: seq<MemberInfo>, aiResponse: string, prefix: string, lib: JsonLibrary)
    requires DictionaryPayloads(lib)
    ensures var r1 := MergeResponse(ms, aiResponse, prefix, lib);
      MergeResponse(r1.members, aiResponse, prefix, lib) == MergeResult(r1.members, 0, [], r1.aborted)
  {
    if aiResponse != [] {
      match JsonHelper.ExtractAndFixJsonFromResponse(aiResponse, lib.parses)
      case None =>
      case Some(json) =>
        if json != [] {
          ResubmittedPayloadChangesNothing(ms, json, prefix, lib);
        }
    }
  }
}
