/**
  The symbols of a loaded .NET module, as far as the rename pipeline sees them. Each kind of
  symbol sits in an array of its own and is named by its index there; renaming a symbol
  overwrites its slot.
 */
module Symbols {
  /**
    A type definition. `Namespace` is "" for the global namespace (dnlib's null or empty);
    `Methods` and `Fields` are indices into the module's method and field arrays.
   */
  datatype TypeDef = TypeDef(
    Name: string,
    Namespace: string,
    FullName: string,
    IsNested: bool,
    Methods: seq<nat>,
    Fields: seq<nat>)

  /** A method definition with the two constructor flags dnlib computes. */
  datatype MethodDef = MethodDef(Name: string, FullName: string, IsConstructor: bool, IsStaticConstructor: bool)

  /** A field definition. */
  datatype FieldDef = FieldDef(Name: string, FullName: string)

  /**
    `ModuleDef`: every type of the module (`GetTypes()`, nested ones included; the top-level
    ones, `Types`, are those not nested), and the methods and fields they declare.
   */
  class ModuleDef {
    const types: array<TypeDef>
    const methods: array<MethodDef>
    const fields: array<FieldDef>

    /** Every method and field a type lists exists. */
    predicate Valid()
      reads this, types
    {
      forall i :: 0 <= i < types.Length ==> WellIndexed(types[i], methods.Length, fields.Length)
    }

    constructor(ts: seq<TypeDef>, ms: seq<MethodDef>, fs: seq<FieldDef>)
      ensures types[..] == ts && methods[..] == ms && fields[..] == fs
      ensures fresh(types) && fresh(methods) && fresh(fields)
    {
      types := new TypeDef[|ts|](i requires 0 <= i < |ts| => ts[i]);
      methods := new MethodDef[|ms|](i requires 0 <= i < |ms| => ms[i]);
      fields := new FieldDef[|fs|](i requires 0 <= i < |fs| => fs[i]);
    }
  }

  /** The method and field indices of `t` are below the given counts. */
  predicate WellIndexed(t: TypeDef, methodCount: nat, fieldCount: nat) {
    (forall j :: 0 <= j < |t.Methods| ==> t.Methods[j] < methodCount)
    && (forall j :: 0 <= j < |t.Fields| ==> t.Fields[j] < fieldCount)
  }
}
