/**
  The records the rename pipeline passes around: a registry entry per nameable member, the
  rename notifications it raises, the payload read back from the model's answer, the prompt
  snapshot sent to it, and the JSON library the pipeline leans on.
 */
module Model {
  import opened Wrappers

  /** `MemberInfo.MemberType`: the source keeps it as one of four strings. */
  datatype MemberKind = Namespace | Class | Method | Field

  /** `MemberInfo.DnlibMember`: which symbol of the loaded module a record stands for. */
  datatype Handle = TypeHandle(t: nat) | MethodHandle(m: nat) | FieldHandle(f: nat)

  /**
    One registry record. `Description` is None where the source holds null; `DnlibMember`
    is None for namespace records, which have no symbol of their own.
   */
  datatype MemberInfo = MemberInfo(
    UniqueId: string,
    OriginalShortName: string,
    CurrentDescriptiveName: string,
    MemberType: MemberKind,
    Description: Option<string>,
    IsNamed: bool,
    DnlibMember: Option<Handle>)

  /** The arguments of one `MemberRenamed` notification. */
  datatype RenameEvent = RenameEvent(OldName: string, NewName: string, MemberType: MemberKind, UniqueId: string)

  /**
    The `DescriptiveName` field of a payload entry: missing (or the whole entry null), JSON
    `null`, or a string.
   */
  datatype NameField = Absent | NullName | Name(value: string)

  /** One `key: { "DescriptiveName": ..., "Description": ... }` entry of the model's answer. */
  datatype PayloadEntry = PayloadEntry(Key: string, DescriptiveName: NameField, Description: Option<string>)

  /** The value the snapshot sends for one record: its kind, original short name and description. */
  datatype PromptEntry = PromptEntry(Type: MemberKind, DescriptiveName: string, Description: Option<string>)

  /**
    The JSON library, which is not part of this model: whether `JObject.Parse` accepts a text,
    what `DeserializeObject` reads from it (None when it returns null or throws), and what
    `SerializeObject` writes for the prompt dictionary.
   */
  datatype JsonLibrary = JsonLibrary(
    parses: string -> bool,
    deserialize: string -> Option<seq<PayloadEntry>>,
    serialize: map<string, PromptEntry> -> string)
}
