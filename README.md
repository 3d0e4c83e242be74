# r.n.Dotnet rename pipeline, modelled in Dafny

r.n.Dotnet renames the obfuscated identifiers of a .NET assembly with the help of a language
model. This project models the pipeline that does the renaming, from the model's free-form answer
to the symbols written back into the module:

- **Response repair** (`json_helper.dfy`, module `JsonHelper`). It pulls a JSON object out of the
  model's answer. It tries the leftmost fenced block first. If there is none, it takes the text
  from the first `{` to the last `}`. It then repairs that text: parse it as it is, cut it after
  the last `},` and close it with `}`, or append one `}`. The fence regex is a spec function: the
  leftmost match, the optional `json` tag, then the shortest `{...}` that whitespace and a closing
  fence follow.
- **Member registry** (`registry.dfy`, module `Registry`, class `MemberInfoManager`). This is the
  master list of records, one per namespace, type, method and field.
  - Population fills it from the module in nested loops.
  - The snapshot sends the records still to be named, or the `{}` sentinel.
  - The merge applies the model's payload in a loop, record by record. Every rename raises a
    `MemberRenamed` notification; the model keeps these in a ghost log.
  - `registry_properties.dfy` proves what population, snapshot and merge guarantee.
- **Assembly renamer** (`renamer.dfy`, module `Renamer`). It writes the names back into the
  module in two ordered passes, in place on the symbol arrays:
  - pass 1 moves top-level types to their renamed namespaces;
  - pass 2 renames types, methods and fields.
  - `renamer_properties.dfy` proves which name every symbol ends up with.
- **One renaming pass** (`renaming_service.dfy`, module `RenamingService`): snapshot, the sentinel
  check, one question to the language model, then the merge of its answer.
- **The run** (`runner.dfy`, module `Runner`).
  - The pass loop stops when every record is named, or after a pass past the first that renamed
    nothing, or at the pass limit.
  - The recommended number of passes is one per started batch of 80 records.
  - The renamed file is called `{base}_renamed_{hash[0..8]}_pass{n}{ext}`.
  - Quotes are stripped from the path the user types.
  - `RenameAssembly` chains population, the passes and the renamer. It shows that every
    registry the run can build meets the renamer's preconditions.

Supporting modules:

- `wrappers.dfy`: `Option`.
- `text.dfy`: the .NET string operations used: `Trim`, `IndexOf`, `LastIndexOf`, `StartsWith`,
  `EndsWith` and `Int32.ToString`. Every comparison is ordinal (see Left out).
- `model.dfy`: the records.
- `symbols.dfy`: dnlib's `ModuleDef`. Its types, methods and fields are arrays, and a record's
  `DnlibMember` is an index into one of them.

## Model

| member | source | states |
|---|---|---|
| JsonHelper.ExtractJsonStringFromMarkdown | Utils/JsonHelper.cs:160-176 | a fenced candidate exists exactly when the pattern matches; it starts with `{`, ends with `}` and is no longer than the response |
| JsonHelper.NoCandidateMeansNoMatch | Utils/JsonHelper.cs:164-175 | there is no fenced candidate exactly when the pattern matches at no position |
| JsonHelper.MarkdownCandidateIsShortest | Utils/JsonHelper.cs:164-171 | the candidate is the group of the leftmost match: from the `{` after the opening fence to the first `}` that whitespace and a closing fence follow |
| JsonHelper.BraceCandidate | Utils/JsonHelper.cs:35-53 | without a fenced block there is no candidate exactly when the text has no `{`; otherwise the candidate starts with `{` |
| JsonHelper.BraceCandidateSpan | Utils/JsonHelper.cs:35-44 | the candidate runs from the first `{` through the last `}` after it, or to the end of the text when no `}` follows |
| JsonHelper.CutAfterLastEntry | Utils/JsonHelper.cs:87-113 | the strategy-2 text exists only when `},` occurs, is no longer than the candidate, and starts with `{` once leading whitespace is dropped |
| JsonHelper.CutAfterLastEntryIsTail | Utils/JsonHelper.cs:88-107 | the strategy-2 text is a tail of the candidate up to and including the `}` of the last `},`, followed by one `}` |
| JsonHelper.FixTruncatedJson | Utils/JsonHelper.cs:60-158 | an empty input gives None; an input whose trim parses is returned trimmed; every result parses and is at most one character longer than the trimmed input |
| JsonHelper.RepairOutcomes | Utils/JsonHelper.cs:71-143 | a result is the trimmed text; or, after a failed parse, the strategy-2 text; or, for a text starting with `{` and not ending with `}`, that text plus one `}` |
| JsonHelper.EntryCutKeepsCompleteEntries | Utils/JsonHelper.cs:87-117 | a text that fails to parse, and whose last complete entry closes into a valid object, is repaired to exactly that prefix plus `}`: later entries are dropped |
| JsonHelper.ExtractAndFixJsonFromResponse | Utils/JsonHelper.cs:14-58 | an empty answer, or one without `{`, gives None; every result parses and is at most one character longer than the answer |
| JsonHelper.FencedPayloadRoundTrip | Utils/JsonHelper.cs:22-77 | a valid object with no fence inside, fenced (with or without `json`) after prose with no fence, comes back unchanged; single backquotes and any text after the block are allowed |
| JsonHelper.InlineBackquotesKept | Utils/JsonHelper.cs:22-30 | an answer whose prose quotes a name in backquotes still yields its fenced object |
| JsonHelper.MarkdownRoundTrip | Utils/JsonHelper.cs:160-171 | the fenced extraction alone gives back the wrapped object, under the same conditions (no fence in the prose before it or in the object) |
| JsonHelper.TruncatedAfterCompleteEntryIsLost | Utils/JsonHelper.cs:35-57 | as written: an unfenced answer cut off after its first complete entry gives None |
| JsonHelper.TruncatedAfterCompleteEntriesLosesLast | Utils/JsonHelper.cs:35-57 | as written: an unfenced answer cut off after any number of complete entries never yields all of them: the result is None or no longer than the entries without their closing `}` |
| JsonHelper.ExtractAndRepairTruncated | Utils/JsonHelper.cs:14-58 | the corrected pipeline keeps every guarantee of the original; it succeeds whenever the original does, and returns the same result for a fenced answer or a brace slice that parses as it is |
| JsonHelper.TruncatedAfterCompleteEntryIsRecovered | Utils/JsonHelper.cs:87-117 | corrected: an unfenced answer cut off after any number of complete entries (which may hold `},` themselves) is repaired to all of them closed with `}` |
| JsonHelper.TwoEntryTruncationExample | Utils/JsonHelper.cs:35-57 | `{"A":{},"B":{},"C":{` gives `{"A":{}}` as written, losing the complete entry B, and `{"A":{},"B":{}}` as corrected |
| Text.TrimEmptyIffAllWhiteSpace | Services/Core/MemberInfoManager.cs:177-178 | a name counts as blank (`Trim()` gives "") exactly when it is all whitespace |
| Text.LastIndexOfStringIsLast | Utils/JsonHelper.cs:88-90 | the search for `},` finds its last occurrence, and fails only when there is none |
| Registry.NamespaceRecord | Services/Core/MemberInfoManager.cs:44-53 | a namespace record is fresh: unnamed, empty description, current name equal to the original |
| Registry.TypeRecord | Services/Core/MemberInfoManager.cs:57-66 | a type record is fresh |
| Registry.MethodRecord | Services/Core/MemberInfoManager.cs:74-83 | a method record is fresh |
| Registry.FieldRecord | Services/Core/MemberInfoManager.cs:89-98 | a field record is fresh |
| Registry.NamespacesOf | Services/Core/MemberInfoManager.cs:33-42 | the set of seen namespaces holds the namespace of every type visited |
| Registry.MemberInfoManager.constructor | Services/Core/MemberInfoManager.cs:20-24 | a new registry holds no record and has raised no notification |
| Registry.MemberInfoManager.PopulateFromModule | Services/Core/MemberInfoManager.cs:26-101 | the list is replaced by the population of the module's types, methods and fields; no notification is raised |
| RegistryProperties.PopulationDescribes | Services/Core/MemberInfoManager.cs:29-99 | every populated record is fresh and is the namespace record of its id or the record of the symbol its handle names; no method named `.ctor` is recorded |
| RegistryProperties.PopulationCovers | Services/Core/MemberInfoManager.cs:35-99 | every namespace, every type, every listed method not named `.ctor`, and every listed field has a record |
| RegistryProperties.PopulationNamespaces | Services/Core/MemberInfoManager.cs:33-54 | each namespace is recorded once, and only namespaces of the module's types are |
| RegistryProperties.PromptMapKeys | Services/Core/MemberInfoManager.cs:106-128 | an id is in the snapshot exactly when some record with that id is unnamed and its original name does not start with `.ctor` |
| RegistryProperties.PromptMapValues | Services/Core/MemberInfoManager.cs:118-128 | the snapshot sends, for an id, the kind, original short name and description of the last eligible record with it |
| Registry.MemberInfoManager.GenerateAIPromptData | Services/Core/MemberInfoManager.cs:103-131 | the snapshot is the serialized dictionary of the eligible records, or `{}` when no record is eligible |
| RegistryProperties.SnapshotSentinel | Services/Core/MemberInfoManager.cs:108-114 | the snapshot is `{}` exactly when no record is eligible (given a serializer that writes `{}` only for an empty dictionary) |
| Registry.MemberInfoManager.UpdateMembersFromAIResponse | Services/Core/MemberInfoManager.cs:133-154 | the list, count and log become those of merging the answer as `ExtractAndFixJsonFromResponse` repairs it; an empty or unrepairable answer changes nothing |
| Registry.MergeResponse | Services/Core/MemberInfoManager.cs:133-154 | merging an answer, through the repair as written, keeps the number of records, and its count is the number of notifications it raises |
| RegistryProperties.TruncatedAnswerChangesNothing | Services/Core/MemberInfoManager.cs:141-151 | an unfenced answer cut off after its first complete entry is dropped: the merge changes nothing and counts 0 |
| Registry.MemberInfoManager.TryDeserializeAndUpdateMasterList | Services/Core/MemberInfoManager.cs:156-218 | the loop over the payload leaves the list, count and log of the merge; an unreadable payload or a repeated id changes nothing |
| Registry.DeserializeAndMerge | Services/Core/MemberInfoManager.cs:156-218 | reading and merging a payload keeps the number of records, and counts exactly its notifications |
| Registry.WithPrefix | Services/Core/MemberInfoManager.cs:180-184 | a name that does not start with the prefix (in any letter case) gets it prepended; one that does is kept as it is; either way the result starts with the prefix |
| Registry.IdLookup | Services/Core/MemberInfoManager.cs:170-175 | every record's id is a key, and each key leads to a record with that id |
| Registry.Step | Services/Core/MemberInfoManager.cs:174-207 | one entry keeps the number of records and raises at most one notification, which it counts |
| Registry.Merge | Services/Core/MemberInfoManager.cs:172-210 | the payload loop keeps the number of records and counts exactly its notifications |
| Registry.MergeStopsAtAbort | Services/Core/MemberInfoManager.cs:165-216 | an entry that throws ends the merge: later entries are not read, earlier updates stay |
| Registry.StepPreserves | Services/Core/MemberInfoManager.cs:189-207 | one entry keeps every record in place, never unnames one, and writes and announces only prefixed names |
| Registry.MergePreserves | Services/Core/MemberInfoManager.cs:172-210 | the whole merge keeps every record in place, never unnames one, and writes and announces only prefixed names |
| RegistryProperties.StepAborts | Services/Core/MemberInfoManager.cs:175-178 | an entry throws exactly when its key is known and its name is `null` |
| RegistryProperties.StepLocal | Services/Core/MemberInfoManager.cs:175-207 | an entry touches at most the record its key names; unknown keys change nothing |
| RegistryProperties.StepIgnoresBlankName | Services/Core/MemberInfoManager.cs:177-178 | an entry whose name is empty or all whitespace changes nothing and counts nothing |
| RegistryProperties.StepAdoptsName | Services/Core/MemberInfoManager.cs:180-207 | an accepted entry (known key, name not blank, original name not starting with `.ctor`) leaves its record named with the prefixed name, with the entry's description when the name changed and its own otherwise; nothing else about the record changes |
| RegistryProperties.StepSkipsConstructorNames | Services/Core/MemberInfoManager.cs:189-207 | an entry for a record whose original name starts with `.ctor` changes nothing |
| RegistryProperties.StepCountsRenames | Services/Core/MemberInfoManager.cs:189-200 | an entry counts one exactly when it changes a name, and then raises the one notification (original name, new name, kind, id) |
| RegistryProperties.StepSettles | Services/Core/MemberInfoManager.cs:189-207 | applying an entry a second time changes nothing |
| RegistryProperties.MergeSettles | Services/Core/MemberInfoManager.cs:172-210 | after a merge that did not throw, every entry of the payload is settled |
| RegistryProperties.MergeIdempotent | Services/Core/MemberInfoManager.cs:172-210 | merging the same entries again changes nothing and counts zero |
| RegistryProperties.ResubmittedPayloadChangesNothing | Services/Core/MemberInfoManager.cs:156-218 | merging the same payload text again returns 0 and leaves the list as it is |
| RegistryProperties.ResubmittedAnswerChangesNothing | Services/Core/MemberInfoManager.cs:133-154 | merging the same answer again returns 0, raises nothing and leaves the list as it is |
| RegistryProperties.KeepsIds | Services/Core/MemberInfoManager.cs:170-170 | a merge keeps every id in place, so the lookup can still be built and namespace ids stay distinct |
| Registry.NamedCount | Services/Core/MemberInfoManager.cs:231-234 | the named count never exceeds the total |
| Registry.MemberInfoManager.GetTotalMembersCount | Services/Core/MemberInfoManager.cs:226-229 | the total is the number of records, and no fewer than the named ones |
| Registry.MemberInfoManager.GetNamedMembersCount | Services/Core/MemberInfoManager.cs:226-234 | named members never outnumber all members |
| RegistryProperties.NamedCountMonotone | Services/Core/MemberInfoManager.cs:189-207 | a merge never lowers the named count |
| RegistryProperties.NamedCountFull | Services/Core/MemberInfoManager.cs:231-234 | the named count equals the total exactly when every record is named |
| Renamer.RetargetNamespaces | Services/Assembly/DnlibAssemblyRenamer.cs:30-52 | pass 1 keeps every type slot |
| Renamer.ApplyRenames | Services/Assembly/DnlibAssemblyRenamer.cs:19-99 | the symbol tables become pass 2 applied to the result of pass 1; the registry is not changed |
| Renamer.RenameNamespaces | Services/Assembly/DnlibAssemblyRenamer.cs:30-52 | the loop over the types leaves the namespaces pass 1 specifies |
| Renamer.RenameMembers | Services/Assembly/DnlibAssemblyRenamer.cs:55-98 | the loop over the records applies them in registry order |
| Renamer.RenameMember | Services/Assembly/DnlibAssemblyRenamer.cs:57-97 | one record renames the symbol its kind and handle name, unless one of the skips applies |
| Renamer.ApplyMembersLast | Services/Assembly/DnlibAssemblyRenamer.cs:55-55 | the records are applied one after the other, in registry order |
| RenamerProperties.NamespaceRenamesKeys | Services/Assembly/DnlibAssemblyRenamer.cs:25-27 | a namespace is a key of the dictionary exactly when a named namespace record with a changed name has it as id |
| RenamerProperties.NamespaceRenamesValues | Services/Assembly/DnlibAssemblyRenamer.cs:25-27 | with distinct keys, a renamed namespace maps to its record's current name |
| RenamerProperties.RetargetNamespacesMoves | Services/Assembly/DnlibAssemblyRenamer.cs:30-51 | only the namespace of a top-level type changes, to the name its record holds (a single lookup, no chaining); nested types and types of unrenamed namespaces keep theirs |
| RenamerProperties.ApplyMemberShape | Services/Assembly/DnlibAssemblyRenamer.cs:70-97 | one record changes at most the name of a symbol |
| RenamerProperties.ApplyMemberSlot | Services/Assembly/DnlibAssemblyRenamer.cs:57-97 | one record renames its own symbol to its current name, unless it is skipped or the method is a constructor, and renames no other |
| RenamerProperties.ApplyMembersShape | Services/Assembly/DnlibAssemblyRenamer.cs:55-98 | pass 2 changes names only: namespaces and constructor flags stay |
| RenamerProperties.ApplyMembersUntouched | Services/Assembly/DnlibAssemblyRenamer.cs:80-89 | a constructor or static constructor, or a symbol no applying record names, keeps its name |
| RenamerProperties.ApplyMembersLastWins | Services/Assembly/DnlibAssemblyRenamer.cs:55-98 | any other symbol ends with exactly the current name of the last applying record that names it |
| RenamerProperties.RegistryFitsModule | Services/Assembly/DnlibAssemblyRenamer.cs:25-27 | every registry populated from the module and merged since yields distinct namespace keys (so the dictionary does not throw) and handles into the module |
| RenamerProperties.StaticConstructorRecordedButKept | Services/Assembly/DnlibAssemblyRenamer.cs:83-83 | a `.cctor` gets a record (the population's test is `.ctor`) but pass 2 never renames it |
| RenamingService.PerformRenamingIteration | Services/AI/AIRenamingService.cs:23-47 | one pass leaves the list, count and log of the merge of the model's answer, or changes nothing when the snapshot is blank or `{}` |
| RenamingService.SettledRegistrySkipsOracle | Services/AI/AIRenamingService.cs:25-32 | with no eligible record the pass asks nothing and changes nothing |
| RenamingService.OracleAskedIffEligible | Services/AI/AIRenamingService.cs:25-46 | the model is asked exactly when some record is eligible, and its answer for this snapshot and pass number is merged |
| RenamingService.IterationPreserves | Services/AI/AIRenamingService.cs:25-46 | a pass keeps every record in place, never unnames one, and writes and announces only prefixed names |
| RenamingService.MergeResponsePreserves | Services/Core/MemberInfoManager.cs:133-154 | merging an answer keeps every record in place and writes only prefixed names |
| RenamingService.DeserializeAndMergePreserves | Services/Core/MemberInfoManager.cs:156-218 | merging a payload keeps every record in place and writes only prefixed names |
| Runner.RunRenamingPasses | Services/Core/ApplicationRunner.cs:147-177 | the loop leaves the list, log and pass counter of the run it specifies |
| Runner.RunCounts | Services/Core/ApplicationRunner.cs:147-177 | at most `maxPasses` passes run, and at least one when any may; the counter is the number of passes run, less one after an early stop, and `maxPasses` otherwise |
| Runner.RunPreserves | Services/Core/ApplicationRunner.cs:150-177 | a run keeps every record in place, never unnames one, writes only prefixed names, and only appends prefixed notifications to the log |
| Runner.IdleRun | Services/Core/ApplicationRunner.cs:162-175 | when no pass can change anything, the run stops after one pass if all records are named, otherwise after two (or one if only one is allowed) |
| Runner.SettledRegistryRun | Services/Core/ApplicationRunner.cs:162-168 | an empty or fully named registry stops after one pass, asks nothing and changes nothing |
| Runner.SilentModelRun | Services/Core/ApplicationRunner.cs:169-175 | a model that never answers runs at most two passes and changes nothing |
| Runner.PartialIffUnnamed | Services/Core/ApplicationRunner.cs:179-193 | the run reports a partial renaming exactly when some record is still unnamed |
| Runner.RecommendedPasses | Services/Core/ApplicationRunner.cs:285-295 | zero passes for no records, otherwise the least number of 80-record batches that covers them all |
| Runner.RenamedFileNameFound | Services/Core/ApplicationRunner.cs:95-96 | every renamed file name contains `_renamed` and `_pass`, so the start-up scan finds it |
| Runner.RenamedFileNameReadBack | Services/Core/ApplicationRunner.cs:297-306 | the base name, the first eight hash characters, the pass counter and the extension can be read back from the file name |
| Text.DecimalRoundTrip | Services/Core/ApplicationRunner.cs:305-305 | the digits written for the pass counter read back as the counter |
| Runner.LoneQuoteThrows | Services/Core/ApplicationRunner.cs:78-83 | as written: the typed path `"` trims to itself and makes the quote stripping throw |
| Runner.StripQuotes | Services/Core/ApplicationRunner.cs:80-83 | corrected: the stripping never lengthens the path |
| Runner.StripQuotesUnquotes | Services/Core/ApplicationRunner.cs:80-83 | a quoted path loses exactly its two quotes; a text not quoted at both ends, or the lone quote, is kept |
| Runner.StripQuotesAgrees | Services/Core/ApplicationRunner.cs:80-83 | the stripping as written throws only on the lone quote, and otherwise agrees with the corrected one |
| Runner.AssemblyPathFromInput | Services/Core/ApplicationRunner.cs:78-83 | as written: the path throws exactly when the input trims to a lone `"`; otherwise it is the trimmed input without its enclosing quotes, never longer than the input |
| Runner.QuotedInputUnquoted | Services/Core/ApplicationRunner.cs:78-83 | a path typed in quotes, with whitespace around it, comes out as the text between the quotes |
| Runner.RenameAssembly | Services/Core/ApplicationRunner.cs:140-196 | population, the passes, the partial/full outcome, both renamer passes and the output name, chained; the renamer's preconditions hold for every run |

## Left out

- The language model's client (`VertexAIClient`) and the prompt builder are not part of this
  model. `Oracle` stands in for both: a function from the snapshot and the pass number to the
  answer text. An exception from the client is not modelled.
- RenamingService.PerformRenamingIteration: the model's answer depends only on the snapshot and
  the pass number; the system instructions and the decompiled code are fixed for a run.
- Newtonsoft.Json is not part of this model. `JsonLibrary` stands in for it with three
  functions: whether `JObject.Parse` accepts a text, what `DeserializeObject` reads, and what
  `SerializeObject` writes. A thrown deserialization becomes `None`, like a `null` result.
- The .NET regex engine is replaced by spec functions for the two patterns used: the fence
  pattern and `^\.ctor$` with `IgnoreCase`.
- Letter case is folded for ASCII letters only, in `OrdinalIgnoreCase` and `IgnoreCase`.
- .NET `null` strings are modelled as `""`, except where the source tells `null` apart: a `null`
  `DescriptiveName` throws, and a missing `Description` is stored as `null` (`None`).
- dnlib's loading, the decompiler, the SHA-256 hasher and `ModuleDef.Write` are not part of this
  model. A module is three arrays of symbols.
- Renamer.RenameNamespaces: a symbol's `FullName` is not recomputed when its name or namespace
  changes.
- Renamer.ApplyRenames: it requires distinct keys for the namespace dictionary, where the source
  would throw from `ToDictionary`. It also requires handles inside the module.
  RenamerProperties.RegistryFitsModule proves both hold for every registry built by population
  and merges.
- Logging, console output and colours, and the `OnMemberRenamed` printer are left out. The
  notifications are kept as a ghost log instead.
- The interactive console is not part of this model.
  - The prefix, the pass limit, the file hash and the path pieces are parameters.
  - The console always gives a pass limit of at least 1; the loop also accepts 0.
  - `Path.GetFileNameWithoutExtension`, `Path.GetExtension` and `Path.Combine` are not modelled:
    the file name is built from the base name and the extension, without the directory.
- Runner.RecommendedPasses: `Math.Ceiling(total / 80.0)` is modelled as the integer ceiling
  `(total + 79) / 80`. The two agree for every `int` total, so the source's guard that raises a
  zero to one never fires.
- Integer overflow of the counters is not modelled: all counts are unbounded naturals.
- The start-up scan for earlier runs, the summary-only mode and the malware summary report are
  left out. So is `async`/`await`.
- The corrected repair `ExtractAndRepairTruncated` of the first finding is stated and proved on its
  own: when the brace slice does not parse, it repairs the text from the first `{` to the end
  first and falls back to the slice. The merge, the pass, the run and `RenameAssembly` all use the repair as written.
- `StartsWith("{")`, `EndsWith("}")`, `LastIndexOf("},")`, and `StartsWith("\"")`/`EndsWith("\"")`
  are called without a `StringComparison`. They are at Utils/JsonHelper.cs:88, 100, 134 and 168,
  and at Services/Core/ApplicationRunner.cs:80. In .NET these calls are culture-sensitive and skip
  ignorable code points such as U+00AD or U+0000. The model compares ordinally, so text that
  carries such code points next to a brace or a quote is not modelled.

## Findings

| source | as written | input that shows it | evidently intended | confidence | as-written member | corrected member |
|---|---|---|---|---|---|---|
| Utils/JsonHelper.cs:35-57 | Without a fenced block, the candidate is cut at its last `}` before any repair runs. For an answer truncated after complete entries, that cut removes the `,` after the last complete entry. Strategy 2 then cuts at the `},` before it, or, with only one complete entry, finds no `},`; the cut text ends in `}`, so strategy 3 does not apply. Either way the last complete entry is lost, with no error when earlier entries remain. | `{"A":{"DescriptiveName":"X"},"B":{"DescriptiveName":"Y"` gives nothing; `{"A":{},"B":{},"C":{` gives `{"A":{}}` | Every complete entry is kept: `{"A":{"DescriptiveName":"X"}}` and `{"A":{},"B":{}}`, which is what the `},` strategy exists for | medium; not executed | JsonHelper.TruncatedAfterCompleteEntriesLosesLast | JsonHelper.TruncatedAfterCompleteEntryIsRecovered |
| Services/Core/ApplicationRunner.cs:78-83 | A typed path that trims to a lone `"` both starts and ends with `"`. `Substring(1, Length - 2)` is then called with a length of -1 and throws, ending the run. | `"` | The input reaches the missing-file message of lines 85-91 | high; not executed | Runner.LoneQuoteThrows | Runner.StripQuotesAgrees |
