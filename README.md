# OneBuild configuration resolver — a Dafny model

OneBuild is a Unity editor extension that drives player builds from layered XML config files.
This project models the part of `OneBuild.cs` that turns inputs into the table build code queries.
The inputs are a version string and a directory of tagged config files. The output is a
case-insensitive table from key to `string[]`.

- **Version composition** (`Version`): `GetVersion` joins the persisted version text and an extra
  tag with a single comma.
- **Tag weighting and file selection** (`Selection`, `Ordering`):
  - Each version tag weighs 10 and the build target group's name weighs 1.
  - A file's base name is split at dots into distinct segments.
  - A file takes part when every segment, trimmed and lower-cased, is a tag. Its score is the sum
    of its segments' weights, each looked up as written.
  - Files are merged in stable ascending score order.
- **Merging** (`Xml`, `Merge`, `Config`):
  - Each top-level element of a document becomes `name → values`. An element with child elements
    yields their texts; otherwise it yields its own text.
  - A later document overrides an earlier one, except for the keys of the `append` table. There,
    slot 0 accumulates with the key's separator.
  - `Merge` states this on values. `Config.ConfigTable` is the dictionary of mutable arrays the
    source fills in place, proved against `Merge`.
- **Template expansion** (`Template`, `Config.ConfigTable.ReplaceTemplates`):
  - `{$Name}` and `{$Name,Format}` placeholders are found by the pattern `\{\$(.*?)(\,(.*))?\}`.
  - A placeholder is replaced by the recursive expansion of another key's first slot, formatted,
    or by a global variable.
  - A reference to the key being expanded fails, and so does a reference back to the start key.
    An unknown name fails too.
  - Slots are rewritten in place, key by key, in a snapshot of the key order.
- **Typed access** (`Access`, `Enums`): `Contains`, `Get`, and the two `Get<T>` overloads, with
  default-or-throw semantics. `ParseEnum` reads a `[Flags]` enum's spaces as separators.
- **Pre-build callback order** (`Callbacks`): the sort key of `BuildPlayer`'s callbacks. An
  attribute's `CallbackOrder` comes first. Otherwise a name `PreProcessBuildN` gives N,
  `PreProcessBuild_N` gives −N, and a bare `PreProcessBuild…` gives 0. Callbacks run in stable
  ascending order.

Exceptions become `Err` values of `Wrappers.Error`, one constructor per throw site or runtime
failure. The source recurses through templates without bound; the model takes a depth bound
`fuel` and fails with `TooDeep` when it runs out. `Template.ExpandFuel` shows that more depth
changes nothing else.

Two facts about the code that a reader might not expect:

- `base.xml` is selected only when `base` is a version tag or the platform name
  (`OneBuild.cs:238-239`). Its one segment must pass the same test as any other. Only a file whose
  base name has no segments (for instance `.xml`) is selected with score 0.
- Loop detection catches only cycles that pass through the start key
  (`Template.MutualReference`). A cycle that avoids it, such as A → B → C → B, recurses until the
  depth bound runs out (`Template.CycleExhaustsDepth`).

## Model

All source paths are under `src/OneBuildUnity/Assets/Plugins/OneBuild/Editor/`.

| member | source | states |
|---|---|---|
| Version.GetVersion | src/OneBuildUnity/Assets/Plugins/OneBuild/Editor/OneBuild.cs:167-195 | A null or empty argument gives the trimmed stored version. An empty stored version gives the trimmed argument. Otherwise the result is the stored version, one comma (none added when it already ends with ","), then the trimmed argument. |
| Version.GetVersionTags | src/OneBuildUnity/Assets/Plugins/OneBuild/Editor/OneBuild.cs:167-195 | The tags of the composed version are exactly the stored version's tags plus the argument's: joining never merges, splits or loses a tag. |
| Version.DebugOnFreshProject | src/OneBuildUnity/Assets/Plugins/OneBuild/Editor/OneBuild.cs:177-183 | With no version file, the "debug" build's version is "debug", with the single tag "debug". |
| Selection.PieceWeights | src/OneBuildUnity/Assets/Plugins/OneBuild/Editor/OneBuild.cs:220-227 | The version loop builds `PieceMap`: each non-blank piece, trimmed and lower-cased, is set to 10, piece by piece. |
| Selection.PieceMapTags | src/OneBuildUnity/Assets/Plugins/OneBuild/Editor/OneBuild.cs:220-227 | After n pieces, the loop's keys are exactly the tags of those pieces. |
| Selection.PieceMapWeights | src/OneBuildUnity/Assets/Plugins/OneBuild/Editor/OneBuild.cs:225 | Every key the loop sets has weight 10. |
| Selection.VersionWeights | src/OneBuildUnity/Assets/Plugins/OneBuild/Editor/OneBuild.cs:218-228 | The version weights have exactly the version's tags as keys (none for an empty version), each weighing 10. |
| Selection.TagWeights | src/OneBuildUnity/Assets/Plugins/OneBuild/Editor/OneBuild.cs:218-232 | Adding the platform fails exactly when its lower-cased name is already a version tag. Otherwise the keys are the version tags plus the platform, weighing 10 and 1. |
| Selection.WeightKeysNormal | src/OneBuildUnity/Assets/Plugins/OneBuild/Editor/OneBuild.cs:222-232 | Every weight key is already trimmed and lower-cased. |
| Selection.BaseName | src/OneBuildUnity/Assets/Plugins/OneBuild/Editor/OneBuild.cs:236 | The base name is the file name up to its last dot, or the whole name when it has no dot. |
| Selection.Score | src/OneBuildUnity/Assets/Plugins/OneBuild/Editor/OneBuild.cs:241 | The score lookup succeeds exactly when every segment, as written, is a weight key. |
| Selection.AssessSucceeds | src/OneBuildUnity/Assets/Plugins/OneBuild/Editor/OneBuild.cs:238-241 | For an eligible file, the score lookup succeeds exactly when no segment needs trimming or lower-casing. A segment such as "Debug" passes the eligibility test and then fails the lookup. |
| Selection.ScoreCounts | src/OneBuildUnity/Assets/Plugins/OneBuild/Editor/OneBuild.cs:241 | A successful score is 10 per segment that is a version tag plus 1 per segment that is the platform. |
| Selection.CandidatesFail | src/OneBuildUnity/Assets/Plugins/OneBuild/Editor/OneBuild.cs:234-243 | The directory scan fails exactly when some eligible file has a segment that is not a weight key as written. |
| Selection.CandidatesExact | src/OneBuildUnity/Assets/Plugins/OneBuild/Editor/OneBuild.cs:234-243 | A successful scan keeps exactly the eligible files, in listing order. |
| Selection.CandidatesScored | src/OneBuildUnity/Assets/Plugins/OneBuild/Editor/OneBuild.cs:241 | Every selected file carries its own score. |
| Selection.SelectFiles | src/OneBuildUnity/Assets/Plugins/OneBuild/Editor/OneBuild.cs:234-243 | The scanning loop computes `Candidates`: the scored eligible files, or the first file's lookup failure. |
| Selection.MergeOrder | src/OneBuildUnity/Assets/Plugins/OneBuild/Editor/OneBuild.cs:249 | The merge order is ascending by score and a permutation of the selected files. Files with equal scores keep their listing order. |
| Ordering.OrderByCorrect | src/OneBuildUnity/Assets/Plugins/OneBuild/Editor/OneBuild.cs:249 | `OrderBy` sorts by key and keeps every element. It is stable: for each key value, the elements with that key keep their input order. |
| Ordering.InsertLast | src/OneBuildUnity/Assets/Plugins/OneBuild/Editor/OneBuild.cs:249 | Inserting x into a sorted sequence makes x the last element with a property p when p(x) holds and no element with p has a greater key. Otherwise the last element with p is unchanged. |
| Ordering.OrderByLast | src/OneBuildUnity/Assets/Plugins/OneBuild/Editor/OneBuild.cs:249 | After `OrderBy`, the last element with a property p is the one with the greatest key among those with p, the later one in input order on a tie. |
| Text.TrimEnd | src/OneBuildUnity/Assets/Plugins/OneBuild/Editor/OneBuild.cs:314 | The result is a prefix of the input. It does not end in white space, and everything dropped is white space. |
| Text.Split | src/OneBuildUnity/Assets/Plugins/OneBuild/Editor/OneBuild.cs:220 | Splitting yields at least one piece, and no piece holds a separator. |
| Text.SplitAtSeparator | src/OneBuildUnity/Assets/Plugins/OneBuild/Editor/OneBuild.cs:220 | Splitting `a + sep + b` gives the pieces of `a` followed by the pieces of `b`. |
| Text.NonEmpty | src/OneBuildUnity/Assets/Plugins/OneBuild/Editor/OneBuild.cs:236 | The empty pieces are removed, and every other piece stays. |
| Text.Distinct | src/OneBuildUnity/Assets/Plugins/OneBuild/Editor/OneBuild.cs:237 | The result has the same elements as the input, each exactly once. |
| Xml.Elements | src/OneBuildUnity/Assets/Plugins/OneBuild/Editor/OneBuild.cs:256 | The result holds exactly the element nodes among the children, and no other node. |
| Xml.ElementsAppend | src/OneBuildUnity/Assets/Plugins/OneBuild/Editor/OneBuild.cs:256 | `SelectNodes("*")` keeps document order: the elements of two runs of children are those of the first run, then those of the second. |
| Xml.EntryValues | src/OneBuildUnity/Assets/Plugins/OneBuild/Editor/OneBuild.cs:294-306 | An element with k > 0 child elements yields exactly their k texts, in document order. Otherwise it yields a one-slot array of its own text. |
| Merge.DocumentEntries | src/OneBuildUnity/Assets/Plugins/OneBuild/Editor/OneBuild.cs:256-306 | A document contributes one entry per child element of its document element, in document order, each with its local name and value array. |
| Merge.Joined | src/OneBuildUnity/Assets/Plugins/OneBuild/Editor/OneBuild.cs:322-329 | The new slot 0 is the old text, a middle part, then the new value. The middle is either empty or exactly the separator. It is empty exactly when the old text already ends with the separator, so the old text plus the middle always ends with it. |
| Merge.MergeEntry | src/OneBuildUnity/Assets/Plugins/OneBuild/Editor/OneBuild.cs:307-335 | After one merge step, the key is present, other keys keep their arrays, and the table stays valid. A new key joins the end of the key order. An append key with a non-blank slot 0 keeps its array's length and slots 1 and on, and its slot 0 becomes `Joined(TrimEnd(old), sep, new[0])`. Any other key takes the new array. |
| Merge.MergeEntries | src/OneBuildUnity/Assets/Plugins/OneBuild/Editor/OneBuild.cs:256-336 | Merging a document keeps the table valid, keeps every key, and makes every entry's name a key. |
| Merge.MergeDocuments | src/OneBuildUnity/Assets/Plugins/OneBuild/Editor/OneBuild.cs:249-339 | Merging the selected documents in order leaves a valid table. It keeps every key the table already had and makes every element name of every document a key. |
| Merge.MergeDocumentsFlat | src/OneBuildUnity/Assets/Plugins/OneBuild/Editor/OneBuild.cs:249-336 | Merging documents one after another is the same as merging all their elements, document after document, in a single run. |
| Merge.LastNaming | src/OneBuildUnity/Assets/Plugins/OneBuild/Editor/OneBuild.cs:307-335 | The last element naming a key, ignoring case, is one of the elements and has that name. There is none exactly when no element names the key. |
| Merge.LastNamingWins | src/OneBuildUnity/Assets/Plugins/OneBuild/Editor/OneBuild.cs:332-335 | For a non-append key, a run of elements leaves the value array of the last element that names it. |
| Merge.LastDefining | src/OneBuildUnity/Assets/Plugins/OneBuild/Editor/OneBuild.cs:249-256 | The last document that defines a key is one of the documents and defines it. There is none exactly when no document defines the key. |
| Merge.DocumentsLastWins | src/OneBuildUnity/Assets/Plugins/OneBuild/Editor/OneBuild.cs:249-335 | Across documents, a non-append key holds the array of the last element naming it in the last document defining it. |
| Merge.MergeDocumentsUntouched | src/OneBuildUnity/Assets/Plugins/OneBuild/Editor/OneBuild.cs:249-336 | A key that no document defines keeps the array it had before the merge. |
| Merge.MergeEntriesKeys | src/OneBuildUnity/Assets/Plugins/OneBuild/Editor/OneBuild.cs:256-336 | The key set grows by exactly the folded names of the merged elements. |
| Merge.MergeEntriesUntouched | src/OneBuildUnity/Assets/Plugins/OneBuild/Editor/OneBuild.cs:256-336 | A key that no merged element names keeps its value array. |
| Merge.LastWins | src/OneBuildUnity/Assets/Plugins/OneBuild/Editor/OneBuild.cs:332-335 | For a non-append key, the value array is the one from the last element that names it. |
| Merge.AccumulateOne | src/OneBuildUnity/Assets/Plugins/OneBuild/Editor/OneBuild.cs:320-329 | A further value of an append key is joined onto slot 0 with the separator. |
| Merge.AppendJoins | src/OneBuildUnity/Assets/Plugins/OneBuild/Editor/OneBuild.cs:307-331 | Three entries merged in turn, each setting an append key to one value, accumulate the values with its separator. For ScriptingDefineSymbols, "a", "b", "c" give "a;b;c". |
| Merge.AppendAcrossDocuments | src/OneBuildUnity/Assets/Plugins/OneBuild/Editor/OneBuild.cs:249-331 | Three documents, each holding only an append key with one value, merge to a table with just that key, whose one slot is the three values joined by the key's separator. |
| Config.ConfigTable.constructor | src/OneBuildUnity/Assets/Plugins/OneBuild/Editor/OneBuild.cs:207 | The resolver starts from an empty, valid table. |
| Config.ConfigTable.Put | src/OneBuildUnity/Assets/Plugins/OneBuild/Editor/OneBuild.cs:318 | `configs[key] = values` binds the key to the new array. A new key joins the end of the key order, and nothing else changes. |
| Config.ConfigTable.SetSlot | src/OneBuildUnity/Assets/Plugins/OneBuild/Editor/OneBuild.cs:821 | Writing one slot of a key's array changes that slot only. No other key shares the array. |
| Config.ConfigTable.Reset | src/OneBuildUnity/Assets/Plugins/OneBuild/Editor/OneBuild.cs:310-318 | An append key whose slot 0 is blank once trimmed has that slot trimmed in place, then takes the new array. |
| Config.ConfigTable.Accumulate | src/OneBuildUnity/Assets/Plugins/OneBuild/Editor/OneBuild.cs:309-329 | Extending slot 0 in place has the effect of `Merge.MergeEntry`. |
| Config.ConfigTable.Override | src/OneBuildUnity/Assets/Plugins/OneBuild/Editor/OneBuild.cs:307-335 | Replacing a key's array has the effect of `Merge.MergeEntry`. It only adds the new array, which it does not write. |
| Config.ConfigTable.MergeEntry | src/OneBuildUnity/Assets/Plugins/OneBuild/Editor/OneBuild.cs:307-335 | One merge step on the dictionary of arrays has the effect of `Merge.MergeEntry` on its contents. |
| Config.ConfigTable.ReadValues | src/OneBuildUnity/Assets/Plugins/OneBuild/Editor/OneBuild.cs:294-306 | The value loop fills a fresh array with `Xml.EntryValues`. |
| Config.ConfigTable.MergeNode | src/OneBuildUnity/Assets/Plugins/OneBuild/Editor/OneBuild.cs:258-335 | One element is read and merged under its local name; its effect is `Merge.MergeEntry`. |
| Config.ConfigTable.MergeDocument | src/OneBuildUnity/Assets/Plugins/OneBuild/Editor/OneBuild.cs:256-336 | The element loop of one document has the effect of `Merge.MergeEntries` over its entries. |
| Config.ConfigTable.GetArray | src/OneBuildUnity/Assets/Plugins/OneBuild/Editor/OneBuild.cs:748-760 | `Get<string[]>` finds a key exactly when `Contains` does. It returns the array object stored under the key, not a copy, and that array holds the key's values in the table's contents. |
| Config.ConfigTable.ReplaceKey | src/OneBuildUnity/Assets/Plugins/OneBuild/Editor/OneBuild.cs:811-823 | The slot loop of one key computes `Template.ReplaceSlots`: the final table, or its first error. |
| Config.ConfigTable.ReplaceTemplates | src/OneBuildUnity/Assets/Plugins/OneBuild/Editor/OneBuild.cs:806-825 | The in-place pass computes `Template.ReplaceTemplates`: the final table, or its first error. |
| Config.MergeFiles | src/OneBuildUnity/Assets/Plugins/OneBuild/Editor/OneBuild.cs:249-339 | The file loop fills a fresh table equal to `Merge.MergeDocuments` over the files, in the given order. |
| Config.Load | src/OneBuildUnity/Assets/Plugins/OneBuild/Editor/OneBuild.cs:205-355 | Loading yields a valid table. A duplicate platform tag fails before any file is read. |
| Config.LoadConfig | src/OneBuildUnity/Assets/Plugins/OneBuild/Editor/OneBuild.cs:205-355 | The imperative load succeeds exactly when `Load` does. Its fresh table holds `Load`'s value, and its error is `Load`'s error. |
| Config.WinningRoot | src/OneBuildUnity/Assets/Plugins/OneBuild/Editor/OneBuild.cs:234-249 | Of the files that define a key, the one with the highest score, the later one in listing order on a tie, supplies the last defining document in merge order. |
| Config.HighestScoreWins | src/OneBuildUnity/Assets/Plugins/OneBuild/Editor/OneBuild.cs:234-335 | After the merge, a non-append key holds the array of the last element naming it in the highest-scoring file that defines it (the later one in listing order on a tie). |
| Template.MatchAt | src/OneBuildUnity/Assets/Plugins/OneBuild/Editor/OneBuild.cs:783 | A match starts where it is sought and spans at least `{$}`. |
| Template.MatchAtText | src/OneBuildUnity/Assets/Plugins/OneBuild/Editor/OneBuild.cs:783 | A match is the text `{$name}` or `{$name,format}`. The name holds no ',', '}' or line break, and the format holds no line break. |
| Template.MatchAtGreedy | src/OneBuildUnity/Assets/Plugins/OneBuild/Editor/OneBuild.cs:783 | The format group is greedy: after a formatted placeholder, no '}' is left on its line. |
| Template.MatchAtNone | src/OneBuildUnity/Assets/Plugins/OneBuild/Editor/OneBuild.cs:783 | A `{$` opens no match only when the name runs into the end of the line, or a ',' has no '}' after it on the line. |
| Template.NextMatch | src/OneBuildUnity/Assets/Plugins/OneBuild/Editor/OneBuild.cs:818 | The next match is the leftmost one: no match starts between the search position and it. |
| Template.ReplaceTemplate | src/OneBuildUnity/Assets/Plugins/OneBuild/Editor/OneBuild.cs:790-801 | A null `func` throws `ArgumentNullException("func")`, and only a null `func` fails. |
| Template.ReplaceTemplateLeftmost | src/OneBuildUnity/Assets/Plugins/OneBuild/Editor/OneBuild.cs:790-801 | Replacement works left to right: the text before the leftmost match is kept, the match becomes `func(name, format)`, and the rest is replaced from the end of the match on. |
| Template.ReplaceAllUnmatched | src/OneBuildUnity/Assets/Plugins/OneBuild/Editor/OneBuild.cs:794-800 | Text without a match comes back unchanged. |
| Template.ApplyFormat | src/OneBuildUnity/Assets/Plugins/OneBuild/Editor/OneBuild.cs:845-848 | An empty format leaves the value as it is. Otherwise the result fails exactly when `string.Format` rejects the format, and on success it is the formatted text. |
| Template.RenderGlobal | src/OneBuildUnity/Assets/Plugins/OneBuild/Editor/OneBuild.cs:850-862 | A global is formatted only when a format is given and it is formattable. Then the result fails exactly when the format is rejected, and on success it is the rendered text. Otherwise it yields its `ToString()` text. |
| Template.FirstPlaceholderErrors | src/OneBuildUnity/Assets/Plugins/OneBuild/Editor/OneBuild.cs:837-866 | The first placeholder decides the failures. Naming the key being expanded, ignoring case, gives "reference self". Naming the start key gives "loop reference". A name that is neither a config key nor a global gives "not found key". |
| Template.ExpandOkNames | src/OneBuildUnity/Assets/Plugins/OneBuild/Editor/OneBuild.cs:829-868 | A successful expansion met only names that are neither the key nor the start key, and that are config keys or globals. |
| Template.KeyPlaceholderExpands | src/OneBuildUnity/Assets/Plugins/OneBuild/Editor/OneBuild.cs:842-849 | `{$Name}` naming another config key expands to the expansion of that key's slot 0, one level deeper, with that key as the one being expanded. |
| Template.KeyPlaceholderFormatted | src/OneBuildUnity/Assets/Plugins/OneBuild/Editor/OneBuild.cs:842-849 | `{$Name,Format}` naming another config key fails when the inner expansion fails. Otherwise it is the inner text passed through the format. |
| Template.GlobalPlaceholder | src/OneBuildUnity/Assets/Plugins/OneBuild/Editor/OneBuild.cs:850-862 | `{$Name,Format}` naming a global that is not a config key renders the global with that format. |
| Template.ExpandFormattedSingle | src/OneBuildUnity/Assets/Plugins/OneBuild/Editor/OneBuild.cs:829-868 | A value that is a single `{$Name,Format}` expands to the resolution of that name with that format. |
| Template.ExpandFuel | src/OneBuildUnity/Assets/Plugins/OneBuild/Editor/OneBuild.cs:842-849 | More depth changes nothing but a depth failure. |
| Template.ResolveFuel | src/OneBuildUnity/Assets/Plugins/OneBuild/Editor/OneBuild.cs:842-849 | More depth changes a single resolution only where it failed for depth. |
| Template.ExpandIsReplace | src/OneBuildUnity/Assets/Plugins/OneBuild/Editor/OneBuild.cs:827-870 | A successful `FindReplaceString` is `ReplaceTemplate(value, func)` with the resolver as `func`. |
| Template.ExpandPlaceholderThen | src/OneBuildUnity/Assets/Plugins/OneBuild/Editor/OneBuild.cs:829-868 | `{$Name}` followed by plain text expands to the name's resolution followed by that text. |
| Template.ExpandSingle | src/OneBuildUnity/Assets/Plugins/OneBuild/Editor/OneBuild.cs:829-868 | A value that is a single `{$Name}` expands to the name's resolution. |
| Template.ReplaceSlots | src/OneBuildUnity/Assets/Plugins/OneBuild/Editor/OneBuild.cs:814-823 | Rewriting one key's slots keeps every key and every array's length. |
| Template.ReplaceKeys | src/OneBuildUnity/Assets/Plugins/OneBuild/Editor/OneBuild.cs:809-824 | Rewriting the keys of the snapshot keeps every key and every array's length. |
| Template.ReplaceTemplates | src/OneBuildUnity/Assets/Plugins/OneBuild/Editor/OneBuild.cs:806-825 | A successful pass leaves a valid table of the same shape. |
| Template.ReplaceSlotsFrame | src/OneBuildUnity/Assets/Plugins/OneBuild/Editor/OneBuild.cs:814-823 | Rewriting one key leaves the other keys alone, and leaves its own slots without a match as they were. |
| Template.ReplaceKeysUnmatched | src/OneBuildUnity/Assets/Plugins/OneBuild/Editor/OneBuild.cs:806-825 | Slots without a match are left untouched by the whole pass. |
| Template.ReplaceKeysOthers | src/OneBuildUnity/Assets/Plugins/OneBuild/Editor/OneBuild.cs:809 | Keys outside the snapshot keep their arrays. |
| Template.CycleExhaustsDepth | src/OneBuildUnity/Assets/Plugins/OneBuild/Editor/OneBuild.cs:837-844 | A = "{$B}", B = "{$C}", C = "{$B}" is never reported as a loop: expanding A exhausts any depth bound. |
| Template.MutualReference | src/OneBuildUnity/Assets/Plugins/OneBuild/Editor/OneBuild.cs:839-844 | With A = "{$B}" and B = "{$A}", expanding A fails with "loop reference" at B. |
| Template.MutualReferenceFails | src/OneBuildUnity/Assets/Plugins/OneBuild/Editor/OneBuild.cs:806-844 | The whole pass over that table fails with the same loop reference. |
| Template.ChainExpands | src/OneBuildUnity/Assets/Plugins/OneBuild/Editor/OneBuild.cs:806-849 | A = "X", B = "{$A}-Y" ends as A = "X", B = "X-Y". |
| Access.GetOr | src/OneBuildUnity/Assets/Plugins/OneBuild/Editor/OneBuild.cs:748-782 | `Get<T>(name, d)` gives d for a missing key. |
| Access.Get | src/OneBuildUnity/Assets/Plugins/OneBuild/Editor/OneBuild.cs:740-766 | `Get<T>(name)` throws "Not Key" exactly when the key is missing. Otherwise it is `Get<T>(name, default(T))`: the stored array for `string[]`, and slot 0 for `string`. |
| Access.GetString | src/OneBuildUnity/Assets/Plugins/OneBuild/Editor/OneBuild.cs:735-738 | `Get(name)` throws exactly when the key is missing, and otherwise returns slot 0. |
| Access.GetIgnoresCase | src/OneBuildUnity/Assets/Plugins/OneBuild/Editor/OneBuild.cs:730-782 | Two spellings of a name that differ only in case read the same entry. |
| Access.GetLastWins | src/OneBuildUnity/Assets/Plugins/OneBuild/Editor/OneBuild.cs:759-766 | For a non-append key, `Get<string[]>` and `Get<string>` read the array, and its slot 0, of the last element that names it. |
| Access.GetStringPresent | src/OneBuildUnity/Assets/Plugins/OneBuild/Editor/OneBuild.cs:762-766 | `Get<string>` on a present key is its slot 0, never the default. |
| Access.GetEnumNumber | src/OneBuildUnity/Assets/Plugins/OneBuild/Editor/OneBuild.cs:768-771 | An enum value stored as a decimal number in `int` range reads back as that number. |
| Access.GetEnumInvalid | src/OneBuildUnity/Assets/Plugins/OneBuild/Editor/OneBuild.cs:768-780 | An enum value that does not parse gives the default. |
| Access.GetConvertedInvalid | src/OneBuildUnity/Assets/Plugins/OneBuild/Editor/OneBuild.cs:773-780 | A failing `Convert.ChangeType` gives the default. |
| Enums.ParseEnum | src/OneBuildUnity/Assets/Plugins/OneBuild/Editor/OneBuild.cs:358-370 | A non-enum type fails with "Not Enum Type", and only a non-enum type does. |
| Enums.EnumParse | src/OneBuildUnity/Assets/Plugins/OneBuild/Editor/OneBuild.cs:364-368 | Blank text fails, and every failure carries the text. Text that reads as a signed number succeeds exactly when the number is in `int` range, with its two's-complement bits. Any other non-blank text succeeds exactly when every comma-separated piece, trimmed, is a member name, with the bitwise or of their values. |
| Enums.SingleName | src/OneBuildUnity/Assets/Plugins/OneBuild/Editor/OneBuild.cs:358-370 | A member name written as declared parses to that member's value, for an ordinary and a `[Flags]` enum alike. |
| Enums.NamesValue | src/OneBuildUnity/Assets/Plugins/OneBuild/Editor/OneBuild.cs:364-368 | A list of names has a value exactly when every trimmed piece is a member name. Every listed member's bits are set in that value. |
| Enums.NamesValueAppend | src/OneBuildUnity/Assets/Plugins/OneBuild/Editor/OneBuild.cs:364-368 | The value of two lists of names together is the bitwise or of their values, and it fails when either list fails. |
| Enums.ParseInteger | src/OneBuildUnity/Assets/Plugins/OneBuild/Editor/OneBuild.cs:364-368 | Text parses exactly when it is digits, or a sign followed by at least one digit. Digits read as their decimal value, "+" keeps it and "-" negates it. |
| Enums.NumberRoundTrip | src/OneBuildUnity/Assets/Plugins/OneBuild/Editor/OneBuild.cs:358-370 | The decimal text of a non-negative `int` parses back to it. |
| Enums.NegativeNumberRoundTrip | src/OneBuildUnity/Assets/Plugins/OneBuild/Editor/OneBuild.cs:358-370 | "-" followed by the decimal text of n, for 1 <= n <= 2^31, parses to the `int` value -n. |
| Enums.NumberOutOfRange | src/OneBuildUnity/Assets/Plugins/OneBuild/Editor/OneBuild.cs:358-370 | A decimal number above `int.MaxValue` does not parse. |
| Enums.ParseNamePair | src/OneBuildUnity/Assets/Plugins/OneBuild/Editor/OneBuild.cs:368 | "a,b" parses to the bitwise or of the two members' values. |
| Enums.FlagsSpaceSeparated | src/OneBuildUnity/Assets/Plugins/OneBuild/Editor/OneBuild.cs:362-364 | A `[Flags]` enum reads "a b" as the or of both members. |
| Enums.CommaSpaceSeparated | src/OneBuildUnity/Assets/Plugins/OneBuild/Editor/OneBuild.cs:362-368 | "a, b" parses for an ordinary enum. A `[Flags]` enum turns its space into a second comma and rejects it. |
| Callbacks.EarlierOrderRunsFirst | src/OneBuildUnity/Assets/Plugins/OneBuild/Editor/OneBuild.cs:926-960 | Of two selected callbacks, the one with the smaller callback order runs first. |
| Callbacks.AttributeBeforeName | src/OneBuildUnity/Assets/Plugins/OneBuild/Editor/OneBuild.cs:926-949 | A callback whose attribute order is below N runs before an unattributed `PreProcessBuildN…` callback. |
| Callbacks.Select | src/OneBuildUnity/Assets/Plugins/OneBuild/Editor/OneBuild.cs:925 | A method is picked exactly when it has the attribute or its name starts with `PreProcessBuild`. |
| Callbacks.SelectAppend | src/OneBuildUnity/Assets/Plugins/OneBuild/Editor/OneBuild.cs:925 | `Where` keeps scanning order: selecting from two runs of methods gives the picks of the first run, then those of the second. |
| Callbacks.Register | src/OneBuildUnity/Assets/Plugins/OneBuild/Editor/OneBuild.cs:951-960 | Registration succeeds exactly when every method is parameterless, and keeps their order. |
| Callbacks.PreBuildCallbacks | src/OneBuildUnity/Assets/Plugins/OneBuild/Editor/OneBuild.cs:916-960 | The callbacks run in ascending callback order. They are exactly the selected methods, and ties keep scanning order. It fails exactly when a selected method takes parameters. |
| Callbacks.PositiveNameOrder | src/OneBuildUnity/Assets/Plugins/OneBuild/Editor/OneBuild.cs:1057 | `PreProcessBuildN…` has order N. |
| Callbacks.NegativeNameOrder | src/OneBuildUnity/Assets/Plugins/OneBuild/Editor/OneBuild.cs:1057 | `PreProcessBuild_N…` has order −N. |
| Callbacks.BareNameOrder | src/OneBuildUnity/Assets/Plugins/OneBuild/Editor/OneBuild.cs:1057 | `PreProcessBuild` with no number after it has order 0. |
| Callbacks.NameOrderOverflow | src/OneBuildUnity/Assets/Plugins/OneBuild/Editor/OneBuild.cs:939-944 | A number that does not fit in an `int` leaves the order at 0. |

## Left out

- File and editor I/O are inputs, not operations.
  - The version file's contents are an `Option<string>`.
  - The config directory is a sequence of (file name, parsed document) pairs in listing order.
  - `XmlDocument.Load` and the document parser are not modelled.
  - Duplicate paths in a listing do not occur.
- Logging is omitted: `Debug.Log*`, the JSON dump of the table, and the `Serialization` helper.
- The `type:` namespace annotation (`OneBuild.cs:262-287`) is not modelled. It resolves a type by
  reflection, and its only outcome in the loader is a "not found type" exception. The
  `showfolder` debug branch (`OneBuild.cs:288-293`) only logs.
- Merge.Append: the `append` registry (`OneBuild.cs:122-125`) is a public static dictionary that
  other code could change before a load. The model fixes it to its initial contents,
  `ScriptingDefineSymbols` with separator `;`. Nothing in the modelled code writes it.
- The global variables `DateTime.Now` and the build target group are a `Template.Host` input.
  So are `string.Format` and `IFormattable.ToString`, as functions that may reject a format.
  Rendered text is taken as given.
- `Convert.ChangeType` is a caller-supplied partial function.
- The generic dispatch of `Get<T>` on `typeof(T)` is the `Access.Target` value chosen by the
  caller.
- Case-insensitive comparison folds ASCII letters only. The table's comparer is
  `StringComparer.InvariantCultureIgnoreCase` (`OneBuild.cs:207`), which also folds non-ASCII
  letters.
- Text.ToLower: `ToLower()` at `OneBuild.cs:225`, `232` and `238` uses the current culture. The model
  lower-cases ASCII letters only, as in the invariant culture, and does not model culture-specific
  mappings such as the Turkish dotted and dotless i.
- Text.EndsWith: `EndsWith` at `OneBuild.cs:186` and `322` compares in the current culture. The model
  compares character by character (ordinally), so it does not model culture-specific matches such
  as ignorable characters.
- `Text.IsWhiteSpace` is the Latin-1 subset of `Char.IsWhiteSpace`.
- The table stores keys folded to lower case. The first spelling a key was given, which only
  shows in log output and in exception messages, is not kept.
- Null values do not occur. `InnerText` is never null, and no stored array is null, so the
  `v == null` branch of `Get<T>` (`OneBuild.cs:756-757`) cannot be taken.
- Access.GetString: in C#, `default(string)` is null. The model passes "" as the default of
  `Get(name)`, and that value is never returned: a present key always has a slot 0 in a valid
  table, and a missing key throws first.
- Config.ConfigTable.ReplaceTemplates: after an expansion error, the writes already made remain in
  the table. The model says only that the table is still valid, not what those writes were.
- Template.ExpandFrom: the source recurses without bound and overflows the stack on a cycle that
  avoids the start key. The model stops at the depth bound `fuel` with `TooDeep`.
- Template.MatchAtGreedy: it is stated for a placeholder whose name is followed by ','. A
  placeholder closed by the first '}' needs no such statement.
- Enums.EnumParse:
  - Only enums whose underlying type is `int` are covered.
  - An out-of-range number fails as a parse error. .NET throws `OverflowException` there, which
    `Get<T>` catches in the same way.
  - Member names are matched case-sensitively after trimming, as `Enum.Parse` does without
    `ignoreCase`.
- Config.Load: its own contract says only that the table is valid and when the platform tag
  fails. The contents of the merged table, before templates are expanded, are stated by
  `Config.HighestScoreWins` (non-append keys, across scored files), `Merge.DocumentsLastWins` and
  `Merge.AppendAcrossDocuments` (append keys). The template pass is stated by
  `Config.ConfigTable.ReplaceTemplates` and the `Template` lemmas. There is no single lemma giving
  the value of an append key merged from arbitrary files, nor the final value of a key after
  templates are expanded.
- Text.Split, Text.TrimEnd, Text.NonEmpty, Text.Distinct: they state only the properties the
  model uses, not the full .NET contracts.
- The build's own scanning of assemblies, `Delegate.CreateDelegate` and the "only static" check
  (`OneBuild.cs:952-953`) are not modelled. The scan asks only for static methods, so that check
  cannot fire. A method is a `Callbacks.CallbackMethod` value.
- The rest of `OneBuild.cs` is not part of this model:
  - applying config values to engine settings by reflection;
  - `UpdateConfig`, the menu commands, `BuildAssetBundles`;
  - post-build Xcode and plist patching.
  These call directly into the Unity and Xcode toolchains.
