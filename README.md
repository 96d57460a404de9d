# env-tool merge and validate, modelled in Dafny

This project models the two `.env` commands of the tool:

- **`merge`** reads several `.env` files in argument order and folds their `key=value` lines into one insertion-ordered dictionary. When a key is declared again with a different value, the user chooses which value to keep and a conflict is recorded. The result is written as `key=value` lines, with an optional separator line after each entry.
- **`validate`** reads each file into a dictionary in which the last line for a key wins. It then reports, per file, the required keys that are absent or empty and the keys that are set but not required. When the schema loads and every file exists, it fails exactly when some file misses a required key. A file that does not exist ends the command at once; the model returns that as the error `MissingFile`. A missing or unreadable schema also ends it with a failure, which the model does not cover (see "Left out").

Modules:

- `Results` holds `Option` and `Result`.
- `OrderedDict` models a JavaScript plain object used as a dictionary. Assigning a new key appends it to the enumeration order; assigning an existing key leaves its position alone.
- `EnvText` is the text pipeline shared by both commands:
  - `String.prototype.trim` over the ECMAScript white-space and line-terminator code points;
  - `split(/\r?\n/)`;
  - the blank-line and `#`-comment filter;
  - the split of a line at its first `=`.
- `EnvMerge` is the merge fold. `AbsorbAll` and `MergeFiles` are prefix-recursive specification functions. The nested loops of the source become the methods `Merge` and `AbsorbLines`, which are proved equal to those functions.
- `MergeOutput` holds:
  - the serializer: the method `Write` against the function `Serialize`;
  - the parse/serialize round trip;
  - the whole command with its overwrite confirmation (`MergeCommand`).
- `Validate` holds the schema check:
  - the last-wins fold `ToDict` and its loop `ReadEnv`;
  - the extra-key loop `CollectExtra`;
  - the missing-key filter `MissingKeys`;
  - the report loop `Validate` against the function `ValidateFiles`;
  - lemmas on what the report says and when the check passes.

I/O is replaced by values:

- An input file is a `Source(path, text)`, where `text == None` means the file does not exist.
- The conflict prompt becomes a script `choices: seq<bool>` of answers, consumed one per conflict; `true` means "keep existing value". When the script runs out, the prompt failed, and the command ends with an error as the `catch` at src/commands/merge.ts:102-105 does.
- The overwrite confirmation is an `Option<bool>`, where `None` means the prompt failed.
- The required keys of the schema are an input `required: seq<string>`.

Keys are written in the order in which `obj` first received them. For example, merging `PORT=3000, HOST=localhost` with `PORT=4000, DEBUG=true` writes `PORT`, `HOST`, `DEBUG`, with one conflict `(PORT, 3000, 4000, <second file>)`.

## Model

| member | source | states |
|---|---|---|
| OrderedDict.Put | src/commands/merge.ts:101-107 | Assignment to a plain object: the value is updated; an existing key keeps its position, a new key is appended; distinct keys stay distinct |
| OrderedDict.FirstSeen | src/commands/merge.ts:115 | The first-occurrence order of a key sequence has exactly its elements, each once |
| OrderedDict.FirstSeenOrder | src/commands/merge.ts:115 | A key first declared before another is listed before it |
| OrderedDict.FirstSeenDistinct | src/commands/merge.ts:115 | A sequence without repetitions is its own first-occurrence order |
| EnvText.IsSpace | src/commands/merge.ts:63 | Definition: the white-space and line-terminator code points `trim` removes; what `Trim` does with it is proved in EnvText.Trim and EnvText.TrimBlank |
| EnvText.LeadingSpaces | src/commands/merge.ts:63 | The count of leading white space stops at a non-space character |
| EnvText.TrimmedLength | src/commands/merge.ts:63 | The length without trailing white space ends at a non-space character |
| EnvText.LeadingSpacesAreSpaces | src/commands/merge.ts:63 | Everything `trim` removes at the start is white space |
| EnvText.TrailingSpacesAreSpaces | src/commands/merge.ts:63 | Everything `trim` removes at the end is white space |
| EnvText.Trim | src/commands/merge.ts:63 | `trim` returns text with no white space at either end, made of the input's characters |
| EnvText.TrimBlank | src/commands/merge.ts:63-64 | A line trims to nothing exactly when it is all white space, so blank lines are dropped |
| EnvText.TrimOfTrimmed | src/commands/merge.ts:63 | Trimming is idempotent |
| EnvText.SplitLines | src/commands/merge.ts:62 | `split(/\r?\n/)` yields at least one line, and no line holds a `\n` |
| EnvText.SplitLinesSingle | src/commands/merge.ts:62 | A text without `\n` is one line |
| EnvText.SplitLinesAtLF | src/commands/merge.ts:62 | A `\n` ends the line before it |
| EnvText.SplitLinesAtCRLF | src/commands/merge.ts:62 | A `\r\n` ends the line before it and its `\r` is not part of that line; any other `\r`, even one right before it, stays |
| EnvText.SplitLinesKeepsExtraCR | src/commands/merge.ts:62 | `"a\r\r\nb"` splits into `"a\r"` and `"b"`: only the `\r` right before the `\n` is consumed |
| EnvText.CleanLine | src/commands/merge.ts:63-64 | One line yields at most one line, which is trimmed, non-empty and not a comment |
| EnvText.Clean | src/commands/merge.ts:63-64 | Definition: `.map(trim).filter(line && !line.startsWith("#"))` line by line; its properties are proved in EnvText.CleanIsClean, EnvText.CleanAppend and EnvText.CleanKeepsClean |
| EnvText.CleanIsClean | src/commands/merge.ts:61-64 | Every line the pipeline keeps is trimmed, non-empty, not a `#` comment and free of line breaks |
| EnvText.CleanAppend | src/commands/merge.ts:63-64 | The map/filter pipeline distributes over concatenation: it works line by line |
| EnvText.CleanKeepsClean | src/commands/merge.ts:63-64 | The pipeline keeps already clean lines unchanged, so it is idempotent |
| EnvText.CleanLines | src/commands/validate.ts:47-50 | The lines both commands look at are all clean |
| EnvText.FirstIndex | src/commands/merge.ts:67 | The first occurrence of `=`: none before it, and `=` at it when there is one |
| EnvText.ParseLine | src/commands/merge.ts:67-70 | Definition: `[rawKey, ...rest] = line.split("=")`, skipping an empty raw key; proved to split at the first `=` in EnvText.ParseLineAtFirstEquals, EnvText.ParseLineWithoutValue and EnvText.ParseLineOfPair |
| EnvText.ParseLineAtFirstEquals | src/commands/merge.ts:67-70 | A line splits at its first `=`; the value is everything after it, later `=` signs included; both sides are trimmed |
| EnvText.FirstIndexAfter | src/commands/merge.ts:67 | The first `=` after a prefix without `=` is right after that prefix |
| EnvText.ParseLineWithoutValue | src/commands/merge.ts:67-70 | A line without `=` is a key with an empty value; a line starting with `=` is skipped (`if (!rawKey) continue`) |
| EnvText.ParseLineOfPair | src/commands/merge.ts:67-70 | Parsing the line `key=value` gives back the key and the value |
| EnvText.Pairs | src/commands/merge.ts:66-70 | Definition: the parsed pairs of the lines in line order; proved line by line in EnvText.PairsSnoc and EnvText.PairsShape |
| EnvText.PairsSnoc | src/commands/merge.ts:66-68 | Proof step: one more line adds its pair, or nothing when its raw key is empty |
| EnvText.ParseLineShape | src/commands/merge.ts:67-70 | A clean line parses to a non-empty trimmed key without `=` and a trimmed value |
| EnvText.PairsShape | src/commands/merge.ts:66-70 | Every pair parsed from clean lines has that shape |
| EnvText.Parse | src/commands/merge.ts:60-70 | Definition: the pairs of a file's clean lines; its inverse is proved in MergeOutput.ParseSerialize |
| EnvText.ParseShape | src/commands/merge.ts:61-70 | Every pair parsed from any text has a key and a value as the parser produces them |
| EnvText.Load | src/commands/merge.ts:55-60 | Definition: a file that does not exist has no pairs, otherwise its text is parsed; how a missing file ends a merge is proved in EnvMerge.MergeNotFoundIsFirstMissing |
| EnvMerge.Tag | src/commands/merge.ts:98 | One declaration per parsed pair; that each carries its pair and the file argument (`from: file`) is proved in EnvMerge.StreamOrigin and EnvMerge.StreamCovers |
| EnvMerge.Absorb | src/commands/merge.ts:72-108 | Definition of one line's step; each of its cases is stated in EnvMerge.AbsorbCases |
| EnvMerge.AbsorbCases | src/commands/merge.ts:72-108 | Per line: an empty key or value changes nothing; a new key is stored with no conflict; the same value again is a no-op; a different value records one conflict (key, old, new, file) and stores the chosen value, either the old or the new one, without moving any key; it fails only when no answer is left |
| EnvMerge.AbsorbAll | src/commands/merge.ts:66-110 | Definition: the fold of the steps over declarations, stopping at the first error; the loop EnvMerge.AbsorbLines is proved equal to it |
| EnvMerge.MergeFiles | src/commands/merge.ts:52-111 | Definition: the fold over the files, where a missing file aborts when its turn comes; the loop EnvMerge.Merge is proved equal to it |
| EnvMerge.Stream | src/commands/merge.ts:52-70 | Definition: the labelled pairs of all existing files in processing order; EnvMerge.StreamOrigin and EnvMerge.StreamCovers prove it holds exactly those pairs |
| EnvMerge.DeclaredKeys | src/commands/merge.ts:72 | The declared keys are exactly those of declarations with a non-empty key and value |
| EnvMerge.AbsorbLines | src/commands/merge.ts:66-110 | The loop over one file's lines equals the fold of its tagged pairs |
| EnvMerge.Merge | src/commands/merge.ts:52-111 | The loop over the files equals the fold over the files, where a missing file aborts when its turn comes |
| EnvMerge.MergeStep | src/commands/merge.ts:52-60 | Proof step: one more file aborts with FileNotFound when it does not exist, and is folded in otherwise |
| EnvMerge.TagPairsStep | src/commands/merge.ts:66-70 | Proof step: one more line adds its tagged pair, if any |
| EnvMerge.AbsorbSnoc | src/commands/merge.ts:66 | Proof step: folding one more declaration is one more step |
| EnvMerge.AbsorbLinesAbort | src/commands/merge.ts:102-105 | After a failed prompt, the rest of the file changes nothing |
| EnvMerge.PairsPrefix | src/commands/merge.ts:66 | The pairs of the first lines are a prefix of the file's pairs |
| EnvMerge.AbsorbAbortsEarly | src/commands/merge.ts:102-105 | Once a prefix of the declarations fails, the whole fold fails the same way |
| EnvMerge.MergeAbortsEarly | src/commands/merge.ts:55-58 | Once the first files fail, later files are never examined |
| EnvMerge.AbsorbAllAppend | src/commands/merge.ts:52-111 | Folding two runs of declarations in turn is folding their concatenation |
| EnvMerge.MergeOkFoundAll | src/commands/merge.ts:55-58 | A merge that succeeds found every file |
| EnvMerge.MergeIsStreamFold | src/commands/merge.ts:52-111 | With every file present, the merge is one fold over all declarations in processing order |
| EnvMerge.StreamOrigin | src/commands/merge.ts:52-70 | Every declaration comes from a pair of the named file |
| EnvMerge.StreamCovers | src/commands/merge.ts:52-70 | Every pair of every file is in the stream |
| EnvMerge.AbsorbOnlyPromptFails | src/commands/merge.ts:102-105 | Within the lines, only a failed prompt ends the merge |
| EnvMerge.MergeErrors | src/commands/merge.ts:52-111 | A merge fails only for a missing file or a failed prompt |
| EnvMerge.DeclaredKeysAllCount | src/commands/merge.ts:72 | When every declaration counts, the declared keys are their keys in order |
| EnvMerge.MergeNotFoundIsFirstMissing | src/commands/merge.ts:52-58 | FileNotFound names the first missing file, and the files before it exist and merge without error |
| EnvMerge.MergeStopsAtMissingFile | src/commands/merge.ts:55-58 | A missing file whose predecessors merge fine ends the merge with FileNotFound for it |
| EnvMerge.FoldKeys | src/commands/merge.ts:72-108 | After the fold, the keys are distinct and listed in first-declaration order; resolving a conflict never reorders them |
| EnvMerge.FoldValues | src/commands/merge.ts:72-108 | Every stored value is one some declaration gave that key |
| EnvMerge.FoldConflicts | src/commands/merge.ts:94-101 | At most one conflict per answer; each pairs a value declared for the key with a different, declared, non-empty new value and its file |
| EnvMerge.FoldConflictsOrdered | src/commands/merge.ts:73-99 | Each conflict's old value was declared for its key before the declaration that raised the conflict |
| EnvMerge.AgreeKeepsAll | src/commands/merge.ts:72-107 | Agreeing declarations give no conflict, and every declaration is stored as written |
| EnvMerge.ConflictFreeAgree | src/commands/merge.ts:73-101 | A fold with no conflict saw agreeing declarations |
| EnvMerge.ConflictFreeIffAgree | src/commands/merge.ts:73-101 | No conflict is recorded exactly when the declarations agree |
| EnvMerge.AgreeNeverPrompts | src/commands/merge.ts:73 | Agreeing declarations never reach the prompt: the result does not depend on the answers |
| EnvMerge.AbsorbAgreeing | src/commands/merge.ts:72-107 | Declarations that repeat stored values change neither the dictionary nor the conflicts |
| EnvMerge.LastValue | src/commands/merge.ts:72 | Reference definition, independent of the fold: the value of the last declaration of a key that has a non-empty value; used by EnvMerge.PreferNewIsLastWins |
| EnvMerge.Overrides | src/commands/merge.ts:73 | Reference definition: the number of declarations that differ from their key's latest non-empty value; used by EnvMerge.PreferNewIsLastWins |
| EnvMerge.FirstValue | src/commands/merge.ts:72 | Reference definition: the value of the first declaration of a key that has a non-empty value; used by EnvMerge.KeepExistingIsFirstWins |
| EnvMerge.Divergences | src/commands/merge.ts:73 | Reference definition: the number of declarations that differ from their key's first non-empty value; used by EnvMerge.KeepExistingIsFirstWins |
| EnvMerge.PreferNewIsLastWins | src/commands/merge.ts:94-101 | Always choosing the new value is last-write-wins; the number of conflicts is the number of overriding re-declarations |
| EnvMerge.KeepExistingIsFirstWins | src/commands/merge.ts:94-101 | Always keeping the existing value is first-write-wins, and each differing re-declaration still records a conflict |
| MergeOutput.Entry | src/commands/merge.ts:116-118 | Definition: one key's `\n${key}=${value}` plus `\n` and the separator when the separator is not empty |
| MergeOutput.Body | src/commands/merge.ts:114-119 | Definition: `finalContent` after the loop; proved to be the output lines, each preceded by a line break, in MergeOutput.BodyIsPrefixed |
| MergeOutput.Serialize | src/commands/merge.ts:114-121 | The written text ends in exactly one line break, with no white space at either end before it |
| MergeOutput.Write | src/commands/merge.ts:114-121 | The `finalContent +=` loop followed by the trim writes the serialized text |
| MergeOutput.EntryLines | src/commands/merge.ts:115-118 | One line per entry, or two with a non-empty separator |
| MergeOutput.LinesOf | src/commands/merge.ts:121 | Definition: the lines joined with a break after each; its own contract only bounds the length. The lemma MergeOutput.SerializeLines uses it |
| MergeOutput.EntryLinesNoSeparator | src/commands/merge.ts:116 | With no separator, the lines are `key=value` in dictionary order |
| MergeOutput.EntryLinesWithSeparator | src/commands/merge.ts:116-117 | With a separator, each `key=value` line is followed by a separator line |
| MergeOutput.EntryIsPrefixed | src/commands/merge.ts:116-117 | Each entry adds its lines, each preceded by a line break |
| MergeOutput.BodyIsPrefixed | src/commands/merge.ts:114-119 | `finalContent` is the output lines, each preceded by a line break |
| MergeOutput.TrimLeadingBreak | src/commands/merge.ts:121 | The trim removes the leading break |
| MergeOutput.TrimPrefixed | src/commands/merge.ts:121 | Trimming plus the final `\n` turns break-preceded lines into break-terminated lines |
| MergeOutput.SerializeLines | src/commands/merge.ts:114-121 | For a non-empty well-formed dictionary and a separator that is empty or ends in a non-space, the output is each output line followed by one line break |
| MergeOutput.EntryLinesFirstLast | src/commands/merge.ts:116-117 | The output starts with the first key's line and ends with the last key's line or the separator |
| MergeOutput.EntryLinesEnds | src/commands/merge.ts:116-121 | For a separator that is empty or ends in a non-space, the first and last output lines start and end with a non-space, so the trim removes only the leading break |
| MergeOutput.SerializeEmpty | src/commands/merge.ts:114-121 | An empty dictionary is written as a single line break |
| MergeOutput.SplitLinesOf | src/commands/merge.ts:62 | Splitting break-terminated clean lines gives them back, plus a final empty line |
| MergeOutput.PairsOfEntryLines | src/commands/merge.ts:67-70 | Parsing the `key=value` lines gives back the pairs |
| MergeOutput.EntryLinesClean | src/commands/merge.ts:63-64 | The written `key=value` lines survive the cleaning pipeline |
| MergeOutput.ParseSerialize | src/commands/merge.ts:61-70 | With no separator, reading the written text gives the dictionary's pairs in order |
| MergeOutput.CleanLinesOfSerialize | src/commands/merge.ts:61-64 | The clean lines of the written text are its `key=value` lines |
| MergeOutput.TagPairsOf | src/commands/merge.ts:66-72 | Re-reading the output declares each key once, in order, and every declaration counts |
| MergeOutput.TagPairsOfAgree | src/commands/merge.ts:73 | Those declarations agree and declare the dictionary's keys in order |
| MergeOutput.SameDict | src/commands/merge.ts:115 | Two dictionaries with the same key order and the same values are equal |
| MergeOutput.MergeDistinct | src/commands/merge.ts:72-108 | Merging distinct non-empty pairs gives exactly that dictionary and no conflict |
| MergeOutput.RoundTrip | src/commands/merge.ts:61-72 | Merging the written text of a well-formed dictionary as the only input reproduces it with no conflict |
| MergeOutput.LoadAllParsed | src/commands/merge.ts:60-70 | Every file read has parser-shaped pairs |
| MergeOutput.MergedEnv | src/commands/merge.ts:72-108 | The merged dictionary is well formed; its keys are exactly those with a non-empty value in some file, in first-declaration order; each value comes from a file |
| MergeOutput.MergedValuesFromFiles | src/commands/merge.ts:72-108 | Every stored pair is a non-empty pair of some file |
| MergeOutput.MergedKeysFromFiles | src/commands/merge.ts:72-108 | Every key with a non-empty value in some file is stored |
| MergeOutput.MergedListed | src/commands/merge.ts:115-116 | Every listed key has a value |
| MergeOutput.MergeOutputRoundTrip | src/commands/merge.ts:61-72 | Re-merging a merge's own output (no separator) reproduces the merged dictionary with zero conflicts, whatever the answers |
| MergeOutput.MergeOutputTwice | src/commands/merge.ts:73 | Merging the output with a second copy of itself changes nothing and asks nothing |
| MergeOutput.MergeSameFileAgain | src/commands/merge.ts:52 | A second copy of a file that changes nothing leaves the merge as it was |
| MergeOutput.OwnPairsAgree | src/commands/merge.ts:73 | Every declaration of the output agrees with the stored value |
| MergeOutput.Outcome | src/commands/merge.ts:8-121 | Definition: a failed confirmation prompt fails, a declined one cancels, otherwise the merge and the text to write; the method MergeOutput.MergeCommand is proved equal to it |
| MergeOutput.MergeCommand | src/commands/merge.ts:8-121 | The command is cancelled exactly when the output exists and the user declines; otherwise it runs the merge and writes its output |
| MergeOutput.CommandOutput | src/commands/merge.ts:8-121 | A successful command had confirmation when needed and wrote the merged dictionary's output; with no separator that output reads back to the dictionary's pairs |
| Validate.ToDict | src/commands/validate.ts:52-57 | Definition: `obj[key] = value` for each pair in turn; Validate.ToDictKeys, Validate.ToDictHas and Validate.ToDictLastWins state what it holds |
| Validate.ToDictSnoc | src/commands/validate.ts:56 | Proof step: one more pair is one more assignment |
| Validate.ToDictValid | src/commands/validate.ts:52-57 | The per-file object lists each key once and only keys with a value |
| Validate.ToDictKeys | src/commands/validate.ts:52-57 | The object lists the keys in the order of their first line |
| Validate.ToDictHas | src/commands/validate.ts:52-57 | A key is present exactly when some line declares it, even with an empty value |
| Validate.ToDictLastWins | src/commands/validate.ts:56 | A key holds the value of its last line, even an empty one |
| Validate.ReadEnv | src/commands/validate.ts:52-57 | The loop that fills `obj` builds the last-wins dictionary of the file's pairs |
| Validate.ExtraKeys | src/commands/validate.ts:59-64 | Definition: the keys of `obj`, in its order, that have a non-empty value and are not required; characterised in Validate.ExtraKeysExact |
| Validate.ExtraKeysExact | src/commands/validate.ts:59-64 | A key is extra exactly when it has a non-empty value and is not required |
| Validate.CollectExtra | src/commands/validate.ts:59-64 | The loop over `obj` collects the extra keys in key order |
| Validate.MissingKeys | src/commands/validate.ts:66 | Definition: the required keys, in schema order, that are absent or empty, a repeated key once per occurrence; characterised in Validate.MissingKeysExact and Validate.MissingKeysInSchemaOrder |
| Validate.MissingIndices | src/commands/validate.ts:66 | Definition: the positions in the schema whose key is absent or empty, in increasing order; Validate.MissingKeysInSchemaOrder proves that it maps the missing keys onto the schema |
| Validate.MissingKeysExact | src/commands/validate.ts:66 | A required key is missing exactly when it is absent or empty |
| Validate.MissingKeysInSchemaOrder | src/commands/validate.ts:66 | The missing keys are the schema's keys at a strictly increasing run of positions, one entry per position. Those positions are exactly the ones whose key is absent or empty, so a key the schema repeats is listed once per occurrence |
| Validate.MissingNoneIffSatisfies | src/commands/validate.ts:66 | A file has no missing key exactly when every required key has a non-empty value |
| Validate.FileReport | src/commands/validate.ts:67-68 | Definition: the report after one file, which records the file only where its list is not empty; the resulting reports are stated in Validate.ReportContents |
| Validate.ValidateFiles | src/commands/validate.ts:38-68 | Definition: the fold over the files, stopping at the first missing one; the loop Validate.Validate is proved equal to it |
| Validate.Passed | src/commands/validate.ts:71 | Definition: no file has a missing key; Validate.ValidatePassIff proves that means every file satisfies the schema |
| Validate.ValidateStep | src/commands/validate.ts:38-68 | Proof step: one more file aborts when it does not exist, and otherwise adds its missing and extra keys to the report |
| Validate.ValidateAbortsEarly | src/commands/validate.ts:41-44 | Once a file is missing, later files are never examined |
| Validate.Validate | src/commands/validate.ts:38-69 | The loop over the files computes the report of the specification, or the first missing file |
| Validate.OkStep | src/commands/validate.ts:41-44 | Proof step: a completed check found the last file and completed on the others |
| Validate.ValidateOkFoundAll | src/commands/validate.ts:38-44 | A completed check found every file |
| Validate.ValidateAllFoundOk | src/commands/validate.ts:38-44 | When every file exists the check completes |
| Validate.ValidateStopsAtFirstMissing | src/commands/validate.ts:38-44 | A check that stops names the first missing file; all before it exist |
| Validate.ReportStep | src/commands/validate.ts:67-68 | Proof step: a completed check adds the last file's report to that of the others |
| Validate.SummarySnoc | src/commands/validate.ts:38 | Proof step: one more file adds one summary entry |
| Validate.NonEmptyHas | src/commands/validate.ts:67-68 | An entry is reported exactly when its list is not empty |
| Validate.NonEmptyNames | src/commands/validate.ts:67 | A name is reported exactly when it has an entry with a non-empty list |
| Validate.ReportContents | src/commands/validate.ts:38-69 | The missing report is the files with missing keys in argument order; the extra report assigns each file with extra keys its list, a later file of the same name overwriting |
| Validate.MissingReport | src/commands/validate.ts:66-68 | A file is in the missing report, with its keys, exactly when it has a missing key |
| Validate.ExtraReportNames | src/commands/validate.ts:59-67 | A name is in the extra report exactly when a file of that name has an extra key |
| Validate.ValidatePassIff | src/commands/validate.ts:71 | Validation passes exactly when every file satisfies the schema; extra keys never make it fail |
| Validate.ToDictTwice | src/commands/validate.ts:53-57 | A key read twice keeps a single entry, holding the second value |
| Validate.EmptyLaterLineWins | src/commands/validate.ts:53-57 | After `A=1` then `A=`, `A` holds an empty value, is missing and is not extra |

## Left out

- File and process I/O (`fs.existsSync`, `readFile`, `writeFile`, `resolve(process.cwd(), …)`, `process.exit`). A file is given as its path and its text, `None` when it does not exist, and a read failure is not distinguished from a missing file. The written text is the command's result.
- The `inquirer` prompts. The overwrite confirmation (src/commands/merge.ts:15-37) is an `Option<bool>`, and the conflict choice (src/commands/merge.ts:75-92) is a script of booleans. A prompt that throws is a script that has run out.
- Terminal rendering with `chalk`, `boxen` and `cli-table3`: the success message and conflict summary of `merge` (src/commands/merge.ts:123-150) and the tables of `validate` (src/commands/validate.ts:72-152). The model keeps only the data they show and the pass/fail outcome.
- Reading `config.schema.json` and `JSON.parse` (src/commands/validate.ts:20-36). The required keys are an input, so the model assumes a schema that exists and holds a `required` array of strings. A missing schema makes the command exit with status 1 (src/commands/validate.ts:22-25). A schema that is not JSON, or that has no `required` array, throws during `JSON.parse` (lines 27-29) or `config.required.join` (line 35); the `catch` at lines 154-160 then reports it and exits with status 1.
- The outer `try`/`catch` of each command. In merge, the prompt exceptions never reach it: the inner catches at src/commands/merge.ts:33-36 and 102-105 exit first, and the model returns those as `None` and `PromptFailed`. What the outer catch at src/commands/merge.ts:151-154 sees is a failed `readFile` or `writeFile`. In validate, the catch at src/commands/validate.ts:154-160 sees a failed `readFile` and the schema errors described above. The model has no file system, so none of these arise in it.
- `src/commands/encrypt.ts` and `src/commands/decrypt.ts` are not part of this model. They are wrappers around `node:crypto` ciphers, whose behaviour cannot be stated here.
- `src/bin/index.ts` is not part of this model. It is command-line wiring; the separator and output path are parameters here.
- JavaScript plain-object quirks. `for…in` enumerates integer-like keys first, inherited names such as `constructor` read as truthy on `{}`, and `__proto__` is not an ordinary key. The model is an insertion-ordered dictionary of ordinary strings.
- MergeOutput.MergeOutputRoundTrip: the round trip is proved for the empty separator only. With a non-empty separator, each separator line is read back as one more line. Such a line is dropped or ignored unless the separator contains `=`. That case is not proved.
- MergeOutput.SerializeLines: the line-by-line form of the output is proved only for a separator that is empty or ends in a non-space. Any separator is accepted on the command line, and for a separator ending in white space the trim also cuts the end of the last separator line. `Serialize` models that trim for every separator.
- MergeOutput.EntryLinesEnds: proved under the same separator condition as MergeOutput.SerializeLines, for the same reason.
- EnvMerge.FoldConflicts: for an arbitrary script of answers, the count of conflicts is bounded by the number of answers rather than equated with a count of differing re-declarations. Which re-declarations differ depends on the earlier answers. The exact count is stated per step in EnvMerge.AbsorbCases, and for uniform answers in EnvMerge.PreferNewIsLastWins and EnvMerge.KeepExistingIsFirstWins.
