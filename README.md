# diplomat: Chinese conversion preprocessor, outline classification, messenger registry

This project models three sequential parts of the `diplomat` translation tool (Go) in
Dafny and proves their properties.

- **Chinese script-variant preprocessor** (`preprocessor.dfy`, with `yaml_option.dfy` and
  `nested_key_value.dfy`).
  - It builds a `ChineseTransformer` from a preprocessor's option bag.
  - It runs the pass that transformer configures over a nested key/value store. Next to
    every key path ending in the `from` label, the pass writes the sibling path ending in
    the `to` label. That path holds the value converted from simplified to traditional
    script, or back.
  - The pass is a method over a `NestedKeyValue` object, proved equal to an
    order-independent description, `Converted`. The properties of the pass are then
    proved about `Converted`: what is written, what is left alone, and idempotence.
- **Outline-vs-fragment classification** (`reader.dfy`).
  - `isOutlineFile` takes the base name of a path and trims from its right end every
    character that occurs in the extension. It then compares the result with `diplomat`.
  - The model states exactly which names pass this test, including the ones that are
    accepted because the trim works on a character set.
  - It also models the loop that launches one fragment parse per globbed path that is
    not the outline, and the two parse functions with their error paths.
- **Messenger registry** (`diplomat.dfy`): the `Diplomat` object as a class whose
  handler map is updated in place.

Foreign code enters as parameters:
- the gojianfan conversion routines `S2T` and `T2S` are the two function values of a
  `Jianfan` record;
- file reading and YAML decoding are function arguments of the parse functions.

Every property holds for all choices of these.

Two behaviours of the code are worth knowing:
- The pass matches only the LAST segment of a key path (preprocessor.go:57). With
  `from: zh-CN`, `greeting/zh-CN` gains `greeting/zh-TW`, and `zh-CN/greeting` is left
  alone (`Preprocessor.ScenarioLocaleLast`).
- Classification depends on the base name only for paths without a trailing '/'.
  `filepath.Ext` looks at the whole path, so `diplomat.yaml/` is not the outline although
  its base name is `diplomat.yaml` (`Reader.TrailingSeparatorChangesClassification`).

## Model

| member | source | states |
|---|---|---|
| YamlOptions.YAMLOption.Get | preprocessor.go:23-34 | lookup succeeds exactly when the key is present, with its value; otherwise the error names the missing key |
| NestedKeyValues.Sibling | preprocessor.go:58-63 | the target path has the same length and the same segments except the last, which is the new label |
| NestedKeyValues.NestedKeyValue.GetKeys | preprocessor.go:56 | the key list holds every path of the store, and nothing else, each exactly once |
| NestedKeyValues.NestedKeyValue.GetKey | preprocessor.go:64 | reports whether the path is present and, if so, its value |
| NestedKeyValues.NestedKeyValue.Set | preprocessor.go:66 | writes the one path; every other path keeps its value |
| Preprocessor.ToLower | preprocessor.go:36 | lower-casing keeps the length and lower-cases every character |
| Preprocessor.ModeSpellings | preprocessor.go:35-38 | the lower-cased mode equals "s2t" exactly for the spellings s/S, 2, t/T |
| Preprocessor.OptionToChineseTransformer | preprocessor.go:22-44 | fails exactly when mode, from or to is missing, with the first missing one in that order; otherwise the direction is simplified-to-traditional iff mode is a spelling of "s2t", and the labels are copied verbatim |
| Preprocessor.OptionToChinesePreprocessorFunc | preprocessor.go:46-52 | fails exactly when building the transformer fails, with the same error; otherwise yields the pass of that transformer |
| Preprocessor.ChineseTransformer.GetPreprocessorFunc | preprocessor.go:54-55 | the returned pass is configured by this transformer |
| Preprocessor.ChineseTransformer.Transform | preprocessor.go:74-79 | S2T for SimplifiedToTraditional, T2S otherwise; see ConfiguredDirection |
| Preprocessor.ConfiguredDirection | preprocessor.go:74-79 | a configured transformer converts with S2T for the "s2t" spellings and with T2S for every other mode string |
| Preprocessor.Converted | preprocessor.go:56-69 | after the pass the store has its old paths plus one sibling per source; each sibling holds the converted source value; every path that is not such a sibling keeps its value; with distinct labels the sources keep theirs; every new path is the sibling of a source |
| Preprocessor.WrittenStep | preprocessor.go:57-67 | handling one more source writes exactly its sibling, and the source still holds its original value when read |
| Preprocessor.SiblingPath | preprocessor.go:58-63 | the index loop builds the sibling path of the key with the `to` label last |
| Preprocessor.PreprocessorFunc.Apply | preprocessor.go:54-71 | the pass over the key list taken before the loop always reports success and leaves the store equal to `Converted` of the old store |
| Preprocessor.ConvertedIdempotent | preprocessor.go:56-67 | with from ≠ to, running the pass twice gives the same store as running it once |
| Preprocessor.CreatedPathsAreNotSources | preprocessor.go:56 | no path created by the pass ends in the `from` label, so the paths created during the pass are not visited by it |
| Preprocessor.SingleSource | preprocessor.go:57-67 | a store holding one source gains exactly its sibling with the converted value, and the source keeps its value |
| Preprocessor.NoSource | preprocessor.go:56-70 | a store with no path ending in the `from` label is left unchanged |
| Preprocessor.ScenarioConfiguration | preprocessor.go:22-52 | the options {mode: s2t, from: zh-CN, to: zh-TW} give the simplified-to-traditional pass from zh-CN to zh-TW |
| Preprocessor.ScenarioLocaleLast | preprocessor.go:57-67 | with that pass, greeting/zh-CN gains greeting/zh-TW holding S2T of its value and keeps its own; zh-CN/greeting is left alone |
| Reader.StripTrailingSeparators | reader.go:205 | the result is the path without its trailing separators |
| Reader.LastElement | reader.go:205 | the last element holds no separator |
| Reader.LastElementShape | reader.go:205 | the last element is the suffix of the path after its last separator: a suffix preceded by a separator unless it is the whole path |
| Reader.Ext | reader.go:205 | the suffix from the last '.' of the last element, or empty; characterized by ExtShape |
| Reader.Base | reader.go:205 | the base name is never empty, and is ".", "/" or a separator-free element |
| Reader.ExtShape | reader.go:205 | the extension is a suffix of the path; it is empty or starts with its only '.' and holds no separator; it is empty exactly when the last element has no '.' |
| Reader.TrimRight | reader.go:205 | the result is a prefix; every character removed occurs in the cutset; the last remaining character does not |
| Reader.TrimRightUnique | reader.go:205 | those three properties determine the trim's result |
| Reader.IsOutlineFile | reader.go:204-206 | the base name, with the extension's characters trimmed from its right end, equals "diplomat"; characterized by OutlineCharacterization |
| Reader.OutlineCharacterization | reader.go:204-206 | a name is the outline iff its base name is "diplomat" followed only by characters of the extension, and the extension holds no 't' |
| Reader.ExtWithinLastElement | reader.go:205 | for a path without a trailing separator, the extension of the path is that of its last element |
| Reader.SameBaseSameClassification | reader.go:204-206 | two paths without a trailing separator and with the same base name are classified alike |
| Reader.PlainDotted | reader.go:205 | a separator-free name stem.word is its own base name and has extension .word |
| Reader.PlainDottedClassification | reader.go:204-206 | such a name is the outline iff trimming the characters of .word off it leaves "diplomat" |
| Reader.DottedInDirectory | reader.go:205 | dir/stem.word has base name stem.word and extension .word, whatever the directory |
| Reader.OutlineFileNameIsOutline | reader.go:204-206 | "diplomat.yaml" is classified as the outline |
| Reader.OutlineFileIsOutline | reader.go:204-206 | "dir/diplomat.yaml", the file read as the outline at reader.go:134, is classified as the outline for every directory |
| Reader.TrailingSeparator | reader.go:204-206 | with a trailing separator the base name is kept but the extension is empty, so the name is the outline only if that base name is "diplomat" |
| Reader.TrailingSeparatorChangesClassification | reader.go:204-206 | "diplomat.yaml" and "diplomat.yaml/" share a base name, yet only the first is the outline |
| Reader.NoExtension | reader.go:205 | a name without extension is the outline iff its base name is exactly "diplomat" |
| Reader.ClassifiedAsStem | reader.go:205 | the trim strips from stem+extra+.word every character of `extra` that occurs in .word, down to a stem not ending in one |
| Reader.ExtensionCharactersAfterStem | reader.go:204-206 | "diplomat", then any characters of the extension, then an extension without 't', is classified as the outline |
| Reader.ExtensionWithT | reader.go:204-206 | with a 't' in the extension, "diplomat" + extension is not the outline, because the final 't' is trimmed too |
| Reader.CutsetQuirk | reader.go:204-206 | "diplomata.yaml" and "diplomat.yaml.yaml" are taken for the outline; "diplomat.t" and "diplomat.txt" are not |
| Reader.Fragments | reader.go:151-155 | the fragments are exactly the globbed paths that are not the outline |
| Reader.FragmentsAppend | reader.go:151-155 | selection keeps glob order: the fragments of a concatenation are the fragments of each part, in order |
| Reader.SelectFragments | reader.go:151-165 | the loop launches one parse per path, exactly for `Fragments` of the glob result, in glob order |
| Reader.ParseOutline | reader.go:208-219 | succeeds iff reading and decoding both succeed, with the decoded outline; a read or decode failure is returned as is |
| Reader.ParsePartialTranslation | reader.go:221-235 | succeeds iff reading and decoding both succeed; the translation records exactly the path read and the decoded data; a read or decode failure is returned as is |
| Diplomat.Diplomat.constructor | diplomat.go:86-93 | a new object holds the given outline and output path, no outline path, no watching, and an empty handler map |
| Diplomat.Diplomat.GetOutline | diplomat.go:22-24 | returns the outline held, changing nothing |
| Diplomat.Diplomat.HasMessenger | diplomat.go:45-48 | finds a handler exactly for the registered names, and returns the one registered; changes nothing |
| Diplomat.Diplomat.RegisterMessenger | diplomat.go:52-54 | the name now maps to the new handler, replacing any earlier one; every other name keeps its lookup result |
| Diplomat.RegistryScenario | diplomat.go:45-54 | on a fresh object nothing is found; a registered handler is found; registering again keeps only the last handler; other names are unaffected; the outline comes back unchanged |

## Left out

- Concurrency in reader.go is not modelled, because its behaviour lies in goroutine scheduling and channel semantics. This covers:
  - `Read`, `doRead`, `pushError` and `asyncErrorSink` (66-172): the goroutines, channels, WaitGroups and dropped errors;
  - `Watch`, `watchThrottler` and `nameBaseThrottler` (174-202, 237-276).
- Reader.SelectFragments: returns the list of paths it launches a parse for. The `wg.Add` counter and the goroutine started per path are not modelled.
- File access and decoding are not modelled: `ioutil.ReadFile`, `yaml.Unmarshal` and `filepath.Glob` are foreign calls. The parse functions take reading and decoding as function arguments, and the glob result is an input sequence.
- `filepath.Join` and `filepath.Clean` are not modelled. Paths are plain strings with '/' as separator.
- The gojianfan conversion tables are not modelled. `S2T` and `T2S` are arbitrary functions on strings.
- Preprocessor.ToLower: lower-cases ASCII letters only. The result is only compared with "s2t", and no other character lower-cases to 's', '2' or 't', so the comparison is exact.
- Preprocessor.OptionToChineseTransformer: requires that mode, from and to hold strings when all three are present. The source's type assertions (preprocessor.go:36, 41-42) panic otherwise, and a panic is not an error the function returns.
- Preprocessor.PreprocessorFunc.Apply: works on a flat map from full key paths to string leaves. This leaves out three things:
  - the nested tree of `NestedKeyValue`, which is not part of this model;
  - a target path that is already an interior node of the tree. In `{a: {zh-CN: x, zh-TW: {zh-CN: y}}}` with from zh-CN and to zh-TW, the model ends with leaves at both `a/zh-TW` and `a/zh-TW/zh-CN` (and `a/zh-TW/zh-TW`), which no tree can hold. In a tree, such a `Set` replaces the subtree, and a later source inside it is then missing: that is the only way the `exist == false` branch at preprocessor.go:65 is reached. In the model every key of the list is still present when visited, so `exist` is always true;
  - the `value.(string)` assertion at preprocessor.go:66, because every leaf is a string here.
- Preprocessor.ConvertedIdempotent: requires from ≠ to. With equal labels the pass converts each source in place, so a second run converts it again.
- Diplomat.Diplomat.HasMessenger: returns an `Option` instead of Go's pair of a handler (nil when absent) and a flag.
- Diplomat copies are not modelled. The Go methods with value receivers work on a copy of the struct, but that copy shares the handler map. The model has one object.
- The `watcherEvents` field is not modelled. Neither are `dirForMessenger`, `NewDiplomatForFile` and `NewDiplomatWatchFile` (diplomat.go:26-43, 56-84), which do file system and watcher I/O.
- Messenger rendering (messenger.go) and the JavaScript emitter (pkg/emit/javascript/object.go) are not modelled, because they are template rendering and file output. `MessengerConfig` keeps only its name fields.
- Reader.SameBaseSameClassification: requires that neither path ends in '/'. For such paths the base name alone does not decide (see `Reader.TrailingSeparatorChangesClassification`).
