# Create File: a Dafny model

A model of the "Create File Here" command of the create-file Raycast extension,
with its helpers. The command works out which directory the user's file manager
is showing: Finder on macOS, Explorer on Windows, or a Linux file manager found
through its window title. It parses the typed file name into a name and an
extension and picks a name that collides with nothing already in that directory:
"name.ext" first, then "name 2.ext", "name 3.ext", and so on. Then it either
creates the file there, or falls back to a fresh temporary directory plus the
clipboard, or reports a failure.

Modules:

- `Wrappers`: the `Option` type, standing for a JavaScript `null`, or for a call that threw.
- `Text`: the JavaScript string primitives the code relies on.
  - `String.prototype.trim` and the regular-expression class `\s`, both over the ECMAScript WhiteSpace and LineTerminator sets.
  - `lastIndexOf`.
  - The decimal rendering of the counter, with its inverse `DecimalValue`.
- `Platforms`: `getPlatform`.
- `FileNames`: `parseFileName`, plus `buildUniqueFileName` as an imperative method with its loop.
  - The method is proved equal to the specification function `UniqueFileName`.
  - `UniqueFileName` is characterised by the predicate `IsFirstFree`: the least counter whose name is free.
  - The loop's termination is proved, not assumed. Candidates are pairwise distinct, so at most `|existing| + 1` of them are tried.
- `Locators`: what each file-manager locator decides from the outputs of its automation calls.
  - The outputs come from AppleScript, PowerShell and xdotool, and are parameters of the model.
  - This module also models the match of a window title against `/^(.*?)\s*[-–—]\s*(?:Files|Dolphin|Thunar)/`. The greedy matcher `SeparatorAt` is proved equal to the existential reading `SeparatorMatches` of the regular expression. The lazy group is modelled as the least position at which the tail matches, where `.` cannot cross a line terminator.
- `CreateFileHere`: the command's branch decision, given as an `Outcome`, and the message it shows.

The directory's entries are a `set<string>` of names. `fs.existsSync(path.join(directory, name))` is modelled as membership in that set.

## Model

| member | source | states |
|---|---|---|
| Platforms.GetPlatform | extensions/create-file/src/utils.ts:14-19 | "darwin" is exactly macOS, "win32" is exactly Windows, and every other identifier is Linux |
| Text.IsWhitespace | extensions/create-file/src/utils.ts:155 | the whitespace of `trim` and of `\s` includes every line terminator |
| Text.Trim | extensions/create-file/src/utils.ts:200 | the result is empty exactly when the input is all whitespace, and otherwise starts and ends with a non-whitespace character |
| Text.TrimIsBorderedSlice | extensions/create-file/src/utils.ts:200 | the trimmed text is a slice of the input with only whitespace before and after it |
| Text.TrimStrips | extensions/create-file/src/utils.ts:200 | whitespace around a core that is not padded itself is exactly what trim removes |
| Text.TrimIdempotent | extensions/create-file/src/utils.ts:200 | trimming twice is the same as trimming once |
| Text.TrimPaddedWordAt | extensions/create-file/src/utils.ts:200 | a word that neither starts nor ends with whitespace, with only whitespace around it, is what trim returns |
| Text.TrimToWordIsPadded | extensions/create-file/src/utils.ts:200 | whatever trim returns occurs in the input with only whitespace before and after it |
| Text.TrimIsPaddedWord | extensions/create-file/src/utils.ts:200 | trim returns such a word exactly when the input is that word with only whitespace around it |
| Text.LastIndexOf | extensions/create-file/src/utils.ts:204 | none exactly when the character does not occur; otherwise a position holding it with no later occurrence |
| Text.LastIndexOfAt | extensions/create-file/src/utils.ts:204 | a position holding the character with none after it is the one found |
| Text.NatToString | extensions/create-file/src/utils.ts:230 | the counter renders as a non-empty string of decimal digits, with a leading zero only for zero itself |
| Text.DecimalValueOfNatToString | extensions/create-file/src/utils.ts:230 | reading the rendered counter back gives the counter |
| Text.NatToStringInjective | extensions/create-file/src/utils.ts:230 | different counters render differently |
| Locators.FinderAnswer | extensions/create-file/src/utils.ts:35-74 | a yes from either Finder check needs macOS and an output the call returned, of at least the four characters of "true" |
| Locators.FinderAnswerIffPadded | extensions/create-file/src/utils.ts:35-74 | a Finder check answers yes exactly when, on macOS, its output is "true" with only whitespace around it |
| Locators.FinderAnswerIgnoresPadding | extensions/create-file/src/utils.ts:35-74 | for the frontmost check and the open-windows check alike: on macOS a "true" answer with whitespace around it counts as yes, and off macOS the answer is no |
| Locators.FinderPath | extensions/create-file/src/utils.ts:89-109 | a path exactly when on macOS, Finder is frontmost, Finder has a window and the path script succeeded; the path is the trimmed script output |
| Locators.WindowsExplorerPath | extensions/create-file/src/utils.ts:114-138 | a path exactly when the call succeeded and its output is not blank; the path is the trimmed, non-empty output |
| Locators.SkipWhitespace | extensions/create-file/src/utils.ts:155 | the greedy `\s*` consumes a whitespace run and stops at a non-whitespace character or the end |
| Locators.SeparatorAt | extensions/create-file/src/utils.ts:155 | where the tail matches, a dash follows the whitespace, and there is room for it and a file-manager name |
| Locators.SeparatorAtIffMatches | extensions/create-file/src/utils.ts:155 | the greedy matcher for `\s*[-–—]\s*(?:Files\|Dolphin\|Thunar)` accepts exactly what some split into whitespace, dash, whitespace and name accepts |
| Locators.LazySeparator | extensions/create-file/src/utils.ts:155 | the lazy `(.*?)` stops at the least position where the tail matches, without crossing a line terminator; none when no reachable position matches |
| Locators.LinuxTitlePath | extensions/create-file/src/utils.ts:155-158 | a path exactly when some position reachable without a line break starts the tail; the path is the trimmed text before the least such position |
| Locators.LinuxTitlePathTrimmed | extensions/create-file/src/utils.ts:157 | a path read from a title is already trimmed |
| Locators.NoDashNoLinuxPath | extensions/create-file/src/utils.ts:155-160 | a title with no hyphen, en dash or em dash gives no path |
| Locators.LinuxTitleAt | extensions/create-file/src/utils.ts:155-158 | when the tail matches at p, and the text before p has no dash and no line break and does not end in whitespace, the path is that text trimmed |
| Locators.LinuxTitleOf | extensions/create-file/src/utils.ts:155-158 | a title made of a folder, whitespace, a dash, whitespace, a file-manager name and anything else gives the trimmed folder |
| Locators.LinuxTitleEmptyPathExample | extensions/create-file/src/utils.ts:155-158 | "- Files" gives the empty path |
| Locators.LinuxTitleEnDashExample | extensions/create-file/src/utils.ts:155-158 | an en dash with no whitespace around it separates: "x–Thunar" gives "x" |
| Locators.LinuxTitleEmDashExample | extensions/create-file/src/utils.ts:155-158 | "a — Dolphin" gives "a" |
| Locators.LinuxTitleUnanchoredExample | extensions/create-file/src/utils.ts:155-158 | the pattern is not anchored at the end: "a - Filesystem" gives "a" |
| Locators.LinuxTitleNoDashExample | extensions/create-file/src/utils.ts:155-160 | "Terminal" gives no path |
| Locators.LinuxFileManagerPath | extensions/create-file/src/utils.ts:143-165 | a failed call gives no path; otherwise the trimmed output is matched as a title; a path found is already trimmed |
| Locators.CurrentExplorerPath | extensions/create-file/src/utils.ts:170-183 | the locator of the host platform decides; any path reported is already trimmed |
| FileNames.ParseFileName | extensions/create-file/src/utils.ts:195-218 | the blank input gives default.txt; without a dot, the trimmed text with "txt"; with a dot, the split is at the last dot and the extension holds no dot, with a leading-dot-only name using the extension as the name too |
| FileNames.ParseJoined | extensions/create-file/src/utils.ts:203-213 | round trip: "name.ext", where ext holds no dot and nothing is padded, parses back to (name, ext) |
| FileNames.ParseDependsOnlyOnTrim | extensions/create-file/src/utils.ts:196-200 | surrounding whitespace does not change the result |
| FileNames.ParseOnlyLeadingDot | extensions/create-file/src/utils.ts:209-211 | ".x", with no other dot, gives name and extension both "x" |
| FileNames.ParsePaddedDotless | extensions/create-file/src/utils.ts:216-217 | a padded text without a dot gives the unpadded text with "txt" |
| FileNames.ParseSplitsAtLastDot | extensions/create-file/src/utils.ts:204-206 | "a.b.txt" gives ("a.b", "txt") |
| FileNames.ParseEmptyExtension | extensions/create-file/src/utils.ts:204-213 | "foo." gives ("foo", "") |
| FileNames.ParseLeadingDotExamples | extensions/create-file/src/utils.ts:209-211 | ".env" gives ("env", "env") and "." gives ("", "") |
| FileNames.ParseBlankExamples | extensions/create-file/src/utils.ts:196-198 | "" and "   " give ("default", "txt") |
| FileNames.ParseDotlessExample | extensions/create-file/src/utils.ts:216-217 | "  notes " gives ("notes", "txt") |
| FileNames.Candidate | extensions/create-file/src/utils.ts:225-230 | every candidate starts with the name and ends with "." and the extension; the first is exactly "name.ext", and the later ones put a space after the name |
| FileNames.CandidateInjective | extensions/create-file/src/utils.ts:225-230 | distinct counters give distinct candidate names |
| FileNames.CandidatesBound | extensions/create-file/src/utils.ts:229-233 | n candidates all present need at least n entries, so the search ends |
| FileNames.FirstFreeFrom | extensions/create-file/src/utils.ts:229-233 | resuming the search after present candidates reaches the least free candidate |
| FileNames.UniqueFileName | extensions/create-file/src/utils.ts:224-236 | the chosen name is absent from the directory and is the first free name in the sequence |
| FileNames.FirstFreeIsUnique | extensions/create-file/src/utils.ts:224-236 | the first free name is unique |
| FileNames.BuildUniqueFileName | extensions/create-file/src/utils.ts:224-236 | the loop returns the first free name, which is absent from the directory, and returns "name.ext" itself when that is free |
| FileNames.UniqueInEmptyDirectory | extensions/create-file/src/utils.ts:224-236 | an empty directory gets "name.ext" |
| FileNames.UniqueAfterTakenNames | extensions/create-file/src/utils.ts:224-236 | with "name.ext" present the result is "name 2.ext"; with "name 2.ext" present too, it is "name 3.ext" |
| CreateFileHere.EffectiveFileName | extensions/create-file/src/create-file-here.tsx:23 | an empty argument becomes "default.txt", and any other argument is kept |
| CreateFileHere.EffectiveFileNameParsesAlike | extensions/create-file/src/create-file-here.tsx:23 | the "default.txt" fallback parses the same as the empty argument, ("default", "txt") |
| CreateFileHere.InPlaceUsable | extensions/create-file/src/create-file-here.tsx:29 | a missing path, an empty path or a directory that is not writable each rule out creating in place; a non-empty writable path allows it |
| CreateFileHere.WindowsPathUsableIffWritable | extensions/create-file/src/create-file-here.tsx:29 | on Windows, the file can be created in place exactly when the PowerShell call succeeded with a non-blank output and the directory is writable |
| CreateFileHere.LinuxTitleWithoutFolderNeverInPlace | extensions/create-file/src/create-file-here.tsx:29 | a Linux title with nothing before the dash, such as "- Files", locates the empty path, and the file is then never created in place |
| CreateFileHere.Decide | extensions/create-file/src/create-file-here.tsx:23-58 | in place exactly when the path is non-empty and writable and the write succeeds, under the first free name; otherwise the fallback-disabled failure exactly when the preference is set; otherwise a clipboard copy of "name.ext" in the temporary directory exactly when neither step throws; a generic failure exactly when the step taken throws |
| CreateFileHere.EntriesAfter | extensions/create-file/src/create-file-here.tsx:29-35 | only a successful in-place run adds an entry to the explorer directory |
| CreateFileHere.InPlaceAddsOneEntry | extensions/create-file/src/create-file-here.tsx:29-35 | the file is never written over an existing entry: exactly one entry is added |
| CreateFileHere.InPlaceKeepsFreeName | extensions/create-file/src/create-file-here.tsx:32 | when "name.ext" is free, the file gets that name |
| CreateFileHere.Message | extensions/create-file/src/create-file-here.tsx:35-58 | the message starts with ✅ exactly in place, with 📋 exactly for the clipboard fallback, and with ❌ exactly for the two failures; an in-place message names the file and ends with the location, and a fallback message names the file |
| CreateFileHere.MessageTellsOutcome | extensions/create-file/src/create-file-here.tsx:35-58 | equal messages mean the same kind of outcome, the same failure, and for a fallback the same file name |

## Left out

- The automation calls are not modelled: AppleScript through `runAppleScript`, PowerShell and xdotool through `exec`. The model takes their outputs, and whether they threw, as inputs.
- The filesystem is not modelled. `existsSync`, `statSync`, `accessSync`, `writeFileSync` and `mkdirSync` become these inputs:
  - a set of entry names for the explorer directory;
  - a writability flag;
  - a set of steps that throw.
- `path.join` and `path.basename` are not modelled. A name is matched against the entries literally, and the basename is a function parameter.
- Names containing "/" or "..", which `path.join` would normalise, are not distinguished.
- `randomBytes` and `tmpdir` are not modelled: the temporary directory is an input.
- `getDesktopPath` is not modelled: no modelled operation calls it.
- The Raycast APIs are not modelled: `closeMainWindow`, `getPreferenceValues`, `showHUD` and `Clipboard.copy`. The preference is an input. The message is a value. A `showHUD` that throws is not modelled.
- Asynchronous ordering and concurrency are not modelled. Another process can create the chosen name between the existence check and the write. The model does not capture that race.
- `create-file-to-clipboard.tsx` is not part of this model. It only wraps `parseFileName` and `createFileInTmp`.
- The console logging is not modelled.
- Text.NatToString: the JavaScript counter is a double. It is exact only below 2^53 and is written in exponent notation from 1e21. The model renders an unbounded natural. Neither limit can be reached, because the counter never exceeds the number of entries plus two.
- CreateFileHere.Decide: a clipboard copy that throws after the temporary file exists is a generic failure. The model does not record that the temporary file was left behind.

## Notes

- The extension `parseFileName` returns can be empty: "foo." gives ("foo", ""), and "." gives ("", ""). The model follows the code, so a created file may end in a bare dot.
