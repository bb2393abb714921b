# SHSH blob config tools

A Dafny model of two small Python scripts:

- **`collect_blob_config.py`** walks through a series of console prompts and writes an SHSH blob config document. It asks for the device nickname, identifier, ECID, iOS version, optional build ID, restore type (menu), OTA URL, APNonce, generator, the cryptex pair and the baseband answers. When an OTA URL is needed it also runs `pzb` to fetch the build manifest. The document is written to `blobs/<nickname>/<device>-<ECID without ':'>-<build ID or version>.mkdn`.
- **`save_blobs.py`** reads a config document back. It pulls each field out with a label-anchored regular expression and builds one `tsschecker` argument list per restore mode. It skips OTA when the manifest file is missing.

Module layout:

- **`Text`** (`text.dfy`): the Python `str` behaviour the scripts rely on: `strip` with Python's whitespace set, ASCII `lower`, and single-character `replace`.
- **`Paths`** (`paths.dfy`): `os.path.join` with two arguments and `os.path.dirname`, with POSIX semantics.
- **`Collector`** (`collector.dfy`): the collector.
  - `ask` is a loop over a sequence of console answers.
  - The decision rules, names and document template are pure functions.
  - `main` is a method built from one step method per prompt group. It returns the path, the document text and the `pzb` call, or the error that stopped it.
- **`Requestor`** (`requestor.dfy`): the requestor.
  - `extract` is a pure literal-label search, equivalent to the one regular expression used.
  - The reference list of calls is the function `Commands`.
  - `main`'s loop is the method `BuildRuns`. Each iteration calls `BuildCall`, which grows `cmd` by appending, the way the script does. `BuildRuns` is proved equal to `Commands`.
- **`RoundTrip`** (`roundtrip.dfy`): the two scripts together. A clean config (no value holds a backtick, newline, carriage return or `*`) rendered by the collector is read back field by field by the requestor, and the calls that follow from it are derived.

Console answers, the manifest download outcome, and file existence are all inputs. The model performs no I/O.

## Model

| member | source | states |
|---|---|---|
| Text.TrimStart | collect_blob_config.py:17 | `lstrip` never lengthens the answer, and what it keeps does not start with whitespace |
| Text.TrimStartIsSuffix | collect_blob_config.py:17 | what `lstrip` keeps is a suffix of the answer |
| Text.TrimStartRemovesSpace | collect_blob_config.py:17 | everything `lstrip` drops is Python whitespace |
| Text.TrimEnd | collect_blob_config.py:17 | `rstrip` never lengthens the answer, and what it keeps does not end with whitespace |
| Text.TrimEndIsPrefix | collect_blob_config.py:17 | what `rstrip` keeps is a prefix of the answer |
| Text.TrimEndRemovesSpace | collect_blob_config.py:17 | everything `rstrip` drops is Python whitespace |
| Text.Strip | collect_blob_config.py:17 | `strip` never lengthens the answer, and the result neither starts nor ends with whitespace |
| Text.StripRemovesOnlySpace | collect_blob_config.py:17 | `strip` returns a slice of the input surrounded only by whitespace |
| Text.StripUnchanged | save_blobs.py:26 | `strip` leaves a string without surrounding whitespace unchanged |
| Text.StripIdempotent | collect_blob_config.py:23 | stripping twice equals stripping once |
| Text.Lower | save_blobs.py:76 | `lower` keeps the length and maps every character by the ASCII case rule |
| Text.ReplaceChar | collect_blob_config.py:49 | `replace(a, b)` keeps the length and swaps exactly the `a` characters for `b` |
| Text.RemoveChar | collect_blob_config.py:82 | `replace(a, "")` leaves no `a`, never lengthens the text, and is the identity when there is no `a` |
| Text.RemoveCharKeepsCounts | collect_blob_config.py:82 | `replace(a, "")` keeps every other character as often as it occurs |
| Text.RemoveCharOfConcat | collect_blob_config.py:82 | `replace(a, "")` works piece by piece, so the kept characters stay in their order |
| Paths.Join | collect_blob_config.py:85 | an absolute second part is the result; a non-empty first part not ending in `/` is followed by `/` and the second part; an empty first part, or one ending in `/`, is followed directly by the second part |
| Paths.AfterLastSlash | save_blobs.py:31 | the position after the last `/`, with no `/` after it |
| Paths.TrimEndSlashes | save_blobs.py:31 | the head without its trailing slashes, removing nothing else |
| Paths.Dirname | save_blobs.py:31 | `dirname` is a prefix of the path and is empty when the path has no `/` |
| Paths.DirnameOfJoin | save_blobs.py:31 | the directory of a file joined onto a directory is that directory |
| Collector.Asked | collect_blob_config.py:15-20 | `ask` consumes at least one answer when it returns one; the value is accepted (non-empty, or any answer when optional) and stripped; end of input leaves no answer unread |
| Collector.AskedIsFirstAccepted | collect_blob_config.py:15-20 | the returned value is the stripped answer just before the returned position, and every answer passed over was refused; at end of input every remaining answer was refused |
| Collector.AskedTyped | collect_blob_config.py:15-20 | an already stripped, acceptable answer is returned as typed, after one prompt |
| Collector.Accepts | collect_blob_config.py:18 | an optional prompt accepts any answer; a required one accepts exactly the non-empty answers |
| Collector.Ask | collect_blob_config.py:15-20 | the loop returns exactly what `Asked` specifies for the same answers and position |
| Collector.Yesno | collect_blob_config.py:22-26 | an empty stripped answer gives the default; otherwise true iff the answer starts with `y` or `Y` |
| Collector.YesnoIgnoresSpace | collect_blob_config.py:22-26 | surrounding whitespace never changes a yes/no answer |
| Collector.YesnoOfStripped | collect_blob_config.py:22-26 | a stripped non-empty answer is yes iff it starts with `y` or `Y` |
| Collector.BeforeDot | collect_blob_config.py:30 | `split(".")[0]` is the prefix up to the first `.` and contains no `.` |
| Collector.IosMajor | collect_blob_config.py:28-32 | a major version exists iff the text before the first `.` is a digit string of at most 4300 digits (the longest `int()` converts) |
| Collector.IosMajorOfDecimal | collect_blob_config.py:28-32 | a version `n` or `n.<rest>` has major version `n` when `n` has at most 4300 digits, and none otherwise |
| Collector.RestoreMenu | collect_blob_config.py:63 | `rtmap` has the one-character keys "1" to "4" and maps them to ota, update, erase and all, each type once |
| Collector.RestoreChoice | collect_blob_config.py:63-64 | only one-character choices select a restore type |
| Collector.RestoreChoiceIsMenuLookup | collect_blob_config.py:63-64 | the choice is the lookup in the `rtmap` dictionary; `None` where it raises `KeyError` |
| Collector.RestoreMenuChoices | collect_blob_config.py:63-64 | "1" to "4" select ota, update, erase and all exactly; every other choice is an error |
| Collector.RestoreNamesDistinct | collect_blob_config.py:63 | different restore types have different names |
| Collector.MenuKey | collect_blob_config.py:63 | every restore type has a menu key that the menu maps back to it |
| Collector.OtaRequested | collect_blob_config.py:67 | a URL and manifest are needed exactly when the restore type's name is "ota" or "all" |
| Collector.CryptexRequested | collect_blob_config.py:75 | `major and major >= 16` holds exactly when a major version exists and is at least 16 |
| Collector.CryptexRequestedIff | collect_blob_config.py:74-77 | for a version `n` or `n.<rest>`, the cryptex pair is asked for exactly when `n` is 16 or more and has at most 4300 digits |
| Collector.Nickname | collect_blob_config.py:49 | the nickname keeps its length, has no space, and each character is the answer's, with a space replaced by `-` |
| Collector.SafeEcid | collect_blob_config.py:82 | the sanitised ECID has no `:` and keeps the count of every other character |
| Collector.SafeEcidIdempotent | collect_blob_config.py:82 | sanitising twice equals sanitising once |
| Collector.SafeEcidKeepsOrder | collect_blob_config.py:82 | sanitising a concatenation sanitises each part, so the kept characters stay in order |
| Collector.Suffix | collect_blob_config.py:83 | the build ID when non-empty, otherwise the iOS version |
| Collector.Filename | collect_blob_config.py:84 | the file name starts with the device and `-` and ends with `.mkdn` |
| Collector.FilenameSeparatesFirmware | collect_blob_config.py:84 | two file names of one device and ECID are equal only when their suffixes are |
| Collector.DeviceDir | collect_blob_config.py:58 | the device folder is `blobs/<nickname>`, and a directory of `blobs` when the nickname has no `/` |
| Collector.PzbCommand | collect_blob_config.py:36-39 | the download is one `pzb -g` call whose last argument is the typed URL |
| Collector.PyBool | collect_blob_config.py:107 | the cellular answer is written as `True` or `False`, `True` exactly for a cellular device |
| Collector.Line | collect_blob_config.py:91-108 | a field line is eleven characters longer than its label and value, ends with a newline, and has no other newline when label and value have none |
| Collector.HeadingBefore | collect_blob_config.py:88-106 | the template has headings only before fields 0, 4, 6 and 10, each a whole line starting with `#` or a blank line |
| Collector.Body | collect_blob_config.py:88-109 | the document from a field on is empty exactly past the last field, and otherwise ends with a newline |
| Collector.Render | collect_blob_config.py:88-109 | the written document is non-empty and ends with a newline |
| Collector.Entries | collect_blob_config.py:88-109 | the document has twelve field lines carrying the template labels in template order |
| Collector.LabelsDistinct | collect_blob_config.py:91-108 | no label occurs twice in the template |
| Collector.DeviceStep | collect_blob_config.py:49-54 | the five device prompts: the nickname is non-empty with no space; device, ECID and version are non-empty; every answer is stripped; the only error is end of input |
| Collector.AskDevice | collect_blob_config.py:49-54 | the device prompts return exactly `DeviceStep` of the answers |
| Collector.OtaStep | collect_blob_config.py:66-69 | for ota and all a non-empty stripped URL is read and its `pzb` call made, and a failed download is an error; otherwise no answer is read and the URL is empty |
| Collector.AskOta | collect_blob_config.py:66-69 | the OTA prompt returns exactly `OtaStep` of the answers |
| Collector.RestoreStep | collect_blob_config.py:61-69 | the restore type is the menu lookup of the first accepted answer; an invalid non-empty choice is an error with no retry; then the OTA rule |
| Collector.AskRestore | collect_blob_config.py:61-69 | the restore prompts return exactly `RestoreStep` of the answers |
| Collector.CryptexStep | collect_blob_config.py:74-77 | seed and nonce are read, non-empty, exactly when `CryptexRequested(major)`; otherwise both are `""` and no answer is read |
| Collector.AskCryptex | collect_blob_config.py:74-77 | the cryptex prompts return exactly `CryptexStep` of the answers |
| Collector.BasebandStep | collect_blob_config.py:79-80 | cellular is `yesno` of the next answer with default no; the SNUM is the next accepted answer when cellular, otherwise "N/A" with nothing more read |
| Collector.AskBaseband | collect_blob_config.py:79-80 | the baseband prompts return exactly `BasebandStep` of the answers |
| Collector.SecurityStep | collect_blob_config.py:71-80 | APNonce and generator are non-empty, followed by the cryptex and baseband rules |
| Collector.AskSecurity | collect_blob_config.py:71-80 | the security prompts return exactly `SecurityStep` of the answers |
| Collector.Dialogue | collect_blob_config.py:46-109 | a saved config respects every prompt rule; the document is the template filled with it, at `blobs/<nickname>/<filename>`; a `pzb` call is made exactly for ota and all; the error cases |
| Collector.Collect | collect_blob_config.py:46-109 | `main` returns exactly `Dialogue` of the answers and the download outcome |
| Collector.LinesAtSplit | collect_blob_config.py:46-80 | typed lines split into consecutive parts at consecutive positions |
| Collector.DeviceStepTyped | collect_blob_config.py:49-54 | typing the device values one per prompt yields those values and the position five lines on |
| Collector.RestoreStepTyped | collect_blob_config.py:61-69 | typing a menu key (and a URL when needed) yields that restore type, the URL and the `pzb` call, or the download error |
| Collector.CryptexStepTyped | collect_blob_config.py:74-77 | typing seed and nonce when asked yields them; nothing is read otherwise |
| Collector.BasebandStepTyped | collect_blob_config.py:79-80 | typing a yes/no answer (and a SNUM when cellular) yields that cellular flag and SNUM |
| Collector.SecurityStepTyped | collect_blob_config.py:71-80 | typing the security values one per prompt yields those values |
| Collector.DeviceSectionTyped | collect_blob_config.py:49-54 | the device section of `main` reads the first five typed lines into the device values |
| Collector.RestoreSectionTyped | collect_blob_config.py:61-69 | the restore section of `main` reads the typed menu key and URL |
| Collector.SecuritySectionTyped | collect_blob_config.py:71-80 | the security section of `main` reads the remaining typed lines |
| Collector.DialogueTyped | collect_blob_config.py:46-109 | answers starting with the typed lines of a writable config make `main` save exactly that config, unless the needed download fails |
| Collector.TypedAnswersCollected | collect_blob_config.py:46-109 | typing the values of any writable config, one per prompt, makes `main` save exactly that config under the typed nickname, unless the needed download fails; later answers are never read |
| Requestor.LazyValue | save_blobs.py:13 | `(.*?)` followed by a backtick captures the text up to the first backtick, fails when a newline comes first, and never contains a backtick or newline |
| Requestor.MatchAt | save_blobs.py:13 | a match at a position starts with `**key:**`; its value has no backtick or newline |
| Requestor.Extract | save_blobs.py:12-14 | an extracted value contains no backtick or newline |
| Requestor.ExtractNoneIffNoMatch | save_blobs.py:12-14 | `extract` gives `None` exactly when the pattern matches at no position |
| Requestor.ExtractIsLeftmostMatch | save_blobs.py:12-14 | a found value is the match at the first position where the pattern matches |
| Requestor.ReadFields | save_blobs.py:34-43 | none of the ten values read contains a backtick or a newline |
| Requestor.ReadFieldsMissing | save_blobs.py:34-43 | each of the ten fields read is `None` exactly when its label's pattern matches nowhere in the document |
| Requestor.Modes | save_blobs.py:48 | all expands to update, erase, ota in that order; any other type gives itself; the modes are distinct |
| Requestor.RunnableIff | save_blobs.py:48-81 | a config is runnable exactly when every call made for a mode that is not skipped has all its arguments |
| Requestor.VersionTextShowsVersion | save_blobs.py:51 | a found version is written as is; the text "None" appears exactly when the version is missing or is itself "None" |
| Requestor.OutDir | save_blobs.py:51 | the output directory is a directory of `<folder>/shsh` when version and mode have no `/` |
| Requestor.OutDirInjective | save_blobs.py:51 | different modes never share an output directory |
| Requestor.ManifestFile | save_blobs.py:46 | the manifest is a file of the device folder |
| Requestor.ModeFlags | save_blobs.py:66-74 | OTA adds `-m <manifest> -o`, update `-i <version> -u`, erase `-i <version> -E`, every other mode nothing |
| Requestor.CellularSaysNo | save_blobs.py:76 | a stored cellular answer that says no has one, two or five characters and starts with `n` or `f` in either case |
| Requestor.BasebandFlags | save_blobs.py:76-79 | `-b` iff cellular says no; `-c <SNUM>` iff not, with a stored SNUM that is non-empty and not "N/A"; never both |
| Requestor.Prefix | save_blobs.py:54-64 | every call has fifteen leading arguments: `tsschecker`, then the device, ECID, generator, APNonce and cryptex values at their flags, ending in `--save-path` |
| Requestor.Invocation | save_blobs.py:54-79 | a call is 16 to 21 arguments long, starts with `tsschecker`, and has the mode's output directory after `--save-path` |
| Requestor.CommandsFor | save_blobs.py:48-81 | at most one call per mode, and exactly one per mode when none is skipped |
| Requestor.Commands | save_blobs.py:48-81 | at most one call per mode, and one call per mode whenever the manifest exists |
| Requestor.Skipped | save_blobs.py:66-69 | only the OTA mode is ever skipped, and it is skipped exactly when the manifest file is missing |
| Requestor.BuildCall | save_blobs.py:54-79 | the argument list built for one mode that is not skipped is that mode's `Invocation` |
| Requestor.BuildRuns | save_blobs.py:45-81 | the loop's argument lists are exactly `Commands` of the fields |
| Requestor.SaveBlobs | save_blobs.py:24-81 | an empty or missing config path gives no calls; otherwise the calls are `Commands` of the extracted fields in the config's directory |
| Requestor.SamePrefixForEveryMode | save_blobs.py:54-64 | every call starts with the same fifteen arguments, whatever the mode, then the mode's output directory |
| Requestor.ModeSuffixes | save_blobs.py:66-79 | OTA appends the manifest and `-o`, update `-i <version> -u`, erase `-i <version> -E`, other modes nothing, all followed by the baseband flags |
| Requestor.MissingVersionOutDir | save_blobs.py:51 | without an iOS version every mode other than update and erase still runs, into a directory named `None-<mode>` |
| Requestor.AllModesCommands | save_blobs.py:48-81 | all makes the update and erase calls, then the OTA call only when the manifest exists |
| Requestor.SingleModeCommands | save_blobs.py:48-81 | any other restore type makes one call, or none for OTA without a manifest |
| Requestor.AllModesDistinctDirs | save_blobs.py:51 | the three calls of all save to three different directories |
| RoundTrip.SkipNoMatch | save_blobs.py:13 | text where no match starts can be skipped by the search |
| RoundTrip.SkipOtherLabel | save_blobs.py:13 | the label of a different field never starts a match for the key |
| RoundTrip.LazyValueStops | save_blobs.py:13 | a clean value followed by a backtick is captured exactly |
| RoundTrip.MatchOwnLabel | save_blobs.py:13 | the field line of the key yields its value |
| RoundTrip.ExtractBody | collect_blob_config.py:88-109 | searching the document from a field on finds the first later line whose label is the key |
| RoundTrip.LabelsWellFormed | collect_blob_config.py:91-108 | every template label is non-empty, has no `:` or `*`, and does not start with a space |
| RoundTrip.ExtractEveryLine | collect_blob_config.py:88-109 | in a document of clean values, every template label finds its own line's value |
| RoundTrip.RenderRoundTrip | collect_blob_config.py:88-109 | for a config whose values have no backtick, newline, carriage return or `*`, extracting any label from the rendered document gives the value written |
| RoundTrip.ReadDocument | save_blobs.py:34-43 | when every label finds its value, the fields read are those values |
| RoundTrip.ReadRendered | save_blobs.py:34-43 | reading a rendered clean config gives back every field written, including every argument and the iOS version |
| RoundTrip.WrittenBaseband | save_blobs.py:76-79 | a document written for a non-cellular device yields `-b`; a cellular one yields `-c <SNUM>` unless the SNUM is empty or "N/A" |
| RoundTrip.WrittenModes | save_blobs.py:48 | a written restore type expands to the three modes for all, otherwise to its own name |
| RoundTrip.RenderedCommands | save_blobs.py:48-81 | a rendered clean config is runnable, and its calls follow its restore type and whether the manifest exists |
| RoundTrip.SavedFolder | save_blobs.py:31 | the requestor's folder for a saved document is `blobs/<nickname>` when neither the nickname nor the file name has a `/` |

## Left out

- Console I/O, `print`, `os.makedirs`, `open`/`write`, `shutil.move` and `os.path.exists`. Answers arrive as a sequence of lines; config and manifest existence are booleans.
- The `pzb` and `tsschecker` processes. Only their argument lists are modelled. `download_buildmanifest` is its argument list plus a boolean outcome, and a failed download ends `Collect` with `ManifestDownloadFailed`.
- `run_tsschecker`'s exit when `tsschecker` is missing, and the tool's exit status, which the script ignores.
- Collector.Ask: the end of input that makes Python's `input` raise `EOFError` becomes `None`, and the step methods turn it into `EndOfInput`.
- Collector.IosMajor: only ASCII digits are accepted. Python's `int` also accepts surrounding whitespace, a sign, underscores and non-ASCII digits. The 4300-digit limit is CPython's default (`sys.int_info.default_max_str_digits`); a limit changed with `sys.set_int_max_str_digits` or `PYTHONINTMAXSTRDIGITS`, and interpreters without the limit, are not modelled.
- Text.Lower: only ASCII letters are mapped. Python's `lower` also maps non-ASCII letters.
- Paths.Join: it takes exactly two components, as every call in the scripts does.
- Requestor.SaveBlobs: it requires `Runnable`. Every call that runs needs the device, ECID, generator, APNonce, cryptex seed and cryptex nonce; update and erase also need the iOS version. When one of them is missing, `extract` returns `None` and Python raises `TypeError` inside `subprocess.run`; that failure is not modelled. A missing iOS version with any other mode is modelled: it only appears as "None" in the output directory. A missing restore type is modelled too: it runs as the single mode "None".
- Reading the config file: `open(cfg_path, "r")` decodes the bytes and turns `\r` and `\r\n` into `\n`. The model reads the document as it was written, which is the same text whenever no value holds a carriage return. The round-trip lemmas require clean values, which have none.
- Requestor.BuildRuns: the script builds the start of `cmd` before it tests for a skipped OTA run; the model tests first, because it cannot build a list holding a missing field. The calls made are the same, and the `os.makedirs` before the test is left out with the rest of the I/O.

Behaviour kept as the code has it:

- The cryptex fields are the empty string when they are not asked for.
- `-x` and `-t` are in every `tsschecker` call, whatever the version and whatever the field's value.
- An invalid restore menu choice ends the run with an error; it is not asked again.
- `main` always writes a new document at the computed path; there is no path that edits an existing one.
- The template writes twelve field lines, Build ID and OTA URL included, and all twelve are modelled. The requestor reads ten of them.
