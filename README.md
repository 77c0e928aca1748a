# DaObfu and Tado, modelled in Dafny

This project models two small Python desktop tools and proves properties of the models.

**DaObfu** (`DaObfu/daobfu.py`) is a PowerShell script obfuscator. `obfuscate_script` runs these steps in order:

1. It can delete comment lines and whitespace-only lines (`remove_comments_and_whitespace`).
2. It can rename every `$variable` that is not reserved to `$` plus eight random letters and digits.
3. It can Base64-encode the UTF-8 bytes of the script and wrap them in a one-line `IEX (...)` loader.
4. It writes the result next to the input as `<base>_obfuscated<ext>`.

The modules are:

- `Normalizer`: the two MULTILINE regex substitutions, as scanners over the lines of the text.
- `Renamer`: the variable search, the per-variable `re.sub`, and the renaming loop.
- `Utf8`, `Base64` and `Loader`: the encoding, and the loader that decodes it again.
- `Paths`: `os.path.splitext` and the output name.
- `Obfuscator`: the whole pipeline.
- `Text`: Python whitespace, `str.strip()`, `str.lower()` and the line view, shared by both tools.

The main results:

- The renamed script is the original token sequence with every non-reserved variable mapped through one table to a generated name, provided no generated name equals a name in the script. Characters and reserved variables are unchanged in every case.
- The character-level `re.sub` with its `\b` is proved to rename exactly the whole tokens.
- The loader command evaluates back to exactly the script it wraps.
- The output path keeps the input's extension and never equals the input path.

**Tado** (`Tado/tado.py`) is a weekly to-do app. It keeps one task list per weekday, the day on display, and a cached temperature with the time it was fetched. Module `Tado` models these as the class `TodoApp`:

- its handlers `add_task`, `toggle_task`, `save_edited_task` and `switch_day`;
- the staleness test of `update_weather`;
- `load_tasks` on a saved file given as a value. Its loop is the method `ReadDays`.

`save_tasks` is modelled as the function `SaveData`. Saving and then loading is proved to give back every day's list.

Two behaviours of the code as written are proved as they are:

- `timedelta.seconds` drops whole days. So the staleness test repeats daily: a reading one day and ten minutes old counts as fresh again, and a stamp slightly in the future counts as stale (`StalenessRepeatsDaily`).
- `save_tasks` stamps the temperature with the time of saving, not the time of fetching. So a restart within the hour adopts a reading of any age (`SaveLoadWeather`).

Times are integers in microseconds, passed in as parameters.

## Model

| member | source | states |
|---|---|---|
| Renamer.GenerateRandomName | DaObfu/daobfu.py:9-10 | Eight draws from the 62-character alphabet give an 8-character name of ASCII letters and digits. Character i is the draw i. |
| Renamer.GeneratedNamesReachable | DaObfu/daobfu.py:9-10 | Every 8-character name of letters and digits is the result of some draws. |
| Normalizer.StripCommentLines | DaObfu/daobfu.py:14 | The comment scanner leaves no comment line. Every line it returns is empty or an input line. It never returns more lines or a wider text than it was given, and it returns no lines exactly when it was given none. |
| Normalizer.StripCommentLinesReference | DaObfu/daobfu.py:14 | The scanner equals an independent reading of `^\s*#.*$`: each comment line becomes empty, a blank line disappears exactly when only blank lines separate it from a later comment line, and every other line stays. |
| Normalizer.SwallowExample | DaObfu/daobfu.py:14 | The lines `a`, a blank line, `# c` and `b` become `a`, an empty line and `b`: the blank line goes with the comment. |
| Normalizer.CommentRunExample | DaObfu/daobfu.py:14 | The lines `# a`, an empty line and `# b` become two empty lines: the empty line goes with the second comment. |
| Normalizer.KeptBlankExample | DaObfu/daobfu.py:14 | A blank line between two code lines stays. |
| Normalizer.StripCommentsSpec | DaObfu/daobfu.py:13-14 | `StripComments`, the substitution on the whole text: after comment removal no line is a comment line. The non-blank non-comment lines are exactly those of the input, in order. The text never grows. |
| Normalizer.StripCommentLinesKeepsCode | DaObfu/daobfu.py:14 | Line by line, the comment scanner keeps the code lines (non-blank, not starting with '#') exactly. |
| Normalizer.StripCommentLinesIdentity | DaObfu/daobfu.py:14 | A text without comment lines is left unchanged. |
| Normalizer.DropBlankLines | DaObfu/daobfu.py:16 | The blank-line scanner leaves no blank line except possibly the last, keeps the last line as it was, and returns only input lines. It never returns more lines or a wider text, and it returns no lines exactly when it was given none. |
| Normalizer.StripBlankLinesSpec | DaObfu/daobfu.py:15-16 | `StripBlankLines`, the substitution on the whole text: after blank-line removal only the final unterminated line can be blank. The non-blank lines are exactly those of the input, in order. The text never grows. |
| Normalizer.DropBlankLinesReference | DaObfu/daobfu.py:16 | The scanner equals the reference: every non-blank line among the terminated lines, then the final line, blank or not. |
| Normalizer.DropBlankLinesKeepsNonBlank | DaObfu/daobfu.py:16 | Blank-line removal keeps the non-blank lines exactly. |
| Normalizer.RemoveCommentsAndWhitespace | DaObfu/daobfu.py:12-17 | With both flags off the script is returned unchanged. |
| Normalizer.BlankLinesOnlyKeepsComments | DaObfu/daobfu.py:15-16 | With only the blank-line flag set, every full-line comment survives unchanged and in order. |
| Normalizer.RemoveBothSpec | DaObfu/daobfu.py:12-17 | With both flags on, no comment line remains. No blank line remains except possibly the last. The text never grows. |
| Normalizer.DropBlankLinesNoComment | DaObfu/daobfu.py:16 | Blank-line removal brings back no comment line. |
| Renamer.Lex | DaObfu/daobfu.py:27 | Cutting the text into characters and `$name` tokens loses nothing (`Unlex(Lex(s)) == s`). Tokens are `[a-zA-Z_][a-zA-Z0-9_]*` names closed by a word boundary. |
| Renamer.FindallShape | DaObfu/daobfu.py:27-29 | `Findall`, the `re.findall` call: each match of the variable regex is '$' followed by an identifier, and its bare name (`var[1:].split(':')[0]`) is that identifier. |
| Renamer.WordNameHasNoColon | DaObfu/daobfu.py:29 | Splitting a matched name at ':' never shortens it. |
| Renamer.BeforeColon | DaObfu/daobfu.py:29 | The result is the longest prefix without ':', and a ':' follows it when it is shorter than the input. |
| Text.Lower | DaObfu/daobfu.py:30 | Lower-casing keeps the length and maps each character on its own. |
| Renamer.ExcludedIgnoresCase | DaObfu/daobfu.py:25-30 | Reserved names are compared case-insensitively (`$ENV` and `$True` are reserved). |
| Renamer.GeneratedNeverExcluded | DaObfu/daobfu.py:25-31 | No generated name is a reserved name. |
| Renamer.ReplaceIsRename | DaObfu/daobfu.py:32 | `Replace`, the scanner for `re.sub(re.escape(var) + r'\b', new, text)` on well-formed text renames exactly the tokens equal to `var`. |
| Renamer.ReplaceRespectsBoundary | DaObfu/daobfu.py:32 | Renaming `$foo` leaves `$foobar` untouched. |
| Renamer.ReplaceAtBoundary | DaObfu/daobfu.py:32 | Renaming `$foo` rewrites `$foo+1`. |
| Renamer.RenameStep | DaObfu/daobfu.py:28-32 | One loop step is a reserved name skipped, or a `re.sub` with the next generated name. Either way it equals renaming tokens and keeps the text well formed. |
| Renamer.ObfuscateVariables | DaObfu/daobfu.py:25-32 | The loop visits each distinct match once, in some order that it reports. The result is the token-level renaming along that order. |
| Renamer.EnumerationNames | DaObfu/daobfu.py:27-28 | The visited variables have distinct bare names, each naming a token of the text. |
| Renamer.RenameAllKeeps | DaObfu/daobfu.py:25-32 | Whatever order the loop takes and whatever names it draws, every character and every reserved variable stays as it was, at its place. |
| Renamer.RenameAllIsTable | DaObfu/daobfu.py:28-32 | The successive renamings compose into one table lookup, provided no generated name equals a visited name. |
| Renamer.TableKeysVisited | DaObfu/daobfu.py:28-31 | Every name in the table is a visited variable. |
| Renamer.TableKeysComplete | DaObfu/daobfu.py:28-31 | Every visited non-reserved variable is in the table. |
| Renamer.TableValues | DaObfu/daobfu.py:31 | Every new name is one of the names drawn so far. |
| Renamer.TableCoversTokens | DaObfu/daobfu.py:28-31 | Every non-reserved token of the text has a generated name in the table. |
| Renamer.RenamingSpec | DaObfu/daobfu.py:25-32 | The output replaces each non-reserved token by its table name and keeps characters and reserved tokens, assuming no generated name collides with a name in the text. |
| Utf8.Encode | DaObfu/daobfu.py:36 | `str.encode('utf-8')` writes between one and four bytes per character. |
| Utf8.DecodeEncode | DaObfu/daobfu.py:36 | Strict UTF-8 decoding undoes `str.encode('utf-8')`. |
| Utf8.EncodeInjective | DaObfu/daobfu.py:36 | Different scripts encode to different bytes. |
| Utf8.EncodeAscii | DaObfu/daobfu.py:36 | An ASCII script encodes to its own code points, one byte per character. |
| Base64.Encode | DaObfu/daobfu.py:36 | `b64encode` of n bytes is 4 * ceil(n / 3) characters long. |
| Base64.EncodeIsPadded | DaObfu/daobfu.py:36 | `b64encode` writes a multiple of four alphabet characters, with '=' only as one or two closing characters. |
| Base64.DecodeEncode | DaObfu/daobfu.py:36-37 | `FromBase64String` undoes `b64encode`. |
| Loader.Payload | DaObfu/daobfu.py:36 | The payload of the loader is well-formed padded Base64. |
| Loader.LoaderPayload | DaObfu/daobfu.py:37 | An extracted payload is exactly what sits between the loader's prefix and suffix. |
| Loader.RunLoaderWrap | DaObfu/daobfu.py:34-37 | `Wrap` builds the command of the f-string. The `IEX` loader decodes its payload back to exactly the wrapped script. |
| Loader.PayloadIsQuoteSafe | DaObfu/daobfu.py:37 | The payload contains no quote and no newline, so the PowerShell string literal closes where the suffix starts. |
| Paths.SplitExt | DaObfu/daobfu.py:39 | `os.path.splitext` cuts the path into a base and an extension that together are the path. |
| Paths.SplitExtExtension | DaObfu/daobfu.py:39 | A non-empty extension is one dot followed by characters that are neither dots nor separators. |
| Paths.OutputPath | DaObfu/daobfu.py:39-40 | The output path is the marker's length longer than the input path. |
| Paths.OutputPathSplit | DaObfu/daobfu.py:39-40 | The output path splits into the input's base plus `_obfuscated` and the input's extension, and it differs from the input path. |
| Obfuscator.ObfuscateScript | DaObfu/daobfu.py:19-45 | The pipeline output is the cleaned and renamed script, or its loader. The loader evaluates back to that script. All flags off means identity. The output path and the message follow the rules above. |
| Tado.DaysListsEveryDayOnce | Tado/tado.py:23 | The seven day names list every day exactly once. |
| Tado.EmptyWeek | Tado/tado.py:24 | The initial map has every day, each with an empty list. |
| Tado.TodoApp.constructor | Tado/tado.py:20-26 | The new app holds the loaded lists, starting from seven empty days, and the loaded weather, starting from "Loading..." and no update. Monday is on display. |
| Tado.TodoApp.LoadTasks | Tado/tado.py:438-467 | Loading sets the lists to `LoadedTasks` and the weather to `LoadedWeather` of the earlier state, and keeps the day on display. |
| Tado.ReadDays | Tado/tado.py:446-451 | The loop rebuilds the days in order until a value it cannot iterate. It reports how many days it rebuilt, and every day still has a list. |
| Tado.LoadDaysAt | Tado/tado.py:446-451 | After k days, each of the first k days holds its list from the file, and every other day keeps its earlier list. |
| Tado.LoadDaysAll | Tado/tado.py:446-451 | After all seven days, every list comes from the file alone. |
| Tado.LoadedTasksEveryDay | Tado/tado.py:446-451 | A file whose days all hold lists rebuilds every day, and a day missing from the file gets an empty list. |
| Tado.LoadStopsAtBadDay | Tado/tado.py:446-470 | A day value that cannot be iterated stops loading there. Earlier days are rebuilt, and later days and the weather keep their state. |
| Tado.LeadingIterableIs | Tado/tado.py:446-451 | Loading stops exactly at the first day whose value cannot be iterated. |
| Tado.AllIterable | Tado/tado.py:446-451 | A file whose days all hold lists is read in full. |
| Tado.NormalizeRecords | Tado/tado.py:428-450 | A list written as records loads back unchanged. |
| Tado.RecordsReadBack | Tado/tado.py:428-451 | The saved days read back day by day give the saved lists. |
| Tado.SaveLoadTasks | Tado/tado.py:428-451 | Saving and then loading gives back every day's list exactly. |
| Tado.SaveLoadWeather | Tado/tado.py:428-463 | Within an hour of saving, loading adopts the saved temperature, stamped with the time of saving. |
| Tado.TimedeltaSeconds | Tado/tado.py:461 | `timedelta.seconds` is always below one day's 86400 seconds. |
| Tado.FreshWithinHour | Tado/tado.py:181 | A reading less than an hour old is fresh. |
| Tado.StaleAfterHour | Tado/tado.py:181 | A reading from one hour to one day old is stale. |
| Tado.StalenessRepeatsDaily | Tado/tado.py:181 | The staleness test repeats every day. A reading a day and ten minutes old is fresh again, and a future stamp is stale. |
| Tado.TodoApp.UpdateWeather | Tado/tado.py:177-184 | An update is needed exactly when there is no reading or its `.seconds` age is at least an hour. A reading less than an hour old never triggers one. |
| Text.StripIsTrimmedSlice | Tado/tado.py:361 | `strip()` returns a slice with only whitespace around it and no whitespace at either end. |
| Text.StripEmptyIffBlank | Tado/tado.py:409 | A text strips to empty exactly when it is all whitespace. |
| Tado.TodoApp.AddTask | Tado/tado.py:360-366 | The current day's list becomes `Appended` of it, other days are unchanged, and every day keeps a list. |
| Tado.AppendedSpec | Tado/tado.py:361-363 | A blank entry adds nothing. Any other entry appends one unfinished task holding the stripped, non-empty text and keeps the earlier tasks. |
| Tado.TodoApp.ToggleTask | Tado/tado.py:420-424 | It fails with IndexError exactly when the index is past the end, and then nothing changes. Otherwise the current day's list becomes `Toggled`. |
| Tado.ToggledSpec | Tado/tado.py:421-422 | Toggling flips only the chosen task's completion, and toggling twice restores the list. |
| Tado.TodoApp.SaveEditedTask | Tado/tado.py:408-418 | It fails with IndexError exactly when the index is past the end, and then nothing changes. Otherwise the current day's list becomes `Edited`. |
| Tado.EditedSpec | Tado/tado.py:409-414 | Non-blank text replaces the task's text by the stripped text and keeps its completion and the other tasks. Blank text removes the task and shifts the later tasks down. |
| Tado.RemovedSpec | Tado/tado.py:414 | `pop(i)` drops exactly the i-th task: earlier tasks stay, later ones shift down, and the multiset loses only that task. |
| Tado.TodoApp.SwitchDay | Tado/tado.py:307-315 | The chosen day is on display afterwards, and every day still has a list. |

## Left out

- The Tkinter and customtkinter windows, widgets, dialogs and redraws (`show_day_tasks`, `create_day_blocks`, clearing the entry field after `add_task`) are not modelled. The Copied app is not part of this model.
- Reading and writing files are not modelled, in either tool. `obfuscate_script` takes the script text and returns the text to write. `load_tasks` takes the parsed file as a value (`SavedFile`), and `save_tasks` returns one (`SaveData`). Universal-newline translation on reading is not modelled; the text is taken as read.
- JSON is not modelled beyond the shapes the loader distinguishes. Non-string task text, records missing a key, and extra keys of the tasks object are folded into `Entry`, `DayValue` and `Unreadable`. `load_tasks` never reads the extra keys.
- `fetch_weather` and `get_location` are not modelled: they do network I/O on a thread, and the temperature they set is an input here. When the location lookup fails, `fetch_weather` still sets the temperature to "N/A°F" and stamps the update time, so no new fetch is due for an hour. When the weather request itself raises, the temperature becomes "N/A°F" and the stamp keeps its earlier value. `UpdateWeather` only decides whether a fetch is due.
- The periodic rescheduling (`after(60000, ...)`) and `update_clock` are not modelled. They are timers and display only. The current time is a parameter.
- Timestamps with a time zone make the subtraction raise. They are modelled like an invalid stamp (`BadStamp`): the weather is not adopted.
- Tado.TodoApp.SwitchDay: only the seven days can be chosen, which is all the day blocks offer.
- Renamer.Lex: `\b` is taken over ASCII word characters. Python's Unicode `\b` also counts non-ASCII letters and digits as word characters, so a variable directly followed by one (`$abcé`) is not modelled.
- Text.Lower: only ASCII letters are lower-cased. `str.lower()` also folds other letters, but it is applied only to names the variable regex matched, which are ASCII.
- Loader.RunLoader: the UTF-8 decoder is strict and gives None on malformed bytes, where .NET's `UTF8.GetString` substitutes U+FFFD. Only `Wrap` output is decoded, and its bytes are always well formed.
- Base64.DecodeEncode: the decoder is the strict one the loader needs for this payload. .NET's `FromBase64String` also skips whitespace inside the text, which the encoder never produces.
- Renamer.RenamingSpec: the table reading needs the generated names to differ from the names in the script. If a random name happened to equal a variable renamed later, the code would rename it again. `ObfuscateVariables` and `RenameStep` state the behaviour without that assumption.
- Renamer.ObfuscateVariables: the iteration order of `set(variables)` is not modelled. The method picks some order and reports it, and every property holds for every order.
