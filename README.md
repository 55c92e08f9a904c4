# Real-estate listing parsers, modelled in Dafny

Two Python scripts turn saved listing pages (`backend/website/*.html`) into
JSON records (`backend/json/<stem>.json`):

- `parse.py` is the incremental batch driver. It reads the ledger
  `backend/parsed.log` into a set of names. It walks the directory listing
  and skips names that do not end in `.html` or are already in the ledger.
  For every other file it builds a record, writes it, and then appends the
  file name to the ledger. The first failure stops the run. The run always
  ends with an exit status of 0, 1, 3 or 4.
- `parse_2.py` builds a richer record `podaci` for every `.html` file in
  the listing. It has no ledger and no error handling: the first exception
  ends the script.

The model has three layers:

- **Text, sequence and dict layer.** `Text` covers `endswith`, `in`,
  `str.replace`, `strip` and `os.path.splitext`. `Seqs` covers `zip`,
  comprehensions and nested appends. `PyDict` models a Python `dict` as a
  sequence of key/value pairs: a new key is appended, and an existing key
  is updated in place. `Ledger` gives the set of names read back from the
  ledger's text.
- **Record layer.** `ParseRecord` and `Parse2Record` build each script's
  record from what the page's selectors yield. The per-page selector
  results are given as a `Page` / `Page2` value. Each loop that fills the
  record is a `method` proved equal to a specification function, and the
  record's properties are lemmas about those functions.
- **Driver layer.** `ParseDriver` and `Parse2Driver` model the runs.
  `Storage.Disk` is a class holding the ledger text, the outputs and the
  log. The runs change it in place, and each run's method is proved equal
  to a function of the old state (`RunSpec`, `Run2Spec`). The file system
  and the HTML parser enter through an `Env` value: a function per
  operation, returning a result or the exception it raises. The loops take
  the record builder as a parameter, so the driver lemmas hold for any
  builder; the runs use `RecordOf` and `PodaciOf`.

## Model

| member | source | states |
|---|---|---|
| Text.ContainsIff | parse_2.py:94 | `Contains(s, p)`, the model of `p in s`, holds exactly when `s` splits as `a + p + b` |
| Text.ReplaceAbsent | parse_2.py:87 | `str.replace` leaves a text that does not contain the pattern unchanged |
| Text.RemoveLength | parse_2.py:87 | removing a non-empty text shortens the input by its length times its number of non-overlapping occurrences |
| Text.RemoveLeading | parse_2.py:87 | a leading "Adresa: " is removed whatever follows it |
| Text.RemoveIsSinglePass | parse_2.py:87 | `replace` makes one left-to-right pass: removing "ab" from "aabb" leaves "ab" |
| Text.ReplaceCharAt | parse.py:98 | replacing one character by another acts position by position and keeps the length |
| Text.ReplaceCharGone | parse.py:98 | after `.replace("\n", " ")` no "\n" is left |
| Text.FoldNewlines | parse.py:78 | `.replace("\n", " ")`: same length, every "\n" becomes a space, every other character is kept |
| Text.StripStart | parse.py:50 | `lstrip`: the result is a suffix, only white space was removed, and it does not start with white space |
| Text.StripEnd | parse.py:50 | `rstrip`: the result is a prefix, only white space was removed, and it does not end with white space |
| Text.StripTrimmed | parse.py:50 | a text that neither starts nor ends with white space is its own strip |
| Text.StripSpaceFirst | parse.py:50 | a leading white-space character does not survive `lstrip` |
| Text.Take | parse.py:150 | `html[:1000]`: the first `min(len, 1000)` characters |
| Text.RFind | parse.py:135 | the last index of a character, or -1 when it does not occur |
| Text.SplitExt | parse.py:135 | `os.path.splitext`: stem and extension concatenate back to the name |
| Text.JsonNameOfPlain | parse.py:135 | a plain `.html` name's output is the name with `.html` replaced by `.json` |
| Text.JsonNameOfDotted | parse_2.py:98 | when only dots precede `.html`, the whole name is the stem |
| Text.JsonNameInjective | parse.py:135 | distinct plain `.html` names have distinct output names |
| Text.JsonNameCollision | parse_2.py:98 | `.html` and `.html.html` both write `.html.json` |
| Seqs.Zip | parse.py:93-96 | `zip` pairs by position and stops at the shorter side |
| Seqs.Map | parse.py:98 | applying the per-value newline fold at every position keeps the length and the order |
| Seqs.FilterAppend | parse_2.py:62-65 | an append-if loop filters piece by piece, keeping order and repetitions |
| Seqs.FilterMember | parse_2.py:62-65 | the filter keeps exactly the items that pass |
| Seqs.FilterMapAppend | parse.py:115 | a filtering comprehension works piece by piece |
| Seqs.FilterMapMember | parse.py:115 | an item is in a filtering comprehension exactly when some input produced it |
| Seqs.FlattenLength | parse.py:109-111 | the nested appends drop nothing: the length is the sum of the lengths |
| Seqs.FlattenMember | parse.py:109-111 | an item is in the concatenation exactly when it is in one of the lists |
| Seqs.FlattenAppend | parse.py:109-111 | concatenating lists works piece by piece, in order |
| PyDict.IndexOf | parse.py:99 | the position of a key, or the length when it is absent |
| PyDict.Get | parse.py:101-104 | `d.get(k)` is present exactly when `k` is a key, with the value paired with it |
| PyDict.GetAt | parse.py:101-104 | in a dict with distinct keys the value at a position is the one `get` returns |
| PyDict.Set | parse.py:99 | `d[k] = v`: an existing key keeps its position, a new key goes at the end, `k` now reads `v`, other keys read what they did, and distinct keys stay distinct |
| PyDict.SetAllGet | parse_2.py:39-45 | after a sequence of assignments every key reads the last value assigned to it, or its old value |
| PyDict.LastValueAt | parse_2.py:39-45 | the last assignment to `k` is the pair with key `k` that no later pair overrides |
| PyDict.LastValueFilterMap | parse_2.py:39-45 | for assignments made by a filtering loop, the last item that produces key `k` decides it |
| PyDict.ZipKeys | parse.py:93-99 | assigning zipped pairs gives distinct keys, in first-seen order of the shorter side's labels |
| PyDict.ZipGet | parse.py:93-99 | each zipped label reads the value at its last position |
| PyDict.SetAllKeys | parse.py:99 | assignments keep existing keys in place and add new keys in first-seen order |
| PyDict.SetAllExtends | parse_2.py:45 | assignments never move or remove a key |
| PyDict.SetAllValid | parse_2.py:45 | assignments keep the keys distinct |
| Ledger.UniversalPlain | parse.py:49 | text without "\r" is read back unchanged in text mode |
| Ledger.UniversalAppend | parse.py:49 | text read in two pieces reads the same, unless the first piece ends inside "\r\n" |
| Ledger.UniversalTerminated | parse.py:49 | text ending in "\n" still ends in "\n" after reading |
| Ledger.LinesJoin | parse.py:50 | iterating over the file's lines drops and adds nothing |
| Ledger.LinesShape | parse.py:50 | every line is non-empty, holds "\n" only at its end, and every line but the last ends in "\n" |
| Ledger.LinesAppend | parse.py:50 | after a complete line, the appended text starts new lines |
| Ledger.OneLine | parse.py:143 | a name written with its "\n" is one line |
| Ledger.StripLine | parse.py:50 | the line written for a recordable name strips back to the name |
| Ledger.AppendRecords | parse.py:142-143 | appending `name + "\n"` to a terminated ledger adds exactly `name` to the set read back, and the ledger stays terminated |
| Ledger.AppendAll | parse.py:142-143 | appending the lines of recordable names to a terminated ledger (empty or ending in "\n") adds exactly those names to the set read back |
| Ledger.NamesOneLine | parse.py:50 | a one-line ledger reads back as that line's strip |
| Ledger.LeadingSpaceNeverMatches | parse.py:50 | a name starting with white space is read back without it, so it never matches its own ledger line |
| Ledger.UnterminatedGlues | parse.py:142-143 | a ledger whose last line lacks "\n" glues the next name onto it, so neither name is read back |
| Storage.Disk.Write | parse.py:138-139 | the output file holds exactly the record; nothing else changes |
| Storage.Disk.Append | parse.py:142-143 | the text goes after what the ledger held; nothing else changes |
| Storage.Disk.Log | parse.py:146 | one entry is added at the end of the log; nothing else changes |
| ParseRecord.BuildBasicInfo | parse.py:92-99 | the loop's `basic_info` equals the assignments of the zipped pairs |
| ParseRecord.BasicInfoMeaning | parse.py:93-99 | exactly min(#labels, #values) assignments; the keys are the labels in first-seen order; a label reads the folded value of its last position |
| ParseRecord.BuildFeatures | parse.py:107-111 | the nested loops give the concatenation of every section's item texts, in order, empty ones kept |
| ParseRecord.ImageUrlsMeaning | parse.py:114-115 | a URL is listed exactly when it is non-empty and some image item carries it, as often as items carry it |
| ParseRecord.RecordShape | parse.py:118-132 | the record holds the thirteen keys of the literal, in order, each once |
| ParseRecord.ExtractRecord | parse.py:66-132 | the per-page steps build exactly `RecordOf` |
| Parse2Record.SetWhen | parse_2.py:74-83 | an optional assignment touches only its own key and only when the value was found |
| Parse2Record.BuildPodaci | parse_2.py:19-95 | the per-page steps build exactly `PodaciOf` |
| Parse2Record.AddDetails | parse_2.py:39-45 | the zip loop makes the assignments of the stored pairs, in order |
| Parse2Record.AddGroups | parse_2.py:54-68 | the section loop makes the group assignments, in order |
| Parse2Record.CollectItems | parse_2.py:60-65 | `stavke` is the non-empty item texts, in order |
| Parse2Record.AddOwner | parse_2.py:72-90 | the owner block makes the owner assignments |
| Parse2Record.WithOwnerFrame | parse_2.py:72-90 | the owner block keeps every key in place and changes only the five owner keys |
| Parse2Record.HeadShape | parse_2.py:28-32 | the literal has the keys `datoteka`, `naslov`, `cijena` |
| Parse2Record.HeadSurvives | parse_2.py:28-68 | `datoteka`, `naslov` and `cijena` hold the file name, title and price the literal set, unless a basic-details label or a group title of that name reassigns them, the later step winning |
| Parse2Record.PodaciShape | parse_2.py:28-95 | every record has distinct keys, starts with `datoteka`, `naslov`, `cijena`, and holds `opis` and `slike` |
| Parse2Record.PodaciDescription | parse_2.py:48-50 | `opis` holds the description, or `None`, whatever a basic-details label "opis" held; only a later group titled "opis" replaces it |
| Parse2Record.DetailsMeaning | parse_2.py:39-45 | a non-head label reads `v` exactly when its last stored pair holds `v`; a label with no stored pair reads nothing |
| Parse2Record.DetailsFromPairs | parse_2.py:39-45 | a non-head label reads the last value the loop assigned it |
| Parse2Record.DetailSurvives | parse_2.py:39-95 | a basic-details value reaches the record unless a later step assigns the same key |
| Parse2Record.GroupsMeaning | parse_2.py:53-68 | a group is assigned exactly for a titled section with non-empty items left, holding those items |
| Parse2Record.GroupItemsMeaning | parse_2.py:62-65 | a group's items are the section's non-empty item texts |
| Parse2Record.GroupSurvives | parse_2.py:67-95 | a group's list reaches the record unless the owner block or the images reuse its title |
| Parse2Record.PodaciOwner | parse_2.py:71-90 | with an owner block, `telefon_dostupan` is the call-seller flag and each agency field is replaced only when found; without one, no owner key changes |
| Parse2Record.WithOwnerValues | parse_2.py:72-90 | the values the owner block leaves under its five keys |
| Parse2Record.PhoneFlagPresence | parse_2.py:89-90 | `telefon_dostupan` is present exactly when the owner block is, or when an earlier step assigned that key |
| Parse2Record.SlikeMeaning | parse_2.py:93-94 | `slike` holds exactly the `src` values that contain "image-xlsize", as often as they occur |
| Parse2Record.PodaciImages | parse_2.py:95 | `slike` is always present and holds the filtered image list |
| ParseDriver.Snippet | parse.py:150 | the first min(len, 1000) characters of the last HTML read with "\n" folded to spaces, or "[no HTML loaded]" |
| ParseDriver.Attempt | parse.py:60-146 | success exactly when the read, the parse, the write and the append all succeed; the output is written before the ledger line; a failed file adds no ledger line and no success entry, and at most its own output changes |
| ParseDriver.Loop | parse.py:53-153 | the log of the loop only grows |
| ParseDriver.LoopSnippet | parse.py:53-152 | a stopped loop ends with a failure entry for an eligible name reached without an earlier stop, whose snippet comes from the last text read up to and including that name, which may be an earlier file's, or from the incoming text (none at the start of a run) |
| ParseDriver.RunSpec | parse.py:41-165 | a run adds at least its "Started" and "Finished" entries to the log |
| ParseDriver.ProcessFile | parse.py:60-146 | one file on the disk does what `Attempt` says |
| ParseDriver.Run | parse.py:41-165 | a run on the disk leaves the state and the exit status `RunSpec` gives |
| ParseDriver.LoopFilter | parse.py:53-57 | the loop over the listing is the loop over its eligible names: other names change nothing |
| ParseDriver.LoopLogGrows | parse.py:53-153 | the loop's new log entries are only for eligible listed files |
| ParseDriver.LoopLogParsed | parse.py:146-153 | every new entry but the last is a success |
| ParseDriver.LoopLogEnds | parse.py:148-153 | the loop stopped exactly when its last new entry is a failure |
| ParseDriver.LoopLedger | parse.py:142-146 | the ledger gains exactly one line per success, in order |
| ParseDriver.LoopOutputs | parse.py:135-139 | outputs are never removed, and one changes only for the output name of an eligible listed file |
| ParseDriver.LoopLedgerBacked | parse.py:135-143 | every file the loop records in the ledger was read, parsed, written and appended without a fault, and has an output |
| ParseDriver.FailFast | parse.py:148-153 | after the first failure, the rest of the listing is never looked at |
| ParseDriver.LoopComplete | parse.py:53-146 | a loop that was not stopped records every eligible listed file |
| ParseDriver.LoopSkipsAll | parse.py:53-57 | a listing with no eligible name changes nothing |
| ParseDriver.RunLog | parse.py:41-165 | the log is "Started", file entries, at most one handler entry, "Finished"; a failure entry appears exactly when the loop stopped |
| ParseDriver.LoopEntries | parse.py:146-151 | the loop's new entries are file entries, with a failure among them exactly when it stopped |
| ParseDriver.ExitCodeRules | parse.py:44-165 | exit 0 when nothing went wrong; 1 exactly when a configuration error is logged, even after a file failure; 3 for a file failure otherwise; 4 for another error outside the per-file block |
| ParseDriver.ExitCodeFault | parse.py:148-161 | the exit status from the exception that reached the outer handlers: 0 for none, 1 for `FileNotFoundError` whatever came before, 3 for another exception re-raised from a file, 4 for another exception from the listing; each handler logs its entry just before "Finished" |
| ParseDriver.LoopParsedListed | parse.py:53-146 | every success is an eligible listed name |
| ParseDriver.LoopRecordsAll | parse.py:53-146 | from a terminated ledger (empty or ending in "\n"), when every listed `.html` name is recordable, an unstopped loop leaves all of them in the ledger |
| ParseDriver.RunLedgerBacked | parse.py:135-143 | every ledger line a run adds is for an eligible listed file whose read, parse, write and append all succeeded, and which has an output; a failed listing adds none |
| ParseDriver.SecondRunIsNoOp | parse.py:48-57 | after a run with exit 0, a second run over the same listing processes nothing, writes nothing and logs only its start and end, whatever its environment does |
| Parse2Driver.Run2 | parse_2.py:9-102 | a run on the disk leaves the outputs and the crash `Run2Spec` gives, and leaves the ledger and the log alone |
| Parse2Driver.Loop2Frame | parse_2.py:9-102 | outputs are never removed, and one changes only for the output name of a listed `.html` file |
| Parse2Driver.Loop2Covers | parse_2.py:9-11 | in a run that ends normally every listed `.html` file was read, parsed and written without a fault, and has an output |
| Parse2Driver.Loop2Values | parse_2.py:98-102 | when no other listed `.html` name shares its JSON name, a listed `.html` file's output is its own record |
| Parse2Driver.Loop2FailFast | parse_2.py:9-102 | once an exception ends the script, the rest of the listing is never looked at |
| Parse2Driver.Run2Records | parse_2.py:9-102 | a run that ends normally leaves, for each listed `.html` file whose JSON name no other listed `.html` name shares, `PodaciOf` of its page under that name |

## Left out

- HTML parsing, CSS selector matching and `get_text`. These are given as the `Page`/`Page2` values the selectors yield. Failure is the `soup` function of the environment.
- File I/O is abstracted. Reading, writing and appending are functions of the environment that return a fault or succeed. `os.listdir` is an arbitrary `Result` of names in any order. `os.makedirs` and `os.path.join` are not modelled.
- A missing ledger file is modelled as empty ledger text. A failure while reading the ledger is not modelled: it happens outside any `try`. UTF-8 decoding errors are not modelled.
- `json.dump` formatting (`ensure_ascii`, `indent`) is not modelled, and neither is a write that fails half-way. A failed write leaves the previous output in the model.
- Logging appears as one ordered sequence of entries, without the two files, timestamps, durations, tracebacks or message texts. `print` and `sys.exit` are left out; the exit status is a result.
- Exceptions are told apart only as `FileNotFound` and `OtherError`, because the exit status needs nothing finer. `BaseException` outside `Exception` (such as `KeyboardInterrupt`) is not modelled.
- ParseDriver.SecondRunIsNoOp: needs a ledger that is empty or ends with "\n", and `.html` names without line breaks or white space at either end. Ledger.LeadingSpaceNeverMatches and Ledger.UnterminatedGlues show that the property fails without these conditions.
- Ledger.AppendAll: needs a ledger that is empty or ends in "\n"; after an unterminated last line the first appended name is glued onto it (Ledger.UnterminatedGlues).
- ParseDriver.LoopRecordsAll: needs a ledger that is empty or ends in "\n" and every listed `.html` name recordable (no line breaks, no white space at either end), for the reasons given for ParseDriver.SecondRunIsNoOp.
- Parse2Driver.Loop2Values: needs that no other listed `.html` name has the same JSON name, because a later file with that name overwrites the output. `os.path.splitext` keeps a dots-only stem whole, so `.html` and `.html.html` both write `.html.json` (Text.JsonNameCollision); when every listed `.html` name has no "/" and a stem that is not all dots, the condition always holds (Text.JsonNameInjective).
- Parse2Driver.Run2Records: needs the same condition as Parse2Driver.Loop2Values, for the same reason.
- Parse2Record.PhoneFlagPresence: states the exact condition. `telefon_dostupan` can also come from a basic-details label or a group title of that name, so it does not hold only when the owner block exists.
- Parse2Driver.Run2: the ending exception is returned as an `Option`; the traceback and the exit are not modelled.
