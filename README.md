# Server QC inventory: a verified model of its parsers and checks

`ServerSpecstoCSV.py` gathers a server's inventory for a quality-control report. It:

- scrapes the output of `dmidecode` (system, baseboard, processor, memory devices), `free -g` and `lspci -vmm`;
- lets the technician correct the findings by hand;
- validates the cosmetic and functional grades and the test date typed in;
- merges everything into one record for a spreadsheet writer.

This project models, in Dafny, the text processing and validation at the core of the script, and proves what each piece promises.

## Modules

- `Wrappers.dfy`: `Option`, standing for Python's `None`. It also stands for an exception that the caller turns into a fallback.
- `Text.dfy`: the Python string operations the script relies on, on ASCII:
  - `strip()`;
  - `split(c)` and `c.join`;
  - `split()` and `splitlines()`;
  - the substring test `in`;
  - `lower()` and `upper()`;
  - `isdigit()`;
  - the `int()`/f-string round trip of a decimal.

  The searches and `split(c)` walk an index over the one string they are given. `splitlines()` and `split()` read the first line or word and recurse on the text after it; `join`, the character deletion and the decimal reading recurse on slices too. Lemmas relate them: the first occurrence, no separator inside a piece, the round trips of `split(c)`/`c.join`, of `splitlines()` and of `split()`, one step of `splitlines()` and of `split()` on any text, strip of padded text, and read-back of a shown number.
- `Dmi.dfy`: the `dmidecode`/`free -g` scrapers:
  - `get_cpu_info`: the first "Version:" line wins;
  - the system and baseboard loops of `get_server_info`: the last match wins, in `elif` order;
  - the memory-type loop of `get_ram_info`, with its flag, its "only while unset" test and its early `break`;
  - the `free -g` token.

  The system, baseboard and memory loops are the methods `ScanSystem`, `ScanBoard` and `ScanRamType`, each proved equal to a reference function. `get_cpu_info`'s loop, which returns at its first match, is the recursive function `CpuInfo`. Lemmas then state which line wins.
- `Pcie.dfy`: the `lspci -vmm` parser `get_pcie_devices`.
  - Its record-building loop (`CollectDevices`, a `for` loop that updates the current record and the device list) is proved equal to a reference definition: blocks, then flushed records, then the class filter. The formatting loop is `ShowDevices`.
  - Lemmas state:
    - the split at the first colon;
    - that keys are compared whole;
    - last-entry-wins within a record;
    - the flush at blank lines, and the fresh start after one;
    - that a pending record is dropped at the end;
    - the exact output format.
- `Qc.dfy`: `validate_grade` and the MMDDYY date check and formatting of `get_user_input`.
- `Report.dfy`: record assembly:
  - the manual overrides (`input() or value`);
  - the `'Unknown'` defaults;
  - the record `get_server_info` returns;
  - one attempt at the QC questions;
  - the dictionary merge in `main`;
  - `GetServerInfo`, which composes the scrapers on the commands' outputs.

Some behaviours of the code that the model keeps as written:

- A dmidecode value containing a colon is cut at that colon. The code takes `split(':')[1]`.
- On a `lspci -vmm` line, by contrast, only the first colon splits.
- The memory type is that of the first `Type:` line after the first "Memory Device" header whose value is non-empty. This holds even when that value is "Unknown": a later module cannot replace it.
- An empty value leaves the type open to a later line.
- The date check accepts any six digits. Month and day are not range-checked.
- `manufacturer` is scanned but never returned.

## Model

| member | source | states |
|---|---|---|
| Text.Strip | ServerSpecstoCSV.py:53-54 | `strip()` result is no longer than its input, empty exactly when the input is all whitespace, and starts and ends with non-whitespace |
| Text.StripPadded | ServerSpecstoCSV.py:53-54 | stripping whitespace padding on both sides of a text with non-whitespace ends gives back exactly that text |
| Text.StripWithin | ServerSpecstoCSV.py:88 | `strip()` only removes characters: a character absent from the text is absent from its stripped form |
| Text.ContainsIff | ServerSpecstoCSV.py:87 | the substring test holds exactly when the pattern occurs at some offset |
| Text.ContainsChar | ServerSpecstoCSV.py:116-121 | a line containing a key contains every character of the key (so a key with a colon guarantees the split has a second piece) |
| Text.Split | ServerSpecstoCSV.py:49 | `split(c)` gives at least one piece, and two or more exactly when `c` occurs |
| Text.SplitPieces | ServerSpecstoCSV.py:49 | no piece of a split holds the separator |
| Text.JoinSplit | ServerSpecstoCSV.py:49 | joining the pieces of a split restores the text |
| Text.Lines | ServerSpecstoCSV.py:49 | `split('\n')` gives at least one line, and joining the lines with '\n' restores the text |
| Text.SplitJoin | ServerSpecstoCSV.py:49 | splitting the join of separator-free pieces restores the pieces |
| Text.SplitSecond | ServerSpecstoCSV.py:88 | `split(c)[1]` is the text between the first and the second `c`, or to the end of the text |
| Text.SplitLines | ServerSpecstoCSV.py:13 | `splitlines()` of the empty text is empty and of any other text is not |
| Text.SplitLinesPieces | ServerSpecstoCSV.py:13 | no line of `splitlines()` holds a line boundary |
| Text.SplitLinesAsSplit | ServerSpecstoCSV.py:13 | on a text whose only line boundary is '\n' and whose last character is not one, `splitlines()` is `split('\n')` |
| Text.SplitLinesJoin | ServerSpecstoCSV.py:13 | `splitlines()` of boundary-free lines joined by '\n', the last non-empty, gives back exactly those lines |
| Text.SplitLinesJoinEnded | ServerSpecstoCSV.py:13 | `splitlines()` of boundary-free lines, each followed by '\n', gives back exactly those lines, an empty one included |
| Text.SplitLinesStep | ServerSpecstoCSV.py:13 | a boundary-free line, then a boundary other than the '\r' of "\r\n", then any text: `splitlines()` gives the line, then the lines of that text |
| Text.SplitLinesCrlf | ServerSpecstoCSV.py:13 | a boundary-free line, then "\r\n", then any text: the pair is one boundary, and the lines of that text follow the line |
| Text.SplitLinesLast | ServerSpecstoCSV.py:13 | a non-empty boundary-free text is one line |
| Text.SplitLinesFinal | ServerSpecstoCSV.py:13 | a final boundary does not start an empty last line |
| Text.Words | ServerSpecstoCSV.py:13 | every piece of `split()` is a non-empty run of non-whitespace |
| Text.WordsJoin | ServerSpecstoCSV.py:13 | `split()` of non-empty runs of non-whitespace joined by single spaces gives back exactly those runs |
| Text.SpaceThenWords | ServerSpecstoCSV.py:13 | leading whitespace of any width does not change the words of a text |
| Text.WordThenWords | ServerSpecstoCSV.py:13 | a word, then a non-empty run of whitespace, then any text: `split()` gives the word, then the words of that text |
| Text.OneWord | ServerSpecstoCSV.py:13 | a non-empty run of non-whitespace is one word |
| Text.ParseShow | ServerSpecstoCSV.py:13 | reading back the decimal text of a number gives the number |
| Text.ShowParse | ServerSpecstoCSV.py:33 | a digit string without a leading zero is the decimal text of its value (`int` then f-string is the identity on it) |
| Text.ParseLeadingZero | ServerSpecstoCSV.py:13 | a leading zero does not change the value `int()` reads from a digit string |
| Text.RemoveConcat | ServerSpecstoCSV.py:223 | deleting a character distributes over concatenation |
| Text.CaseMaps | ServerSpecstoCSV.py:63 | `lower()` adds 32 to each upper-case ASCII letter and keeps every other character, leaving no upper-case letter; `upper()` does the converse |
| Text.CaseBlind | ServerSpecstoCSV.py:63 | lower-casing forgets an earlier upper-casing, and upper-casing an earlier lower-casing |
| Dmi.KeyValue | ServerSpecstoCSV.py:88 | the value of a key line holds no colon and neither starts nor ends with whitespace |
| Dmi.KeyValueBetweenColons | ServerSpecstoCSV.py:88 | the value of a key line is the stripped text between its first and second colon, or to the end of the line |
| Dmi.CpuInfo | ServerSpecstoCSV.py:86-89 | the processor is "Unknown CPU" or the value of one of the lines holding "Version:" |
| Dmi.CpuInfoFirstMatch | ServerSpecstoCSV.py:86-88 | the first line holding "Version:" decides the processor, whatever follows |
| Dmi.CpuInfoNoMatch | ServerSpecstoCSV.py:89 | without a "Version:" line the processor is "Unknown CPU" |
| Dmi.LastWith | ServerSpecstoCSV.py:98-126 | a field stays unset (`None`) exactly when no line selects it |
| Dmi.LastWithIndex | ServerSpecstoCSV.py:115-126 | the last line selecting a field decides it, whatever came before |
| Dmi.ElifOrder | ServerSpecstoCSV.py:116-121 | a "Manufacturer:" line sets only the manufacturer; a "Product Name:" line never sets the serial |
| Dmi.ScanSystem | ServerSpecstoCSV.py:115-121 | the system loop leaves manufacturer, model and serial equal to the last selecting line of each |
| Dmi.ScanBoard | ServerSpecstoCSV.py:124-126 | the baseboard loop leaves the P/N equal to the last "Product Name:" line |
| Dmi.FirstHeader | ServerSpecstoCSV.py:25-26 | the index of the first "Memory Device" line: no earlier line is one, and it is one unless it is the end |
| Dmi.FirstHeaderSnoc | ServerSpecstoCSV.py:25-27 | appending a line keeps an earlier header first; otherwise the new line is the first header, or there is none |
| Dmi.FirstNonEmpty | ServerSpecstoCSV.py:28 | a type found by the "not ram_type" test is non-empty |
| Dmi.FirstNonEmptyNone | ServerSpecstoCSV.py:28-29 | no non-empty type value is found exactly when every value is empty |
| Dmi.FirstNonEmptyAt | ServerSpecstoCSV.py:28-29 | the value found is a non-empty value with only empty values before it |
| Dmi.TypeOfValuesSnoc | ServerSpecstoCSV.py:28-29 | one more type value is taken exactly when the type so far is unset or empty |
| Dmi.TypeOfValuesSettled | ServerSpecstoCSV.py:28-31 | a non-empty type is kept whatever values follow |
| Dmi.TypeValuesNone | ServerSpecstoCSV.py:24-29 | no type value is read exactly when no line is a "Type:" line that is not a header |
| Dmi.TypeValuesConcat | ServerSpecstoCSV.py:24-29 | the type values of two consecutive texts are those of the first, then those of the second |
| Dmi.FirstNonEmptyConcat | ServerSpecstoCSV.py:28-29 | the first non-empty value of two consecutive lists is that of the first list when it has one, else that of the second |
| Dmi.RamTypeNone | ServerSpecstoCSV.py:20-31 | the type stays `None` exactly when no "Type:" line follows the first "Memory Device" header |
| Dmi.RamTypeStep | ServerSpecstoCSV.py:24-29 | one more line sets the type exactly when a header was seen before it, it is a "Type:" line that is not a header, and the type is still open |
| Dmi.RamTypeAfterHeader | ServerSpecstoCSV.py:27-29 | after the first header, one more line extends the values read and the type follows the open-type rule |
| Dmi.RamTypeSettled | ServerSpecstoCSV.py:28-31 | once the type is non-empty (even "Unknown") no later line changes it |
| Dmi.RamTypeSettledAt | ServerSpecstoCSV.py:30-31 | the early `break` on a non-empty, non-"Unknown" type loses nothing: the whole output gives the same type |
| Dmi.ScanRamType | ServerSpecstoCSV.py:20-31 | the memory loop, with its flag, its test and its `break`, returns the type of the reference definition |
| Dmi.InstalledRam | ServerSpecstoCSV.py:13 | an error exactly when `free -g` has fewer than two lines, its second line fewer than two words, or that word is not a digit string; otherwise the canonical decimal of the word's value followed by "GB" |
| Dmi.InstalledRamReadsToken | ServerSpecstoCSV.py:13-33 | when the second word of the second line is the decimal of `n`, the installed memory reads "<n>GB" |
| Dmi.InstalledRamOfFree | ServerSpecstoCSV.py:13-33 | for a header line, then a line of a name, whitespace of any width, the decimal of `n` and further columns, then anything, the installed memory reads "<n>GB" |
| Dmi.SecondLine | ServerSpecstoCSV.py:13 | the second line of `splitlines()` on a header, "\n", a boundary-free line, "\n" and any text is that line |
| Dmi.SecondWord | ServerSpecstoCSV.py:13 | `split()[1]` of a word, whitespace, a second word and a tail starting with whitespace (or empty) is the second word |
| Dmi.GetRamInfo | ServerSpecstoCSV.py:9-36 | when reading `free -g` fails, both results are "Unknown"; otherwise the scanned type and "<n>GB" |
| Pcie.ParseEntry | ServerSpecstoCSV.py:51-54 | a line has an entry exactly when it holds a colon |
| Pcie.ParseEntryFirstColon | ServerSpecstoCSV.py:52-54 | only the first colon splits: key and value are the stripped texts around it, and the value keeps later colons |
| Pcie.KeyIsWhole | ServerSpecstoCSV.py:56-59 | a line is a "Device" or "Class" entry exactly when its stripped key is exactly that word (so "SDevice" fills nothing) |
| Pcie.Absorb | ServerSpecstoCSV.py:51-59 | a line without a colon changes nothing; a line adds at most the "model" and "type" fields and keeps every other field |
| Pcie.AbsorbOwn | ServerSpecstoCSV.py:52-59 | a "Device" line sets "model", and a "Class" line "type", to the stripped text after the first colon |
| Pcie.AbsorbOther | ServerSpecstoCSV.py:56-59 | a line without the key of a field leaves that field as it was, present or absent |
| Pcie.RecordOf | ServerSpecstoCSV.py:56-59 | a record holds no fields other than "model" and "type" |
| Pcie.RecordLastEntry | ServerSpecstoCSV.py:56-59 | within a record a later entry overwrites an earlier one: the field holds the value of the last line with its key |
| Pcie.RecordNoEntry | ServerSpecstoCSV.py:56-59 | a field whose key no line of the block has stays out of the record |
| Pcie.BlocksHaveNoBlank | ServerSpecstoCSV.py:50-60 | no block and no pending record holds a blank line |
| Pcie.PendingSuffix | ServerSpecstoCSV.py:49-66 | the pending lines are the last lines of the text, preceded by a blank line unless they are all of it |
| Pcie.BlocksNoBlank | ServerSpecstoCSV.py:60-66 | lines without a blank one flush nothing: a record still pending at the end is never emitted |
| Pcie.BlocksAfterBlank | ServerSpecstoCSV.py:66 | the record is reset at every blank line: what follows is read as if it were the whole text |
| Pcie.BlocksOfFramed | ServerSpecstoCSV.py:49-66 | blocks of non-blank lines, each closed by a blank line, are read back as exactly those blocks, with the trailing lines pending |
| Pcie.BlankStep | ServerSpecstoCSV.py:60-66 | a blank line appends the pending record exactly when it is non-empty and wanted, then resets it |
| Pcie.FlushedConcat | ServerSpecstoCSV.py:60-66 | the records flushed from consecutive runs of blocks are those of the first run, then those of the second |
| Pcie.WantedConcat | ServerSpecstoCSV.py:63-65 | the filter distributes over concatenation |
| Pcie.WantedOne | ServerSpecstoCSV.py:63-65 | a single record is kept exactly when it has a type whose lower-cased text contains one of the keywords |
| Pcie.WantedKept | ServerSpecstoCSV.py:63-65 | every kept record is wanted |
| Pcie.WantedAll | ServerSpecstoCSV.py:63-65 | a list of wanted records is kept whole, in order |
| Pcie.ShownConcat | ServerSpecstoCSV.py:69-72 | the formatting distributes over concatenation |
| Pcie.ShownOne | ServerSpecstoCSV.py:71-72 | a single record gives its `model (type)` string exactly when it has both fields, and nothing otherwise |
| Pcie.ShownAll | ServerSpecstoCSV.py:70-72 | when every record has a model and a type, string `i` is exactly `model + " (" + type + ")"` of record `i` |
| Pcie.DeviceStrings | ServerSpecstoCSV.py:46-74 | there are no more device strings than flushed records |
| Pcie.DeviceStringsAfterBlank | ServerSpecstoCSV.py:60-66 | the device strings of a text cut after a blank line are those of the first part, then those of the second |
| Pcie.CollectDevices | ServerSpecstoCSV.py:46-66 | the record-building loop yields the wanted non-empty records of the blank-terminated blocks, in order |
| Pcie.ShowDevices | ServerSpecstoCSV.py:69-72 | the formatting loop yields the formatted strings of the records with both fields, in order |
| Pcie.GetPcieDevices | ServerSpecstoCSV.py:46-74 | the device strings of the reference definition for the lines of the output |
| Qc.ValidateGrade | ServerSpecstoCSV.py:177-194 | true exactly when the grade has length 2, a digit 1-9 second, and 'C' first for "cosmetic" or 'F' first for "functional" (no prefix test for any other type) |
| Qc.GradesOfType | ServerSpecstoCSV.py:177-194 | the accepted grades of a type are exactly "C1".."C9" or "F1".."F9" |
| Qc.ValidateUpper | ServerSpecstoCSV.py:203-211 | after `.upper()` a grade is accepted exactly when it is two characters: the letter in either case, then a digit 1-9 |
| Qc.FormatDate | ServerSpecstoCSV.py:221-223 | a date is accepted exactly when it is six ASCII digits, and then formatted as eight characters with '/' at 2 and 5 and the digit pairs in place |
| Qc.FormatDateUnslash | ServerSpecstoCSV.py:223 | deleting the slashes from a formatted date gives back what was typed |
| Qc.FormatDateInjective | ServerSpecstoCSV.py:223 | two accepted dates formatted alike were typed alike |
| Report.ApplyManual | ServerSpecstoCSV.py:148-161 | without a manual entry nothing changes; otherwise each answer replaces its field exactly when non-empty, and an edited device list replaces the list |
| Report.BlankManualKeeps | ServerSpecstoCSV.py:149-154 | all-empty answers without a device edit change nothing |
| Report.ApplyManualIdempotent | ServerSpecstoCSV.py:149-161 | entering the same answers twice changes nothing more |
| Report.OrUnknown | ServerSpecstoCSV.py:164-166 | `value or 'Unknown'` is never empty: the value when it is a non-empty string, else "Unknown" |
| Report.ServerRecord | ServerSpecstoCSV.py:163-171 | the record has exactly the seven server keys; model, P/N and serial are non-empty strings with the 'Unknown' default; processor, RAM type, installed RAM and devices pass through |
| Report.ManualEntryWins | ServerSpecstoCSV.py:149-166 | a non-empty typed model, P/N or serial is what the record holds; an empty one leaves the scanned value or 'Unknown' |
| Report.UserData | ServerSpecstoCSV.py:202-232 | an attempt succeeds exactly when both upper-cased grades validate and the date is six digits; the record then has exactly the four QC keys: both upper-cased grades, the typed name, and the formatted date, whose slashes deleted give back the input |
| Report.Merge | ServerSpecstoCSV.py:299 | `{**a, **b}` has the keys of both, `b`'s value where `b` has the key and `a`'s elsewhere |
| Report.MergeDisjoint | ServerSpecstoCSV.py:299 | with disjoint keys the merge is symmetric and keeps every value of `a` |
| Report.KeyCount | ServerSpecstoCSV.py:163-171 | the server and QC records share no key: eleven fields in all |
| Report.AllData | ServerSpecstoCSV.py:289-299 | nothing when gathering the server information failed; otherwise the eleven fields of both records with their values |
| Report.Scanned | ServerSpecstoCSV.py:114-131 | when `free -g` gives no total, both memory fields are "Unknown" whatever the memory devices say; otherwise the scanned type and the total |
| Report.GetServerInfo | ServerSpecstoCSV.py:94-171 | the record built from the scans of the command outputs and the manual entry, by the reference definitions |

## Left out

- Running `dmidecode`, `lspci` and `free`, `print`, and `input()` are I/O. Commands become text parameters, and the technician's answers become parameters, one prompt attempt at a time.
- The retry loops of `get_user_input` are interactive. `UserData` models one attempt, `None` meaning the prompt is repeated.
- The y/n confirmation dialogue and the loop that reads PCIe device names are interactive. The manual entry is an `Option<Manual>` whose device list is given as typed.
- `create_qc_spreadsheet` depends on openpyxl: styling, cell writes and column widths. It is not part of this model.
- `main`'s timestamped file name, taken from the clock, and `wb.save` are clock and file I/O.
- The blanket `except Exception` fallbacks of `get_pcie_devices`, `get_cpu_info` and `get_server_info` are not modelled, and neither is the failure of `dmidecode` itself. Their failures come from the commands.
  - In `get_ram_info`, the failure that comes from parsing `free -g` is modelled (`InstalledRam` is `None`, and both results are "Unknown").
  - The `None` that `get_server_info` returns is an input of `AllData`.
- Dmi.InstalledRam: does not model Python's `int()` beyond ASCII digits. A token with a sign, an underscore or a non-ASCII decimal digit such as '٣', which `int()` accepts, is modelled as an error.
- Unicode: `strip`, `split()`, `lower`, `upper` and `isdigit` are modelled on ASCII. Python's Unicode-aware versions treat more characters as space, case or digits.
- Qc.ValidateGrade: treats only ASCII digits as digits. Under Python a non-ASCII decimal digit such as '٣' passes `isdigit()` and `int()` reads it, so "C٣" is accepted as a cosmetic grade; the model rejects it. Other Unicode digits such as '²' pass `isdigit()` and then make `int()` raise, which the model does not reach either.
- Pcie.GetPcieDevices: the function's two loops are the methods `CollectDevices` and `ShowDevices`, which it calls in sequence.
