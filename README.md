# Connected-client detection from airodump-ng exports, in Dafny

`getClients.py` decides which wireless clients are currently connected. It
reads the client section of airodump-ng's periodic CSV export into a
dictionary from client MAC address to its "Last time seen" field. It then
compares that dictionary with the one saved by the previous run: a client
counts as connected when both runs saw it and its last-seen time moved. The
new dictionary is saved for the next run. When there is no saved dictionary,
or it is empty, every client in the export is reported.

This project models that pipeline and proves what it promises:

- `wrappers.dfy` (`Wrappers`): `Option` for a missing saved state, `Result`
  for the exception a malformed export raises.
- `pystr.dfy` (`PyStr`): Python's `str.strip()`, with Python's set of
  whitespace characters.
- `pydict.dfy` (`PyDict`): a Python `dict` of strings as a value. `keys` is
  the insertion order and `values` is the mapping. Assigning an existing key
  replaces its value and keeps its position. Assigning a new key appends it.
- `client_scan.dfy` (`ClientScan`): `getAllClients`. The method
  `GetAllClients` is the row loop with its `clientLine` flag. It is proved
  equal to `Parse`, a declarative reading of the export: find the first
  header row, take the rows after it, fail if one of them is short,
  otherwise assign the entries of the client rows in order.
- `presence_diff.dfy` (`PresenceDiff`): `calculateCurrentClients`. The
  method `CalculateCurrentClients` is the loop over the current keys. It is
  proved equal to `Diff`, the changed keys filtered in current-key order.
- `client_run.dfy` (`ClientRun`): `main`. The method `Run` reads the export,
  produces the dictionary to save, and picks the cold-start or the diff
  branch. `RunSpec` is the same run as a function, for lemmas about
  consecutive runs.

The export is taken as already split into rows of fields (`seq<seq<string>>`).
The state file is taken as `loaded`: the mapping it holds, or `None` when it
is missing or cannot be parsed. `getPreviousData` as written is
`PreviousDataAsWritten`. Its `try` block is `ReadState`, which raises when
the file cannot be read or decoded and, with the trace flag on, at the trace
line. Its bare `except` is `CatchAll`, which turns any of these into `None`.
So it drops `loaded` whenever the trace flag is on (see Findings). `Run`
uses the corrected reader `PreviousData`, which hands `loaded` back whatever
the flag says. A run's result holds the reported
clients and the dictionary `updateStateFile` writes.

Where the code's behaviour is easy to misread, the model follows the code:

- An empty saved dictionary also means a cold start, because
  `not previousRunData` holds for `{}` (getClients.py:105).
- A client row with one or two fields after the header raises `IndexError`
  at `row[2]`. The model returns `Err(IndexError)`. Nothing is saved then,
  because the exception comes before `updateStateFile`.
- A client that is new in this scan is never reported, because no branch of
  the diff adds it.
- The reported clients follow the current scan's key order.

## Model

| member | source | states |
|---|---|---|
| `PyStr.StripTrims` | getClients.py:27 | `strip()` returns the slice left after removing the maximal runs of whitespace at both ends; the result neither starts nor ends with whitespace |
| `PyStr.StripIdempotent` | getClients.py:27 | stripping a stripped field changes nothing |
| `PyDict.PutOverwrite` | getClients.py:27 | assigning the same MAC twice is the same as the second assignment alone: the MAC keeps its first position and the last value wins |
| `PyDict.PutSameValue` | getClients.py:27 | giving a MAC the value it already has leaves the dictionary, key order included, unchanged |
| `PyDict.PutKeepsValid` | getClients.py:27 | assignment keeps the keys distinct and equal to the map's key set |
| `PyDict.FromPairsValid` | getClients.py:16-27 | a dictionary built from `{}` by assignments satisfies the dictionary invariant |
| `PyDict.FromPairsHasKey` | getClients.py:16-27 | a key is in the built dictionary iff some assignment wrote it |
| `PyDict.FromPairsLastWins` | getClients.py:27 | a key's value is the one from its last assignment; earlier values are overwritten |
| `PyDict.FromPairsKeyOrder` | getClients.py:27 | the keys are listed in the order of their first assignment, even when later assignments overwrite values |
| `ClientScan.FirstHeader` | getClients.py:15-22 | the first row whose field 0 is exactly `"Station MAC"`: it is a header, no earlier row is one, and `None` means no row is one |
| `ClientScan.GetAllClients` | getClients.py:6-32 | the row loop returns exactly `Parse(rows)`: `IndexError` iff the client section holds a short row, otherwise the dictionary assigned from its client rows in order |
| `ClientScan.ParseValid` | getClients.py:16-32 | a successful read returns a well-formed dictionary |
| `ClientScan.PreambleIgnored` | getClients.py:15-25 | rows before the first header never matter: any header-free preamble leaves the result unchanged, and an export without a header reads as `{}` |
| `ClientScan.SkippedRowIgnored` | getClients.py:18-22 | inserting a blank row anywhere, or a header row after the first header, leaves the result unchanged |
| `ClientScan.ParseFailsIff` | getClients.py:25-27 | the read fails iff some row after the first header has one or two fields and is not a header |
| `ClientScan.ParseHasClient` | getClients.py:20-27 | on success, a MAC is a key iff some non-header row with at least three fields after the first header has it, trimmed, as field 0 |
| `ClientScan.ParseKeyOrder` | getClients.py:17-27 | on success, the MACs are listed in the order of the first client row after the header that carries each of them, trimmed; this is the order a cold-start run reports |
| `ClientScan.ParseLastRowWins` | getClients.py:27 | the value for a MAC is the trimmed field 2 of the last client row carrying that MAC |
| `PresenceDiff.CalculateCurrentClients` | getClients.py:70-88 | the key loop returns exactly `Diff(prev, new)` |
| `PresenceDiff.DiffHas` | getClients.py:76-84 | a client is reported iff it is in both scans with different last-seen times; new and disappeared clients are never reported |
| `PresenceDiff.DiffOrder` | getClients.py:71-84 | the report is a subsequence of the current scan's keys, without repeats |
| `PresenceDiff.DiffSelfEmpty` | getClients.py:83-84 | comparing a scan with itself reports nobody |
| `ClientRun.Run` | getClients.py:94-113 | a run fails iff the read fails; the saved dictionary is always the one just read; with no saved state or an empty one, every current key is reported; otherwise the diff is reported |
| `ClientRun.RunReportsCurrentClients` | getClients.py:103-108 | every reported client is a current key, reported once in current-key order; with a baseline, a client is reported iff its last-seen time changed |
| `ClientRun.RunAgainReportsNothing` | getClients.py:99-108 | a second run on the same export, against the dictionary the first run saved, reports no client and saves the same dictionary |
| `ClientRun.OneClientExport` | getClients.py:15-27 | a header row followed by one client row reads as that single client |
| `ClientRun.DebugRunIsColdStart` | getClients.py:47-55 | about `PreviousDataAsWritten`, the reader as written, whose `try` block raises `TypeError` at the trace line and whose bare `except` returns `None`: every run with the trace flag on behaves like a run that found no saved state, for every state file and every export; with the flag off it is the corrected run |
| `ClientRun.DebugDropsBaseline` | getClients.py:47-55 | as written, with the trace flag on, a client whose last-seen time did not move is still reported, because the saved state is dropped |
| `ClientRun.RunIgnoresDebug` | getClients.py:38-55 | about `PreviousData`, the reader `Run` uses, which hands back `loaded` for either flag: the trace flag makes no difference to a run; this holds by the definition of `PreviousData` |

## Left out

- File access is not modelled: opening the export and the state file, the fixed paths `"state"` and `"out-01.csv"`, and writing the state file. The run returns the dictionary to save instead of writing it.
- `csv.reader` tokenisation (quoting, delimiters) is not modelled: the model starts from rows already split into fields.
- The state-file format is not modelled: the `"Client MAC: LastSeen"` header line, `str(dict)`, the quote swap and `json.loads`. The state file's parsed content is a parameter `loaded` of type `Option<Dict>`. A state file whose JSON is not an object (a list or a number) is outside that type, so its truthiness and the `.keys()` failure it would cause are not modelled.
- `ClientRun.RunAgainReportsNothing`: assumes the state file hands back exactly the dictionary the previous run saved; in the program that fails when a field holds a quote, or a character that `repr` escapes as `\x..` or `\U........`, because `str(dict)` with the quote swap is then not valid JSON, `getPreviousData` returns `None`, and the second run is a cold start that reports every client.
- A failed write of the state file is not modelled, because it is I/O.
- Debug trace output is not modelled. The trace flag's one effect on behaviour is modelled; see Findings.
- The `__main__` entry point is not modelled.
- `ClientRun.Run`: on a cold start `main` returns the dictionary `clients` itself (getClients.py:106), not a list. The model reports its keys in insertion order, which is what iterating over it yields.
- Python strings may hold lone surrogate code points. Dafny strings cannot, so such fields are not modelled.

## Findings

| source | as written | input that shows it | evidently intended | confidence | as-written member | corrected member |
|---|---|---|---|---|---|---|
| getClients.py:47-55 | with `debug` true, line 48 adds a string to the `None` returned by `print`; the `TypeError` is caught by the bare `except`, which returns `None`, so every run is a cold start | `main(debug=True)` with a saved state `{"AA:BB": "10:00:00"}` and an export holding `AA:BB` seen at `10:00:00`: `AA:BB` is reported, though without the flag nobody is | the trace flag changes only diagnostic output, and the loaded state is returned | high (not executed) | `ClientRun.DebugRunIsColdStart` and `ClientRun.DebugDropsBaseline` (about `ClientRun.PreviousDataAsWritten`) | `ClientRun.RunIgnoresDebug` (about `ClientRun.PreviousData`, which `ClientRun.Run` uses) |
