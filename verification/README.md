# TLE catalog grouping

This project models the catalog reader of the OrbitalSatelliteTracker
repository: `fetch_tle` in `tle_fetcher.py`. A CelesTrak catalog in TLE
format is a list of text lines. Each satellite takes three of them: a name
line, then the two element lines of its Two-Line Element set. `fetch_tle`
works in four steps:

- it rejects a line count that is not a multiple of three with a
  `ValueError`;
- it walks the lines three at a time from index 0;
- for each group it builds a `SatelliteTLE(name, line1, line2)` record,
  where `name` is the name line passed through Python's `str.strip()` and
  the element lines are stored exactly as read;
- it stores each record in a dictionary under its name, so a later group
  with the same stripped name replaces an earlier one.

Nothing checks the element lines: it has no length, checksum or format
test.

Files:

- `strip.dfy`, module `PyStr`: Python's `str.strip(chars)` and
  `str.lstrip`/`str.rstrip`, as functions over a character set. `Strip`
  is the argument-less `strip()`, which uses the set `str.isspace()`
  accepts (`Whitespace`). The properties are proved as lemmas for any set.
- `tle_fetcher.dfy`, module `TleFetcher`:
  - the `SatelliteTLE` datatype;
  - the error `NotEnoughLines`, which stands for the `ValueError`;
  - `Grouped(lines, k)`, the dictionary after the first `k` groups;
  - `FetchResult(lines)`, the result or error of the whole call;
  - `FetchTle`, the loop of `fetch_tle` as a method proved equal to
    `FetchResult`;
  - lemmas on which keys exist, which record wins, and how many entries
    there are.

## Model

| member | source | states |
|---|---|---|
| TleFetcher.FetchTle | tle_fetcher.py:15-28 | The result is the error `NotEnoughLines(|lines|)` exactly when the line count is not a multiple of 3. Otherwise it is the dictionary `Grouped(lines, |lines|/3)`: its keys are exactly the stripped names of the groups, every record's `name` is its key, and it has at most `|lines|/3` entries. |
| TleFetcher.GroupInBounds | tle_fetcher.py:17-24 | When the line count is a multiple of 3, every loop index `i = 0, 3, 6, …` below it leaves `i+1` and `i+2` in bounds. |
| TleFetcher.GroupedKeys | tle_fetcher.py:20-27 | A string is a key after `k` groups if and only if it is the stripped name line of one of those groups. The element lines play no part. |
| TleFetcher.GroupedHasName | tle_fetcher.py:20-27 | Every group's stripped name is a key, whatever its element lines contain, because nothing is validated. |
| TleFetcher.GroupedStoredIsLast | tle_fetcher.py:20-27 | The record under a key was built from a group with that stripped name that no later group shares. It is that group's name and its two element lines, unmodified. |
| TleFetcher.GroupedNameIsKey | tle_fetcher.py:22-27 | The `name` field of every stored record equals its dictionary key. |
| TleFetcher.GroupedLaterWins | tle_fetcher.py:20-27 | A group whose name no later group repeats is stored under its stripped name: the record holds that name and the group's second and third lines as read. |
| TleFetcher.GroupedDuplicateOverwritten | tle_fetcher.py:20-27 | If groups `j1 < j2` have the same stripped name, the stored record comes from `j2` or a later group, never from `j1`. |
| TleFetcher.GroupedStep | tle_fetcher.py:27 | Storing a group adds one entry if its name is new and leaves the count unchanged if the name is already a key. |
| TleFetcher.GroupedSizeBound | tle_fetcher.py:20-27 | After `k` groups there are at most `k` entries. |
| TleFetcher.DistinctNamesFillCatalog | tle_fetcher.py:20-27 | If the `k` groups have pairwise distinct stripped names, there are exactly `k` entries. |
| TleFetcher.FullCatalogHasDistinctNames | tle_fetcher.py:20-27 | If there are exactly `k` entries after `k` groups, no two groups share a stripped name. |
| TleFetcher.GroupedSizeExact | tle_fetcher.py:20-27 | There are exactly `k` entries if and only if the stripped names are pairwise distinct. |
| TleFetcher.EmptyLines | tle_fetcher.py:17-20 | An empty line list passes the length check (0 is a multiple of 3) and gives an empty dictionary. |
| TleFetcher.SameNameTwice | tle_fetcher.py:20-27 | Two groups whose name lines strip to the same string give a single entry, built from the second group. |
| TleFetcher.PaddedDuplicate | tle_fetcher.py:22-27 | Two name lines `l1 + name + r1` and `l2 + name + r2`, whose pads are any whitespace, collide on the key `name` (already trimmed), and the later group's element lines are kept. |
| PyStr.TrimLeftSpec | tle_fetcher.py:22 | `lstrip` keeps a suffix of the string. Every character it drops is in the strip set, and the suffix does not start with one. |
| PyStr.TrimRightSpec | tle_fetcher.py:22 | `rstrip` keeps a prefix of the string. Every character it drops is in the strip set, and the prefix does not end with one. |
| PyStr.StripTrims | tle_fetcher.py:22 | The stripped name neither starts nor ends with a character from the strip set. |
| PyStr.StripDecomposes | tle_fetcher.py:22 | The name line is `left + stripped + right`, where `left` and `right` contain only strip-set characters. |
| PyStr.StripTrimmed | tle_fetcher.py:22 | A name line without surrounding whitespace is used as the key unchanged. |
| PyStr.StripIdempotent | tle_fetcher.py:22 | Stripping twice gives the same string as stripping once. |
| PyStr.TrimLeftPadded | tle_fetcher.py:22 | Adding leading strip-set characters does not change `lstrip`. |
| PyStr.TrimRightPadded | tle_fetcher.py:22 | Adding trailing strip-set characters does not change `rstrip`. |
| PyStr.TrimLeftAppend | tle_fetcher.py:22 | `lstrip` of `s + tail` is `lstrip(s) + tail` when `lstrip(s)` is non-empty, and `lstrip(tail)` otherwise. |
| PyStr.StripPadded | tle_fetcher.py:22 | `(left + s + right).strip() == s.strip()` whenever `left` and `right` contain only strip-set characters. |

## Left out

- The module-level `requests.get` at `tle_fetcher.py:5`, a network fetch done at import time. The model takes the catalog lines as its input.
- `r.text.splitlines()` at `tle_fetcher.py:16`. Python's line splitting recognises many line terminators; the model takes the already-split list of lines as given.
- The error message. The `ValueError` text ("TLE does not have enough lines") becomes the error value `NotEnoughLines(lineCount)`. The message says the same thing when there are too many lines for the last group as when there are too few.
- The iteration order of the returned dictionary. A Python `dict` remembers insertion order, and an overwritten key keeps its first position. A Dafny `map` has no order, so the model captures only which keys exist and what they hold.
- `PyStr.Strip`, `PyStr.StripChars`, `PyStr.TrimLeft`, `PyStr.TrimRight`: the functions only promise that the result is no longer than the input. Their real properties are stated in the lemmas listed in the table.
- `propagate.py` is not part of this model:
  - `tle_epoch_to_datetime` is floating-point arithmetic plus `datetime` calendar arithmetic;
  - `datetime_to_jday` wraps `sgp4.api.jday`;
  - `propagate` slices the epoch field `line1[18:32]`, parses it with `float()` and adds `tsince` to build the target time (`propagate.py:74-82`); it then hands the element lines to the external SGP4 library (`Satrec.twoline2rv`, `satrec.sgp4`) and only checks the error code that comes back.
- `main.py` is not part of this model. It is a script that fetches the catalog and prints one satellite's state.
