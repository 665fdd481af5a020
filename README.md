# flatten.py text handling, in Dafny

flatten.py talks to git through subprocesses and files. This project models
the text it exchanges with git:

- `Repo.read_tree` cuts the output of `git ls-tree -z` at NUL. Each record
  is split at its first two spaces into mode, object type and the rest. The
  rest is split at its first tab into sha and name. The entries go into a
  dict keyed by name.
- `write_tree`'s loop builds the text meant for `git mktree -z`: one
  NUL-terminated record per dict entry, in dict order.
- `commits` cuts the output of `git log --format='%H %T %cd'` at newlines.
  Each line is split at its first two spaces into commit, tree and date.
- `Repo.set_alternates` builds the content of
  `.git/objects/info/alternates`: the source's object directory, then one
  line per submodule.
- `RawLog` and `TreeInfo` are the records these operations produce.

The Python library behaviour they depend on is modelled explicitly:

- `PyStr` models `str.split(sep, maxsplit)` with a one-character separator.
  flatten.py calls no `str.find` or `sep.join`; the model's `Find` and `Join`
  are helpers that specify `Split`. `SplitSpec` states what the pieces of a split
  are, and `SplitJoin` proves that only those pieces fit that description.
- `PyDict` models a dict as its items in insertion order. Assigning to a key
  that is already present keeps that key's position; a new key goes at the
  end.
- An exception is modelled as an `Err` value of `Flatten.Error`:
  - a tuple assignment given too few pieces raises a ValueError,
    `NotEnoughValuesToUnpack`;
  - `parts[2]` on a short list raises an IndexError, `IndexOutOfRange`.

Each loop of the four modelled operations is a `method` with the same loop.
Its `ensures` says it equals a specification function:

- `ParseTree` (flatten.py:41-53) for `ReadTree`. It is built from:
  - `ParseTreeRecord` (flatten.py:49-51), the two splits and the two tuple
    assignments of one record;
  - `ParseTreeRecords` (flatten.py:43-51), the loop over the records, which
    stops at the first empty one and assigns each entry into the dict.
- `Serialize` (flatten.py:62-65) for `WriteTree`. It is built from
  `RecordText`, the format string `'{} {} {}\t{}\0'` at flatten.py:65
  without its NUL.
- `ParseLog` (flatten.py:14-26) for `Commits`. It is built from:
  - `ParseLogLine` (flatten.py:24-26), the split of one line and its three
    fields;
  - `ParseLogLines` (flatten.py:19-26), the loop over the lines, which stops
    at the first empty one.
- `AlternatesText` (flatten.py:55-59) for `SetAlternates`.

The lemmas about those functions state the round trips,
the stopping rules, the error cases and the replacement rule for duplicate
names.

Inputs that the source gets from the outside world are parameters:

- `ReadTree` takes the text `git ls-tree -z` printed.
- `Commits` takes the text `git log` printed, plus `headsListed`. That flag
  is the outcome of the directory probe at flatten.py:16: the `.git`
  directory exists and `refs/heads` lists at least one entry.
- `SetAlternates` takes the source repository's path and the keys of its
  `sub` dict in iteration order.
- `WriteTree` returns the text its loop builds for `git mktree -z`. It does
  not return the sha that git would print back.

## Model

| member | source | states |
|---|---|---|
| PyStr.Split | flatten.py:49 | `split(sep, maxsplit)` always gives at least one piece, and never more than `maxsplit + 1` when `maxsplit` is not negative |
| PyStr.SplitSpec | flatten.py:49 | the pieces joined by `sep` give the text back; no piece but the last holds `sep`; the last holds `sep` only when the limit was reached |
| PyStr.SplitJoin | flatten.py:49 | every sequence of pieces of that shape is what Split returns for its join, so Split's result is unique |
| PyStr.SplitTerminated | flatten.py:45 | splitting text made of lines that each end in the terminator gives the lines in order, then one empty piece |
| PyDict.Get | flatten.py:51 | the lookup used to state what the assignment at flatten.py:51 does: it finds nothing exactly when the key is not among the dict's keys |
| PyDict.SetItem | flatten.py:51 | after `d[k] = v`: `k` maps to `v`; every other key keeps its value; the key order is unchanged when `k` was present, and `k` is appended when it was not |
| PyDict.SetItemNew | flatten.py:51 | assigning to a new key appends the item after all items already present |
| PyDict.SetItemUnique | flatten.py:51 | assignment keeps the keys distinct |
| PyDict.SetItemsFresh | flatten.py:43-51 | items with distinct keys, none already present, assigned in turn are appended in that order |
| Flatten.ThreeFields | flatten.py:49 | when `split(' ', 2)` gives three pieces: the line is the pieces joined by single spaces, and the first two hold no space |
| Flatten.ThreeFieldsOf | flatten.py:24 | two space-free texts and any third text, joined by spaces, split back into exactly those three |
| Flatten.TwoSpacesGiveThreeFields | flatten.py:24 | `split(' ', 2)` gives three pieces if and only if the line holds two spaces |
| Flatten.ReadTree | flatten.py:41-53 | the loop of `read_tree` returns exactly `ParseTree` of git's output: the same dict, or the same error |
| Flatten.TreeRecordRead | flatten.py:49-50 | a record that parses is the text `<mode> <type> <sha>\t<name>` of the entry it gives; mode and type hold no space and the sha no tab |
| Flatten.TreeRecordOf | flatten.py:49-51 | the text of an entry with such fields parses back to that name and entry; the name may hold spaces and tabs |
| Flatten.TreeRecordFields | flatten.py:49-51 | both directions of the above: a record parses to `(name, info)` if and only if it is that entry's text with separable fields |
| Flatten.TreeRecordMalformed | flatten.py:49-50 | a record raises if and only if it lacks two spaces followed by a tab, and the error is the tuple-unpacking ValueError; no default entry is made up |
| Flatten.WriteTree | flatten.py:62-65 | the loop of `write_tree` builds exactly `Serialize(tree)` |
| Flatten.SerializeSnoc | flatten.py:64-65 | each further entry appends its record and a NUL at the end of the text |
| Flatten.SplitSerialized | flatten.py:63-65 | for any dict without a NUL in its names or fields, splitting the text at NUL gives one record per entry, in dict order, then the empty piece after the last NUL |
| Flatten.WriteTreeRecords | flatten.py:63-65 | for any dict without a NUL in its names or fields, the text holds one NUL-terminated record per entry, in dict order, and nothing else; it is empty if and only if the tree is |
| Flatten.SerializeEmpty | flatten.py:63-65 | the text is empty if and only if the dict is, with no condition on the entries |
| Flatten.ParseRecordsOfTree | flatten.py:43-51 | reading the records of a list of entries assigns each entry in turn, in order |
| Flatten.TreeRoundTrip | flatten.py:43-51 | reading back write_tree's text for a well-formed dict gives that dict: same entries, same order |
| Flatten.SplitSerializedSnoc | flatten.py:45 | a tree's text followed by one more NUL-terminated record splits into all the records and the final empty piece |
| Flatten.ParseRecordsSnoc | flatten.py:51 | reading a tree's records and one more record gives the tree with that record assigned last |
| Flatten.TreeLaterRecordReplaces | flatten.py:51 | a later record with a name already read replaces that entry where it stands; other names keep their entries and the name order is kept; a new name is added at the end |
| Flatten.ParseRecordsStopAtEmpty | flatten.py:46-47 | the records after the first empty one are never read, however malformed |
| Flatten.TreeIgnoresFinalNul | flatten.py:45-47 | the empty piece after the final NUL changes nothing |
| Flatten.TreeStopsAtEmptyRecord | flatten.py:46-47 | two NULs in a row end the listing, whatever text follows |
| Flatten.ParseRecordsFail | flatten.py:43-51 | the loop raises if and only if a record before the first empty one is malformed |
| Flatten.TreeMalformed | flatten.py:43-51 | `read_tree` raises if and only if some record of git's output before the first empty one lacks two spaces followed by a tab, and the error is the tuple-unpacking ValueError |
| Flatten.ParseRecordsUnpackError | flatten.py:49-50 | every failure of the loop of `read_tree` is the ValueError of a tuple assignment |
| Flatten.ParseRecordsUnique | flatten.py:42-51 | the dict built never holds a name twice |
| Flatten.Commits | flatten.py:14-26 | `list(commits(path))` is exactly `ParseLog`: empty when `.git/refs/heads` lists nothing, otherwise the parsed lines up to the first empty one, or the IndexError |
| Flatten.LogLineFields | flatten.py:24-26 | a line gives a record if and only if it is commit, tree and date joined by spaces, with space-free commit and tree; the date keeps every space after the second |
| Flatten.LogLineOf | flatten.py:24-26 | the line of a well-formed record is not empty and reads back as that record |
| Flatten.LogLineMalformed | flatten.py:24-26 | a line raises if and only if it holds fewer than two spaces, and the error is an IndexError |
| Flatten.ParseLinesOfLogs | flatten.py:19-26 | the loop over the lines of well-formed records appends those records in order |
| Flatten.LogRoundTrip | flatten.py:19-26 | a log of well-formed records, one line each, reads back as the same records in the same order |
| Flatten.ParseLogLinesStopAtEmpty | flatten.py:22-23 | the lines after the first empty one are never read |
| Flatten.LogIgnoresFinalNewline | flatten.py:21-23 | the empty piece after the final newline changes nothing |
| Flatten.LogStopsAtEmptyLine | flatten.py:21-23 | an empty line ends the log, whatever follows |
| Flatten.SetAlternates | flatten.py:55-59 | the writes of `set_alternates` build exactly `AlternatesText` |
| Flatten.AlternatesFileLines | flatten.py:56-59 | when no path holds a newline, the file holds the objects line, then one `modules/<sub>/objects` line per submodule in key order, each ended by a newline, and nothing else |

## Left out

- Subprocesses (flatten.py:19-21, 43-45, 67): git's output is an input. The sha printed by `git mktree` and the `.strip()` of it are not modelled.
- Bytes and UTF-8 (flatten.py:24, 49, 67): the text is characters. Splitting bytes at NUL or newline before decoding gives the same pieces as splitting the characters. A decoding error is not modelled.
- Filesystem probes (flatten.py:16, 35): they become the `headsListed` parameter and the submodule key sequence.
- The probe at flatten.py:16 raises FileNotFoundError when `.git` is a directory without `refs/heads`; nothing catches it, and the model has no such case.
- `Repo.__init__` (flatten.py:30-39) is not modelled. That covers its recursion over `.git/modules` and its set iteration order, which Python does not fix. `SetAlternates` takes the keys in whatever order the dict holds them.
- Opening and writing the alternates file (flatten.py:56): the model returns the text written.
- `main` (flatten.py:70-76) is not modelled: it is a driver with printing.
- Flatten.Commits: the date is kept as the text git printed; `dateutil.parser.parse` (flatten.py:25) is not modelled. A line whose date does not parse makes Python raise, and the model reads it as a record.
- Flatten.Commits: the generator is run to completion, as `list(...)` does at flatten.py:32. Records yielded before an error are not visible.
- flatten.py contains no history merge, tree overlay, commit synthesis or ref update, so none is modelled.
- write_tree as written raises at flatten.py:67: it passes the text as `stdin=ret`, and `subprocess` then calls `ret.fileno()`, which a `str` lacks, so an AttributeError is raised before git starts, on every call, the empty tree included. WriteTree models the text that the loop at flatten.py:63-65 builds; the evident intent is `input=ret.encode()`.
