# MESA sleep-stage importer, modelled in Dafny

This project models the core of `mesa_data_importer`, the importer for the MESA
sleep study's files. Three pieces are modelled:

- **The annotation flattener `_xml_reader`** (module `Annotations`). It walks a
  polysomnography annotation file's `<ScoredEvents>` groups and their `<ScoredEvent>`
  nodes in document order. It keeps only events of type exactly `Stages|Stages`.
  For each one it emits one row per whole 30-second epoch of the event's duration.
  Each row holds the running counter `j` (elapsed seconds) and the event's concept,
  the stage label. The counter is never reset between groups. The method
  `XmlReader` keeps the source's nested loops and appends. It is proved equal to the
  recursive specification `Flatten`, and the timeline properties are proved about
  `Flatten`.
- **The file-name conventions** (module `SubjectIds`).
  - `re.findall(r"(\d{4})", name)[0]` becomes `SubjectId`: the leftmost run of four
    digits, or `None` where the match list is empty and indexing it raises.
  - `"{:04d}"` becomes `FormatId`. It includes the sign-aware padding of negative
    ids and keeps ids of five digits or more whole.
- **The batch loader `load_all_psg`** (module `PsgLoader`).
  - `sorted()` on the listing becomes `SortNames`, an insertion sort under Python's
    code-point string order, which is how POSIX paths in one folder compare.
  - The dictionary-filling loop becomes the method `LoadAllPsg`. It is proved equal
    to the fold `PsgTables`.
  - A file name without a subject id ends the load with `NoSubjectId`.
  - `load_single_psg` becomes `LoadSinglePsg`. It is related to the batch load.

The file reader is the uninterpreted function parameter `parse : string -> Document`.
It stands for `ElementTree.parse` followed by reading the child positions of each
node: child 0 is the type, 1 the concept, 2 the start, 3 the duration. `Wrappers` holds
`Option`/`Result`; `Seqs` (its own file) holds `Repeat`.

## Model

| member | source | states |
|---|---|---|
| Annotations.XmlReader | mesa_data_importer/mesa.py:280-294 | the nested loops, with the counter `j` shared by all groups, return exactly the columns of `Flatten(doc)` |
| Annotations.EpochCount | mesa_data_importer/mesa.py:285-288 | a stage event yields `floor(duration / 30)` rows (n*30 <= duration < (n+1)*30); a non-stage event, or one shorter than 30 s, yields none |
| Annotations.Ticks | mesa_data_importer/mesa.py:289-291 | n counter values from j, the k-th being j + 30k |
| Annotations.FlattenShape | mesa_data_importer/mesa.py:282-294 | both columns have length equal to the sum of the per-event whole-epoch counts, and the k-th time is 30*k |
| Annotations.FlattenTimesIncreasing | mesa_data_importer/mesa.py:282-291 | times strictly increase, so no two rows share a time |
| Annotations.FlattenEventsShape | mesa_data_importer/mesa.py:284-291 | one group's rows from counter j: aligned columns of length Epochs, times j, j+30, ... |
| Annotations.FlattenGroupsShape | mesa_data_importer/mesa.py:283-291 | a sequence of groups: the counter carries over between groups, times continue from j with no gap |
| Annotations.GroupingIrrelevant | mesa_data_importer/mesa.py:282-291 | because `j` is never reset, the timeline equals that of a single group holding all events in order |
| Annotations.AllEvents | mesa_data_importer/mesa.py:283-284 | the events of all groups in document order, with the same total epoch count |
| Annotations.StageLabels | mesa_data_importer/mesa.py:285-290 | each stage event's label repeated once per whole epoch; length equals the epoch count |
| Annotations.FlattenEventsSleep | mesa_data_importer/mesa.py:284-290 | the sleep column of a group is StageLabels of the group, whatever the counter's start |
| Annotations.FlattenSleep | mesa_data_importer/mesa.py:283-290 | the sleep column is the document-order concatenation of each stage event's label repeated int(duration/30) times |
| Annotations.FlattenConcat | mesa_data_importer/mesa.py:283-291 | flattening two documents joined end to end joins the label columns, and the second's times are shifted by 30 s per row of the first |
| Annotations.FlattenGroupsSleepShift | mesa_data_importer/mesa.py:289-291 | the labels do not depend on the counter's starting value |
| Annotations.SkippedEventInvisible | mesa_data_importer/mesa.py:285-288 | an event not of type `Stages|Stages`, or shorter than 30 s, inserted anywhere changes neither the rows nor the counter |
| Annotations.DropSilentEvent | mesa_data_importer/mesa.py:284-288 | within one group, an event yielding no epoch can be removed without changing rows or counter |
| Annotations.FlattenEventsAppend | mesa_data_importer/mesa.py:284-291 | a group's rows split at any event, the second part starting at the counter reached by the first |
| Annotations.FlattenGroupsAppend | mesa_data_importer/mesa.py:283-291 | a document's rows split at any group boundary |
| Annotations.EpochCountExamples | mesa_data_importer/mesa.py:285-288 | 95 s gives 3 rows (the remainder is dropped), 29 s gives none, a 900 s arousal gives none |
| Annotations.WakeThenN1Example | mesa_data_importer/mesa.py:283-291 | (Wake, 60 s) then (N1, 30 s) gives the rows (0, Wake), (30, Wake), (60, N1) |
| Annotations.FlattenAccumulates | mesa_data_importer/mesa.py:280-291 | the append-at-the-end form of the loops, started on empty columns, is the timeline |
| SubjectIds.FirstRunFrom | mesa_data_importer/mesa.py:33 | the left-to-right scan finds the first index from i where four digits start, or reports there is none |
| SubjectIds.SubjectId | mesa_data_importer/mesa.py:33 | on success, four digits that occur in the name at an index where no earlier run starts; None exactly when no run of four digits exists |
| SubjectIds.SubjectIdAtFirstRun | mesa_data_importer/mesa.py:33 | the id is the four characters at the leftmost run |
| SubjectIds.SubjectIdAfterPrefix | mesa_data_importer/mesa.py:33 | after a prefix without digits, four digits give the id |
| SubjectIds.FormatIdMeaning | mesa_data_importer/mesa.py:61 | `{:04d}`: a non-negative id renders as digits reading back as the id, exactly four below 10000 and from 1000 up without a leading zero, so ids of five digits or more are the full `str(id)`; a negative id is `-` and at least three zero-padded digits, the first nonzero from -100 down |
| SubjectIds.DecimalRoundTrip | mesa_data_importer/mesa.py:61 | the decimal rendering of n reads back as n |
| SubjectIds.PsgFileNameRoundTrip | mesa_data_importer/mesa.py:61 | for 0 <= id <= 9999, the id extracted from `mesa-sleep-{:04d}-nsrr.xml` is the four-digit rendering of id, which parses back to id |
| SubjectIds.WideIdKeyTruncated | mesa_data_importer/mesa.py:61 | for id >= 10000, the extracted key is only the first four digits, not the full rendering |
| SubjectIds.NegativeIdHasNoKey | mesa_data_importer/mesa.py:61 | for -999 <= id <= -1 the file name holds only three digits in a row, so no id can be extracted |
| PsgLoader.SortNames | mesa_data_importer/mesa.py:30 | `sorted()` on one folder's POSIX paths: the result is in ascending code-point order of the names and is a permutation of the listing |
| PsgLoader.Insert | mesa_data_importer/mesa.py:30 | inserting into a sorted sequence keeps it sorted and adds exactly one element |
| PsgLoader.SortedUnique | mesa_data_importer/mesa.py:30 | two sorted arrangements of the same names are equal |
| PsgLoader.SortNamesOrderIndependent | mesa_data_importer/mesa.py:30 | the sorted listing does not depend on the folder's listing order |
| PsgLoader.LoadAllPsg | mesa_data_importer/mesa.py:29-34 | the loop over the sorted listing, filling `psg` one file at a time, returns exactly `PsgTables(listing, parse)` |
| PsgLoader.CollectOutcome | mesa_data_importer/mesa.py:32-34 | the loop completes iff every name yields an id; otherwise it fails on the first name that does not |
| PsgLoader.CollectKeys | mesa_data_importer/mesa.py:32-34 | on success, the keys are the starting keys plus the ids of all remaining names |
| PsgLoader.CollectKeepsOthers | mesa_data_importer/mesa.py:34 | a key no remaining name's id touches keeps its value |
| PsgLoader.CollectLastWins | mesa_data_importer/mesa.py:32-34 | of several names with the same id, the last one's timeline is the final value |
| PsgLoader.PsgTablesKeys | mesa_data_importer/mesa.py:29-34 | loading succeeds iff every listed name holds an id, and the key set is then exactly the set of extracted ids |
| PsgLoader.PsgTablesError | mesa_data_importer/mesa.py:30-33 | on failure, the error names a listed file without an id, and every file before it in sorted order has one |
| PsgLoader.PsgTablesLaterWins | mesa_data_importer/mesa.py:30-34 | of listed files sharing an id, the one last in sorted order determines the id's timeline |
| PsgLoader.LastIndexWith | mesa_data_importer/mesa.py:32-34 | the last index at or after i whose name yields the same id |
| PsgLoader.PsgTablesOrderIndependent | mesa_data_importer/mesa.py:30 | the result does not depend on the folder's listing order |
| PsgLoader.SingleAgreesWithBatch | mesa_data_importer/mesa.py:59-65 | for 0 <= id <= 9999, `load_single_psg(id)` equals the batch result under key `{:04d}` of id, when no later listed file shares that key |

## Left out

- XML parsing (`ElementTree.parse`, mesa.py:276) is a foreign library. A document is an already-parsed `seq<seq<Event>>`, and the file reader is the function parameter `parse`.
- Faults from indexing malformed nodes (`subelem[0]`, `subelem[3]` on a node with too few children) are left out. Every `Event` has all four fields.
- `float(subelem[3].text)` is floating point and is not modelled. Durations are integer seconds, and the count is `if d >= 30 then d / 30 else 0`. For integers d with |d| <= 2^53 this agrees with `int(float(d) / 30)` and with the empty `range` of a negative count; above 2^53 `float()` rounds (for d = 30 * 2^50 - 1 the source counts 2^50 epochs, the model 2^50 - 1). Fractional durations and a non-numeric duration text are not modelled.
- Annotations.EpochCount: states the count for integer durations only, because float division and `int()` truncation are not modelled.
- DataFrame construction (mesa.py:295-297) is a library call. The model stops at the two columns.
- `Path.glob("*.xml")`, `joinpath` and the folder prefix are path handling. The listing is a sequence of file names in one folder. The `*.xml` filter is not modelled.
- Python dictionaries keep insertion order; a Dafny `map` does not. The order of the returned dictionary's keys is not modelled.
- An error raised by the file reader itself is not modelled: `parse` is total.
- SubjectIds.SubjectId: only ASCII `0`-`9` count as digits, while Python's `\d` also matches non-ASCII Unicode decimal digits; on names holding such digits the model finds no run where the source does.
- PsgLoader.SortNames: models the POSIX order of `Path` objects, where paths in one folder compare by their names' code points. On Windows `Path` parts compare lower-cased, so which file wins an id clash (PsgLoader.PsgTablesLaterWins) and which id-less file is reported (PsgLoader.PsgTablesError) can differ from the model there; that case-insensitive order is not modelled.
- The `ImportError` re-raise of `load_single_psg` (mesa.py:66-67) depends on foreign exception behaviour and has no domain logic.
- The progress `print` calls have no effect on the result.
- `load_binary_data` discards the data it collects and returns `None`, so it never returns its data. `load_all_actigraphy` builds paths by string concatenation and does not sort. The other loaders (`load_single_actigraphy`, `load_all_r_point`, `load_single_r_point`, `load_single_resp_features`, `load_single_edr_feature`, `load_clean_data`, `load_edf`) are thin wrappers around CSV and EDF readers. These are not modelled beyond the shared id extraction and `{:04d}` format.
- `dodo.py` (build tooling) and `mesa_data_importer/__init__.py` (re-exports and a version constant) are outside the model.
