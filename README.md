# EPD antibiotics pipeline — a Dafny model

This project models the two jobs at the core of a small data pipeline built
on the NHS Business Services Authority's English Prescribing Dataset (EPD)
with SNOMED codes.

- **The fetcher** (`src/download_epd_latest_3_months.py`) reads the catalog's
  list of resources and picks the newest monthly EPD-with-SNOMED files. It
  orders them by the first non-empty date field, prefers ZIP archives, and
  falls back to other formats to fill the quota. It then derives a save path
  under `data/raw` for each chosen resource that has a url. It transfers that
  file unless a non-empty file is already there, and records a manifest entry
  for it. A chosen resource without a url gets no path, no transfer and no
  entry.
- **The subset builder** (`src/build_antibiotics_subset.py`) reads the three
  most recently modified CSV files. It cleans their column names and keeps
  the allow-listed columns that are present. It keeps the rows whose BNF
  chapter starts with `05` and whose drug names contain an antibacterial word
  fragment. These rows are appended to one output CSV, and the header is
  written once per run.

Modules:

- `Options` holds the option type.
- `Text` holds Python's `strip`, ASCII `lower`/`upper`, substring search and
  character replacement.
- `Seqs` holds filter, de-duplication, prefix and map.
- `Sorting` is a stable descending sort, modelling `sorted(..., reverse=True)`.
- `Fetcher` covers the date key and `pick_latest`.
- `Downloads` covers save paths, the skip-or-transfer decision, the chunk
  loop and `main`'s manifest loop.
- `AntibioticSubset` covers the subset builder.

The imperative parts are methods proved equal to declarative functions, whose
properties are then proved as lemmas:

- `pick_latest`'s two loops with early returns, against `Selection`.
- `download`'s chunk loop, against `Save`.
- `main`'s manifest loop, against `RunAll`.
- The subset builder's nested file/batch loop with its `wrote_header` flag,
  against `Lines(Survivors(...))`.

Modelling choices:

- A timestamp is its text, which decides truthiness, paired with the instant
  it denotes. The epoch default is instant 0.
- The filesystem is a map from path to bytes.
- The server is a function from url to a response (an error status, or a
  body in chunks).
- A CSV file is its modification time, its header and its batches of rows.
  Each row is a map from cleaned column name to cell. A cell pandas reads as
  missing (empty, or one of its NA texts such as "NA", "NULL" or "nan") is
  NaN, here `None`.

Behaviour of the code that the model reproduces:

- For a quota of zero or less, `pick_latest` still returns the first
  candidate when that candidate is a ZIP. This holds because the quota test
  comes after the append.
- `res not in chosen` compares whole records. Repeated catalog entries
  therefore appear once in the fallback. The ZIP pass appends without this
  test, so a ZIP record listed twice in the catalog is chosen twice. The
  second copy is skipped when the first left a non-empty file, and a
  completed run lists both in the manifest. A field the record omits and the
  same field sent as null read alike through `get`, but they make different
  records, so both records are kept.
- An empty cell reads as `"nan"` in the row filter but is written as an
  empty field.
- Each batch is written with the columns its own file kept. The header that
  was written first is not used to re-align later files, so files whose
  column sets differ give records of different shapes.
- The output file is opened for appending, so a second run appends the
  header and the records again.

## Model

| member | source | states |
|---|---|---|
| `Fetcher.FirstGiven` | src/download_epd_latest_3_months.py:36-37 | the index of the first truthy date field, every earlier one being falsy, or the field count when none is |
| `Fetcher.ResourceDate` | src/download_epd_latest_3_months.py:34-39 | the sort key is `created` if given, else `last_modified`, else `metadata_modified`, else the 1970 epoch |
| `Sorting.SortDesc` | src/download_epd_latest_3_months.py:44 | the sorted list is in descending key order and a permutation of the input |
| `Sorting.SortDescStable` | src/download_epd_latest_3_months.py:44 | resources with equal dates keep their catalog order |
| `Sorting.SortDescLength` | src/download_epd_latest_3_months.py:44 | sorting keeps the length and exactly the same members |
| `Sorting.SortThree` | src/download_epd_latest_3_months.py:44 | a worked case: with a oldest, b newest and c in between, `[a, b, c]` sorts to `[b, c, a]` |
| `Fetcher.PickLatest` | src/download_epd_latest_3_months.py:42-76 | the two passes return exactly `Selection` of the newest-first list |
| `Fetcher.ZipPass` | src/download_epd_latest_3_months.py:48-61 | the first pass either returns the selection early or ends with every ZIP candidate, still under quota |
| `Fetcher.FallbackPass` | src/download_epd_latest_3_months.py:63-76 | the second pass, started from all ZIP candidates, returns the selection |
| `Fetcher.ZipPassQuotaMet` | src/download_epd_latest_3_months.py:60-61 | an early return from the first pass already yields the whole selection |
| `Fetcher.FallbackQuotaMet` | src/download_epd_latest_3_months.py:73-74 | an early return from the second pass already yields the whole selection |
| `Fetcher.FallbackStep` | src/download_epd_latest_3_months.py:70-71 | a candidate is appended in the second pass exactly when it is not chosen yet |
| `Fetcher.DistinctCandidates` | src/download_epd_latest_3_months.py:64-71 | offering every candidate after the ZIPs adds exactly the distinct non-ZIP candidates |
| `Fetcher.ChosenFromCatalog` | src/download_epd_latest_3_months.py:49-71 | everything chosen is a catalog resource whose name contains "epd" and "snomed" |
| `Fetcher.SelectionCandidates` | src/download_epd_latest_3_months.py:53-55 | every selected resource is a name-matching candidate from the list |
| `Fetcher.SelectionQuota` | src/download_epd_latest_3_months.py:57-61 | at most n are chosen for n >= 1, and exactly one when n <= 0 and the first candidate is a ZIP |
| `Fetcher.ZeroQuotaReturnsOne` | src/download_epd_latest_3_months.py:57-61 | with quota 0 a lone ZIP candidate is still returned |
| `Fetcher.SelectionPrefersZips` | src/download_epd_latest_3_months.py:48-61 | with at least n ZIP candidates, the result is the newest n ZIPs and only ZIPs |
| `Fetcher.SelectionFallback` | src/download_epd_latest_3_months.py:63-76 | with fewer ZIPs than the quota, all ZIPs come first, then the newest distinct other candidates up to the quota |
| `Fetcher.FallbackAddsNew` | src/download_epd_latest_3_months.py:70-71 | what the fallback adds has no repeats, no ZIP and nothing already chosen |
| `Fetcher.SelectionNewestFirst` | src/download_epd_latest_3_months.py:44-71 | the ZIP part and the fallback part of the result are each newest first |
| `Fetcher.TwoZipsBeatNewerCsv` | src/download_epd_latest_3_months.py:44-61 | two older ZIPs are preferred over a newer CSV for a quota of two |
| `Fetcher.NoCandidateNoZip` | src/download_epd_latest_3_months.py:53-55 | without a name-matching resource neither pass can choose anything |
| `Fetcher.NullFieldIsAnotherRecord` | src/download_epd_latest_3_months.py:70-71 | a record and the same record with `format` sent as null are two records, and the fallback keeps both |
| `Text.Lower` | src/download_epd_latest_3_months.py:50-51 | lower-casing keeps the length and maps each ASCII capital to its small letter |
| `Text.Contains` | src/download_epd_latest_3_months.py:54 | `needle in hay` holds exactly when the needle occurs at some position |
| `Text.ReplaceChar` | src/download_epd_latest_3_months.py:118 | every '/' becomes '-', every other character is kept |
| `Seqs.Distinct` | src/download_epd_latest_3_months.py:70-71 | appending only what is not yet present keeps each new element once, in first-seen order |
| `Downloads.Stem` | src/download_epd_latest_3_months.py:118 | the file stem is the name (or "resource" when it is missing or empty) with each '/' replaced by '-' and every other character kept; so it is non-empty and has no '/' |
| `Downloads.Extension` | src/download_epd_latest_3_months.py:119 | the extension is the lower-cased format, or "file" when the format is missing or empty; so it is non-empty, has no capital, and is "zip" for a ZIP |
| `Downloads.SavePathInRawFolder` | src/download_epd_latest_3_months.py:109-121 | the save path is `data/raw/` + stem + "." + extension, directly in that folder unless the format has a '/' |
| `Downloads.StampText` | src/download_epd_latest_3_months.py:129-130 | a manifest date is null exactly when the catalog's field is, and otherwise the text the catalog sent |
| `Downloads.EntryFor` | src/download_epd_latest_3_months.py:124-133 | a manifest record carries the resource's url, name, format, created and last_modified text, and its save path |
| `Downloads.Concat` | src/download_epd_latest_3_months.py:99-102 | the written file is empty exactly when every chunk was empty |
| `Downloads.Save` | src/download_epd_latest_3_months.py:79-102 | a non-empty file is left alone; otherwise an error status fails, and a body is written to the path and nowhere else |
| `Downloads.Download` | src/download_epd_latest_3_months.py:79-102 | the skip test and the chunk loop do what `Save` states |
| `Downloads.EmptyFileRetried` | src/download_epd_latest_3_months.py:84-86 | an existing but empty file is fetched again |
| `Downloads.FailureStops` | src/download_epd_latest_3_months.py:88-89 | after a download raises, no later resource is processed |
| `Downloads.RunManifest` | src/download_epd_latest_3_months.py:112-133 | a completed run lists exactly the chosen resources with a truthy url, in order |
| `Downloads.RunFailureCause` | src/download_epd_latest_3_months.py:88-89 | a run fails only on a resource whose url answers with an error status |
| `Downloads.RunKeepsPresent` | src/download_epd_latest_3_months.py:84-86 | a file that was already non-empty is never rewritten |
| `Downloads.RunTouchesOnlySavePaths` | src/download_epd_latest_3_months.py:116-122 | files at paths no chosen resource maps to are untouched |
| `Downloads.RunSavedExist` | src/download_epd_latest_3_months.py:121-133 | every path named in the manifest exists after the run |
| `Downloads.ResumeNeedsNoNetwork` | src/download_epd_latest_3_months.py:84-86 | when every chosen file is already present, a run succeeds, changes nothing and asks the server nothing |
| `Downloads.Rerun` | src/download_epd_latest_3_months.py:84-86 | re-running after a successful run with non-empty files transfers nothing and rebuilds the same manifest |
| `Downloads.SaveChosen` | src/download_epd_latest_3_months.py:112-133 | the manifest loop leaves the disk as `RunAll` states, and returns its manifest exactly when no download raised |
| `Downloads.FetchLatest` | src/download_epd_latest_3_months.py:105-137 | main chooses `Selection`; it writes a manifest exactly when the run completes, listing the chosen resources with a url; otherwise some url answered with an error status |
| `Text.Strip` | src/build_antibiotics_subset.py:25 | the result neither starts nor ends with whitespace, and only whitespace was cut from either end |
| `Text.Upper` | src/build_antibiotics_subset.py:25 | upper-casing keeps the length and maps each ASCII small letter to its capital |
| `AntibioticSubset.CleanColumn` | src/build_antibiotics_subset.py:24-25 | a cleaned name is the stripped name upper-cased, so it has no surrounding whitespace and no lower-case letter |
| `AntibioticSubset.CleanColumnIdempotent` | src/build_antibiotics_subset.py:24-25 | cleaning a cleaned name changes nothing |
| `AntibioticSubset.CleanCols` | src/build_antibiotics_subset.py:24-25 | the cleaned header has the same length and order, each name cleaned |
| `AntibioticSubset.CleanColsIdempotent` | src/build_antibiotics_subset.py:24-25 | cleaning a header twice equals cleaning it once |
| `AntibioticSubset.Get` | src/build_antibiotics_subset.py:30-37 | a missing column reads as "", an empty cell as "nan", any other cell as its text |
| `AntibioticSubset.AnyOccurs` | src/build_antibiotics_subset.py:47 | true exactly when some keyword occurs in the text |
| `AntibioticSubset.IsAntibioticRow` | src/build_antibiotics_subset.py:28-47 | false unless the chapter starts with "05"; otherwise true exactly when a keyword occurs in the lower-cased presentation + " " + substance |
| `AntibioticSubset.NoChapterNoRow` | src/build_antibiotics_subset.py:30-32 | a row without a chapter code, or with an empty one, is dropped |
| `AntibioticSubset.CaseInsensitive` | src/build_antibiotics_subset.py:35-38 | changing the letter case of either drug-name field does not change the verdict |
| `AntibioticSubset.CillinInAmoxicillin` | src/build_antibiotics_subset.py:35-47 | "cillin" occurs in the lower-cased text of an amoxicillin capsule row |
| `AntibioticSubset.AmoxicillinKept` | src/build_antibiotics_subset.py:28-47 | chapter "05010101" with presentation "Amoxicillin 250mg capsules" is kept |
| `AntibioticSubset.AmoxicillinOutsideChapterDropped` | src/build_antibiotics_subset.py:30-32 | chapter "0301" with substance "Amoxicillin" is dropped |
| `AntibioticSubset.Keep` | src/build_antibiotics_subset.py:63 | keep holds exactly the allow-listed names present in the cleaned header, in allow-list order |
| `AntibioticSubset.Project` | src/build_antibiotics_subset.py:68 | a narrowed row has exactly the kept columns of the row, with the same cells |
| `AntibioticSubset.Projected` | src/build_antibiotics_subset.py:67-68 | a narrowed batch has one row per input row, in order |
| `AntibioticSubset.Cell` | src/build_antibiotics_subset.py:75-80 | a written cell is the cell's text, or empty for an empty cell |
| `AntibioticSubset.Render` | src/build_antibiotics_subset.py:75-80 | a record has one cell per kept column, in kept order |
| `AntibioticSubset.HeaderOnce` | src/build_antibiotics_subset.py:55-82 | a run writes the header exactly once, first, and only if a row survives; then one record per surviving row |
| `AntibioticSubset.LinesAppend` | src/build_antibiotics_subset.py:72-82 | appending a batch adds nothing when it is empty, and the header only before the first rows |
| `AntibioticSubset.SurvivorColumns` | src/build_antibiotics_subset.py:63-70 | every surviving row of a batch carries its file's kept columns |
| `AntibioticSubset.SurvivorsInOrder` | src/build_antibiotics_subset.py:57-70 | the written rows keep file order and row order, and every antibiotic row read is written |
| `AntibioticSubset.SurvivorsAreAntibiotic` | src/build_antibiotics_subset.py:63-70 | every written row is an antibiotic row; the rows each file contributes carry the columns kept for that file |
| `AntibioticSubset.NoChapterColumnNoRows` | src/build_antibiotics_subset.py:61-70 | batches narrowed to columns without the chapter code contribute no row |
| `AntibioticSubset.NoChapterFileSkipped` | src/build_antibiotics_subset.py:61-70 | a file whose header lacks the chapter column contributes no row |
| `AntibioticSubset.NewestFilesChosen` | src/build_antibiotics_subset.py:53 | at most three files are read, newest modification time first, each from the folder and no more often than it is there, and no file left unread is newer than a file that is read |
| `AntibioticSubset.AppendBatch` | src/build_antibiotics_subset.py:67-82 | one batch appends its survivors, with the header only if none was written yet |
| `AntibioticSubset.AppendFile` | src/build_antibiotics_subset.py:66-82 | the batch loop appends the survivors of every batch of the file |
| `AntibioticSubset.WriteSubset` | src/build_antibiotics_subset.py:55-82 | the file loop writes exactly the lines of all survivors, header once |
| `AntibioticSubset.BuildSubset` | src/build_antibiotics_subset.py:50-82 | after a run the output file is its previous content followed by this run's lines |
| `AntibioticSubset.RerunAppendsAgain` | src/build_antibiotics_subset.py:75-82 | a second run over the same files appends the header and the same records again |

## Left out

- `get_file_list`: the HTTP request to the catalog, its status check, JSON decoding and the `success` test are I/O. The catalog's resource list is an input.
- `isoparse`: ISO-8601 parsing is a library call. A timestamp carries the instant it denotes, and timezone-aware and naive timestamps are not distinguished. Python would refuse to compare these. A date text that `isoparse` rejects is not modelled either: the sort reads the date of every resource, candidate or not, so a malformed text in the first non-empty date field of any resource (`created`, else `last_modified`, else `metadata_modified`) makes `pick_latest`, and so the whole run, raise before any download; a field after a non-empty one is never parsed.
- The streamed HTTP transfer, its timeout and the `content-length` progress bar are I/O. A response is an error status or its list of chunks. A transfer that breaks midway is not modelled.
- `mkdir` of `data/raw`, `data` and `data/processed`: directories are not modelled, and a path names a file.
- `Downloads.SavePath`: the path is kept as the string `data/raw/<stem>.<ext>`. Python's path joining would collapse a repeated or trailing '/' that a format containing '/' brings in (format "csv/" saves to `data/raw/x.csv`), and that normalisation is not modelled.
- Catalog records are assumed consistent: a stamp's instant is the one its text denotes, and `nulls` names only fields the record does not carry. Nothing ties these together in the types, so an inconsistent record could differ from one Python compares equal to it. No lemma relies on such records.
- Catalog record fields other than the six the fetcher reads are kept only as strings (`others` of `Resource`), since they matter only to record equality.
- The manifest's JSON serialisation and the write of `manifest.json` are not modelled. The model returns the list of entries.
- `print` and `tqdm` output are user interface only.
- pandas CSV parsing, quoting (`QUOTE_MINIMAL`) and the 200 000-row batching mechanics are not modelled. A file arrives as header and batches, and the output is a sequence of lines. A file pandas cannot read (a zero-byte file, for one, where reading the header raises) aborts the run in the source, and the batches appended before it stay in the output file; `WriteSubset` always runs to completion.
- Column names that clash after cleaning are not modelled: a row is a map, so one cell per cleaned name.
- `glob("*.csv")` and reading `st_mtime` are not modelled. The folder's CSV files and their modification times are an input.
- `src/check.py` is an inspection script with no logic, and is not part of this model.
- `Text.Lower`: ASCII letters only. Python's Unicode case mapping of other letters is not modelled.
- `Text.Upper`: ASCII letters only, for the same reason.
