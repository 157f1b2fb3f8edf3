# MIR assembly pipeline — a Dafny model

This project models the Manufacturing Inspection Report (MIR) pipeline of a
small FastAPI service (`main.py`). The pipeline has these parts:

- the sequencer that numbers a new report;
- the provisioner that lays out its package folder and writes `index.txt`;
- the collector that copies production documents into the staging area;
- the merger that fixes the order in which staged PDFs are appended to
  `FINAL_MIR.pdf`;
- the `create_mir` handler that drives the four steps above and records the status;
- the QC-log approval handler;
- the PDF download handler.

The database is replaced by sequences of rows held in a `RecordStore`
class. The storage tree is a map from path strings to entries. Each
helper returns what it would do to that tree: the directories and index
text, the `shutil.copy2` calls in order, and the paths given to the PDF
writer in order. `create_mir` applies the package directories to the tree
(`os.makedirs` with `exist_ok=True`) before the collector and the merger
read it.

Modules, in dependency order:

- `Wrappers`: `Option` and `Result`.
- `Text`: Python's `str` operations used by the helpers. This covers `in`,
  `startswith`/`endswith`, `split`, `str(int)`, the `04d` format and `int(str)`.
- `SqlLike`: SQLite's `LIKE`.
- `StringOrder`: Python's string ordering and `sorted()`. The sorted
  arrangement is proved unique.
- `FileSystem`: the tree snapshot, `exists`, `isdir`, `isfile`, `listdir`
  and POSIX `os.path.join`.
- `Records`: the rows, the project lookup, SQLite's choice of a new key and
  the unique constraint on `mir_number`.
- `Sequencer`: `generate_mir_number`.
- `Provisioner`: `create_mir_folder`.
- `Collector`: `attach_documents_to_mir`.
- `Merger`: `merge_mir_pdfs`.
- `Endpoints`: `create_mir`, `approve_qc_log`, `download_mir_pdf` and the
  record store.

Three facts about the code as written are proved, not just modelled:

- **The sequencer's filter never finds a report `create_mir` stored.** The
  filter is `<code>-MIR-%`, an SQL pattern with at least two dashes. The
  stored number is the bare `MIR-NNNN`, which has one dash. So every call
  proposes `MIR-0001`, and a project's second report breaks the unique
  constraint on `mir_master.mir_number`. See `Sequencer.FilterNeverMatches`,
  `Endpoints.SecondMirRejected` and `Endpoints.CreateTwice`.
- **The collector and the merger stage in different folders.** The
  collector copies into `<project_id>-<mir>/source_files`. The merger reads
  `<project_code>-<mir>/source_files`. They agree only when the project
  code is the decimal project id (`Collector.StagingFoldersAgreeIff`).
- **The merger drops collected copies that nothing marks.** The collector
  names a copy `<panel>_<subfolder>_<filename>`, with the subfolder
  `checklists`, `drawings` or `photos` in lower case. All five markers
  contain upper-case letters, and a name with no upper-case letter is never
  merged (`Merger.LowerCaseNeverMerged`). The markers are made of capitals
  and `_`, and none begins with `_`. So a copy can be merged only when a
  marker occurs in the panel id followed by its `_`, or in the file name.
  For example, the panel id `P1_DRAWING` holds no marker, yet
  `P1_DRAWING_checklists_a.pdf` holds `DRAWING_`.

The two page generators `create_mir` calls, `generate_mir_cover_page` and
`generate_panel_list_pdf` (main.py:349-350), are defined nowhere in the
repository. `CreateMir` takes a flag `generatorsDefined`:

- When it is false, the handler stops there with `GeneratorsUndefined`,
  which is what the file as written does. The report row stays `Draft`,
  with its panels recorded and its folder made.
- When it is true, the rest of the handler is modelled as if the
  generators ran and changed nothing the model sees.

The steps after the rows are committed can raise, and each failure leaves
the report row `Draft` (`Endpoints.PipelineRun`):

- `os.makedirs` raises `FileExistsError` when a package path, or the
  collector's staging folder, exists and is not a directory
  (`FolderNotCreated`).
- `open(..., "w")` of `index.txt` and `open(..., "wb")` of `FINAL_MIR.pdf`
  raise `IsADirectoryError` when the path is a directory (`FileNotWritten`).
- The generators are missing (`GeneratorsUndefined`).

When none of these raises, the merge returns its output path, because
`create_mir_folder` made the staging folder the merger checks. So the
report is then `Final` with `pdf_merged` true (`Endpoints.PipelineEndsFinal`).

## Model

| member | source | states |
|---|---|---|
| Sequencer.GenerateMirNumber | main.py:131-146 | `generate_mir_number`: the last matching row's number, its last `-` segment read as an integer, plus one, formatted `MIR-{:04d}`. Specified by `LastMatching`, `FirstNumber`, `NextNumber`, `GenerateFailsOnlyOnBadSuffix` and `FilterNeverMatches` below. |
| Sequencer.LastMatching | main.py:133-138 | The query's first row is absent exactly when no stored number matches the pattern. Otherwise it is a stored row that matches, and no matching row has a larger id. |
| Sequencer.FirstNumber | main.py:140-146 | With no matching record the generator returns `MIR-0001`. |
| Sequencer.NextNumber | main.py:140-146 | Suppose the last segment of the matched number reads as `n`. Then `n` is non-negative and the result is `MIR-` plus the digits of `n + 1`, zero-padded to four. The digits are never cut, and reading the number back gives `n + 1`. |
| Sequencer.GenerateFailsOnlyOnBadSuffix | main.py:140-146 | The generator fails exactly when a row matched and its last segment is not an integer. On success the number is `MIR-` plus at least four digits, with a value of at least 1. |
| Sequencer.FilterFindsPrefixedNumbers | main.py:135 | For every project code, `_` and `%` included, the filter does match numbers of the form `<code>-MIR-…`. |
| Sequencer.SuccessorOfPrefixed | main.py:131-146 | A single stored `<code>-MIR-<digits>` is followed by `MIR-` plus the padded successor of the digits. |
| Sequencer.FollowsFortyTwo | main.py:140-146 | A stored `P1-MIR-0042` is followed by `MIR-0043`. |
| Sequencer.WellFormedLacksMirInfix | main.py:146 | No generated number contains `-MIR-`. |
| Sequencer.FilterNeverMatches | main.py:135 | The filter `<code>-MIR-%` matches no generated number, whatever the project code. |
| Sequencer.EveryCallYieldsFirst | main.py:133-146 | Once every stored number came from the generator, every call returns `MIR-0001`. |
| SqlLike.Like | main.py:135 | SQLite's `LIKE`: `%` matches any run of characters and `_` any single one. Specified by `LikeKeepsDashes` and `LikePrefix`. |
| SqlLike.LikeKeepsDashes | main.py:135 | An SQL `LIKE` match has at least as many `-` as its pattern. |
| SqlLike.LikePrefix | main.py:135 | Any prefix followed by `%` matches that prefix followed by anything, even when the prefix holds `%` or `_`. |
| Text.PyInt | main.py:141 | Python's `int(str)` in base 10, `None` where Python raises `ValueError`. Specified by `PyIntOfDigits` and `PyIntNonNegative`. |
| Text.Split | main.py:141 | `str.split` with a one-character separator. There is at least one piece. The pieces never hold the separator (`SplitPiecesLackSeparator`), and they join back to the string (`JoinSplit`). |
| Text.SplitPiecesLackSeparator | main.py:141 | No piece of `split` holds the separator. |
| Text.LastSegment | main.py:141 | `split("-")[-1]`. It holds no `-` (`LastSegmentLacksDash`). |
| Text.Format04d | main.py:146 | The `04d` format: the sign, then the digits zero-padded so the whole is at least four wide. Specified by `Format04dReadsBack` and `PaddedDigits`. |
| Text.Format04dReadsBack | main.py:141-146 | The `04d` form of any integer is at least four characters wide, and `int()` reads it back as that integer. |
| Text.PyIntOfDigits | main.py:141 | `int()` reads a plain digit string as its decimal value. |
| Text.PyIntNonNegative | main.py:141 | `int()` of a text without `-` is never negative. |
| Text.FileSeparatorNotStripped | main.py:141 | `int()` rejects a digit preceded by U+001C: of the ASCII characters, it strips only tab to carriage return and space. |
| Text.LastSegmentLacksDash | main.py:141 | `split("-")[-1]` holds no `-`. |
| Text.JoinSplit | main.py:141 | Joining the pieces of `split` with the separator gives the string back. |
| Text.PaddedDigits | main.py:146 | Zero-padding keeps the value and every digit, and widens to at least the given width. |
| Records.FindProject | main.py:151-153 | The lookup by id is absent exactly when no project has the id. Otherwise it returns a stored project with that id. |
| Records.NextRowId | main.py:337-344 | A new key is larger than every key in use. It is 1 in an empty table, and otherwise one more than some key in use. |
| FileSystem.Join | main.py:188-191 | POSIX `os.path.join` of two components. |
| FileSystem.JoinUnder | main.py:188-191 | A joined path ends in its last component. A relative component goes under the folder, with one `/` between them unless the folder is empty or already ends in `/`. |
| FileSystem.MakeDirsEffect | main.py:156-160 | After `os.makedirs(d, exist_ok=True)` for each package directory, every one that was absent or a directory is a directory, every existing entry is unchanged, and nothing else appears. |
| FileSystem.FirstBlockedFinds | main.py:156-160 | The path where `os.makedirs` raises `FileExistsError` is a listed directory that exists and is not a directory. There is none exactly when every listed path is absent or a directory. |
| Provisioner.CreateMirFolder | main.py:149-169 | An unknown project gives nothing. Otherwise the result is the package root `storage/project_<id>/MIR/<code>-<mir>`, then its `source_files`, `merged_pdf` and `final_mir` subfolders in that order. It also gives `index.txt` at the root, holding the tag, the project name, the creation time and one `  - <panel>` line per panel. |
| Provisioner.MakeSubfolders | main.py:155-160 | The directories created are the package root, then `source_files`, `merged_pdf` and `final_mir` under it, in that order. |
| Provisioner.WriteIndex | main.py:162-169 | The sequence of writes produces the index text: the header lines, then one `  - <panel>` line per panel, each line ended by a newline. |
| Provisioner.HeaderText | main.py:164-167 | The four header writes produce the five header lines of the index. |
| Provisioner.IndexRecordsPanels | main.py:163-169 | When no field holds a line break, `index.txt` splits into exactly the header lines, one line per panel and a trailing empty piece. The panel list reads back from it in order. |
| Collector.CollectSubfolder | main.py:187-192 | The copies for one subfolder are one per listed name that is a regular file, in listing order. Each is named `<panel>_<subfolder>_<filename>` in the staging area. |
| Collector.CollectPanel | main.py:179-192 | A panel whose folder is absent gives no copies. Otherwise it gives the copies of its `checklists`, `drawings` and `photos` subfolders in that order, skipping those that are not directories. |
| Collector.AttachDocuments | main.py:172-192 | The staging folder is `storage/project_<id>/MIR/<id>-<mir>/source_files`. It is created exactly when it is absent or already a directory; otherwise `os.makedirs` raises and nothing is copied. Once it is a directory, the copies are the copy plan of the panels in the order given, on the tree with that folder made. |
| Collector.CopyPanels | main.py:178-192 | The loop over the panels issues exactly the copy plan of the panels, in order. |
| Collector.CopyPlan | main.py:178-192 | The copies for the panels in order. Specified by `CopyPlanExact`, `CopyPlanAppend`, `AbsentPanelSkipped` and `AttachDocuments`. |
| Collector.CopyPlanAppend | main.py:178 | Panels are handled in input order: the plan of a concatenation is the concatenation of the plans. |
| Collector.AbsentPanelSkipped | main.py:180-181 | Removing a panel whose folder is absent does not change the plan. |
| Collector.CopyPlanExact | main.py:178-192 | A copy is in the plan if and only if its source is a regular file listed in one of the scanned subfolders of an existing folder of a requested panel. The collector scans `checklists`, `drawings` and `photos`. The copy's target must be `<panel>_<subfolder>_<filename>` in the staging area. |
| Collector.SingleChecklistCopied | main.py:178-192 | A panel holding only `checklists/a.pdf` yields exactly one copy, `<panel>_checklists_a.pdf`. |
| Collector.StagingFoldersAgreeIff | main.py:174-175 | The collector's staging folder equals the one the provisioner and merger use (main.py:155, 201-202) if and only if the project code is the decimal project id. |
| Merger.Plan | main.py:209-215 | The paths appended, in order. Specified by `PlanBlocks`, `PlanMembers`, `PlanCount`, `PlanLength` and `PlanIgnoresListingOrder`. |
| Merger.MergeResult | main.py:195-221 | The outcome of `merge_mir_pdfs`. Specified by `MergeResultCases`, and implemented by `MergeMirPdfs`. |
| Merger.MergeGroup | main.py:213-215 | The paths appended for one marker are the joined selected names, in sorted-listing order. |
| Merger.MergeMirPdfs | main.py:195-221 | The method's outcome equals the merge specification. That is no output without a project or staging folder, and a failed listing when the staging path is not a directory. A failed write follows when the output path is a directory. Otherwise the outcome is the output path with the five groups' paths appended in order. |
| Merger.MergeResultCases | main.py:197-221 | No output exactly when the project or the staging folder is missing. When the staging folder is a directory, the output path is `<code>-<mir>/FINAL_MIR.pdf`. It is written, even with nothing appended, unless that path is a directory, where the write fails. The output ends in `/FINAL_MIR.pdf` and is never empty. |
| Merger.GroupIsSortedSelection | main.py:212-215 | Each marker's group of the sorted listing is the sorted list of the names that marker selects. |
| Merger.PlanBlocks | main.py:209-215 | The merge order is five blocks: the sorted `MIR_FORM_`, `PANEL_LIST_`, `CHECKLIST`, `DRAWING_` and `PHOTO` selections, in that order. |
| Merger.GroupSorted | main.py:213 | Each group is in ascending order. |
| Merger.GroupCount | main.py:213-215 | A name occurs in a group as often as it is listed if the marker selects it, and otherwise not at all. |
| Merger.PlanCount | main.py:212-215 | A name is appended once per marker that selects it, for each time it is listed. |
| Merger.PlanMembers | main.py:214 | A listed name is merged if and only if it ends in `.pdf` and contains one of the five markers. |
| Merger.PlanLength | main.py:212-215 | The number of appended files is the sum of the five group sizes. |
| Merger.PlanIgnoresListingOrder | main.py:210-213 | The merge order depends only on which names are listed, not on the order `os.listdir` returns them. |
| Merger.LowerCaseNeverMerged | main.py:214 | A name with no upper-case letter is never merged. |
| Merger.SampleMergeOrder | main.py:209-215 | `PHOTO_2.pdf`, `CHECKLIST_b.pdf`, `MIR_FORM_cover.pdf`, `CHECKLIST_a.pdf`, `PANEL_LIST_x.pdf` and `random.pdf` merge as cover, panel list, `CHECKLIST_a`, `CHECKLIST_b` and photo. `random.pdf` is dropped. |
| StringOrder.Sort | main.py:213 | The result of `sorted()` is ordered and a permutation of its input. |
| StringOrder.SortedUnique | main.py:213 | Two sorted permutations of the same names are equal, so `sorted()` has one outcome. |
| StringOrder.LeTotal | main.py:213 | Any two strings are ordered one way or the other. |
| StringOrder.LeTransitive | main.py:213 | The string order is transitive. |
| StringOrder.LeAntisymmetric | main.py:213 | Strings ordered both ways are equal. |
| Endpoints.RecordStore.CreateMir | main.py:330-361 | An unknown project gives 404 and no change. A failed sequence or a number already stored raises before anything is kept, with no folder, copies or merge. Otherwise the `Draft` row with the next key and its panel rows are stored, and the package layout and index text are as `create_mir_folder` gives them. The copies and the merge are those of the filesystem steps. When a step raises, the request fails with that error and the row stays `Draft`. Otherwise the merge returned its output path, the row becomes `Final`, and the response is the number, `Final`, `folder_created` true and `pdf_merged` true. Table uniqueness of `mir_number` is preserved. |
| Endpoints.RecordStore.FinishMir | main.py:346-361 | After the rows are committed: the layout is `create_mir_folder`'s. A failing step leaves the table as it was. Otherwise the last row becomes `Final` and the response reports the merged PDF. Uniqueness of `mir_number` is preserved. |
| Endpoints.PipelineRun | main.py:155-221 | The filesystem steps of `create_mir` in source order. They stop at the first of: a blocked package directory, `index.txt` being a directory, the missing generators, a blocked collector staging folder, and `FINAL_MIR.pdf` being a directory. The copies and the merge are taken on the tree with the package and staging directories made. |
| Endpoints.RunPipeline | main.py:155-221 | The step-by-step run ends as `PipelineRun` says. When nothing raised, the merge returned `<code>-<mir>/FINAL_MIR.pdf`. |
| Endpoints.PipelineFailureKinds | main.py:155-221 | A failing step raises only `FolderNotCreated`, `FileNotWritten` or `GeneratorsUndefined`. The missing generators are reached exactly when the package directories and `index.txt` could be made and the generators are absent. |
| Endpoints.PipelineEndsFinal | main.py:201-221 | When no step raises, the merge returned its output path, so the status is `Final` and `pdf_merged` true. |
| Endpoints.RecordStore.InsertPanels | main.py:342-344 | The panel table becomes `AddPanels` of the old rows: one new row per panel, in order, each keyed as SQLite keys a new row. |
| Endpoints.AddPanelsRecordsPanels | main.py:342-344 | The old panel rows are kept, followed by one row per requested panel in order, each pointing at the new report. |
| Endpoints.AddPanelsFreshKeys | main.py:343 | Every added panel row has a key larger than all rows before it. |
| Endpoints.NewNumberKeepsUnique | main.py:337-339 | Adding a row whose number is not taken keeps `mir_number` unique, as the column's unique constraint (main.py line 71) demands. |
| Endpoints.StatusMatchesPdfMerged | main.py:352-361 | Whenever the merge returns, the recorded status is `Final` exactly when it returned a path, and `Ready` exactly when it returned none. |
| Endpoints.ProvisionedStagingGivesFinal | main.py:201-221 | Once the staging folder the merge reads is a directory, the write fails exactly when `<code>-<mir>/FINAL_MIR.pdf` is a directory. Otherwise the merge returns that path, and the status set at main.py line 354 is `Final`. |
| Endpoints.ProvisionedStaging | main.py:155-176 | When no package path is blocked, the merger's staging folder is a directory once the package directories are made. It stays one after the collector's folder is made too. |
| Endpoints.SecondMirRejected | main.py:335-339 | Once `MIR-0001` is stored (and every stored number has the generated form), the sequencer proposes it again, and it is taken, so the unique constraint (main.py line 71) rejects it. |
| Endpoints.FirstMirNumber | main.py:140-146 | A project's first report is `MIR-0001`. |
| Endpoints.CreateTwice | main.py:330-344 | Two requests against an empty table: the first stores `MIR-0001`, the second is rejected as a duplicate of it. |
| Endpoints.CreateFirst | main.py:330-361 | The first request against an empty table stores `MIR-0001`. It succeeds as `Final`, or fails with one of the pipeline's errors. |
| Endpoints.Approve | main.py:270-277 | The QC-log table after approving an id. Specified by `ApproveChangesOnlyTarget` and `ApproveIdempotent`, and applied by `RecordStore.ApproveQcLog`. |
| Endpoints.RecordStore.ApproveQcLog | main.py:269-277 | An unknown id gives 404 and no change. Otherwise the row's status becomes `Approved` and the response carries the id and `Approved`. The other tables are unchanged. |
| Endpoints.QcLogIndex | main.py:271-273 | The lookup is absent exactly when no row has the id. Otherwise it is the position of the first row with that id. |
| Endpoints.ApproveChangesOnlyTarget | main.py:271-276 | Approval changes only the status of the first row with the id, to `Approved`. An unknown id changes nothing. |
| Endpoints.ApproveIdempotent | main.py:270-277 | Approving twice is the same as approving once. |
| Endpoints.DownloadMirPdf | main.py:366-419 | `download_mir_pdf`. Specified by `DownloadFailures`, `DownloadServesMergedFile` and `DispositionChoice`. |
| Endpoints.DownloadFailures | main.py:389-406 | The download fails with 404 exactly when the project is unknown or the file at `<code>-<mir>/FINAL_MIR.pdf` is absent. A missing file reports the project, the number and the path looked for. |
| Endpoints.DownloadServesMergedFile | main.py:394-419 | Once the merged file exists, the download serves the path the merge wrote, as `application/pdf`. |
| Endpoints.DispositionChoice | main.py:409-418 | `Content-Disposition` is `inline` when viewing and `attachment` otherwise, followed by the quoted name `<code>-<mir>.pdf`. That name is also the response's file name. |

## Left out

- `models.py` is not part of this model. It is a second table schema with no behaviour.
- The ORM session is not modelled. A request that raises before its
  commit leaves the tables as they were. The commits are treated as atomic,
  and a unique-constraint failure is reported as `DuplicateMirNumber`
  before anything is changed. A failure after the row is stored keeps it
  as `Draft`.
- Filesystem mutation is modelled only for the four package directories of
  `create_mir_folder` and the collector's staging folder. Not modelled: the
  intermediate directories `os.makedirs` also creates, and new names in
  parent listings. The written `index.txt` entry is not added to the tree
  either. Each helper returns a description of its effect instead.
- What `shutil.copy2` does (overwrites, metadata) is not applied to the
  tree, so the merge does not see the collected copies. The two write to
  different staging folders anyway, unless the project code is the decimal
  project id.
- Endpoints.RecordStore.CreateMir: promises `Final` whenever none of the
  modelled failures occurs. It does not cover these other failures:
  - `NotADirectoryError` or `FileExistsError` from a path prefix that is a
    file;
  - `index.txt` or `FINAL_MIR.pdf` being a special file;
  - failing copies or damaged PDFs;
  - permission errors.
- The PDF writer (`PdfWriter.append/write/close`) is not modelled. The merge
  outcome records only the output path and the appended paths. Failures of
  appending a damaged PDF are not modelled.
- `generate_mir_cover_page` and `generate_panel_list_pdf` are defined
  nowhere. They are modelled by the `generatorsDefined` flag of `CreateMir`.
- Timestamps are parameters: the creation time in `index.txt` is passed in,
  and `created_at`/`uploaded_at` columns are not stored.
- The other endpoints are out of scope: listing and creating projects,
  production and QC logs, template upload with its file transfer, and
  listing a project's reports. The `size_mb` float rounding is out of scope too.
- HTTP transport and FastAPI routing are not modelled. Errors are values of
  `ApiError` rather than HTTP responses.
- Concurrency between requests is not modelled.
- `Text.PyInt`: strips what CPython's `int()` strips (ASCII tab to
  carriage return and space, and from U+007F up the characters of
  `str.isspace`), but reads ASCII digits only. Python also accepts decimal
  digits from other scripts. The `ValueError` that Python 3.11 and later raise for more than
  4300 digits is not modelled either.
- `Text`: a Python `str` may hold lone surrogates, and a Dafny `char`
  cannot, so such strings are outside the model.
- `FileSystem.Join`: paths are compared as strings, with no normalisation
  of `..`, `.` or repeated slashes. The same holds for `Path(...)` in the
  download handler.
