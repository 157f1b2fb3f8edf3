/**
  * The request handlers that drive the pipeline and the record store they
  * update: `create_mir` (main.py:330-361), `approve_qc_log`
  * (main.py:268-277) and `download_mir_pdf` (main.py:365-419). The store
  * is a class whose tables are sequences of rows; a request that raises
  * before its commit leaves the tables as they were.
  */
module Endpoints {
  import opened Wrappers
  import opened Text
  import opened FileSystem
  import opened Records
  import opened Sequencer
  import opened Provisioner
  import opened Collector
  import opened Merger

  /** Why a request fails: an HTTP 404, or an exception that aborts the request. */
  datatype ApiError =
    | ProjectNotFound
    | QcLogNotFound
    | SequenceFailed(cause: SequenceError)
    | DuplicateMirNumber(number: string)
    | GeneratorsUndefined
    | FolderNotCreated(path: string)
    | FileNotWritten(path: string)
    | PdfNotFound(projectId: int, mirNumber: string, expectedPath: string)

  datatype CreateMirResponse = CreateMirResponse(mirNumber: string, status: string, folderCreated: bool, pdfMerged: bool)

  datatype ApproveResponse = ApproveResponse(qcLogId: int, status: string)

  datatype PdfResponse = PdfResponse(path: string, mediaType: string, contentDisposition: string, filename: string)

  // ------------------------------------------------------------ create_mir

  /** What `merge_mir_pdfs` returns to `create_mir`: the output path, or `None`. */
  function FinalPdf(m: MergeOutcome): Option<string> {
    if m.Merged? then Some(m.output) else None
  }

  /** `"Final" if final_pdf else "Ready"`: a path is truthy when it is not empty. */
  function StatusAfterMerge(finalPdf: Option<string>): string {
    if finalPdf.Some? && finalPdf.value != "" then Final else Ready
  }

  /** The `mir_master` row `create_mir` inserts: the next key, the project, the number, status `Draft`. */
  function NewMir(mirs: seq<MirMaster>, projectId: int, number: string): MirMaster {
    MirMaster(NextRowId(Keys(mirs, MirKey)), projectId, number, Draft)
  }

  /** The `mir_panel` rows after one row per panel is added, each with the next key. */
  function AddPanels(rows: seq<MirPanel>, mirId: int, panels: seq<string>): seq<MirPanel>
    decreases |panels|
  {
    if |panels| == 0 then rows
    else
      var before := AddPanels(rows, mirId, panels[..|panels| - 1]);
      before + [MirPanel(NextRowId(Keys(before, PanelKey)), mirId, panels[|panels| - 1])]
  }

  /** How the filesystem steps of `create_mir` end: the exception that aborts the request, if any, the copies and the merge. */
  datatype Run = Run(failure: Option<ApiError>, copies: seq<Copy>, merge: MergeOutcome)

  /**
    * The steps of `create_mir` after its rows are committed, in source
    * order, on the tree `fs` before the request:
    *   - `os.makedirs` of the package directories, which raises
    *     `FileExistsError` at a path that exists and is not a directory;
    *   - `open(index.txt, "w")`, which raises `IsADirectoryError` when the
    *     path is a directory;
    *   - the two page generators, which do not exist;
    *   - the collector, whose own `os.makedirs` of its staging folder can
    *     raise in the same way;
    *   - the merger, on the tree with the collector's folder made.
    */
  function PipelineRun(projects: seq<Project>, projectId: int, number: string, layout: Layout,
                       panelIds: seq<string>, generatorsDefined: bool, fs: Tree): Run
  {
    var blocked := FirstBlocked(fs, layout.dirs);
    if blocked.Some? then Run(Some(FolderNotCreated(blocked.value)), [], NoOutput)
    else
      var tree := MakeDirs(fs, layout.dirs);
      if IsDir(tree, layout.indexPath) then Run(Some(FileNotWritten(layout.indexPath)), [], NoOutput)
      else if !generatorsDefined then Run(Some(GeneratorsUndefined), [], NoOutput)
      else
        var staging := CollectorStaging(projectId, number);
        if Exists(tree, staging) && !IsDir(tree, staging) then Run(Some(FolderNotCreated(staging)), [], NoOutput)
        else
          var after := MakeDirs(tree, [staging]);
          var merge := MergeResult(projects, projectId, number, after);
          var copies := CopyPlan(after, projectId, staging, DocumentSubfolders, panelIds);
          if merge.WriteFailed? then Run(Some(FileNotWritten(merge.path)), copies, merge)
          else Run(None, copies, merge)
  }

  /**
    * The filesystem steps of `create_mir` after its rows are committed,
    * step by step; the copies and the merge are those of the steps that
    * ran, and `failure` is the exception that stopped them, if any.
    */
  method RunPipeline(projects: seq<Project>, projectId: int, number: string, layout: Layout,
                     panelIds: seq<string>, generatorsDefined: bool, fs: Tree)
    returns (failure: Option<ApiError>, copies: seq<Copy>, merge: MergeOutcome)
    requires FindProject(projects, projectId).Some?
    requires |layout.dirs| > 1 && layout.dirs[1] == StagingFolder(projectId, FindProject(projects, projectId).value.code, number)
    ensures Run(failure, copies, merge) == PipelineRun(projects, projectId, number, layout, panelIds, generatorsDefined, fs)
    ensures failure.None? ==>
      merge.Merged? && merge.output == OutputPath(projectId, FindProject(projects, projectId).value.code, number)
  {
    failure, copies, merge := None, [], NoOutput;
    var blocked := FirstBlocked(fs, layout.dirs);
    if blocked.Some? {
      // `os.makedirs` raises `FileExistsError`
      return Some(FolderNotCreated(blocked.value)), copies, merge;
    }
    var tree := MakeDirs(fs, layout.dirs);
    if IsDir(tree, layout.indexPath) {
      // `open(index_file, "w")` raises `IsADirectoryError`
      return Some(FileNotWritten(layout.indexPath)), copies, merge;
    }
    if !generatorsDefined {
      return Some(GeneratorsUndefined), copies, merge;
    }
    var staging, made, after;
    staging, made, after, copies := AttachDocuments(tree, projectId, number, panelIds);
    if !made {
      return Some(FolderNotCreated(staging)), copies, merge;
    }
    merge := MergeMirPdfs(projects, projectId, number, after);
    if merge.WriteFailed? {
      return Some(FileNotWritten(merge.path)), copies, merge;
    }
    PipelineEndsFinal(projects, projectId, number, layout, panelIds, generatorsDefined, fs);
  }

  // ------------------------------------------------------------ approve_qc_log

  /** `db.query(QCLog).filter(QCLog.id == id).first()`: the position of the first row with that key. */
  function QcLogIndex(logs: seq<QcLog>, id: int): (r: Option<nat>)
    ensures r.None? <==> forall i :: 0 <= i < |logs| ==> logs[i].id != id
    ensures r.Some? ==> r.value < |logs| && logs[r.value].id == id
    ensures r.Some? ==> forall i :: 0 <= i < r.value ==> logs[i].id != id
    decreases |logs|
  {
    if |logs| == 0 then None
    else if logs[0].id == id then Some(0)
    else
      match QcLogIndex(logs[1..], id)
      case None => None
      case Some(i) => Some(i + 1)
  }

  /** The `qc_log` table after approving `id`: that row's status becomes `Approved`. */
  function Approve(logs: seq<QcLog>, id: int): seq<QcLog> {
    match QcLogIndex(logs, id)
    case None => logs
    case Some(i) => logs[i := logs[i].(status := Approved)]
  }

  // ------------------------------------------------------------ download_mir_pdf

  function PdfFilename(code: string, mirNumber: string): string {
    code + "-" + mirNumber + ".pdf"
  }

  /** `inline` to view in the browser, `attachment` to download, with the file name quoted. */
  function ContentDisposition(view: bool, filename: string): string {
    (if view then "inline; " else "attachment; ") + ("filename=\"" + filename + "\"")
  }

  /** `download_mir_pdf`: the merged report of a project, or why it cannot be served. */
  function DownloadMirPdf(projects: seq<Project>, projectId: int, mirNumber: string, view: bool, fs: Tree)
    : Result<PdfResponse, ApiError>
  {
    match FindProject(projects, projectId)
    case None => Err(ProjectNotFound)
    case Some(p) =>
      var path := OutputPath(projectId, p.code, mirNumber);
      if !Exists(fs, path) then Err(PdfNotFound(projectId, mirNumber, path))
      else
        var name := PdfFilename(p.code, mirNumber);
        Ok(PdfResponse(path, "application/pdf", ContentDisposition(view, name), name))
  }

  // ------------------------------------------------------------ the store

  class RecordStore {
    var projects: seq<Project>
    var mirs: seq<MirMaster>
    var mirPanels: seq<MirPanel>
    var qcLogs: seq<QcLog>

    constructor(projects: seq<Project>, mirs: seq<MirMaster>, mirPanels: seq<MirPanel>, qcLogs: seq<QcLog>)
      ensures this.projects == projects && this.mirs == mirs
      ensures this.mirPanels == mirPanels && this.qcLogs == qcLogs
    {
      this.projects := projects;
      this.mirs := mirs;
      this.mirPanels := mirPanels;
      this.qcLogs := qcLogs;
    }

    /** `approve_qc_log`: 404 for an unknown id; otherwise the row's status becomes `Approved`. */
    method ApproveQcLog(qcLogId: int) returns (r: Result<ApproveResponse, ApiError>)
      modifies this
      ensures QcLogIndex(old(qcLogs), qcLogId).None? ==> r == Err(QcLogNotFound)
      ensures QcLogIndex(old(qcLogs), qcLogId).Some? ==> r == Ok(ApproveResponse(qcLogId, Approved))
      ensures qcLogs == Approve(old(qcLogs), qcLogId)
      ensures projects == old(projects) && mirs == old(mirs) && mirPanels == old(mirPanels)
    {
      var found := QcLogIndex(qcLogs, qcLogId);
      if found.None? {
        return Err(QcLogNotFound);
      }
      var i := found.value;
      qcLogs := qcLogs[i := qcLogs[i].(status := Approved)];
      return Ok(ApproveResponse(qcLogId, Approved));
    }

    /** The loop adding one `mir_panel` row per panel. */
    method InsertPanels(mirId: int, panelIds: seq<string>)
      modifies this
      ensures mirPanels == AddPanels(old(mirPanels), mirId, panelIds)
      ensures projects == old(projects) && mirs == old(mirs) && qcLogs == old(qcLogs)
    {
      for i := 0 to |panelIds|
        invariant mirPanels == AddPanels(old(mirPanels), mirId, panelIds[..i])
        invariant projects == old(projects) && mirs == old(mirs) && qcLogs == old(qcLogs)
      {
        assert panelIds[..i + 1][..i] == panelIds[..i];
        mirPanels := mirPanels + [MirPanel(NextRowId(Keys(mirPanels, PanelKey)), mirId, panelIds[i])];
      }
      assert panelIds[..|panelIds|] == panelIds;
    }

    /**
      * `create_mir`. `fs` is the storage tree before the request, and
      * `generatorsDefined` says whether the two page generators the handler
      * calls exist. The out-parameters beside the response are what the
      * handler does to the filesystem: the provisioned layout, the copies,
      * and the merge.
      */
    method CreateMir(projectId: int, panelIds: seq<string>, created: string, generatorsDefined: bool, fs: Tree)
      returns (r: Result<CreateMirResponse, ApiError>, layout: Option<Layout>, copies: seq<Copy>, merge: MergeOutcome)
      modifies this
      ensures projects == old(projects) && qcLogs == old(qcLogs)
      ensures old(UniqueNumbers(mirs)) ==> UniqueNumbers(mirs)
      ensures FindProject(old(projects), projectId).None? ==>
        r == Err(ProjectNotFound) && mirs == old(mirs) && mirPanels == old(mirPanels)
        && layout.None? && copies == [] && merge.NoOutput?
      ensures FindProject(old(projects), projectId).Some? ==>
        var p := FindProject(old(projects), projectId).value;
        var g := GenerateMirNumber(p.code, old(mirs));
        && (g.Err? ==>
              && r == Err(SequenceFailed(g.error)) && mirs == old(mirs) && mirPanels == old(mirPanels)
              && layout.None? && copies == [] && merge.NoOutput?)
        && (g.Ok? && NumberTaken(old(mirs), g.value) ==>
              && r == Err(DuplicateMirNumber(g.value)) && mirs == old(mirs) && mirPanels == old(mirPanels)
              && layout.None? && copies == [] && merge.NoOutput?)
      ensures FindProject(old(projects), projectId).Some? ==>
        var p := FindProject(old(projects), projectId).value;
        var g := GenerateMirNumber(p.code, old(mirs));
        g.Ok? && !NumberTaken(old(mirs), g.value) ==>
          var number := g.value;
          var row := NewMir(old(mirs), projectId, number);
          && mirPanels == AddPanels(old(mirPanels), row.id, panelIds)
          && var folder := MirFolder(projectId, p.code, number);
          && layout.Some? && layout.value.folder == folder
          && layout.value.dirs == [folder, folder + "/source_files", folder + "/merged_pdf", folder + "/final_mir"]
          && layout.value.indexPath == folder + "/index.txt"
          && layout.value.indexText == IndexText(p.code + "-" + number, p.name, created, panelIds)
          && var run := PipelineRun(old(projects), projectId, number, layout.value, panelIds, generatorsDefined, fs);
          && copies == run.copies && merge == run.merge
          && (run.failure.Some? ==> r == Err(run.failure.value) && mirs == old(mirs) + [row])
          && (run.failure.None? ==>
                && merge.Merged? && merge.output == OutputPath(projectId, p.code, number)
                && mirs == old(mirs) + [row.(status := Final)]
                && r == Ok(CreateMirResponse(number, Final, true, true)))
    {
      layout, copies, merge := None, [], NoOutput;
      var project := FindProject(projects, projectId);
      if project.None? {
        return Err(ProjectNotFound), layout, copies, merge;
      }
      var p := project.value;
      var generated := GenerateMirNumber(p.code, mirs);
      if generated.Err? {
        return Err(SequenceFailed(generated.error)), layout, copies, merge;
      }
      var number := generated.value;
      if NumberTaken(mirs, number) {
        // the unique constraint on `mir_number` rejects the commit
        return Err(DuplicateMirNumber(number)), layout, copies, merge;
      }
      var row := NewMir(mirs, projectId, number);
      NewNumberKeepsUnique(mirs, row);
      mirs := mirs + [row];
      InsertPanels(row.id, panelIds);
      assert mirs == old(mirs) + [row];
      r, layout, copies, merge := FinishMir(projectId, number, panelIds, created, generatorsDefined, fs);
      ReplaceLast(old(mirs), row, row.(status := Final));
    }

    /**
      * `create_mir` once its rows are committed: `create_mir_folder`, the
      * steps that follow it, and the status update of the new row, the
      * last of the table.
      */
    method FinishMir(projectId: int, number: string, panelIds: seq<string>, created: string, generatorsDefined: bool, fs: Tree)
      returns (r: Result<CreateMirResponse, ApiError>, layout: Option<Layout>, copies: seq<Copy>, merge: MergeOutcome)
      requires FindProject(projects, projectId).Some? && |mirs| > 0
      modifies this
      ensures projects == old(projects) && qcLogs == old(qcLogs) && mirPanels == old(mirPanels)
      ensures old(UniqueNumbers(mirs)) ==> UniqueNumbers(mirs)
      ensures var p := FindProject(old(projects), projectId).value;
        var folder := MirFolder(projectId, p.code, number);
        && layout.Some? && layout.value.folder == folder
        && layout.value.dirs == [folder, folder + "/source_files", folder + "/merged_pdf", folder + "/final_mir"]
        && layout.value.indexPath == folder + "/index.txt"
        && layout.value.indexText == IndexText(p.code + "-" + number, p.name, created, panelIds)
        && var run := PipelineRun(old(projects), projectId, number, layout.value, panelIds, generatorsDefined, fs);
        && copies == run.copies && merge == run.merge
        && (run.failure.Some? ==> r == Err(run.failure.value) && mirs == old(mirs))
        && (run.failure.None? ==>
              && merge.Merged? && merge.output == OutputPath(projectId, p.code, number)
              && mirs == old(mirs)[|old(mirs)| - 1 := old(mirs)[|old(mirs)| - 1].(status := Final)]
              && r == Ok(CreateMirResponse(number, Final, true, true)))
    {
      layout := CreateMirFolder(projects, projectId, number, panelIds, created);
      var failure;
      failure, copies, merge := RunPipeline(projects, projectId, number, layout.value, panelIds, generatorsDefined, fs);
      if failure.Some? {
        return Err(failure.value), layout, copies, merge;
      }
      var status := StatusAfterMerge(FinalPdf(merge));
      StatusKeepsUnique(mirs, status);
      mirs := mirs[|mirs| - 1 := mirs[|mirs| - 1].(status := status)];
      r := Ok(CreateMirResponse(number, status, true, FinalPdf(merge).Some?));
    }
  }

  // ------------------------------------------------------------ properties

  lemma ReplaceLast(rows: seq<MirMaster>, row: MirMaster, updated: MirMaster)
    ensures (rows + [row])[|rows| := updated] == rows + [updated]
  {
  }

  lemma NewNumberKeepsUnique(mirs: seq<MirMaster>, row: MirMaster)
    requires !NumberTaken(mirs, row.mirNumber)
    ensures UniqueNumbers(mirs) ==> UniqueNumbers(mirs + [row])
  {
    if UniqueNumbers(mirs) {
      var all := mirs + [row];
      forall i, j | 0 <= i < j < |all| ensures all[i].mirNumber != all[j].mirNumber {
        if j == |mirs| {
          assert all[i] == mirs[i];
        } else {
          assert all[i] == mirs[i] && all[j] == mirs[j];
        }
      }
    }
  }

  lemma StatusKeepsUnique(mirs: seq<MirMaster>, status: string)
    requires |mirs| > 0
    ensures UniqueNumbers(mirs) ==> UniqueNumbers(mirs[|mirs| - 1 := mirs[|mirs| - 1].(status := status)])
  {
    var b := mirs[|mirs| - 1 := mirs[|mirs| - 1].(status := status)];
    assert forall i :: 0 <= i < |mirs| ==> mirs[i].mirNumber == b[i].mirNumber;
  }

  /**
    * The `mir_panel` rows `create_mir` adds: the old rows untouched, then one
    * row per requested panel, in order, each pointing at the new report.
    */
  lemma {:induction false} AddPanelsRecordsPanels(rows: seq<MirPanel>, mirId: int, panels: seq<string>)
    ensures |AddPanels(rows, mirId, panels)| == |rows| + |panels|
    ensures AddPanels(rows, mirId, panels)[..|rows|] == rows
    ensures forall i :: 0 <= i < |panels| ==>
      AddPanels(rows, mirId, panels)[|rows| + i] == MirPanel(AddPanels(rows, mirId, panels)[|rows| + i].id, mirId, panels[i])
    decreases |panels|
  {
    if |panels| > 0 {
      var init := panels[..|panels| - 1];
      AddPanelsRecordsPanels(rows, mirId, init);
      var before := AddPanels(rows, mirId, init);
      var r := AddPanels(rows, mirId, panels);
      assert r == before + [r[|r| - 1]];
      assert r[..|rows|] == before[..|rows|];
      forall i | 0 <= i < |panels| ensures r[|rows| + i] == MirPanel(r[|rows| + i].id, mirId, panels[i]) {
        if i < |init| {
          assert r[|rows| + i] == before[|rows| + i];
          assert init[i] == panels[i];
        }
      }
    }
  }

  /** Every added `mir_panel` row has a key larger than every row before it. */
  lemma {:induction false} AddPanelsFreshKeys(rows: seq<MirPanel>, mirId: int, panels: seq<string>)
    ensures var r := AddPanels(rows, mirId, panels);
      forall i, j :: 0 <= i < j < |r| && j >= |rows| ==> r[i].id < r[j].id
    decreases |panels|
  {
    if |panels| > 0 {
      var init := panels[..|panels| - 1];
      AddPanelsFreshKeys(rows, mirId, init);
      AddPanelsRecordsPanels(rows, mirId, init);
      var before := AddPanels(rows, mirId, init);
      var r := AddPanels(rows, mirId, panels);
      assert r == before + [r[|r| - 1]];
      assert r[|r| - 1].id == NextRowId(Keys(before, PanelKey));
      forall i, j | 0 <= i < j < |r| && j >= |rows| ensures r[i].id < r[j].id {
        if j == |before| {
          assert Keys(before, PanelKey)[i] == before[i].id;
        } else {
          assert r[i] == before[i] && r[j] == before[j];
        }
      }
    }
  }

  /**
    * The status `create_mir` records agrees with `pdf_merged` whenever the
    * merge returns: `Final` exactly when it returned a path, `Ready`
    * exactly when it returned `None`. (The path is never empty, so
    * truthiness and `is not None` coincide.)
    */
  lemma StatusMatchesPdfMerged(projects: seq<Project>, projectId: int, mirNumber: string, fs: Tree)
    ensures var m := MergeResult(projects, projectId, mirNumber, fs);
      m.NoOutput? || m.Merged? ==>
        && (StatusAfterMerge(FinalPdf(m)) == Final <==> FinalPdf(m).Some?)
        && (StatusAfterMerge(FinalPdf(m)) == Ready <==> m.NoOutput?)
  {
    MergeResultCases(projects, projectId, mirNumber, fs);
  }

  /**
    * Once the staging directory the merge reads exists, the merge writes
    * its output unless that path is a directory, and then the report is
    * `Final`, whether or not any file was appended.
    */
  lemma ProvisionedStagingGivesFinal(projects: seq<Project>, projectId: int, mirNumber: string, fs: Tree)
    requires FindProject(projects, projectId).Some?
    requires IsDir(fs, StagingFolder(projectId, FindProject(projects, projectId).value.code, mirNumber))
    ensures var m := MergeResult(projects, projectId, mirNumber, fs);
      var output := OutputPath(projectId, FindProject(projects, projectId).value.code, mirNumber);
      && (m.WriteFailed? <==> IsDir(fs, output))
      && (m.WriteFailed? ==> m.path == output)
      && (!IsDir(fs, output) ==> m.Merged? && m.output == output && StatusAfterMerge(FinalPdf(m)) == Final)
  {
    MergeResultCases(projects, projectId, mirNumber, fs);
  }

  /**
    * The merger's staging folder survives the collector: it is a directory
    * after the package directories are made and stays one after the
    * collector's folder is made as well.
    */
  lemma ProvisionedStaging(fs: Tree, dirs: seq<string>, more: seq<string>, staging: string)
    requires FirstBlocked(fs, dirs).None? && staging in dirs
    ensures IsDir(MakeDirs(fs, dirs), staging)
    ensures IsDir(MakeDirs(MakeDirs(fs, dirs), more), staging)
  {
    FirstBlockedFinds(fs, dirs);
    MakeDirsEffect(fs, dirs);
    MakeDirsEffect(MakeDirs(fs, dirs), more);
  }

  /**
    * The exceptions the filesystem steps of `create_mir` can raise: a
    * directory that cannot be made, a file that cannot be written, or the
    * missing page generators, which are reached exactly when the folder
    * and its index were provisioned.
    */
  lemma PipelineFailureKinds(projects: seq<Project>, projectId: int, number: string, layout: Layout,
                             panelIds: seq<string>, generatorsDefined: bool, fs: Tree)
    ensures var run := PipelineRun(projects, projectId, number, layout, panelIds, generatorsDefined, fs);
      && (run.failure.Some? ==>
            run.failure.value.FolderNotCreated? || run.failure.value.FileNotWritten? || run.failure.value == GeneratorsUndefined)
      && (run.failure == Some(GeneratorsUndefined) <==>
            FirstBlocked(fs, layout.dirs).None? && !IsDir(MakeDirs(fs, layout.dirs), layout.indexPath) && !generatorsDefined)
  {
  }

  /**
    * When no step of `create_mir` raises, the merge returned its output
    * path, so the report becomes `Final` and `pdf_merged` is true.
    */
  lemma PipelineEndsFinal(projects: seq<Project>, projectId: int, number: string, layout: Layout,
                          panelIds: seq<string>, generatorsDefined: bool, fs: Tree)
    requires FindProject(projects, projectId).Some?
    requires |layout.dirs| > 1 && layout.dirs[1] == StagingFolder(projectId, FindProject(projects, projectId).value.code, number)
    ensures var run := PipelineRun(projects, projectId, number, layout, panelIds, generatorsDefined, fs);
      run.failure.None? ==>
        && run.merge.Merged? && run.merge.output == OutputPath(projectId, FindProject(projects, projectId).value.code, number)
        && StatusAfterMerge(FinalPdf(run.merge)) == Final
  {
    var run := PipelineRun(projects, projectId, number, layout, panelIds, generatorsDefined, fs);
    if run.failure.None? {
      var staging := CollectorStaging(projectId, number);
      assert layout.dirs[1] in layout.dirs;
      ProvisionedStaging(fs, layout.dirs, [staging], layout.dirs[1]);
      ProvisionedStagingGivesFinal(projects, projectId, number, MakeDirs(MakeDirs(fs, layout.dirs), [staging]));
    }
  }

  /**
    * Once any report exists with the stored number `MIR-0001` (and every
    * stored number has that `MIR-NNNN` form), the sequencer proposes
    * `MIR-0001` again, which is taken: every later `create_mir` is
    * rejected by the unique constraint.
    */
  lemma SecondMirRejected(code: string, mirs: seq<MirMaster>)
    requires forall i :: 0 <= i < |mirs| ==> WellFormedNumber(mirs[i].mirNumber)
    requires NumberTaken(mirs, "MIR-0001")
    ensures GenerateMirNumber(code, mirs) == Ok("MIR-0001")
    ensures NumberTaken(mirs, GenerateMirNumber(code, mirs).value)
  {
    EveryCallYieldsFirst(code, mirs);
  }

  /** The first report of a project gets `MIR-0001`, whatever it is built from. */
  lemma FirstMirNumber(code: string)
    ensures GenerateMirNumber(code, []) == Ok("MIR-0001")
  {
    FirstNumber(code, []);
  }

  /**
    * Two `create_mir` requests against an empty `mir_master` table: the
    * first stores `MIR-0001`, the second is rejected as a duplicate.
    */
  method CreateTwice(store: RecordStore, projectId: int, panelIds: seq<string>, created: string, generatorsDefined: bool, fs: Tree)
    returns (first: Result<CreateMirResponse, ApiError>, second: Result<CreateMirResponse, ApiError>)
    requires store.mirs == [] && FindProject(store.projects, projectId).Some?
    modifies store
    ensures |store.mirs| == 1 && store.mirs[0].mirNumber == "MIR-0001"
    ensures first == Ok(CreateMirResponse("MIR-0001", Final, true, true)) || first == Err(GeneratorsUndefined)
      || (first.Err? && (first.error.FolderNotCreated? || first.error.FileNotWritten?))
    ensures second == Err(DuplicateMirNumber("MIR-0001"))
  {
    first := CreateFirst(store, projectId, panelIds, created, generatorsDefined, fs);
    WellFormedFirst(store.mirs[0].mirNumber);
    SecondMirRejected(FindProject(store.projects, projectId).value.code, store.mirs);
    var l2, c2, m2;
    second, l2, c2, m2 := store.CreateMir(projectId, panelIds, created, generatorsDefined, fs);
  }

  /** The first request of `CreateTwice`: it stores `MIR-0001` whatever else happens. */
  method CreateFirst(store: RecordStore, projectId: int, panelIds: seq<string>, created: string, generatorsDefined: bool, fs: Tree)
    returns (first: Result<CreateMirResponse, ApiError>)
    requires store.mirs == [] && FindProject(store.projects, projectId).Some?
    modifies store
    ensures store.projects == old(store.projects)
    ensures |store.mirs| == 1 && store.mirs[0].mirNumber == "MIR-0001"
    ensures first == Ok(CreateMirResponse("MIR-0001", Final, true, true)) || first == Err(GeneratorsUndefined)
      || (first.Err? && (first.error.FolderNotCreated? || first.error.FileNotWritten?))
  {
    FirstMirNumber(FindProject(store.projects, projectId).value.code);
    assert !NumberTaken([], "MIR-0001");
    var l1, c1, m1;
    first, l1, c1, m1 := store.CreateMir(projectId, panelIds, created, generatorsDefined, fs);
    PipelineFailureKinds(store.projects, projectId, "MIR-0001", l1.value, panelIds, generatorsDefined, fs);
  }

  lemma WellFormedFirst(s: string)
    requires s == "MIR-0001"
    ensures WellFormedNumber(s)
  {
    assert s[..4] == "MIR-";
    assert forall i :: 4 <= i < |s| ==> IsDigit(s[i]);
  }

  /** The first row with a key depends only on the keys. */
  lemma {:induction false} QcLogIndexByIds(a: seq<QcLog>, b: seq<QcLog>, id: int)
    requires |a| == |b| && forall j :: 0 <= j < |a| ==> a[j].id == b[j].id
    ensures QcLogIndex(a, id) == QcLogIndex(b, id)
    decreases |a|
  {
    if |a| > 0 && a[0].id != id {
      QcLogIndexByIds(a[1..], b[1..], id);
    }
  }

  /** Approving an id twice is the same as approving it once. */
  lemma ApproveIdempotent(logs: seq<QcLog>, id: int)
    ensures Approve(Approve(logs, id), id) == Approve(logs, id)
  {
    var once := Approve(logs, id);
    if QcLogIndex(logs, id).Some? {
      var i := QcLogIndex(logs, id).value;
      QcLogIndexByIds(once, logs, id);
      assert once[i].status == Approved;
      assert once[i := once[i].(status := Approved)] == once;
    }
  }

  /**
    * Approving changes only the status of the first row with that id, to
    * `Approved`; every other row and every other column is kept. An unknown
    * id changes nothing.
    */
  lemma ApproveChangesOnlyTarget(logs: seq<QcLog>, id: int)
    ensures |Approve(logs, id)| == |logs|
    ensures QcLogIndex(logs, id).None? ==> Approve(logs, id) == logs
    ensures QcLogIndex(logs, id).Some? ==>
      var i := QcLogIndex(logs, id).value;
      && Approve(logs, id)[i] == logs[i].(status := Approved)
      && forall j :: 0 <= j < |logs| && j != i ==> Approve(logs, id)[j] == logs[j]
  {
  }

  /** The download answers with the merged report: the path the merge wrote, as a PDF, named after the report. */
  lemma DownloadServesMergedFile(projects: seq<Project>, projectId: int, mirNumber: string, view: bool, fs: Tree, written: Tree)
    requires MergeResult(projects, projectId, mirNumber, fs).Merged?
    requires Exists(written, MergeResult(projects, projectId, mirNumber, fs).output)
    ensures var d := DownloadMirPdf(projects, projectId, mirNumber, view, written);
      d.Ok? && d.value.path == MergeResult(projects, projectId, mirNumber, fs).output
      && d.value.mediaType == "application/pdf"
  {
  }

  /**
    * The download fails exactly when the project is unknown or the merged
    * file is absent, and a missing file reports the path it looked for.
    */
  lemma DownloadFailures(projects: seq<Project>, projectId: int, mirNumber: string, view: bool, fs: Tree)
    ensures var d := DownloadMirPdf(projects, projectId, mirNumber, view, fs);
      && (d == Err(ProjectNotFound) <==> FindProject(projects, projectId).None?)
      && (FindProject(projects, projectId).Some? ==>
            var path := OutputPath(projectId, FindProject(projects, projectId).value.code, mirNumber);
            (d.Err? <==> !Exists(fs, path)) && (d.Err? ==> d.error == PdfNotFound(projectId, mirNumber, path)))
  {
  }

  /**
    * The `Content-Disposition` header starts with `inline` when viewing and
    * with `attachment` otherwise, and ends with the quoted file name
    * `<code>-<mir>.pdf`, which is also the name the response carries.
    */
  lemma DispositionChoice(projects: seq<Project>, projectId: int, mirNumber: string, view: bool, fs: Tree)
    requires DownloadMirPdf(projects, projectId, mirNumber, view, fs).Ok?
    ensures var d := DownloadMirPdf(projects, projectId, mirNumber, view, fs).value;
      var code := FindProject(projects, projectId).value.code;
      && d.filename == code + "-" + mirNumber + ".pdf"
      && StartsWith(d.contentDisposition, if view then "inline; " else "attachment; ")
      && EndsWith(d.contentDisposition, "filename=\"" + d.filename + "\"")
  {
    var p := FindProject(projects, projectId).value;
    var name := PdfFilename(p.code, mirNumber);
    assert DownloadMirPdf(projects, projectId, mirNumber, view, fs).value
      == PdfResponse(OutputPath(projectId, p.code, mirNumber), "application/pdf", ContentDisposition(view, name), name);
    StartsAndEnds(if view then "inline; " else "attachment; ", "filename=\"" + name + "\"");
  }

  lemma StartsAndEnds(a: string, b: string)
    ensures StartsWith(a + b, a) && EndsWith(a + b, b)
  {
    assert (a + b)[..|a|] == a;
    assert (a + b)[|a + b| - |b|..] == b;
  }
}
