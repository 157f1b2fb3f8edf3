/**
  * The document collector, `attach_documents_to_mir` (main.py:172-192):
  * for each panel, in the order given, look in
  * `storage/project_<id>/production_logs/<panel>` and copy every regular
  * file of its `checklists`, `drawings` and `photos` subfolders into the
  * staging area as `<panel>_<subfolder>_<filename>`. Missing panel
  * folders and subfolders are skipped without error. The copies are
  * returned in the order `shutil.copy2` is called.
  */
module Collector {
  import opened Text
  import opened FileSystem
  import opened Provisioner

  const DocumentSubfolders: seq<string> := ["checklists", "drawings", "photos"]

  /** The package root as this helper builds it: from the project id, not the project code (main.py:174). */
  function CollectorFolder(projectId: int, mirNumber: string): string {
    ProjectRoot(projectId) + "/MIR/" + IntToDecimal(projectId) + "-" + mirNumber
  }

  function CollectorStaging(projectId: int, mirNumber: string): string {
    CollectorFolder(projectId, mirNumber) + "/source_files"
  }

  function PanelFolder(projectId: int, panel: string): string {
    ProjectRoot(projectId) + "/production_logs/" + panel
  }

  /** The name a collected document gets in the staging area. */
  function DestName(panel: string, subfolder: string, filename: string): string {
    panel + "_" + subfolder + "_" + filename
  }

  /** One `shutil.copy2(source, dest)` call. */
  datatype Copy = Copy(source: string, dest: string)

  function CopyOf(dir: string, staging: string, panel: string, subfolder: string, filename: string): Copy {
    Copy(Join(dir, filename), Join(staging, DestName(panel, subfolder, filename)))
  }

  /** The copies for the listed names of one subfolder that are regular files. */
  function FileCopies(
    fs: Tree, dir: string, names: seq<string>, staging: string, panel: string, subfolder: string): seq<Copy>
    decreases |names|
  {
    if |names| == 0 then []
    else
      var name := names[|names| - 1];
      FileCopies(fs, dir, names[..|names| - 1], staging, panel, subfolder)
        + (if IsFile(fs, Join(dir, name)) then [CopyOf(dir, staging, panel, subfolder, name)] else [])
  }

  /** The copies for the given subfolders of one panel folder; a subfolder that is not a directory gives none. */
  function SubfolderCopies(
    fs: Tree, panelFolder: string, staging: string, panel: string, subfolders: seq<string>): seq<Copy>
    decreases |subfolders|
  {
    if |subfolders| == 0 then []
    else
      var sub := subfolders[|subfolders| - 1];
      var dir := panelFolder + "/" + sub;
      SubfolderCopies(fs, panelFolder, staging, panel, subfolders[..|subfolders| - 1])
        + (if IsDir(fs, dir) then FileCopies(fs, dir, ListDir(fs, dir), staging, panel, sub) else [])
  }

  /** The copies for one panel, visiting the given document subfolders; none when its folder is absent. */
  function PanelCopies(fs: Tree, projectId: int, staging: string, subs: seq<string>, panel: string): seq<Copy> {
    var folder := PanelFolder(projectId, panel);
    if Exists(fs, folder) then SubfolderCopies(fs, folder, staging, panel, subs) else []
  }

  /** `PanelCopies` as a function of the panel. */
  function PanelCopier(fs: Tree, projectId: int, staging: string, subs: seq<string>): string -> seq<Copy> {
    panel => PanelCopies(fs, projectId, staging, subs, panel)
  }

  /** `f(x)` for each `x` in turn, concatenated. */
  function ConcatMap(f: string -> seq<Copy>, xs: seq<string>): seq<Copy>
    decreases |xs|
  {
    if |xs| == 0 then [] else ConcatMap(f, xs[..|xs| - 1]) + f(xs[|xs| - 1])
  }

  /** All copies, panel after panel in the order given. */
  function CopyPlan(fs: Tree, projectId: int, staging: string, subs: seq<string>, panels: seq<string>): seq<Copy> {
    ConcatMap(PanelCopier(fs, projectId, staging, subs), panels)
  }

  /** The inner loop of `attach_documents_to_mir`: the regular files of one subfolder, in listing order. */
  method CollectSubfolder(fs: Tree, dir: string, staging: string, panel: string, subfolder: string)
    returns (copies: seq<Copy>)
    requires IsDir(fs, dir)
    ensures copies == FileCopies(fs, dir, ListDir(fs, dir), staging, panel, subfolder)
  {
    var names := ListDir(fs, dir);
    copies := [];
    for j := 0 to |names|
      invariant copies == FileCopies(fs, dir, names[..j], staging, panel, subfolder)
    {
      assert names[..j + 1][..j] == names[..j];
      var filePath := Join(dir, names[j]);
      if IsFile(fs, filePath) {
        var destName := panel + "_" + subfolder + "_" + names[j];
        copies := copies + [Copy(filePath, Join(staging, destName))];
      }
    }
    assert names[..|names|] == names;
  }

  /** The middle loop: the three document subfolders of one panel, those that are directories. */
  method CollectPanel(fs: Tree, projectId: int, staging: string, panel: string) returns (copies: seq<Copy>)
    ensures copies == PanelCopies(fs, projectId, staging, DocumentSubfolders, panel)
  {
    var panelFolder := ProjectRoot(projectId) + "/production_logs/" + panel;
    copies := [];
    if !Exists(fs, panelFolder) {
      return;
    }
    for k := 0 to |DocumentSubfolders|
      invariant copies == SubfolderCopies(fs, panelFolder, staging, panel, DocumentSubfolders[..k])
    {
      var sub := DocumentSubfolders[k];
      assert DocumentSubfolders[..k + 1][..k] == DocumentSubfolders[..k];
      var sourcePath := panelFolder + "/" + sub;
      if Exists(fs, sourcePath) && IsDir(fs, sourcePath) {
        var found := CollectSubfolder(fs, sourcePath, staging, panel, sub);
        copies := copies + found;
      }
    }
    assert DocumentSubfolders[..|DocumentSubfolders|] == DocumentSubfolders;
  }

  /**
    * `attach_documents_to_mir`: the staging folder it creates, whether
    * `os.makedirs` could create it (it raises `FileExistsError` when the
    * path exists and is not a directory), the tree once it exists, and the
    * copies issued on that tree, in order.
    */
  method AttachDocuments(fs: Tree, projectId: int, mirNumber: string, panels: seq<string>)
    returns (staging: string, created: bool, after: Tree, copies: seq<Copy>)
    ensures staging == CollectorStaging(projectId, mirNumber)
    ensures created <==> !Exists(fs, staging) || IsDir(fs, staging)
    ensures !created ==> after == fs && copies == []
    ensures created ==> after == MakeDirs(fs, [staging]) && IsDir(after, staging)
    ensures created ==> copies == CopyPlan(after, projectId, staging, DocumentSubfolders, panels)
  {
    var mirFolder := ProjectRoot(projectId) + "/MIR/" + IntToDecimal(projectId) + "-" + mirNumber;
    staging := mirFolder + "/source_files";
    if Exists(fs, staging) && !IsDir(fs, staging) {
      return staging, false, fs, [];
    }
    created := true;
    after := MakeDirs(fs, [staging]);
    MakeDirsEffect(fs, [staging]);
    assert staging in [staging];
    copies := CopyPanels(after, projectId, staging, panels);
  }

  /** The loop over the panels of `attach_documents_to_mir`, once its staging folder exists. */
  method CopyPanels(fs: Tree, projectId: int, staging: string, panels: seq<string>) returns (copies: seq<Copy>)
    ensures copies == CopyPlan(fs, projectId, staging, DocumentSubfolders, panels)
  {
    copies := [];
    for i := 0 to |panels|
      invariant copies == CopyPlan(fs, projectId, staging, DocumentSubfolders, panels[..i])
    {
      assert panels[..i + 1] == panels[..i] + [panels[i]];
      ConcatMapSnoc(PanelCopier(fs, projectId, staging, DocumentSubfolders), panels[..i], panels[i]);
      var found := CollectPanel(fs, projectId, staging, panels[i]);
      copies := copies + found;
    }
    assert panels[..|panels|] == panels;
  }

  // ------------------------------------------------------------ properties

  lemma ConcatMapSnoc(f: string -> seq<Copy>, xs: seq<string>, x: string)
    ensures ConcatMap(f, xs + [x]) == ConcatMap(f, xs) + f(x)
  {
    assert (xs + [x])[..|xs|] == xs;
  }

  lemma {:induction false} ConcatMapAppend(f: string -> seq<Copy>, xs: seq<string>, ys: seq<string>)
    ensures ConcatMap(f, xs + ys) == ConcatMap(f, xs) + ConcatMap(f, ys)
    decreases |ys|
  {
    if |ys| == 0 {
      assert xs + ys == xs;
    } else {
      var init, last := ys[..|ys| - 1], ys[|ys| - 1];
      ConcatMapAppend(f, xs, init);
      assert xs + ys == (xs + init) + [last];
      assert ys == init + [last];
      ConcatMapSnoc(f, xs + init, last);
      ConcatMapSnoc(f, init, last);
    }
  }

  lemma {:induction false} ConcatMapMembers(f: string -> seq<Copy>, xs: seq<string>, c: Copy)
    ensures c in ConcatMap(f, xs) <==> exists x :: x in xs && c in f(x)
    decreases |xs|
  {
    if |xs| > 0 {
      var init := xs[..|xs| - 1];
      ConcatMapMembers(f, init, c);
      assert xs == init + [xs[|xs| - 1]];
      forall x | x in xs ensures x in init || x == xs[|xs| - 1] { }
    }
  }

  /** Panels are handled in input order: the plan for a concatenation is the concatenation of the plans. */
  lemma CopyPlanAppend(fs: Tree, projectId: int, staging: string, subs: seq<string>, ps: seq<string>, qs: seq<string>)
    ensures CopyPlan(fs, projectId, staging, subs, ps + qs)
      == CopyPlan(fs, projectId, staging, subs, ps) + CopyPlan(fs, projectId, staging, subs, qs)
  {
    ConcatMapAppend(PanelCopier(fs, projectId, staging, subs), ps, qs);
  }

  /** A panel whose folder is absent is skipped: removing it does not change the plan. */
  lemma AbsentPanelSkipped(fs: Tree, projectId: int, staging: string, subs: seq<string>, ps: seq<string>, panel: string, qs: seq<string>)
    requires !Exists(fs, PanelFolder(projectId, panel))
    ensures CopyPlan(fs, projectId, staging, subs, ps + [panel] + qs) == CopyPlan(fs, projectId, staging, subs, ps + qs)
  {
    CopyPlanAppend(fs, projectId, staging, subs, ps + [panel], qs);
    CopyPlanAppend(fs, projectId, staging, subs, ps, [panel]);
    CopyPlanAppend(fs, projectId, staging, subs, ps, qs);
    assert CopyPlan(fs, projectId, staging, subs, [panel]) == [] by {
      ConcatMapSnoc(PanelCopier(fs, projectId, staging, subs), [], panel);
      assert [] + [panel] == [panel];
      assert PanelCopies(fs, projectId, staging, subs, panel) == [];
    }
    assert CopyPlan(fs, projectId, staging, subs, ps + [panel]) == CopyPlan(fs, projectId, staging, subs, ps);
  }

  /** The conditions under which `filename`, listed in `<panel folder>/<subfolder>`, is copied. */
  predicate Collectable(fs: Tree, projectId: int, panel: string, subfolder: string, filename: string) {
    var dir := PanelFolder(projectId, panel) + "/" + subfolder;
    && Exists(fs, PanelFolder(projectId, panel))
    && IsDir(fs, dir)
    && filename in ListDir(fs, dir)
    && IsFile(fs, Join(dir, filename))
  }

  lemma {:induction false} FileCopiesMembers(
    fs: Tree, dir: string, names: seq<string>, staging: string, panel: string, subfolder: string, c: Copy)
    ensures c in FileCopies(fs, dir, names, staging, panel, subfolder) <==>
      exists n :: n in names && IsFile(fs, Join(dir, n)) && c == CopyOf(dir, staging, panel, subfolder, n)
    decreases |names|
  {
    if |names| > 0 {
      var init := names[..|names| - 1];
      FileCopiesMembers(fs, dir, init, staging, panel, subfolder, c);
      assert names == init + [names[|names| - 1]];
      forall n | n in names ensures n in init || n == names[|names| - 1] { }
    }
  }

  lemma {:induction false} SubfolderCopiesMembers(
    fs: Tree, panelFolder: string, staging: string, panel: string, subfolders: seq<string>, c: Copy)
    ensures c in SubfolderCopies(fs, panelFolder, staging, panel, subfolders) <==>
      exists s :: s in subfolders && IsDir(fs, panelFolder + "/" + s) &&
        c in FileCopies(fs, panelFolder + "/" + s, ListDir(fs, panelFolder + "/" + s), staging, panel, s)
    decreases |subfolders|
  {
    if |subfolders| > 0 {
      var init := subfolders[..|subfolders| - 1];
      SubfolderCopiesMembers(fs, panelFolder, staging, panel, init, c);
      assert subfolders == init + [subfolders[|subfolders| - 1]];
      forall s | s in subfolders ensures s in init || s == subfolders[|subfolders| - 1] { }
    }
  }

  lemma CopyPlanMembers(fs: Tree, projectId: int, staging: string, subs: seq<string>, panels: seq<string>, c: Copy)
    ensures c in CopyPlan(fs, projectId, staging, subs, panels) <==>
      exists p :: p in panels && c in PanelCopies(fs, projectId, staging, subs, p)
  {
    var f := PanelCopier(fs, projectId, staging, subs);
    ConcatMapMembers(f, panels, c);
    assert forall p :: f(p) == PanelCopies(fs, projectId, staging, subs, p);
  }

  /**
    * Exactly the collectable documents are copied: a copy is in the plan if
    * and only if it is the copy of a regular file listed in one of the three
    * subfolders of an existing folder of a requested panel, under the name
    * `<panel>_<subfolder>_<filename>` in the staging area.
    */
  lemma CopyPlanExact(fs: Tree, projectId: int, staging: string, subs: seq<string>, panels: seq<string>, c: Copy)
    ensures c in CopyPlan(fs, projectId, staging, subs, panels) <==>
      exists p, s, n :: p in panels && s in subs && Collectable(fs, projectId, p, s, n) &&
        c == CopyOf(PanelFolder(projectId, p) + "/" + s, staging, p, s, n)
  {
    CopyPlanMembers(fs, projectId, staging, subs, panels, c);
    forall p | p in panels
      ensures c in PanelCopies(fs, projectId, staging, subs, p) <==>
        exists s, n :: s in subs && Collectable(fs, projectId, p, s, n) &&
          c == CopyOf(PanelFolder(projectId, p) + "/" + s, staging, p, s, n)
    {
      var folder := PanelFolder(projectId, p);
      if Exists(fs, folder) {
        SubfolderCopiesMembers(fs, folder, staging, p, subs, c);
        forall s | s in subs && IsDir(fs, folder + "/" + s)
          ensures c in FileCopies(fs, folder + "/" + s, ListDir(fs, folder + "/" + s), staging, p, s) <==>
            exists n :: Collectable(fs, projectId, p, s, n) && c == CopyOf(folder + "/" + s, staging, p, s, n)
        {
          FileCopiesMembers(fs, folder + "/" + s, ListDir(fs, folder + "/" + s), staging, p, s, c);
        }
      }
    }
  }

  lemma OneFileCopied(fs: Tree, dir: string, staging: string, panel: string, subfolder: string, name: string)
    requires IsFile(fs, Join(dir, name))
    ensures FileCopies(fs, dir, [name], staging, panel, subfolder) == [CopyOf(dir, staging, panel, subfolder, name)]
  {
    assert [name][..0] == [];
  }

  lemma OnlyChecklistsCopied(fs: Tree, folder: string, staging: string, panel: string)
    requires IsDir(fs, folder + "/checklists") && ListDir(fs, folder + "/checklists") == ["a.pdf"]
    requires IsFile(fs, Join(folder + "/checklists", "a.pdf"))
    requires !IsDir(fs, folder + "/drawings") && !IsDir(fs, folder + "/photos")
    ensures SubfolderCopies(fs, folder, staging, panel, DocumentSubfolders)
      == [CopyOf(folder + "/checklists", staging, panel, "checklists", "a.pdf")]
  {
    OneFileCopied(fs, folder + "/checklists", staging, panel, "checklists", "a.pdf");
    assert DocumentSubfolders[..2] == ["checklists", "drawings"];
    assert DocumentSubfolders[..2][..1] == ["checklists"];
    assert ["checklists"][..0] == [];
    assert folder + "/" + "checklists" == folder + "/checklists";
    assert folder + "/" + "drawings" == folder + "/drawings";
    assert folder + "/" + "photos" == folder + "/photos";
  }

  /** The facts about the example tree that the collector consults. */
  lemma ChecklistTreeFacts(fs: Tree, folder: string)
    requires fs == map[folder := Directory(["checklists"]),
                       folder + "/checklists" := Directory(["a.pdf"]),
                       folder + "/checklists/a.pdf" := RegularFile]
    ensures Exists(fs, folder)
    ensures IsDir(fs, folder + "/checklists") && ListDir(fs, folder + "/checklists") == ["a.pdf"]
    ensures Join(folder + "/checklists", "a.pdf") == folder + "/checklists/a.pdf"
    ensures IsFile(fs, folder + "/checklists/a.pdf")
    ensures !IsDir(fs, folder + "/drawings") && !IsDir(fs, folder + "/photos")
  {
    var dir := folder + "/checklists";
    var file := folder + "/checklists/a.pdf";
    assert Join(dir, "a.pdf") == file by {
      assert "a.pdf"[..1] != "/" by { assert "a.pdf"[..1][0] == 'a'; }
      assert dir != "" && dir[|dir| - 1] == 's';
      assert dir[|dir| - 1..] != "/";
      assert dir + "/" + "a.pdf" == file;
    }
    assert |dir| == |folder| + 11 && |file| == |folder| + 17;
    assert |folder + "/drawings"| == |folder| + 9;
    assert |folder + "/photos"| == |folder| + 7;
  }

  lemma ChecklistPanelPlan(fs: Tree, projectId: int, staging: string, panel: string, folder: string)
    requires folder == PanelFolder(projectId, panel) && Exists(fs, folder)
    requires SubfolderCopies(fs, folder, staging, panel, DocumentSubfolders)
      == [CopyOf(folder + "/checklists", staging, panel, "checklists", "a.pdf")]
    requires Join(folder + "/checklists", "a.pdf") == folder + "/checklists/a.pdf"
    ensures CopyPlan(fs, projectId, staging, DocumentSubfolders, [panel]) ==
      [Copy(folder + "/checklists/a.pdf", Join(staging, panel + "_checklists_a.pdf"))]
  {
    ConcatMapSnoc(PanelCopier(fs, projectId, staging, DocumentSubfolders), [], panel);
    assert [] + [panel] == [panel];
    assert PanelCopies(fs, projectId, staging, DocumentSubfolders, panel) == SubfolderCopies(fs, folder, staging, panel, DocumentSubfolders);
    assert DestName(panel, "checklists", "a.pdf") == panel + "_checklists_a.pdf";
  }

  /**
    * A panel folder holding `checklists/a.pdf` and no `drawings` or `photos`
    * folder yields exactly one copy, named `<panel>_checklists_a.pdf`.
    */
  lemma SingleChecklistCopied(projectId: int, staging: string, panel: string)
    ensures var folder := PanelFolder(projectId, panel);
      var fs := map[folder := Directory(["checklists"]),
                    folder + "/checklists" := Directory(["a.pdf"]),
                    folder + "/checklists/a.pdf" := RegularFile];
      CopyPlan(fs, projectId, staging, DocumentSubfolders, [panel]) ==
        [Copy(folder + "/checklists/a.pdf", Join(staging, panel + "_checklists_a.pdf"))]
  {
    var folder := PanelFolder(projectId, panel);
    var fs := map[folder := Directory(["checklists"]),
                  folder + "/checklists" := Directory(["a.pdf"]),
                  folder + "/checklists/a.pdf" := RegularFile];
    ChecklistTreeFacts(fs, folder);
    OnlyChecklistsCopied(fs, folder, staging, panel);
    ChecklistPanelPlan(fs, projectId, staging, panel, folder);
  }

  /**
    * The collector copies into `<id>-<mir>/source_files`, the merger reads
    * `<code>-<mir>/source_files`; they are the same folder exactly when the
    * project code is the decimal project id.
    */
  lemma StagingFoldersAgreeIff(projectId: int, code: string, mirNumber: string)
    ensures CollectorStaging(projectId, mirNumber) == StagingFolder(projectId, code, mirNumber)
      <==> code == IntToDecimal(projectId)
  {
    var root := ProjectRoot(projectId) + "/MIR/";
    var tail := "-" + mirNumber + "/source_files";
    var a := root + IntToDecimal(projectId) + tail;
    var b := root + code + tail;
    assert CollectorStaging(projectId, mirNumber) == a;
    assert StagingFolder(projectId, code, mirNumber) == b;
    if a == b {
      assert |code| == |IntToDecimal(projectId)|;
      assert a[|root|..|root| + |code|] == IntToDecimal(projectId);
      assert b[|root|..|root| + |code|] == code;
    }
  }
}
