/**
  * The folder provisioner, `create_mir_folder` (main.py:149-169): for a
  * known project it creates `storage/project_<id>/MIR/<code>-<mir>` with
  * the three subfolders `source_files`, `merged_pdf` and `final_mir`, and
  * writes `index.txt` at the package root. The directories and the index
  * text are returned as values; the clock reading is a parameter.
  */
module Provisioner {
  import opened Wrappers
  import opened Text
  import opened Records

  /** `storage/project_<project_id>` */
  function ProjectRoot(projectId: int): string {
    "storage/project_" + IntToDecimal(projectId)
  }

  /** The package root `storage/project_<id>/MIR/<project_code>-<mir_number>` (main.py:155, 201). */
  function MirFolder(projectId: int, code: string, mirNumber: string): string {
    ProjectRoot(projectId) + "/MIR/" + code + "-" + mirNumber
  }

  /** The staging area the merger reads (main.py:202). */
  function StagingFolder(projectId: int, code: string, mirNumber: string): string {
    MirFolder(projectId, code, mirNumber) + "/source_files"
  }

  const PackageSubfolders: seq<string> := ["source_files", "merged_pdf", "final_mir"]

  /** What one call provisions: the directories in creation order and the index file. */
  datatype Layout = Layout(folder: string, dirs: seq<string>, indexPath: string, indexText: string)

  function PanelLine(panel: string): string {
    "  - " + panel
  }

  /** The lines of `index.txt`, without their line ends. */
  function IndexLines(tag: string, projectName: string, created: string, panels: seq<string>): seq<string> {
    ["MIR Number: " + tag, "Project: " + projectName, "Created: " + created, "", "Panel IDs:"]
      + seq(|panels|, i requires 0 <= i < |panels| => PanelLine(panels[i]))
  }

  /** Each line followed by a newline, as the sequence of `f.write` calls produces them. */
  function Terminated(lines: seq<string>): string
    decreases |lines|
  {
    if |lines| == 0 then "" else lines[0] + "\n" + Terminated(lines[1..])
  }

  function IndexText(tag: string, projectName: string, created: string, panels: seq<string>): string {
    Terminated(IndexLines(tag, projectName, created, panels))
  }

  lemma {:induction false} TerminatedSnoc(lines: seq<string>, x: string)
    ensures Terminated(lines + [x]) == Terminated(lines) + x + "\n"
    decreases |lines|
  {
    if |lines| == 0 {
      assert lines + [x] == [x];
      assert [x][1..] == [];
    } else {
      assert (lines + [x])[1..] == lines[1..] + [x];
      TerminatedSnoc(lines[1..], x);
    }
  }

  /** Five lines, each followed by a newline. */
  lemma TerminatedFive(a: string, b: string, c: string, d: string, e: string)
    ensures Terminated([a, b, c, d, e]) == a + "\n" + b + "\n" + c + "\n" + d + "\n" + e + "\n"
  {
    TerminatedSnoc([], a);
    TerminatedSnoc([a], b);
    TerminatedSnoc([a, b], c);
    TerminatedSnoc([a, b, c], d);
    TerminatedSnoc([a, b, c, d], e);
    assert [] + [a] == [a];
    assert [a] + [b] == [a, b];
    assert [a, b] + [c] == [a, b, c];
    assert [a, b, c] + [d] == [a, b, c, d];
    assert [a, b, c, d] + [e] == [a, b, c, d, e];
  }

  /** The header of `index.txt`: the five lines before the panel lines. */
  lemma HeaderText(tag: string, projectName: string, created: string)
    ensures IndexText(tag, projectName, created, [])
      == ("MIR Number: " + tag) + "\n" + ("Project: " + projectName) + "\n" + ("Created: " + created) + "\n"
        + "" + "\n" + "Panel IDs:" + "\n"
  {
    var a, b, c := "MIR Number: " + tag, "Project: " + projectName, "Created: " + created;
    assert IndexLines(tag, projectName, created, []) == [a, b, c, "", "Panel IDs:"];
    TerminatedFive(a, b, c, "", "Panel IDs:");
  }

  /** The fourth write, a blank line and the `Panel IDs:` heading in one call. */
  lemma BlankLineAndHeading(text: string)
    ensures text + "\nPanel IDs:\n" == text + "" + "\n" + "Panel IDs:" + "\n"
  {
  }

  /** The loop creating the three subfolders under the package root. */
  method MakeSubfolders(folder: string) returns (dirs: seq<string>)
    ensures dirs == [folder, folder + "/source_files", folder + "/merged_pdf", folder + "/final_mir"]
  {
    dirs := [folder];
    for k := 0 to |PackageSubfolders|
      invariant |dirs| == k + 1 && dirs[0] == folder
      invariant forall j :: 0 <= j < k ==> dirs[j + 1] == folder + "/" + PackageSubfolders[j]
    {
      dirs := dirs + [folder + "/" + PackageSubfolders[k]];
    }
    SubfolderPaths(folder, dirs);
  }

  lemma SubfolderPaths(folder: string, dirs: seq<string>)
    requires |dirs| == 4 && dirs[0] == folder
    requires forall j :: 0 <= j < 3 ==> dirs[j + 1] == folder + "/" + PackageSubfolders[j]
    ensures dirs == [folder, folder + "/source_files", folder + "/merged_pdf", folder + "/final_mir"]
  {
    assert dirs[0 + 1] == folder + "/" + PackageSubfolders[0];
    assert dirs[1 + 1] == folder + "/" + PackageSubfolders[1];
    assert dirs[2 + 1] == folder + "/" + PackageSubfolders[2];
    assert folder + "/" + "source_files" == folder + "/source_files";
    assert folder + "/" + "merged_pdf" == folder + "/merged_pdf";
    assert folder + "/" + "final_mir" == folder + "/final_mir";
  }

  /** The writes to `index.txt`: the header, then one bullet line per panel. */
  method WriteIndex(tag: string, projectName: string, created: string, panels: seq<string>) returns (text: string)
    ensures text == IndexText(tag, projectName, created, panels)
  {
    text := "MIR Number: " + tag + "\n";
    text := text + ("Project: " + projectName) + "\n";
    text := text + ("Created: " + created) + "\n";
    BlankLineAndHeading(text);
    text := text + "\nPanel IDs:\n";
    HeaderText(tag, projectName, created);
    assert panels[..0] == [];
    for i := 0 to |panels|
      invariant text == IndexText(tag, projectName, created, panels[..i])
    {
      assert IndexLines(tag, projectName, created, panels[..i + 1])
        == IndexLines(tag, projectName, created, panels[..i]) + [PanelLine(panels[i])];
      TerminatedSnoc(IndexLines(tag, projectName, created, panels[..i]), PanelLine(panels[i]));
      text := text + ("  - " + panels[i]) + "\n";
    }
    assert panels[..|panels|] == panels;
  }

  /**
    * `create_mir_folder`: nothing when the project is unknown; otherwise the
    * package root and its three subfolders, and `index.txt` holding the
    * report tag, the project name, the creation time and one line per panel.
    */
  method CreateMirFolder(
    projects: seq<Project>, projectId: int, mirNumber: string, panels: seq<string>, created: string)
    returns (r: Option<Layout>)
    ensures FindProject(projects, projectId).None? <==> r.None?
    ensures r.Some? ==>
      var p := FindProject(projects, projectId).value;
      var folder := MirFolder(projectId, p.code, mirNumber);
      && r.value.folder == folder
      && r.value.dirs == [folder, folder + "/source_files", folder + "/merged_pdf", folder + "/final_mir"]
      && r.value.dirs[1] == StagingFolder(projectId, p.code, mirNumber)
      && r.value.indexPath == folder + "/index.txt"
      && r.value.indexText == IndexText(p.code + "-" + mirNumber, p.name, created, panels)
  {
    var project := FindProject(projects, projectId);
    if project.None? {
      return None;
    }
    var p := project.value;
    var folder := ProjectRoot(projectId) + "/MIR/" + p.code + "-" + mirNumber;
    var dirs := MakeSubfolders(folder);
    var text := WriteIndex(p.code + "-" + mirNumber, p.name, created, panels);
    return Some(Layout(folder, dirs, folder + "/index.txt", text));
  }

  /** Reads the panel list back from an index text: the lines after `Panel IDs:` without their bullet. */
  function ReadPanelIds(text: string): seq<string> {
    var lines := Split(text, '\n');
    if |lines| < 6 then []
    else seq(|lines| - 6, i requires 0 <= i < |lines| - 6 => DropBullet(lines[5 + i]))
  }

  function DropBullet(line: string): string {
    if StartsWith(line, "  - ") then line[4..] else line
  }

  lemma {:induction false} SplitTerminated(lines: seq<string>)
    requires forall i :: 0 <= i < |lines| ==> '\n' !in lines[i]
    ensures Split(Terminated(lines), '\n') == lines + [""]
    decreases |lines|
  {
    if |lines| > 0 {
      SplitTerminated(lines[1..]);
      SplitAfterPiece(lines[0], Terminated(lines[1..]), '\n');
      assert lines[0] + "\n" + Terminated(lines[1..]) == lines[0] + ['\n'] + Terminated(lines[1..]);
      assert lines == [lines[0]] + lines[1..];
    }
  }

  /** No line of the index contains a line break when no field does. */
  lemma IndexLinesUnbroken(tag: string, projectName: string, created: string, panels: seq<string>)
    requires '\n' !in tag && '\n' !in projectName && '\n' !in created
    requires forall i :: 0 <= i < |panels| ==> '\n' !in panels[i]
    ensures var lines := IndexLines(tag, projectName, created, panels);
            forall i :: 0 <= i < |lines| ==> '\n' !in lines[i]
  {
    var lines := IndexLines(tag, projectName, created, panels);
    forall i | 0 <= i < |lines| ensures '\n' !in lines[i] {
      if i >= 5 {
        assert lines[i] == "  - " + panels[i - 5];
      }
    }
  }

  /**
    * When no field contains a line break, `index.txt` holds exactly the
    * header lines and one line per panel, and the panel list can be read
    * back from it in order.
    */
  lemma IndexRecordsPanels(tag: string, projectName: string, created: string, panels: seq<string>)
    requires '\n' !in tag && '\n' !in projectName && '\n' !in created
    requires forall i :: 0 <= i < |panels| ==> '\n' !in panels[i]
    ensures Split(IndexText(tag, projectName, created, panels), '\n')
      == IndexLines(tag, projectName, created, panels) + [""]
    ensures ReadPanelIds(IndexText(tag, projectName, created, panels)) == panels
  {
    var lines := IndexLines(tag, projectName, created, panels);
    IndexLinesUnbroken(tag, projectName, created, panels);
    SplitTerminated(lines);
    IndexLinesShape(tag, projectName, created, panels);
    ReadsBackPanels(IndexText(tag, projectName, created, panels), lines, panels);
  }

  /** Five header lines, then one bullet line per panel. */
  lemma IndexLinesShape(tag: string, projectName: string, created: string, panels: seq<string>)
    ensures var lines := IndexLines(tag, projectName, created, panels);
      && |lines| == 5 + |panels|
      && forall i :: 0 <= i < |panels| ==> lines[5 + i] == PanelLine(panels[i])
  {
  }

  lemma ReadsBackPanels(text: string, lines: seq<string>, panels: seq<string>)
    requires Split(text, '\n') == lines + [""]
    requires |lines| == 5 + |panels|
    requires forall i :: 0 <= i < |panels| ==> lines[5 + i] == PanelLine(panels[i])
    ensures ReadPanelIds(text) == panels
  {
    var split := lines + [""];
    forall i | 0 <= i < |panels| ensures DropBullet(split[5 + i]) == panels[i] {
      assert split[5 + i] == lines[5 + i];
      DropBulletOfPanelLine(panels[i]);
    }
  }

  lemma DropBulletOfPanelLine(panel: string)
    ensures DropBullet(PanelLine(panel)) == panel
  {
    assert PanelLine(panel)[..4] == "  - ";
  }
}
