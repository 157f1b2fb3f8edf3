/**
  * The merger, `merge_mir_pdfs` (main.py:195-221): it lists the staging
  * area once and then, for each of five markers in priority order, walks
  * the sorted listing and appends every `.pdf` name containing that
  * marker. A name containing no marker is never appended; a name
  * containing several is appended once per marker. The PDF writer is not
  * modelled: the outcome records the output path and the sequence of
  * `merger.append` arguments.
  */
module Merger {
  import opened Wrappers
  import opened Text
  import opened FileSystem
  import opened Records
  import opened StringOrder
  import opened Provisioner

  const GroupMarkers: seq<string> := ["MIR_FORM_", "PANEL_LIST_", "CHECKLIST", "DRAWING_", "PHOTO"]

  /** `file.endswith(".pdf") and group in file` */
  predicate Selected(name: string, marker: string) {
    EndsWith(name, ".pdf") && Contains(name, marker)
  }

  /** The selection of one name, as a group of at most one. */
  function Pick(name: string, marker: string): seq<string> {
    if Selected(name, marker) then [name] else []
  }

  /** The names selected by one marker, in the order given. */
  function Group(names: seq<string>, marker: string): seq<string>
    decreases |names|
  {
    if |names| == 0 then []
    else Group(names[..|names| - 1], marker) + Pick(names[|names| - 1], marker)
  }

  /** The groups of `names` for each marker in turn, concatenated. */
  function Groups(names: seq<string>, markers: seq<string>): seq<string>
    decreases |markers|
  {
    if |markers| == 0 then []
    else Groups(names, markers[..|markers| - 1]) + Group(names, markers[|markers| - 1])
  }

  /** The merge order of a listing: for each marker, the selected names of the sorted listing. */
  function Plan(listing: seq<string>): seq<string> {
    Groups(Sort(listing), GroupMarkers)
  }

  /** `os.path.join(dir, name)` for each name, in order. */
  function JoinAll(dir: string, names: seq<string>): (paths: seq<string>)
    ensures |paths| == |names|
    decreases |names|
  {
    if |names| == 0 then []
    else JoinAll(dir, names[..|names| - 1]) + [Join(dir, names[|names| - 1])]
  }

  /** `storage/project_<id>/MIR/<code>-<mir>/FINAL_MIR.pdf`, at the package root rather than in `final_mir/`. */
  function OutputPath(projectId: int, code: string, mirNumber: string): string {
    MirFolder(projectId, code, mirNumber) + "/FINAL_MIR.pdf"
  }

  /**
    * What one call does: return `None` (`NoOutput`), raise because the
    * staging path cannot be listed (`ListingFailed`), raise because the
    * output path is a directory that `open(..., "wb")` cannot write
    * (`WriteFailed`), or write the output file from the appended paths and
    * return its path (`Merged`).
    */
  datatype MergeOutcome =
    | NoOutput
    | ListingFailed(path: string)
    | WriteFailed(path: string)
    | Merged(output: string, appended: seq<string>)

  function MergeResult(projects: seq<Project>, projectId: int, mirNumber: string, fs: Tree): MergeOutcome {
    match FindProject(projects, projectId)
    case None => NoOutput
    case Some(p) =>
      var staging := StagingFolder(projectId, p.code, mirNumber);
      if !Exists(fs, staging) then NoOutput
      else if !IsDir(fs, staging) then ListingFailed(staging)
      else if IsDir(fs, OutputPath(projectId, p.code, mirNumber)) then WriteFailed(OutputPath(projectId, p.code, mirNumber))
      else Merged(OutputPath(projectId, p.code, mirNumber), JoinAll(staging, Plan(ListDir(fs, staging))))
  }

  /** The inner loop: the paths appended for one marker. */
  method MergeGroup(dir: string, sorted: seq<string>, marker: string) returns (paths: seq<string>)
    ensures paths == JoinAll(dir, Group(sorted, marker))
  {
    paths := [];
    for j := 0 to |sorted|
      invariant paths == JoinAll(dir, Group(sorted[..j], marker))
    {
      var file := sorted[j];
      GroupStep(sorted, j, marker);
      if EndsWith(file, ".pdf") && Contains(file, marker) {
        var g := Group(sorted[..j], marker);
        JoinAllAppend(dir, g, [file]);
        assert [file][..0] == [];
        assert JoinAll(dir, [file]) == [Join(dir, file)];
        assert Group(sorted[..j + 1], marker) == g + [file];
        paths := paths + [Join(dir, file)];
        assert paths == JoinAll(dir, Group(sorted[..j + 1], marker));
      } else {
        assert Group(sorted[..j + 1], marker) == Group(sorted[..j], marker);
      }
    }
    assert sorted[..|sorted|] == sorted;
  }

  lemma GroupStep(names: seq<string>, j: nat, marker: string)
    requires j < |names|
    ensures Group(names[..j + 1], marker) == Group(names[..j], marker) + Pick(names[j], marker)
  {
    assert names[..j + 1][..j] == names[..j];
  }

  lemma GroupsStep(names: seq<string>, markers: seq<string>, k: nat)
    requires k < |markers|
    ensures Groups(names, markers[..k + 1]) == Groups(names, markers[..k]) + Group(names, markers[k])
  {
    assert markers[..k + 1][..k] == markers[..k];
  }

  lemma {:induction false} JoinAllAppend(dir: string, a: seq<string>, b: seq<string>)
    ensures JoinAll(dir, a + b) == JoinAll(dir, a) + JoinAll(dir, b)
    decreases |b|
  {
    if |b| == 0 {
      assert a + b == a;
    } else {
      assert (a + b)[..|a + b| - 1] == a + b[..|b| - 1];
      JoinAllAppend(dir, a, b[..|b| - 1]);
    }
  }

  /** `merge_mir_pdfs`, with the storage tree as a snapshot. */
  method MergeMirPdfs(projects: seq<Project>, projectId: int, mirNumber: string, fs: Tree)
    returns (r: MergeOutcome)
    ensures r == MergeResult(projects, projectId, mirNumber, fs)
  {
    var project := FindProject(projects, projectId);
    if project.None? {
      return NoOutput;
    }
    var basePath := ProjectRoot(projectId) + "/MIR/" + project.value.code + "-" + mirNumber;
    var mirPath := basePath + "/source_files";
    var outputPdf := basePath + "/FINAL_MIR.pdf";
    if !Exists(fs, mirPath) {
      return NoOutput;
    }
    if !IsDir(fs, mirPath) {
      return ListingFailed(mirPath);
    }
    var files := ListDir(fs, mirPath);
    var sorted := Sort(files);
    var appended := [];
    for k := 0 to |GroupMarkers|
      invariant appended == JoinAll(mirPath, Groups(sorted, GroupMarkers[..k]))
    {
      GroupsStep(sorted, GroupMarkers, k);
      var paths := MergeGroup(mirPath, sorted, GroupMarkers[k]);
      JoinAllAppend(mirPath, Groups(sorted, GroupMarkers[..k]), Group(sorted, GroupMarkers[k]));
      appended := appended + paths;
    }
    assert GroupMarkers[..|GroupMarkers|] == GroupMarkers;
    assert mirPath == StagingFolder(projectId, project.value.code, mirNumber);
    assert outputPdf == OutputPath(projectId, project.value.code, mirNumber);
    if IsDir(fs, outputPdf) {
      return WriteFailed(outputPdf);
    }
    return Merged(outputPdf, appended);
  }

  // ------------------------------------------------------------ properties

  /**
    * Outcome by case: nothing without a project or a staging area, and,
    * whenever the area can be listed, an output file unless its path is a
    * directory, even when nothing is appended.
    */
  lemma MergeResultCases(projects: seq<Project>, projectId: int, mirNumber: string, fs: Tree)
    ensures var r := MergeResult(projects, projectId, mirNumber, fs);
      && (r.NoOutput? <==> (FindProject(projects, projectId).None? ||
            !Exists(fs, StagingFolder(projectId, FindProject(projects, projectId).value.code, mirNumber))))
      && (r.Merged? || r.WriteFailed? <==> (FindProject(projects, projectId).Some? &&
            IsDir(fs, StagingFolder(projectId, FindProject(projects, projectId).value.code, mirNumber))))
      && (r.WriteFailed? <==> (FindProject(projects, projectId).Some? &&
            IsDir(fs, StagingFolder(projectId, FindProject(projects, projectId).value.code, mirNumber)) &&
            IsDir(fs, OutputPath(projectId, FindProject(projects, projectId).value.code, mirNumber))))
      && (r.Merged? || r.WriteFailed? ==>
            (if r.Merged? then r.output else r.path) == OutputPath(projectId, FindProject(projects, projectId).value.code, mirNumber))
      && (r.Merged? ==> EndsWith(r.output, "/FINAL_MIR.pdf") && r.output != "")
  {
    var r := MergeResult(projects, projectId, mirNumber, fs);
    if r.Merged? {
      var o := r.output;
      assert o[|o| - |"/FINAL_MIR.pdf"|..] == "/FINAL_MIR.pdf";
    }
  }

  /** How often `x` occurs in a group: as often as in the input if the marker selects it, otherwise never. */
  lemma {:induction false} GroupCount(names: seq<string>, marker: string, x: string)
    ensures multiset(Group(names, marker))[x] == if Selected(x, marker) then multiset(names)[x] else 0
    decreases |names|
  {
    if |names| > 0 {
      var init := names[..|names| - 1];
      GroupCount(init, marker, x);
      assert names == init + [names[|names| - 1]];
    }
  }

  /** A group of a sorted listing is sorted. */
  lemma {:induction false} GroupSorted(names: seq<string>, marker: string)
    requires Sorted(names)
    ensures Sorted(Group(names, marker))
    decreases |names|
  {
    if |names| > 0 {
      var init := names[..|names| - 1];
      var last := names[|names| - 1];
      assert Sorted(init);
      GroupSorted(init, marker);
      var g := Group(init, marker);
      if Selected(last, marker) {
        forall i | 0 <= i < |g| ensures Le(g[i], last) {
          GroupCount(init, marker, g[i]);
          assert g[i] in multiset(g);
          var k :| 0 <= k < |init| && init[k] == g[i];
        }
        var r := g + [last];
        forall i, j | 0 <= i < j < |r| ensures Le(r[i], r[j]) {
          if j < |g| { assert r[i] == g[i] && r[j] == g[j]; }
        }
      }
    }
  }

  /** Each group of the merge order is the sorted list of the names that marker selects. */
  lemma GroupIsSortedSelection(names: seq<string>, marker: string)
    ensures Group(Sort(names), marker) == Sort(Group(names, marker))
  {
    var g := Group(Sort(names), marker);
    GroupSorted(Sort(names), marker);
    forall x ensures multiset(g)[x] == multiset(Sort(Group(names, marker)))[x] {
      GroupCount(Sort(names), marker, x);
      GroupCount(names, marker, x);
    }
    assert multiset(g) == multiset(Sort(Group(names, marker)));
    SortedUnique(g, Sort(Group(names, marker)));
  }

  lemma GroupsOfMarkers(s: seq<string>)
    ensures Groups(s, GroupMarkers) ==
      Group(s, "MIR_FORM_") + Group(s, "PANEL_LIST_") + Group(s, "CHECKLIST") + Group(s, "DRAWING_") + Group(s, "PHOTO")
  {
    var m := GroupMarkers;
    assert m[..4][..3] == m[..3] && m[..3][..2] == m[..2] && m[..2][..1] == m[..1] && m[..1][..0] == [];
    assert Groups(s, m[..1]) == Group(s, m[0]);
    assert Groups(s, m[..2]) == Groups(s, m[..1]) + Group(s, m[1]);
    assert Groups(s, m[..3]) == Groups(s, m[..2]) + Group(s, m[2]);
    assert Groups(s, m[..4]) == Groups(s, m[..3]) + Group(s, m[3]);
    assert m == m[..5];
    assert Groups(s, m) == Groups(s, m[..4]) + Group(s, m[4]);
  }

  /**
    * The merge order as five blocks: the sorted `MIR_FORM_` files, then the
    * sorted `PANEL_LIST_` files, then `CHECKLIST`, `DRAWING_` and `PHOTO`.
    */
  lemma PlanBlocks(listing: seq<string>)
    ensures Plan(listing) ==
      Sort(Group(listing, "MIR_FORM_")) + Sort(Group(listing, "PANEL_LIST_")) + Sort(Group(listing, "CHECKLIST"))
        + Sort(Group(listing, "DRAWING_")) + Sort(Group(listing, "PHOTO"))
  {
    GroupsOfMarkers(Sort(listing));
    GroupIsSortedSelection(listing, "MIR_FORM_");
    GroupIsSortedSelection(listing, "PANEL_LIST_");
    GroupIsSortedSelection(listing, "CHECKLIST");
    GroupIsSortedSelection(listing, "DRAWING_");
    GroupIsSortedSelection(listing, "PHOTO");
  }

  /** How many of the markers select `name` (as a `.pdf` file containing it). */
  function MarkerHits(name: string, markers: seq<string>): nat
    decreases |markers|
  {
    if |markers| == 0 then 0
    else MarkerHits(name, markers[..|markers| - 1]) + (if Selected(name, markers[|markers| - 1]) then 1 else 0)
  }

  lemma Distribute(a: nat, h: nat, b: nat)
    ensures a * h + a * b == a * (h + b)
  {
  }

  lemma ProductPositive(a: nat, b: nat)
    ensures a * b > 0 <==> a > 0 && b > 0
  {
    if a > 0 && b > 0 {
      assert a * b >= b;
    }
  }

  lemma {:induction false} GroupsCount(names: seq<string>, markers: seq<string>, x: string)
    ensures multiset(Groups(names, markers))[x] == multiset(names)[x] * MarkerHits(x, markers)
    decreases |markers|
  {
    if |markers| > 0 {
      var init := markers[..|markers| - 1];
      var m := markers[|markers| - 1];
      GroupsCount(names, init, x);
      GroupCount(names, m, x);
      var a := multiset(names)[x];
      var h := MarkerHits(x, init);
      var b := if Selected(x, m) then 1 else 0;
      assert multiset(Groups(names, markers)) == multiset(Groups(names, init)) + multiset(Group(names, m));
      assert multiset(Groups(names, markers))[x] == a * h + a * b;
      assert MarkerHits(x, markers) == h + b;
      Distribute(a, h, b);
    }
  }

  /** A name is appended once for every marker that selects it, for each time it is listed. */
  lemma PlanCount(listing: seq<string>, x: string)
    ensures multiset(Plan(listing))[x] == multiset(listing)[x] * MarkerHits(x, GroupMarkers)
  {
    GroupsCount(Sort(listing), GroupMarkers, x);
  }

  lemma {:induction false} MarkerHitsPositive(name: string, markers: seq<string>)
    ensures MarkerHits(name, markers) > 0 <==> exists k :: 0 <= k < |markers| && Selected(name, markers[k])
    decreases |markers|
  {
    if |markers| > 0 {
      var init := markers[..|markers| - 1];
      MarkerHitsPositive(name, init);
      if exists k :: 0 <= k < |markers| && Selected(name, markers[k]) {
        var k :| 0 <= k < |markers| && Selected(name, markers[k]);
        if k < |init| { assert init[k] == markers[k]; }
      }
      if exists k :: 0 <= k < |init| && Selected(name, init[k]) {
        var k :| 0 <= k < |init| && Selected(name, init[k]);
        assert markers[k] == init[k];
      }
    }
  }

  /**
    * A listed name is merged if and only if it ends in `.pdf` and contains
    * one of the five markers; everything else is dropped.
    */
  lemma PlanMembers(listing: seq<string>, x: string)
    ensures x in Plan(listing) <==>
      x in listing && EndsWith(x, ".pdf") && exists k :: 0 <= k < |GroupMarkers| && Contains(x, GroupMarkers[k])
  {
    PlanCount(listing, x);
    MarkerHitsPositive(x, GroupMarkers);
    ProductPositive(multiset(listing)[x], MarkerHits(x, GroupMarkers));
    assert x in Plan(listing) <==> multiset(Plan(listing))[x] > 0;
    assert x in listing <==> multiset(listing)[x] > 0;
  }

  /** The merge appends as many files as the five groups hold together. */
  lemma PlanLength(listing: seq<string>)
    ensures |Plan(listing)| ==
      |Group(listing, "MIR_FORM_")| + |Group(listing, "PANEL_LIST_")| + |Group(listing, "CHECKLIST")|
        + |Group(listing, "DRAWING_")| + |Group(listing, "PHOTO")|
  {
    PlanBlocks(listing);
    SortLength(Group(listing, "MIR_FORM_"));
    SortLength(Group(listing, "PANEL_LIST_"));
    SortLength(Group(listing, "CHECKLIST"));
    SortLength(Group(listing, "DRAWING_"));
    SortLength(Group(listing, "PHOTO"));
  }

  /** `os.listdir` promises no order; the merge order does not depend on it. */
  lemma PlanIgnoresListingOrder(a: seq<string>, b: seq<string>)
    requires multiset(a) == multiset(b)
    ensures Plan(a) == Plan(b)
  {
    SortedUnique(Sort(a), Sort(b));
  }

  /**
    * Every marker holds an upper-case letter, so a name without one is never
    * merged. Apart from the panel id and the file name, the names the
    * collector gives its copies (`<panel>_checklists_<file>`, and so on)
    * are lower case.
    */
  lemma LowerCaseNeverMerged(listing: seq<string>, x: string)
    requires forall i :: 0 <= i < |x| ==> !('A' <= x[i] <= 'Z')
    ensures x !in Plan(listing)
  {
    PlanMembers(listing, x);
    forall k | 0 <= k < |GroupMarkers| ensures !Contains(x, GroupMarkers[k]) {
      var c := GroupMarkers[k][0];
      assert 'A' <= c <= 'Z';
      MissingCharNotContained(x, GroupMarkers[k], c);
    }
  }

  // ------------------------------------------------------- a worked listing

  /** A `.pdf` name that starts with a marker is selected by it. */
  lemma Accepts(name: string, marker: string)
    requires StartsWith(name, marker) && EndsWith(name, ".pdf")
    ensures Pick(name, marker) == [name]
  {
    ContainsAt(name, marker, 0);
  }

  /** A name lacking one of a marker's characters is not selected by it. */
  lemma Rejects(name: string, marker: string, c: char)
    requires c in marker && c !in name
    ensures Pick(name, marker) == []
  {
    MissingCharNotContained(name, marker, c);
  }

  lemma PhotoChars(name: string)
    requires name == "PHOTO_2.pdf"
    ensures StartsWith(name, "PHOTO") && EndsWith(name, ".pdf")
    ensures 'M' !in name && 'N' !in name && 'K' !in name && 'W' !in name
  {
  }

  lemma FirstChecklistChars(name: string)
    requires name == "CHECKLIST_a.pdf"
    ensures StartsWith(name, "CHECKLIST") && EndsWith(name, ".pdf")
    ensures 'M' !in name && 'N' !in name && 'W' !in name && 'P' !in name
  {
  }

  lemma SecondChecklistChars(name: string)
    requires name == "CHECKLIST_b.pdf"
    ensures StartsWith(name, "CHECKLIST") && EndsWith(name, ".pdf")
    ensures 'M' !in name && 'N' !in name && 'W' !in name && 'P' !in name
  {
  }

  lemma CoverChars(name: string)
    requires name == "MIR_FORM_cover.pdf"
    ensures StartsWith(name, "MIR_FORM_") && EndsWith(name, ".pdf")
    ensures 'N' !in name && 'K' !in name && 'W' !in name && 'P' !in name
  {
  }

  lemma PanelListChars(name: string)
    requires name == "PANEL_LIST_x.pdf"
    ensures StartsWith(name, "PANEL_LIST_") && EndsWith(name, ".pdf")
    ensures 'M' !in name && 'K' !in name && 'W' !in name && 'H' !in name
  {
  }

  lemma UnmarkedChars(name: string)
    requires name == "random.pdf"
    ensures 'M' !in name && 'P' !in name && 'C' !in name && 'D' !in name
  {
  }

  lemma PhotoSelection(name: string)
    requires StartsWith(name, "PHOTO") && EndsWith(name, ".pdf")
    requires 'M' !in name && 'N' !in name && 'K' !in name && 'W' !in name
    ensures Pick(name, "MIR_FORM_") == [] && Pick(name, "PANEL_LIST_") == []
    ensures Pick(name, "CHECKLIST") == [] && Pick(name, "DRAWING_") == [] && Pick(name, "PHOTO") == [name]
  {
    Rejects(name, "MIR_FORM_", 'M');
    Rejects(name, "PANEL_LIST_", 'N');
    Rejects(name, "CHECKLIST", 'K');
    Rejects(name, "DRAWING_", 'W');
    Accepts(name, "PHOTO");
  }

  lemma ChecklistSelection(name: string)
    requires StartsWith(name, "CHECKLIST") && EndsWith(name, ".pdf")
    requires 'M' !in name && 'N' !in name && 'W' !in name && 'P' !in name
    ensures Pick(name, "MIR_FORM_") == [] && Pick(name, "PANEL_LIST_") == []
    ensures Pick(name, "CHECKLIST") == [name] && Pick(name, "DRAWING_") == [] && Pick(name, "PHOTO") == []
  {
    Rejects(name, "MIR_FORM_", 'M');
    Rejects(name, "PANEL_LIST_", 'N');
    Accepts(name, "CHECKLIST");
    Rejects(name, "DRAWING_", 'W');
    Rejects(name, "PHOTO", 'P');
  }

  lemma CoverSelection(name: string)
    requires StartsWith(name, "MIR_FORM_") && EndsWith(name, ".pdf")
    requires 'N' !in name && 'K' !in name && 'W' !in name && 'P' !in name
    ensures Pick(name, "MIR_FORM_") == [name] && Pick(name, "PANEL_LIST_") == []
    ensures Pick(name, "CHECKLIST") == [] && Pick(name, "DRAWING_") == [] && Pick(name, "PHOTO") == []
  {
    Accepts(name, "MIR_FORM_");
    Rejects(name, "PANEL_LIST_", 'N');
    Rejects(name, "CHECKLIST", 'K');
    Rejects(name, "DRAWING_", 'W');
    Rejects(name, "PHOTO", 'P');
  }

  lemma PanelListSelection(name: string)
    requires StartsWith(name, "PANEL_LIST_") && EndsWith(name, ".pdf")
    requires 'M' !in name && 'K' !in name && 'W' !in name && 'H' !in name
    ensures Pick(name, "MIR_FORM_") == [] && Pick(name, "PANEL_LIST_") == [name]
    ensures Pick(name, "CHECKLIST") == [] && Pick(name, "DRAWING_") == [] && Pick(name, "PHOTO") == []
  {
    Rejects(name, "MIR_FORM_", 'M');
    Accepts(name, "PANEL_LIST_");
    Rejects(name, "CHECKLIST", 'K');
    Rejects(name, "DRAWING_", 'W');
    Rejects(name, "PHOTO", 'H');
  }

  lemma UnmarkedSelection(name: string)
    requires 'M' !in name && 'P' !in name && 'C' !in name && 'D' !in name
    ensures Pick(name, "MIR_FORM_") == [] && Pick(name, "PANEL_LIST_") == []
    ensures Pick(name, "CHECKLIST") == [] && Pick(name, "DRAWING_") == [] && Pick(name, "PHOTO") == []
  {
    Rejects(name, "MIR_FORM_", 'M');
    Rejects(name, "PANEL_LIST_", 'P');
    Rejects(name, "CHECKLIST", 'C');
    Rejects(name, "DRAWING_", 'D');
    Rejects(name, "PHOTO", 'P');
  }

  lemma GroupOfSix(s: seq<string>, m: string)
    requires |s| == 6
    ensures Group(s, m) == Pick(s[0], m) + Pick(s[1], m) + Pick(s[2], m) + Pick(s[3], m) + Pick(s[4], m) + Pick(s[5], m)
  {
    assert s[..0] == [];
    GroupStep(s, 0, m);
    assert Group(s[..1], m) == Pick(s[0], m);
    GroupStep(s, 1, m);
    assert Group(s[..2], m) == Pick(s[0], m) + Pick(s[1], m);
    GroupStep(s, 2, m);
    assert Group(s[..3], m) == Pick(s[0], m) + Pick(s[1], m) + Pick(s[2], m);
    GroupStep(s, 3, m);
    assert Group(s[..4], m) == Pick(s[0], m) + Pick(s[1], m) + Pick(s[2], m) + Pick(s[3], m);
    GroupStep(s, 4, m);
    assert Group(s[..5], m) == Pick(s[0], m) + Pick(s[1], m) + Pick(s[2], m) + Pick(s[3], m) + Pick(s[4], m);
    GroupStep(s, 5, m);
    assert s[..6] == s;
  }

  /** Grouping six names from what each of five markers selects. */
  lemma {:induction false} SampleGroups(photo: string, checkB: string, cover: string, checkA: string, panels: string, other: string,
                     m1: string, m2: string, m3: string, m4: string, m5: string)
    requires Pick(photo, m1) == [] && Pick(photo, m2) == [] && Pick(photo, m3) == []
    requires Pick(photo, m4) == [] && Pick(photo, m5) == [photo]
    requires Pick(checkB, m1) == [] && Pick(checkB, m2) == [] && Pick(checkB, m3) == [checkB]
    requires Pick(checkB, m4) == [] && Pick(checkB, m5) == []
    requires Pick(cover, m1) == [cover] && Pick(cover, m2) == [] && Pick(cover, m3) == []
    requires Pick(cover, m4) == [] && Pick(cover, m5) == []
    requires Pick(checkA, m1) == [] && Pick(checkA, m2) == [] && Pick(checkA, m3) == [checkA]
    requires Pick(checkA, m4) == [] && Pick(checkA, m5) == []
    requires Pick(panels, m1) == [] && Pick(panels, m2) == [panels] && Pick(panels, m3) == []
    requires Pick(panels, m4) == [] && Pick(panels, m5) == []
    requires Pick(other, m1) == [] && Pick(other, m2) == [] && Pick(other, m3) == []
    requires Pick(other, m4) == [] && Pick(other, m5) == []
    ensures var listing := [photo, checkB, cover, checkA, panels, other];
      && Group(listing, m1) == [cover]
      && Group(listing, m2) == [panels]
      && Group(listing, m3) == [checkB, checkA]
      && Group(listing, m4) == []
      && Group(listing, m5) == [photo]
  {
    var listing := [photo, checkB, cover, checkA, panels, other];
    assert Group(listing, m1) == [cover] by {
      GroupOfSix(listing, m1);
      assert Group(listing, m1) == [] + [] + [cover] + [] + [] + [];
    }
    assert Group(listing, m2) == [panels] by {
      GroupOfSix(listing, m2);
      assert Group(listing, m2) == [] + [] + [] + [] + [panels] + [];
    }
    assert Group(listing, m3) == [checkB, checkA] by {
      GroupOfSix(listing, m3);
      assert Group(listing, m3) == [] + [checkB] + [] + [checkA] + [] + [];
    }
    assert Group(listing, m4) == [] by {
      GroupOfSix(listing, m4);
      assert Group(listing, m4) == [] + [] + [] + [] + [] + [];
    }
    assert Group(listing, m5) == [photo] by {
      GroupOfSix(listing, m5);
      assert Group(listing, m5) == [photo] + [] + [] + [] + [] + [];
    }
  }

  lemma SortSingle(x: string)
    ensures Sort([x]) == [x]
  {
    assert [x][1..] == [];
  }

  lemma SortTwoChecklists(b: string, a: string)
    requires b == "CHECKLIST_b.pdf" && a == "CHECKLIST_a.pdf"
    ensures Sort([b, a]) == [a, b]
  {
    assert a[..10] == b[..10] && a[10] < b[10];
    LeAt(a, b, 10);
    assert Sorted([a, b]);
    assert multiset([b, a]) == multiset([a, b]);
    SortedUnique(Sort([b, a]), [a, b]);
  }

  /** The five groups of the sample listing, before sorting. */
  lemma SampleListingGroups(photo: string, checkB: string, cover: string, checkA: string, panels: string, other: string)
    requires photo == "PHOTO_2.pdf" && checkB == "CHECKLIST_b.pdf" && cover == "MIR_FORM_cover.pdf"
    requires checkA == "CHECKLIST_a.pdf" && panels == "PANEL_LIST_x.pdf" && other == "random.pdf"
    ensures var listing := [photo, checkB, cover, checkA, panels, other];
      && Group(listing, "MIR_FORM_") == [cover]
      && Group(listing, "PANEL_LIST_") == [panels]
      && Group(listing, "CHECKLIST") == [checkB, checkA]
      && Group(listing, "DRAWING_") == []
      && Group(listing, "PHOTO") == [photo]
  {
    PhotoChars(photo);
    SecondChecklistChars(checkB);
    CoverChars(cover);
    FirstChecklistChars(checkA);
    PanelListChars(panels);
    UnmarkedChars(other);
    PhotoSelection(photo);
    ChecklistSelection(checkB);
    CoverSelection(cover);
    ChecklistSelection(checkA);
    PanelListSelection(panels);
    UnmarkedSelection(other);
    SampleGroups(photo, checkB, cover, checkA, panels, other, "MIR_FORM_", "PANEL_LIST_", "CHECKLIST", "DRAWING_", "PHOTO");
  }

  lemma OrderFromGroups(listing: seq<string>, photo: string, checkB: string, cover: string, checkA: string, panels: string)
    requires Group(listing, "MIR_FORM_") == [cover]
    requires Group(listing, "PANEL_LIST_") == [panels]
    requires Group(listing, "CHECKLIST") == [checkB, checkA]
    requires Group(listing, "DRAWING_") == []
    requires Group(listing, "PHOTO") == [photo]
    requires Sort([checkB, checkA]) == [checkA, checkB]
    ensures Plan(listing) == [cover, panels, checkA, checkB, photo]
  {
    PlanBlocks(listing);
    SortSingle(cover);
    SortSingle(panels);
    SortSingle(photo);
    var empty: seq<string> := [];
    assert Sort(empty) == [];
    assert Sort(Group(listing, "MIR_FORM_")) == [cover];
    assert Sort(Group(listing, "PANEL_LIST_")) == [panels];
    assert Sort(Group(listing, "CHECKLIST")) == [checkA, checkB];
    assert Sort(Group(listing, "DRAWING_")) == [];
    assert Sort(Group(listing, "PHOTO")) == [photo];
    FiveBlocks(cover, panels, checkA, checkB, photo);
  }

  lemma FiveBlocks(a: string, b: string, c: string, d: string, e: string)
    ensures [a] + [b] + [c, d] + [] + [e] == [a, b, c, d, e]
  {
  }

  /**
    * Staging files `PHOTO_2.pdf`, `CHECKLIST_b.pdf`, `MIR_FORM_cover.pdf`,
    * `CHECKLIST_a.pdf`, `PANEL_LIST_x.pdf` and `random.pdf`, listed in that
    * order, are merged as cover page, panel list, the two checklists in name
    * order and the photo; `random.pdf` is left out.
    */
  lemma SampleMergeOrder()
    ensures Plan(["PHOTO_2.pdf", "CHECKLIST_b.pdf", "MIR_FORM_cover.pdf", "CHECKLIST_a.pdf", "PANEL_LIST_x.pdf", "random.pdf"])
      == ["MIR_FORM_cover.pdf", "PANEL_LIST_x.pdf", "CHECKLIST_a.pdf", "CHECKLIST_b.pdf", "PHOTO_2.pdf"]
  {
    SampleMergeOrderOf("PHOTO_2.pdf", "CHECKLIST_b.pdf", "MIR_FORM_cover.pdf", "CHECKLIST_a.pdf", "PANEL_LIST_x.pdf", "random.pdf");
  }

  lemma SampleMergeOrderOf(photo: string, checkB: string, cover: string, checkA: string, panels: string, other: string)
    requires photo == "PHOTO_2.pdf" && checkB == "CHECKLIST_b.pdf" && cover == "MIR_FORM_cover.pdf"
    requires checkA == "CHECKLIST_a.pdf" && panels == "PANEL_LIST_x.pdf" && other == "random.pdf"
    ensures Plan([photo, checkB, cover, checkA, panels, other]) == [cover, panels, checkA, checkB, photo]
  {
    SampleListingGroups(photo, checkB, cover, checkA, panels, other);
    SortTwoChecklists(checkB, checkA);
    OrderFromGroups([photo, checkB, cover, checkA, panels, other], photo, checkB, cover, checkA, panels);
  }
}
