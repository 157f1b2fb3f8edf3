/**
  * The rows of the record store that the MIR pipeline reads and writes
  * (the `project`, `mir_master`, `mir_panel` and `qc_log` tables of
  * main.py), and the lookups the pipeline runs against them.
  */
module Records {
  import opened Wrappers

  datatype Project = Project(id: int, name: string, code: string, location: Option<string>)

  datatype MirMaster = MirMaster(id: int, projectId: int, mirNumber: string, status: string)

  datatype MirPanel = MirPanel(id: int, mirId: int, panelId: string)

  /** `inspectionDate` is the stored timestamp, kept as opaque text. */
  datatype QcLog = QcLog(
    id: int,
    panelId: string,
    inspectionDate: string,
    inspectorName: Option<string>,
    status: string,
    remarks: Option<string>,
    projectId: int,
    productionLogId: int)

  const Draft := "Draft"
  const Ready := "Ready"
  const Final := "Final"
  const Approved := "Approved"

  /** `db.query(Project).filter(Project.id == id).first()`: rows are scanned in storage order. */
  function FindProject(projects: seq<Project>, id: int): (r: Option<Project>)
    ensures r.None? <==> forall i :: 0 <= i < |projects| ==> projects[i].id != id
    ensures r.Some? ==> r.value.id == id && r.value in projects
    decreases |projects|
  {
    if |projects| == 0 then None
    else if projects[0].id == id then Some(projects[0])
    else FindProject(projects[1..], id)
  }

  /** The column value `number` is already stored in `mir_master.mir_number`. */
  predicate NumberTaken(mirs: seq<MirMaster>, number: string) {
    exists i :: 0 <= i < |mirs| && mirs[i].mirNumber == number
  }

  /** The unique constraint on `mir_master.mir_number`. */
  predicate UniqueNumbers(mirs: seq<MirMaster>) {
    forall i, j :: 0 <= i < j < |mirs| ==> mirs[i].mirNumber != mirs[j].mirNumber
  }

  /**
    * SQLite's choice of a new integer primary key: one more than the
    * largest key in use, or 1 in an empty table.
    */
  function NextRowId(ids: seq<int>): (n: int)
    ensures forall i :: 0 <= i < |ids| ==> ids[i] < n
    ensures |ids| == 0 ==> n == 1
    ensures |ids| > 0 ==> exists i :: 0 <= i < |ids| && n == ids[i] + 1
    decreases |ids|
  {
    if |ids| == 0 then 1
    else
      var rest := NextRowId(ids[1..]);
      if |ids| > 1 && rest > ids[0] + 1 then rest else ids[0] + 1
  }

  /** The primary keys of a table, in storage order. */
  function Keys<R>(rows: seq<R>, key: R -> int): (ids: seq<int>)
    ensures |ids| == |rows| && forall i :: 0 <= i < |rows| ==> ids[i] == key(rows[i])
  {
    seq(|rows|, i requires 0 <= i < |rows| => key(rows[i]))
  }

  function MirKey(row: MirMaster): int {
    row.id
  }

  function PanelKey(row: MirPanel): int {
    row.id
  }
}
