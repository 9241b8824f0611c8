/** The project record of the dashboard and the form data it is edited through. */
module ProjectModel {

  datatype Color = Coral | Yellow

  datatype Icon = Desktop | Table | Circle | Grid | Timer | Leaf

  /**
    The fields the project form edits (`NewProjectData`). Progress is whatever
    integer the form produced: nothing clamps it.
  */
  datatype ProjectData = ProjectData(
    title: string,
    description: string,
    progress: int,
    progressColor: Color,
    iconType: Icon,
    actions: seq<string>)

  /** A project card: an id and the form fields. */
  datatype Project = Project(
    id: string,
    title: string,
    description: string,
    progress: int,
    progressColor: Color,
    iconType: Icon,
    actions: seq<string>)

  /** The two actions the store manages itself. */
  const Edit: string := "EDIT"
  const Delete: string := "DELETE"
  const ManagedActions: seq<string> := [Edit, Delete]

  /** The form fields of a project, without its id. */
  function DataOf(p: Project): ProjectData {
    ProjectData(p.title, p.description, p.progress, p.progressColor, p.iconType, p.actions)
  }

  /** `{ ...project, ...projectData }`: the id kept, every form field replaced. */
  function WithData(p: Project, d: ProjectData): (r: Project)
    ensures r.id == p.id && DataOf(r) == d
  {
    Project(p.id, d.title, d.description, d.progress, d.progressColor, d.iconType, d.actions)
  }

  /** The project an id and form data make. */
  function Build(id: string, d: ProjectData): (r: Project)
    ensures r.id == id && DataOf(r) == d
  {
    Project(id, d.title, d.description, d.progress, d.progressColor, d.iconType, d.actions)
  }

  /** The actions end with EDIT, DELETE. */
  predicate EndsManaged(actions: seq<string>) {
    |actions| >= 2 && actions[|actions| - 2..] == ManagedActions
  }

  /** The shape creation gives: chosen actions free of EDIT and DELETE, then EDIT, DELETE. */
  predicate Canonical(actions: seq<string>) {
    EndsManaged(actions) && Edit !in actions[..|actions| - 2] && Delete !in actions[..|actions| - 2]
  }

  predicate UniqueIds(ps: seq<Project>) {
    forall i, j :: 0 <= i < j < |ps| ==> ps[i].id != ps[j].id
  }

  /** No project carries the id. */
  predicate FreshId(ps: seq<Project>, id: string) {
    forall i :: 0 <= i < |ps| ==> ps[i].id != id
  }

  /** The ids, in list order. */
  function IdList(ps: seq<Project>): (ids: seq<string>)
    ensures |ids| == |ps|
    ensures forall i :: 0 <= i < |ps| ==> ids[i] == ps[i].id
  {
    seq(|ps|, i requires 0 <= i < |ps| => ps[i].id)
  }
}
