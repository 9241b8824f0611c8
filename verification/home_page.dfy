/**
  The dashboard page: the project list with its seed, the create, update and
  delete reducers, the dialog's open/close state, and the dialog's submit.
*/
module HomePage {
  import opened Common
  import opened ProjectModel
  import opened ProjectForm

  /**
    The six projects the page starts with, ids "1" to "6"; every one of them
    ends its actions with EDIT, DELETE and has no other EDIT or DELETE.
  */
  function SeedProjects(): (ps: seq<Project>)
    ensures IdList(ps) == ["1", "2", "3", "4", "5", "6"]
    ensures UniqueIds(ps)
    ensures forall i :: 0 <= i < |ps| ==> Canonical(ps[i].actions)
  {
    var p1 := Seed("1", "UNIVERSITY MANAGEMENT", "MATERIALS AND ASSIGNMENT", 65, Coral, Desktop, ["OPEN", "DETAILS"]);
    var p2 := Seed("2", "LAB ACTIVITY", "RESEARCH AND MANAGEMENT", 40, Yellow, Table, ["OPEN", "DETAILS"]);
    var p3 := Seed("3", "DEVELOPMENT ACTIVITY", "PROJECT MANAGEMENT AND LEARNING", 80, Coral, Circle, ["OPEN", "DETAILS"]);
    var p4 := Seed("4", "TO DO LIST", "Material exploration", 25, Yellow, Grid, ["TODO"]);
    var p5 := Seed("5", "NOTES", "Natural and artificial lighting", 50, Yellow, Timer, ["NOTES"]);
    var p6 := Seed("6", "FILES", "Eco-friendly options", 15, Coral, Leaf, ["FILES"]);
    var ps := [p1, p2, p3, p4, p5, p6];
    assert IdList(ps) == ["1", "2", "3", "4", "5", "6"];
    ps
  }

  /** A seeded project: its listed actions, then EDIT, DELETE. */
  function Seed(id: string, title: string, description: string, progress: int, color: Color, icon: Icon, base: seq<string>): (p: Project)
    requires Edit !in base && Delete !in base
    ensures p.id == id && p.actions == base + ManagedActions
    ensures Canonical(p.actions)
  {
    assert (base + ManagedActions)[..|base|] == base;
    Project(id, title, description, progress, color, icon, base + ManagedActions)
  }

  /**
    Creating: the new project, with the fresh id, the form fields and the
    form's actions followed by EDIT, DELETE, goes after all existing ones,
    which are left as they were.
  */
  function CreateProject(ps: seq<Project>, d: ProjectData, freshId: string): (r: seq<Project>)
    requires FreshId(ps, freshId)
    ensures |r| == |ps| + 1 && r[..|ps|] == ps
    ensures r[|ps|].id == freshId
    ensures DataOf(r[|ps|]) == d.(actions := d.actions + ManagedActions)
    ensures EndsManaged(r[|ps|].actions)
    ensures UniqueIds(ps) ==> UniqueIds(r)
  {
    ps + [Build(freshId, d.(actions := d.actions + ManagedActions))]
  }

  /**
    Updating (`projects.map(...)`): every project keeps its id and place;
    every project with the edited id takes the form's fields, its actions
    becoming exactly the form's actions; every other project is left as it was.
  */
  function UpdateProject(ps: seq<Project>, editingId: string, d: ProjectData): (r: seq<Project>)
    ensures |r| == |ps|
    ensures forall i :: 0 <= i < |ps| ==> r[i].id == ps[i].id
    ensures forall i :: 0 <= i < |ps| && ps[i].id == editingId ==> DataOf(r[i]) == d
    ensures forall i :: 0 <= i < |ps| && ps[i].id != editingId ==> r[i] == ps[i]
    ensures UniqueIds(ps) ==> UniqueIds(r)
  {
    seq(|ps|, i requires 0 <= i < |ps| => if ps[i].id == editingId then WithData(ps[i], d) else ps[i])
  }

  /** An update for an id no project carries changes nothing. */
  lemma UpdateMissing(ps: seq<Project>, editingId: string, d: ProjectData)
    requires FreshId(ps, editingId)
    ensures UpdateProject(ps, editingId, d) == ps
  {
  }

  /** Saving the same form twice is saving it once. */
  lemma UpdateIdempotent(ps: seq<Project>, editingId: string, d: ProjectData)
    ensures UpdateProject(UpdateProject(ps, editingId, d), editingId, d) == UpdateProject(ps, editingId, d)
  {
  }

  /** The test of the delete filter: the project carries another id. */
  function OtherId(id: string): Project -> bool {
    (p: Project) => p.id != id
  }

  /**
    Deleting (`projects.filter(...)`): no project with the id is left, every
    project with another id is kept, and nothing else comes in.
  */
  function DeleteProject(ps: seq<Project>, id: string): (r: seq<Project>)
    ensures FreshId(r, id)
    ensures forall i :: 0 <= i < |r| ==> r[i] in ps
    ensures forall i :: 0 <= i < |ps| && ps[i].id != id ==> ps[i] in r
    ensures FreshId(ps, id) ==> r == ps
  {
    var r := Filter(ps, OtherId(id));
    forall p
      ensures p in r <==> p in ps && p.id != id
    {
      FilterMembers(ps, OtherId(id), p);
    }
    r
  }

  /** Deleting keeps ids unique. */
  lemma DeleteKeepsUniqueIds(ps: seq<Project>, id: string)
    requires UniqueIds(ps)
    ensures UniqueIds(DeleteProject(ps, id))
  {
    var r := DeleteProject(ps, id);
    assert NoDuplicates(ps);
    FilterNoDuplicates(ps, OtherId(id));
    forall i, j | 0 <= i < j < |r|
      ensures r[i].id != r[j].id
    {
      var a :| 0 <= a < |ps| && ps[a] == r[i];
      var b :| 0 <= b < |ps| && ps[b] == r[j];
      assert a != b;
    }
  }

  /** Deleting distributes over concatenation, so the kept projects stay in order. */
  lemma DeleteAppend(a: seq<Project>, b: seq<Project>, id: string)
    ensures DeleteProject(a + b, id) == DeleteProject(a, id) + DeleteProject(b, id)
  {
    FilterAppend(a, b, OtherId(id));
  }

  /** Deleting the project just created restores the list. */
  lemma DeleteUndoesCreate(ps: seq<Project>, d: ProjectData, freshId: string)
    requires FreshId(ps, freshId)
    ensures DeleteProject(CreateProject(ps, d, freshId), freshId) == ps
  {
    var r := CreateProject(ps, d, freshId);
    assert r == ps + [r[|ps|]];
    DeleteAppend(ps, [r[|ps|]], freshId);
    assert [r[|ps|]][1..] == [];
  }

  /**
    Loading a just-created project into the dialog gives back the form it was
    created from, when that form's actions hold no EDIT or DELETE.
  */
  lemma LoadUndoesCreate(ps: seq<Project>, d: ProjectData, freshId: string)
    requires FreshId(ps, freshId)
    requires Edit !in d.actions && Delete !in d.actions
    ensures LoadForEdit(CreateProject(ps, d, freshId)[|ps|]) == d
  {
    StripManagedSuffix(d.actions);
    StripManagedNoop(d.actions);
  }

  /** With unique ids, deleting a project's id removes that project and only it. */
  lemma DeleteAt(ps: seq<Project>, k: nat)
    requires k < |ps| && UniqueIds(ps)
    ensures DeleteProject(ps, ps[k].id) == ps[..k] + ps[k + 1..]
  {
    FilterAt(ps, OtherId(ps[k].id), k);
  }

  /** Deleting the third seeded project leaves the other five in their order. */
  lemma DeleteThirdSeed()
    ensures var seed := SeedProjects();
      DeleteProject(seed, "3") == seed[..2] + seed[3..]
  {
    var seed := SeedProjects();
    assert seed[2].id == IdList(seed)[2] == "3";
    DeleteAt(seed, 2);
  }

  /** The page: whether the project dialog is open, the project it edits, the list. */
  datatype Page = Page(isModalOpen: bool, editingProject: Option<Project>, projects: seq<Project>)

  /** The page as first shown: dialog closed, nothing edited, the seed projects. */
  function InitialPage(): (pg: Page)
    ensures !pg.isModalOpen && pg.editingProject.None?
    ensures pg.projects == SeedProjects()
  {
    Page(false, None, SeedProjects())
  }

  /** `handleOpenModal`: the dialog opens, editing the given project or, without one, none. */
  function OpenModal(pg: Page, project: Option<Project>): (r: Page)
    ensures r.isModalOpen && r.editingProject == project && r.projects == pg.projects
  {
    pg.(editingProject := if project.Some? then project else None, isModalOpen := true)
  }

  /** `handleCloseModal`: the dialog closes and forgets the edited project. */
  function CloseModal(pg: Page): (r: Page)
    ensures !r.isModalOpen && r.editingProject.None? && r.projects == pg.projects
  {
    pg.(isModalOpen := false, editingProject := None)
  }

  /** Opening and then closing the dialog leaves the page as closing alone would. */
  lemma CloseUndoesOpen(pg: Page, project: Option<Project>)
    ensures CloseModal(OpenModal(pg, project)) == CloseModal(pg)
  {
  }

  /**
    `handleSaveProject`: an update of the edited project's id when a project
    is being edited, a creation with the fresh id otherwise; the dialog state
    is untouched.
  */
  function SaveProject(pg: Page, d: ProjectData, freshId: string): (r: Page)
    requires pg.editingProject.None? ==> FreshId(pg.projects, freshId)
    ensures r.isModalOpen == pg.isModalOpen && r.editingProject == pg.editingProject
    ensures pg.editingProject.Some? ==> r.projects == UpdateProject(pg.projects, pg.editingProject.value.id, d)
    ensures pg.editingProject.None? ==> r.projects == CreateProject(pg.projects, d, freshId)
  {
    match pg.editingProject
    case Some(p) => pg.(projects := UpdateProject(pg.projects, p.id, d))
    case None => pg.(projects := CreateProject(pg.projects, d, freshId))
  }

  /** `handleDeleteProject` on the page. */
  function DeleteFromPage(pg: Page, id: string): (r: Page)
    ensures r.isModalOpen == pg.isModalOpen && r.editingProject == pg.editingProject
    ensures FreshId(r.projects, id)
    ensures forall i :: 0 <= i < |pg.projects| && pg.projects[i].id != id ==> pg.projects[i] in r.projects
  {
    pg.(projects := DeleteProject(pg.projects, id))
  }

  /**
    The dialog's `handleSubmit`: save the form, reset it to the defaults and
    close the dialog.
  */
  function Submit(pg: Page, form: ProjectData, freshId: string): (r: (Page, ProjectData))
    requires pg.editingProject.None? ==> FreshId(pg.projects, freshId)
    ensures !r.0.isModalOpen && r.0.editingProject.None?
    ensures r.0.projects == SaveProject(pg, form, freshId).projects
    ensures r.1 == SyncForm(None)
  {
    (CloseModal(SaveProject(pg, form, freshId)), DefaultForm)
  }

  /**
    Creating a project through the dialog with the chosen actions `["OPEN"]`
    stores `["OPEN", "EDIT", "DELETE"]`.
  */
  lemma CreateAppendsManaged(pg: Page, freshId: string)
    requires pg.editingProject.None? && FreshId(pg.projects, freshId)
    ensures var after := Submit(pg, DefaultForm.(actions := ["OPEN"]), freshId).0;
      |after.projects| == |pg.projects| + 1
      && after.projects[|pg.projects|].actions == ["OPEN", "EDIT", "DELETE"]
  {
  }

  /**
    As written, saving an edit stores the form's actions without EDIT or
    DELETE: opening a project for editing and saving it untouched strips them
    from it.
  */
  lemma EditUnchangedStripsManaged(ps: seq<Project>, k: nat, freshId: string)
    requires k < |ps|
    ensures var pg := OpenModal(Page(false, None, ps), Some(ps[k]));
      var after := Submit(pg, SyncForm(pg.editingProject), freshId).0;
      after.projects[k].actions == StripManaged(ps[k].actions)
      && Edit !in after.projects[k].actions && Delete !in after.projects[k].actions
  {
  }

  /** Concretely: the first seeded project, edited and saved untouched, ends up with only OPEN and DETAILS. */
  lemma EditSeedLosesEditDelete(freshId: string)
    ensures var pg := OpenModal(InitialPage(), Some(SeedProjects()[0]));
      var after := Submit(pg, SyncForm(pg.editingProject), freshId).0;
      after.projects[0].actions == ["OPEN", "DETAILS"]
  {
    var seed := SeedProjects();
    EditUnchangedStripsManaged(seed, 0, freshId);
    StripManagedNoop(["OPEN", "DETAILS"]);
    assert seed[0].actions == ["OPEN", "DETAILS"] + ManagedActions;
    StripManagedSuffix(["OPEN", "DETAILS"]);
  }

  /**
    The update the dialog evidently intends ("EDIT and DELETE actions will be
    added automatically"): like `UpdateProject`, but the stored actions are
    the form's actions followed by EDIT, DELETE, as on creation.
  */
  function UpdateProjectIntended(ps: seq<Project>, editingId: string, d: ProjectData): (r: seq<Project>)
    ensures |r| == |ps|
    ensures forall i :: 0 <= i < |ps| ==> r[i].id == ps[i].id
    ensures forall i :: 0 <= i < |ps| && ps[i].id == editingId ==>
      DataOf(r[i]) == d.(actions := d.actions + ManagedActions)
    ensures forall i :: 0 <= i < |ps| && ps[i].id != editingId ==> r[i] == ps[i]
  {
    UpdateProject(ps, editingId, d.(actions := d.actions + ManagedActions))
  }

  /** Every project's actions end with EDIT, DELETE. */
  predicate AllManaged(ps: seq<Project>) {
    forall i :: 0 <= i < |ps| ==> EndsManaged(ps[i].actions)
  }

  /** `handleSaveProject` with the intended update. */
  function SaveProjectIntended(pg: Page, d: ProjectData, freshId: string): (r: Page)
    requires pg.editingProject.None? ==> FreshId(pg.projects, freshId)
    ensures r.isModalOpen == pg.isModalOpen && r.editingProject == pg.editingProject
    ensures AllManaged(pg.projects) ==> AllManaged(r.projects)
    ensures UniqueIds(pg.projects) ==> UniqueIds(r.projects)
  {
    match pg.editingProject
    case Some(p) =>
      var r := UpdateProjectIntended(pg.projects, p.id, d);
      assert forall i :: 0 <= i < |r| && pg.projects[i].id == p.id ==> r[i].actions == d.actions + ManagedActions;
      pg.(projects := r)
    case None =>
      var r := CreateProject(pg.projects, d, freshId);
      assert forall i :: 0 <= i < |pg.projects| ==> r[i] == r[..|pg.projects|][i];
      pg.(projects := r)
  }

  /**
    With the intended update, editing a project and saving it untouched
    changes nothing, for every project whose actions have the shape creation
    gives them.
  */
  lemma EditUnchangedIsNoop(ps: seq<Project>, k: nat)
    requires k < |ps| && UniqueIds(ps)
    requires Canonical(ps[k].actions)
    ensures UpdateProjectIntended(ps, ps[k].id, LoadForEdit(ps[k])) == ps
  {
    CanonicalStrip(ps[k].actions);
    var r := UpdateProjectIntended(ps, ps[k].id, LoadForEdit(ps[k]));
    forall i | 0 <= i < |ps|
      ensures r[i] == ps[i]
    {
      if i != k {
        assert ps[i].id != ps[k].id;
      } else {
        assert r[i].id == ps[i].id;
      }
    }
  }

  /** Concretely: with the intended update, the first seeded project survives an untouched edit. */
  lemma EditSeedKeepsEditDeleteIntended(freshId: string)
    ensures var pg := OpenModal(InitialPage(), Some(SeedProjects()[0]));
      var form := SyncForm(pg.editingProject);
      CloseModal(SaveProjectIntended(pg, form, freshId)).projects == SeedProjects()
  {
    var seed := SeedProjects();
    EditUnchangedIsNoop(seed, 0);
  }
}
