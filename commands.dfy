/** The write side of the project service as functions of the store: each
    operation gives the store after it and its result. A missing project or
    screenshot (`KeyNotFoundException` in the service) is `NotFound`, with
    the store left as it was. */
module Commands {
  import opened Common
  import opened Seqs
  import opened Sorting
  import opened Store
  import opened Queries
  import opened Paths

  /** A screenshot in a create or update request. */
  datatype ScreenshotInput = ScreenshotInput(url: string, altText: Option<string>, sortOrder: int)

  /** The body of a create or an update request. */
  datatype ProjectRequest = ProjectRequest(
    title: string, description: string, liveUrl: Option<string>, sourceUrl: Option<string>,
    tags: seq<string>, screenshots: seq<ScreenshotInput>)

  datatype Outcome<T> = Ok(value: T) | NotFound

  /** The screenshot rows of a request for project `pid`, with the ids the
      identity column hands out from `firstId` on. */
  function NewScreenshots(inputs: seq<ScreenshotInput>, pid: int, firstId: int): (r: seq<Screenshot>)
    ensures |r| == |inputs|
    ensures forall i :: 0 <= i < |inputs| ==>
      r[i] == Screenshot(firstId + i, pid, inputs[i].url, inputs[i].altText, inputs[i].sortOrder)
  {
    seq(|inputs|, i requires 0 <= i < |inputs| =>
      Screenshot(firstId + i, pid, inputs[i].url, inputs[i].altText, inputs[i].sortOrder))
  }

  /** The response's screenshots are the request's, URL, alternative text
      and sort order copied verbatim, in request order. */
  predicate CopiesScreenshots(dtos: seq<ScreenshotDto>, inputs: seq<ScreenshotInput>) {
    && |dtos| == |inputs|
    && forall i :: 0 <= i < |inputs| ==>
         dtos[i].url == inputs[i].url && dtos[i].altText == inputs[i].altText
         && dtos[i].sortOrder == inputs[i].sortOrder
  }

  /* ---------------------------------------------------------------- */
  /*  Create                                                           */
  /* ---------------------------------------------------------------- */

  /** `CreateAsync` at time `now`: a new project row with the next id, its
      tags resolved by name, its screenshots and join rows inserted. */
  function Create(db: Db, req: ProjectRequest, now: int): (r: (Db, ProjectResponse))
    ensures r.1.id == db.nextProjectId && r.1.createdAt == now
    ensures r.1.title == req.title && r.1.description == req.description
    ensures r.1.liveUrl == req.liveUrl && r.1.sourceUrl == req.sourceUrl
    ensures r.1.tags == req.tags
    ensures CopiesScreenshots(r.1.screenshots, req.screenshots)
  {
    var pid := db.nextProjectId;
    var p := Project(pid, req.title, req.description, req.liveUrl, req.sourceUrl, now);
    var res := ResolveTags(db.tags, req.tags, db.nextTagId);
    var shots := NewScreenshots(req.screenshots, pid, db.nextScreenshotId);
    var db' := Db(
      db.projects + [p], db.tags + res.created,
      db.projectTags + Links(pid, Map(res.resolved, TagId)),
      db.screenshots + shots,
      pid + 1, db.nextTagId + |res.created|, db.nextScreenshotId + |shots|);
    assert Map(res.resolved, TagName) == req.tags;
    (db', ToResponse(p, Map(res.resolved, TagName), shots))
  }

  /** The state and result of a create, written out. */
  lemma CreateResult(db: Db, req: ProjectRequest, now: int, p: Project, res: Resolution, shots: seq<Screenshot>)
    requires p == Project(db.nextProjectId, req.title, req.description, req.liveUrl, req.sourceUrl, now)
    requires res == ResolveTags(db.tags, req.tags, db.nextTagId)
    requires shots == NewScreenshots(req.screenshots, db.nextProjectId, db.nextScreenshotId)
    ensures Create(db, req, now).0 ==
      Db(db.projects + [p], db.tags + res.created,
         db.projectTags + Links(p.id, Map(res.resolved, TagId)), db.screenshots + shots,
         p.id + 1, db.nextTagId + |res.created|, db.nextScreenshotId + |shots|)
    ensures Create(db, req, now).1 == ToResponse(p, Map(res.resolved, TagName), shots)
  {
  }
  /* ---------------------------------------------------------------- */
  /*  Update                                                           */
  /* ---------------------------------------------------------------- */

  /** `UpdateAsync`: the four scalar columns overwritten, the join rows of
      the project replaced by those of the request's tags (tag rows stay),
      the project's screenshots replaced by the request's. */
  function Update(db: Db, id: int, req: ProjectRequest): (r: (Db, Outcome<ProjectResponse>))
    ensures r.1.NotFound? <==> id !in ProjectIds(db)
    ensures r.1.NotFound? ==> r.0 == db
    ensures r.1.Ok? ==> r.1.value.id == id && r.1.value.tags == req.tags
    ensures r.1.Ok? ==> r.1.value.title == req.title && r.1.value.description == req.description
    ensures r.1.Ok? ==> r.1.value.liveUrl == req.liveUrl && r.1.value.sourceUrl == req.sourceUrl
    ensures r.1.Ok? ==> CopiesScreenshots(r.1.value.screenshots, req.screenshots)
  {
    match FindProject(db, id)
    case None => (db, NotFound)
    case Some(k) =>
      var p := db.projects[k].(title := req.title, description := req.description,
                               liveUrl := req.liveUrl, sourceUrl := req.sourceUrl);
      var res := ResolveTags(db.tags, req.tags, db.nextTagId);
      var shots := NewScreenshots(req.screenshots, id, db.nextScreenshotId);
      var db' := db.(
        projects := db.projects[k := p], tags := db.tags + res.created,
        projectTags := Filter(db.projectTags, LinkNotOf(id)) + Links(id, Map(res.resolved, TagId)),
        screenshots := Filter(db.screenshots, NotOwnedBy(id)) + shots,
        nextTagId := db.nextTagId + |res.created|,
        nextScreenshotId := db.nextScreenshotId + |shots|);
      assert Map(res.resolved, TagName) == req.tags;
      (db', Ok(ToResponse(p, Map(res.resolved, TagName), shots)))
  }

  /* ---------------------------------------------------------------- */
  /*  Delete                                                           */
  /* ---------------------------------------------------------------- */

  /** `DeleteAsync`: the project row goes, and with it (cascade) its
      screenshots and its join rows; tag rows stay. */
  function Delete(db: Db, id: int): (r: (Db, Outcome<()>))
    ensures r.1.NotFound? <==> id !in ProjectIds(db)
    ensures r.1.NotFound? ==> r.0 == db
    ensures r.0.tags == db.tags
    ensures forall i :: 0 <= i < |r.0.screenshots| ==> r.0.screenshots[i].projectId != id || r.1.NotFound?
  {
    match FindProject(db, id)
    case None => (db, NotFound)
    case Some(k) =>
      (db.(projects := db.projects[..k] + db.projects[k + 1..],
           projectTags := Filter(db.projectTags, LinkNotOf(id)),
           screenshots := Filter(db.screenshots, NotOwnedBy(id))), Ok(()))
  }

  /* ---------------------------------------------------------------- */
  /*  Screenshots                                                      */
  /* ---------------------------------------------------------------- */

  function ShotOf(projectId: int, screenshotId: int): Screenshot -> bool {
    (s: Screenshot) => s.id == screenshotId && s.projectId == projectId
  }

  /** `DeleteScreenshotAsync`: the screenshot with both ids matching is
      removed, and its file path under `root` is the result. */
  function DeleteScreenshot(db: Db, root: string, projectId: int, screenshotId: int): (r: (Db, Outcome<string>))
    ensures r.1.NotFound? <==>
      forall i :: 0 <= i < |db.screenshots| ==> !(db.screenshots[i].id == screenshotId && db.screenshots[i].projectId == projectId)
    ensures r.1.NotFound? ==> r.0 == db
    ensures r.1.Ok? ==> |r.0.screenshots| == |db.screenshots| - 1
    ensures r.0.projects == db.projects && r.0.tags == db.tags && r.0.projectTags == db.projectTags
  {
    match FirstIndex(db.screenshots, ShotOf(projectId, screenshotId))
    case None => (db, NotFound)
    case Some(k) =>
      (db.(screenshots := db.screenshots[..k] + db.screenshots[k + 1..]),
       Ok(DeletePath(root, db.screenshots[k].url)))
  }

  /** The last position of `x` in `ids`: later assignments win. */
  function LastIndexOf(ids: seq<int>, x: int): (r: nat)
    requires x in ids
    ensures r < |ids| && ids[r] == x
    ensures forall j :: r < j < |ids| ==> ids[j] != x
    decreases |ids|
  {
    if ids[|ids| - 1] == x then |ids| - 1
    else
      assert x in ids[..|ids| - 1];
      LastIndexOf(ids[..|ids| - 1], x)
  }

  /** The new sort order of one screenshot row after a reorder. */
  function Renumber(projectId: int, ids: seq<int>): Screenshot -> Screenshot {
    (s: Screenshot) =>
      if s.projectId == projectId && s.id in ids then s.(sortOrder := LastIndexOf(ids, s.id)) else s
  }

  /** Every listed id names a screenshot of the project. */
  predicate AllOwned(db: Db, projectId: int, ids: seq<int>) {
    forall i :: 0 <= i < |ids| ==> FirstIndex(db.screenshots, ShotOf(projectId, ids[i])).Some?
  }

  /** `ReorderScreenshotsAsync`: the screenshot `ids[i]` gets sort order `i`;
      the result is all of the project's screenshots by sort order. */
  function Reorder(db: Db, projectId: int, ids: seq<int>): (r: (Db, Outcome<seq<ScreenshotDto>>))
    ensures r.1.NotFound? <==> projectId !in ProjectIds(db) || !AllOwned(db, projectId, ids)
    ensures r.1.NotFound? ==> r.0 == db
    ensures r.1.Ok? ==> DtosSorted(r.1.value) && |r.1.value| == |ProjectScreenshots(db, projectId)|
    ensures r.0.projects == db.projects && r.0.tags == db.tags && r.0.projectTags == db.projectTags
  {
    if FindProject(db, projectId).None? || !AllOwned(db, projectId, ids) then (db, NotFound)
    else
      var db' := db.(screenshots := Map(db.screenshots, Renumber(projectId, ids)));
      assert |ProjectScreenshots(db', projectId)| == |ProjectScreenshots(db, projectId)| by {
        RenumberKeepsOwners(db.screenshots, projectId, ids);
      }
      (db', Ok(Loaded(db', db.projects[FindProject(db, projectId).value]).screenshots))
  }

  lemma {:induction false} RenumberKeepsOwners(shots: seq<Screenshot>, projectId: int, ids: seq<int>)
    ensures |Filter(Map(shots, Renumber(projectId, ids)), OwnedBy(projectId))| == |Filter(shots, OwnedBy(projectId))|
    decreases |shots|
  {
    if |shots| > 0 {
      var n := |shots| - 1;
      assert Map(shots, Renumber(projectId, ids))[..n] == Map(shots[..n], Renumber(projectId, ids));
      RenumberKeepsOwners(shots[..n], projectId, ids);
    }
  }

  /** `UploadScreenshotAsync` with a fresh `guid`: the file is written to the
      result path, and a screenshot row with the public URL is inserted. */
  function Upload(db: Db, root: string, projectId: int, guid: string, clientFileName: string,
                  altText: Option<string>, sortOrder: int): (r: (Db, Outcome<(string, ScreenshotDto)>))
    ensures r.1.NotFound? <==> projectId !in ProjectIds(db)
    ensures r.1.NotFound? ==> r.0 == db
    ensures r.1.Ok? ==> r.1.value.1.url == UploadUrl(projectId, StoredFileName(guid, clientFileName))
    ensures r.1.Ok? ==> r.1.value.0 == UploadPath(root, projectId, StoredFileName(guid, clientFileName))
    ensures r.1.Ok? ==> r.1.value.1.altText == altText && r.1.value.1.sortOrder == sortOrder
    ensures r.1.Ok? ==> r.1.value.1.id == db.nextScreenshotId
    ensures r.1.Ok? ==> r.0.nextScreenshotId == db.nextScreenshotId + 1
    ensures r.1.Ok? ==>
      r.0.screenshots == db.screenshots + [Screenshot(db.nextScreenshotId, projectId, r.1.value.1.url, altText, sortOrder)]
    ensures r.0.projects == db.projects && r.0.tags == db.tags && r.0.projectTags == db.projectTags
    ensures r.0.nextProjectId == db.nextProjectId && r.0.nextTagId == db.nextTagId
  {
    if FindProject(db, projectId).None? then (db, NotFound)
    else
      var fileName := StoredFileName(guid, clientFileName);
      var shot := Screenshot(db.nextScreenshotId, projectId, UploadUrl(projectId, fileName), altText, sortOrder);
      (db.(screenshots := db.screenshots + [shot], nextScreenshotId := db.nextScreenshotId + 1),
       Ok((UploadPath(root, projectId, fileName), ToDto(shot))))
  }

  /* ---------------------------------------------------------------- */
  /*  Create: the invariant, the tag table, reading the project back   */
  /* ---------------------------------------------------------------- */

  /** Screenshot rows keep their invariant when new rows with the next ids,
      owned by existing projects, are appended. */
  lemma AppendScreenshotsValid(db: Db, shots: seq<Screenshot>, db': Db)
    requires ScreenshotsValid(db) && ProjectIds(db) <= ProjectIds(db')
    requires db'.screenshots == db.screenshots + shots
    requires db'.nextScreenshotId == db.nextScreenshotId + |shots|
    requires forall i :: 0 <= i < |shots| ==> shots[i].id == db.nextScreenshotId + i
    requires forall i :: 0 <= i < |shots| ==> shots[i].projectId in ProjectIds(db')
    ensures ScreenshotsValid(db')
  {
    var all := db'.screenshots;
    forall i, j | 0 <= i < j < |all| ensures all[i].id != all[j].id {
      if j >= |db.screenshots| {
        assert all[j] == shots[j - |db.screenshots|];
        if i >= |db.screenshots| {
          assert all[i] == shots[i - |db.screenshots|];
        } else {
          assert all[i] == db.screenshots[i];
        }
      }
    }
    forall i | 0 <= i < |all| ensures 1 <= all[i].id < db'.nextScreenshotId && all[i].projectId in ProjectIds(db') {
      if i >= |db.screenshots| {
        assert all[i] == shots[i - |db.screenshots|];
      } else {
        assert all[i] == db.screenshots[i];
      }
    }
  }

  /** The join table keeps its invariant when the rows of a new project, to
      distinct existing tags, are appended. */
  lemma AppendLinksValid(db: Db, pid: int, rows: seq<Tag>, db': Db)
    requires ProjectTagsValid(db) && ProjectIds(db) <= ProjectIds(db') && TagIds(db.tags) <= TagIds(db'.tags)
    requires forall i :: 0 <= i < |db.projectTags| ==> db.projectTags[i].projectId != pid
    requires pid in ProjectIds(db')
    requires DistinctBy(rows, TagId) && forall i :: 0 <= i < |rows| ==> rows[i] in db'.tags
    requires db'.projectTags == db.projectTags + Links(pid, Map(rows, TagId))
    ensures ProjectTagsValid(db')
  {
    var old_ := db.projectTags;
    var links := Links(pid, Map(rows, TagId));
    var all := db'.projectTags;
    forall i, j | 0 <= i < j < |all| ensures all[i] != all[j] {
      if j >= |old_| {
        assert all[j] == links[j - |old_|];
        if i >= |old_| {
          assert all[i] == links[i - |old_|];
          assert TagId(rows[i - |old_|]) != TagId(rows[j - |old_|]);
        } else {
          assert all[i] == old_[i];
        }
      }
    }
    forall i | 0 <= i < |all| ensures all[i].projectId in ProjectIds(db') && all[i].tagId in TagIds(db'.tags) {
      if i >= |old_| {
        assert all[i] == links[i - |old_|];
        assert rows[i - |old_|] in db'.tags;
      } else {
        assert all[i] == old_[i];
      }
    }
  }

  /** The project rows keep their invariant when a row with the next id is
      appended. */
  lemma AppendProjectValid(db: Db, p: Project, db': Db)
    requires ProjectsValid(db) && p.id == db.nextProjectId
    requires db'.projects == db.projects + [p] && db'.nextProjectId == db.nextProjectId + 1
    ensures ProjectsValid(db') && ProjectIds(db') == ProjectIds(db) + {p.id}
  {
    forall i | 0 <= i < |db'.projects| ensures 1 <= db'.projects[i].id < db'.nextProjectId {
      if i < |db.projects| { assert db'.projects[i] == db.projects[i]; }
    }
    forall i, j | 0 <= i < j < |db'.projects| ensures db'.projects[i].id != db'.projects[j].id {
      assert db'.projects[i] == db.projects[i];
    }
  }

  /** No existing row mentions the project id the counter hands out next. */
  lemma NextProjectIdUnused(db: Db)
    requires Valid(db)
    ensures db.nextProjectId !in ProjectIds(db)
    ensures forall i :: 0 <= i < |db.projectTags| ==> db.projectTags[i].projectId != db.nextProjectId
    ensures forall i :: 0 <= i < |db.screenshots| ==> db.screenshots[i].projectId != db.nextProjectId
  {
  }

  /** Creating a project keeps the store invariant, provided the request
      names each tag once. */
  lemma CreateKeepsValid(db: Db, req: ProjectRequest, now: int)
    requires Valid(db) && NoDuplicates(req.tags)
    ensures Valid(Create(db, req, now).0)
  {
    var p := NewProject(db, req, now);
    var shots := NewScreenshots(req.screenshots, p.id, db.nextScreenshotId);
    CreateResult(db, req, now, p, ResolveTags(db.tags, req.tags, db.nextTagId), shots);
    CreatedValid(db, req.tags, p, shots, Create(db, req, now).0);
  }

  /** The store with a row of the next id appended, its join rows to the
      tags its names resolve to, the staged tag rows and its screenshots
      under the next ids keeps the invariant. */
  lemma CreatedValid(db: Db, names: seq<string>, p: Project, shots: seq<Screenshot>, db': Db)
    requires Valid(db) && NoDuplicates(names) && p.id == db.nextProjectId
    requires forall i :: 0 <= i < |shots| ==> shots[i].id == db.nextScreenshotId + i && shots[i].projectId == p.id
    requires var res := ResolveTags(db.tags, names, db.nextTagId);
      db' == Db(db.projects + [p], db.tags + res.created,
                db.projectTags + Links(p.id, Map(res.resolved, TagId)), db.screenshots + shots,
                p.id + 1, db.nextTagId + |res.created|, db.nextScreenshotId + |shots|)
    ensures Valid(db')
  {
    var res := ResolveTags(db.tags, names, db.nextTagId);
    AppendProjectValid(db, p, db');
    ResolveTagsKeepsTagsValid(db.tags, db.nextTagId, names);
    ResolvedTagsAreRows(db.tags, db.nextTagId, names);
    TagIdsGrow(db.tags, res.created);
    AppendScreenshotsValid(db, shots, db');
    NextProjectIdUnused(db);
    AppendLinksValid(db, p.id, res.resolved, db');
  }


  /** The tag rows after a create are the old ones followed by one new row
      for each requested name no tag row carried: a known name is reused. */
  lemma CreateTagRows(db: Db, req: ProjectRequest, now: int)
    ensures Map(Create(db, req, now).0.tags, TagName) == Map(db.tags, TagName) + Filter(req.tags, Unseen(db.tags))
  {
    var res := ResolveTags(db.tags, req.tags, db.nextTagId);
    MapConcat(db.tags, res.created, TagName);
    ResolveTagsCreatesUnseen(db.tags, req.tags, db.nextTagId);
  }

  /** The loaded screenshots of a project whose rows are the old ones and
      `shots`, when the old rows do not belong to it and `shots` all do. */
  lemma OwnScreenshotsAppended(old_: seq<Screenshot>, shots: seq<Screenshot>, pid: int)
    requires forall i :: 0 <= i < |old_| ==> old_[i].projectId != pid
    requires forall i :: 0 <= i < |shots| ==> shots[i].projectId == pid
    ensures Filter(old_ + shots, OwnedBy(pid)) == shots
  {
    FilterConcat(old_, shots, OwnedBy(pid));
    FilterNone(old_, OwnedBy(pid));
    FilterAll(shots, OwnedBy(pid));
  }

  /** The screenshots of another project are unaffected by appending rows
      that are not its own. */
  lemma OtherScreenshotsAppended(old_: seq<Screenshot>, shots: seq<Screenshot>, q: int)
    requires forall i :: 0 <= i < |shots| ==> shots[i].projectId != q
    ensures Filter(old_ + shots, OwnedBy(q)) == Filter(old_, OwnedBy(q))
  {
    FilterConcat(old_, shots, OwnedBy(q));
    FilterNone(shots, OwnedBy(q));
  }

  /** The row a create appends. */
  function NewProject(db: Db, req: ProjectRequest, now: int): Project {
    Project(db.nextProjectId, req.title, req.description, req.liveUrl, req.sourceUrl, now)
  }

  /** After a create, the new id finds the appended row. */
  lemma CreateFindsNew(db: Db, req: ProjectRequest, now: int)
    requires Valid(db)
    ensures var db' := Create(db, req, now).0;
      FindProject(db', db.nextProjectId) == Some(|db.projects|) && |db.projects| < |db'.projects|
      && db'.projects[|db.projects|] == NewProject(db, req, now)
  {
    var db' := Create(db, req, now).0;
    NextProjectIdUnused(db);
    assert db'.projects == db.projects + [NewProject(db, req, now)];
    FirstIndexAt(db'.projects, HasId(db.nextProjectId), |db.projects|);
  }

  /** After a create, the new project's tags are the requested names. */
  lemma CreateTagsOfNew(db: Db, req: ProjectRequest, now: int)
    requires Valid(db) && NoDuplicates(req.tags)
    ensures ProjectTagNames(Create(db, req, now).0, db.nextProjectId) == req.tags
  {
    NextProjectIdUnused(db);
    AppendedTagNames(db, db.nextProjectId, req.tags, Create(db, req, now).0);
  }


  /** After a create, the new project's screenshots are the request's. */
  lemma CreateShotsOfNew(db: Db, req: ProjectRequest, now: int)
    requires Valid(db)
    ensures ProjectScreenshots(Create(db, req, now).0, db.nextProjectId)
         == NewScreenshots(req.screenshots, db.nextProjectId, db.nextScreenshotId)
  {
    var shots := NewScreenshots(req.screenshots, db.nextProjectId, db.nextScreenshotId);
    NextProjectIdUnused(db);
    assert Create(db, req, now).0.screenshots == db.screenshots + shots;
    OwnScreenshotsAppended(db.screenshots, shots, db.nextProjectId);
  }

  /** Reading a created project back gives the create response, with the
      screenshots ordered by sort order. */
  lemma CreateThenGetById(db: Db, req: ProjectRequest, now: int)
    requires Valid(db) && NoDuplicates(req.tags)
    ensures var r := Create(db, req, now);
      GetById(r.0, r.1.id) == Some(r.1.(screenshots := SortBy(r.1.screenshots, DtoSortOrder)))
  {
    var r := Create(db, req, now);
    var p := NewProject(db, req, now);
    var shots := NewScreenshots(req.screenshots, db.nextProjectId, db.nextScreenshotId);
    CreateFindsNew(db, req, now);
    CreateTagsOfNew(db, req, now);
    CreateShotsOfNew(db, req, now);
    assert GetById(r.0, p.id) == Some(Loaded(r.0, p));
    assert r.1.screenshots == Map(shots, ToDto);
    SortByMap(shots, ToDto, SortOrderKey, DtoSortOrder);
  }

  /** A project loads alike from two stores that agree on its tags and
      screenshots. */
  lemma LoadedAlike(db: Db, db': Db, p: Project)
    requires ProjectTagNames(db', p.id) == ProjectTagNames(db, p.id)
    requires ProjectScreenshots(db', p.id) == ProjectScreenshots(db, p.id)
    ensures Loaded(db', p) == Loaded(db, p)
  {
  }

  /** A row found at `m` in one store and at `m2` in another loads alike
      when the stores agree on its tags and screenshots. */
  lemma RowLoadsAlike(db: Db, db': Db, m: int, m2: int)
    requires ProjectsValid(db) && ProjectsValid(db')
    requires 0 <= m < |db.projects| && 0 <= m2 < |db'.projects| && db'.projects[m2] == db.projects[m]
    requires ProjectTagNames(db', db.projects[m].id) == ProjectTagNames(db, db.projects[m].id)
    requires ProjectScreenshots(db', db.projects[m].id) == ProjectScreenshots(db, db.projects[m].id)
    ensures GetById(db', db.projects[m].id) == GetById(db, db.projects[m].id)
  {
    GetByIdLoadsRow(db, m);
    GetByIdLoadsRow(db', m2);
    LoadedAlike(db, db', db.projects[m]);
  }

  /** Another project's tag names survive appending join rows of `pid`
      and tag rows. */
  lemma OtherTagNamesAppended(db: Db, db': Db, pid: int, ids: seq<int>, more: seq<Tag>, q: int)
    requires ProjectTagsValid(db) && q != pid
    requires db'.projectTags == db.projectTags + Links(pid, ids)
    requires db'.tags == db.tags + more
    ensures ProjectTagNames(db', q) == ProjectTagNames(db, q)
  {
    var links := Links(pid, ids);
    TagIdsOfConcat(db.projectTags, links, q);
    TagIdsOfNone(links, q);
    assert TagIdsOf(db'.projectTags, q) == TagIdsOf(db.projectTags, q);
    ProjectTagNamesExtend(db, more, q);
  }

  /** Another project's tags survive a create. */
  lemma CreateKeepsOtherTags(db: Db, req: ProjectRequest, now: int, q: int)
    requires ProjectTagsValid(db) && q != db.nextProjectId
    ensures ProjectTagNames(Create(db, req, now).0, q) == ProjectTagNames(db, q)
  {
    var db' := Create(db, req, now).0;
    var res := ResolveTags(db.tags, req.tags, db.nextTagId);
    assert db'.projectTags == db.projectTags + Links(db.nextProjectId, Map(res.resolved, TagId));
    assert db'.tags == db.tags + res.created;
    OtherTagNamesAppended(db, db', db.nextProjectId, Map(res.resolved, TagId), res.created, q);
  }

  /** Another project's screenshots survive a create. */
  lemma CreateKeepsOtherShots(db: Db, req: ProjectRequest, now: int, q: int)
    requires q != db.nextProjectId
    ensures ProjectScreenshots(Create(db, req, now).0, q) == ProjectScreenshots(db, q)
  {
    var shots := NewScreenshots(req.screenshots, db.nextProjectId, db.nextScreenshotId);
    assert Create(db, req, now).0.screenshots == db.screenshots + shots;
    OtherScreenshotsAppended(db.screenshots, shots, q);
  }

  /** Creating a project changes what is read back for no other id. */
  lemma CreateKeepsOthers(db: Db, req: ProjectRequest, now: int, q: int)
    requires ProjectsValid(db) && ProjectTagsValid(db) && q != db.nextProjectId
    ensures GetById(Create(db, req, now).0, q) == GetById(db, q)
  {
    var p := NewProject(db, req, now);
    CreateResult(db, req, now, p, ResolveTags(db.tags, req.tags, db.nextTagId),
                 NewScreenshots(req.screenshots, p.id, db.nextScreenshotId));
    CreateKeepsOtherTags(db, req, now, q);
    CreateKeepsOtherShots(db, req, now, q);
    AppendedRowKeepsOthers(db, Create(db, req, now).0, p, q);
  }

  /** Appending a project row of the next id changes what is read back for
      no other id whose tags and screenshots stay the same. */
  lemma AppendedRowKeepsOthers(db: Db, db': Db, p: Project, q: int)
    requires ProjectsValid(db) && p.id == db.nextProjectId && q != p.id
    requires db'.projects == db.projects + [p] && db'.nextProjectId == db.nextProjectId + 1
    requires ProjectTagNames(db', q) == ProjectTagNames(db, q)
    requires ProjectScreenshots(db', q) == ProjectScreenshots(db, q)
    ensures GetById(db', q) == GetById(db, q)
  {
    AppendProjectValid(db, p, db');
    if q in ProjectIds(db) {
      var m := FindProject(db, q).value;
      assert db'.projects[m] == db.projects[m];
      RowLoadsAlike(db, db', m, m);
    }
  }




  /* ---------------------------------------------------------------- */
  /*  Update and delete: the invariant and reading back                */
  /* ---------------------------------------------------------------- */

  /** Overwriting a project row's columns but not its id keeps the project
      invariant and the set of ids. */
  lemma ReplaceProjectRow(db: Db, k: int, p: Project, db': Db)
    requires ProjectsValid(db) && 0 <= k < |db.projects| && p.id == db.projects[k].id
    requires db'.projects == db.projects[k := p] && db'.nextProjectId == db.nextProjectId
    ensures ProjectsValid(db') && ProjectIds(db') == ProjectIds(db)
  {
    forall x | x in ProjectIds(db) ensures x in ProjectIds(db') {
      var i :| 0 <= i < |db.projects| && db.projects[i].id == x;
      assert db'.projects[i].id == x;
    }
  }

  /** Dropping the screenshots of one project keeps the screenshot
      invariant for the projects that remain. */
  lemma DropScreenshotsValid(db: Db, db': Db, id: int)
    requires ScreenshotsValid(db)
    requires db'.screenshots == Filter(db.screenshots, NotOwnedBy(id))
    requires db'.nextScreenshotId == db.nextScreenshotId
    requires ProjectIds(db) - {id} <= ProjectIds(db')
    ensures ScreenshotsValid(db')
  {
    assert DistinctBy(db.screenshots, ScreenshotId);
    FilterDistinctBy(db.screenshots, NotOwnedBy(id), ScreenshotId);
    FilterMembers(db.screenshots, NotOwnedBy(id));
    forall i | 0 <= i < |db'.screenshots|
      ensures 1 <= db'.screenshots[i].id < db'.nextScreenshotId && db'.screenshots[i].projectId in ProjectIds(db')
    {
      var s := db'.screenshots[i];
      var j :| 0 <= j < |db.screenshots| && db.screenshots[j] == s;
      assert NotOwnedBy(id)(s);
    }
  }

  /** Dropping the join rows of one project keeps the join invariant for
      the projects that remain. */
  lemma DropLinksValid(db: Db, db': Db, id: int)
    requires ProjectTagsValid(db)
    requires db'.projectTags == Filter(db.projectTags, LinkNotOf(id))
    requires ProjectIds(db) - {id} <= ProjectIds(db') && TagIds(db.tags) <= TagIds(db'.tags)
    ensures ProjectTagsValid(db')
  {
    FilterNoDuplicates(db.projectTags, LinkNotOf(id));
    FilterMembers(db.projectTags, LinkNotOf(id));
    forall i | 0 <= i < |db'.projectTags|
      ensures db'.projectTags[i].projectId in ProjectIds(db') && db'.projectTags[i].tagId in TagIds(db'.tags)
    {
      var l := db'.projectTags[i];
      var j :| 0 <= j < |db.projectTags| && db.projectTags[j] == l;
      assert LinkNotOf(id)(l);
    }
  }

  /** The store between the two halves of an update: the project row
      rewritten, the project's join rows and screenshots dropped. */
  function UpdateCleared(db: Db, k: int, id: int, req: ProjectRequest): Db
    requires 0 <= k < |db.projects|
  {
    var p := db.projects[k].(title := req.title, description := req.description,
                             liveUrl := req.liveUrl, sourceUrl := req.sourceUrl);
    db.(projects := db.projects[k := p],
        projectTags := Filter(db.projectTags, LinkNotOf(id)),
        screenshots := Filter(db.screenshots, NotOwnedBy(id)))
  }

  /** An update is the cleared store with the new rows appended. */
  lemma UpdateShape(db: Db, id: int, req: ProjectRequest)
    requires id in ProjectIds(db)
    ensures var k := FindProject(db, id).value;
      var mid := UpdateCleared(db, k, id, req);
      var res := ResolveTags(mid.tags, req.tags, mid.nextTagId);
      var shots := NewScreenshots(req.screenshots, id, mid.nextScreenshotId);
      Update(db, id, req).0 == mid.(
        tags := mid.tags + res.created,
        projectTags := mid.projectTags + Links(id, Map(res.resolved, TagId)),
        screenshots := mid.screenshots + shots,
        nextTagId := mid.nextTagId + |res.created|,
        nextScreenshotId := mid.nextScreenshotId + |shots|)
  {
  }

  lemma ClearedValid(db: Db, id: int, req: ProjectRequest)
    requires Valid(db) && id in ProjectIds(db)
    ensures var mid := UpdateCleared(db, FindProject(db, id).value, id, req);
      && Valid(mid) && ProjectIds(mid) == ProjectIds(db)
      && forall i :: 0 <= i < |mid.projectTags| ==> mid.projectTags[i].projectId != id
  {
    var k := FindProject(db, id).value;
    var mid := UpdateCleared(db, k, id, req);
    ReplaceProjectRow(db, k, mid.projects[k], mid);
    DropScreenshotsValid(db, mid, id);
    DropLinksValid(db, mid, id);
  }

  /** The cleared store's project rows differ from the old ones only in
      the columns of the updated row. */
  lemma ClearedRows(db: Db, id: int, req: ProjectRequest)
    requires id in ProjectIds(db)
    ensures var mid := UpdateCleared(db, FindProject(db, id).value, id, req);
      && |mid.projects| == |db.projects|
      && (forall i :: 0 <= i < |db.projects| ==> mid.projects[i].id == db.projects[i].id)
      && (forall i :: 0 <= i < |db.projects| && db.projects[i].id != id ==> mid.projects[i] == db.projects[i])
  {
  }

  /** Updating a project keeps the store invariant, provided the request
      names each tag once. */
  lemma UpdateKeepsValid(db: Db, id: int, req: ProjectRequest)
    requires Valid(db) && NoDuplicates(req.tags)
    ensures Valid(Update(db, id, req).0)
  {
    if id in ProjectIds(db) {
      var mid := UpdateCleared(db, FindProject(db, id).value, id, req);
      UpdateShape(db, id, req);
      ClearedValid(db, id, req);
      RefilledValid(mid, id, req, Update(db, id, req).0);
    }
  }

  /** The second half of an update, the new rows appended to the cleared
      store, restores the invariant. */
  lemma RefilledValid(mid: Db, id: int, req: ProjectRequest, db': Db)
    requires Valid(mid) && id in ProjectIds(mid) && NoDuplicates(req.tags)
    requires forall i :: 0 <= i < |mid.projectTags| ==> mid.projectTags[i].projectId != id
    requires var res := ResolveTags(mid.tags, req.tags, mid.nextTagId);
      var shots := NewScreenshots(req.screenshots, id, mid.nextScreenshotId);
      db' == mid.(
        tags := mid.tags + res.created,
        projectTags := mid.projectTags + Links(id, Map(res.resolved, TagId)),
        screenshots := mid.screenshots + shots,
        nextTagId := mid.nextTagId + |res.created|,
        nextScreenshotId := mid.nextScreenshotId + |shots|)
    ensures Valid(db')
  {
    var res := ResolveTags(mid.tags, req.tags, mid.nextTagId);
    ResolveTagsKeepsTagsValid(mid.tags, mid.nextTagId, req.tags);
    ResolvedTagsAreRows(mid.tags, mid.nextTagId, req.tags);
    TagIdsGrow(mid.tags, res.created);
    RefillParts(mid, id, res.resolved, NewScreenshots(req.screenshots, id, mid.nextScreenshotId), db');
  }

  /** Appending a tag row loses no tag id. */
  lemma TagIdsGrow(tags: seq<Tag>, more: seq<Tag>)
    ensures TagIds(tags) <= TagIds(tags + more)
  {
    forall x | x in TagIds(tags) ensures x in TagIds(tags + more) {
      var i :| 0 <= i < |tags| && tags[i].id == x;
      assert (tags + more)[i] == tags[i];
    }
  }

  /** The cleared store with screenshots of `id` under the next ids and join
      rows from `id` to distinct tag rows appended keeps the invariant. */
  lemma RefillParts(mid: Db, id: int, rows: seq<Tag>, shots: seq<Screenshot>, db': Db)
    requires ProjectsValid(mid) && ScreenshotsValid(mid) && ProjectTagsValid(mid) && id in ProjectIds(mid)
    requires TagsValid(db'.tags, db'.nextTagId) && TagIds(mid.tags) <= TagIds(db'.tags)
    requires db'.projects == mid.projects && db'.nextProjectId == mid.nextProjectId
    requires forall i :: 0 <= i < |mid.projectTags| ==> mid.projectTags[i].projectId != id
    requires DistinctBy(rows, TagId) && forall i :: 0 <= i < |rows| ==> rows[i] in db'.tags
    requires db'.projectTags == mid.projectTags + Links(id, Map(rows, TagId))
    requires db'.screenshots == mid.screenshots + shots
    requires db'.nextScreenshotId == mid.nextScreenshotId + |shots|
    requires forall i :: 0 <= i < |shots| ==> shots[i].id == mid.nextScreenshotId + i && shots[i].projectId == id
    ensures Valid(db')
  {
    SameProjectsValid(mid, db');
    assert ProjectIds(db') == ProjectIds(mid);
    AppendScreenshotsValid(mid, shots, db');
    AppendLinksValid(mid, id, rows, db');
  }

  /** After an update, the project's tags are the requested names. */
  lemma UpdateTagsOf(db: Db, id: int, req: ProjectRequest)
    requires Valid(db) && NoDuplicates(req.tags) && id in ProjectIds(db)
    ensures ProjectTagNames(Update(db, id, req).0, id) == req.tags
  {
    var mid := UpdateCleared(db, FindProject(db, id).value, id, req);
    UpdateShape(db, id, req);
    ClearedValid(db, id, req);
    AppendedTagNames(mid, id, req.tags, Update(db, id, req).0);
  }

  /** A project without join rows that gets the join rows of the tags its
      names resolve to, new tag rows staged, has exactly those names. */
  lemma AppendedTagNames(db: Db, pid: int, names: seq<string>, db': Db)
    requires forall i :: 0 <= i < |db.projectTags| ==> db.projectTags[i].projectId != pid
    requires TagsValid(db.tags, db.nextTagId) && NoDuplicates(names)
    requires var res := ResolveTags(db.tags, names, db.nextTagId);
      && db'.tags == db.tags + res.created && db'.nextTagId == db.nextTagId + |res.created|
      && db'.projectTags == db.projectTags + Links(pid, Map(res.resolved, TagId))
    ensures ProjectTagNames(db', pid) == names
  {
    ResolvedLinkNames(db.projectTags, pid, db.tags, db.nextTagId, names);
  }


  /** After an update, the project's screenshots are the request's. */
  lemma UpdateShotsOf(db: Db, id: int, req: ProjectRequest)
    requires id in ProjectIds(db)
    ensures ProjectScreenshots(Update(db, id, req).0, id) == NewScreenshots(req.screenshots, id, db.nextScreenshotId)
  {
    var mid := UpdateCleared(db, FindProject(db, id).value, id, req);
    UpdateShape(db, id, req);
    OwnScreenshotsAppended(mid.screenshots, NewScreenshots(req.screenshots, id, db.nextScreenshotId), id);
  }

  /** The update response is built from the rewritten row, the requested
      tag names and the new screenshot rows. */
  lemma UpdateResponse(db: Db, id: int, req: ProjectRequest)
    requires id in ProjectIds(db)
    ensures var k := FindProject(db, id).value;
      Update(db, id, req).1 == Ok(ToResponse(Update(db, id, req).0.projects[k], req.tags,
                                             NewScreenshots(req.screenshots, id, db.nextScreenshotId)))
  {
  }

  /** A project loads as its response would be built from its tag names and
      screenshot rows, with the screenshots ordered by sort order. */
  lemma LoadedResponse(db: Db, p: Project, names: seq<string>, shots: seq<Screenshot>)
    requires ProjectTagNames(db, p.id) == names && ProjectScreenshots(db, p.id) == shots
    ensures var r := ToResponse(p, names, shots);
      Loaded(db, p) == r.(screenshots := SortBy(r.screenshots, DtoSortOrder))
  {
    SortByMap(shots, ToDto, SortOrderKey, DtoSortOrder);
  }

  /** Reading an updated project back gives the update response, with the
      screenshots ordered by sort order. */
  lemma UpdateThenGetById(db: Db, id: int, req: ProjectRequest)
    requires Valid(db) && NoDuplicates(req.tags) && id in ProjectIds(db)
    ensures var r := Update(db, id, req);
      GetById(r.0, id) == Some(r.1.value.(screenshots := SortBy(r.1.value.screenshots, DtoSortOrder)))
  {
    var db' := Update(db, id, req).0;
    var k := FindProject(db, id).value;
    UpdateRows(db, id, req);
    UpdateTagsOf(db, id, req);
    UpdateShotsOf(db, id, req);
    UpdateResponse(db, id, req);
    GetByIdLoadsRow(db', k);
    LoadedResponse(db', db'.projects[k], req.tags, NewScreenshots(req.screenshots, id, db.nextScreenshotId));
  }

  /** An update leaves the creation time of the project alone. */
  lemma UpdateKeepsCreatedAt(db: Db, id: int, req: ProjectRequest)
    requires id in ProjectIds(db)
    ensures Update(db, id, req).1.value.createdAt == GetById(db, id).value.createdAt
  {
  }

  /** A row's tag names and screenshots survive dropping and re-adding the
      rows of another project. */
  lemma OtherProjectUntouched(db: Db, db': Db, id: int, q: int, ids: seq<int>, more: seq<Tag>, shots: seq<Screenshot>)
    requires ProjectTagsValid(db) && q != id
    requires db'.projectTags == Filter(db.projectTags, LinkNotOf(id)) + Links(id, ids)
    requires db'.tags == db.tags + more
    requires db'.screenshots == Filter(db.screenshots, NotOwnedBy(id)) + shots
    requires forall i :: 0 <= i < |shots| ==> shots[i].projectId == id
    ensures ProjectTagNames(db', q) == ProjectTagNames(db, q)
    ensures ProjectScreenshots(db', q) == ProjectScreenshots(db, q)
  {
    var kept := Filter(db.projectTags, LinkNotOf(id));
    TagIdsOfConcat(kept, Links(id, ids), q);
    TagIdsOfNone(Links(id, ids), q);
    TagIdsOfDropOther(db.projectTags, id, q);
    assert TagIdsOf(db'.projectTags, q) == TagIdsOf(db.projectTags, q);
    ProjectTagNamesExtend(db, more, q);
    OtherScreenshotsAppended(Filter(db.screenshots, NotOwnedBy(id)), shots, q);
    FilterFilter(db.screenshots, NotOwnedBy(id), OwnedBy(q), OwnedBy(q));
  }

  /** Another project's tags and screenshots survive an update. */
  lemma UpdateOtherParts(db: Db, id: int, req: ProjectRequest, q: int)
    requires Valid(db) && q != id && id in ProjectIds(db)
    ensures ProjectTagNames(Update(db, id, req).0, q) == ProjectTagNames(db, q)
    ensures ProjectScreenshots(Update(db, id, req).0, q) == ProjectScreenshots(db, q)
  {
    var res := ResolveTags(db.tags, req.tags, db.nextTagId);
    var shots := NewScreenshots(req.screenshots, id, db.nextScreenshotId);
    UpdateShape(db, id, req);
    OtherProjectUntouched(db, Update(db, id, req).0, id, q, Map(res.resolved, TagId), res.created, shots);
  }

  /** A store whose project rows differ from the old ones at most in the
      row of `id`, and which agrees with it on the tags and screenshots of
      `q`, reads `q` back alike. */
  lemma RowsKeptElsewhere(db: Db, db': Db, id: int, q: int)
    requires ProjectsValid(db) && ProjectsValid(db') && q != id
    requires |db'.projects| == |db.projects|
    requires forall i :: 0 <= i < |db.projects| ==> db'.projects[i].id == db.projects[i].id
    requires forall i :: 0 <= i < |db.projects| && db.projects[i].id != id ==> db'.projects[i] == db.projects[i]
    requires ProjectTagNames(db', q) == ProjectTagNames(db, q)
    requires ProjectScreenshots(db', q) == ProjectScreenshots(db, q)
    ensures GetById(db', q) == GetById(db, q)
  {
    if q in ProjectIds(db) {
      RowLoadsAlike(db, db', FindProject(db, q).value, FindProject(db, q).value);
    } else {
      assert q !in ProjectIds(db');
    }
  }

  /** An update rewrites the columns of one project row and keeps the
      project invariant. */
  lemma UpdateRows(db: Db, id: int, req: ProjectRequest)
    requires Valid(db) && id in ProjectIds(db)
    ensures var db' := Update(db, id, req).0;
      && ProjectsValid(db')
      && |db'.projects| == |db.projects|
      && (forall i :: 0 <= i < |db.projects| ==> db'.projects[i].id == db.projects[i].id)
      && (forall i :: 0 <= i < |db.projects| && db.projects[i].id != id ==> db'.projects[i] == db.projects[i])
  {
    var mid := UpdateCleared(db, FindProject(db, id).value, id, req);
    var db' := Update(db, id, req).0;
    UpdateShape(db, id, req);
    assert db'.projects == mid.projects && db'.nextProjectId == mid.nextProjectId;
    ClearedValid(db, id, req);
    ClearedRows(db, id, req);
    SameProjectsValid(mid, db');
  }

  /** The project invariant reads only the project rows and their counter. */
  lemma SameProjectsValid(db: Db, db': Db)
    requires ProjectsValid(db)
    requires db'.projects == db.projects && db'.nextProjectId == db.nextProjectId
    ensures ProjectsValid(db')
  {
  }

  /** Updating a project changes what is read back for no other id. */
  lemma UpdateKeepsOthers(db: Db, id: int, req: ProjectRequest, q: int)
    requires Valid(db) && q != id
    ensures GetById(Update(db, id, req).0, q) == GetById(db, q)
  {
    if id in ProjectIds(db) {
      UpdateRows(db, id, req);
      UpdateOtherParts(db, id, req, q);
      RowsKeptElsewhere(db, Update(db, id, req).0, id, q);
    }
  }



  /** Removing one project row keeps the project invariant; the ids left are
      the old ones less the removed row's. */
  lemma RemoveProjectRow(db: Db, k: int, db': Db)
    requires ProjectsValid(db) && 0 <= k < |db.projects|
    requires db'.projects == db.projects[..k] + db.projects[k + 1..] && db'.nextProjectId == db.nextProjectId
    ensures ProjectsValid(db') && ProjectIds(db') == ProjectIds(db) - {db.projects[k].id}
  {
    RemovedRowsValid(db, k, db');
    RemovedRowIds(db, k, db');
  }

  lemma RemovedRowsValid(db: Db, k: int, db': Db)
    requires ProjectsValid(db) && 0 <= k < |db.projects|
    requires db'.projects == db.projects[..k] + db.projects[k + 1..] && db'.nextProjectId == db.nextProjectId
    ensures ProjectsValid(db')
  {
    var ps := db'.projects;
    RemovedAt(db.projects, k);
    forall i, j | 0 <= i < j < |ps| ensures ps[i].id != ps[j].id {
      var i', j' := if i < k then i else i + 1, if j < k then j else j + 1;
      assert ps[i] == db.projects[i'] && ps[j] == db.projects[j'];
    }
  }

  lemma RemovedRowIds(db: Db, k: int, db': Db)
    requires ProjectsValid(db) && 0 <= k < |db.projects|
    requires db'.projects == db.projects[..k] + db.projects[k + 1..]
    ensures ProjectIds(db') == ProjectIds(db) - {db.projects[k].id}
  {
    RemovedAt(db.projects, k);
    forall x | x in ProjectIds(db') ensures x in ProjectIds(db) - {db.projects[k].id} {
      RemovedRowIdKept(db, k, db', x);
    }
    forall x | x in ProjectIds(db) - {db.projects[k].id} ensures x in ProjectIds(db') {
      var i :| 0 <= i < |db.projects| && db.projects[i].id == x;
      var i' := if i < k then i else i - 1;
      assert db'.projects[i'] == db.projects[i];
    }
  }

  lemma RemovedRowIdKept(db: Db, k: int, db': Db, x: int)
    requires ProjectsValid(db) && 0 <= k < |db.projects|
    requires db'.projects == db.projects[..k] + db.projects[k + 1..]
    requires x in ProjectIds(db')
    ensures x in ProjectIds(db) && x != db.projects[k].id
  {
    var ps := db'.projects;
    RemovedAt(db.projects, k);
    var i :| 0 <= i < |ps| && ps[i].id == x;
    var i' := if i < k then i else i + 1;
    assert ps[i] == db.projects[i'];
  }

  /** Deleting a project keeps the store invariant: with the row go its join
      rows and its screenshots. */
  lemma DeleteKeepsValid(db: Db, id: int)
    requires Valid(db)
    ensures Valid(Delete(db, id).0)
    ensures ProjectIds(Delete(db, id).0) == ProjectIds(db) - {id}
  {
    if id in ProjectIds(db) {
      var db' := Delete(db, id).0;
      var k := FindProject(db, id).value;
      RemoveProjectRow(db, k, db');
      DropScreenshotsValid(db, db', id);
      DropLinksValid(db, db', id);
    }
  }

  /** A deleted project is no longer found. */
  lemma DeleteThenGetById(db: Db, id: int)
    requires ProjectsValid(db)
    ensures GetById(Delete(db, id).0, id).None?
  {
    if id in ProjectIds(db) {
      var k := FindProject(db, id).value;
      RemoveProjectRow(db, k, Delete(db, id).0);
    }
  }

  /** Another project's tags and screenshots survive a delete. */
  lemma DeleteOtherParts(db: Db, id: int, q: int)
    requires q != id
    ensures ProjectTagNames(Delete(db, id).0, q) == ProjectTagNames(db, q)
    ensures ProjectScreenshots(Delete(db, id).0, q) == ProjectScreenshots(db, q)
  {
    if id in ProjectIds(db) {
      var db' := Delete(db, id).0;
      assert db'.projectTags == Filter(db.projectTags, LinkNotOf(id));
      assert db'.screenshots == Filter(db.screenshots, NotOwnedBy(id));
      TagIdsOfDropOther(db.projectTags, id, q);
      FilterFilter(db.screenshots, NotOwnedBy(id), OwnedBy(q), OwnedBy(q));
    }
  }

  /** Deleting a project changes what is read back for no other id. */
  lemma DeleteKeepsOthers(db: Db, id: int, q: int)
    requires ProjectsValid(db) && q != id
    ensures GetById(Delete(db, id).0, q) == GetById(db, q)
  {
    if id in ProjectIds(db) {
      var k := FindProject(db, id).value;
      var db' := Delete(db, id).0;
      RemoveProjectRow(db, k, db');
      DeleteOtherParts(db, id, q);
      if q in ProjectIds(db) {
        RemovedRowLoads(db, db', k, FindProject(db, q).value);
      }
    }
  }


  /** With row `k` removed, the row at `m` is still found and loads alike
      when its tags and screenshots are unchanged. */
  lemma RemovedRowLoads(db: Db, db': Db, k: int, m: int)
    requires ProjectsValid(db) && ProjectsValid(db')
    requires 0 <= k < |db.projects| && 0 <= m < |db.projects| && db.projects[m].id != db.projects[k].id
    requires db'.projects == db.projects[..k] + db.projects[k + 1..]
    requires ProjectTagNames(db', db.projects[m].id) == ProjectTagNames(db, db.projects[m].id)
    requires ProjectScreenshots(db', db.projects[m].id) == ProjectScreenshots(db, db.projects[m].id)
    ensures GetById(db', db.projects[m].id) == GetById(db, db.projects[m].id)
  {
    RemovedAt(db.projects, k);
    var m' := if m < k then m else m - 1;
    assert db'.projects[m'] == db.projects[m];
    RowLoadsAlike(db, db', m, m');
  }

  /* ---------------------------------------------------------------- */
  /*  Screenshots: delete, upload, reorder                             */
  /* ---------------------------------------------------------------- */

  function OtherShot(screenshotId: int): Screenshot -> bool {
    (s: Screenshot) => s.id != screenshotId
  }

  /** A screenshot delete removes exactly the row with that id, keeping the
      others in order, and names the file its URL points to. */
  lemma DeleteScreenshotExact(db: Db, root: string, projectId: int, screenshotId: int)
    requires ScreenshotsValid(db)
    ensures var r := DeleteScreenshot(db, root, projectId, screenshotId);
      r.1.Ok? ==> r.0.screenshots == Filter(db.screenshots, OtherShot(screenshotId))
    ensures var r := DeleteScreenshot(db, root, projectId, screenshotId);
      r.1.Ok? ==> exists s :: s in db.screenshots && s.id == screenshotId && s.projectId == projectId
                             && r.1.value == DeletePath(root, s.url)
  {
    var r := DeleteScreenshot(db, root, projectId, screenshotId);
    if r.1.Ok? {
      var k := FirstIndex(db.screenshots, ShotOf(projectId, screenshotId)).value;
      forall i | 0 <= i < |db.screenshots| && i != k ensures OtherShot(screenshotId)(db.screenshots[i]) {
        if i < k {
          assert ScreenshotId(db.screenshots[i]) != ScreenshotId(db.screenshots[k]);
        } else {
          assert ScreenshotId(db.screenshots[k]) != ScreenshotId(db.screenshots[i]);
        }
      }
      FilterRemovesOne(db.screenshots, k, OtherShot(screenshotId));
      assert db.screenshots[k] in db.screenshots;
    }
  }

  /** Keeping some screenshot rows, and changing nothing else, keeps the
      store invariant. */
  lemma FilterScreenshotsValid(db: Db, db': Db, p: Screenshot -> bool)
    requires Valid(db) && db' == db.(screenshots := Filter(db.screenshots, p))
    ensures Valid(db')
  {
    assert DistinctBy(db.screenshots, ScreenshotId);
    FilterDistinctBy(db.screenshots, p, ScreenshotId);
    FilterMembers(db.screenshots, p);
    assert ProjectIds(db') == ProjectIds(db);
  }

  /** A screenshot delete keeps the store invariant. */
  lemma DeleteScreenshotKeepsValid(db: Db, root: string, projectId: int, screenshotId: int)
    requires Valid(db)
    ensures Valid(DeleteScreenshot(db, root, projectId, screenshotId).0)
  {
    var r := DeleteScreenshot(db, root, projectId, screenshotId);
    if r.1.Ok? {
      DeleteScreenshotExact(db, root, projectId, screenshotId);
      assert r.0 == db.(screenshots := Filter(db.screenshots, OtherShot(screenshotId)));
      FilterScreenshotsValid(db, r.0, OtherShot(screenshotId));
    }
  }

  /** An upload keeps the store invariant. */
  lemma UploadKeepsValid(db: Db, root: string, projectId: int, guid: string, clientFileName: string,
                         altText: Option<string>, sortOrder: int)
    requires Valid(db)
    ensures Valid(Upload(db, root, projectId, guid, clientFileName, altText, sortOrder).0)
  {
    var r := Upload(db, root, projectId, guid, clientFileName, altText, sortOrder);
    if r.1.Ok? {
      var shot := Screenshot(db.nextScreenshotId, projectId,
        UploadUrl(projectId, StoredFileName(guid, clientFileName)), altText, sortOrder);
      assert r.0.screenshots == db.screenshots + [shot];
      AppendScreenshotsValid(db, [shot], r.0);
    }
  }

  /** After an upload, the project reads back with the same tags and with
      its screenshots being the old ones and the new record. */
  lemma UploadThenGetById(db: Db, root: string, projectId: int, guid: string, clientFileName: string,
                          altText: Option<string>, sortOrder: int, d: ScreenshotDto)
    ensures var r := Upload(db, root, projectId, guid, clientFileName, altText, sortOrder);
      r.1.Ok? ==>
        && GetById(r.0, projectId).Some? && GetById(db, projectId).Some?
        && GetById(r.0, projectId).value.tags == GetById(db, projectId).value.tags
        && |GetById(r.0, projectId).value.screenshots| == |GetById(db, projectId).value.screenshots| + 1
        && (d in GetById(r.0, projectId).value.screenshots <==>
              d in GetById(db, projectId).value.screenshots || d == r.1.value.1)
  {
    var r := Upload(db, root, projectId, guid, clientFileName, altText, sortOrder);
    if r.1.Ok? {
      var k := FindProject(db, projectId).value;
      var p := db.projects[k];
      var shot := Screenshot(db.nextScreenshotId, projectId, r.1.value.1.url, altText, sortOrder);
      assert p.id == projectId;
      assert ProjectScreenshots(r.0, projectId) == ProjectScreenshots(db, projectId) + [shot] by {
        FilterConcat(db.screenshots, [shot], OwnedBy(projectId));
        FilterAll([shot], OwnedBy(projectId));
      }
      LoadedScreenshots(db, p, d);
      LoadedScreenshots(r.0, p, d);
      assert r.1.value.1 == ToDto(shot);
      if d in GetById(r.0, projectId).value.screenshots {
        var s :| s in r.0.screenshots && s.projectId == p.id && d == ToDto(s);
        assert s in db.screenshots || s == shot;
      }
      assert shot in r.0.screenshots;
    }
  }

  /** An upload changes what is read back for no other id. */
  lemma UploadKeepsOthers(db: Db, root: string, projectId: int, guid: string, clientFileName: string,
                          altText: Option<string>, sortOrder: int, q: int)
    requires q != projectId
    ensures GetById(Upload(db, root, projectId, guid, clientFileName, altText, sortOrder).0, q) == GetById(db, q)
  {
    var r := Upload(db, root, projectId, guid, clientFileName, altText, sortOrder);
    if r.1.Ok? {
      var shot := Screenshot(db.nextScreenshotId, projectId, r.1.value.1.url, altText, sortOrder);
      OtherScreenshotsAppended(db.screenshots, [shot], q);
      assert FindProject(r.0, q) == FindProject(db, q);
      if FindProject(db, q).Some? {
        LoadedAlike(db, r.0, db.projects[FindProject(db, q).value]);
      }
    }
  }

  /** Deleting an uploaded screenshot removes the file the upload wrote and
      restores the screenshot table, for a GUID without separators. */
  lemma UploadThenDeleteScreenshot(db: Db, root: string, projectId: int, guid: string, clientFileName: string,
                                   altText: Option<string>, sortOrder: int)
    requires ScreenshotsValid(db)
    requires |guid| > 0 && forall k :: 0 <= k < |guid| ==> guid[k] != '/'
    ensures var up := Upload(db, root, projectId, guid, clientFileName, altText, sortOrder);
      up.1.Ok? ==>
        var del := DeleteScreenshot(up.0, root, projectId, up.1.value.1.id);
        del.1 == Ok(up.1.value.0) && del.0.screenshots == db.screenshots
  {
    var up := Upload(db, root, projectId, guid, clientFileName, altText, sortOrder);
    if up.1.Ok? {
      var shot := Screenshot(db.nextScreenshotId, projectId,
        UploadUrl(projectId, StoredFileName(guid, clientFileName)), altText, sortOrder);
      var all := up.0.screenshots;
      assert all == db.screenshots + [shot];
      FirstIndexAt(all, ShotOf(projectId, shot.id), |db.screenshots|);
      assert all[..|db.screenshots|] == db.screenshots;
      DeleteRemovesUploadedFile(root, projectId, guid, clientFileName);
    }
  }

  /** With distinct ids, the last position of `ids[i]` is `i`. */
  lemma LastIndexOfDistinct(ids: seq<int>, i: int)
    requires NoDuplicates(ids) && 0 <= i < |ids|
    ensures LastIndexOf(ids, ids[i]) == i
  {
    var r := LastIndexOf(ids, ids[i]);
    assert !(r < i) && !(i < r);
  }

  /** A reorder sets the sort order of each listed screenshot of the
      project to its (last) position in the list and leaves every other row
      as it was; with distinct ids, `ids[i]` gets sort order `i`. */
  lemma ReorderSortOrders(db: Db, projectId: int, ids: seq<int>, n: int)
    requires Reorder(db, projectId, ids).1.Ok? && 0 <= n < |db.screenshots|
    ensures |Reorder(db, projectId, ids).0.screenshots| == |db.screenshots|
    ensures var s, s' := db.screenshots[n], Reorder(db, projectId, ids).0.screenshots[n];
      s' == s.(sortOrder := s'.sortOrder)
      && (s.projectId == projectId && s.id in ids ==> s'.sortOrder == LastIndexOf(ids, s.id))
      && (!(s.projectId == projectId && s.id in ids) ==> s' == s)
    ensures var s, s' := db.screenshots[n], Reorder(db, projectId, ids).0.screenshots[n];
      forall i :: 0 <= i < |ids| && NoDuplicates(ids) && s.projectId == projectId && s.id == ids[i] ==> s'.sortOrder == i
  {
    var s := db.screenshots[n];
    forall i | 0 <= i < |ids| && NoDuplicates(ids) && s.projectId == projectId && s.id == ids[i] {
      LastIndexOfDistinct(ids, i);
    }
  }

  /** The reorder result lists exactly the project's screenshots after the
      reorder, as records. */
  lemma ReorderResult(db: Db, projectId: int, ids: seq<int>, d: ScreenshotDto)
    requires Reorder(db, projectId, ids).1.Ok?
    ensures var r := Reorder(db, projectId, ids);
      d in r.1.value <==> exists s :: s in r.0.screenshots && s.projectId == projectId && d == ToDto(s)
  {
    var k := FindProject(db, projectId).value;
    LoadedScreenshots(Reorder(db, projectId, ids).0, db.projects[k], d);
  }

  /** Renumbering changes no screenshot's id or owner. */
  lemma RenumberKeepsKeys(shots: seq<Screenshot>, projectId: int, ids: seq<int>)
    ensures var r := Map(shots, Renumber(projectId, ids));
      forall i :: 0 <= i < |shots| ==> r[i].id == shots[i].id && r[i].projectId == shots[i].projectId
  {
  }

  /** Screenshot rows keep their invariant when only columns other than the
      id and the owner change. */
  lemma SameKeysValid(db: Db, db': Db)
    requires Valid(db)
    requires db'.projects == db.projects && db'.tags == db.tags && db'.projectTags == db.projectTags
    requires db'.nextProjectId == db.nextProjectId && db'.nextTagId == db.nextTagId
    requires db'.nextScreenshotId == db.nextScreenshotId && |db'.screenshots| == |db.screenshots|
    requires forall i :: 0 <= i < |db.screenshots| ==>
      db'.screenshots[i].id == db.screenshots[i].id && db'.screenshots[i].projectId == db.screenshots[i].projectId
    ensures Valid(db')
  {
    assert ProjectIds(db') == ProjectIds(db);
  }

  /** A reorder keeps the store invariant: ids and owners do not change. */
  lemma ReorderKeepsValid(db: Db, projectId: int, ids: seq<int>)
    requires Valid(db)
    ensures Valid(Reorder(db, projectId, ids).0)
  {
    var db' := Reorder(db, projectId, ids).0;
    if Reorder(db, projectId, ids).1.Ok? {
      assert db'.screenshots == Map(db.screenshots, Renumber(projectId, ids));
      RenumberKeepsKeys(db.screenshots, projectId, ids);
      SameKeysValid(db, db');
    }
  }
}
