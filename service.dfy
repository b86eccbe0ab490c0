/** `ProjectService` over its database context: the four tables and the
    identity counters are fields that the write operations update in place,
    each proved to leave the state and give the result that the functions of
    `Commands` prescribe. The reads are the `Queries` functions of `State()`. */
module Service {
  import opened Common
  import opened Seqs
  import opened Store
  import opened Queries
  import opened Commands
  import opened Paths

  class ProjectService {
    var projects: seq<Project>
    var tags: seq<Tag>
    var projectTags: seq<ProjectTag>
    var screenshots: seq<Screenshot>
    var nextProjectId: int
    var nextTagId: int
    var nextScreenshotId: int
    /** The directory uploads are stored under. */
    const uploadsRoot: string

    /** The database as the functions of `Commands` and `Queries` see it. */
    function State(): Db
      reads this
    {
      Db(projects, tags, projectTags, screenshots, nextProjectId, nextTagId, nextScreenshotId)
    }

    /** The configured `UPLOADS_PATH` when there is one, otherwise `uploads`
        under the current directory. */
    constructor(db: Db, configuredRoot: Option<string>, currentDirectory: string)
      ensures State() == db
      ensures uploadsRoot == if configuredRoot.Some? then configuredRoot.value else Combine(currentDirectory, "uploads")
    {
      projects, tags, projectTags, screenshots := db.projects, db.tags, db.projectTags, db.screenshots;
      nextProjectId, nextTagId, nextScreenshotId := db.nextProjectId, db.nextTagId, db.nextScreenshotId;
      uploadsRoot := if configuredRoot.Some? then configuredRoot.value else Combine(currentDirectory, "uploads");
    }

    /** The `foreach (var tagName in request.Tags)` loop: each name looked up
        among the persisted tags, a new tag staged when none carries it. */
    method ResolveTagNames(names: seq<string>) returns (res: Resolution)
      ensures res == ResolveTags(tags, names, nextTagId)
    {
      var persisted, nextId := tags, nextTagId;
      var resolved, created := [], [];
      for i := 0 to |names|
        invariant Resolution(resolved, created) == ResolveTags(persisted, names[..i], nextId)
      {
        var existing := FindTag(persisted, names[i]);
        if existing.Some? {
          ResolveTagsReuses(persisted, names, i, nextId, Resolution(resolved, created), existing.value);
          resolved := resolved + [persisted[existing.value]];
        } else {
          ResolveTagsStages(persisted, names, i, nextId, Resolution(resolved, created));
          var t := Tag(nextId + |created|, names[i]);
          resolved, created := resolved + [t], created + [t];
        }
      }
      assert names[..|names|] == names;
      res := Resolution(resolved, created);
    }

    /** `SaveChangesAsync`: the tables staged in the change tracker become
        the stored ones. */
    method SaveChanges(db: Db)
      modifies this
      ensures State() == db
    {
      projects, tags, projectTags, screenshots := db.projects, db.tags, db.projectTags, db.screenshots;
      nextProjectId, nextTagId, nextScreenshotId := db.nextProjectId, db.nextTagId, db.nextScreenshotId;
    }

    /** `CreateAsync`, at the time `now`. */
    method Create(req: ProjectRequest, now: int) returns (resp: ProjectResponse)
      modifies this
      ensures (State(), resp) == Commands.Create(old(State()), req, now)
    {
      var db := State();
      var pid := db.nextProjectId;
      var p := Project(pid, req.title, req.description, req.liveUrl, req.sourceUrl, now);
      var res := ResolveTagNames(req.tags);
      var shots := NewScreenshots(req.screenshots, pid, db.nextScreenshotId);
      var db' := Db(db.projects + [p], db.tags + res.created,
                    db.projectTags + Links(pid, Map(res.resolved, TagId)), db.screenshots + shots,
                    pid + 1, db.nextTagId + |res.created|, db.nextScreenshotId + |shots|);
      CreateResult(db, req, now, p, res, shots);
      SaveChanges(db');
      resp := ToResponse(p, Map(res.resolved, TagName), shots);
    }

    /** `UpdateAsync`: NotFound, with nothing changed, for an unknown id. */
    method Update(id: int, req: ProjectRequest) returns (r: Outcome<ProjectResponse>)
      modifies this
      ensures (State(), r) == Commands.Update(old(State()), id, req)
    {
      var db := State();
      var found := FindProject(db, id);
      if found.None? {
        return NotFound;
      }
      var k := found.value;
      var p := db.projects[k].(title := req.title, description := req.description,
                               liveUrl := req.liveUrl, sourceUrl := req.sourceUrl);
      var res := ResolveTagNames(req.tags);
      var shots := NewScreenshots(req.screenshots, id, db.nextScreenshotId);
      var db' := db.(
        projects := db.projects[k := p], tags := db.tags + res.created,
        projectTags := Filter(db.projectTags, LinkNotOf(id)) + Links(id, Map(res.resolved, TagId)),
        screenshots := Filter(db.screenshots, NotOwnedBy(id)) + shots,
        nextTagId := db.nextTagId + |res.created|,
        nextScreenshotId := db.nextScreenshotId + |shots|);
      UpdateResult(db, id, req, k, p, res, shots);
      SaveChanges(db');
      r := Ok(ToResponse(p, Map(res.resolved, TagName), shots));
    }

    /** `DeleteAsync`: the row goes, its join rows and screenshots cascade. */
    method Delete(id: int) returns (r: Outcome<()>)
      modifies this
      ensures (State(), r) == Commands.Delete(old(State()), id)
    {
      var db := State();
      var found := FindProject(db, id);
      if found.None? {
        return NotFound;
      }
      var k := found.value;
      SaveChanges(db.(projects := db.projects[..k] + db.projects[k + 1..],
                      projectTags := Filter(db.projectTags, LinkNotOf(id)),
                      screenshots := Filter(db.screenshots, NotOwnedBy(id))));
      r := Ok(());
    }

    /** `DeleteScreenshotAsync`: the result is the path of the file to
        delete. */
    method DeleteScreenshot(projectId: int, screenshotId: int) returns (r: Outcome<string>)
      modifies this
      ensures (State(), r) == Commands.DeleteScreenshot(old(State()), uploadsRoot, projectId, screenshotId)
    {
      var db := State();
      var found := FirstIndex(db.screenshots, ShotOf(projectId, screenshotId));
      if found.None? {
        return NotFound;
      }
      var k := found.value;
      SaveChanges(db.(screenshots := db.screenshots[..k] + db.screenshots[k + 1..]));
      r := Ok(DeletePath(uploadsRoot, db.screenshots[k].url));
    }

    /** `UploadScreenshotAsync` with the fresh `guid`: the result is the path
        written and the new screenshot. */
    method UploadScreenshot(projectId: int, guid: string, clientFileName: string,
                            altText: Option<string>, sortOrder: int)
      returns (r: Outcome<(string, ScreenshotDto)>)
      modifies this
      ensures (State(), r) == Commands.Upload(old(State()), uploadsRoot, projectId, guid, clientFileName, altText, sortOrder)
    {
      var db := State();
      if FindProject(db, projectId).None? {
        return NotFound;
      }
      var fileName := StoredFileName(guid, clientFileName);
      var shot := Screenshot(db.nextScreenshotId, projectId, UploadUrl(projectId, fileName), altText, sortOrder);
      SaveChanges(db.(screenshots := db.screenshots + [shot], nextScreenshotId := db.nextScreenshotId + 1));
      r := Ok((UploadPath(uploadsRoot, projectId, fileName), ToDto(shot)));
    }

    /** `ReorderScreenshotsAsync`: for each position `i`, the project's
        screenshot `ids[i]` gets sort order `i`; the first id the project
        does not own ends the loop with NotFound before anything is saved. */
    method Reorder(projectId: int, ids: seq<int>) returns (r: Outcome<seq<ScreenshotDto>>)
      requires DistinctBy(screenshots, ScreenshotId)
      modifies this
      ensures (State(), r) == Commands.Reorder(old(State()), projectId, ids)
    {
      var found := FindProject(State(), projectId);
      if found.None? {
        return NotFound;
      }
      var db := State();
      assert DistinctBy(screenshots, ScreenshotId);
      var renumbered := RenumberOwned(screenshots, projectId, ids);
      if renumbered.None? {
        ReorderMissing(db, projectId, ids);
        return NotFound;
      }
      ReorderShape(db, projectId, ids);
      screenshots := renumbered.value;
      r := Ok(Loaded(State(), projects[found.value]).screenshots);
    }
  }

  /** The loop of `ReorderScreenshotsAsync` over the screenshot rows: for
      each position `i`, the row of the project with id `ids[i]` gets sort
      order `i`; None when one of the ids names no row of the project. */
  method RenumberOwned(rows: seq<Screenshot>, projectId: int, ids: seq<int>) returns (r: Option<seq<Screenshot>>)
    requires DistinctBy(rows, ScreenshotId)
    ensures r.None? <==> exists i :: 0 <= i < |ids| && FirstIndex(rows, ShotOf(projectId, ids[i])).None?
    ensures r.Some? ==> r.value == Map(rows, Renumber(projectId, ids))
  {
    var shots := rows;
    assert shots == Map(rows, Renumber(projectId, ids[..0]));
    for i := 0 to |ids|
      invariant shots == Map(rows, Renumber(projectId, ids[..i]))
      invariant forall j :: 0 <= j < i ==> FirstIndex(rows, ShotOf(projectId, ids[j])).Some?
    {
      var hit := FirstIndex(shots, ShotOf(projectId, ids[i]));
      RenumberedLookup(rows, projectId, ids[..i], ids[i]);
      if hit.None? {
        return None;
      }
      var k := hit.value;
      assert FirstIndex(rows, ShotOf(projectId, ids[i])) == Some(k);
      RenumberLoopStep(rows, projectId, ids, i, k);
      shots := shots[k := shots[k].(sortOrder := i)];
      assert shots == Map(rows, Renumber(projectId, ids[..i + 1]));
      assert forall j :: 0 <= j < i + 1 ==> FirstIndex(rows, ShotOf(projectId, ids[j])).Some?;
    }
    assert ids[..|ids|] == ids;
    r := Some(shots);
  }

  /** The state and result of an update of a stored project, written out. */
  lemma UpdateResult(db: Db, id: int, req: ProjectRequest, k: nat, p: Project, res: Resolution, shots: seq<Screenshot>)
    requires FindProject(db, id) == Some(k)
    requires p == db.projects[k].(title := req.title, description := req.description,
                                  liveUrl := req.liveUrl, sourceUrl := req.sourceUrl)
    requires res == ResolveTags(db.tags, req.tags, db.nextTagId)
    requires shots == NewScreenshots(req.screenshots, id, db.nextScreenshotId)
    ensures Commands.Update(db, id, req).0 == db.(
        projects := db.projects[k := p], tags := db.tags + res.created,
        projectTags := Filter(db.projectTags, LinkNotOf(id)) + Links(id, Map(res.resolved, TagId)),
        screenshots := Filter(db.screenshots, NotOwnedBy(id)) + shots,
        nextTagId := db.nextTagId + |res.created|,
        nextScreenshotId := db.nextScreenshotId + |shots|)
    ensures Commands.Update(db, id, req).1 == Ok(ToResponse(p, Map(res.resolved, TagName), shots))
  {
  }

  /** A reorder that names a screenshot the project does not own is
      NotFound. */
  lemma ReorderMissing(db: Db, projectId: int, ids: seq<int>)
    requires exists i :: 0 <= i < |ids| && FirstIndex(db.screenshots, ShotOf(projectId, ids[i])).None?
    ensures Commands.Reorder(db, projectId, ids) == (db, NotFound)
  {
    var i :| 0 <= i < |ids| && FirstIndex(db.screenshots, ShotOf(projectId, ids[i])).None?;
    assert !AllOwned(db, projectId, ids);
  }

  /** The state and result of a reorder of owned screenshots. */
  lemma ReorderShape(db: Db, projectId: int, ids: seq<int>)
    requires FindProject(db, projectId).Some?
    requires !exists j :: 0 <= j < |ids| && FirstIndex(db.screenshots, ShotOf(projectId, ids[j])).None?
    ensures var db' := db.(screenshots := Map(db.screenshots, Renumber(projectId, ids)));
      Commands.Reorder(db, projectId, ids) == (db', Ok(Loaded(db', db.projects[FindProject(db, projectId).value]).screenshots))
  {
    assert AllOwned(db, projectId, ids);
  }

  /** One pass of the reorder loop: giving the row found for `ids[i]` sort
      order `i` renumbers the rows by one more position of `ids`. */
  lemma RenumberLoopStep(rows: seq<Screenshot>, projectId: int, ids: seq<int>, i: int, k: int)
    requires DistinctBy(rows, ScreenshotId)
    requires 0 <= i < |ids| && 0 <= k < |rows|
    requires FirstIndex(rows, ShotOf(projectId, ids[i])) == Some(k)
    ensures var shots := Map(rows, Renumber(projectId, ids[..i]));
      shots[k := shots[k].(sortOrder := i)] == Map(rows, Renumber(projectId, ids[..i + 1]))
  {
    var shots := Map(rows, Renumber(projectId, ids[..i]));
    var next := shots[k := shots[k].(sortOrder := i)];
    assert ShotOf(projectId, ids[i])(rows[k]);
    forall n | 0 <= n < |rows| ensures next[n] == Renumber(projectId, ids[..i + 1])(rows[n]) {
      RenumberStep(rows, projectId, ids, i, k, n);
    }
  }

  /** Renumbering keeps ids and owners, so a screenshot is found in the
      renumbered rows where it was found in the original ones. */
  lemma RenumberedLookup(rows: seq<Screenshot>, projectId: int, done: seq<int>, id: int)
    ensures FirstIndex(Map(rows, Renumber(projectId, done)), ShotOf(projectId, id)) == FirstIndex(rows, ShotOf(projectId, id))
  {
    var p := ShotOf(projectId, id);
    var shots := Map(rows, Renumber(projectId, done));
    assert forall n :: 0 <= n < |rows| ==> p(shots[n]) == p(rows[n]);
    FirstIndexAgree(shots, rows, p);
  }

  /** Two lists that agree on `p` position by position have the same first
      match. */
  lemma {:induction false} FirstIndexAgree<T>(a: seq<T>, b: seq<T>, p: T -> bool)
    requires |a| == |b| && forall n :: 0 <= n < |a| ==> p(a[n]) == p(b[n])
    ensures FirstIndex(a, p) == FirstIndex(b, p)
    decreases |a|
  {
    if |a| > 0 && !p(a[0]) {
      FirstIndexAgree(a[1..], b[1..], p);
    }
  }

  /** One step of the reorder loop: giving the row found for `ids[i]` sort
      order `i` renumbers the rows by one more position of `ids`. */
  lemma RenumberStep(rows: seq<Screenshot>, projectId: int, ids: seq<int>, i: int, k: int, n: int)
    requires DistinctBy(rows, ScreenshotId)
    requires 0 <= i < |ids| && 0 <= k < |rows| && 0 <= n < |rows|
    requires rows[k].id == ids[i] && rows[k].projectId == projectId
    ensures var before := Renumber(projectId, ids[..i])(rows[n]);
      (if n == k then before.(sortOrder := i) else before) == Renumber(projectId, ids[..i + 1])(rows[n])
  {
    var s := rows[n];
    assert ids[..i + 1] == ids[..i] + [ids[i]];
    if n == k {
      RenumberSnocHit(projectId, ids[..i], ids[i], s);
    } else {
      assert ScreenshotId(rows[n]) != ScreenshotId(rows[k]) by {
        if n > k {
          assert ScreenshotId(rows[k]) != ScreenshotId(rows[n]);
        }
      }
      RenumberSnocMiss(projectId, ids[..i], ids[i], s);
    }
  }

  /** The row whose id comes last in the list takes the last position. */
  lemma RenumberSnocHit(projectId: int, pre: seq<int>, y: int, s: Screenshot)
    requires s.projectId == projectId && s.id == y
    ensures Renumber(projectId, pre)(s).(sortOrder := |pre|) == Renumber(projectId, pre + [y])(s)
  {
    assert (pre + [y])[|pre|] == y;
  }

  /** Any other row keeps the sort order it had. */
  lemma RenumberSnocMiss(projectId: int, pre: seq<int>, y: int, s: Screenshot)
    requires s.id != y
    ensures Renumber(projectId, pre)(s) == Renumber(projectId, pre + [y])(s)
  {
    if s.projectId == projectId && s.id in pre + [y] {
      assert s.id in pre;
      LastIndexOfExtend(pre, y, s.id);
    }
  }

  /** Appending an id other than `x` does not move the last position of `x`. */
  lemma LastIndexOfExtend(ids: seq<int>, y: int, x: int)
    requires x in ids && x != y
    ensures LastIndexOf(ids + [y], x) == LastIndexOf(ids, x)
  {
    assert (ids + [y])[..|ids|] == ids;
  }
}
