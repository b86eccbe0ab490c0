/** The relational state behind the project service (the `Projects`, `Tags`,
    `Screenshots` sets of the database context and the `ProjectTags` join
    table), the invariant the service keeps on it, and tag resolution. */
module Store {
  import opened Common
  import opened Seqs

  /** A project row; `createdAt` is a UTC timestamp in ticks. */
  datatype Project = Project(
    id: int, title: string, description: string,
    liveUrl: Option<string>, sourceUrl: Option<string>, createdAt: int)

  /** A tag row; tags are shared between projects and identified by name. */
  datatype Tag = Tag(id: int, name: string)

  /** A row of the `ProjectTags` join table. */
  datatype ProjectTag = ProjectTag(projectId: int, tagId: int)

  /** A screenshot row, owned by the project `projectId`. */
  datatype Screenshot = Screenshot(
    id: int, projectId: int, url: string, altText: Option<string>, sortOrder: int)

  /** The database. The `next…` counters stand for the identity columns,
      which hand out increasing ids starting at 1. */
  datatype Db = Db(
    projects: seq<Project>, tags: seq<Tag>, projectTags: seq<ProjectTag>,
    screenshots: seq<Screenshot>,
    nextProjectId: int, nextTagId: int, nextScreenshotId: int)

  const EmptyDb: Db := Db([], [], [], [], 1, 1, 1)

  function ProjectId(p: Project): int { p.id }
  function ScreenshotId(s: Screenshot): int { s.id }
  function ProjectIds(db: Db): set<int> { set p | p in db.projects :: p.id }
  function TagIds(tags: seq<Tag>): set<int> { set t | t in tags :: t.id }

  /* ---------------------------------------------------------------- */
  /*  The store invariant                                              */
  /* ---------------------------------------------------------------- */

  /** Project ids are distinct and were handed out by the identity counter. */
  predicate ProjectsValid(db: Db) {
    && db.nextProjectId >= 1
    && (forall i, j :: 0 <= i < j < |db.projects| ==> db.projects[i].id != db.projects[j].id)
    && (forall i :: 0 <= i < |db.projects| ==> 1 <= db.projects[i].id < db.nextProjectId)
  }

  /** Tag ids are distinct and handed out by the counter, and no two tag rows
      carry the same name: the tag table is keyed by name. */
  predicate TagsValid(tags: seq<Tag>, nextTagId: int) {
    && nextTagId >= 1
    && (forall i, j :: 0 <= i < j < |tags| ==> tags[i].id != tags[j].id)
    && (forall i, j :: 0 <= i < j < |tags| ==> tags[i].name != tags[j].name)
    && (forall i :: 0 <= i < |tags| ==> 1 <= tags[i].id < nextTagId)
  }

  /** Screenshot ids are distinct and handed out by the counter, and every
      screenshot belongs to an existing project (cascade delete). */
  predicate ScreenshotsValid(db: Db) {
    && db.nextScreenshotId >= 1
    && (forall i, j :: 0 <= i < j < |db.screenshots| ==> db.screenshots[i].id != db.screenshots[j].id)
    && (forall i :: 0 <= i < |db.screenshots| ==> 1 <= db.screenshots[i].id < db.nextScreenshotId)
    && (forall i :: 0 <= i < |db.screenshots| ==> db.screenshots[i].projectId in ProjectIds(db))
  }

  /** Join rows are distinct and link existing projects to existing tags. */
  predicate ProjectTagsValid(db: Db) {
    && NoDuplicates(db.projectTags)
    && (forall i :: 0 <= i < |db.projectTags| ==> db.projectTags[i].projectId in ProjectIds(db))
    && (forall i :: 0 <= i < |db.projectTags| ==> db.projectTags[i].tagId in TagIds(db.tags))
  }

  predicate Valid(db: Db) {
    ProjectsValid(db) && TagsValid(db.tags, db.nextTagId) && ScreenshotsValid(db) && ProjectTagsValid(db)
  }

  /** The empty database satisfies the invariant. */
  lemma EmptyDbValid()
    ensures Valid(EmptyDb)
  {
  }

  /* ---------------------------------------------------------------- */
  /*  Lookups                                                          */
  /* ---------------------------------------------------------------- */

  function HasId(id: int): Project -> bool { (p: Project) => p.id == id }
  function TagNamed(name: string): Tag -> bool { (t: Tag) => t.name == name }
  function TagWithId(id: int): Tag -> bool { (t: Tag) => t.id == id }

  /** `FirstOrDefault(p => p.Id == id)` on the projects. */
  function FindProject(db: Db, id: int): Option<nat> { FirstIndex(db.projects, HasId(id)) }

  /** `FirstOrDefault(t => t.Name == name)` on the persisted tags. */
  function FindTag(tags: seq<Tag>, name: string): Option<nat> { FirstIndex(tags, TagNamed(name)) }

  /** The names of the tags with the given ids, in the order of `ids`; an id
      without a tag row contributes nothing, as in a join. */
  function NamesOf(tags: seq<Tag>, ids: seq<int>): (r: seq<string>)
    ensures |r| <= |ids|
    decreases |ids|
  {
    if |ids| == 0 then []
    else
      NamesOf(tags, ids[..|ids| - 1]) +
      match FirstIndex(tags, TagWithId(ids[|ids| - 1]))
      case Some(k) => [tags[k].name]
      case None => []
  }

  /** The tag ids linked to project `pid`, in join-row order. */
  function TagIdsOf(links: seq<ProjectTag>, pid: int): (r: seq<int>)
    ensures forall k :: 0 <= k < |r| ==> ProjectTag(pid, r[k]) in links
    decreases |links|
  {
    if |links| == 0 then []
    else
      var last := links[|links| - 1];
      TagIdsOf(links[..|links| - 1], pid) + (if last.projectId == pid then [last.tagId] else [])
  }

  /** The names of the tags of project `pid` (the loaded `project.Tags`). */
  function ProjectTagNames(db: Db, pid: int): seq<string> {
    NamesOf(db.tags, TagIdsOf(db.projectTags, pid))
  }

  function OwnedBy(pid: int): Screenshot -> bool { (s: Screenshot) => s.projectId == pid }
  function NotOwnedBy(pid: int): Screenshot -> bool { (s: Screenshot) => s.projectId != pid }
  function LinkNotOf(pid: int): ProjectTag -> bool { (l: ProjectTag) => l.projectId != pid }

  /** The screenshots of project `pid` (the loaded `project.Screenshots`). */
  function ProjectScreenshots(db: Db, pid: int): seq<Screenshot> {
    Filter(db.screenshots, OwnedBy(pid))
  }

  /** The join rows linking project `pid` to the tags `tagIds`. */
  function Links(pid: int, tagIds: seq<int>): (r: seq<ProjectTag>)
    ensures |r| == |tagIds|
    ensures forall i :: 0 <= i < |r| ==> r[i] == ProjectTag(pid, tagIds[i])
  {
    seq(|tagIds|, i requires 0 <= i < |tagIds| => ProjectTag(pid, tagIds[i]))
  }

  /* ---------------------------------------------------------------- */
  /*  Tag rows and their names                                         */
  /* ---------------------------------------------------------------- */

  function TagId(t: Tag): int { t.id }
  function TagName(t: Tag): string { t.name }

  /** Two tag rows with the same id in a table of distinct ids are one row. */
  lemma SameTagId(tags: seq<Tag>, nextTagId: int, a: Tag, b: Tag)
    requires TagsValid(tags, nextTagId) && a in tags && b in tags && a.id == b.id
    ensures a == b
  {
    var i :| 0 <= i < |tags| && tags[i] == a;
    var j :| 0 <= j < |tags| && tags[j] == b;
    assert !(i < j) && !(j < i);
  }

  /** So two different rows of such a table have different ids. */
  lemma DistinctTagIds(tags: seq<Tag>, nextTagId: int, a: Tag, b: Tag)
    requires TagsValid(tags, nextTagId) && a in tags && b in tags && a != b
    ensures a.id != b.id
  {
    if a.id == b.id {
      SameTagId(tags, nextTagId, a, b);
    }
  }

  /** Looking up the name of an id whose row is `Tag(id, name)` finds `name`,
      for every id of the list. */
  lemma {:induction false} NamesOfRows(tags: seq<Tag>, nextTagId: int, rows: seq<Tag>)
    requires TagsValid(tags, nextTagId)
    requires forall i :: 0 <= i < |rows| ==> rows[i] in tags
    ensures NamesOf(tags, Map(rows, TagId)) == Map(rows, TagName)
    decreases |rows|
  {
    if |rows| > 0 {
      var n := |rows| - 1;
      var prefix := rows[..n];
      NamesOfRows(tags, nextTagId, prefix);
      MapSnoc(rows, TagId);
      MapSnoc(rows, TagName);
      NamesOfRow(tags, nextTagId, Map(prefix, TagId), rows[n]);
    }
  }

  /** The id of a tag row contributes that row's name. */
  lemma NamesOfRow(tags: seq<Tag>, nextTagId: int, ids: seq<int>, t: Tag)
    requires TagsValid(tags, nextTagId) && t in tags
    ensures NamesOf(tags, ids + [t.id]) == NamesOf(tags, ids) + [t.name]
  {
    assert (ids + [t.id])[..|ids|] == ids;
    var k := FirstIndex(tags, TagWithId(t.id)).value;
    SameTagId(tags, nextTagId, tags[k], t);
  }

  /* ---------------------------------------------------------------- */
  /*  Tag resolution                                                   */
  /* ---------------------------------------------------------------- */

  /** The tags a request's names resolve to, one per name in order, and the
      new tag rows among them, to be inserted. */
  datatype Resolution = Resolution(resolved: seq<Tag>, created: seq<Tag>)

  /** A name that no persisted tag carries. */
  function Unseen(persisted: seq<Tag>): string -> bool {
    (name: string) => FindTag(persisted, name).None?
  }

  /** For each name in order: the first persisted tag of that name is
      reused; otherwise a new tag row is staged. Lookups see only the
      persisted tags, never the rows staged for the same request. */
  function ResolveTags(persisted: seq<Tag>, names: seq<string>, nextId: int): (r: Resolution)
    ensures |r.resolved| == |names| && |r.created| <= |names|
    // every name resolves to a tag of exactly that name
    ensures forall i :: 0 <= i < |names| ==> r.resolved[i].name == names[i]
    // new rows take consecutive fresh ids
    ensures forall j :: 0 <= j < |r.created| ==> r.created[j].id == nextId + j
    decreases |names|
  {
    if |names| == 0 then Resolution([], [])
    else
      var prev := ResolveTags(persisted, names[..|names| - 1], nextId);
      var name := names[|names| - 1];
      match FindTag(persisted, name)
      case Some(k) => Resolution(prev.resolved + [persisted[k]], prev.created)
      case None =>
        var t := Tag(nextId + |prev.created|, name);
        Resolution(prev.resolved + [t], prev.created + [t])
  }

  /** A name at position `i` that a persisted tag carries extends the
      resolution of the names before it by that tag, staging nothing. */
  lemma ResolveTagsReuses(persisted: seq<Tag>, names: seq<string>, i: int, nextId: int, prev: Resolution, k: nat)
    requires 0 <= i < |names| && prev == ResolveTags(persisted, names[..i], nextId)
    requires FindTag(persisted, names[i]) == Some(k)
    ensures k < |persisted|
    ensures ResolveTags(persisted, names[..i + 1], nextId) == Resolution(prev.resolved + [persisted[k]], prev.created)
  {
    assert names[..i + 1][..i] == names[..i];
  }

  /** A name at position `i` that no persisted tag carries is staged as a
      new row with the next free id. */
  lemma ResolveTagsStages(persisted: seq<Tag>, names: seq<string>, i: int, nextId: int, prev: Resolution)
    requires 0 <= i < |names| && prev == ResolveTags(persisted, names[..i], nextId)
    requires FindTag(persisted, names[i]).None?
    ensures var t := Tag(nextId + |prev.created|, names[i]);
      ResolveTags(persisted, names[..i + 1], nextId) == Resolution(prev.resolved + [t], prev.created + [t])
  {
    assert names[..i + 1][..i] == names[..i];
  }

  /** The staged rows carry exactly the requested names that no persisted tag
      carries, in request order. */
  lemma {:induction false} ResolveTagsCreatesUnseen(persisted: seq<Tag>, names: seq<string>, nextId: int)
    ensures Map(ResolveTags(persisted, names, nextId).created, TagName) == Filter(names, Unseen(persisted))
    decreases |names|
  {
    if |names| > 0 {
      var prefix, name := names[..|names| - 1], names[|names| - 1];
      ResolveTagsCreatesUnseen(persisted, prefix, nextId);
      var prev := ResolveTags(persisted, prefix, nextId);
      var created := ResolveTags(persisted, names, nextId).created;
      if FindTag(persisted, name).Some? {
        assert created == prev.created;
        assert Filter(names, Unseen(persisted)) == Filter(prefix, Unseen(persisted));
      } else {
        var t := Tag(nextId + |prev.created|, name);
        assert created == prev.created + [t];
        assert Filter(names, Unseen(persisted)) == Filter(prefix, Unseen(persisted)) + [name];
        MapConcat(prev.created, [t], TagName);
        assert Map([t], TagName) == [name];
      }
    }
  }

  /** Each name resolves to the first persisted tag of that name when there
      is one, and otherwise to one of the staged rows. */
  lemma {:induction false} ResolveTagsResolves(persisted: seq<Tag>, names: seq<string>, nextId: int, i: int)
    requires 0 <= i < |names|
    ensures var r := ResolveTags(persisted, names, nextId);
      match FindTag(persisted, names[i])
      case Some(k) => r.resolved[i] == persisted[k]
      case None => r.resolved[i] in r.created
    decreases |names|
  {
    var prefix := names[..|names| - 1];
    if i < |names| - 1 {
      ResolveTagsResolves(persisted, prefix, nextId, i);
      assert prefix[i] == names[i];
    }
  }

  /** The staged rows carry names no persisted row carries and, for
      distinct request names, names distinct from each other. */
  lemma ResolveTagsFreshNames(tags: seq<Tag>, names: seq<string>, nextId: int)
    requires NoDuplicates(names)
    ensures forall j :: 0 <= j < |ResolveTags(tags, names, nextId).created| ==>
      FindTag(tags, ResolveTags(tags, names, nextId).created[j].name).None?
    ensures forall i, j :: 0 <= i < j < |ResolveTags(tags, names, nextId).created| ==>
      ResolveTags(tags, names, nextId).created[i].name != ResolveTags(tags, names, nextId).created[j].name
  {
    var c := ResolveTags(tags, names, nextId).created;
    ResolveTagsCreatesUnseen(tags, names, nextId);
    FilterNoDuplicates(names, Unseen(tags));
    var createdNames := Map(c, TagName);
    forall j | 0 <= j < |c| ensures FindTag(tags, c[j].name).None? {
      assert createdNames[j] == c[j].name;
      assert Unseen(tags)(createdNames[j]);
    }
    forall i, j | 0 <= i < j < |c| ensures c[i].name != c[j].name {
      assert createdNames[i] == c[i].name && createdNames[j] == c[j].name;
    }
  }

  /** Lookups see only persisted rows, so a new name written twice in one
      request is staged twice, as two rows of the same name. */
  lemma ResolveTagsStagesRepeatTwice(name: string)
    ensures ResolveTags([], [name, name], 1).created == [Tag(1, name), Tag(2, name)]
  {
    assert [name, name][..1] == [name];
    assert [name][..0] == [];
  }

  /** With distinct request names, resolution keeps the tag table valid. */
  lemma ResolveTagsKeepsTagsValid(tags: seq<Tag>, nextTagId: int, names: seq<string>)
    requires TagsValid(tags, nextTagId) && NoDuplicates(names)
    ensures var c := ResolveTags(tags, names, nextTagId).created;
      TagsValid(tags + c, nextTagId + |c|)
  {
    var c := ResolveTags(tags, names, nextTagId).created;
    var all := tags + c;
    ResolveTagsFreshNames(tags, names, nextTagId);
    forall i, j | 0 <= i < j < |all| ensures all[i].id != all[j].id && all[i].name != all[j].name {
      if j < |tags| {
        assert all[i] == tags[i] && all[j] == tags[j];
      } else if i < |tags| {
        assert all[i] == tags[i] && all[j] == c[j - |tags|];
        assert FindTag(tags, c[j - |tags|].name).None?;
        assert !TagNamed(c[j - |tags|].name)(tags[i]);
      } else {
        assert all[i] == c[i - |tags|] && all[j] == c[j - |tags|];
        assert c[i - |tags|].name != c[j - |tags|].name;
      }
    }
  }

  /** Every resolved tag is a row of the table the resolution extends, and
      for distinct request names the resolved tags have distinct ids, so
      the new join rows are distinct. */
  lemma ResolvedTagsAreRows(tags: seq<Tag>, nextTagId: int, names: seq<string>)
    requires TagsValid(tags, nextTagId) && NoDuplicates(names)
    ensures var r := ResolveTags(tags, names, nextTagId);
      && (forall i :: 0 <= i < |names| ==> r.resolved[i] in tags + r.created)
      && DistinctBy(r.resolved, TagId)
  {
    var r := ResolveTags(tags, names, nextTagId);
    ResolvedInTable(tags, nextTagId, names);
    ResolveTagsKeepsTagsValid(tags, nextTagId, names);
    RowsOfDistinctNames(tags + r.created, nextTagId + |r.created|, r.resolved, names);
  }

  /** Every resolved tag is a persisted or a staged row. */
  lemma ResolvedInTable(tags: seq<Tag>, nextTagId: int, names: seq<string>)
    ensures var r := ResolveTags(tags, names, nextTagId);
      forall i :: 0 <= i < |names| ==> r.resolved[i] in tags + r.created
  {
    var r := ResolveTags(tags, names, nextTagId);
    forall i | 0 <= i < |names| ensures r.resolved[i] in tags + r.created {
      ResolveTagsResolves(tags, names, nextTagId, i);
    }
  }

  /** Rows of a valid tag table that carry distinct names have distinct
      ids. */
  lemma RowsOfDistinctNames(tags: seq<Tag>, nextTagId: int, rows: seq<Tag>, names: seq<string>)
    requires TagsValid(tags, nextTagId) && forall i :: 0 <= i < |rows| ==> rows[i] in tags
    requires NoDuplicates(names) && |rows| == |names|
    requires forall i :: 0 <= i < |rows| ==> rows[i].name == names[i]
    ensures DistinctBy(rows, TagId)
  {
    forall i, j | 0 <= i < j < |rows| ensures TagId(rows[i]) != TagId(rows[j]) {
      assert rows[i].name != rows[j].name;
      DistinctTagIds(tags, nextTagId, rows[i], rows[j]);
    }
  }


  /* ---------------------------------------------------------------- */
  /*  How the lookups behave when rows are added or removed            */
  /* ---------------------------------------------------------------- */

  lemma {:induction false} TagIdsOfConcat(a: seq<ProjectTag>, b: seq<ProjectTag>, pid: int)
    ensures TagIdsOf(a + b, pid) == TagIdsOf(a, pid) + TagIdsOf(b, pid)
    decreases |b|
  {
    if |b| == 0 {
      assert a + b == a;
    } else {
      var b' := b[..|b| - 1];
      assert (a + b)[..|a + b| - 1] == a + b';
      assert (a + b)[|a + b| - 1] == b[|b| - 1];
      TagIdsOfConcat(a, b', pid);
    }
  }

  /** A project no join row mentions has no tags. */
  lemma {:induction false} TagIdsOfNone(links: seq<ProjectTag>, pid: int)
    requires forall i :: 0 <= i < |links| ==> links[i].projectId != pid
    ensures TagIdsOf(links, pid) == []
    decreases |links|
  {
    if |links| > 0 {
      TagIdsOfNone(links[..|links| - 1], pid);
    }
  }

  /** The join rows written for a project list exactly the given tags. */
  lemma {:induction false} TagIdsOfLinks(pid: int, ids: seq<int>)
    ensures TagIdsOf(Links(pid, ids), pid) == ids
    decreases |ids|
  {
    if |ids| > 0 {
      var n := |ids| - 1;
      assert Links(pid, ids)[..n] == Links(pid, ids[..n]);
      TagIdsOfLinks(pid, ids[..n]);
      assert ids == ids[..n] + [ids[n]];
    }
  }

  /** Dropping the join rows of one project leaves every other project's tags. */
  lemma {:induction false} TagIdsOfDropOther(links: seq<ProjectTag>, pid: int, other: int)
    requires other != pid
    ensures TagIdsOf(Filter(links, LinkNotOf(pid)), other) == TagIdsOf(links, other)
    decreases |links|
  {
    if |links| > 0 {
      var l := links[..|links| - 1];
      var x := links[|links| - 1];
      TagIdsOfDropOther(l, pid, other);
      TagIdsOfConcat(Filter(l, LinkNotOf(pid)), if LinkNotOf(pid)(x) then [x] else [], other);
    }
  }

  /** Adding tag rows changes no name lookup of an id that already has a row. */
  lemma {:induction false} NamesOfExtend(tags: seq<Tag>, more: seq<Tag>, ids: seq<int>)
    requires forall i :: 0 <= i < |ids| ==> ids[i] in TagIds(tags)
    ensures NamesOf(tags + more, ids) == NamesOf(tags, ids)
    decreases |ids|
  {
    if |ids| > 0 {
      var n := |ids| - 1;
      NamesOfExtend(tags, more, ids[..n]);
      var t :| t in tags && t.id == ids[n];
      var i :| 0 <= i < |tags| && tags[i] == t;
      assert TagWithId(ids[n])(tags[i]);
      FirstIndexAppend(tags, more, TagWithId(ids[n]));
    }
  }

  /** The tag names of a project whose only join rows are appended ones,
      to rows of a valid tag table, are the names of those rows. */
  lemma TagNamesOfNewLinks(links: seq<ProjectTag>, pid: int, tags: seq<Tag>, nextTagId: int, rows: seq<Tag>)
    requires forall i :: 0 <= i < |links| ==> links[i].projectId != pid
    requires TagsValid(tags, nextTagId)
    requires forall i :: 0 <= i < |rows| ==> rows[i] in tags
    ensures NamesOf(tags, TagIdsOf(links + Links(pid, Map(rows, TagId)), pid)) == Map(rows, TagName)
  {
    var ids := Map(rows, TagId);
    TagIdsOfConcat(links, Links(pid, ids), pid);
    TagIdsOfNone(links, pid);
    TagIdsOfLinks(pid, ids);
    assert TagIdsOf(links + Links(pid, ids), pid) == ids;
    NamesOfRows(tags, nextTagId, rows);
  }

  /** The join rows from `pid` to the tags its names resolve to, after rows
      of other projects, give back those names once the staged rows are in
      the table. */
  lemma ResolvedLinkNames(links: seq<ProjectTag>, pid: int, tags: seq<Tag>, nextTagId: int, names: seq<string>)
    requires forall i :: 0 <= i < |links| ==> links[i].projectId != pid
    requires TagsValid(tags, nextTagId) && NoDuplicates(names)
    ensures var r := ResolveTags(tags, names, nextTagId);
      NamesOf(tags + r.created, TagIdsOf(links + Links(pid, Map(r.resolved, TagId)), pid)) == names
  {
    var r := ResolveTags(tags, names, nextTagId);
    ResolveTagsKeepsTagsValid(tags, nextTagId, names);
    ResolvedInTable(tags, nextTagId, names);
    TagNamesOfNewLinks(links, pid, tags + r.created, nextTagId + |r.created|, r.resolved);
    assert Map(r.resolved, TagName) == names;
  }

  /** The tag names of a project are unchanged by new tag rows when the join
      table is valid. */
  lemma ProjectTagNamesExtend(db: Db, more: seq<Tag>, pid: int)
    requires ProjectTagsValid(db)
    ensures NamesOf(db.tags + more, TagIdsOf(db.projectTags, pid)) == ProjectTagNames(db, pid)
  {
    var ids := TagIdsOf(db.projectTags, pid);
    forall k | 0 <= k < |ids| ensures ids[k] in TagIds(db.tags) {
      var i :| 0 <= i < |db.projectTags| && db.projectTags[i] == ProjectTag(pid, ids[k]);
    }
    NamesOfExtend(db.tags, more, ids);
  }
}
