/** The read side of the project service: the response records, the
    project as loaded with its tags and ordered screenshots, lookup by id,
    and the filtered, newest-first, paged listing and search. */
module Queries {
  import opened Common
  import opened Seqs
  import opened Text
  import opened Sorting
  import opened Paging
  import opened Store

  /** A screenshot as the API returns it. */
  datatype ScreenshotDto = ScreenshotDto(id: int, url: string, altText: Option<string>, sortOrder: int)

  /** A project as the API returns it. */
  datatype ProjectResponse = ProjectResponse(
    id: int, title: string, description: string,
    liveUrl: Option<string>, sourceUrl: Option<string>, createdAt: int,
    tags: seq<string>, screenshots: seq<ScreenshotDto>)

  /** The search query: optional title and tag filters and the page wanted. */
  datatype SearchRequest = SearchRequest(title: Option<string>, tag: Option<string>,
                                         page: int := DefaultPage, pageSize: int := DefaultPageSize)

  /** The page and page size a request that names neither asks for. */
  const DefaultPage := 1
  const DefaultPageSize := 10

  function ToDto(s: Screenshot): ScreenshotDto {
    ScreenshotDto(s.id, s.url, s.altText, s.sortOrder)
  }

  /** `ToResponse`: the project's columns, the names of its tags and its
      screenshots as records, both in the order they were loaded. */
  function ToResponse(p: Project, tagNames: seq<string>, shots: seq<Screenshot>): (r: ProjectResponse)
    ensures r.id == p.id && r.title == p.title && r.description == p.description
    ensures r.liveUrl == p.liveUrl && r.sourceUrl == p.sourceUrl && r.createdAt == p.createdAt
    ensures r.tags == tagNames
    ensures |r.screenshots| == |shots|
    ensures forall i :: 0 <= i < |shots| ==> r.screenshots[i] == ToDto(shots[i])
  {
    ProjectResponse(p.id, p.title, p.description, p.liveUrl, p.sourceUrl, p.createdAt,
      tagNames, Map(shots, ToDto))
  }

  function SortOrderKey(s: Screenshot): int { s.sortOrder }

  /** `OrderByDescending(CreatedAt)` is `OrderBy` of the negated timestamp. */
  function NewestFirst(p: Project): int { -p.createdAt }

  function DtoSortOrder(d: ScreenshotDto): int { d.sortOrder }

  predicate DtosSorted(s: seq<ScreenshotDto>) {
    forall i, j :: 0 <= i < j < |s| ==> s[i].sortOrder <= s[j].sortOrder
  }

  /** A project as the queries load it: with its tags and with its
      screenshots ordered by `SortOrder`. */
  function Loaded(db: Db, p: Project): (r: ProjectResponse)
    ensures r.id == p.id && r.title == p.title && r.createdAt == p.createdAt
    ensures r.tags == ProjectTagNames(db, p.id)
    ensures |r.screenshots| == |ProjectScreenshots(db, p.id)|
    ensures DtosSorted(r.screenshots)
  {
    var shots := SortBy(ProjectScreenshots(db, p.id), SortOrderKey);
    ToResponse(p, ProjectTagNames(db, p.id), shots)
  }

  /** The loaded screenshots are exactly the project's screenshot rows. */
  lemma LoadedScreenshots(db: Db, p: Project, d: ScreenshotDto)
    ensures d in Loaded(db, p).screenshots <==>
      exists s :: s in db.screenshots && s.projectId == p.id && d == ToDto(s)
  {
    if d in Loaded(db, p).screenshots {
      LoadedScreenshotIsRow(db, p, d);
    }
    if exists s :: s in db.screenshots && s.projectId == p.id && d == ToDto(s) {
      var s :| s in db.screenshots && s.projectId == p.id && d == ToDto(s);
      RowIsLoadedScreenshot(db, p, s);
    }
  }

  lemma LoadedScreenshotIsRow(db: Db, p: Project, d: ScreenshotDto)
    requires d in Loaded(db, p).screenshots
    ensures exists s :: s in db.screenshots && s.projectId == p.id && d == ToDto(s)
  {
    var own := ProjectScreenshots(db, p.id);
    var shots := SortBy(own, SortOrderKey);
    var r := Loaded(db, p).screenshots;
    FilterMembers(db.screenshots, OwnedBy(p.id));
    var i :| 0 <= i < |r| && r[i] == d;
    SortByMembership(own, SortOrderKey, shots[i]);
  }

  lemma RowIsLoadedScreenshot(db: Db, p: Project, s: Screenshot)
    requires s in db.screenshots && s.projectId == p.id
    ensures ToDto(s) in Loaded(db, p).screenshots
  {
    var own := ProjectScreenshots(db, p.id);
    var shots := SortBy(own, SortOrderKey);
    var r := Loaded(db, p).screenshots;
    FilterMembers(db.screenshots, OwnedBy(p.id));
    SortByMembership(own, SortOrderKey, s);
    var i :| 0 <= i < |shots| && shots[i] == s;
    assert r[i] == ToDto(s);
  }

  /** `GetByIdAsync`: the project with that id as loaded, or null. */
  function GetById(db: Db, id: int): (r: Option<ProjectResponse>)
    ensures r.None? <==> id !in ProjectIds(db)
    ensures r.Some? ==> r.value.id == id && r.value.tags == ProjectTagNames(db, id)
    ensures r.Some? ==> DtosSorted(r.value.screenshots)
  {
    match FindProject(db, id)
    case None => None
    case Some(k) => Some(Loaded(db, db.projects[k]))
  }

  /** A stored project is found by its id and loaded from its own row. */
  lemma GetByIdLoadsRow(db: Db, k: int)
    requires ProjectsValid(db) && 0 <= k < |db.projects|
    ensures GetById(db, db.projects[k].id) == Some(Loaded(db, db.projects[k]))
  {
    var j := FindProject(db, db.projects[k].id).value;
    assert !(j < k) && !(k < j);
  }

  /* ---------------------------------------------------------------- */
  /*  Filters                                                          */
  /* ---------------------------------------------------------------- */

  /** `p.Tags.Any(t => t.Name == tag)`. */
  function TagFilter(db: Db, tag: string): Project -> bool {
    (p: Project) => tag in ProjectTagNames(db, p.id)
  }

  /** `p.Title.Contains(title)`. */
  function TitleFilter(title: string): Project -> bool {
    (p: Project) => Contains(p.title, title)
  }

  /** The tag filter, applied only when the tag is not null or white space. */
  function WithTag(db: Db, ps: seq<Project>, tag: Option<string>): (r: seq<Project>)
    ensures IsNullOrWhiteSpace(tag) ==> r == ps
    ensures |r| <= |ps| && forall i :: 0 <= i < |r| ==> r[i] in ps
    ensures !IsNullOrWhiteSpace(tag) ==>
      forall i :: 0 <= i < |r| ==> tag.value in ProjectTagNames(db, r[i].id)
    ensures !IsNullOrWhiteSpace(tag) ==>
      forall i :: 0 <= i < |ps| && tag.value in ProjectTagNames(db, ps[i].id) ==> ps[i] in r
  {
    if IsNullOrWhiteSpace(tag) then ps
    else
      FilterMembers(ps, TagFilter(db, tag.value));
      Filter(ps, TagFilter(db, tag.value))
  }

  /** The title filter, applied only when the title is not null or white space. */
  function WithTitle(ps: seq<Project>, title: Option<string>): (r: seq<Project>)
    ensures IsNullOrWhiteSpace(title) ==> r == ps
    ensures |r| <= |ps| && forall i :: 0 <= i < |r| ==> r[i] in ps
    ensures !IsNullOrWhiteSpace(title) ==>
      forall i :: 0 <= i < |r| ==> Contains(r[i].title, title.value)
    ensures !IsNullOrWhiteSpace(title) ==>
      forall i :: 0 <= i < |ps| && Contains(ps[i].title, title.value) ==> ps[i] in r
  {
    if IsNullOrWhiteSpace(title) then ps
    else
      FilterMembers(ps, TitleFilter(title.value));
      Filter(ps, TitleFilter(title.value))
  }

  /** Whether a project passes both filters; a blank filter passes all. */
  predicate Matches(db: Db, p: Project, title: Option<string>, tag: Option<string>) {
    && (IsNullOrWhiteSpace(title) || Contains(p.title, title.value))
    && (IsNullOrWhiteSpace(tag) || tag.value in ProjectTagNames(db, p.id))
  }

  function MatchFilter(db: Db, title: Option<string>, tag: Option<string>): Project -> bool {
    (p: Project) => Matches(db, p, title, tag)
  }

  /* ---------------------------------------------------------------- */
  /*  Listing and search                                               */
  /* ---------------------------------------------------------------- */

  function View(db: Db): Project -> ProjectResponse {
    (p: Project) => Loaded(db, p)
  }

  /** The shared count, order, skip and take pipeline over the projects the
      filters let through. */
  function Listing(db: Db, matching: seq<Project>, page: int, pageSize: int): (r: PagedResult<ProjectResponse>)
    ensures r.totalCount == |matching| && r.page == page && r.pageSize == pageSize
    ensures |r.items| <= Max(pageSize, 0)
    ensures |r.items| == |PageWindow(SortBy(matching, NewestFirst), page, pageSize)|
    ensures forall i :: 0 <= i < |r.items| ==>
      r.items[i] == Loaded(db, SortBy(matching, NewestFirst)[Max(Offset(page, pageSize), 0) + i])
  {
    var ordered := SortBy(matching, NewestFirst);
    PagedResult(Map(PageWindow(ordered, page, pageSize), View(db)), |matching|, page, pageSize)
  }

  /** `GetAllAsync`, by default the first page of ten; without a tag the
      count is that of every stored project. */
  function GetAll(db: Db, page: int := DefaultPage, pageSize: int := DefaultPageSize,
                  tag: Option<string> := None): (r: PagedResult<ProjectResponse>)
    ensures r.page == page && r.pageSize == pageSize && |r.items| <= Max(pageSize, 0)
    ensures r.totalCount <= |db.projects|
    ensures IsNullOrWhiteSpace(tag) ==> r.totalCount == |db.projects|
  {
    Listing(db, WithTag(db, db.projects, tag), page, pageSize)
  }

  /** `SearchAsync`: the title filter, then the tag filter; with neither,
      the count is that of every stored project. */
  function Search(db: Db, req: SearchRequest): (r: PagedResult<ProjectResponse>)
    ensures r.page == req.page && r.pageSize == req.pageSize && |r.items| <= Max(req.pageSize, 0)
    ensures r.totalCount <= |db.projects|
    ensures IsNullOrWhiteSpace(req.title) && IsNullOrWhiteSpace(req.tag) ==> r.totalCount == |db.projects|
  {
    Listing(db, WithTag(db, WithTitle(db.projects, req.title), req.tag), req.page, req.pageSize)
  }

  /** Both defaults: the first ten projects, newest first. */
  lemma DefaultRequests(db: Db, title: Option<string>, tag: Option<string>)
    ensures GetAll(db) == GetAll(db, 1, 10, None)
    ensures SearchRequest(title, tag) == SearchRequest(title, tag, 1, 10)
  {
  }

  /** Listing all projects is searching without a title. */
  lemma GetAllIsSearchWithoutTitle(db: Db, page: int, pageSize: int, tag: Option<string>)
    ensures GetAll(db, page, pageSize, tag) == Search(db, SearchRequest(None, tag, page, pageSize))
  {
  }

  /** The search's candidates are the projects that pass both filters, in
      store order: the filters combine with AND. */
  lemma SearchMatchesBothFilters(db: Db, title: Option<string>, tag: Option<string>)
    ensures WithTag(db, WithTitle(db.projects, title), tag) == Filter(db.projects, MatchFilter(db, title, tag))
  {
    var both := MatchFilter(db, title, tag);
    if IsNullOrWhiteSpace(title) && IsNullOrWhiteSpace(tag) {
      FilterAll(db.projects, both);
    } else if IsNullOrWhiteSpace(title) {
      FilterCongruent(db.projects, TagFilter(db, tag.value), both);
    } else if IsNullOrWhiteSpace(tag) {
      FilterCongruent(db.projects, TitleFilter(title.value), both);
    } else {
      FilterFilter(db.projects, TitleFilter(title.value), TagFilter(db, tag.value), both);
    }
  }

  /** `totalCount` is the number of projects passing both filters, whatever
      page is asked for. */
  lemma SearchTotalCount(db: Db, req: SearchRequest)
    ensures Search(db, req).totalCount == |Filter(db.projects, MatchFilter(db, req.title, req.tag))|
  {
    SearchMatchesBothFilters(db, req.title, req.tag);
  }

  /** Every item of a listing is the loaded form of one of its candidates. */
  lemma ListingItemFrom(db: Db, matching: seq<Project>, page: int, pageSize: int, i: int)
    requires 0 <= i < |Listing(db, matching, page, pageSize).items|
    ensures exists p :: p in matching && Listing(db, matching, page, pageSize).items[i] == Loaded(db, p)
  {
    var ordered := SortBy(matching, NewestFirst);
    var p := ordered[Max(Offset(page, pageSize), 0) + i];
    SortByMembership(matching, NewestFirst, p);
  }

  /** A candidate of the search is a stored project passing both filters. */
  lemma MatchingCandidate(db: Db, title: Option<string>, tag: Option<string>, p: Project)
    requires p in WithTag(db, WithTitle(db.projects, title), tag)
    ensures p in db.projects && Matches(db, p, title, tag)
  {
    SearchMatchesBothFilters(db, title, tag);
    var r := Filter(db.projects, MatchFilter(db, title, tag));
    var k :| 0 <= k < |r| && r[k] == p;
    assert MatchFilter(db, title, tag)(r[k]);
  }

  /** Every item of a page is a stored project that passes both filters. */
  lemma SearchItemsMatch(db: Db, req: SearchRequest, i: int)
    requires 0 <= i < |Search(db, req).items|
    ensures exists p :: p in db.projects && Matches(db, p, req.title, req.tag) && Search(db, req).items[i] == Loaded(db, p)
    ensures !IsNullOrWhiteSpace(req.tag) ==> req.tag.value in Search(db, req).items[i].tags
    ensures !IsNullOrWhiteSpace(req.title) ==> Contains(Search(db, req).items[i].title, req.title.value)
  {
    var matching := WithTag(db, WithTitle(db.projects, req.title), req.tag);
    var item := Search(db, req).items[i];
    assert Search(db, req) == Listing(db, matching, req.page, req.pageSize);
    ListingItemFrom(db, matching, req.page, req.pageSize, i);
    var p :| p in matching && item == Loaded(db, p);
    MatchingCandidate(db, req.title, req.tag, p);
    assert item.tags == ProjectTagNames(db, p.id) && item.title == p.title;
  }

  /** The items of a page are ordered newest first. */
  lemma SearchNewestFirst(db: Db, req: SearchRequest)
    ensures forall i, j :: 0 <= i < j < |Search(db, req).items| ==>
      Search(db, req).items[i].createdAt >= Search(db, req).items[j].createdAt
  {
    var matching := WithTag(db, WithTitle(db.projects, req.title), req.tag);
    var ordered := SortBy(matching, NewestFirst);
    var off := Max(Offset(req.page, req.pageSize), 0);
    var items := Search(db, req).items;
    forall i, j | 0 <= i < j < |items| ensures items[i].createdAt >= items[j].createdAt {
      assert NewestFirst(ordered[off + i]) <= NewestFirst(ordered[off + j]);
    }
  }

  /** A page holds items exactly when it is not past the last page. */
  lemma SearchPastEndIsEmpty(db: Db, req: SearchRequest)
    requires 1 <= req.page && 1 <= req.pageSize
    ensures Search(db, req).items == [] <==> req.page > Search(db, req).TotalPages()
  {
    var matching := WithTag(db, WithTitle(db.projects, req.title), req.tag);
    PageEmptyIffPastEnd(SortBy(matching, NewestFirst), req.page, req.pageSize);
  }

  /** Two different pages of a listing of distinct projects share no id. */
  lemma ListingPagesDisjoint(db: Db, matching: seq<Project>, page1: int, page2: int, pageSize: int)
    requires DistinctBy(matching, ProjectId)
    requires 1 <= page1 < page2 && 1 <= pageSize
    ensures forall i, j ::
      (0 <= i < |Listing(db, matching, page1, pageSize).items| && 0 <= j < |Listing(db, matching, page2, pageSize).items|) ==>
      Listing(db, matching, page1, pageSize).items[i].id != Listing(db, matching, page2, pageSize).items[j].id
  {
    var ordered := SortBy(matching, NewestFirst);
    var a, b := Listing(db, matching, page1, pageSize).items, Listing(db, matching, page2, pageSize).items;
    var w1, w2 := PageWindow(ordered, page1, pageSize), PageWindow(ordered, page2, pageSize);
    SortByDistinctBy(matching, NewestFirst, ProjectId);
    WindowsApart(ordered, ProjectId, page1, page2, pageSize);
    forall i, j | 0 <= i < |a| && 0 <= j < |b| ensures a[i].id != b[j].id {
      assert a[i].id == ProjectId(w1[i]) && b[j].id == ProjectId(w2[j]);
    }
  }

  /** Two different pages of the same search share no project. */
  lemma SearchPagesDisjoint(db: Db, req: SearchRequest, otherPage: int)
    requires ProjectsValid(db)
    requires 1 <= req.page < otherPage && 1 <= req.pageSize
    ensures forall i, j :: 0 <= i < |Search(db, req).items| && 0 <= j < |Search(db, req.(page := otherPage)).items| ==>
      Search(db, req).items[i].id != Search(db, req.(page := otherPage)).items[j].id
  {
    var matching := WithTag(db, WithTitle(db.projects, req.title), req.tag);
    assert DistinctBy(db.projects, ProjectId);
    SearchMatchesBothFilters(db, req.title, req.tag);
    FilterDistinctBy(db.projects, MatchFilter(db, req.title, req.tag), ProjectId);
    assert Search(db, req) == Listing(db, matching, req.page, req.pageSize);
    assert Search(db, req.(page := otherPage)) == Listing(db, matching, otherPage, req.pageSize);
    ListingPagesDisjoint(db, matching, req.page, otherPage, req.pageSize);
  }

  /** A project of a page window is listed on that page. */
  lemma ListingHasEntry(db: Db, matching: seq<Project>, x: Project, page: int, pageSize: int)
    requires 1 <= page && 1 <= pageSize
    requires x in PageWindow(SortBy(matching, NewestFirst), page, pageSize)
    ensures Loaded(db, x) in Listing(db, matching, page, pageSize).items
  {
    var w := PageWindow(SortBy(matching, NewestFirst), page, pageSize);
    assert Listing(db, matching, page, pageSize).items == Map(w, View(db));
    MapMembership(w, View(db), x);
  }

  /** Every project passing the filters is on some page. */
  lemma SearchListsEveryMatch(db: Db, req: SearchRequest, p: Project)
    requires 1 <= req.page && 1 <= req.pageSize
    requires p in db.projects && Matches(db, p, req.title, req.tag)
    ensures exists page :: 1 <= page && Loaded(db, p) in Search(db, req.(page := page)).items
  {
    var matching := WithTag(db, WithTitle(db.projects, req.title), req.tag);
    assert p in matching by {
      SearchMatchesBothFilters(db, req.title, req.tag);
      var n :| 0 <= n < |db.projects| && db.projects[n] == p;
      assert MatchFilter(db, req.title, req.tag)(db.projects[n]);
    }
    var ordered := SortBy(matching, NewestFirst);
    SortByMembership(matching, NewestFirst, p);
    var k :| 0 <= k < |ordered| && ordered[k] == p;
    EntryHasPage(ordered, k, req.pageSize);
    var page :| 1 <= page && p in PageWindow(ordered, page, req.pageSize);
    ListingHasEntry(db, matching, p, page, req.pageSize);
    assert Search(db, req.(page := page)) == Listing(db, matching, page, req.pageSize);
  }
}
