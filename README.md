# Portfolio: a verified model of the project service, the project form, toasts, authentication and the admin guard

The portfolio is a full-stack application. An ASP.NET Core API stores
projects: each has tags, shared between projects by name, and an ordered
list of screenshots. An Angular front end lists the projects and lets an
administrator edit them. This Dafny project models the core of both sides
and proves properties about the model:

- **`ProjectService`** (modules `Store`, `Queries`, `Commands`, `Service`).
  - The database is a value: the `Projects`, `Tags`, `ProjectTags` and
    `Screenshots` tables plus the identity counters. `Store.Valid` states
    its invariant: ids are distinct and handed out by the counters, tag
    names are distinct, and every join row and screenshot points at rows
    that exist.
  - Every operation is a function of the database. It gives the new
    database and the result; a `KeyNotFoundException` becomes `NotFound`.
  - Every operation is proved to keep the invariant. Create, update,
    delete and screenshot upload are also proved to leave every other
    project's data alone and to agree with reading the project back
    through `GetById`.
  - Class `Service.ProjectService` holds the tables as fields that its
    methods update in place. Each method is proved to give exactly the
    state and result of its function. This covers the tag-resolution loop
    of create and update and the renumbering loop of the screenshot
    reorder.
  - The list and search queries filter (title by ordinal `Contains`, tag
    by name), count, order newest first (LINQ's stable `OrderBy`), skip
    and take.
  - Upload and delete derive file paths with `Path.Combine` and
    `Path.GetExtension`, using the Unix separator `/`. The path a delete
    computes from an uploaded screenshot's URL is proved to be the path
    the upload wrote.
- **The project form component** (module `ProjectForm`):
  - the comma-separated tag field (JavaScript `split`, `trim`, `filter`);
  - moving a screenshot up or down;
  - the queue of picked image files and its upload loop;
  - screenshot removal.

  Server calls appear as the request the form sends plus the reply it
  receives, which is a parameter.
- **The toast service** (module `Toasts`): a queue that `show` appends to
  and `dismiss` filters. Ids come from a counter that only grows.
- **`AuthController`** (modules `Users`, `Auth`): registration with the
  email and user-name conflict checks, and login by email and password.
  `BCrypt.HashPassword` and `BCrypt.Verify` are function parameters.
- **`DbInitializer.SeedAsync`** (module `DbInitializer`): the development
  admin account.
- **`adminGuard`** (module `AdminGuard`).

Shared modules:

- `Seqs`: LINQ `Where`, `Select`, `FirstOrDefault`;
- `Sorting`: `OrderBy` as a stable insertion sort;
- `Paging`: `Skip`/`Take` and the page record;
- `Text`: the .NET and JavaScript string functions;
- `Int32`: C#'s unchecked `int`;
- `Common`: `Option`.

## Model

Source paths are relative to the repository root.

| member | source | states |
|---|---|---|
| Store.EmptyDbValid | src/backend/Portfolio.Api/Data/AppDbContext.cs:10-31 | the empty database, with every identity counter at 1, satisfies the store invariant |
| Store.ResolveTags | src/backend/Portfolio.Api/Services/ProjectService.cs:66-73 | one resolved tag per requested name, in order. Each carries exactly that name. Newly staged rows take consecutive ids from the tag counter |
| Store.ResolveTagsResolves | src/backend/Portfolio.Api/Services/ProjectService.cs:69-72 | a name resolves to the first persisted tag of that name when there is one. Otherwise it resolves to one of the staged rows |
| Store.ResolveTagsCreatesUnseen | src/backend/Portfolio.Api/Services/ProjectService.cs:66-73 | the staged rows' names are exactly the requested names no persisted tag carries, in request order |
| Store.ResolveTagsFreshNames | src/backend/Portfolio.Api/Services/ProjectService.cs:69-72 | staged names clash with no persisted tag. When the request's names are distinct, they clash with each other neither |
| Store.ResolveTagsStagesRepeatTwice | src/backend/Portfolio.Api/Services/ProjectService.cs:69-72 | a new name written twice in one request is staged as two rows with the same name, because lookups see only persisted rows |
| Store.ResolveTagsKeepsTagsValid | src/backend/Portfolio.Api/Services/ProjectService.cs:66-73 | with distinct request names, the tag table plus the staged rows still has distinct ids and distinct names |
| Store.ResolvedTagsAreRows | src/backend/Portfolio.Api/Services/ProjectService.cs:72-76 | every resolved tag is a row of the extended table, and resolved tags have distinct ids, so the new join rows are distinct |
| Store.TagIdsOfLinks | src/backend/Portfolio.Api/Services/ProjectService.cs:72-76 | the join rows written for a project list exactly the given tag ids, in order |
| Store.TagIdsOfDropOther | src/backend/Portfolio.Api/Services/ProjectService.cs:96 | dropping one project's join rows leaves every other project's tag ids unchanged |
| Store.NamesOfExtend | src/backend/Portfolio.Api/Services/ProjectService.cs:72 | adding tag rows changes no name lookup of an id that already has a row |
| Queries.ToResponse | src/backend/Portfolio.Api/Services/ProjectService.cs:238-247 | the response copies the six columns, carries the tag names as given, and converts each screenshot to its record, in order |
| Queries.Loaded | src/backend/Portfolio.Api/Services/ProjectService.cs:131-134 | a loaded project has its own tags and as many screenshots as it owns, ordered by sort order |
| Queries.LoadedScreenshots | src/backend/Portfolio.Api/Services/ProjectService.cs:133 | a record is among the loaded screenshots if and only if it is the record of a screenshot row the project owns |
| Queries.GetById | src/backend/Portfolio.Api/Services/ProjectService.cs:129-137 | null exactly when no project has the id. Otherwise the project with that id, with its tags and its screenshots sorted |
| Queries.GetByIdLoadsRow | src/backend/Portfolio.Api/Services/ProjectService.cs:129-137 | in a store with distinct ids, a stored row is found by its id and loaded from that row |
| Queries.WithTag | src/backend/Portfolio.Api/Services/ProjectService.cs:28-31 | a null or white-space tag filters nothing. Otherwise the result is exactly the projects carrying that tag name, kept in order |
| Queries.WithTitle | src/backend/Portfolio.Api/Services/ProjectService.cs:146-149 | a null or white-space title filters nothing. Otherwise the result is exactly the projects whose title contains it, kept in order |
| Queries.Listing | src/backend/Portfolio.Api/Services/ProjectService.cs:33-46 | totalCount is the number of candidates. The requested page and size are echoed. Item i is the loaded project at position offset + i of the candidates sorted newest first |
| Queries.GetAll | src/backend/Portfolio.Api/Services/ProjectService.cs:21-47 | `GetAllAsync`: the requested page and size are echoed, at most pageSize items, a count never above the stored projects and equal to it without a tag; by default page 1 of size 10 without a tag |
| Queries.Search | src/backend/Portfolio.Api/Services/ProjectService.cs:139-168 | `SearchAsync`: the requested page and size are echoed, at most pageSize items, a count never above the stored projects and equal to it without title or tag |
| Queries.DefaultRequests | src/backend/Portfolio.Api/DTOs/SearchProjectsRequest.cs:3-8 | a listing or search request that names no page asks for page 1 of size 10, and a listing without a tag filters nothing |
| Queries.GetAllIsSearchWithoutTitle | src/backend/Portfolio.Api/Services/ProjectService.cs:21-47 | listing with a tag filter gives the same page as searching with that tag and no title |
| Queries.SearchMatchesBothFilters | src/backend/Portfolio.Api/Services/ProjectService.cs:146-154 | applying the title filter and then the tag filter equals the single filter "passes both", in store order |
| Queries.SearchTotalCount | src/backend/Portfolio.Api/Services/ProjectService.cs:156 | totalCount is the number of stored projects that pass both filters, whatever page is asked for |
| Queries.SearchItemsMatch | src/backend/Portfolio.Api/Services/ProjectService.cs:146-165 | every item of a search page is a stored project passing both filters. It carries the tag asked for, and its title contains the title asked for |
| Queries.SearchNewestFirst | src/backend/Portfolio.Api/Services/ProjectService.cs:159 | the items of a page are ordered by creation time, newest first |
| Queries.SearchPastEndIsEmpty | src/backend/Portfolio.Api/Services/ProjectService.cs:158-168 | a page is empty if and only if its number is past the page count |
| Queries.ListingPagesDisjoint | src/backend/Portfolio.Api/Services/ProjectService.cs:35-39 | two different pages of a listing of distinct projects share no project id |
| Queries.SearchPagesDisjoint | src/backend/Portfolio.Api/Services/ProjectService.cs:158-162 | in a store with distinct project ids, two different pages of the same search share no project |
| Queries.SearchListsEveryMatch | src/backend/Portfolio.Api/Services/ProjectService.cs:158-162 | every stored project passing the filters appears, loaded, on some page |
| Paging.SkipTake | src/backend/Portfolio.Api/Services/ProjectService.cs:37-38 | LINQ `Skip(n).Take(m)`: length min(max(m,0), max(size − max(n,0), 0)), and element i is the source's element max(n,0) + i |
| Paging.Offset | src/backend/Portfolio.Api/Services/ProjectService.cs:37 | the entries before page `page`, computed without overflow. Never negative for page ≥ 1 and a non-negative size |
| Paging.PageWindow | src/backend/Portfolio.Api/Services/ProjectService.cs:35-39 | at most `pageSize` entries, starting at the offset (or at 0 for a page before the first). Element i is entry offset + i |
| Paging.OffsetAsWritten | src/backend/Portfolio.Api/Services/ProjectService.cs:37 | the service's offset: a 32-bit value congruent to the intended offset modulo 2^32, and equal to it whenever that fits in an `int` |
| Paging.PageWindowAsWritten | src/backend/Portfolio.Api/Services/ProjectService.cs:35-39 | the page the service returns: at most pageSize entries, and the intended page whenever the offset fits in an `int` |
| Paging.PageCountIsCeiling | src/backend/Portfolio.Tests/ProjectsGetTests.cs:204-205 | the page count is the ceiling of totalCount / pageSize: enough pages hold every entry, one page fewer does not, and zero only for no entries |
| Paging.OffsetStep | src/backend/Portfolio.Api/Services/ProjectService.cs:37 | consecutive pages start pageSize entries apart |
| Paging.PageEmptyIffPastEnd | src/backend/Portfolio.Api/Services/ProjectService.cs:35-39 | a page is empty if and only if its number exceeds the page count |
| Paging.PagesDisjoint | src/backend/Portfolio.Api/Services/ProjectService.cs:35-39 | two different pages of a duplicate-free list share no element |
| Paging.EveryEntryOnItsPage | src/backend/Portfolio.Api/Services/ProjectService.cs:35-39 | entry i is on page i / pageSize + 1 |
| Paging.OffsetOverflowExample | src/backend/Portfolio.Api/Services/ProjectService.cs:37 | page 65537 of size 65536 starts at 2^32, but the 32-bit product is 0 |
| Paging.PageOverflowShowsFirstPage | src/backend/Portfolio.Api/Services/ProjectService.cs:160 | for a non-empty result, that page is empty as intended, but as written it is the first page |
| Int32.Wrap | src/backend/Portfolio.Api/Services/ProjectService.cs:37 | unchecked C# `int` arithmetic: a value in the 32-bit range, congruent modulo 2^32, unchanged when already in range |
| Sorting.SortBy | src/backend/Portfolio.Api/Services/ProjectService.cs:36 | `OrderBy`: same length, same multiset of elements, ascending by key |
| Sorting.SortByMembership | src/backend/Portfolio.Api/Services/ProjectService.cs:25 | sorting neither adds nor drops an element |
| Sorting.SortByDistinctBy | src/backend/Portfolio.Api/Services/ProjectService.cs:36 | sorting keeps distinct ids distinct |
| Sorting.SortByMap | src/backend/Portfolio.Api/Services/ProjectService.cs:233-234 | sorting the records of rows equals taking the records of the sorted rows, when the conversion keeps the key |
| Paths.Combine | src/backend/Portfolio.Api/Services/ProjectService.cs:177-181 | `Path.Combine`: an empty part is dropped, a rooted second part wins, otherwise exactly one '/' joins the two |
| Paths.GetExtension | src/backend/Portfolio.Api/Services/ProjectService.cs:180 | `Path.GetExtension`: a non-empty result is a suffix of the path of at least two characters that starts with its only '.' and holds no '/', so it starts at the last '.' of the last segment. The result is empty exactly when the path ends with '.' or every '.' has a '/' after it |
| Paths.GetExtensionExamples | src/backend/Portfolio.Api/Services/ProjectService.cs:180 | "a.b.c" has extension ".c", "a.d/b" has none (the '.' is in a directory name), and "a." has none |
| Paths.ExtensionAfter | src/backend/Portfolio.Api/Services/ProjectService.cs:180 | a name without '.' or '/' followed by an extension has exactly that extension |
| Paths.StoredFileNameKeepsExtension | src/backend/Portfolio.Api/Services/ProjectService.cs:180 | the stored name starts with the GUID and, for a GUID without '.' or '/', has the client file's extension |
| Paths.UploadUrlParts | src/backend/Portfolio.Api/Services/ProjectService.cs:188 | the URL is "/uploads/", then a decimal string denoting the project id, then '/', then the file name |
| Paths.UploadPathInProjectDir | src/backend/Portfolio.Api/Services/ProjectService.cs:177-181 | a relative file name is written to `root/{id}/{file}` as one `Path.Combine`; a rooted one replaces the path |
| Paths.DeletePathOfUploads | src/backend/Portfolio.Api/Services/ProjectService.cs:207-208 | a URL "/uploads/{rest}" whose rest holds no further "uploads/" is deleted at `Path.Combine(root, rest)` |
| Paths.CombineTwice | src/backend/Portfolio.Api/Services/ProjectService.cs:177-181 | combining with the project directory and then with the file name is combining with `dir/file` |
| Paths.DeletePathOfUploadUrl | src/backend/Portfolio.Api/Services/ProjectService.cs:188-208 | for a non-empty file name without separators, the path a delete derives from the URL `/uploads/{id}/{file}` is the path the upload wrote |
| Paths.DeleteRemovesUploadedFile | src/backend/Portfolio.Api/Services/ProjectService.cs:177-208 | for a GUID without separators, deleting an uploaded screenshot's file removes the file its upload created |
| Text.Trim | src/frontend/portfolio/src/app/components/project-form/project-form.component.ts:191 | JavaScript `trim`: the result is a slice of the input with only white space before and after it, and neither of its ends is white space |
| Text.TrimUnique | src/frontend/portfolio/src/app/components/project-form/project-form.component.ts:191 | exactly one string meets the contract of `Trim`, so the contract fixes the result |
| Text.TrimmedFromEmpty | src/frontend/portfolio/src/app/components/project-form/project-form.component.ts:191 | the trimmed result is empty exactly when the input is all white space |
| Text.Split | src/frontend/portfolio/src/app/components/project-form/project-form.component.ts:190 | JavaScript `split` on one character: never empty, and no piece contains the separator |
| Text.SplitJoin | src/frontend/portfolio/src/app/components/project-form/project-form.component.ts:190 | joining separator-free pieces with a character and splitting at it gives the pieces back |
| Text.IntToString | src/backend/Portfolio.Api/Services/ProjectService.cs:177 | `int.ToString()`: a '-' exactly for a negative number, then the decimal digits of the magnitude without leading zeros; the string denotes the number (`IntValue`) |
| Text.IntToStringInjective | src/backend/Portfolio.Api/Services/ProjectService.cs:177 | different ids give different strings, so different projects get different directories and URLs |
| Text.ReplaceAbsent | src/backend/Portfolio.Api/Services/ProjectService.cs:208 | `Replace` changes nothing when the pattern does not occur |
| Text.TrimStartChar | src/backend/Portfolio.Api/Services/ProjectService.cs:207 | `TrimStart('/')`: the result is a suffix of the input, everything before it is '/', and it does not start with '/' |
| Text.ReplaceAllLength | src/backend/Portfolio.Api/Services/ProjectService.cs:208 | `Replace` with a replacement no longer than the pattern does not lengthen the string, and deleting the pattern shortens exactly a string where it occurs |
| Text.JoinStarts | src/frontend/portfolio/src/app/components/project-form/project-form.component.ts:75 | `join`: no pieces give "", otherwise the result starts with the first piece, then the separator when more follow |
| Text.JoinEnds | src/frontend/portfolio/src/app/components/project-form/project-form.component.ts:75 | `join` ends with the last piece |
| Text.IsNullOrWhiteSpace | src/backend/Portfolio.Api/Services/ProjectService.cs:28 | `string.IsNullOrWhiteSpace`: the empty string is blank, and a string starting with a non-white-space character is not |
| Text.Contains | src/backend/Portfolio.Api/Services/ProjectService.cs:148 | ordinal `Contains`: a needle longer than the text never occurs, and a prefix (the empty string included) always does |
| Commands.NewScreenshots | src/backend/Portfolio.Api/Services/ProjectService.cs:58-63 | one row per requested screenshot, in order. Each is owned by the project, with the next identity values and its URL, alt text and sort order copied |
| Commands.Create | src/backend/Portfolio.Api/Services/ProjectService.cs:49-79 | the response has the next project id, the time `now`, the request's columns, exactly the requested tag names, and the requested screenshots copied in order |
| Commands.CreateKeepsValid | src/backend/Portfolio.Api/Services/ProjectService.cs:49-79 | create keeps the store invariant when the request's tag names are distinct |
| Commands.CreateTagRows | src/backend/Portfolio.Api/Services/ProjectService.cs:66-73 | after a create, the tag names are the old ones followed by each requested name no tag carried: known names are reused |
| Commands.CreateFindsNew | src/backend/Portfolio.Api/Services/ProjectService.cs:75-76 | after a create, the new id finds the appended row |
| Commands.CreateTagsOfNew | src/backend/Portfolio.Api/Services/ProjectService.cs:66-76 | after a create, the new project's tag names are exactly the requested ones, in order |
| Commands.CreateShotsOfNew | src/backend/Portfolio.Api/Services/ProjectService.cs:58-76 | after a create, the new project's screenshot rows are exactly the request's |
| Commands.CreateThenGetById | src/backend/Portfolio.Api/Services/ProjectService.cs:49-137 | reading a created project back gives the create response, with its screenshots sorted by sort order |
| Commands.CreateKeepsOthers | src/backend/Portfolio.Api/Services/ProjectService.cs:75-76 | a create changes what `GetById` returns for no other id |
| Commands.Update | src/backend/Portfolio.Api/Services/ProjectService.cs:81-118 | `NotFound` if and only if the id is unknown, with the store unchanged. Otherwise the response has the id, the new columns, exactly the requested tags and the requested screenshots |
| Commands.UpdateKeepsValid | src/backend/Portfolio.Api/Services/ProjectService.cs:81-118 | update keeps the store invariant when the request's tag names are distinct |
| Commands.UpdateTagsOf | src/backend/Portfolio.Api/Services/ProjectService.cs:95-103 | after an update, the project's tag names are exactly the requested ones |
| Commands.UpdateShotsOf | src/backend/Portfolio.Api/Services/ProjectService.cs:105-113 | after an update, the project's screenshot rows are exactly the request's |
| Commands.UpdateKeepsCreatedAt | src/backend/Portfolio.Api/Services/ProjectService.cs:89-93 | an update overwrites the four scalar columns only: the creation time stays |
| Commands.UpdateRows | src/backend/Portfolio.Api/Services/ProjectService.cs:83-93 | an update rewrites one project row, keeps every id in place and leaves the other rows as they were |
| Commands.UpdateThenGetById | src/backend/Portfolio.Api/Services/ProjectService.cs:81-137 | reading an updated project back gives the update response, with its screenshots sorted |
| Commands.UpdateKeepsOthers | src/backend/Portfolio.Api/Services/ProjectService.cs:95-113 | an update changes what `GetById` returns for no other id |
| Commands.Delete | src/backend/Portfolio.Api/Services/ProjectService.cs:120-127 | `NotFound` if and only if the id is unknown, with the store unchanged. Tag rows stay, and none of the project's screenshots survive |
| Commands.DeleteKeepsValid | src/backend/Portfolio.Api/Services/ProjectService.cs:120-127 | a delete keeps the store invariant: the cascade takes the join rows and screenshots |
| Commands.DeleteThenGetById | src/backend/Portfolio.Api/Services/ProjectService.cs:120-137 | a deleted project is no longer found |
| Commands.DeleteKeepsOthers | src/backend/Portfolio.Api/Services/ProjectService.cs:120-127 | a delete changes what `GetById` returns for no other id |
| Commands.DeleteScreenshot | src/backend/Portfolio.Api/Services/ProjectService.cs:200-214 | `NotFound` if and only if no row matches both ids, with the store unchanged. Otherwise exactly one row fewer, and the other tables untouched |
| Commands.DeleteScreenshotExact | src/backend/Portfolio.Api/Services/ProjectService.cs:202-212 | in a valid store, the row with that id goes and the rest keep their order. The result is the path derived from that row's URL |
| Commands.DeleteScreenshotKeepsValid | src/backend/Portfolio.Api/Services/ProjectService.cs:200-214 | a screenshot delete keeps the store invariant |
| Commands.Upload | src/backend/Portfolio.Api/Services/ProjectService.cs:172-198 | `NotFound` if and only if the project is unknown, with the store unchanged. Otherwise the URL is `/uploads/{id}/{guid}{extension}` and the path is `root/{id}/{guid}{extension}`. The screenshot table gains exactly one row, with the next screenshot id, the project, that URL, the alt text and the sort order; the counter advances by one; the returned record carries the new id. The other tables and counters are untouched |
| Commands.UploadKeepsValid | src/backend/Portfolio.Api/Services/ProjectService.cs:186-195 | an upload keeps the store invariant |
| Commands.UploadThenGetById | src/backend/Portfolio.Api/Services/ProjectService.cs:186-197 | after an upload the project reads back with the same tags and one screenshot more: its records are the old ones and the returned one |
| Commands.UploadKeepsOthers | src/backend/Portfolio.Api/Services/ProjectService.cs:186-197 | an upload changes what `GetById` returns for no other id |
| Commands.UploadThenDeleteScreenshot | src/backend/Portfolio.Api/Services/ProjectService.cs:172-214 | deleting a just-uploaded screenshot names the file the upload wrote and restores the screenshot table |
| Commands.LastIndexOf | src/backend/Portfolio.Api/Services/ProjectService.cs:223-228 | the last position of an id in the list. No later position holds it, so later assignments win |
| Commands.Reorder | src/backend/Portfolio.Api/Services/ProjectService.cs:216-236 | `NotFound` if and only if the project is unknown or a listed id is not one of its screenshots, with the store unchanged. Otherwise the result is sorted and holds all the project's screenshots, and other tables are untouched |
| Commands.ReorderSortOrders | src/backend/Portfolio.Api/Services/ProjectService.cs:223-228 | each listed screenshot of the project gets its last position as sort order. With distinct ids, `ids[i]` gets `i`. Every other row and column stays |
| Commands.ReorderResult | src/backend/Portfolio.Api/Services/ProjectService.cs:232-235 | the result lists exactly the records of the project's screenshots after the reorder |
| Commands.ReorderKeepsValid | src/backend/Portfolio.Api/Services/ProjectService.cs:216-236 | a reorder keeps the store invariant |
| Service.ProjectService.constructor | src/backend/Portfolio.Api/Services/ProjectService.cs:14-19 | the uploads root is the configured `UPLOADS_PATH`, or else `uploads` under the current directory |
| Service.ProjectService.ResolveTagNames | src/backend/Portfolio.Api/Services/ProjectService.cs:66-73 | the lookup loop computes exactly `ResolveTags` of the stored tags |
| Service.ProjectService.SaveChanges | src/backend/Portfolio.Api/Services/ProjectService.cs:76 | the staged tables become the stored state |
| Service.ProjectService.Create | src/backend/Portfolio.Api/Services/ProjectService.cs:49-79 | the new fields and the response are those of `Commands.Create` |
| Service.ProjectService.Update | src/backend/Portfolio.Api/Services/ProjectService.cs:81-118 | the new fields and the outcome are those of `Commands.Update` |
| Service.ProjectService.Delete | src/backend/Portfolio.Api/Services/ProjectService.cs:120-127 | the new fields and the outcome are those of `Commands.Delete` |
| Service.ProjectService.DeleteScreenshot | src/backend/Portfolio.Api/Services/ProjectService.cs:200-214 | the new fields and the outcome are those of `Commands.DeleteScreenshot` |
| Service.ProjectService.UploadScreenshot | src/backend/Portfolio.Api/Services/ProjectService.cs:172-198 | the new fields and the outcome are those of `Commands.Upload` |
| Service.ProjectService.Reorder | src/backend/Portfolio.Api/Services/ProjectService.cs:216-236 | for a table with distinct screenshot ids (the primary key), the new fields and the outcome are those of `Commands.Reorder` |
| Service.RenumberOwned | src/backend/Portfolio.Api/Services/ProjectService.cs:223-228 | the renumbering loop fails if and only if some listed id names no screenshot of the project. Otherwise it gives every row its `Renumber` image |
| ProjectForm.ParseTags | src/frontend/portfolio/src/app/components/project-form/project-form.component.ts:189-192 | every tag is non-empty, trimmed and free of commas |
| ProjectForm.ParseOnePiece | src/frontend/portfolio/src/app/components/project-form/project-form.component.ts:189-192 | text without a comma gives its trimmed self as the only tag, or no tag when that is empty |
| ProjectForm.ParseTagsAppend | src/frontend/portfolio/src/app/components/project-form/project-form.component.ts:189-192 | the text before the first comma gives the first tags and the rest gives the others, so order is kept |
| ProjectForm.ParseJoinedTags | src/frontend/portfolio/src/app/components/project-form/project-form.component.ts:75 | the field filled with `tags.join(', ')` parses back to the same tags |
| ProjectForm.Swapped | src/frontend/portfolio/src/app/components/project-form/project-form.component.ts:162 | the two positions are exchanged, every other one is unchanged, and the multiset is the same |
| ProjectForm.Renumbered | src/frontend/portfolio/src/app/components/project-form/project-form.component.ts:164 | every screenshot takes its position as sort order, and nothing else changes |
| ProjectForm.Moved | src/frontend/portfolio/src/app/components/project-form/project-form.component.ts:156-165 | unchanged when the neighbour is outside the list. Otherwise sort orders equal positions |
| ProjectForm.MovedIsSwap | src/frontend/portfolio/src/app/components/project-form/project-form.component.ts:157-164 | a move exchanges the screenshot with its neighbour and keeps every other one in place, renumbered |
| ProjectForm.MoveDownThenUp | src/frontend/portfolio/src/app/components/project-form/project-form.component.ts:156-165 | moving down and then back up restores the order, with sort orders normalised |
| ProjectForm.RenumberInPlace | src/frontend/portfolio/src/app/components/project-form/project-form.component.ts:164 | the `forEach` loop gives the list `Renumbered` |
| ProjectForm.UploadCalls | src/frontend/portfolio/src/app/components/project-form/project-form.component.ts:121-128 | one upload per queued file, in order. The i-th has sort order currentCount + i, the file, and its alt text or none when empty |
| ProjectForm.UploadedScreenshots | src/frontend/portfolio/src/app/components/project-form/project-form.component.ts:129-131 | the screenshots appended are stored screenshots from the replies, no more of them than there are replies |
| ProjectForm.UploadedScreenshotsInOrder | src/frontend/portfolio/src/app/components/project-form/project-form.component.ts:129-131 | every reply that returned a screenshot contributes exactly that screenshot, in reply order, and no other reply contributes |
| ProjectForm.UploadErrorWithoutFailure | src/frontend/portfolio/src/app/components/project-form/project-form.component.ts:132-134 | without a failed upload, the earlier error message stays |
| ProjectForm.UploadErrorNamesLastFailure | src/frontend/portfolio/src/app/components/project-form/project-form.component.ts:132-134 | the error message names the last file whose upload failed |
| ProjectForm.UploadError | src/frontend/portfolio/src/app/components/project-form/project-form.component.ts:132-134 | the message after the uploads is the earlier one or the failure message of one of the files whose upload failed |
| ProjectForm.IsImage | src/frontend/portfolio/src/app/components/project-form/project-form.component.ts:99 | a file is queued exactly when its MIME type starts with "image/" |
| ProjectForm.ProjectFormComponent.constructor | src/frontend/portfolio/src/app/components/project-form/project-form.component.ts:21-38 | starts with the given project id and screenshots, an empty queue and no error |
| ProjectForm.ProjectFormComponent.MoveScreenshot | src/frontend/portfolio/src/app/components/project-form/project-form.component.ts:156-174 | the list becomes `Moved`. A reorder of the new ids is sent if and only if the move happened in edit mode. Only a failed reorder sets its message |
| ProjectForm.ProjectFormComponent.OnFilesSelected | src/frontend/portfolio/src/app/components/project-form/project-form.component.ts:94-109 | with no file list nothing happens. Otherwise the image files are queued in order with empty alt text |
| ProjectForm.ProjectFormComponent.RemovePendingFile | src/frontend/portfolio/src/app/components/project-form/project-form.component.ts:111-114 | exactly the entry at that index leaves the queue |
| ProjectForm.ProjectFormComponent.UploadPendingFiles | src/frontend/portfolio/src/app/components/project-form/project-form.component.ts:117-141 | sends `UploadCalls`, appends the stored screenshots, leaves the message that `UploadError` gives, and empties the queue |
| ProjectForm.ProjectFormComponent.RemoveScreenshot | src/frontend/portfolio/src/app/components/project-form/project-form.component.ts:143-154 | a delete is sent if and only if both the screenshot id and the project id are truthy. Confirmed: the screenshot leaves the list. Failed: the message is set |
| Toasts.Dismissed | src/frontend/portfolio/src/app/shared/services/toast.service.ts:41-43 | a toast is kept if and only if it was queued and has another id. The list never grows |
| Toasts.DismissedConcat | src/frontend/portfolio/src/app/shared/services/toast.service.ts:42 | dismissing splits over concatenation, so the kept toasts stay in order |
| Toasts.DismissAbsent | src/frontend/portfolio/src/app/shared/services/toast.service.ts:42 | dismissing an id no toast has changes nothing |
| Toasts.DismissIdempotent | src/frontend/portfolio/src/app/shared/services/toast.service.ts:42 | dismissing twice is dismissing once |
| Toasts.DismissOne | src/frontend/portfolio/src/app/shared/services/toast.service.ts:42 | when ids were issued by the counter, dismissing one toast's id removes exactly that toast |
| Toasts.DismissKeepsIssued | src/frontend/portfolio/src/app/shared/services/toast.service.ts:42 | dismissing keeps ids increasing and below the counter |
| Toasts.ShowThenDismiss | src/frontend/portfolio/src/app/shared/services/toast.service.ts:45-53 | the timer's dismiss right after `show` restores the queue as it was |
| Toasts.ToastService.constructor | src/frontend/portfolio/src/app/shared/services/toast.service.ts:12-23 | an empty queue with the counter at 0 |
| Toasts.ToastService.Show | src/frontend/portfolio/src/app/shared/services/toast.service.ts:45-53 | appends a toast with the counter's value, which no queued toast carries, and advances the counter. The timer starts if and only if the duration is positive |
| Toasts.ToastService.Success | src/frontend/portfolio/src/app/shared/services/toast.service.ts:25-27 | shows a success toast for the given duration |
| Toasts.ToastService.Error | src/frontend/portfolio/src/app/shared/services/toast.service.ts:29-31 | shows an error toast for the given duration |
| Toasts.ToastService.Warning | src/frontend/portfolio/src/app/shared/services/toast.service.ts:33-35 | shows a warning toast for the given duration |
| Toasts.ToastService.Info | src/frontend/portfolio/src/app/shared/services/toast.service.ts:37-39 | shows an info toast for the given duration |
| Toasts.ToastService.Dismiss | src/frontend/portfolio/src/app/shared/services/toast.service.ts:41-43 | the queue becomes `Dismissed` and the counter is unchanged |
| Toasts.DefaultDurations | src/frontend/portfolio/src/app/shared/services/toast.service.ts:25-39 | the helpers' defaults are 4000, 6000, 5000 and 4000 ms, and ids count up from 0 |
| Users.Register | src/backend/Portfolio.Api/Controllers/AuthController.cs:28-48 | an email conflict if and only if the email is taken. A user-name conflict if and only if only the user name is taken, with nothing changed on either conflict. Otherwise one new row with the next id, the hashed password and role "User" |
| Users.RegisterKeepsUnique | src/backend/Portfolio.Api/Controllers/AuthController.cs:31-35 | registration keeps emails and user names unique |
| Users.Login | src/backend/Portfolio.Api/Controllers/AuthController.cs:50-59 | an unknown email is unauthorized. A user who is let in is stored, has that email, and passes the password check |
| Users.MatchesHaveEmail | src/backend/Portfolio.Api/Controllers/AuthController.cs:53 | a row found by the email lookup shows the email is taken |
| Users.LoginUnique | src/backend/Portfolio.Api/Controllers/AuthController.cs:53-58 | with unique emails, the user with that email is let in if and only if the password check accepts |
| Users.RegisterThenLogin | src/backend/Portfolio.Api/Controllers/AuthController.cs:28-59 | a user who just registered can log in with the same password |
| Users.UsersTable.constructor | src/backend/Portfolio.Api/Data/AppDbContext.cs:13 | the table starts with the given rows and counter |
| Users.UsersTable.Add | src/backend/Portfolio.Api/Controllers/AuthController.cs:44-45 | appends the row under the next identity value |
| Auth.AuthController.constructor | src/backend/Portfolio.Api/Controllers/AuthController.cs:18-26 | the controller works on the given table |
| Auth.AuthController.Register | src/backend/Portfolio.Api/Controllers/AuthController.cs:28-48 | the table and the outcome are those of `Users.Register` |
| Auth.AuthController.Login | src/backend/Portfolio.Api/Controllers/AuthController.cs:50-59 | the outcome is `Users.Login` of the table, and nothing is modified |
| DbInitializer.Seeded | src/backend/Portfolio.Api/Data/DbInitializer.cs:12-33 | unchanged if and only if the admin email is taken. Otherwise the admin row "admin" / the email / the hashed "Admin123!" / role "Admin" is appended. Afterwards the email is always taken |
| DbInitializer.SeedIdempotent | src/backend/Portfolio.Api/Data/DbInitializer.cs:18-19 | seeding twice is seeding once |
| DbInitializer.SeedKeepsUniqueEmails | src/backend/Portfolio.Api/Data/DbInitializer.cs:16-27 | seeding keeps emails unique |
| DbInitializer.SeedIgnoresUserNames | src/backend/Portfolio.Api/Data/DbInitializer.cs:21-24 | a registered "admin" with another email leads to two users named "admin" |
| DbInitializer.SeedAsync | src/backend/Portfolio.Api/Data/DbInitializer.cs:12-33 | the table becomes `Seeded` |
| AdminGuard.Decide | src/frontend/portfolio/src/app/guards/admin.guard.ts:5-18 | redirect to /login if and only if logged out. Redirect to /projects if and only if logged in without the "Admin" role. Allow if and only if logged in as "Admin" |

## Left out

- File I/O and directories are not performed. An upload returns the path
  it would write, and a screenshot delete returns the path it would remove.
  This covers `Directory.CreateDirectory`, `FileStream`, `CopyToAsync`,
  `File.Exists` and `File.Delete`.
- Entity Framework behaviour is simplified:
  - each operation's changes are saved in one step;
  - `async`, concurrent requests and change-tracker details are not
    modelled;
  - database-provider specifics are not modelled: the order of projects
    with equal `CreatedAt`, and how a provider treats a negative offset.
    Skip and take follow LINQ to objects.
  - orders the database leaves open follow the stored rows: a project's
    tags load in join-row order (`Include(p => p.Tags)` has no ordering
    of its own, and `Commands.CreateThenGetById` and
    `Commands.UpdateThenGetById` rely on this order), and screenshots
    with equal `SortOrder` keep their store order through the stable sort
    of `Queries.Loaded`.
  - string comparisons are ordinal, while SQL Server compares by the
    database collation (usually case-insensitive and blind to trailing
    spaces). This concerns the title `Contains` and tag equality
    (`Queries.WithTitle`, `Queries.WithTag`), the tag lookup of create and
    update (`Store.FindTag`, `Store.ResolveTags`: a request tag "react"
    reuses a stored "React" there, while the model adds a new row), the
    email and user-name checks of registration
    (`Users.EmailTaken`, `Users.UserNameTaken`), the email lookup of login
    (`Users.HasEmail`), and the admin-email check of the seed
    (`DbInitializer.Seeded`).
- The identity columns are counters that start where the given state says.
- `DateTime.UtcNow`, `Guid.NewGuid()`, the configured `UPLOADS_PATH` and
  the current directory come in as parameters (`now`, `guid`, and the
  service's constructor arguments).
- BCrypt is a pair of parameters: the hash function and the password
  check. Its random salt is not modelled.
- `BuildAuthResponse` is not modelled: the JWT token, its expiry, and
  `TokenService`. Register and Login return the user row instead.
- `Users.Login`: when more than one user shares the email,
  `SingleOrDefault` throws. The model returns `MoreThanOne` instead.
  `Users.LoginUnique` shows this cannot happen while emails are unique.
- `Service.ProjectService.Reorder` requires distinct screenshot ids. This
  is the primary key on screenshot ids, which the database guarantees.
- The invariant lemmas for create and update require distinct tag names
  in the request (`Commands.CreateKeepsValid`, `Commands.UpdateKeepsValid`
  and the read-back lemmas). A repeated new name creates two tag rows,
  as `Store.ResolveTagsStagesRepeatTwice` shows. A repeated existing name
  adds the same tag twice to the project's collection; what the database
  then stores is not modelled.
- Toast timers (`setTimeout`) are not run. `Show` returns whether the
  timer is started, and the later call is `Dismiss`, as in
  `Toasts.ShowThenDismiss`.
- Angular signals and change detection are not modelled. The toast
  service's module-level `nextId` is a field of the singleton service.
- The project form leaves these out:
  - object-URL previews (`createObjectURL`, `revokeObjectURL`);
  - the reset of the file input;
  - the `uploadingScreenshot` flag;
  - `loadProject` and `onSubmit` beyond the tag field's join and parse.
- The project form applies server replies at once. Replies that arrive
  after later edits are not modelled.
- `ProjectForm.ProjectFormComponent.RemoveScreenshot` names the screenshot
  by its position. The source filters out that object by identity, which
  is the same for a list without repeated objects.
- `ProjectForm.ProjectFormComponent.MoveScreenshot` does not model
  aliasing. The `forEach` also sets the sort order on the objects the old
  list shares with the copy, and the model renumbers copies.
- `ProjectForm.ProjectFormComponent.MoveScreenshot`, `RemovePendingFile`
  and `RemoveScreenshot` require an index inside the list. The template
  calls them only for rendered entries, and the source's behaviour on
  other indices is undefined element access.
- `DbInitializer.SeedAsync` leaves out the `Console.WriteLine` message and
  the service-provider scope.
- `AdminGuard.Decide` takes the login state and role from `AuthService`
  as parameters. The router's URL tree is the `Redirect` path.
- Queries.Listing (and through it `Queries.GetAll` and `Queries.Search`)
  skips the intended number of rows, the unbounded product
  `(page - 1) * pageSize`. When that product does not fit in an `int`,
  the service's wrapped offset gives another page (page 65537 of size
  65536 gives the first). The as-written page is
  `Paging.PageWindowAsWritten`, and the Findings row exhibits the
  difference.
- Integers are unbounded. The only width the source depends on is the page
  offset above; `totalCount` is a `nat`.

## Findings

| source | as written | input that shows it | evidently intended | confidence | as-written member | corrected member |
|---|---|---|---|---|---|---|
| src/backend/Portfolio.Api/Services/ProjectService.cs:37 | the offset `(page - 1) * pageSize` is a 32-bit `int` product, which wraps around without a check | `GetAllAsync` or `SearchAsync` with page 65537 and pageSize 65536 on a non-empty result: the offset wraps from 2^32 to 0, and the first page is returned | a page past the last one is empty | not executed | Paging.PageOverflowShowsFirstPage | Paging.PageWindow |
