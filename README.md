# YoungWings admin console: verified model of its form and list logic

YoungWings is a React front end: a public news site plus an admin console
for posts, comments, events and translators. Most of it is screens and REST
calls. A few pieces of real logic sit inside those screens, and this project
models them in Dafny and proves what they promise:

- **the file-URL normaliser** (`src/lib/files.ts`). It sends relative file
  references to the `/api/files/thumbnail/` endpoint, upper-cases the
  `assets` bucket segment and guarantees a leading slash (module `Files`);
- **the event form** (`EventsManager.tsx`). This covers:
  - start/end date clamping;
  - the region → city option list;
  - submit normalisation and first-missing-field validation;
  - the component's state updates (module `EventsManager`, class `Component`).
- **the translator form** (`TranslatorsManager.tsx`). This covers:
  - comma-separated list parsing;
  - the filter query;
  - trimming and ordered validation of the eight request fields;
  - create-versus-update dispatch, edit, reset and filter reset (module `TranslatorsManager`).
- **the post and comment lists** (`PostsManager.tsx`, `CommentsManager.tsx`).
  This covers the search and section/status filters, the pending counter, the
  status badges, the moderation buttons on offer, and the posts list's
  loading and its opening and closing of the editor (class `PostsManager.Manager`).
- **the like/dislike toggle** of the news card and the post page
  (`NewsCard.tsx`, `PostDetailPage.tsx`). It is two flags and two counters.
  The step is shared in module `Votes`; classes `NewsCard.Card` and
  `PostDetailPage.Page` hold the component state.
- **the post editor's save** (`PostEditor.tsx`). This covers the
  required-field gate, the upload-then-save sequence, the record sent,
  loading the edited post, and the tags input (module `PostEditor`, class `Editor`).

Two modules serve the others:
- `JsStrings` models the JavaScript string operations the source relies on: `trim`, `split`, `join`, `includes`/`indexOf`, `replace` of the first occurrence, `toLowerCase`, `startsWith`, `||` and `<`.
- `Lists` models `filter`, `find`, `Set` and `sort` over sequences.

The model takes the source's own form:
- pure code (the normaliser, the filters, the date updaters, the payload builders) is functions with lemmas;
- component state updated by event handlers is a class whose methods state the whole new state;
- the `Set`-filling city list is a method with a loop.

Every API call (load, create, update, upload) is a parameter of the handler that makes it: whether it succeeded, or the response it returned. The clock, the rich-text editor's serialised content and the `localeCompare` order are parameters too.

## Model

| member | source | states |
|---|---|---|
| Files.IsAbsoluteUrl | src/lib/files.ts:3 | (predicate) a value is absolute when it begins with `//`, with letters followed by `://`, or with `data:` |
| Files.SchemeUrlIsAbsolute | src/lib/files.ts:3 | any non-empty run of ASCII letters followed by `://` makes a value absolute |
| Files.RootPathIsRelative | src/lib/files.ts:3 | a value starting with one slash (not two) is not absolute |
| Files.ThumbnailPathIsRelative | src/lib/files.ts:3 | every path under `/api/files/thumbnail/` is relative |
| Files.EnsureLeadingSlash | src/lib/files.ts:5 | the result starts with `/`; it equals the input exactly when the input already starts with `/`, and is otherwise `/` + input |
| Files.EnsureAssetsSegmentUppercase | src/lib/files.ts:10-19 | the length is preserved |
| Files.AssetsFixChangesOnlyAssets | src/lib/files.ts:10-19 | the result differs from the path only in characters of `assets` segments (those directly after `api/files/` or `api/files/thumbnail/` and followed by `/`), and those only by upper-casing |
| Files.AssetsFixUpperCasesSegments | src/lib/files.ts:15-18 | every such `assets` segment comes out as `ASSETS` |
| Files.EnsureAssetsSegmentUppercaseIdempotent | src/lib/files.ts:10-19 | applying the fix twice is applying it once |
| Files.StripLeadingSlashes | src/lib/files.ts:46 | the result is a suffix of the path, what was removed is all slashes, and the result does not start with `/` |
| Files.HasExtensionMatchesPattern | src/lib/files.ts:60 | the extension test holds exactly when a dot is followed, up to the end, by one or more characters that are neither `.` nor `/` |
| Files.InsertThumbnailSegment | src/lib/files.ts:34-36 | an empty path is returned unchanged |
| Files.InsertThumbnailSegmentFixesOnlyAssets | src/lib/files.ts:33-67 | the result is the chosen branch's path changed only in the case of its `assets` segments |
| Files.ThumbnailPathKept | src/lib/files.ts:38-40 | a path under `/api/files/thumbnail/` keeps its text up to `assets` case and still starts with that prefix |
| Files.FilesPathMovedToThumbnail | src/lib/files.ts:42-44 | a path under `/api/files/` becomes `/api/files/thumbnail/` + the rest of the path (up to `assets` case) |
| Files.ApiThumbnailPathGetsOneSlash | src/lib/files.ts:46-50 | a path that starts with `api/files/thumbnail/` after its leading slashes gets exactly one leading slash |
| Files.ApiFilesPathGetsThumbnail | src/lib/files.ts:52-58 | a path that starts with `api/files/` (not `thumbnail/`) after its slashes gets one leading slash and `thumbnail/` inserted once |
| Files.FileNameMovedToThumbnail | src/lib/files.ts:60-64 | a path with an extension that is not an `api/` path is placed under `/api/files/thumbnail/` |
| Files.OtherPathOnlyAssetsFixed | src/lib/files.ts:66 | any other path is changed only by the assets fix |
| Files.NormalizeFilePath | src/lib/files.ts:28-31 | an empty value and a `data:` value are returned unchanged |
| Files.FirstFilesPrefixReplaced | src/lib/files.ts:96-100 | a relative value holding `/api/files/` but not `/api/files/thumbnail/` has its first `/api/files/` replaced by `/api/files/thumbnail/`, and nothing else changes beyond `assets` case |
| Files.ResolveFileUrl | src/lib/files.ts:105-108 | a missing input resolves to nothing |
| Files.ResolveFileUrlNoneIff | src/lib/files.ts:105-114 | the resolver gives nothing exactly for a missing or blank input |
| Files.ResolveFileUrlIgnoresSurroundingWhitespace | src/lib/files.ts:110-116 | whitespace around the input does not change the result |
| Files.ResolveFileUrlKeepsDataUrls | src/lib/files.ts:116-119 | a `data:` value comes back trimmed and otherwise unchanged |
| JsStrings.TrimSpec | src/components/admin/EventsManager.tsx:138 | `trim` gives a trimmed string that is empty exactly when the input is whitespace only |
| JsStrings.TrimIdempotent | src/components/admin/TranslatorsManager.tsx:133-142 | trimming twice is trimming once |
| JsStrings.TrimIgnoresLeadingWhitespace | src/lib/files.ts:110 | leading whitespace does not survive `trim` |
| JsStrings.TrimOrUndefined | src/components/admin/EventsManager.tsx:202-205 | `trim() \|\| undefined` is absent exactly for a blank value, else the trimmed value |
| JsStrings.IndexOf | src/lib/files.ts:96 | the index found is the first occurrence; none means no occurrence |
| JsStrings.ReplaceFirstReplacesFirstOccurrence | src/lib/files.ts:98 | `replace` with a string pattern keeps the text before the first occurrence, substitutes the replacement for that occurrence, and keeps the rest |
| JsStrings.Lower | src/components/admin/PostsManager.tsx:88 | `toLowerCase` keeps the length and lower-cases each character |
| JsStrings.LowerIdempotent | src/components/admin/PostsManager.tsx:88 | lower-casing twice is lower-casing once |
| JsStrings.Split | src/components/admin/PostEditor.tsx:363 | `split` gives commas + 1 pieces, none holding the separator, that join back into the input |
| JsStrings.SplitJoin | src/components/admin/PostEditor.tsx:361-363 | splitting inverts joining when no piece holds the separator |
| JsStrings.SplitCommaTrimCommaSpaceJoin | src/components/admin/PostEditor.tsx:361-363 | trimmed comma-free items joined with `", "` split and trim back into the same items |
| JsStrings.LessTotal | src/components/admin/EventsManager.tsx:167 | string `<` is total: a string not below another is at or above it |
| Lists.Filter | src/components/admin/PostsManager.tsx:87 | `filter` keeps an order-preserving sub-list holding exactly the elements that pass, each as many times as in the input |
| Lists.FilterKeepsAll | src/components/admin/PostsManager.tsx:87 | a filter every element passes changes nothing |
| Lists.FilterConjunction | src/components/admin/PostsManager.tsx:96 | filtering by `a && b` is filtering by `a`, then by `b` |
| Lists.SetOf | src/components/admin/EventsManager.tsx:82-84 | `new Set(items)` holds each item once, and exactly the items |
| Lists.SortBy | src/components/admin/EventsManager.tsx:90 | `sort` with a total preorder gives a sorted permutation |
| EventsManager.StartDateChanged | src/components/admin/EventsManager.tsx:155-175 | clearing the start clears both dates; a non-empty start is stored trimmed; nothing else changes |
| EventsManager.StartDateMovesEarlierEnd | src/components/admin/EventsManager.tsx:166-173 | a new start replaces an empty or earlier end and keeps a later one |
| EventsManager.EndDateChanged | src/components/admin/EventsManager.tsx:177-192 | clearing the end leaves the start alone; only the end changes |
| EventsManager.EndDateClampedToStart | src/components/admin/EventsManager.tsx:184-190 | a new end before a non-empty start is clamped to the start, and otherwise kept |
| EventsManager.StartDateChangeOrdersDates | src/components/admin/EventsManager.tsx:155-175 | after any start change the end is empty or not before the start |
| EventsManager.EndDateChangeKeepsDatesOrdered | src/components/admin/EventsManager.tsx:177-192 | an end change keeps that order |
| EventsManager.DateChangesKeepDatesOrdered | src/components/admin/EventsManager.tsx:155-192 | any sequence of start and end changes keeps the dates ordered |
| EventsManager.EmptyFormDatesOrdered | src/components/admin/EventsManager.tsx:40-52 | the initial form has its dates ordered |
| EventsManager.MatchingKey | src/components/admin/EventsManager.tsx:75-77 | the region key found is the first key equal to the region ignoring case; none means no key matches |
| EventsManager.Lookup | src/components/admin/EventsManager.tsx:79 | `map[key] ?? []` gives the key's cities, or none for a missing key |
| EventsManager.BaseCitiesOfMatchingKey | src/components/admin/EventsManager.tsx:75-79 | the cities are those of the first case-insensitively matching key, and none when no key matches |
| EventsManager.BaseCitiesIgnoreCase | src/components/admin/EventsManager.tsx:75-79 | two spellings of a region that differ only in case get the same cities |
| EventsManager.CityOptions | src/components/admin/EventsManager.tsx:62-91 | the list is empty for a blank region; otherwise it holds exactly the trimmed non-blank cities of the region plus the non-blank current city, with no duplicates, trimmed, sorted |
| EventsManager.CityChoiceIsTrimmed | src/components/admin/EventsManager.tsx:83-88 | every city offered is trimmed and non-blank |
| EventsManager.Normalize | src/components/admin/EventsManager.tsx:201-222 | each text field sent is the form's field trimmed; the cover and registration URLs are `TrimOrUndefined` of theirs, so absent exactly when blank; the time is `"00:00"`; a blank end date becomes the trimmed start |
| EventsManager.NormalizeTrims | src/components/admin/EventsManager.tsx:210-222 | every string of the payload is trimmed |
| EventsManager.NormalizeIdempotent | src/components/admin/EventsManager.tsx:201-222 | normalising a normalised record changes nothing |
| EventsManager.FirstMissing | src/components/admin/EventsManager.tsx:224-249 | the field reported is empty and is the first empty one in the required order; nothing is reported exactly when every required field is filled |
| EventsManager.EndDateNeverReportedMissing | src/components/admin/EventsManager.tsx:207-208 | the end date defaults to the start, so it is never the field reported |
| EventsManager.EndDateReportedOnlyAfterStart | src/components/admin/EventsManager.tsx:224-249 | when an empty end date comes only with an empty start date, the end date is never the field reported, because the start date is checked first |
| EventsManager.Component.constructor | src/components/admin/EventsManager.tsx:30-53 | an empty map and city list, no dialog, nothing edited, the empty form |
| EventsManager.Component.UpdateAvailableCities | src/components/admin/EventsManager.tsx:62-92 | the stored list is the city options for the region, from the given map or else the loaded one; nothing else changes |
| EventsManager.Component.HandleRegionSelect | src/components/admin/EventsManager.tsx:137-145 | the trimmed region is stored, the city is cleared, and the region's cities are offered |
| EventsManager.Component.HandleCitySelect | src/components/admin/EventsManager.tsx:147-153 | only the trimmed city is stored |
| EventsManager.Component.HandleStartDateChange | src/components/admin/EventsManager.tsx:155-175 | the form becomes the start-date update, and its dates are ordered |
| EventsManager.Component.HandleEndDateChange | src/components/admin/EventsManager.tsx:177-192 | the form becomes the end-date update, and ordered dates stay ordered |
| EventsManager.Component.ResetForm | src/components/admin/EventsManager.tsx:303-319 | the empty form, nothing edited, no cities |
| EventsManager.Component.HandleSubmit | src/components/admin/EventsManager.tsx:194-270 | nothing is sent during a cover upload or with a required field empty (the first one is reported); otherwise an update of the edited event or a create is sent with the normalised record, and success closes the dialog and resets the form |
| EventsManager.Component.HandleEdit | src/components/admin/EventsManager.tsx:272-290 | the event is copied into the form (an empty time becomes `"00:00"`), its region's cities are offered, and the dialog opens |
| TranslatorsManager.ParseCsv | src/components/admin/TranslatorsManager.tsx:50-54 | the items are exactly the non-empty trimmed comma-separated pieces, in their order |
| TranslatorsManager.ParseCsvItems | src/components/admin/TranslatorsManager.tsx:50-54 | every item is non-empty, trimmed and comma-free |
| TranslatorsManager.ParseCsvEmptyIff | src/components/admin/TranslatorsManager.tsx:50-54 | the list is empty exactly when the value is only commas and whitespace |
| TranslatorsManager.ParseCsvJoin | src/components/admin/TranslatorsManager.tsx:50-54 | non-empty plain items joined with `", "` parse back into the same items |
| TranslatorsManager.SplitValues | src/components/admin/TranslatorsManager.tsx:276 | an empty value gives no items |
| TranslatorsManager.SplitValuesIsParseCsv | src/components/admin/TranslatorsManager.tsx:276 | the guard changes nothing: `splitValues` is `parseCsv` |
| TranslatorsManager.BuildQuery | src/components/admin/TranslatorsManager.tsx:107-114 | page and size are passed on; `q` and `experience` are sent trimmed (`TrimOrUndefined`), absent exactly when blank; languages and specializations are sent as their `parseCsv` lists (`ParseCsv`: trimmed, non-empty, comma-free items) |
| TranslatorsManager.InitialQueryIsUnfiltered | src/components/admin/TranslatorsManager.tsx:43-48 | the initial filters give a query with no search, no lists and no experience |
| TranslatorsManager.BlankFiltersAreUnfiltered | src/components/admin/TranslatorsManager.tsx:107-114 | blank filters give the same query as the initial ones |
| TranslatorsManager.TrimRequestFields | src/components/admin/TranslatorsManager.tsx:133-142 | each of the eight fields is trimmed, and is empty exactly when it was blank |
| TranslatorsManager.TrimRequestIdempotent | src/components/admin/TranslatorsManager.tsx:133-142 | trimming the request twice is trimming it once |
| TranslatorsManager.FirstMissing | src/components/admin/TranslatorsManager.tsx:155-157 | the field reported is empty and the first empty one in declaration order; nothing is reported exactly when every field is filled |
| TranslatorsManager.FirstMissingNoneIff | src/components/admin/TranslatorsManager.tsx:155-162 | nothing is missing exactly when all eight fields are non-empty |
| TranslatorsManager.NothingMissingIff | src/components/admin/TranslatorsManager.tsx:133-162 | after trimming, nothing is missing exactly when no field was blank |
| TranslatorsManager.Component.constructor | src/components/admin/TranslatorsManager.tsx:76-85 | no translators, loading, the empty form, the initial filters, page 1 of size 20 with total 0 |
| TranslatorsManager.Component.LoadTranslators | src/components/admin/TranslatorsManager.tsx:100-123 | the query sent is the filters' query; a response replaces the list and pagination, a failure keeps them; loading ends |
| TranslatorsManager.Component.ReceivePage | src/components/admin/TranslatorsManager.tsx:116-121 | a response replaces the list and pagination, a failure keeps them; loading ends; nothing else changes |
| TranslatorsManager.Component.ResetForm | src/components/admin/TranslatorsManager.tsx:207-216 | the empty form and nothing edited |
| TranslatorsManager.Component.HandleSubmit | src/components/admin/TranslatorsManager.tsx:125-179 | nothing is sent during an upload or with a trimmed field empty (the first one is reported); otherwise the trimmed request is sent as an update of the edited translator or a create; success closes the dialog, resets the form and reloads page 1 |
| TranslatorsManager.Component.HandleEdit | src/components/admin/TranslatorsManager.tsx:181-194 | each of the eight form fields is the translator's field; the translator is being edited and the dialog opens |
| TranslatorsManager.Component.HandleFilterSubmit | src/components/admin/TranslatorsManager.tsx:218-221 | the query sent is `BuildQuery` of page 1, the current page size and the current filters; a response replaces the list and pagination, a failure keeps them; loading ends; the form, the dialog and the filters are kept |
| TranslatorsManager.Component.HandleResetFilters | src/components/admin/TranslatorsManager.tsx:223-226 | the filters return to the initial ones and the query sent is page 1 with no filter; a response replaces the list and pagination, a failure keeps them; loading ends; the form and the dialog are kept |
| PostsManager.FilteredPosts | src/components/admin/PostsManager.tsx:87-97 | an order-preserving sub-list that keeps a post exactly when both the search and the section match, each matching post as many times as it occurs |
| PostsManager.NoFilterKeepsAll | src/components/admin/PostsManager.tsx:88-96 | an empty search with section `"all"` keeps every post |
| PostsManager.SearchThenSection | src/components/admin/PostsManager.tsx:96 | filtering by search then by section gives the same list |
| PostsManager.SearchIgnoresQueryCase | src/components/admin/PostsManager.tsx:88-91 | the case of the query does not matter |
| PostsManager.StatusBadge | src/components/admin/PostsManager.tsx:163-192 | the published badge is shown exactly for the status `"published"`; a missing status (read as `"draft"`) and every other status get the draft badge |
| PostsManager.Manager.constructor | src/components/admin/PostsManager.tsx:22-28 | no posts, loading, the editor hidden with no post id, an empty search and section `"all"` |
| PostsManager.Manager.LoadPosts | src/components/admin/PostsManager.tsx:48-58 | a fetched list replaces the posts, a failure keeps them; loading ends; nothing else changes |
| PostsManager.Manager.HandleEdit | src/components/admin/PostsManager.tsx:71-74 | the editor opens on the given post id; nothing else changes |
| PostsManager.Manager.HandleCreate | src/components/admin/PostsManager.tsx:76-79 | the editor opens with no post id; nothing else changes |
| PostsManager.Manager.HandleCancel | src/components/admin/PostsManager.tsx:99-105 | the editor closes and keeps its post id; nothing else changes |
| PostsManager.Manager.HandleSave | src/components/admin/PostsManager.tsx:81-85 | the editor closes, the post id is cleared and the posts are reloaded as `LoadPosts` does |
| CommentsManager.FilteredComments | src/components/admin/CommentsManager.tsx:63-70 | an order-preserving sub-list that keeps a comment exactly when the search and the status match, each matching comment as many times as it occurs |
| CommentsManager.NoFilterKeepsAll | src/components/admin/CommentsManager.tsx:63-70 | an empty search with status `"all"` keeps every comment |
| CommentsManager.SearchIgnoresQueryCase | src/components/admin/CommentsManager.tsx:64-67 | the case of the query does not matter |
| CommentsManager.PendingCount | src/components/admin/CommentsManager.tsx:89 | the count is the number of pending comments in the unfiltered list, and at most the list's length |
| CommentsManager.PendingCountIsPendingFilter | src/components/admin/CommentsManager.tsx:89 | it equals the length of the list filtered to status `"pending"` with no search |
| CommentsManager.GetStatusBadge | src/components/admin/CommentsManager.tsx:72-81 | approved and rejected get their own badges; every other status is shown as under moderation |
| CommentsManager.OfferedActions | src/components/admin/CommentsManager.tsx:147-177 | approve and reject are offered exactly for pending comments; delete always |
| CommentsManager.ModerationButtonsMatchBadge | src/components/admin/CommentsManager.tsx:72-81 | a comment offering approval shows the under-moderation badge; an approved or rejected one offers only delete |
| Votes.DislikeBase | src/components/NewsCard.tsx:37 | the base dislike count is the floor of likes / 10 |
| Votes.Like | src/components/NewsCard.tsx:39-51 | the like flag flips; un-liking takes back one like; liking turns a dislike off (one dislike fewer) and adds one like |
| Votes.Dislike | src/components/NewsCard.tsx:53-65 | the same, with the roles of the buttons swapped |
| Votes.DislikeMirrorsLike | src/components/NewsCard.tsx:39-65 | dislike is like with flags and counts swapped |
| Votes.PressesKeepExclusive | src/components/NewsCard.tsx:39-65 | a press never leaves both buttons on |
| Votes.PressesKeepCounts | src/components/NewsCard.tsx:34-65 | each count stays its start plus one exactly when its button is on, so it never drops below its start |
| Votes.PressSequenceKeepsCounts | src/components/NewsCard.tsx:34-65 | the same holds after any sequence of presses |
| Votes.PressTwiceRestores | src/components/NewsCard.tsx:39-65 | pressing one button twice from neutral restores flags and counts |
| NewsCard.Card.constructor | src/components/NewsCard.tsx:34-37 | the card starts neutral from the initial likes |
| NewsCard.Card.HandleLike | src/components/NewsCard.tsx:39-51 | the state becomes the like step; the counts stay tied to the flags |
| NewsCard.Card.HandleDislike | src/components/NewsCard.tsx:53-65 | the state becomes the dislike step; the counts stay tied to the flags |
| PostDetailPage.Page.constructor | src/components/PostDetailPage.tsx:16-23 | no post, loading, empty comment, both flags off and both counts 0 |
| PostDetailPage.Page.LoadPost | src/components/PostDetailPage.tsx:29-41 | a fetched post sets the like count to its likes and the dislike count to the base; a failure keeps the state; loading ends; the flags are untouched |
| PostDetailPage.Page.HandleLike | src/components/PostDetailPage.tsx:43-55 | the state becomes the like step; nothing else changes |
| PostDetailPage.Page.HandleDislike | src/components/PostDetailPage.tsx:57-69 | the state becomes the dislike step; nothing else changes |
| PostDetailPage.Page.SetNewComment | src/components/PostDetailPage.tsx:229 | only the comment text changes |
| PostDetailPage.Page.HandleSubmitComment | src/components/PostDetailPage.tsx:76-81 | a comment is accepted exactly when it is not blank, and an accepted one clears the input |
| PostDetailPage.LoadedPageKeepsCounts | src/components/PostDetailPage.tsx:29-69 | after loading a post on a fresh page, any presses keep the buttons exclusive and the counts tied to the flags |
| PostEditor.TagsFromInput | src/components/admin/PostEditor.tsx:362-363 | the input gives commas + 1 tags, empty ones kept |
| PostEditor.TagsRoundTrip | src/components/admin/PostEditor.tsx:361-363 | tags shown joined with `", "` read back as the same tags when each is trimmed and comma-free |
| PostEditor.TagsArePlain | src/components/admin/PostEditor.tsx:363 | every tag is trimmed and comma-free |
| PostEditor.EmptyInputGivesOneEmptyTag | src/components/admin/PostEditor.tsx:363 | an emptied input gives one empty tag |
| PostEditor.SavePayload | src/components/admin/PostEditor.tsx:131-138 | the status is the button's, the image URL and content are those given, `publishedAt` is now when publishing and kept for a draft, an empty read time becomes `"5 мин"`, and no other field changes |
| PostEditor.SavePayloadIdempotent | src/components/admin/PostEditor.tsx:131-138 | building the record again from a built one with the same choices changes nothing |
| PostEditor.Editor.constructor | src/components/admin/PostEditor.tsx:50-61 | the initial post, not loading, no image picked, an empty preview |
| PostEditor.Editor.LoadPost | src/components/admin/PostEditor.tsx:80-97 | with a non-empty post id, a fetched post replaces the edited one and a non-empty image URL becomes the preview; without an id, or on failure, nothing changes |
| PostEditor.Editor.HandleTagsChange | src/components/admin/PostEditor.tsx:362-364 | only the post's tags change, to the parsed input |
| PostEditor.Editor.HandleSave | src/components/admin/PostEditor.tsx:112-158 | nothing happens unless title, excerpt and category are filled; a failed upload of a picked image ends the save; otherwise the record is built with the uploaded URL (or the old one when no file was picked) and sent as an update when a non-empty post id is given, else (no id, or the empty id, which is falsy) a create; loading ends |

## Left out

- `src/lib/api.ts`, the HTTP client, is not part of this model. Every call through it is a parameter: a success flag, or an optional response. The component code is followed where it disagrees with the client: `TranslatorsManager` passes filters to `translatorsApi.getAll` and reads `items/page/size/total`, although the client's `getAll` takes no arguments.
- `Files.NormalizeFilePath`: the absolute-URL branch (`src/lib/files.ts:69-94`) needs the URL parser and the API origin. It is the parameter `absoluteBranch`, and nothing is proved about it.
- `Files.ResolveFileUrl`: joining a relative result with the API base URL (`src/lib/files.ts:122-126`) is the parameter `join`.
- `Files.EnsureAssetsSegmentUppercase`: the pattern's optional leading `/` is left out of the match. It does not change which characters are replaced.
- Regular-expression case folding is modelled for ASCII letters, which is all the pattern holds.
- `JsStrings.Lower` lower-cases ASCII and the basic Cyrillic letters only. Other scripts are left unchanged.
- `localeCompare(…, "ru")` is a comparator parameter, required only to be a total preorder. `toLocaleString`, `toLocaleDateString` and `formatDateTime` are not modelled.
- Strings are sequences of characters. JavaScript's UTF-16 code units are not modelled.
- `Votes.DislikeBase`: `Math.floor(likes * 0.1)` is floating point. It is modelled as the floor of exact division by 10; the rounding of the floating-point product is not modelled.
- `PostDetailPage.Page.LoadPost`: reloading on a `postId` change resets the counts but not the flags. The count invariant is therefore proved only from a fresh mount, in `PostDetailPage.LoadedPageKeepsCounts`.
- `EventsManager.Component.HandleSubmit`, `TranslatorsManager.Component.HandleSubmit` and the other handlers run their REST calls to completion before the next event. The interleaving of `async` handlers and the `void loadTranslators(...)` fire-and-forget ordering are not modelled.
- `EventsManager.Component.HandleSubmit`: the reload of the event list after a save (`loadEvents`) is not modelled.
- Event form fields that JavaScript may hold as `undefined` are read as `""`. Every use in the events manager goes through `?? ""`, `|| ...` or `trim()`.
- `TranslatorsManager.Component.HandleSubmit`: translator fields are strings in the model. In the source, `handleEdit` (`src/components/admin/TranslatorsManager.tsx:183-191`) copies the record's fields without defaults, and `handleSubmit` calls `.trim()` on each of them (lines 134-141). A record with an `undefined` field therefore makes the source throw a `TypeError`: nothing is sent and no toast names the field. The model reads such a field as `""` and reports it as `MissingField`.
- Some operations are not modelled:
  - the events list loading (`loadEvents`), the comments list loading (`loadComments`) and the settings loading (`loadSettings`);
  - the delete handlers of all four managers;
  - the cover, photo and QR uploads and their file-input refs;
  - `handleModerate` in the comments manager;
  - the post editor's `handleImageUpload` and image insertion.

  Apart from their API calls, toasts and the pending-delete id, these set the following state. The list loaders and the delete and moderate handlers set a reloaded list: events with their page data, comments, posts, translators from page 1. `loadSettings` sets the region map, the sorted region list, the spheres and the available cities. The uploads set their upload flag and the form's URL field. `handleImageUpload` sets the picked image and its preview. Image insertion changes only the rich-text content.
- `PostEditor.Editor.LoadPost`: loading a post does not set the rich-text editor's content, which is reduced to the `editorContent` parameter of `HandleSave`.
- `PostEditor.Editor.HandleSave` and `PostsManager.Manager.HandleSave` are separate: a `Sent(_, true)` outcome is the point where the source calls `onSave`, which is the posts manager's `handleSave`. The link between the two components (the `postId` and `onSave` props) is not stated as one lemma.
- The rich-text editor is reduced to the string it serialises to, or none without an editor. React rendering, dialogs, toasts, `FileReader`, `prompt`, the clipboard and the `useEffect` triggers are not modelled.
- The remaining screens and libraries (public pages, sidebars, theme, config, TipTap extensions) hold no logic of the kind modelled here.
