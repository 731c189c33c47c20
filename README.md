# Devotionals app: data layer, request edge, list and account rules

This project models the logic of a Next.js devotional site backed by a hosted
Supabase (PostgREST) store, and proves properties of that model.

- **The store** is three in-memory tables:
  - `devotionals`, a sequence of rows;
  - `tags`, whose natural key is the name;
  - `devotional_tags`, a set of link pairs.

  It also holds a `users` table. The reads of `supabase-devotionals.ts` are
  pure functions of the tables. Its writes (create, update and delete of a
  devotional, with tag resolution and link replacement) are methods of a
  `Store` class. The account helpers of `supabase-auth.ts` are functions and
  methods of a `UserStore` class.
- **The request edge** covers the `/api/devotionals` route (GET dispatch and
  parsing, POST validation, defaults and slug derivation), the client's query
  string, and the login route's status codes.
- **The client side** covers:
  - the author's devotional list (tag set, filters, tag toggle, delete);
  - the new-devotional form (duplicate-free tag editor, validity, save and
    reset);
  - the home page's featured and recent picks;
  - the search dialog (when to query, what to send, tag badges);
  - the auth guard's decision table;
  - the auth provider's list maintenance;
  - the profile page (password checks, changed-fields payload);
  - the user-management panel (update payload, messages, delete dialog).

Outcomes of the store, the network and the clock are parameters, for example
`insertFails`, `lookupFails`, `countError` and `now`. bcrypt is a pair of
uninterpreted functions, `hash` and `compare`.

The shared modules are:
- `Wrappers` (Option and Result);
- `Text` (JavaScript string primitives: lower-casing, `\s`, `trim`,
  `split`/`join`, substring, code-unit order, `parseInt` (decimal, or hexadecimal after `0x`/`0X`) and `toString`);
- `Collections` (filter, subsequence, distinctness, stable insertion sort);
- `Types` (the records of `src/lib/types.ts`).

Where the type declarations and the code disagree, the model follows the
code:
- `users.password_hash` is declared as a string, but OAuth sign-up stores
  `null`, so the model has `Option<string>`.
- The search and by-slug reads map rows without `author_id`, so the model's
  rows carry `None` there.

## Model

| member | source | states |
|---|---|---|
| SupabaseDevotionals.TagsOf | src/lib/supabase-devotionals.ts:8-19 | The embedded `devotional_tags(tags(...))` join yields exactly the tags linked to the devotional. |
| SupabaseDevotionals.OrdersArePreorders | src/lib/supabase-devotionals.ts:225-227 | The `date desc`, `featured desc, date desc` and `name asc` orders are total preorders, so sorting by them is well defined. |
| SupabaseDevotionals.NewestFirst | src/lib/supabase-devotionals.ts:21 | The result has one joined entry per input row: same length, the same rows as a multiset, each joined with its own tags, sorted by date descending. |
| SupabaseDevotionals.GetAllDevotionals | src/lib/supabase-devotionals.ts:5-54 | Each published row appears as often as in the table and no other row appears (multiset and length), each entry joined with its own tags, newest first. |
| SupabaseDevotionals.GetDevotionalsByAuthor | src/lib/supabase-devotionals.ts:57-118 | Without a query error: each row with that `author_id`, published or not, as often as in the table and nothing else (multiset and length), each entry joined with its own tags, newest first. With a query error: getAllDevotionals instead. |
| SupabaseDevotionals.GetDevotionalBySlug | src/lib/supabase-devotionals.ts:121-172 | A result is a published row with that slug (without `author_id`). Null when no published row has the slug. |
| SupabaseDevotionals.GetBySlugFinds | src/lib/supabase-devotionals.ts:138-140 | With unique slugs, `.single()` finds every published row by its slug. |
| SupabaseDevotionals.SingleMatch | src/lib/supabase-devotionals.ts:138-140 | With unique slugs, the slug-and-published filter selects exactly that one row. |
| SupabaseDevotionals.ByAuthor | src/lib/supabase-devotionals.ts:76 | The `.eq("author_id", id)` filter keeps exactly the rows with that author id. |
| SupabaseDevotionals.PublishedWithSlug | src/lib/supabase-devotionals.ts:138-139 | The filter keeps exactly the published rows with the slug. |
| SupabaseDevotionals.GetAllTags | src/lib/supabase-devotionals.ts:280-292 | Every tag, as a permutation of the table, sorted by name ascending in code-unit order. |
| SupabaseDevotionals.Page | src/lib/supabase-devotionals.ts:230 | `.range(offset, offset+limit-1)` is the slice `[offset, min(offset+limit, n))`: at most `limit` rows, and none past the end. |
| SupabaseDevotionals.Matching | src/lib/supabase-devotionals.ts:207-222 | A row is selected iff it is published, the term is absent or a case-insensitive substring of title, excerpt, content or author, the author filter is absent or a substring of the author, and `featured` is absent or equal. |
| SupabaseDevotionals.Ordered | src/lib/supabase-devotionals.ts:225-227 | The selected rows, no more and no fewer, sorted featured first and then newest first. |
| SupabaseDevotionals.SearchPage | src/lib/supabase-devotionals.ts:225-232 | The page cut by `.range` from the ordered rows: at most `limit` rows (default 20), in featured-then-date order, holding only matching rows. SearchDevotionals uses it only for a range PostgREST serves. |
| SupabaseDevotionals.PageFrom | src/lib/supabase-devotionals.ts:230 | A page holds rows of the list it is cut from and keeps any order that list has. |
| SupabaseDevotionals.JoinSorted | src/lib/supabase-devotionals.ts:250-271 | Mapping rows to their joined form without `author_id` keeps them in featured-then-date order. |
| SupabaseDevotionals.WithTagIn | src/lib/supabase-devotionals.ts:241-247 | The tag post-filter keeps exactly the rows having a tag whose name is listed, as an order-preserving subsequence. |
| SupabaseDevotionals.SearchDevotionals | src/lib/supabase-devotionals.ts:175-277 | Fails (the thrown 416) iff `offset` is past the number of matching rows. Otherwise `total` is that number, counted before the page and the tag filter. |
| SupabaseDevotionals.SearchKeepsPageOrder | src/lib/supabase-devotionals.ts:239-247 | For a served range the result is a subsequence of the page: the whole page without tag names, otherwise exactly the page rows with a listed tag. |
| SupabaseDevotionals.SearchSpec | src/lib/supabase-devotionals.ts:175-277 | For a served range, every returned row is published and matches. There are at most `limit` of them, in featured-then-date order, each with a listed tag when names are given. `total` (counted before slicing and before the tag filter) is never below the result's length. |
| SupabaseDevotionals.SearchPageSize | src/lib/supabase-devotionals.ts:205-237 | Without tag names the search fails exactly when `offset` is past the number of matching rows (PostgREST's 416, thrown). Otherwise it holds `limit` rows, or what remains after `offset` (none at the count itself). |
| SupabaseDevotionals.TagNamed | src/lib/supabase-devotionals.ts:345-349 | A found tag is in the table and has exactly the name. |
| SupabaseDevotionals.TagNamedFinds | src/lib/supabase-devotionals.ts:345-351 | With unique names the lookup finds the tag with that name, and finds nothing exactly when none has it. |
| SupabaseDevotionals.SameTag | src/lib/supabase-devotionals.ts:343-368 | In a table of distinct tags, two tags that agree on name or id are the same tag. |
| SupabaseDevotionals.LinksFor | src/lib/supabase-devotionals.ts:373-378 | The link rows inserted are exactly one `(devotional, tag)` pair per resolved tag. |
| SupabaseDevotionals.ExactTagSet | src/lib/supabase-devotionals.ts:446-486 | After the old links are removed and the resolved tags linked, the devotional's tags are exactly the named ones: replaced, not merged. |
| SupabaseDevotionals.NewRow | src/lib/supabase-devotionals.ts:312-328 | The inserted row is featured iff `featured` is true and unpublished iff `published` is false, and has an `author_id` iff a non-empty one is given. |
| SupabaseDevotionals.Updated | src/lib/supabase-devotionals.ts:424-435 | The update keeps id, slug, `author_id` and `created_at`, and sets `updated_at` to now. |
| SupabaseDevotionals.RowWithId | src/lib/supabase-devotionals.ts:436-438 | The row found has the id, and none is found exactly when no row has it. |
| SupabaseDevotionals.UpdateRows | src/lib/supabase-devotionals.ts:422-438 | Rows with the id are updated, all others unchanged, and the length is kept. |
| SupabaseDevotionals.DeleteRows | src/lib/supabase-devotionals.ts:514 | Exactly the rows without the id remain, in order. |
| SupabaseDevotionals.UnlinkAll | src/lib/supabase-devotionals.ts:511 | Exactly the links of other devotionals remain. |
| SupabaseDevotionals.Store.constructor | src/lib/supabase-devotionals.ts:1-2 | An empty store satisfies the invariant: distinct tag names and ids, distinct devotional ids and slugs. |
| SupabaseDevotionals.Store.ResolveTag | src/lib/supabase-devotionals.ts:343-368 | Returns the existing tag with the name, or inserts exactly one new tag. The result is what the same lookup finds afterwards, so names stay unique. |
| SupabaseDevotionals.Store.ResolveTags | src/lib/supabase-devotionals.ts:343-370 | In sequence, the k-th resolved tag carries the k-th name. Tags are only added, and only with listed names. |
| SupabaseDevotionals.Store.InsertLinks | src/lib/supabase-devotionals.ts:372-380 | The links become the old ones plus one pair per resolved tag. A repeated tag adds nothing, because the key is composite. |
| SupabaseDevotionals.Store.Create | src/lib/supabase-devotionals.ts:295-400 | A failed insert (a store error or a duplicate slug) throws with no table changed. Otherwise the row is appended, its tags are exactly the named ones, and other links are untouched. |
| SupabaseDevotionals.Store.Update | src/lib/supabase-devotionals.ts:403-506 | A failed or row-less update throws with nothing changed. Otherwise the row is rewritten, its tag set is replaced by exactly the named tags, and other devotionals' links are untouched. |
| SupabaseDevotionals.Store.Relink | src/lib/supabase-devotionals.ts:445-486 | The row's links are dropped and the named tags resolved and linked: the row's tags become exactly the named ones, tags are only added, rows and other rows' links are unchanged. |
| SupabaseDevotionals.Store.Delete | src/lib/supabase-devotionals.ts:509-520 | The devotional's links are removed first, then the row. A failing row delete throws after the links are gone. Tags and other links are untouched. |
| DevotionalsRoute.NfdChar | src/app/api/devotionals/route.ts:90 | NFD of one character is one or two characters. Two only for a letter that decomposes: its base letter `a`-`z` followed by a combining mark, which the next step strips. |
| DevotionalsRoute.CollapseRuns | src/app/api/devotionals/route.ts:93-94 | `replace(/x+/g, "-")` leaves only the mark and characters outside the class. |
| DevotionalsRoute.SlugSource | src/app/api/devotionals/route.ts:88-92 | After lower-casing, NFD, mark removal and `[^a-z0-9\s-]` removal, only `[a-z0-9\s-]` remain. |
| DevotionalsRoute.UntrimmedChars | src/app/api/devotionals/route.ts:92-95 | After the two collapses only slug characters remain, so the final `trim()` removes nothing. |
| DevotionalsRoute.SlugShape | src/app/api/devotionals/route.ts:88-95 | The slug holds only `a`-`z`, `0`-`9` and `-`, and never two `-` in a row. |
| DevotionalsRoute.SlugIdempotent | src/app/api/devotionals/route.ts:88-95 | Deriving the slug of a slug returns it unchanged. |
| DevotionalsRoute.LeadingSpaceKept | src/app/api/devotionals/route.ts:93-95 | A title starting with white space gives a slug starting with `-`. |
| DevotionalsRoute.TrailingSpaceKept | src/app/api/devotionals/route.ts:93-95 | A title ending with white space gives a slug ending with `-`. |
| DevotionalsRoute.PostInput | src/app/api/devotionals/route.ts:54-110 | Nothing is handed on iff a required field is missing or empty. Otherwise the slug is the title's slug and `tagNames` defaults to `[]`. |
| DevotionalsRoute.PostDefaults | src/app/api/devotionals/route.ts:62-64 | The created row is featured only for `featured: true` and published unless `published: false`, and its slug has the slug shape. |
| DevotionalsRoute.Post | src/app/api/devotionals/route.ts:50-123 | A missing field gives 400 and stores nothing. A store failure gives 500. Otherwise createDevotional's row, with the derived slug, is appended. |
| DevotionalsRoute.QueryGet | src/app/api/devotionals/route.ts:7-10 | `searchParams.get` finds a value iff the key occurs, and the value is paired with that key. |
| DevotionalsRoute.TagNamesParam | src/app/api/devotionals/route.ts:8 | A present `tagNames` parameter always splits into at least one name. |
| DevotionalsRoute.Plan | src/app/api/devotionals/route.ts:7-35 | The route lists everything iff term, author and featured are empty and `tagNames` is absent. Otherwise it searches with the names split on `,`, the non-empty texts, and `featured == "true"`. |
| DevotionalsRoute.PlanSearch | src/app/api/devotionals/route.ts:7-27 | With a filter given and `limit`/`offset` read as numbers, the route searches with the non-empty texts, the split tag names, `featured == "true"`, and those numbers. |
| DevotionalsRoute.PlanDefaults | src/app/api/devotionals/route.ts:11-12 | Without `limit` and `offset` the search asks for 50 rows from 0, overriding the search's own 20. |
| DevotionalsRoute.Get | src/app/api/devotionals/route.ts:4-48 | A store failure, or a search whose range PostgREST refuses, gives 500. Otherwise the route answers all published devotionals with `total` = length, or the search result and its total. |
| DevotionalsRoute.GetListsPublished | src/app/api/devotionals/route.ts:18-35 | Every devotional the route lists is published, whichever branch it takes. |
| ApiClient.SetParam | src/lib/api-client.ts:57 | `URLSearchParams.set` makes the key read back as the value and leaves every other key's value as it was. |
| ApiClient.WithoutKey | src/lib/api-client.ts:57-64 | Dropping a key's pairs leaves it unread and other keys as they were. |
| ApiClient.Serialize | src/lib/api-client.ts:66-68 | The query text is empty iff no parameter was set. |
| ApiClient.UptoSet | src/lib/api-client.ts:55-64 | A `set` of the next parameter, when it is sent, makes the query carry it, keeping the ones already set. |
| ApiClient.UptoSkip | src/lib/api-client.ts:55-64 | A parameter that is not sent is skipped and the query still carries what it should. |
| ApiClient.UptoCarries | src/lib/api-client.ts:57-64 | After all six sets, the query carries exactly the sent parameters, and is empty iff nothing is sent. |
| ApiClient.FetchDevotionalsUrl | src/lib/api-client.ts:47-71 | Texts are sent when non-empty, tags joined by `,` when the list is non-empty, `featured` whenever defined, numbers when non-zero. The URL is the bare endpoint iff nothing was set, otherwise endpoint, `?` and the query. |
| ApiClient.SearchParamsOf | src/lib/api-client.ts:55-60 | The first three conditional sets, followed by the rest, leave the query carrying the parameters. |
| ApiClient.FilterParamsOf | src/lib/api-client.ts:61-64 | The `featured`, `limit` and `offset` sets complete the query. |
| ApiClient.NumberRoundTrip | src/lib/api-client.ts:63-64 | A non-zero number sent is read back by the route's `parseInt`. Zero is never sent and reads as the route's default. |
| ApiClient.ClientRouteRoundTrip | src/app/api/devotionals/route.ts:7-27 | A client search with at least one filter reaches searchDevotionals with the same filters, the same tag list (names free of `,`), and the same non-zero limit and offset, with 50 and 0 otherwise. |
| Text.SplitJoin | src/app/api/devotionals/route.ts:8 | Splitting on `,` what was joined by `,` returns the list, when no name holds `,`. |
| Text.ParseIntToString | src/app/api/devotionals/route.ts:11-12 | `parseInt(n.toString()) == n` for every integer; numbers are unbounded integers here (see ## Left out). |
| Text.TrimEmptyIff | src/components/search-modal.tsx:45 | `trim()` gives "" iff every character is white space. |
| Text.ContainsIff | src/app/admin/devocionais/page.tsx:61-62 | `includes` holds iff the needle occurs at some position. |
| AdminDevotionals.TagNamesOf | src/app/admin/devocionais/page.tsx:51-53 | The visited names are exactly the names of the tags on the loaded devotionals. |
| AdminDevotionals.AllTagsSpec | src/app/admin/devocionais/page.tsx:49-55 | allTags is sorted ascending, has no duplicates, and holds exactly the tag names of the loaded devotionals. |
| AdminDevotionals.FilteredSpec | src/app/admin/devocionais/page.tsx:58-70 | filteredDevotionals is an order-preserving subsequence holding exactly the rows whose lower-cased title or author contains the lower-cased term and that carry the selected tag, if any. |
| AdminDevotionals.NoFilterShowsAll | src/app/admin/devocionais/page.tsx:60-66 | An empty term and no selected tag show every devotional. |
| AdminDevotionals.WithoutIdSpec | src/app/admin/devocionais/page.tsx:87 | After removal no entry has the id, and every other entry stays, in order. |
| AdminDevotionals.Manager.constructor | src/app/admin/devocionais/page.tsx:22-28 | The page's initial state. |
| AdminDevotionals.Manager.Load | src/app/admin/devocionais/page.tsx:31-46 | With a non-empty user id, the list becomes getDevotionalsByAuthor's answer, and otherwise it is kept. Loading ends either way. |
| AdminDevotionals.Manager.ClickTag | src/app/admin/devocionais/page.tsx:216 | A tag button selects its tag, or clears the selection when that tag was selected. |
| AdminDevotionals.Manager.ClearTag | src/app/admin/devocionais/page.tsx:206 | "Todas as tags" clears the selection. |
| AdminDevotionals.Manager.DeleteClick | src/app/admin/devocionais/page.tsx:73-76 | The trash button remembers the devotional and opens the dialog. |
| AdminDevotionals.Manager.ConfirmDelete | src/app/admin/devocionais/page.tsx:79-98 | With nothing chosen nothing happens. Otherwise deleteDevotional runs: on success the id leaves the list and the dialog closes; on failure the list and dialog are kept. |
| AdminDevotionals.Manager.CancelDelete | src/app/admin/devocionais/page.tsx:101-104 | The dialog closes and forgets the devotional. |
| NewDevotional.SaveBody | src/app/admin/novo-devocional/page.tsx:64-75 | The posted body passes the route's check iff the form is valid and the author non-empty. It carries the tags and the user's id, with `featured: false` and `published: true`. |
| NewDevotional.SavedRow | src/app/admin/novo-devocional/page.tsx:55-84 | The stored row holds the form's texts and the title's slug, is unfeatured and published, and has an author id iff a non-empty user id exists. |
| NewDevotional.IsFormValid | src/app/admin/novo-devocional/page.tsx:107 | The save button's check: the five text fields are non-empty; author and tags are not looked at. |
| NewDevotional.RemoveTagSpec | src/app/admin/novo-devocional/page.tsx:48-53 | removeTag drops every copy of the tag and keeps the rest in order. |
| NewDevotional.Editor.constructor | src/app/admin/novo-devocional/page.tsx:20-32 | The form starts empty with the user's name, or "Autor", as author, and with no duplicate tags. |
| NewDevotional.Editor.InputChange | src/app/admin/novo-devocional/page.tsx:34-36 | Only the named field changes. |
| NewDevotional.Editor.TypeTag | src/app/admin/novo-devocional/page.tsx:275 | The tag input sets `newTag`, and nothing else changes. |
| NewDevotional.Editor.AddTag | src/app/admin/novo-devocional/page.tsx:38-46 | A non-blank trimmed tag not yet present is appended and the input cleared. A blank or present tag leaves tags and input unchanged. Tags stay free of duplicates. |
| NewDevotional.Editor.RemoveTag | src/app/admin/novo-devocional/page.tsx:48-53 | Tags become the list without the tag, still free of duplicates. |
| NewDevotional.Editor.Suggest | src/app/admin/novo-devocional/page.tsx:332-339 | A suggestion adds its tag only when absent, so tags stay free of duplicates. |
| NewDevotional.Submit | src/app/admin/novo-devocional/page.tsx:58-82 | The POST of a valid form: on success (200) the form's row is appended and linked to exactly its tags. An empty author gives 400 and a failed insert 500, and either failure leaves the store unchanged. |
| NewDevotional.Editor.HandleSave | src/app/admin/novo-devocional/page.tsx:55-105 | On success the form's row is appended to the table and linked to exactly the form's tags, the form is reset with author "Pastor João Silva", and `saved` is set. On failure the store and the form are unchanged and the alert carries the route's error: 400 for an empty author, 500 for a failed insert. |
| HomePage.FirstFeatured | src/app/page.tsx:27 | `find(d => d.featured)` returns the first featured position, or none when none is featured. |
| HomePage.Today | src/app/page.tsx:27-28 | Today's devotional is the first featured one, else the first one, and null only for an empty list. |
| HomePage.Recent | src/app/page.tsx:31 | At most three entries, all from the list, none with today's id. |
| HomePage.RecentSpec | src/app/page.tsx:30-31 | The recent list is an order-preserving subsequence. With distinct ids it holds exactly min(3, n-1) entries and skips no row before a listed one, so it is the first three rows other than today's. |
| HomePage.RecentTakesFirst | src/app/page.tsx:30-31 | With distinct ids, a row other than today's that comes before a listed row is listed too (`filter` keeps order, `slice(0, 3)` takes the front). |
| HomePage.HomeShowsPublished | src/app/page.tsx:23-32 | Both picks come from the published devotionals. |
| HomePage.Home.LoadData | src/app/page.tsx:21-41 | The picks come from the unparameterised fetch, and a failed fetch clears both. |
| HomePage.Home.Timeout | src/app/page.tsx:44-48 | The timeout stops loading and clears both picks. |
| SearchModal.SearchRequest | src/components/search-modal.tsx:45-57 | A request is made iff the trimmed term is non-empty or a tag is selected. It carries the trimmed term only when non-blank, and `[selectedTag]` exactly when a tag is selected. |
| SearchModal.RouteParams | src/app/api/devotionals/route.ts:7-27 | The route's search parameters for the dialog's request always ask for 50 rows from offset 0. |
| SearchModal.DialogSearch | src/components/search-modal.tsx:59 | The dialog's search starts at offset 0, which PostgREST always serves, so it never fails. |
| SearchModal.RequestReachesRoute | src/components/search-modal.tsx:59 | The dialog's request makes the route search with the trimmed term, the selected tag split on `,`, 50 rows and offset 0. |
| SearchModal.RouteAnswer | src/components/search-modal.tsx:59-61 | The route answers the dialog with the search page and its total, or fails. |
| SearchModal.PlainTagReachesRoute | src/components/search-modal.tsx:55-57 | A tag name without `,` reaches the route as itself. |
| SearchModal.FetchSearch | src/components/search-modal.tsx:59 | fetchDevotionals for the dialog's request returns the search page and total, or a failure. |
| SearchModal.SearchEffect | src/components/search-modal.tsx:43-75 | The request is SearchRequest's. With nothing to search the results are cleared. Otherwise they become the route's, or are kept when the request fails, and loading ends. |
| SearchModal.Modal.constructor | src/components/search-modal.tsx:22-27 | The dialog's initial state. |
| SearchModal.Modal.RunSearch | src/components/search-modal.tsx:43-75 | With nothing to search the results become [] and the total 0. Otherwise the results are the route's, and a failed request keeps the previous results and total. |
| SearchModal.Modal.LoadTags | src/components/search-modal.tsx:77-84 | The tags become getAllTags' list, and are kept on failure. |
| SearchModal.Modal.TypeTerm | src/components/search-modal.tsx:146 | The term becomes the input, and nothing else changes. |
| SearchModal.Modal.SelectTag | src/components/search-modal.tsx:175 | A badge selects its tag and never toggles it off. |
| SearchModal.Modal.SelectAll | src/components/search-modal.tsx:163 | "Todos" clears the selection. |
| SearchModal.Modal.KeyDown | src/components/search-modal.tsx:91-95 | Escape closes the dialog, and other keys do nothing. |
| SearchModal.Modal.ChooseResult | src/components/search-modal.tsx:86-89 | Choosing a result goes to `/devocional/<slug>` and closes. |
| AuthGuard.Flags | src/components/auth-guard.tsx:17 | The defaults are `requireAdmin = false` and `requireAuth = true`. |
| AuthGuard.Redirect | src/components/auth-guard.tsx:21-40 | Never while loading or when auth is not required. Without a user it goes to /login. A non-admin under `requireAdmin` goes to "/". |
| AuthGuard.Render | src/components/auth-guard.tsx:42-93 | The children show iff not loading and (auth not required, or a user who is an admin when one is required). Spinner iff loading. Nothing iff no user is signed in when auth is required. Access denied iff a non-admin under `requireAdmin`. |
| AuthGuard.RenderAgreesWithRedirect | src/components/auth-guard.tsx:21-93 | The spinner and the children never come with a redirect, and every other view does (/login or "/"). |
| AuthGuard.DefaultsNeedOnlyASignIn | src/components/auth-guard.tsx:17-93 | With the default props, exactly a signed-in user, of any role, sees the page. |
| SupabaseAuth.Single | src/lib/supabase-auth.ts:17 | `.single()` answers iff exactly one row matches, and then answers that row. |
| SupabaseAuth.UserByEmailFinds | src/lib/supabase-auth.ts:13-17 | With distinct emails the lookup finds the user with the email. |
| SupabaseAuth.UserByIdFinds | src/lib/supabase-auth.ts:39-43 | With distinct ids the lookup finds the user with the id. |
| SupabaseAuth.VerifyCredentials | src/lib/supabase-auth.ts:6-33 | Null for a failed lookup, no single user, or a rejected password. The user without the hash exactly when compare accepts. bcrypt's exception when the row has no hash. |
| SupabaseAuth.GetUserById | src/lib/supabase-auth.ts:36-50 | The user without the hash exactly when the lookup succeeds with a single row, and null otherwise. |
| SupabaseAuth.GetAllUsers | src/lib/supabase-auth.ts:185-197 | Every user without the hash, each once and nothing else (length and multiset), newest `created_at` first. |
| SupabaseAuth.CreatedRow | src/lib/supabase-auth.ts:76-87 | The row stores `hash(password)` and no plaintext, and its role defaults to USER. |
| SupabaseAuth.UpdatePayload | src/lib/supabase-auth.ts:109-115 | With a non-empty password the payload gets `password_hash = hash(password)` and loses `password`. Otherwise it equals the input. |
| SupabaseAuth.UpdateUserRows | src/lib/supabase-auth.ts:117-122 | Rows with the id take the payload, and all others are unchanged. |
| SupabaseAuth.OAuthNameSpec | src/lib/supabase-auth.ts:221-224 | The name is never empty. It is `full_name` when given, otherwise the email's text before the first "@" (or "Usuário"). |
| SupabaseAuth.OAuthRow | src/lib/supabase-auth.ts:219-230 | A new OAuth row has no password hash, role USER, "" for a missing email, and the OAuth name. |
| SupabaseAuth.UserStore.constructor | src/lib/supabase-auth.ts:1-3 | An empty table has distinct ids. |
| SupabaseAuth.UserStore.CreateUser | src/lib/supabase-auth.ts:70-97 | On success CreatedRow is appended and returned without the hash. A failed insert leaves the table as it was. |
| SupabaseAuth.UserStore.UpdateUser | src/lib/supabase-auth.ts:100-130 | Succeeds iff the store accepts, the payload is writable (no `password` key and at least one column; PostgREST returns no row for an empty update, so `.single()` throws), and a single row has the id. The row then takes the payload. Otherwise nothing changes. |
| SupabaseAuth.UserStore.DeleteUser | src/lib/supabase-auth.ts:133-182 | A failed count or delete gives `success = false` with its prefixed message. Otherwise the row goes and `devotionalsCount` is the number of the user's devotionals. |
| SupabaseAuth.UserStore.CheckAndCreateOAuthUser | src/lib/supabase-auth.ts:200-246 | A lookup error other than "no rows" fails without inserting. An existing row is returned as is. Otherwise OAuthRow is inserted, or the insert error returned. |
| SupabaseAuth.SubsequenceIdsDistinct | src/lib/supabase-auth.ts:161-164 | Deleting rows keeps ids distinct. |
| SupabaseAuth.CreatedUserLogsIn | src/lib/supabase-auth.ts:6-97 | A user created with a new email logs in with its password, when compare accepts a password against its own hash. |
| SupabaseAuth.ChangedPasswordLogsIn | src/lib/supabase-auth.ts:100-130 | After a password change the user logs in with the new password. |
| SupabaseAuth.OAuthAccountHasNoPasswordLogin | src/lib/supabase-auth.ts:219-230 | A password login to an OAuth account never succeeds: bcrypt throws on the missing hash. |
| LoginRoute.Post | src/app/api/auth/login/route.ts:4-35 | 500 for an unreadable body or a throwing check. 400 for a missing or empty email or password, before any lookup. 401 "Credenciais inválidas" iff the check answers null. 200 with the user iff it answers a user. No other status. |
| LoginRoute.Get | src/app/api/auth/login/route.ts:37-69 | 400 without `userId`, 404 when the lookup finds nothing, 200 with the user otherwise. |
| LoginRoute.CreatedUserLogsInThroughRoute | src/app/api/auth/login/route.ts:4-27 | A user created with a non-empty email and password gets 200 with its record. |
| LoginRoute.SignedInUserIsFetchable | src/app/api/auth/login/route.ts:37-61 | The user POST signs in is the one GET returns for its id. |
| AuthContext.ReplaceById | src/lib/auth-context.tsx:218-222 | Exactly the entries with the id are replaced, and the length and all other entries are kept. |
| AuthContext.MergePatch | src/lib/auth-context.tsx:225-227 | `{...prevUser, ...userData}`: each given field overrides, and id and timestamps are kept. |
| AuthContext.ReplaceKeepsIds | src/lib/auth-context.tsx:218-222 | Replacing by an entry with the same id keeps the list of ids. |
| AuthContext.DeletedUserLeavesList | src/lib/auth-context.tsx:248 | After the filter no entry has the id, and the others stay in order. |
| AuthContext.Context.constructor | src/lib/auth-context.tsx:34-40 | No user, no list, no stored id. |
| AuthContext.Context.Login | src/lib/auth-context.tsx:120-133 | True, with the user set and its id stored, iff the login route answers 200. Otherwise false with nothing changed. |
| AuthContext.Context.Logout | src/lib/auth-context.tsx:157-166 | Always ends with no user and no stored id. |
| AuthContext.Context.FetchAllUsers | src/lib/auth-context.tsx:169-179 | Succeeds iff the query does. The list becomes getAllUsers' answer on success and is kept when it throws. The user and stored id are untouched. |
| AuthContext.Context.CreateNewUser | src/lib/auth-context.tsx:182-204 | On success the row is appended to the table and the new user prepended to the list. On failure the list is unchanged and the error returned. The user and stored id are untouched. |
| AuthContext.Context.UpdateExistingUser | src/lib/auth-context.tsx:207-238 | Succeeds iff updateUser does (so an empty patch fails). On success the row is updated and the matching entries become it, and the current user, if it has the id, takes the given fields. On failure nothing changes. The stored id is untouched. |
| AuthContext.Context.DeleteExistingUser | src/lib/auth-context.tsx:241-266 | On success every entry with the id leaves the list, and deleting the current user logs out (no user, no stored id). Otherwise the list, user and stored id are unchanged. |
| ProfilePage.FormOf | src/app/admin/perfil/page.tsx:22-27 | The form holds the user's name and email (or "") and empty passwords. |
| ProfilePage.Validate | src/app/admin/perfil/page.tsx:59-70 | An empty password passes. A mismatch fails first, then a password shorter than 6; otherwise it passes. |
| ProfilePage.ProfilePatch | src/app/admin/perfil/page.tsx:73-76 | Name and email are sent only when they differ from the user's, and the password only when non-empty. |
| ProfilePage.ProfilePatchEffect | src/app/admin/perfil/page.tsx:73-78 | The merged user gets the form's name and email. The stored payload has no `password` key, and a hash iff the password is non-empty. It is writable iff the form changes the name, the email or the password. |
| ProfilePage.UnchangedFormIsRefused | src/app/admin/perfil/page.tsx:73-78 | Saving the form as "Editar Perfil" loaded it passes the checks but sends `{}`, which updateUser refuses. |
| ProfilePage.Profile.constructor | src/app/admin/perfil/page.tsx:16-27 | Not editing, no messages, the form from the user. |
| ProfilePage.Profile.HandleEdit | src/app/admin/perfil/page.tsx:29-39 | Editing starts, the form is reloaded from the user, and the messages are cleared. |
| ProfilePage.Profile.HandleCancel | src/app/admin/perfil/page.tsx:41-51 | Editing stops, the form is reloaded from the user, and the messages are cleared. |
| ProfilePage.Profile.HandleSave | src/app/admin/perfil/page.tsx:53-97 | A failed check sets its message and sends nothing. On success the row is updated, the provider's entry is replaced by it, the user takes the new name and email, editing ends, and the form is reloaded from the user as it was before the save (the handler's closure holds that user). On failure, including a save that changes nothing (the empty update throws), an error is shown and editing continues. The stored id is never touched. |
| UserManagement.EditFormOf | src/components/user-management.tsx:178-186 | The edit form holds the user's name, email and role, with an empty password. |
| UserManagement.UpdatePatchOf | src/components/user-management.tsx:85-89 | Name, email and password are sent only when non-empty, and the role always. |
| UserManagement.UntouchedEditKeepsRow | src/components/user-management.tsx:85-91 | Saving an untouched edit form sends no password, is accepted by the store (the role is always sent), and writes the row back unchanged. |
| UserManagement.ErrorMessage | src/components/user-management.tsx:156-164 | An Error's message, a string as is, an object as JSON, the default otherwise. |
| UserManagement.DisplayName | src/components/user-management.tsx:132 | The name of the user with the id when found and non-empty, otherwise "Usuário". |
| UserManagement.DeleteSuccessMessageSpec | src/components/user-management.tsx:143-145 | The message mentions deleted devotionals iff the count is above 0, and extends the plain message. |
| UserManagement.View | src/components/user-management.tsx:194-204 | The panel shows iff the current user is an ADMIN, and the access-denied card otherwise. |
| UserManagement.NoSelfDelete | src/components/user-management.tsx:349 | Delete is offered for exactly the rows that are not the current user. |
| UserManagement.AfterDeleteAsWritten | src/components/user-management.tsx:141-148 | As written, success closes the dialog and clears the count but keeps the checkbox. |
| UserManagement.AsWrittenReopensTicked | src/components/user-management.tsx:141-148 | As written, the next dialog opens with its confirm button already enabled. |
| UserManagement.AfterDelete | src/components/user-management.tsx:172-176 | Corrected: success leaves the dialog fully closed, as cancelDelete does. |
| UserManagement.DialogStaysUnticked | src/components/user-management.tsx:370-455 | Every dialog transition keeps "closed implies unticked", so a freshly opened dialog starts with its confirm button disabled. |
| UserManagement.DeleteOutcome | src/components/user-management.tsx:141-152 | Success alerts the name and count and closes the dialog with the checkbox cleared (corrected reset, see ## Findings). Failure keeps the dialog and alerts the error prefixed by "Erro ao deletar usuário: ". |
| UserManagement.DeleteAndReport | src/components/user-management.tsx:132-152 | The delete through the provider and its alert: success removes the user from the table and the list, logs out when it is the signed-in user, and closes the dialog with the checkbox cleared (corrected reset, see ## Findings). Failure changes nothing and keeps the dialog. |
| UserManagement.Manager.constructor | src/components/user-management.tsx:24-40 | The panel's initial state. |
| UserManagement.Manager.LoadUsers | src/components/user-management.tsx:47-56 | The provider's list becomes getAllUsers' answer, or is kept when the query throws. The user and stored id are untouched. |
| UserManagement.Manager.CreateUser | src/components/user-management.tsx:58-76 | On success the row is appended to the table, the user prepended to the list, and the form reset to empty fields with role USER. On failure the form and both lists are kept and the alert carries the error. The signed-in user and stored id never change. |
| UserManagement.Manager.StartEditing | src/components/user-management.tsx:178-186 | Editing that user, with EditFormOf. |
| UserManagement.Manager.CancelEditing | src/components/user-management.tsx:188-191 | Editing stops and the form is emptied. |
| UserManagement.Manager.UpdateUser | src/components/user-management.tsx:78-105 | Without an edited user nothing happens. Otherwise UpdatePatchOf is sent. Success updates the row, replaces the list's entry, merges the fields into the signed-in user when it is the one edited, and closes the form. Failure keeps the form and alerts. The stored id never changes. |
| UserManagement.Manager.HandleDeleteUser | src/components/user-management.tsx:107-127 | The dialog opens on the user with its devotional count (0 when the count fails), and the checkbox is untouched. |
| UserManagement.Manager.TickConfirm | src/components/user-management.tsx:436-437 | The checkbox sets `confirmDelete`. |
| UserManagement.Manager.CancelDelete | src/components/user-management.tsx:172-176 | Closes and clears the count and the checkbox. |
| UserManagement.Manager.DismissDelete | src/components/user-management.tsx:370-375 | Closing by Escape or a click outside clears the checkbox. |
| UserManagement.Manager.ConfirmDeleteUser | src/components/user-management.tsx:129-170 | Runs only with the confirm button enabled. Success removes the user from the table and the list, closes the dialog (with the corrected reset), alerts the name and count, and logs out when the deleted user is the signed-in one. Failure keeps the dialog, the lists, the user and the stored id, and alerts the error. |

## Left out

- Store and network I/O are not modelled: the Supabase client, `apiRequest`'s fetch, HTTP and JSON. Store outcomes are parameters, and a client call is the route function it reaches. Network failures between client and route are not modelled apart from the store failing behind the route.
- URL percent-encoding is not modelled: a query is its list of decoded pairs.
- `Promise.all` over tag resolution and link inserts is modelled sequentially. A name repeated in `tagNames` resolves to one tag, and its second link insert hits the composite key.
- Errors from the tag lookup and from link deletes and inserts are not modelled. The source does not check them; a failing tag insert, which throws, is not modelled either.
- PostgREST filter strings are not modelled: `%`, `_` and `,` in a search term are taken literally. `ilike` is a case-insensitive substring test.
- Unicode is not modelled beyond Latin-1. `toLowerCase` lower-cases ASCII and Latin-1 letters. `normalize("NFD")` decomposes the accented lower-case Latin-1 letters and leaves other characters alone. `\s` is the JavaScript white-space set within the Basic Multilingual Plane.
- String lengths are sequence lengths, which match JavaScript's UTF-16 `.length` only inside the Basic Multilingual Plane. This affects the profile page's six-character check.
- SupabaseDevotionals.GetAllTags: `.order("name", { ascending: true })` sorts by the database's collation. The model sorts by UTF-16 code units, which matches only the "C" collation. A locale-aware collation orders names such as "Zelo", "amor" and "ágape" differently.
- Text.ParseIntToString and ApiClient.NumberRoundTrip: JavaScript numbers are doubles, and the model's numbers are unbounded integers. From 10^21 on, `toString` writes exponent form, so `parseInt` of it is not the number. Beyond 2^53 the number itself is no longer exact. The round trip is proved for all integers and holds in JavaScript only below those bounds.
- DevotionalsRoute.Plan: a `limit` or `offset` that `parseInt` reads as NaN or a negative number yields `RangeNotModelled`, because PostgREST's answer to such a range is not modelled.
- SupabaseDevotionals.Store.Create: a unique key on `slug` is an assumption about the database, whose schema is not part of this model. Store.Valid keeps slugs distinct, and an insert whose slug is already in the table fails with `UniqueViolation`, which the route answers with 500. If the table has no such key, the source stores a second row with the same slug, and the model does not capture that.
- SupabaseDevotionals.TagsOf: a joined tag keeps the tag row's `created_at`. The source selects only `tags(id, name, color)`, so its `created_at` is undefined; the model keeps the whole row so that a joined tag is a row of the tags table.
- bcrypt is not modelled: `hash` and `compare` are uninterpreted parameters, and the salt rounds are not modelled.
- Dates and timestamps are ordered integers, and ties in an order fall back to table order.
- The alternate return objects of createDevotional and updateDevotional (when the re-read by slug fails) are not modelled: the methods return the stored row. updateDevotional accepts `authorId` but never writes it, and the model does the same.
- Session and OAuth plumbing in the auth provider is not modelled: checkAuth, the onAuthStateChange listener, the localStorage fallback, loginWithGoogle, getUserById and refreshUsers (a pass-through to fetchAllUsers).
- getUserByEmail in supabase-auth.ts is not modelled, because no modelled code calls it.
- The database's cascade from users to devotionals, and its triggers, are not modelled: deleteUser only counts the devotionals.
- The login route's GET catch branch (500) is not modelled: getUserById returns null on every error instead of throwing.
- The `instanceof Error` test in the provider's catch blocks is not modelled: a failure returns the store's message, and only UserManagement.ErrorMessage distinguishes the thrown kinds.
- AuthContext.Context.UpdateExistingUser: the current user is merged with the patch's name, email and role only. A plaintext `password` key the source spreads into it is not carried by the record type.
- AdminDevotionals.MatchesTag, AdminDevotionals.TagNamesOf and AdminDevotionals.AllTagsSpec: the `tag.name || tag` fallback for a tag with an empty name (page.tsx:52 and :66) is not modelled; tags are always records.
- A tag name containing `,` is split in two by the route. The round-trip lemmas exclude such names, and SearchModal.RouteParams shows the split.
- AdminDevotionals.Manager.Load: when the fallback getAllDevotionals itself throws, the list is kept in the source; the model's fallback never fails.
- The debounce, the three-second reset of `saved`, the 5-second home-page timer and React effect scheduling are not modelled; the timer's effect is the separate method HomePage.Home.Timeout.
- UI preconditions are stated as `requires` clauses rather than modelled:
  - handleSave needs a valid form that is not saving, and the profile page needs a user.
  - The open delete dialog covers the list's delete buttons.
  - The confirm button runs only when enabled.
- The input setters of the user-management forms, the admin list's search box and the password-visibility toggle are not modelled.

## Findings

| source | as written | input that shows it | evidently intended | confidence | as-written member | corrected member |
|---|---|---|---|---|---|---|
| src/components/user-management.tsx:141-148 | On a successful delete, confirmDeleteUser clears `deletingUser` and the count but not `confirmDelete`. Closing the dialog by setting `open` does not run `onOpenChange` (370-375), so the box stays ticked. | Tick the box and delete user A, then press "Deletar" on user B: B's dialog opens already ticked, and its confirm button (455) is enabled at once. | Success also clears `confirmDelete`, as cancelDelete (172-176) does, so every dialog opens unticked. | medium, not executed | UserManagement.AsWrittenReopensTicked | UserManagement.DialogStaysUnticked |
