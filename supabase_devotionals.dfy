/** The devotional and tag data layer (src/lib/supabase-devotionals.ts) over
    an in-memory copy of the three tables `devotionals`, `tags` and
    `devotional_tags`. The reads are pure functions of a `Tables` value; the
    writes are methods of `Store`, which holds the tables and changes them
    step by step as the source's sequence of store calls does. */
module SupabaseDevotionals {
  import opened Wrappers
  import opened Collections
  import opened Text
  import opened Types

  datatype Tables = Tables(devotionals: seq<Devotional>, tags: seq<Tag>, links: set<DevotionalTag>)

  // ---------------------------------------------------------------------
  // The embedded `devotional_tags ( tags (...) )` join

  /** The tags linked to devotional `id`, in table order. */
  function TagsOf(db: Tables, id: Id): (r: seq<Tag>)
    ensures forall t :: t in r <==> t in db.tags && DevotionalTag(id, t.id) in db.links
  {
    Filter(db.tags, (t: Tag) => DevotionalTag(id, t.id) in db.links)
  }

  /** The mapping of getAllDevotionals and getDevotionalsByAuthor: every column and its tags. */
  function Joined(db: Tables, d: Devotional): DevotionalWithTags
  {
    DevotionalWithTags(d, TagsOf(db, d.id))
  }

  /** The mapping of getDevotionalBySlug and searchDevotionals, which leaves `author_id` out. */
  function JoinedWithoutAuthorId(db: Tables, d: Devotional): DevotionalWithTags
  {
    DevotionalWithTags(d.(authorId := None), TagsOf(db, d.id))
  }

  function JoinAll(db: Tables, ds: seq<Devotional>): (r: seq<DevotionalWithTags>)
    ensures |r| == |ds| && forall i :: 0 <= i < |ds| ==> r[i] == Joined(db, ds[i])
  {
    seq(|ds|, i requires 0 <= i < |ds| => Joined(db, ds[i]))
  }

  function JoinAllWithoutAuthorId(db: Tables, ds: seq<Devotional>): (r: seq<DevotionalWithTags>)
    ensures |r| == |ds| && forall i :: 0 <= i < |ds| ==> r[i] == JoinedWithoutAuthorId(db, ds[i])
  {
    seq(|ds|, i requires 0 <= i < |ds| => JoinedWithoutAuthorId(db, ds[i]))
  }

  // ---------------------------------------------------------------------
  // Orders

  /** `ORDER BY date DESC`. */
  predicate DateDesc(a: Devotional, b: Devotional)
  {
    a.date >= b.date
  }

  /** `ORDER BY featured DESC, date DESC`. */
  predicate FeaturedThenDateDesc(a: Devotional, b: Devotional)
  {
    (a.featured && !b.featured) || (a.featured == b.featured && a.date >= b.date)
  }

  predicate JoinedFeaturedThenDateDesc(a: DevotionalWithTags, b: DevotionalWithTags)
  {
    FeaturedThenDateDesc(a.devotional, b.devotional)
  }

  predicate JoinedDateDesc(a: DevotionalWithTags, b: DevotionalWithTags)
  {
    DateDesc(a.devotional, b.devotional)
  }

  /** `ORDER BY name ASC`. */
  predicate NameAsc(a: Tag, b: Tag)
  {
    LexLe(a.name, b.name)
  }

  lemma {:induction false} OrdersArePreorders()
    ensures TotalPreorder(DateDesc)
    ensures TotalPreorder(FeaturedThenDateDesc)
    ensures TotalPreorder(NameAsc)
  {
    LexLeTotalPreorder();
  }

  // ---------------------------------------------------------------------
  // Reads

  predicate IsPublished(d: Devotional)
  {
    d.published
  }

  /** The devotional column of joined rows. */
  function Rows(xs: seq<DevotionalWithTags>): (r: seq<Devotional>)
    ensures |r| == |xs| && forall i :: 0 <= i < |xs| ==> r[i] == xs[i].devotional
  {
    seq(|xs|, i requires 0 <= i < |xs| => xs[i].devotional)
  }

  /** The rows with their tags, newest date first (`.order("date", { ascending: false })`):
      every row once, each with its own tags. */
  function NewestFirst(db: Tables, rows: seq<Devotional>): (r: seq<DevotionalWithTags>)
    ensures |r| == |rows| && multiset(Rows(r)) == multiset(rows)
    ensures forall x :: x in r ==> x == Joined(db, x.devotional)
    ensures forall d :: d in rows <==> Joined(db, d) in r
    ensures forall x :: x in r ==> x.devotional in rows
    ensures Sorted(r, JoinedDateDesc)
  {
    var sorted := Sort(rows, DateDesc);
    OrdersArePreorders();
    SortSorted(rows, DateDesc);
    SortMembers(rows, DateDesc);
    assert Rows(JoinAll(db, sorted)) == sorted;
    JoinAll(db, sorted)
  }

  /** getAllDevotionals: the published rows, newest date first, each as
      often as the table holds it. */
  function GetAllDevotionals(db: Tables): (r: seq<DevotionalWithTags>)
    ensures forall x :: x in r ==> x.devotional.published && x == Joined(db, x.devotional)
    ensures forall d :: d in db.devotionals && d.published <==> Joined(db, d) in r
    ensures forall d :: multiset(Rows(r))[d] == if d.published then multiset(db.devotionals)[d] else 0
    ensures |r| == |Filter(db.devotionals, IsPublished)|
    ensures Sorted(r, JoinedDateDesc)
  {
    FilterCount(db.devotionals, IsPublished);
    NewestFirst(db, Filter(db.devotionals, IsPublished))
  }

  /** getDevotionalsByAuthor: the rows whose `author_id` is `authorId`, published
      or not, newest date first, each as often as the table holds it; when
      the query fails (a schema without the `author_id` column) it falls
      back to getAllDevotionals. */
  function GetDevotionalsByAuthor(db: Tables, authorId: string, queryFails: bool): (r: seq<DevotionalWithTags>)
    ensures queryFails ==> r == GetAllDevotionals(db)
    ensures !queryFails ==>
      && (forall d :: d in db.devotionals && d.authorId == Some(authorId) <==> Joined(db, d) in r)
      && (forall x :: x in r ==> x.devotional.authorId == Some(authorId) && x == Joined(db, x.devotional))
      && (forall d :: multiset(Rows(r))[d] ==
            if d.authorId == Some(authorId) then multiset(db.devotionals)[d] else 0)
      && |r| == |ByAuthor(db.devotionals, authorId)|
      && Sorted(r, JoinedDateDesc)
  {
    if queryFails then GetAllDevotionals(db)
    else
      FilterCount(db.devotionals, (d: Devotional) => d.authorId == Some(authorId));
      NewestFirst(db, ByAuthor(db.devotionals, authorId))
  }

  /** getDevotionalBySlug: `.eq("slug").eq("published", true).single()`, which
      answers only when exactly one row matches, and null otherwise. */
  function GetDevotionalBySlug(db: Tables, slug: string): (r: Option<DevotionalWithTags>)
    ensures r.Some? ==>
      exists d :: d in db.devotionals && d.slug == slug && d.published && r.value == JoinedWithoutAuthorId(db, d)
    ensures (forall d :: d in db.devotionals && d.slug == slug ==> !d.published) ==> r.None?
  {
    var matches := PublishedWithSlug(db.devotionals, slug);
    if |matches| == 1 then
      assert matches[0] in matches;
      Some(JoinedWithoutAuthorId(db, matches[0]))
    else None
  }

  /** With slugs unique, a published row with the slug is always found. */
  lemma {:induction false} GetBySlugFinds(db: Tables, d: Devotional)
    requires SlugsUnique(db.devotionals)
    requires d in db.devotionals && d.published
    ensures GetDevotionalBySlug(db, d.slug) == Some(JoinedWithoutAuthorId(db, d))
  {
    SingleMatch(db.devotionals, d);
  }

  lemma {:induction false} SingleMatch(ds: seq<Devotional>, d: Devotional)
    requires SlugsUnique(ds) && d in ds && d.published
    ensures PublishedWithSlug(ds, d.slug) == [d]
  {
    if ds[0] == d {
      assert forall e :: e in ds[1..] ==> e.slug != d.slug;
      assert PublishedWithSlug(ds[1..], d.slug) == [];
    } else {
      assert ds[0].slug != d.slug;
      SingleMatch(ds[1..], d);
    }
  }

  function ByAuthor(ds: seq<Devotional>, authorId: string): (r: seq<Devotional>)
    ensures forall d :: d in r <==> d in ds && d.authorId == Some(authorId)
  {
    Filter(ds, (d: Devotional) => d.authorId == Some(authorId))
  }

  /** The rows `.eq("slug", slug).eq("published", true)` selects. */
  function PublishedWithSlug(ds: seq<Devotional>, slug: string): (r: seq<Devotional>)
    ensures r == if ds == [] then [] else
                   (if ds[0].slug == slug && ds[0].published then [ds[0]] else []) + PublishedWithSlug(ds[1..], slug)
    ensures forall d :: d in r <==> d in ds && d.slug == slug && d.published
  {
    Filter(ds, (d: Devotional) => d.slug == slug && d.published)
  }

  predicate SlugsUnique(ds: seq<Devotional>)
  {
    forall i, j :: 0 <= i < j < |ds| ==> ds[i].slug != ds[j].slug
  }

  /** getAllTags: every tag, by name. */
  function GetAllTags(db: Tables): (r: seq<Tag>)
    ensures multiset(r) == multiset(db.tags)
    ensures Sorted(r, NameAsc)
  {
    OrdersArePreorders();
    SortSorted(db.tags, NameAsc);
    Sort(db.tags, NameAsc)
  }

  // ---------------------------------------------------------------------
  // searchDevotionals

  datatype SearchParams = SearchParams(
    searchTerm: Option<string>,
    tagNames: Option<seq<string>>,
    author: Option<string>,
    featured: Option<bool>,
    limit: Option<nat>,
    offset: Option<nat>)

  datatype SearchResult = SearchResult(devotionals: seq<DevotionalWithTags>, total: nat)

  /** A JavaScript string test `if (s)`: present and not empty. */
  predicate Given(s: Option<string>)
  {
    s.Some? && s.value != ""
  }

  /** `limit = 20` and `offset = 0` when not given. */
  function Limit(p: SearchParams): nat { p.limit.GetOr(20) }
  function Offset(p: SearchParams): nat { p.offset.GetOr(0) }

  predicate TermMatches(term: Option<string>, d: Devotional)
  {
    !Given(term)
    || ContainsIgnoreCase(d.title, term.value)
    || ContainsIgnoreCase(d.excerpt, term.value)
    || ContainsIgnoreCase(d.content, term.value)
    || ContainsIgnoreCase(d.author, term.value)
  }

  predicate AuthorMatches(author: Option<string>, d: Devotional)
  {
    !Given(author) || ContainsIgnoreCase(d.author, author.value)
  }

  predicate FeaturedMatches(featured: Option<bool>, d: Devotional)
  {
    featured.None? || d.featured == featured.value
  }

  /** The query's WHERE clause: published, then the text, author and featured filters. */
  predicate Matches(p: SearchParams, d: Devotional)
  {
    d.published && TermMatches(p.searchTerm, d) && AuthorMatches(p.author, d) && FeaturedMatches(p.featured, d)
  }

  /** `.range(offset, offset + limit - 1)` over the sorted rows. */
  function Page<T>(s: seq<T>, offset: nat, limit: nat): (r: seq<T>)
    ensures |r| <= limit && |r| <= |s|
    ensures offset < |s| ==> r == s[offset..if offset + limit <= |s| then offset + limit else |s|]
    ensures offset >= |s| ==> r == []
  {
    if offset >= |s| then []
    else if offset + limit <= |s| then s[offset..offset + limit]
    else s[offset..]
  }

  predicate HasTagIn(x: DevotionalWithTags, names: seq<string>)
  {
    exists t :: t in x.tags && t.name in names
  }

  function TagFilterOf(p: SearchParams): Option<seq<string>>
  {
    if p.tagNames.Some? && |p.tagNames.value| > 0 then p.tagNames else None
  }

  /** The rows the WHERE clause selects, in table order. */
  function Matching(db: Tables, p: SearchParams): (r: seq<Devotional>)
    ensures forall d :: d in r <==> d in db.devotionals && Matches(p, d)
  {
    Filter(db.devotionals, (d: Devotional) => Matches(p, d))
  }

  /** The selected rows under `ORDER BY featured DESC, date DESC`. */
  function Ordered(db: Tables, p: SearchParams): (r: seq<Devotional>)
    ensures forall d :: d in r <==> d in db.devotionals && Matches(p, d)
    ensures Sorted(r, FeaturedThenDateDesc)
    ensures |r| == |Matching(db, p)|
  {
    OrdersArePreorders();
    SortSorted(Matching(db, p), FeaturedThenDateDesc);
    SortMembers(Matching(db, p), FeaturedThenDateDesc);
    Sort(Matching(db, p), FeaturedThenDateDesc)
  }

  /** The rows of the page, before the tag filter. */
  function SearchPage(db: Tables, p: SearchParams): (r: seq<DevotionalWithTags>)
    ensures |r| <= Limit(p)
    ensures Sorted(r, JoinedFeaturedThenDateDesc)
    ensures forall x :: x in r ==>
      exists d :: d in db.devotionals && Matches(p, d) && x == JoinedWithoutAuthorId(db, d)
  {
    PageRows(db, p);
    JoinAllWithoutAuthorId(db, Page(Ordered(db, p), Offset(p), Limit(p)))
  }

  /** The page, joined, is short enough, sorted, and made of selected rows. */
  lemma {:induction false} PageRows(db: Tables, p: SearchParams)
    ensures var r := JoinAllWithoutAuthorId(db, Page(Ordered(db, p), Offset(p), Limit(p)));
      && |r| <= Limit(p)
      && Sorted(r, JoinedFeaturedThenDateDesc)
      && forall x :: x in r ==>
        exists d :: d in db.devotionals && Matches(p, d) && x == JoinedWithoutAuthorId(db, d)
  {
    var ordered := Ordered(db, p);
    var rows := Page(ordered, Offset(p), Limit(p));
    PageFrom(ordered, Offset(p), Limit(p), FeaturedThenDateDesc);
    JoinSorted(db, rows);
    JoinedMatching(db, p, rows);
  }

  /** Joining rows the query selects gives rows that stand for selected rows. */
  lemma {:induction false} JoinedMatching(db: Tables, p: SearchParams, rows: seq<Devotional>)
    requires forall d :: d in rows ==> d in db.devotionals && Matches(p, d)
    ensures forall x :: x in JoinAllWithoutAuthorId(db, rows) ==>
      exists d :: d in db.devotionals && Matches(p, d) && x == JoinedWithoutAuthorId(db, d)
  {
    var joined := JoinAllWithoutAuthorId(db, rows);
    forall x | x in joined
      ensures exists d :: d in db.devotionals && Matches(p, d) && x == JoinedWithoutAuthorId(db, d)
    {
      var i :| 0 <= i < |joined| && joined[i] == x;
      assert rows[i] in rows;
    }
  }

  /** A page holds rows of the list it is cut from, in their order. */
  lemma {:induction false} PageFrom<T>(s: seq<T>, offset: nat, limit: nat, le: (T, T) -> bool)
    requires Sorted(s, le)
    ensures forall x :: x in Page(s, offset, limit) ==> x in s
    ensures Sorted(Page(s, offset, limit), le)
  {
  }

  /** Leaving `author_id` out does not move a row in the featured-then-date order. */
  lemma {:induction false} JoinSorted(db: Tables, ds: seq<Devotional>)
    requires Sorted(ds, FeaturedThenDateDesc)
    ensures Sorted(JoinAllWithoutAuthorId(db, ds), JoinedFeaturedThenDateDesc)
  {
  }

  /** The number of rows the query matches, counted before the page is cut. */
  function MatchCount(db: Tables, p: SearchParams): nat
  {
    |Matching(db, p)|
  }

  /** The in-memory `tags.some(t => tagNames.includes(t.name))` filter. */
  function WithTagIn(rows: seq<DevotionalWithTags>, names: seq<string>): (r: seq<DevotionalWithTags>)
    ensures forall x :: x in r <==> x in rows && HasTagIn(x, names)
    ensures IsSubsequence(r, rows)
  {
    FilterIsSubsequence(rows, (x: DevotionalWithTags) => HasTagIn(x, names));
    Filter(rows, (x: DevotionalWithTags) => HasTagIn(x, names))
  }

  /** Whether PostgREST serves the range: with an exact count it answers a
      range that starts past the count with 416 (Range Not Satisfiable),
      which the client returns as `error`. A range starting at the count is
      served, empty. */
  predicate RangeSatisfiable(db: Tables, p: SearchParams)
  {
    Offset(p) <= MatchCount(db, p)
  }

  /** searchDevotionals: filter, sort, cut the page, and only then apply the
      tag filter in memory; `total` is the count before the page and before
      the tags. None stands for the throw of an unserved range. */
  function SearchDevotionals(db: Tables, p: SearchParams): (r: Option<SearchResult>)
    ensures r.Some? <==> RangeSatisfiable(db, p)
    ensures r.Some? ==> r.value.total == |Matching(db, p)|
  {
    if !RangeSatisfiable(db, p) then None
    else
      var page := SearchPage(db, p);
      var kept :=
        match TagFilterOf(p)
        case Some(names) => WithTagIn(page, names)
        case None => page;
      Some(SearchResult(kept, MatchCount(db, p)))
  }

  /** The rows searchDevotionals returns are, in order, a part of the page. */
  lemma {:induction false} SearchKeepsPageOrder(db: Tables, p: SearchParams)
    requires RangeSatisfiable(db, p)
    ensures var r := SearchDevotionals(db, p).value;
      && IsSubsequence(r.devotionals, SearchPage(db, p))
      && (TagFilterOf(p).None? ==> r.devotionals == SearchPage(db, p))
      && (TagFilterOf(p).Some? ==> forall x :: x in r.devotionals <==> x in SearchPage(db, p) && HasTagIn(x, p.tagNames.value))
  {
    var page := SearchPage(db, p);
    if TagFilterOf(p).None? {
      PrefixIsSubsequence(page, |page|);
      assert page[..|page|] == page;
    }
  }

  /** What searchDevotionals returns: published rows that pass every filter,
      with their tags, at most `limit` of them, in featured-then-date order;
      `total` counts all matching rows, so it is never below the page. */
  lemma {:induction false} SearchSpec(db: Tables, p: SearchParams)
    requires RangeSatisfiable(db, p)
    ensures var r := SearchDevotionals(db, p).value;
      && |r.devotionals| <= Limit(p)
      && |r.devotionals| <= r.total
      && Sorted(r.devotionals, JoinedFeaturedThenDateDesc)
      && (forall x :: x in r.devotionals ==>
            x.devotional.published &&
            exists d :: d in db.devotionals && Matches(p, d) && x == JoinedWithoutAuthorId(db, d))
      && (TagFilterOf(p).Some? ==> forall x :: x in r.devotionals ==> HasTagIn(x, p.tagNames.value))
  {
    var page := SearchPage(db, p);
    var r := SearchDevotionals(db, p).value;
    SearchKeepsPageOrder(db, p);
    SubsequenceElements(r.devotionals, page);
    SubsequenceSorted(r.devotionals, page, JoinedFeaturedThenDateDesc);
    PageFrom(Ordered(db, p), Offset(p), Limit(p), FeaturedThenDateDesc);
    assert |page| <= |Ordered(db, p)|;
  }

  /** A search fails exactly when `offset` is past the matching rows, and
      otherwise, without a tag filter, the page is full: `limit` rows, or
      what remains after `offset` (none when it is the count itself). */
  lemma {:induction false} SearchPageSize(db: Tables, p: SearchParams)
    requires TagFilterOf(p).None?
    ensures SearchDevotionals(db, p).None? <==> Offset(p) > |Matching(db, p)|
    ensures var r := SearchDevotionals(db, p);
      r.Some? ==>
        |r.value.devotionals| == if Offset(p) + Limit(p) <= r.value.total then Limit(p)
                                 else r.value.total - Offset(p)
  {
  }

  // ---------------------------------------------------------------------
  // Writes

  /** The filter of `.eq("name", name)`. */
  function NameIs(name: string): Tag -> bool
  {
    (t: Tag) => t.name == name
  }

  /** `.from("tags").select("*").eq("name", name).single()`: the row when
      exactly one row has that name, and nothing otherwise. */
  function TagNamed(tags: seq<Tag>, name: string): (r: Option<Tag>)
    ensures r.Some? ==> r.value in tags && r.value.name == name
  {
    var found := Filter(tags, NameIs(name));
    if |found| == 1 then
      assert found[0] in found;
      Some(found[0])
    else None
  }

  /** No two tags share a name or an id. */
  predicate TagsDistinct(tags: seq<Tag>)
  {
    forall i, j :: 0 <= i < j < |tags| ==> tags[i].name != tags[j].name && tags[i].id != tags[j].id
  }

  /** Two rows that may sit side by side in `devotionals`: distinct ids, distinct slugs. */
  predicate DistinctRows(a: Devotional, b: Devotional)
  {
    a.id != b.id && a.slug != b.slug
  }

  predicate RowsDistinct(ds: seq<Devotional>)
  {
    forall i, j :: 0 <= i < j < |ds| ==> DistinctRows(ds[i], ds[j])
  }

  /** With tag names unique, the lookup by name finds the tag that has it,
      and finds nothing exactly when no tag has it. */
  lemma {:induction false} TagNamedFinds(tags: seq<Tag>, name: string)
    requires TagsDistinct(tags)
    ensures TagNamed(tags, name).None? <==> forall t :: t in tags ==> t.name != name
    ensures forall t :: t in tags && t.name == name ==> TagNamed(tags, name) == Some(t)
  {
    FilterAtMostOne(tags, NameIs(name));
  }

  /** A tag with a new name and the next id keeps a table's tags distinct
      and below the next id, and the lookup by its name then finds it. */
  lemma {:induction false} AppendTag(tags: seq<Tag>, t: Tag, bound: nat)
    requires TagsDistinct(tags) && (forall i :: 0 <= i < |tags| ==> tags[i].id < bound)
    requires t.id == bound && TagNamed(tags, t.name).None?
    ensures TagsDistinct(tags + [t])
    ensures forall i :: 0 <= i < |tags + [t]| ==> (tags + [t])[i].id < bound + 1
    ensures TagNamed(tags + [t], t.name) == Some(t)
  {
    TagNamedFinds(tags, t.name);
    var s := tags + [t];
    forall i, j | 0 <= i < j < |s|
      ensures s[i].name != s[j].name && s[i].id != s[j].id
    {
      if j == |tags| {
        assert s[i] in tags;
      }
    }
    assert s[|tags|] == t;
    TagNamedFinds(s, t.name);
  }

  /** Two tags of a table with distinct tags that agree on the name or on the id are one tag. */
  lemma {:induction false} SameTag(tags: seq<Tag>, t: Tag, u: Tag)
    requires TagsDistinct(tags) && t in tags && u in tags
    requires t.name == u.name || t.id == u.id
    ensures t == u
  {
    var i :| 0 <= i < |tags| && tags[i] == t;
    var j :| 0 <= j < |tags| && tags[j] == u;
    assert !(i < j) && !(j < i);
  }

  /** The rows `devotional_tags` gains when every tag of `ts` is linked to `id`. */
  function LinksFor(id: Id, ts: seq<Tag>): (r: set<DevotionalTag>)
    ensures forall l :: l in r <==> l.devotionalId == id && exists k :: 0 <= k < |ts| && ts[k].id == l.tagId
  {
    if ts == [] then {}
    else
      var init := ts[..|ts| - 1];
      assert forall k :: 0 <= k < |init| ==> init[k] == ts[k];
      LinksFor(id, init) + {DevotionalTag(id, ts[|ts| - 1].id)}
  }

  /** After the links of `id` were cleared and the resolved tags linked, the
      tags of `id` are exactly the tags named in `names`: the list replaces
      the old tags rather than adding to them. */
  lemma {:induction false} ExactTagSet(db: Tables, id: Id, before: set<DevotionalTag>, resolved: seq<Tag>, names: seq<string>)
    requires TagsDistinct(db.tags)
    requires |resolved| == |names|
    requires forall k :: 0 <= k < |names| ==> resolved[k] in db.tags && resolved[k].name == names[k]
    requires forall l :: l in before ==> l.devotionalId != id
    requires db.links == before + LinksFor(id, resolved)
    ensures forall t :: t in TagsOf(db, id) <==> t in db.tags && t.name in names
  {
    forall t | t in db.tags
      ensures DevotionalTag(id, t.id) in db.links <==> t.name in names
    {
      if DevotionalTag(id, t.id) in db.links {
        var k :| 0 <= k < |resolved| && resolved[k].id == t.id;
        SameTag(db.tags, t, resolved[k]);
        assert t.name == names[k];
      }
      if t.name in names {
        var k :| 0 <= k < |names| && names[k] == t.name;
        SameTag(db.tags, t, resolved[k]);
        assert DevotionalTag(id, t.id) in LinksFor(id, resolved);
      }
    }
  }

  /** The fields `createDevotional` takes. */
  datatype DevotionalInput = DevotionalInput(
    slug: string,
    title: string,
    excerpt: string,
    content: string,
    bibleVerse: string,
    bibleReference: string,
    author: string,
    authorId: Option<string>,
    date: Timestamp,
    featured: Option<bool>,
    published: Option<bool>,
    tagNames: seq<string>)

  /** The fields `updateDevotional` writes; `authorId` is accepted by the
      source but never written, so it is not carried here. */
  datatype DevotionalUpdate = DevotionalUpdate(
    title: string,
    excerpt: string,
    content: string,
    bibleVerse: string,
    bibleReference: string,
    author: string,
    date: Timestamp,
    featured: bool,
    published: bool,
    tags: seq<string>)

  /** Why a store call throws: the transport or server failed, a unique
      key (the slug) was violated, or `.single()` found no row. */
  datatype StoreError = TransportError | UniqueViolation | NoRows

  /** The row createDevotional inserts: `featured || false`, `published !== false`,
      and `author_id` only for a non-empty authorId. */
  function NewRow(id: Id, input: DevotionalInput, now: Timestamp): (r: Devotional)
    ensures r.featured <==> input.featured == Some(true)
    ensures !r.published <==> input.published == Some(false)
    ensures r.authorId.Some? <==> Given(input.authorId)
    ensures r.authorId.Some? ==> r.authorId == input.authorId
    ensures r.id == id && r.slug == input.slug && r.date == input.date
  {
    Devotional(
      id, input.slug, input.title, input.excerpt, input.content, input.bibleVerse,
      input.bibleReference, input.author,
      if Given(input.authorId) then input.authorId else None,
      input.date,
      input.featured == Some(true),
      input.published != Some(false),
      now, now)
  }

  /** The row updateDevotional writes over `d`: every given column and
      `updated_at`; id, slug, author_id and created_at stay as they were. */
  function Updated(d: Devotional, f: DevotionalUpdate, now: Timestamp): (r: Devotional)
    ensures r.id == d.id && r.slug == d.slug && r.authorId == d.authorId && r.createdAt == d.createdAt
    ensures r.updatedAt == now
  {
    d.(title := f.title, excerpt := f.excerpt, content := f.content, bibleVerse := f.bibleVerse,
       bibleReference := f.bibleReference, author := f.author, date := f.date,
       featured := f.featured, published := f.published, updatedAt := now)
  }

  /** The first row with id `id`. */
  function RowWithId(ds: seq<Devotional>, id: Id): (r: Option<Devotional>)
    ensures r.Some? ==> r.value in ds && r.value.id == id
    ensures r.None? <==> forall d :: d in ds ==> d.id != id
  {
    if ds == [] then None
    else if ds[0].id == id then Some(ds[0])
    else RowWithId(ds[1..], id)
  }

  /** `.update(...).eq("id", id)` over the table. */
  function UpdateRows(ds: seq<Devotional>, id: Id, f: DevotionalUpdate, now: Timestamp): (r: seq<Devotional>)
    ensures |r| == |ds|
    ensures forall i :: 0 <= i < |ds| ==> r[i] == if ds[i].id == id then Updated(ds[i], f, now) else ds[i]
  {
    seq(|ds|, i requires 0 <= i < |ds| => if ds[i].id == id then Updated(ds[i], f, now) else ds[i])
  }

  /** `.delete().eq("id", id)` over the table. */
  function DeleteRows(ds: seq<Devotional>, id: Id): (r: seq<Devotional>)
    ensures forall d :: d in r <==> d in ds && d.id != id
    ensures IsSubsequence(r, ds)
  {
    FilterIsSubsequence(ds, (d: Devotional) => d.id != id);
    Filter(ds, (d: Devotional) => d.id != id)
  }

  /** `.delete().eq("devotional_id", id)` on `devotional_tags`. */
  function UnlinkAll(links: set<DevotionalTag>, id: Id): (r: set<DevotionalTag>)
    ensures forall l :: l in r <==> l in links && l.devotionalId != id
  {
    set l | l in links && l.devotionalId != id
  }

  /** One step of resolving a list of names: the table grows by at most
      the tag just resolved, which carries the next name. */
  lemma {:induction false} ResolveStep(base: seq<Tag>, before: seq<Tag>, after: seq<Tag>, resolved: seq<Tag>,
                    names: seq<string>, t: Tag)
    requires |resolved| < |names|
    requires base <= before && (after == before || after == before + [t])
    requires t in after && t.name == names[|resolved|]
    requires forall j :: 0 <= j < |resolved| ==> resolved[j] in before && resolved[j].name == names[j]
    requires forall i :: |base| <= i < |before| ==> before[i].name in names
    ensures base <= after
    ensures forall j :: 0 <= j < |resolved| + 1 ==>
      (resolved + [t])[j] in after && (resolved + [t])[j].name == names[j]
    ensures forall i :: |base| <= i < |after| ==> after[i].name in names
  {
    forall j | 0 <= j < |resolved| + 1
      ensures (resolved + [t])[j] in after && (resolved + [t])[j].name == names[j]
    {
      if j < |resolved| {
        assert resolved[j] in before;
      }
    }
  }

  /** Updating a row keeps every id and slug, so distinct rows stay
      distinct and below the next id; an id that is found is below it. */
  lemma {:induction false} UpdateKeepsRows(ds: seq<Devotional>, id: Id, f: DevotionalUpdate, now: Timestamp, bound: nat)
    requires RowsDistinct(ds) && forall i :: 0 <= i < |ds| ==> ds[i].id < bound
    ensures var rows := UpdateRows(ds, id, f, now);
      RowsDistinct(rows) && forall i :: 0 <= i < |rows| ==> rows[i].id < bound
    ensures RowWithId(ds, id).Some? ==> id < bound
  {
    var rows := UpdateRows(ds, id, f, now);
    assert forall i :: 0 <= i < |rows| ==> rows[i].id == ds[i].id && rows[i].slug == ds[i].slug;
    if RowWithId(ds, id).Some? {
      var i :| 0 <= i < |ds| && ds[i] == RowWithId(ds, id).value;
    }
  }

  /** The three tables, written by createDevotional, updateDevotional and
      deleteDevotional; `nextId` stands for the ids the store generates. */
  class Store {
    var devotionals: seq<Devotional>
    var tags: seq<Tag>
    var links: set<DevotionalTag>
    var nextId: nat

    function Db(): Tables
      reads this
    {
      Tables(devotionals, tags, links)
    }

    /** Tag names and ids are unique, devotional ids and slugs are unique,
        and every id in use was handed out before `nextId`. */
    predicate Valid()
      reads this
    {
      && TagsDistinct(tags)
      && RowsDistinct(devotionals)
      && (forall i :: 0 <= i < |tags| ==> tags[i].id < nextId)
      && (forall i :: 0 <= i < |devotionals| ==> devotionals[i].id < nextId)
      && (forall l :: l in links ==> l.devotionalId < nextId)
    }

    constructor ()
      ensures Valid()
      ensures devotionals == [] && tags == [] && links == {}
    {
      devotionals := [];
      tags := [];
      links := {};
      nextId := 0;
    }

    /** Looks a tag up by exact name and inserts `{ name }` when there is
        none; the tag it returns is then found by the same lookup, so
        resolving the name again returns it without inserting. */
    method ResolveTag(name: string, now: Timestamp) returns (t: Tag)
      requires Valid()
      modifies this
      ensures Valid()
      ensures devotionals == old(devotionals) && links == old(links)
      ensures t in tags && t.name == name
      ensures TagNamed(tags, name) == Some(t)
      ensures old(TagNamed(tags, name)).Some? ==>
        t == old(TagNamed(tags, name)).value && tags == old(tags) && nextId == old(nextId)
      ensures old(TagNamed(tags, name)).None? ==>
        t == Tag(old(nextId), name, None, now) && tags == old(tags) + [t] && nextId == old(nextId) + 1
      ensures (tags == old(tags) || tags == old(tags) + [t]) && old(nextId) <= nextId
    {
      var existing := TagNamed(tags, name);
      if existing.Some? {
        t := existing.value;
      } else {
        t := Tag(nextId, name, None, now);
        AppendTag(tags, t, nextId);
        tags := tags + [t];
        nextId := nextId + 1;
      }
    }

    /** The `tagNames.map(...)` of create and update, one name after the
        other: the k-th tag returned carries the k-th name, and the tags it
        adds carry names from the list. */
    method ResolveTags(names: seq<string>, now: Timestamp) returns (resolved: seq<Tag>)
      requires Valid()
      modifies this
      ensures Valid()
      ensures devotionals == old(devotionals) && links == old(links)
      ensures |resolved| == |names|
      ensures forall k :: 0 <= k < |names| ==> resolved[k] in tags && resolved[k].name == names[k]
      ensures old(tags) <= tags && old(nextId) <= nextId
      ensures forall i :: |old(tags)| <= i < |tags| ==> tags[i].name in names
    {
      resolved := [];
      var k := 0;
      while k < |names|
        invariant 0 <= k <= |names| && Valid()
        invariant devotionals == old(devotionals) && links == old(links)
        invariant |resolved| == k
        invariant forall j :: 0 <= j < k ==> resolved[j] in tags && resolved[j].name == names[j]
        invariant old(tags) <= tags && old(nextId) <= nextId
        invariant forall i :: |old(tags)| <= i < |tags| ==> tags[i].name in names
      {
        ghost var before := tags;
        var t := ResolveTag(names[k], now);
        ResolveStep(old(tags), before, tags, resolved, names, t);
        resolved := resolved + [t];
        k := k + 1;
      }
    }

    /** Inserts one `devotional_tags` row per resolved tag; a repeated tag
        hits the composite key, which the source ignores. */
    method InsertLinks(id: Id, resolved: seq<Tag>)
      requires Valid() && id < nextId
      modifies this
      ensures Valid()
      ensures devotionals == old(devotionals) && tags == old(tags) && nextId == old(nextId)
      ensures links == old(links) + LinksFor(id, resolved)
    {
      var k := 0;
      while k < |resolved|
        invariant 0 <= k <= |resolved| && Valid()
        invariant devotionals == old(devotionals) && tags == old(tags) && nextId == old(nextId)
        invariant links == old(links) + LinksFor(id, resolved[..k])
      {
        assert resolved[..k + 1][..k] == resolved[..k];
        links := links + {DevotionalTag(id, resolved[k].id)};
        k := k + 1;
      }
      assert resolved[..k] == resolved;
    }

    /** createDevotional: inserts the row, throwing before any tag is touched
        when the insert fails; then resolves the names and links the tags,
        so that the new row's tags are exactly the named ones. */
    method Create(input: DevotionalInput, now: Timestamp, insertFails: bool) returns (r: Result<Devotional, StoreError>)
      requires Valid()
      modifies this
      ensures Valid()
      ensures insertFails ==> r == Err(TransportError)
      ensures !insertFails && (exists d :: d in old(devotionals) && d.slug == input.slug) ==> r == Err(UniqueViolation)
      ensures r.Err? ==> unchanged(this)
      ensures r.Ok? ==>
        && r.value == NewRow(old(nextId), input, now)
        && devotionals == old(devotionals) + [r.value]
        && (forall t :: t in TagsOf(Db(), r.value.id) <==> t in tags && t.name in input.tagNames)
        && (forall l: DevotionalTag :: l.devotionalId != r.value.id ==> (l in links <==> l in old(links)))
        && old(tags) <= tags
      ensures !insertFails && (forall d :: d in old(devotionals) ==> d.slug != input.slug) ==> r.Ok?
    {
      if insertFails {
        return Err(TransportError);
      }
      if exists d :: d in devotionals && d.slug == input.slug {
        return Err(UniqueViolation);
      }
      var row := NewRow(nextId, input, now);
      devotionals := devotionals + [row];
      nextId := nextId + 1;
      var before := links;
      var resolved := ResolveTags(input.tagNames, now);
      InsertLinks(row.id, resolved);
      ExactTagSet(Db(), row.id, before, resolved, input.tagNames);
      r := Ok(row);
    }

    /** updateDevotional: writes the row with that id (throwing, with nothing
        changed, when the call fails or no row has the id), deletes all of
        its links, then links the resolved names: the tags of the row are
        replaced by exactly the named ones, other rows' links are untouched. */
    method Update(id: Id, f: DevotionalUpdate, now: Timestamp, updateFails: bool) returns (r: Result<Devotional, StoreError>)
      requires Valid()
      modifies this
      ensures Valid()
      ensures updateFails ==> r == Err(TransportError)
      ensures !updateFails && RowWithId(old(devotionals), id).None? ==> r == Err(NoRows)
      ensures r.Err? ==> devotionals == old(devotionals) && tags == old(tags) && links == old(links)
      ensures r.Ok? ==>
        && RowWithId(old(devotionals), id).Some?
        && r.value == Updated(RowWithId(old(devotionals), id).value, f, now)
        && devotionals == UpdateRows(old(devotionals), id, f, now)
        && (forall t :: t in TagsOf(Db(), id) <==> t in tags && t.name in f.tags)
        && (forall l: DevotionalTag :: l.devotionalId != id ==> (l in links <==> l in old(links)))
        && old(tags) <= tags
      ensures !updateFails && RowWithId(old(devotionals), id).Some? ==> r.Ok?
    {
      if updateFails {
        return Err(TransportError);
      }
      var old_row := RowWithId(devotionals, id);
      if old_row.None? {
        return Err(NoRows);
      }
      var rows := UpdateRows(devotionals, id, f, now);
      UpdateKeepsRows(devotionals, id, f, now, nextId);
      devotionals := rows;
      Relink(id, f.tags, now);
      r := Ok(Updated(old_row.value, f, now));
    }

    /** The tag part of updateDevotional: drops the row's links, resolves
        the names and links them, so that the row's tags become exactly the
        named ones and the links of other rows stay as they were. */
    method Relink(id: Id, names: seq<string>, now: Timestamp)
      requires Valid() && id < nextId
      modifies this
      ensures Valid()
      ensures devotionals == old(devotionals) && old(tags) <= tags
      ensures forall t :: t in TagsOf(Db(), id) <==> t in tags && t.name in names
      ensures forall l: DevotionalTag :: l.devotionalId != id ==> (l in links <==> l in old(links))
    {
      links := UnlinkAll(links, id);
      var before := links;
      var resolved := ResolveTags(names, now);
      InsertLinks(id, resolved);
      ExactTagSet(Db(), id, before, resolved, names);
    }

    /** deleteDevotional: deletes the row's links first, then the row; a
        failing row delete throws after the links are already gone. Tags and
        the links of other rows are never touched. */
    method Delete(id: Id, deleteFails: bool) returns (r: Result<(), StoreError>)
      requires Valid()
      modifies this
      ensures Valid()
      ensures links == UnlinkAll(old(links), id)
      ensures tags == old(tags) && nextId == old(nextId)
      ensures deleteFails ==> r == Err(TransportError) && devotionals == old(devotionals)
      ensures !deleteFails ==> r == Ok(()) && devotionals == DeleteRows(old(devotionals), id)
    {
      links := UnlinkAll(links, id);
      if deleteFails {
        return Err(TransportError);
      }
      var rows := DeleteRows(devotionals, id);
      SubsequenceSorted(rows, devotionals, DistinctRows);
      devotionals := rows;
      r := Ok(());
    }
  }
}

