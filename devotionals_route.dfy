/** The `/api/devotionals` route (src/app/api/devotionals/route.ts): the GET
    dispatch between the full list and the search, the POST validation and
    defaults, and the slug the POST derives from the title. Requests and
    responses are values; the store is `SupabaseDevotionals`. */
module DevotionalsRoute {
  import opened Wrappers
  import opened Collections
  import opened Text
  import opened Types
  import opened SupabaseDevotionals

  // ---------------------------------------------------------------------
  // Slug derivation

  /** `normalize("NFD")` on one lower-case Latin-1 letter: the base letter
      followed by its combining mark; every other character is its own
      decomposition in this model. */
  function NfdChar(c: char): (r: string)
    ensures 1 <= |r| <= 2
    ensures |r| == 2 ==> IsCombining(r[1]) && 'a' <= r[0] <= 'z'
  {
    if '\U{E0}' <= c <= '\U{E5}' then
      ['a', ['\U{300}', '\U{301}', '\U{302}', '\U{303}', '\U{308}', '\U{30A}'][c as int - 0xE0]]
    else if c == '\U{E7}' then ['c', '\U{327}']
    else if '\U{E8}' <= c <= '\U{EB}' then ['e', ['\U{300}', '\U{301}', '\U{302}', '\U{308}'][c as int - 0xE8]]
    else if '\U{EC}' <= c <= '\U{EF}' then ['i', ['\U{300}', '\U{301}', '\U{302}', '\U{308}'][c as int - 0xEC]]
    else if c == '\U{F1}' then ['n', '\U{303}']
    else if '\U{F2}' <= c <= '\U{F6}' then
      ['o', ['\U{300}', '\U{301}', '\U{302}', '\U{303}', '\U{308}'][c as int - 0xF2]]
    else if '\U{F9}' <= c <= '\U{FC}' then ['u', ['\U{300}', '\U{301}', '\U{302}', '\U{308}'][c as int - 0xF9]]
    else if c == '\U{FD}' then ['y', '\U{301}']
    else if c == '\U{FF}' then ['y', '\U{308}']
    else [c]
  }

  function Nfd(s: string): string
  {
    if s == [] then [] else NfdChar(s[0]) + Nfd(s[1..])
  }

  /** The range `[̀-ͯ]` of combining diacritical marks. */
  predicate IsCombining(c: char)
  {
    '\U{300}' <= c <= '\U{36F}'
  }

  predicate NotCombining(c: char)
  {
    !IsCombining(c)
  }

  /** The characters `[a-z0-9\s-]` that survive the fourth rewrite. */
  predicate IsSlugSource(c: char)
  {
    'a' <= c <= 'z' || IsDigit(c) || IsSpace(c) || c == '-'
  }

  /** The characters a slug is made of. */
  predicate IsSlugChar(c: char)
  {
    'a' <= c <= 'z' || IsDigit(c) || c == '-'
  }

  predicate IsDash(c: char)
  {
    c == '-'
  }

  /** `replace(/x+/g, by)` for the class `p`: every maximal run of characters
      passing `p` becomes one `by`; `inRun` says the character before `s`
      was in a run already. */
  function CollapseRuns(s: string, p: char -> bool, mark: char, inRun: bool): (r: string)
    ensures forall i :: 0 <= i < |r| ==> r[i] == mark || (r[i] in s && !p(r[i]))
  {
    if s == [] then []
    else if p(s[0]) then (if inRun then [] else [mark]) + CollapseRuns(s[1..], p, mark, true)
    else [s[0]] + CollapseRuns(s[1..], p, mark, false)
  }

  /** The title lower-cased, decomposed and stripped of its marks, then of
      every character outside `[a-z0-9\s-]`. */
  function SlugSource(title: string): (r: string)
    ensures forall i :: 0 <= i < |r| ==> IsSlugSource(r[i])
  {
    Filter(Filter(Nfd(ToLower(title)), NotCombining), IsSlugSource)
  }

  /** The slug of POST: `toLowerCase`, `normalize("NFD")`, marks removed,
      `[^a-z0-9\s-]` removed, `\s+` to "-", `-+` to "-", `trim()`. */
  function Slug(title: string): string
  {
    Trim(CollapseRuns(CollapseRuns(SlugSource(title), IsSpace, '-', false), IsDash, '-', false))
  }

  /** The slug before the final `trim()`. */
  function Untrimmed(title: string): string
  {
    CollapseRuns(CollapseRuns(SlugSource(title), IsSpace, '-', false), IsDash, '-', false)
  }

  predicate NoDoubleDash(s: string)
  {
    forall i :: 0 <= i < |s| - 1 ==> !(s[i] == '-' && s[i + 1] == '-')
  }

  /** After the two collapses no white space is left, so `trim()` removes
      nothing, and every character is a slug character. */
  lemma {:induction false} UntrimmedChars(title: string)
    ensures forall i :: 0 <= i < |Untrimmed(title)| ==> IsSlugChar(Untrimmed(title)[i])
    ensures Slug(title) == Untrimmed(title)
  {
    var u := Untrimmed(title);
    assert forall i :: 0 <= i < |u| ==> IsSlugChar(u[i]);
    TrimNoEdgeSpace(u);
  }

  /** No two neighbours of `s` pass `p`. */
  predicate Separated(s: string, p: char -> bool)
  {
    forall i :: 0 <= i < |s| - 1 ==> !(p(s[i]) && p(s[i + 1]))
  }

  /** A run collapse leaves no two neighbours passing `p`, and when it
      starts inside a run its output does not start with one. */
  lemma {:induction false} CollapseSeparates(s: string, p: char -> bool, mark: char, inRun: bool)
    requires p(mark)
    ensures Separated(CollapseRuns(s, p, mark, inRun), p)
    ensures inRun && CollapseRuns(s, p, mark, inRun) != [] ==> !p(CollapseRuns(s, p, mark, inRun)[0])
  {
    if s != [] {
      CollapseSeparates(s[1..], p, mark, p(s[0]));
      var rest := CollapseRuns(s[1..], p, mark, p(s[0]));
      var head := if p(s[0]) then (if inRun then [] else [mark]) else [s[0]];
      var r := CollapseRuns(s, p, mark, inRun);
      assert r == head + rest;
      forall i | 0 <= i < |r| - 1 ensures !(p(r[i]) && p(r[i + 1])) {
        if i >= |head| {
          var j := i - |head|;
          assert r[i] == rest[j] && r[i + 1] == rest[j + 1];
          assert !(p(rest[j]) && p(rest[j + 1]));
        } else {
          assert r[i] == head[0] && r[i + 1] == rest[0];
          if p(s[0]) {
            assert !p(rest[0]);
          }
        }
      }
    }
  }

  /** The slug holds only `a`-`z`, `0`-`9` and "-", and never two "-" in a row. */
  lemma {:induction false} SlugShape(title: string)
    ensures forall i :: 0 <= i < |Slug(title)| ==> IsSlugChar(Slug(title)[i])
    ensures NoDoubleDash(Slug(title))
  {
    UntrimmedChars(title);
    var spaced := CollapseRuns(SlugSource(title), IsSpace, '-', false);
    CollapseSeparates(spaced, IsDash, '-', false);
    assert Untrimmed(title) == CollapseRuns(spaced, IsDash, '-', false);
  }

  // -- idempotence

  lemma {:induction false} FilterKeepsAll<T(!new)>(s: seq<T>, p: T -> bool)
    requires forall i :: 0 <= i < |s| ==> p(s[i])
    ensures Filter(s, p) == s
  {
    if s != [] {
      FilterKeepsAll(s[1..], p);
    }
  }

  lemma {:induction false} NfdOfSlug(s: string)
    requires forall i :: 0 <= i < |s| ==> IsSlugChar(s[i])
    ensures Nfd(s) == s
  {
    if s != [] {
      NfdOfSlug(s[1..]);
      assert s == [s[0]] + s[1..];
    }
  }

  lemma {:induction false} CollapseNoRun(s: string, p: char -> bool, mark: char, inRun: bool)
    requires forall i :: 0 <= i < |s| ==> !p(s[i])
    ensures CollapseRuns(s, p, mark, inRun) == s
  {
    if s != [] {
      CollapseNoRun(s[1..], p, mark, false);
      assert s == [s[0]] + s[1..];
    }
  }

  lemma {:induction false} CollapseSeparated(s: string, inRun: bool)
    requires NoDoubleDash(s)
    requires inRun && s != [] ==> s[0] != '-'
    ensures CollapseRuns(s, IsDash, '-', inRun) == s
  {
    if s != [] {
      CollapseSeparated(s[1..], s[0] == '-');
      assert s == [s[0]] + s[1..];
    }
  }

  /** A string of slug characters is its own slug source. */
  lemma {:induction false} SlugSourceFixed(s: string)
    requires forall i :: 0 <= i < |s| ==> IsSlugChar(s[i])
    ensures SlugSource(s) == s
  {
    assert ToLower(s) == s;
    NfdOfSlug(s);
    FilterKeepsAll(s, NotCombining);
    FilterKeepsAll(s, IsSlugSource);
  }

  /** A string that already has the shape of a slug is its own slug. */
  lemma {:induction false} SlugFixed(s: string)
    requires forall i :: 0 <= i < |s| ==> IsSlugChar(s[i])
    requires NoDoubleDash(s)
    ensures Slug(s) == s
  {
    SlugSourceFixed(s);
    CollapseNoRun(s, IsSpace, '-', false);
    CollapseSeparated(s, false);
    assert Untrimmed(s) == s;
    UntrimmedChars(s);
  }

  /** Deriving the slug of a slug gives it back. */
  lemma {:induction false} SlugIdempotent(title: string)
    ensures Slug(Slug(title)) == Slug(title)
  {
    SlugShape(title);
    SlugFixed(Slug(title));
  }

  // -- leading and trailing white space

  lemma {:induction false} NfdHead(s: string)
    requires s != [] && IsSpace(s[0])
    ensures Nfd(s) != [] && Nfd(s)[0] == s[0]
  {
  }

  lemma {:induction false} NfdConcat(a: string, b: string)
    ensures Nfd(a + b) == Nfd(a) + Nfd(b)
  {
    if a != [] {
      NfdConcat(a[1..], b);
      assert (a + b)[0] == a[0] && (a + b)[1..] == a[1..] + b;
      assert Nfd(a + b) == NfdChar(a[0]) + Nfd(a[1..] + b);
      assert Nfd(a) + Nfd(b) == NfdChar(a[0]) + (Nfd(a[1..]) + Nfd(b));
    } else {
      assert a + b == b;
    }
  }

  /** A filter keeps the last element when it passes. */
  lemma {:induction false} FilterLast<T(!new)>(s: seq<T>, p: T -> bool)
    requires s != [] && p(s[|s| - 1])
    ensures Filter(s, p) != [] && Filter(s, p)[|Filter(s, p)| - 1] == s[|s| - 1]
  {
    if |s| > 1 {
      FilterLast(s[1..], p);
      var h := if p(s[0]) then [s[0]] else [];
      assert Filter(s, p) == h + Filter(s[1..], p);
    }
  }

  lemma {:induction false} CollapseLast(s: string, p: char -> bool, mark: char, inRun: bool)
    requires s != [] && p(s[|s| - 1])
    ensures var r := CollapseRuns(s, p, mark, inRun);
      (r == [] && inRun) || (r != [] && r[|r| - 1] == mark)
  {
    if |s| > 1 {
      CollapseLast(s[1..], p, mark, p(s[0]));
    }
  }

  /** A title that starts with white space gives a slug that starts with "-"
      (the white space became "-" before `trim()` could see it). */
  lemma {:induction false} LeadingSpaceKept(title: string)
    requires title != [] && IsSpace(title[0])
    ensures Slug(title) != [] && Slug(title)[0] == '-'
  {
    SourceHead(title);
    CollapsedHead(SlugSource(title));
    UntrimmedChars(title);
  }

  lemma {:induction false} FilterHead<T(!new)>(s: seq<T>, p: T -> bool)
    requires s != [] && p(s[0])
    ensures Filter(s, p) != [] && Filter(s, p)[0] == s[0]
  {
    assert Filter(s, p) == [s[0]] + Filter(s[1..], p);
  }

  /** Leading white space survives lower-casing, NFD and both filters. */
  lemma {:induction false} SourceHead(title: string)
    requires title != [] && IsSpace(title[0])
    ensures var src := SlugSource(title); src != [] && src[0] == title[0]
  {
    SpaceFacts(title[0]);
    var lower := ToLower(title);
    assert lower[0] == title[0];
    NfdHead(lower);
    var n := Nfd(lower);
    FilterHead(n, NotCombining);
    FilterHead(Filter(n, NotCombining), IsSlugSource);
  }

  /** Both collapses turn a leading white-space run into a leading "-". */
  lemma {:induction false} CollapsedHead(src: string)
    requires src != [] && IsSpace(src[0])
    ensures var u := CollapseRuns(CollapseRuns(src, IsSpace, '-', false), IsDash, '-', false);
      u != [] && u[0] == '-'
  {
    var spaced := CollapseRuns(src, IsSpace, '-', false);
    assert spaced == ['-'] + CollapseRuns(src[1..], IsSpace, '-', true);
    assert IsDash(spaced[0]);
    assert CollapseRuns(spaced, IsDash, '-', false) == ['-'] + CollapseRuns(spaced[1..], IsDash, '-', true);
  }

  /** White space is lower case, has no decomposition, and is kept by both filters. */
  lemma {:induction false} SpaceFacts(c: char)
    requires IsSpace(c)
    ensures LowerChar(c) == c && NfdChar(c) == [c] && NotCombining(c) && IsSlugSource(c)
  {
  }

  lemma {:induction false} NfdLast(s: string)
    requires s != [] && NfdChar(s[|s| - 1]) == [s[|s| - 1]]
    ensures Nfd(s) != [] && Nfd(s)[|Nfd(s)| - 1] == s[|s| - 1]
  {
    var c := s[|s| - 1];
    var a := s[..|s| - 1];
    assert s == a + [c];
    NfdConcat(a, [c]);
    assert Nfd([c]) == NfdChar(c) + Nfd([]);
  }

  lemma {:induction false} FiltersLast(n: string)
    requires n != [] && NotCombining(n[|n| - 1]) && IsSlugSource(n[|n| - 1])
    ensures var src := Filter(Filter(n, NotCombining), IsSlugSource);
      src != [] && src[|src| - 1] == n[|n| - 1]
  {
    FilterLast(n, NotCombining);
    FilterLast(Filter(n, NotCombining), IsSlugSource);
  }

  lemma {:induction false} SourceLast(title: string)
    requires title != [] && IsSpace(title[|title| - 1])
    ensures var src := SlugSource(title); src != [] && src[|src| - 1] == title[|title| - 1]
  {
    var lower := ToLower(title);
    SpaceFacts(title[|title| - 1]);
    assert lower[|lower| - 1] == title[|title| - 1];
    NfdLast(lower);
    FiltersLast(Nfd(lower));
  }

  /** A title that ends with white space gives a slug that ends with "-". */
  lemma {:induction false} TrailingSpaceKept(title: string)
    requires title != [] && IsSpace(title[|title| - 1])
    ensures Slug(title) != [] && Slug(title)[|Slug(title)| - 1] == '-'
  {
    SourceLast(title);
    var src := SlugSource(title);
    CollapsedLast(src);
    var u := CollapseRuns(CollapseRuns(src, IsSpace, '-', false), IsDash, '-', false);
    assert Untrimmed(title) == u;
    UntrimmedChars(title);
    assert Slug(title) == u;
  }

  /** Both collapses turn a trailing white-space run into a trailing "-". */
  lemma {:induction false} CollapsedLast(src: string)
    requires src != [] && IsSpace(src[|src| - 1])
    ensures var u := CollapseRuns(CollapseRuns(src, IsSpace, '-', false), IsDash, '-', false);
      u != [] && u[|u| - 1] == '-'
  {
    CollapseLast(src, IsSpace, '-', false);
    var spaced := CollapseRuns(src, IsSpace, '-', false);
    assert IsDash(spaced[|spaced| - 1]);
    CollapseLast(spaced, IsDash, '-', false);
  }

  // ---------------------------------------------------------------------
  // POST

  /** The JSON body of POST; `None` is a missing key. */
  datatype PostBody = PostBody(
    title: Option<string>,
    excerpt: Option<string>,
    content: Option<string>,
    bibleVerse: Option<string>,
    bibleReference: Option<string>,
    author: Option<string>,
    authorId: Option<string>,
    tagNames: Option<seq<string>>,
    featured: Option<bool>,
    published: Option<bool>)

  datatype PostResponse =
    | Created(devotional: Devotional)
    | Failed(status: nat, error: string)

  const RequiredMessage := "Todos os campos obrigat\U{F3}rios devem ser preenchidos"
  const ServerErrorMessage := "Erro interno do servidor"

  /** All six required fields are present and non-empty. */
  predicate RequiredPresent(b: PostBody)
  {
    Given(b.title) && Given(b.excerpt) && Given(b.content)
    && Given(b.bibleVerse) && Given(b.bibleReference) && Given(b.author)
  }

  /** What POST hands to createDevotional: nothing when a required field is
      missing or empty; otherwise the fields, the derived slug, and the
      defaults `tagNames = []`, `featured = false`, `published = true`. */
  function PostInput(b: PostBody, now: Timestamp): (r: Option<DevotionalInput>)
    ensures r.None? <==> !RequiredPresent(b)
    ensures r.Some? ==> r.value.slug == Slug(b.title.value) && r.value.title == b.title.value
    ensures r.Some? ==> b.tagNames.None? ==> r.value.tagNames == []
  {
    if !RequiredPresent(b) then None
    else
      Some(DevotionalInput(
        Slug(b.title.value), b.title.value, b.excerpt.value, b.content.value, b.bibleVerse.value,
        b.bibleReference.value, b.author.value, b.authorId, now,
        Some(b.featured.GetOr(false)), Some(b.published.GetOr(true)), b.tagNames.GetOr([])))
  }

  /** The row POST creates is featured only when the body says `true`, and
      published unless the body says `false`; its slug is a slug. */
  lemma {:induction false} PostDefaults(b: PostBody, id: Id, now: Timestamp)
    requires RequiredPresent(b)
    ensures var row := NewRow(id, PostInput(b, now).value, now);
      && (row.featured <==> b.featured == Some(true))
      && (row.published <==> b.published != Some(false))
      && (forall i :: 0 <= i < |row.slug| ==> IsSlugChar(row.slug[i]))
      && NoDoubleDash(row.slug)
  {
    SlugShape(b.title.value);
  }

  /** POST /api/devotionals: 400 and nothing stored when a required field is
      missing; otherwise createDevotional with the derived slug, and 500
      when it throws. */
  method Post(store: Store, body: PostBody, now: Timestamp, insertFails: bool) returns (resp: PostResponse)
    requires store.Valid()
    modifies store
    ensures store.Valid()
    ensures !RequiredPresent(body) ==>
      resp == Failed(400, RequiredMessage) && unchanged(store)
    ensures resp.Created? ==>
      && RequiredPresent(body)
      && resp.devotional == NewRow(old(store.nextId), PostInput(body, now).value, now)
      && resp.devotional.slug == Slug(body.title.value)
      && store.devotionals == old(store.devotionals) + [resp.devotional]
    ensures resp.Created? ==> forall t :: t in TagsOf(store.Db(), resp.devotional.id) <==>
      t in store.tags && t.name in body.tagNames.GetOr([])
    ensures resp.Failed? ==> unchanged(store)
    ensures resp.Failed? && RequiredPresent(body) ==> resp == Failed(500, ServerErrorMessage)
    ensures (&& RequiredPresent(body) && !insertFails
             && (forall d :: d in old(store.devotionals) ==> d.slug != Slug(body.title.value))) ==> resp.Created?
  {
    var input := PostInput(body, now);
    if input.None? {
      return Failed(400, RequiredMessage);
    }
    var created := store.Create(input.value, now, insertFails);
    match created
    case Ok(d) => resp := Created(d);
    case Err(_) => resp := Failed(500, ServerErrorMessage);
  }

  // ---------------------------------------------------------------------
  // GET

  /** The decoded query string, in order. */
  type Query = seq<(string, string)>

  /** `searchParams.get(key)`: the first value under `key`. */
  function QueryGet(q: Query, key: string): (r: Option<string>)
    ensures r.Some? <==> exists i :: 0 <= i < |q| && q[i].0 == key
    ensures r.Some? ==> exists i :: 0 <= i < |q| && q[i] == (key, r.value)
  {
    if q == [] then None
    else if q[0].0 == key then Some(q[0].1)
    else
      var r := QueryGet(q[1..], key);
      assert forall i :: 0 <= i < |q[1..]| ==> q[1..][i] == q[i + 1];
      r
  }

  /** What GET does: list everything, search with these parameters, or
      search with a `limit` or `offset` that `parseInt` reads as `NaN` or a
      negative number, whose effect on the store's range is not modelled. */
  datatype GetPlan =
    | AllPublished
    | Search(params: SearchParams)
    | RangeNotModelled

  /** `parseInt(searchParams.get(key) || fallback)`. */
  function NumberParam(q: Query, key: string, fallback: string): Option<int>
  {
    var v := QueryGet(q, key);
    ParseInt(if Given(v) then v.value else fallback)
  }

  /** `searchParams.get("tagNames")?.split(",") || []`. */
  function TagNamesParam(q: Query): (r: seq<string>)
    ensures QueryGet(q, "tagNames").Some? ==> |r| >= 1
  {
    match QueryGet(q, "tagNames")
    case Some(v) => Split(v, ',')
    case None => []
  }

  /** The GET dispatch and the parameters it passes to searchDevotionals. */
  function Plan(q: Query): (r: GetPlan)
    ensures r.AllPublished? <==>
      !Given(QueryGet(q, "searchTerm")) && QueryGet(q, "tagNames").None?
      && !Given(QueryGet(q, "author")) && !Given(QueryGet(q, "featured"))
    ensures r.Search? ==>
      && r.params.tagNames == (if QueryGet(q, "tagNames").Some? then Some(Split(QueryGet(q, "tagNames").value, ',')) else None)
      && r.params.searchTerm == (if Given(QueryGet(q, "searchTerm")) then QueryGet(q, "searchTerm") else None)
      && r.params.author == (if Given(QueryGet(q, "author")) then QueryGet(q, "author") else None)
      && r.params.featured == (if Given(QueryGet(q, "featured")) then Some(QueryGet(q, "featured").value == "true") else None)
      && r.params.limit.Some? && r.params.offset.Some?
  {
    var searchTerm := QueryGet(q, "searchTerm");
    var tagNames := TagNamesParam(q);
    var author := QueryGet(q, "author");
    var featured := QueryGet(q, "featured");
    var limit := NumberParam(q, "limit", "50");
    var offset := NumberParam(q, "offset", "0");
    if Given(searchTerm) || |tagNames| > 0 || Given(author) || Given(featured) then
      if limit.None? || limit.value < 0 || offset.None? || offset.value < 0 then RangeNotModelled
      else
        Search(SearchParams(
          if Given(searchTerm) then searchTerm else None,
          if |tagNames| > 0 then Some(tagNames) else None,
          if Given(author) then author else None,
          if Given(featured) then Some(featured.value == "true") else None,
          Some(limit.value as nat),
          Some(offset.value as nat)))
    else AllPublished
  }

  /** The search branch of the dispatch, once `limit` and `offset` are read
      as non-negative numbers. */
  lemma {:induction false} PlanSearch(q: Query, limit: nat, offset: nat)
    requires Given(QueryGet(q, "searchTerm")) || |TagNamesParam(q)| > 0
      || Given(QueryGet(q, "author")) || Given(QueryGet(q, "featured"))
    requires NumberParam(q, "limit", "50") == Some(limit as int)
    requires NumberParam(q, "offset", "0") == Some(offset as int)
    ensures Plan(q) == Search(SearchParams(
      if Given(QueryGet(q, "searchTerm")) then QueryGet(q, "searchTerm") else None,
      if |TagNamesParam(q)| > 0 then Some(TagNamesParam(q)) else None,
      if Given(QueryGet(q, "author")) then QueryGet(q, "author") else None,
      if Given(QueryGet(q, "featured")) then Some(QueryGet(q, "featured").value == "true") else None,
      Some(limit), Some(offset)))
  {
  }

  lemma {:induction false} ParseFifty()
    ensures ParseInt("50") == Some(50)
  {
    assert NatToString(5) == "5";
    assert NatToString(50) == "50";
    PositiveRoundTrip(50);
  }

  lemma {:induction false} ParseZero()
    ensures ParseInt("0") == Some(0)
  {
    assert NatToString(0) == "0";
    PositiveRoundTrip(0);
  }

  /** Without `limit` and `offset` a search asks for 50 rows from 0, not
      the 20 searchDevotionals would default to. */
  lemma {:induction false} PlanDefaults(q: Query)
    requires !Given(QueryGet(q, "limit")) && !Given(QueryGet(q, "offset"))
    requires !Plan(q).AllPublished?
    ensures Plan(q).Search?
    ensures Plan(q).params.limit == Some(50) && Plan(q).params.offset == Some(0)
  {
    ParseFifty();
    ParseZero();
    assert NumberParam(q, "limit", "50") == Some(50);
    assert NumberParam(q, "offset", "0") == Some(0);
  }

  datatype GetResponse =
    | Listed(devotionals: seq<DevotionalWithTags>, total: nat)
    | GetFailed(status: nat, error: string)
    | NotModelled

  /** GET /api/devotionals over the tables; `storeFails` is a store call
      that throws, answered with 500. */
  function Get(db: Tables, q: Query, storeFails: bool): (r: GetResponse)
    ensures storeFails ==> r == GetFailed(500, ServerErrorMessage)
    ensures !storeFails && Plan(q).AllPublished? ==>
      r == Listed(GetAllDevotionals(db), |GetAllDevotionals(db)|)
    ensures !storeFails && Plan(q).Search? && SearchDevotionals(db, Plan(q).params).Some? ==>
      r == Listed(SearchDevotionals(db, Plan(q).params).value.devotionals,
                  SearchDevotionals(db, Plan(q).params).value.total)
    ensures !storeFails && Plan(q).Search? && SearchDevotionals(db, Plan(q).params).None? ==>
      r == GetFailed(500, ServerErrorMessage)
  {
    if storeFails then GetFailed(500, ServerErrorMessage)
    else
      match Plan(q)
      case AllPublished =>
        var all := GetAllDevotionals(db);
        Listed(all, |all|)
      case Search(p) =>
        (match SearchDevotionals(db, p)
         case Some(found) => Listed(found.devotionals, found.total)
         case None => GetFailed(500, ServerErrorMessage))
      case RangeNotModelled => NotModelled
  }

  /** Every devotional GET lists is published, whichever branch it takes. */
  lemma {:induction false} GetListsPublished(db: Tables, q: Query, storeFails: bool)
    ensures var r := Get(db, q, storeFails);
      r.Listed? ==> forall x :: x in r.devotionals ==> x.devotional.published
  {
    if !storeFails && Plan(q).Search? && RangeSatisfiable(db, Plan(q).params) {
      SearchSpec(db, Plan(q).params);
    }
  }
}
