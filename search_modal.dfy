/** The search dialog (src/components/search-modal.tsx): when a search is
    sent, what it carries, what the route makes of it, and the tag badges,
    Escape and result clicks. */
module SearchModal {
  import opened Wrappers
  import opened Text
  import opened Types
  import opened SupabaseDevotionals
  import opened DevotionalsRoute
  import opened ApiClient

  /** The params object the search effect builds, or None when it sends
      nothing: a search needs a non-blank term or a selected tag. */
  function SearchRequest(term: string, selected: Option<string>): (r: Option<FetchParams>)
    ensures r.Some? <==> Trim(term) != "" || Given(selected)
    ensures r.Some? ==> (Given(r.value.searchTerm) <==> Trim(term) != "")
    ensures r.Some? && Given(r.value.searchTerm) ==> r.value.searchTerm.value == Trim(term)
    ensures r.Some? ==> (HasTags(r.value.tagNames) <==> Given(selected))
    ensures r.Some? && HasTags(r.value.tagNames) ==> r.value.tagNames.value == [selected.value]
    ensures r.Some? ==> r.value.author.None? && r.value.featured.None? && r.value.limit.None? && r.value.offset.None?
  {
    if Trim(term) != "" || Given(selected) then
      Some(FetchParams(
        if Trim(term) != "" then Some(Trim(term)) else None,
        if Given(selected) then Some([selected.value]) else None,
        None, None, None, None))
    else None
  }

  /** The search the route runs for the dialog: the trimmed term, the
      selected tag split on ",", 50 rows from 0. */
  function RouteParams(term: string, selected: Option<string>): (p: SearchParams)
    ensures Limit(p) == 50 && Offset(p) == 0
  {
    SearchParams(
      if Trim(term) != "" then Some(Trim(term)) else None,
      if Given(selected) then Some(Split(selected.value, ',')) else None,
      None, None, Some(50), Some(0))
  }

  /** The search the dialog's request runs. It starts at offset 0, a range
      PostgREST always serves, so it never fails. */
  function DialogSearch(db: Tables, term: string, selected: Option<string>): (r: SearchResult)
    ensures SearchDevotionals(db, RouteParams(term, selected)) == Some(r)
  {
    SearchDevotionals(db, RouteParams(term, selected)).value
  }

  /** A query that carries the dialog's request makes the route search
      with RouteParams. */
  lemma {:induction false} RequestReachesRoute(term: string, selected: Option<string>, q: Query)
    requires SearchRequest(term, selected).Some?
    requires Carries(q, SearchRequest(term, selected).value)
    ensures Plan(q) == Search(RouteParams(term, selected))
  {
    var p := SearchRequest(term, selected).value;
    assert !Given(QueryGet(q, "limit")) && !Given(QueryGet(q, "offset"));
    assert Trim(term) != "" ==> Given(QueryGet(q, "searchTerm"));
    assert Given(selected) ==> QueryGet(q, "tagNames").Some?;
    PlanDefaults(q);
  }

  /** What the route answers the dialog's request: the search page and its
      total, or a failure. */
  lemma {:induction false} RouteAnswer(db: Tables, term: string, selected: Option<string>, q: Query, storeFails: bool)
    requires SearchRequest(term, selected).Some?
    requires Carries(q, SearchRequest(term, selected).value)
    ensures storeFails ==> Get(db, q, storeFails).GetFailed?
    ensures !storeFails ==> (Get(db, q, storeFails) ==
      Listed(DialogSearch(db, term, selected).devotionals,
             DialogSearch(db, term, selected).total))
  {
    RequestReachesRoute(term, selected, q);
  }

  /** `fetchDevotionals(params)` for the dialog's request, through the
      route: the search page and its total, or a failure. */
  method FetchSearch(db: Tables, term: string, selected: Option<string>, storeFails: bool)
    returns (response: GetResponse)
    requires SearchRequest(term, selected).Some?
    ensures storeFails ==> response.GetFailed?
    ensures !storeFails ==> (response ==
      Listed(DialogSearch(db, term, selected).devotionals,
             DialogSearch(db, term, selected).total))
  {
    var query, url := FetchDevotionalsUrl(SearchRequest(term, selected));
    RouteAnswer(db, term, selected, query, storeFails);
    response := Get(db, query, storeFails);
  }

  /** A tag name without "," reaches the route as itself. */
  lemma {:induction false} PlainTagReachesRoute(term: string, name: string)
    requires name != "" && ',' !in name
    ensures RouteParams(term, Some(name)).tagNames == Some([name])
  {
    SplitNoSep(name, ',');
  }

  /** One run of the search effect on the dialog's values: the request it
      sends, and the results, total and loading flag it leaves. Loading is
      set while the request is out and cleared once it settles. */
  method SearchEffect(db: Tables, term: string, selected: Option<string>, storeFails: bool,
                      shown: seq<DevotionalWithTags>, count: int, busy: bool)
    returns (request: Option<FetchParams>, shown': seq<DevotionalWithTags>, count': int, busy': bool)
    ensures request == SearchRequest(term, selected)
    ensures request.None? ==> shown' == [] && count' == 0 && busy' == busy
    ensures request.Some? && storeFails ==> shown' == shown && count' == count
    ensures request.Some? && !storeFails ==>
      && shown' == DialogSearch(db, term, selected).devotionals
      && count' == DialogSearch(db, term, selected).total
    ensures request.Some? ==> !busy'
  {
    request := SearchRequest(term, selected);
    shown', count', busy' := shown, count, busy;
    if request.Some? {
      busy' := true;
      var response := FetchSearch(db, term, selected, storeFails);
      if response.Listed? {
        shown', count' := response.devotionals, response.total;
      }
      busy' := false;
    } else {
      shown', count' := [], 0;
    }
  }

  /** The dialog's state; `isOpen` stands for the parent's flag that
      `onClose` clears, `location` for the router. */
  class Modal {
    var searchTerm: string
    var selectedTag: Option<string>
    var devotionals: seq<DevotionalWithTags>
    var allTags: seq<Tag>
    var loading: bool
    var total: int
    var isOpen: bool
    var location: Option<string>

    constructor ()
      ensures searchTerm == "" && selectedTag == None && devotionals == [] && allTags == []
      ensures !loading && total == 0 && isOpen && location == None
    {
      searchTerm := "";
      selectedTag := None;
      devotionals := [];
      allTags := [];
      loading := false;
      total := 0;
      isOpen := true;
      location := None;
    }

    /** The search effect, after the debounce: nothing sent and the results
        cleared when there is nothing to search; otherwise the request goes
        to the route, and a failed request keeps the previous results. */
    method RunSearch(db: Tables, storeFails: bool) returns (request: Option<FetchParams>)
      modifies this
      ensures request == SearchRequest(old(searchTerm), old(selectedTag))
      ensures request.None? ==> (devotionals, total, loading) == ([], 0, old(loading))
      ensures request.Some? && storeFails ==> (devotionals, total, loading) == (old(devotionals), old(total), false)
      ensures request.Some? && !storeFails ==>
        var found := DialogSearch(db, old(searchTerm), old(selectedTag));
        (devotionals, total, loading) == (found.devotionals, found.total, false)
      ensures (searchTerm, selectedTag, allTags, isOpen, location)
           == old((searchTerm, selectedTag, allTags, isOpen, location))
    {
      request, devotionals, total, loading :=
        SearchEffect(db, searchTerm, selectedTag, storeFails, devotionals, total, loading);
    }

    /** loadTags on opening: the tag list from /api/tags, kept on failure. */
    method LoadTags(db: Tables, fails: bool)
      modifies this
      ensures allTags == (if fails then old(allTags) else GetAllTags(db))
      ensures searchTerm == old(searchTerm) && selectedTag == old(selectedTag)
      ensures devotionals == old(devotionals) && total == old(total) && loading == old(loading)
      ensures isOpen == old(isOpen) && location == old(location)
    {
      if !fails {
        allTags := GetAllTags(db);
      }
    }

    method TypeTerm(value: string)
      modifies this
      ensures searchTerm == value
      ensures selectedTag == old(selectedTag) && devotionals == old(devotionals) && allTags == old(allTags)
      ensures total == old(total) && loading == old(loading) && isOpen == old(isOpen) && location == old(location)
    {
      searchTerm := value;
    }

    /** A tag badge selects its tag; clicking it again keeps it selected. */
    method SelectTag(name: string)
      modifies this
      ensures selectedTag == Some(name)
      ensures searchTerm == old(searchTerm) && devotionals == old(devotionals) && allTags == old(allTags)
      ensures total == old(total) && loading == old(loading) && isOpen == old(isOpen) && location == old(location)
    {
      selectedTag := Some(name);
    }

    /** The "Todos" badge clears the selection. */
    method SelectAll()
      modifies this
      ensures selectedTag == None
      ensures searchTerm == old(searchTerm) && devotionals == old(devotionals) && allTags == old(allTags)
      ensures total == old(total) && loading == old(loading) && isOpen == old(isOpen) && location == old(location)
    {
      selectedTag := None;
    }

    /** handleKeyDown: Escape closes the dialog, other keys do nothing. */
    method KeyDown(key: string)
      modifies this
      ensures isOpen == (old(isOpen) && key != "Escape")
      ensures searchTerm == old(searchTerm) && selectedTag == old(selectedTag) && devotionals == old(devotionals)
      ensures allTags == old(allTags) && total == old(total) && loading == old(loading) && location == old(location)
    {
      if key == "Escape" {
        isOpen := false;
      }
    }

    /** handleDevotionalClick: goes to the devotional's page and closes. */
    method ChooseResult(slug: string)
      modifies this
      ensures location == Some("/devocional/" + slug) && !isOpen
      ensures searchTerm == old(searchTerm) && selectedTag == old(selectedTag) && devotionals == old(devotionals)
      ensures allTags == old(allTags) && total == old(total) && loading == old(loading)
    {
      location := Some("/devocional/" + slug);
      isOpen := false;
    }
  }
}
