/** The browser side of the devotionals API (src/lib/api-client.ts): the
    query string `fetchDevotionals` builds, and how the route reads it back.
    Percent-encoding is not modelled: a query is the list of decoded pairs. */
module ApiClient {
  import opened Wrappers
  import opened Collections
  import opened Text
  import opened SupabaseDevotionals
  import opened DevotionalsRoute

  /** The optional argument of fetchDevotionals; numbers are integers. */
  datatype FetchParams = FetchParams(
    searchTerm: Option<string>,
    tagNames: Option<seq<string>>,
    author: Option<string>,
    featured: Option<bool>,
    limit: Option<int>,
    offset: Option<int>)

  const NoParams := FetchParams(None, None, None, None, None, None)

  /** The test `if (params?.limit)` on a number: present and not 0. */
  predicate Truthy(n: Option<int>)
  {
    n.Some? && n.value != 0
  }

  predicate HasTags(names: Option<seq<string>>)
  {
    names.Some? && |names.value| > 0
  }

  function BoolToString(b: bool): string
  {
    if b then "true" else "false"
  }

  /** `URLSearchParams.set(key, value)`: the first pair under `key` takes the
      value and later ones are dropped; without one the pair is appended. */
  function SetParam(q: Query, key: string, value: string): (r: Query)
    ensures QueryGet(r, key) == Some(value)
    ensures forall other :: other != key ==> QueryGet(r, other) == QueryGet(q, other)
    ensures r != []
  {
    if q == [] then [(key, value)]
    else if q[0].0 == key then [(key, value)] + WithoutKey(q[1..], key)
    else [q[0]] + SetParam(q[1..], key, value)
  }

  /** The pairs whose key is not `key`. */
  function WithoutKey(q: Query, key: string): (r: Query)
    ensures QueryGet(r, key) == None
    ensures forall other :: other != key ==> QueryGet(r, other) == QueryGet(q, other)
  {
    if q == [] then []
    else if q[0].0 == key then WithoutKey(q[1..], key)
    else [q[0]] + WithoutKey(q[1..], key)
  }

  /** `searchParams.toString()` without percent-encoding: `key=value` pairs joined by "&". */
  function Serialize(q: Query): (r: string)
    ensures r == [] <==> q == []
  {
    if q == [] then []
    else if |q| == 1 then q[0].0 + "=" + q[0].1
    else q[0].0 + "=" + q[0].1 + "&" + Serialize(q[1..])
  }

  /** The query carries exactly the parameters fetchDevotionals sends:
      the texts when non-empty, the tag list joined by "," when non-empty,
      `featured` whenever it is defined, and the numbers when not 0. */
  predicate Carries(q: Query, p: FetchParams)
  {
    && QueryGet(q, "searchTerm") == (if Given(p.searchTerm) then p.searchTerm else None)
    && QueryGet(q, "tagNames") == (if HasTags(p.tagNames) then Some(Join(p.tagNames.value, ',')) else None)
    && QueryGet(q, "author") == (if Given(p.author) then p.author else None)
    && QueryGet(q, "featured") == (if p.featured.Some? then Some(BoolToString(p.featured.value)) else None)
    && QueryGet(q, "limit") == (if Truthy(p.limit) then Some(IntToString(p.limit.value)) else None)
    && QueryGet(q, "offset") == (if Truthy(p.offset) then Some(IntToString(p.offset.value)) else None)
  }

  /** The keys in the order fetchDevotionals sets them. */
  const SearchTermKey := "searchTerm"
  const TagNamesKey := "tagNames"
  const AuthorKey := "author"
  const FeaturedKey := "featured"
  const LimitKey := "limit"
  const OffsetKey := "offset"
  const Keys: seq<string> := [SearchTermKey, TagNamesKey, AuthorKey, FeaturedKey, LimitKey, OffsetKey]

  /** The value fetchDevotionals sets under the `k`-th key, if any. */
  function Sent(p: FetchParams, k: nat): Option<string>
    requires k < 6
  {
    if k == 0 then (if Given(p.searchTerm) then p.searchTerm else None)
    else if k == 1 then (if HasTags(p.tagNames) then Some(Join(p.tagNames.value, ',')) else None)
    else if k == 2 then (if Given(p.author) then p.author else None)
    else if k == 3 then (if p.featured.Some? then Some(BoolToString(p.featured.value)) else None)
    else if k == 4 then (if Truthy(p.limit) then Some(IntToString(p.limit.value)) else None)
    else (if Truthy(p.offset) then Some(IntToString(p.offset.value)) else None)
  }

  /** After the first `n` conditional sets: the first `n` keys carry what
      was sent, the others nothing yet, and the query is empty exactly
      when nothing was sent so far. */
  predicate Upto(q: Query, p: FetchParams, n: nat)
    requires n <= 6
  {
    && (forall k :: 0 <= k < 6 ==> QueryGet(q, Keys[k]) == if k < n then Sent(p, k) else None)
    && (q == [] <==> NoneSent(p, n))
  }

  /** None of the first `n` keys was sent. */
  predicate NoneSent(p: FetchParams, n: nat)
    requires n <= 6
  {
    n == 0 || (Sent(p, n - 1).None? && NoneSent(p, n - 1))
  }

  /** No parameter would be sent. */
  predicate SendsNothing(p: FetchParams)
  {
    !Given(p.searchTerm) && !HasTags(p.tagNames) && !Given(p.author)
    && p.featured.None? && !Truthy(p.limit) && !Truthy(p.offset)
  }

  const Endpoint := "/api/devotionals"

  /** The six parameter names differ from one another. */
  lemma {:induction false} KeysDistinct()
    ensures "searchTerm" != "tagNames" && "searchTerm" != "author" && "searchTerm" != "featured"
    ensures "searchTerm" != "limit" && "searchTerm" != "offset"
    ensures "tagNames" != "author" && "tagNames" != "featured" && "tagNames" != "limit" && "tagNames" != "offset"
    ensures "author" != "featured" && "author" != "limit" && "author" != "offset"
    ensures "featured" != "limit" && "featured" != "offset" && "limit" != "offset"
  {
    assert "tagNames"[0] != "featured"[0];
    assert "author"[0] != "offset"[0];
  }

  /** The six parameter names, by position, differ from one another. */
  lemma {:induction false} KeysAt()
    ensures forall i, j :: 0 <= i < j < 6 ==> Keys[i] != Keys[j]
  {
    KeysDistinct();
  }

  /** A `set` of the `n`-th key, when fetchDevotionals sends it, extends
      what the query carries by that key. */
  lemma {:induction false} UptoSet(q: Query, p: FetchParams, n: nat, key: string, value: string)
    requires n < 6 && Upto(q, p, n) && key == Keys[n] && Sent(p, n) == Some(value)
    ensures Upto(SetParam(q, key, value), p, n + 1)
  {
    var r := SetParam(q, key, value);
    KeysAt();
    forall k | 0 <= k < 6
      ensures QueryGet(r, Keys[k]) == if k < n + 1 then Sent(p, k) else None
    {
      if k != n {
        assert Keys[k] != Keys[n];
      }
    }
  }

  /** Skipping the `n`-th key, when fetchDevotionals does not send it,
      leaves the query carrying the first `n + 1` keys. */
  lemma {:induction false} UptoSkip(q: Query, p: FetchParams, n: nat)
    requires n < 6 && Upto(q, p, n) && Sent(p, n).None?
    ensures Upto(q, p, n + 1)
  {
  }

  /** After all six sets, the query carries the parameters and is empty
      exactly when nothing is sent. */
  lemma {:induction false} UptoCarries(q: Query, p: FetchParams)
    requires Upto(q, p, 6)
    ensures Carries(q, p)
    ensures q == [] <==> SendsNothing(p)
  {
    assert QueryGet(q, Keys[0]) == Sent(p, 0);
    assert QueryGet(q, Keys[1]) == Sent(p, 1);
    assert QueryGet(q, Keys[2]) == Sent(p, 2);
    assert QueryGet(q, Keys[3]) == Sent(p, 3);
    assert QueryGet(q, Keys[4]) == Sent(p, 4);
    assert QueryGet(q, Keys[5]) == Sent(p, 5);
    assert NoneSent(p, 6) <==> NoneSent(p, 5) && Sent(p, 5).None?;
    assert NoneSent(p, 5) <==> NoneSent(p, 4) && Sent(p, 4).None?;
    assert NoneSent(p, 4) <==> NoneSent(p, 3) && Sent(p, 3).None?;
    assert NoneSent(p, 3) <==> NoneSent(p, 2) && Sent(p, 2).None?;
    assert NoneSent(p, 2) <==> NoneSent(p, 1) && Sent(p, 1).None?;
    assert NoneSent(p, 1) <==> Sent(p, 0).None?;
  }

  /** The first half of the conditional sets, on a fresh, empty
      `URLSearchParams`: `searchTerm`, `tagNames` and `author`. */
  method SearchParamsOf(empty: Query, p: FetchParams) returns (query: Query)
    requires Upto(empty, p, 0)
    ensures Upto(query, p, 3)
  {
    query := empty;
    if Given(p.searchTerm) {
      UptoSet(query, p, 0, SearchTermKey, p.searchTerm.value);
      query := SetParam(query, SearchTermKey, p.searchTerm.value);
    } else {
      UptoSkip(query, p, 0);
    }
    if HasTags(p.tagNames) {
      UptoSet(query, p, 1, TagNamesKey, Join(p.tagNames.value, ','));
      query := SetParam(query, TagNamesKey, Join(p.tagNames.value, ','));
    } else {
      UptoSkip(query, p, 1);
    }
    if Given(p.author) {
      UptoSet(query, p, 2, AuthorKey, p.author.value);
      query := SetParam(query, AuthorKey, p.author.value);
    } else {
      UptoSkip(query, p, 2);
    }
  }

  /** The second half of the conditional sets: `featured`, `limit` and
      `offset`. */
  method FilterParamsOf(q: Query, p: FetchParams) returns (query: Query)
    requires Upto(q, p, 3)
    ensures Upto(query, p, 6)
  {
    query := q;
    if p.featured.Some? {
      UptoSet(query, p, 3, FeaturedKey, BoolToString(p.featured.value));
      query := SetParam(query, FeaturedKey, BoolToString(p.featured.value));
    } else {
      UptoSkip(query, p, 3);
    }
    if Truthy(p.limit) {
      UptoSet(query, p, 4, LimitKey, IntToString(p.limit.value));
      query := SetParam(query, LimitKey, IntToString(p.limit.value));
    } else {
      UptoSkip(query, p, 4);
    }
    if Truthy(p.offset) {
      UptoSet(query, p, 5, OffsetKey, IntToString(p.offset.value));
      query := SetParam(query, OffsetKey, IntToString(p.offset.value));
    } else {
      UptoSkip(query, p, 5);
    }
  }

  /** fetchDevotionals up to the request: the query carries exactly the
      parameters sent, and the URL is the bare endpoint exactly when
      nothing was set. */
  method FetchDevotionalsUrl(params: Option<FetchParams>) returns (query: Query, url: string)
    ensures Carries(query, params.GetOr(NoParams))
    ensures query == [] <==> SendsNothing(params.GetOr(NoParams))
    ensures query == [] ==> url == Endpoint
    ensures query != [] ==> url == Endpoint + "?" + Serialize(query)
  {
    var p := params.GetOr(NoParams);
    query := SearchParamsOf([], p);
    query := FilterParamsOf(query, p);
    UptoCarries(query, p);
    var text := Serialize(query);
    url := Endpoint + (if text != [] then "?" + text else "");
  }

  /** The route's reading of a number the client sent: 0 is never sent, so
      it comes back as the route's default. */
  lemma {:induction false} NumberRoundTrip(q: Query, key: string, sent: Option<int>, fallback: string, d: int)
    requires QueryGet(q, key) == (if Truthy(sent) then Some(IntToString(sent.value)) else None)
    requires ParseInt(fallback) == Some(d)
    ensures NumberParam(q, key, fallback) == Some(if Truthy(sent) then sent.value else d)
  {
    if Truthy(sent) {
      ParseIntToString(sent.value);
    }
  }

  /** What the client sends, the route reads back: a search the client asks
      for reaches searchDevotionals with the same text, author and featured
      filters, the same tag list (when no name holds a ","), and the same
      non-zero limit and offset, 50 and 0 standing in for the others. */
  lemma {:induction false} ClientRouteRoundTrip(q: Query, p: FetchParams)
    requires Carries(q, p)
    requires Given(p.searchTerm) || HasTags(p.tagNames) || Given(p.author) || p.featured.Some?
    requires HasTags(p.tagNames) ==> forall k :: 0 <= k < |p.tagNames.value| ==> ',' !in p.tagNames.value[k]
    requires p.limit.None? || p.limit.value >= 0
    requires p.offset.None? || p.offset.value >= 0
    ensures Plan(q) == Search(SearchParams(
      if Given(p.searchTerm) then p.searchTerm else None,
      if HasTags(p.tagNames) then p.tagNames else None,
      if Given(p.author) then p.author else None,
      p.featured,
      Some(if Truthy(p.limit) then p.limit.value else 50),
      Some(if Truthy(p.offset) then p.offset.value else 0)))
  {
    assert TagNamesParam(q) == (if HasTags(p.tagNames) then p.tagNames.value else []) by {
      if HasTags(p.tagNames) {
        SplitJoin(p.tagNames.value, ',');
      }
    }
    ParseFifty();
    ParseZero();
    var limit: nat := if Truthy(p.limit) then p.limit.value else 50;
    var offset: nat := if Truthy(p.offset) then p.offset.value else 0;
    NumberRoundTrip(q, "limit", p.limit, "50", 50);
    NumberRoundTrip(q, "offset", p.offset, "0", 0);
    assert Given(Some("true")) && Given(Some("false"));
    PlanSearch(q, limit, offset);
  }
}
