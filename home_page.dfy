/** The home page (src/app/page.tsx): today's devotional and the recent
    list, chosen from the published devotionals the API returns. */
module HomePage {
  import opened Wrappers
  import opened Collections
  import opened Types
  import opened SupabaseDevotionals
  import opened DevotionalsRoute
  import opened AdminDevotionals
  import ApiClient

  /** `devotionals.find(d => d.featured)`, as an index. */
  function FirstFeatured(rows: seq<DevotionalWithTags>): (r: Option<nat>)
    ensures r.Some? ==> r.value < |rows| && rows[r.value].devotional.featured
    ensures r.Some? ==> forall i :: 0 <= i < r.value ==> !rows[i].devotional.featured
    ensures r.None? ==> forall i :: 0 <= i < |rows| ==> !rows[i].devotional.featured
  {
    if rows == [] then None
    else if rows[0].devotional.featured then Some(0)
    else
      match FirstFeatured(rows[1..])
      case None => None
      case Some(k) => Some(k + 1)
  }

  /** Today's devotional: the first featured one, else the first one, else none. */
  function Today(rows: seq<DevotionalWithTags>): (r: Option<DevotionalWithTags>)
    ensures r.None? <==> rows == []
    ensures r.Some? ==> r.value in rows
    ensures (exists i :: 0 <= i < |rows| && rows[i].devotional.featured) ==>
      r.Some? && r.value.devotional.featured
      && exists k :: 0 <= k < |rows| && rows[k] == r.value && forall i :: 0 <= i < k ==> !rows[i].devotional.featured
    ensures (forall i :: 0 <= i < |rows| ==> !rows[i].devotional.featured) && rows != [] ==> r == Some(rows[0])
  {
    match FirstFeatured(rows)
    case Some(k) => Some(rows[k])
    case None => if rows == [] then None else Some(rows[0])
  }

  /** The recent list: the devotionals whose id differs from today's, at most three. */
  function Recent(rows: seq<DevotionalWithTags>, today: Option<DevotionalWithTags>): (r: seq<DevotionalWithTags>)
    ensures |r| <= 3
    ensures forall d :: d in r ==> d in rows
    ensures today.Some? ==> forall d :: d in r ==> d.devotional.id != today.value.devotional.id
  {
    var others := if today.Some? then Filter(rows, IdIsNot(today.value.devotional.id)) else rows;
    if |others| <= 3 then others
    else
      assert forall d :: d in others[..3] ==> d in others;
      others[..3]
  }

  predicate DistinctIds(rows: seq<DevotionalWithTags>)
  {
    forall i, j :: 0 <= i < j < |rows| ==> rows[i].devotional.id != rows[j].devotional.id
  }

  function IdIs(id: Id): DevotionalWithTags -> bool
  {
    (d: DevotionalWithTags) => d.devotional.id == id
  }

  /** The recent list never holds today's devotional, has at most three
      entries, keeps the fetched order, and with distinct ids holds exactly
      min(3, n - 1) entries of a non-empty list and skips no row before a
      listed one: it is the first three rows other than today's. */
  lemma {:induction false} RecentSpec(rows: seq<DevotionalWithTags>)
    ensures forall d :: d in Recent(rows, Today(rows)) ==> d.devotional.id != Today(rows).value.devotional.id
    ensures |Recent(rows, Today(rows))| <= 3
    ensures IsSubsequence(Recent(rows, Today(rows)), rows)
    ensures rows != [] && DistinctIds(rows) ==>
      |Recent(rows, Today(rows))| == if |rows| - 1 < 3 then |rows| - 1 else 3
    ensures rows != [] && DistinctIds(rows) ==>
      forall i, j ::
        (0 <= i < j < |rows| && rows[j] in Recent(rows, Today(rows))
         && rows[i].devotional.id != Today(rows).value.devotional.id)
        ==> rows[i] in Recent(rows, Today(rows))
  {
    if rows != [] && DistinctIds(rows) {
      forall i, j | 0 <= i < j < |rows| && rows[j] in Recent(rows, Today(rows))
          && rows[i].devotional.id != Today(rows).value.devotional.id
        ensures rows[i] in Recent(rows, Today(rows))
      {
        RecentTakesFirst(rows, i, j);
      }
    }
    var today := Today(rows);
    if today.None? {
      assert Recent(rows, today) == [];
    } else {
      var id := today.value.devotional.id;
      var others := Filter(rows, IdIsNot(id));
      FilterIsSubsequence(rows, IdIsNot(id));
      if |others| > 3 {
        PrefixIsSubsequence(others, 3);
        SubsequenceTransitive(others[..3], others, rows);
        assert forall d :: d in others[..3] ==> d in others;
      }
      if DistinctIds(rows) {
        FilterAtMostOne(rows, IdIs(id));
        assert IdIs(id)(today.value);
        FilterComplement(rows, IdIs(id), IdIsNot(id));
      }
    }
  }

  lemma {:induction false} DistinctIdsNoDuplicates(rows: seq<DevotionalWithTags>)
    requires DistinctIds(rows)
    ensures NoDuplicates(rows)
  {
    forall x, y | 0 <= x < y < |rows| ensures rows[x] != rows[y] {
      assert rows[x].devotional.id != rows[y].devotional.id;
    }
  }

  /** The recent list skips no row: with distinct ids, a row other than
      today's that comes before a listed one is listed too. The list is
      therefore the first rows after today's is taken out. */
  lemma {:induction false} RecentTakesFirst(rows: seq<DevotionalWithTags>, i: nat, j: nat)
    requires DistinctIds(rows) && i < j < |rows|
    requires rows[j] in Recent(rows, Today(rows))
    requires rows[i].devotional.id != Today(rows).value.devotional.id
    ensures rows[i] in Recent(rows, Today(rows))
  {
    var id := Today(rows).value.devotional.id;
    var others := Filter(rows, IdIsNot(id));
    var k := if |others| <= 3 then |others| else 3;
    assert Recent(rows, Today(rows)) == others[..k];
    DistinctIdsNoDuplicates(rows);
    FilterNoDuplicates(rows, IdIsNot(id));
    FilterIsSubsequence(rows, IdIsNot(id));
    assert IdIsNot(id)(rows[i]);
    SubsequencePrefixSkipsNone(others, rows, k, i, j);
  }

  /** Both picks come from the published devotionals the route lists. */
  lemma {:induction false} HomeShowsPublished(db: Tables)
    ensures Today(GetAllDevotionals(db)).Some? ==> Today(GetAllDevotionals(db)).value.devotional.published
    ensures forall d :: d in Recent(GetAllDevotionals(db), Today(GetAllDevotionals(db))) ==> d.devotional.published
  {
    var rows := GetAllDevotionals(db);
    RecentSpec(rows);
    SubsequenceElements(Recent(rows, Today(rows)), rows);
  }

  /** The page's state. */
  class Home {
    var todaysDevotional: Option<DevotionalWithTags>
    var recentDevotionals: seq<DevotionalWithTags>
    var loading: bool

    constructor ()
      ensures todaysDevotional == None && recentDevotionals == [] && loading
    {
      todaysDevotional := None;
      recentDevotionals := [];
      loading := true;
    }

    /** loadData: `fetchDevotionals()` with no parameters is a GET of
        /api/devotionals; a failed request clears both picks. */
    method LoadData(db: Tables, storeFails: bool)
      modifies this
      ensures !storeFails ==> todaysDevotional == Today(GetAllDevotionals(db))
      ensures !storeFails ==> recentDevotionals == Recent(GetAllDevotionals(db), todaysDevotional)
      ensures storeFails ==> todaysDevotional == None && recentDevotionals == []
      ensures !loading
    {
      var query, url := ApiClient.FetchDevotionalsUrl(None);
      var response := Get(db, query, storeFails);
      match response {
        case Listed(devotionals, _) =>
          var featured := Today(devotionals);
          todaysDevotional := featured;
          recentDevotionals := Recent(devotionals, featured);
        case GetFailed(_, _) =>
          todaysDevotional := None;
          recentDevotionals := [];
        case NotModelled =>
          assert false;
      }
      loading := false;
    }

    /** The five-second timeout: stops loading and clears both picks. */
    method Timeout()
      modifies this
      ensures todaysDevotional == None && recentDevotionals == [] && !loading
    {
      loading := false;
      todaysDevotional := None;
      recentDevotionals := [];
    }
  }
}
