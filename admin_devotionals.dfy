/** The author's devotional list (src/app/admin/devocionais/page.tsx): the
    tag buttons, the title/author and tag filters, the tag toggle and the
    removal of a deleted devotional from the local list. */
module AdminDevotionals {
  import opened Wrappers
  import opened Collections
  import opened Text
  import opened Types
  import opened SupabaseDevotionals

  /** Every tag name on the loaded devotionals, in the order `forEach` visits them. */
  function TagNamesOf(rows: seq<DevotionalWithTags>): (r: seq<string>)
    ensures forall name :: name in r <==> HasTagNamed(rows, name)
  {
    if rows == [] then []
    else
      var here := NamesOf(rows[0].tags);
      assert forall name :: HasTagNamed(rows, name) <==> name in here || HasTagNamed(rows[1..], name) by {
        forall name | HasTagNamed(rows, name) && name !in here ensures HasTagNamed(rows[1..], name) {
          var i, t :| 0 <= i < |rows| && t in rows[i].tags && t.name == name;
          assert i != 0;
          assert rows[1..][i - 1] == rows[i];
        }
        forall name | HasTagNamed(rows[1..], name) ensures HasTagNamed(rows, name) {
          var i, t :| 0 <= i < |rows[1..]| && t in rows[1..][i].tags && t.name == name;
          assert rows[i + 1] == rows[1..][i];
        }
      }
      here + TagNamesOf(rows[1..])
  }

  /** The names of a devotional's tags, in order. */
  function NamesOf(tags: seq<Tag>): (r: seq<string>)
    ensures |r| == |tags|
    ensures forall i :: 0 <= i < |tags| ==> r[i] == tags[i].name
  {
    seq(|tags|, i requires 0 <= i < |tags| => tags[i].name)
  }

  /** Some loaded devotional carries a tag called `name`. */
  predicate HasTagNamed(rows: seq<DevotionalWithTags>, name: string)
  {
    exists i, t :: 0 <= i < |rows| && t in rows[i].tags && t.name == name
  }

  /** allTags: the distinct tag names, sorted. */
  function AllTags(rows: seq<DevotionalWithTags>): seq<string>
  {
    Sort(Dedup(TagNamesOf(rows)), LexLe)
  }

  /** allTags is sorted ascending, has no duplicates, and holds exactly the
      names of the tags on the loaded devotionals. */
  lemma {:induction false} AllTagsSpec(rows: seq<DevotionalWithTags>)
    ensures Sorted(AllTags(rows), LexLe)
    ensures NoDuplicates(AllTags(rows))
    ensures forall name :: name in AllTags(rows) <==> HasTagNamed(rows, name)
  {
    var names := Dedup(TagNamesOf(rows));
    LexLeTotalPreorder();
    SortSorted(names, LexLe);
    PermutationNoDuplicates(names, Sort(names, LexLe));
    SortMembers(names, LexLe);
  }

  /** The text test: the lower-cased title or author contains the
      lower-cased term (excerpt and content are not searched). */
  predicate MatchesSearch(d: DevotionalWithTags, term: string)
  {
    Contains(ToLower(d.devotional.title), ToLower(term))
    || Contains(ToLower(d.devotional.author), ToLower(term))
  }

  /** The tag test: no selection (an empty name is falsy too), or a tag
      with exactly the selected name. */
  predicate MatchesTag(d: DevotionalWithTags, selected: Option<string>)
  {
    selected.None? || selected.value == "" || exists t :: t in d.tags && t.name == selected.value
  }

  function Shown(term: string, selected: Option<string>): DevotionalWithTags -> bool
  {
    (d: DevotionalWithTags) => MatchesSearch(d, term) && MatchesTag(d, selected)
  }

  /** filteredDevotionals. */
  function FilteredDevotionals(rows: seq<DevotionalWithTags>, term: string, selected: Option<string>): seq<DevotionalWithTags>
  {
    Filter(rows, Shown(term, selected))
  }

  /** The filtered list keeps, in order, exactly the devotionals that pass
      both tests. */
  lemma {:induction false} FilteredSpec(rows: seq<DevotionalWithTags>, term: string, selected: Option<string>)
    ensures IsSubsequence(FilteredDevotionals(rows, term, selected), rows)
    ensures forall d :: d in FilteredDevotionals(rows, term, selected) <==>
      d in rows && MatchesSearch(d, term) && MatchesTag(d, selected)
  {
    FilterIsSubsequence(rows, Shown(term, selected));
  }

  /** An empty term and no selected tag show every devotional. */
  lemma {:induction false} NoFilterShowsAll(rows: seq<DevotionalWithTags>)
    ensures FilteredDevotionals(rows, "", None) == rows
  {
    forall d | d in rows ensures Shown("", None)(d) {
      ContainsEmpty(ToLower(d.devotional.title));
    }
    FilterAll(rows, Shown("", None));
  }

  function IdIsNot(id: Id): DevotionalWithTags -> bool
  {
    (d: DevotionalWithTags) => d.devotional.id != id
  }

  /** `prev.filter(d => d.id !== id)`. */
  function WithoutId(rows: seq<DevotionalWithTags>, id: Id): seq<DevotionalWithTags>
  {
    Filter(rows, IdIsNot(id))
  }

  /** After removal no entry has the id; the others stay, in order. */
  lemma {:induction false} WithoutIdSpec(rows: seq<DevotionalWithTags>, id: Id)
    ensures forall d :: d in WithoutId(rows, id) ==> d.devotional.id != id
    ensures forall d :: d in rows && d.devotional.id != id ==> d in WithoutId(rows, id)
    ensures IsSubsequence(WithoutId(rows, id), rows)
  {
    FilterIsSubsequence(rows, IdIsNot(id));
  }

  /** The list after the load effect: the author's devotionals when there is
      a non-empty user id, the current list otherwise. */
  function Loaded(db: Tables, userId: Option<string>, queryFails: bool, current: seq<DevotionalWithTags>)
    : seq<DevotionalWithTags>
  {
    if Given(userId) then GetDevotionalsByAuthor(db, userId.value, queryFails) else current
  }

  /** The page's state. */
  class Manager {
    var searchTerm: string
    var selectedTag: Option<string>
    var allDevotionals: seq<DevotionalWithTags>
    var loading: bool
    var deleteModalOpen: bool
    var devotionalToDelete: Option<DevotionalWithTags>
    var deleting: bool

    constructor ()
      ensures searchTerm == "" && selectedTag == None && allDevotionals == []
      ensures loading && !deleteModalOpen && devotionalToDelete == None && !deleting
    {
      searchTerm := "";
      selectedTag := None;
      allDevotionals := [];
      loading := true;
      deleteModalOpen := false;
      devotionalToDelete := None;
      deleting := false;
    }

    /** The load effect: the signed-in author's devotionals, when there is
        a non-empty user id; loading ends either way. */
    method Load(db: Tables, userId: Option<string>, queryFails: bool)
      modifies this
      ensures allDevotionals == Loaded(db, userId, queryFails, old(allDevotionals))
      ensures !loading
      ensures searchTerm == old(searchTerm) && selectedTag == old(selectedTag)
      ensures deleteModalOpen == old(deleteModalOpen) && devotionalToDelete == old(devotionalToDelete)
      ensures deleting == old(deleting)
    {
      loading := false;
      allDevotionals := Loaded(db, userId, queryFails, allDevotionals);
    }

    /** A tag button: selects the tag, or clears the selection when that
        tag was already selected. */
    method ClickTag(tag: string)
      modifies this
      ensures selectedTag == (if old(selectedTag) == Some(tag) then None else Some(tag))
      ensures searchTerm == old(searchTerm) && allDevotionals == old(allDevotionals)
      ensures loading == old(loading) && deleteModalOpen == old(deleteModalOpen)
      ensures devotionalToDelete == old(devotionalToDelete) && deleting == old(deleting)
    {
      selectedTag := if selectedTag == Some(tag) then None else Some(tag);
    }

    /** "Todas as tags". */
    method ClearTag()
      modifies this
      ensures selectedTag == None
      ensures searchTerm == old(searchTerm) && allDevotionals == old(allDevotionals)
      ensures loading == old(loading) && deleteModalOpen == old(deleteModalOpen)
      ensures devotionalToDelete == old(devotionalToDelete) && deleting == old(deleting)
    {
      selectedTag := None;
    }

    /** The trash button: remembers the devotional and opens the dialog. */
    method DeleteClick(d: DevotionalWithTags)
      modifies this
      ensures devotionalToDelete == Some(d) && deleteModalOpen
      ensures searchTerm == old(searchTerm) && selectedTag == old(selectedTag)
      ensures allDevotionals == old(allDevotionals) && loading == old(loading) && deleting == old(deleting)
    {
      devotionalToDelete := Some(d);
      deleteModalOpen := true;
    }

    /** handleConfirmDelete: deleteDevotional on the chosen devotional; on
        success it leaves the list and the dialog closes; on failure, or
        with nothing chosen, the list stays as it was. */
    method ConfirmDelete(store: Store, deleteFails: bool)
      requires store.Valid()
      modifies this, store
      ensures store.Valid()
      ensures old(devotionalToDelete).None? ==>
        allDevotionals == old(allDevotionals) && deleteModalOpen == old(deleteModalOpen)
        && devotionalToDelete == None && deleting == old(deleting) && unchanged(store)
      ensures old(devotionalToDelete).Some? ==>
        store.links == UnlinkAll(old(store.links), old(devotionalToDelete).value.devotional.id)
        && store.tags == old(store.tags)
      ensures old(devotionalToDelete).Some? && deleteFails ==>
        allDevotionals == old(allDevotionals) && deleteModalOpen == old(deleteModalOpen)
        && devotionalToDelete == old(devotionalToDelete) && !deleting
        && store.devotionals == old(store.devotionals)
      ensures old(devotionalToDelete).Some? && !deleteFails ==>
        allDevotionals == WithoutId(old(allDevotionals), old(devotionalToDelete).value.devotional.id)
        && !deleteModalOpen && devotionalToDelete == None && !deleting
        && store.devotionals == DeleteRows(old(store.devotionals), old(devotionalToDelete).value.devotional.id)
      ensures searchTerm == old(searchTerm) && selectedTag == old(selectedTag) && loading == old(loading)
    {
      if devotionalToDelete.None? {
        return;
      }
      deleting := true;
      var id := devotionalToDelete.value.devotional.id;
      ghost var fields := (allDevotionals, deleteModalOpen, devotionalToDelete, searchTerm, selectedTag, loading);
      var result := store.Delete(id, deleteFails);
      assert (allDevotionals, deleteModalOpen, devotionalToDelete, searchTerm, selectedTag, loading) == fields;
      var listed, open, chosen := allDevotionals, deleteModalOpen, devotionalToDelete;
      if result.Ok? {
        listed, open, chosen := WithoutId(allDevotionals, id), false, None;
      }
      allDevotionals, deleteModalOpen, devotionalToDelete, deleting := listed, open, chosen, false;
    }

    /** handleCancelDelete. */
    method CancelDelete()
      modifies this
      ensures !deleteModalOpen && devotionalToDelete == None
      ensures searchTerm == old(searchTerm) && selectedTag == old(selectedTag)
      ensures allDevotionals == old(allDevotionals) && loading == old(loading) && deleting == old(deleting)
    {
      deleteModalOpen := false;
      devotionalToDelete := None;
    }
  }
}
