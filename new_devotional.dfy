/** The new-devotional form (src/app/admin/novo-devocional/page.tsx): the
    duplicate-free tag editor, the form-validity test, and the save that
    posts the form to the devotionals route and resets it on success. */
module NewDevotional {
  import opened Wrappers
  import opened Collections
  import opened Text
  import opened Types
  import opened SupabaseDevotionals
  import opened DevotionalsRoute

  /** The `formData` state object, replaced as a whole by each setter. */
  datatype FormData = FormData(
    title: string,
    content: string,
    bibleVerse: string,
    bibleReference: string,
    excerpt: string,
    tags: seq<string>,
    author: string)

  /** The text inputs `handleInputChange` writes. */
  datatype Field = Title | Content | BibleVerse | BibleReference | Excerpt | Author

  function WithField(f: FormData, field: Field, value: string): FormData
  {
    match field
    case Title => f.(title := value)
    case Content => f.(content := value)
    case BibleVerse => f.(bibleVerse := value)
    case BibleReference => f.(bibleReference := value)
    case Excerpt => f.(excerpt := value)
    case Author => f.(author := value)
  }

  /** The fixed suggestion buttons. */
  const Suggestions: seq<string> :=
    ["paz", "amor", "f\U{E9}", "esperan\U{E7}a", "ora\U{E7}\U{E3}o", "perd\U{E3}o", "gratid\U{E3}o", "confian\U{E7}a"]

  /** The form after a successful save. */
  const ResetForm := FormData("", "", "", "", "", [], "Pastor Jo\U{E3}o Silva")

  /** isFormValid: the five text fields are filled; author and tags are not looked at. */
  predicate IsFormValid(f: FormData)
  {
    f.title != "" && f.content != "" && f.bibleVerse != "" && f.bibleReference != "" && f.excerpt != ""
  }

  /** The JSON body handleSave posts. */
  function SaveBody(f: FormData, userId: Option<string>): (b: PostBody)
    ensures RequiredPresent(b) <==> IsFormValid(f) && f.author != ""
    ensures b.tagNames == Some(f.tags) && b.authorId == userId
    ensures b.featured == Some(false) && b.published == Some(true)
  {
    PostBody(Some(f.title), Some(f.excerpt), Some(f.content), Some(f.bibleVerse), Some(f.bibleReference),
      Some(f.author), userId, Some(f.tags), Some(false), Some(true))
  }

  /** The stored row holds the form's texts, is not featured, is published,
      has the title's slug, and names the user as author only when there is
      a non-empty user id. */
  predicate RowOfForm(d: Devotional, f: FormData, userId: Option<string>)
  {
    && d.title == f.title && d.excerpt == f.excerpt && d.content == f.content
    && d.bibleVerse == f.bibleVerse && d.bibleReference == f.bibleReference && d.author == f.author
    && !d.featured && d.published && d.slug == Slug(f.title)
    && d.authorId == (if Given(userId) then userId else None)
  }

  /** The row createDevotional stores for a saved form. */
  lemma {:induction false} SavedRow(id: Id, f: FormData, userId: Option<string>, now: Timestamp)
    requires IsFormValid(f) && f.author != ""
    ensures RowOfForm(NewRow(id, PostInput(SaveBody(f, userId), now).value, now), f, userId)
  {
    var input := PostInput(SaveBody(f, userId), now).value;
    assert input.featured == Some(false) && input.published == Some(true);
  }

  /** The POST handleSave sends: the form's body to the devotionals route.
      A created row is the form's, appended to the table and linked to
      exactly the form's tags; an empty author is refused with 400, a failed
      insert answers 500, and either failure leaves the store alone. */
  method Submit(store: Store, f: FormData, userId: Option<string>, now: Timestamp, insertFails: bool)
    returns (resp: PostResponse)
    requires store.Valid() && IsFormValid(f)
    modifies store
    ensures store.Valid()
    ensures resp.Created? ==>
      && RowOfForm(resp.devotional, f, userId)
      && store.devotionals == old(store.devotionals) + [resp.devotional]
      && forall t :: t in TagsOf(store.Db(), resp.devotional.id) <==> t in store.tags && t.name in f.tags
    ensures resp.Failed? ==> unchanged(store)
    ensures f.author == "" ==> resp == Failed(400, RequiredMessage)
    ensures f.author != "" && resp.Failed? ==> resp == Failed(500, ServerErrorMessage)
  {
    ghost var id := store.nextId;
    resp := Post(store, SaveBody(f, userId), now, insertFails);
    if resp.Created? {
      SavedRow(id, f, userId, now);
    }
  }

  function Other(t: string): string -> bool
  {
    (x: string) => x != t
  }

  /** removeTag leaves out every copy of the tag and keeps the rest in order. */
  lemma {:induction false} RemoveTagSpec(tags: seq<string>, t: string)
    ensures t !in Filter(tags, Other(t))
    ensures forall x :: x in Filter(tags, Other(t)) <==> x in tags && x != t
    ensures IsSubsequence(Filter(tags, Other(t)), tags)
  {
    FilterIsSubsequence(tags, Other(t));
  }

  /** The form component's state. */
  class Editor {
    var form: FormData
    var newTag: string
    var isSaving: bool
    var saved: bool

    /** The tag list never holds the same name twice. */
    predicate Valid()
      reads this
    {
      NoDuplicates(form.tags)
    }

    /** The author starts as the signed-in user's name, or "Autor". */
    constructor (userName: Option<string>)
      ensures Valid()
      ensures form == FormData("", "", "", "", "", [], if Given(userName) then userName.value else "Autor")
      ensures newTag == "" && !isSaving && !saved
    {
      form := FormData("", "", "", "", "", [], if Given(userName) then userName.value else "Autor");
      newTag := "";
      isSaving := false;
      saved := false;
    }

    /** handleInputChange. */
    method InputChange(field: Field, value: string)
      requires Valid()
      modifies this
      ensures Valid()
      ensures form == WithField(old(form), field, value)
      ensures newTag == old(newTag) && isSaving == old(isSaving) && saved == old(saved)
    {
      form := WithField(form, field, value);
    }

    /** The tag input's `setNewTag`. */
    method TypeTag(value: string)
      modifies this
      ensures newTag == value
      ensures form == old(form) && isSaving == old(isSaving) && saved == old(saved)
    {
      newTag := value;
    }

    /** addTag: appends the trimmed text and clears the input, unless the
        text is blank or already a tag, in which case nothing changes. */
    method AddTag()
      requires Valid()
      modifies this
      ensures Valid()
      ensures Trim(old(newTag)) != "" && Trim(old(newTag)) !in old(form.tags) ==>
        form == old(form).(tags := old(form.tags) + [Trim(old(newTag))]) && newTag == ""
      ensures Trim(old(newTag)) == "" || Trim(old(newTag)) in old(form.tags) ==>
        form == old(form) && newTag == old(newTag)
      ensures isSaving == old(isSaving) && saved == old(saved)
    {
      var t := Trim(newTag);
      if t != "" && t !in form.tags {
        AppendFreshNoDuplicates(form.tags, t);
        form := form.(tags := form.tags + [t]);
        newTag := "";
      }
    }

    /** removeTag. */
    method RemoveTag(t: string)
      requires Valid()
      modifies this
      ensures Valid()
      ensures form == old(form).(tags := Filter(old(form.tags), Other(t)))
      ensures newTag == old(newTag) && isSaving == old(isSaving) && saved == old(saved)
    {
      FilterNoDuplicates(form.tags, Other(t));
      form := form.(tags := Filter(form.tags, Other(t)));
    }

    /** A suggestion button: adds its tag only when absent. */
    method Suggest(tag: string)
      requires Valid()
      modifies this
      ensures Valid()
      ensures form == (if tag in old(form.tags) then old(form) else old(form).(tags := old(form.tags) + [tag]))
      ensures newTag == old(newTag) && isSaving == old(isSaving) && saved == old(saved)
    {
      if tag !in form.tags {
        AppendFreshNoDuplicates(form.tags, tag);
        form := form.(tags := form.tags + [tag]);
      }
    }

    /** handleSave, enabled only on a valid form that is not saving: posts
        the form to the devotionals route. On success the form is reset
        and `saved` is set; on failure the form is kept and the alert
        carries the route's error. A valid form with an empty author is
        still refused by the route. */
    method HandleSave(store: Store, userId: Option<string>, now: Timestamp, insertFails: bool)
      returns (resp: PostResponse, alert: Option<string>)
      requires Valid() && store.Valid()
      requires IsFormValid(form) && !isSaving
      modifies this, store
      ensures Valid() && store.Valid()
      ensures resp.Created? ==> (form, saved, alert) == (ResetForm, true, None)
      ensures resp.Created? ==>
        && RowOfForm(resp.devotional, old(form), userId)
        && store.devotionals == old(store.devotionals) + [resp.devotional]
        && forall t :: t in TagsOf(store.Db(), resp.devotional.id) <==> t in store.tags && t.name in old(form).tags
      ensures resp.Failed? ==> (form, saved) == old((form, saved)) && unchanged(store)
      ensures resp.Failed? ==> alert == Some("Erro ao salvar devocional: " + resp.error)
      ensures old(form.author) == "" ==> resp == Failed(400, RequiredMessage)
      ensures old(form.author) != "" && resp.Failed? ==> resp == Failed(500, ServerErrorMessage)
      ensures (isSaving, newTag) == (false, old(newTag))
    {
      var f := form;
      isSaving := true;
      ghost var fields := (form, saved, newTag);
      resp := Submit(store, f, userId, now, insertFails);
      assert (form, saved, newTag) == fields;
      if resp.Created? {
        form, saved, alert, isSaving := ResetForm, true, None, false;
      } else {
        alert, isSaving := Some("Erro ao salvar devocional: " + resp.error), false;
      }
    }
  }
}
