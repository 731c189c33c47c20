/** The records of the hosted store (src/lib/types.ts). Identifiers the store
    generates are naturals handed out by a counter; dates and timestamps are
    ordered keys (ISO-8601 strings compare in time order). */
module Types {
  import opened Wrappers

  type Id = nat
  type Timestamp = int

  datatype Role = USER | ADMIN

  /** A row of `users`; OAuth accounts have no password hash. */
  datatype User = User(
    id: string,
    name: string,
    email: string,
    passwordHash: Option<string>,
    role: Role,
    createdAt: Timestamp,
    updatedAt: Timestamp)

  datatype UserWithoutPassword = UserWithoutPassword(
    id: string,
    name: string,
    email: string,
    role: Role,
    createdAt: Timestamp,
    updatedAt: Timestamp)

  function WithoutPassword(u: User): UserWithoutPassword
  {
    UserWithoutPassword(u.id, u.name, u.email, u.role, u.createdAt, u.updatedAt)
  }

  /** A row of `devotionals`. */
  datatype Devotional = Devotional(
    id: Id,
    slug: string,
    title: string,
    excerpt: string,
    content: string,
    bibleVerse: string,
    bibleReference: string,
    author: string,
    authorId: Option<string>,
    date: Timestamp,
    featured: bool,
    published: bool,
    createdAt: Timestamp,
    updatedAt: Timestamp)

  /** A row of `tags`; `name` is the natural key. */
  datatype Tag = Tag(id: Id, name: string, color: Option<string>, createdAt: Timestamp)

  /** A row of the join table `devotional_tags`. */
  datatype DevotionalTag = DevotionalTag(devotionalId: Id, tagId: Id)

  datatype DevotionalWithTags = DevotionalWithTags(devotional: Devotional, tags: seq<Tag>)
}
