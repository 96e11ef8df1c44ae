/** The records of the remote content store (`src/lib/supabase/types.ts`).
    Timestamps are integers; nullable columns are `Option`s. */
module ContentTypes {
  import opened Wrappers

  datatype Category = Web | Mobile | Tool | Other

  datatype Project = Project(
    id: string,
    title: string,
    slug: string,
    description: Option<string>,
    longDescription: Option<string>,
    imageUrl: Option<string>,
    tech: seq<string>,
    category: Option<Category>,
    githubUrl: Option<string>,
    demoUrl: Option<string>,
    websiteUrl: Option<string>,
    featured: bool,
    published: bool,
    sourcePath: Option<string>,
    lastSyncedAt: Option<int>,
    createdAt: int,
    updatedAt: int)

  datatype BlogPost = BlogPost(
    id: string,
    title: string,
    slug: string,
    content: string,
    excerpt: Option<string>,
    author: string,
    published: bool,
    publishedAt: Option<int>,
    sourcePath: Option<string>,
    lastSyncedAt: Option<int>,
    createdAt: int,
    updatedAt: int)

  datatype Tag = Tag(id: string, name: string, slug: string, createdAt: int)

  /** One row of a join table as embedded in a query result: `{ tags: Tag }`. */
  datatype TagLink = TagLink(tags: Tag)

  /** A store row of entity `E` with its embedded join rows
      (`project_tags` or `post_tags`), which may be `null` or absent. */
  datatype Joined<E> = Joined(entity: E, links: Option<seq<TagLink>>)

  /** The view shape handed to pages: the entity plus its resolved tags
      (`ProjectWithTags`, `BlogPostWithTags`). */
  datatype WithTags<E> = WithTags(entity: E, tags: seq<Tag>)

  /** An error reported by the store, including `.single()` finding zero or
      several rows. */
  datatype StoreError = StoreError(message: string)
}
