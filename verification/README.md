# Content layer of a portfolio and blog site, in Dafny

This project models the logic that sits between the site's pages and its two
content sources:

- **The file-based blog loader** (`src/lib/mdx.ts`). It lists the `.mdx` files of
  the posts directory, derives each slug from the file name, applies the
  front-matter defaults, and sorts the posts newest first. It also looks a post
  up by slug and collects the distinct tags. The directory listing and the
  parsed front matter are inputs (module `Mdx`).
- **The content repository** (`src/lib/supabase/queries.ts`). It has six read
  queries against the remote store: published projects, project by slug,
  published posts, post by slug, all tags, and featured projects. Each row's
  embedded join array (`project_tags` / `post_tags`) is flattened into a
  `tags` list (module `TagJoin`). A store error becomes `[]` for a list query
  and `null` for a slug lookup (module `Queries`). The store's answer is an
  input of type `Result`. Each query asks the store for a filter, an order or a
  limit, as it needs. Module `StoreSpec` writes each request out as filter,
  then stable sort, then take. Its lemmas state what the repository returns when the store
  answers that way.
- **The in-memory project catalogue** (`src/lib/projects.ts`, module `Projects`):
  all projects, the featured ones, the ones of one category, and lookup by id.
- **The sitemap** (`src/app/sitemap.ts`, module `Sitemap`): five static pages,
  then one entry per published post.

The record types follow `src/lib/supabase/types.ts` (module `ContentTypes`).
Timestamps are integers. Nullable columns and optional fields are `Option`s.
The helper modules are `Seqs` (order-preserving filter, first match, take),
`Sorting` (a stable insertion sort over any total preorder, with its
stability proved) and `Strings` (suffix removal, the lexicographic order of a
plain `sort()`, and strictly increasing insertion).

Behaviour of the code worth knowing:

- Posts with no `published_at`: the post query orders by `published_at`
  descending and nothing else. In PostgreSQL, NULLs come first in a descending
  order. So undated posts come first. The `created_at` fallback is used for
  the date shown on the blog index and for the sitemap's `lastModified`. It
  is never used for the order.
- An unreadable `.mdx` file: `getAllPosts` does not catch a read or parse
  error, so the exception escapes the list call and `getAllTags`. The model
  returns `Failure(Unreadable(name))` for the first such file in listing order.
- Duplicate tag references: the flattening keeps the join rows as the store
  returns them. A tag referenced twice appears twice.

## Model

| member | source | states |
|---|---|---|
| `Mdx.ToPost` | src/lib/mdx.ts:32-40 | Each field defaults when it is missing or falsy. A missing or empty title becomes "Untitled", a missing or empty excerpt becomes "", missing tags become [], a missing or empty author becomes "Carlos Bello", and a missing date becomes `now`. Any other value is kept. The slug and the body pass through unchanged. Title and author are never empty. |
| `Mdx.ReloadRoundTrip` | src/lib/mdx.ts:32-40 | Write a post's fields out as front matter and load the document again: the same post comes back, whatever the time. |
| `Mdx.SlugRoundTrip` | src/lib/mdx.ts:27 | For a `.mdx` file name, the slug followed by ".mdx" is the file name. The slug is the name with only the trailing four characters removed. |
| `Mdx.FileNameRoundTrip` | src/lib/mdx.ts:51 | The file name looked up for a slug ends in ".mdx", and its slug is the original slug. |
| `Mdx.LoadAll` | src/lib/mdx.ts:26-41 | Reading succeeds exactly when every file is readable. On success there is one record per file, in order. On failure the error names the first unreadable file. |
| `Mdx.LoadsWhenAllReadable` | src/lib/mdx.ts:25-41 | Reading the `.mdx` files succeeds exactly when every `.mdx` entry of the directory is readable. Other files play no part. |
| `Mdx.SortNewestFirst` | src/lib/mdx.ts:44-46 | The result is a permutation of the input, with dates non-increasing. |
| `Mdx.GetAllPosts` | src/lib/mdx.ts:17-47 | A missing directory gives []. The call succeeds exactly when every `.mdx` entry is readable, and otherwise fails naming the first unreadable `.mdx` entry in listing order. It returns as many posts as there are `.mdx` entries, with dates non-increasing. |
| `Mdx.ListedAreSortedLoads` | src/lib/mdx.ts:24-46 | The listed posts are a permutation of the records of the `.mdx` files in directory order. |
| `Mdx.ListedPostsComeFromFiles` | src/lib/mdx.ts:24-41 | Every listed post is the record of some readable `.mdx` entry, and its slug followed by ".mdx" is that entry's name. No other file contributes. |
| `Mdx.FilesAreListed` | src/lib/mdx.ts:24-41 | Every `.mdx` entry of the directory yields a listed post. |
| `Mdx.GetAllPostsKeepsListingOrderOnTies` | src/lib/mdx.ts:44-46 | Posts sharing a date keep the directory order, because the sort is stable. |
| `Mdx.GetPostBySlug` | src/lib/mdx.ts:49-67 | A result keeps the requested slug. It is the file `slug + ".mdx"` loaded with the same defaults. A missing directory or missing file gives `None`. The first entry named `slug + ".mdx"` decides the result: its record when it is readable, `None` when reading or parsing it fails. |
| `Mdx.PresentAndReadableIsFound` | src/lib/mdx.ts:51-62 | With distinct names, a present and readable `slug + ".mdx"` is found, whatever the other files hold, and it is loaded with the defaults. |
| `Mdx.UnreadableIsNone` | src/lib/mdx.ts:64-66 | With distinct names, a `slug + ".mdx"` that cannot be read or parsed gives `None`. |
| `Mdx.ListedPostsFoundBySlug` | src/lib/mdx.ts:17-67 | If file names are distinct, looking up a listed post's slug returns exactly that post. |
| `Mdx.FoundBySlugIsListed` | src/lib/mdx.ts:17-67 | When every `.mdx` file is readable and the file `slug + ".mdx"` exists, the lookup finds a post, and that post appears in the full list. |
| `Mdx.AddTags` | src/lib/mdx.ts:74 | Adding one post's tags to a strictly increasing list keeps it strictly increasing. A string is in the result iff it was already in the list or is one of the tags. |
| `Mdx.CollectTags` | src/lib/mdx.ts:71-75 | The result is strictly increasing. A string is in it iff it was already collected or is a tag of some post. |
| `Mdx.GetAllTags` | src/lib/mdx.ts:69-78 | It fails exactly when listing fails. On success the result is strictly increasing (sorted, no duplicates), and a string is in it iff some listed post has it as a tag. |
| `Mdx.AllTagsIsTheSortedTagSet` | src/lib/mdx.ts:77 | The tag list equals every sorted, duplicate-free listing of the same tag set, so it does not depend on the order tags were added in. |
| `Seqs.Filter` | src/lib/mdx.ts:25 | It keeps exactly the elements that pass, each as many times as it occurs, and the result is no longer than the input. |
| `Seqs.FilterAppend` | src/lib/projects.ts:72 | Filtering a concatenation is concatenating the filtered parts, so the original order is kept. |
| `Seqs.Take` | src/lib/supabase/queries.ts:169 | `.limit(n)`: the result has min(n, length) rows and is a prefix of the input. |
| `Seqs.TakeIsSubMultiset` | src/lib/supabase/queries.ts:169 | A limited result holds no row more often than the input does. |
| `Seqs.FindFirst` | src/lib/projects.ts:82 | It returns the index of the first element that passes, or `None` iff no element passes. |
| `Sorting.InsertionSort` | src/lib/mdx.ts:44-46 | The result is a permutation of the input and is sorted under the preorder. |
| `Sorting.InsertionSortStable` | src/lib/mdx.ts:44-46 | For every tie class, the elements keep their input order. |
| `Strings.StripSuffix` | src/lib/mdx.ts:27 | If the string ends with the suffix, the result followed by the suffix is the string. Otherwise the string is unchanged. |
| `Strings.AddUnique` | src/lib/mdx.ts:74 | Adding a tag to a strictly increasing list keeps it strictly increasing. The elements become the old ones plus the tag. |
| `Strings.StrictlyIncreasingUnique` | src/lib/mdx.ts:77 | Two strictly increasing lists with the same elements are equal. |
| `Strings.AtMostIsTotalPreorder` | src/lib/supabase/queries.ts:140 | The code-point string order used for the store's `.order('name')` is total and transitive. |
| `TagJoin.Flatten` | src/lib/supabase/queries.ts:29-32 | The entity fields are unchanged. A null or absent join array gives `tags = []`. With N join rows, `tags` has N entries, and entry i is row i's `tags`. |
| `TagJoin.FlattenRoundTrip` | src/lib/supabase/queries.ts:31 | Rebuilding the join rows from the resolved tags gives back the row, and flattening the rebuilt row gives back the view. |
| `TagJoin.FlattenAll` | src/lib/supabase/queries.ts:92-95 | One view per row, in the same order, each with the same entity. |
| `Queries.ListOrEmpty` | src/lib/supabase/queries.ts:23-32 | A store error gives []. Otherwise there is one flattened row per store row, with the same length and order. |
| `Queries.OneOrNone` | src/lib/supabase/queries.ts:57-65 | The result is `None` exactly when the store reports an error. Otherwise it is the flattened row. |
| `Queries.GetPublishedProjects` | src/lib/supabase/queries.ts:7-33 | A store error gives []. Otherwise the result is the store's rows, flattened, with the same length and order. |
| `Queries.GetProjectBySlug` | src/lib/supabase/queries.ts:38-66 | A store error, including `.single()` not finding exactly one row, gives `None`. Otherwise the result is the flattened row. |
| `Queries.GetPublishedBlogPosts` | src/lib/supabase/queries.ts:71-96 | A store error gives []. Otherwise the result is the store's rows, flattened, with the same length and order. |
| `Queries.GetBlogPostBySlug` | src/lib/supabase/queries.ts:101-129 | A store error gives `None`. Otherwise the result is the flattened row. |
| `Queries.GetAllTags` | src/lib/supabase/queries.ts:134-148 | A store error gives []. Otherwise the tag rows are returned as the store gave them. |
| `Queries.GetFeaturedProjects` | src/lib/supabase/queries.ts:153-180 | A store error gives []. Otherwise the result is the store's rows, flattened, with the same length and order. |
| `Queries.StoreErrorsBecomeNoContent` | src/lib/supabase/queries.ts:7-180 | For any store error, all four list queries give [] and both slug lookups give `None`. |
| `StoreSpec.Single` | src/lib/supabase/queries.ts:55 | `.single()` succeeds iff there is exactly one row, and then returns that row. |
| `StoreSpec.PublishedProjectsQuery` | src/lib/supabase/queries.ts:20-21 | The requested rows are exactly the published rows of the table, each as often as stored, ordered by `created_at` descending. |
| `StoreSpec.ProjectBySlugQuery` | src/lib/supabase/queries.ts:53-55 | `.single()` succeeds iff exactly one published row has the slug. The row it returns is in the table, has that slug and is published. |
| `StoreSpec.PublishedPostsQuery` | src/lib/supabase/queries.ts:84-85 | The requested rows are exactly the published post rows, each as often as stored, ordered by `published_at` descending with NULLs first. |
| `StoreSpec.PostBySlugQuery` | src/lib/supabase/queries.ts:116-118 | `.single()` succeeds iff exactly one published post row has the slug. The row it returns is in the table, has that slug and is published. |
| `StoreSpec.AllTagsQuery` | src/lib/supabase/queries.ts:139-140 | Every tag row comes back as often as stored, ordered by name ascending. |
| `StoreSpec.FeaturedProjectsQuery` | src/lib/supabase/queries.ts:166-169 | There are min(3, number of published featured rows) rows, ordered by `created_at` descending. Every row is a published featured row of the table, and none appears more often than stored. |
| `StoreSpec.PublishedProjectsUnderStoreSpec` | src/lib/supabase/queries.ts:20-21 | Under the store-spec assumption, every returned project is published and comes from a table row with its own tags, and `created_at` is non-increasing. |
| `StoreSpec.PublishedProjectsCompleteUnderStoreSpec` | src/lib/supabase/queries.ts:20 | Under the store-spec assumption, there is one result per published row, and every published row appears. |
| `StoreSpec.FeaturedProjectsUnderStoreSpec` | src/lib/supabase/queries.ts:166-169 | Under the store-spec assumption, the result has min(3, number of published featured rows) entries. All are published and featured. Each is the flattened form of a table row. They are ordered by `created_at` descending. |
| `StoreSpec.FeaturedProjectsAreTheNewest` | src/lib/supabase/queries.ts:168-169 | Every published featured row is returned, unless three rows were returned and it is no newer than the third. |
| `StoreSpec.ProjectBySlugUnderStoreSpec` | src/lib/supabase/queries.ts:53-55 | A project is found iff exactly one published row has the slug. The result has the requested slug, is published, and comes from a table row. |
| `StoreSpec.UnpublishedProjectIsAbsent` | src/lib/supabase/queries.ts:53-60 | If every row with the slug is unpublished, the answer is `None`, the same as for a slug that does not exist. |
| `StoreSpec.PublishedPostsUnderStoreSpec` | src/lib/supabase/queries.ts:84 | Under the store-spec assumption, every returned post is published and comes from a table row with its own tags. |
| `StoreSpec.PublishedPostsCompleteUnderStoreSpec` | src/lib/supabase/queries.ts:84 | Under the store-spec assumption, there is one result per published post row, and every published post appears. |
| `StoreSpec.PublishedPostsOrderUnderStoreSpec` | src/lib/supabase/queries.ts:85 | Undated posts come first. Dated posts follow, with `published_at` non-increasing. |
| `StoreSpec.PostBySlugUnderStoreSpec` | src/lib/supabase/queries.ts:116-118 | A post is found iff exactly one published row has the slug. The result has that slug, is published, and comes from a table row. |
| `StoreSpec.AllTagsUnderStoreSpec` | src/lib/supabase/queries.ts:139-140 | Under the store-spec assumption, every stored tag is returned as often as it is stored, ordered by name ascending. |
| `Projects.GetProjects` | src/lib/projects.ts:67-69 | The whole catalogue, unchanged and in order. |
| `Projects.GetFeaturedProjects` | src/lib/projects.ts:71-73 | A project is returned iff it is in the catalogue and `featured` is true. It appears as often as in the catalogue. `featured` absent or false is excluded. |
| `Projects.GetProjectsByCategory` | src/lib/projects.ts:75-79 | A project is returned iff it is in the catalogue with that category. It appears as often as in the catalogue. |
| `Projects.GetProjectById` | src/lib/projects.ts:81-83 | The result is `None` iff no project has the id. Otherwise it is the project at the first index with that id. |
| `Projects.FeaturedPartition` | src/lib/projects.ts:67-73 | The featured projects and the rest together form exactly the whole catalogue `getProjects` returns. |
| `Projects.FeaturedKeepsOrder` | src/lib/projects.ts:72 | The featured projects keep catalogue order: the featured projects of a concatenation are the concatenation of each part's featured projects. |
| `Projects.ByCategoryKeepsOrder` | src/lib/projects.ts:78 | The category query keeps catalogue order in the same sense. |
| `Projects.ByCategoryIdempotent` | src/lib/projects.ts:78 | Running the category query on its own result changes nothing. |
| `Projects.LookupFindsEachProject` | src/lib/projects.ts:81-83 | If ids are distinct, looking up each catalogue project's id returns that project. |
| `Projects.CatalogueFeatured` | src/lib/projects.ts:19-65 | The shipped catalogue has three projects. The first two are the featured ones. |
| `Projects.CatalogueWebProjects` | src/lib/projects.ts:19-65 | The shipped catalogue's web projects are its first two. |
| `Projects.CatalogueToolAndMobileProjects` | src/lib/projects.ts:19-65 | The shipped catalogue has one tool, the last project, and no mobile project. |
| `Projects.CatalogueLookup` | src/lib/projects.ts:19-65 | "project-3" finds the third project, and "project-4" finds nothing. |
| `Sitemap.Sitemap` | src/app/sitemap.ts:5-52 | The length is 5 plus the number of posts. The static entries come first, in this order: the base URL, then `/about`, `/projects`, `/blog` and `/contact` under it. Entry 5+i is at `baseUrl + "/blog/" + slug` of post i. Its `lastModified` is `published_at`, or `created_at` when `published_at` is null. A failed post query leaves exactly the 5 static entries. |
| `Sitemap.SitemapUrlsDecode` | src/app/sitemap.ts:44-51 | Reading a slug back from each URL gives none for the static pages, and the i-th post's slug for entry 5+i. So post order is kept, and distinct slugs give distinct URLs. |
| `Sitemap.StaticOnlyOnStoreError` | src/app/sitemap.ts:43-51 | When the post query fails, the sitemap is the static entries alone. |
| `Sitemap.SitemapUnderStoreSpec` | src/app/sitemap.ts:43-51 | Under the store-spec assumption, there are as many post entries as published post rows. Each is at the URL of a published post's slug. |
| `Sitemap.SitemapCoversPublishedPosts` | src/app/sitemap.ts:43-51 | Under the store-spec assumption, every published post row of the table has an entry at its URL. |

## Left out

- File-system calls (`existsSync`, `readdirSync`, `readFileSync`) and front-matter parsing are inputs. The directory is `None` when it does not exist. Each entry carries its parsed document, or `None` when reading or parsing fails.
- Front-matter values of an unexpected type (a numeric title, a single string for `tags`) are not modelled. Each field has one type. An empty-string date is folded into "absent", since dates are timestamps.
- Date parsing, `toISOString` and invalid dates (NaN) are left out. Dates are integer timestamps, and one `now` stands for every `new Date()` evaluated during a call.
- Mdx.GetAllPosts: a posts path that exists but cannot be listed (a regular file, or a directory without read permission) is not representable. The source then throws from `readdirSync`, in `getAllPosts` and in `getAllTags`. The model's directory is either missing or a listing.
- Mdx.GetPostBySlug: `path.join` normalisation is not modelled, so a slug containing `/` or `..` is not resolved against other directories. The file name `slug + ".mdx"` is looked up literally among the directory entries.
- Mdx.GetAllTags: orders strings by character code point. A plain JavaScript `sort()` compares UTF-16 code units. The two orders differ only for characters outside the Basic Multilingual Plane.
- StoreSpec.AllTagsQuery: the store's `name` collation is taken to be code-point order, and its sorts are taken to be stable. PostgreSQL guarantees neither. Like the rest of the store's filter, order and limit, this is an assumption, not verified behaviour.
- TagJoin.Flatten: at run time the spread also copies the raw join array into the result object. The declared view types do not list it, and the model drops it.
- Supabase client construction (`server.ts`, `client.ts`), the `index.ts` re-exports, and the query builder's wire protocol are left out.
- `storage.ts` (image upload and delete, public URLs) is left out: it is network I/O and uses the clock for file names.
- `console.error` logging and the async/Promise structure are left out. Each call is a pure function of its inputs.
- The pages and components (`page.tsx` files, `FeaturedProjects.tsx`, `Header.tsx`, `Footer.tsx`, `layout.tsx`, `mdx-components.tsx`) and the contact-form action are presentation and are left out.
- The site configuration in `config.ts` is left out. The sitemap's base URL is a parameter.
- The sitemap's `changeFrequency` strings and floating-point `priority` values are left out. They are constants that no logic depends on.
