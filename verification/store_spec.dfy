/** What each repository query asks of the store, written out as a
    specification: keep the rows matching the `eq` filters, order them
    stably by the `order` column, then take at most `limit` rows. The store
    is trusted to answer this way; the lemmas below state what the
    repository then returns under that assumption.

    PostgreSQL sorts NULLs first in a descending order, so posts without a
    `published_at` come before all dated ones. */
module StoreSpec {
  import opened Wrappers
  import opened Seqs
  import opened Sorting
  import opened Strings
  import opened ContentTypes
  import opened TagJoin
  import opened Queries

  const FeaturedLimit := 3

  predicate IsPublishedProject(row: Joined<Project>) {
    row.entity.published
  }

  predicate IsFeaturedProject(row: Joined<Project>) {
    row.entity.published && row.entity.featured
  }

  predicate IsPublishedPost(row: Joined<BlogPost>) {
    row.entity.published
  }

  /** `created_at` descending. */
  predicate NewerProject(a: Joined<Project>, b: Joined<Project>) {
    a.entity.createdAt >= b.entity.createdAt
  }

  /** `published_at` descending, NULLs first. */
  predicate LaterPublished(a: Joined<BlogPost>, b: Joined<BlogPost>) {
    a.entity.publishedAt.None?
    || (b.entity.publishedAt.Some? && a.entity.publishedAt.value >= b.entity.publishedAt.value)
  }

  /** `name` ascending. */
  predicate NameNotAfter(a: Tag, b: Tag) {
    AtMost(a.name, b.name)
  }

  lemma OrdersAreTotalPreorders()
    ensures TotalPreorder(NewerProject)
    ensures TotalPreorder(LaterPublished)
    ensures TotalPreorder(NameNotAfter)
  {
    AtMostIsTotalPreorder();
  }

  /** `.single()`: the one row, or an error when there are none or several. */
  function Single<E>(rows: seq<Joined<E>>): (r: Result<Joined<E>, StoreError>)
    ensures r.Success? <==> |rows| == 1
    ensures r.Success? ==> r.value == rows[0]
  {
    if |rows| == 1 then Success(rows[0]) else Failure(StoreError("not exactly one row"))
  }

  /** `.eq('published', true).order('created_at', { ascending: false })` */
  function PublishedProjectsQuery(table: seq<Joined<Project>>): (r: seq<Joined<Project>>)
    ensures multiset(r) == multiset(Filter(table, IsPublishedProject))
    ensures Sorted(r, NewerProject)
  {
    OrdersAreTotalPreorders();
    InsertionSort(Filter(table, IsPublishedProject), NewerProject)
  }

  /** Published projects with the given slug. */
  function ProjectsWithSlug(table: seq<Joined<Project>>, slug: string): seq<Joined<Project>> {
    Filter(table, (row: Joined<Project>) => row.entity.slug == slug && row.entity.published)
  }

  /** `.eq('slug', slug).eq('published', true).single()` */
  function ProjectBySlugQuery(table: seq<Joined<Project>>, slug: string): (r: Result<Joined<Project>, StoreError>)
    ensures r.Success? <==> |ProjectsWithSlug(table, slug)| == 1
    ensures r.Success? ==> r.value in table && r.value.entity.slug == slug && r.value.entity.published
  {
    var rows := ProjectsWithSlug(table, slug);
    assert |rows| == 1 ==> rows[0] in rows;
    Single(rows)
  }

  /** `.eq('published', true).order('published_at', { ascending: false })` */
  function PublishedPostsQuery(table: seq<Joined<BlogPost>>): (r: seq<Joined<BlogPost>>)
    ensures multiset(r) == multiset(Filter(table, IsPublishedPost))
    ensures Sorted(r, LaterPublished)
  {
    OrdersAreTotalPreorders();
    InsertionSort(Filter(table, IsPublishedPost), LaterPublished)
  }

  /** Published posts with the given slug. */
  function PostsWithSlug(table: seq<Joined<BlogPost>>, slug: string): seq<Joined<BlogPost>> {
    Filter(table, (row: Joined<BlogPost>) => row.entity.slug == slug && row.entity.published)
  }

  /** `.eq('slug', slug).eq('published', true).single()` */
  function PostBySlugQuery(table: seq<Joined<BlogPost>>, slug: string): (r: Result<Joined<BlogPost>, StoreError>)
    ensures r.Success? <==> |PostsWithSlug(table, slug)| == 1
    ensures r.Success? ==> r.value in table && r.value.entity.slug == slug && r.value.entity.published
  {
    var rows := PostsWithSlug(table, slug);
    assert |rows| == 1 ==> rows[0] in rows;
    Single(rows)
  }

  /** `.order('name', { ascending: true })` */
  function AllTagsQuery(table: seq<Tag>): (r: seq<Tag>)
    ensures multiset(r) == multiset(table)
    ensures Sorted(r, NameNotAfter)
  {
    OrdersAreTotalPreorders();
    InsertionSort(table, NameNotAfter)
  }

  /** `.eq('featured', true).eq('published', true).order('created_at', { ascending: false }).limit(3)` */
  function FeaturedProjectsQuery(table: seq<Joined<Project>>): (r: seq<Joined<Project>>)
    ensures |r| == if |Filter(table, IsFeaturedProject)| < FeaturedLimit then |Filter(table, IsFeaturedProject)| else FeaturedLimit
    ensures Sorted(r, NewerProject)
    ensures multiset(r) <= multiset(Filter(table, IsFeaturedProject))
  {
    OrdersAreTotalPreorders();
    var sorted := InsertionSort(Filter(table, IsFeaturedProject), NewerProject);
    var r := Take(sorted, FeaturedLimit);
    assert forall i :: 0 <= i < |r| ==> r[i] == sorted[i];
    TakeIsSubMultiset(sorted, FeaturedLimit);
    r
  }

  /** Published projects: only published rows of the table, newest first,
      each with its own tags. */
  lemma PublishedProjectsUnderStoreSpec(table: seq<Joined<Project>>)
    ensures var r := GetPublishedProjects(Success(PublishedProjectsQuery(table)));
            && (forall i :: 0 <= i < |r| ==> r[i].entity.published)
            && (forall i :: 0 <= i < |r| ==> exists row :: row in table && r[i] == Flatten(row))
            && (forall i, j :: 0 <= i < j < |r| ==> r[i].entity.createdAt >= r[j].entity.createdAt)
  {
    var rows := PublishedProjectsQuery(table);
    var r := GetPublishedProjects(Success(rows));
    forall i | 0 <= i < |r|
      ensures r[i].entity.published
      ensures exists row :: row in table && r[i] == Flatten(row)
    {
      assert r[i] == Flatten(rows[i]);
      assert rows[i] in multiset(Filter(table, IsPublishedProject));
      assert IsPublishedProject(rows[i]);
    }
    forall i, j | 0 <= i < j < |r| ensures r[i].entity.createdAt >= r[j].entity.createdAt {
      assert NewerProject(rows[i], rows[j]);
    }
  }

  /** ... and none is missing: one entry per published row. */
  lemma PublishedProjectsCompleteUnderStoreSpec(table: seq<Joined<Project>>)
    ensures var r := GetPublishedProjects(Success(PublishedProjectsQuery(table)));
            && |r| == |Filter(table, IsPublishedProject)|
            && (forall row :: row in table && row.entity.published ==> Flatten(row) in r)
  {
    var rows := PublishedProjectsQuery(table);
    var r := GetPublishedProjects(Success(rows));
    assert |rows| == |Filter(table, IsPublishedProject)| by {
      assert |multiset(rows)| == |multiset(Filter(table, IsPublishedProject))|;
    }
    forall row | row in table && row.entity.published ensures Flatten(row) in r {
      assert IsPublishedProject(row);
      assert row in multiset(rows);
      var k :| 0 <= k < |rows| && rows[k] == row;
      assert r[k] == Flatten(row);
    }
  }

  /** The rows the featured query asks for: the published featured rows,
      newest first, cut to the limit. */
  lemma FeaturedRowsAreSortedPrefix(table: seq<Joined<Project>>)
    ensures TotalPreorder(NewerProject)
    ensures var sorted := InsertionSort(Filter(table, IsFeaturedProject), NewerProject);
            FeaturedProjectsQuery(table) == Take(sorted, FeaturedLimit)
  {
    OrdersAreTotalPreorders();
  }

  /** Featured projects: at most three, all published and featured, newest first. */
  lemma {:induction false} FeaturedProjectsUnderStoreSpec(table: seq<Joined<Project>>)
    ensures var r := GetFeaturedProjects(Success(FeaturedProjectsQuery(table)));
            var n := |Filter(table, IsFeaturedProject)|;
            && |r| == (if n < FeaturedLimit then n else FeaturedLimit)
            && (forall i :: 0 <= i < |r| ==> r[i].entity.published && r[i].entity.featured)
            && (forall i :: 0 <= i < |r| ==> exists row :: row in table && r[i] == Flatten(row))
            && (forall i, j :: 0 <= i < j < |r| ==> r[i].entity.createdAt >= r[j].entity.createdAt)
  {
    var rows := FeaturedProjectsQuery(table);
    var r := GetFeaturedProjects(Success(rows));
    forall i | 0 <= i < |rows|
      ensures rows[i].entity.published && rows[i].entity.featured
      ensures exists row :: row in table && r[i] == Flatten(row)
    {
      assert rows[i] in multiset(rows);
      assert rows[i] in multiset(Filter(table, IsFeaturedProject));
      assert IsFeaturedProject(rows[i]);
      assert r[i] == Flatten(rows[i]);
    }
    forall i, j | 0 <= i < j < |rows| ensures rows[i].entity.createdAt >= rows[j].entity.createdAt {
      assert NewerProject(rows[i], rows[j]);
    }
  }

  /** An element a prefix of a sorted sequence leaves out is no earlier in
      the order than the prefix's last element. */
  lemma TakeOfSortedOmits<T(!new)>(s: seq<T>, n: nat, x: T, le: (T, T) -> bool)
    requires Sorted(s, le) && x in s && n > 0
    ensures x in Take(s, n) || (|Take(s, n)| == n && le(Take(s, n)[n - 1], x))
  {
    var k :| 0 <= k < |s| && s[k] == x;
    if k < n {
      assert Take(s, n)[k] == x;
    } else {
      assert Take(s, n)[n - 1] == s[n - 1];
    }
  }

  /** A published featured row the featured query does not return is no
      newer than the last of the rows it does return. */
  lemma {:induction false} FeaturedRowsAreTheNewest(table: seq<Joined<Project>>, row: Joined<Project>)
    requires row in table && row.entity.published && row.entity.featured
    ensures var rows := FeaturedProjectsQuery(table);
            row in rows || (|rows| == FeaturedLimit && row.entity.createdAt <= rows[FeaturedLimit - 1].entity.createdAt)
  {
    FeaturedRowsAreSortedPrefix(table);
    var filtered := Filter(table, IsFeaturedProject);
    var sorted := InsertionSort(filtered, NewerProject);
    assert IsFeaturedProject(row);
    assert row in multiset(filtered);
    assert row in multiset(sorted);
    TakeOfSortedOmits(sorted, FeaturedLimit, row, NewerProject);
  }

  /** Featured projects are the newest: a published featured project that is
      not returned is no newer than the last of three returned ones. */
  lemma {:induction false} FeaturedProjectsAreTheNewest(table: seq<Joined<Project>>)
    ensures var r := GetFeaturedProjects(Success(FeaturedProjectsQuery(table)));
            forall row :: row in table && row.entity.published && row.entity.featured ==>
              Flatten(row) in r
              || (|r| == FeaturedLimit && row.entity.createdAt <= r[FeaturedLimit - 1].entity.createdAt)
  {
    var rows := FeaturedProjectsQuery(table);
    var r := GetFeaturedProjects(Success(rows));
    forall row | row in table && row.entity.published && row.entity.featured
      ensures Flatten(row) in r
              || (|r| == FeaturedLimit && row.entity.createdAt <= r[FeaturedLimit - 1].entity.createdAt)
    {
      FeaturedRowsAreTheNewest(table, row);
      if row in rows {
        var k :| 0 <= k < |rows| && rows[k] == row;
        assert r[k] == Flatten(row);
      } else {
        assert r[FeaturedLimit - 1].entity == rows[FeaturedLimit - 1].entity;
      }
    }
  }

  /** Project by slug: a result is the unique published project with that
      slug; there is none exactly when the count of such rows is not one. */
  lemma ProjectBySlugUnderStoreSpec(table: seq<Joined<Project>>, slug: string)
    ensures var r := GetProjectBySlug(ProjectBySlugQuery(table, slug));
            && (r.Some? <==> |ProjectsWithSlug(table, slug)| == 1)
            && (r.Some? ==> r.value.entity.slug == slug && r.value.entity.published)
            && (r.Some? ==> exists row :: row in table && r.value == Flatten(row))
  {
    var rows := ProjectsWithSlug(table, slug);
    if |rows| == 1 {
      assert rows[0] in rows;
    }
  }

  /** A slug whose rows are all unpublished is reported exactly as a slug
      that does not exist. */
  lemma UnpublishedProjectIsAbsent(table: seq<Joined<Project>>, slug: string)
    requires forall row :: row in table && row.entity.slug == slug ==> !row.entity.published
    ensures GetProjectBySlug(ProjectBySlugQuery(table, slug)) == None
  {
  }

  /** Published posts: only published rows of the table, each with its own tags. */
  lemma PublishedPostsUnderStoreSpec(table: seq<Joined<BlogPost>>)
    ensures var r := GetPublishedBlogPosts(Success(PublishedPostsQuery(table)));
            && (forall i :: 0 <= i < |r| ==> r[i].entity.published)
            && (forall i :: 0 <= i < |r| ==> exists row :: row in table && r[i] == Flatten(row))
  {
    var rows := PublishedPostsQuery(table);
    var r := GetPublishedBlogPosts(Success(rows));
    forall i | 0 <= i < |r|
      ensures r[i].entity.published
      ensures exists row :: row in table && r[i] == Flatten(row)
    {
      assert r[i] == Flatten(rows[i]);
      assert rows[i] in multiset(Filter(table, IsPublishedPost));
      assert IsPublishedPost(rows[i]);
    }
  }

  /** ... and none is missing: one entry per published row. */
  lemma PublishedPostsCompleteUnderStoreSpec(table: seq<Joined<BlogPost>>)
    ensures var r := GetPublishedBlogPosts(Success(PublishedPostsQuery(table)));
            && |r| == |Filter(table, IsPublishedPost)|
            && (forall row :: row in table && row.entity.published ==> Flatten(row) in r)
  {
    var rows := PublishedPostsQuery(table);
    var r := GetPublishedBlogPosts(Success(rows));
    assert |rows| == |Filter(table, IsPublishedPost)| by {
      assert |multiset(rows)| == |multiset(Filter(table, IsPublishedPost))|;
    }
    forall row | row in table && row.entity.published ensures Flatten(row) in r {
      assert IsPublishedPost(row);
      assert row in multiset(rows);
      var k :| 0 <= k < |rows| && rows[k] == row;
      assert r[k] == Flatten(row);
    }
  }

  /** Published posts come undated first, then by `published_at`, newest first. */
  lemma PublishedPostsOrderUnderStoreSpec(table: seq<Joined<BlogPost>>)
    ensures var r := GetPublishedBlogPosts(Success(PublishedPostsQuery(table)));
            && (forall i, j :: 0 <= i < j < |r| && r[j].entity.publishedAt.None? ==> r[i].entity.publishedAt.None?)
            && (forall i, j :: 0 <= i < j < |r| && r[i].entity.publishedAt.Some? && r[j].entity.publishedAt.Some? ==>
                  r[i].entity.publishedAt.value >= r[j].entity.publishedAt.value)
  {
    var rows := PublishedPostsQuery(table);
    forall i, j | 0 <= i < j < |rows| ensures LaterPublished(rows[i], rows[j]) {
    }
  }

  /** Post by slug: a result is the unique published post with that slug. */
  lemma PostBySlugUnderStoreSpec(table: seq<Joined<BlogPost>>, slug: string)
    ensures var r := GetBlogPostBySlug(PostBySlugQuery(table, slug));
            && (r.Some? <==> |PostsWithSlug(table, slug)| == 1)
            && (r.Some? ==> r.value.entity.slug == slug && r.value.entity.published)
            && (r.Some? ==> exists row :: row in table && r.value == Flatten(row))
  {
    var rows := PostsWithSlug(table, slug);
    if |rows| == 1 {
      assert rows[0] in rows;
    }
  }

  /** All tags: every tag row exactly as often as stored, in ascending name order. */
  lemma AllTagsUnderStoreSpec(table: seq<Tag>)
    ensures var r := Queries.GetAllTags(Success(AllTagsQuery(table)));
            && multiset(r) == multiset(table)
            && (forall i, j :: 0 <= i < j < |r| ==> !Less(r[j].name, r[i].name))
  {
    var r := AllTagsQuery(table);
    forall i, j | 0 <= i < j < |r| ensures !Less(r[j].name, r[i].name) {
      assert NameNotAfter(r[i], r[j]);
    }
  }
}
