/** Sitemap assembly (`src/app/sitemap.ts`): the five static pages, then
    one entry per published blog post as the repository returns them.
    `now` stands for the time the sitemap is built; the change-frequency and
    priority constants are not modelled. */
module Sitemap {
  import opened Wrappers
  import opened ContentTypes
  import opened TagJoin
  import opened Queries
  import opened StoreSpec
  import Seqs

  /** Paths of the static pages, in sitemap order; the first is the home page. */
  const StaticPaths: seq<string> := ["", "/about", "/projects", "/blog", "/contact"]
  const BlogPrefix := "/blog/"

  datatype Entry = Entry(url: string, lastModified: int)

  function StaticEntries(baseUrl: string, now: int): seq<Entry> {
    seq(|StaticPaths|, i requires 0 <= i < |StaticPaths| => Entry(baseUrl + StaticPaths[i], now))
  }

  /** A post's entry: its page under `/blog/`, last modified when it was
      published, or when it was created if it has no publication time. */
  function BlogEntry(baseUrl: string, post: WithTags<BlogPost>): Entry {
    Entry(baseUrl + BlogPrefix + post.entity.slug, post.entity.publishedAt.GetOr(post.entity.createdAt))
  }

  /** `sitemap`, given the store's answer to the published-posts query. */
  function Sitemap(baseUrl: string, now: int, response: Result<seq<Joined<BlogPost>>, StoreError>): (r: seq<Entry>)
    ensures var posts := GetPublishedBlogPosts(response);
            |r| == |StaticPaths| + |posts|
    ensures |r| >= 5
    ensures r[0] == Entry(baseUrl, now)
    ensures r[1] == Entry(baseUrl + "/about", now)
    ensures r[2] == Entry(baseUrl + "/projects", now)
    ensures r[3] == Entry(baseUrl + "/blog", now)
    ensures r[4] == Entry(baseUrl + "/contact", now)
    ensures var posts := GetPublishedBlogPosts(response);
            forall i :: 0 <= i < |posts| ==>
              && r[5 + i].url == baseUrl + "/blog/" + posts[i].entity.slug
              && (posts[i].entity.publishedAt.Some? ==> r[5 + i].lastModified == posts[i].entity.publishedAt.value)
              && (posts[i].entity.publishedAt.None? ==> r[5 + i].lastModified == posts[i].entity.createdAt)
    ensures response.Failure? ==> |r| == 5
  {
    var posts := GetPublishedBlogPosts(response);
    StaticEntries(baseUrl, now)
    + seq(|posts|, i requires 0 <= i < |posts| => BlogEntry(baseUrl, posts[i]))
  }

  /** The post slug a sitemap URL points at: the rest of the URL after
      `baseUrl + "/blog/"`, or `None` for any other URL. */
  function SlugOfUrl(baseUrl: string, url: string): Option<string> {
    var prefix := baseUrl + BlogPrefix;
    if prefix <= url then Some(url[|prefix|..]) else None
  }

  /** No static path starts with the blog prefix. */
  lemma StaticPathNotUnderBlog(i: nat)
    requires i < |StaticPaths|
    ensures !(BlogPrefix <= StaticPaths[i])
  {
    assert BlogPrefix[1] == 'b' && BlogPrefix[5] == '/';
    assert "/about"[1] == 'a' && "/projects"[1] == 'p' && "/contact"[1] == 'c';
  }

  /** A common prefix does not change whether one string starts another. */
  lemma PrefixCancel(a: string, b: string, c: string)
    ensures a + b <= a + c <==> b <= c
  {
    if a + b <= a + c {
      assert (a + b)[|a|..] == b;
      assert (a + c)[|a|..] == c;
      assert c[..|b|] == (a + c)[|a|..|a| + |b|];
    }
    if b <= c {
      assert a + c == (a + b) + c[|b|..];
    }
  }

  /** Reading the slug back out of a sitemap gives `None` for the five
      static pages and the i-th post's slug for the i-th post entry; so the
      post entries are in post order, and posts with distinct slugs get
      distinct URLs. */
  lemma {:induction false} SitemapUrlsDecode(baseUrl: string, now: int, response: Result<seq<Joined<BlogPost>>, StoreError>)
    ensures var r := Sitemap(baseUrl, now, response);
            forall i :: 0 <= i < 5 ==> SlugOfUrl(baseUrl, r[i].url).None?
    ensures var r := Sitemap(baseUrl, now, response);
            var posts := GetPublishedBlogPosts(response);
            forall i :: 0 <= i < |posts| ==> SlugOfUrl(baseUrl, r[5 + i].url) == Some(posts[i].entity.slug)
  {
    var r := Sitemap(baseUrl, now, response);
    var posts := GetPublishedBlogPosts(response);
    var prefix := baseUrl + BlogPrefix;
    assert |prefix| == |baseUrl| + 6;
    forall i | 0 <= i < 5 ensures SlugOfUrl(baseUrl, r[i].url).None? {
      assert r[i].url == baseUrl + StaticPaths[i];
      StaticPathNotUnderBlog(i);
      PrefixCancel(baseUrl, BlogPrefix, StaticPaths[i]);
    }
    forall i | 0 <= i < |posts| ensures SlugOfUrl(baseUrl, r[5 + i].url) == Some(posts[i].entity.slug) {
      var url := r[5 + i].url;
      assert url == prefix + posts[i].entity.slug;
      assert prefix <= url;
      assert url[|prefix|..] == posts[i].entity.slug;
    }
  }

  /** When the post query fails the sitemap is exactly the static pages. */
  lemma StaticOnlyOnStoreError(baseUrl: string, now: int, e: StoreError)
    ensures Sitemap(baseUrl, now, Failure(e)) == StaticEntries(baseUrl, now)
  {
  }

  /** The post entries: the sitemap after its static pages. */
  function PostEntries(r: seq<Entry>): seq<Entry>
    requires |r| >= |StaticPaths|
  {
    r[|StaticPaths|..]
  }

  /** The k-th post entry is the page of the k-th post. */
  lemma PostEntryAt(baseUrl: string, now: int, response: Result<seq<Joined<BlogPost>>, StoreError>, k: nat)
    requires k < |GetPublishedBlogPosts(response)|
    ensures var blog := PostEntries(Sitemap(baseUrl, now, response));
            k < |blog| && blog[k].url == baseUrl + BlogPrefix + GetPublishedBlogPosts(response)[k].entity.slug
  {
    var r := Sitemap(baseUrl, now, response);
    assert PostEntries(r)[k] == r[5 + k];
  }

  /** Under the store's ordering, the sitemap has as many post entries as
      the table has published posts, each at the URL of a published post's
      slug. */
  lemma SitemapUnderStoreSpec(baseUrl: string, now: int, table: seq<Joined<BlogPost>>)
    ensures var blog := PostEntries(Sitemap(baseUrl, now, Success(PublishedPostsQuery(table))));
            && |blog| == |Seqs.Filter(table, IsPublishedPost)|
            && forall i :: 0 <= i < |blog| ==>
                 exists row :: row in table && row.entity.published
                               && blog[i].url == baseUrl + BlogPrefix + row.entity.slug
  {
    var response := Success(PublishedPostsQuery(table));
    PublishedPostsUnderStoreSpec(table);
    PublishedPostsCompleteUnderStoreSpec(table);
    var posts := GetPublishedBlogPosts(response);
    var r := Sitemap(baseUrl, now, response);
    var blog := PostEntries(r);
    assert |blog| == |posts|;
    forall i | 0 <= i < |blog|
      ensures exists row :: row in table && row.entity.published
                            && blog[i].url == baseUrl + BlogPrefix + row.entity.slug
    {
      assert blog[i] == r[5 + i];
      var row :| row in table && posts[i] == Flatten(row);
      assert row.entity == posts[i].entity;
      assert blog[i].url == baseUrl + BlogPrefix + row.entity.slug;
    }
  }

  /** ... and every published post of the table has its page in the sitemap. */
  lemma SitemapCoversPublishedPosts(baseUrl: string, now: int, table: seq<Joined<BlogPost>>)
    ensures var blog := PostEntries(Sitemap(baseUrl, now, Success(PublishedPostsQuery(table))));
            forall row :: row in table && row.entity.published ==>
              exists i :: 0 <= i < |blog| && blog[i].url == baseUrl + BlogPrefix + row.entity.slug
  {
    var response := Success(PublishedPostsQuery(table));
    PublishedPostsCompleteUnderStoreSpec(table);
    var posts := GetPublishedBlogPosts(response);
    var blog := PostEntries(Sitemap(baseUrl, now, response));
    forall row | row in table && row.entity.published
      ensures exists i :: 0 <= i < |blog| && blog[i].url == baseUrl + BlogPrefix + row.entity.slug
    {
      var k :| 0 <= k < |posts| && posts[k] == Flatten(row);
      PostEntryAt(baseUrl, now, response, k);
    }
  }
}
