/** The content repository (`src/lib/supabase/queries.ts`). Each operation
    receives the store's response to the query it issues and never fails:
    a store error becomes `[]` for list queries and `None` (`null`) for
    single lookups; otherwise every row is flattened into its view shape. */
module Queries {
  import opened Wrappers
  import opened ContentTypes
  import opened TagJoin

  /** The shared shape of the list queries: error to `[]`, rows flattened in order. */
  function ListOrEmpty<E>(response: Result<seq<Joined<E>>, StoreError>): (r: seq<WithTags<E>>)
    ensures response.Failure? ==> r == []
    ensures response.Success? ==> |r| == |response.value|
    ensures response.Success? ==> forall i :: 0 <= i < |r| ==>
              r[i].entity == response.value[i].entity && r[i] == Flatten(response.value[i])
  {
    match response
    case Failure(_) => []
    case Success(rows) => FlattenAll(rows)
  }

  /** The shared shape of the `.single()` lookups: error to `None`. */
  function OneOrNone<E>(response: Result<Joined<E>, StoreError>): (r: Option<WithTags<E>>)
    ensures r.None? <==> response.Failure?
    ensures r.Some? ==> r.value.entity == response.value.entity && r.value == Flatten(response.value)
  {
    match response
    case Failure(_) => None
    case Success(row) => Some(Flatten(row))
  }

  /** `getPublishedProjects` */
  function GetPublishedProjects(response: Result<seq<Joined<Project>>, StoreError>): (r: seq<WithTags<Project>>)
    ensures response.Failure? ==> r == []
    ensures response.Success? ==> |r| == |response.value|
    ensures response.Success? ==> forall i :: 0 <= i < |r| ==> r[i] == Flatten(response.value[i])
  {
    ListOrEmpty(response)
  }

  /** `getProjectBySlug` */
  function GetProjectBySlug(response: Result<Joined<Project>, StoreError>): (r: Option<WithTags<Project>>)
    ensures r.None? <==> response.Failure?
    ensures r.Some? ==> r.value == Flatten(response.value)
  {
    OneOrNone(response)
  }

  /** `getPublishedBlogPosts` */
  function GetPublishedBlogPosts(response: Result<seq<Joined<BlogPost>>, StoreError>): (r: seq<WithTags<BlogPost>>)
    ensures response.Failure? ==> r == []
    ensures response.Success? ==> |r| == |response.value|
    ensures response.Success? ==> forall i :: 0 <= i < |r| ==> r[i] == Flatten(response.value[i])
  {
    ListOrEmpty(response)
  }

  /** `getBlogPostBySlug` */
  function GetBlogPostBySlug(response: Result<Joined<BlogPost>, StoreError>): (r: Option<WithTags<BlogPost>>)
    ensures r.None? <==> response.Failure?
    ensures r.Some? ==> r.value == Flatten(response.value)
  {
    OneOrNone(response)
  }

  /** `getAllTags`: the tag rows as returned, or `[]` on error. */
  function GetAllTags(response: Result<seq<Tag>, StoreError>): (r: seq<Tag>)
    ensures response.Failure? ==> r == []
    ensures response.Success? ==> r == response.value
  {
    match response
    case Failure(_) => []
    case Success(tags) => tags
  }

  /** `getFeaturedProjects` */
  function GetFeaturedProjects(response: Result<seq<Joined<Project>>, StoreError>): (r: seq<WithTags<Project>>)
    ensures response.Failure? ==> r == []
    ensures response.Success? ==> |r| == |response.value|
    ensures response.Success? ==> forall i :: 0 <= i < |r| ==> r[i] == Flatten(response.value[i])
  {
    ListOrEmpty(response)
  }

  /** The failure policy across the repository: whatever the store error,
      every list query yields `[]` and every slug lookup yields `None`. */
  lemma StoreErrorsBecomeNoContent(e: StoreError)
    ensures GetPublishedProjects(Failure(e)) == []
    ensures GetPublishedBlogPosts(Failure(e)) == []
    ensures GetFeaturedProjects(Failure(e)) == []
    ensures GetAllTags(Failure(e)) == []
    ensures GetProjectBySlug(Failure(e)) == None
    ensures GetBlogPostBySlug(Failure(e)) == None
  {
  }
}
