/** The tag flattening every join query applies to each row
    (`src/lib/supabase/queries.ts`): the entity's fields are kept and `tags`
    becomes the `tags` of each embedded join row, or `[]` when the join array
    is null or absent. */
module TagJoin {
  import opened Wrappers
  import opened ContentTypes

  function Flatten<E>(row: Joined<E>): (r: WithTags<E>)
    ensures r.entity == row.entity
    ensures row.links.None? ==> r.tags == []
    ensures row.links.Some? ==> |r.tags| == |row.links.value|
    ensures row.links.Some? ==> forall i :: 0 <= i < |r.tags| ==> r.tags[i] == row.links.value[i].tags
  {
    match row.links
    case None => WithTags(row.entity, [])
    case Some(links) => WithTags(row.entity, seq(|links|, i requires 0 <= i < |links| => links[i].tags))
  }

  /** Join rows that reference the given tags, in order. */
  function LinksOf(tags: seq<Tag>): seq<TagLink> {
    seq(|tags|, i requires 0 <= i < |tags| => TagLink(tags[i]))
  }

  /** Flattening loses nothing but the join rows' wrapping: rebuilding the
      join rows from the resolved tags gives back the row, and flattening a
      rebuilt row gives back the view. */
  lemma FlattenRoundTrip<E>(row: Joined<E>, view: WithTags<E>)
    ensures row.links.Some? ==> Joined(Flatten(row).entity, Some(LinksOf(Flatten(row).tags))) == row
    ensures Flatten(Joined(view.entity, Some(LinksOf(view.tags)))) == view
  {
    if row.links.Some? {
      assert LinksOf(Flatten(row).tags) == row.links.value;
    }
    assert Flatten(Joined(view.entity, Some(LinksOf(view.tags)))).tags == view.tags;
  }

  /** Flattening applied to every row, in order. */
  function FlattenAll<E>(rows: seq<Joined<E>>): (r: seq<WithTags<E>>)
    ensures |r| == |rows|
    ensures forall i :: 0 <= i < |rows| ==> r[i].entity == rows[i].entity
    ensures forall i :: 0 <= i < |rows| ==> r[i] == Flatten(rows[i])
  {
    seq(|rows|, i requires 0 <= i < |rows| => Flatten(rows[i]))
  }
}
