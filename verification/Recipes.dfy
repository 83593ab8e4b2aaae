/**
 The Recipes component's data logic (src/Recipes.js): which list it renders,
 and how the `updateQuery` callback of its "recipe created" subscription folds
 an event into the cached `ListRecipes` query result.
 */
module Recipes {
  import opened Wrappers
  import opened RecipeList

  /** The `__typename` the merge writes on the connection it builds. */
  const ConnectionTypename: string := "RecipeConnection"

  /** The `listRecipes` field: a `RecipeConnection` with its `items`. */
  datatype RecipeConnection = RecipeConnection(typename: string, items: seq<Recipe>)

  /**
   A `ListRecipes` query result. `listRecipes` is `null` until data arrives;
   every other field of the result is kept opaque in `other`.
   */
  datatype QueryResult<O> = QueryResult(listRecipes: Option<RecipeConnection>, other: O)

  /** The list the component renders: the connection's items, or nothing yet. */
  function VisibleRecipes<O>(q: QueryResult<O>): (r: seq<Recipe>)
    ensures q.listRecipes.None? ==> r == []
    ensures q.listRecipes.Some? ==> r == q.listRecipes.value.items
  {
    match q.listRecipes
    case Some(conn) => conn.items
    case None => []
  }

  /**
   The `updateQuery` callback: the previous result with `listRecipes` replaced
   by a fresh connection whose items are the merged list. The callback reads
   `prev.listRecipes.items`, so it needs `listRecipes` to be present.
   */
  function UpdateQuery<O>(prev: QueryResult<O>, created: Recipe): (next: QueryResult<O>)
    requires prev.listRecipes.Some?
    ensures next.other == prev.other
    ensures next.listRecipes.Some?
    ensures next.listRecipes.value.typename == ConnectionTypename
    ensures var items := next.listRecipes.value.items;
      && |items| >= 1 && items[0] == created
      && (forall k :: 1 <= k < |items| ==> items[k].id != created.id)
      && (forall x :: x in items <==> x == created || (x in prev.listRecipes.value.items && x.id != created.id))
  {
    var items := Merge(prev.listRecipes.value.items, created);
    prev.(listRecipes := Some(RecipeConnection(ConnectionTypename, items)))
  }

  /**
   Subscription events applied one after another in the order they were
   received, each through `updateQuery`.
   */
  function ApplyEvents<O>(q: QueryResult<O>, events: seq<Recipe>): (r: QueryResult<O>)
    requires q.listRecipes.Some?
    ensures r.listRecipes.Some?
    ensures r.other == q.other
    ensures events != [] ==> |VisibleRecipes(r)| >= 1 && VisibleRecipes(r)[0] == events[|events| - 1]
    decreases |events|
  {
    if events == [] then q
    else ApplyEvents(UpdateQuery(q, events[0]), events[1..])
  }

  // ---------------------------------------------------------------------------
  // One event
  // ---------------------------------------------------------------------------

  /** What the component renders after an event is the merge of what it rendered before. */
  lemma VisibleAfterUpdate<O>(prev: QueryResult<O>, created: Recipe)
    requires prev.listRecipes.Some?
    ensures VisibleRecipes(UpdateQuery(prev, created)) == Merge(VisibleRecipes(prev), created)
  {
  }

  /** An event keeps the rendered list free of duplicate ids. */
  lemma UpdatePreservesUniqueIds<O>(prev: QueryResult<O>, created: Recipe)
    requires prev.listRecipes.Some?
    requires UniqueIds(VisibleRecipes(prev))
    ensures UniqueIds(VisibleRecipes(UpdateQuery(prev, created)))
  {
    MergePreservesUniqueIds(VisibleRecipes(prev), created);
  }

  /** A repeated delivery of the same event leaves the query result as one delivery did. */
  lemma UpdateIdempotent<O>(prev: QueryResult<O>, created: Recipe)
    requires prev.listRecipes.Some?
    ensures UpdateQuery(UpdateQuery(prev, created), created) == UpdateQuery(prev, created)
  {
    MergeIdempotent(VisibleRecipes(prev), created);
  }

  // ---------------------------------------------------------------------------
  // A stream of events
  // ---------------------------------------------------------------------------

  /** Any number of events keep the rendered list free of duplicate ids. */
  lemma {:induction false} ApplyEventsPreservesUniqueIds<O>(q: QueryResult<O>, events: seq<Recipe>)
    requires q.listRecipes.Some?
    requires UniqueIds(VisibleRecipes(q))
    ensures UniqueIds(VisibleRecipes(ApplyEvents(q, events)))
    decreases |events|
  {
    if events != [] {
      UpdatePreservesUniqueIds(q, events[0]);
      ApplyEventsPreservesUniqueIds(UpdateQuery(q, events[0]), events[1..]);
    }
  }

  /** After a stream, the rendered ids are the earlier ones plus those of the events. */
  lemma {:induction false} ApplyEventsIds<O>(q: QueryResult<O>, events: seq<Recipe>)
    requires q.listRecipes.Some?
    ensures Ids(VisibleRecipes(ApplyEvents(q, events))) == Ids(VisibleRecipes(q)) + Ids(events)
    decreases |events|
  {
    if events != [] {
      var e, rest := events[0], events[1..];
      var q' := UpdateQuery(q, e);
      assert ApplyEvents(q, events) == ApplyEvents(q', rest);
      var before, after := VisibleRecipes(q), VisibleRecipes(q');
      assert after == Merge(before, e);
      MergeIds(before, e);
      ApplyEventsIds(q', rest);
      assert events == [e] + rest;
      IdsCons(e, rest);
      assert Ids(after) + Ids(rest) == Ids(before) + Ids(events);
    }
  }

  /** The only entry rendered with a given id, if any. */
  ghost predicate OnlyWithItsId(items: seq<Recipe>, x: Recipe)
  {
    forall y :: y in items && y.id == x.id ==> y == x
  }

  /**
   A rendered recipe whose id no event of the stream carries is still rendered
   after the stream, and if it was the only entry with its id, it still is, and
   is still rendered exactly once.
   */
  lemma {:induction false} ApplyEventsKeeps<O>(q: QueryResult<O>, events: seq<Recipe>, x: Recipe)
    requires q.listRecipes.Some?
    requires x in VisibleRecipes(q)
    requires forall k :: 0 <= k < |events| ==> events[k].id != x.id
    ensures x in VisibleRecipes(ApplyEvents(q, events))
    ensures OnlyWithItsId(VisibleRecipes(q), x) ==> OnlyWithItsId(VisibleRecipes(ApplyEvents(q, events)), x)
    ensures CountId(VisibleRecipes(q), x.id) == 1 ==> CountId(VisibleRecipes(ApplyEvents(q, events)), x.id) == 1
    decreases |events|
  {
    if events != [] {
      assert events[0].id != x.id;
      var q' := UpdateQuery(q, events[0]);
      MergeCountOther(VisibleRecipes(q), events[0], x.id);
      assert forall k :: 0 <= k < |events[1..]| ==> events[1..][k] == events[k + 1];
      ApplyEventsKeeps(q', events[1..], x);
    }
  }

  /**
   Last write wins: once the stream has been applied, the last event carrying
   a given id is rendered, exactly once, and no other entry with that id is.
   */
  lemma {:induction false} ApplyEventsLastWins<O>(q: QueryResult<O>, events: seq<Recipe>, i: nat)
    requires q.listRecipes.Some?
    requires i < |events|
    requires forall k :: i < k < |events| ==> events[k].id != events[i].id
    ensures events[i] in VisibleRecipes(ApplyEvents(q, events))
    ensures forall y :: y in VisibleRecipes(ApplyEvents(q, events)) && y.id == events[i].id ==> y == events[i]
    ensures CountId(VisibleRecipes(ApplyEvents(q, events)), events[i].id) == 1
    decreases |events|
  {
    var q' := UpdateQuery(q, events[0]);
    assert forall k :: 0 <= k < |events[1..]| ==> events[1..][k] == events[k + 1];
    if i == 0 {
      assert OnlyWithItsId(VisibleRecipes(q'), events[0]);
      MergeHasIdOnce(VisibleRecipes(q), events[0]);
      ApplyEventsKeeps(q', events[1..], events[0]);
    } else {
      ApplyEventsLastWins(q', events[1..], i - 1);
    }
  }

  // ---------------------------------------------------------------------------
  // Worked examples of the merge
  // ---------------------------------------------------------------------------

  /** A created recipe whose id is already listed replaces that entry at the front. */
  lemma ReplacesExistingEntry(a: Recipe, b: Recipe, b': Recipe)
    requires a.id != b.id && b'.id == b.id
    ensures Merge([a, b], b') == [b', a]
  {
    assert Without([a, b], b.id) == [a] by {
      assert [a, b][1..] == [b];
      assert [b][1..] == [];
    }
  }

  /** A created recipe with a new id goes in front of the unchanged list. */
  lemma PrependsNewEntry(a: Recipe, b: Recipe, c: Recipe)
    requires c.id != a.id && c.id != b.id
    ensures Merge([a, b], c) == [c, a, b]
  {
    assert Without([a, b], c.id) == [a, b] by {
      assert [a, b][1..] == [b];
      assert [b][1..] == [];
    }
  }

  /** With no data yet, nothing is rendered. */
  lemma NothingRenderedWithoutData<O>(other: O)
    ensures VisibleRecipes(QueryResult(None, other)) == []
  {
  }
}
