/**
 Ordered lists of recipes keyed by `id`, and the newest-first merge that the
 "recipe created" subscription applies to them (src/Recipes.js:85).
 */
module RecipeList {

  /** GraphQL `ID` values arrive as strings; `!==` on them is value inequality. */
  type RecipeId = string

  datatype Recipe = Recipe(
    id: RecipeId,
    name: string,
    ingredients: seq<string>,
    instructions: seq<string>
  )

  /** Number of entries of `items` that carry the id `id`. */
  function CountId(items: seq<Recipe>, id: RecipeId): (n: nat)
    ensures n <= |items|
    ensures n == 0 <==> forall k :: 0 <= k < |items| ==> items[k].id != id
  {
    if items == [] then 0
    else
      assert forall k :: 1 <= k < |items| ==> items[k] == items[1..][k - 1];
      (if items[0].id == id then 1 else 0) + CountId(items[1..], id)
  }

  /** The set of ids that occur in `items`. */
  function Ids(items: seq<Recipe>): set<RecipeId>
  {
    set k | 0 <= k < |items| :: items[k].id
  }

  /** No two entries of `items` share an id. */
  predicate UniqueIds(items: seq<Recipe>)
  {
    forall i, j :: 0 <= i < j < |items| ==> items[i].id != items[j].id
  }

  /** `t` is obtained from `s` by deleting entries, keeping the order of the rest. */
  predicate IsSubsequence(t: seq<Recipe>, s: seq<Recipe>)
    decreases |s|
  {
    if t == [] then true
    else if s == [] then false
    else (t[0] == s[0] && IsSubsequence(t[1..], s[1..])) || IsSubsequence(t, s[1..])
  }

  /**
   `t` holds every entry of `s` whose id differs from `id`, each as often as in
   `s`, and no entry with the id `id`.
   */
  ghost predicate KeepsExactlyOthers(t: seq<Recipe>, s: seq<Recipe>, id: RecipeId)
  {
    forall x :: multiset(t)[x] == if x.id == id then 0 else multiset(s)[x]
  }

  /**
   The JavaScript `items.filter(recipe => recipe.id !== id)`: the entries of
   `items` whose id differs from `id`, in their original order.
   */
  function Without(items: seq<Recipe>, id: RecipeId): (r: seq<Recipe>)
    ensures |r| == |items| - CountId(items, id)
    ensures forall k :: 0 <= k < |r| ==> r[k].id != id
    ensures forall x :: x in r <==> x in items && x.id != id
  {
    if items == [] then []
    else
      assert items == [items[0]] + items[1..];
      if items[0].id == id then Without(items[1..], id)
      else [items[0]] + Without(items[1..], id)
  }

  /**
   The list that `updateQuery` builds when a recipe is created: the new recipe
   first, then the previous entries minus any that share its id.
   */
  function Merge(items: seq<Recipe>, created: Recipe): (m: seq<Recipe>)
    ensures |m| >= 1 && m[0] == created
    ensures forall k :: 1 <= k < |m| ==> m[k].id != created.id
    ensures |m| == |items| + 1 - CountId(items, created.id)
    ensures |m| <= |items| + 1
    ensures forall x :: x in m <==> x == created || (x in items && x.id != created.id)
  {
    [created] + Without(items, created.id)
  }

  // ---------------------------------------------------------------------------
  // Filtering: order, contents and uniqueness
  // ---------------------------------------------------------------------------

  /** Removing an id keeps the remaining entries in their original order. */
  lemma {:induction false} WithoutIsSubsequence(s: seq<Recipe>, id: RecipeId)
    ensures IsSubsequence(Without(s, id), s)
  {
    if s != [] {
      WithoutIsSubsequence(s[1..], id);
      if s[0].id != id {
        assert ([s[0]] + Without(s[1..], id))[1..] == Without(s[1..], id);
      }
    }
  }

  /** Filtering keeps every entry with another id exactly as often as before, and no other. */
  lemma {:induction false} WithoutKeepsOthers(s: seq<Recipe>, id: RecipeId)
    ensures KeepsExactlyOthers(Without(s, id), s, id)
  {
    if s != [] {
      var rest := Without(s[1..], id);
      WithoutKeepsOthers(s[1..], id);
      assert s == [s[0]] + s[1..];
      assert multiset(s) == multiset{s[0]} + multiset(s[1..]);
      if s[0].id != id {
        assert Without(s, id) == [s[0]] + rest;
        assert multiset(Without(s, id)) == multiset{s[0]} + multiset(rest);
      } else {
        assert Without(s, id) == rest;
      }
    }
  }

  /** Filtering out one id leaves the number of entries with any other id unchanged. */
  lemma {:induction false} CountIdWithout(s: seq<Recipe>, id: RecipeId, other: RecipeId)
    requires other != id
    ensures CountId(Without(s, id), other) == CountId(s, other)
  {
    if s != [] {
      CountIdWithout(s[1..], id, other);
      if s[0].id != id {
        assert ([s[0]] + Without(s[1..], id))[1..] == Without(s[1..], id);
      }
    }
  }

  /** A subsequence never holds an entry more often than the sequence it came from. */
  lemma {:induction false} SubsequenceMultiset(t: seq<Recipe>, s: seq<Recipe>)
    requires IsSubsequence(t, s)
    ensures multiset(t) <= multiset(s)
    decreases |s|
  {
    if t != [] {
      assert s == [s[0]] + s[1..];
      if t[0] == s[0] && IsSubsequence(t[1..], s[1..]) {
        SubsequenceMultiset(t[1..], s[1..]);
        assert t == [t[0]] + t[1..];
      } else {
        SubsequenceMultiset(t, s[1..]);
      }
    }
  }

  /**
   Uniqueness: an order-preserving selection from `s` that keeps exactly the
   entries whose id is not `id` is `Without(s, id)`.
   */
  lemma {:induction false} WithoutUnique(t: seq<Recipe>, s: seq<Recipe>, id: RecipeId)
    requires IsSubsequence(t, s)
    requires KeepsExactlyOthers(t, s, id)
    ensures t == Without(s, id)
    decreases |s|
  {
    if s != [] {
      assert s == [s[0]] + s[1..];
      var x := s[0];
      if x.id == id {
        if t != [] {
          assert multiset(t)[t[0]] > 0;
          assert t[0] != x;
        }
        assert IsSubsequence(t, s[1..]);
        WithoutUnique(t, s[1..], id);
      } else {
        assert multiset(t)[x] == multiset(s)[x] == multiset(s[1..])[x] + 1;
        assert t != [];
        if t[0] == x && IsSubsequence(t[1..], s[1..]) {
          assert t == [t[0]] + t[1..];
          WithoutUnique(t[1..], s[1..], id);
        } else {
          assert IsSubsequence(t, s[1..]);
          SubsequenceMultiset(t, s[1..]);
          assert false;
        }
      }
    }
  }

  /**
   `Without(s, id)` is characterised, with no reference to how it is computed,
   as the order-preserving selection from `s` that keeps exactly the entries
   whose id is not `id`.
   */
  lemma {:induction false} WithoutCharacterization(t: seq<Recipe>, s: seq<Recipe>, id: RecipeId)
    ensures t == Without(s, id) <==> IsSubsequence(t, s) && KeepsExactlyOthers(t, s, id)
  {
    WithoutIsSubsequence(s, id);
    WithoutKeepsOthers(s, id);
    if IsSubsequence(t, s) && KeepsExactlyOthers(t, s, id) {
      WithoutUnique(t, s, id);
    }
  }

  /** Filtering out an id that does not occur changes nothing. */
  lemma {:induction false} WithoutAbsent(s: seq<Recipe>, id: RecipeId)
    requires CountId(s, id) == 0
    ensures Without(s, id) == s
  {
    if s != [] {
      assert CountId(s[1..], id) == 0;
      WithoutAbsent(s[1..], id);
      assert s == [s[0]] + s[1..];
    }
  }

  /** The ids of a list with one entry in front. */
  lemma IdsCons(x: Recipe, rest: seq<Recipe>)
    ensures Ids([x] + rest) == {x.id} + Ids(rest)
  {
    var m := [x] + rest;
    forall i | i in Ids(m)
      ensures i in {x.id} + Ids(rest)
    {
      var k :| 0 <= k < |m| && m[k].id == i;
      if k > 0 {
        assert m[k] == rest[k - 1];
      }
    }
    forall i | i in {x.id} + Ids(rest)
      ensures i in Ids(m)
    {
      if i == x.id {
        assert m[0].id == i;
      } else {
        var k :| 0 <= k < |rest| && rest[k].id == i;
        assert m[k + 1] == rest[k];
      }
    }
  }

  /** Putting an entry with a fresh id in front of a list with distinct ids keeps them distinct. */
  lemma UniqueIdsCons(x: Recipe, rest: seq<Recipe>)
    requires UniqueIds(rest)
    requires x.id !in Ids(rest)
    ensures UniqueIds([x] + rest)
  {
    var m := [x] + rest;
    forall i, j | 0 <= i < j < |m|
      ensures m[i].id != m[j].id
    {
      assert m[j] == rest[j - 1];
      if i > 0 {
        assert m[i] == rest[i - 1];
      }
    }
  }

  /** A list with distinct ids splits into a head whose id is fresh and a tail with distinct ids. */
  lemma UniqueIdsUncons(s: seq<Recipe>)
    requires s != [] && UniqueIds(s)
    ensures UniqueIds(s[1..])
    ensures s[0].id !in Ids(s[1..])
  {
    var t := s[1..];
    forall i, j | 0 <= i < j < |t|
      ensures t[i].id != t[j].id
    {
      assert t[i] == s[i + 1] && t[j] == s[j + 1];
    }
    forall k | 0 <= k < |t|
      ensures t[k].id != s[0].id
    {
      assert t[k] == s[k + 1];
    }
  }

  /** The set of ids left after filtering. */
  lemma {:induction false} WithoutIds(s: seq<Recipe>, id: RecipeId)
    ensures Ids(Without(s, id)) == Ids(s) - {id}
  {
    if s != [] {
      var rest := Without(s[1..], id);
      WithoutIds(s[1..], id);
      assert s == [s[0]] + s[1..];
      IdsCons(s[0], s[1..]);
      assert Ids(s) == {s[0].id} + Ids(s[1..]);
      if s[0].id != id {
        assert Without(s, id) == [s[0]] + rest;
        IdsCons(s[0], rest);
      } else {
        assert Without(s, id) == rest;
      }
    }
  }

  /** Filtering keeps distinct ids distinct. */
  lemma {:induction false} WithoutPreservesUniqueIds(s: seq<Recipe>, id: RecipeId)
    requires UniqueIds(s)
    ensures UniqueIds(Without(s, id))
  {
    if s != [] {
      UniqueIdsUncons(s);
      WithoutPreservesUniqueIds(s[1..], id);
      if s[0].id != id {
        WithoutIds(s[1..], id);
        UniqueIdsCons(s[0], Without(s[1..], id));
      }
    }
  }

  // ---------------------------------------------------------------------------
  // The merge
  // ---------------------------------------------------------------------------

  /**
   After the head, the merged list is exactly the previous list minus the
   entries sharing the new id, in their previous relative order.
   */
  lemma MergeTail(items: seq<Recipe>, created: Recipe)
    ensures IsSubsequence(Merge(items, created)[1..], items)
    ensures KeepsExactlyOthers(Merge(items, created)[1..], items, created.id)
  {
    assert Merge(items, created)[1..] == Without(items, created.id);
    WithoutIsSubsequence(items, created.id);
    WithoutKeepsOthers(items, created.id);
  }

  /** The created id occurs exactly once in the merged list. */
  lemma MergeHasIdOnce(items: seq<Recipe>, created: Recipe)
    ensures CountId(Merge(items, created), created.id) == 1
  {
    var m := Merge(items, created);
    assert m[1..] == Without(items, created.id);
  }

  /** The merge leaves the number of entries with any other id unchanged. */
  lemma MergeCountOther(items: seq<Recipe>, created: Recipe, other: RecipeId)
    requires other != created.id
    ensures CountId(Merge(items, created), other) == CountId(items, other)
  {
    assert Merge(items, created)[1..] == Without(items, created.id);
    CountIdWithout(items, created.id, other);
  }

  /** A new id is simply prepended. */
  lemma {:induction false} MergeAbsent(items: seq<Recipe>, created: Recipe)
    requires CountId(items, created.id) == 0
    ensures Merge(items, created) == [created] + items
  {
    WithoutAbsent(items, created.id);
  }

  /** Distinct ids stay distinct: the merge replaces rather than duplicates. */
  lemma MergePreservesUniqueIds(items: seq<Recipe>, created: Recipe)
    requires UniqueIds(items)
    ensures UniqueIds(Merge(items, created))
  {
    WithoutPreservesUniqueIds(items, created.id);
    WithoutIds(items, created.id);
    UniqueIdsCons(created, Without(items, created.id));
  }

  /** The merged list holds the previous ids plus the created one. */
  lemma MergeIds(items: seq<Recipe>, created: Recipe)
    ensures Ids(Merge(items, created)) == Ids(items) + {created.id}
  {
    WithoutIds(items, created.id);
    IdsCons(created, Without(items, created.id));
  }

  /** Delivering the same event twice has the effect of delivering it once. */
  lemma MergeIdempotent(items: seq<Recipe>, created: Recipe)
    ensures Merge(Merge(items, created), created) == Merge(items, created)
  {
    var m := Merge(items, created);
    var rest := Without(items, created.id);
    assert m == [created] + rest;
    assert Without(m, created.id) == Without(rest, created.id) by {
      assert m[1..] == rest;
    }
    WithoutAbsent(rest, created.id);
  }
}
