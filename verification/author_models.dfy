/**
 * The `followers` association table of app/mod_auth/models.py and the
 * `AuthorAccount` operations that read and change it: `is_following`,
 * `follow`, `unfollow`, and the `following` / `followers` relationship counts.
 *
 * Authors are identified by their integer primary key. The table is a
 * sequence of rows in insertion order; it has no uniqueness constraint of its
 * own, so "no duplicate rows" is a class invariant that `Follow` and
 * `Unfollow` keep.
 */
module AuthorModels {
  import opened Wrappers

  type AuthorId = int

  /** One row of the `followers` table: `follower` follows `followed`. */
  datatype Edge = Edge(follower: AuthorId, followed: AuthorId)

  /** Number of rows `(a, b)`: the `count()` that `is_following` runs. */
  function PairCount(edges: seq<Edge>, a: AuthorId, b: AuthorId): nat
  {
    if edges == [] then 0
    else (if edges[0] == Edge(a, b) then 1 else 0) + PairCount(edges[1..], a, b)
  }

  /** `a.is_following(b)`: the count of rows `(a, b)` is positive. */
  predicate IsFollowing(edges: seq<Edge>, a: AuthorId, b: AuthorId)
  {
    PairCount(edges, a, b) > 0
  }

  /** No ordered pair occurs in two rows. */
  predicate NoDuplicateEdges(edges: seq<Edge>)
  {
    forall i, j :: 0 <= i < j < |edges| ==> edges[i] != edges[j]
  }

  /** `a.following.count()`: rows whose `follower_id` is `a`. */
  function FollowingCount(edges: seq<Edge>, a: AuthorId): nat
  {
    if edges == [] then 0
    else (if edges[0].follower == a then 1 else 0) + FollowingCount(edges[1..], a)
  }

  /** `b.followers.count()`: rows whose `followed_id` is `b`. */
  function FollowersCount(edges: seq<Edge>, b: AuthorId): nat
  {
    if edges == [] then 0
    else (if edges[0].followed == b then 1 else 0) + FollowersCount(edges[1..], b)
  }

  /** Deleting one row `e` from the table, as `following.remove` does (the first one, if several). */
  function Remove(edges: seq<Edge>, e: Edge): (r: seq<Edge>)
    ensures multiset(r) == multiset(edges) - multiset{e}
  {
    if edges == [] then []
    else
      assert edges == [edges[0]] + edges[1..];
      if edges[0] == e then edges[1..] else [edges[0]] + Remove(edges[1..], e)
  }

  /** The membership count is positive exactly when the row is present. */
  lemma {:induction false} PairCountPositive(edges: seq<Edge>, a: AuthorId, b: AuthorId)
    ensures IsFollowing(edges, a, b) <==> Edge(a, b) in edges
  {
    if edges != [] {
      PairCountPositive(edges[1..], a, b);
      assert edges == [edges[0]] + edges[1..];
    }
  }

  /** Without duplicate rows the membership count is 0 or 1. */
  lemma {:induction false} PairCountAtMostOne(edges: seq<Edge>, a: AuthorId, b: AuthorId)
    requires NoDuplicateEdges(edges)
    ensures PairCount(edges, a, b) == if Edge(a, b) in edges then 1 else 0
  {
    if edges != [] {
      PairCountAtMostOne(edges[1..], a, b);
      PairCountPositive(edges[1..], a, b);
      if edges[0] == Edge(a, b) {
        assert Edge(a, b) !in edges[1..] by {
          forall k | 0 <= k < |edges[1..]| ensures edges[1..][k] != Edge(a, b) {
            assert edges[1..][k] == edges[k + 1];
          }
        }
      }
      assert edges == [edges[0]] + edges[1..];
    }
  }

  /** Appending a row that is not yet present keeps the rows distinct. */
  lemma AppendKeepsNoDuplicates(edges: seq<Edge>, e: Edge)
    requires NoDuplicateEdges(edges) && e !in edges
    ensures NoDuplicateEdges(edges + [e])
  {
    forall i, j | 0 <= i < j < |edges + [e]| ensures (edges + [e])[i] != (edges + [e])[j] {
      if j == |edges| {
        assert (edges + [e])[i] == edges[i];
      }
    }
  }

  /**
   * Removing a present row deletes that row and no other: without duplicates
   * the pair is absent afterwards, every other row keeps its membership, the
   * rows stay distinct and the table shrinks by one.
   */
  lemma {:induction false} RemoveDeletesOnlyThatRow(edges: seq<Edge>, e: Edge)
    requires NoDuplicateEdges(edges)
    ensures NoDuplicateEdges(Remove(edges, e))
    ensures e !in Remove(edges, e)
    ensures forall x :: x != e ==> (x in Remove(edges, e) <==> x in edges)
    ensures |Remove(edges, e)| == if e in edges then |edges| - 1 else |edges|
  {
    var r := Remove(edges, e);
    var m := multiset(edges);
    assert multiset(r) == m - multiset{e};
    PairCountAtMostOne(edges, e.follower, e.followed);
    MultiplicityIsPairCount(edges, e);
    assert m[e] <= 1;
    assert multiset(r)[e] == 0;
    forall x | x != e ensures x in r <==> x in edges {
      assert multiset(r)[x] == m[x];
    }
    NoDuplicatesIffMultiplicityOne(edges);
    NoDuplicatesIffMultiplicityOne(r);
    assert |multiset(r)| == |r|;
    assert |m| == |edges|;
  }

  /** The row count of a pair is its multiplicity in the table. */
  lemma {:induction false} MultiplicityIsPairCount(edges: seq<Edge>, e: Edge)
    ensures multiset(edges)[e] == PairCount(edges, e.follower, e.followed)
  {
    if edges != [] {
      MultiplicityIsPairCount(edges[1..], e);
      assert edges == [edges[0]] + edges[1..];
    }
  }

  /** Rows are distinct exactly when no multiplicity exceeds one. */
  lemma {:induction false} NoDuplicatesIffMultiplicityOne(edges: seq<Edge>)
    ensures NoDuplicateEdges(edges) <==> forall x :: multiset(edges)[x] <= 1
  {
    if edges != [] {
      NoDuplicatesIffMultiplicityOne(edges[1..]);
      var t := edges[1..];
      assert edges == [edges[0]] + t;
      if NoDuplicateEdges(edges) {
        assert NoDuplicateEdges(t) by {
          forall i, j | 0 <= i < j < |t| ensures t[i] != t[j] {
            assert t[i] == edges[i + 1] && t[j] == edges[j + 1];
          }
        }
        assert edges[0] !in t by {
          forall k | 0 <= k < |t| ensures t[k] != edges[0] {
            assert t[k] == edges[k + 1];
          }
        }
      }
      if forall x :: multiset(edges)[x] <= 1 {
        assert forall x :: multiset(t)[x] <= 1 by {
          forall x ensures multiset(t)[x] <= 1 {
            assert multiset(t)[x] <= multiset(edges)[x];
          }
        }
        assert edges[0] !in t by {
          assert multiset(edges)[edges[0]] == 1 + multiset(t)[edges[0]];
        }
        forall i, j | 0 <= i < j < |edges| ensures edges[i] != edges[j] {
          if i == 0 {
            assert edges[j] == t[j - 1];
          } else {
            assert edges[i] == t[i - 1] && edges[j] == t[j - 1];
          }
        }
      }
    }
  }

  /** Deleting a row that was just appended restores the table exactly. */
  lemma {:induction false} RemoveAppended(edges: seq<Edge>, e: Edge)
    requires e !in edges
    ensures Remove(edges + [e], e) == edges
  {
    if edges == [] {
    } else {
      assert (edges + [e])[0] == edges[0];
      assert (edges + [e])[1..] == edges[1..] + [e];
      RemoveAppended(edges[1..], e);
      assert edges == [edges[0]] + edges[1..];
    }
  }

  /** Appending a row adds one to the follower's `following` count and to the followed's `followers` count. */
  lemma {:induction false} CountsAfterAppend(edges: seq<Edge>, e: Edge, a: AuthorId)
    ensures FollowingCount(edges + [e], a) == FollowingCount(edges, a) + (if e.follower == a then 1 else 0)
    ensures FollowersCount(edges + [e], a) == FollowersCount(edges, a) + (if e.followed == a then 1 else 0)
  {
    if edges != [] {
      assert (edges + [e])[1..] == edges[1..] + [e];
      CountsAfterAppend(edges[1..], e, a);
    }
  }

  /** Deleting a present row subtracts one from the same two counts. */
  lemma {:induction false} CountsAfterRemove(edges: seq<Edge>, e: Edge, a: AuthorId)
    requires e in edges
    ensures FollowingCount(Remove(edges, e), a) == FollowingCount(edges, a) - (if e.follower == a then 1 else 0)
    ensures FollowersCount(Remove(edges, e), a) == FollowersCount(edges, a) - (if e.followed == a then 1 else 0)
  {
    if edges[0] != e {
      CountsAfterRemove(edges[1..], e, a);
      assert ([edges[0]] + Remove(edges[1..], e))[1..] == Remove(edges[1..], e);
    }
  }

  /**
   * The scenario of a follow undone by an unfollow, on a table where `a`
   * does not follow `b`: the pair is linked in between, and afterwards the
   * table and both counts are as they were.
   */
  lemma FollowThenUnfollowRestores(edges: seq<Edge>, a: AuthorId, b: AuthorId)
    requires !IsFollowing(edges, a, b)
    ensures IsFollowing(edges + [Edge(a, b)], a, b)
    ensures Remove(edges + [Edge(a, b)], Edge(a, b)) == edges
    ensures FollowingCount(edges + [Edge(a, b)], a) == FollowingCount(edges, a) + 1
    ensures FollowersCount(edges + [Edge(a, b)], b) == FollowersCount(edges, b) + 1
  {
    PairCountPositive(edges, a, b);
    PairCountPositive(edges + [Edge(a, b)], a, b);
    RemoveAppended(edges, Edge(a, b));
    CountsAfterAppend(edges, Edge(a, b), a);
    CountsAfterAppend(edges, Edge(a, b), b);
  }

  /**
   * Two fresh accounts, the first following the second: the first follow
   * returns the follower and adds the row, a second follow returns nothing,
   * each count is one, the edge is directed (the second does not follow the
   * first), the unfollow returns the follower and empties the table, both
   * counts are then zero, and unfollowing an account one does not follow
   * returns nothing.
   */
  lemma NewAuthorsFollowScenario(a: AuthorId, b: AuthorId)
    requires a != b
    ensures FollowStep([], a, b) == Step(Some(a), [Edge(a, b)])
    ensures FollowStep([Edge(a, b)], a, b).result == None
    ensures IsFollowing([Edge(a, b)], a, b) && !IsFollowing([Edge(a, b)], b, a)
    ensures FollowingCount([Edge(a, b)], a) == 1 && FollowersCount([Edge(a, b)], b) == 1
    ensures UnfollowStep([Edge(a, b)], a, b) == Step(Some(a), [])
    ensures FollowingCount(UnfollowStep([Edge(a, b)], a, b).edges, a) == 0
    ensures FollowersCount(UnfollowStep([Edge(a, b)], a, b).edges, b) == 0
    ensures UnfollowStep([], b, a).result == None
  {
    PairCountPositive([Edge(a, b)], a, b);
    PairCountPositive([Edge(a, b)], b, a);
  }

  /** What `a.follow(b)` or `a.unfollow(b)` returns, and the table it leaves. */
  datatype Step = Step(result: Option<AuthorId>, edges: seq<Edge>)

  /** `a.follow(b)` on the table `edges`: append `(a, b)` and return `a`, unless `a` already follows `b`. */
  function FollowStep(edges: seq<Edge>, a: AuthorId, b: AuthorId): Step
  {
    if !IsFollowing(edges, a, b) then Step(Some(a), edges + [Edge(a, b)]) else Step(None, edges)
  }

  /** `a.unfollow(b)` on the table `edges`: delete `(a, b)` and return `a`, if `a` follows `b`. */
  function UnfollowStep(edges: seq<Edge>, a: AuthorId, b: AuthorId): Step
  {
    if IsFollowing(edges, a, b) then Step(Some(a), Remove(edges, Edge(a, b))) else Step(None, edges)
  }

  /**
   * The `followers` table as the `AuthorAccount` methods see it. All accounts
   * share the one table; `a.follow(b)` is `Follow(a, b)` here, and the
   * account `a` it returns on success is `Some(a)`.
   */
  class FollowersTable {
    var edges: seq<Edge>

    ghost predicate Valid()
      reads this
    {
      NoDuplicateEdges(edges)
    }

    /** An empty table. */
    constructor ()
      ensures Valid() && edges == []
    {
      edges := [];
    }

    /** `a.is_following(b)`: a count query; it changes nothing. */
    method IsFollowingQuery(a: AuthorId, b: AuthorId) returns (r: bool)
      ensures r <==> Edge(a, b) in edges
    {
      PairCountPositive(edges, a, b);
      r := PairCount(edges, a, b) > 0;
    }

    /**
     * `a.follow(b)`: when `a` does not follow `b` yet, append the row
     * `(a, b)` and return `a`; otherwise change nothing and return None.
     * `b == a` is allowed (registration makes each account follow itself).
     */
    method Follow(a: AuthorId, b: AuthorId) returns (r: Option<AuthorId>)
      requires Valid()
      modifies this
      ensures Valid()
      ensures Step(r, edges) == FollowStep(old(edges), a, b)
      ensures r == if Edge(a, b) in old(edges) then None else Some(a)
      ensures r.Some? ==> edges == old(edges) + [Edge(a, b)]
      ensures r.None? ==> edges == old(edges)
      ensures Edge(a, b) in edges
      ensures forall x :: x != Edge(a, b) ==> (x in edges <==> x in old(edges))
    {
      PairCountPositive(edges, a, b);
      var linked := IsFollowingQuery(a, b);
      if !linked {
        AppendKeepsNoDuplicates(edges, Edge(a, b));
        edges := edges + [Edge(a, b)];
        r := Some(a);
      } else {
        r := None;
      }
    }

    /**
     * `a.unfollow(b)`: when `a` follows `b`, delete the row `(a, b)` and
     * return `a`; otherwise change nothing and return None.
     */
    method Unfollow(a: AuthorId, b: AuthorId) returns (r: Option<AuthorId>)
      requires Valid()
      modifies this
      ensures Valid()
      ensures Step(r, edges) == UnfollowStep(old(edges), a, b)
      ensures r == if Edge(a, b) in old(edges) then Some(a) else None
      ensures r.Some? ==> edges == Remove(old(edges), Edge(a, b)) && |edges| == |old(edges)| - 1
      ensures r.None? ==> edges == old(edges)
      ensures Edge(a, b) !in edges
      ensures forall x :: x != Edge(a, b) ==> (x in edges <==> x in old(edges))
    {
      PairCountPositive(edges, a, b);
      var linked := IsFollowingQuery(a, b);
      if linked {
        RemoveDeletesOnlyThatRow(edges, Edge(a, b));
        edges := Remove(edges, Edge(a, b));
        r := Some(a);
      } else {
        r := None;
      }
    }
  }
}
