/**
 * `AuthorAccount.followed_stories` of app/mod_auth/models.py: the `story`
 * table joined with the `followers` table on `followed_id == author_id`,
 * filtered on `followed_id == self.id`, ordered by `date_created`
 * descending. The query object yields one story per primary key, so a
 * story that several rows join with still appears once.
 *
 * `date_created` is an abstract integer timestamp. Ties in the ordering are
 * unspecified; the model fixes one order among them, and only the
 * non-increasing order is promised.
 */
module StoryFeed {
  import opened AuthorModels

  /** A row of the `story` table: its primary key, `author_id` and `date_created`. */
  datatype Story = Story(id: int, authorId: AuthorId, dateCreated: int)

  /** The join condition and the filter of the query, on one story and one follower row. */
  predicate JoinsAsWritten(s: Story, e: Edge, selfId: AuthorId)
  {
    e.followed == s.authorId && e.followed == selfId
  }

  /** Some follower row joins with `s` and passes the filter. */
  predicate SelectedAsWritten(s: Story, edges: seq<Edge>, selfId: AuthorId)
  {
    exists e :: e in edges && JoinsAsWritten(s, e, selfId)
  }

  /** Most recent first: `date_created` never increases along the sequence. */
  predicate NewestFirst(stories: seq<Story>)
  {
    forall i, j :: 0 <= i < j < |stories| ==> stories[i].dateCreated >= stories[j].dateCreated
  }

  /** Story ids are pairwise distinct (the primary key of the `story` table). */
  predicate DistinctIds(stories: seq<Story>)
  {
    forall i, j :: 0 <= i < j < |stories| ==> stories[i].id != stories[j].id
  }

  /** The table rows that the query selects, in table order, each once. */
  function SelectRows(stories: seq<Story>, edges: seq<Edge>, selfId: AuthorId): (r: seq<Story>)
    ensures forall s :: s in r <==> s in stories && SelectedAsWritten(s, edges, selfId)
    ensures forall s :: multiset(r)[s] == if SelectedAsWritten(s, edges, selfId) then multiset(stories)[s] else 0
  {
    if stories == [] then []
    else
      assert stories == [stories[0]] + stories[1..];
      var rest := SelectRows(stories[1..], edges, selfId);
      if SelectedAsWritten(stories[0], edges, selfId) then [stories[0]] + rest else rest
  }

  /** No story in `s` is newer than `d`. */
  predicate DatesAtMost(s: seq<Story>, d: int)
  {
    forall y :: y in s ==> y.dateCreated <= d
  }

  lemma DatesAtMostPermutation(a: seq<Story>, b: seq<Story>, d: int)
    requires DatesAtMost(b, d) && multiset(a) == multiset(b)
    ensures DatesAtMost(a, d)
  {
    forall y | y in a ensures y.dateCreated <= d {
      assert y in multiset(a);
    }
  }

  lemma PrependKeepsNewestFirst(h: Story, tail: seq<Story>)
    requires NewestFirst(tail) && DatesAtMost(tail, h.dateCreated)
    ensures NewestFirst([h] + tail)
  {
    var r := [h] + tail;
    forall i, j | 0 <= i < j < |r| ensures r[i].dateCreated >= r[j].dateCreated {
      assert r[j] == tail[j - 1];
      if i > 0 {
        assert r[i] == tail[i - 1];
      } else {
        assert tail[j - 1] in tail;
      }
    }
  }

  /** Places `x` into a newest-first sequence. */
  function InsertNewestFirst(x: Story, sorted: seq<Story>): (r: seq<Story>)
    requires NewestFirst(sorted)
    ensures NewestFirst(r)
    ensures multiset(r) == multiset(sorted) + multiset{x}
  {
    if sorted == [] || x.dateCreated >= sorted[0].dateCreated then
      PrependKeepsNewestFirst(x, sorted);
      [x] + sorted
    else
      var t := sorted[1..];
      var tail := InsertNewestFirst(x, t);
      assert DatesAtMost(t + [x], sorted[0].dateCreated) by {
        forall y | y in t + [x] ensures y.dateCreated <= sorted[0].dateCreated {
          if y != x {
            var k :| 0 <= k < |t| && t[k] == y;
            assert sorted[k + 1] == y;
          }
        }
      }
      DatesAtMostPermutation(tail, t + [x], sorted[0].dateCreated);
      PrependKeepsNewestFirst(sorted[0], tail);
      assert sorted == [sorted[0]] + t;
      [sorted[0]] + tail
  }

  /** `order_by(date_created.desc())`: a newest-first permutation of its input. */
  function SortNewestFirst(stories: seq<Story>): (r: seq<Story>)
    ensures NewestFirst(r)
    ensures multiset(r) == multiset(stories)
  {
    if stories == [] then []
    else
      assert stories == [stories[0]] + stories[1..];
      InsertNewestFirst(stories[0], SortNewestFirst(stories[1..]))
  }

  /** `self.followed_stories()` for the account `selfId`, as the query is written. */
  function FollowedStories(stories: seq<Story>, edges: seq<Edge>, selfId: AuthorId): (r: seq<Story>)
    ensures NewestFirst(r)
    ensures forall s :: s in r <==> s in stories && SelectedAsWritten(s, edges, selfId)
    ensures forall s :: multiset(r)[s] == if SelectedAsWritten(s, edges, selfId) then multiset(stories)[s] else 0
  {
    SortNewestFirst(SelectRows(stories, edges, selfId))
  }

  /**
   * What the query as written returns: only stories written by `selfId`, and
   * nothing at all unless some row has `followed_id == selfId`; when some row
   * does, every story by `selfId`.
   */
  lemma FollowedStoriesAsWritten(stories: seq<Story>, edges: seq<Edge>, selfId: AuthorId)
    ensures forall s :: s in FollowedStories(stories, edges, selfId) ==> s.authorId == selfId
    ensures (forall e :: e in edges ==> e.followed != selfId) ==> FollowedStories(stories, edges, selfId) == []
    ensures (exists e :: e in edges && e.followed == selfId) ==>
      forall s :: s in stories && s.authorId == selfId ==> s in FollowedStories(stories, edges, selfId)
  {
  }

  /** Each story of the table appears in the feed at most once. */
  lemma {:induction false} FollowedStoriesNoRepeats(stories: seq<Story>, edges: seq<Edge>, selfId: AuthorId)
    requires DistinctIds(stories)
    ensures DistinctIds(FollowedStories(stories, edges, selfId))
  {
    var sel := SelectRows(stories, edges, selfId);
    SelectRowsKeepsDistinctIds(stories, edges, selfId);
    SortKeepsDistinctIds(sel);
  }

  lemma {:induction false} SelectRowsKeepsDistinctIds(stories: seq<Story>, edges: seq<Edge>, selfId: AuthorId)
    requires DistinctIds(stories)
    ensures DistinctIds(SelectRows(stories, edges, selfId))
  {
    if stories != [] {
      var t := stories[1..];
      assert DistinctIds(t) by {
        forall i, j | 0 <= i < j < |t| ensures t[i].id != t[j].id {
          assert t[i] == stories[i + 1] && t[j] == stories[j + 1];
        }
      }
      SelectRowsKeepsDistinctIds(t, edges, selfId);
      var rest := SelectRows(t, edges, selfId);
      forall s | s in rest ensures s.id != stories[0].id {
        var k :| 0 <= k < |t| && t[k] == s;
        assert t[k] == stories[k + 1];
      }
    }
  }

  /** Insertion keeps ids distinct when the new story's id is not already present. */
  lemma {:induction false} InsertKeepsDistinctIds(x: Story, sorted: seq<Story>)
    requires NewestFirst(sorted) && DistinctIds(sorted)
    requires forall y :: y in sorted ==> y.id != x.id
    ensures DistinctIds(InsertNewestFirst(x, sorted))
  {
    if sorted != [] && x.dateCreated < sorted[0].dateCreated {
      var t := sorted[1..];
      assert DistinctIds(t) by {
        forall i, j | 0 <= i < j < |t| ensures t[i].id != t[j].id {
          assert t[i] == sorted[i + 1] && t[j] == sorted[j + 1];
        }
      }
      InsertKeepsDistinctIds(x, t);
      var tail := InsertNewestFirst(x, t);
      forall y | y in tail ensures y.id != sorted[0].id {
        assert y in multiset(tail);
        if y != x {
          var k :| 0 <= k < |t| && t[k] == y;
          assert t[k] == sorted[k + 1];
        }
      }
    }
  }

  /** Sorting keeps ids distinct. */
  lemma {:induction false} SortKeepsDistinctIds(s: seq<Story>)
    requires DistinctIds(s)
    ensures DistinctIds(SortNewestFirst(s))
  {
    if s != [] {
      var t := s[1..];
      assert DistinctIds(t) by {
        forall i, j | 0 <= i < j < |t| ensures t[i].id != t[j].id {
          assert t[i] == s[i + 1] && t[j] == s[j + 1];
        }
      }
      SortKeepsDistinctIds(t);
      var sorted := SortNewestFirst(t);
      forall y | y in sorted ensures y.id != s[0].id {
        assert y in multiset(sorted);
        var k :| 0 <= k < |t| && t[k] == y;
        assert t[k] == s[k + 1];
      }
      InsertKeepsDistinctIds(s[0], sorted);
    }
  }

  /**
   * The feed, set-wise, is exactly the set of stories in the rows of the
   * literal join `story JOIN followers ON followed_id == author_id WHERE
   * followed_id == selfId`.
   */
  lemma FollowedStoriesIsJoin(stories: seq<Story>, edges: seq<Edge>, selfId: AuthorId)
    ensures (set s | s in FollowedStories(stories, edges, selfId))
         == (set s, e | s in stories && e in edges && JoinsAsWritten(s, e, selfId) :: s)
  {
  }

  /**
   * Registration makes every account follow itself, which is why the query
   * looks right in use: with the row `(selfId, selfId)` present, the feed is
   * exactly the account's own stories.
   */
  lemma SelfFollowerSeesOwnStories(stories: seq<Story>, edges: seq<Edge>, selfId: AuthorId)
    requires Edge(selfId, selfId) in edges
    ensures forall s :: s in FollowedStories(stories, edges, selfId) <==> s in stories && s.authorId == selfId
  {
    forall s | s in stories && s.authorId == selfId
      ensures SelectedAsWritten(s, edges, selfId)
    {
      assert JoinsAsWritten(s, Edge(selfId, selfId), selfId);
    }
  }

  // ---------------------------------------------------------------------
  // Finding: the query joins on the followed side of the row, while its
  // documentation promises the stories of the authors `self` follows.
  // ---------------------------------------------------------------------

  /** The join the documentation describes: rows whose follower is `selfId`, joined on `followed_id == author_id`. */
  predicate SelectedAsIntended(s: Story, edges: seq<Edge>, selfId: AuthorId)
  {
    exists e :: e in edges && e.follower == selfId && e.followed == s.authorId
  }

  function SelectRowsAsIntended(stories: seq<Story>, edges: seq<Edge>, selfId: AuthorId): (r: seq<Story>)
    ensures forall s :: s in r <==> s in stories && SelectedAsIntended(s, edges, selfId)
    ensures forall s :: multiset(r)[s] == if SelectedAsIntended(s, edges, selfId) then multiset(stories)[s] else 0
  {
    if stories == [] then []
    else
      assert stories == [stories[0]] + stories[1..];
      var rest := SelectRowsAsIntended(stories[1..], edges, selfId);
      if SelectedAsIntended(stories[0], edges, selfId) then [stories[0]] + rest else rest
  }

  /** The stories of the authors `selfId` follows, newest first. */
  function IntendedFollowedStories(stories: seq<Story>, edges: seq<Edge>, selfId: AuthorId): (r: seq<Story>)
    ensures NewestFirst(r)
    ensures forall s :: s in r <==> s in stories && IsFollowing(edges, selfId, s.authorId)
    ensures forall s :: multiset(r)[s] == if IsFollowing(edges, selfId, s.authorId) then multiset(stories)[s] else 0
  {
    var sel := SelectRowsAsIntended(stories, edges, selfId);
    var r := SortNewestFirst(sel);
    forall s ensures s in r <==> s in stories && IsFollowing(edges, selfId, s.authorId) {
      assert s in r <==> s in multiset(r);
      assert s in sel <==> s in multiset(sel);
      PairCountPositive(edges, selfId, s.authorId);
      assert SelectedAsIntended(s, edges, selfId) ==> Edge(selfId, s.authorId) in edges;
      assert Edge(selfId, s.authorId) in edges ==> SelectedAsIntended(s, edges, selfId);
    }
    r
  }

  /**
   * Account 1 follows account 2, which wrote story 10: the query as written
   * leaves the story out of account 1's feed, the intended one includes it.
   */
  lemma FeedAsWrittenMissesFollowedAuthor()
    ensures FollowedStories([Story(10, 2, 5)], [Edge(1, 2)], 1) == []
    ensures IntendedFollowedStories([Story(10, 2, 5)], [Edge(1, 2)], 1) == [Story(10, 2, 5)]
  {
    FollowedStoriesAsWritten([Story(10, 2, 5)], [Edge(1, 2)], 1);
    var r := IntendedFollowedStories([Story(10, 2, 5)], [Edge(1, 2)], 1);
    PairCountPositive([Edge(1, 2)], 1, 2);
    assert Story(10, 2, 5) in r;
    assert multiset(r) == multiset([Story(10, 2, 5)]) by {
      assert multiset(r) == multiset(SelectRowsAsIntended([Story(10, 2, 5)], [Edge(1, 2)], 1));
    }
    assert |r| == 1;
  }

  /**
   * Account 2 follows account 1 and account 1 follows nobody: the query as
   * written still shows account 1 its own story 10.
   */
  lemma FeedAsWrittenShowsNonFollowedAuthor()
    ensures FollowedStories([Story(10, 1, 5)], [Edge(2, 1)], 1) == [Story(10, 1, 5)]
    ensures IntendedFollowedStories([Story(10, 1, 5)], [Edge(2, 1)], 1) == []
  {
    var r := FollowedStories([Story(10, 1, 5)], [Edge(2, 1)], 1);
    assert JoinsAsWritten(Story(10, 1, 5), Edge(2, 1), 1);
    assert multiset(r)[Story(10, 1, 5)] == 1;
    assert |multiset(r)| == 1;
    assert |r| == 1;
    PairCountPositive([Edge(2, 1)], 1, 1);
  }
}
