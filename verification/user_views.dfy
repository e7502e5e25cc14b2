/**
 * The `follow(username)` and `unfollow(username)` routes of
 * app/mod_user/views.py. The request's flash message and redirect become an
 * `Outcome`; the route's effect on the `followers` table is the new edge
 * sequence. A request runs as one atomic step: the table changes only on the
 * success path, where the route commits.
 */
module UserViews {
  import opened Wrappers
  import opened AuthorModels

  /** The columns of an `author` row that the routes look at. */
  datatype Account = Account(id: AuthorId, username: string)

  /** What the route flashes and where it redirects, abstracted. */
  datatype Outcome =
    | NotFound    // "Author ... not found"
    | SelfTarget  // "You can't (un)follow yourself!"
    | Refused     // `follow` / `unfollow` returned None
    | Ok          // committed

  datatype Response = Response(outcome: Outcome, edges: seq<Edge>)

  /** `username` is a unique column of the `author` table. */
  predicate UniqueUsernames(accounts: seq<Account>)
  {
    forall i, j :: 0 <= i < j < |accounts| ==> accounts[i].username != accounts[j].username
  }

  /** `AuthorAccount.query.filter_by(username=username).first()`. */
  function FindByUsername(accounts: seq<Account>, username: string): (r: Option<Account>)
    ensures r.Some? ==> r.value in accounts && r.value.username == username
    ensures r.None? <==> forall a :: a in accounts ==> a.username != username
  {
    if accounts == [] then None
    else if accounts[0].username == username then Some(accounts[0])
    else FindByUsername(accounts[1..], username)
  }

  /** With unique usernames the lookup finds the one account of that name. */
  lemma {:induction false} FindByUsernameUnique(accounts: seq<Account>, a: Account)
    requires UniqueUsernames(accounts) && a in accounts
    ensures FindByUsername(accounts, a.username) == Some(a)
  {
    if accounts[0] != a {
      var t := accounts[1..];
      assert a in t;
      var k :| 0 <= k < |t| && t[k] == a;
      assert accounts[k + 1] == a;
      assert accounts[0].username != a.username;
      assert UniqueUsernames(t) by {
        forall i, j | 0 <= i < j < |t| ensures t[i].username != t[j].username {
          assert t[i] == accounts[i + 1] && t[j] == accounts[j + 1];
        }
      }
      FindByUsernameUnique(t, a);
    }
  }

  /**
   * The follow route for the logged-in account `current`. Unknown names and
   * `current` itself are turned away with the table unchanged, an existing
   * follow is refused with the table unchanged, and success commits exactly
   * the one new row `(current, target)`. No request adds or removes a self
   * row, and distinct rows stay distinct.
   */
  function FollowResponse(edges: seq<Edge>, accounts: seq<Account>, current: Account, username: string): (r: Response)
    ensures r.outcome == NotFound <==> forall a :: a in accounts ==> a.username != username
    ensures r.outcome != Ok ==> r.edges == edges
    ensures r.outcome == SelfTarget ==> exists a :: a in accounts && a.username == username && a.id == current.id
    ensures r.outcome == Refused ==> exists a :: a in accounts && a.username == username && a.id != current.id
                                               && IsFollowing(edges, current.id, a.id)
    ensures r.outcome == Ok ==> exists a :: a in accounts && a.username == username && a.id != current.id
                                          && !IsFollowing(edges, current.id, a.id)
                                          && r.edges == edges + [Edge(current.id, a.id)]
    ensures forall x :: Edge(x, x) in r.edges <==> Edge(x, x) in edges
    ensures NoDuplicateEdges(edges) ==> NoDuplicateEdges(r.edges)
  {
    match FindByUsername(accounts, username)
    case None => Response(NotFound, edges)
    case Some(author) =>
      if author.id == current.id then Response(SelfTarget, edges)
      else
        var u := FollowStep(edges, current.id, author.id);
        if u.result.None? then Response(Refused, edges)
        else
          PairCountPositive(edges, current.id, author.id);
          assert NoDuplicateEdges(edges) ==> NoDuplicateEdges(edges + [Edge(current.id, author.id)]) by {
            if NoDuplicateEdges(edges) {
              AppendKeepsNoDuplicates(edges, Edge(current.id, author.id));
            }
          }
          Response(Ok, u.edges)
  }

  /**
   * The unfollow route for `current`: the same two guards, a refusal when
   * `current` does not follow the target, and on success exactly the row
   * `(current, target)` is deleted.
   */
  function UnfollowResponse(edges: seq<Edge>, accounts: seq<Account>, current: Account, username: string): (r: Response)
    ensures r.outcome == NotFound <==> forall a :: a in accounts ==> a.username != username
    ensures r.outcome != Ok ==> r.edges == edges
    ensures r.outcome == SelfTarget ==> exists a :: a in accounts && a.username == username && a.id == current.id
    ensures r.outcome == Refused ==> exists a :: a in accounts && a.username == username && a.id != current.id
                                               && !IsFollowing(edges, current.id, a.id)
    ensures r.outcome == Ok ==> exists a :: a in accounts && a.username == username && a.id != current.id
                                          && IsFollowing(edges, current.id, a.id)
                                          && multiset(r.edges) == multiset(edges) - multiset{Edge(current.id, a.id)}
                                          && (NoDuplicateEdges(edges) ==> Edge(current.id, a.id) !in r.edges)
    ensures forall x :: Edge(x, x) in r.edges <==> Edge(x, x) in edges
    ensures NoDuplicateEdges(edges) ==> NoDuplicateEdges(r.edges)
  {
    match FindByUsername(accounts, username)
    case None => Response(NotFound, edges)
    case Some(author) =>
      if author.id == current.id then Response(SelfTarget, edges)
      else
        var u := UnfollowStep(edges, current.id, author.id);
        if u.result.None? then Response(Refused, edges)
        else
          var e := Edge(current.id, author.id);
          PairCountPositive(edges, current.id, author.id);
          assert NoDuplicateEdges(edges) ==> NoDuplicateEdges(Remove(edges, e)) && e !in Remove(edges, e) by {
            if NoDuplicateEdges(edges) {
              RemoveDeletesOnlyThatRow(edges, e);
            }
          }
          assert forall x :: Edge(x, x) in Remove(edges, e) <==> Edge(x, x) in edges by {
            forall x ensures Edge(x, x) in Remove(edges, e) <==> Edge(x, x) in edges {
              assert multiset(Remove(edges, e))[Edge(x, x)] == multiset(edges)[Edge(x, x)];
            }
          }
          Response(Ok, u.edges)
  }

  /** A successful follow request undone by an unfollow request for the same name restores the table. */
  lemma FollowThenUnfollowRequest(edges: seq<Edge>, accounts: seq<Account>, current: Account, username: string)
    requires FollowResponse(edges, accounts, current, username).outcome == Ok
    ensures UnfollowResponse(FollowResponse(edges, accounts, current, username).edges, accounts, current, username)
         == Response(Ok, edges)
  {
    var author := FindByUsername(accounts, username).value;
    var e := Edge(current.id, author.id);
    PairCountPositive(edges, current.id, author.id);
    PairCountPositive(edges + [e], current.id, author.id);
    RemoveAppended(edges, e);
  }

  /** `follow(username)` run against the shared table: the route's guards, then `current_user.follow`. */
  method FollowRoute(table: FollowersTable, accounts: seq<Account>, current: Account, username: string)
    returns (outcome: Outcome)
    requires table.Valid()
    modifies table
    ensures table.Valid()
    ensures Response(outcome, table.edges) == FollowResponse(old(table.edges), accounts, current, username)
  {
    var author := FindByUsername(accounts, username);
    if author.None? {
      return NotFound;
    }
    if author.value.id == current.id {
      return SelfTarget;
    }
    PairCountPositive(table.edges, current.id, author.value.id);
    var u := table.Follow(current.id, author.value.id);
    if u.None? {
      return Refused;
    }
    outcome := Ok;
  }

  /** `unfollow(username)` run against the shared table: the route's guards, then `current_user.unfollow`. */
  method UnfollowRoute(table: FollowersTable, accounts: seq<Account>, current: Account, username: string)
    returns (outcome: Outcome)
    requires table.Valid()
    modifies table
    ensures table.Valid()
    ensures Response(outcome, table.edges) == UnfollowResponse(old(table.edges), accounts, current, username)
  {
    var author := FindByUsername(accounts, username);
    if author.None? {
      return NotFound;
    }
    if author.value.id == current.id {
      return SelfTarget;
    }
    PairCountPositive(table.edges, current.id, author.value.id);
    var u := table.Unfollow(current.id, author.value.id);
    if u.None? {
      return Refused;
    }
    outcome := Ok;
  }
}
