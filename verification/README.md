# Hadithi follow graph, follow routes and `.env` loader — a Dafny model

Hadithi is a Flask blogging platform: authors register, write stories and
follow one another. This project models the three parts of it whose
behaviour can be stated and proved:

- **The follow graph** (`app/mod_auth/models.py`). The `followers`
  association table holds `(follower_id, followed_id)` rows and has no
  uniqueness constraint. `AuthorAccount.follow` and `unfollow` add or delete
  the row `(self, user)` behind an `is_following` count query. They return
  the account on success and `None` otherwise. Here the table is the class
  `AuthorModels.FollowersTable`, with one `seq<Edge>` field. Its invariant,
  no duplicate rows, is kept by `Follow` and `Unfollow`. The pure facts
  behind the methods are lemmas over `seq<Edge>`. These cover the row
  count, the `following` and `followers` counts, and the follow-then-unfollow
  round trip.
- **The feed query** `followed_stories` (`StoryFeed`). It joins `story` with
  `followers` on `followed_id == author_id`, filters on
  `followed_id == self.id`, and orders by `date_created` descending. It is
  modelled as the code writes it (see Findings): a story is selected when it
  is written by `self` and some row points *to* `self`. Stories are
  `(id, author_id, date_created)` with an abstract integer timestamp. The
  result lists each selected table row once, newest first. Ties are in no
  specified order.
- **The follow and unfollow routes** (`app/mod_user/views.py`, `UserViews`).
  A route looks the target up by username. It turns away an unknown name,
  then the current user themself. It then calls `follow` or `unfollow`,
  refuses when that returns `None`, and commits otherwise. The flash message
  and the redirect become an `Outcome` (`NotFound`, `SelfTarget`, `Refused`,
  `Ok`). The routes are methods over the shared table, specified by the pure
  functions `FollowResponse` and `UnfollowResponse`. Their contracts show
  that no request adds or removes a self row and that a request changes at
  most the pair `(current, target)`.
- **The `.env` loader** (`scripts/setup_envvar.py`, `SetupEnvvar`). For each
  line, `line.strip().split("=")` must give exactly two parts, and then
  `os.environ[part0] = part1`. Python's `strip` and one-character `split` are
  functions with full contracts. The loop is a method over a `map` from
  names to values. An assignment that `putenv` refuses raises and ends the
  loop: an empty name, or a NUL character in the name or the value. The
  method reports that as a flag beside the environment it leaves. Whether
  the file exists and what its lines are come in as parameters.

## Model

| member | source | states |
|---|---|---|
| `AuthorModels.Remove` | app/mod_auth/models.py:123 | deleting the row `(a, b)` removes one copy of it from the table and leaves every other row |
| `AuthorModels.PairCountPositive` | app/mod_auth/models.py:126-139 | `is_following(a, b)` (a positive row count) holds exactly when the row `(a, b)` is in the table |
| `AuthorModels.PairCountAtMostOne` | app/mod_auth/models.py:126-139 | in a table without duplicate rows, the count of `is_following` is 1 when the row is present and 0 when it is not |
| `AuthorModels.MultiplicityIsPairCount` | app/mod_auth/models.py:139 | the count query returns how many times the row occurs in the table |
| `AuthorModels.NoDuplicatesIffMultiplicityOne` | app/mod_auth/models.py:17-21 | the table has no duplicate rows exactly when no row occurs more than once |
| `AuthorModels.AppendKeepsNoDuplicates` | app/mod_auth/models.py:110-112 | appending a row that `is_following` found absent keeps the rows distinct |
| `AuthorModels.RemoveDeletesOnlyThatRow` | app/mod_auth/models.py:122-124 | without duplicates, deleting `(a, b)` leaves it absent, keeps every other row present or absent as before, keeps rows distinct, and shrinks the table by one exactly when the row was there |
| `AuthorModels.RemoveAppended` | app/mod_auth/models.py:102-124 | deleting the row `follow` just appended restores the table exactly |
| `AuthorModels.CountsAfterAppend` | app/mod_auth/models.py:65-71 | a new row `(a, b)` raises `a.following.count()` and `b.followers.count()` by one each and changes no other count |
| `AuthorModels.CountsAfterRemove` | app/mod_auth/models.py:65-71 | deleting the row `(a, b)` lowers the same two counts by one each and changes no other count |
| `AuthorModels.FollowThenUnfollowRestores` | app/mod_auth/models.py:102-124 | starting from an unlinked pair, a follow links it and raises both counts by one, and an unfollow then restores the original table |
| `AuthorModels.NewAuthorsFollowScenario` | tests/test_models.py:111-157 | two new accounts: the first follow returns the follower and a second follow returns nothing; each count is then 1 and the reverse pair is not linked; the unfollow returns the follower and both counts drop to 0; unfollowing an account not followed returns nothing |
| `AuthorModels.FollowersTable.constructor` | app/mod_auth/models.py:17-21 | a new table is empty and satisfies the no-duplicates invariant |
| `AuthorModels.FollowersTable.IsFollowingQuery` | app/mod_auth/models.py:126-139 | `is_following` answers whether the row `(a, b)` exists and changes nothing |
| `AuthorModels.FollowersTable.Follow` | app/mod_auth/models.py:102-112 | it does what `FollowStep` defines: on an unlinked pair, including `a == b`, it appends exactly the row `(a, b)` and returns `a`; on a linked pair it changes nothing and returns None. Afterwards the pair is linked, every other row is as before, and rows stay distinct |
| `AuthorModels.FollowersTable.Unfollow` | app/mod_auth/models.py:114-124 | it does what `UnfollowStep` defines: on a linked pair it deletes the row `(a, b)` (the table shrinks by one) and returns `a`; on an unlinked pair it changes nothing and returns None. Afterwards the pair is unlinked, every other row is as before, and rows stay distinct |
| `StoryFeed.SelectRows` | app/mod_auth/models.py:99-100 | the join and filter select exactly the stories with a joining row that passes the filter, each table row as often as it is in the table |
| `StoryFeed.InsertNewestFirst` | app/mod_auth/models.py:100 | inserting into a newest-first list keeps it newest-first and adds exactly that story |
| `StoryFeed.SortNewestFirst` | app/mod_auth/models.py:100 | `order_by(date_created.desc())` returns a permutation of its input whose `date_created` never increases |
| `StoryFeed.FollowedStories` | app/mod_auth/models.py:99-100 | the feed is newest first; it holds exactly the selected table rows, each as often as in the table |
| `StoryFeed.FollowedStoriesAsWritten` | app/mod_auth/models.py:99-100 | every story in the feed has `author_id == self.id`; the feed is empty unless some row has `followed_id == self.id`; when one does, it holds all of `self`'s stories |
| `StoryFeed.FollowedStoriesNoRepeats` | app/mod_auth/models.py:99-100 | with distinct story ids in the table, the feed lists no story twice, even when several rows join with it |
| `StoryFeed.SelectRowsKeepsDistinctIds` | app/mod_auth/models.py:99-100 | filtering keeps story ids distinct |
| `StoryFeed.SortKeepsDistinctIds` | app/mod_auth/models.py:100 | ordering keeps story ids distinct |
| `StoryFeed.InsertKeepsDistinctIds` | app/mod_auth/models.py:100 | inserting a story with a new id keeps ids distinct |
| `StoryFeed.FollowedStoriesIsJoin` | app/mod_auth/models.py:99-100 | as a set, the feed is the set of stories in the rows of the literal join `story JOIN followers ON followed_id == author_id WHERE followed_id == self.id` |
| `StoryFeed.SelfFollowerSeesOwnStories` | app/mod_auth/views.py:65-66 | with the self row that registration adds, the feed holds exactly the account's own stories |
| `StoryFeed.IntendedFollowedStories` | app/mod_auth/models.py:87-98 | what the query's documentation describes: newest first, and a story is listed exactly when `self` follows its author, each table row as often as it is in the table |
| `StoryFeed.SelectRowsAsIntended` | app/mod_auth/models.py:87-98 | selects exactly the stories whose author `self` follows, each table row as often as it is in the table |
| `StoryFeed.FeedAsWrittenMissesFollowedAuthor` | app/mod_auth/models.py:99-100 | account 1 follows account 2, who wrote story 10: the query as written returns nothing, the intended feed returns story 10 |
| `StoryFeed.FeedAsWrittenShowsNonFollowedAuthor` | app/mod_auth/models.py:99-100 | account 2 follows account 1, and account 1 follows nobody: the query as written shows account 1 its own story, the intended feed is empty |
| `StoryFeed.DatesAtMostPermutation` | app/mod_auth/models.py:100 | a date bound on a list holds on any permutation of it |
| `StoryFeed.PrependKeepsNewestFirst` | app/mod_auth/models.py:100 | putting a story no older than the rest in front keeps the list newest first |
| `UserViews.FindByUsername` | app/mod_user/views.py:20 | the lookup returns an account with that username, and it returns nothing exactly when no account has that username |
| `UserViews.FindByUsernameUnique` | app/mod_auth/models.py:54 | since usernames are unique, the lookup finds the one account of that name, so a request concerns at most one pair |
| `UserViews.FollowResponse` | app/mod_user/views.py:12-41 | NotFound exactly when no account has the name. Any outcome but Ok leaves the table unchanged. SelfTarget means the name is the current user's. Refused means current already follows the target. Ok means the target is another account that current did not follow, and exactly the row `(current, target)` is appended. No self row is ever added or removed, and distinct rows stay distinct |
| `UserViews.UnfollowResponse` | app/mod_user/views.py:44-71 | NotFound exactly when no account has the name. Any outcome but Ok leaves the table unchanged. SelfTarget means the name is the current user's. Refused means current does not follow the target. Ok means current followed that other account, and one copy of exactly the row `(current, target)` is deleted (without duplicates the pair is then unlinked). No self row is ever added or removed, and distinct rows stay distinct |
| `UserViews.FollowThenUnfollowRequest` | app/mod_user/views.py:12-71 | after a successful follow request, an unfollow request for the same name succeeds and restores the original table |
| `UserViews.FollowRoute` | app/mod_user/views.py:12-41 | the follow route on the shared table gives the outcome and new table that `FollowResponse` states, and it keeps the no-duplicates invariant |
| `UserViews.UnfollowRoute` | app/mod_user/views.py:44-71 | the unfollow route on the shared table gives the outcome and new table that `UnfollowResponse` states, and it keeps the no-duplicates invariant |
| `SetupEnvvar.LeadingSpaces` | scripts/setup_envvar.py:17 | the length of the whitespace run at the start of the line: all of it is whitespace, and the next character is not |
| `SetupEnvvar.TrailingStart` | scripts/setup_envvar.py:17 | where the whitespace run at the end of the line begins: everything from there on is whitespace, and the character before it is not |
| `SetupEnvvar.Strip` | scripts/setup_envvar.py:17 | `strip()` returns the contiguous middle of the line after dropping the whitespace run at each end; the result neither starts nor ends with whitespace |
| `SetupEnvvar.Split` | scripts/setup_envvar.py:17 | `split("=")` returns one part more than there are `=` characters, and no part contains `=` |
| `SetupEnvvar.JoinSplit` | scripts/setup_envvar.py:17 | joining the parts of `split` with the separator gives the text back |
| `SetupEnvvar.SplitWithoutSeparator` | scripts/setup_envvar.py:17 | a text with no `=` splits into itself alone |
| `SetupEnvvar.SplitPrefix` | scripts/setup_envvar.py:17 | a prefix with no `=` is glued onto the first part of the split |
| `SetupEnvvar.SplitAroundSeparator` | scripts/setup_envvar.py:17-18 | `k=v`, with no `=` in `k` or `v`, splits into exactly `[k, v]` |
| `SetupEnvvar.ParseLine` | scripts/setup_envvar.py:17-18 | a line is applied exactly when its stripped text holds exactly one `=`; then the stripped text is `name=value`, and neither part contains `=` |
| `SetupEnvvar.ParseLineExact` | scripts/setup_envvar.py:17-19 | conversely, a line whose stripped text is `k=v` with no other `=` is applied as the pair `(k, v)` |
| `SetupEnvvar.ParseEmptyValue` | scripts/setup_envvar.py:17-19 | `KEY=` assigns the empty string to `KEY` |
| `SetupEnvvar.ParseKeepsInnerSpaces` | scripts/setup_envvar.py:17 | `  A = b ` assigns `" b"` to `"A "`: only the ends of the whole line are stripped |
| `SetupEnvvar.ParseNoSeparator` | scripts/setup_envvar.py:18 | a line without `=` is skipped |
| `SetupEnvvar.ParseTwoSeparators` | scripts/setup_envvar.py:18 | a line with two `=` is skipped |
| `SetupEnvvar.SetupEnvvariables` | scripts/setup_envvar.py:9-19 | without a `.env` file the environment is unchanged and nothing raises; otherwise the environment and the raised flag are those of applying each line's assignment in file order, up to the first assignment that raises |
| `SetupEnvvar.RaisedIsFinal` | scripts/setup_envvar.py:16-19 | once an assignment has raised, the later lines change nothing |
| `SetupEnvvar.RaisesIffRejectedLine` | scripts/setup_envvar.py:19 | the loop raises exactly when some applied line has an empty name or a NUL in its name or value |
| `SetupEnvvar.StopsAtFirstRejected` | scripts/setup_envvar.py:16-19 | at the first line whose assignment raises, the loop stops with the environment the earlier lines produced |
| `SetupEnvvar.EmptyNameRaises` | scripts/setup_envvar.py:17-19 | the lines `=v` and `A=b`: the first assignment raises, the environment stays as it was, and `A` is never set |
| `SetupEnvvar.UnsetKeysUnchanged` | scripts/setup_envvar.py:19 | a name that no line sets, counting a refused line as setting nothing, keeps its previous value or stays unset |
| `SetupEnvvar.LastLineWins` | scripts/setup_envvar.py:16-19 | when nothing raised, if a line sets a name and no later line sets it, that line's value is the final one |
| `SetupEnvvar.KeysAfterApply` | scripts/setup_envvar.py:16-19 | only names set before or set by some applied line are set afterwards; when nothing raised, each of them is set |

## Findings

| source | as written | input that shows it | evidently intended | confidence | as-written member | corrected member |
|---|---|---|---|---|---|---|
| app/mod_auth/models.py:99-100 | the join and the filter both use `followers.c.followed_id`, so the feed holds `self`'s own stories, and only when someone follows `self` | rows `[(1, 2)]`, story 10 by author 2, feed of account 1: empty, although 1 follows 2. Rows `[(2, 1)]`, story 10 by author 1: account 1 sees it, although it follows nobody | the stories of the authors `self` follows: filter on `follower_id == self.id` (the doc-comment at lines 87-98) | high; not executed | `StoryFeed.FeedAsWrittenMissesFollowedAuthor` | `StoryFeed.IntendedFollowedStories` |

The feed is modelled as the code is written: `StoryFeed.FollowedStories`.
The doc-comment of `followed_stories` (app/mod_auth/models.py:88-97) says
the feed holds the stories of the authors this account follows, and this
model follows the code instead. The bug goes unnoticed
because registration makes every account follow itself (app/mod_auth/views.py:65-66).
With that row present, the query returns the account's own stories
(`StoryFeed.SelfFollowerSeesOwnStories`). No other part of this model uses
the feed.

## Left out

- Password hashing and checking, and the Gravatar URL built from an MD5 of the email: these are opaque library calls.
- Confirmation tokens (app/mod_auth/token.py) and the OAuth providers (oauth.py, facebook_auth.py, twitter_auth.py, controllers.py): serialisation and network calls through third-party libraries.
- The asynchronous operation and callback routes, the login, register, confirm, dashboard and home views, the `check_confirmed` decorator and email sending: request, session and thread plumbing. From registration the model keeps only the self-follow, as `Follow(a, a)` and `StoryFeed.SelfFollowerSeesOwnStories`.
- The form classes, `config.py`, blueprint registration, `manage.py` and the seeding scripts: configuration and loading code.
- Database transactions: `session.add`, `commit` and rollback, check-then-insert races between concurrent requests, and timestamps from the database. Each follow, unfollow or route request is one atomic step, and `date_created` is a given integer.
- Account and story rows other than the columns the core reads (`id`, `username`, `author_id`, `date_created`).
- `author == current_user` in the routes is the identity of two ORM entities; it is modelled as equal primary keys.
- The flash message texts and the redirect targets of the routes, reduced to the `Outcome` enum.
- `AuthorModels.FollowersTable.Unfollow`: `following.remove` on a table that already holds duplicate rows is not modelled as the ORM would behave; the model deletes the first copy. The no-duplicates invariant rules such tables out for the class.
- `StoryFeed.SortNewestFirst`: the database's order among stories with equal `date_created` is unspecified. The model fixes one order, and its contract promises only the non-increasing order and the permutation.
- `print("Importing environment variables")`, opening and reading the file (its lines arrive as a sequence, each with its line ending), and the check for the file's existence (it arrives as a boolean).
- `SetupEnvvar.SetupEnvvariables` returns the new environment as a map; it does not model the `putenv` side effect of assigning to `os.environ`.
- `SetupEnvvar.SetupEnvvariables` models the refusals of `os.environ` assignment as CPython 3.9 and later raises them on POSIX systems. It does not model a name or value that cannot be encoded in the file-system encoding, or how other platforms and older Python versions treat an empty name. The exception itself becomes the `raised` flag.
