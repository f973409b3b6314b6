# Friendship edges: request state machine and friend queries

A Dafny model of the friendship component of house-now-test. Users keep a
`friendships` table of directed edges `userId -> friendUserId`. Each edge has a
status: `requested`, `accepted` or `declined`. The friendship request router
changes these edges: `send` asks someone to be friends, `accept` answers yes,
`decline` answers no. The "my friend" router reads them: a user's total of
accepted edges, the mutual friend count of two users, and a friend's profile,
which is visible only through an accepted edge.

Files and modules:

- `friendship_schema.dfy`, module `FriendshipSchema`: user ids, the status enum,
  the table as a `map<(UserId, UserId), Status>` and the tRPC error codes
  (`BAD_REQUEST`, `NOT_FOUND`). A map holds one status per ordered pair. That is
  the "at most one edge per pair" invariant.
- `friendship_state_machine.dfy`, module `FriendshipStateMachine`: the two guards
  and the three mutations as pure functions from the table before to the table
  after. A `Failure` result means the transaction aborted. It also proves that
  all three mutations keep friendship mutual (`AcceptedIsMutual`: if a -> b is
  accepted, so is b -> a).
- `friendship_request_router.dfy`, module `FriendshipRequestRouter`: class
  `FriendshipStore`, which holds the table and the set of user ids. Its methods
  `Send`, `Accept` and `Decline` do what the router does: guard, look up an
  edge, branch, then insert or update. Each is proved to commit exactly the
  state-machine result, or to leave the table unchanged on rejection.
  `InsertInto` requires that the pair has no row. So every insert must sit on
  a branch where a lookup just found no edge, and the verifier checks that.
- `my_friend_router.dfy`, module `MyFriendRouter`: the queries as functions of
  the table, so none of them can modify it. The grouped total and the self-join
  are modelled as the SQL computes them: a map from owner to row count, and the
  count of join rows. They are proved equal to set cardinalities over
  `Friends(e, u)`, the set of users `u` has an accepted edge to.

The session user is a plain `actor` (or `viewer`) parameter. The database is the
store's `edges` map plus a `users` set of ids.

Where the code and the design description of the system differ, the model
follows the code:

- Every rejection in the request router is `BAD_REQUEST`. This covers a
  missing target user, a repeated request, and an accept or decline with no
  `requested` edge. The design description instead names `InvalidTransition`
  and `NotFound` for these cases.
- No check requires `userId != friendUserId`. A user can send a request to
  themselves (`SelfRequestIsNotRejected`).
- `getById` also fails with `NOT_FOUND` in two more cases. One is when the
  friend is not in the `users` table (the inner join with `users`). The other
  is when the friend has no accepted out-edge at all (the inner join with the
  grouped total). `GetByIdForMutualFriendship` shows that the second case never
  arises while friendship is mutual, and every store starts and stays mutual.
- `accept` returns nothing. Its message is returned from inside the
  transaction callback and dropped.

## Model

| member | source | states |
|---|---|---|
| FriendshipStateMachine.CanSendFriendshipRequest | src/server/api/routers/friendship-request-router.ts:14-32 | passes exactly when the target id is in the users table, otherwise fails with BAD_REQUEST |
| FriendshipStateMachine.CanAnswerFriendshipRequest | src/server/api/routers/friendship-request-router.ts:38-61 | passes exactly when the edge requester -> actor exists with status requested, otherwise fails with BAD_REQUEST |
| FriendshipStateMachine.Send | src/server/api/routers/friendship-request-router.ts:64-112 | rejected with BAD_REQUEST exactly when the target is not a user or actor -> target is requested or accepted; on success actor -> target is requested, the only key added is that pair (insert when absent, update when declined), and every other edge keeps its status |
| FriendshipStateMachine.Accept | src/server/api/routers/friendship-request-router.ts:114-161 | rejected with BAD_REQUEST unless requester -> actor is requested; on success both requester -> actor and actor -> requester are accepted, the only key that can be added is actor -> requester, and no other edge changes |
| FriendshipStateMachine.Decline | src/server/api/routers/friendship-request-router.ts:163-179 | rejected with BAD_REQUEST unless requester -> actor is requested; on success that edge is declined, no key is added, and every other edge, the actor's own included, is unchanged |
| FriendshipStateMachine.SendPreservesMutualAcceptance | src/server/api/routers/friendship-request-router.ts:68-108 | a successful send keeps "a -> b accepted implies b -> a accepted" |
| FriendshipStateMachine.AcceptPreservesMutualAcceptance | src/server/api/routers/friendship-request-router.ts:118-160 | a successful accept keeps friendship mutual: it never leaves only one direction accepted |
| FriendshipStateMachine.DeclinePreservesMutualAcceptance | src/server/api/routers/friendship-request-router.ts:167-176 | a successful decline keeps friendship mutual |
| FriendshipStateMachine.AcceptedPairIsSettled | src/server/api/routers/friendship-request-router.ts:38-112 | after an accept, a repeated accept or a decline is rejected with BAD_REQUEST, and a new request in either direction is rejected |
| FriendshipStateMachine.DeclinedRequestCanBeResent | src/server/api/routers/friendship-request-router.ts:78-89 | after a decline the requester may send again (if the decliner is a user), and the edge is requested anew |
| FriendshipStateMachine.SelfRequestIsNotRejected | src/server/api/routers/friendship-request-router.ts:14-32 | a user in the users table can send a request to themselves when there is no such edge yet |
| FriendshipRequestRouter.FriendshipStore.SelectEdge | src/server/api/routers/friendship-request-router.ts:70-75 | finds a row exactly when the pair has an edge, and returns that edge's status |
| FriendshipRequestRouter.FriendshipStore.InsertInto | src/server/api/routers/friendship-request-router.ts:100-107 | adds the edge for a pair that has none and changes nothing else |
| FriendshipRequestRouter.FriendshipStore.UpdateTable | src/server/api/routers/friendship-request-router.ts:83-89 | rewrites the status of an existing edge (1 row affected); with no matching row, leaves the table unchanged (0 rows) |
| FriendshipRequestRouter.FriendshipStore.Send | src/server/api/routers/friendship-request-router.ts:64-112 | the guard, then lookup, then update, insert or abort; the table afterwards is exactly FriendshipStateMachine.Send's result, or unchanged with the same error; users never change; mutual friendship is kept |
| FriendshipRequestRouter.FriendshipStore.Accept | src/server/api/routers/friendship-request-router.ts:114-161 | the guard, then update the request, look up the reverse edge, and insert or update it; the table afterwards is exactly FriendshipStateMachine.Accept's result, or unchanged on rejection |
| FriendshipRequestRouter.FriendshipStore.Decline | src/server/api/routers/friendship-request-router.ts:163-179 | the guard, then one update; the table afterwards is exactly FriendshipStateMachine.Decline's result, or unchanged on rejection |
| MyFriendRouter.Friends | src/server/api/routers/my-friend-router.ts:73-82 | x is a friend of u exactly when u -> x is accepted; requested and declined edges do not count |
| MyFriendRouter.GroupCountIsFriendCount | src/server/api/routers/my-friend-router.ts:77-81 | the number of accepted rows owned by u equals the number of distinct users u has an accepted edge to |
| MyFriendRouter.UserTotalFriendCount | src/server/api/routers/my-friend-router.ts:73-82 | the grouped count has an entry for u exactly when u has an accepted out-edge, and that entry is the number of u's accepted out-edges |
| MyFriendRouter.UserMutualFriendCount | src/server/api/routers/my-friend-router.ts:12-26 | the number of self-join rows equals the number of X with both a -> X and b -> X accepted |
| MyFriendRouter.MutualFriendCountSymmetric | src/server/api/routers/my-friend-router.ts:17-24 | the mutual friend count of (a, b) equals that of (b, a) |
| MyFriendRouter.MutualFriendCountBounded | src/server/api/routers/my-friend-router.ts:17-24 | the mutual friend count is at most the friend count of either user (and at most their grouped total), and it is 0 when either user has no group in the total |
| MyFriendRouter.MutualFriendCountExample | src/server/api/routers/my-friend-router.ts:17-24 | two users with accepted edges to the same two users share exactly two friends; a requested edge does not count |
| MyFriendRouter.GetById | src/server/api/routers/my-friend-router.ts:29-70 | succeeds exactly when the friend is a user, viewer -> friend is accepted and the friend has an accepted out-edge, whatever the status of friend -> viewer; otherwise fails with NOT_FOUND; on success it returns the friend's id, the friend's own total (not the viewer's) and the mutual friend count of viewer and friend |
| MyFriendRouter.GetByIdForMutualFriendship | src/server/api/routers/my-friend-router.ts:41-52 | while friendship is mutual, the profile is visible exactly when the friend is a user and viewer -> friend is accepted, and the friend's total is then at least 1 |
| MyFriendRouter.ProfileVisibilityIsMutual | src/server/api/routers/my-friend-router.ts:36-69 | while friendship is mutual, of two users either both see each other's profile or neither does, and both see the same mutual friend count |

## Left out

- tRPC routing, procedures, the `authGuard` middleware and the session. The acting user is a parameter; an unauthenticated caller is not modelled.
- zod input parsing (`IdSchema` and the input schemas). Ids are plain integers, already valid.
- `FriendshipStatusSchema` (src/utils/server/friendship-schemas.ts) is not part of this model. Its three values are the `Status` datatype.
- Kysely query building, `ctx.db.connection()` and the transaction object. A transaction is all or nothing: the committed state, or the unchanged state on rejection. Connection and storage failures are not modelled.
- Concurrency: racing `send` or `accept` calls, isolation levels, and the parallel reads of `Promise.all`. The two reads of `getById` are taken from one table value.
- The human-readable messages the mutations return.
- MyFriendRouter.GetById: does not return the profile columns `fullName` and `phoneNumber`; the profile is opaque, only its id and the two counts are modelled.
- SQL `count` results as the database driver returns them (bigint or string). The counts are natural numbers.
- No `userId != friendUserId` check exists in the code, and crossed simultaneous requests get no special handling. The model keeps both behaviours and enforces neither.
