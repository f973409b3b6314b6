/** The shared vocabulary of the friendship component: user ids, the status of a
    directed edge, the `friendships` table as a map, and the tRPC error codes the
    routers raise. */
module FriendshipSchema {

  /** A user id (the `users.id` column); ids arrive already parsed. */
  type UserId = int

  /** The key of a row of `friendships`: (userId, friendUserId), the owner of the
      edge first and its target second. */
  type Pair = (UserId, UserId)

  /** The values of the friendship status enum. */
  datatype Status = Requested | Accepted | Declined

  /** The `friendships` table. A map holds at most one status per ordered pair,
      which is the uniqueness the routers rely on. */
  type Edges = map<Pair, Status>

  /** The tRPC error codes the two routers throw. */
  datatype Error = BadRequest | NotFound

  datatype Option<T> = None | Some(value: T)

  /** The outcome of a query: a value, or the error it was rejected with. */
  datatype Result<T> = Success(value: T) | Failure(error: Error)

  /** The outcome of a guard or of a mutation, which return no data. */
  datatype Outcome = Pass | Fail(error: Error)

  /** `selectFrom('friendships') ... where userId = owner and friendUserId = target`,
      taking the first (and only) row. */
  function Lookup(e: Edges, owner: UserId, target: UserId): (found: Option<Status>)
    ensures found.Some? <==> (owner, target) in e
    ensures found.Some? ==> found.value == e[(owner, target)]
  {
    if (owner, target) in e then Some(e[(owner, target)]) else None
  }

  /** There is an edge owner -> target with status `accepted`. */
  predicate IsAccepted(e: Edges, owner: UserId, target: UserId)
  {
    (owner, target) in e && e[(owner, target)] == Accepted
  }
}
