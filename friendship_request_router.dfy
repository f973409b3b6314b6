/** The friendship request router: `send`, `accept` and `decline` as methods on the
    `friendships` table, each a read-decide-write step that commits the state
    `FriendshipStateMachine` prescribes or, when rejected, leaves the table as it
    was (the transaction aborts before any write). */
module FriendshipRequestRouter {
  import opened FriendshipSchema
  import SM = FriendshipStateMachine

  /** A mutation's effect on the table is all or nothing: on success the table is
      the one the state machine prescribes, on rejection it is unchanged and the
      caller sees the state machine's error. */
  ghost predicate Committed(spec: Result<Edges>, r: Outcome, before: Edges, after: Edges)
  {
    match spec
    case Success(next) => r == Pass && after == next
    case Failure(err) => r == Fail(err) && after == before
  }

  /** The database the routers see: the `friendships` table and the ids of the
      `users` table. */
  class FriendshipStore {
    var edges: Edges
    var users: set<UserId>

    constructor (users: set<UserId>)
      ensures this.edges == map[] && this.users == users
      ensures SM.AcceptedIsMutual(this.edges)
    {
      this.edges := map[];
      this.users := users;
    }

    /** The friendship row for (owner, target), if any. */
    method SelectEdge(owner: UserId, target: UserId) returns (found: Option<Status>)
      ensures found.Some? <==> (owner, target) in edges
      ensures found.Some? ==> found.value == edges[(owner, target)]
    {
      found := Lookup(edges, owner, target);
    }

    /** `insertInto('friendships')`. A map holds one status per pair, so an insert
        is only allowed where a lookup has just found no row for the pair: every
        call site proves that, which is how the table keeps at most one edge per
        ordered pair. */
    method InsertInto(owner: UserId, target: UserId, status: Status)
      requires (owner, target) !in edges
      modifies this
      ensures edges == old(edges)[(owner, target) := status]
      ensures users == old(users)
    {
      edges := edges[(owner, target) := status];
    }

    /** `updateTable('friendships').set({status}).where(...)`: rewrites the row of
        the pair if there is one, and is a no-op otherwise. */
    method UpdateTable(owner: UserId, target: UserId, status: Status) returns (rowsAffected: nat)
      modifies this
      ensures (owner, target) in old(edges) ==>
                edges == old(edges)[(owner, target) := status] && rowsAffected == 1
      ensures (owner, target) !in old(edges) ==> edges == old(edges) && rowsAffected == 0
      ensures users == old(users)
    {
      if (owner, target) in edges {
        edges := edges[(owner, target) := status];
        rowsAffected := 1;
      } else {
        rowsAffected := 0;
      }
    }

    /** `send`, behind the `canSendFriendshipRequest` guard. */
    method Send(actor: UserId, friendUserId: UserId) returns (r: Outcome)
      modifies this
      ensures Committed(SM.Send(old(edges), old(users), actor, friendUserId), r, old(edges), edges)
      ensures users == old(users)
      ensures SM.AcceptedIsMutual(old(edges)) ==> SM.AcceptedIsMutual(edges)
    {
      if SM.AcceptedIsMutual(edges) {
        SM.SendPreservesMutualAcceptance(edges, users, actor, friendUserId);
      }
      r := SM.CanSendFriendshipRequest(users, friendUserId);
      if r.Fail? {
        return;
      }
      // the transaction
      var existing := SelectEdge(actor, friendUserId);
      match existing
      case Some(Declined) =>
        var _ := UpdateTable(actor, friendUserId, Requested);
      case Some(_) =>
        // thrown inside the transaction before any write: it rolls back
        r := Fail(BadRequest);
      case None =>
        InsertInto(actor, friendUserId, Requested);
    }

    /** `accept`, behind the `canAnswerFriendshipRequest` guard. The mutation
        itself returns nothing. */
    method Accept(actor: UserId, friendUserId: UserId) returns (r: Outcome)
      modifies this
      ensures Committed(SM.Accept(old(edges), actor, friendUserId), r, old(edges), edges)
      ensures users == old(users)
      ensures SM.AcceptedIsMutual(old(edges)) ==> SM.AcceptedIsMutual(edges)
    {
      if SM.AcceptedIsMutual(edges) {
        SM.AcceptPreservesMutualAcceptance(edges, actor, friendUserId);
      }
      r := SM.CanAnswerFriendshipRequest(edges, actor, friendUserId);
      if r.Fail? {
        return;
      }
      // the transaction: accept the request, then make the reverse edge accepted
      var _ := UpdateTable(friendUserId, actor, Accepted);
      var existing := SelectEdge(actor, friendUserId);
      if existing.None? {
        InsertInto(actor, friendUserId, Accepted);
      } else {
        var _ := UpdateTable(actor, friendUserId, Accepted);
      }
    }

    /** `decline`, behind the `canAnswerFriendshipRequest` guard. */
    method Decline(actor: UserId, friendUserId: UserId) returns (r: Outcome)
      modifies this
      ensures Committed(SM.Decline(old(edges), actor, friendUserId), r, old(edges), edges)
      ensures users == old(users)
      ensures SM.AcceptedIsMutual(old(edges)) ==> SM.AcceptedIsMutual(edges)
    {
      if SM.AcceptedIsMutual(edges) {
        SM.DeclinePreservesMutualAcceptance(edges, actor, friendUserId);
      }
      r := SM.CanAnswerFriendshipRequest(edges, actor, friendUserId);
      if r.Fail? {
        return;
      }
      var _ := UpdateTable(friendUserId, actor, Declined);
    }
  }
}
