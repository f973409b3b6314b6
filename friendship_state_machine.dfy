/** The decisions behind the three mutations of the friendship request router,
    as pure functions from the table before a mutation to the table after it.
    A `Failure` means the transaction was aborted: the table is left as it was.
    The imperative mutations of `FriendshipRequestRouter` are proved against
    these functions. */
module FriendshipStateMachine {
  import opened FriendshipSchema

  /** The `canSendFriendshipRequest` guard: the target must be a user. */
  function CanSendFriendshipRequest(users: set<UserId>, friendUserId: UserId): (r: Outcome)
    ensures r == Pass <==> friendUserId in users
    ensures r != Pass ==> r == Fail(BadRequest)
  {
    if friendUserId in users then Pass else Fail(BadRequest)
  }

  /** The `canAnswerFriendshipRequest` guard: the edge from the requester to the
      actor must exist and still be `requested`. */
  function CanAnswerFriendshipRequest(e: Edges, actor: UserId, friendUserId: UserId): (r: Outcome)
    ensures r == Pass <==> (friendUserId, actor) in e && e[(friendUserId, actor)] == Requested
    ensures r != Pass ==> r == Fail(BadRequest)
  {
    match Lookup(e, friendUserId, actor)
    case Some(Requested) => Pass
    case _ => Fail(BadRequest)
  }

  /** `send`: the actor asks `target` to be friends. An absent edge is created as
      `requested`, a `declined` one is revived; a `requested` or `accepted` edge
      makes the request fail. */
  function Send(e: Edges, users: set<UserId>, actor: UserId, target: UserId): (r: Result<Edges>)
    ensures r.Failure? <==>
      target !in users || ((actor, target) in e && e[(actor, target)] in {Requested, Accepted})
    ensures r.Failure? ==> r.error == BadRequest
    ensures r.Success? ==> r.value.Keys == e.Keys + {(actor, target)}
    ensures r.Success? ==> r.value[(actor, target)] == Requested
    ensures r.Success? ==> forall k | k in e && k != (actor, target) :: r.value[k] == e[k]
  {
    if CanSendFriendshipRequest(users, target).Fail? then
      Failure(BadRequest)
    else
      match Lookup(e, actor, target)
      case None => Success(e[(actor, target) := Requested])
      case Some(Declined) => Success(e[(actor, target) := Requested])
      case Some(_) => Failure(BadRequest)
  }

  /** `accept`: the actor accepts the request of `requester`. Both directions end
      up `accepted`; the actor's edge is created if it was absent. */
  function Accept(e: Edges, actor: UserId, requester: UserId): (r: Result<Edges>)
    ensures r.Failure? <==> !((requester, actor) in e && e[(requester, actor)] == Requested)
    ensures r.Failure? ==> r.error == BadRequest
    ensures r.Success? ==> IsAccepted(r.value, requester, actor) && IsAccepted(r.value, actor, requester)
    ensures r.Success? ==> r.value.Keys == e.Keys + {(actor, requester)}
    ensures r.Success? ==>
      forall k | k in e && k != (requester, actor) && k != (actor, requester) :: r.value[k] == e[k]
  {
    match CanAnswerFriendshipRequest(e, actor, requester)
    case Fail(err) => Failure(err)
    case Pass => Success(e[(requester, actor) := Accepted][(actor, requester) := Accepted])
  }

  /** `decline`: the actor declines the request of `requester`. Only the
      requester's edge changes; the actor's own edge is left alone. */
  function Decline(e: Edges, actor: UserId, requester: UserId): (r: Result<Edges>)
    ensures r.Failure? <==> !((requester, actor) in e && e[(requester, actor)] == Requested)
    ensures r.Failure? ==> r.error == BadRequest
    ensures r.Success? ==> r.value.Keys == e.Keys
    ensures r.Success? ==> r.value[(requester, actor)] == Declined
    ensures r.Success? ==> forall k | k in e && k != (requester, actor) :: r.value[k] == e[k]
  {
    match CanAnswerFriendshipRequest(e, actor, requester)
    case Fail(err) => Failure(err)
    case Pass => Success(e[(requester, actor) := Declined])
  }

  /** Friendship is mutual: whenever a -> b is `accepted`, so is b -> a. */
  ghost predicate AcceptedIsMutual(e: Edges)
  {
    forall a, b :: IsAccepted(e, a, b) ==> IsAccepted(e, b, a)
  }

  lemma SendPreservesMutualAcceptance(e: Edges, users: set<UserId>, actor: UserId, target: UserId)
    requires AcceptedIsMutual(e)
    ensures Send(e, users, actor, target).Success? ==> AcceptedIsMutual(Send(e, users, actor, target).value)
  {
    var r := Send(e, users, actor, target);
    if r.Success? {
      forall a, b | IsAccepted(r.value, a, b) ensures IsAccepted(r.value, b, a) {
        // the edge the request wrote is `requested`, so (a, b) is an old accepted edge
        assert (a, b) != (actor, target);
        assert IsAccepted(e, a, b);
        // and its reverse was accepted before, so the request did not touch it
        assert (b, a) != (actor, target);
      }
    }
  }

  lemma AcceptPreservesMutualAcceptance(e: Edges, actor: UserId, requester: UserId)
    requires AcceptedIsMutual(e)
    ensures Accept(e, actor, requester).Success? ==> AcceptedIsMutual(Accept(e, actor, requester).value)
  {
    var r := Accept(e, actor, requester);
    if r.Success? {
      forall a, b | IsAccepted(r.value, a, b) ensures IsAccepted(r.value, b, a) {
        if (a, b) != (requester, actor) && (a, b) != (actor, requester) {
          assert IsAccepted(e, a, b);
          // the requester's edge was `requested`, so it is not the reverse of an accepted edge
          assert (b, a) != (requester, actor);
        }
      }
    }
  }

  lemma DeclinePreservesMutualAcceptance(e: Edges, actor: UserId, requester: UserId)
    requires AcceptedIsMutual(e)
    ensures Decline(e, actor, requester).Success? ==> AcceptedIsMutual(Decline(e, actor, requester).value)
  {
    var r := Decline(e, actor, requester);
    if r.Success? {
      forall a, b | IsAccepted(r.value, a, b) ensures IsAccepted(r.value, b, a) {
        assert (a, b) != (requester, actor);
        assert IsAccepted(e, a, b);
        assert (b, a) != (requester, actor);
      }
    }
  }

  /** Once a request is accepted, retrying the acceptance is rejected, and so is
      a new request in either direction. */
  lemma AcceptedPairIsSettled(e: Edges, users: set<UserId>, actor: UserId, requester: UserId)
    requires Accept(e, actor, requester).Success?
    ensures Accept(Accept(e, actor, requester).value, actor, requester) == Failure(BadRequest)
    ensures Decline(Accept(e, actor, requester).value, actor, requester) == Failure(BadRequest)
    ensures Send(Accept(e, actor, requester).value, users, actor, requester).Failure?
    ensures Send(Accept(e, actor, requester).value, users, requester, actor).Failure?
  {
  }

  /** A declined request can be sent again, and it is then `requested` anew. */
  lemma DeclinedRequestCanBeResent(e: Edges, users: set<UserId>, actor: UserId, requester: UserId)
    requires Decline(e, actor, requester).Success?
    requires actor in users
    ensures Send(Decline(e, actor, requester).value, users, requester, actor) ==
            Success(e[(requester, actor) := Requested])
  {
    var declined := Decline(e, actor, requester).value;
    assert declined == e[(requester, actor) := Declined];
    assert declined[(requester, actor) := Requested] == e[(requester, actor) := Requested];
  }

  /** Nothing stops a user from asking themselves: the guard only checks that
      the target is a user. */
  lemma SelfRequestIsNotRejected(e: Edges, users: set<UserId>, u: UserId)
    requires u in users && (u, u) !in e
    ensures Send(e, users, u, u) == Success(e[(u, u) := Requested])
  {
  }
}
