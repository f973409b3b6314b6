/** The read-only queries of the "my friend" router over the `friendships`
    table: the per-user total of accepted edges (a grouped count), the mutual
    friend count (a self-join on the shared target) and the friend profile
    lookup gated by an accepted edge. Every query is a function of the table,
    so none of them can change it. */
module MyFriendRouter {
  import opened FriendshipSchema
  import SM = FriendshipStateMachine

  /** The rows of `friendships` owned by `u` with status `accepted`: the group of
      `u` in `userTotalFriendCount`. */
  function AcceptedRowsOf(e: Edges, u: UserId): set<Pair>
  {
    set k | k in e && k.0 == u && e[k] == Accepted
  }

  /** The targets (friendUserId) of a set of rows. */
  function Targets(rows: set<Pair>): set<UserId>
  {
    set k | k in rows :: k.1
  }

  /** The users `u` has an accepted edge to. */
  function Friends(e: Edges, u: UserId): (friends: set<UserId>)
    ensures forall x :: x in friends <==> IsAccepted(e, u, x)
  {
    var friends := Targets(AcceptedRowsOf(e, u));
    assert forall x | IsAccepted(e, u, x) :: (u, x) in AcceptedRowsOf(e, u);
    friends
  }

  /** Rows that all have the same owner have pairwise distinct targets, so
      there are as many targets as rows. */
  lemma {:induction false} TargetsCardinality(rows: set<Pair>, u: UserId)
    requires forall k | k in rows :: k.0 == u
    ensures |Targets(rows)| == |rows|
    decreases |rows|
  {
    if rows != {} {
      var k :| k in rows;
      var rest := rows - {k};
      TargetsCardinality(rest, u);
      assert Targets(rows) == Targets(rest) + {k.1};
      assert k.1 !in Targets(rest);
    }
  }

  /** One user's accepted rows have distinct targets, so counting the rows
      counts the friends. */
  lemma GroupCountIsFriendCount(e: Edges, u: UserId)
    ensures |AcceptedRowsOf(e, u)| == |Friends(e, u)|
  {
    TargetsCardinality(AcceptedRowsOf(e, u), u);
  }

  /** `userTotalFriendCount`: the accepted rows grouped by owner and counted.
      A user with no accepted edge has no group at all. */
  function UserTotalFriendCount(e: Edges): (totals: map<UserId, nat>)
    ensures forall u :: u in totals <==> Friends(e, u) != {}
    ensures forall u | u in totals :: totals[u] == |Friends(e, u)|
  {
    var owners := set k | k in e && e[k] == Accepted :: k.0;
    var totals := map u | u in owners :: |AcceptedRowsOf(e, u)|;
    assert forall u | u in totals :: totals[u] == |Friends(e, u)| by {
      forall u | u in totals ensures totals[u] == |Friends(e, u)| {
        GroupCountIsFriendCount(e, u);
      }
    }
    assert forall u | u in owners :: Friends(e, u) != {} by {
      forall u | u in owners ensures Friends(e, u) != {} {
        var k :| k in e && e[k] == Accepted && k.0 == u;
        assert k.1 in Friends(e, u);
      }
    }
    assert forall u, x | IsAccepted(e, u, x) :: u in owners by {
      forall u, x | IsAccepted(e, u, x) ensures u in owners {
        assert (u, x) in e && e[(u, x)] == Accepted;
      }
    }
    totals
  }

  /** The rows of `friendships as f1 inner join friendships as f2 on
      f1.friendUserId = f2.friendUserId`, with f1 owned by `a`, f2 owned by `b`
      and both `accepted`. */
  function MutualJoinRows(e: Edges, a: UserId, b: UserId): set<(Pair, Pair)>
  {
    set f1, f2 | f1 in e && f2 in e && f1.1 == f2.1 && f1.0 == a && f2.0 == b
                 && e[f1] == Accepted && e[f2] == Accepted :: (f1, f2)
  }

  /** The shared targets of a set of join rows. */
  function JoinTargets(rows: set<(Pair, Pair)>): set<UserId>
  {
    set j | j in rows :: j.0.1
  }

  /** Join rows of a fixed pair of owners are determined by their shared target,
      so there are as many shared targets as rows. */
  lemma {:induction false} JoinTargetsCardinality(rows: set<(Pair, Pair)>, a: UserId, b: UserId)
    requires forall j | j in rows :: j == ((a, j.0.1), (b, j.0.1))
    ensures |JoinTargets(rows)| == |rows|
    decreases |rows|
  {
    if rows != {} {
      var j :| j in rows;
      var rest := rows - {j};
      JoinTargetsCardinality(rest, a, b);
      assert JoinTargets(rows) == JoinTargets(rest) + {j.0.1};
      assert j.0.1 !in JoinTargets(rest);
    }
  }

  /** `userMutualFriendCount`: the number of rows of the join, which is the number
      of users both `a` and `b` have an accepted edge to. */
  function UserMutualFriendCount(e: Edges, a: UserId, b: UserId): (n: nat)
    ensures n == |Friends(e, a) * Friends(e, b)|
  {
    var rows := MutualJoinRows(e, a, b);
    JoinTargetsCardinality(rows, a, b);
    assert JoinTargets(rows) == Friends(e, a) * Friends(e, b) by {
      forall x | x in Friends(e, a) * Friends(e, b) ensures x in JoinTargets(rows) {
        assert ((a, x), (b, x)) in rows;
      }
    }
    |rows|
  }

  /** The mutual friend count does not depend on which of the two users asks. */
  lemma MutualFriendCountSymmetric(e: Edges, a: UserId, b: UserId)
    ensures UserMutualFriendCount(e, a, b) == UserMutualFriendCount(e, b, a)
  {
    assert Friends(e, a) * Friends(e, b) == Friends(e, b) * Friends(e, a);
  }

  /** Two users cannot share more friends than either of them has, and a user
      without a group in `userTotalFriendCount` shares none. */
  lemma MutualFriendCountBounded(e: Edges, a: UserId, b: UserId)
    ensures UserMutualFriendCount(e, a, b) <= |Friends(e, a)|
    ensures UserMutualFriendCount(e, a, b) <= |Friends(e, b)|
    ensures a in UserTotalFriendCount(e) ==> UserMutualFriendCount(e, a, b) <= UserTotalFriendCount(e)[a]
    ensures b in UserTotalFriendCount(e) ==> UserMutualFriendCount(e, a, b) <= UserTotalFriendCount(e)[b]
    ensures a !in UserTotalFriendCount(e) || b !in UserTotalFriendCount(e) ==>
              UserMutualFriendCount(e, a, b) == 0
  {
    var fa, fb := Friends(e, a), Friends(e, b);
    assert fa == (fa - fb) + fa * fb;
    assert fb == (fb - fa) + fa * fb;
  }

  /** Users 1 and 2 both have accepted edges to 3 and 4; 1 also has one to 5,
      which 2 has only requested, and 2 alone has one to 6: they share two
      friends. */
  lemma MutualFriendCountExample()
    ensures UserMutualFriendCount(map[(1, 3) := Accepted, (1, 4) := Accepted, (1, 5) := Accepted,
                                     (2, 3) := Accepted, (2, 4) := Accepted, (2, 5) := Requested,
                                     (2, 6) := Accepted], 1, 2) == 2
  {
    var e := map[(1, 3) := Accepted, (1, 4) := Accepted, (1, 5) := Accepted,
                 (2, 3) := Accepted, (2, 4) := Accepted, (2, 5) := Requested,
                 (2, 6) := Accepted];
    assert Friends(e, 1) * Friends(e, 2) == {3, 4} by {
      forall x ensures x in Friends(e, 1) * Friends(e, 2) <==> x in {3, 4} {
        assert IsAccepted(e, 1, x) && IsAccepted(e, 2, x) <==> x == 3 || x == 4;
      }
    }
  }

  /** The row `getById` returns; the profile columns are left opaque. */
  datatype FriendInfo = FriendInfo(id: UserId, totalFriendCount: nat, mutualFriendCount: nat)

  /** `getById`: the profile of `friendUserId` as seen by `viewer`. The friend's
      row is found only through an accepted edge viewer -> friend, joined with
      the users table and with the friend's group in `userTotalFriendCount`. */
  function GetById(e: Edges, users: set<UserId>, viewer: UserId, friendUserId: UserId): (r: Result<FriendInfo>)
    ensures r.Success? <==>
      friendUserId in users && IsAccepted(e, viewer, friendUserId) && Friends(e, friendUserId) != {}
    ensures r.Failure? ==> r.error == NotFound
    ensures r.Success? ==> r.value.id == friendUserId
    ensures r.Success? ==> r.value.totalFriendCount == |Friends(e, friendUserId)|
    ensures r.Success? ==> r.value.mutualFriendCount == |Friends(e, viewer) * Friends(e, friendUserId)|
  {
    var totals := UserTotalFriendCount(e);
    var mutual := UserMutualFriendCount(e, viewer, friendUserId);
    if friendUserId in users && IsAccepted(e, viewer, friendUserId) && friendUserId in totals then
      Success(FriendInfo(friendUserId, totals[friendUserId], mutual))
    else
      Failure(NotFound)
  }

  /** In a table where friendship is mutual, the join with the friend's total
      never hides a friend: the profile is visible exactly when the viewer's edge
      is accepted, and the friend then has at least the viewer as a friend. */
  lemma GetByIdForMutualFriendship(e: Edges, users: set<UserId>, viewer: UserId, friendUserId: UserId)
    requires SM.AcceptedIsMutual(e)
    ensures GetById(e, users, viewer, friendUserId).Success? <==>
              friendUserId in users && IsAccepted(e, viewer, friendUserId)
    ensures GetById(e, users, viewer, friendUserId).Success? ==>
              GetById(e, users, viewer, friendUserId).value.totalFriendCount >= 1
  {
  }

  /** In a table where friendship is mutual, two users see each other's profile
      or neither does, and they see the same mutual friend count. */
  lemma ProfileVisibilityIsMutual(e: Edges, users: set<UserId>, a: UserId, b: UserId)
    requires SM.AcceptedIsMutual(e)
    requires a in users && b in users
    ensures GetById(e, users, a, b).Success? <==> GetById(e, users, b, a).Success?
    ensures GetById(e, users, a, b).Success? ==>
              GetById(e, users, a, b).value.mutualFriendCount ==
              GetById(e, users, b, a).value.mutualFriendCount
  {
    GetByIdForMutualFriendship(e, users, a, b);
    GetByIdForMutualFriendship(e, users, b, a);
    MutualFriendCountSymmetric(e, a, b);
  }
}
