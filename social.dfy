/**
 SocialNetworkUserImpl: the users a social-network user follows, grouped in
 named circles. The Java LinkedHashMap from circle name to LinkedHashSet of
 users is kept as `circles` (the map's keys in insertion order) and
 `followers` (each circle's members in insertion order).
 */
module SocialNetworkUserImpl {

  /** No element occurs twice. */
  ghost predicate Distinct<T>(s: seq<T>)
  {
    forall i, j :: 0 <= i < j < |s| ==> s[i] != s[j]
  }

  /** The members of a circle; none for a circle that does not exist. */
  function Members<U>(followers: map<string, seq<U>>, circle: string): seq<U>
  {
    if circle in followers then followers[circle] else []
  }

  /** The members of the given circles, circle after circle. */
  function Concat<U>(circles: seq<string>, followers: map<string, seq<U>>): seq<U>
  {
    if circles == [] then []
    else Concat(circles[..|circles| - 1], followers) + Members(followers, circles[|circles| - 1])
  }

  /**
   The bookkeeping of the followed users: `circles` lists each circle once,
   each circle holds each user once, and no user is in two circles.
   */
  ghost predicate WellFormed<U>(circles: seq<string>, followers: map<string, seq<U>>)
  {
    && Distinct(circles)
    && (forall c :: c in followers <==> c in circles)
    && (forall c :: c in followers ==> Distinct(followers[c]))
    && (forall c, d, u :: c in followers && d in followers && u in followers[c] && u in followers[d] ==> c == d)
  }

  /** A user is in the concatenation exactly when it is a member of one of the circles. */
  lemma {:induction false} ConcatMembers<U>(circles: seq<string>, followers: map<string, seq<U>>, u: U)
    ensures u in Concat(circles, followers) <==> exists i :: 0 <= i < |circles| && u in Members(followers, circles[i])
  {
    if circles != [] {
      var init := circles[..|circles| - 1];
      ConcatMembers(init, followers, u);
      if u in Concat(circles, followers) && u !in Members(followers, circles[|circles| - 1]) {
        var i :| 0 <= i < |init| && u in Members(followers, init[i]);
        assert circles[i] == init[i];
      }
      if exists i :: 0 <= i < |circles| - 1 && u in Members(followers, circles[i]) {
        var i :| 0 <= i < |circles| - 1 && u in Members(followers, circles[i]);
        assert init[i] == circles[i];
      }
    }
  }

  /** In well-formed bookkeeping, the concatenation of all circles lists each followed user exactly once. */
  lemma {:induction false} ConcatDistinct<U>(circles: seq<string>, followers: map<string, seq<U>>)
    requires Distinct(circles)
    requires forall c :: c in followers ==> Distinct(followers[c])
    requires forall c, d, u :: c in followers && d in followers && u in followers[c] && u in followers[d] ==> c == d
    ensures Distinct(Concat(circles, followers))
  {
    if circles != [] {
      var init, last := circles[..|circles| - 1], circles[|circles| - 1];
      assert Distinct(init) by {
        forall i, j | 0 <= i < j < |init| ensures init[i] != init[j] {
          assert init[i] == circles[i] && init[j] == circles[j];
        }
      }
      ConcatDistinct(init, followers);
      var a, b := Concat(init, followers), Members(followers, last);
      forall i, j | 0 <= i < j < |a + b| ensures (a + b)[i] != (a + b)[j] {
        if i < |a| && |a| <= j {
          var u := a[i];
          ConcatMembers(init, followers, u);
          var k :| 0 <= k < |init| && u in Members(followers, init[k]);
          assert init[k] == circles[k] && circles[k] != last;
          assert u !in b;
          assert (a + b)[i] == u && (a + b)[j] == b[j - |a|];
        } else if |a| <= i {
          assert (a + b)[i] == b[i - |a|] && (a + b)[j] == b[j - |a|];
        }
      }
    }
  }

  class SocialNetworkUser<U(==)> {
    var circles: seq<string>
    var followers: map<string, seq<U>>

    ghost predicate Valid()
      reads this
    {
      WellFormed(circles, followers)
    }

    /** u is followed in some circle. */
    ghost predicate Follows(u: U)
      reads this
    {
      exists c :: c in followers && u in followers[c]
    }

    /** Both Java constructors start with no circles; the name fields belong to UserImpl. */
    constructor ()
      ensures Valid()
      ensures circles == [] && followers == map[]
    {
      circles := [];
      followers := map[];
    }

    /**
     Follow `user` in `circle`, unless the user is already followed in some
     circle; the answer is always false.
     */
    method AddFollowedUser(circle: string, user: U) returns (r: bool)
      requires Valid()
      modifies this
      ensures Valid()
      ensures !r
      ensures Follows(user)
      ensures old(Follows(user)) ==> circles == old(circles) && followers == old(followers)
      ensures !old(Follows(user)) ==>
                && circles == (if circle in old(circles) then old(circles) else old(circles) + [circle])
                && followers == old(followers)[circle := old(Members(followers, circle)) + [user]]
    {
      var friend := UserIsFriend(user);
      if !friend {
        if !GroupExists(circle) {
          AddGroup(circle);
        }
        ghost var before := followers;
        followers := followers[circle := followers[circle] + [user]];
        assert Distinct(followers[circle]) by {
          assert user !in before[circle];
        }
        assert user in followers[circle];
      }
      r := false;
    }

    /** The members of a circle, or nothing when there is no such circle. */
    method GetFollowedUsersInGroup(groupName: string) returns (r: seq<U>)
      requires Valid()
      ensures groupName in circles ==> r == followers[groupName]
      ensures groupName !in circles ==> r == []
      ensures Distinct(r)
    {
      if GroupExists(groupName) {
        r := followers[groupName];
      } else {
        r := [];
      }
    }

    function GroupExists(groupName: string): (r: bool)
      reads this
      requires Valid()
      ensures r <==> groupName in circles
    {
      groupName in followers
    }

    /** userIsFriend: scan every circle, member by member, for `user`. */
    method UserIsFriend(user: U) returns (b: bool)
      requires Valid()
      ensures b <==> Follows(user)
    {
      for i := 0 to |circles|
        invariant forall k :: 0 <= k < i ==> user !in followers[circles[k]]
      {
        var group := followers[circles[i]];
        for j := 0 to |group|
          invariant user !in group[..j]
        {
          if user == group[j] {
            return true;
          }
        }
        assert group[..|group|] == group;
      }
      b := false;
      forall c | c in followers ensures user !in followers[c] {
        var k :| 0 <= k < |circles| && circles[k] == c;
      }
    }

    /** addGroup: (re)create a circle with no members. */
    method AddGroup(groupName: string)
      requires Valid()
      modifies this
      ensures Valid()
      ensures circles == if groupName in old(circles) then old(circles) else old(circles) + [groupName]
      ensures followers == old(followers)[groupName := []]
    {
      if groupName !in circles {
        circles := circles + [groupName];
      }
      followers := followers[groupName := []];
    }

    /** Every followed user, circle after circle in the order the circles were created. */
    method GetFollowedUsers() returns (r: seq<U>)
      requires Valid()
      ensures r == Concat(circles, followers)
      ensures Distinct(r)
      ensures forall u :: u in r <==> Follows(u)
    {
      r := [];
      for i := 0 to |circles|
        invariant r == Concat(circles[..i], followers)
      {
        assert circles[..i + 1][..i] == circles[..i];
        r := r + followers[circles[i]];
      }
      assert circles[..|circles|] == circles;
      ConcatDistinct(circles, followers);
      forall u ensures u in r <==> Follows(u) {
        ConcatMembers(circles, followers, u);
        if Follows(u) {
          var c :| c in followers && u in followers[c];
          var k :| 0 <= k < |circles| && circles[k] == c;
        }
      }
    }
  }
}
