/** Shared vocabulary of the room documents: user ids, room-scoped roles,
    member entries, and the membership predicates every controller uses
    (the `some`/`find`/`filter` checks over `room.members`). */
module Domain {

  /** A user's id (a MongoDB ObjectId in the system). */
  type UserId = nat

  datatype Option<T> = None | Some(value: T)

  datatype Result<T, E> = Success(value: T) | Failure(error: E)

  /** A room-scoped role; the schema admits only "admin" and "user". */
  datatype Role = Admin | User

  /** One entry of `room.members`. */
  datatype Member = Member(user: UserId, role: Role)

  /** The role strings the schema enum accepts; anything else is rejected. */
  function ParseRole(tag: string): (r: Option<Role>)
    ensures r == Some(Admin) <==> tag == "admin"
    ensures r == Some(User) <==> tag == "user"
    ensures r.None? <==> tag != "admin" && tag != "user"
  {
    if tag == "admin" then Some(Admin)
    else if tag == "user" then Some(User)
    else None
  }

  predicate IsMember(members: seq<Member>, u: UserId) {
    exists k :: 0 <= k < |members| && members[k].user == u
  }

  predicate IsAdmin(members: seq<Member>, u: UserId) {
    exists k :: 0 <= k < |members| && members[k].user == u && members[k].role == Admin
  }

  /** The ids of the members, in member order (`members.map(m => m.user)`). */
  function MemberIds(members: seq<Member>): (ids: seq<UserId>)
    ensures |ids| == |members|
    ensures forall k :: 0 <= k < |members| ==> ids[k] == members[k].user
  {
    if members == [] then [] else MemberIds(members[..|members| - 1]) + [members[|members| - 1].user]
  }

  lemma MemberIdsContain(members: seq<Member>, u: UserId)
    ensures u in MemberIds(members) <==> IsMember(members, u)
  {
    var ids := MemberIds(members);
    if u in ids {
      var k :| 0 <= k < |ids| && ids[k] == u;
      assert members[k].user == u;
    }
    if IsMember(members, u) {
      var k :| 0 <= k < |members| && members[k].user == u;
      assert ids[k] == u;
    }
  }

  /** `members.filter(m => m.role === "admin").length` */
  function AdminCount(members: seq<Member>): nat {
    if members == [] then 0
    else AdminCount(members[..|members| - 1]) + (if members[|members| - 1].role == Admin then 1 else 0)
  }

  /** No user holds two entries in the member list. */
  predicate UniqueUsers(members: seq<Member>) {
    forall k, l :: 0 <= k < l < |members| ==> members[k].user != members[l].user
  }

  /** The invariant the room guards protect: somebody is still an admin. */
  predicate HasAdmin(members: seq<Member>) {
    exists k :: 0 <= k < |members| && members[k].role == Admin
  }

  lemma {:induction false} AdminCountPositive(members: seq<Member>)
    ensures AdminCount(members) > 0 <==> HasAdmin(members)
  {
    if members != [] {
      var init := members[..|members| - 1];
      AdminCountPositive(init);
      if HasAdmin(init) {
        var k :| 0 <= k < |init| && init[k].role == Admin;
        assert members[k].role == Admin;
      }
      if HasAdmin(members) && members[|members| - 1].role != Admin {
        var k :| 0 <= k < |members| && members[k].role == Admin;
        assert init[k].role == Admin;
      }
    }
  }

  /** With unique users, two admins in the count means an admin other than `u`. */
  lemma {:induction false} OtherAdminExists(members: seq<Member>, u: UserId)
    requires UniqueUsers(members)
    requires AdminCount(members) >= 2
    ensures exists k :: 0 <= k < |members| && members[k].user != u && members[k].role == Admin
  {
    var n := |members|;
    var init := members[..n - 1];
    assert UniqueUsers(init) by {
      forall k, l | 0 <= k < l < |init| ensures init[k].user != init[l].user {
        assert init[k] == members[k] && init[l] == members[l];
      }
    }
    if members[n - 1].role == Admin && members[n - 1].user != u {
      assert members[n - 1].user != u;
    } else if AdminCount(init) >= 2 {
      OtherAdminExists(init, u);
      var k :| 0 <= k < |init| && init[k].user != u && init[k].role == Admin;
      assert members[k] == init[k];
    } else {
      // the last entry is u's admin entry and the prefix holds one more admin
      assert AdminCount(init) >= 1;
      AdminCountPositive(init);
      var k :| 0 <= k < |init| && init[k].role == Admin;
      assert members[k] == init[k];
      assert members[k].user != members[n - 1].user;
    }
  }

  /** `members.filter(m => m.user !== u)` */
  function WithoutUser(members: seq<Member>, u: UserId): (r: seq<Member>)
    ensures |r| <= |members|
    ensures forall x :: x in r <==> x in members && x.user != u
  {
    if members == [] then []
    else if members[0].user == u then WithoutUser(members[1..], u)
    else [members[0]] + WithoutUser(members[1..], u)
  }

  lemma {:induction false} WithoutUserUnique(members: seq<Member>, u: UserId)
    requires UniqueUsers(members)
    ensures UniqueUsers(WithoutUser(members, u))
  {
    if members != [] {
      var tail := members[1..];
      assert UniqueUsers(tail) by {
        forall k, l | 0 <= k < l < |tail| ensures tail[k].user != tail[l].user {
          assert tail[k] == members[k + 1] && tail[l] == members[l + 1];
        }
      }
      WithoutUserUnique(tail, u);
      var rest := WithoutUser(tail, u);
      if members[0].user != u {
        var r := [members[0]] + rest;
        forall k, l | 0 <= k < l < |r| ensures r[k].user != r[l].user {
          if k == 0 {
            assert r[l] in tail;
            var m :| 0 <= m < |tail| && tail[m] == r[l];
            assert members[m + 1] == r[l];
          } else {
            assert r[k] == rest[k - 1] && r[l] == rest[l - 1];
          }
        }
      }
    }
  }

  /** Index of the first entry for `u` (`members.find(...)`). */
  function FirstIndexOf(members: seq<Member>, u: UserId): (k: nat)
    requires IsMember(members, u)
    ensures k < |members| && members[k].user == u
    ensures forall l :: 0 <= l < k ==> members[l].user != u
  {
    if members[0].user == u then 0
    else
      assert IsMember(members[1..], u) by {
        var k :| 0 <= k < |members| && members[k].user == u;
        assert members[1..][k - 1].user == u;
      }
      1 + FirstIndexOf(members[1..], u)
  }

  /** The whitespace the schemas' `trim` removes (the ASCII part of it). */
  predicate IsSpace(c: char) {
    c == ' ' || c == '\t' || c == '\n' || c == '\r'
  }

  /** `String.prototype.trim`: the string without leading or trailing whitespace. */
  function Trim(s: string): (r: string)
    ensures r == [] <==> forall i :: 0 <= i < |s| ==> IsSpace(s[i])
    ensures r != [] ==> !IsSpace(r[0]) && !IsSpace(r[|r| - 1])
    decreases |s|
  {
    if s == [] then []
    else if IsSpace(s[0]) then
      assert forall i :: 1 <= i < |s| ==> s[i] == s[1..][i - 1];
      Trim(s[1..])
    else if IsSpace(s[|s| - 1]) then
      assert forall i :: 0 <= i < |s| - 1 ==> s[i] == s[..|s| - 1][i];
      Trim(s[..|s| - 1])
    else s
  }

  /** What `trim` keeps is one contiguous piece of the string, starting at
      `a`; everything cut off before and after it is whitespace. */
  lemma {:induction false} TrimIsInfix(s: string) returns (a: nat)
    ensures a + |Trim(s)| <= |s| && s[a..a + |Trim(s)|] == Trim(s)
    ensures forall i :: 0 <= i < a ==> IsSpace(s[i])
    ensures forall i :: a + |Trim(s)| <= i < |s| ==> IsSpace(s[i])
    decreases |s|
  {
    var r := Trim(s);
    if s == [] {
      a := 0;
    } else if IsSpace(s[0]) {
      var b := TrimIsInfix(s[1..]);
      assert s[1..][b..b + |r|] == s[b + 1..b + 1 + |r|];
      a := b + 1;
    } else if IsSpace(s[|s| - 1]) {
      a := TrimIsInfix(s[..|s| - 1]);
      assert s[..|s| - 1][a..a + |r|] == s[a..a + |r|];
    } else {
      a := 0;
      assert s[0..|s|] == s;
    }
  }
}
