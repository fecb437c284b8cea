/** The room document and the operations of controllers/roomController.js and
    controllers/treasureController.js that change it in place: the member
    list (create, join, add, remove, change role, leave, delete), the
    balance query those guards use, and the treasure pool with its ledger.
    The guards together keep "the room always has an admin". */
module Rooms {
  import opened Domain
  import opened Money
  import opened Treasure
  import Expenses
  import Balances

  /** The failures of the room operations. */
  datatype RoomError =
    | MissingName         // "Please add a room name" (or a name the schema trims to nothing)
    | AlreadyMember       // joining or adding someone who is already a member
    | NotAdmin            // "Not authorized. Only room admins can ..."
    | UserNotFound        // no user with the given email
    | InvalidRole         // a role outside "user"/"admin"
    | MemberNotFound      // the target is not in the member list
    | LastAdmin           // the only admin removing, demoting or withdrawing themselves
    | OutstandingBalance  // the member's rounded balance is more than 0.01 away from zero
    | NotMember           // leaving a room one is not in
    | OtherMembers        // deleting a room that still has other members
    | OutstandingExpenses // deleting a room that still has expenses
    | RequesterNotMember  // asking for balances of a room one is not in

  /** `rawBalances.find(b => b._id === id)` */
  function FindEntry(entries: seq<Balances.BalanceEntry>, id: UserId): (r: Option<Balances.BalanceEntry>)
    ensures r.None? <==> forall k :: 0 <= k < |entries| ==> entries[k].id != id
    ensures r.Some? ==> r.value in entries && r.value.id == id
  {
    if entries == [] then None
    else if entries[0].id == id then Some(entries[0])
    else
      var r := FindEntry(entries[1..], id);
      assert forall k :: 1 <= k < |entries| ==> entries[k] == entries[1..][k - 1];
      r
  }

  /** A member may go only if their balance, rounded to the cent, is within
      0.01 of zero. */
  predicate Settled(expenses: seq<Expenses.Expense>, u: UserId) {
    Abs(Round2(Balances.Net(expenses, u))) <= 0.01
  }

  /** `role || "user"`: a missing or empty role defaults to "user". */
  function RoleOrDefault(tag: Option<string>): string {
    if tag.None? || tag.value == "" then "user" else tag.value
  }

  class Room {
    var name: string
    /** The six-character code users join with (`roomId`). */
    var code: string
    var members: seq<Member>
    var treasure: real
    var transactions: seq<Tx>

    /** The room's invariant: somebody is an admin, nobody is listed twice,
        and the pool is never negative and is what its ledger says. */
    ghost predicate Valid()
      reads this
    {
      HasAdmin(members) && UniqueUsers(members)
      && treasure >= 0.0 && treasure == LedgerBalance(transactions)
    }

    /** `Room.create` with the creator as the only member, an admin, and an
        empty pool. */
    constructor (name: string, code: string, creator: UserId)
      ensures Valid()
      ensures this.name == name && this.code == code
      ensures members == [Member(creator, Admin)]
      ensures treasure == 0.0 && transactions == []
    {
      this.name := name;
      this.code := code;
      members := [Member(creator, Admin)];
      treasure := 0.0;
      transactions := [];
      new;
      assert members[0].role == Admin;
    }

    /** createRoom. The code stands for the generated unused room id. */
    static method CreateRoom(name: string, code: string, creator: UserId) returns (r: Result<Room, RoomError>)
      ensures r.Failure? <==> Trim(name) == []
      ensures r.Failure? ==> r.error == MissingName
      ensures r.Success? ==>
        && fresh(r.value) && r.value.Valid()
        && r.value.name == Trim(name) && r.value.code == code
        && r.value.members == [Member(creator, Admin)]
        && r.value.treasure == 0.0 && r.value.transactions == []
    {
      var trimmed := Trim(name);
      if trimmed == [] {
        return Failure(MissingName);
      }
      var room := new Room(trimmed, code, creator);
      return Success(room);
    }

    /** joinRoom: a user who is not yet a member joins as a plain user. */
    method Join(user: UserId) returns (r: Result<(), RoomError>)
      requires Valid()
      modifies this
      ensures Valid()
      ensures r.Failure? <==> IsMember(old(members), user)
      ensures r.Failure? ==> r.error == AlreadyMember && members == old(members)
      ensures r.Success? ==> members == old(members) + [Member(user, User)]
      ensures name == old(name) && code == old(code)
      ensures treasure == old(treasure) && transactions == old(transactions)
    {
      if exists k :: 0 <= k < |members| && members[k].user == user {
        return Failure(AlreadyMember);
      }
      members := members + [Member(user, User)];
      r := Success(());
      assert old(members)[0..] == members[..|old(members)|];
    }

    /** addMemberToRoom with the duplicate check comparing ids. `target` is
        the user the email resolves to, if any; `tag` is the requested role. */
    method AddMember(requester: UserId, target: Option<UserId>, tag: Option<string>) returns (r: Result<(), RoomError>)
      requires Valid()
      modifies this
      ensures Valid()
      ensures !IsAdmin(old(members), requester) ==> r == Failure(NotAdmin)
      ensures IsAdmin(old(members), requester) && target.None? ==> r == Failure(UserNotFound)
      ensures IsAdmin(old(members), requester) && target.Some? && IsMember(old(members), target.value) ==>
        r == Failure(AlreadyMember)
      ensures (IsAdmin(old(members), requester) && target.Some? && !IsMember(old(members), target.value)
               && ParseRole(RoleOrDefault(tag)).None?) ==> r == Failure(InvalidRole)
      ensures r.Success? <==>
        IsAdmin(old(members), requester) && target.Some? && !IsMember(old(members), target.value)
        && ParseRole(RoleOrDefault(tag)).Some?
      ensures r.Success? ==>
        members == old(members) + [Member(target.value, ParseRole(RoleOrDefault(tag)).value)]
      ensures r.Failure? ==> members == old(members)
      ensures name == old(name) && code == old(code)
      ensures treasure == old(treasure) && transactions == old(transactions)
    {
      if !exists k :: 0 <= k < |members| && members[k].user == requester && members[k].role == Admin {
        return Failure(NotAdmin);
      }
      if target.None? {
        return Failure(UserNotFound);
      }
      if exists k :: 0 <= k < |members| && members[k].user == target.value {
        return Failure(AlreadyMember);
      }
      var role := ParseRole(RoleOrDefault(tag));
      if role.None? {
        // the schema's enum rejects the role when the room is saved
        return Failure(InvalidRole);
      }
      var k :| 0 <= k < |members| && members[k].role == Admin;
      members := members + [Member(target.value, role.value)];
      assert members[k].role == Admin;
      r := Success(());
    }

    /** getRoomBalancesInternal: members only; every member's balance, in
        member order, rounded to the cent. */
    method BalancesInternal(requester: UserId, expenses: seq<Expenses.Expense>)
      returns (r: Result<seq<Balances.BalanceEntry>, RoomError>)
      ensures r.Failure? <==> !IsMember(members, requester)
      ensures r.Failure? ==> r.error == RequesterNotMember
      ensures r.Success? ==>
        r.value == Balances.Rounded(Balances.NetEntries(Balances.Dedup(MemberIds(members)), expenses))
      ensures r.Success? ==>
        forall u :: IsMember(members, u) ==>
          exists k :: 0 <= k < |r.value| && r.value[k] == Balances.BalanceEntry(u, Round2(Balances.Net(expenses, u)))
    {
      if !exists k :: 0 <= k < |members| && members[k].user == requester {
        return Failure(RequesterNotMember);
      }
      var order, balances := Balances.AccumulateBalances(members, expenses);
      forall u | u in order ensures u in balances {
        MemberIdsContain(members, u);
      }
      var entries := Balances.Entries(order, balances);
      assert entries == Balances.NetEntries(order, expenses);
      var raw := Balances.Rounded(entries);
      forall u | IsMember(members, u)
        ensures exists k :: 0 <= k < |raw| && raw[k] == Balances.BalanceEntry(u, Round2(Balances.Net(expenses, u)))
      {
        MemberIdsContain(members, u);
        var k :| 0 <= k < |order| && order[k] == u;
        assert raw[k] == Balances.BalanceEntry(u, Round2(Balances.Net(expenses, u)));
      }
      return Success(raw);
    }

    /** The balance check of removeMemberFromRoom and leaveRoom for a member
        `u`, asked by a member `asker`. */
    method CheckSettled(asker: UserId, u: UserId, expenses: seq<Expenses.Expense>) returns (ok: bool)
      requires IsMember(members, asker) && IsMember(members, u)
      ensures ok <==> Settled(expenses, u)
    {
      var raw := BalancesInternal(asker, expenses);
      var entry := FindEntry(raw.value, u);
      if entry.None? {
        assert false;
      }
      assert entry.value.amount == Round2(Balances.Net(expenses, u)) by {
        var k :| 0 <= k < |raw.value| && raw.value[k] == entry.value;
        var ids := Balances.Dedup(MemberIds(members));
        assert ids[k] == u;
      }
      ok := !(Abs(entry.value.amount) > 0.01);
    }

    /** removeMemberFromRoom: an admin removes a settled member; the only
        admin cannot remove themselves. Every entry of the target goes. */
    method RemoveMember(requester: UserId, target: UserId, expenses: seq<Expenses.Expense>) returns (r: Result<(), RoomError>)
      requires Valid()
      modifies this
      ensures Valid()
      ensures !IsAdmin(old(members), requester) ==> r == Failure(NotAdmin)
      ensures IsAdmin(old(members), requester) && !IsMember(old(members), target) ==> r == Failure(MemberNotFound)
      ensures (IsAdmin(old(members), requester) && IsMember(old(members), target)
               && target == requester && AdminCount(old(members)) == 1) ==> r == Failure(LastAdmin)
      ensures (IsAdmin(old(members), requester) && IsMember(old(members), target)
               && !(target == requester && AdminCount(old(members)) == 1) && !Settled(expenses, target)) ==>
        r == Failure(OutstandingBalance)
      ensures r.Success? <==>
        IsAdmin(old(members), requester) && IsMember(old(members), target)
        && !(target == requester && AdminCount(old(members)) == 1) && Settled(expenses, target)
      ensures r.Success? ==> members == WithoutUser(old(members), target)
      ensures r.Success? ==> forall m :: m in members <==> m in old(members) && m.user != target
      ensures r.Failure? ==> members == old(members)
      ensures name == old(name) && code == old(code)
      ensures treasure == old(treasure) && transactions == old(transactions)
    {
      if !exists k :: 0 <= k < |members| && members[k].user == requester && members[k].role == Admin {
        return Failure(NotAdmin);
      }
      if !exists k :: 0 <= k < |members| && members[k].user == target {
        return Failure(MemberNotFound);
      }
      if target == requester && AdminCount(members) == 1 {
        return Failure(LastAdmin);
      }
      var settled := CheckSettled(requester, target, expenses);
      if !settled {
        return Failure(OutstandingBalance);
      }
      KeepsAnAdmin(members, requester, target);
      WithoutUserUnique(members, target);
      members := WithoutUser(members, target);
      r := Success(());
    }

    /** changeMemberRole: an admin sets the role of a member's entry; the
        only admin cannot demote themselves. */
    method ChangeRole(requester: UserId, target: UserId, tag: string) returns (r: Result<(), RoomError>)
      requires Valid()
      modifies this
      ensures Valid()
      ensures ParseRole(tag).None? ==> r == Failure(InvalidRole)
      ensures ParseRole(tag).Some? && !IsAdmin(old(members), requester) ==> r == Failure(NotAdmin)
      ensures ParseRole(tag).Some? && IsAdmin(old(members), requester) && !IsMember(old(members), target) ==>
        r == Failure(MemberNotFound)
      ensures (ParseRole(tag) == Some(User) && IsAdmin(old(members), requester) && IsMember(old(members), target)
               && target == requester && AdminCount(old(members)) == 1) ==> r == Failure(LastAdmin)
      ensures r.Success? <==>
        ParseRole(tag).Some? && IsAdmin(old(members), requester) && IsMember(old(members), target)
        && !(tag == "user" && target == requester && AdminCount(old(members)) == 1)
      ensures r.Success? ==>
        var k := FirstIndexOf(old(members), target);
        members == old(members)[k := Member(target, ParseRole(tag).value)]
      ensures r.Failure? ==> members == old(members)
      ensures name == old(name) && code == old(code)
      ensures treasure == old(treasure) && transactions == old(transactions)
    {
      var role := ParseRole(tag);
      if role.None? {
        return Failure(InvalidRole);
      }
      if !exists k :: 0 <= k < |members| && members[k].user == requester && members[k].role == Admin {
        return Failure(NotAdmin);
      }
      if !exists k :: 0 <= k < |members| && members[k].user == target {
        return Failure(MemberNotFound);
      }
      if target == requester && role.value == User && AdminCount(members) == 1 {
        return Failure(LastAdmin);
      }
      var k := FirstIndexOf(members, target);
      RoleChangeKeepsAnAdmin(members, requester, k, role.value);
      members := members[k := Member(target, role.value)];
      r := Success(());
    }

    /** leaveRoom: a settled member leaves; the only admin cannot. */
    method Leave(user: UserId, expenses: seq<Expenses.Expense>) returns (r: Result<(), RoomError>)
      requires Valid()
      modifies this
      ensures Valid()
      ensures !IsMember(old(members), user) ==> r == Failure(NotMember)
      ensures IsAdmin(old(members), user) && AdminCount(old(members)) == 1 ==> r == Failure(LastAdmin)
      ensures (IsMember(old(members), user) && !(IsAdmin(old(members), user) && AdminCount(old(members)) == 1)
               && !Settled(expenses, user)) ==> r == Failure(OutstandingBalance)
      ensures r.Success? <==>
        IsMember(old(members), user) && !(IsAdmin(old(members), user) && AdminCount(old(members)) == 1)
        && Settled(expenses, user)
      ensures r.Success? ==> members == WithoutUser(old(members), user)
      ensures r.Success? ==> forall m :: m in members <==> m in old(members) && m.user != user
      ensures r.Failure? ==> members == old(members)
      ensures name == old(name) && code == old(code)
      ensures treasure == old(treasure) && transactions == old(transactions)
    {
      if !exists k :: 0 <= k < |members| && members[k].user == user {
        return Failure(NotMember);
      }
      var isAdmin := exists k :: 0 <= k < |members| && members[k].user == user && members[k].role == Admin;
      if isAdmin && AdminCount(members) == 1 {
        return Failure(LastAdmin);
      }
      var settled := CheckSettled(user, user, expenses);
      if !settled {
        return Failure(OutstandingBalance);
      }
      LeavingKeepsAnAdmin(members, user);
      WithoutUserUnique(members, user);
      members := WithoutUser(members, user);
      r := Success(());
    }

    /** deleteRoom's guards: only an admin, only when nobody else is left,
        only when the room has no expenses. On success the document is
        deleted. */
    method Delete(requester: UserId, expenseCount: nat) returns (r: Result<(), RoomError>)
      ensures !IsAdmin(members, requester) ==> r == Failure(NotAdmin)
      ensures IsAdmin(members, requester) && |members| > 1 ==> r == Failure(OtherMembers)
      ensures IsAdmin(members, requester) && |members| <= 1 && expenseCount > 0 ==> r == Failure(OutstandingExpenses)
      ensures r.Success? <==> IsAdmin(members, requester) && |members| <= 1 && expenseCount == 0
    {
      if !exists k :: 0 <= k < |members| && members[k].user == requester && members[k].role == Admin {
        return Failure(NotAdmin);
      }
      if |members| > 1 {
        return Failure(OtherMembers);
      }
      if expenseCount > 0 {
        return Failure(OutstandingExpenses);
      }
      return Success(());
    }

    /** addTreasureAmount, behind the admin check: a positive amount with a
        description goes into the pool and is recorded as a credit.
        `amount` is None when the body's amount is not a number. */
    method AddTreasure(requester: UserId, amount: Option<real>, description: string, date: int)
      returns (r: Result<real, TreasureError>)
      requires Valid() && IsAdmin(members, requester)
      modifies this
      ensures Valid()
      ensures amount.None? || amount.value <= 0.0 ==> r == Failure(InvalidAmount)
      ensures amount.Some? && amount.value > 0.0 && description == "" ==> r == Failure(MissingDescription)
      ensures r.Success? <==> amount.Some? && amount.value > 0.0 && description != ""
      ensures r.Success? ==>
        && treasure == old(treasure) + amount.value && r.value == treasure
        && transactions == old(transactions) + [Tx(description, amount.value, Credit, date)]
      ensures r.Failure? ==> treasure == old(treasure) && transactions == old(transactions)
      ensures members == old(members) && name == old(name) && code == old(code)
    {
      if amount.None? || amount.value <= 0.0 {
        return Failure(InvalidAmount);
      }
      if description == "" {
        return Failure(MissingDescription);
      }
      var tx := Tx(description, amount.value, Credit, date);
      LedgerAppend(transactions, tx);
      treasure := treasure + amount.value;
      transactions := transactions + [tx];
      r := Success(treasure);
    }

    /** recordTreasureTransaction, behind the admin check: a positive amount
        with a description that the pool can cover is spent and recorded as
        a debit. A bad amount still aborts, through the TypeError its
        `throw new new Error(...)()` raises. */
    method RecordSpend(requester: UserId, amount: Option<real>, description: string, date: int)
      returns (r: Result<real, TreasureError>)
      requires Valid() && IsAdmin(members, requester)
      modifies this
      ensures Valid()
      ensures amount.None? || amount.value <= 0.0 ==> r == Failure(NotAConstructor)
      ensures amount.Some? && amount.value > 0.0 && description == "" ==> r == Failure(MissingDescription)
      ensures (amount.Some? && amount.value > 0.0 && description != "" && old(treasure) < amount.value) ==>
        r == Failure(InsufficientFunds)
      ensures r.Success? <==>
        amount.Some? && amount.value > 0.0 && description != "" && amount.value <= old(treasure)
      ensures r.Success? ==>
        && treasure == old(treasure) - amount.value && r.value == treasure
        && transactions == old(transactions) + [Tx(description, amount.value, Debit, date)]
      ensures r.Failure? ==> treasure == old(treasure) && transactions == old(transactions)
      ensures members == old(members) && name == old(name) && code == old(code)
    {
      if amount.None? || amount.value <= 0.0 {
        return Failure(NotAConstructor);
      }
      if description == "" {
        return Failure(MissingDescription);
      }
      if treasure < amount.value {
        return Failure(InsufficientFunds);
      }
      var tx := Tx(description, amount.value, Debit, date);
      LedgerAppend(transactions, tx);
      treasure := treasure - amount.value;
      transactions := transactions + [tx];
      r := Success(treasure);
    }

    /** getCurrentTreasure: members only. */
    method CurrentTreasure(requester: UserId) returns (r: Result<real, TreasureError>)
      requires Valid()
      ensures r.Failure? <==> !IsMember(members, requester)
      ensures r.Failure? ==> r.error == NotAuthorizedToView
      ensures r.Success? ==> r.value == treasure && r.value >= 0.0 && r.value == LedgerBalance(transactions)
    {
      if !exists k :: 0 <= k < |members| && members[k].user == requester {
        return Failure(NotAuthorizedToView);
      }
      return Success(treasure);
    }

    /** getTreasureTransactions: members only; every recorded transaction,
        most recent first. The sort happens on a freshly loaded copy that is
        never saved, so the stored order is untouched. */
    method TransactionsNewestFirst(requester: UserId) returns (r: Result<seq<Tx>, TreasureError>)
      ensures r.Failure? <==> !IsMember(members, requester)
      ensures r.Failure? ==> r.error == NotAuthorizedToView
      ensures r.Success? ==> multiset(r.value) == multiset(transactions)
      ensures r.Success? ==> forall i, j :: 0 <= i < j < |r.value| ==> r.value[i].date >= r.value[j].date
    {
      if !exists k :: 0 <= k < |members| && members[k].user == requester {
        return Failure(NotAuthorizedToView);
      }
      return Success(NewestFirst(transactions));
    }
  }

  /** Removing `target` on an admin's request leaves an admin, unless the
      admin removes themselves as the only one. */
  lemma KeepsAnAdmin(members: seq<Member>, requester: UserId, target: UserId)
    requires UniqueUsers(members) && IsAdmin(members, requester)
    requires !(target == requester && AdminCount(members) == 1)
    ensures HasAdmin(WithoutUser(members, target))
  {
    var k :| 0 <= k < |members| && members[k].user == requester && members[k].role == Admin;
    if target != requester {
      assert members[k] in WithoutUser(members, target);
    } else {
      AdminCountPositive(members);
      OtherAdminExists(members, target);
      var l :| 0 <= l < |members| && members[l].user != target && members[l].role == Admin;
      assert members[l] in WithoutUser(members, target);
    }
    var rest := WithoutUser(members, target);
    var a :| a in rest && a.role == Admin;
    var i :| 0 <= i < |rest| && rest[i] == a;
  }

  /** A member leaving leaves an admin, unless they are the only admin. */
  lemma LeavingKeepsAnAdmin(members: seq<Member>, user: UserId)
    requires UniqueUsers(members) && HasAdmin(members)
    requires !(IsAdmin(members, user) && AdminCount(members) == 1)
    ensures HasAdmin(WithoutUser(members, user))
  {
    if IsAdmin(members, user) {
      KeepsAnAdmin(members, user, user);
    } else {
      var k :| 0 <= k < |members| && members[k].role == Admin;
      assert members[k].user != user;
      var rest := WithoutUser(members, user);
      assert members[k] in rest;
      var i :| 0 <= i < |rest| && rest[i] == members[k];
    }
  }

  /** Setting the role of entry `k` on an admin's request leaves an admin,
      unless the only admin demotes themselves. */
  lemma RoleChangeKeepsAnAdmin(members: seq<Member>, requester: UserId, k: nat, role: Role)
    requires UniqueUsers(members) && IsAdmin(members, requester) && k < |members|
    requires !(members[k].user == requester && role == User && AdminCount(members) == 1)
    ensures HasAdmin(members[k := Member(members[k].user, role)])
    ensures UniqueUsers(members[k := Member(members[k].user, role)])
  {
    var after := members[k := Member(members[k].user, role)];
    var j :| 0 <= j < |members| && members[j].user == requester && members[j].role == Admin;
    if role == Admin {
      assert after[k].role == Admin;
    } else if j != k {
      assert after[j].role == Admin;
    } else {
      AdminCountPositive(members);
      OtherAdminExists(members, requester);
      var l :| 0 <= l < |members| && members[l].user != requester && members[l].role == Admin;
      assert after[l].role == Admin;
    }
  }

  /** addMemberToRoom as written: the duplicate check compares the string
      form of a populated member document with an id string, and a
      document's string form is never an id, so the check never fires. */
  function AddMemberAsWritten(members: seq<Member>, requester: UserId, target: Option<UserId>, tag: Option<string>)
    : (r: Result<seq<Member>, RoomError>)
    ensures r.Success? <==> IsAdmin(members, requester) && target.Some? && ParseRole(RoleOrDefault(tag)).Some?
    ensures r.Success? ==> r.value == members + [Member(target.value, ParseRole(RoleOrDefault(tag)).value)]
  {
    if !IsAdmin(members, requester) then Failure(NotAdmin)
    else if target.None? then Failure(UserNotFound)
    else
      match ParseRole(RoleOrDefault(tag))
      case None => Failure(InvalidRole)
      case Some(role) => Success(members + [Member(target.value, role)])
  }

  /** As written, an admin adding themselves (or anyone already present)
      succeeds and lists that user twice. */
  lemma AddMemberAsWrittenDuplicates()
    ensures var before := [Member(1, Admin)];
      var r := AddMemberAsWritten(before, 1, Some(1), None);
      UniqueUsers(before) && r.Success? && !UniqueUsers(r.value)
  {
    var before := [Member(1, Admin)];
    assert IsAdmin(before, 1) by {
      assert before[0].user == 1 && before[0].role == Admin;
    }
    var r := AddMemberAsWritten(before, 1, Some(1), None);
    assert r.value[0].user == r.value[1].user;
  }
}
