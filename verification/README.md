# SmartSplit rooms, expenses, balances, duties and treasure — a Dafny model

SmartSplit is the backend of a shared-living app. Users gather in **rooms**. A
room has a member list, where each member is an `admin` or a `user`, and a
shared cash pool called the **treasure**. Members record **expenses**. One member
pays, and the total is split among members in one of four ways: equal,
unequal, percentage or shares. The backend can report every member's
**balance** (what they paid minus what they owe) and a short plan of
settlements that clears the debts. This plan comes from a greedy two-index
walk over debtors and creditors. A room can also have a **duty** rotation: a
list of chores and an order of members. A daily job moves the starting member
one step around that ring and reassigns the chores.

This project models that core and proves properties of it:

- `domain.dfy` (`Domain`): user ids, roles, member entries, and the membership
  checks every controller performs (`some`, `find`, `filter` over `room.members`).
- `money.dfy` (`Money`): amounts are exact `real`s. `parseFloat(x.toFixed(2))`
  is `Round2`, which rounds to the nearest cent with halves away from zero.
  The module also has the left-to-right `Sum` and rounding bounds.
- `sorting.dfy` (`Sorting`): the comparator sorts the code relies on. A sort
  by a descending key is a permutation of its input and is sorted.
- `expenses.dfy` (`Expenses`): `addExpense` and `deleteExpense`. It covers the
  request checks, the four split derivations and how close the rounded splits
  come to the total.
- `balances.dfy` (`Balances`): `getRoomBalances`. It covers the balance
  accumulation as loops over a dictionary, the creditor/debtor split, and the
  settlement walk (`SettleDebts`), which is proved against a ghost history of
  its moves.
- `rotation.dfy` (`DutyRotation`): the daily `increment duty currentIndex`
  job as a pure transition per room. It covers JavaScript's truncating `%`,
  out-of-range reads as `undefined`, and the rotation's period.
- `dutyconfig.dfy` (`DutyConfiguration`): `createOrUpdateDuties` and
  `getDutiesTable`.
- `treasure.dfy` (`Treasure`): treasure transactions, what the ledger adds up
  to, and the newest-first listing.
- `rooms.dfy` (`Rooms`): the room document as a class whose methods update its
  members, treasure and transactions in place. Its invariant `Valid()` says:
  - the room has an admin;
  - nobody is listed twice;
  - the pool is never negative;
  - the pool equals its ledger's balance.

  Every state-changing operation keeps this invariant.

A room's member list and its ledger of expenses are read from the database.
Here they are parameters of the operations. The user performing a request
(`req.user._id`) is the `requester` parameter. The admin-only middleware
(`adminProtect`) guards the treasure writes, duty configuration and the
room-admin routes (add member, remove member, change role, delete). Where a
controller has no admin check of its own (treasure writes, duty
configuration), the middleware becomes a `requires IsAdmin(...)`
precondition. Where the controller repeats the check, the controller's check
is modelled.

## Model

| member | source | states |
|---|---|---|
| `Domain.ParseRole` | models/Room.js:48-52 | a role is exactly "admin" or "user"; any other string is rejected |
| `Domain.MemberIds` | controllers/expenseController.js:56 | one id per member entry, in member order |
| `Domain.MemberIdsContain` | controllers/expenseController.js:56-62 | an id is among the member ids exactly when that user is a member |
| `Domain.AdminCountPositive` | controllers/roomController.js:241-242 | the admin count is positive exactly when some entry is an admin |
| `Domain.OtherAdminExists` | controllers/roomController.js:240-250 | with no user listed twice and two or more admins, there is an admin other than any given user |
| `Domain.WithoutUser` | controllers/roomController.js:297-299 | the filtered list holds exactly the entries of the other users and is no longer |
| `Domain.WithoutUserUnique` | controllers/roomController.js:297-299 | filtering a user out keeps the member list free of duplicates |
| `Domain.FirstIndexOf` | controllers/roomController.js:348-350 | the index `find` lands on holds the user and no earlier entry does |
| `Money.Round2` | controllers/expenseController.js:75 | the cent rounding is within half a cent of its input, keeps its sign, and is a whole number of cents |
| `Money.Round2AboveCent` | controllers/expenseController.js:357-362 | a settlement above 0.01 is never reported as less than one cent |
| `Money.Round2Cents` | controllers/expenseController.js:385 | rounding a whole number of cents leaves it unchanged |
| `Money.SumRoundedNear` | controllers/expenseController.js:73-76 | rounding each of n amounts moves their total by at most n half-cents |
| `Money.RoundedSumNearTarget` | controllers/expenseController.js:91-96 | amounts within a slack of a target stay within that slack plus n half-cents once rounded |
| `Sorting.SortDesc` | controllers/expenseController.js:341-346 | the sorted list is a permutation of the input with keys in non-increasing order |
| `Sorting.InsertSorted` | controllers/treasureController.js:149-151 | inserting into a sorted list keeps it sorted |
| `Expenses.ParseSplitType` | models/Expense.js:62-66 | exactly the four split types are accepted, each tag mapped to its own type |
| `Expenses.AccumulateEntries` | controllers/expenseController.js:80-90 | the validating map succeeds exactly when every entry is valid, and then yields the sum of the entries |
| `Expenses.DerivedSplits` | controllers/expenseController.js:64-145 | one stored split per request entry, in order, for the same user, with the type's raw amount rounded to the cent |
| `Expenses.DeriveSplits` | controllers/expenseController.js:64-150 | the split-type switch fails exactly when a rule of that type is broken, with that rule's error, and otherwise stores the derived splits |
| `Expenses.EqualSplitsNearTotal` | controllers/expenseController.js:65-77 | equal shares add up to the total within n half-cents |
| `Expenses.UnequalSplitsNearTotal` | controllers/expenseController.js:79-97 | accepted unequal amounts add up to the total within 0.01 plus n half-cents |
| `Expenses.PercentageRawSum` | controllers/expenseController.js:108-109 | the unrounded percentage amounts add up to total times the percentage sum over 100 |
| `Expenses.PercentageSplitsNearTotal` | controllers/expenseController.js:99-120 | accepted percentage splits add up to the total within 0.0001 of it plus n half-cents |
| `Expenses.SharesRawSum` | controllers/expenseController.js:131-144 | the unrounded share amounts add up to the total exactly |
| `Expenses.SharesSplitsNearTotal` | controllers/expenseController.js:122-145 | accepted share splits add up to the total within n half-cents |
| `Expenses.EqualThreeWayExample` | controllers/expenseController.js:72-76 | 100 split equally three ways stores 33.33 each, a cent short of the total |
| `Expenses.PercentageExample` | controllers/expenseController.js:100-119 | percentages 60 and 39 are refused; 60 and 40 split 50 into 30 and 20 |
| `Expenses.CheckSplitUsers` | controllers/expenseController.js:56-62 | the loop accepts exactly when every split user is a room member |
| `Expenses.AddExpense` | controllers/expenseController.js:15-159 | each check rejects with its own error in source order: missing field, requester not a member, payer not a member, split user not a member, bad split type, split rule, schema minimum; on success the stored expense has the request's fields and the derived splits, and its payer and split users are members |
| `Expenses.WithoutExpense` | controllers/expenseController.js:206 | removing an expense keeps exactly the expenses with other ids |
| `Expenses.DeleteExpense` | controllers/expenseController.js:178-206 | an unknown id is not found; otherwise deletion succeeds exactly for a room admin or the payer, removes exactly that expense and keeps every other one in order |
| `Expenses.WithoutDrops` | controllers/expenseController.js:206 | deleting an existing expense shortens the ledger |
| `Balances.Dedup` | controllers/expenseController.js:276-288 | the dictionary's keys in insertion order: each member id once, nothing else |
| `Balances.InitBalances` | controllers/expenseController.js:276-288 | every member starts at 0, only members get an entry, in first-insertion order |
| `Balances.DebitSplits` | controllers/expenseController.js:311-326 | each member is debited what the expense's splits assign them; non-members are skipped |
| `Balances.ApplyExpense` | controllers/expenseController.js:291-327 | one expense credits its payer the total and debits each split user, for members only |
| `Balances.AccumulateBalances` | controllers/expenseController.js:276-327 | after all expenses every member's entry is what they paid minus what they owe, and only members have one |
| `Balances.Positives` | controllers/expenseController.js:341-342 | exactly the entries with a positive amount |
| `Balances.Negatives` | controllers/expenseController.js:344-345 | exactly the entries with a negative amount |
| `Balances.SidesFit` | controllers/expenseController.js:341-346 | creditors and debtors together are no more than the balances |
| `Balances.Creditors` | controllers/expenseController.js:341-343 | the creditors are exactly the positive entries, largest first |
| `Balances.Debtors` | controllers/expenseController.js:344-346 | the debtors are exactly the negative entries, most negative first |
| `Balances.Recorded` | controllers/expenseController.js:357-364 | only steps above 0.01 are reported, as at least a cent, each from a debtor to a creditor |
| `Balances.WalkStep` | controllers/expenseController.js:351-378 | one iteration keeps the walk's invariant and moves at least one of the two indices |
| `Balances.WalkFrom` | controllers/expenseController.js:348-378 | the loop's moves from given cursors, as a recursion: it starts with the pair at the cursors, only touches entries at or after them, and makes at most one move per remaining debtor plus creditor |
| `Balances.WalkOn` | controllers/expenseController.js:351-377 | one loop iteration is one step of the recursive walk, so moves made plus moves left stay the whole walk |
| `Balances.Walk` | controllers/expenseController.js:348-378 | the whole walk from both list heads stays within the lists and makes at most one move per debtor plus creditor |
| `Balances.WalkExample` | controllers/expenseController.js:348-378 | debtors owing 3 and 2 and one creditor owed 2: the only settlement is the first debtor paying the creditor 2.00 |
| `Balances.WalkEnd` | controllers/expenseController.js:351-378 | when either list runs out, one whole side is within 0.01 of settled and nobody was overpaid |
| `Balances.SettleDebts` | controllers/expenseController.js:348-378 | the loop makes exactly the moves of the recursive walk from the list heads, so each pairing and each cursor step is the source's; each step settles the smaller of what is still owed and still due, and the report holds the steps above 0.01, rounded; the two indices only move forward; at most one step per debtor plus creditor; nobody is overpaid; the total is conserved; one side ends within 0.01 of settled |
| `Balances.Entries` | controllers/expenseController.js:330 | the balance array lists each id with its amount, in key order |
| `Balances.Rounded` | controllers/expenseController.js:382-386 | each reported raw balance is its id with the amount rounded to the cent |
| `Balances.NetEntries` | controllers/expenseController.js:276-330 | entry k is member k with what they paid minus what they owe |
| `Balances.NetEntryOfMember` | controllers/expenseController.js:276-330 | every balance entry belongs to a member and holds that member's net |
| `Balances.PlanParties` | controllers/expenseController.js:359-363 | every settlement's payer has a negative balance and its payee a positive one |
| `Balances.SidesFitSorted` | controllers/expenseController.js:341-346 | sorting does not change how many creditors and debtors there are |
| `Balances.SimplifyDebts` | controllers/expenseController.js:339-378 | the plan is what the recursive walk over the sorted debtors and creditors reports, move for move: each move settles the smaller side, the total is conserved, nobody is overpaid, and one side ends within 0.01 of settled; no more settlements than balances, each at least a cent, from someone who owes to someone who is owed |
| `Balances.PlanBetweenMembers` | controllers/expenseController.js:339-378 | every settlement runs from a member with a negative net to a member with a positive net |
| `Balances.RoundedOfMembers` | controllers/expenseController.js:381-386 | every raw balance is a member's net rounded to the cent |
| `Balances.BuildReport` | controllers/expenseController.js:274-388 | the report is every distinct member's rounded net, in member order, and the settlements the recursive walk reports over those nets, move for move, each at least a cent from a member who owes to a member who is owed |
| `Balances.RoomBalances` | controllers/expenseController.js:245-389 | non-members are refused; raw balances are every distinct member's net, rounded, in member order; the settlements are what the recursive walk reports over those balances, move for move, with the walk's guarantees as in `Balances.SimplifyDebts`; there are no more settlements than members, and each is at least a cent from a member who owes to a member who is owed |
| `DutyRotation.JsRem` | agenda/jobs/incrementDutyIndex.js:23-26 | `%` truncates toward zero: Euclidean for non-negative dividends, the negated one otherwise, always strictly between -n and n |
| `DutyRotation.Lookup` | agenda/jobs/incrementDutyIndex.js:26 | an index inside the array reads that element, any other index reads `undefined` |
| `DutyRotation.Tick` | agenda/jobs/incrementDutyIndex.js:13-37 | the job keeps the order, the skip list, the number of duties and their descriptions; a room with no members or no duties is untouched |
| `DutyRotation.TickCursor` | agenda/jobs/incrementDutyIndex.js:16-20 | from a cursor on the ring, the next cursor is one place on, wrapping at the end |
| `DutyRotation.TickAssigns` | agenda/jobs/incrementDutyIndex.js:23-27 | after a tick, duty i goes to the member i places after the new cursor |
| `DutyRotation.TickFromNegativeCursor` | agenda/jobs/incrementDutyIndex.js:17-26 | a negative stored cursor is only incremented, and the first duty is read from a negative position and becomes unassigned unless the remainder is 0; no modelled operation stores such a cursor |
| `DutyRotation.TickDistinctAssignees` | agenda/jobs/incrementDutyIndex.js:23-27 | with distinct ids and no more duties than members, no member holds two duties after a tick |
| `DutyRotation.TickKeepsInStep` | agenda/jobs/incrementDutyIndex.js:16-27 | a tick keeps the assignment in step with the cursor and advances it by one |
| `DutyRotation.TicksInStep` | agenda/jobs/incrementDutyIndex.js:13-37 | after n ticks the cursor is n places on and the assignment is still in step with it |
| `DutyRotation.TicksShape` | agenda/jobs/incrementDutyIndex.js:30-38 | any number of ticks keeps the ring, the skip list, and each chore's description |
| `DutyRotation.RotationPeriodic` | agenda/jobs/incrementDutyIndex.js:13-37 | after as many ticks as members, the configuration is back where it started |
| `DutyRotation.TickAll` | agenda/jobs/incrementDutyIndex.js:9-39 | every duty document gets exactly one update, its own tick |
| `DutyRotation.TickAllIndependent` | agenda/jobs/incrementDutyIndex.js:9-39 | each room's update depends on that room's document alone |
| `DutyRotation.ThreeMemberExample` | agenda/jobs/incrementDutyIndex.js:16-27 | with ring A, B, C and two duties, the holders go AB, BC, CA and back |
| `DutyRotation.EmptyRingNoOp` | agenda/jobs/incrementDutyIndex.js:13 | a room with an empty member order is left as it is |
| `DutyConfiguration.NonMembers` | controllers/dutyController.js:48-51 | exactly the ids of the order that are not room members |
| `DutyConfiguration.InitialSlots` | controllers/dutyController.js:58-67 | duty i keeps its description and goes to the i-th member of the order, or to nobody past its end |
| `DutyConfiguration.ConfigureDuties` | controllers/dutyController.js:24-88 | for an admin requester, fails exactly on missing duties, missing order, more duties than members, a non-member in the order, or a description the schema trims to nothing, in that order; otherwise duty i keeps its trimmed description and goes to member i, the order is stored, the cursor is 0 and the skip list empty |
| `DutyConfiguration.ConfiguredInStep` | controllers/dutyController.js:58-88 | a fresh configuration is in step with its cursor and returns to itself after one full rotation |
| `DutyConfiguration.FirstDutyIndex` | controllers/dutyController.js:136-140 | the first duty held by the user, if any, and none before it |
| `DutyConfiguration.CurrentUserDuty` | controllers/dutyController.js:136-144 | the requester's current duty is the first duty assigned to them, or none when they hold none |
| `DutyConfiguration.GetDutiesTable` | controllers/dutyController.js:113-146 | non-members are refused; "not configured" exactly when there is no configuration or either list is empty; otherwise all duties and the requester's first duty |
| `Treasure.LedgerAppend` | controllers/treasureController.js:24-32 | recording a credit raises the ledger balance by its amount, a debit lowers it by its amount |
| `Treasure.NewestFirst` | controllers/treasureController.js:148-151 | the same transactions, most recent first |
| `Domain.Trim` | models/Room.js:30-34 | a trimmed name or description is empty exactly when it was all whitespace, and otherwise neither starts nor ends with whitespace |
| `Domain.TrimIsInfix` | models/Duty.js:7-11 | the trimmed text is one contiguous piece of the original, and everything cut off before and after it is whitespace |
| `Rooms.FindEntry` | controllers/roomController.js:264 | the entry for the id if there is one, none exactly when no entry has that id |
| `Rooms.Room.constructor` | controllers/roomController.js:31-36 | a new room has its creator as the only member, an admin, and an empty pool and ledger |
| `Rooms.Room.CreateRoom` | controllers/roomController.js:12-36 | fails exactly when the name is empty after trimming; otherwise a fresh valid room with the trimmed name, the code, and the creator as sole admin |
| `Rooms.Room.Join` | controllers/roomController.js:69-81 | refused exactly for an existing member; otherwise the user is appended as a plain user and nothing else changes |
| `Rooms.Room.AddMember` | controllers/roomController.js:146-175 | only admins may add; an unknown user, an existing member or a bad role is refused; otherwise the user is appended with the role, "user" by default, and the room stays valid |
| `Rooms.Room.BalancesInternal` | controllers/roomController.js:583-677 | non-members are refused; otherwise every distinct member's net, rounded, in member order, with an entry for every member |
| `Rooms.Room.CheckSettled` | controllers/roomController.js:257-281 | the balance check passes exactly when the member's rounded balance is within 0.01 of zero |
| `Rooms.Room.RemoveMember` | controllers/roomController.js:208-299 | only admins may remove; an unknown member, the only admin removing themselves, or an unsettled member is refused; otherwise every entry of that user goes and the room keeps an admin |
| `Rooms.Room.ChangeRole` | controllers/roomController.js:322-371 | a bad role, a non-admin requester, an unknown member, or the only admin demoting themselves is refused; otherwise the first entry of the member gets the role and the room keeps an admin |
| `Rooms.Room.Leave` | controllers/roomController.js:401-478 | a non-member, the only admin, or an unsettled member cannot leave; otherwise every entry of that user goes and the room keeps an admin |
| `Rooms.Room.Delete` | controllers/roomController.js:505-542 | deletion is allowed exactly to an admin of a room with no other member and no expenses, each failure with its own error |
| `Rooms.Room.AddTreasure` | controllers/treasureController.js:12-32 | a non-number or non-positive amount, or a missing description, is refused; otherwise the pool grows by the amount and a credit is recorded |
| `Rooms.Room.RecordSpend` | controllers/treasureController.js:52-80 | a bad amount fails through the TypeError of `new new Error(...)()`; a missing description or more than the pool holds is refused; otherwise the pool shrinks by the amount, a debit is recorded and the pool stays non-negative |
| `Rooms.Room.CurrentTreasure` | controllers/treasureController.js:106-119 | non-members are refused; members see the pool, which is non-negative and equals the ledger balance |
| `Rooms.Room.TransactionsNewestFirst` | controllers/treasureController.js:136-156 | non-members are refused; members see every transaction, most recent first |
| `Rooms.KeepsAnAdmin` | controllers/roomController.js:240-251 | an admin removing anyone but themselves as the only admin leaves an admin |
| `Rooms.LeavingKeepsAnAdmin` | controllers/roomController.js:414-430 | a member who is not the only admin leaving leaves an admin |
| `Rooms.RoleChangeKeepsAnAdmin` | controllers/roomController.js:356-370 | changing a role, unless the only admin demotes themselves, leaves an admin and no duplicates |
| `Rooms.AddMemberAsWritten` | controllers/roomController.js:164-174 | as written, an admin's add succeeds for any resolved user and valid role, whether or not they are already a member |
| `Rooms.AddMemberAsWrittenDuplicates` | controllers/roomController.js:165-167 | as written, an admin adding themselves succeeds and lists them twice |

## Left out

- Persistence, the HTTP layer and status codes, logging, `asyncHandler` error propagation, routes, the server, and the agenda scheduler wiring are not modelled. A request's outcome is a `Result`; each error is a datatype constructor named after its message.
- Room, expense and duty lookups that answer 404 (`findById`, `findOne`) are not modelled. Each operation receives the document that was found. Two lookups are modelled: `deleteExpense`'s ledger lookup is `ExpenseNotFound`, and addMemberToRoom's user lookup by email is `UserNotFound` in `Rooms.Room.AddMember`.
- User registration, login, JWT and bcrypt are not modelled, and neither is `userController.js`. The admin-only middleware is the `IsAdmin` precondition of `Rooms.Room.AddTreasure`, `Rooms.Room.RecordSpend` and `DutyConfiguration.ConfigureDuties`.
- Display names are not modelled. Users are `nat` ids, and settlements and balances report ids where the code reports populated names.
- Floating point is not modelled. Amounts are exact reals; `toFixed(2)` is rounding half away from zero on the exact value; NaN and infinities do not exist. In particular, a NaN treasure amount passes `typeof amount === "number"` and `amount <= 0` in the code. Here an amount is a number or `None`.
- createRoom's random six-character room id and its retry loop are not modelled. The id is the `code` parameter.
- Rooms.Room.CreateRoom: the code checks `!name` and then lets the schema trim the name and reject an empty result. Both rejections are merged into one `MissingName`. `Trim` removes only ASCII space, tab, newline and carriage return.
- Expenses.AddExpense: the schema's `trim`/`required` on the description (a description of only spaces) is not modelled, and neither are the schema's `min`/`max` on stored percentages and shares. The `min: 0.01` on the total is modelled as `SchemaViolation`.
- Expenses.AddExpense: `roomId` is not a field of the request here, so the "missing roomId" case of the required-field check is not modelled.
- `getRoomExpenses` and `getRoomDetails` are not modelled; they are plain reads.
- getRoomBalancesInternal skips expenses and splits whose `paidBy` or `split.user` did not populate; getRoomBalances has no such guard. No modelled operation deletes users, so every reference resolves. Both functions are modelled by one accumulation.
- getRoomBalancesInternal is wrapped in `asyncHandler`. The wrapper returns `Promise.resolve(fn(...)).catch(next)`, so `await getRoomBalancesInternal(roomId, req.user._id, Expense)` yields the `{ rawBalances }` object when the function succeeds. Rooms.Room.BalancesInternal models that value. The function throws "Room not found." (roomController.js:580) and "Requesting user is not a member of this room." (roomController.js:591). A throw would be handed to `next`, which here is the `Expense` model, so the caller would get an `Expense` document and no `rawBalances`. That path is not modelled. It never arises where the function is used: the room was already found, and the requester was already checked at both call sites (roomController.js:259 for an admin, and :438 after the membership check of :402-411). The model's `RequesterNotMember` stands for the :591 throw.
- Balances.SettleDebts: it does not claim that replaying the settlements clears every balance to within 0.01. One side does end within 0.01, but a creditor can still be owed more than a cent. Example: three debtors at -0.505 each, creditors at 0.5, 0.5, 0.5 and 0.015. Each of the three steps settles 0.5 and is reported. Each step leaves its debtor at -0.005, which is within 0.01, so the walk moves to the next debtor. The debtors run out first, and the creditor at 0.015 is never reached.
- Balances.RoomBalances: it does not prove that the raw balances add up to zero. With rounding, and with splits that need not add up to the total, they need not.
- Sorting.SortDesc: stability is not proved. The insertion sort places a new element after every element with an equal key, so ties keep their order, but no lemma states it.
- `skipMemberFromCycle`, `isSameDay` and the commented-out assignment block in `getDutiesTable` are not modelled.
- The duty document is a value, and `createOrUpdateDuties` returns the new one. Creating a document and overwriting the existing one store the same fields, so the previous document plays no part.
- deleteRoom's removal of the document is not modelled. Rooms.Room.Delete decides whether the room may be deleted and changes nothing.
- Transaction dates are integers, the milliseconds of `new Date()`, and are passed in as a parameter. MongoDB subdocument `_id`s are not modelled.
- DutyConfiguration.ConfigureDuties: a duty sent without a description has the empty description, which the blank-description check refuses. Descriptions that are not strings are not modelled.
- Rooms.Room.ChangeRole: it models the controller alone, which checks the role before the requester's admin status. On the route, `adminProtect` refuses a non-admin first. So a non-admin who sends an invalid role gets "not authorized" from the program, where the model answers `InvalidRole`. Every other outcome is the same.
- `Promise.all` over the duty updates is modelled as `TickAll` over all configurations. The updates are independent, so their order does not matter.

## Findings

| source | as written | input that shows it | evidently intended | confidence | as-written member | corrected member |
|---|---|---|---|---|---|---|
| controllers/roomController.js:165-167 | the duplicate check compares `member.user.toString()`. After `populate("members.user")` that is the string form of a user document, never an id string, so the check never fires | a room whose only member is user 1, an admin; user 1 adds their own email: the request succeeds and user 1 is listed twice | compare `member.user._id.toString()` with the new user's id, so an existing member is refused with "User is already a member of this room." | not executed | `Rooms.AddMemberAsWrittenDuplicates` | `Rooms.Room.AddMember` |
