/** The balance engine of controllers/expenseController.js (getRoomBalances):
    every member starts at 0, the payer of each expense is credited its total,
    every split user is debited the split's amount, references to users who
    are not members are skipped; then debts are simplified by a greedy
    two-index walk over the debtors and the creditors. */
module Balances {
  import opened Domain
  import opened Money
  import opened Sorting
  import opened Expenses

  // ----- what each user paid and owes, by definition -----

  /** The total of the expenses `u` paid for. */
  function Paid(expenses: seq<Expense>, u: UserId): real {
    if expenses == [] then 0.0
    else
      var e := expenses[|expenses| - 1];
      Paid(expenses[..|expenses| - 1], u) + (if e.paidBy == u then e.totalAmount else 0.0)
  }

  /** The total of the splits assigned to `u` in one expense. */
  function OwedIn(splits: seq<Split>, u: UserId): real {
    if splits == [] then 0.0
    else
      var s := splits[|splits| - 1];
      OwedIn(splits[..|splits| - 1], u) + (if s.user == u then s.amount else 0.0)
  }

  /** The total of the splits assigned to `u` over the whole ledger. */
  function Owed(expenses: seq<Expense>, u: UserId): real {
    if expenses == [] then 0.0
    else Owed(expenses[..|expenses| - 1], u) + OwedIn(expenses[|expenses| - 1].splits, u)
  }

  /** A user's net balance: positive means the room owes them. */
  function Net(expenses: seq<Expense>, u: UserId): real {
    Paid(expenses, u) - Owed(expenses, u)
  }

  // ----- the member ids in first-insertion order (`Object.values(balances)`) -----

  /** The ids in order of first occurrence, each once. */
  function Dedup(ids: seq<UserId>): (r: seq<UserId>)
    ensures forall x :: x in r <==> x in ids
    ensures forall a, b :: 0 <= a < b < |r| ==> r[a] != r[b]
    ensures |r| <= |ids|
  {
    if ids == [] then []
    else
      var d := Dedup(ids[..|ids| - 1]);
      assert ids == ids[..|ids| - 1] + [ids[|ids| - 1]];
      if ids[|ids| - 1] in d then d else d + [ids[|ids| - 1]]
  }

  /** One more id: it is appended to the first-occurrence order unless seen. */
  lemma DedupPrefix(ids: seq<UserId>, k: nat)
    requires k < |ids|
    ensures Dedup(ids[..k + 1]) == if ids[k] in Dedup(ids[..k]) then Dedup(ids[..k]) else Dedup(ids[..k]) + [ids[k]]
    ensures forall u :: u in ids[..k + 1] <==> u in ids[..k] || u == ids[k]
  {
    var prefix := ids[..k + 1];
    assert prefix[..|prefix| - 1] == ids[..k] && prefix[|prefix| - 1] == ids[k];
  }

  datatype BalanceEntry = BalanceEntry(id: UserId, amount: real)

  /** `room.members.forEach(...)`: an entry of 0 for every member, the ids
      kept in first-insertion order. */
  method InitBalances(members: seq<Member>) returns (order: seq<UserId>, balances: map<UserId, real>)
    ensures order == Dedup(MemberIds(members))
    ensures forall u :: u in balances <==> IsMember(members, u)
    ensures forall u :: u in balances ==> balances[u] == 0.0
  {
    var ids := MemberIds(members);
    order, balances := [], map[];
    for k := 0 to |ids|
      invariant order == Dedup(ids[..k])
      invariant forall u :: u in balances <==> u in ids[..k]
      invariant forall u :: u in balances ==> balances[u] == 0.0
    {
      DedupPrefix(ids, k);
      if ids[k] !in balances {
        order := order + [ids[k]];
      }
      balances := balances[ids[k] := 0.0];
    }
    assert ids[..|ids|] == ids;
    forall u ensures u in balances <==> IsMember(members, u) {
      MemberIdsContain(members, u);
    }
  }

  /** `expense.splits.forEach(...)`: debit every split user who has an entry. */
  method DebitSplits(balances: map<UserId, real>, splits: seq<Split>) returns (after: map<UserId, real>)
    ensures after.Keys == balances.Keys
    ensures forall u :: u in after ==> after[u] == balances[u] - OwedIn(splits, u)
  {
    after := balances;
    for s := 0 to |splits|
      invariant after.Keys == balances.Keys
      invariant forall u :: u in after ==> after[u] == balances[u] - OwedIn(splits[..s], u)
    {
      assert splits[..s + 1][..s] == splits[..s];
      var split := splits[s];
      if split.user in after {
        after := after[split.user := after[split.user] - split.amount];
      }
    }
    assert splits[..|splits|] == splits;
  }

  /** One expense: credit the payer if it has an entry, then debit the splits. */
  method ApplyExpense(balances: map<UserId, real>, expense: Expense) returns (after: map<UserId, real>)
    ensures after.Keys == balances.Keys
    ensures forall u :: u in after ==>
      after[u] == balances[u] + (if expense.paidBy == u then expense.totalAmount else 0.0) - OwedIn(expense.splits, u)
  {
    after := balances;
    if expense.paidBy in after {
      after := after[expense.paidBy := after[expense.paidBy] + expense.totalAmount];
    }
    after := DebitSplits(after, expense.splits);
  }

  /** The two `forEach` passes that fill the `balances` dictionary: every
      member ends at what they paid minus what they owe, and nobody else gets
      an entry. */
  method AccumulateBalances(members: seq<Member>, expenses: seq<Expense>)
    returns (order: seq<UserId>, balances: map<UserId, real>)
    ensures order == Dedup(MemberIds(members))
    ensures forall u :: u in balances <==> IsMember(members, u)
    ensures forall u :: u in balances ==> balances[u] == Net(expenses, u)
  {
    order, balances := InitBalances(members);
    ghost var keys := balances.Keys;
    for e := 0 to |expenses|
      invariant balances.Keys == keys
      invariant forall u :: u in balances ==> balances[u] == Net(expenses[..e], u)
    {
      assert expenses[..e + 1][..e] == expenses[..e];
      balances := ApplyExpense(balances, expenses[e]);
    }
    assert expenses[..|expenses|] == expenses;
  }

  // ----- debt simplification -----

  function Magnitude(b: BalanceEntry): real {
    Abs(b.amount)
  }

  /** `balanceArray.filter(b => b.amount > 0)` */
  function Positives(entries: seq<BalanceEntry>): (r: seq<BalanceEntry>)
    ensures forall b :: b in r <==> b in entries && b.amount > 0.0
  {
    if entries == [] then []
    else
      assert entries == [entries[0]] + entries[1..];
      (if entries[0].amount > 0.0 then [entries[0]] else []) + Positives(entries[1..])
  }

  /** `balanceArray.filter(b => b.amount < 0)` */
  function Negatives(entries: seq<BalanceEntry>): (r: seq<BalanceEntry>)
    ensures forall b :: b in r <==> b in entries && b.amount < 0.0
  {
    if entries == [] then []
    else
      assert entries == [entries[0]] + entries[1..];
      (if entries[0].amount < 0.0 then [entries[0]] else []) + Negatives(entries[1..])
  }

  lemma {:induction false} SidesFit(entries: seq<BalanceEntry>)
    ensures |Positives(entries)| + |Negatives(entries)| <= |entries|
  {
    if entries != [] {
      SidesFit(entries[1..]);
    }
  }

  /** Creditors, largest first (`sort((a, b) => b.amount - a.amount)`). */
  function Creditors(entries: seq<BalanceEntry>): (r: seq<BalanceEntry>)
    ensures forall b :: b in r <==> b in entries && b.amount > 0.0
    ensures SortedDesc(r, Magnitude)
  {
    var r := SortDesc(Positives(entries), Magnitude);
    assert forall b :: b in r <==> b in Positives(entries) by {
      forall b ensures b in r <==> b in Positives(entries) {
        SortKeepsElements(Positives(entries), Magnitude, b);
      }
    }
    r
  }

  /** Debtors, most negative first (`sort((a, b) => a.amount - b.amount)`). */
  function Debtors(entries: seq<BalanceEntry>): (r: seq<BalanceEntry>)
    ensures forall b :: b in r <==> b in entries && b.amount < 0.0
    ensures SortedDesc(r, Magnitude)
  {
    var r := SortDesc(Negatives(entries), Magnitude);
    assert forall b :: b in r <==> b in Negatives(entries) by {
      forall b ensures b in r <==> b in Negatives(entries) {
        SortKeepsElements(Negatives(entries), Magnitude, b);
      }
    }
    r
  }

  /** One step of the walk: debtor `debtor` pays creditor `creditor` `amount`. */
  datatype Move = Move(debtor: nat, creditor: nat, amount: real)

  /** A reported settlement: `from` pays `to`. */
  datatype Settlement = Settlement(from: UserId, to: UserId, amount: real)

  /** What debtor `k` has paid so far. */
  function PaidOut(moves: seq<Move>, k: nat): real {
    if moves == [] then 0.0
    else PaidOut(moves[..|moves| - 1], k) + (if moves[|moves| - 1].debtor == k then moves[|moves| - 1].amount else 0.0)
  }

  /** What creditor `l` has received so far. */
  function PaidIn(moves: seq<Move>, l: nat): real {
    if moves == [] then 0.0
    else PaidIn(moves[..|moves| - 1], l) + (if moves[|moves| - 1].creditor == l then moves[|moves| - 1].amount else 0.0)
  }

  predicate MovesInRange(moves: seq<Move>, debtors: seq<BalanceEntry>, creditors: seq<BalanceEntry>) {
    forall n :: 0 <= n < |moves| ==> moves[n].debtor < |debtors| && moves[n].creditor < |creditors|
  }

  /** Every move settles the smaller of what its debtor still owes and what
      its creditor is still owed, given the moves before it. */
  predicate Greedy(moves: seq<Move>, debtors: seq<BalanceEntry>, creditors: seq<BalanceEntry>) {
    moves == [] ||
    (var prior, m := moves[..|moves| - 1], moves[|moves| - 1];
     Greedy(prior, debtors, creditors)
     && m.debtor < |debtors| && m.creditor < |creditors|
     && m.amount == Min(-(debtors[m.debtor].amount + PaidOut(prior, m.debtor)),
                        creditors[m.creditor].amount - PaidIn(prior, m.creditor)))
  }

  /** The moves worth reporting (above 0.01), rounded to the cent. */
  function Recorded(moves: seq<Move>, debtors: seq<BalanceEntry>, creditors: seq<BalanceEntry>): (plan: seq<Settlement>)
    requires MovesInRange(moves, debtors, creditors)
    ensures |plan| <= |moves|
    ensures forall s :: s in plan ==>
      s.amount >= 0.01
      && (exists k :: 0 <= k < |debtors| && debtors[k].id == s.from)
      && (exists l :: 0 <= l < |creditors| && creditors[l].id == s.to)
  {
    if moves == [] then []
    else
      var m := moves[|moves| - 1];
      var prior := Recorded(moves[..|moves| - 1], debtors, creditors);
      if m.amount > 0.01 then
        Round2AboveCent(m.amount);
        prior + [Settlement(debtors[m.debtor].id, creditors[m.creditor].id, Round2(m.amount))]
      else prior
  }

  function Amounts(entries: seq<BalanceEntry>): (xs: seq<real>)
    ensures |xs| == |entries|
    ensures forall k :: 0 <= k < |entries| ==> xs[k] == entries[k].amount
  {
    seq(|entries|, k requires 0 <= k < |entries| => entries[k].amount)
  }

  /** What each debtor still owes after the moves (zero or negative). */
  function DebtsLeft(debtors: seq<BalanceEntry>, moves: seq<Move>): (xs: seq<real>)
    ensures |xs| == |debtors|
  {
    seq(|debtors|, k requires 0 <= k < |debtors| => debtors[k].amount + PaidOut(moves, k))
  }

  /** What each creditor is still owed after the moves (zero or positive). */
  function CreditsLeft(creditors: seq<BalanceEntry>, moves: seq<Move>): (xs: seq<real>)
    ensures |xs| == |creditors|
  {
    seq(|creditors|, l requires 0 <= l < |creditors| => creditors[l].amount - PaidIn(moves, l))
  }

  lemma {:induction false} SumUpdate(xs: seq<real>, i: nat, x: real)
    requires i < |xs|
    ensures Sum(xs[i := x]) == Sum(xs) - xs[i] + x
  {
    var n := |xs| - 1;
    if i < n {
      assert xs[i := x][..n] == xs[..n][i := x];
      SumUpdate(xs[..n], i, x);
    } else {
      assert xs[i := x][..n] == xs[..n];
    }
  }

  /** What appending one move does to the report. */
  lemma RecordedSnoc(prior: seq<Move>, m: Move, debtors: seq<BalanceEntry>, creditors: seq<BalanceEntry>)
    requires MovesInRange(prior, debtors, creditors)
    requires m.debtor < |debtors| && m.creditor < |creditors|
    ensures MovesInRange(prior + [m], debtors, creditors)
    ensures Recorded(prior + [m], debtors, creditors)
      == Recorded(prior, debtors, creditors)
         + (if m.amount > 0.01 then [Settlement(debtors[m.debtor].id, creditors[m.creditor].id, Round2(m.amount))] else [])
  {
    var moves := prior + [m];
    assert moves[..|moves| - 1] == prior;
  }

  /** What appending one move does to what everybody still owes. */
  lemma DebtsLeftSnoc(prior: seq<Move>, m: Move, debtors: seq<BalanceEntry>)
    requires m.debtor < |debtors|
    ensures DebtsLeft(debtors, prior + [m])
      == DebtsLeft(debtors, prior)[m.debtor := DebtsLeft(debtors, prior)[m.debtor] + m.amount]
  {
    var moves := prior + [m];
    assert moves[..|moves| - 1] == prior;
    forall k | 0 <= k < |debtors|
      ensures PaidOut(moves, k) == PaidOut(prior, k) + (if m.debtor == k then m.amount else 0.0)
    {
    }
  }

  /** What appending one move does to what everybody is still owed. */
  lemma CreditsLeftSnoc(prior: seq<Move>, m: Move, creditors: seq<BalanceEntry>)
    requires m.creditor < |creditors|
    ensures CreditsLeft(creditors, prior + [m])
      == CreditsLeft(creditors, prior)[m.creditor := CreditsLeft(creditors, prior)[m.creditor] - m.amount]
  {
    var moves := prior + [m];
    assert moves[..|moves| - 1] == prior;
    forall l | 0 <= l < |creditors|
      ensures PaidIn(moves, l) == PaidIn(prior, l) + (if m.creditor == l then m.amount else 0.0)
    {
    }
  }

  lemma GreedySnoc(prior: seq<Move>, m: Move, debtors: seq<BalanceEntry>, creditors: seq<BalanceEntry>)
    requires m.debtor < |debtors| && m.creditor < |creditors|
    requires Greedy(prior, debtors, creditors)
    requires m.amount == Min(-DebtsLeft(debtors, prior)[m.debtor], CreditsLeft(creditors, prior)[m.creditor])
    ensures Greedy(prior + [m], debtors, creditors)
  {
    var moves := prior + [m];
    assert moves[..|moves| - 1] == prior;
  }

  /** The debtor side of the walk at cursor `i`: nobody is overpaid, the
      debtors before `i` are within 0.01 of settled, `i` and those after it
      still owe, and those after `i` are untouched. */
  ghost predicate DebtorsAt(debtors: seq<BalanceEntry>, owing: seq<real>, i: nat) {
    |owing| == |debtors| && i <= |debtors|
    && (forall k :: 0 <= k < |debtors| ==> owing[k] <= 0.0)
    && (forall k :: 0 <= k < i ==> owing[k] > -0.01)
    && (forall k :: i <= k < |debtors| ==> owing[k] < 0.0)
    && (forall k :: i < k < |debtors| ==> owing[k] == debtors[k].amount)
  }

  /** The creditor side of the walk at cursor `j`, symmetrically. */
  ghost predicate CreditorsAt(creditors: seq<BalanceEntry>, owed: seq<real>, j: nat) {
    |owed| == |creditors| && j <= |creditors|
    && (forall l :: 0 <= l < |creditors| ==> owed[l] >= 0.0)
    && (forall l :: 0 <= l < j ==> owed[l] < 0.01)
    && (forall l :: j <= l < |creditors| ==> owed[l] > 0.0)
    && (forall l :: j < l < |creditors| ==> owed[l] == creditors[l].amount)
  }

  /** The moves so far pair debtors and creditors in list order, never past
      the cursors, each for a positive amount. */
  ghost predicate InOrder(moves: seq<Move>, i: nat, j: nat) {
    |moves| <= i + j
    && (forall n :: 0 <= n < |moves| ==> moves[n].debtor <= i && moves[n].creditor <= j && moves[n].amount > 0.0)
    && (forall n, n' :: 0 <= n < n' < |moves| ==>
          moves[n].debtor <= moves[n'].debtor && moves[n].creditor <= moves[n'].creditor)
  }

  lemma DebtorStep(debtors: seq<BalanceEntry>, owing: seq<real>, i: nat, x: real, i': nat)
    requires DebtorsAt(debtors, owing, i) && i < |debtors|
    requires owing[i] <= x <= 0.0
    requires i' == if Abs(x) < 0.01 then i + 1 else i
    ensures DebtorsAt(debtors, owing[i := x], i')
  {
  }

  lemma CreditorStep(creditors: seq<BalanceEntry>, owed: seq<real>, j: nat, y: real, j': nat)
    requires CreditorsAt(creditors, owed, j) && j < |creditors|
    requires 0.0 <= y <= owed[j]
    requires j' == if y < 0.01 then j + 1 else j
    ensures CreditorsAt(creditors, owed[j := y], j')
  {
  }

  lemma OrderStep(moves: seq<Move>, i: nat, j: nat, m: Move, i': nat, j': nat)
    requires InOrder(moves, i, j)
    requires m.debtor == i && m.creditor == j && m.amount > 0.0
    requires i <= i' && j <= j' && i + j < i' + j'
    ensures InOrder(moves + [m], i', j')
  {
    var moves' := moves + [m];
    assert forall n :: 0 <= n < |moves| ==> moves'[n] == moves[n];
  }

  /** The loop invariant of the walk: both cursors, the running balances
      `owing`/`owed` as the moves so far leave them, the report so far, and
      the conserved total. */
  ghost predicate Walking(debtors: seq<BalanceEntry>, creditors: seq<BalanceEntry>, i: nat, j: nat,
                          owing: seq<real>, owed: seq<real>, moves: seq<Move>, plan: seq<Settlement>)
  {
    DebtorsAt(debtors, owing, i) && CreditorsAt(creditors, owed, j)
    && InOrder(moves, i, j)
    && owing == DebtsLeft(debtors, moves) && owed == CreditsLeft(creditors, moves)
    && MovesInRange(moves, debtors, creditors) && Greedy(moves, debtors, creditors)
    && plan == Recorded(moves, debtors, creditors)
    && Sum(owing) + Sum(owed) == Sum(Amounts(debtors)) + Sum(Amounts(creditors))
  }

  lemma WalkStart(debtors: seq<BalanceEntry>, creditors: seq<BalanceEntry>)
    requires forall k :: 0 <= k < |debtors| ==> debtors[k].amount < 0.0
    requires forall l :: 0 <= l < |creditors| ==> creditors[l].amount > 0.0
    ensures Walking(debtors, creditors, 0, 0, Amounts(debtors), Amounts(creditors), [], [])
  {
    assert Amounts(debtors) == DebtsLeft(debtors, []);
    assert Amounts(creditors) == CreditsLeft(creditors, []);
  }

  /** One iteration of the walk keeps the invariant and advances a cursor. */
  lemma WalkStep(debtors: seq<BalanceEntry>, creditors: seq<BalanceEntry>, i: nat, j: nat,
                 owing: seq<real>, owed: seq<real>, moves: seq<Move>, plan: seq<Settlement>,
                 settle: real, step: seq<Settlement>, x: real, y: real, i': nat, j': nat)
    requires Walking(debtors, creditors, i, j, owing, owed, moves, plan)
    requires i < |debtors| && j < |creditors|
    requires settle == Min(-owing[i], owed[j])
    requires step == if settle > 0.01 then [Settlement(debtors[i].id, creditors[j].id, Round2(settle))] else []
    requires x == owing[i] + settle && y == owed[j] - settle
    requires i' == (if Abs(x) < 0.01 then i + 1 else i) && j' == (if y < 0.01 then j + 1 else j)
    ensures i + j < i' + j'
    ensures Walking(debtors, creditors, i', j', owing[i := x], owed[j := y], moves + [Move(i, j, settle)], plan + step)
  {
    var m := Move(i, j, settle);
    DebtorStep(debtors, owing, i, x, i');
    CreditorStep(creditors, owed, j, y, j');
    OrderStep(moves, i, j, m, i', j');
    StepLedger(debtors, creditors, i, j, owing, owed, moves, plan, settle, step, x, y);
  }

  /** The bookkeeping half of a step: the amounts left, the report, the
      greedy history and the conserved total all follow the new move. */
  lemma StepLedger(debtors: seq<BalanceEntry>, creditors: seq<BalanceEntry>, i: nat, j: nat,
                   owing: seq<real>, owed: seq<real>, moves: seq<Move>, plan: seq<Settlement>,
                   settle: real, step: seq<Settlement>, x: real, y: real)
    requires Walking(debtors, creditors, i, j, owing, owed, moves, plan)
    requires i < |debtors| && j < |creditors|
    requires settle == Min(-owing[i], owed[j])
    requires step == if settle > 0.01 then [Settlement(debtors[i].id, creditors[j].id, Round2(settle))] else []
    requires x == owing[i] + settle && y == owed[j] - settle
    ensures var moves' := moves + [Move(i, j, settle)];
      owing[i := x] == DebtsLeft(debtors, moves') && owed[j := y] == CreditsLeft(creditors, moves')
      && MovesInRange(moves', debtors, creditors) && Greedy(moves', debtors, creditors)
      && plan + step == Recorded(moves', debtors, creditors)
      && Sum(owing[i := x]) + Sum(owed[j := y]) == Sum(Amounts(debtors)) + Sum(Amounts(creditors))
  {
    var m := Move(i, j, settle);
    var moves', owing', owed' := moves + [m], owing[i := x], owed[j := y];
    DebtsLeftSnoc(moves, m, debtors);
    assert owing' == DebtsLeft(debtors, moves');
    CreditsLeftSnoc(moves, m, creditors);
    assert owed' == CreditsLeft(creditors, moves');
    RecordedSnoc(moves, m, debtors, creditors);
    assert plan + step == Recorded(moves', debtors, creditors);
    GreedySnoc(moves, m, debtors, creditors);
    SumUpdate(owing, i, x);
    SumUpdate(owed, j, y);
    assert Sum(owing') + Sum(owed') == Sum(Amounts(debtors)) + Sum(Amounts(creditors));
  }

  /** The moves of the `while (i < debtors.length && j < creditors.length)`
      walk from cursors `i`, `j` over what each debtor still owes (`owing`)
      and each creditor is still owed (`owed`): settle the smaller side,
      then move past the debtor once it owes less than 0.01 and past the
      creditor once it is owed less than 0.01. Each step zeroes one side, so
      a cursor always moves. */
  function WalkFrom(owing: seq<real>, owed: seq<real>, i: nat, j: nat): (moves: seq<Move>)
    requires i <= |owing| && j <= |owed|
    ensures |moves| <= |owing| - i + |owed| - j
    ensures forall n :: 0 <= n < |moves| ==>
      i <= moves[n].debtor < |owing| && j <= moves[n].creditor < |owed|
    ensures |moves| > 0 ==> moves[0].debtor == i && moves[0].creditor == j
    decreases |owing| - i + |owed| - j
  {
    if i == |owing| || j == |owed| then []
    else
      var settle := Min(-owing[i], owed[j]);
      var x, y := owing[i] + settle, owed[j] - settle;
      var i', j' := if Abs(x) < 0.01 then i + 1 else i, if y < 0.01 then j + 1 else j;
      assert x == 0.0 || y == 0.0;
      [Move(i, j, settle)] + WalkFrom(owing[i := x], owed[j := y], i', j')
  }

  /** One iteration of the loop is one step of `WalkFrom`: the moves made
      so far plus the rest of the walk stay the whole walk. */
  lemma WalkOn(moves: seq<Move>, owing: seq<real>, owed: seq<real>, i: nat, j: nat,
               settle: real, x: real, y: real, i': nat, j': nat, whole: seq<Move>)
    requires i < |owing| && j < |owed|
    requires settle == Min(-owing[i], owed[j]) && x == owing[i] + settle && y == owed[j] - settle
    requires i' == (if Abs(x) < 0.01 then i + 1 else i) && j' == (if y < 0.01 then j + 1 else j)
    requires moves + WalkFrom(owing, owed, i, j) == whole
    ensures (moves + [Move(i, j, settle)]) + WalkFrom(owing[i := x], owed[j := y], i', j') == whole
  {
    var rest := WalkFrom(owing[i := x], owed[j := y], i', j');
    assert WalkFrom(owing, owed, i, j) == [Move(i, j, settle)] + rest;
    assert (moves + [Move(i, j, settle)]) + rest == moves + ([Move(i, j, settle)] + rest);
  }

  /** The whole walk, from both list heads. */
  function Walk(debtors: seq<BalanceEntry>, creditors: seq<BalanceEntry>): (moves: seq<Move>)
    ensures MovesInRange(moves, debtors, creditors)
    ensures |moves| <= |debtors| + |creditors|
  {
    WalkFrom(Amounts(debtors), Amounts(creditors), 0, 0)
  }

  /** Debtors owing 3 and 2 and one creditor owed 2: the first debtor pays
      the whole 2, the creditor is settled and the walk stops there. */
  lemma WalkExample()
    ensures var debtors, creditors := [BalanceEntry(1, -3.0), BalanceEntry(2, -2.0)], [BalanceEntry(3, 2.0)];
      Walk(debtors, creditors) == [Move(0, 0, 2.0)]
      && Recorded(Walk(debtors, creditors), debtors, creditors) == [Settlement(1, 3, 2.0)]
  {
    var debtors, creditors := [BalanceEntry(1, -3.0), BalanceEntry(2, -2.0)], [BalanceEntry(3, 2.0)];
    var owing, owed := Amounts(debtors), Amounts(creditors);
    assert owing == [-3.0, -2.0] && owed == [2.0];
    assert WalkFrom(owing[0 := -1.0], owed[0 := 0.0], 0, 1) == [];
    var moves := [Move(0, 0, 2.0)];
    assert moves[..0] == [];
    Round2Cents(200);
  }

  /** What the walk of `getRoomBalances` leaves behind once either list is
      exhausted: every move settles the smaller of what its debtor still owes
      and its creditor is still owed, debtors and creditors are taken in list
      order, nobody is overpaid, the total is conserved, and one whole side
      is within 0.01 of settled. */
  ghost predicate GreedySettlement(debtors: seq<BalanceEntry>, creditors: seq<BalanceEntry>, moves: seq<Move>) {
    MovesInRange(moves, debtors, creditors) && Greedy(moves, debtors, creditors)
    // the walk pairs debtors and creditors in list order
    && (forall n, n' :: 0 <= n < n' < |moves| ==>
          moves[n].debtor <= moves[n'].debtor && moves[n].creditor <= moves[n'].creditor)
    && (forall n :: 0 <= n < |moves| ==> moves[n].amount > 0.0)
    // nobody is overpaid
    && (forall k :: 0 <= k < |debtors| ==> DebtsLeft(debtors, moves)[k] <= 0.0)
    && (forall l :: 0 <= l < |creditors| ==> CreditsLeft(creditors, moves)[l] >= 0.0)
    // settling conserves the total
    && Sum(DebtsLeft(debtors, moves)) + Sum(CreditsLeft(creditors, moves))
       == Sum(Amounts(debtors)) + Sum(Amounts(creditors))
    // one side is settled to within 0.01 for everybody
    && ((forall k :: 0 <= k < |debtors| ==> DebtsLeft(debtors, moves)[k] > -0.01)
        || (forall l :: 0 <= l < |creditors| ==> CreditsLeft(creditors, moves)[l] < 0.01))
  }

  /** What the walk guarantees once either list is exhausted. */
  lemma WalkEnd(debtors: seq<BalanceEntry>, creditors: seq<BalanceEntry>, i: nat, j: nat,
                owing: seq<real>, owed: seq<real>, moves: seq<Move>, plan: seq<Settlement>)
    requires Walking(debtors, creditors, i, j, owing, owed, moves, plan)
    requires i == |debtors| || j == |creditors|
    ensures GreedySettlement(debtors, creditors, moves)
    ensures plan == Recorded(moves, debtors, creditors)
    ensures |plan| <= |moves| <= |debtors| + |creditors|
  {
  }

  /** The `while (i < debtors.length && j < creditors.length)` walk. Each
      step settles min(|debtor|, creditor), adds it to the debtor and takes
      it from the creditor, and moves past whichever side is within 0.01 of
      zero. */
  method SettleDebts(debtors: seq<BalanceEntry>, creditors: seq<BalanceEntry>)
    returns (plan: seq<Settlement>, ghost moves: seq<Move>)
    requires forall k :: 0 <= k < |debtors| ==> debtors[k].amount < 0.0
    requires forall l :: 0 <= l < |creditors| ==> creditors[l].amount > 0.0
    ensures moves == Walk(debtors, creditors)
    ensures GreedySettlement(debtors, creditors, moves)
    ensures plan == Recorded(moves, debtors, creditors)
    ensures |plan| <= |moves| <= |debtors| + |creditors|
    ensures forall s :: s in plan ==>
      s.amount >= 0.01
      && (exists k :: 0 <= k < |debtors| && debtors[k].id == s.from)
      && (exists l :: 0 <= l < |creditors| && creditors[l].id == s.to)
  {
    var i, j := 0, 0;
    var owing, owed := Amounts(debtors), Amounts(creditors);
    plan, moves := [], [];
    WalkStart(debtors, creditors);
    while i < |debtors| && j < |creditors|
      invariant Walking(debtors, creditors, i, j, owing, owed, moves, plan)
      invariant moves + WalkFrom(owing, owed, i, j) == Walk(debtors, creditors)
      decreases |debtors| - i + |creditors| - j
    {
      var settle := Min(-owing[i], owed[j]);
      var step := if settle > 0.01 then [Settlement(debtors[i].id, creditors[j].id, Round2(settle))] else [];
      var x, y := owing[i] + settle, owed[j] - settle;
      var i', j' := if Abs(x) < 0.01 then i + 1 else i, if y < 0.01 then j + 1 else j;
      WalkStep(debtors, creditors, i, j, owing, owed, moves, plan, settle, step, x, y, i', j');
      var m := Move(i, j, settle);
      WalkOn(moves, owing, owed, i, j, settle, x, y, i', j', Walk(debtors, creditors));
      plan := plan + step;
      owing, owed := owing[i := x], owed[j := y];
      moves := moves + [m];
      i, j := i', j';
    }
    WalkEnd(debtors, creditors, i, j, owing, owed, moves, plan);
    assert WalkFrom(owing, owed, i, j) == [];
  }

  /** The response of getRoomBalances. */
  datatype BalanceReport = BalanceReport(rawBalances: seq<BalanceEntry>, simplifiedDebts: seq<Settlement>)

  datatype BalanceError = NotAuthorizedToView

  /** The unrounded balance of every member, in member order. */
  function Entries(order: seq<UserId>, balances: map<UserId, real>): (entries: seq<BalanceEntry>)
    requires forall u :: u in order ==> u in balances
    ensures |entries| == |order|
    ensures forall k :: 0 <= k < |order| ==> entries[k] == BalanceEntry(order[k], balances[order[k]])
  {
    seq(|order|, k requires 0 <= k < |order| => BalanceEntry(order[k], balances[order[k]]))
  }

  function Rounded(entries: seq<BalanceEntry>): (r: seq<BalanceEntry>)
    ensures |r| == |entries|
    ensures forall k :: 0 <= k < |entries| ==> r[k] == BalanceEntry(entries[k].id, Round2(entries[k].amount))
  {
    seq(|entries|, k requires 0 <= k < |entries| => BalanceEntry(entries[k].id, Round2(entries[k].amount)))
  }

  /** Every member's net balance, one entry per distinct member in member order. */
  function NetEntries(ids: seq<UserId>, expenses: seq<Expense>): (entries: seq<BalanceEntry>)
    ensures |entries| == |ids|
    ensures forall k :: 0 <= k < |ids| ==> entries[k] == BalanceEntry(ids[k], Net(expenses, ids[k]))
  {
    seq(|ids|, k requires 0 <= k < |ids| => BalanceEntry(ids[k], Net(expenses, ids[k])))
  }

  lemma NetEntryOfMember(members: seq<Member>, expenses: seq<Expense>, b: BalanceEntry)
    requires b in NetEntries(Dedup(MemberIds(members)), expenses)
    ensures IsMember(members, b.id) && b.amount == Net(expenses, b.id)
  {
    var ids := Dedup(MemberIds(members));
    var k :| 0 <= k < |ids| && NetEntries(ids, expenses)[k] == b;
    assert ids[k] in ids;
    MemberIdsContain(members, b.id);
  }

  /** Every reported settlement runs from a debtor's id to a creditor's id. */
  lemma PlanParties(entries: seq<BalanceEntry>, plan: seq<Settlement>, s: Settlement)
    requires s in plan
    requires forall t :: t in plan ==>
      (exists k :: 0 <= k < |Debtors(entries)| && Debtors(entries)[k].id == t.from)
      && (exists l :: 0 <= l < |Creditors(entries)| && Creditors(entries)[l].id == t.to)
    ensures exists b :: b in entries && b.id == s.from && b.amount < 0.0
    ensures exists b :: b in entries && b.id == s.to && b.amount > 0.0
  {
    var debtors, creditors := Debtors(entries), Creditors(entries);
    var k :| 0 <= k < |debtors| && debtors[k].id == s.from;
    assert debtors[k] in debtors;
    var l :| 0 <= l < |creditors| && creditors[l].id == s.to;
    assert creditors[l] in creditors;
  }

  lemma {:induction false} SidesFitSorted(entries: seq<BalanceEntry>)
    ensures |Debtors(entries)| + |Creditors(entries)| <= |entries|
  {
    SidesFit(entries);
    assert |SortDesc(Negatives(entries), Magnitude)| == |Negatives(entries)|;
    assert |SortDesc(Positives(entries), Magnitude)| == |Positives(entries)|;
  }

  /** The simplification step: split the balances into debtors and
      creditors, sort each side, and walk them. The plan is what the greedy
      walk over the sorted sides reports; every settlement runs from
      somebody who owes to somebody who is owed, and there are no more of
      them than balances. */
  method SimplifyDebts(entries: seq<BalanceEntry>) returns (plan: seq<Settlement>, ghost moves: seq<Move>)
    ensures moves == Walk(Debtors(entries), Creditors(entries))
    ensures GreedySettlement(Debtors(entries), Creditors(entries), moves)
    ensures plan == Recorded(moves, Debtors(entries), Creditors(entries))
    ensures |plan| <= |entries|
    ensures forall s :: s in plan ==>
      s.amount >= 0.01
      && (exists b :: b in entries && b.id == s.from && b.amount < 0.0)
      && (exists b :: b in entries && b.id == s.to && b.amount > 0.0)
  {
    var debtors, creditors := Debtors(entries), Creditors(entries);
    plan, moves := SettleDebts(debtors, creditors);
    SidesFitSorted(entries);
    forall s | s in plan
      ensures exists b :: b in entries && b.id == s.from && b.amount < 0.0
      ensures exists b :: b in entries && b.id == s.to && b.amount > 0.0
    {
      PlanParties(entries, plan, s);
    }
  }

  /** Every settlement drawn from the members' balances runs from a member
      who owes to a member who is owed. */
  lemma PlanBetweenMembers(members: seq<Member>, expenses: seq<Expense>, plan: seq<Settlement>)
    requires var entries := NetEntries(Dedup(MemberIds(members)), expenses);
      forall t :: t in plan ==>
        (exists b :: b in entries && b.id == t.from && b.amount < 0.0)
        && (exists b :: b in entries && b.id == t.to && b.amount > 0.0)
    ensures forall s :: s in plan ==>
      IsMember(members, s.from) && Net(expenses, s.from) < 0.0
      && IsMember(members, s.to) && Net(expenses, s.to) > 0.0
  {
    var entries := NetEntries(Dedup(MemberIds(members)), expenses);
    forall s | s in plan
      ensures IsMember(members, s.from) && Net(expenses, s.from) < 0.0
      ensures IsMember(members, s.to) && Net(expenses, s.to) > 0.0
    {
      var b :| b in entries && b.id == s.from && b.amount < 0.0;
      NetEntryOfMember(members, expenses, b);
      var c :| c in entries && c.id == s.to && c.amount > 0.0;
      NetEntryOfMember(members, expenses, c);
    }
  }

  /** Every rounded entry is a member's net balance rounded to the cent. */
  lemma RoundedOfMembers(members: seq<Member>, expenses: seq<Expense>)
    ensures forall b :: b in Rounded(NetEntries(Dedup(MemberIds(members)), expenses)) ==>
      IsMember(members, b.id) && b.amount == Round2(Net(expenses, b.id))
  {
    var entries := NetEntries(Dedup(MemberIds(members)), expenses);
    var raw := Rounded(entries);
    forall b | b in raw ensures IsMember(members, b.id) && b.amount == Round2(Net(expenses, b.id)) {
      var k :| 0 <= k < |raw| && raw[k] == b;
      NetEntryOfMember(members, expenses, entries[k]);
    }
  }

  /** The report getRoomBalances builds once membership is settled: one
      rounded entry per distinct member, in member order, holding what they
      paid minus what they owe, and the settlements the greedy walk reports
      over those balances. */
  method BuildReport(members: seq<Member>, expenses: seq<Expense>)
    returns (report: BalanceReport, ghost moves: seq<Move>)
    ensures report.rawBalances == Rounded(NetEntries(Dedup(MemberIds(members)), expenses))
    ensures forall b :: b in report.rawBalances ==> IsMember(members, b.id) && b.amount == Round2(Net(expenses, b.id))
    ensures var entries := NetEntries(Dedup(MemberIds(members)), expenses);
      moves == Walk(Debtors(entries), Creditors(entries))
      && GreedySettlement(Debtors(entries), Creditors(entries), moves)
      && report.simplifiedDebts == Recorded(moves, Debtors(entries), Creditors(entries))
    ensures |report.simplifiedDebts| <= |members|
    ensures forall s :: s in report.simplifiedDebts ==>
      s.amount >= 0.01
      && IsMember(members, s.from) && Net(expenses, s.from) < 0.0
      && IsMember(members, s.to) && Net(expenses, s.to) > 0.0
  {
    var order, balances := AccumulateBalances(members, expenses);
    forall u | u in order ensures u in balances {
      MemberIdsContain(members, u);
    }
    var entries := Entries(order, balances);
    assert entries == NetEntries(order, expenses);
    var plan;
    plan, moves := SimplifyDebts(entries);
    assert |entries| <= |members| by {
      assert |Dedup(MemberIds(members))| <= |MemberIds(members)|;
    }
    PlanBetweenMembers(members, expenses, plan);
    RoundedOfMembers(members, expenses);
    report := BalanceReport(Rounded(entries), plan);
  }

  /** getRoomBalances for a snapshot of the room's members and its ledger:
      members only; one rounded entry per distinct member, in member order,
      holding what they paid minus what they owe; and the settlements the
      greedy walk reports over those balances, each of at least a cent from
      a member who owes to a member who is owed, no more of them than there
      are members. */
  method RoomBalances(members: seq<Member>, requester: UserId, expenses: seq<Expense>)
    returns (r: Result<BalanceReport, BalanceError>, ghost moves: seq<Move>)
    ensures r.Failure? <==> !IsMember(members, requester)
    ensures r.Success? ==>
      r.value.rawBalances == Rounded(NetEntries(Dedup(MemberIds(members)), expenses))
    ensures r.Success? ==>
      forall b :: b in r.value.rawBalances ==> IsMember(members, b.id) && b.amount == Round2(Net(expenses, b.id))
    ensures r.Success? ==>
      var entries := NetEntries(Dedup(MemberIds(members)), expenses);
      moves == Walk(Debtors(entries), Creditors(entries))
      && GreedySettlement(Debtors(entries), Creditors(entries), moves)
      && r.value.simplifiedDebts == Recorded(moves, Debtors(entries), Creditors(entries))
    ensures r.Success? ==> |r.value.simplifiedDebts| <= |members|
    ensures r.Success? ==>
      forall s :: s in r.value.simplifiedDebts ==>
        s.amount >= 0.01
        && IsMember(members, s.from) && Net(expenses, s.from) < 0.0
        && IsMember(members, s.to) && Net(expenses, s.to) > 0.0
  {
    if !IsMember(members, requester) {
      return Failure(NotAuthorizedToView), [];
    }
    var report;
    report, moves := BuildReport(members, expenses);
    return Success(report), moves;
  }
}
