/** Expense creation and deletion (controllers/expenseController.js,
    addExpense and deleteExpense): the request checks, the membership checks,
    and the derivation of per-user split amounts from one of four split
    types. */
module Expenses {
  import opened Domain
  import opened Money

  datatype SplitType = Equal | Unequal | Percentage | Shares

  /** One split as stored on an expense. */
  datatype Split = Split(user: UserId, amount: real, percentage: Option<real>, shares: Option<real>)

  datatype Expense = Expense(
    id: nat,
    description: string,
    totalAmount: real,
    paidBy: UserId,
    splitType: SplitType,
    splits: seq<Split>)

  /** One entry of the request's `splits`; a number that is missing or does
      not parse (`parseFloat` gives NaN) is `None`. */
  datatype SplitInput = SplitInput(user: UserId, amount: Option<real>, percentage: Option<real>, shares: Option<real>)

  /** The request body; `None` and the empty string are the falsy values the
      required-field check rejects. */
  datatype ExpenseRequest = ExpenseRequest(
    description: string,
    totalAmount: Option<real>,
    paidBy: Option<UserId>,
    splitType: string,
    splits: Option<seq<SplitInput>>)

  datatype ExpenseError =
    | MissingDetails
    | NotRoomMember
    | PayerNotMember
    | SplitUserNotMember
    | NoEqualParticipants
    | InvalidSplitValue
    | AmountsMismatch
    | PercentagesNot100
    | ZeroShares
    | InvalidSplitType
    | SchemaViolation
    | ExpenseNotFound
    | NotAuthorized

  function ParseSplitType(tag: string): (r: Option<SplitType>)
    ensures r.Some? <==> tag in {"equal", "unequal", "percentage", "shares"}
    ensures r == Some(Equal) <==> tag == "equal"
    ensures r == Some(Unequal) <==> tag == "unequal"
    ensures r == Some(Percentage) <==> tag == "percentage"
    ensures r == Some(Shares) <==> tag == "shares"
  {
    if tag == "equal" then Some(Equal)
    else if tag == "unequal" then Some(Unequal)
    else if tag == "percentage" then Some(Percentage)
    else if tag == "shares" then Some(Shares)
    else None
  }

  // ----- the number each split type reads, and its validity -----

  /** The number a split of type `t` is derived from. */
  function Entry(s: SplitInput, t: SplitType): Option<real> {
    match t
    case Equal => None
    case Unequal => s.amount
    case Percentage => s.percentage
    case Shares => s.shares
  }

  /** The per-entry check: amounts and shares must be positive numbers,
      percentages numbers within [0, 100]; an equal split reads none. */
  predicate ValidEntry(t: SplitType, v: Option<real>) {
    match t
    case Equal => true
    case Unequal => v.Some? && v.value > 0.0
    case Percentage => v.Some? && 0.0 <= v.value <= 100.0
    case Shares => v.Some? && v.value > 0.0
  }

  predicate AllValid(splits: seq<SplitInput>, t: SplitType) {
    forall i :: 0 <= i < |splits| ==> ValidEntry(t, Entry(splits[i], t))
  }

  function Values(splits: seq<SplitInput>, t: SplitType): (vs: seq<real>)
    ensures |vs| == |splits|
  {
    seq(|splits|, i requires 0 <= i < |splits| => if Entry(splits[i], t).Some? then Entry(splits[i], t).value else 0.0)
  }

  /** The accumulator (`totalSplitAmount`, `totalPercentage`, `totalShares`). */
  function Total(splits: seq<SplitInput>, t: SplitType): real {
    Sum(Values(splits, t))
  }

  lemma ValuesSnoc(splits: seq<SplitInput>, t: SplitType, i: nat)
    requires i < |splits|
    ensures Values(splits[..i + 1], t) == Values(splits[..i], t) + [Values(splits, t)[i]]
  {
  }

  /** The validating `map` with its running accumulator: fails on the first
      invalid entry, otherwise yields the accumulated total. */
  method AccumulateEntries(splits: seq<SplitInput>, t: SplitType) returns (total: Option<real>)
    ensures total.Some? <==> AllValid(splits, t)
    ensures total.Some? ==> total.value == Total(splits, t)
  {
    var acc := 0.0;
    for i := 0 to |splits|
      invariant AllValid(splits[..i], t)
      invariant acc == Total(splits[..i], t)
    {
      var v := Entry(splits[i], t);
      if !ValidEntry(t, v) {
        return None;
      }
      ValuesSnoc(splits, t, i);
      assert Values(splits, t)[i] == if v.Some? then v.value else 0.0;
      acc := acc + (if v.Some? then v.value else 0.0);
      assert splits[..i + 1] == splits[..i] + [splits[i]];
    }
    assert splits[..|splits|] == splits;
    return Some(acc);
  }

  // ----- the derived amounts, one formula per split type -----

  /** The unrounded amount entry `i` is owed. */
  function RawAmount(t: SplitType, total: real, splits: seq<SplitInput>, i: nat): real
    requires i < |splits|
  {
    var v := Values(splits, t)[i];
    match t
    case Equal => total / |splits| as real
    case Unequal => v
    case Percentage => total * v / 100.0
    case Shares => if Total(splits, Shares) == 0.0 then 0.0 else v * (total / Total(splits, Shares))
  }

  /** The splits an accepted request stores: one per input entry, in input
      order, each amount rounded to the cent; percentage and shares splits
      also keep the number they came from. */
  function DerivedSplits(t: SplitType, total: real, splits: seq<SplitInput>): (out: seq<Split>)
    ensures |out| == |splits|
    ensures forall i :: 0 <= i < |splits| ==>
      out[i].user == splits[i].user && out[i].amount == Round2(RawAmount(t, total, splits, i))
  {
    seq(|splits|, i requires 0 <= i < |splits| =>
      Split(splits[i].user,
            Round2(RawAmount(t, total, splits, i)),
            if t == Percentage then Entry(splits[i], t) else None,
            if t == Shares then Entry(splits[i], t) else None))
  }

  /** The first rejection the split-type `switch` raises, if any. */
  function DerivationError(t: SplitType, total: real, splits: seq<SplitInput>): Option<ExpenseError> {
    match t
    case Equal => if |splits| == 0 then Some(NoEqualParticipants) else None
    case Unequal =>
      if !AllValid(splits, t) then Some(InvalidSplitValue)
      else if Abs(Total(splits, t) - total) > 0.01 then Some(AmountsMismatch)
      else None
    case Percentage =>
      if !AllValid(splits, t) then Some(InvalidSplitValue)
      else if Abs(Total(splits, t) - 100.0) > 0.01 then Some(PercentagesNot100)
      else None
    case Shares =>
      if !AllValid(splits, t) then Some(InvalidSplitValue)
      else if Total(splits, t) == 0.0 then Some(ZeroShares)
      else None
  }

  method DeriveSplits(t: SplitType, total: real, splits: seq<SplitInput>) returns (r: Result<seq<Split>, ExpenseError>)
    ensures r.Failure? <==> DerivationError(t, total, splits).Some?
    ensures r.Failure? ==> r.error == DerivationError(t, total, splits).value
    ensures r.Success? ==> r.value == DerivedSplits(t, total, splits)
  {
    if t == Equal {
      if |splits| == 0 {
        return Failure(NoEqualParticipants);
      }
      return Success(DerivedSplits(t, total, splits));
    }
    var acc := AccumulateEntries(splits, t);
    if acc.None? {
      return Failure(InvalidSplitValue);
    }
    match t {
      case Unequal =>
        if Abs(acc.value - total) > 0.01 {
          return Failure(AmountsMismatch);
        }
      case Percentage =>
        if Abs(acc.value - 100.0) > 0.01 {
          return Failure(PercentagesNot100);
        }
      case Shares =>
        if acc.value == 0.0 {
          return Failure(ZeroShares);
        }
    }
    return Success(DerivedSplits(t, total, splits));
  }

  // ----- how close the derived amounts come to the expense total -----

  /** The stored amounts of a list of splits. */
  function Amounts(splits: seq<Split>): (xs: seq<real>)
    ensures |xs| == |splits|
    ensures forall i :: 0 <= i < |splits| ==> xs[i] == splits[i].amount
  {
    seq(|splits|, i requires 0 <= i < |splits| => splits[i].amount)
  }

  function RawAmounts(t: SplitType, total: real, splits: seq<SplitInput>): (xs: seq<real>)
    ensures |xs| == |splits|
    ensures forall i :: 0 <= i < |splits| ==> xs[i] == RawAmount(t, total, splits, i)
  {
    seq(|splits|, i requires 0 <= i < |splits| => RawAmount(t, total, splits, i))
  }

  /** Equal split: the n amounts add up to the total within n half-cents. */
  lemma EqualSplitsNearTotal(total: real, splits: seq<SplitInput>)
    requires DerivationError(Equal, total, splits).None?
    ensures Abs(Sum(Amounts(DerivedSplits(Equal, total, splits))) - total) <= 0.005 * |splits| as real
  {
    var n := |splits| as real;
    var raw := RawAmounts(Equal, total, splits);
    var c := total / n;
    assert forall i :: 0 <= i < |raw| ==> raw[i] == c;
    SumConstant(raw, c);
    MulDivCancel(n, total);
    RoundedSumNearTarget(raw, Amounts(DerivedSplits(Equal, total, splits)), total, 0.0);
  }

  /** Unequal split: the stored amounts are within 0.01 plus n half-cents of the total. */
  lemma UnequalSplitsNearTotal(total: real, splits: seq<SplitInput>)
    requires DerivationError(Unequal, total, splits).None?
    ensures Abs(Sum(Amounts(DerivedSplits(Unequal, total, splits))) - total) <= 0.01 + 0.005 * |splits| as real
  {
    var raw := RawAmounts(Unequal, total, splits);
    assert raw == Values(splits, Unequal);
    RoundedSumNearTarget(raw, Amounts(DerivedSplits(Unequal, total, splits)), total, 0.01);
  }

  /** Percentage split: the unrounded amounts add up to total * (sum of
      percentages) / 100, so the stored ones are within a hundredth of a
      percent of the total plus n half-cents. */
  lemma PercentageSplitsNearTotal(total: real, splits: seq<SplitInput>)
    requires DerivationError(Percentage, total, splits).None?
    ensures Abs(Sum(Amounts(DerivedSplits(Percentage, total, splits))) - total)
            <= Abs(total) * 0.0001 + 0.005 * |splits| as real
  {
    var raw := RawAmounts(Percentage, total, splits);
    PercentageRawSum(total, splits);
    PercentDeviation(total, Total(splits, Percentage));
    RoundedSumNearTarget(raw, Amounts(DerivedSplits(Percentage, total, splits)), total, Abs(total) * 0.0001);
  }

  lemma PercentageRawSum(total: real, splits: seq<SplitInput>)
    ensures Sum(RawAmounts(Percentage, total, splits)) == (total / 100.0) * Total(splits, Percentage)
  {
    var vs := Values(splits, Percentage);
    var raw := RawAmounts(Percentage, total, splits);
    var c := total / 100.0;
    forall i | 0 <= i < |splits| ensures raw[i] == c * vs[i] {
      assert raw[i] == total * vs[i] / 100.0;
      ScaleByPercent(total, vs[i]);
    }
    SumScaled(vs, raw, c);
  }

  /** Percentages off 100 by at most 0.01 put the amounts off the total by at most 0.0001 of it. */
  lemma PercentDeviation(total: real, p: real)
    requires Abs(p - 100.0) <= 0.01
    ensures Abs((total / 100.0) * p - total) <= Abs(total) * 0.0001
  {
    var c := total / 100.0;
    AbsProduct(c, p - 100.0, 0.01);
    assert c * p - total == c * (p - 100.0);
    assert Abs(c) * 0.01 == Abs(total) * 0.0001;
  }

  lemma ScaleByPercent(total: real, v: real)
    ensures total * v / 100.0 == (total / 100.0) * v
  {
  }

  lemma AbsProduct(a: real, b: real, bound: real)
    requires Abs(b) <= bound
    ensures Abs(a * b) <= Abs(a) * bound
  {
    if a >= 0.0 {
      if b >= 0.0 { assert a * b <= a * bound; } else { assert a * (-b) <= a * bound; }
    } else {
      if b >= 0.0 { assert (-a) * b <= (-a) * bound; } else { assert (-a) * (-b) <= (-a) * bound; }
    }
  }

  lemma SharesScaled(total: real, splits: seq<SplitInput>)
    requires Total(splits, Shares) != 0.0
    ensures forall i :: 0 <= i < |splits| ==>
      RawAmounts(Shares, total, splits)[i] == (total / Total(splits, Shares)) * Values(splits, Shares)[i]
  {
  }

  /** Shares split: the unrounded amounts add up to the total exactly. */
  lemma SharesSplitsNearTotal(total: real, splits: seq<SplitInput>)
    requires DerivationError(Shares, total, splits).None?
    ensures Sum(RawAmounts(Shares, total, splits)) == total
    ensures Abs(Sum(Amounts(DerivedSplits(Shares, total, splits))) - total) <= 0.005 * |splits| as real
  {
    var raw := RawAmounts(Shares, total, splits);
    SharesRawSum(total, splits);
    RoundedSumNearTarget(raw, Amounts(DerivedSplits(Shares, total, splits)), total, 0.0);
  }

  lemma SharesRawSum(total: real, splits: seq<SplitInput>)
    requires Total(splits, Shares) != 0.0
    ensures Sum(RawAmounts(Shares, total, splits)) == total
  {
    var t := Total(splits, Shares);
    SharesScaled(total, splits);
    SumScaled(Values(splits, Shares), RawAmounts(Shares, total, splits), total / t);
    MulDivCancel(t, total);
  }

  /** 100 split equally three ways stores 33.33 each, a cent short of the total. */
  lemma EqualThreeWayExample(a: UserId, b: UserId, c: UserId)
    ensures var splits := [SplitInput(a, None, None, None), SplitInput(b, None, None, None), SplitInput(c, None, None, None)];
      var out := DerivedSplits(Equal, 100.0, splits);
      DerivationError(Equal, 100.0, splits).None?
      && out[0].amount == 33.33 && out[1].amount == 33.33 && out[2].amount == 33.33
      && Sum(Amounts(out)) == 99.99
  {
    var splits := [SplitInput(a, None, None, None), SplitInput(b, None, None, None), SplitInput(c, None, None, None)];
    var out := DerivedSplits(Equal, 100.0, splits);
    assert (100.0 / 3.0 * 100.0 + 0.5).Floor == 3333;
    assert out[0].amount == 33.33 && out[1].amount == 33.33 && out[2].amount == 33.33;
    var xs := Amounts(out);
    assert xs == [33.33, 33.33, 33.33];
    assert xs[..2] == [33.33, 33.33] && xs[..2][..1] == [33.33] && [33.33][..0] == [];
    assert Sum(xs[..2][..1]) == 33.33;
    assert Sum(xs[..2]) == 66.66;
  }

  lemma TwoSum(x: real, y: real)
    ensures Sum([x, y]) == x + y
  {
    var s := [x, y];
    assert s[..|s| - 1] == [x] && s[|s| - 1] == y;
    assert [x][..0] == [];
    assert Sum([x]) == x;
  }

  /** Percentages of 60 and 39 are refused; 60 and 40 split 50 into 30 and 20. */
  lemma PercentageExample(a: UserId, b: UserId)
    ensures DerivationError(Percentage, 50.0, [SplitInput(a, None, Some(60.0), None), SplitInput(b, None, Some(39.0), None)])
            == Some(PercentagesNot100)
    ensures var splits := [SplitInput(a, None, Some(60.0), None), SplitInput(b, None, Some(40.0), None)];
      var out := DerivedSplits(Percentage, 50.0, splits);
      DerivationError(Percentage, 50.0, splits).None?
      && out[0] == Split(a, 30.0, Some(60.0), None) && out[1] == Split(b, 20.0, Some(40.0), None)
  {
    var bad := [SplitInput(a, None, Some(60.0), None), SplitInput(b, None, Some(39.0), None)];
    assert Values(bad, Percentage) == [60.0, 39.0];
    TwoSum(60.0, 39.0);
    assert AllValid(bad, Percentage);
    var good := [SplitInput(a, None, Some(60.0), None), SplitInput(b, None, Some(40.0), None)];
    assert Values(good, Percentage) == [60.0, 40.0];
    TwoSum(60.0, 40.0);
    assert AllValid(good, Percentage);
    Round2Cents(3000);
    Round2Cents(2000);
    assert RawAmount(Percentage, 50.0, good, 0) == 30.0;
    assert RawAmount(Percentage, 50.0, good, 1) == 20.0;
  }

  // ----- addExpense -----

  predicate LacksRequiredFields(req: ExpenseRequest) {
    req.description == [] || req.totalAmount.None? || req.totalAmount == Some(0.0)
    || req.paidBy.None? || req.splitType == [] || req.splits.None?
  }

  predicate AllSplitUsersMembers(members: seq<Member>, splits: seq<SplitInput>) {
    forall i :: 0 <= i < |splits| ==> IsMember(members, splits[i].user)
  }

  /** The `for (const s of splits)` membership loop. */
  method CheckSplitUsers(members: seq<Member>, splits: seq<SplitInput>) returns (ok: bool)
    ensures ok <==> AllSplitUsersMembers(members, splits)
  {
    var ids := MemberIds(members);
    for i := 0 to |splits|
      invariant AllSplitUsersMembers(members, splits[..i])
    {
      MemberIdsContain(members, splits[i].user);
      if splits[i].user !in ids {
        return false;
      }
      assert splits[..i + 1] == splits[..i] + [splits[i]];
    }
    assert splits[..|splits|] == splits;
    return true;
  }

  /** addExpense against a snapshot of the room's members: `requester` is the
      authenticated user and `id` the id the store gives the new expense. */
  method AddExpense(members: seq<Member>, requester: UserId, req: ExpenseRequest, id: nat)
    returns (r: Result<Expense, ExpenseError>)
    ensures LacksRequiredFields(req) ==> r == Failure(MissingDetails)
    ensures !LacksRequiredFields(req) && !IsMember(members, requester) ==> r == Failure(NotRoomMember)
    ensures !LacksRequiredFields(req) && IsMember(members, requester) && !IsMember(members, req.paidBy.value)
            ==> r == Failure(PayerNotMember)
    ensures !LacksRequiredFields(req) && IsMember(members, requester) && IsMember(members, req.paidBy.value)
            && !AllSplitUsersMembers(members, req.splits.value)
            ==> r == Failure(SplitUserNotMember)
    ensures !LacksRequiredFields(req) && IsMember(members, requester) && IsMember(members, req.paidBy.value)
            && AllSplitUsersMembers(members, req.splits.value) && ParseSplitType(req.splitType).None?
            ==> r == Failure(InvalidSplitType)
    ensures r.Success? ==>
      !LacksRequiredFields(req) && IsMember(members, requester)
      && ParseSplitType(req.splitType).Some?
      && DerivationError(ParseSplitType(req.splitType).value, req.totalAmount.value, req.splits.value).None?
      && r.value == Expense(id, req.description, req.totalAmount.value, req.paidBy.value,
                            ParseSplitType(req.splitType).value,
                            DerivedSplits(ParseSplitType(req.splitType).value, req.totalAmount.value, req.splits.value))
    ensures r.Success? ==>
      r.value.totalAmount >= 0.01 && IsMember(members, r.value.paidBy)
      && forall i :: 0 <= i < |r.value.splits| ==> IsMember(members, r.value.splits[i].user)
    ensures !LacksRequiredFields(req) && IsMember(members, requester) && IsMember(members, req.paidBy.value)
            && AllSplitUsersMembers(members, req.splits.value) && ParseSplitType(req.splitType).Some?
            ==> var e := DerivationError(ParseSplitType(req.splitType).value, req.totalAmount.value, req.splits.value);
                (e.Some? ==> r == Failure(e.value))
                && (e.None? ==> (r.Success? <==> req.totalAmount.value >= 0.01))
                && (e.None? && r.Failure? ==> r.error == SchemaViolation)
  {
    if LacksRequiredFields(req) {
      return Failure(MissingDetails);
    }
    if !IsMember(members, requester) {
      return Failure(NotRoomMember);
    }
    var payer := req.paidBy.value;
    if !IsMember(members, payer) {
      return Failure(PayerNotMember);
    }
    var splits := req.splits.value;
    var ok := CheckSplitUsers(members, splits);
    if !ok {
      return Failure(SplitUserNotMember);
    }
    var kind := ParseSplitType(req.splitType);
    if kind.None? {
      return Failure(InvalidSplitType);
    }
    var total := req.totalAmount.value;
    var derived := DeriveSplits(kind.value, total, splits);
    if derived.Failure? {
      return Failure(derived.error);
    }
    // Expense.create enforces the schema's `min: 0.01` on totalAmount
    if total < 0.01 {
      return Failure(SchemaViolation);
    }
    return Success(Expense(id, req.description, total, payer, kind.value, derived.value));
  }

  // ----- deleteExpense -----

  predicate HasExpense(ledger: seq<Expense>, id: nat) {
    exists k :: 0 <= k < |ledger| && ledger[k].id == id
  }

  function FindExpense(ledger: seq<Expense>, id: nat): (e: Expense)
    requires HasExpense(ledger, id)
    ensures e in ledger && e.id == id
  {
    if ledger[0].id == id then ledger[0]
    else
      assert HasExpense(ledger[1..], id) by {
        var k :| 0 <= k < |ledger| && ledger[k].id == id;
        assert ledger[1..][k - 1].id == id;
      }
      FindExpense(ledger[1..], id)
  }

  function WithoutExpense(ledger: seq<Expense>, id: nat): (r: seq<Expense>)
    ensures forall e :: e in r <==> e in ledger && e.id != id
    ensures |r| <= |ledger|
  {
    if ledger == [] then []
    else if ledger[0].id == id then WithoutExpense(ledger[1..], id)
    else [ledger[0]] + WithoutExpense(ledger[1..], id)
  }

  /** deleteExpense: only a room admin or the payer may delete; the expense
      disappears from the ledger and nothing else changes. */
  function DeleteExpense(ledger: seq<Expense>, members: seq<Member>, requester: UserId, id: nat)
    : (r: Result<seq<Expense>, ExpenseError>)
    ensures !HasExpense(ledger, id) ==> r == Failure(ExpenseNotFound)
    ensures HasExpense(ledger, id) ==>
      (r.Success? <==> IsAdmin(members, requester) || FindExpense(ledger, id).paidBy == requester)
    ensures r.Failure? && HasExpense(ledger, id) ==> r.error == NotAuthorized
    ensures r.Success? ==> r.value == WithoutExpense(ledger, id)
    ensures r.Success? ==>
      !HasExpense(r.value, id) && |r.value| < |ledger|
      && forall e :: e in ledger && e.id != id ==> e in r.value
  {
    if !HasExpense(ledger, id) then Failure(ExpenseNotFound)
    else
      var e := FindExpense(ledger, id);
      if IsAdmin(members, requester) || e.paidBy == requester then
        var rest := WithoutExpense(ledger, id);
        assert !HasExpense(rest, id);
        assert |rest| < |ledger| by { WithoutDrops(ledger, id); }
        Success(rest)
      else Failure(NotAuthorized)
  }

  lemma {:induction false} WithoutDrops(ledger: seq<Expense>, id: nat)
    requires HasExpense(ledger, id)
    ensures |WithoutExpense(ledger, id)| < |ledger|
  {
    if ledger[0].id != id {
      assert HasExpense(ledger[1..], id) by {
        var k :| 0 <= k < |ledger| && ledger[k].id == id;
        assert ledger[1..][k - 1].id == id;
      }
      WithoutDrops(ledger[1..], id);
    }
  }
}
