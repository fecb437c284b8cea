/** Duty configuration of controllers/dutyController.js: `createOrUpdateDuties`
    validates the admin's duty list and member order, assigns slot `i` to the
    `i`-th member of the order, and resets the rotation; `getDutiesTable`
    reports the configuration and the requester's current duty. */
module DutyConfiguration {
  import opened Domain
  import opened DutyRotation

  /** The validation failures of the configuration request, in the order
      they are checked. */
  datatype DutyError =
    | NoDuties            // "Please provide at least one duty."
    | NoMemberOrder       // "Please provide an order of members for duties."
    | TooManyDuties       // more duties than members in the order
    | InvalidMembers      // an id in the order is not a room member
    | BlankDescription    // the schema's `required` on a trimmed description fails on save
    | NotAuthorizedToView // the table was asked for by a non-member

  /** The ids of the order that are not room members (`memberOrder.filter(...)`). */
  function NonMembers(members: seq<Member>, order: seq<UserId>): (r: seq<UserId>)
    ensures forall u :: u in r <==> u in order && !IsMember(members, u)
  {
    if order == [] then []
    else
      assert order == [order[0]] + order[1..];
      (if IsMember(members, order[0]) then [] else [order[0]]) + NonMembers(members, order[1..])
  }

  /** What configuration checks reject, if anything. Missing lists count as
      empty, and a duty without a description has the empty one. The
      controller's checks come first; the schema's check on each description
      runs when the document is saved. */
  function ConfigError(members: seq<Member>, duties: Option<seq<string>>, order: Option<seq<UserId>>): Option<DutyError> {
    if duties.None? || |duties.value| == 0 then Some(NoDuties)
    else if order.None? || |order.value| == 0 then Some(NoMemberOrder)
    else if |duties.value| > |order.value| then Some(TooManyDuties)
    else if |NonMembers(members, order.value)| > 0 then Some(InvalidMembers)
    else if exists i :: 0 <= i < |duties.value| && Trim(duties.value[i]) == [] then Some(BlankDescription)
    else None
  }

  /** The `duties.map` with its running `memberIndex`: slot `i` keeps its
      description and goes to `memberOrder[i]`, or to nobody past the end. */
  method InitialSlots(descriptions: seq<string>, order: seq<UserId>) returns (slots: seq<DutySlot>)
    ensures |slots| == |descriptions|
    ensures forall i :: 0 <= i < |descriptions| ==> slots[i] == DutySlot(descriptions[i], Lookup(order, i))
  {
    var memberIndex := 0;
    slots := [];
    while memberIndex < |descriptions|
      invariant 0 <= memberIndex <= |descriptions| && |slots| == memberIndex
      invariant forall i :: 0 <= i < memberIndex ==> slots[i] == DutySlot(descriptions[i], Lookup(order, i))
    {
      slots := slots + [DutySlot(descriptions[memberIndex], Lookup(order, memberIndex))];
      memberIndex := memberIndex + 1;
    }
  }

  /** createOrUpdateDuties. The route is admin-only (`adminProtect` answers
      anyone else before the controller runs), hence the precondition on the
      requester. Creating and updating store the same fields, so the
      previous configuration, if any, plays no part in the result. */
  method ConfigureDuties(members: seq<Member>, requester: UserId,
                         duties: Option<seq<string>>, order: Option<seq<UserId>>)
    returns (r: Result<DutyConfig, DutyError>)
    requires IsAdmin(members, requester)
    ensures r.Failure? <==> ConfigError(members, duties, order).Some?
    ensures r.Failure? ==> r.error == ConfigError(members, duties, order).value
    ensures r.Success? ==>
      && duties.Some? && order.Some?
      && 0 < |duties.value| <= |order.value|
      && (forall u :: u in order.value ==> IsMember(members, u))
      && (forall i :: 0 <= i < |duties.value| ==> Trim(duties.value[i]) != [])
      && r.value.memberOrder == order.value
      && r.value.cursor == 0 && r.value.skipped == []
      && |r.value.duties| == |duties.value|
      && (forall i :: 0 <= i < |duties.value| ==>
            r.value.duties[i] == DutySlot(Trim(duties.value[i]), Some(order.value[i])))
  {
    var err := ConfigError(members, duties, order);
    if err.Some? {
      return Failure(err.value);
    }
    // the schema trims each description as the document is built
    var descriptions := seq(|duties.value|, i requires 0 <= i < |duties.value| => Trim(duties.value[i]));
    var slots := InitialSlots(descriptions, order.value);
    return Success(DutyConfig(slots, order.value, 0, []));
  }

  /** A fresh configuration is in step with its cursor, so the daily ticks
      cycle through it with period |memberOrder|. */
  lemma ConfiguredInStep(members: seq<Member>, duties: seq<string>, order: seq<UserId>, c: DutyConfig)
    requires ConfigError(members, Some(duties), Some(order)).None?
    requires c.memberOrder == order && c.cursor == 0 && |c.duties| == |duties|
    requires forall i :: 0 <= i < |duties| ==> c.duties[i] == DutySlot(Trim(duties[i]), Some(order[i]))
    ensures InStep(c)
    ensures Ticks(c, |order|) == c
  {
    forall i | 0 <= i < |c.duties| ensures c.duties[i].assignedTo == Some(order[(0 + i) % |order|]) {
      ModUnique(i, |order|, 0, i);
    }
    RotationPeriodic(c);
  }

  /** The response of getDutiesTable. */
  datatype DutiesTable =
    | NotConfigured
    | Configured(currentUserDuty: Option<DutySlot>, allDuties: seq<DutySlot>)

  /** Index of the first duty assigned to `u`, or |duties| when there is none. */
  function FirstDutyIndex(duties: seq<DutySlot>, u: UserId): (k: nat)
    ensures k <= |duties|
    ensures k < |duties| ==> duties[k].assignedTo == Some(u)
    ensures forall l :: 0 <= l < k ==> duties[l].assignedTo != Some(u)
  {
    if duties == [] then 0
    else if duties[0].assignedTo == Some(u) then 0
    else 1 + FirstDutyIndex(duties[1..], u)
  }

  /** `dutyConfig.duties.find(duty => duty.assignedTo == user) || null` */
  function CurrentUserDuty(duties: seq<DutySlot>, u: UserId): (r: Option<DutySlot>)
    ensures r.None? <==> forall l :: 0 <= l < |duties| ==> duties[l].assignedTo != Some(u)
    ensures r.Some? ==> exists k :: (0 <= k < |duties| && duties[k] == r.value
      && r.value.assignedTo == Some(u)
      && forall l :: 0 <= l < k ==> duties[l].assignedTo != Some(u))
  {
    var k := FirstDutyIndex(duties, u);
    if k < |duties| then Some(duties[k]) else None
  }

  /** getDutiesTable: members only; "not configured" when there is no
      configuration or either list is empty. */
  function GetDutiesTable(members: seq<Member>, requester: UserId, config: Option<DutyConfig>): (r: Result<DutiesTable, DutyError>)
    ensures r.Failure? <==> !IsMember(members, requester)
    ensures r.Failure? ==> r.error == NotAuthorizedToView
    ensures r.Success? ==>
      (r.value.NotConfigured? <==> config.None? || |config.value.duties| == 0 || |config.value.memberOrder| == 0)
    ensures r.Success? && r.value.Configured? ==>
      r.value.allDuties == config.value.duties
      && r.value.currentUserDuty == CurrentUserDuty(config.value.duties, requester)
  {
    if !IsMember(members, requester) then Failure(NotAuthorizedToView)
    else if config.None? || |config.value.duties| == 0 || |config.value.memberOrder| == 0 then Success(NotConfigured)
    else Success(Configured(CurrentUserDuty(config.value.duties, requester), config.value.duties))
  }
}
