/** The daily duty rotation of agenda/jobs/incrementDutyIndex.js: for every
    room's duty configuration, advance the starting cursor by one position of
    the member ring (wrapping to 0) and reassign slot `i` to the member at
    ring position `next + i`. The job is a pure transition per room, written
    back wholesale. */
module DutyRotation {
  import opened Domain

  /** One entry of `duties`: a chore and whoever holds it this cycle. */
  datatype DutySlot = DutySlot(description: string, assignedTo: Option<UserId>)

  /** A room's duty document. `cursor` is `currentStartingMemberIndex`, a
      plain Number in the schema, so it is an `int` here. */
  datatype DutyConfig = DutyConfig(
    duties: seq<DutySlot>,
    memberOrder: seq<UserId>,
    cursor: int,
    skipped: seq<UserId>)

  /** JavaScript's `%`: the remainder truncates toward zero, so it takes the
      sign of the dividend. */
  function JsRem(a: int, n: int): (r: int)
    requires n > 0
    ensures a >= 0 ==> r == a % n
    ensures a < 0 ==> r == -((-a) % n)
    ensures -n < r < n
  {
    if a >= 0 then a % n else -((-a) % n)
  }

  /** Array indexing: an index outside the array reads `undefined`. */
  function Lookup(xs: seq<UserId>, k: int): (r: Option<UserId>)
    ensures r.Some? <==> 0 <= k < |xs|
    ensures r.Some? ==> r.value == xs[k]
  {
    if 0 <= k < |xs| then Some(xs[k]) else None
  }

  /** `cur >= maxIndex ? 0 : cur + 1` with `maxIndex = len - 1`. */
  function NextCursor(cur: int, len: nat): int {
    if cur >= len - 1 then 0 else cur + 1
  }

  /** The tick for one room. A room with no members in the order or no
      duties is left as it is. */
  function Tick(c: DutyConfig): (r: DutyConfig)
    ensures r.memberOrder == c.memberOrder && r.skipped == c.skipped
    ensures |r.duties| == |c.duties|
    ensures forall i :: 0 <= i < |c.duties| ==> r.duties[i].description == c.duties[i].description
    ensures |c.memberOrder| == 0 || |c.duties| == 0 ==> r == c
  {
    var len := |c.memberOrder|;
    if len == 0 || |c.duties| == 0 then c
    else
      var next := NextCursor(c.cursor, len);
      var start := JsRem(next, len);
      var slots := seq(|c.duties|, i requires 0 <= i < |c.duties| =>
        c.duties[i].(assignedTo := Lookup(c.memberOrder, JsRem(start + i, len))));
      c.(duties := slots, cursor := next)
  }

  /** Euclidean division has one quotient and one remainder. */
  lemma ModUnique(x: int, n: int, q: int, r: int)
    requires n > 0 && 0 <= r < n && x == q * n + r
    ensures x % n == r && x / n == q
  {
    var q', r' := x / n, x % n;
    assert (q - q') * n == r' - r;
    // |r' - r| < n, so the two quotients cannot differ by a whole n
    if q - q' >= 1 {
      assert false;
    } else if q - q' <= -1 {
      assert false;
    }
  }

  /** The cursor stays on the ring and moves one step, wrapping at the end. */
  lemma TickCursor(c: DutyConfig)
    requires |c.memberOrder| > 0 && |c.duties| > 0
    requires 0 <= c.cursor < |c.memberOrder|
    ensures 0 <= Tick(c).cursor < |c.memberOrder|
    ensures Tick(c).cursor == (c.cursor + 1) % |c.memberOrder|
  {
    var len := |c.memberOrder|;
    if c.cursor == len - 1 {
      ModUnique(c.cursor + 1, len, 1, 0);
    } else {
      ModUnique(c.cursor + 1, len, 0, c.cursor + 1);
    }
  }

  /** From a cursor on the ring, every slot goes to the member `i` places
      after the new cursor. */
  lemma TickAssigns(c: DutyConfig)
    requires |c.memberOrder| > 0 && |c.duties| > 0
    requires 0 <= c.cursor < |c.memberOrder|
    ensures forall i :: 0 <= i < |c.duties| ==>
      Tick(c).duties[i].assignedTo == Some(c.memberOrder[(Tick(c).cursor + i) % |c.memberOrder|])
  {
    var len, next := |c.memberOrder|, NextCursor(c.cursor, |c.memberOrder|);
    assert 0 <= next < len;
    ModUnique(next, len, 0, next);
    assert JsRem(next, len) == next;
  }

  /** A cursor below the ring (a negative stored Number) yields slots read
      from negative positions, which are `undefined`. No modelled operation
      produces such a cursor: configuring sets it to 0 and ticks keep it on
      the ring (`TicksInStep`). The lemma records what the job would do with
      a document edited by other means. */
  lemma TickFromNegativeCursor(c: DutyConfig)
    requires |c.memberOrder| > 1 && |c.duties| > 0
    requires c.cursor <= -2
    ensures Tick(c).cursor == c.cursor + 1
    ensures Tick(c).duties[0].assignedTo.None? <==> JsRem(c.cursor + 1, |c.memberOrder|) != 0
  {
  }

  predicate Distinct(ids: seq<UserId>) {
    forall a, b :: 0 <= a < b < |ids| ==> ids[a] != ids[b]
  }

  /** With no repeated ids in the ring and no more duties than ring
      positions, no member holds two slots after a tick. */
  lemma TickDistinctAssignees(c: DutyConfig)
    requires |c.memberOrder| > 0 && |c.duties| > 0
    requires 0 <= c.cursor < |c.memberOrder|
    requires Distinct(c.memberOrder) && |c.duties| <= |c.memberOrder|
    ensures forall i, j :: 0 <= i < j < |c.duties| ==> Tick(c).duties[i].assignedTo != Tick(c).duties[j].assignedTo
  {
    var len, r := |c.memberOrder|, Tick(c);
    TickAssigns(c);
    forall i, j | 0 <= i < j < |c.duties| ensures r.duties[i].assignedTo != r.duties[j].assignedTo {
      RingPositionsDiffer(r.cursor, i, j, len);
    }
  }

  lemma RingPositionsDiffer(p: int, i: int, j: int, len: int)
    requires 0 <= p < len && 0 <= i < j < len
    ensures (p + i) % len != (p + j) % len
  {
    if p + j < len {
      ModUnique(p + i, len, 0, p + i);
      ModUnique(p + j, len, 0, p + j);
    } else if p + i >= len {
      ModUnique(p + i, len, 1, p + i - len);
      ModUnique(p + j, len, 1, p + j - len);
    } else {
      // p + j wraps around to below p, p + i does not
      ModUnique(p + i, len, 0, p + i);
      ModUnique(p + j, len, 1, p + j - len);
    }
  }

  /** The assignment a cursor determines: slot `i` is held by the member `i`
      places after it on the ring. */
  predicate InStep(c: DutyConfig) {
    |c.memberOrder| > 0 && 0 <= c.cursor < |c.memberOrder|
    && forall i :: 0 <= i < |c.duties| ==>
         c.duties[i].assignedTo == Some(c.memberOrder[(c.cursor + i) % |c.memberOrder|])
  }

  /** `n` daily ticks. */
  function Ticks(c: DutyConfig, n: nat): DutyConfig {
    if n == 0 then c else Tick(Ticks(c, n - 1))
  }

  lemma {:induction false} TicksInStep(c: DutyConfig, n: nat)
    requires InStep(c) && |c.duties| > 0
    ensures InStep(Ticks(c, n))
    ensures Ticks(c, n).cursor == (c.cursor + n) % |c.memberOrder|
    ensures Ticks(c, n).memberOrder == c.memberOrder && Ticks(c, n).skipped == c.skipped
    ensures |Ticks(c, n).duties| == |c.duties|
    ensures forall i :: 0 <= i < |c.duties| ==> Ticks(c, n).duties[i].description == c.duties[i].description
  {
    TicksShape(c, n);
    if n > 0 {
      TicksInStep(c, n - 1);
      var prev := Ticks(c, n - 1);
      assert Ticks(c, n) == Tick(prev);
      TickKeepsInStep(prev);
      ModSucc(c.cursor + n - 1, |c.memberOrder|);
    }
  }

  /** Ticking keeps the ring, the skip list and the chores themselves. */
  lemma {:induction false} TicksShape(c: DutyConfig, n: nat)
    ensures Ticks(c, n).memberOrder == c.memberOrder && Ticks(c, n).skipped == c.skipped
    ensures |Ticks(c, n).duties| == |c.duties|
    ensures forall i :: 0 <= i < |c.duties| ==> Ticks(c, n).duties[i].description == c.duties[i].description
  {
    if n > 0 {
      TicksShape(c, n - 1);
    }
  }

  /** One tick of an in-step configuration is in step, one place further on. */
  lemma TickKeepsInStep(c: DutyConfig)
    requires InStep(c) && |c.duties| > 0
    ensures InStep(Tick(c))
    ensures Tick(c).cursor == (c.cursor + 1) % |c.memberOrder|
  {
    TickCursor(c);
    TickAssigns(c);
  }

  lemma ModSucc(a: nat, len: nat)
    requires len > 0
    ensures (a % len + 1) % len == (a + 1) % len
  {
    var q, r := a / len, a % len;
    if r + 1 < len {
      ModUnique(r + 1, len, 0, r + 1);
      ModUnique(a + 1, len, q, r + 1);
    } else {
      ModUnique(r + 1, len, 1, 0);
      assert a + 1 == (q + 1) * len;
      ModUnique(a + 1, len, q + 1, 0);
    }
  }

  /** Two in-step configurations that agree on everything but the slot
      holders agree on the slot holders too. */
  lemma InStepDetermined(c: DutyConfig, d: DutyConfig)
    requires InStep(c) && InStep(d)
    requires c.memberOrder == d.memberOrder && c.cursor == d.cursor && c.skipped == d.skipped
    requires |c.duties| == |d.duties|
    requires forall i :: 0 <= i < |c.duties| ==> c.duties[i].description == d.duties[i].description
    ensures c == d
  {
    assert c.duties == d.duties;
  }

  /** After as many ticks as there are members in the ring, an in-step
      configuration is back where it started: same cursor, same holders. */
  lemma RotationPeriodic(c: DutyConfig)
    requires InStep(c) && |c.duties| > 0
    ensures Ticks(c, |c.memberOrder|) == c
  {
    var len := |c.memberOrder|;
    TicksInStep(c, len);
    ModUnique(c.cursor + len, len, 1, c.cursor);
    InStepDetermined(Ticks(c, len), c);
  }

  /** The job: every room's configuration is ticked on its own. */
  function TickAll(configs: seq<DutyConfig>): (r: seq<DutyConfig>)
    ensures |r| == |configs|
    ensures forall k :: 0 <= k < |configs| ==> r[k] == Tick(configs[k])
  {
    seq(|configs|, k requires 0 <= k < |configs| => Tick(configs[k]))
  }

  /** A room's new configuration depends on that room's configuration alone:
      ticking a collection of rooms is ticking each part separately, and
      replacing one room's configuration changes only that room's result. */
  lemma TickAllIndependent(xs: seq<DutyConfig>, ys: seq<DutyConfig>, k: nat, c: DutyConfig)
    ensures TickAll(xs + ys) == TickAll(xs) + TickAll(ys)
    ensures k < |xs| ==> TickAll(xs[k := c]) == TickAll(xs)[k := Tick(c)]
  {
  }

  /** The documented example: ring [A, B, C], two duties, cursor 0. */
  lemma ThreeMemberExample(a: UserId, b: UserId, c: UserId)
    ensures var start := DutyConfig([DutySlot("d1", Some(a)), DutySlot("d2", Some(b))], [a, b, c], 0, []);
      var one := Tick(start);
      var two := Tick(one);
      var three := Tick(two);
      one.cursor == 1 && one.duties[0].assignedTo == Some(b) && one.duties[1].assignedTo == Some(c)
      && two.cursor == 2 && two.duties[0].assignedTo == Some(c) && two.duties[1].assignedTo == Some(a)
      && three == start
  {
  }

  /** A ring with no members leaves the configuration unchanged. */
  lemma EmptyRingNoOp(c: DutyConfig)
    requires c.memberOrder == []
    ensures Tick(c) == c
  {
  }
}
