/** The latched alarms of the Pantrack device. */
module Pantrack {
  import opened Bytes
  import Division
  import opened SortedLists

  // ----- what a packet says ---------------------------------------------------------------

  const IN_DOOR: nat := 1
  const IN_BASE: nat := 2
  const IN_POWER: nat := 7

  /** The fields of a state packet the alarms look at. */
  datatype State = State(inputs: byte, ignition: bool, signalActive: bool, signalMove: bool) {
    predicate InputActive(i: nat)
      requires i < 8
    {
      Division.BitsOf(inputs)[i]
    }
  }

  /** The condition ids. Their values do not matter as long as they are different. */
  datatype Ids = Ids(powerLow: int, alert: int, ignition: int, move: int, door: int, base: int) {
    function At(k: nat): int
      requires k < 10
    {
      if k == 0 then powerLow
      else if k == 1 then alert
      else if k == 2 then ignition
      else if k == 3 then move
      else if k == 4 then door
      else base + (k - 5)
    }

    predicate Valid() {
      forall i, j | 0 <= i < j < 10 :: At(i) != At(j)
    }
  }

  /** The conditions by name; the last are the five inputs from bit 2 on. */
  datatype Condition = PowerLow | Alert | Ignition | Move | Door | Input(i: nat) {
    predicate Legal() {
      Input? ==> i < 5
    }

    function Id(ids: Ids): int {
      match this
      case PowerLow => ids.powerLow
      case Alert => ids.alert
      case Ignition => ids.ignition
      case Move => ids.move
      case Door => ids.door
      case Input(i) => ids.base + i
    }

    /** Its place among the checks. */
    function Place(): (k: nat)
      requires Legal()
      ensures k < 10
    {
      match this
      case PowerLow => 0
      case Alert => 1
      case Ignition => 2
      case Move => 3
      case Door => 4
      case Input(i) => 5 + i
    }
  }

  /** What a packet says of a condition, by its own fields: power and the alarm signal are always
      classified, the others are called active only while the signal is on. */
  function Says(val: State, c: Condition): (says: Option<bool>)
    requires c.Legal()
    ensures says == None || says == Some(true) || says == Some(false)
  {
    match c
    case PowerLow => Some(val.inputs / 128 % 2 == 1)
    case Alert => Some(val.signalActive)
    case Ignition => UnderSignal(val, val.ignition)
    case Move => UnderSignal(val, val.signalMove)
    case Door => UnderSignal(val, val.inputs / 2 % 2 == 1)
    case Input(i) => UnderSignal(val, val.inputs / [4, 8, 16, 32, 64][i] % 2 == 1)
  }

  function UnderSignal(val: State, on: bool): Option<bool> {
    if !on then Some(false) else if val.signalActive then Some(true) else None
  }

  /** One condition and whether its input is on. */
  datatype Check = Check(id: int, on: bool)

  function CheckAt(ids: Ids, val: State, k: nat): Check
    requires k < 10
  {
    Check(ids.At(k),
          if k == 0 then val.InputActive(IN_POWER)
          else if k == 1 then val.signalActive
          else if k == 2 then val.ignition
          else if k == 3 then val.signalMove
          else if k == 4 then val.InputActive(IN_DOOR)
          else val.InputActive(IN_BASE + (k - 5)))
  }

  function Checks(ids: Ids, val: State, n: nat): (cs: seq<Check>)
    requires n <= 10
    ensures |cs| == n
  {
    seq(n, k requires 0 <= k < n => CheckAt(ids, val, k))
  }

  /** The ids of the checks that are in the given state. */
  function Picked(cs: seq<Check>, on: bool): seq<int> {
    if cs == [] then []
    else Picked(cs[..|cs| - 1], on) + if cs[|cs| - 1].on == on then [cs[|cs| - 1].id] else []
  }

  /** Without the alarm signal only the power and the signal itself can be active. */
  function Active(ids: Ids, val: State): seq<int> {
    Picked(Checks(ids, val, if val.signalActive then 10 else 2), true)
  }

  function Inactive(ids: Ids, val: State): seq<int> {
    Picked(Checks(ids, val, 10), false)
  }

  lemma {:induction false} PickedExactly(ids: Ids, val: State, n: nat, on: bool)
    requires ids.Valid() && n <= 10
    ensures Distinct(Picked(Checks(ids, val, n), on))
    ensures forall x :: x in Picked(Checks(ids, val, n), on) <==>
                        exists k: nat | k < n :: CheckAt(ids, val, k) == Check(x, on)
  {
    hide CheckAt;
    if n > 0 {
      PickedExactly(ids, val, n - 1, on);
      assert Checks(ids, val, n)[..n - 1] == Checks(ids, val, n - 1);
      IdsDiffer(ids, val, n - 1, on);
    }
  }

  lemma IdsDiffer(ids: Ids, val: State, n: nat, on: bool)
    requires ids.Valid() && n < 10
    ensures forall k: nat | k < n :: CheckAt(ids, val, k) != Check(CheckAt(ids, val, n).id, on)
  {
    forall k: nat | k < n
      ensures CheckAt(ids, val, k).id != CheckAt(ids, val, n).id
    {
      assert ids.At(k) != ids.At(n);
    }
  }

  /** The sorted lists a packet is turned into. */
  function SortedActive(ids: Ids, val: State): (s: seq<int>)
    requires ids.Valid()
  {
    PickedExactly(ids, val, if val.signalActive then 10 else 2, true);
    Sorted(Active(ids, val))
  }

  function SortedInactive(ids: Ids, val: State): (s: seq<int>)
    requires ids.Valid()
  {
    PickedExactly(ids, val, 10, false);
    Sorted(Inactive(ids, val))
  }

  lemma InputIs(val: State, i: nat)
    requires i < 8
    ensures val.InputActive(i) == (val.inputs / [1, 2, 4, 8, 16, 32, 64, 128][i] % 2 == 1)
  {
    Division.BitsAre(val.inputs);
    hide Division.BitsOf;
  }

  /** A check looks at the field its condition is about. */
  lemma CheckIs(ids: Ids, val: State, c: Condition)
    requires c.Legal()
    ensures var check := CheckAt(ids, val, c.Place());
            && check.id == c.Id(ids) == ids.At(c.Place())
            && (!check.on <==> Says(val, c) == Some(false))
            && (check.on && (c.Place() < 2 || val.signalActive) <==> Says(val, c) == Some(true))
  {
    hide State.InputActive;
    InputIs(val, 1);
    InputIs(val, 7);
    if c.Input? {
      InputIs(val, 2 + c.i);
    }
  }

  lemma SameCheck(ids: Ids, val: State, k: nat, c: Condition)
    requires ids.Valid() && c.Legal() && k < 10 && CheckAt(ids, val, k).id == c.Id(ids)
    ensures k == c.Place()
  {
    CheckIs(ids, val, c);
    CheckHasId(ids, val, k);
    hide CheckAt, Condition.Place, Ids.At;
  }

  /** The two lists are sorted, and a condition is in one of them exactly as the fields of the packet
      say; so no condition is in both. */
  lemma ClassifiedExactly(ids: Ids, val: State, c: Condition)
    requires ids.Valid() && c.Legal()
    ensures Increasing(SortedActive(ids, val)) && Increasing(SortedInactive(ids, val))
    ensures c.Id(ids) in SortedActive(ids, val) <==> Says(val, c) == Some(true)
    ensures c.Id(ids) in SortedInactive(ids, val) <==> Says(val, c) == Some(false)
  {
    hide Picked, Sorted, Increasing, CheckAt, Says, Ids.At, Condition.Id, Ids.Valid;
    var n, k := if val.signalActive then 10 else 2, c.Place();
    PickedExactly(ids, val, n, true);
    PickedExactly(ids, val, 10, false);
    CheckIs(ids, val, c);
    forall j: nat | j < 10 && CheckAt(ids, val, j).id == c.Id(ids)
      ensures j == k
    {
      SameCheck(ids, val, j, c);
    }
    assert CheckAt(ids, val, k) == Check(c.Id(ids), CheckAt(ids, val, k).on);
  }

  // ----- the latch --------------------------------------------------------------------------

  datatype Step = Step(fired: seq<int>, next: seq<int>)

  /** accept_states: what fires, and what is latched afterwards. */
  function Accept(current: seq<int>, active: seq<int>, inactive: seq<int>): Step {
    Step(Difference(active, current), Difference(Union(current, active), inactive))
  }

  /** The merges on sorted lists are set algebra, and keep the latched list sorted and free of
      repetitions. */
  lemma AcceptIsSetAlgebra(current: seq<int>, active: seq<int>, inactive: seq<int>)
    requires Increasing(current) && Increasing(active) && Increasing(inactive)
    ensures var step := Accept(current, active, inactive);
            && Increasing(step.fired) && Increasing(step.next)
            && (forall x :: x in step.fired <==> x in active && x !in current)
            && (forall x :: x in step.next <==> (x in current || x in active) && x !in inactive)
  {
    hide Difference, Union, Increasing;
    DifferenceIsSetDifference(active, current);
    UnionIsSetUnion(current, active);
    DifferenceIsSetDifference(Union(current, active), inactive);
  }

  function Receive(ids: Ids, current: seq<int>, val: State): Step
    requires ids.Valid()
  {
    Accept(current, SortedActive(ids, val), SortedInactive(ids, val))
  }

  /** What is latched after the packets. */
  function After(ids: Ids, vals: seq<State>): seq<int>
    requires ids.Valid()
  {
    if vals == [] then [] else Receive(ids, After(ids, vals[..|vals| - 1]), vals[|vals| - 1]).next
  }

  /** What the last packet that classified a condition said of it. */
  function LastSaid(vals: seq<State>, c: Condition): Option<bool>
    requires c.Legal()
  {
    if vals == [] then None
    else
      var last := Says(vals[|vals| - 1], c);
      if last.Some? then last else LastSaid(vals[..|vals| - 1], c)
  }

  /** Over any run of packets a condition is latched exactly when the last packet that classified
      it called it active. */
  lemma {:induction false} LatchedExactly(ids: Ids, vals: seq<State>, c: Condition)
    requires ids.Valid() && c.Legal()
    ensures Increasing(After(ids, vals))
    ensures c.Id(ids) in After(ids, vals) <==> LastSaid(vals, c) == Some(true)
  {
    hide SortedActive, SortedInactive, Accept, Says, Condition.Id;
    if vals != [] {
      var n := |vals| - 1;
      LatchedExactly(ids, vals[..n], c);
      ClassifiedExactly(ids, vals[n], c);
      AcceptIsSetAlgebra(After(ids, vals[..n]), SortedActive(ids, vals[n]), SortedInactive(ids, vals[n]));
    }
  }

  ghost predicate IsCondition(ids: Ids, x: int) {
    exists c: Condition | c.Legal() :: c.Id(ids) == x
  }

  /** Nothing but the conditions is ever latched. */
  lemma {:induction false} OnlyConditionsAreLatched(ids: Ids, vals: seq<State>, x: int)
    requires ids.Valid() && x in After(ids, vals)
    ensures IsCondition(ids, x)
  {
    hide SortedActive, SortedInactive, Accept, Ids.Valid, Increasing, IsCondition;
    var n := |vals| - 1;
    var val, before := vals[n], After(ids, vals[..n]);
    LatchedExactly(ids, vals[..n], Alert);
    ClassifiedExactly(ids, val, Alert);
    AcceptIsSetAlgebra(before, SortedActive(ids, val), SortedInactive(ids, val));
    if x in before {
      OnlyConditionsAreLatched(ids, vals[..n], x);
    } else {
      ActiveIsCondition(ids, val, x);
    }
  }

  lemma ActiveIsCondition(ids: Ids, val: State, x: int)
    requires ids.Valid() && x in SortedActive(ids, val)
    ensures IsCondition(ids, x)
  {
    hide CheckAt, Picked, Ids.At, IsCondition;
    var n := if val.signalActive then 10 else 2;
    PickedExactly(ids, val, n, true);
    var k: nat :| k < n && CheckAt(ids, val, k) == Check(x, true);
    CheckHasId(ids, val, k);
    PlaceIsCondition(ids, k);
  }

  lemma PlaceIsCondition(ids: Ids, k: nat)
    requires k < 10
    ensures IsCondition(ids, ids.At(k))
  {
    var c := if k == 0 then PowerLow else if k == 1 then Alert else if k == 2 then Ignition
             else if k == 3 then Move else if k == 4 then Door else Input(k - 5);
    assert c.Id(ids) == ids.At(k);
  }

  /** It fires exactly on packets that call it active while it is not latched. */
  lemma FiresExactly(ids: Ids, vals: seq<State>, val: State, c: Condition)
    requires ids.Valid() && c.Legal()
    ensures c.Id(ids) in Receive(ids, After(ids, vals), val).fired <==>
            Says(val, c) == Some(true) && LastSaid(vals, c) != Some(true)
  {
    hide SortedActive, SortedInactive, Accept, Says, Condition.Id, After, LastSaid;
    LatchedExactly(ids, vals, c);
    ClassifiedExactly(ids, val, c);
    AcceptIsSetAlgebra(After(ids, vals), SortedActive(ids, val), SortedInactive(ids, val));
  }

  predicate FiresAt(ids: Ids, vals: seq<State>, i: nat, c: Condition)
    requires ids.Valid() && c.Legal() && i < |vals|
  {
    c.Id(ids) in Receive(ids, After(ids, vals[..i]), vals[i]).fired
  }

  lemma {:induction false} StaysActive(ids: Ids, vals: seq<State>, i: nat, j: nat, c: Condition)
    requires c.Legal() && i < j <= |vals| && Says(vals[i], c) == Some(true)
    requires forall m | i < m < j :: Says(vals[m], c) != Some(false)
    ensures LastSaid(vals[..j], c) == Some(true)
  {
    hide Says;
    assert vals[..j][..j - 1] == vals[..j - 1];
    if i + 1 < j {
      StaysActive(ids, vals, i, j - 1, c);
    }
  }

  /** No alarm is raised twice without a packet in between that calls it inactive. */
  lemma NeverTwice(ids: Ids, vals: seq<State>, i: nat, j: nat, c: Condition)
    requires ids.Valid() && c.Legal() && i < j < |vals|
    ensures FiresAt(ids, vals, i, c) && FiresAt(ids, vals, j, c) ==>
              exists m :: i < m < j && Says(vals[m], c) == Some(false)
  {
    FiresExactly(ids, vals[..i], vals[i], c);
    FiresExactly(ids, vals[..j], vals[j], c);
    hide Says, Receive, After;
    if FiresAt(ids, vals, i, c) && forall m | i < m < j :: Says(vals[m], c) != Some(false) {
      StaysActive(ids, vals, i, j, c);
    }
  }

  // ----- the device object -------------------------------------------------------------------

  lemma NextCheck(ids: Ids, val: State, n: nat, on: bool)
    requires n < 10
    ensures Picked(Checks(ids, val, n + 1), on) ==
            Picked(Checks(ids, val, n), on) + if CheckAt(ids, val, n).on == on then [ids.At(n)] else []
  {
    hide CheckAt, Ids.At;
    assert Checks(ids, val, n + 1)[..n] == Checks(ids, val, n);
    assert CheckAt(ids, val, n).id == ids.At(n) by {
      CheckHasId(ids, val, n);
    }
  }

  lemma CheckHasId(ids: Ids, val: State, n: nat)
    requires n < 10
    ensures CheckAt(ids, val, n).id == ids.At(n)
  {
  }

  /** One push, if the check is in the wanted state. */
  method Push(list: seq<int>, ids: Ids, val: State, n: nat, on: bool) returns (next: seq<int>)
    requires n < 10 && list == Picked(Checks(ids, val, n), on)
    ensures next == Picked(Checks(ids, val, n + 1), on)
  {
    hide Ids.At, Picked, Checks, State.InputActive;
    NextCheck(ids, val, n, on);
    next := list;
    if CheckAt(ids, val, n).on == on {
      next := next + [ids.At(n)];
    }
  }

  method PushStates(ids: Ids, val: State) returns (active: seq<int>, inactive: seq<int>)
    ensures active == Active(ids, val) && inactive == Inactive(ids, val)
  {
    hide CheckAt, Picked;
    NothingPicked(ids, val);
    active := Push([], ids, val, 0, true);
    inactive := Push([], ids, val, 0, false);
    active := Push(active, ids, val, 1, true);
    inactive := Push(inactive, ids, val, 1, false);
    var i := 0;
    if val.signalActive {
      active := Push(active, ids, val, 2, true);
      active := Push(active, ids, val, 3, true);
      active := Push(active, ids, val, 4, true);
      while i < 5
        invariant i <= 5 && active == Picked(Checks(ids, val, 5 + i), true)
      {
        active := Push(active, ids, val, 5 + i, true);
        i := i + 1;
      }
    }
    inactive := Push(inactive, ids, val, 2, false);
    inactive := Push(inactive, ids, val, 3, false);
    inactive := Push(inactive, ids, val, 4, false);
    i := 0;
    while i < 5
      invariant i <= 5 && inactive == Picked(Checks(ids, val, 5 + i), false)
    {
      inactive := Push(inactive, ids, val, 5 + i, false);
      i := i + 1;
    }
  }

  lemma NothingPicked(ids: Ids, val: State)
    ensures Picked(Checks(ids, val, 0), true) == [] && Picked(Checks(ids, val, 0), false) == []
  {
  }

  class ConditionState {
    const ids: Ids
    var currentState: seq<int>

    constructor (ids: Ids)
      ensures this.ids == ids && currentState == []
    {
      this.ids, currentState := ids, [];
    }

    method CheckStates(val: State) returns (active: seq<int>, inactive: seq<int>)
      requires ids.Valid()
      ensures active == SortedActive(ids, val) && inactive == SortedInactive(ids, val)
    {
      hide CheckAt, Picked, Sorted;
      active, inactive := PushStates(ids, val);
      PickedExactly(ids, val, if val.signalActive then 10 else 2, true);
      PickedExactly(ids, val, 10, false);
      active, inactive := Sorted(active), Sorted(inactive);
    }

    method AcceptStates(active: seq<int>, inactive: seq<int>) returns (ret: seq<int>)
      requires Increasing(currentState) && Increasing(active) && Increasing(inactive)
      modifies this
      ensures Step(ret, currentState) == Accept(old(currentState), active, inactive)
      ensures Increasing(currentState)
    {
      hide Difference, Union, Increasing;
      AcceptIsSetAlgebra(currentState, active, inactive);
      ret := SetDifference(active, currentState);
      UnionIsSetUnion(currentState, active);
      var ncur := SetUnion(currentState, active);
      currentState := SetDifference(ncur, inactive);
    }

    /** One packet; scanned is what scan_input_packet made of it, if it was a state packet. The
        triggers carry the fired ids in order. */
    method ParseConditionPacket(scanned: Option<State>) returns (ok: bool, triggers: seq<int>)
      requires ids.Valid() && Increasing(currentState)
      modifies this
      ensures Increasing(currentState) && (ok <==> triggers != [])
      ensures scanned.None? ==> !ok && currentState == old(currentState)
      ensures scanned.Some? ==> Step(triggers, currentState) == Receive(ids, old(currentState), scanned.value)
    {
      hide Accept, SortedActive, SortedInactive, Increasing;
      ok, triggers := false, [];
      if scanned.None? {
        return;
      }
      var active, inactive := CheckStates(scanned.value);
      ClassifiedExactly(ids, scanned.value, Alert);
      var fire := AcceptStates(active, inactive);
      if fire == [] {
        return;
      }
      var i := 0;
      while i < |fire|
        invariant i <= |fire| && triggers == fire[..i]
        invariant Step(fire, currentState) == Receive(ids, old(currentState), scanned.value) && Increasing(currentState)
      {
        triggers := triggers + [fire[i]];
        i := i + 1;
      }
      ok := true;
    }
  }
}
