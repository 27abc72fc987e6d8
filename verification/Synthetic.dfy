/** The synthetic change scheduler: each accepted update services the next cohort of entities in
    round-robin order, copying selected fields of a freshly generated snapshot.

    The generator of positions, headings and hues is a parameter. Models
    src/synthetic/src/synthetic_snapshot.cpp. */
module Synthetic {
  import opened Bytes
  import opened Snapshot
  import opened Arithmetic

  datatype Fields = Fields(position: Vec3, heading: Vec3, hue: byte)

  datatype FieldChangeMode = All | Transform | PositionOnly | HeadingOnly

  /** `boundsValid` stands for the float checks on the bounds; `variant` for seed, bounds and pattern. */
  datatype SnapshotSettings = SnapshotSettings(entityCount: u32, variant: nat, boundsValid: bool)
  datatype ChangeSettings = ChangeSettings(fraction: real, mode: FieldChangeMode)

  const TICK_MAX: nat := 0xFFFF_FFFF_FFFF_FFFF

  predicate ValidChange(change: ChangeSettings) {
    0.0 <= change.fraction <= 1.0
  }

  function Scaled(count: u32, fraction: real): real {
    fraction * count as real
  }

  function Clamped(scaled: real, count: u32): nat {
    if scaled.Floor < 1 then 1 else if scaled.Floor > count then count else scaled.Floor
  }

  function CohortSize(count: u32, fraction: real): (size: nat)
    requires 0.0 <= fraction <= 1.0
    ensures size <= count
    ensures size == 0 <==> count == 0 || fraction == 0.0
  {
    if count == 0 || fraction == 0.0 then 0
    else Clamped(Scaled(count, fraction), count)
  }

  /** The cohort is the floor of the fraction of the population, but never empty when both are positive;
      the upper clamp never bites. */
  lemma CohortIsFraction(count: u32, fraction: real)
    requires 0.0 <= fraction <= 1.0
    ensures var size := CohortSize(count, fraction);
      && fraction * count as real < (size + 1) as real
      && (size > 1 ==> size as real <= fraction * count as real)
      && (fraction == 1.0 ==> size == count)
  {
    hide CohortSize;
    ScaledCohort(count, fraction);
    assert Scaled(count, fraction) == fraction * count as real;
  }

  lemma ScaledCohort(count: u32, fraction: real)
    requires 0.0 <= fraction <= 1.0
    ensures var size := CohortSize(count, fraction);
      && Scaled(count, fraction) < (size + 1) as real
      && (size > 1 ==> size as real <= Scaled(count, fraction))
      && (fraction == 1.0 ==> size == count)
  {
    hide Clamped, Scaled;
    ScaledWithin(count, fraction);
    if count > 0 && fraction > 0.0 {
      ClampedFloor(Scaled(count, fraction), count);
    }
  }

  lemma ScaledWithin(count: u32, fraction: real)
    requires 0.0 <= fraction <= 1.0
    ensures 0.0 <= Scaled(count, fraction) <= count as real
    ensures fraction == 1.0 ==> Scaled(count, fraction) == count as real
    ensures fraction == 0.0 || count == 0 ==> Scaled(count, fraction) == 0.0
  {
    FractionOf(fraction, count as real);
  }

  lemma ClampedFloor(scaled: real, count: u32)
    requires 0.0 <= scaled <= count as real
    ensures var size := Clamped(scaled, count);
      && scaled < (size + 1) as real
      && (size > 1 ==> size as real <= scaled)
      && (count > 0 && scaled == count as real ==> size == count)
  {
  }

  lemma FractionOf(fraction: real, whole: real)
    requires 0.0 <= fraction <= 1.0 && whole >= 0.0
    ensures 0.0 <= fraction * whole <= whole
    ensures fraction == 1.0 ==> fraction * whole == whole
    ensures fraction == 0.0 || whole == 0.0 ==> fraction * whole == 0.0
  {
    var rest := 1.0 - fraction;
    assert rest * whole >= 0.0;
    assert rest * whole == whole - fraction * whole;
  }

  function Selected(mode: FieldChangeMode, from: Fields, onto: Fields): Fields {
    match mode
    case All => from
    case Transform => onto.(position := from.position, heading := from.heading)
    case PositionOnly => onto.(position := from.position)
    case HeadingOnly => onto.(heading := from.heading)
  }

  /** Whether an entity is among the `size` serviced from `start` on, wrapping around. */
  predicate Serviced(start: nat, size: nat, count: nat, i: nat)
    requires start < count && i < count
  {
    (if i >= start then i - start else i + count - start) < size
  }

  // ---------------------------------------------------------------- one update

  function Generated(generate: (SnapshotSettings, nat, nat) -> Fields, settings: SnapshotSettings, tick: nat)
    : (fields: seq<Fields>)
    ensures |fields| == settings.entityCount
  {
    seq(settings.entityCount, i requires 0 <= i < settings.entityCount => generate(settings, tick, i))
  }

  /** The entities with the serviced ones changed. */
  function Changed(mode: FieldChangeMode, current: seq<Fields>, candidate: seq<Fields>, start: nat, size: nat)
    : (next: seq<Fields>)
    requires |current| == |candidate| && size <= |current| && (|current| > 0 ==> start < |current|)
    ensures |next| == |current|
  {
    seq(|current|, i requires 0 <= i < |current| =>
      if Serviced(start, size, |current|, i) then Selected(mode, candidate[i], current[i]) else current[i])
  }

  datatype State =
    | Fresh
    | Running(settings: SnapshotSettings, change: ChangeSettings, current: seq<Fields>, tick: nat, next: nat)

  datatype Outcome = InvalidSettings | NewSettings | TickNotNext | Accepted

  ghost predicate Valid(s: State) {
    s.Running? ==>
      && ValidChange(s.change) && |s.current| == s.settings.entityCount
      && (|s.current| > 0 ==> s.next < |s.current|) && (|s.current| == 0 ==> s.next == 0)
  }

  function Update(generate: (SnapshotSettings, nat, nat) -> Fields, s: State,
                  settings: SnapshotSettings, change: ChangeSettings, tick: nat): (State, Outcome)
    requires Valid(s)
  {
    if !settings.boundsValid || !ValidChange(change) then (s, InvalidSettings)
    else if s.Fresh? then (Running(settings, change, Generated(generate, settings, tick), tick, 0), Accepted)
    else if settings != s.settings || change != s.change then (s, NewSettings)
    else if s.tick == TICK_MAX || tick != s.tick + 1 then (s, TickNotNext)
    else
      var count, size := settings.entityCount, CohortSize(settings.entityCount, change.fraction);
      (s.(current := Changed(change.mode, s.current, Generated(generate, settings, tick), s.next, size),
          tick := tick,
          next := if count == 0 then s.next else (s.next + size) % count), Accepted)
  }

  class SyntheticSnapshotState {
    ghost var state: State
    const generate: (SnapshotSettings, nat, nat) -> Fields

    var initialized: bool
    var acceptedSnapshotSettings: SnapshotSettings
    var acceptedChangeSettings: ChangeSettings
    var current: seq<Fields>
    var nextEntityIndex: nat
    var lastAcceptedTick: nat

    ghost predicate Represents()
      reads this
    {
      && Valid(state)
      && state == if initialized
                  then Running(acceptedSnapshotSettings, acceptedChangeSettings, current, lastAcceptedTick,
                      nextEntityIndex)
                  else Fresh
    }

    constructor (generate: (SnapshotSettings, nat, nat) -> Fields)
      ensures Represents() && state == Fresh && this.generate == generate
    {
      this.generate := generate;
      state := Fresh;
      initialized, current, nextEntityIndex, lastAcceptedTick := false, [], 0, 0;
      acceptedSnapshotSettings := SnapshotSettings(0, 0, true);
      acceptedChangeSettings := ChangeSettings(0.0, All);
    }

    method FillSyntheticWorldSnapshot(settings: SnapshotSettings, tick: nat) returns (fields: seq<Fields>)
      ensures fields == Generated(generate, settings, tick)
    {
      fields := [];
      for index := 0 to settings.entityCount
        invariant fields == Generated(generate, settings, tick)[..index]
      {
        fields := fields + [generate(settings, tick, index)];
      }
    }

    method UpdateSyntheticWorldSnapshot(settings: SnapshotSettings, change: ChangeSettings, tick: nat)
      returns (outcome: Outcome)
      requires Represents()
      modifies this
      ensures Represents() && (state, outcome) == Update(generate, old(state), settings, change, tick)
    {
      if !settings.boundsValid || !ValidChange(change) {
        return InvalidSettings;
      }
      if !initialized {
        current := FillSyntheticWorldSnapshot(settings, tick);
        acceptedSnapshotSettings, acceptedChangeSettings := settings, change;
        nextEntityIndex, lastAcceptedTick, initialized := 0, tick, true;
        state := Running(settings, change, current, tick, 0);
        return Accepted;
      }
      if settings != acceptedSnapshotSettings || change != acceptedChangeSettings {
        return NewSettings;
      }
      if lastAcceptedTick == TICK_MAX || tick != lastAcceptedTick + 1 {
        return TickNotNext;
      }
      var candidate := FillSyntheticWorldSnapshot(settings, tick);
      var size := CohortSize(settings.entityCount, change.fraction);
      var population := settings.entityCount;
      ghost var before := current;
      for offset := 0 to size
        invariant nextEntityIndex == old(nextEntityIndex) && |current| == |before| == population
        invariant current == Changed(change.mode, before, candidate, nextEntityIndex, offset)
        invariant acceptedSnapshotSettings == settings && acceptedChangeSettings == change && initialized
      {
        var index := (nextEntityIndex + offset) % population;
        WrapOnce(nextEntityIndex + offset, population);
        current := current[index := Selected(change.mode, candidate[index], current[index])];
      }
      lastAcceptedTick := tick;
      if population != 0 {
        nextEntityIndex := (nextEntityIndex + size) % population;
      }
      state := Running(settings, change, current, tick, nextEntityIndex);
      outcome := Accepted;
    }
  }

  lemma WrapOnce(x: nat, n: nat)
    requires 0 < n && x < 2 * n
    ensures x % n == if x < n then x else x - n
  {
  }

  // ---------------------------------------------------------------- runs

  /** The state after the initial fill at `start` and `k` accepted updates at consecutive ticks. */
  ghost function After(generate: (SnapshotSettings, nat, nat) -> Fields, settings: SnapshotSettings,
                       change: ChangeSettings, start: nat, k: nat): (s: State)
    requires settings.boundsValid && ValidChange(change) && start + k <= TICK_MAX
    ensures Valid(s) && s.Running? && s.settings == settings && s.change == change && s.tick == start + k
  {
    if k == 0 then Update(generate, Fresh, settings, change, start).0
    else Update(generate, After(generate, settings, change, start, k - 1), settings, change, start + k).0
  }

  /** Where the `k`-th update, counted from one, starts. */
  function StartOf(k: nat, size: nat, count: nat): (start: nat)
    requires k > 0 && count > 0
    ensures start < count
  {
    ((k - 1) * size) % count
  }

  /** How often an entity was serviced in the first `k` updates. */
  function Services(k: nat, size: nat, count: nat, i: nat): nat
    requires i < count
  {
    if k == 0 then 0
    else Services(k - 1, size, count, i) + if Serviced(StartOf(k, size, count), size, count, i) then 1 else 0
  }

  /** The update that last serviced an entity, zero for the initial fill. */
  function LastService(k: nat, size: nat, count: nat, i: nat): (last: nat)
    requires i < count
    ensures last <= k
  {
    if k == 0 then 0
    else if Serviced(StartOf(k, size, count), size, count, i) then k
    else LastService(k - 1, size, count, i)
  }

  lemma SmallQuotient(x: nat, n: nat)
    requires n > 0 && x < 3 * n
    ensures x / n == if x < n then 0 else if x < 2 * n then 1 else 2
  {
  }

  /** The number of multiples of the round below `total` that fall on entity `i`. */
  function Turns(total: nat, count: nat, i: nat): nat
    requires i < count
  {
    (total + count - 1 - i) / count
  }

  /** A cohort adds one turn for exactly the entities it services. */
  lemma TurnsStep(total: nat, size: nat, count: nat, i: nat)
    requires i < count && size <= count
    ensures Turns(total + size, count, i)
         == Turns(total, count, i) + if Serviced(total % count, size, count, i) then 1 else 0
  {
    var q, s := total / count, total % count;
    assert total == q * count + s;
    var low := s + count - 1 - i;
    DivideParts(q, low, count);
    DivideParts(q, low + size, count);
    SmallQuotient(low, count);
    SmallQuotient(low + size, count);
    assert total + count - 1 - i == q * count + low;
    assert total + size + count - 1 - i == q * count + (low + size);
  }

  /** Services counted update by update are turns of the round. */
  lemma {:induction false} ServicesAreTurns(k: nat, size: nat, count: nat, i: nat)
    requires i < count && size <= count
    ensures Services(k, size, count, i) == Turns(k * size, count, i)
  {
    if k == 0 {
      SmallQuotient(count - 1 - i, count);
    } else {
      ServicesAreTurns(k - 1, size, count, i);
      TurnsStep((k - 1) * size, size, count, i);
      assert (k - 1) * size + size == k * size;
    }
  }

  /** After `k` updates every entity was serviced the floor or the ceiling of `k * size / count` times. */
  lemma ServicedEvenly(k: nat, size: nat, count: nat, i: nat)
    requires i < count && size <= count
    ensures k * size / count <= Services(k, size, count, i) <= CeilingQuotient(k * size, count)
  {
    ServicesAreTurns(k, size, count, i);
    QuotientOrder(k * size, k * size + count - 1 - i, count);
    QuotientOrder(k * size + count - 1 - i, k * size + count - 1, count);
  }

  lemma {:induction false} ServicesMonotone(from: nat, to: nat, size: nat, count: nat, i: nat)
    requires i < count && from <= to
    ensures Services(from, size, count, i) <= Services(to, size, count, i)
    ensures Services(to, size, count, i) > Services(from, size, count, i) ==> LastService(to, size, count, i) > from
  {
    if from < to {
      ServicesMonotone(from, to - 1, size, count, i);
    }
  }

  /** With a nonempty cohort, no entity waits longer than the ceiling of `count / size` updates. */
  lemma GapsAreBounded(k: nat, size: nat, count: nat, i: nat)
    requires i < count && 0 < size <= count && k >= CeilingQuotient(count, size)
    ensures k - LastService(k, size, count, i) < CeilingQuotient(count, size)
  {
    hide CeilingQuotient, Turns, Services, LastService;
    var gap := CeilingQuotient(count, size);
    var earlier := k - gap;
    ServicesAreTurns(earlier + gap, size, count, i);
    ServicesAreTurns(earlier, size, count, i);
    CeilingCovers(count, size);
    Distribute(earlier, gap, size);
    TurnsGrow(earlier * size, gap * size, count, i);
    ServicesMonotone(earlier, k, size, count, i);
  }

  lemma TurnsGrow(total: nat, more: nat, count: nat, i: nat)
    requires i < count <= more
    ensures Turns(total + more, count, i) > Turns(total, count, i)
  {
    var low := total + count - 1 - i;
    QuotientOrder(count + low, more + low, count);
    DivideParts(1, low, count);
  }

  /** Where the schedule stands after `k` updates. */
  lemma {:induction false} NextAfter(generate: (SnapshotSettings, nat, nat) -> Fields, settings: SnapshotSettings,
                                     change: ChangeSettings, start: nat, k: nat)
    requires settings.boundsValid && ValidChange(change) && start + k <= TICK_MAX && settings.entityCount > 0
    ensures After(generate, settings, change, start, k).next
         == (k * CohortSize(settings.entityCount, change.fraction)) % settings.entityCount
  {
    hide CohortSize, Generated;
    if k > 0 {
      NextAfter(generate, settings, change, start, k - 1);
      var n, c := settings.entityCount, CohortSize(settings.entityCount, change.fraction);
      hide Changed;
      ModuloAdd((k - 1) * c, c, n);
      assert (k - 1) * c + c == k * c;
    }
  }

  /** Every field of every entity is the generated one of the entity's last service when the mode
      selects it, and of the initial fill otherwise. */
  lemma {:induction false} FieldsFollowServices(generate: (SnapshotSettings, nat, nat) -> Fields,
                                                settings: SnapshotSettings,
                                                change: ChangeSettings, start: nat, k: nat, i: nat)
    requires settings.boundsValid && ValidChange(change) && start + k <= TICK_MAX && i < settings.entityCount
    ensures var n, c := settings.entityCount, CohortSize(settings.entityCount, change.fraction);
      var last := LastService(k, c, n, i);
      After(generate, settings, change, start, k).current[i]
      == Selected(change.mode, generate(settings, start + last, i), generate(settings, start, i))
  {
    if k > 0 {
      FieldsFollowServices(generate, settings, change, start, k - 1, i);
      NextAfter(generate, settings, change, start, k - 1);
    }
  }

  // ---------------------------------------------------------------- in numbers

  /** An update is accepted exactly when its settings are valid and, unless it is the first, the same as before and its
      tick the next one; every refusal leaves the state alone. */
  lemma AcceptedExactly(generate: (SnapshotSettings, nat, nat) -> Fields, s: State, settings: SnapshotSettings,
                        change: ChangeSettings, tick: nat)
    requires Valid(s)
    ensures var (next, outcome) := Update(generate, s, settings, change, tick);
      var valid := settings.boundsValid && 0.0 <= change.fraction <= 1.0;
      && (outcome == InvalidSettings <==> !valid)
      && (outcome == NewSettings <==> valid && s.Running? && (settings != s.settings || change != s.change))
      && (outcome == Accepted <==>
            valid && (s.Running? ==>
              settings == s.settings && change == s.change && s.tick != 0xFFFF_FFFF_FFFF_FFFF && tick == s.tick + 1))
      && (outcome != Accepted ==> next == s)
      && (outcome == Accepted ==> next.Running? && next.tick == tick)
  {
  }

  /** The serviced entities are the next `size` ones from the start on, going round. */
  lemma ServicedExactly(start: nat, size: nat, count: nat, i: nat)
    requires start < count && i < count && size <= count
    ensures Serviced(start, size, count, i) <==> exists offset: nat :: offset < size && Nth(start, offset, count) == i
  {
    var ahead := if i >= start then i - start else i + count - start;
    WrapOnce(start + ahead, count);
    if Serviced(start, size, count, i) {
      assert Nth(start, ahead, count) == i;
    }
    if offset: nat :| offset < size && Nth(start, offset, count) == i {
      WrapOnce(start + offset, count);
    }
  }

  function Nth(start: nat, offset: nat, count: nat): nat
    requires count > 0
  {
    (start + offset) % count
  }

  /** The last service is the latest of the updates that serviced the entity, if one did. */
  lemma {:induction false} LastServiceExactly(k: nat, size: nat, count: nat, i: nat)
    requires i < count
    ensures var last := LastService(k, size, count, i);
      && (last > 0 ==> Serviced(((last - 1) * size) % count, size, count, i))
      && forall j: nat :: last < j <= k ==> !Serviced(StartOf(j, size, count), size, count, i)
  {
    hide Serviced;
    if k > 0 {
      LastServiceExactly(k - 1, size, count, i);
    }
  }

  /** Field by field: a position or heading is that of the entity's last service unless the mode leaves it out, a hue
      only when the mode takes everything; otherwise it is that of the initial fill. */
  lemma FieldsExactly(generate: (SnapshotSettings, nat, nat) -> Fields, settings: SnapshotSettings,
                      change: ChangeSettings, start: nat, k: nat, i: nat)
    requires settings.boundsValid && 0.0 <= change.fraction <= 1.0 && start + k <= TICK_MAX && i < settings.entityCount
    ensures ValidChange(change)
    ensures var n, c := settings.entityCount, CohortSize(settings.entityCount, change.fraction);
      var initial, served := generate(settings, start, i), generate(settings, start + LastService(k, c, n, i), i);
      var now := After(generate, settings, change, start, k).current[i];
      && now.position == (if change.mode == HeadingOnly then initial.position else served.position)
      && now.heading == (if change.mode == PositionOnly then initial.heading else served.heading)
      && now.hue == (if change.mode == All then served.hue else initial.hue)
  {
    hide After, LastService;
    FieldsFollowServices(generate, settings, change, start, k, i);
  }
}
