/** The power split between the lid and a detachable base with its own battery
    (common/charger_base.c:43-260, 425-516). Power is in mW, current in mA, voltage in mV. */
module ChargerBase {
  import opened Arithmetic
  import opened Options

  /** Division that truncates toward zero. */
  function Div(a: int, b: int): int
    requires b > 0
  {
    if a >= 0 then a / b else -(-a / b)
  }

  /** Toward zero: what is cut off has the sign of the dividend. */
  lemma DivTruncates(a: int, b: int)
    requires b > 0
    ensures a >= 0 ==> 0 <= a - Div(a, b) * b < b
    ensures a <= 0 ==> -b < a - Div(a, b) * b <= 0
  {
    var q := if a >= 0 then a / b else -a / b;
    assert (if a >= 0 then a else -a) == q * b + (if a >= 0 then a else -a) % b;
    assert -q * b == -(q * b);
  }

  function Min(a: int, b: int): int {
    if a < b then a else b
  }

  function Max(a: int, b: int): int {
    if a < b then b else a
  }

  // -------- estimates

  /** Moves a share of `s` / 128 of the way from `prev` to `curr`. */
  function SmoothValue(prev: int, curr: int, s: int): int {
    var c := if curr < 0 then 0 else curr;
    if prev < 0 then c else prev + Div(s * (c - prev), 128)
  }

  function AddMargin(value: int, m: int): int {
    value + Div(m * value, 128)
  }

  lemma ShareOfDistance(s: int, d: int)
    requires 0 <= s <= 128 && d >= 0
    ensures 0 <= s * d / 128 <= d
  {
    assert 0 <= s * d <= 128 * d;
  }

  /** The smoothed value is between the old estimate and the new measurement and never negative. */
  lemma SmoothIsBetween(prev: int, curr: int, s: int)
    requires 0 <= s <= 128
    ensures SmoothValue(prev, curr, s) >= 0
    ensures prev >= 0 ==> Min(prev, Max(curr, 0)) <= SmoothValue(prev, curr, s) <= Max(prev, Max(curr, 0))
  {
    if prev >= 0 {
      var d := Max(curr, 0) - prev;
      ShareOfDistance(s, if d >= 0 then d else -d);
      assert s * -d == -(s * d);
    }
  }

  lemma Opposite(s: int, d: int, up: int, down: int)
    requires up == s * d && down == s * -d && s >= 0
    ensures down == -up && (d >= 0 ==> up >= 0) && (d <= 0 ==> down >= 0)
  {
  }

  lemma SmoothMovesWay(prev: int, curr: int, s: int, up: int, down: int)
    requires s >= 0 && curr >= 0 && prev >= 0 && up == s * (curr - prev) && down == s * (prev - curr)
    ensures SmoothValue(prev, curr, s) == prev + Div(up, 128)
    ensures prev <= curr ==> 128 * Div(up, 128) <= up < 128 * (Div(up, 128) + 1)
    ensures curr <= prev ==> 128 * -Div(up, 128) <= down < 128 * (-Div(up, 128) + 1)
  {
    assert s * -(curr - prev) == s * (prev - curr);
    Opposite(s, curr - prev, up, down);
    DivTruncates(up, 128);
  }

  /** How far it moves: `s` 128ths of the distance, cut off toward the old estimate. Without an old estimate it is the
      measurement, and a measurement below zero counts as zero. */
  lemma SmoothMovesBy(prev: int, curr: int, s: int)
    requires 0 <= s <= 128 && curr >= 0
    ensures prev < 0 ==> SmoothValue(prev, curr, s) == curr
    ensures 0 <= prev <= curr ==>
              var moved := SmoothValue(prev, curr, s) - prev; 128 * moved <= s * (curr - prev) < 128 * (moved + 1)
    ensures 0 <= curr <= prev ==>
              var moved := prev - SmoothValue(prev, curr, s); 128 * moved <= s * (prev - curr) < 128 * (moved + 1)
    ensures forall below: int :: below < 0 ==> SmoothValue(prev, below, s) == SmoothValue(prev, 0, s)
  {
    if prev >= 0 {
      SmoothMovesWay(prev, curr, s, s * (curr - prev), s * (prev - curr));
    }
  }

  /** A margin of `m` 128ths. */
  lemma MarginIs(value: nat, m: nat)
    ensures 128 * (AddMargin(value, m) - value) <= m * value < 128 * (AddMargin(value, m) - value + 1)
    ensures AddMargin(0 - value, m) == -AddMargin(value, m)
  {
    assert m * value >= 0 && m * (0 - value) == -(m * value);
  }

  /** It moves only if the distance is large enough for the smoothing factor. */
  lemma SmoothMovesExactly(prev: int, curr: int, s: int)
    requires 0 <= s <= 128 && prev >= 0 && curr >= 0
    ensures SmoothValue(prev, curr, s) != prev <==> s * (if curr >= prev then curr - prev else prev - curr) >= 128
  {
    assert s * (curr - prev) == -(s * (prev - curr));
  }

  /** With the factor for batteries an estimate stays up to 127 mW too high for ever. */
  lemma EstimateStaysHigh(prev: int)
    requires 127 <= prev
    ensures SmoothValue(prev, prev - 127, 1) == prev
  {
  }

  // -------- the split

  const MIN_BASE_SYSTEM_POWER := 1300
  const LID_SYSTEM_POWER_SMOOTH := 32
  const BATTERY_POWER_SMOOTH := 1
  const MARGIN_BASE_BATTERY_POWER := 32
  const MARGIN_LID_BATTERY_POWER := 32
  const MAX_LID_TO_BASE_CURRENT := 2000

  /** Adds at most `value` to a share and takes it from the budget. */
  method ChgAllocate(share: int, total: int, value: int) returns (share': int, total': int)
    ensures share' + total' == share + total
    ensures share' == share + Min(value, total)
  {
    var capped := Min(value, total);
    share' := share + capped;
    total' := total - capped;
  }

  /** The share of the base when it comes first with its system power, then the lid system, the lid
      battery and the base battery, and the lid gets what is left. */
  function BaseShare(total: int, lidSystem: int, lidBattery: int, baseBattery: int): int {
    var system := Min(MIN_BASE_SYSTEM_POWER, total);
    var behindLidSystem := total - system - Min(lidSystem, total - system);
    var behindLid := behindLidSystem - Min(lidBattery, behindLidSystem);
    system + Min(baseBattery, behindLid)
  }

  /** What that order means: the base always gets its system power if there is so much, the base
      battery gets nothing until all of the lid is served, and the lid nothing beyond its needs
      until the base battery is served. An estimate below zero adds to what the others can get. */
  lemma SharesByPriority(total: int, lidSystem: int, lidBattery: int, baseBattery: int)
    requires total > 0
    ensures var base := BaseShare(total, lidSystem, lidBattery, baseBattery);
            var lid, system := total - base, if total < 1300 then total else 1300;
            var below := Min(lidSystem, 0) + Min(lidBattery, 0);
            && system + Min(baseBattery, 0) <= base <= system + baseBattery && lid >= below
            && (base > 1300 - below ==> lid >= lidSystem + lidBattery)
            && (lid > lidSystem + lidBattery ==> base == system + baseBattery)
            && base == system + Min(baseBattery, if lidSystem >= total - system then Max(-lidBattery, 0)
                                                 else Max(total - system - lidSystem - lidBattery, 0))
  {
  }

  method Split(total: int, lidSystem: int, lidBattery: int, baseBattery: int) returns (powerBase: int, powerLid: int)
    requires total > 0
    ensures powerBase + powerLid == total
    ensures powerBase == BaseShare(total, lidSystem, lidBattery, baseBattery)
  {
    var left := total;
    powerBase, powerLid := 0, 0;
    powerBase, left := ChgAllocate(powerBase, left, MIN_BASE_SYSTEM_POWER);
    powerLid, left := ChgAllocate(powerLid, left, lidSystem);
    powerLid, left := ChgAllocate(powerLid, left, lidBattery);
    powerBase, left := ChgAllocate(powerBase, left, baseBattery);
    powerLid, left := ChgAllocate(powerLid, left, left);
  }

  function CurrentOf(power: int, voltage: int): int
    requires voltage > 0
  {
    Div(1000 * power, voltage)
  }

  /** The current in mA is that of the power in mW at a voltage in mV, cut off toward zero. */
  lemma CurrentIs(power: nat, voltage: nat)
    requires voltage > 0
    ensures CurrentOf(power, voltage) * voltage <= 1000 * power < (CurrentOf(power, voltage) + 1) * voltage
    ensures CurrentOf(0 - power, voltage) == -CurrentOf(power, voltage)
  {
    DivTruncates(1000 * power, voltage);
    assert 1000 * (0 - power) == -(1000 * power);
  }

  /** However the power of an input limit is split, even with a negative share, the currents of the
      shares do not exceed the limit. */
  lemma CurrentsFit(limit: nat, voltage: nat, powerBase: int, powerLid: int)
    requires limit > 0 && voltage > 0 && powerBase + powerLid == limit * voltage / 1000
    ensures CurrentOf(powerBase, voltage) + CurrentOf(powerLid, voltage) <= limit
  {
    var a, b := 1000 * powerBase, 1000 * powerLid;
    assert a + b <= limit * voltage;
    if a >= 0 && b >= 0 {
      QuotientsAdd(a, b, voltage);
      QuotientAtMost(a + b, limit, 0, voltage);
    } else if b < 0 {
      QuotientAtMost(a, limit, -b, voltage);
    } else {
      QuotientAtMost(b, limit, -a, voltage);
    }
  }

  lemma CurrentIsNotNegative(power: nat, voltage: nat)
    requires voltage > 0
    ensures CurrentOf(power, voltage) >= 0
  {
  }

  lemma OneIsNotNegative(powerBase: int, powerLid: int, voltage: nat)
    requires voltage > 0 && powerBase + powerLid >= 0
    ensures CurrentOf(powerBase, voltage) >= 0 || CurrentOf(powerLid, voltage) >= 0
  {
    if powerBase >= 0 {
      CurrentIsNotNegative(powerBase, voltage);
    } else {
      CurrentIsNotNegative(powerLid, voltage);
    }
  }

  lemma PowerOfLimit(limit: nat, voltage: nat)
    ensures limit * voltage / 1000 >= 0
  {
  }

  /** What the base must not draw goes to the lid. */
  method ToCurrents(limit: nat, voltage: nat, powerBase: int, powerLid: int) returns (currentBase: int, currentLid: int)
    requires limit > 0 && voltage > 0 && powerBase + powerLid == limit * voltage / 1000
    ensures currentBase + currentLid == CurrentOf(powerBase, voltage) + CurrentOf(powerLid, voltage) <= limit
    ensures currentBase == Min(CurrentOf(powerBase, voltage), MAX_LID_TO_BASE_CURRENT)
    ensures currentBase >= 0 || currentLid >= 0
  {
    CurrentsFit(limit, voltage, powerBase, powerLid);
    PowerOfLimit(limit, voltage);
    OneIsNotNegative(powerBase, powerLid, voltage);
    currentBase := CurrentOf(powerBase, voltage);
    currentLid := CurrentOf(powerLid, voltage);
    if currentBase > MAX_LID_TO_BASE_CURRENT {
      currentLid := currentLid + (currentBase - MAX_LID_TO_BASE_CURRENT);
      currentBase := MAX_LID_TO_BASE_CURRENT;
    }
  }

  // -------- the order of updates

  /** Whether the lid is set before the base. */
  predicate LidFirst(base: int, lid: int, newBase: int, newLid: int) {
    if 0 <= newLid < lid then true
    else if 0 <= newBase < base then false
    else newLid < 0
  }

  /** What both draw together when only the first one has been set. */
  function Between(base: int, lid: int, newBase: int, newLid: int): int {
    if LidFirst(base, lid, newBase, newLid) then base + newLid else newBase + lid
  }

  /** In between the total draw is above the old and the new one exactly if both sides are to provide
      power, the lid less of it than before and the base more. */
  lemma DrawInBetween(base: int, lid: int, newBase: int, newLid: int)
    ensures Between(base, lid, newBase, newLid) <= Max(base + lid, newBase + newLid)
       <==> !(newBase < 0 && lid < newLid < 0 && newBase < base)
  {
  }

  // -------- without power from outside

  const OTG_VOLTAGE := 12000
  const MAX_BASE_TO_LID_CURRENT := 1800
  const MARGIN_OTG_CURRENT := 13
  const MIN_CHARGE_BASE_OTG := 5
  const MAX_CHARGE_BASE_BATT_TO_BATT := 4

  /** What the decision depends on besides power: the limit for the input current and the input voltage, the charge of
      the base in percent, the state of the system, and the settings for manual control. */
  datatype Conditions = Conditions(limit: int, voltage: int, chargeBase: int, off: bool, suspended: bool,
                                   manualAc: int, manualNoAc: Option<int>)

  function TotalPower(c: Conditions): int {
    if c.limit > 0 && c.voltage > 0 then Div(c.limit * c.voltage, 1000) else 0
  }

  /** There is external power of at least 1 mW. */
  predicate HasPower(c: Conditions) {
    c.limit > 0 && c.voltage > 0 && c.limit * c.voltage >= 1000
  }

  lemma HasPowerIs(c: Conditions)
    ensures HasPower(c) <==> TotalPower(c) > 0
  {
  }

  predicate BaseIsCritical(c: Conditions) {
    0 <= c.chargeBase < MAX_CHARGE_BASE_BATT_TO_BATT
  }

  /** The currents of base and lid, and whether the battery of the base may be charged. */
  datatype Target = Target(base: int, lid: int, chargeBase: bool)

  /** What is set when one battery may feed the other. */
  function Discharging(c: Conditions): Target {
    if c.manualNoAc.Some? then
      var manual := c.manualNoAc.value;
      if manual > 0 then Target(-manual, AddMargin(manual, MARGIN_OTG_CURRENT), false)
      else Target(AddMargin(-manual, MARGIN_OTG_CURRENT), manual, false)
    else if c.off || (c.suspended && !BaseIsCritical(c)) then Target(0, 0, false)
    else if c.chargeBase > MIN_CHARGE_BASE_OTG then
      Target(-AddMargin(MAX_BASE_TO_LID_CURRENT, MARGIN_OTG_CURRENT), MAX_BASE_TO_LID_CURRENT, false)
    else
      var current := MIN_BASE_SYSTEM_POWER * 1000 / OTG_VOLTAGE;
      Target(current, -AddMargin(current, MARGIN_OTG_CURRENT), BaseIsCritical(c))
  }

  /** One side draws at most what the other provides, except under manual control: then the margin is on the wrong
      side, and more is drawn than provided from 10 mA on. */
  lemma ProvidesEnoughExactly(c: Conditions)
    ensures var Target(base, lid, _) := Discharging(c);
            && (base + lid <= 0 <==> !(c.manualNoAc.Some? && (c.manualNoAc.value >= 10 || c.manualNoAc.value <= -10)))
            && !(base < 0 && lid < 0)
  {
  }

  /** The values of a battery, or none if its flags say that they are not valid. */
  datatype Measured = Invalid | Measured(current: int, voltage: int)

  function PowerOf(m: Measured): int {
    if m.Invalid? then 0 else Div(m.current * m.voltage, 1000)
  }

  class DualBattery {
    var baseConnected: bool
    var baseResponsive: bool
    var prevCurrentBase: int
    var prevAllowChargeBase: bool
    var prevCurrentLid: int
    /** What the charger of the lid has been told: the current to provide, and the limit of what to draw. */
    var lidOutput: int
    var lidInput: int
    var prevBaseBatteryPower: int
    var prevLidSystemPower: int
    var prevLidBatteryPower: int

    ghost predicate Valid()
      reads this
    {
      prevBaseBatteryPower >= -1 && prevLidSystemPower >= -1 && prevLidBatteryPower >= -1
    }

    /** The base may fail to answer; that is an error only after it has answered once. */
    method SetBaseCurrent(currentBase: int, allowChargeBase: bool) returns (ok: bool)
      modifies this`baseResponsive, this`prevCurrentBase, this`prevAllowChargeBase
      ensures (prevCurrentBase == currentBase && prevAllowChargeBase == allowChargeBase) || unchanged(this)
      ensures !ok ==> old(baseResponsive) && unchanged(this)
    {
      var failed: bool := *;
      if failed {
        if baseResponsive {
          return false;
        }
      } else {
        baseResponsive := true;
        prevCurrentBase := currentBase;
        prevAllowChargeBase := allowChargeBase;
      }
      ok := true;
    }

    /** The charger of the lid draws or, below zero, provides this current. */
    predicate LidHas(current: int)
      reads this`lidOutput, this`lidInput
    {
      if current >= 0 then lidOutput == 0 && lidInput == current else lidOutput == -current
    }

    /** The calls to the charger, each of which may fail; the current is recorded behind the last one. A lid
        that is to draw stops providing power first. */
    method SetLidCurrent(currentLid: int) returns (ok: bool)
      modifies this`prevCurrentLid, this`lidOutput, this`lidInput
      ensures prevCurrentLid == if ok then currentLid else old(prevCurrentLid)
      ensures ok ==> LidHas(currentLid)
      ensures ok ==> if currentLid >= 0 then lidOutput == 0 && lidInput == currentLid else lidOutput == -currentLid
      ensures !ok ==> unchanged(this`lidOutput, this`lidInput)
                      || (currentLid >= 0 && lidOutput == 0 && (lidInput == currentLid || unchanged(this`lidInput)))
      ensures currentLid < 0 ==> unchanged(this`lidInput)
    {
      var failed: bool := *;
      if failed {
        return false;
      }
      if currentLid >= 0 {
        lidOutput := 0;
        failed := *;
        if failed {
          return false;
        }
        lidInput := currentLid;
        failed := *;
        if failed {
          return false;
        }
      } else {
        lidOutput := -currentLid;
      }
      prevCurrentLid := currentLid;
      ok := true;
    }

    /** Each side is changed at most once, in the order that keeps the total draw low: if both sides
        take their new values, no total on the way is above the old and the new one, unless both are
        to provide power as in `DrawInBetween`. The record of the lid is that of its charger unless the
        charger has failed on the way. */
    method SetBaseLidCurrent(currentBase: int, allowChargeBase: bool, currentLid: int)
      returns (ghost draws: seq<int>, ghost lidFailed: bool)
      modifies this`baseResponsive, this`prevCurrentBase, this`prevAllowChargeBase, this`prevCurrentLid,
               this`lidOutput, this`lidInput
      ensures prevCurrentBase == old(prevCurrentBase) || (baseConnected && prevCurrentBase == currentBase)
      ensures prevCurrentLid == old(prevCurrentLid) || prevCurrentLid == currentLid
      ensures old(LidHas(prevCurrentLid)) && !lidFailed ==> LidHas(prevCurrentLid)
      ensures lidFailed ==> prevCurrentLid == old(prevCurrentLid)
                            && (unchanged(this`lidOutput) || (lidOutput == 0 <= currentLid))
      ensures |draws| >= 1 && draws[0] == old(prevCurrentBase + prevCurrentLid)
      ensures draws[|draws| - 1] == prevCurrentBase + prevCurrentLid
      ensures forall i :: 0 <= i < |draws| ==>
                draws[i] in {old(prevCurrentBase + prevCurrentLid), prevCurrentBase + prevCurrentLid,
                             Between(old(prevCurrentBase), old(prevCurrentLid), currentBase, currentLid)}
      ensures prevCurrentBase == currentBase && prevCurrentLid == currentLid
              && !(currentBase < 0 && old(prevCurrentLid) < currentLid < 0 && currentBase < old(prevCurrentBase)) ==>
                forall i :: 0 <= i < |draws| ==> draws[i] <= Max(draws[0], currentBase + currentLid)
    {
      DrawInBetween(prevCurrentBase, prevCurrentLid, currentBase, currentLid);
      draws, lidFailed := [prevCurrentBase + prevCurrentLid], false;
      var lidFirst;
      if currentLid >= 0 && currentLid < prevCurrentLid {
        lidFirst := true;
      } else if currentBase >= 0 && currentBase < prevCurrentBase {
        lidFirst := false;
      } else if currentLid < 0 {
        lidFirst := true;
      } else {
        lidFirst := false;
      }
      if !lidFirst && baseConnected {
        var ok := SetBaseCurrent(currentBase, allowChargeBase);
        draws := draws + [prevCurrentBase + prevCurrentLid];
        if !ok {
          return;
        }
      }
      var ok := SetLidCurrent(currentLid);
      lidFailed := !ok;
      if !ok {
        return;
      }
      draws := draws + [prevCurrentBase + prevCurrentLid];
      if lidFirst && baseConnected {
        var answered := SetBaseCurrent(currentBase, allowChargeBase);
        draws := draws + [prevCurrentBase + prevCurrentLid];
      }
    }

    /** The branch with power from outside: it is taken for an input limit in mA that is worth at least 1 mW. */
    method AllocateWithAc(limit: nat, voltage: nat, systemPower: int, lidBattery: Measured, lidDesired: Measured,
                          baseBattery: Measured, baseDesired: Measured)
      returns (currentBase: int, currentLid: int, ghost powerBase: int, ghost powerLid: int)
      requires limit > 0 && voltage > 0 && limit * voltage >= 1000
      modifies this`prevBaseBatteryPower, this`prevLidSystemPower, this`prevLidBatteryPower
      ensures prevLidSystemPower >= 0
      ensures PowerOf(lidDesired) >= 0 && PowerOf(baseDesired) >= 0 && PowerOf(lidBattery) >= -1 && PowerOf(baseBattery) >= -1 ==>
                Valid()
      ensures prevLidSystemPower == SmoothValue(old(prevLidSystemPower), Div(systemPower, 1000), 32)
      ensures prevLidBatteryPower == EstimateOf(old(prevLidBatteryPower), PowerOf(lidBattery), PowerOf(lidDesired))
      ensures prevBaseBatteryPower
           == EstimateOf(old(prevBaseBatteryPower), if baseDesired.Invalid? then 0 else PowerOf(baseBattery),
                         PowerOf(baseDesired))
      ensures powerBase + powerLid == limit * voltage / 1000
      ensures powerBase == BaseShare(limit * voltage / 1000, prevLidSystemPower,
                                     AddMargin(prevLidBatteryPower, 32), AddMargin(prevBaseBatteryPower, 32))
      ensures currentBase + currentLid == CurrentOf(powerBase, voltage) + CurrentOf(powerLid, voltage) <= limit
      ensures currentBase == Min(CurrentOf(powerBase, voltage), 2000)
      ensures currentBase >= 0 || currentLid >= 0
    {
      var total := limit * voltage / 1000;
      var lidSystem := Div(systemPower, 1000);
      SmoothIsBetween(prevLidSystemPower, lidSystem, LID_SYSTEM_POWER_SMOOTH);
      lidSystem := SmoothValue(prevLidSystemPower, lidSystem, LID_SYSTEM_POWER_SMOOTH);
      prevLidSystemPower := lidSystem;
      var lidPower := Estimate(prevLidBatteryPower, PowerOf(lidBattery), PowerOf(lidDesired));
      var basePower := Estimate(prevBaseBatteryPower,
                                if baseDesired.Invalid? then 0 else PowerOf(baseBattery), PowerOf(baseDesired));
      prevLidBatteryPower := lidPower;
      prevBaseBatteryPower := basePower;
      var pb, pl := Split(total, lidSystem, AddMargin(lidPower, MARGIN_LID_BATTERY_POWER),
                          AddMargin(basePower, MARGIN_BASE_BATTERY_POWER));
      powerBase, powerLid := pb, pl;
      currentBase, currentLid := ToCurrents(limit, voltage, pb, pl);
    }

    // What each branch wants to set.
    method Decide(c: Conditions, systemPower: int, lidBattery: Measured, lidDesired: Measured,
                  baseBattery: Measured, baseDesired: Measured)
      returns (currentBase: int, allowChargeBase: bool, currentLid: int)
      modifies this`prevBaseBatteryPower, this`prevLidSystemPower, this`prevLidBatteryPower
      ensures !baseConnected ==> currentBase == 0 && currentLid == c.limit
      ensures baseConnected && HasPower(c) ==>
                allowChargeBase && if c.manualAc >= 0 then currentBase == Min(c.manualAc, c.limit) && currentBase + currentLid == c.limit
                                   else currentBase <= 2000 && currentBase + currentLid <= c.limit
      ensures baseConnected && !HasPower(c) && c.manualNoAc.Some? ==>
                !allowChargeBase && if c.manualNoAc.value > 0 then currentBase == -c.manualNoAc.value < 0 < currentLid
                                    else currentLid == c.manualNoAc.value <= 0 <= currentBase
      ensures baseConnected && !HasPower(c) && c.manualNoAc.None? && (c.off || (c.suspended && !(0 <= c.chargeBase < 4))) ==>
                currentBase == currentLid == 0 && !allowChargeBase
      ensures baseConnected && !HasPower(c) && c.manualNoAc.None? && !c.off && (!c.suspended || 0 <= c.chargeBase < 4) ==>
                if c.chargeBase > 5 then currentBase == -1982 && currentLid == 1800 && !allowChargeBase
                else currentBase == 108 && currentLid == -118 && (allowChargeBase <==> 0 <= c.chargeBase < 4)
      ensures !baseConnected ==> prevBaseBatteryPower == -1
      ensures baseConnected && !HasPower(c) ==> prevBaseBatteryPower == prevLidSystemPower == prevLidBatteryPower == -1
      ensures !baseConnected || HasPower(c) || c.manualNoAc.None? ==> currentBase + currentLid <= Max(c.limit, 0)
      ensures currentBase >= 0 || currentLid >= 0
    {
      HasPowerIs(c);
      if !baseConnected {
        prevBaseBatteryPower := -1;
        return 0, false, c.limit;
      }
      if TotalPower(c) <= 0 {
        prevBaseBatteryPower, prevLidSystemPower, prevLidBatteryPower := -1, -1, -1;
        ProvidesEnoughExactly(c);
        var target := Discharging(c);
        return target.base, target.chargeBase, target.lid;
      }
      if c.manualAc >= 0 {
        currentBase, currentLid := c.manualAc, c.limit - c.manualAc;
        if currentLid < 0 {
          currentBase, currentLid := c.limit, 0;
        }
      } else {
        ghost var powerBase, powerLid;
        currentBase, currentLid, powerBase, powerLid :=
          AllocateWithAc(c.limit, c.voltage, systemPower, lidBattery, lidDesired, baseBattery, baseDesired);
      }
      allowChargeBase := true;
    }

    /** `base_charge_allocate_input_current_limit`: once both sides have taken what is decided, no total on the way is
        above both the one before and the limit for the input current, except under manual control without
        power from outside. */
    method AllocateInputCurrentLimit(c: Conditions, systemPower: int, lidBattery: Measured, lidDesired: Measured,
                                     baseBattery: Measured, baseDesired: Measured)
      returns (currentBase: int, allowChargeBase: bool, currentLid: int, ghost draws: seq<int>, ghost lidFailed: bool)
      modifies this
      ensures unchanged(this`baseConnected)
      ensures |draws| >= 1 && draws[0] == old(prevCurrentBase + prevCurrentLid)
      ensures draws[|draws| - 1] == prevCurrentBase + prevCurrentLid
      ensures old(LidHas(prevCurrentLid)) && !lidFailed ==> LidHas(prevCurrentLid)
      ensures prevCurrentBase == currentBase && prevCurrentLid == currentLid
              && (!baseConnected || HasPower(c) || c.manualNoAc.None?) ==>
                forall i :: 0 <= i < |draws| ==> draws[i] <= Max(draws[0], Max(c.limit, 0))
      ensures !baseConnected ==> currentBase == 0 && currentLid == c.limit
      ensures baseConnected && HasPower(c) ==>
                allowChargeBase && if c.manualAc >= 0 then currentBase == Min(c.manualAc, c.limit) && currentBase + currentLid == c.limit
                                   else currentBase <= 2000 && currentBase + currentLid <= c.limit
      ensures baseConnected && !HasPower(c) && c.manualNoAc.Some? ==>
                !allowChargeBase && if c.manualNoAc.value > 0 then currentBase == -c.manualNoAc.value < 0 < currentLid
                                    else currentLid == c.manualNoAc.value <= 0 <= currentBase
      ensures baseConnected && !HasPower(c) && c.manualNoAc.None? && (c.off || (c.suspended && !(0 <= c.chargeBase < 4))) ==>
                currentBase == currentLid == 0 && !allowChargeBase
      ensures baseConnected && !HasPower(c) && c.manualNoAc.None? && !c.off && (!c.suspended || 0 <= c.chargeBase < 4) ==>
                if c.chargeBase > 5 then currentBase == -1982 && currentLid == 1800 && !allowChargeBase
                else currentBase == 108 && currentLid == -118 && (allowChargeBase <==> 0 <= c.chargeBase < 4)
    {
      currentBase, allowChargeBase, currentLid :=
        Decide(c, systemPower, lidBattery, lidDesired, baseBattery, baseDesired);
      draws, lidFailed := SetBaseLidCurrent(currentBase, allowChargeBase, currentLid);
      if baseConnected && !HasPower(c) && c.manualNoAc.None? && c.off && baseResponsive {
        baseResponsive := false;
      }
    }
  }

  /** The estimate of what a battery takes: at most `desired`, and falling only slowly. */
  function EstimateOf(prev: int, measured: int, desired: int): int {
    Min(if measured < prev then SmoothValue(prev, measured, BATTERY_POWER_SMOOTH) else measured, desired)
  }

  /** Falling by one 128th of the distance at a time, and rising at once. */
  lemma EstimateIs(prev: int, measured: int, desired: int)
    ensures var power := if measured < prev then SmoothValue(prev, measured, 1) else measured;
            EstimateOf(prev, measured, desired) == if power < desired then power else desired
  {
  }

  /** Of a measured current in mA and voltage in mV the power in mW. */
  lemma PowerIs(current: nat, voltage: nat)
    ensures PowerOf(Invalid) == 0
    ensures 1000 * PowerOf(Measured(current, voltage)) <= current * voltage < 1000 * (PowerOf(Measured(current, voltage)) + 1)
  {
    assert current * voltage >= 0;
  }

  method Estimate(prev: int, measured: int, desired: int) returns (power: int)
    ensures power == EstimateOf(prev, measured, desired)
    ensures Min(measured, desired) <= power <= desired
  {
    power := measured;
    if power < prev {
      SmoothIsBetween(prev, power, BATTERY_POWER_SMOOTH);
      power := SmoothValue(prev, power, BATTERY_POWER_SMOOTH);
    }
    power := Min(power, desired);
  }
}
