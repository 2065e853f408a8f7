/** The selection of the charge port and supplier (common/charge_manager.c). */
module ChargeManager {
  import opened ChargeChoice

  const CEIL_NONE := -1
  const CURRENT_UNINITIALIZED := -1
  const VOLTAGE_UNINITIALIZED := -1

  datatype Capability = Unknown | DualRole | Dedicated

  /** A port offered to the board, and whether the board switched to it. */
  datatype BoardCall = BoardCall(port: int, accepted: bool)

  function PortOf(pick: Pick): int {
    if pick.Pick? then pick.port else PORT_NONE
  }

  function SupplierOf(pick: Pick): int {
    if pick.Pick? then pick.supplier else SUPPLIER_NONE
  }

  function Smaller(a: int, b: int): int {
    if a < b then a else b
  }

  /** The least ceiling that is set, over the first `n` requestors. */
  predicate IsCeil(ceils: seq<int>, ceil: int) {
    if forall k :: 0 <= k < |ceils| ==> ceils[k] == CEIL_NONE then ceil == CEIL_NONE
    else ceil in ceils && ceil != CEIL_NONE && forall k :: 0 <= k < |ceils| && ceils[k] != CEIL_NONE ==> ceil <= ceils[k]
  }

  lemma CeilStep(ceils: seq<int>, ceil: int, value: int)
    requires IsCeil(ceils, ceil)
    ensures IsCeil(ceils + [value], if value != CEIL_NONE && (ceil == CEIL_NONE || value < ceil) then value else ceil)
  {
    var all := ceils + [value];
    assert all[|ceils|] == value;
    forall k | 0 <= k < |ceils|
      ensures all[k] == ceils[k]
    {
    }
    if ceil != CEIL_NONE {
      var k :| 0 <= k < |ceils| && ceils[k] == ceil;
      assert all[k] == ceil;
    }
  }

  lemma RowTracks(v: View, pick: Pick, i: int, supplier: int, port: int, bestPower: int)
    requires v.WellFormed() && Tracks(v, pick, i, |v.valid|, supplier, port, bestPower)
    ensures Tracks(v, pick, i + 1, 0, supplier, port, bestPower)
  {
    RowKeepsBest(v, pick, i);
  }

  lemma TracksBest(v: View, pick: Pick, supplier: int, port: int, bestPower: int)
    requires v.WellFormed() && v.overridePort != OVERRIDE_DONT_CHARGE
    requires Tracks(v, pick, |v.priority|, 0, supplier, port, bestPower)
    ensures IsBest(v, pick) && port == PortOf(pick) && supplier == SupplierOf(pick)
  {
    ScanFindsBest(v, pick);
  }

  class ChargeManager {
    const priority: seq<int>
    const valid: seq<bool>
    /** CONFIG_CHARGE_MANAGER_DRP_CHARGING: charge from dual-role ports too. */
    const drpCharging: bool
    /** CHARGE_SUPPLIER_PD, and CONFIG_CHARGER_DEFAULT_CURRENT_LIMIT or 0. */
    const pdSupplier: int
    const defaultLimit: int
    const available: array2<Charge>
    const ceilings: array2<int>
    const capability: array<Capability>
    var leftSafeMode: bool
    /** Running a locked read-only image. */
    var lockedReadOnly: bool
    var initialized: bool
    var chargePort: int
    var chargeSupplier: int
    var chargeCurrent: int
    var chargeCurrentUncapped: int
    var chargeVoltage: int
    /** The current of the active port if a PD supplier is active. */
    var chargePdCurrentUncapped: int
    var overridePort: int
    /** The port that dynamic PDO selection charges from, or PORT_NONE. */
    var dpsPort: int

    ghost predicate Shape() {
      available.Length0 == |priority| && available.Length1 == |valid| == capability.Length == ceilings.Length0
    }

    ghost predicate Valid()
      reads this
    {
      && Shape()
      && PORT_NONE <= chargePort < |valid| && SUPPLIER_NONE <= chargeSupplier < |priority|
      && (chargePort == PORT_NONE <==> chargeSupplier == SUPPLIER_NONE)
      && (chargePort != PORT_NONE ==> initialized)
      && OVERRIDE_DONT_CHARGE <= overridePort < |valid|
    }

    /** The state behind `charge_manager_init`: nothing is known of any port yet. */
    constructor (priority: seq<int>, valid: seq<bool>, pdPort: seq<bool>, drpCharging: bool, pdSupplier: int, defaultLimit: int,
                 requestors: nat, leftSafeMode: bool, lockedReadOnly: bool)
      requires |pdPort| == |valid|
      ensures Valid() && fresh(available) && fresh(ceilings) && fresh(capability)
      ensures this.priority == priority && this.valid == valid && this.drpCharging == drpCharging
      ensures this.leftSafeMode == leftSafeMode && this.lockedReadOnly == lockedReadOnly
      ensures this.pdSupplier == pdSupplier && this.defaultLimit == defaultLimit
      ensures !initialized && chargePort == chargeSupplier == overridePort == dpsPort == -1
      ensures chargeCurrent == chargeCurrentUncapped == chargePdCurrentUncapped == -1 && chargeVoltage == 0
      ensures forall i, j :: 0 <= i < |priority| && 0 <= j < |valid| && valid[j] ==> available[i, j] == Charge(-1, -1)
      ensures ceilings.Length1 == requestors
      ensures forall j, k :: 0 <= j < |valid| && 0 <= k < requestors && valid[j] ==> ceilings[j, k] == -1
      ensures forall j :: 0 <= j < |valid| ==> capability[j] == if valid[j] && !pdPort[j] then Dedicated else Unknown
    {
      this.priority, this.valid, this.drpCharging := priority, valid, drpCharging;
      this.pdSupplier, this.defaultLimit := pdSupplier, defaultLimit;
      available := new Charge[|priority|, |valid|]((i, j) =>
        if 0 <= j < |valid| && valid[j] then Charge(CURRENT_UNINITIALIZED, VOLTAGE_UNINITIALIZED) else Charge(0, 0));
      ceilings := new int[|valid|, requestors]((j, k) => if 0 <= j < |valid| && valid[j] then CEIL_NONE else 0);
      capability := new Capability[|valid|](j =>
        if 0 <= j < |valid| && valid[j] && !pdPort[j] then Dedicated else Unknown);
      this.leftSafeMode, this.lockedReadOnly, initialized := leftSafeMode, lockedReadOnly, false;
      chargePort, chargeSupplier, overridePort := PORT_NONE, SUPPLIER_NONE, OVERRIDE_OFF;
      chargeCurrent, chargeCurrentUncapped, chargeVoltage := CURRENT_UNINITIALIZED, CURRENT_UNINITIALIZED, 0;
      chargePdCurrentUncapped, dpsPort := CURRENT_UNINITIALIZED, PORT_NONE;
    }

    function Spoof(): bool
      reads this`lockedReadOnly, this`leftSafeMode
    {
      lockedReadOnly || !leftSafeMode
    }

    /** The table as a value. */
    ghost function ChargeTable(): (t: seq<seq<Charge>>)
      reads available
      ensures |t| == available.Length0 && forall i :: 0 <= i < |t| ==> |t[i]| == available.Length1
    {
      seq(available.Length0, i requires 0 <= i < available.Length0 reads available =>
        seq(available.Length1, j requires 0 <= j < available.Length1 reads available => available[i, j]))
    }

    ghost function DedicatedPorts(spoof: bool): (d: seq<bool>)
      reads capability
    {
      seq(capability.Length, j requires 0 <= j < capability.Length reads capability =>
        drpCharging || capability[j] == Dedicated || spoof)
    }

    /** What the choice depends on, for this override port and active port. */
    ghost function Now(over: int, active: int): (v: View)
      requires Shape()
      reads this`lockedReadOnly, this`leftSafeMode, available, capability
      ensures v.WellFormed()
    {
      View(ChargeTable(), priority, valid, DedicatedPorts(Spoof()), over, active)
    }

    /** The ceilings that hold for a port; none for a port that does not exist. */
    ghost function CeilsOf(port: int): (ceils: seq<int>)
      requires ceilings.Length0 == |valid|
      reads ceilings
    {
      if 0 <= port < |valid| && valid[port] then
        seq(ceilings.Length1, k requires 0 <= k < ceilings.Length1 reads ceilings => ceilings[port, k])
      else []
    }

    method GetCeil(port: int) returns (ceil: int)
      requires Valid()
      ensures IsCeil(CeilsOf(port), ceil)
      ensures ceil != -1 ==> 0 <= port < |valid| && valid[port] && exists k :: 0 <= k < ceilings.Length1 && ceilings[port, k] == ceil
      ensures 0 <= port < |valid| && valid[port] ==> forall k :: 0 <= k < ceilings.Length1 && ceilings[port, k] != -1 ==>
                -1 != ceil <= ceilings[port, k]
    {
      ceil := CEIL_NONE;
      if !(0 <= port < |valid| && valid[port]) {
        return;
      }
      ghost var ceils := CeilsOf(port);
      for i := 0 to ceilings.Length1
        invariant IsCeil(ceils[..i], ceil)
      {
        var value := ceilings[port, i];
        assert ceils[..i + 1] == ceils[..i] + [value];
        CeilStep(ceils[..i], ceil, value);
        if value != CEIL_NONE && (ceil == CEIL_NONE || value < ceil) {
          ceil := value;
        }
      }
      assert ceils[..ceilings.Length1] == ceils;
      forall k | 0 <= k < ceilings.Length1
        ensures ceils[k] == ceilings[port, k]
      {
      }
    }

    /** The body of the scan: what slot `i`, `j` makes of the choice so far, and whether the row is left. In `v`
        the rows from `i` on are as they are now. */
    method Consider(i: int, j: int, supplier: int, port: int, bestPower: int, ghost v: View, ghost pick: Pick)
      returns (supplier': int, port': int, bestPower': int, left: bool, ghost v': View, ghost pick': Pick)
      requires Valid() && 0 <= i < |priority| && 0 <= j < |valid|
      requires v.WellFormed() && SameFrom(Now(overridePort, chargePort), v, i)
      requires i <= pdSupplier ==> v == Now(overridePort, chargePort)
      requires Tracks(v, pick, i, j, supplier, port, bestPower)
      ensures v'.WellFormed()
      ensures left <==> i == pdSupplier && j == dpsPort && DpsSlot(Now(overridePort, chargePort), i, j)
      ensures !left ==> v' == v && Tracks(v, pick', i, j + 1, supplier', port', bestPower')
      ensures left ==> GoesOn(v, v', i, j) && Tracks(v', pick', i + 1, 0, supplier', port', bestPower')
    {
      supplier', port', bestPower', left, v', pick' := supplier, port, bestPower, false, v, pick;
      assert v.charge[i][j] == available[i, j];
      if !valid[j] || available[i, j].current == 0 || available[i, j].voltage == 0 {
        SkipKeepsBest(v, pick, i, j);
        return;
      }
      if overridePort != OVERRIDE_OFF && overridePort == port && overridePort != j {
        OtherPortKeepsBest(v, pick, i, j);
        return;
      }
      if !drpCharging && capability[j] != Dedicated && overridePort != j && !Spoof() {
        SkipKeepsBest(v, pick, i, j);
        return;
      }
      if overridePort == OVERRIDE_OFF && i == pdSupplier && j == dpsPort {
        supplier', port', left := i, j, true;
        v', pick' := Behind(v, i, j, PowerOf(v, pick)), Pick(i, j);
        DpsTracks(v, pick, i, j, supplier, port, bestPower);
        return;
      }
      var power := Power(available[i, j]);
      StepKeepsBest(v, pick, i, j);
      if || supplier == SUPPLIER_NONE
         || priority[i] < priority[supplier]
         || (j == overridePort && port != overridePort)
         || (priority[i] == priority[supplier]
             && (power > bestPower || (power == bestPower && chargePort == j)))
      {
        supplier', port', bestPower', pick' := i, j, power, Pick(i, j);
      }
    }

    /** The active port is kept although another choice would be better. */
    predicate Keeps(keepPort: bool, pick: Pick)
      reads this
    {
      keepPort && overridePort != OVERRIDE_DONT_CHARGE && chargePort != PORT_NONE && chargePort != PortOf(pick)
    }

    // The inner loop: all ports with supplier `i`.
    method ScanRow(i: int, supplier: int, port: int, bestPower: int, ghost v: View, ghost pick: Pick)
      returns (supplier': int, port': int, bestPower': int, ghost v': View, ghost pick': Pick)
      requires Valid() && 0 <= i < |priority| && v.WellFormed()
      requires ScanView(Now(overridePort, chargePort), v, pdSupplier, dpsPort, i > pdSupplier)
      requires Tracks(v, pick, i, 0, supplier, port, bestPower)
      ensures v'.WellFormed() && Tracks(v', pick', i + 1, 0, supplier', port', bestPower')
      ensures ScanView(Now(overridePort, chargePort), v', pdSupplier, dpsPort, i + 1 > pdSupplier)
    {
      ghost var now := Now(overridePort, chargePort);
      ScanViewSame(now, v, pdSupplier, dpsPort, i);
      supplier', port', bestPower', v', pick' := supplier, port, bestPower, v, pick;
      for j := 0 to |valid|
        invariant v' == v && Tracks(v, pick', i, j, supplier', port', bestPower')
        invariant i == pdSupplier && DpsSlot(now, i, dpsPort) ==> j <= dpsPort
      {
        var left;
        supplier', port', bestPower', left, v', pick' := Consider(i, j, supplier', port', bestPower', v, pick');
        if left {
          return;
        }
      }
      RowTracks(v, pick', i, supplier', port', bestPower');
    }

    // The outer loop.
    method Scan() returns (port: int, supplier: int, ghost pick: Pick)
      requires Valid() && overridePort != OVERRIDE_DONT_CHARGE
      ensures IsChoice(Now(overridePort, chargePort), pdSupplier, dpsPort, pick)
      ensures port == PortOf(pick) && supplier == SupplierOf(pick)
    {
      var bestPower := -1;
      supplier, port, pick := SUPPLIER_NONE, PORT_NONE, NoPick;
      ghost var now := Now(overridePort, chargePort);
      ghost var v := now;
      for i := 0 to |priority|
        invariant v.WellFormed() && Tracks(v, pick, i, 0, supplier, port, bestPower)
        invariant ScanView(now, v, pdSupplier, dpsPort, i > pdSupplier)
      {
        supplier, port, bestPower, v, pick := ScanRow(i, supplier, port, bestPower, v, pick);
      }
      ScanEnds(now, v, pdSupplier, dpsPort, pick, supplier, port, bestPower);
    }

    /** What is chosen has current and voltage on a valid port. That is a dedicated charger unless the board charges from
        dual-role ports too, the port is the override port, or the system runs a locked read-only image or is in safe
        mode. Nothing is chosen only if there is nothing of that kind, or if charging is switched off. */
    lemma ChoiceIsAllowed(pick: Pick, s: int, p: int)
      requires Valid() && IsChoice(Now(overridePort, chargePort), pdSupplier, dpsPort, pick)
      requires 0 <= s < |priority| && 0 <= p < |valid|
      ensures pick == Pick(s, p) ==>
                && valid[p] && available[s, p].current != 0 && available[s, p].voltage != 0
                && (drpCharging || capability[p] == Dedicated || p == overridePort || lockedReadOnly || !leftSafeMode)
      ensures pick == NoPick ==>
                overridePort == -2
                || !(valid[p] && available[s, p].current != 0 && available[s, p].voltage != 0
                     && (drpCharging || capability[p] == Dedicated || p == overridePort || lockedReadOnly || !leftSafeMode))
    {
      var v := Now(overridePort, chargePort);
      assert v.charge[s][p] == available[s, p];
      EligibleExactly(v, s, p);
      if pick.Pick? {
        ChoiceIsEligible(v, pdSupplier, dpsPort, pick);
      } else if overridePort != OVERRIDE_DONT_CHARGE {
        NothingIsEligible(v, pdSupplier, dpsPort, s, p);
      }
    }

    /** `keepPort` says that there is no battery, or that it is cut off. */
    method GetBestPort(keepPort: bool) returns (newPort: int, newSupplier: int, ghost pick: Pick)
      requires Valid()
      ensures IsChoice(Now(overridePort, chargePort), pdSupplier, dpsPort, pick)
      ensures if Keeps(keepPort, pick) then newPort == chargePort && newSupplier == chargeSupplier
              else newPort == PortOf(pick) && newSupplier == SupplierOf(pick)
      ensures if keepPort && overridePort != -2 && chargePort != -1 then newPort == chargePort
              else newPort == if pick.Pick? then pick.port else -1
      ensures PORT_NONE <= newPort < |valid| && SUPPLIER_NONE <= newSupplier < |priority|
      ensures newPort == PORT_NONE <==> newSupplier == SUPPLIER_NONE
    {
      if overridePort == OVERRIDE_DONT_CHARGE {
        return PORT_NONE, SUPPLIER_NONE, NoPick;
      }
      newPort, newSupplier, pick := Scan();
      ChoiceIsInRange(Now(overridePort, chargePort), pdSupplier, dpsPort, pick);
      if chargePort != PORT_NONE && chargePort != newPort && keepPort {
        newPort, newSupplier := chargePort, chargeSupplier;
      }
    }

    /** Takes all charge off a port that the board rejected. */
    method ClearPort(port: int)
      requires Valid() && 0 <= port < |valid|
      modifies available
      ensures Cleared(old(ChargeTable()), ChargeTable(), {port})
    {
      for i := 0 to |priority|
        invariant forall s, p {:trigger available[s, p]} :: 0 <= s < available.Length0 && 0 <= p < available.Length1 ==>
          available[s, p] == if p == port && s < i then Charge(0, 0) else old(available[s, p])
      {
        available[i, port] := Charge(0, 0);
      }
    }

    // The same in the run of the hunt.
    method Reject(port: int, ghost table: seq<seq<Charge>>, ghost rejected: set<int>, ghost offers: seq<BoardCall>)
      requires Valid() && 0 <= port < |valid| && port !in rejected
      requires AllRefused(offers, rejected) && Cleared(table, ChargeTable(), rejected)
      modifies available
      ensures AllRefused(offers + [BoardCall(port, false)], rejected + {port})
      ensures Cleared(table, ChargeTable(), rejected + {port})
    {
      ghost var before := ChargeTable();
      ClearPort(port);
      ClearedAgain(table, before, ChargeTable(), rejected, port);
      RefusedAgain(offers, rejected, port);
    }

    /** The board may refuse any port, but not the request not to charge. */
    method SetActiveChargePort(port: int) returns (accepted: bool)
      ensures port == PORT_NONE ==> accepted
    {
      accepted := *;
      if port == PORT_NONE {
        accepted := true;
      }
    }

    // What the hunt says of a port that the board has refused and that is nevertheless kept.
    lemma RefusedHasNothing(was: seq<seq<Charge>>, pick: Pick, rejected: set<int>, offers: seq<BoardCall>,
                            outcome: Outcome, newPort: int, newSupplier: int)
      requires Valid() && PORT_NONE <= newPort < |valid| && SUPPLIER_NONE <= newSupplier < |priority|
      requires newPort == PORT_NONE <==> newSupplier == SUPPLIER_NONE
      requires IsChoice(Now(overridePort, chargePort), pdSupplier, dpsPort, pick)
      requires Cleared(was, ChargeTable(), rejected) && OnlyCharged(was, rejected)
      requires Offered(offers, rejected, outcome, newPort) && (outcome == Switched ==> newPort !in rejected)
      ensures newPort in rejected <==> BoardCall(newPort, false) in offers
      ensures newPort in rejected ==> newPort != PortOf(pick) && Given(newPort, newSupplier) == Charge(0, 0)
    {
      RefusedIsOffered(offers, rejected, outcome, newPort);
      PickHasCharge(Now(overridePort, chargePort), pdSupplier, dpsPort, pick, was, rejected);
      if newPort in rejected {
        ClearedSlot(was, ChargeTable(), rejected, newSupplier, newPort);
        assert Given(newPort, newSupplier) == ChargeTable()[newSupplier][newPort];
      }
    }

    // One round of the hunt: whether the board has refused the best port, and if not how the hunt ends.
    method Offer(keepPort: bool, ghost table: seq<seq<Charge>>, ghost rejected: set<int>)
      returns (newPort: int, newSupplier: int, refused: bool, outcome: Outcome, ghost pick: Pick)
      requires Valid() && Cleared(table, ChargeTable(), rejected) && OnlyCharged(table, rejected)
      ensures IsChoice(Now(overridePort, chargePort), pdSupplier, dpsPort, pick)
      ensures PORT_NONE <= newPort < |valid| && SUPPLIER_NONE <= newSupplier < |priority|
      ensures newPort == PORT_NONE <==> newSupplier == SUPPLIER_NONE
      ensures || (newPort == PortOf(pick) && newSupplier == SupplierOf(pick))
              || (Keeps(true, pick) && newPort == chargePort && newSupplier == chargeSupplier)
      ensures refused ==> newPort >= 0 && newPort !in rejected && OnlyCharged(table, rejected + {newPort})
      ensures !refused ==> Ends(outcome, newPort, newSupplier, rejected)
    {
      newPort, newSupplier, pick := GetBestPort(keepPort);
      refused, outcome := false, Switched;
      if !leftSafeMode && newPort == PORT_NONE {
        outcome := NothingInSafeMode;
        return;
      }
      if initialized && newPort == chargePort && newSupplier == chargeSupplier {
        outcome := Unchanged;
        return;
      }
      PickHasCharge(Now(overridePort, chargePort), pdSupplier, dpsPort, pick, table, rejected);
      var accepted := SetActiveChargePort(newPort);
      refused := !accepted;
    }

    /** What the outcome of a hunt says. */
    ghost predicate Ends(outcome: Outcome, newPort: int, newSupplier: int, rejected: set<int>)
      reads this
    {
      && (newPort == PORT_NONE && !leftSafeMode ==> outcome == NothingInSafeMode)
      && match outcome
         case NothingInSafeMode => !leftSafeMode && newPort == PORT_NONE
         case Unchanged => initialized && newPort == chargePort && newSupplier == chargeSupplier
         case Switched => newPort !in rejected
    }

    /** Offers the best port to the board until one is accepted; `keepPort` is asked anew every time. */
    method Hunt()
      returns (newPort: int, newSupplier: int, outcome: Outcome,
               ghost rejected: set<int>, ghost pick: Pick, ghost offers: seq<BoardCall>)
      requires Valid()
      modifies available
      ensures IsChoice(Now(overridePort, chargePort), pdSupplier, dpsPort, pick)
      ensures PORT_NONE <= newPort < |valid| && SUPPLIER_NONE <= newSupplier < |priority|
      ensures newPort == PORT_NONE <==> newSupplier == SUPPLIER_NONE
      ensures || (newPort == PortOf(pick) && newSupplier == SupplierOf(pick))
              || (Keeps(true, pick) && newPort == chargePort && newSupplier == chargeSupplier)
      ensures Cleared(old(ChargeTable()), ChargeTable(), rejected) && OnlyCharged(old(ChargeTable()), rejected)
      ensures Ends(outcome, newPort, newSupplier, rejected) && Offered(offers, rejected, outcome, newPort)
      ensures newPort in rejected <==> BoardCall(newPort, false) in offers
      ensures newPort in rejected ==> newPort != PortOf(pick) && Given(newPort, newSupplier) == Charge(0, 0)
    {
      ghost var table := ChargeTable();
      rejected, offers := {}, [];
      while true
        invariant AllRefused(offers, rejected)
        invariant Cleared(table, ChargeTable(), rejected) && OnlyCharged(table, rejected)
        decreases Ports(|valid|) - rejected
      {
        var keepPort: bool := *;
        var refused;
        newPort, newSupplier, refused, outcome, pick := Offer(keepPort, table, rejected);
        if !refused {
          AcceptedIsOffered(offers, rejected, outcome, newPort);
          offers := offers + if outcome == Switched then [BoardCall(newPort, true)] else [];
          RefusedHasNothing(table, pick, rejected, offers, outcome, newPort, newSupplier);
          return;
        }
        Reject(newPort, table, rejected, offers);
        rejected, offers := rejected + {newPort}, offers + [BoardCall(newPort, false)];
      }
    }

    /** Current and voltage that `port` gives with this supplier; without one the default current. */
    ghost function Given(port: int, supplier: int): (c: Charge)
      reads available
    {
      if 0 <= port < available.Length1 && 0 <= supplier < available.Length0 then available[supplier, port]
      else Charge(defaultLimit, 0)
    }

    method NewLimit(port: int, supplier: int) returns (current: int, uncapped: int, voltage: int)
      requires Valid() && PORT_NONE <= port < |valid| && SUPPLIER_NONE <= supplier < |priority|
      requires port == PORT_NONE <==> supplier == SUPPLIER_NONE
      ensures Charge(uncapped, voltage) == Given(port, supplier) && IsLimit(CeilsOf(port), leftSafeMode, uncapped, current)
    {
      current, uncapped, voltage := defaultLimit, defaultLimit, 0;
      if supplier != SUPPLIER_NONE {
        uncapped := available[supplier, port].current;
        var ceil := GetCeil(port);
        if leftSafeMode && ceil != CEIL_NONE {
          current := Smaller(ceil, uncapped);
        } else {
          current := uncapped;
        }
        voltage := available[supplier, port].voltage;
      }
    }

    /** Either the best choice for the charge that is left, or the port and supplier as they were. */
    twostate predicate Chosen(pick: Pick)
      reads this
    {
      || (chargePort == PortOf(pick) && chargeSupplier == SupplierOf(pick))
      || (old(Keeps(true, pick)) && unchanged(this`chargePort, this`chargeSupplier))
    }

    /** What is recorded to keep the charger from drawing more than was negotiated. */
    function PdCurrent(): int
      reads this`chargeSupplier, this`chargeCurrentUncapped
    {
      if chargeSupplier == pdSupplier then chargeCurrentUncapped else CURRENT_UNINITIALIZED
    }

    // Whether the limit is new, and which ports get a new power request.
    method Changes(newPort: int, newSupplier: int, newCurrent: int, newUncapped: int, newVoltage: int)
      returns (limitChanged: bool, updatedNewPort: int, updatedOldPort: int)
      ensures limitChanged <==> newPort != chargePort || newSupplier != chargeSupplier || newCurrent != chargeCurrent
      ensures updatedNewPort ==
                if newPort == chargePort && newUncapped == chargeCurrentUncapped && newVoltage == chargeVoltage then PORT_NONE
                else newPort
      ensures updatedOldPort == if newPort == chargePort then PORT_NONE else chargePort
    {
      limitChanged, updatedNewPort, updatedOldPort := false, PORT_NONE, PORT_NONE;
      if newPort != chargePort || newCurrent != chargeCurrent || newSupplier != chargeSupplier {
        limitChanged := true;
      }
      if newPort != PORT_NONE
         && (newPort != chargePort || newUncapped != chargeCurrentUncapped || newVoltage != chargeVoltage) {
        updatedNewPort := newPort;
      }
      if chargePort != newPort && chargePort != PORT_NONE {
        updatedOldPort := chargePort;
      }
    }

    // An override port that has not been chosen is given up.
    method ClearOverride(newPort: int)
      modifies this`initialized, this`overridePort
      ensures initialized
      ensures overridePort == if old(overridePort) >= 0 && old(overridePort) != newPort then OVERRIDE_OFF else old(overridePort)
    {
      initialized := true;
      if overridePort >= 0 && overridePort != newPort {
        overridePort := OVERRIDE_OFF;
      }
    }

    // The globals that reflect the current state.
    method Adopt(newPort: int, newSupplier: int, newCurrent: int, newUncapped: int, newVoltage: int)
      modifies this`chargePdCurrentUncapped, this`chargeCurrent, this`chargeCurrentUncapped, this`chargeVoltage,
               this`chargeSupplier, this`chargePort
      ensures chargePort == newPort && chargeSupplier == newSupplier
      ensures chargeCurrent == newCurrent && chargeCurrentUncapped == newUncapped && chargeVoltage == newVoltage
      ensures chargePdCurrentUncapped == PdCurrent()
    {
      chargePdCurrentUncapped := if newSupplier == pdSupplier then newUncapped else CURRENT_UNINITIALIZED;
      chargeCurrent, chargeCurrentUncapped, chargeVoltage := newCurrent, newUncapped, newVoltage;
      chargeSupplier, chargePort := newSupplier, newPort;
    }

    /** In terms of the table of ceilings. */
    lemma LimitIsCapped(port: int, left: bool, uncapped: int, limit: int)
      requires Valid() && PORT_NONE <= port < |valid| && IsLimit(CeilsOf(port), left, uncapped, limit)
      ensures limit == uncapped
              || (left && port != -1 && limit < uncapped
                  && exists k :: 0 <= k < ceilings.Length1 && ceilings[port, k] == limit)
      ensures left && port != -1 && valid[port] ==>
                forall k :: 0 <= k < ceilings.Length1 && ceilings[port, k] != -1 ==> limit <= ceilings[port, k]
    {
      var ceils := CeilsOf(port);
      if ceils != [] {
        forall k | 0 <= k < ceilings.Length1
          ensures ceils[k] == ceilings[port, k]
        {
        }
      }
    }

    /** Makes the choice the active one and says what has changed. */
    method Settle(newPort: int, newSupplier: int) returns (limitChanged: bool, updatedNewPort: int, updatedOldPort: int)
      requires Valid() && PORT_NONE <= newPort < |valid| && SUPPLIER_NONE <= newSupplier < |priority|
      requires newPort == PORT_NONE <==> newSupplier == SUPPLIER_NONE
      modifies this
      ensures Valid() && initialized && chargePort == newPort && chargeSupplier == newSupplier
      ensures unchanged(this`leftSafeMode, this`lockedReadOnly, this`dpsPort)
      ensures overridePort == if old(overridePort) >= 0 && old(overridePort) != newPort then OVERRIDE_OFF else old(overridePort)
      ensures Charge(chargeCurrentUncapped, chargeVoltage) == Given(newPort, newSupplier)
      ensures IsLimit(CeilsOf(newPort), leftSafeMode, chargeCurrentUncapped, chargeCurrent)
      ensures chargePdCurrentUncapped == PdCurrent()
      ensures limitChanged <==> !unchanged(this`chargePort, this`chargeSupplier, this`chargeCurrent)
      ensures updatedNewPort == if unchanged(this`chargePort, this`chargeCurrentUncapped, this`chargeVoltage) then PORT_NONE
                                else newPort
      ensures updatedOldPort == if unchanged(this`chargePort) then PORT_NONE else old(chargePort)
      ensures chargePort == -1 ==> chargeCurrentUncapped == defaultLimit && chargeVoltage == 0
      ensures chargePort != -1 ==> Charge(chargeCurrentUncapped, chargeVoltage) == available[chargeSupplier, chargePort]
      ensures chargeCurrent == chargeCurrentUncapped
              || (leftSafeMode && chargePort != -1 && chargeCurrent < chargeCurrentUncapped
                  && exists k :: 0 <= k < ceilings.Length1 && ceilings[chargePort, k] == chargeCurrent)
      ensures leftSafeMode && chargePort != -1 && valid[chargePort] ==>
                forall k :: 0 <= k < ceilings.Length1 && ceilings[chargePort, k] != -1 ==> chargeCurrent <= ceilings[chargePort, k]
      ensures chargePdCurrentUncapped == if chargeSupplier == pdSupplier then chargeCurrentUncapped else -1
    {
      ghost var ceils, given := CeilsOf(newPort), Given(newPort, newSupplier);
      ClearOverride(newPort);
      var newCurrent, newUncapped, newVoltage := NewLimit(newPort, newSupplier);
      limitChanged, updatedNewPort, updatedOldPort := Changes(newPort, newSupplier, newCurrent, newUncapped, newVoltage);
      Adopt(newPort, newSupplier, newCurrent, newUncapped, newVoltage);
      assert CeilsOf(newPort) == ceils && Given(newPort, newSupplier) == given;
      LimitIsCapped(newPort, leftSafeMode, newUncapped, newCurrent);
    }

    method Refresh()
      returns (done: bool, limitChanged: bool, updatedNewPort: int, updatedOldPort: int,
               ghost rejected: set<int>, ghost pick: Pick, ghost outcome: Outcome, ghost offers: seq<BoardCall>)
      requires Valid()
      modifies this, available
      ensures Valid() && unchanged(this`leftSafeMode, this`lockedReadOnly, this`dpsPort)
      ensures Cleared(old(ChargeTable()), ChargeTable(), rejected) && OnlyCharged(old(ChargeTable()), rejected)
      ensures IsChoice(Now(old(overridePort), old(chargePort)), pdSupplier, dpsPort, pick)
      ensures !done ==> !leftSafeMode && pick == NoPick && unchanged(this) && !limitChanged
      ensures !done ==> updatedNewPort == updatedOldPort == PORT_NONE
      ensures Offered(offers, rejected, outcome, chargePort) && done == (outcome != NothingInSafeMode)
      ensures outcome == Unchanged ==> unchanged(this`chargePort, this`chargeSupplier)
      ensures outcome == Switched ==> chargePort !in rejected
      ensures done ==> Chosen(pick) && initialized && (chargePort == PORT_NONE ==> leftSafeMode)
      ensures done && (chargePort != old(chargePort) || chargeSupplier != old(chargeSupplier)) ==>
                match pick
                case NoPick => chargePort == chargeSupplier == -1
                case Pick(supplier, port) => chargePort == port && chargeSupplier == supplier
      ensures done ==> overridePort == if old(overridePort) >= 0 && old(overridePort) != chargePort then OVERRIDE_OFF
                                       else old(overridePort)
      ensures done ==> Charge(chargeCurrentUncapped, chargeVoltage) == Given(chargePort, chargeSupplier)
      ensures done ==> IsLimit(CeilsOf(chargePort), leftSafeMode, chargeCurrentUncapped, chargeCurrent)
      ensures done ==> chargePdCurrentUncapped == PdCurrent()
      ensures done ==> (chargePort in rejected <==> BoardCall(chargePort, false) in offers)
      ensures done && chargePort in rejected ==>
                && outcome == Unchanged && old(Keeps(true, pick)) && chargePort == old(chargePort)
                && chargeCurrentUncapped == chargeVoltage == 0
    {
      var newPort, newSupplier, result;
      limitChanged, updatedNewPort, updatedOldPort := false, PORT_NONE, PORT_NONE;
      newPort, newSupplier, result, rejected, pick, offers := Hunt();
      outcome := result;
      ghost var table, v := ChargeTable(), Now(overridePort, chargePort);
      done := result != NothingInSafeMode;
      if done {
        limitChanged, updatedNewPort, updatedOldPort := Settle(newPort, newSupplier);
      }
      assert ChargeTable() == table && Now(old(overridePort), old(chargePort)) == v;
    }
  }

  /** The current is what the supplier has, but out of safe mode never above a ceiling of the port. */
  ghost predicate IsLimit(ceils: seq<int>, leftSafeMode: bool, uncapped: int, limit: int) {
    if leftSafeMode && (exists k :: 0 <= k < |ceils| && ceils[k] != CEIL_NONE && ceils[k] < uncapped)
    then IsCeil(ceils, limit)
    else limit == uncapped
  }

  ghost function Ports(n: nat): (ports: set<int>)
    ensures forall j :: j in ports <==> 0 <= j < n
  {
    if n == 0 then {} else Ports(n - 1) + {n - 1}
  }

  /** How the hunt for a port ended. */
  datatype Outcome = NothingInSafeMode | Unchanged | Switched

  ghost predicate AllRefused(offers: seq<BoardCall>, rejected: set<int>) {
    && |offers| == |rejected|
    && (forall k :: 0 <= k < |offers| ==> !offers[k].accepted && offers[k].port in rejected)
    && (forall j :: j in rejected ==> BoardCall(j, false) in offers)
  }

  lemma RefusedAgain(offers: seq<BoardCall>, rejected: set<int>, port: int)
    requires AllRefused(offers, rejected) && port !in rejected
    ensures AllRefused(offers + [BoardCall(port, false)], rejected + {port})
  {
    var more := offers + [BoardCall(port, false)];
    assert more[|offers|] == BoardCall(port, false);
    forall j | j in rejected
      ensures BoardCall(j, false) in more
    {
      assert BoardCall(j, false) in offers;
    }
  }

  /** The board refused each of the rejected ports once and, at the end of the hunt, accepted the
      chosen port unless it stays the active one. */
  ghost predicate Offered(offers: seq<BoardCall>, rejected: set<int>, outcome: Outcome, newPort: int) {
    if outcome == Switched then
      && |offers| > 0 && offers[|offers| - 1] == BoardCall(newPort, true)
      && AllRefused(offers[..|offers| - 1], rejected)
    else AllRefused(offers, rejected)
  }

  lemma AcceptedIsOffered(offers: seq<BoardCall>, rejected: set<int>, outcome: Outcome, newPort: int)
    requires AllRefused(offers, rejected)
    ensures Offered(offers + if outcome == Switched then [BoardCall(newPort, true)] else [], rejected, outcome, newPort)
  {
    assert offers + [] == offers;
    assert (offers + [BoardCall(newPort, true)])[..|offers|] == offers;
  }

  lemma RefusedIsOffered(offers: seq<BoardCall>, rejected: set<int>, outcome: Outcome, newPort: int)
    requires Offered(offers, rejected, outcome, newPort) && (outcome == Switched ==> newPort !in rejected)
    ensures newPort in rejected <==> BoardCall(newPort, false) in offers
  {
    var refused := if outcome == Switched then offers[..|offers| - 1] else offers;
    forall k | 0 <= k < |offers| && offers[k] == BoardCall(newPort, false)
      ensures newPort in rejected
    {
      assert k < |refused| && refused[k] == offers[k];
    }
  }

  /** The table with all charge taken off some ports. */
  ghost predicate Cleared(was: seq<seq<Charge>>, now: seq<seq<Charge>>, rejected: set<int>) {
    && |was| == |now|
    && forall i :: 0 <= i < |was| ==> |was[i]| == |now[i]| && RowCleared(was[i], now[i], rejected)
  }

  ghost predicate RowCleared(was: seq<Charge>, now: seq<Charge>, rejected: set<int>)
    requires |was| == |now|
  {
    forall j :: 0 <= j < |was| ==> now[j] == if j in rejected then Charge(0, 0) else was[j]
  }

  lemma ClearedSlot(was: seq<seq<Charge>>, now: seq<seq<Charge>>, rejected: set<int>, i: int, j: int)
    requires Cleared(was, now, rejected) && j in rejected && 0 <= i < |now| && 0 <= j < |now[i]|
    ensures now[i][j] == Charge(0, 0)
  {
    assert RowCleared(was[i], now[i], rejected);
  }

  /** Only ports that had something to offer were rejected. */
  ghost predicate OnlyCharged(was: seq<seq<Charge>>, rejected: set<int>) {
    forall j :: j in rejected ==>
      exists i :: 0 <= i < |was| && 0 <= j < |was[i]| && was[i][j].current != 0 && was[i][j].voltage != 0
  }

  /** What the hunt has done, call by call and slot by slot: all refusals come first, one for each port whose charge is
      gone; an acceptance comes last; and every other slot is as it was. */
  lemma HuntIs(was: seq<seq<Charge>>, now: seq<seq<Charge>>, rejected: set<int>, offers: seq<BoardCall>, outcome: Outcome,
               newPort: int, i: int, j: int)
    requires Cleared(was, now, rejected) && OnlyCharged(was, rejected) && Offered(offers, rejected, outcome, newPort)
    requires 0 <= i < |was| && 0 <= j < |was[i]|
    ensures |now| == |was| && |now[i]| == |was[i]|
    ensures now[i][j] == if j in rejected then Charge(0, 0) else was[i][j]
    ensures j in rejected ==> exists s :: 0 <= s < |was| && j < |was[s]| && was[s][j].current != 0 && was[s][j].voltage != 0
    ensures |offers| == |rejected| + if outcome == Switched then 1 else 0
    ensures forall k :: 0 <= k < |offers| ==>
              if outcome == Switched && k == |offers| - 1 then offers[k] == BoardCall(newPort, true)
              else !offers[k].accepted && offers[k].port in rejected
    ensures j in rejected ==> BoardCall(j, false) in offers
  {
    assert RowCleared(was[i], now[i], rejected);
    var refused := if outcome == Switched then offers[..|offers| - 1] else offers;
    assert AllRefused(refused, rejected);
    forall k | 0 <= k < |refused|
      ensures !offers[k].accepted && offers[k].port in rejected
    {
      assert refused[k] == offers[k];
    }
  }

  lemma ClearedAgain(t0: seq<seq<Charge>>, t1: seq<seq<Charge>>, t2: seq<seq<Charge>>, rejected: set<int>, port: int)
    requires Cleared(t0, t1, rejected) && Cleared(t1, t2, {port})
    ensures Cleared(t0, t2, rejected + {port})
  {
    forall i | 0 <= i < |t0|
      ensures |t0[i]| == |t2[i]| && RowCleared(t0[i], t2[i], rejected + {port})
    {
      assert RowCleared(t0[i], t1[i], rejected) && RowCleared(t1[i], t2[i], {port});
    }
  }

  /** A port that is chosen by the scan has charge left, so it was not rejected before. */
  lemma PickHasCharge(v: View, pd: int, dps: int, pick: Pick, was: seq<seq<Charge>>, rejected: set<int>)
    requires v.WellFormed() && IsChoice(v, pd, dps, pick) && Cleared(was, v.charge, rejected) && OnlyCharged(was, rejected)
    ensures pick.Pick? ==> 0 <= pick.port < |v.valid| && pick.port !in rejected && OnlyCharged(was, rejected + {pick.port})
  {
    if pick.Pick? {
      ChoiceIsEligible(v, pd, dps, pick);
      assert RowCleared(was[pick.supplier], v.charge[pick.supplier], rejected);
      var c := was[pick.supplier][pick.port];
      assert c.current != 0 && c.voltage != 0;
    }
  }

  /** The view in which the scan chooses: the one there is, or that behind the DPS port once it has met this. */
  ghost predicate ScanView(now: View, v: View, pd: int, dps: int, behind: bool)
    requires now.WellFormed()
  {
    if behind && DpsSlot(now, pd, dps) then GoesOn(now, v, pd, dps) else v == now
  }

  /** The rows from `i` on are the same. */
  predicate SameFrom(now: View, v: View, i: int) {
    && v == now.(charge := v.charge) && |v.charge| == |now.charge|
    && forall s :: i <= s < |now.charge| ==> 0 <= s && v.charge[s] == now.charge[s]
  }

  lemma ScanViewSame(now: View, v: View, pd: int, dps: int, i: int)
    requires now.WellFormed() && v.WellFormed() && 0 <= i && ScanView(now, v, pd, dps, i > pd)
    ensures SameFrom(now, v, i) && (i <= pd ==> v == now)
  {
    if i > pd && DpsSlot(now, pd, dps) {
      var before :| BestSoFar(now, before, pd, dps) && v == Behind(now, pd, dps, PowerOf(now, before));
    }
  }

  lemma ChoiceIsInRange(v: View, pd: int, dps: int, pick: Pick)
    requires v.WellFormed() && IsChoice(v, pd, dps, pick)
    ensures pick.Pick? ==> 0 <= pick.port < |v.valid| && 0 <= pick.supplier < |v.priority|
  {
    if pick.Pick? {
      ChoiceIsEligible(v, pd, dps, pick);
    }
  }

  lemma ScanEnds(now: View, v: View, pd: int, dps: int, pick: Pick, supplier: int, port: int, bestPower: int)
    requires now.WellFormed() && v.WellFormed() && ScanView(now, v, pd, dps, |now.charge| > pd)
    requires now.overridePort != OVERRIDE_DONT_CHARGE && Tracks(v, pick, |now.charge|, 0, supplier, port, bestPower)
    ensures IsChoice(now, pd, dps, pick) && port == PortOf(pick) && supplier == SupplierOf(pick)
  {
    ScanViewSame(now, v, pd, dps, |now.charge|);
    TracksBest(v, pick, supplier, port, bestPower);
  }

  lemma DpsTracks(v: View, pick: Pick, i: int, j: int, supplier: int, port: int, bestPower: int)
    requires v.WellFormed() && Tracks(v, pick, i, j, supplier, port, bestPower) && DpsSlot(v, i, j)
    ensures var w := Behind(v, i, j, PowerOf(v, pick));
            GoesOn(v, w, i, j) && Tracks(w, Pick(i, j), i + 1, 0, i, j, bestPower)
  {
    PowerIsNotZero(v, pick, i, j);
    DpsIsBestSoFar(v, i, j, PowerOf(v, pick));
    BehindEligible(v, i, j, PowerOf(v, pick), i, j);
  }

  /** The locals of the scan hold the best choice in front of slot `i`, `j`. */
  ghost predicate Tracks(v: View, pick: Pick, i: int, j: int, supplier: int, port: int, bestPower: int)
    requires v.WellFormed()
  {
    && BestSoFar(v, pick, i, j)
    && match pick
       case NoPick => supplier == SUPPLIER_NONE && port == PORT_NONE && bestPower == -1
       case Pick(s, p) => supplier == s && port == p && Eligible(v, s, p) && bestPower == Power(v.charge[s][p])
  }
}
