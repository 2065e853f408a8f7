/** What makes a supplier on a port the best choice to charge from (common/charge_manager.c:652-738),
    stated without the scan that finds it. */
module ChargeChoice {

  const PORT_NONE := -1
  const SUPPLIER_NONE := -1
  const OVERRIDE_OFF := -1
  const OVERRIDE_DONT_CHARGE := -2

  datatype Charge = Charge(current: int, voltage: int)

  function Power(c: Charge): int {
    c.current * c.voltage
  }

  /** All that the choice depends on: the charge of each supplier on each port, the priority of each
      supplier (a lower number goes first), the ports that may be charged from without being the
      override port, the override port and the port charged from now. */
  datatype View = View(charge: seq<seq<Charge>>, priority: seq<int>, valid: seq<bool>, dedicated: seq<bool>,
                       overridePort: int, activePort: int)
  {
    ghost predicate WellFormed() {
      && |charge| == |priority| && |valid| == |dedicated|
      && forall i :: 0 <= i < |charge| ==> |charge[i]| == |valid|
    }
  }

  predicate Slot(v: View, i: int, j: int) {
    0 <= i < |v.charge| && 0 <= j < |v.valid|
  }

  predicate Eligible(v: View, i: int, j: int)
    requires v.WellFormed()
  {
    && Slot(v, i, j) && v.valid[j]
    && v.charge[i][j].current != 0 && v.charge[i][j].voltage != 0
    && (v.dedicated[j] || v.overridePort == j)
  }

  /** The order of the scan: suppliers first, then ports. */
  predicate Before(i: int, j: int, i': int, j': int) {
    i < i' || (i == i' && j < j')
  }

  ghost predicate OverrideSeen(v: View, i: int, j: int)
    requires v.WellFormed()
  {
    exists s :: Eligible(v, s, v.overridePort) && Before(s, v.overridePort, i, j)
  }

  /** The override port, once it has something to offer, is the only candidate. */
  ghost predicate SeenCandidate(v: View, s: int, p: int, i: int, j: int)
    requires v.WellFormed()
  {
    && Eligible(v, s, p) && Before(s, p, i, j)
    && (OverrideSeen(v, i, j) ==> p == v.overridePort)
  }

  /** Lower priority number, then more power, then the active port. Of several suppliers that tie
      even so the last one wins on the active port, and the first one elsewhere. */
  predicate NotBetter(v: View, s: int, p: int, s': int, p': int)
    requires v.WellFormed() && Slot(v, s, p) && Slot(v, s', p')
  {
    var power, power' := Power(v.charge[s][p]), Power(v.charge[s'][p']);
    || v.priority[s'] < v.priority[s]
    || (v.priority[s'] == v.priority[s] && power < power')
    || (v.priority[s'] == v.priority[s] && power == power'
        && if p' == v.activePort then p != v.activePort || s <= s'
           else p != v.activePort && !Before(s, p, s', p'))
  }

  datatype Pick = NoPick | Pick(supplier: int, port: int)

  /** The pick is the best of the candidates in front of position `i`, `j` of the scan. */
  ghost predicate BestSoFar(v: View, pick: Pick, i: int, j: int)
    requires v.WellFormed()
  {
    match pick
    case NoPick => forall s, p :: Before(s, p, i, j) ==> !Eligible(v, s, p)
    case Pick(s', p') =>
      && SeenCandidate(v, s', p', i, j)
      && forall s, p :: SeenCandidate(v, s, p, i, j) ==> NotBetter(v, s, p, s', p')
  }

  /** Whether the scan prefers slot `i`, `j` to what it has. */
  predicate Prefers(v: View, pick: Pick, i: int, j: int)
    requires v.WellFormed() && Slot(v, i, j) && (pick.Pick? ==> Slot(v, pick.supplier, pick.port))
  {
    || pick.NoPick?
    || v.priority[i] < v.priority[pick.supplier]
    || (j == v.overridePort && pick.port != v.overridePort)
    || (v.priority[i] == v.priority[pick.supplier]
        && var power, best := Power(v.charge[i][j]), Power(v.charge[pick.supplier][pick.port]);
           power > best || (power == best && v.activePort == j))
  }

  lemma SkipKeepsBest(v: View, pick: Pick, i: int, j: int)
    requires v.WellFormed() && BestSoFar(v, pick, i, j) && !Eligible(v, i, j)
    ensures BestSoFar(v, pick, i, j + 1)
  {
    forall s, p | Before(s, p, i, j + 1) && Eligible(v, s, p)
      ensures Before(s, p, i, j)
    {
    }
    assert OverrideSeen(v, i, j + 1) == OverrideSeen(v, i, j);
    forall s, p
      ensures SeenCandidate(v, s, p, i, j + 1) == SeenCandidate(v, s, p, i, j)
    {
    }
  }

  /** The other ports are passed over while the override port is the pick. */
  lemma OtherPortKeepsBest(v: View, pick: Pick, i: int, j: int)
    requires v.WellFormed() && BestSoFar(v, pick, i, j)
    requires pick.Pick? && pick.port == v.overridePort != j
    ensures BestSoFar(v, pick, i, j + 1)
  {
    assert OverrideSeen(v, i, j) by {
      assert Eligible(v, pick.supplier, v.overridePort);
    }
    assert OverrideSeen(v, i, j + 1);
    forall s, p
      ensures SeenCandidate(v, s, p, i, j + 1) == SeenCandidate(v, s, p, i, j)
    {
    }
  }

  lemma OverridePicked(v: View, pick: Pick, i: int, j: int)
    requires v.WellFormed() && BestSoFar(v, pick, i, j)
    ensures OverrideSeen(v, i, j) <==> pick.Pick? && pick.port == v.overridePort
  {
    if pick.Pick? && pick.port == v.overridePort {
      assert Eligible(v, pick.supplier, v.overridePort);
    }
  }

  lemma SeenEarlier(v: View, s: int, p: int, i: int, j: int)
    requires v.WellFormed() && SeenCandidate(v, s, p, i, j + 1) && Before(s, p, i, j)
    ensures SeenCandidate(v, s, p, i, j)
  {
    if OverrideSeen(v, i, j) {
      var w :| Eligible(v, w, v.overridePort) && Before(w, v.overridePort, i, j);
      assert Before(w, v.overridePort, i, j + 1);
    }
  }

  lemma StepKeepsBest(v: View, pick: Pick, i: int, j: int)
    requires v.WellFormed() && BestSoFar(v, pick, i, j) && Eligible(v, i, j)
    requires pick.Pick? && pick.port == v.overridePort ==> j == v.overridePort
    ensures BestSoFar(v, if Prefers(v, pick, i, j) then Pick(i, j) else pick, i, j + 1)
  {
    OverridePicked(v, pick, i, j);
    var pick' := if Prefers(v, pick, i, j) then Pick(i, j) else pick;
    assert Before(i, j, i, j + 1);
    if j == v.overridePort {
      assert OverrideSeen(v, i, j + 1);
    } else {
      assert !OverrideSeen(v, i, j + 1);
    }
    forall s, p | SeenCandidate(v, s, p, i, j + 1)
      ensures NotBetter(v, s, p, pick'.supplier, pick'.port)
    {
      if Before(s, p, i, j) {
        SeenEarlier(v, s, p, i, j);
      }
    }
  }

  lemma RowKeepsBest(v: View, pick: Pick, i: int)
    requires v.WellFormed() && BestSoFar(v, pick, i, |v.valid|)
    ensures BestSoFar(v, pick, i + 1, 0)
  {
    forall s, p
      ensures Eligible(v, s, p) ==> Before(s, p, i, |v.valid|) == Before(s, p, i + 1, 0)
    {
    }
    assert OverrideSeen(v, i + 1, 0) == OverrideSeen(v, i, |v.valid|);
    forall s, p
      ensures SeenCandidate(v, s, p, i + 1, 0) == SeenCandidate(v, s, p, i, |v.valid|)
    {
    }
  }

  // -------- the choice over all slots

  ghost predicate OverrideOffers(v: View)
    requires v.WellFormed()
  {
    exists s :: Eligible(v, s, v.overridePort)
  }

  ghost predicate Candidate(v: View, s: int, p: int)
    requires v.WellFormed()
  {
    Eligible(v, s, p) && (OverrideOffers(v) ==> p == v.overridePort)
  }

  ghost predicate IsBest(v: View, pick: Pick)
    requires v.WellFormed()
  {
    if v.overridePort == OVERRIDE_DONT_CHARGE then pick == NoPick
    else
      match pick
      case NoPick => forall s, p :: !Eligible(v, s, p)
      case Pick(s', p') => Candidate(v, s', p') && forall s, p :: Candidate(v, s, p) ==> NotBetter(v, s, p, s', p')
  }

  lemma ScanFindsBest(v: View, pick: Pick)
    requires v.WellFormed() && BestSoFar(v, pick, |v.charge|, 0) && v.overridePort != OVERRIDE_DONT_CHARGE
    ensures IsBest(v, pick)
  {
    forall s, p | Eligible(v, s, p)
      ensures Before(s, p, |v.charge|, 0)
    {
    }
    assert OverrideOffers(v) == OverrideSeen(v, |v.charge|, 0);
    forall s, p
      ensures SeenCandidate(v, s, p, |v.charge|, 0) == Candidate(v, s, p)
    {
    }
  }

  /** There is exactly one best choice. */
  lemma BestIsUnique(v: View, a: Pick, b: Pick)
    requires v.WellFormed() && IsBest(v, a) && IsBest(v, b)
    ensures a == b
  {
    if a.Pick? && b.Pick? {
      assert NotBetter(v, a.supplier, a.port, b.supplier, b.port);
      assert NotBetter(v, b.supplier, b.port, a.supplier, a.port);
    }
  }

  /** Without an override the choice has the lowest priority number of all eligible slots, among
      these the most power, and is on the active port if a slot there has the same; of several such slots there it is
      the last one, and elsewhere the first one. Nothing is chosen only if nothing is eligible. */
  lemma BestIsLexicographic(v: View, pick: Pick, s: int, p: int)
    requires v.WellFormed() && v.overridePort == OVERRIDE_OFF && IsBest(v, pick) && Eligible(v, s, p)
    ensures pick.Pick? && Eligible(v, pick.supplier, pick.port)
    ensures v.priority[pick.supplier] <= v.priority[s]
    ensures v.priority[pick.supplier] == v.priority[s] ==>
              var c, best := v.charge[s][p], v.charge[pick.supplier][pick.port];
              && c.current * c.voltage <= best.current * best.voltage
              && (c.current * c.voltage == best.current * best.voltage ==>
                    if p == v.activePort then pick.port == v.activePort && s <= pick.supplier
                    else pick.port == v.activePort || pick.supplier < s || (pick.supplier == s && pick.port <= p))
  {
    assert Candidate(v, s, p);
  }

  /** What may be chosen, written out: a valid port with current and voltage, from which the system may charge. */
  lemma EligibleExactly(v: View, s: int, p: int)
    requires v.WellFormed()
    ensures Eligible(v, s, p) <==>
            && 0 <= s < |v.charge| && 0 <= p < |v.valid| && v.valid[p]
            && v.charge[s][p].current != 0 && v.charge[s][p].voltage != 0 && (v.dedicated[p] || p == v.overridePort)
  {
  }

  /** 45 W at 2.25 A go before 15 W at 3 A. */
  lemma PowerDecides(pick: Pick)
    ensures var v := View([[Charge(3000, 5000), Charge(2250, 20000)]], [0], [true, true], [true, true], OVERRIDE_OFF, PORT_NONE);
            v.WellFormed() && (IsBest(v, pick) <==> pick == Pick(0, 1))
  {
    var v := View([[Charge(3000, 5000), Charge(2250, 20000)]], [0], [true, true], [true, true], OVERRIDE_OFF, PORT_NONE);
    assert Candidate(v, 0, 0) && Candidate(v, 0, 1);
    if IsBest(v, pick) {
      BestIsLexicographic(v, pick, 0, 1);
    }
  }

  /** An override port with anything eligible on it is the port that is chosen. */
  lemma OverrideIsChosen(v: View, pick: Pick, s: int)
    requires v.WellFormed() && IsBest(v, pick) && v.overridePort >= 0 && Eligible(v, s, v.overridePort)
    ensures pick.Pick? && pick.port == v.overridePort
    ensures NotBetter(v, s, v.overridePort, pick.supplier, pick.port)
  {
    assert Candidate(v, s, v.overridePort);
  }

  /** Taking away all charge of some ports leaves the same choice when it is on none of these, as
      long as the override port is none of them either. */
  lemma RejectingOthers(v: View, v': View, pick: Pick, rejected: set<int>)
    requires v.WellFormed() && v'.WellFormed() && IsBest(v, pick) && pick.Pick? && pick.port !in rejected
    requires v' == v.(charge := v'.charge) && |v'.charge| == |v.charge|
    requires forall i, j :: Slot(v, i, j) ==> v'.charge[i][j] == if j in rejected then Charge(0, 0) else v.charge[i][j]
    ensures IsBest(v', pick)
  {
    forall s, p
      ensures Eligible(v', s, p) == (Eligible(v, s, p) && p !in rejected)
    {
      assert Slot(v, s, p) == Slot(v', s, p);
    }
    if OverrideOffers(v) {
      assert Eligible(v', pick.supplier, v.overridePort);
    }
    forall s, p | Candidate(v', s, p)
      ensures NotBetter(v', s, p, pick.supplier, pick.port)
    {
      assert Candidate(v, s, p);
    }
    assert Candidate(v', pick.supplier, pick.port);
  }

  // -------- with dynamic PDO selection

  /** Without an override the PD supplier of the DPS port is selected as soon as the scan meets it. */
  predicate DpsSlot(v: View, pd: int, dps: int)
    requires v.WellFormed()
  {
    v.overridePort == OVERRIDE_OFF && Eligible(v, pd, dps)
  }

  /** The scan then leaves the row, but keeps the power of what it had chosen before: from there on it
      goes as if the DPS port had that power and nothing else had been in front of it. */
  function Behind(v: View, pd: int, dps: int, power: int): (w: View)
    requires v.WellFormed() && Slot(v, pd, dps)
    ensures w.WellFormed() && w == v.(charge := w.charge) && |w.charge| == |v.charge|
    ensures forall s :: pd < s < |v.charge| ==> w.charge[s] == v.charge[s]
    ensures forall s, p :: Slot(v, s, p) && s <= pd ==>
              w.charge[s][p] == if s == pd && p == dps then Charge(power, 1) else Charge(0, 0)
  {
    var nothing := seq(|v.valid|, _ => Charge(0, 0));
    v.(charge := seq(|v.charge|, s requires 0 <= s < |v.charge| =>
         if s < pd then nothing else if s == pd then nothing[dps := Charge(power, 1)] else v.charge[s]))
  }

  function PowerOf(v: View, pick: Pick): int
    requires v.WellFormed() && (pick.Pick? ==> Slot(v, pick.supplier, pick.port))
  {
    if pick.Pick? then Power(v.charge[pick.supplier][pick.port]) else -1
  }

  /** The view in which the scan goes on behind the DPS port. */
  ghost predicate GoesOn(v: View, w: View, pd: int, dps: int)
    requires v.WellFormed()
  {
    && Slot(v, pd, dps)
    && exists before {:trigger BestSoFar(v, before, pd, dps)} ::
         BestSoFar(v, before, pd, dps) && w == Behind(v, pd, dps, PowerOf(v, before))
  }

  /** What the scan chooses: the best slot, of those in front of the DPS port and then of that port with
      their power and those behind it. */
  ghost predicate IsChoice(v: View, pd: int, dps: int, pick: Pick)
    requires v.WellFormed()
  {
    if DpsSlot(v, pd, dps) then exists w :: GoesOn(v, w, pd, dps) && IsBest(w, pick) else IsBest(v, pick)
  }

  lemma PowerIsNotZero(v: View, pick: Pick, i: int, j: int)
    requires v.WellFormed() && BestSoFar(v, pick, i, j)
    ensures PowerOf(v, pick) != 0
  {
  }

  lemma BehindEligible(v: View, pd: int, dps: int, power: int, s: int, p: int)
    requires v.WellFormed() && DpsSlot(v, pd, dps) && power != 0
    ensures Eligible(Behind(v, pd, dps, power), s, p) <==> (s == pd && p == dps) || (s > pd && Eligible(v, s, p))
  {
    if Slot(v, s, p) && s <= pd {
    }
  }

  /** Behind the row of the DPS port that port is the best so far. */
  lemma DpsIsBestSoFar(v: View, pd: int, dps: int, power: int)
    requires v.WellFormed() && DpsSlot(v, pd, dps) && power != 0
    ensures BestSoFar(Behind(v, pd, dps, power), Pick(pd, dps), pd + 1, 0)
  {
    var w := Behind(v, pd, dps, power);
    forall s, p | Eligible(w, s, p) && Before(s, p, pd + 1, 0)
      ensures s == pd && p == dps
    {
      BehindEligible(v, pd, dps, power, s, p);
    }
    BehindEligible(v, pd, dps, power, pd, dps);
  }

  /** The choice is always a slot with charge. */
  lemma ChoiceIsEligible(v: View, pd: int, dps: int, pick: Pick)
    requires v.WellFormed() && IsChoice(v, pd, dps, pick) && pick.Pick?
    ensures Eligible(v, pick.supplier, pick.port)
  {
    if DpsSlot(v, pd, dps) {
      var w :| GoesOn(v, w, pd, dps) && IsBest(w, pick);
      var before :| BestSoFar(v, before, pd, dps) && w == Behind(v, pd, dps, PowerOf(v, before));
      PowerIsNotZero(v, before, pd, dps);
      BehindEligible(v, pd, dps, PowerOf(v, before), pick.supplier, pick.port);
    } else {
      assert Candidate(v, pick.supplier, pick.port);
    }
  }

  lemma NothingIsEligible(v: View, pd: int, dps: int, s: int, p: int)
    requires v.WellFormed() && IsChoice(v, pd, dps, NoPick) && v.overridePort != OVERRIDE_DONT_CHARGE
    ensures !Eligible(v, s, p)
  {
    if DpsSlot(v, pd, dps) {
      var w :| GoesOn(v, w, pd, dps) && IsBest(w, NoPick);
      var before :| BestSoFar(v, before, pd, dps) && w == Behind(v, pd, dps, PowerOf(v, before));
      PowerIsNotZero(v, before, pd, dps);
      BehindEligible(v, pd, dps, PowerOf(v, before), pd, dps);
    }
  }

  /** The DPS port is the choice exactly if no later supplier goes before the PD supplier, or ties with it and
      gives more power than what was chosen in front of the DPS port - whatever the DPS port gives. */
  lemma DpsIsChosenExactly(v: View, pd: int, dps: int, before: Pick, pick: Pick)
    requires v.WellFormed() && DpsSlot(v, pd, dps) && BestSoFar(v, before, pd, dps)
    requires IsBest(Behind(v, pd, dps, PowerOf(v, before)), pick)
    ensures pick == Pick(pd, dps) <==>
            forall s, p :: s > pd && Eligible(v, s, p) ==>
              || v.priority[pd] < v.priority[s]
              || (v.priority[pd] == v.priority[s]
                  && (Power(v.charge[s][p]) < PowerOf(v, before)
                      || (Power(v.charge[s][p]) == PowerOf(v, before) && p != v.activePort)))
  {
    var power := PowerOf(v, before);
    var w := Behind(v, pd, dps, power);
    PowerIsNotZero(v, before, pd, dps);
    forall s, p
      ensures Eligible(w, s, p) <==> (s == pd && p == dps) || (s > pd && Eligible(v, s, p))
    {
      BehindEligible(v, pd, dps, power, s, p);
    }
    assert !OverrideOffers(w);
    forall s, p
      ensures Candidate(w, s, p) <==> Eligible(w, s, p)
    {
    }
  }

  lemma BestSoFarIsUnique(v: View, a: Pick, b: Pick, i: int, j: int)
    requires v.WellFormed() && BestSoFar(v, a, i, j) && BestSoFar(v, b, i, j)
    ensures a == b
  {
    if a.Pick? && b.Pick? {
      assert NotBetter(v, a.supplier, a.port, b.supplier, b.port);
      assert NotBetter(v, b.supplier, b.port, a.supplier, a.port);
    }
  }

  lemma GoesOnIsUnique(v: View, x: View, y: View, pd: int, dps: int)
    requires v.WellFormed() && GoesOn(v, x, pd, dps) && GoesOn(v, y, pd, dps)
    ensures x == y
  {
    var a :| BestSoFar(v, a, pd, dps) && x == Behind(v, pd, dps, PowerOf(v, a));
    var b :| BestSoFar(v, b, pd, dps) && y == Behind(v, pd, dps, PowerOf(v, b));
    BestSoFarIsUnique(v, a, b, pd, dps);
  }

  /** There is exactly one choice, with DPS too. */
  lemma ChoiceIsUnique(v: View, pd: int, dps: int, a: Pick, b: Pick)
    requires v.WellFormed() && IsChoice(v, pd, dps, a) && IsChoice(v, pd, dps, b)
    ensures a == b
  {
    if DpsSlot(v, pd, dps) {
      var x :| GoesOn(v, x, pd, dps) && IsBest(x, a);
      var y :| GoesOn(v, y, pd, dps) && IsBest(y, b);
      GoesOnIsUnique(v, x, y, pd, dps);
      BestIsUnique(x, a, b);
    } else {
      BestIsUnique(v, a, b);
    }
  }

  /** Which choice it is if the power in front of the DPS port is known. */
  lemma ChoiceBehind(v: View, pd: int, dps: int, before: Pick, pick: Pick)
    requires v.WellFormed() && DpsSlot(v, pd, dps) && BestSoFar(v, before, pd, dps) && IsChoice(v, pd, dps, pick)
    ensures IsBest(Behind(v, pd, dps, PowerOf(v, before)), pick)
  {
    var w :| GoesOn(v, w, pd, dps) && IsBest(w, pick);
    GoesOnIsUnique(v, w, Behind(v, pd, dps, PowerOf(v, before)), pd, dps);
  }

  /** With the priorities of the program a dedicated charger of 5 W is chosen in place of a DPS port of 15 W. */
  lemma DedicatedGoesBeforeDps(pick: Pick)
    ensures var v := View([[Charge(3000, 5000), Charge(0, 0)], [Charge(0, 0), Charge(1000, 5000)]], [1, 0],
                          [true, true], [true, true], OVERRIDE_OFF, PORT_NONE);
            v.WellFormed() && DpsSlot(v, 0, 0) && (IsChoice(v, 0, 0, pick) ==> pick == Pick(1, 1))
  {
    var v := View([[Charge(3000, 5000), Charge(0, 0)], [Charge(0, 0), Charge(1000, 5000)]], [1, 0],
                  [true, true], [true, true], OVERRIDE_OFF, PORT_NONE);
    if IsChoice(v, 0, 0, pick) {
      assert BestSoFar(v, NoPick, 0, 0);
      ChoiceBehind(v, 0, 0, NoPick, pick);
      DpsIsChosenExactly(v, 0, 0, NoPick, pick);
      BehindEligible(v, 0, 0, -1, 1, 1);
      assert Eligible(v, 1, 1) && v.priority[1] < v.priority[0];
      assert pick.Pick?;
      BehindEligible(v, 0, 0, -1, pick.supplier, pick.port);
    }
  }

  /** Where no DPS port is selected the same holds for the choice of the scan. */
  lemma RejectingOthersWithoutDps(v: View, v': View, pd: int, dps: int, pick: Pick, rejected: set<int>)
    requires v.WellFormed() && v'.WellFormed() && !DpsSlot(v, pd, dps)
    requires IsChoice(v, pd, dps, pick) && pick.Pick? && pick.port !in rejected
    requires v' == v.(charge := v'.charge) && |v'.charge| == |v.charge|
    requires forall i, j :: Slot(v, i, j) ==> v'.charge[i][j] == if j in rejected then Charge(0, 0) else v.charge[i][j]
    ensures IsChoice(v', pd, dps, pick)
  {
    RejectingOthers(v, v', pick, rejected);
    assert Slot(v, pd, dps) == Slot(v', pd, dps);
  }

  // Three ports with two suppliers, of which DPS looks after port 1.
  const THREE_PORTS := View([[Charge(2, 1), Charge(5, 1), Charge(0, 0)], [Charge(0, 0), Charge(0, 0), Charge(1, 1)]], [1, 1],
                            [true, true, true], [true, true, true], OVERRIDE_OFF, PORT_NONE)
  const FIRST_CLEARED := THREE_PORTS.(charge := [[Charge(0, 0), Charge(5, 1), Charge(0, 0)],
                                                 [Charge(0, 0), Charge(0, 0), Charge(1, 1)]])

  lemma ChoiceOfThree(pick: Pick)
    requires IsChoice(THREE_PORTS, 0, 1, pick)
    ensures pick == Pick(0, 1)
  {
    var v := THREE_PORTS;
    assert Eligible(v, 0, 0) && Before(0, 0, 0, 1);
    assert BestSoFar(v, Pick(0, 0), 0, 1);
    ChoiceBehind(v, 0, 1, Pick(0, 0), pick);
    DpsIsChosenExactly(v, 0, 1, Pick(0, 0), pick);
  }

  lemma ChoiceOfCleared(pick: Pick)
    requires IsChoice(FIRST_CLEARED, 0, 1, pick)
    ensures pick == Pick(1, 2)
  {
    var v := FIRST_CLEARED;
    assert BestSoFar(v, NoPick, 0, 1);
    ChoiceBehind(v, 0, 1, NoPick, pick);
    DpsIsChosenExactly(v, 0, 1, NoPick, pick);
    BehindEligible(v, 0, 1, -1, 1, 2);
    assert Eligible(v, 1, 2);
    BehindEligible(v, 0, 1, -1, pick.supplier, pick.port);
  }

  /** With DPS it does not: clearing port 0, in front of the DPS port 1, moves the choice from this to port 2. */
  lemma RejectingMovesChoice(pick: Pick)
    ensures THREE_PORTS.WellFormed() && FIRST_CLEARED.WellFormed()
    ensures IsChoice(THREE_PORTS, 0, 1, pick) ==> pick == Pick(0, 1)
    ensures IsChoice(FIRST_CLEARED, 0, 1, pick) ==> pick == Pick(1, 2)
  {
    if IsChoice(THREE_PORTS, 0, 1, pick) {
      ChoiceOfThree(pick);
    }
    if IsChoice(FIRST_CLEARED, 0, 1, pick) {
      ChoiceOfCleared(pick);
    }
  }
}
