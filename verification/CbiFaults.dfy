/** Runs of the Cros Board Info store over a bus that fails at times. */
module CbiFaults {
  import opened Cbi
  import opened CbiFormat
  import opened CbiRun
  import opened Memory
  import opened Options

  /** What the users of the store can rely on. Behind a failed write the EEPROM is torn: what it holds does not
      count, and the cache is synced. */
  datatype State = State(view: View, torn: bool)

  ghost predicate Consistent(s: State) {
    Sound(s.view) && (s.torn ==> s.view.cached.Some? && s.view.stored == None)
  }

  predicate Writes(c: Command, reply: Reply) {
    c.Set? && !c.noSync && reply == Answered(HostSuccess)
  }

  predicate Refused(u: Setup, c: Command) {
    c.Set? && ((u.writeProtected && !c.noSync)
               || (!u.systemUnlocked && (c.tag == TAG_BOARD_VERSION || c.tag == TAG_OEM_ID)))
  }

  /** The command has to load the cache first. */
  predicate Loads(u: Setup, s: State, c: Command) {
    s.view.cached == None && (c.Get? || (c.Set? && !c.init && !Refused(u, c)))
  }

  function LoadError(c: Command): Reply {
    if c.Set? then Answered(HostError) else Fetched(Unknown, [])
  }

  /** A command either does what it does over a working bus, or fails to load the cache and changes nothing, or
      fails to write and leaves the EEPROM torn. */
  predicate MayStep(u: Setup, s: State, c: Command, busOk: bool, t: State, reply: Reply)
    requires Sound(s.view) && Fits(c)
  {
    var (w, r) := Step(u, s.view, c);
    || (t == State(w, s.torn && !Writes(c, r)) && reply == r)
    || (!busOk && Loads(u, s, c) && t == s && reply == LoadError(c))
    || (!busOk && Writes(c, r) && t == State(View(w.cached, None), true) && reply == Answered(HostError))
  }

  /** Whatever the bus does, a set that is not allowed changes nothing, and one that starts anew or finds a synced cache
      fails only where it writes. */
  lemma FaultIs(u: Setup, s: State, c: Command, busOk: bool, t: State, reply: Reply)
    requires Sound(s.view) && Fits(c) && c.Set? && MayStep(u, s, c, busOk, t, reply)
    ensures (u.writeProtected && !c.noSync) || (!u.systemUnlocked && (c.tag == 0 || c.tag == 1)) ==>
              reply == Answered(HostAccessDenied) && t == s
    ensures reply == Answered(HostError) && (c.init || s.view.cached.Some?) ==> !busOk && !c.noSync
    ensures reply == Answered(HostError) ==> t == s || (t.torn && !busOk && !c.noSync)
    ensures reply == Answered(HostSuccess) && !c.noSync ==> !t.torn && t.view.stored == t.view.cached
  {
  }

  /** The store is in a state; the bus may work or not. */
  ghost predicate Shows(store: Store, s: State)
    reads store, store.cbi, store.eeprom, store.eeprom.data
  {
    && store.Valid() && store.CacheOk() && (!s.torn ==> store.StoredWell()) && (s.torn ==> store.synced)
    && s.view.cached == (if store.synced then Some(Records(store.cbi[..])) else None)
    && s.view.stored == (if !s.torn && Check(store.eeprom.data[..], store.cbi.Length) == Success
                         then Some(Records(store.eeprom.data[..])) else None)
  }

  lemma ShownIsConsistent(store: Store, s: State)
    requires Shows(store, s)
    ensures Consistent(s)
  {
  }

  method PerformSet(store: Store, c: Command, ghost s: State) returns (reply: Reply, ghost t: State)
    requires Shows(store, s) && Sound(s.view) && c.Set? && Fits(c)
    modifies store, store.cbi, store.eeprom.data
    ensures Shows(store, t) && MayStep(SetupOf(store), s, c, store.eeprom.busOk, t, reply)
  {
    var status := store.CommonCbiSet(c.tag, c.value, c.init, c.noSync);
    reply := Answered(status);
    ghost var torn := if status == HostError then store.synced else s.torn && !Writes(c, reply);
    t := State(View(if store.synced then Some(Records(store.cbi[..])) else None,
                    if !torn && Check(store.eeprom.data[..], store.cbi.Length) == Success
                    then Some(Records(store.eeprom.data[..])) else None), torn);
  }

  method PerformGet(store: Store, c: Command, ghost s: State) returns (reply: Reply, ghost t: State)
    requires Shows(store, s) && Sound(s.view) && c.Get?
    modifies store, store.cbi
    ensures Shows(store, t) && MayStep(SetupOf(store), s, c, store.eeprom.busOk, t, reply)
  {
    var buf := new byte[c.size];
    ghost var before := buf[..];
    var rv, outSize := store.GetBoardInfo(c.tag, buf, c.size);
    ghost var items := if store.synced then Some(Records(store.cbi[..])) else None;
    if !old(store.synced) && store.synced {
      store.LoadedIsWellFormed();
    }
    t := s.(view := s.view.(cached := items));
    DeliveredOutcome(rv, outSize, buf[..], if items.Some? then Lookup(items.value, c.tag) else None, before);
    reply := Fetched(rv, if rv == Success then buf[..outSize] else []);
  }

  /** Each command of a run does one of the things that it may do in its state. */
  ghost predicate MayRun(u: Setup, states: seq<State>, commands: seq<Command>, bus: seq<bool>, replies: seq<Reply>) {
    && |states| == |commands| + 1 && |bus| == |replies| == |commands|
    && (forall i :: 0 <= i < |states| ==> Consistent(states[i]))
    && (forall i :: 0 <= i < |commands| ==> Fits(commands[i]) && !commands[i].Invalidate?)
    && (forall i :: 0 <= i < |commands| ==> MayStep(u, states[i], commands[i], bus[i], states[i + 1], replies[i]))
  }

  method Perform(store: Store, c: Command, ghost s: State) returns (reply: Reply, ghost t: State)
    requires Shows(store, s) && Fits(c) && !c.Invalidate?
    modifies store, store.cbi, store.eeprom.data
    ensures Shows(store, t) && Consistent(s) && Consistent(t)
    ensures MayStep(SetupOf(store), s, c, store.eeprom.busOk, t, reply)
  {
    ShownIsConsistent(store, s);
    if c.Set? {
      reply, t := PerformSet(store, c, s);
    } else {
      reply, t := PerformGet(store, c, s);
    }
    ShownIsConsistent(store, t);
  }

  lemma RunsOn(u: Setup, states: seq<State>, commands: seq<Command>, bus: seq<bool>, replies: seq<Reply>, i: nat,
               t: State, reply: Reply)
    requires i < |commands| == |bus| && MayRun(u, states, commands[..i], bus[..i], replies)
    requires Fits(commands[i]) && !commands[i].Invalidate? && Consistent(t)
    requires MayStep(u, states[i], commands[i], bus[i], t, reply)
    ensures MayRun(u, states + [t], commands[..i + 1], bus[..i + 1], replies + [reply])
  {
    assert commands[..i + 1] == commands[..i] + [commands[i]] && bus[..i + 1] == bus[..i] + [bus[i]];
  }

  /** Whenever the bus fails, a run of sets and reads is one of those that may be. */
  method RunWithFaults(store: Store, commands: seq<Command>, bus: seq<bool>, ghost s: State)
    returns (replies: seq<Reply>, ghost states: seq<State>)
    requires Shows(store, s) && |bus| == |commands|
    requires forall c :: c in commands ==> Fits(c) && !c.Invalidate?
    modifies store, store.cbi, store.eeprom, store.eeprom.data
    ensures MayRun(old(SetupOf(store)), states, commands, bus, replies)
    ensures states[0] == s && Shows(store, states[|commands|])
  {
    ghost var u := SetupOf(store);
    replies, states := [], [s];
    ShownIsConsistent(store, s);
    for i := 0 to |commands|
      invariant |states| == i + 1 && states[0] == s && SetupOf(store) == u && Shows(store, states[i])
      invariant MayRun(u, states, commands[..i], bus[..i], replies)
    {
      assert Fits(commands[i]) && !commands[i].Invalidate?;
      store.eeprom.busOk := bus[i];
      var reply;
      ghost var t;
      reply, t := Perform(store, commands[i], states[i]);
      RunsOn(u, states, commands, bus, replies, i, t, reply);
      replies, states := replies + [reply], states + [t];
    }
    assert commands[..|commands|] == commands && bus[..|commands|] == bus;
  }

  /** Cache and EEPROM have this for the tag, as far as they count. */
  ghost predicate Has(s: State, tag: byte, found: Option<seq<byte>>) {
    && (s.view.cached.Some? ==> Lookup(s.view.cached.value, tag) == found)
    && (!s.torn ==> s.view.stored.Some? && Lookup(s.view.stored.value, tag) == found)
  }

  lemma StepHas(u: Setup, s: State, c: Command, busOk: bool, t: State, reply: Reply, tag: byte, found: Option<seq<byte>>)
    requires Consistent(s) && Fits(c) && !c.Invalidate? && MayStep(u, s, c, busOk, t, reply)
    requires Has(s, tag, found) && LeavesAlone(c, tag)
    ensures Has(t, tag, found)
    ensures c.Get? && c.tag == tag ==>
              reply == Outcome(found, c.size) || (!busOk && s.view.cached == None && reply == Fetched(Unknown, []))
  {
    if c.Set? {
      SetIsUpdate(Loaded(s.view).value, c.tag, c.value, u.imageSize, tag);
    }
  }

  lemma NextHas(u: Setup, states: seq<State>, commands: seq<Command>, bus: seq<bool>, replies: seq<Reply>,
                i: nat, tag: byte, found: Option<seq<byte>>)
    requires MayRun(u, states, commands, bus, replies) && i < |commands|
    requires Has(states[i], tag, found) && LeavesAlone(commands[i], tag)
    ensures Has(states[i + 1], tag, found)
  {
    StepHas(u, states[i], commands[i], bus[i], states[i + 1], replies[i], tag, found);
  }

  lemma {:induction false} RunHas(u: Setup, states: seq<State>, commands: seq<Command>, bus: seq<bool>, replies: seq<Reply>,
                                  i: nat, j: nat, tag: byte, found: Option<seq<byte>>)
    requires MayRun(u, states, commands, bus, replies) && i <= j <= |commands| && Has(states[i], tag, found)
    requires forall k :: i <= k < j ==> LeavesAlone(commands[k], tag)
    ensures Has(states[j], tag, found)
    decreases j - i
  {
    if i < j {
      NextHas(u, states, commands, bus, replies, i, tag, found);
      RunHas(u, states, commands, bus, replies, i + 1, j, tag, found);
    }
  }

  /** A write that is answered with success stores the value. */
  lemma WriteHas(u: Setup, s: State, c: Command, busOk: bool, t: State, reply: Reply)
    requires Consistent(s) && Fits(c) && MayStep(u, s, c, busOk, t, reply) && Writes(c, reply)
    ensures Has(t, c.tag, if c.value == [] then None else Some(c.value))
  {
    var start := if c.init then Some([]) else Loaded(s.view);
    if start.Some? {
      SetIsUpdate(start.value, c.tag, c.value, u.imageSize, c.tag);
    }
  }

  /** In every such run: behind a synced set that was answered with success, reads of its tag find its value until
      the tag is set again or a set starts anew, except where the bus does not let them load the cache. */
  lemma SetIsKeptThroughFaults(u: Setup, states: seq<State>, commands: seq<Command>, bus: seq<bool>, replies: seq<Reply>,
                               i: nat, j: nat)
    requires MayRun(u, states, commands, bus, replies) && i < j < |commands|
    requires Writes(commands[i], replies[i]) && commands[j].Get? && commands[j].tag == commands[i].tag
    requires forall k :: i < k < j ==> LeavesAlone(commands[k], commands[i].tag)
    ensures var found := if commands[i].value == [] then None else Some(commands[i].value);
            || replies[j] == (if found.None? then Fetched(Unknown, [])
                              else if commands[j].size < |found.value| then Fetched(Inval, [])
                              else Fetched(Success, found.value))
            || (!bus[j] && states[j].view.cached == None && replies[j] == Fetched(Unknown, []))
  {
    var c := commands[i];
    var found := if c.value == [] then None else Some(c.value);
    WriteHas(u, states[i], c, bus[i], states[i + 1], replies[i]);
    RunHas(u, states, commands, bus, replies, i + 1, j, c.tag, found);
    StepHas(u, states[j], commands[j], bus[j], states[j + 1], replies[j], c.tag, found);
  }

  /** A set that has failed for the bus can be repeated: over a working bus it does what it would have done in the
      first place, and mends a torn EEPROM. */
  lemma RetryMends(u: Setup, s: State, c: Command, t: State)
    requires Consistent(s) && Consistent(t) && Fits(c) && Writes(c, Step(u, s.view, c).1)
    requires MayStep(u, s, c, false, t, Answered(HostError))
    ensures Step(u, t.view, c) == Step(u, s.view, c)
  {
    var start := if c.init then Some([]) else Loaded(s.view);
    if start.Some? {
      SetTwice(start.value, c.tag, c.value, u.imageSize);
    }
  }
}
