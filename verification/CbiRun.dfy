/** Whole runs of the Cros Board Info store over a working bus. */
module CbiRun {
  import opened Cbi
  import opened CbiFormat
  import opened Memory
  import opened Options

  datatype Command =
    | Set(tag: byte, value: seq<byte>, init: bool, noSync: bool)
    | Get(tag: byte, size: nat)
    | Invalidate

  datatype Reply = Answered(status: HostStatus) | Fetched(rv: EcError, value: seq<byte>) | Invalidated

  /** The records in the cache, if it is synced, and those in the EEPROM, if it passes the checks. */
  datatype View = View(cached: Option<seq<Item>>, stored: Option<seq<Item>>)

  /** Both are lists of valid records with unique tags. */
  ghost predicate Sound(v: View) {
    && (v.cached.Some? ==> ValidItems(v.cached.value) && UniqueTags(v.cached.value))
    && (v.stored.Some? ==> ValidItems(v.stored.value) && UniqueTags(v.stored.value))
  }

  datatype Setup = Setup(writeProtected: bool, systemUnlocked: bool, imageSize: nat)

  predicate Fits(c: Command) {
    c.Set? ==> |c.value| <= 255
  }

  /** What a read finds: the cache, which is loaded from the EEPROM if it is not synced. */
  function Loaded(v: View): Option<seq<Item>> {
    if v.cached.Some? then v.cached else v.stored
  }

  function SetStep(u: Setup, v: View, tag: byte, value: seq<byte>, init: bool, noSync: bool): (View, Reply)
    requires Sound(v) && |value| <= 255
  {
    var start := if init then Some([]) else Loaded(v);
    if (u.writeProtected && !noSync) || (!u.systemUnlocked && (tag == TAG_BOARD_VERSION || tag == TAG_OEM_ID)) then
      (v, Answered(HostAccessDenied))
    else if start.None? then (v, Answered(HostError))
    else
      match SetItems(start.value, tag, value, u.imageSize)
      case Done(items) => (View(Some(items), if noSync then v.stored else Some(items)), Answered(HostSuccess))
      case Overflow(items) =>
        (v.(cached := if init && v.cached.None? then None else Some(items)), Answered(HostInvalidParam))
  }

  function Outcome(found: Option<seq<byte>>, size: nat): Reply {
    if found.None? then Fetched(Unknown, [])
    else if size < |found.value| then Fetched(Inval, [])
    else Fetched(Success, found.value)
  }

  function GetStep(v: View, tag: byte, size: nat): (View, Reply) {
    var items := Loaded(v);
    var found := if items.Some? then Lookup(items.value, tag) else None;
    (v.(cached := items), Outcome(found, size))
  }

  /** One command, on records instead of bytes. */
  function Step(u: Setup, v: View, c: Command): (View, Reply)
    requires Sound(v) && Fits(c)
  {
    match c
    case Set(tag, value, init, noSync) => SetStep(u, v, tag, value, init, noSync)
    case Get(tag, size) => GetStep(v, tag, size)
    case Invalidate => (v.(cached := None), Invalidated)
  }

  lemma StepIsSound(u: Setup, v: View, c: Command)
    requires Sound(v) && Fits(c)
    ensures Sound(Step(u, v, c).0)
  {
    match c
    case Set(tag, value, init, _) =>
      var start := if init then Some([]) else Loaded(v);
      if start.Some? {
        SetIsUpdate(start.value, tag, value, u.imageSize, tag);
      }
    case _ =>
  }

  function Run(u: Setup, v: View, commands: seq<Command>): (r: (View, seq<Reply>))
    requires Sound(v) && forall c :: c in commands ==> Fits(c)
    ensures Sound(r.0) && |r.1| == |commands|
  {
    if commands == [] then (v, [])
    else
      var k := |commands| - 1;
      var (w, replies) := Run(u, v, commands[..k]);
      StepIsSound(u, w, commands[k]);
      var (x, reply) := Step(u, w, commands[k]);
      (x, replies + [reply])
  }

  /** What a set answers and does, for every tag that may be read afterwards. It starts from the records in the cache, or
      those in the EEPROM if the cache is not synced, or none if it is to start anew. */
  lemma SetDoes(u: Setup, v: View, c: Command, items: seq<Item>, k: nat, other: byte)
    requires Sound(v) && Fits(c) && c.Set? && k == IndexOf(items, c.tag)
    requires items == if c.init then [] else if v.cached.Some? then v.cached.value else if v.stored.Some? then v.stored.value else []
    ensures var (w, reply) := Step(u, v, c);
            if (u.writeProtected && !c.noSync) || (!u.systemUnlocked && (c.tag == 0 || c.tag == 1)) then
              reply == Answered(HostAccessDenied) && w == v
            else if !c.init && v.cached == None && v.stored == None then
              reply == Answered(HostError) && w == v
            else if (k < |items| && |items[k].value| == |c.value|) || 8 + |Pack(Without(items, k))| + 2 + |c.value| <= u.imageSize then
              && reply == Answered(HostSuccess) && w.cached.Some? && w.stored == (if c.noSync then v.stored else w.cached)
              && Lookup(w.cached.value, other)
                 == if other != c.tag then Lookup(items, other) else if c.value == [] then None else Some(c.value)
            else
              && reply == Answered(HostInvalidParam) && w.stored == v.stored
              && (w.cached == None <==> c.init && v.cached == None)
              && (w.cached.Some? ==> Lookup(w.cached.value, other) == if other == c.tag then None else Lookup(items, other))
  {
    SetIsUpdate(items, c.tag, c.value, u.imageSize, other);
  }

  ghost function SetupOf(store: Store): Setup
    reads store.eeprom
  {
    Setup(store.eeprom.writeProtected, store.systemUnlocked, store.cbi.Length)
  }

  /** Cache and EEPROM are in order, and the bus works. */
  ghost predicate InOrder(store: Store)
    reads store, store.cbi, store.eeprom, store.eeprom.data
  {
    store.Valid() && store.CacheOk() && store.StoredWell() && store.eeprom.busOk
  }

  ghost function ViewOf(store: Store): (v: View)
    requires InOrder(store)
    reads store, store.cbi, store.eeprom, store.eeprom.data
    ensures Sound(v)
  {
    View(if store.synced then Some(Records(store.cbi[..])) else None,
         if Check(store.eeprom.data[..], store.cbi.Length) == Success then Some(Records(store.eeprom.data[..])) else None)
  }

  method PerformSet(store: Store, tag: byte, value: seq<byte>, init: bool, noSync: bool) returns (reply: Reply)
    requires InOrder(store) && |value| <= 255
    modifies store, store.cbi, store.eeprom.data
    ensures InOrder(store)
    ensures (ViewOf(store), reply) == SetStep(SetupOf(store), old(ViewOf(store)), tag, value, init, noSync)
  {
    ghost var v := ViewOf(store);
    var status := store.CommonCbiSet(tag, value, init, noSync);
    reply := Answered(status);
  }

  lemma DeliveredOutcome(rv: EcError, outSize: nat, after: seq<byte>, found: Option<seq<byte>>, before: seq<byte>)
    requires Delivered(rv, outSize, after, found, before, |before|)
    ensures rv == Success ==> outSize <= |after|
    ensures Fetched(rv, if rv == Success then after[..outSize] else []) == Outcome(found, |before|)
  {
    if rv == Success {
      assert after[..outSize] == found.value;
    }
  }

  method PerformGet(store: Store, tag: byte, size: nat) returns (reply: Reply)
    requires InOrder(store)
    modifies store, store.cbi
    ensures InOrder(store)
    ensures (ViewOf(store), reply) == GetStep(old(ViewOf(store)), tag, size)
  {
    var buf := new byte[size];
    ghost var v, before := ViewOf(store), buf[..];
    var rv, outSize := store.GetBoardInfo(tag, buf, size);
    ghost var items := if store.synced then Some(Records(store.cbi[..])) else None;
    if !old(store.synced) && store.synced {
      store.LoadedIsWellFormed();
    }
    assert items == Loaded(v);
    DeliveredOutcome(rv, outSize, buf[..], if items.Some? then Lookup(items.value, tag) else None, before);
    reply := Fetched(rv, if rv == Success then buf[..outSize] else []);
  }

  /** Every sequence of sets, reads and invalidations keeps cache and EEPROM well-formed and answers
      as the same sequence on records does. */
  method RunCommands(store: Store, commands: seq<Command>) returns (replies: seq<Reply>)
    requires InOrder(store) && forall c :: c in commands ==> Fits(c)
    modifies store, store.cbi, store.eeprom.data
    ensures InOrder(store)
    ensures (ViewOf(store), replies) == Run(SetupOf(store), old(ViewOf(store)), commands)
  {
    ghost var u, v := SetupOf(store), ViewOf(store);
    replies := [];
    for i := 0 to |commands|
      invariant InOrder(store) && SetupOf(store) == u
      invariant (ViewOf(store), replies) == Run(u, v, commands[..i])
    {
      assert commands[..i + 1][..i] == commands[..i];
      assert Fits(commands[i]);
      var reply;
      match commands[i] {
        case Set(tag, value, init, noSync) => reply := PerformSet(store, tag, value, init, noSync);
        case Get(tag, size) => reply := PerformGet(store, tag, size);
        case Invalidate =>
          store.Invalidate();
          reply := Invalidated;
      }
      replies := replies + [reply];
    }
    assert commands[..|commands|] == commands;
  }

  /** The EEPROM has this for the tag, and so has the cache if it is synced. */
  ghost predicate Keeps(v: View, tag: byte, found: Option<seq<byte>>) {
    && v.stored.Some? && Lookup(v.stored.value, tag) == found
    && (v.cached.Some? ==> Lookup(v.cached.value, tag) == found)
  }

  predicate LeavesAlone(c: Command, tag: byte) {
    c.Set? ==> c.tag != tag && !c.init
  }

  lemma StepKeeps(u: Setup, v: View, c: Command, tag: byte, found: Option<seq<byte>>)
    requires Sound(v) && Fits(c) && Keeps(v, tag, found) && LeavesAlone(c, tag)
    ensures Keeps(Step(u, v, c).0, tag, found)
  {
    if c.Set? {
      SetIsUpdate(Loaded(v).value, c.tag, c.value, u.imageSize, tag);
    }
  }

  lemma {:induction false} RunKeeps(u: Setup, v: View, commands: seq<Command>, tag: byte, found: Option<seq<byte>>)
    requires Sound(v) && Keeps(v, tag, found)
    requires forall c :: c in commands ==> Fits(c) && LeavesAlone(c, tag)
    ensures Keeps(Run(u, v, commands).0, tag, found)
  {
    if commands != [] {
      var k := |commands| - 1;
      RunKeeps(u, v, commands[..k], tag, found);
      StepKeeps(u, Run(u, v, commands[..k]).0, commands[k], tag, found);
    }
  }

  /** What a successful synced set stores is read back after every run of commands that neither set
      this tag nor start anew, whatever they do to the cache. */
  lemma SetIsKept(u: Setup, v: View, update: Command, commands: seq<Command>, size: nat)
    requires Sound(v) && Fits(update) && update.Set? && !update.noSync && Step(u, v, update).1 == Answered(HostSuccess)
    requires forall c :: c in commands ==> Fits(c) && LeavesAlone(c, update.tag)
    ensures var w := Step(u, v, update).0;
            Sound(w) && GetStep(Run(u, w, commands).0, update.tag, size).1
                        == if update.value == [] then Fetched(Unknown, [])
                           else if size < |update.value| then Fetched(Inval, [])
                           else Fetched(Success, update.value)
  {
    var found := if update.value == [] then None else Some(update.value);
    var start := if update.init then [] else Loaded(v).value;
    StepIsSound(u, v, update);
    SetIsUpdate(start, update.tag, update.value, u.imageSize, update.tag);
    RunKeeps(u, Step(u, v, update).0, commands, update.tag, found);
  }
}
