/**
 Clients that only use caprefs they hold: storing and loading capabilities creates no authority.
 */
module Authority {
  import opened Words
  import opened Capabilities
  import opened Layout
  import opened TaggedMemory
  import Traces
  import Isolation

  /** The store together with the caprefs its clients hold. */
  datatype State = State(mem: Mem, held: set<capref>)

  /** The caprefs that can be loaded from the tagged slots. */
  ghost function Stored(cfg: Config, m: Mem): set<capref>
    requires IsMem(cfg, m)
  {
    set s | s in m.tags :: LoadedCapref(SlotBytes(m, s))
  }

  ghost function Reach(cfg: Config, st: State): set<capref>
    requires IsMem(cfg, st.mem)
  {
    st.held + Stored(cfg, st.mem)
  }

  function Uses(op: Op): set<capref> {
    if op.PutCap? then {op.cap, op.stored} else {op.cap}
  }

  /** The effect of a step on what the slots hold: nothing new but a capref the client passed in. */
  lemma StoredAfter(cfg: Config, m: Mem, e: Effect)
    requires IsMem(cfg, m) && e.Fits(cfg)
    ensures Stored(cfg, Apply(cfg, m, e)) <= Stored(cfg, m) + if e.Store? then {LoadedCapref(e.bytes)} else {}
  {
    var after := Apply(cfg, m, e);
    forall r | r in Stored(cfg, after)
      ensures r in Stored(cfg, m) + if e.Store? then {LoadedCapref(e.bytes)} else {}
    {
      var s :| s in after.tags && r == LoadedCapref(SlotBytes(after, s));
      if e.Touches(s) {
        assert SlotBytes(after, s) == e.bytes;
      } else {
        Traces.SlotKept(cfg, m, e, s);
      }
    }
  }

  /** A load yields a capref that was stored in a tagged slot. */
  lemma LoadedWasStored(cfg: Config, m: Mem, c: Capability, offset: int)
    requires IsMem(cfg, m)
    ensures var response := GetResponse(cfg, m, c, offset);
            response.Loaded? ==> response.cap in Stored(cfg, m)
  {
    var response := GetResponse(cfg, m, c, offset);
    if response.Loaded? {
      var s := (c.base + offset) / 8;
      assert s in m.tags && response.cap == LoadedCapref(SlotBytes(m, s));
    }
  }

  function Next(cfg: Config, st: State, op: Op): State
    requires IsMem(cfg, st.mem) && OpFits(cfg, op)
  {
    var response := Respond(cfg, st.mem, op);
    State(Step(cfg, st.mem, op), if response.Loaded? then st.held + {response.cap} else st.held)
  }

  /** A step that uses only what is held keeps what is held or stored within what was. */
  lemma StepCreatesNoAuthority(cfg: Config, st: State, op: Op)
    requires IsMem(cfg, st.mem) && OpFits(cfg, op) && Uses(op) <= st.held
    ensures Reach(cfg, Next(cfg, st, op)) <= Reach(cfg, st)
  {
    StoredAfter(cfg, st.mem, EffectOf(cfg, op));
    if op.PutCap? {
      StoreLoadRoundTrip(op.stored);
    }
    if op.GetCap? {
      LoadedWasStored(cfg, st.mem, FromCapref(op.cap), op.offset);
    }
  }

  /** Each operation of the run uses only what its clients hold by then, and trips no assertion. */
  ghost predicate UsesOnlyHeld(cfg: Config, st: State, ops: seq<Op>)
    requires IsMem(cfg, st.mem)
    decreases |ops|
  {
    ops == [] ||
    (Uses(ops[0]) <= st.held && OpFits(cfg, ops[0]) && UsesOnlyHeld(cfg, Next(cfg, st, ops[0]), ops[1..]))
  }

  ghost function Play(cfg: Config, st: State, ops: seq<Op>): (st': State)
    requires IsMem(cfg, st.mem) && UsesOnlyHeld(cfg, st, ops)
    ensures IsMem(cfg, st'.mem)
    decreases |ops|
  {
    if ops == [] then st else Play(cfg, Next(cfg, st, ops[0]), ops[1..])
  }

  /** No run creates authority: what is held and stored at its end was held or stored at its start. */
  lemma {:induction false} NoAuthorityCreated(cfg: Config, st: State, ops: seq<Op>)
    requires IsMem(cfg, st.mem) && UsesOnlyHeld(cfg, st, ops)
    ensures Reach(cfg, Play(cfg, st, ops)) <= Reach(cfg, st)
    decreases |ops|
  {
    if ops == [] {
    } else {
      StepCreatesNoAuthority(cfg, st, ops[0]);
      NoAuthorityCreated(cfg, Next(cfg, st, ops[0]), ops[1..]);
    }
  }

  // --- the same of runs, and of the file

  lemma {:induction false} RunFromFront(cfg: Config, m: Mem, ops: seq<Op>)
    requires IsMem(cfg, m) && AllFit(cfg, ops) && ops != []
    ensures Run(cfg, m, ops) == Run(cfg, Step(cfg, m, ops[0]), ops[1..])
    decreases |ops|
  {
    var k := |ops| - 1;
    if k == 0 {
      assert ops[..k] == [] && ops[1..] == [];
    } else {
      RunFromFront(cfg, m, ops[..k]);
      assert ops[..k][1..] == ops[1..][..k - 1];
    }
  }

  lemma ResponseFromFront(cfg: Config, m: Mem, ops: seq<Op>, i: nat)
    requires IsMem(cfg, m) && AllFit(cfg, ops) && i + 1 < |ops|
    ensures ResponseAt(cfg, m, ops, i + 1) == ResponseAt(cfg, Step(cfg, m, ops[0]), ops[1..], i)
  {
    RunFromFront(cfg, m, ops[..i + 1]);
    assert ops[..i + 1][1..] == ops[1..][..i];
  }

  lemma {:induction false} OnlyHeldFits(cfg: Config, st: State, ops: seq<Op>)
    requires IsMem(cfg, st.mem) && UsesOnlyHeld(cfg, st, ops)
    ensures AllFit(cfg, ops)
    decreases |ops|
  {
    if ops == [] {
    } else {
      OnlyHeldFits(cfg, Next(cfg, st, ops[0]), ops[1..]);
      assert ops == [ops[0]] + ops[1..];
    }
  }

  /** What clients play is the run of the tagged memory. */
  lemma {:induction false} PlayIsRun(cfg: Config, st: State, ops: seq<Op>)
    requires IsMem(cfg, st.mem) && UsesOnlyHeld(cfg, st, ops)
    ensures AllFit(cfg, ops) && Play(cfg, st, ops).mem == Run(cfg, st.mem, ops)
    decreases |ops|
  {
    OnlyHeldFits(cfg, st, ops);
    if ops == [] {
    } else {
      RunFromFront(cfg, st.mem, ops);
      PlayIsRun(cfg, Next(cfg, st, ops[0]), ops[1..]);
    }
  }

  /** Every capref that is used or stored was within reach at the start. */
  lemma {:induction false} UsedWasInReach(cfg: Config, st: State, ops: seq<Op>, op: Op)
    requires IsMem(cfg, st.mem) && UsesOnlyHeld(cfg, st, ops) && op in ops
    ensures Uses(op) <= Reach(cfg, st)
    decreases |ops|
  {
    if op == ops[0] {
    } else {
      assert op in ops[1..];
      StepCreatesNoAuthority(cfg, st, ops[0]);
      UsedWasInReach(cfg, Next(cfg, st, ops[0]), ops[1..], op);
    }
  }

  /**
   Authority and confinement together, on the file: whatever clients do with the caprefs they
   hold, a byte that changes, data or bitmap, stands for an address of a writable capability
   that was held or stored at the start.
   */
  lemma ChangesAreAuthorised(cfg: Config, before: seq<byte>, held: set<capref>, ops: seq<Op>, after: seq<byte>, i: nat)
    requires Leads(cfg, before, ops, after) && i < cfg.TotalSize() && before[i] != after[i]
    requires UsesOnlyHeld(cfg, State(Abs(cfg, before), held), ops)
    ensures exists r, addr: nat :: r in Reach(cfg, State(Abs(cfg, before), held)) &&
              FromCapref(r).Writable() && FromCapref(r).Contains(addr) && Isolation.StandsFor(cfg, i, addr)
  {
    Isolation.FileConfined(cfg, before, ops, after, i);
    var op, addr: nat :| op in ops && Isolation.AccountsFor(cfg, op, addr, i);
    UsedWasInReach(cfg, State(Abs(cfg, before), held), ops, op);
    assert op.cap in Reach(cfg, State(Abs(cfg, before), held));
  }

  /** And every capref that an operation of the run loads was held or stored at the start. */
  lemma {:induction false} LoadsAreAuthorised(cfg: Config, st: State, ops: seq<Op>, i: nat)
    requires IsMem(cfg, st.mem) && UsesOnlyHeld(cfg, st, ops) && i < |ops|
    ensures AllFit(cfg, ops)
    ensures ResponseAt(cfg, st.mem, ops, i).Loaded? ==> ResponseAt(cfg, st.mem, ops, i).cap in Reach(cfg, st)
    decreases |ops|
  {
    OnlyHeldFits(cfg, st, ops);
    if i == 0 {
      var cap := ops[0].cap;
      if ops[0].GetCap? {
        LoadedWasStored(cfg, st.mem, FromCapref(cap), ops[0].offset);
      }
    } else {
      ResponseFromFront(cfg, st.mem, ops, i - 1);
      StepCreatesNoAuthority(cfg, st, ops[0]);
      LoadsAreAuthorised(cfg, Next(cfg, st, ops[0]), ops[1..], i - 1);
    }
  }

  /** Clients come to hold exactly what they held and what operations of the run have loaded. */
  lemma {:induction false} HeldIsLoaded(cfg: Config, st: State, ops: seq<Op>, r: capref)
    requires IsMem(cfg, st.mem) && UsesOnlyHeld(cfg, st, ops)
    ensures AllFit(cfg, ops)
    ensures r in Play(cfg, st, ops).held
            <==> r in st.held || exists i: nat | i < |ops| :: ResponseAt(cfg, st.mem, ops, i) == Loaded(r)
    decreases |ops|
  {
    OnlyHeldFits(cfg, st, ops);
    if ops == [] {
    } else {
      var next := Next(cfg, st, ops[0]);
      HeldIsLoaded(cfg, next, ops[1..], r);
      assert ResponseAt(cfg, st.mem, ops, 0) == Respond(cfg, st.mem, ops[0]);
      forall i: nat | i < |ops| - 1
        ensures ResponseAt(cfg, st.mem, ops, i + 1) == ResponseAt(cfg, next.mem, ops[1..], i)
      {
        ResponseFromFront(cfg, st.mem, ops, i);
      }
      if i: nat :| i < |ops| && ResponseAt(cfg, st.mem, ops, i) == Loaded(r) {
        if i > 0 {
          assert ResponseAt(cfg, next.mem, ops[1..], i - 1) == Loaded(r);
        }
      }
    }
  }

  // --- the root

  /** Everything within reach lies in the store. */
  ghost predicate InStore(cfg: Config, st: State)
    requires IsMem(cfg, st.mem)
  {
    forall r | r in Reach(cfg, st) :: CapFits(cfg, r)
  }

  /** Then a client that uses only what it holds trips no assertion, and it stays that way. */
  lemma InStoreTripsNoAssertion(cfg: Config, st: State, op: Op)
    requires IsMem(cfg, st.mem) && InStore(cfg, st) && Uses(op) <= st.held
    ensures OpFits(cfg, op) && InStore(cfg, Next(cfg, st, op))
  {
    assert op.cap in Reach(cfg, st);
    CapFitsOpFits(cfg, op);
    StepCreatesNoAuthority(cfg, st, op);
  }

  /** The root capability starts at address 0 and ends where the store ends. */
  lemma RootSize(cfg: Config)
    requires cfg.Valid()
    ensures RootCapability(cfg).base == 0 && RootCapability(cfg).End() == cfg.Size()
  {
    assert cfg.sizeBits % 64 == cfg.sizeBits;
  }

  lemma RootCoversStore(cfg: Config)
    requires cfg.Valid()
    ensures FromCapref(ToCapref(RootCapability(cfg))) == RootCapability(cfg)
    ensures CapFits(cfg, ToCapref(RootCapability(cfg)))
  {
    RootSize(cfg);
    CapabilityRoundTrip(RootCapability(cfg));
  }

  /** From a fresh store and the root capability, no run ever yields any other capability. */
  lemma OnlyRootFromRoot(cfg: Config, ops: seq<Op>)
    requires cfg.Valid()
    ensures var root := ToCapref(RootCapability(cfg));
            var st := State(ZeroMem(cfg), {root});
            && InStore(cfg, st)
            && (UsesOnlyHeld(cfg, st, ops) ==> Reach(cfg, Play(cfg, st, ops)) <= {root})
  {
    var root := ToCapref(RootCapability(cfg));
    var st := State(ZeroMem(cfg), {root});
    RootCoversStore(cfg);
    assert Reach(cfg, st) == {root};
    if UsesOnlyHeld(cfg, st, ops) {
      NoAuthorityCreated(cfg, st, ops);
    }
  }
}
