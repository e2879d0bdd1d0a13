/** Runs of capability operations over any number of tables of any width, with capabilities
    parked between a detach and an attach.

    `Step` moves the tables. `Observe` keeps a ledger from what callers can see alone: the
    operation, and the handle it returned. The theorems say that the two always agree. */
module CapabilityRuns {
  import opened Words
  import opened RightsAlgebra
  import opened CapabilityTable

  datatype System<O> = System(tables: seq<Table<O>>, parked: seq<Cap<O>>) {
    ghost predicate Indexed() {
      forall i :: 0 <= i < |tables| ==> tables[i].Indexed()
    }
  }

  /** `Mint` is an allocation for a new capability; `Attach` installs the parked pair `k`. */
  datatype Op<O> =
    | Mint(t: nat, c: Cap<O>)
    | Dup(t: nat, h: Handle)
    | Narrow(t: nat, h: Handle, mask: Rights)
    | Revoke(t: nat, h: Handle)
    | Transfer(t: nat, h: Handle, dst: nat)
    | Detach(t: nat, h: Handle)
    | Attach(t: nat, k: nat)
  {
    /** Names existing tables and parked pairs, and two distinct tables for a move (the two
        exclusive borrows of `transfer_to`). */
    predicate Applies(tables: nat, parked: nat) {
      && t < tables
      && (Transfer? ==> dst < tables && dst != t)
      && (Attach? ==> k < parked)
    }

    /** The table in which a handle may be issued. */
    function Target(): nat {
      if Transfer? then dst else t
    }
  }

  /** One operation: the new system, and the handle returned by it if any. An operation that
      does not apply changes nothing. */
  function Step<O>(s: System<O>, op: Op<O>): (r: (System<O>, Option<Handle>))
    requires s.Indexed()
    ensures r.0.Indexed() && |r.0.tables| == |s.tables|
  {
    if !op.Applies(|s.tables|, |s.parked|) then (s, None) else
    var tab := s.tables[op.t];
    match op
    case Mint(t, c) => var (tab', out) := tab.Alloc(c); (s.(tables := s.tables[t := tab']), out)
    case Dup(t, h) => var (tab', out) := tab.Dup(h); (s.(tables := s.tables[t := tab']), out)
    case Narrow(t, h, mask) => var (tab', out) := tab.Narrow(h, mask); (s.(tables := s.tables[t := tab']), out)
    case Revoke(t, h) => (s.(tables := s.tables[t := tab.Revoke(h).0]), None)
    case Transfer(t, h, dst) =>
      var (tab', dst', out) := tab.TransferTo(h, s.tables[dst]);
      (s.(tables := s.tables[t := tab'][dst := dst']), out)
    case Detach(t, h) =>
      var (tab', out) := tab.Detach(h);
      (System(s.tables[t := tab'], if out.Ok? then s.parked + [out.value] else s.parked), None)
    case Attach(t, k) =>
      var (tab', out) := tab.Alloc(s.parked[k]);
      (System(s.tables[t := tab'], if out.Some? then s.parked[..k] + s.parked[k + 1..] else s.parked), out)
  }

  /** Some minted capability for the same object has all the rights of `c`. */
  ghost predicate Within<O>(c: Cap<O>, minted: set<Cap<O>>) {
    exists m :: m in minted && m.obj == c.obj && c.rights.IsSubsetOf(m.rights)
  }

  lemma WithinWhenNarrowed<O>(c: Cap<O>, mask: Rights, minted: set<Cap<O>>)
    requires Within(c, minted)
    ensures Within(Cap(c.obj, c.rights.Intersect(mask)), minted)
  {
    var m :| m in minted && m.obj == c.obj && c.rights.IsSubsetOf(m.rights);
    IntersectIsLower(c.rights, mask);
    SubsetIsTransitive(c.rights.Intersect(mask), c.rights, m.rights);
  }

  lemma WithinItself<O>(c: Cap<O>, minted: set<Cap<O>>)
    requires c in minted
    ensures Within(c, minted)
  {
    IntersectIsLower(c.rights, c.rights);
    assert c.rights.bits & c.rights.bits == c.rights.bits;
  }

  lemma WithinMore<O>(c: Cap<O>, minted: set<Cap<O>>, minted': set<Cap<O>>)
    requires Within(c, minted) && minted <= minted'
    ensures Within(c, minted')
  {
    var m :| m in minted && m.obj == c.obj && c.rights.IsSubsetOf(m.rights);
  }

  /** Per table its history; the parked pairs; and every capability ever minted. */
  datatype Ledger<O(==)> = Ledger(hists: seq<History<O>>, parked: seq<Cap<O>>, minted: set<Cap<O>>) {
    /** No capability, held or parked, exceeds what its object was minted with. */
    ghost predicate NothingAmplified() {
      && (forall t, h :: 0 <= t < |hists| && h in hists[t].live ==> Within(hists[t].live[h], minted))
      && (forall k :: 0 <= k < |parked| ==> Within(parked[k], minted))
    }
  }

  ghost function Observe<O>(l: Ledger<O>, op: Op<O>, out: Option<Handle>): Ledger<O> {
    if !op.Applies(|l.hists|, |l.parked|) then l else
    var hist := l.hists[op.t];
    match op
    case Mint(t, c) =>
      if out.None? then l
      else l.(hists := l.hists[t := hist.Issue(out.value, c)], minted := l.minted + {c})
    case Dup(t, h) =>
      if out.None? || h !in hist.live then l
      else l.(hists := l.hists[t := hist.Issue(out.value, hist.live[h])])
    case Narrow(t, h, mask) =>
      if out.None? || h !in hist.live then l
      else l.(hists := l.hists[t := hist.Issue(out.value,
                         Cap(hist.live[h].obj, hist.live[h].rights.Intersect(mask)))])
    case Revoke(t, h) =>
      if h !in hist.live then l else l.(hists := l.hists[t := hist.Free(h)])
    case Transfer(t, h, dst) =>
      if out.None? || h !in hist.live then l
      else l.(hists := l.hists[t := hist.Free(h)][dst := l.hists[dst].Issue(out.value, hist.live[h])])
    case Detach(t, h) =>
      if h !in hist.live then l
      else l.(hists := l.hists[t := hist.Free(h)], parked := l.parked + [hist.live[h]])
    case Attach(t, k) =>
      if out.None? then l
      else l.(hists := l.hists[t := hist.Issue(out.value, l.parked[k])],
              parked := l.parked[..k] + l.parked[k + 1..])
  }

  ghost predicate TableAgrees<O>(tab: Table<O>, hist: History<O>) {
    tab.Inv() && tab.cap <= TWO32 && tab.Refines(hist)
  }

  ghost predicate Agrees<O>(s: System<O>, l: Ledger<O>) {
    && |s.tables| == |l.hists|
    && s.parked == l.parked
    && forall i :: 0 <= i < |s.tables| ==> TableAgrees(s.tables[i], l.hists[i])
  }

  /** Allocating `c` in table `t`, and what the ledger makes of it. */
  lemma InstallAgrees<O>(s: System<O>, l: Ledger<O>, t: nat, c: Cap<O>)
    requires Agrees(s, l) && t < |s.tables| && s.tables[t].Indexed()
    ensures var (tab', out) := s.tables[t].Alloc(c);
            && (out.Some? ==> out.value !in l.hists[t].issued)
            && Agrees(s.(tables := s.tables[t := tab']),
                      if out.Some? then l.(hists := l.hists[t := l.hists[t].Issue(out.value, c)]) else l)
  {
    assert TableAgrees(s.tables[t], l.hists[t]);
    AllocIssuesFresh(s.tables[t], l.hists[t], c);
  }

  lemma AllocStepAgrees<O>(s: System<O>, l: Ledger<O>, op: Op<O>)
    requires s.Indexed() && Agrees(s, l) && op.Applies(|s.tables|, |s.parked|)
    requires op.Mint? || op.Dup? || op.Narrow? || op.Attach?
    ensures Agrees(Step(s, op).0, Observe(l, op, Step(s, op).1))
    ensures Step(s, op).1.Some? ==> Step(s, op).1.value !in l.hists[op.t].issued
  {
    var tab := s.tables[op.t];
    assert TableAgrees(tab, l.hists[op.t]);
    if op.Mint? {
      InstallAgrees(s, l, op.t, op.c);
    } else if op.Attach? {
      InstallAgrees(s, l, op.t, s.parked[op.k]);
    } else if tab.Live(op.h).Ok? {
      var c := tab.CapAt(op.h.Slot());
      LiveMeansHeld(tab, l.hists[op.t], op.h);
      InstallAgrees(s, l, op.t, if op.Dup? then c else Cap(c.obj, c.rights.Intersect(op.mask)));
    }
  }

  /** Vacating the slot of a live handle of table `t`, and what the ledger makes of it. */
  lemma VacateAgrees<O>(s: System<O>, l: Ledger<O>, t: nat, h: Handle)
    requires Agrees(s, l) && t < |s.tables| && s.tables[t].Live(h).Ok?
    ensures h in l.hists[t].live && l.hists[t].live[h] == s.tables[t].CapAt(h.Slot())
    ensures Agrees(s.(tables := s.tables[t := s.tables[t].FreeSlot(h.Slot())]),
                   l.(hists := l.hists[t := l.hists[t].Free(h)]))
  {
    assert TableAgrees(s.tables[t], l.hists[t]);
    FreeKillsOne(s.tables[t], l.hists[t], h);
  }

  lemma FreeStepAgrees<O>(s: System<O>, l: Ledger<O>, op: Op<O>)
    requires s.Indexed() && Agrees(s, l) && op.Applies(|s.tables|, |s.parked|)
    requires op.Revoke? || op.Detach?
    ensures Agrees(Step(s, op).0, Observe(l, op, Step(s, op).1))
  {
    assert TableAgrees(s.tables[op.t], l.hists[op.t]);
    if s.tables[op.t].Live(op.h).Ok? {
      VacateAgrees(s, l, op.t, op.h);
    }
  }

  lemma TransferStepAgrees<O>(s: System<O>, l: Ledger<O>, op: Op<O>)
    requires s.Indexed() && Agrees(s, l) && op.Applies(|s.tables|, |s.parked|)
    requires op.Transfer?
    ensures Agrees(Step(s, op).0, Observe(l, op, Step(s, op).1))
    ensures Step(s, op).1.Some? ==> Step(s, op).1.value !in l.hists[op.dst].issued
  {
    var tab := s.tables[op.t];
    assert TableAgrees(tab, l.hists[op.t]);
    if tab.Live(op.h).Ok? {
      var c := tab.CapAt(op.h.Slot());
      VacateAgrees(s, l, op.t, op.h);
      InstallAgrees(s.(tables := s.tables[op.t := tab.FreeSlot(op.h.Slot())]),
                    l.(hists := l.hists[op.t := l.hists[op.t].Free(op.h)]), op.dst, c);
    }
  }

  /** One step, whatever the operation: the ledger keeps agreeing with the tables, and a
      handle that comes out was never seen before in the table it came from. */
  lemma StepAgrees<O>(s: System<O>, l: Ledger<O>, op: Op<O>)
    requires s.Indexed() && Agrees(s, l)
    ensures Agrees(Step(s, op).0, Observe(l, op, Step(s, op).1))
    ensures Step(s, op).1.Some? ==>
              op.Target() < |l.hists| && Step(s, op).1.value !in l.hists[op.Target()].issued
  {
    if op.Applies(|s.tables|, |s.parked|) {
      if op.Transfer? {
        TransferStepAgrees(s, l, op);
      } else if op.Revoke? || op.Detach? {
        FreeStepAgrees(s, l, op);
      } else {
        AllocStepAgrees(s, l, op);
      }
    }
  }

  /** Which operations hand out a handle, told from the ledger and the retired slots: a mint or an
      attach while there is room, a copy or a move of a live handle while the target has room. */
  lemma StepSucceedsIff<O>(s: System<O>, l: Ledger<O>, op: Op<O>)
    requires s.Indexed() && Agrees(s, l) && op.Applies(|s.tables|, |s.parked|)
    ensures Step(s, op).1.Some? <==>
            && !op.Revoke? && !op.Detach?
            && (op.Dup? || op.Narrow? || op.Transfer? ==> op.h in l.hists[op.t].live)
            && HasRoom(s.tables[op.Target()], l.hists[op.Target()])
  {
    var t := op.Target();
    assert TableAgrees(s.tables[t], l.hists[t]) && TableAgrees(s.tables[op.t], l.hists[op.t]);
    LiveCount(s.tables[t], l.hists[t]);
    SlotsPartition(s.tables[t]);
    if op.Dup? || op.Narrow? || op.Transfer? {
      LiveMeansHeld(s.tables[op.t], l.hists[op.t], op.h);
    }
  }

  /** Detaching and attaching elsewhere, when there is room, is moving. */
  lemma CarryIsTransfer<O>(s: System<O>, l: Ledger<O>, t: nat, h: Handle, dst: nat)
    requires s.Indexed() && Agrees(s, l) && t < |s.tables| && dst < |s.tables| && dst != t
    requires h in l.hists[t].live && HasRoom(s.tables[dst], l.hists[dst])
    ensures var s1 := Step(s, Detach(t, h)).0;
            && |s1.parked| == |s.parked| + 1
            && Step(s1, Attach(dst, |s.parked|)) == Step(s, Transfer(t, h, dst))
  {
    assert TableAgrees(s.tables[t], l.hists[t]) && TableAgrees(s.tables[dst], l.hists[dst]);
    LiveMeansHeld(s.tables[t], l.hists[t], h);
    LiveCount(s.tables[dst], l.hists[dst]);
    TransferIsDetachThenAttach(s.tables[t], h, s.tables[dst]);
    var s1 := Step(s, Detach(t, h)).0;
    assert s1.parked[..|s.parked|] + s1.parked[|s.parked| + 1..] == s.parked;
    assert s1.tables[dst] == s.tables[dst];
  }

  /** No operation, whatever it returns, gives anyone more than was minted. */
  lemma StepNeverAmplifies<O>(l: Ledger<O>, op: Op<O>, out: Option<Handle>)
    requires l.NothingAmplified()
    ensures Observe(l, op, out).NothingAmplified()
  {
    hide Within;
    var l' := Observe(l, op, out);
    if op.Mint? {
      if l' != l {
        WithinItself(op.c, l'.minted);
      }
      forall c | Within(c, l.minted)
        ensures Within(c, l'.minted)
      {
        WithinMore(c, l.minted, l'.minted);
      }
    } else if op.Narrow? && l' != l {
      WithinWhenNarrowed(l.hists[op.t].live[op.h], op.mask, l.minted);
    }
  }

  // ---- Runs -------------------------------------------------------------------

  function Init<O>(caps: seq<nat>): (s: System<O>)
    ensures s.Indexed()
  {
    System(seq(|caps|, i requires 0 <= i < |caps| => EmptyTable(caps[i])), [])
  }

  ghost function InitLedger<O>(caps: seq<nat>): Ledger<O> {
    Ledger(seq(|caps|, _ => History({}, map[])), [], {})
  }

  function Run<O>(s: System<O>, ops: seq<Op<O>>): (r: System<O>)
    requires s.Indexed()
    ensures r.Indexed() && |r.tables| == |s.tables|
    decreases |ops|
  {
    if ops == [] then s else Run(Step(s, ops[0]).0, ops[1..])
  }

  ghost function Record<O>(s: System<O>, l: Ledger<O>, ops: seq<Op<O>>): Ledger<O>
    requires s.Indexed()
    decreases |ops|
  {
    if ops == [] then l
    else Record(Step(s, ops[0]).0, Observe(l, ops[0], Step(s, ops[0]).1), ops[1..])
  }

  /** The handles that table `t` returns during a run, in order. */
  function Handouts<O>(s: System<O>, ops: seq<Op<O>>, t: nat): seq<Handle>
    requires s.Indexed()
    decreases |ops|
  {
    if ops == [] then []
    else
      var (s', out) := Step(s, ops[0]);
      (if out.Some? && ops[0].Target() == t then [out.value] else []) + Handouts(s', ops[1..], t)
  }

  ghost predicate Distinct(hs: seq<Handle>) {
    forall i, j :: 0 <= i < j < |hs| ==> hs[i] != hs[j]
  }

  lemma {:induction false} RunAgrees<O>(s: System<O>, l: Ledger<O>, ops: seq<Op<O>>)
    requires s.Indexed() && Agrees(s, l) && l.NothingAmplified()
    ensures Agrees(Run(s, ops), Record(s, l, ops)) && Record(s, l, ops).NothingAmplified()
    decreases |ops|
  {
    if ops != [] {
      StepAgrees(s, l, ops[0]);
      StepNeverAmplifies(l, ops[0], Step(s, ops[0]).1);
      RunAgrees(Step(s, ops[0]).0, Observe(l, ops[0], Step(s, ops[0]).1), ops[1..]);
    }
  }

  /** Handles are only ever added to a table's history, and a dead one stays dead. */
  lemma ObserveIsMonotone<O>(l: Ledger<O>, op: Op<O>, out: Option<Handle>, t: nat, h: Handle)
    requires t < |l.hists| && h in l.hists[t].issued
    requires out.Some? ==> op.Target() < |l.hists| && out.value !in l.hists[op.Target()].issued
    ensures |Observe(l, op, out).hists| == |l.hists| && h in Observe(l, op, out).hists[t].issued
    ensures h !in l.hists[t].live ==> h !in Observe(l, op, out).hists[t].live
  {
  }

  lemma {:induction false} HandoutsAreFresh<O>(s: System<O>, l: Ledger<O>, ops: seq<Op<O>>, t: nat, h: Handle)
    requires s.Indexed() && Agrees(s, l) && t < |l.hists| && h in l.hists[t].issued
    ensures h !in Handouts(s, ops, t)
    ensures |Record(s, l, ops).hists| == |l.hists|
    ensures h !in l.hists[t].live ==> h !in Record(s, l, ops).hists[t].live
    ensures h in Record(s, l, ops).hists[t].issued
    decreases |ops|
  {
    if ops != [] {
      var (s', out) := Step(s, ops[0]);
      StepAgrees(s, l, ops[0]);
      ObserveIsMonotone(l, ops[0], out, t, h);
      HandoutsAreFresh(s', Observe(l, ops[0], out), ops[1..], t, h);
    }
  }

  lemma IssuedIsObserved<O>(s: System<O>, l: Ledger<O>, op: Op<O>)
    requires s.Indexed() && Agrees(s, l) && Step(s, op).1.Some?
    ensures op.Target() < |Observe(l, op, Step(s, op).1).hists|
    ensures Step(s, op).1.value in Observe(l, op, Step(s, op).1).hists[op.Target()].issued
  {
    assert TableAgrees(s.tables[op.t], l.hists[op.t]);
  }

  lemma {:induction false} HandoutsAreDistinct<O>(s: System<O>, l: Ledger<O>, ops: seq<Op<O>>, t: nat)
    requires s.Indexed() && Agrees(s, l)
    ensures Distinct(Handouts(s, ops, t))
    decreases |ops|
  {
    if ops != [] {
      var (s', out) := Step(s, ops[0]);
      var l' := Observe(l, ops[0], out);
      StepAgrees(s, l, ops[0]);
      HandoutsAreDistinct(s', l', ops[1..], t);
      if out.Some? && ops[0].Target() == t {
        IssuedIsObserved(s, l, ops[0]);
        HandoutsAreFresh(s', l', ops[1..], t, out.value);
      }
    }
  }

  ghost predicate IndicesFit(caps: seq<nat>) {
    forall i :: 0 <= i < |caps| ==> caps[i] <= TWO32
  }

  /** In every run over any tables, `live` answers Ok exactly for the handles issued and not
      yet freed, and resolves them to the capability they were issued for. */
  lemma RunsRefineHistories<O>(caps: seq<nat>, ops: seq<Op<O>>, t: nat, h: Handle)
    requires IndicesFit(caps) && t < |caps|
    ensures var s := Run(Init(caps), ops);
            var l := Record(Init(caps), InitLedger(caps), ops);
            && |s.tables| == |l.hists| == |caps| && s.parked == l.parked
            && (s.tables[t].Live(h).Ok? <==> h in l.hists[t].live)
            && (h in l.hists[t].live ==>
                  h.Slot() < |s.tables[t].slots| && s.tables[t].Occupied(h.Slot())
                  && s.tables[t].CapAt(h.Slot()) == l.hists[t].live[h])
  {
    InitAgrees<O>(caps);
    RunAgrees(Init(caps), InitLedger(caps), ops);
    var s := Run(Init(caps), ops);
    var l := Record(Init(caps), InitLedger(caps), ops);
    assert TableAgrees(s.tables[t], l.hists[t]);
    LiveMeansHeld(s.tables[t], l.hists[t], h);
  }

  lemma InitAgrees<O>(caps: seq<nat>)
    requires IndicesFit(caps)
    ensures Agrees(Init<O>(caps), InitLedger(caps)) && InitLedger<O>(caps).NothingAmplified()
  {
    forall i | 0 <= i < |caps| {
      EmptyTableRefines<O>(caps[i]);
    }
  }

  /** The capabilities the run minted. */
  ghost function Minted<O>(s: System<O>, ops: seq<Op<O>>): set<Cap<O>>
    requires s.Indexed()
    decreases |ops|
  {
    if ops == [] then {}
    else
      var (s', out) := Step(s, ops[0]);
      (if ops[0].Mint? && out.Some? then {ops[0].c} else {}) + Minted(s', ops[1..])
  }

  /** Nothing a table or the parked list holds exceeds the rights of some minted capability for the
      same object. */
  ghost predicate HeldWithin<O>(s: System<O>, minted: set<Cap<O>>) {
    && (forall t: nat, i: nat :: t < |s.tables| && s.tables[t].Occupied(i) ==> Within(s.tables[t].CapAt(i), minted))
    && (forall k :: 0 <= k < |s.parked| ==> Within(s.parked[k], minted))
  }

  ghost predicate TableWithin<O>(t: Table<O>, minted: set<Cap<O>>) {
    forall i: nat :: t.Occupied(i) ==> Within(t.CapAt(i), minted)
  }

  lemma AllocWithin<O>(t: Table<O>, c: Cap<O>, minted: set<Cap<O>>)
    requires t.Indexed() && TableWithin(t, minted) && (t.Alloc(c).1.Some? ==> Within(c, minted))
    ensures TableWithin(t.Alloc(c).0, minted)
  {
    hide Within;
    var t' := t.Alloc(c).0;
    forall i: nat | t'.Occupied(i)
      ensures Within(t'.CapAt(i), minted)
    {
      if i < |t.slots| && t'.slots[i] == t.slots[i] {
        assert t.Occupied(i);
      } else {
        assert t'.CapAt(i) == c;
      }
    }
  }

  lemma FreeWithin<O>(t: Table<O>, i: nat, minted: set<Cap<O>>)
    requires t.Occupied(i) && TableWithin(t, minted)
    ensures TableWithin(t.FreeSlot(i), minted)
  {
    hide Within;
    var t' := t.FreeSlot(i);
    forall j: nat | t'.Occupied(j)
      ensures Within(t'.CapAt(j), minted)
    {
      assert t.Occupied(j);
    }
  }

  /** One operation keeps every table and every parked pair within what was minted, its own mint
      included. */
  lemma StepWithin<O>(s: System<O>, op: Op<O>, minted: set<Cap<O>>)
    requires s.Indexed() && HeldWithin(s, minted)
    requires op.Mint? && Step(s, op).1.Some? ==> op.c in minted
    ensures HeldWithin(Step(s, op).0, minted)
  {
    hide Within;
    if op.Applies(|s.tables|, |s.parked|) {
      var tab := s.tables[op.t];
      assert TableWithin(tab, minted);
      if op.Mint? {
        if op.c in minted {
          WithinItself(op.c, minted);
        }
        AllocWithin(tab, op.c, minted);
        OneTableWithin(s, op.t, tab.Alloc(op.c).0, minted);
      } else if op.Attach? {
        AllocWithin(tab, s.parked[op.k], minted);
        OneTableWithin(s, op.t, tab.Alloc(s.parked[op.k]).0, minted);
      } else if tab.Live(op.h).Ok? {
        var i := tab.Live(op.h).value;
        assert tab.Occupied(i);
        var c := tab.CapAt(i);
        FreeWithin(tab, i, minted);
        AllocWithin(tab, c, minted);
        if op.Narrow? {
          WithinWhenNarrowed(c, op.mask, minted);
          AllocWithin(tab, c.(rights := c.rights.Intersect(op.mask)), minted);
        }
        if op.Transfer? {
          assert TableWithin(s.tables[op.dst], minted);
          AllocWithin(s.tables[op.dst], c, minted);
          OneTableWithin(s, op.t, Step(s, op).0.tables[op.t], minted);
          OneTableWithin(s.(tables := s.tables[op.t := Step(s, op).0.tables[op.t]]), op.dst,
                         Step(s, op).0.tables[op.dst], minted);
        } else {
          OneTableWithin(s, op.t, Step(s, op).0.tables[op.t], minted);
        }
      }
    }
  }

  lemma OneTableWithin<O>(s: System<O>, t: nat, tab: Table<O>, minted: set<Cap<O>>)
    requires HeldWithin(s, minted) && t < |s.tables| && TableWithin(tab, minted)
    ensures HeldWithin(s.(tables := s.tables[t := tab]), minted)
  {
    hide Within;
  }

  lemma MoreMinted<O>(s: System<O>, minted: set<Cap<O>>, minted': set<Cap<O>>)
    requires HeldWithin(s, minted) && minted <= minted'
    ensures HeldWithin(s, minted')
  {
    hide Within;
    forall c | Within(c, minted)
      ensures Within(c, minted')
    {
      WithinMore(c, minted, minted');
    }
  }

  lemma {:induction false} RunWithin<O>(s: System<O>, ops: seq<Op<O>>, minted: set<Cap<O>>)
    requires s.Indexed() && HeldWithin(s, minted)
    ensures HeldWithin(Run(s, ops), minted + Minted(s, ops))
    decreases |ops|
  {
    hide HeldWithin, Step;
    if ops == [] {
      MoreMinted(s, minted, minted + {});
    } else {
      var (s', out) := Step(s, ops[0]);
      var now := minted + if ops[0].Mint? && out.Some? then {ops[0].c} else {};
      MoreMinted(s, minted, now);
      StepWithin(s, ops[0], now);
      RunWithin(s', ops[1..], now);
      assert now + Minted(s', ops[1..]) == minted + Minted(s, ops);
    }
  }

  /** In every run over tables of any capacity, every occupied slot and every parked pair holds a
      subset of the rights some mint of the run gave its object. */
  lemma AuthorityNeverGrows<O>(caps: seq<nat>, ops: seq<Op<O>>)
    ensures HeldWithin(Run(Init(caps), ops), Minted(Init(caps), ops))
  {
    hide Minted, Run;
    var none: set<Cap<O>> := {};
    assert HeldWithin(Init<O>(caps), none);
    RunWithin(Init(caps), ops, none);
    assert none + Minted(Init(caps), ops) == Minted(Init(caps), ops);
  }

  /** A handle that was issued and then revoked, moved or detached is Stale for the rest of
      the run, however often its slot is reused or retired. */
  lemma DeadHandlesStayStale<O>(caps: seq<nat>, before: seq<Op<O>>, after: seq<Op<O>>, t: nat, h: Handle)
    requires IndicesFit(caps) && t < |caps|
    requires h in Handouts(Init(caps), before, t)
    requires Run(Init(caps), before).tables[t].Live(h).Err?
    ensures Run(Run(Init(caps), before), after).tables[t].Live(h) == Err(Stale)
  {
    InitAgrees<O>(caps);
    RunAgrees(Init(caps), InitLedger(caps), before);
    HandoutsAreRecorded(Init(caps), InitLedger(caps), before, t, h);
    var s := Run(Init(caps), before);
    var l := Record(Init(caps), InitLedger(caps), before);
    assert TableAgrees(s.tables[t], l.hists[t]);
    LiveMeansHeld(s.tables[t], l.hists[t], h);
    HandoutsAreFresh(s, l, after, t, h);
    RunAgrees(s, l, after);
    var s', l' := Run(s, after), Record(s, l, after);
    assert TableAgrees(s'.tables[t], l'.hists[t]);
    LiveMeansHeld(s'.tables[t], l'.hists[t], h);
  }

  lemma {:induction false} HandoutsAreRecorded<O>(s: System<O>, l: Ledger<O>, ops: seq<Op<O>>, t: nat, h: Handle)
    requires s.Indexed() && Agrees(s, l) && t < |l.hists|
    requires h in Handouts(s, ops, t)
    ensures |Record(s, l, ops).hists| == |l.hists| && h in Record(s, l, ops).hists[t].issued
    decreases |ops|
  {
    var (s', out) := Step(s, ops[0]);
    var l' := Observe(l, ops[0], out);
    StepAgrees(s, l, ops[0]);
    if out.Some? && ops[0].Target() == t && h == out.value {
      IssuedIsObserved(s, l, ops[0]);
      HandoutsAreFresh(s', l', ops[1..], t, h);
    } else {
      HandoutsAreRecorded(s', l', ops[1..], t, h);
    }
  }

  // ---- How wide a table may be --------------------------------------------------

  function Repeat<O>(op: Op<O>, n: nat): (ops: seq<Op<O>>)
    ensures |ops| == n
  {
    seq(n, _ => op)
  }

  function FullTable<O>(c: Cap<O>, n: nat, cap: nat): Table<O> {
    Table(seq(n, _ => SlotCore(1, c.rights, Some(c.obj))), [], cap)
  }

  lemma {:induction false} MintRun<O>(c: Cap<O>, m: nat, n: nat, cap: nat)
    requires m + n <= cap
    ensures var s := System([FullTable(c, m, cap)], []);
            Handouts(s, Repeat(Mint(0, c), n), 0) == seq(n, i => NewHandle(1, (m + i) % TWO32))
    decreases n
  {
    if n > 0 {
      var s := System([FullTable(c, m, cap)], []);
      var ops := Repeat(Mint(0, c), n);
      assert FullTable(c, m, cap).slots + [SlotCore(1, c.rights, Some(c.obj))] == FullTable(c, m + 1, cap).slots;
      assert FullTable(c, m, cap).Alloc(c) == (FullTable(c, m + 1, cap), Some(NewHandle(1, m % TWO32)));
      assert s.tables[0 := FullTable(c, m + 1, cap)] == [FullTable(c, m + 1, cap)];
      assert Step(s, ops[0]) == (System([FullTable(c, m + 1, cap)], []), Some(NewHandle(1, m % TWO32)));
      assert ops[1..] == Repeat(Mint(0, c), n - 1);
      MintRun(c, m + 1, n - 1, cap);
    }
  }

  /** The first mints of a new table get generation 1 and the slots in order: handles 2^32,
      2^32 + 1 and so on. */
  lemma FirstHandouts<O>(cap: nat, c: Cap<O>, n: nat)
    requires n <= cap <= TWO32
    ensures |Handouts(Init([cap]), Repeat(Mint(0, c), n), 0)| == n
    ensures forall i :: 0 <= i < n ==> Handouts(Init([cap]), Repeat(Mint(0, c), n), 0)[i] == Handle(0x1_0000_0000 + i)
  {
    assert FullTable(c, 0, cap) == EmptyTable(cap);
    assert Init<O>([cap]).tables == [FullTable(c, 0, cap)];
    MintRun(c, 0, n, cap);
    var hs := Handouts(Init([cap]), Repeat(Mint(0, c), n), 0);
    forall i | 0 <= i < n
      ensures hs[i] == Handle(0x1_0000_0000 + i)
    {
      assert hs[i] == NewHandle(1, (0 + i) % TWO32);
      HandleIsItsFields(hs[i]);
    }
  }

  /** A table never issues a handle twice in any run if and only if its capacity is at most
      2^32: beyond that, the slot index no longer fits in the handle and 2^32 + 1 mints hand
      out the first handle again. */
  lemma HandlesUniqueIffIndicesFit<O>(cap: nat, c: Cap<O>)
    ensures cap <= TWO32 <==> forall ops: seq<Op<O>> :: Distinct(Handouts(Init([cap]), ops, 0))
  {
    if cap <= TWO32 {
      forall ops: seq<Op<O>>
        ensures Distinct(Handouts(Init([cap]), ops, 0))
      {
        InitAgrees<O>([cap]);
        HandoutsAreDistinct(Init([cap]), InitLedger([cap]), ops, 0);
      }
    } else {
      var n := TWO32 + 1;
      var ops := Repeat(Mint(0, c), n);
      assert FullTable(c, 0, cap) == EmptyTable(cap);
      assert Init<O>([cap]).tables == [FullTable(c, 0, cap)];
      MintRun(c, 0, n, cap);
      var hs := Handouts(Init([cap]), ops, 0);
      assert hs[0] == hs[TWO32];
      assert !Distinct(hs);
    }
  }
}
