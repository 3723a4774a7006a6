/**
 Whole runs of the registry. The reference keeps nothing but the set of registered units and answers
 a lookup by asking every one of them; the registry, with its two lists, its lazy classification and
 its optional sorted vectors, gives the same results on every run.
 */
module FdeRun {
  import opened Options
  import opened FdeModel
  import opened FdeObject
  import opened FdeRegistry

  datatype Op =
    | Register(unit: Unit)
    | Lookup(pc: nat)
    | Deregister(begin: nat, firstWord: nat)

  datatype Result = Registered | Found(hit: Option<Hit>) | Removed(unit: Unit) | NotRegistered | Abort

  ghost predicate Coherent(units: set<Unit>) {
    && (forall u :: u in units ==> Sound(u) && Accepted(u))
    && (forall u, v :: u in units && v in units && u != v ==> Compatible(u, v))
  }

  /** What the caller must respect: separate code, distinct keys, 32-bit addresses, memory left as registered. */
  ghost predicate Allowed(units: set<Unit>, op: Op) {
    match op
    case Register(u) => Sound(u) && forall v :: v in units ==> Compatible(v, u)
    case Lookup(pc) => pc < ADDRESS_SPACE
    case Deregister(begin, firstWord) =>
      forall u :: u in units && u.source.addr == begin ==> FirstWord(u.source, firstWord)
  }

  ghost function After(units: set<Unit>, op: Op): set<Unit> {
    match op
    case Register(u) => if Accepted(u) then units + {u} else units
    case Lookup(_) => units
    case Deregister(begin, firstWord) =>
      if begin != 0 && firstWord != 0 then set u | u in units && u.source.addr != begin else units
  }

  /** Deregistration gives the unit back. */
  predicate Returnable(u: Unit) {
    u.source.addr != 0 && !EmptyTable(u.source)
  }

  /** `r` is the right result of `op` for the registered units. */
  ghost predicate Correct(units: set<Unit>, op: Op, r: Result) {
    match op
    case Register(_) => r == Registered
    case Lookup(pc) =>
      && r.Found?
      && (r.hit.None? ==> forall u :: u in units ==> Mute(u, pc))
      && (r.hit.Some? ==> exists u :: u in units && Owns(u, pc, r.hit.value))
    case Deregister(begin, firstWord) =>
      && (forall u :: u in units && u.source.addr == begin ==> r == if Returnable(u) then Removed(u) else NotRegistered)
      && ((forall u :: u in units ==> u.source.addr != begin) ==>
            r == if begin == 0 || firstWord == 0 then NotRegistered else Abort)
  }

  /** The reference determines every result, so Correct leaves the registry no choice. */
  lemma CorrectIsUnique(units: set<Unit>, op: Op, r: Result, r': Result)
    requires Coherent(units) && Allowed(units, op) && Correct(units, op, r) && Correct(units, op, r')
    ensures r == r'
  {
    if op.Lookup? && r.hit.Some? && r'.hit.Some? {
      var u :| u in units && Owns(u, op.pc, r.hit.value);
      var v :| v in units && Owns(v, op.pc, r'.hit.value);
      if u != v {
        OneAnswers(u, v, op.pc);
      }
    }
  }

  lemma StepKeepsCoherent(units: set<Unit>, op: Op)
    requires Coherent(units) && Allowed(units, op)
    ensures Coherent(After(units, op))
  {
    hide Sound, Compatible;
    if op.Register? {
      forall v | v in units ensures Compatible(op.unit, v) {
        CompatibleSymmetric(op.unit, v);
      }
    }
  }

  /** The units registered after a run. */
  ghost function UnitsAfter(ops: seq<Op>): set<Unit> {
    if ops == [] then {} else After(UnitsAfter(ops[..|ops| - 1]), ops[|ops| - 1])
  }

  ghost predicate AllowedRun(ops: seq<Op>) {
    forall i :: 0 <= i < |ops| ==> Allowed(UnitsAfter(ops[..i]), ops[i])
  }

  ghost predicate CorrectRun(ops: seq<Op>, results: seq<Result>) {
    |results| == |ops| && forall i :: 0 <= i < |ops| ==> Correct(UnitsAfter(ops[..i]), ops[i], results[i])
  }

  /** The units of the registered objects. */
  ghost function Held(reg: Registry): set<Unit>
    reads reg, reg.unseen, reg.seen
  {
    set o | o in reg.Objects() :: o.Registered()
  }

  ghost predicate Represents(reg: Registry, units: set<Unit>)
    reads reg, reg.unseen, reg.seen
  {
    reg.Valid() && Held(reg) == units
  }

  method StepRegister(reg: Registry, u: Unit, ghost units: set<Unit>)
    requires Represents(reg, units) && Allowed(units, Register(u))
    modifies reg`unseen
    ensures Represents(reg, After(units, Register(u)))
    ensures fresh(reg.Objects() - old(reg.Objects()))
  {
    hide Registry.Valid, Sound, Compatible, Object.Registered;
    ghost var objects := reg.Objects();
    assert forall o :: o in objects ==> o.Registered() in Held(reg);
    var ob := new Object();
    assert forall o :: o in objects ==> o.Registered() == old(o.Registered());
    if u.source.Table? {
      reg.RegisterFrameInfoTable(ob, u.source, u.bases);
    } else {
      reg.RegisterFrameInfo(ob, u.source, u.bases);
    }
    assert forall o :: o in objects ==> o.Registered() == old(o.Registered());
    assert Accepted(u) ==> Held(reg) == units + {u};
  }

  method StepLookup(reg: Registry, pc: nat, ghost units: set<Unit>) returns (r: Result)
    requires Represents(reg, units) && pc < ADDRESS_SPACE
    modifies reg, reg.Objects()
    ensures Represents(reg, units) && reg.Objects() == old(reg.Objects())
    ensures Correct(units, Lookup(pc), r)
  {
    hide Registry.Valid, Sound, Object.Registered, Answer;
    var h := reg.FindFde(pc);
    r := Found(h);
    if h.Some? {
      ghost var o :| o in reg.Objects() && reg.Answers(o, pc, h.value);
      assert o.Registered() in Held(reg) && Owns(o.Registered(), pc, h.value);
    } else {
      assert forall o :: o in reg.Objects() ==> reg.Silent(o, pc);
    }
  }

  /** The registration data of an object, from whichever union member is current. */
  function UnitOf(ob: Object): (u: Unit)
    reads ob
    ensures u == ob.Registered()
  {
    Unit(if ob.data.Raw? then ob.data.source else ob.data.origData, ob.bases)
  }

  /** What is held once the object `ob` is gone. */
  lemma HeldWithout(reg: Registry, units: set<Unit>, objects: set<Object>, ob: Object)
    requires reg.Valid() && reg.Objects() == objects - {ob} && ob in objects
    requires units == set o | o in objects :: o.Registered()
    requires forall o, p :: o in objects && p in objects && o != p ==>
               o.Registered().source.addr != p.Registered().source.addr
    ensures Held(reg) == set u | u in units && u.source.addr != ob.Registered().source.addr
  {
    hide Registry.Valid, Object.Registered;
    var rest := set u | u in units && u.source.addr != ob.Registered().source.addr;
    forall u | u in rest ensures u in Held(reg) {
      var o :| o in objects && o.Registered() == u;
      assert o in reg.Objects();
    }
  }

  /** What the registry reports about its objects is the right result for the units. */
  lemma RightlyDeregistered(units: set<Unit>, begin: nat, firstWord: nat, r: Result)
    requires Coherent(units) && Allowed(units, Deregister(begin, firstWord))
    requires r.Removed? || r == Abort || r == NotRegistered
    requires r.Removed? ==> r.unit in units && r.unit.source.addr == begin
    requires r == NotRegistered <==> begin == 0 || firstWord == 0
    requires r == Abort ==> forall u :: u in units ==> u.source.addr != begin
    ensures Correct(units, Deregister(begin, firstWord), r)
    ensures r.Removed? ==> After(units, Deregister(begin, firstWord)) == set u | u in units && u.source.addr != begin
    ensures !r.Removed? ==> After(units, Deregister(begin, firstWord)) == units
  {
    hide Sound;
  }

  method StepDeregister(reg: Registry, begin: nat, firstWord: nat, ghost units: set<Unit>) returns (r: Result)
    requires Represents(reg, units) && Coherent(units) && Allowed(units, Deregister(begin, firstWord))
    modifies reg
    ensures Represents(reg, After(units, Deregister(begin, firstWord)))
    ensures Correct(units, Deregister(begin, firstWord), r)
    ensures reg.Objects() <= old(reg.Objects())
  {
    hide Registry.Valid, Coherent, FirstWord, EmptyTable, Object.Registered, Correct, After;
    ghost var objects := reg.Objects();
    reg.KeysAreDistinct();
    assert forall o :: o in objects ==> o.Registered() in Held(reg);
    var ob, aborted := reg.DeregisterFrameInfo(begin, firstWord);
    assert forall o :: o in objects ==> o.Registered() == old(o.Registered());
    if ob != null {
      HeldWithout(reg, units, objects, ob);
      r := Removed(UnitOf(ob));
    } else {
      r := if aborted then Abort else NotRegistered;
    }
    RightlyDeregistered(units, begin, firstWord, r);
  }

  /**
   Deregistering an object by the address it was registered under gives it back, and removes it,
   exactly when it is neither an empty table nor registered at address 0.
   */
  method ReturnRegistered(reg: Registry, ob: Object, firstWord: nat) returns (got: Object?)
    requires reg.Valid() && ob in reg.Objects() && FirstWord(ob.Registered().source, firstWord)
    modifies reg
    ensures reg.Valid() && ob.Registered() == old(ob.Registered())
    ensures got == ob <==> Returnable(ob.Registered())
    ensures reg.Objects() == old(reg.Objects()) - if Returnable(ob.Registered()) then {ob} else {}
    ensures got == ob || got == null
  {
    hide Registry.Valid, FirstWord, EmptyTable;
    reg.KeysAreDistinct();
    var aborted;
    got, aborted := reg.DeregisterFrameInfo(UnitOf(ob).source.addr, firstWord);
  }

  /** A table without sections is registered, and deregistering it leaves it there. */
  method EmptyTableStays(reg: Registry, addr: nat, bases: Bases) returns (ob: Object, got: Object?)
    requires reg.Valid() && forall o :: o in reg.Objects() ==> o.Registered().source.addr != addr
    modifies reg
    ensures got == null && reg.Valid() && reg.Objects() == old(reg.Objects()) + {ob}
    ensures ob.Registered() == Unit(Table(addr, []), bases)
  {
    hide Registry.Valid, Sound, Compatible, Object.Registered;
    EmptyTableFits(reg, addr, bases);
    ob := new Object();
    assert forall o :: o in old(reg.Objects()) ==> o.Registered() == old(o.Registered());
    reg.RegisterFrameInfoTable(ob, Table(addr, []), bases);
    got := ReturnRegistered(reg, ob, 0);
  }

  /** An empty table is compatible with everything at another address. */
  lemma EmptyTableFits(reg: Registry, addr: nat, bases: Bases)
    requires reg.Valid() && forall o :: o in reg.Objects() ==> o.Registered().source.addr != addr
    ensures Sound(Unit(Table(addr, []), bases))
    ensures forall o :: o in reg.Objects() ==> Compatible(o.Registered(), Unit(Table(addr, []), bases))
  {
    hide Object.Fresh, Object.Classified;
    assert AllFdes(Table(addr, [])) == [];
    forall o | o in reg.Objects() ensures Sound(o.Registered()) {
    }
  }

  method Step(reg: Registry, op: Op, ghost units: set<Unit>) returns (r: Result)
    requires Represents(reg, units) && Coherent(units) && Allowed(units, op)
    modifies reg, reg.Objects()
    ensures Represents(reg, After(units, op)) && Correct(units, op, r)
    ensures fresh(reg.Objects() - old(reg.Objects()))
  {
    match op
    case Register(u) =>
      StepRegister(reg, u, units);
      r := Registered;
    case Lookup(pc) =>
      r := StepLookup(reg, pc, units);
    case Deregister(begin, firstWord) =>
      r := StepDeregister(reg, begin, firstWord, units);
  }

  /** Every allowed run of registrations, lookups and deregistrations gives exactly the reference results. */
  method Run(ops: seq<Op>) returns (results: seq<Result>)
    requires AllowedRun(ops)
    ensures CorrectRun(ops, results)
  {
    hide Registry.Valid, Represents, Correct, Allowed, Coherent, After;
    var reg := new Registry();
    results := [];
    NothingRegistered(reg);
    for i := 0 to |ops|
      invariant fresh(reg) && fresh(reg.Objects())
      invariant Represents(reg, UnitsAfter(ops[..i])) && Coherent(UnitsAfter(ops[..i]))
      invariant |results| == i
      invariant forall j :: 0 <= j < i ==> Correct(UnitsAfter(ops[..j]), ops[j], results[j])
    {
      StepKeepsCoherent(UnitsAfter(ops[..i]), ops[i]);
      var r := Step(reg, ops[i], UnitsAfter(ops[..i]));
      assert ops[..i + 1][..i] == ops[..i];
      results := results + [r];
    }
  }

  lemma NothingRegistered(reg: Registry)
    requires reg.Valid() && reg.Objects() == {}
    ensures Represents(reg, {}) && Coherent({})
  {
  }
}
