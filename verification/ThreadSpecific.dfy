/**
 Thread-specific data: a process-wide array of keys, a process-wide array of the threads' hash
 tables, and for each thread a pointer to its own table. Each call is one atomic step.
 */
module ThreadSpecific {
  import opened IHash

  const EINVAL := 22

  /** The bit pattern that marks a free array slot. */
  const INVALID: nat := 0xFFFF_FFFF

  type Thread = nat

  /** Whether there is memory for a thread's table, for more slots in the array, and for a larger hash table. */
  datatype Memory = Memory(table: bool, slots: bool, growth: bool)

  predicate Enough(m: Memory) {
    m.table && m.slots && m.growth
  }

  datatype KeyState = Usable | Unusable | PastEnd

  /** A slot of the array of tables: free, or pointing at the table of some thread. */
  datatype Slot = Invalid | At(table: IHash)

  // ----- find_elem_index_and_add_to_arry -----

  ghost predicate FirstFree<T>(arry: seq<T>, invalid: T, index: nat) {
    && index <= |arry|
    && (index < |arry| ==> arry[index] == invalid)
    && (forall i :: 0 <= i < index ==> arry[i] != invalid)
  }

  /** `after` is `arry`, possibly enlarged with free slots, with `elem` at `index`. */
  ghost predicate StoredAt<T>(arry: seq<T>, invalid: T, index: nat, elem: T, after: seq<T>) {
    && index < |after| && |arry| <= |after| && after[index] == elem
    && (forall i :: 0 <= i < |arry| && i != index ==> after[i] == arry[i])
    && (forall i :: |arry| <= i < |after| && i != index ==> after[i] == invalid)
  }

  /** Stores `elem` in the first free slot, enlarging the array to twice its size when there is none. */
  method FindElemIndexAndAddToArry<T(==)>(elem: T, arry: seq<T>, invalid: T, memory: bool)
    returns (r: int, after: seq<T>, index: nat)
    ensures r == 0 || r == -ENOMEM
    ensures r == 0 ==> FirstFree(arry, invalid, index) && StoredAt(arry, invalid, index, elem, after)
    ensures r == 0 ==> |after| == if invalid in arry then |arry| else if arry == [] then 8 else 2 * |arry|
    ensures r != 0 ==> after == arry && !memory && invalid !in arry
  {
    index := 0;
    while index < |arry| && arry[index] != invalid
      invariant index <= |arry| && forall i :: 0 <= i < index ==> arry[i] != invalid
    {
      index := index + 1;
    }
    if index < |arry| {
      return 0, arry[index := elem], index;
    }
    if !memory {
      return -ENOMEM, arry, 0;
    }
    var newSize := if |arry| == 0 then 8 else 2 * |arry|;
    after := seq(newSize, i => invalid);
    after := arry + after[|arry|..];
    return 0, after[index := elem], index;
  }

  /** The values a thread has set: none before its first. */
  ghost function BindingsOf(values: map<Thread, map<nat, nat>>, th: Thread): map<nat, nat> {
    if th in values then values[th] else map[]
  }

  ghost function Bound(values: map<Thread, map<nat, nat>>, th: Thread, key: nat): nat {
    if key in BindingsOf(values, th) then BindingsOf(values, th)[key] else EMPTY
  }

  /** The values after a thread stores one under a key. */
  ghost function Put(values: map<Thread, map<nat, nat>>, th: Thread, key: nat, value: nat): map<Thread, map<nat, nat>>
  {
    values[th := After(BindingsOf(values, th), key, value)]
  }

  ghost predicate SameBindings(values: map<Thread, map<nat, nat>>, before: map<Thread, map<nat, nat>>) {
    forall th :: BindingsOf(values, th) == BindingsOf(before, th)
  }

  /** A thread without values and one with an empty table are the same. */
  lemma EmptyTable(values: map<Thread, map<nat, nat>>, th: Thread, key: nat, value: nat)
    requires th !in values
    ensures SameBindings(values[th := map[]], values)
    ensures Put(values[th := map[]], th, key, value) == Put(values, th, key, value)
  {
  }

  lemma SameAsBefore(values: map<Thread, map<nat, nat>>)
    ensures SameBindings(values, values)
  {
  }

  ghost function Without(values: map<Thread, map<nat, nat>>, key: nat): map<Thread, map<nat, nat>> {
    map th | th in values :: values[th] - {key}
  }

  ghost predicate Lists(tables: seq<Slot>, owned: set<IHash>) {
    && (forall i :: 0 <= i < |tables| && tables[i].At? ==> tables[i].table in owned)
    && (forall t :: t in owned ==> At(t) in tables)
    && (forall i, j :: 0 <= i < j < |tables| && tables[i].At? ==> tables[i] != tables[j])
  }

  lemma ListedAfter(tables: seq<Slot>, owned: set<IHash>, index: nat, table: IHash, after: seq<Slot>)
    requires Lists(tables, owned) && table !in owned
    requires FirstFree(tables, Invalid, index) && StoredAt(tables, Invalid, index, At(table), after)
    ensures Lists(after, owned + {table})
  {
    forall t | t in owned ensures At(t) in after {
      var i :| 0 <= i < |tables| && tables[i] == At(t);
      assert after[i] == At(t);
    }
  }

  ghost predicate Apart(owned: set<IHash>)
    reads owned`items
  {
    forall s, t :: s in owned && t in owned && s != t ==> s.items != t.items
  }

  ghost predicate AllValid(owned: set<IHash>, live: set<nat>)
    reads owned, set t | t in owned :: t.items
  {
    forall t :: t in owned ==> t.Valid() && t.contents.Keys <= live
  }

  /** What holds of the tables still holds with one more, new and empty. */
  lemma Widened(owned: set<IHash>, live: set<nat>, table: IHash)
    requires Apart(owned) && AllValid(owned, live) && table !in owned && table.Valid() && table.contents == map[]
    requires forall t :: t in owned ==> t.items != table.items
    ensures Apart(owned + {table}) && AllValid(owned + {table}, live)
  {
    hide IHash.Valid;
    assert table.contents.Keys == {};
  }

  lemma Rejoined(owned: set<IHash>, live: set<nat>, table: IHash)
    requires AllValid(owned - {table}, live) && table in owned && table.Valid() && table.contents.Keys <= live
    ensures AllValid(owned, live)
  {
    hide IHash.Valid;
  }

  class Tsd {
    var destructors: seq<nat>
    var tables: seq<Slot>
    var current: map<Thread, IHash>

    ghost var owned: set<IHash>
    ghost var values: map<Thread, map<nat, nat>>

    ghost function LiveKeys(): set<nat>
      reads this`destructors
    {
      set k | 0 <= k < |destructors| && destructors[k] != INVALID
    }

    ghost function Repr(): set<object>
      reads this`owned, owned`items
    {
      {this} + owned + (set t | t in owned :: t.items)
    }

    /** The array of tables lists each table exactly once. */
    ghost predicate Listed()
      reads this`tables, this`owned
    {
      Lists(tables, owned)
    }

    /** No two tables share storage. */
    ghost predicate Separate()
      reads this`owned, owned`items
    {
      Apart(owned)
    }

    /** Each thread has its own table. */
    ghost predicate Owned()
      reads this`current, this`owned
    {
      && (forall th :: th in current ==> current[th] in owned)
      && (forall th, th' :: th in current && th' in current && th != th' ==> current[th] != current[th'])
    }

    ghost predicate TablesValid()
      reads this`destructors, this`owned, owned, set t | t in owned :: t.items
    {
      AllValid(owned, LiveKeys())
    }

    /** `values` is what the threads' tables hold. */
    ghost predicate Tied()
      reads this`current, this`owned, this`values, owned`contents
    {
      Owned() && values.Keys == current.Keys && forall th :: th in current ==> values[th] == current[th].contents
    }

    ghost predicate Valid()
      reads Repr()
    {
      Listed() && Separate() && Owned() && TablesValid() && Tied()
    }

    /** As above, except for what the last reserved value did to one table. */
    ghost predicate ValidBut(table: IHash)
      reads Repr()
    {
      && Listed() && Separate() && Owned() && AllValid(owned - {table}, LiveKeys()) && Tied()
      && forall t :: t in owned ==> t.contents.Keys <= LiveKeys()
    }

    /** What a read by the thread relies on: its own table. */
    ghost predicate Readable(th: Thread)
      reads Repr()
    {
      && Owned() && Tied() && (forall t :: t in owned ==> t.contents.Keys <= LiveKeys())
      && (th in current ==> current[th].Valid())
    }

    constructor ()
      ensures Valid() && LiveKeys() == {} && values == map[] && fresh(Repr())
    {
      destructors, tables, current, owned, values := [], [], map[], {}, map[];
    }

    /**
     Finds a free key number; no thread has a value under it, even if the number was in use before. A
     destructor of all ones leaves the number marked as free.
     */
    method KeyCreate(destructor: nat, memory: bool) returns (r: int, key: nat)
      requires Valid()
      modifies this`destructors
      ensures Valid() && values == old(values)
      ensures |destructors| >= old(|destructors|) && (r == 0 ==> key < |destructors|)
      ensures r == 0 ==> key !in old(LiveKeys())
      ensures r == 0 ==> LiveKeys() == old(LiveKeys()) + if destructor != INVALID then {key} else {}
      ensures r == 0 ==> FirstFree(old(destructors), INVALID, key)
      ensures r == 0 ==> StoredAt(old(destructors), INVALID, key, destructor, destructors)
      ensures r == 0 ==> forall th :: key !in BindingsOf(values, th)
      ensures r != 0 ==> r == -ENOMEM && !memory && destructors == old(destructors)
    {
      hide IHash.Valid, Tsd.Listed, Tsd.Separate;
      r, destructors, key := FindElemIndexAndAddToArry(destructor, destructors, INVALID, memory);
    }

    /** The check of a key: it tests `>` where `>=` is meant, and so may read the word after the last slot. */
    function Check(key: nat): (state: KeyState)
      reads this`destructors
      ensures state.Usable? <==> key in LiveKeys()
      ensures state.PastEnd? <==> key == |destructors|
    {
      if key > |destructors| then Unusable
      else if key == |destructors| then PastEnd
      else if destructors[key] == INVALID then Unusable
      else Usable
    }

    /** The value the thread last set under the key since its creation, or NULL. */
    method GetSpecific(th: Thread, key: nat) returns (value: nat, overrun: bool)
      requires Readable(th)
      ensures overrun <==> key == |destructors|
      ensures value == Bound(values, th, key)
    {
      hide IHash.Valid;
      overrun := Check(key).PastEnd?;
      if !Check(key).Usable? || th !in current {
        return EMPTY, overrun;
      }
      value := current[th].Find(key);
    }

    /** Removes the key from every thread's table. */
    method RemoveFromAll(key: nat)
      requires Listed() && Separate() && forall t :: t in owned ==> t.Valid()
      modifies owned, set t | t in owned :: t.items
      ensures forall t :: t in owned ==> t.Valid() && t.contents == old(t.contents) - {key} && t.items == old(t.items)
    {
      hide IHash.Valid;
      for i := 0 to |tables|
        invariant forall t :: t in owned ==> t.Valid() && t.items == old(t.items)
        invariant forall j :: 0 <= j < i && tables[j].At? ==>
                    tables[j].table.contents == old(tables[j].table.contents) - {key}
        invariant forall j :: i <= j < |tables| && tables[j].At? ==>
                    tables[j].table.contents == old(tables[j].table.contents)
      {
        if tables[i].At? {
          var _ := tables[i].table.Remove(key);
        }
      }
    }

    /** Ends a key's life: its number becomes free and no thread keeps a value under it. */
    method KeyDelete(key: nat) returns (r: int, overrun: bool)
      requires Valid()
      modifies Repr()
      ensures Valid() && Repr() == old(Repr()) && |destructors| == old(|destructors|)
      ensures overrun <==> key == |destructors|
      ensures key in old(LiveKeys()) ==> r == 0 && LiveKeys() == old(LiveKeys()) - {key}
      ensures key in old(LiveKeys()) ==> destructors == old(destructors)[key := INVALID]
      ensures key in old(LiveKeys()) ==> values == Without(old(values), key)
      ensures key !in old(LiveKeys()) ==> values == old(values) && destructors == old(destructors)
      ensures key !in old(LiveKeys()) && !overrun ==> r == -EINVAL
    {
      hide IHash.Valid, Tsd.Listed, Tsd.Separate;
      overrun := Check(key).PastEnd?;
      if !Check(key).Usable? {
        return -EINVAL, overrun;
      }
      RemoveFromAll(key);
      Retire(key);
      return 0, false;
    }

    /** Frees the number of a key that no table holds any more. */
    method Retire(key: nat)
      requires Listed() && Separate() && Owned() && key in LiveKeys()
      requires forall t :: t in owned ==> t.Valid() && t.contents.Keys <= LiveKeys() - {key}
      requires values.Keys == current.Keys && forall th :: th in current ==> current[th].contents == values[th] - {key}
      modifies this`destructors, this`values
      ensures Valid() && LiveKeys() == old(LiveKeys()) - {key} && values == Without(old(values), key)
      ensures destructors == old(destructors)[key := INVALID]
    {
      hide IHash.Valid, Tsd.Listed, Tsd.Separate;
      destructors := destructors[key := INVALID];
      values := Without(values, key);
      assert LiveKeys() == old(LiveKeys()) - {key};
    }

    /**
     Sets the thread's value under a live key. A reserved value unbinds the key: every other thread
     still reads right, and the thread itself does exactly as its table says of the slot used.
     */
    method SetSpecific(th: Thread, key: nat, value: nat, memory: Memory)
      returns (r: int, overrun: bool, ghost slot: nat)
      requires Valid()
      modifies Repr()
      ensures fresh(Repr() - old(Repr())) && destructors == old(destructors)
      ensures r != 0 || Legal(value) ==> Valid()
      ensures r == 0 && !Legal(value) ==> th in current && ValidBut(current[th]) && current[th].Spoiled(slot, value)
      ensures OthersReadable(th)
      ensures overrun <==> key == |destructors|
      ensures !overrun ==> (key !in LiveKeys() <==> r == -EINVAL)
      ensures overrun || r == 0 || r == -EINVAL || (r == -ENOMEM && !Enough(memory))
      ensures r == 0 ==> values == Put(old(values), th, key, value)
      ensures r != 0 ==> SameBindings(values, old(values))
    {
      hide IHash.Valid, IHash.Spoiled, Tsd.Valid, Tsd.ValidBut, Tsd.OthersReadable, Tsd.LiveKeys, Put, SameBindings;
      slot := 0;
      ThreadFacts(th);
      SameAsBefore(values);
      overrun := Check(key).PastEnd?;
      if !Check(key).Usable? {
        StillReadable(th);
        return -EINVAL, overrun, slot;
      }
      if th !in current {
        EmptyTable(values, th, key, value);
        var code := NewTable(th, memory.table, memory.slots);
        if code < 0 {
          StillReadable(th);
          return -ENOMEM, false, slot;
        }
      }
      ThreadFacts(th);
      r, slot := Store(th, current[th], key, value, memory.growth);
      StillReadable(th);
    }

    ghost predicate OthersReadable(th: Thread)
      reads Repr()
    {
      forall u :: u != th ==> Readable(u)
    }

    /** A spoiled table concerns its own thread only. */
    lemma StillReadable(th: Thread)
      requires Valid() || (th in current && ValidBut(current[th]))
      ensures OthersReadable(th) && (Valid() ==> Readable(th))
    {
      hide IHash.Valid, Lists, Apart;
    }

    lemma ThreadFacts(th: Thread)
      requires Valid()
      ensures th in current <==> th in values
      ensures this in Repr() && (th in current ==> current[th] in Repr() && current[th].items in Repr())
    {
    }

    /** Creates a thread's table and enters it in the array of tables. */
    method NewTable(th: Thread, tableMemory: bool, slotMemory: bool) returns (r: int)
      requires Valid() && th !in current
      modifies this`tables, this`current, this`owned, this`values
      ensures Valid() && fresh(Repr() - old(Repr()))
      ensures r == 0 || (r == -ENOMEM && !(tableMemory && slotMemory))
      ensures r == 0 ==> th in current && values == old(values)[th := map[]]
      ensures r != 0 ==> values == old(values) && current == old(current)
    {
      hide IHash.Valid, Lists, FirstFree, StoredAt, Tsd.Owned, Tsd.TablesValid, Tsd.Tied;
      if !tableMemory {
        return -ENOMEM;
      }
      var table := new IHash();
      var code, after, index := FindElemIndexAndAddToArry(At(table), tables, Invalid, slotMemory);
      if code < 0 {
        return -ENOMEM;
      }
      ListedAfter(tables, owned, index, table, after);
      tables := after;
      Enter(th, table);
      return 0;
    }

    /** Makes a new table, already listed in the array, the thread's own. */
    method Enter(th: Thread, table: IHash)
      requires Lists(tables, owned + {table}) && Separate() && Owned() && TablesValid() && Tied()
      requires th !in current && table !in owned && table.Valid() && table.contents == map[]
      requires forall t :: t in owned ==> t.items != table.items
      modifies this`current, this`owned, this`values
      ensures Valid() && owned == old(owned) + {table}
      ensures th in current && values == old(values)[th := map[]]
    {
      hide IHash.Valid, Lists, Tsd.LiveKeys, Apart, AllValid;
      Widened(owned, LiveKeys(), table);
      owned := owned + {table};
      current := current[th := table];
      values := values[th := map[]];
    }

    method Store(th: Thread, table: IHash, key: nat, value: nat, memory: bool) returns (r: int, ghost slot: nat)
      requires Valid() && th in current && current[th] == table && key in LiveKeys()
      modifies this`values, table, table.items
      ensures fresh(Repr() - old(Repr()))
      ensures r == 0 || (r == -ENOMEM && !memory)
      ensures r == 0 ==> values == Put(old(values), th, key, value)
      ensures r != 0 ==> values == old(values)
      ensures r != 0 || Legal(value) ==> Valid()
      ensures r == 0 && !Legal(value) ==> ValidBut(table) && table.Spoiled(slot, value)
    {
      hide IHash.Valid, IHash.Spoiled, Lists, Apart, AllValid;
      hide Tsd.Tied, Tsd.TiedBut, Tsd.LiveKeys, After, Put;
      var code;
      code, slot := AddTo(th, table, key, value, memory);
      if code == 0 {
        Bind(th, key, value);
      }
      if code != 0 || Legal(value) {
        Rejoined(owned, LiveKeys(), table);
      }
      r := if code == 0 then 0 else -ENOMEM;
    }

    /** Every thread but one is tied to its table; that one's table holds a new value already. */
    ghost predicate TiedBut(th: Thread, key: nat, value: nat)
      reads this`current, this`owned, this`values, owned`contents
    {
      && Owned() && values.Keys == current.Keys && th in current
      && (forall u :: u in current && u != th ==> values[u] == current[u].contents)
      && current[th].contents == After(values[th], key, value)
    }

    ghost method Bind(th: Thread, key: nat, value: nat)
      requires TiedBut(th, key, value)
      modifies this`values
      ensures Tied() && values == Put(old(values), th, key, value)
    {
      values := Put(values, th, key, value);
    }

    /** Adds to one thread's table; the others keep their contents and their storage. */
    method AddTo(th: Thread, table: IHash, key: nat, value: nat, memory: bool) returns (code: int, ghost slot: nat)
      requires Separate() && TablesValid() && Tied() && th in current && current[th] == table && key in LiveKeys()
      modifies table, table.items
      ensures Separate() && AllValid(owned - {table}, LiveKeys()) && fresh(Repr() - old(Repr()))
      ensures code == 0 || (code == ENOMEM && !memory)
      ensures if code == 0 then table.Stored(slot, value) else table.Valid()
      ensures if code == 0 then TiedBut(th, key, value) else Tied()
      ensures forall t :: t in owned ==> t.contents.Keys <= LiveKeys()
    {
      hide IHash.Valid, IHash.Spoiled, Tsd.LiveKeys;
      code, slot := table.Add(key, value, memory);
      assert forall t :: t in owned && t != table ==>
        t.items == old(t.items) && t.contents == old(t.contents) && t.Valid();
    }
  }

  // ----- runs -----

  datatype Op =
    | Create(destructor: nat, slots: bool)
    | Delete(key: nat)
    | Set(th: Thread, key: nat, value: nat, memory: Memory)
    | Get(th: Thread, key: nat)

  /** What came of a call. */
  datatype Event =
    | Created(key: nat)
    | Deleted(key: nat)
    | Stored(th: Thread, key: nat, value: nat)
    | Read(th: Thread, key: nat, value: nat)
    | Refused(errno: int)

  /** The keys handed out so far, whether or not they are still alive. */
  ghost function Issued(events: seq<Event>): set<nat> {
    set i | 0 <= i < |events| && events[i].Created? :: events[i].key
  }

  /** Callers use only keys they were given, and never store a reserved value. */
  ghost predicate Allowed(events: seq<Event>, op: Op) {
    match op
    case Create(destructor, _) => destructor != INVALID
    case Delete(key) => key in Issued(events)
    case Set(_, key, value, _) => key in Issued(events) && Legal(value)
    case Get(_, key) => key in Issued(events)
  }

  /** Reading the history backwards: the thread's last store under the key, unless the key's life changed since. */
  ghost function LastStored(events: seq<Event>, th: Thread, key: nat): nat {
    if events == [] then EMPTY
    else
      var e, before := events[|events| - 1], events[..|events| - 1];
      if e == Created(key) || e == Deleted(key) then EMPTY
      else if e.Stored? && e.th == th && e.key == key then e.value
      else LastStored(before, th, key)
  }

  /** The key has been created and not deleted since. */
  ghost predicate Alive(events: seq<Event>, key: nat) {
    events != []
    && var e := events[|events| - 1];
       e == Created(key) || (e != Deleted(key) && Alive(events[..|events| - 1], key))
  }

  ghost predicate Explained(tsd: Tsd, events: seq<Event>)
    reads tsd
  {
    && (forall k :: k in Issued(events) ==> k < |tsd.destructors|)
    && (forall k :: k in tsd.LiveKeys() <==> Alive(events, k))
    && (forall th, k :: LastStored(events, th, k) == Bound(tsd.values, th, k))
  }

  /**
   The event fits the call: a new key is not in use, a key that is not alive is refused, and a read
   returns the last value stored since the key was created.
   */
  ghost predicate Fits(events: seq<Event>, op: Op, e: Event) {
    match op
    case Create(_, memory) =>
      (e.Created? && !Alive(events, e.key)) || (e == Refused(-ENOMEM) && !memory)
    case Delete(key) => e == if Alive(events, key) then Deleted(key) else Refused(-EINVAL)
    case Set(th, key, value, memory) =>
      if Alive(events, key) then e == Stored(th, key, value) || (e == Refused(-ENOMEM) && !Enough(memory))
      else e == Refused(-EINVAL)
    case Get(th, key) => e == Read(th, key, LastStored(events, th, key))
  }

  /** One more event. */
  lemma HistoryStep(events: seq<Event>, e: Event, th: Thread, key: nat)
    ensures Alive(events + [e], key) <==> e == Created(key) || (e != Deleted(key) && Alive(events, key))
    ensures LastStored(events + [e], th, key) ==
            if e == Created(key) || e == Deleted(key) then EMPTY
            else if e.Stored? && e.th == th && e.key == key then e.value
            else LastStored(events, th, key)
  {
    assert (events + [e])[..|events|] == events;
  }

  method Step(tsd: Tsd, op: Op, ghost events: seq<Event>) returns (e: Event)
    requires tsd.Valid() && Explained(tsd, events) && Allowed(events, op)
    modifies tsd.Repr()
    ensures tsd.Valid() && fresh(tsd.Repr() - old(tsd.Repr()))
    ensures Fits(events, op, e) && Explained(tsd, events + [e])
  {
    hide Tsd.Valid, Tsd.ValidBut, Tsd.Readable, Tsd.OthersReadable, Tsd.LiveKeys, LastStored, Alive;
    ghost var issued := Issued(events);
    var r, overrun;
    match op {
      case Create(destructor, memory) =>
        var key;
        r, key := tsd.KeyCreate(destructor, memory);
        e := if r == 0 then Created(key) else Refused(r);
      case Delete(key) =>
        r, overrun := tsd.KeyDelete(key);
        e := if r == 0 then Deleted(key) else Refused(r);
      case Set(th, key, value, memory) =>
        ghost var slot;
        r, overrun, slot := tsd.SetSpecific(th, key, value, memory);
        e := if r == 0 then Stored(th, key, value) else Refused(r);
      case Get(th, key) =>
        var value;
        tsd.StillReadable(th);
        value, overrun := tsd.GetSpecific(th, key);
        e := Read(th, key, value);
    }
    ghost var after := events + [e];
    assert forall k :: k in Issued(after) ==> k in issued || e == Created(k);
    forall th, k ensures LastStored(after, th, k) == Bound(tsd.values, th, k) {
      HistoryStep(events, e, th, k);
    }
    forall k ensures k in tsd.LiveKeys() <==> Alive(after, k) {
      HistoryStep(events, e, 0, k);
    }
  }

  lemma NothingHappened(tsd: Tsd)
    requires tsd.LiveKeys() == {} && tsd.values == map[]
    ensures Explained(tsd, [])
  {
    hide Tsd.LiveKeys;
  }

  /**
   For any number of threads calling in any order, every read returns the thread's last value under
   the key. The client picks each call from what happened before.
   */
  method Run(client: seq<Event> -> Op, calls: nat) returns (events: seq<Event>)
    requires forall history :: Allowed(history, client(history))
    ensures |events| == calls
    ensures forall i :: 0 <= i < calls ==> Fits(events[..i], client(events[..i]), events[i])
  {
    hide Tsd.Valid, Fits, Allowed, Explained;
    var tsd := new Tsd();
    events := [];
    NothingHappened(tsd);
    for i := 0 to calls
      invariant tsd.Valid() && fresh(tsd.Repr()) && Explained(tsd, events) && |events| == i
      invariant forall j :: 0 <= j < i ==> Fits(events[..j], client(events[..j]), events[j])
    {
      var e := Step(tsd, client(events), events);
      ghost var before := events;
      events := events + [e];
      assert before[..i] == before && forall j :: 0 <= j <= i ==> events[..j] == before[..j];
    }
  }
}
