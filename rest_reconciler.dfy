/**
 * The REST client's modification path (__handle_modification and the four
 * public entry points over it): fetch the record, overwrite the first entry
 * of each requested type, append an entry for each type the record lacks
 * (when adding is allowed), and PUT only the touched entries together with
 * their indices.
 */
module RestReconciler {
  import opened Wrappers
  import opened HandleRecord
  import opened IndexAllocator
  import opened RestEntries

  /** One keyword argument: a handle value type and its new data. */
  type Change = (string, Data)

  /** The keys of the keyword arguments, in order. */
  function Keys(changes: seq<Change>): (ks: seq<string>)
    ensures |ks| == |changes| && forall m :: 0 <= m < |changes| ==> ks[m] == changes[m].0
  {
    if changes == [] then [] else [changes[0].0] + Keys(changes[1..])
  }

  /**
   * The state of the loop: the fetched entries as modified so far, and the
   * entries to send. The source's list_of_old_and_new_entries is always
   * current + payload (it holds the same dict objects).
   */
  datatype ModState = ModState(current: seq<Entry>, payload: seq<Entry>)

  /**
   * Overwriting a found entry: its data becomes the new value and its
   * timestamp is popped (a KeyError when it has none). For HS_ADMIN the new
   * value gets the permissions (a TypeError when it is a str) and then the
   * timestamp is popped a second time, which always raises a KeyError.
   */
  function ModifyEntry(e: Entry, key: string, newval: Data): (r: Result<Entry, Error>)
    ensures r.Ok? <==> e.timestamp.Some? && key != HS_ADMIN
    ensures r.Ok? ==> r.value == e.(data := newval, timestamp := None)
    ensures r.Err? && e.timestamp.None? ==> r == Err(KeyError("timestamp"))
  {
    if e.timestamp.None? then Err(KeyError("timestamp"))
    else if key == HS_ADMIN then
      if IsDict(newval) then Err(KeyError("timestamp"))
      else Err(TypeError("'str' object does not support item assignment"))
    else Ok(e.(data := newval, timestamp := None))
  }

  /**
   * The first entry of type key is at position i: overwrite it, unless the
   * record holds a second entry of that type.
   */
  function MatchStep(handle: string, st: ModState, key: string, newval: Data, i: nat): Result<ModState, Error>
    requires i < |st.current|
  {
    match ModifyEntry(st.current[i], key, newval)
    case Err(err) => Err(err)
    case Ok(e) =>
      if FirstOf(Types(st.current), key, i + 1).Some? then Err(BrokenHandleRecord(handle))
      else Ok(ModState(st.current[i := e], st.payload + [e]))
  }

  /** The record has no entry of type key: append one at a fresh default-mode index. */
  function AddStep(ttl: Option<int>, st: ModState, key: string, newval: Data): Result<ModState, Error>
  {
    match CreateEntry(key, newval, NextIndex(Indices(st.current + st.payload), false, false), ttl)
    case Err(err) => Err(err)
    case Ok(e) => Ok(ModState(st.current, st.payload + [e]))
  }

  /** One iteration of the outer loop, for the keyword argument key=newval. */
  function ApplyChange(handle: string, ttl: Option<int>, add: bool, st: ModState, key: string, newval: Data)
    : Result<ModState, Error>
  {
    match FirstOf(Types(st.current), key, 0)
    case Some(i) => MatchStep(handle, st, key, newval, i)
    case None => if add then AddStep(ttl, st, key, newval) else Ok(st)
  }

  /** The outer loop over the keyword arguments. */
  function ApplyChanges(handle: string, ttl: Option<int>, add: bool, st: ModState, changes: seq<Change>)
    : Result<ModState, Error>
    decreases |changes|
  {
    if changes == [] then Ok(st)
    else
      match ApplyChange(handle, ttl, add, st, changes[0].0, changes[0].1)
      case Err(err) => Err(err)
      case Ok(st') => ApplyChanges(handle, ttl, add, st', changes[1..])
  }

  /**
   * __handle_modification, given the fetched record's entries (None when the
   * handle does not exist): the PUT it sends, or the exception it raises.
   * When nothing changed no PUT is sent and the final return reads the
   * unbound local 'resp'.
   */
  function Reconcile(handle: string, ttl: Option<int>, add: bool, overwrite: bool, modifyHsAdmin: bool,
                     fetched: Option<seq<Entry>>, changes: seq<Change>): (r: Result<PutRequest, Error>)
    ensures fetched.None? ==> r == Err(HandleNotFound(handle))
    ensures fetched.Some? && HS_ADMIN in Keys(changes) && !modifyHsAdmin ==> r == Err(IllegalOperation("modifying HS_ADMIN"))
    ensures r.Ok? ==> r.value.handle == handle && r.value.overwrite == overwrite && r.value.entries != []
    ensures r.Ok? ==> r.value.indices == Some(Indices(r.value.entries))
  {
    if fetched.None? then Err(HandleNotFound(handle))
    else if HS_ADMIN in Keys(changes) && !modifyHsAdmin then Err(IllegalOperation("modifying HS_ADMIN"))
    else
      match ApplyChanges(handle, ttl, add, ModState(fetched.value, []), changes)
      case Err(err) => Err(err)
      case Ok(st) =>
        if st.payload == [] then Err(UnboundLocalError("resp"))
        else Ok(PutRequest(handle, st.payload, Some(Indices(st.payload)), overwrite))
  }

  // ---------------------------------------------------------------------
  // What the loop keeps
  // ---------------------------------------------------------------------

  /** A slot of the fetched list is untouched, or was overwritten once in place. */
  ghost predicate SlotOk(f: Entry, c: Entry)
  {
    c == f
    || (f.timestamp.Some? && c.timestamp.None? && c.index == f.index && c.valueType == f.valueType && c.ttl == f.ttl)
  }

  ghost predicate SlotsOk(fetched: seq<Entry>, current: seq<Entry>)
  {
    |current| == |fetched| && forall i :: 0 <= i < |fetched| ==> SlotOk(fetched[i], current[i])
  }

  /**
   * p overwrote fetched[i]: same type, index and ttl, the timestamp dropped,
   * and i is the only position of that type in the fetched record.
   */
  ghost predicate ModifiedAt(fetched: seq<Entry>, i: int, p: Entry)
  {
    0 <= i < |fetched|
    && p.valueType == fetched[i].valueType && p.index == fetched[i].index && p.ttl == fetched[i].ttl
    && fetched[i].timestamp.Some? && p.timestamp.None? && p.valueType != HS_ADMIN
    && forall j :: 0 <= j < |fetched| && fetched[j].valueType == p.valueType ==> j == i
  }

  ghost predicate Modified(fetched: seq<Entry>, p: Entry)
  {
    exists i :: ModifiedAt(fetched, i, p)
  }

  /**
   * p was added after the entries before it: adding was allowed, the record
   * has no entry of its type, it carries the ttl argument and no timestamp,
   * and its index is a default-mode index used neither by the record nor by
   * an earlier added or modified entry.
   */
  ghost predicate AddedAfter(fetched: seq<Entry>, add: bool, ttl: Option<int>, before: seq<Entry>, p: Entry)
  {
    add && p.valueType !in Types(fetched) && p.valueType != HS_ADMIN && p.ttl == ttl && p.timestamp.None?
    && p.index !in Indices(fetched) && p.index !in Indices(before)
    && p.index >= 2 && !(100 <= p.index < 200)
  }

  /** Each sent entry was modified in place (and is still in its slot) or added. */
  ghost predicate PayloadShape(fetched: seq<Entry>, add: bool, ttl: Option<int>, st: ModState)
  {
    |st.current| == |fetched|
    && forall j :: 0 <= j < |st.payload| ==>
         (exists i :: ModifiedAt(fetched, i, st.payload[j]) && st.current[i] == st.payload[j])
         || AddedAfter(fetched, add, ttl, st.payload[..j], st.payload[j])
  }

  /** Each sent entry carries a (type, data) pair among the keyword arguments handled so far. */
  ghost predicate FromChanges(done: seq<Change>, payload: seq<Entry>)
  {
    forall j :: 0 <= j < |payload| ==> (payload[j].valueType, payload[j].data) in done
  }

  /** Each handled key the record has, or any handled key when adding, is among the sent types. */
  ghost predicate Covers(fetched: seq<Entry>, add: bool, done: seq<Change>, payload: seq<Entry>)
  {
    forall m :: 0 <= m < |done| && (done[m].0 in Types(fetched) || add) ==> done[m].0 in Types(payload)
  }

  ghost predicate KeepsDistinct(fetched: seq<Entry>, payload: seq<Entry>)
  {
    Distinct(Indices(fetched)) ==> Distinct(Indices(payload))
  }

  /** What holds after the keyword arguments done have been handled. */
  ghost predicate StateInv(fetched: seq<Entry>, add: bool, ttl: Option<int>, done: seq<Change>, st: ModState)
  {
    SlotsOk(fetched, st.current)
    && PayloadShape(fetched, add, ttl, st)
    && FromChanges(done, st.payload)
    && Covers(fetched, add, done, st.payload)
    && KeepsDistinct(fetched, st.payload)
  }

  lemma SlotsKeepTypesAndIndices(fetched: seq<Entry>, current: seq<Entry>)
    requires SlotsOk(fetched, current)
    ensures Types(current) == Types(fetched) && Indices(current) == Indices(fetched)
  {
    assert forall i :: 0 <= i < |fetched| ==> Types(current)[i] == Types(fetched)[i];
    assert forall i :: 0 <= i < |fetched| ==> Indices(current)[i] == Indices(fetched)[i];
  }

  lemma TypesSnoc(a: seq<Entry>, e: Entry)
    ensures Types(a + [e]) == Types(a) + [e.valueType]
  {
    assert forall i :: 0 <= i < |a| + 1 ==> Types(a + [e])[i] == (Types(a) + [e.valueType])[i];
  }

  /** The invariant holds before the loop. */
  lemma StateInvInit(fetched: seq<Entry>, add: bool, ttl: Option<int>)
    ensures StateInv(fetched, add, ttl, [], ModState(fetched, []))
  {
  }

  lemma FromChangesSnoc(done: seq<Change>, payload: seq<Entry>, key: string, newval: Data, e: Entry)
    requires FromChanges(done, payload) && e.valueType == key && e.data == newval
    ensures FromChanges(done + [(key, newval)], payload + [e])
  {
    var done' := done + [(key, newval)];
    var payload' := payload + [e];
    forall j | 0 <= j < |payload'|
      ensures (payload'[j].valueType, payload'[j].data) in done'
    {
      if j < |payload| {
        assert payload'[j] == payload[j];
        assert (payload[j].valueType, payload[j].data) in done;
      } else {
        assert done'[|done|] == (key, newval);
      }
    }
  }

  lemma FromChangesSkip(done: seq<Change>, payload: seq<Entry>, c: Change)
    requires FromChanges(done, payload)
    ensures FromChanges(done + [c], payload)
  {
    forall j | 0 <= j < |payload|
      ensures (payload[j].valueType, payload[j].data) in done + [c]
    {
      assert (payload[j].valueType, payload[j].data) in done;
    }
  }

  lemma CoversSnoc(fetched: seq<Entry>, add: bool, done: seq<Change>, payload: seq<Entry>, key: string, newval: Data, e: Entry)
    requires Covers(fetched, add, done, payload) && e.valueType == key
    ensures Covers(fetched, add, done + [(key, newval)], payload + [e])
  {
    TypesSnoc(payload, e);
    var done' := done + [(key, newval)];
    forall m | 0 <= m < |done'| && (done'[m].0 in Types(fetched) || add)
      ensures done'[m].0 in Types(payload + [e])
    {
      if m < |done| {
        assert done'[m] == done[m];
      }
    }
  }

  lemma CoversSkip(fetched: seq<Entry>, done: seq<Change>, payload: seq<Entry>, key: string, newval: Data)
    requires Covers(fetched, false, done, payload) && key !in Types(fetched)
    ensures Covers(fetched, false, done + [(key, newval)], payload)
  {
    var done' := done + [(key, newval)];
    forall m | 0 <= m < |done'| && done'[m].0 in Types(fetched)
      ensures done'[m].0 in Types(payload)
    {
      assert m < |done| && done'[m] == done[m];
    }
  }

  /** The entry found first is still as fetched, and overwriting it gives a ModifiedAt entry. */
  lemma MatchFacts(fetched: seq<Entry>, st: ModState, key: string, newval: Data, i: nat)
    requires SlotsOk(fetched, st.current)
    requires FirstOf(Types(st.current), key, 0) == Some(i)
    requires FirstOf(Types(st.current), key, i + 1).None?
    requires ModifyEntry(st.current[i], key, newval).Ok?
    ensures st.current[i] == fetched[i]
    ensures ModifiedAt(fetched, i, ModifyEntry(st.current[i], key, newval).value)
  {
    SlotsKeepTypesAndIndices(fetched, st.current);
    forall j | 0 <= j < |fetched| && fetched[j].valueType == key
      ensures j == i
    {
      assert Types(st.current)[j] == key;
    }
  }

  lemma MatchSlots(fetched: seq<Entry>, current: seq<Entry>, i: int, e: Entry)
    requires SlotsOk(fetched, current) && 0 <= i < |current| && ModifiedAt(fetched, i, e)
    ensures SlotsOk(fetched, current[i := e])
  {
  }

  lemma MatchShape(fetched: seq<Entry>, add: bool, ttl: Option<int>, st: ModState, i: int, e: Entry)
    requires PayloadShape(fetched, add, ttl, st)
    requires 0 <= i < |st.current| && st.current[i].timestamp.Some? && ModifiedAt(fetched, i, e)
    ensures PayloadShape(fetched, add, ttl, ModState(st.current[i := e], st.payload + [e]))
  {
    var st' := ModState(st.current[i := e], st.payload + [e]);
    forall j | 0 <= j < |st'.payload|
      ensures (exists i0 :: ModifiedAt(fetched, i0, st'.payload[j]) && st'.current[i0] == st'.payload[j])
              || AddedAfter(fetched, add, ttl, st'.payload[..j], st'.payload[j])
    {
      if j == |st.payload| {
        assert st'.current[i] == e && st'.payload[j] == e;
      } else {
        assert st'.payload[j] == st.payload[j] && st'.payload[..j] == st.payload[..j];
        if exists i0 :: ModifiedAt(fetched, i0, st.payload[j]) && st.current[i0] == st.payload[j] {
          var i0 :| ModifiedAt(fetched, i0, st.payload[j]) && st.current[i0] == st.payload[j];
          assert i0 != i;
          assert st'.current[i0] == st'.payload[j];
        }
      }
    }
  }

  lemma MatchDistinct(fetched: seq<Entry>, add: bool, ttl: Option<int>, st: ModState, i: int, e: Entry)
    requires PayloadShape(fetched, add, ttl, st) && KeepsDistinct(fetched, st.payload)
    requires 0 <= i < |st.current| && st.current[i].timestamp.Some? && ModifiedAt(fetched, i, e)
    ensures KeepsDistinct(fetched, st.payload + [e])
  {
    if Distinct(Indices(fetched)) {
      forall j | 0 <= j < |st.payload|
        ensures st.payload[j].index != e.index
      {
        if exists i0 :: ModifiedAt(fetched, i0, st.payload[j]) && st.current[i0] == st.payload[j] {
          var i0 :| ModifiedAt(fetched, i0, st.payload[j]) && st.current[i0] == st.payload[j];
          assert i0 != i;
          assert Indices(fetched)[i0] != Indices(fetched)[i];
        } else {
          assert Indices(fetched)[i] == e.index;
        }
      }
      assert e.index !in Indices(st.payload);
      AppendKeepsDistinct(st.payload, e);
    }
  }

  lemma DistinctSnoc(xs: seq<int>, x: int)
    requires Distinct(xs) && x !in xs
    ensures Distinct(xs + [x])
  {
  }

  lemma AppendKeepsDistinct(payload: seq<Entry>, e: Entry)
    requires Distinct(Indices(payload)) && e.index !in Indices(payload)
    ensures Distinct(Indices(payload + [e]))
  {
    IndicesAppend(payload, [e]);
    assert Indices([e]) == [e.index];
    DistinctSnoc(Indices(payload), e.index);
  }

  /** The entry AddStep appends is an AddedAfter entry. */
  lemma AddFacts(fetched: seq<Entry>, add: bool, ttl: Option<int>, st: ModState, key: string, newval: Data)
    requires SlotsOk(fetched, st.current) && add && FirstOf(Types(st.current), key, 0).None?
    requires AddStep(ttl, st, key, newval).Ok?
    ensures var e := Entry(NextIndex(Indices(st.current + st.payload), false, false), key, newval, ttl, None);
      AddStep(ttl, st, key, newval) == Ok(ModState(st.current, st.payload + [e]))
      && AddedAfter(fetched, add, ttl, st.payload, e)
  {
    SlotsKeepTypesAndIndices(fetched, st.current);
    IndicesAppend(st.current, st.payload);
  }

  lemma AddShape(fetched: seq<Entry>, add: bool, ttl: Option<int>, st: ModState, e: Entry)
    requires PayloadShape(fetched, add, ttl, st) && AddedAfter(fetched, add, ttl, st.payload, e)
    ensures PayloadShape(fetched, add, ttl, ModState(st.current, st.payload + [e]))
  {
    var st' := ModState(st.current, st.payload + [e]);
    forall j | 0 <= j < |st'.payload|
      ensures (exists i0 :: ModifiedAt(fetched, i0, st'.payload[j]) && st'.current[i0] == st'.payload[j])
              || AddedAfter(fetched, add, ttl, st'.payload[..j], st'.payload[j])
    {
      if j == |st.payload| {
        assert st'.payload[..j] == st.payload;
      } else {
        assert st'.payload[j] == st.payload[j] && st'.payload[..j] == st.payload[..j];
      }
    }
  }

  lemma ApplyChangeKeeps(handle: string, ttl: Option<int>, add: bool, fetched: seq<Entry>, done: seq<Change>,
                         st: ModState, key: string, newval: Data)
    requires StateInv(fetched, add, ttl, done, st)
    requires ApplyChange(handle, ttl, add, st, key, newval).Ok?
    ensures StateInv(fetched, add, ttl, done + [(key, newval)], ApplyChange(handle, ttl, add, st, key, newval).value)
  {
    match FirstOf(Types(st.current), key, 0)
    case Some(i) =>
      MatchFacts(fetched, st, key, newval, i);
      var e := ModifyEntry(st.current[i], key, newval).value;
      assert ApplyChange(handle, ttl, add, st, key, newval).value == ModState(st.current[i := e], st.payload + [e]);
      MatchSlots(fetched, st.current, i, e);
      MatchShape(fetched, add, ttl, st, i, e);
      FromChangesSnoc(done, st.payload, key, newval, e);
      CoversSnoc(fetched, add, done, st.payload, key, newval, e);
      MatchDistinct(fetched, add, ttl, st, i, e);
    case None =>
      if add {
        AddFacts(fetched, add, ttl, st, key, newval);
        var e := Entry(NextIndex(Indices(st.current + st.payload), false, false), key, newval, ttl, None);
        AddShape(fetched, add, ttl, st, e);
        FromChangesSnoc(done, st.payload, key, newval, e);
        CoversSnoc(fetched, add, done, st.payload, key, newval, e);
        if Distinct(Indices(fetched)) {
          AppendKeepsDistinct(st.payload, e);
        }
      } else {
        SlotsKeepTypesAndIndices(fetched, st.current);
        FromChangesSkip(done, st.payload, (key, newval));
        CoversSkip(fetched, done, st.payload, key, newval);
      }
  }

  lemma ConsShift(done: seq<Change>, changes: seq<Change>)
    requires changes != []
    ensures done + [changes[0]] + changes[1..] == done + changes
  {
  }

  lemma {:induction false} ApplyChangesKeeps(handle: string, ttl: Option<int>, add: bool, fetched: seq<Entry>,
                                             done: seq<Change>, st: ModState, changes: seq<Change>)
    requires StateInv(fetched, add, ttl, done, st)
    requires ApplyChanges(handle, ttl, add, st, changes).Ok?
    ensures StateInv(fetched, add, ttl, done + changes, ApplyChanges(handle, ttl, add, st, changes).value)
    decreases |changes|
  {
    if changes == [] {
      assert done + changes == done;
    } else {
      var c := changes[0];
      ApplyChangeKeeps(handle, ttl, add, fetched, done, st, c.0, c.1);
      var st' := ApplyChange(handle, ttl, add, st, c.0, c.1).value;
      assert ApplyChanges(handle, ttl, add, st, changes) == ApplyChanges(handle, ttl, add, st', changes[1..]);
      ApplyChangesKeeps(handle, ttl, add, fetched, done + [c], st', changes[1..]);
      ConsShift(done, changes);
    }
  }

  // ---------------------------------------------------------------------
  // What a modification sends
  // ---------------------------------------------------------------------

  /**
   * A successful modification of an existing handle sends, in order, entries
   * each of which either overwrote the only record entry of its type
   * (keeping index and ttl, dropping the timestamp) or was added for a type
   * the record lacks at a fresh default-mode index with the ttl argument.
   * Every sent entry carries a requested (type, data) pair; a requested key
   * is sent exactly when the record has it or adding is allowed; HS_ADMIN is
   * never sent; and the sent indices are distinct when the record's are.
   */
  lemma ReconcileSuccess(handle: string, ttl: Option<int>, add: bool, overwrite: bool, modifyHsAdmin: bool,
                         fetched: Option<seq<Entry>>, changes: seq<Change>)
    ensures var r := Reconcile(handle, ttl, add, overwrite, modifyHsAdmin, fetched, changes);
      r.Ok? ==> (
        fetched.Some?
        && (forall j :: 0 <= j < |r.value.entries| ==>
              Modified(fetched.value, r.value.entries[j])
              || AddedAfter(fetched.value, add, ttl, r.value.entries[..j], r.value.entries[j]))
        && (forall j :: 0 <= j < |r.value.entries| ==> (r.value.entries[j].valueType, r.value.entries[j].data) in changes)
        && (forall m :: 0 <= m < |changes| ==>
              (changes[m].0 in Types(r.value.entries) <==> changes[m].0 in Types(fetched.value) || add))
        && HS_ADMIN !in Types(r.value.entries)
        && (Distinct(Indices(fetched.value)) ==> Distinct(Indices(r.value.entries))))
  {
    var r := Reconcile(handle, ttl, add, overwrite, modifyHsAdmin, fetched, changes);
    if r.Ok? {
      var st := ApplyChanges(handle, ttl, add, ModState(fetched.value, []), changes).value;
      assert r.value.entries == st.payload;
      SentEntries(handle, ttl, add, fetched.value, changes);
    }
  }

  /** The loop's invariant, read off after the last keyword argument. */
  lemma SentEntries(handle: string, ttl: Option<int>, add: bool, fetched: seq<Entry>, changes: seq<Change>)
    requires ApplyChanges(handle, ttl, add, ModState(fetched, []), changes).Ok?
    ensures var p := ApplyChanges(handle, ttl, add, ModState(fetched, []), changes).value.payload;
      (forall j :: 0 <= j < |p| ==> Modified(fetched, p[j]) || AddedAfter(fetched, add, ttl, p[..j], p[j]))
      && (forall j :: 0 <= j < |p| ==> (p[j].valueType, p[j].data) in changes)
      && (forall m :: 0 <= m < |changes| ==> (changes[m].0 in Types(p) <==> changes[m].0 in Types(fetched) || add))
      && HS_ADMIN !in Types(p)
      && (Distinct(Indices(fetched)) ==> Distinct(Indices(p)))
  {
    var st0 := ModState(fetched, []);
    StateInvInit(fetched, add, ttl);
    ApplyChangesKeeps(handle, ttl, add, fetched, [], st0, changes);
    assert [] + changes == changes;
    InvMeaning(fetched, add, ttl, changes, ApplyChanges(handle, ttl, add, st0, changes).value);
  }

  /** The loop's invariant after all keyword arguments, spelled out for the payload. */
  lemma InvMeaning(fetched: seq<Entry>, add: bool, ttl: Option<int>, changes: seq<Change>, st: ModState)
    requires StateInv(fetched, add, ttl, changes, st)
    ensures var p := st.payload;
      (forall j :: 0 <= j < |p| ==> Modified(fetched, p[j]) || AddedAfter(fetched, add, ttl, p[..j], p[j]))
      && (forall j :: 0 <= j < |p| ==> (p[j].valueType, p[j].data) in changes)
      && (forall m :: 0 <= m < |changes| ==> (changes[m].0 in Types(p) <==> changes[m].0 in Types(fetched) || add))
      && HS_ADMIN !in Types(p)
      && (Distinct(Indices(fetched)) ==> Distinct(Indices(p)))
  {
    PayloadOrigins(fetched, add, ttl, st);
    PayloadTypes(fetched, add, ttl, st);
    var p := st.payload;
    forall m | 0 <= m < |changes| && changes[m].0 in Types(p)
      ensures changes[m].0 in Types(fetched) || add
    {
      var j :| 0 <= j < |p| && Types(p)[j] == changes[m].0;
    }
  }

  /** Each sent entry was modified in place or added. */
  lemma PayloadOrigins(fetched: seq<Entry>, add: bool, ttl: Option<int>, st: ModState)
    requires PayloadShape(fetched, add, ttl, st)
    ensures var p := st.payload;
      forall j :: 0 <= j < |p| ==> Modified(fetched, p[j]) || AddedAfter(fetched, add, ttl, p[..j], p[j])
  {
  }

  /** Each sent type is in the record or was added, and is not HS_ADMIN. */
  lemma PayloadTypes(fetched: seq<Entry>, add: bool, ttl: Option<int>, st: ModState)
    requires PayloadShape(fetched, add, ttl, st)
    ensures forall j :: 0 <= j < |st.payload| ==> Types(st.payload)[j] in Types(fetched) || add
    ensures HS_ADMIN !in Types(st.payload)
  {
    var p := st.payload;
    forall j | 0 <= j < |p|
      ensures p[j].valueType in Types(fetched) || add
      ensures Types(p)[j] != HS_ADMIN
    {
      if exists i :: ModifiedAt(fetched, i, p[j]) && st.current[i] == p[j] {
        var i :| ModifiedAt(fetched, i, p[j]) && st.current[i] == p[j];
        assert Types(fetched)[i] == p[j].valueType;
      }
    }
  }

  /** A requested key of which the record holds two entries makes the modification fail. */
  lemma DuplicateTypeFails(handle: string, ttl: Option<int>, add: bool, overwrite: bool, modifyHsAdmin: bool,
                           es: seq<Entry>, changes: seq<Change>, m: int, a: int, b: int)
    requires 0 <= m < |changes| && 0 <= a < b < |es|
    requires es[a].valueType == changes[m].0 && es[b].valueType == changes[m].0
    ensures Reconcile(handle, ttl, add, overwrite, modifyHsAdmin, Some(es), changes).Err?
  {
    var r := Reconcile(handle, ttl, add, overwrite, modifyHsAdmin, Some(es), changes);
    assert Types(es)[a] == changes[m].0;
    ReconcileSuccess(handle, ttl, add, overwrite, modifyHsAdmin, Some(es), changes);
    if r.Ok? {
      NotSentTwice(es, add, ttl, r.value.entries, changes[m].0, a, b);
      assert false;
    }
  }

  /** A type the record holds twice is in no payload the loop can build. */
  lemma NotSentTwice(fetched: seq<Entry>, add: bool, ttl: Option<int>, p: seq<Entry>, key: string, a: int, b: int)
    requires 0 <= a < b < |fetched| && fetched[a].valueType == key && fetched[b].valueType == key
    requires forall j :: 0 <= j < |p| ==> Modified(fetched, p[j]) || AddedAfter(fetched, add, ttl, p[..j], p[j])
    ensures key !in Types(p)
  {
    assert Types(fetched)[a] == key;
    forall j | 0 <= j < |p|
      ensures Types(p)[j] != key
    {
      if Modified(fetched, p[j]) {
        var i :| ModifiedAt(fetched, i, p[j]);
        assert p[j].valueType == key ==> a == i && b == i;
      } else {
        assert AddedAfter(fetched, add, ttl, p[..j], p[j]);
        assert p[j].valueType !in Types(fetched);
      }
      assert Types(p)[j] == p[j].valueType;
    }
  }

  /**
   * HS_ADMIN can never be modified through this path: when it is requested
   * and the record has it (or adding is allowed), the call fails whatever
   * modify_HS_ADMIN is set to.
   */
  lemma HsAdminNeverModified(handle: string, ttl: Option<int>, add: bool, overwrite: bool, modifyHsAdmin: bool,
                             es: seq<Entry>, changes: seq<Change>)
    requires HS_ADMIN in Keys(changes)
    requires HS_ADMIN in Types(es) || add
    ensures Reconcile(handle, ttl, add, overwrite, modifyHsAdmin, Some(es), changes).Err?
  {
    var m :| 0 <= m < |changes| && Keys(changes)[m] == HS_ADMIN;
    ReconcileSuccess(handle, ttl, add, overwrite, modifyHsAdmin, Some(es), changes);
  }

  /** Without adding, a run that passes no check and finds none of its keys keeps the state. */
  lemma {:induction false} NoMatchNoChange(handle: string, ttl: Option<int>, st: ModState, changes: seq<Change>)
    requires forall m :: 0 <= m < |changes| ==> changes[m].0 !in Types(st.current)
    ensures ApplyChanges(handle, ttl, false, st, changes) == Ok(st)
    decreases |changes|
  {
    if changes != [] {
      assert FirstOf(Types(st.current), changes[0].0, 0).None?;
      NoMatchNoChange(handle, ttl, st, changes[1..]);
    }
  }

  /**
   * Nothing to modify and adding not allowed: no PUT is sent and the final
   * return fails on the unbound local 'resp'.
   */
  lemma NothingChangedIsUnbound(handle: string, ttl: Option<int>, overwrite: bool, modifyHsAdmin: bool,
                                es: seq<Entry>, changes: seq<Change>)
    requires forall m :: 0 <= m < |changes| ==> changes[m].0 !in Types(es)
    requires modifyHsAdmin || HS_ADMIN !in Keys(changes)
    ensures Reconcile(handle, ttl, false, overwrite, modifyHsAdmin, Some(es), changes) == Err(UnboundLocalError("resp"))
  {
    NoMatchNoChange(handle, ttl, ModState(es, []), changes);
  }

  // ---------------------------------------------------------------------
  // The scenarios of the unit tests
  // ---------------------------------------------------------------------

  function TestEntry(index: int, valueType: string, value: string): Entry
  {
    Entry(index, valueType, Formatted("string", Str(value)), Some(86400), Some("2015-09-29T15:51:08Z"))
  }

  /** The record the modification tests fetch for my/testhandle. */
  function TestRecord(): seq<Entry>
  {
    [TestEntry(111, "TEST1", "val1"), TestEntry(2222, "TEST2", "val2"),
     TestEntry(333, "TEST3", "val3"), TestEntry(4, "TEST4", "val4")]
  }

  /** Modifying TEST4 sends only that entry, with its index and ttl and without its timestamp. */
  lemma ModifyOneExample()
    ensures Reconcile("my/testhandle", None, true, true, false, Some(TestRecord()), [("TEST4", Bare(Str("newvalue")))])
      == Ok(PutRequest("my/testhandle", [Entry(4, "TEST4", Bare(Str("newvalue")), Some(86400), None)], Some([4]), true))
  {
    var h := "my/testhandle";
    var changes := [("TEST4", Bare(Str("newvalue")))];
    var e := Entry(4, "TEST4", Bare(Str("newvalue")), Some(86400), None);
    var st := ModState(TestRecord(), []);
    assert HS_ADMIN !in Keys(changes);
    assert FirstOf(Types(st.current), "TEST4", 0) == Some(3);
    assert FirstOf(Types(st.current), "TEST4", 4) == None;
    assert ModifyEntry(st.current[3], "TEST4", Bare(Str("newvalue"))) == Ok(e);
    assert st.payload + [e] == [e];
    assert MatchStep(h, st, "TEST4", Bare(Str("newvalue")), 3) == Ok(ModState(st.current[3 := e], [e]));
    assert ApplyChange(h, None, true, st, "TEST4", Bare(Str("newvalue"))) == Ok(ModState(st.current[3 := e], [e]));
    assert ApplyChanges(h, None, true, st, changes) == Ok(ModState(st.current[3 := e], [e]));
    assert Indices([e]) == [4];
  }

  // The entries the several-inexistent test sends, and the loop's states on the way.
  const NEW4 := Entry(4, "TEST4", Bare(Str("new4")), Some(86400), None)
  const NEW2 := Entry(2222, "TEST2", Bare(Str("new2")), Some(86400), None)
  const NEW100 := Entry(2, "TEST100", Bare(Str("new100")), None, None)
  const NEW101 := Entry(3, "TEST101", Bare(Str("new101")), None, None)

  function InexistentChanges(): seq<Change>
  {
    [("TEST4", Bare(Str("new4"))), ("TEST2", Bare(Str("new2"))),
     ("TEST100", Bare(Str("new100"))), ("TEST101", Bare(Str("new101")))]
  }

  /** The first keyword argument overwrites TEST4 in place. */
  lemma InexistentModifyFirst()
    ensures ApplyChange("my/testhandle", None, true, ModState(TestRecord(), []), "TEST4", Bare(Str("new4")))
      == Ok(ModState(TestRecord()[3 := NEW4], [NEW4]))
  {
    var h := "my/testhandle";
    var st0 := ModState(TestRecord(), []);
    var st1 := ModState(TestRecord()[3 := NEW4], [NEW4]);
    assert FirstOf(Types(st0.current), "TEST4", 0) == Some(3);
    assert FirstOf(Types(st0.current), "TEST4", 4) == None;
    assert st0.payload + [NEW4] == [NEW4];
    assert MatchStep(h, st0, "TEST4", Bare(Str("new4")), 3) == Ok(st1);
  }

  /** The second one overwrites TEST2 in place. */
  lemma InexistentModifySecond()
    ensures ApplyChange("my/testhandle", None, true, ModState(TestRecord()[3 := NEW4], [NEW4]), "TEST2", Bare(Str("new2")))
      == Ok(ModState(TestRecord()[3 := NEW4][1 := NEW2], [NEW4, NEW2]))
  {
    var st1 := ModState(TestRecord()[3 := NEW4], [NEW4]);
    assert FirstOf(Types(st1.current), "TEST2", 0) == Some(1);
    assert FirstOf(Types(st1.current), "TEST2", 2) == None;
    assert st1.current[1] == TestEntry(2222, "TEST2", "val2");
    assert ModifyEntry(st1.current[1], "TEST2", Bare(Str("new2"))) == Ok(NEW2);
    assert st1.payload + [NEW2] == [NEW4, NEW2];
  }

  /** The record after the two modifications, with its types and indices. */
  lemma InexistentModified()
    ensures TestRecord()[3 := NEW4][1 := NEW2]
      == [TestEntry(111, "TEST1", "val1"), NEW2, TestEntry(333, "TEST3", "val3"), NEW4]
    ensures Types(TestRecord()[3 := NEW4][1 := NEW2]) == ["TEST1", "TEST2", "TEST3", "TEST4"]
    ensures Indices(TestRecord()[3 := NEW4][1 := NEW2]) == [111, 2222, 333, 4]
  {
  }

  /** The indices the two additions are given: 2, then 3. */
  lemma InexistentIndexFirst()
    ensures NextIndex(Indices(TestRecord()[3 := NEW4][1 := NEW2] + [NEW4, NEW2]), false, false) == 2
  {
    InexistentModified();
    IndicesAppend(TestRecord()[3 := NEW4][1 := NEW2], [NEW4, NEW2]);
    var used := Indices(TestRecord()[3 := NEW4][1 := NEW2] + [NEW4, NEW2]);
    assert used == [111, 2222, 333, 4, 4, 2222];
    NextIndexUnique(used, false, false, 2);
  }

  lemma InexistentIndexSecond()
    ensures NextIndex(Indices(TestRecord()[3 := NEW4][1 := NEW2] + [NEW4, NEW2, NEW100]), false, false) == 3
  {
    InexistentModified();
    IndicesAppend(TestRecord()[3 := NEW4][1 := NEW2], [NEW4, NEW2, NEW100]);
    var used := Indices(TestRecord()[3 := NEW4][1 := NEW2] + [NEW4, NEW2, NEW100]);
    assert used == [111, 2222, 333, 4, 4, 2222, 2];
    NextIndexUnique(used, false, false, 3);
  }

  lemma InexistentAddFirst()
    ensures var cur := TestRecord()[3 := NEW4][1 := NEW2];
      ApplyChange("my/testhandle", None, true, ModState(cur, [NEW4, NEW2]), "TEST100", Bare(Str("new100")))
        == Ok(ModState(cur, [NEW4, NEW2, NEW100]))
  {
    var cur := TestRecord()[3 := NEW4][1 := NEW2];
    InexistentModified();
    InexistentIndexFirst();
    AddsAt("my/testhandle", None, ModState(cur, [NEW4, NEW2]), "TEST100", Bare(Str("new100")), 2);
    assert [NEW4, NEW2] + [NEW100] == [NEW4, NEW2, NEW100];
  }

  lemma InexistentAddSecond()
    ensures var cur := TestRecord()[3 := NEW4][1 := NEW2];
      ApplyChange("my/testhandle", None, true, ModState(cur, [NEW4, NEW2, NEW100]), "TEST101", Bare(Str("new101")))
        == Ok(ModState(cur, [NEW4, NEW2, NEW100, NEW101]))
  {
    var cur := TestRecord()[3 := NEW4][1 := NEW2];
    InexistentModified();
    InexistentIndexSecond();
    AddsAt("my/testhandle", None, ModState(cur, [NEW4, NEW2, NEW100]), "TEST101", Bare(Str("new101")), 3);
    assert [NEW4, NEW2, NEW100] + [NEW101] == [NEW4, NEW2, NEW100, NEW101];
  }

  /** A key the current record lacks is added, when adding is allowed, at the next default-mode index. */
  lemma AddsAt(handle: string, ttl: Option<int>, st: ModState, key: string, newval: Data, idx: int)
    requires key !in Types(st.current) && key != HS_ADMIN
    requires NextIndex(Indices(st.current + st.payload), false, false) == idx
    ensures ApplyChange(handle, ttl, true, st, key, newval)
      == Ok(ModState(st.current, st.payload + [Entry(idx, key, newval, ttl, None)]))
  {
    FirstOfNone(Types(st.current), key, 0);
  }

  /**
   * Modifying TEST4 and TEST2 and adding TEST100 and TEST101: the two
   * modified entries keep their indices and ttl, the two added ones get the
   * free indices 2 and 3 and no ttl.
   */
  lemma SeveralInexistentExample()
    ensures Reconcile("my/testhandle", None, true, true, false, Some(TestRecord()), InexistentChanges())
      == Ok(PutRequest("my/testhandle", [NEW4, NEW2, NEW100, NEW101], Some([4, 2222, 2, 3]), true))
  {
    var cur := TestRecord()[3 := NEW4][1 := NEW2];
    InexistentRun();
    InexistentKeys();
    ReconcileSends("my/testhandle", None, true, true, false, TestRecord(), InexistentChanges(),
                   ModState(cur, [NEW4, NEW2, NEW100, NEW101]));
    IndicesOfFour(NEW4, NEW2, NEW100, NEW101);
  }

  lemma IndicesOfFour(a: Entry, b: Entry, c: Entry, d: Entry)
    ensures Indices([a, b, c, d]) == [a.index, b.index, c.index, d.index]
  {
    var r := Indices([a, b, c, d]);
    assert r[0] == a.index && r[1] == b.index && r[2] == c.index && r[3] == d.index;
  }

  /** A run of the loop that leaves a payload is sent, with the payload's indices. */
  lemma ReconcileSends(handle: string, ttl: Option<int>, add: bool, overwrite: bool, modifyHsAdmin: bool,
                       rec: seq<Entry>, changes: seq<Change>, st: ModState)
    requires HS_ADMIN !in Keys(changes) || modifyHsAdmin
    requires ApplyChanges(handle, ttl, add, ModState(rec, []), changes) == Ok(st) && st.payload != []
    ensures Reconcile(handle, ttl, add, overwrite, modifyHsAdmin, Some(rec), changes)
      == Ok(PutRequest(handle, st.payload, Some(Indices(st.payload)), overwrite))
  {
  }

  lemma InexistentKeys()
    ensures HS_ADMIN !in Keys(InexistentChanges())
  {
    assert Keys(InexistentChanges()) == ["TEST4", "TEST2", "TEST100", "TEST101"];
  }

  /** The four iterations of the outer loop, chained. */
  lemma InexistentRun()
    ensures ApplyChanges("my/testhandle", None, true, ModState(TestRecord(), []), InexistentChanges())
      == Ok(ModState(TestRecord()[3 := NEW4][1 := NEW2], [NEW4, NEW2, NEW100, NEW101]))
  {
    var h := "my/testhandle";
    var c0, c1, c2, c3 := ("TEST4", Bare(Str("new4"))), ("TEST2", Bare(Str("new2"))),
                          ("TEST100", Bare(Str("new100"))), ("TEST101", Bare(Str("new101")));
    var cur := TestRecord()[3 := NEW4][1 := NEW2];
    assert InexistentChanges() == [c0] + ([c1] + ([c2] + ([c3] + [])));
    InexistentModifyFirst();
    InexistentModifySecond();
    InexistentAddFirst();
    InexistentAddSecond();
    ApplyChangesStep(h, None, true, ModState(TestRecord(), []), c0, [c1] + ([c2] + ([c3] + [])),
                     ModState(TestRecord()[3 := NEW4], [NEW4]));
    ApplyChangesStep(h, None, true, ModState(TestRecord()[3 := NEW4], [NEW4]), c1, [c2] + ([c3] + []),
                     ModState(cur, [NEW4, NEW2]));
    ApplyChangesStep(h, None, true, ModState(cur, [NEW4, NEW2]), c2, [c3] + [], ModState(cur, [NEW4, NEW2, NEW100]));
    ApplyChangesStep(h, None, true, ModState(cur, [NEW4, NEW2, NEW100]), c3, [],
                     ModState(cur, [NEW4, NEW2, NEW100, NEW101]));
  }

  /** A keyword argument that is handled without error hands its state on to the rest. */
  lemma ApplyChangesStep(handle: string, ttl: Option<int>, add: bool, st: ModState, c: Change, rest: seq<Change>, st': ModState)
    requires ApplyChange(handle, ttl, add, st, c.0, c.1) == Ok(st')
    ensures ApplyChanges(handle, ttl, add, st, [c] + rest) == ApplyChanges(handle, ttl, add, st', rest)
  {
    var cs := [c] + rest;
    ApplyChangesCons(handle, ttl, add, st, cs);
    assert cs[0] == c && cs[1..] == rest;
  }

  /** One unfolding of the outer loop. */
  lemma ApplyChangesCons(handle: string, ttl: Option<int>, add: bool, st: ModState, changes: seq<Change>)
    requires changes != []
    ensures ApplyChanges(handle, ttl, add, st, changes)
      == match ApplyChange(handle, ttl, add, st, changes[0].0, changes[0].1)
         case Err(err) => Err(err)
         case Ok(st') => ApplyChanges(handle, ttl, add, st', changes[1..])
  {
  }

  /** The record has TEST2 twice: the call fails with BrokenHandleRecord and sends nothing. */
  lemma CorruptedExample()
    ensures Reconcile("my/testhandle", None, true, true, false,
                      Some([TestEntry(111, "TEST1", "val1"), TestEntry(2222, "TEST2", "val2"),
                            TestEntry(333, "TEST2", "val3"), TestEntry(4, "TEST4", "val4")]),
                      [("TEST4", Bare(Str("new4"))), ("TEST2", Bare(Str("new2"))), ("TEST3", Bare(Str("new3")))])
      == Err(BrokenHandleRecord("my/testhandle"))
  {
    var h := "my/testhandle";
    var changes := [("TEST4", Bare(Str("new4"))), ("TEST2", Bare(Str("new2"))), ("TEST3", Bare(Str("new3")))];
    var rec := [TestEntry(111, "TEST1", "val1"), TestEntry(2222, "TEST2", "val2"),
                TestEntry(333, "TEST2", "val3"), TestEntry(4, "TEST4", "val4")];
    var e4 := Entry(4, "TEST4", Bare(Str("new4")), Some(86400), None);
    var st0 := ModState(rec, []);
    var st1 := ModState(rec[3 := e4], [e4]);
    assert HS_ADMIN !in Keys(changes);
    assert FirstOf(Types(st0.current), "TEST4", 0) == Some(3);
    assert FirstOf(Types(st0.current), "TEST4", 4) == None;
    assert st0.payload + [e4] == [e4];
    assert MatchStep(h, st0, "TEST4", Bare(Str("new4")), 3) == Ok(st1);
    assert FirstOf(Types(st1.current), "TEST2", 0) == Some(1);
    assert FirstOf(Types(st1.current), "TEST2", 2) == Some(2);
    assert MatchStep(h, st1, "TEST2", Bare(Str("new2")), 1) == Err(BrokenHandleRecord(h));
    assert ApplyChanges(h, None, true, st1, changes[1..]) == Err(BrokenHandleRecord(h));
  }

  /** HS_ADMIN is requested while modify_HS_ADMIN is off: IllegalOperation, before anything is looked at. */
  lemma HsAdminRefusedExample()
    ensures Reconcile("my/testhandle", None, true, true, false, Some(TestRecord()),
                      [("HS_ADMIN", Bare(Str("please let me in!")))])
      == Err(IllegalOperation("modifying HS_ADMIN"))
  {
    assert Keys([("HS_ADMIN", Bare(Str("please let me in!")))])[0] == HS_ADMIN;
  }

  // ---------------------------------------------------------------------
  // The source's loops
  // ---------------------------------------------------------------------

  /**
   * __handle_modification as written: the outer loop over the keyword
   * arguments with its nothingchanged flag, then the loop that collects the
   * indices of the payload.
   */
  method HandleModification(cfg: Config, handle: string, ttl: Option<int>, add: bool, overwrite: bool,
                            fetched: Option<seq<Entry>>, changes: seq<Change>)
    returns (r: Result<PutRequest, Error>)
    ensures r == Reconcile(handle, ttl, add, overwrite, cfg.modifyHsAdmin, fetched, changes)
  {
    if fetched.None? {
      return Err(HandleNotFound(handle));
    }
    if HS_ADMIN in Keys(changes) && !cfg.modifyHsAdmin {
      return Err(IllegalOperation("modifying HS_ADMIN"));
    }
    var loop := KeywordLoop(handle, ttl, add, fetched.value, changes);
    if loop.Err? {
      return Err(loop.error);
    }
    var newEntries, nothingChanged := loop.value.1, loop.value.2;
    var indices := PayloadIndices(newEntries);
    if nothingChanged {
      return Err(UnboundLocalError("resp"));
    }
    return Ok(PutRequest(handle, newEntries, Some(indices), overwrite));
  }

  /**
   * The outer loop of __handle_modification over the keyword arguments:
   * the fetched list, the payload and list_of_old_and_new_entries as they
   * evolve, and the nothingchanged flag. Returns the final fetched list,
   * payload and flag.
   */
  method KeywordLoop(handle: string, ttl: Option<int>, add: bool, fetched: seq<Entry>, changes: seq<Change>)
    returns (r: Result<(seq<Entry>, seq<Entry>, bool), Error>)
    ensures var a := ApplyChanges(handle, ttl, add, ModState(fetched, []), changes);
      (a.Err? ==> r == Err(a.error))
      && (a.Ok? ==> r.Ok? && r.value.0 == a.value.current && r.value.1 == a.value.payload
                    && (r.value.2 <==> a.value.payload == []))
  {
    ghost var st0 := ModState(fetched, []);
    var existing := fetched;
    var newEntries: seq<Entry> := [];
    var oldAndNew := existing;
    var nothingChanged := true;
    var k := 0;
    while k < |changes|
      invariant 0 <= k <= |changes|
      invariant oldAndNew == existing + newEntries
      invariant nothingChanged <==> newEntries == []
      invariant ApplyChanges(handle, ttl, add, st0, changes)
        == ApplyChanges(handle, ttl, add, ModState(existing, newEntries), changes[k..])
    {
      var key := changes[k].0;
      var newval := changes[k].1;
      ApplyChangesCons(handle, ttl, add, ModState(existing, newEntries), changes[k..]);
      assert changes[k..][0] == changes[k] && changes[k..][1..] == changes[k + 1..];
      var step := OneChange(handle, ttl, add, key, newval, existing, newEntries, oldAndNew);
      if step.Err? {
        return Err(step.error);
      }
      var changed: bool;
      existing, newEntries, oldAndNew, changed := step.value.0, step.value.1, step.value.2, step.value.3;
      if changed {
        nothingChanged := false;
      }
      k := k + 1;
    }
    assert changes[k..] == [];
    return Ok((existing, newEntries, nothingChanged));
  }

  /** The loop after the keyword arguments: the index of every payload entry, in order. */
  method PayloadIndices(payload: seq<Entry>) returns (indices: seq<int>)
    ensures indices == Indices(payload)
  {
    indices := [];
    var j := 0;
    while j < |payload|
      invariant 0 <= j <= |payload|
      invariant |indices| == j && forall t :: 0 <= t < j ==> indices[t] == payload[t].index
    {
      indices := indices + [payload[j].index];
      j := j + 1;
    }
  }

  /**
   * The body of the outer loop for key=newval: the scan of the fetched
   * entries, then, when no entry matched and adding is allowed, a new entry
   * at an index made up from list_of_old_and_new_entries. Returns the new
   * existing list, payload and list_of_old_and_new_entries, and the changed
   * flag.
   */
  method OneChange(handle: string, ttl: Option<int>, add: bool, key: string, newval: Data,
                   existing0: seq<Entry>, payload0: seq<Entry>, oldAndNew0: seq<Entry>)
    returns (r: Result<(seq<Entry>, seq<Entry>, seq<Entry>, bool), Error>)
    requires oldAndNew0 == existing0 + payload0
    ensures var a := ApplyChange(handle, ttl, add, ModState(existing0, payload0), key, newval);
      (a.Err? ==> r == Err(a.error))
      && (a.Ok? ==> r.Ok? && r.value.0 == a.value.current && r.value.1 == a.value.payload
                    && r.value.2 == r.value.0 + r.value.1
                    && (if r.value.3 then |r.value.1| == |payload0| + 1 else r.value.1 == payload0))
  {
    var scan := ScanEntries(handle, key, newval, existing0, payload0, oldAndNew0);
    if scan.Err? {
      return Err(scan.error);
    }
    var existing, newEntries, oldAndNew, changed := scan.value.0, scan.value.1, scan.value.2, scan.value.3;
    if !changed && add {
      var index := MakeAnotherIndex(oldAndNew, false, false);
      var entry := CreateEntry(key, newval, index, ttl);
      if entry.Err? {
        return Err(entry.error);
      }
      newEntries := newEntries + [entry.value];
      oldAndNew := oldAndNew + [entry.value];
      changed := true;
    }
    return Ok((existing, newEntries, oldAndNew, changed));
  }

  /**
   * The inner loop: for each fetched entry of type key, overwrite the first
   * one in place (appending it to both lists) and raise
   * BrokenHandleRecord on a second one.
   */
  method ScanEntries(handle: string, key: string, newval: Data,
                     existing0: seq<Entry>, payload0: seq<Entry>, oldAndNew0: seq<Entry>)
    returns (r: Result<(seq<Entry>, seq<Entry>, seq<Entry>, bool), Error>)
    requires oldAndNew0 == existing0 + payload0
    ensures FirstOf(Types(existing0), key, 0).None? ==> r == Ok((existing0, payload0, oldAndNew0, false))
    ensures FirstOf(Types(existing0), key, 0).Some? ==>
      var m := MatchStep(handle, ModState(existing0, payload0), key, newval, FirstOf(Types(existing0), key, 0).value);
      (m.Err? ==> r == Err(m.error))
      && (m.Ok? ==> r == Ok((m.value.current, m.value.payload, m.value.current + m.value.payload, true)))
  {
    var existing := existing0;
    var newEntries := payload0;
    var oldAndNew := oldAndNew0;
    var changed := false;
    ghost var s0 := (existing0, payload0, oldAndNew0, false);
    var i := 0;
    while i < |existing|
      invariant 0 <= i <= |existing| == |existing0|
      invariant oldAndNew == existing + newEntries
      invariant ScanFrom(handle, key, newval, (existing, newEntries, oldAndNew, changed), i)
        == ScanFrom(handle, key, newval, s0, 0)
    {
      if existing[i].valueType == key {
        if !changed {
          var o := OverwriteEntry(key, newval, existing, newEntries, oldAndNew, i);
          if o.Err? {
            ScanMeaning(handle, key, newval, existing0, payload0);
            return Err(o.error);
          }
          existing, newEntries, oldAndNew := o.value.0, o.value.1, o.value.2;
          changed := true;
        } else {
          ScanMeaning(handle, key, newval, existing0, payload0);
          return Err(BrokenHandleRecord(handle));
        }
      }
      i := i + 1;
    }
    ScanMeaning(handle, key, newval, existing0, payload0);
    return Ok((existing, newEntries, oldAndNew, changed));
  }

  /** The state the inner loop carries: the entries, the payload, their concatenation, and whether one was changed. */
  type ScanState = (seq<Entry>, seq<Entry>, seq<Entry>, bool)

  /** The inner loop from position i on, one iteration per entry. */
  function ScanFrom(handle: string, key: string, newval: Data, s: ScanState, i: nat): Result<ScanState, Error>
    decreases |s.0| - i
  {
    if i >= |s.0| then Ok(s)
    else if s.0[i].valueType != key then ScanFrom(handle, key, newval, s, i + 1)
    else if s.3 then Err(BrokenHandleRecord(handle))
    else match ModifyEntry(s.0[i], key, newval)
      case Err(err) => Err(err)
      case Ok(e) => ScanFrom(handle, key, newval, (s.0[i := e], s.1 + [e], s.0[i := e] + (s.1 + [e]), true), i + 1)
  }

  /** After the overwrite at first, the rest of the scan fails exactly when a second entry of type key follows. */
  lemma {:induction false} ScanAfterMatch(handle: string, key: string, newval: Data, e0: seq<Entry>, s: ScanState,
                                          first: nat, m: Entry, i: nat)
    requires first < i <= |e0| && s.0 == e0[first := m] && s.3
    requires FirstOf(Types(e0), key, first + 1) == FirstOf(Types(e0), key, i)
    ensures ScanFrom(handle, key, newval, s, i)
      == if FirstOf(Types(e0), key, i).Some? then Err(BrokenHandleRecord(handle)) else Ok(s)
    decreases |e0| - i
  {
    var ts := Types(e0);
    if i < |e0| {
      assert s.0[i] == e0[i];
      if ts[i] != key {
        assert FirstOf(ts, key, i) == FirstOf(ts, key, i + 1);
        ScanAfterMatch(handle, key, newval, e0, s, first, m, i + 1);
      }
    }
  }

  /** Before the first match the scan changes nothing; its outcome is that of MatchStep at the first match. */
  lemma {:induction false} ScanBeforeMatch(handle: string, key: string, newval: Data, e0: seq<Entry>, p0: seq<Entry>, i: nat)
    requires i <= |e0| && FirstOf(Types(e0), key, 0) == FirstOf(Types(e0), key, i)
    ensures var r := ScanFrom(handle, key, newval, (e0, p0, e0 + p0, false), i);
      match FirstOf(Types(e0), key, 0)
      case None => r == Ok((e0, p0, e0 + p0, false))
      case Some(f) =>
        match MatchStep(handle, ModState(e0, p0), key, newval, f)
        case Err(err) => r == Err(err)
        case Ok(st) => r == Ok((st.current, st.payload, st.current + st.payload, true))
    decreases |e0| - i
  {
    var ts := Types(e0);
    var s := (e0, p0, e0 + p0, false);
    if i < |e0| {
      if ts[i] != key {
        assert FirstOf(ts, key, i) == FirstOf(ts, key, i + 1);
        ScanBeforeMatch(handle, key, newval, e0, p0, i + 1);
      } else {
        assert FirstOf(ts, key, i) == Some(i);
        match ModifyEntry(e0[i], key, newval)
        case Err(err) =>
        case Ok(m) =>
          var s1 := (e0[i := m], p0 + [m], e0[i := m] + (p0 + [m]), true);
          ScanAfterMatch(handle, key, newval, e0, s1, i, m, i + 1);
      }
    }
  }

  /** The whole scan, stated with FirstOf and MatchStep. */
  lemma ScanMeaning(handle: string, key: string, newval: Data, e0: seq<Entry>, p0: seq<Entry>)
    ensures var r := ScanFrom(handle, key, newval, (e0, p0, e0 + p0, false), 0);
      match FirstOf(Types(e0), key, 0)
      case None => r == Ok((e0, p0, e0 + p0, false))
      case Some(f) =>
        match MatchStep(handle, ModState(e0, p0), key, newval, f)
        case Err(err) => r == Err(err)
        case Ok(st) => r == Ok((st.current, st.payload, st.current + st.payload, true))
  {
    ScanBeforeMatch(handle, key, newval, e0, p0, 0);
  }

  /**
   * The first match: set the entry's data, pop its timestamp (and, for
   * HS_ADMIN, set the permissions and pop it again), then append the entry to
   * both lists. The entry is one dict object, so the copy in
   * list_of_old_and_new_entries changes with it.
   */
  method OverwriteEntry(key: string, newval: Data, existing: seq<Entry>, newEntries: seq<Entry>,
                        oldAndNew: seq<Entry>, i: nat)
    returns (r: Result<(seq<Entry>, seq<Entry>, seq<Entry>), Error>)
    requires i < |existing| && oldAndNew == existing + newEntries
    ensures var o := ModifyEntry(existing[i], key, newval);
      (o.Err? ==> r == Err(o.error))
      && (o.Ok? ==> r == Ok((existing[i := o.value], newEntries + [o.value],
                             existing[i := o.value] + (newEntries + [o.value]))))
  {
    if existing[i].timestamp.None? {
      return Err(KeyError("timestamp"));
    }
    if key == HS_ADMIN {
      if !IsDict(newval) {
        return Err(TypeError("'str' object does not support item assignment"));
      }
      return Err(KeyError("timestamp"));
    }
    var current := existing[i].(data := newval, timestamp := None);
    assert (existing + newEntries)[i := current] + [current]
      == existing[i := current] + (newEntries + [current]);
    return Ok((existing[i := current], newEntries + [current], oldAndNew[i := current] + [current]));
  }

  /** modify_or_add_handle_value: add missing keys, overwrite on the server. */
  method ModifyOrAddHandleValue(cfg: Config, handle: string, ttl: Option<int>, fetched: Option<seq<Entry>>,
                                changes: seq<Change>) returns (r: Result<PutRequest, Error>)
    ensures r == Reconcile(handle, ttl, true, true, cfg.modifyHsAdmin, fetched, changes)
  {
    r := HandleModification(cfg, handle, ttl, true, true, fetched, changes);
  }

  /** modify_handle_value_not_add: skip missing keys, overwrite on the server. */
  method ModifyHandleValueNotAdd(cfg: Config, handle: string, ttl: Option<int>, fetched: Option<seq<Entry>>,
                                 changes: seq<Change>) returns (r: Result<PutRequest, Error>)
    ensures r == Reconcile(handle, ttl, false, true, cfg.modifyHsAdmin, fetched, changes)
  {
    r := HandleModification(cfg, handle, ttl, false, true, fetched, changes);
  }

  /** add_handle_value: add missing keys, do not overwrite on the server. */
  method AddHandleValue(cfg: Config, handle: string, ttl: Option<int>, fetched: Option<seq<Entry>>,
                        changes: seq<Change>) returns (r: Result<PutRequest, Error>)
    ensures r == Reconcile(handle, ttl, true, false, cfg.modifyHsAdmin, fetched, changes)
  {
    r := HandleModification(cfg, handle, ttl, true, false, fetched, changes);
  }

  /** modify_handle_value: the caller chooses whether to add; always overwrite. */
  method ModifyHandleValue(cfg: Config, handle: string, ttl: Option<int>, add: bool, fetched: Option<seq<Entry>>,
                           changes: seq<Change>) returns (r: Result<PutRequest, Error>)
    ensures r == Reconcile(handle, ttl, add, true, cfg.modifyHsAdmin, fetched, changes)
  {
    r := HandleModification(cfg, handle, ttl, add, true, fetched, changes);
  }
}
