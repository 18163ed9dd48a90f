/**
 * The REST client's read and delete helpers: the indices of the entries of
 * one type, the record as a flat type-to-value dict (first entry of a type
 * wins), a single value, the index collection and safety checks of
 * delete_handle_value, the argument check of delete_handle, the reuse of an
 * already retrieved record, and the check of the handle the server returns.
 */
module RestAccess {
  import opened Wrappers
  import opened PyStr
  import opened HandleRecord

  // ---------------------------------------------------------------------
  // get_handlerecord_indices_for_key
  // ---------------------------------------------------------------------

  /** The Handle System indices of the entries of type key, in record order. */
  function IndicesOf(key: string, es: seq<Entry>): (r: seq<int>)
    ensures |r| <= |es|
  {
    if es == [] then []
    else (if es[0].valueType == key then [es[0].index] else []) + IndicesOf(key, es[1..])
  }

  /** Filtering distributes over concatenation of records. */
  lemma {:induction false} IndicesOfAppend(key: string, a: seq<Entry>, b: seq<Entry>)
    ensures IndicesOf(key, a + b) == IndicesOf(key, a) + IndicesOf(key, b)
  {
    if a == [] {
      assert a + b == b;
    } else {
      var h := if a[0].valueType == key then [a[0].index] else [];
      var ab := a + b;
      assert ab[0] == a[0] && ab[1..] == a[1..] + b;
      assert IndicesOf(key, ab) == h + IndicesOf(key, a[1..] + b);
      IndicesOfAppend(key, a[1..], b);
      assert IndicesOf(key, a) == h + IndicesOf(key, a[1..]);
      SeqAssoc(h, IndicesOf(key, a[1..]), IndicesOf(key, b));
    }
  }

  lemma SeqAssoc(x: seq<int>, y: seq<int>, z: seq<int>)
    ensures x + (y + z) == (x + y) + z
  {
  }

  /**
   * An index is listed exactly when some entry of type key carries it, and
   * the list is empty exactly when no entry has that type.
   */
  lemma IndicesOfMembers(key: string, es: seq<Entry>)
    ensures forall i :: 0 <= i < |es| && es[i].valueType == key ==> es[i].index in IndicesOf(key, es)
    ensures forall x :: x in IndicesOf(key, es) ==> exists i :: 0 <= i < |es| && es[i].valueType == key && es[i].index == x
    ensures IndicesOf(key, es) == [] <==> key !in Types(es)
  {
    IndicesOfComplete(key, es);
    IndicesOfSound(key, es);
    IndicesOfEmpty(key, es);
  }

  lemma {:induction false} IndicesOfComplete(key: string, es: seq<Entry>)
    ensures forall i :: 0 <= i < |es| && es[i].valueType == key ==> es[i].index in IndicesOf(key, es)
  {
    if es != [] {
      var t := es[1..];
      var h := if es[0].valueType == key then [es[0].index] else [];
      assert IndicesOf(key, es) == h + IndicesOf(key, t);
      IndicesOfComplete(key, t);
      forall i | 0 <= i < |es| && es[i].valueType == key
        ensures es[i].index in IndicesOf(key, es)
      {
        if i > 0 {
          assert t[i - 1] == es[i];
        }
      }
    }
  }

  lemma {:induction false} IndicesOfSound(key: string, es: seq<Entry>)
    ensures forall x :: x in IndicesOf(key, es) ==> exists i :: 0 <= i < |es| && es[i].valueType == key && es[i].index == x
  {
    if es != [] {
      var t := es[1..];
      var h := if es[0].valueType == key then [es[0].index] else [];
      assert IndicesOf(key, es) == h + IndicesOf(key, t);
      IndicesOfSound(key, t);
      forall x | x in IndicesOf(key, es)
        ensures exists i :: 0 <= i < |es| && es[i].valueType == key && es[i].index == x
      {
        if !(es[0].valueType == key && es[0].index == x) {
          assert x in IndicesOf(key, t);
          var j :| 0 <= j < |t| && t[j].valueType == key && t[j].index == x;
          assert es[j + 1] == t[j];
        }
      }
    }
  }

  lemma {:induction false} IndicesOfEmpty(key: string, es: seq<Entry>)
    ensures IndicesOf(key, es) == [] <==> key !in Types(es)
  {
    if es != [] {
      var t := es[1..];
      var h := if es[0].valueType == key then [es[0].index] else [];
      assert IndicesOf(key, es) == h + IndicesOf(key, t);
      IndicesOfEmpty(key, t);
      assert Types(es) == [es[0].valueType] + Types(t);
    }
  }

  /** On a record with distinct indices, no index is listed twice. */
  lemma {:induction false} IndicesOfDistinct(key: string, es: seq<Entry>)
    requires Distinct(Indices(es))
    ensures Distinct(IndicesOf(key, es))
  {
    if es != [] {
      assert Distinct(Indices(es[1..])) by {
        forall a, b | 0 <= a < b < |es[1..]|
          ensures Indices(es[1..])[a] != Indices(es[1..])[b]
        {
          assert Indices(es)[a + 1] == Indices(es[1..])[a];
          assert Indices(es)[b + 1] == Indices(es[1..])[b];
        }
      }
      IndicesOfDistinct(key, es[1..]);
      IndicesOfMembers(key, es[1..]);
      if es[0].valueType == key {
        forall x | x in IndicesOf(key, es[1..])
          ensures x != es[0].index
        {
          var j :| 0 <= j < |es[1..]| && es[1..][j].valueType == key && es[1..][j].index == x;
          assert Indices(es)[j + 1] == x && Indices(es)[0] == es[0].index;
        }
        DistinctCons(es[0].index, IndicesOf(key, es[1..]));
      }
    }
  }

  lemma DistinctCons(x: int, xs: seq<int>)
    requires Distinct(xs) && x !in xs
    ensures Distinct([x] + xs)
  {
    forall a, b | 0 <= a < b < |[x] + xs|
      ensures ([x] + xs)[a] != ([x] + xs)[b]
    {
      if a > 0 {
        assert ([x] + xs)[a] == xs[a - 1];
      }
      assert ([x] + xs)[b] == xs[b - 1];
    }
  }

  /** get_handlerecord_indices_for_key as written: the loop that appends each matching index. */
  method IndicesForKey(key: string, es: seq<Entry>) returns (indices: seq<int>)
    ensures indices == IndicesOf(key, es)
  {
    indices := [];
    var k := 0;
    while k < |es|
      invariant 0 <= k <= |es|
      invariant indices == IndicesOf(key, es[..k])
    {
      IndicesOfAppend(key, es[..k], [es[k]]);
      assert es[..k + 1] == es[..k] + [es[k]];
      if es[k].valueType == key {
        indices := indices + [es[k].index];
      }
      k := k + 1;
    }
    assert es[..k] == es;
  }

  // ---------------------------------------------------------------------
  // Reading data.value
  // ---------------------------------------------------------------------

  /**
   * entry['data']['value']: a dict data holds its value; a str data cannot
   * be indexed by a string; an HS_ADMIN-shaped dict without the {'format',
   * 'value'} wrapper has no key 'value'.
   */
  function ValueOf(d: Data): (r: Result<Value, Error>)
    ensures r.Ok? <==> d.Formatted?
    ensures r.Ok? ==> r.value == d.value
  {
    match d
    case Formatted(_, v) => Ok(v)
    case Bare(Str(_)) => Err(TypeError("string indices must be integers"))
    case Bare(Admin(_, _, _)) => Err(KeyError("value"))
  }

  // ---------------------------------------------------------------------
  // retrieve_handle_record
  // ---------------------------------------------------------------------

  /** The loop of retrieve_handle_record: a type already in the dict is skipped, so the first entry wins. */
  function FirstValues(es: seq<Entry>, acc: map<string, Value>): Result<map<string, Value>, Error>
    decreases |es|
  {
    if es == [] then Ok(acc)
    else if es[0].valueType in acc then FirstValues(es[1..], acc)
    else
      match ValueOf(es[0].data)
      case Err(err) => Err(err)
      case Ok(v) => FirstValues(es[1..], acc[es[0].valueType := v])
  }

  /** The types of the entries, as a set. */
  function TypeSet(es: seq<Entry>): (ts: set<string>)
    ensures forall i :: 0 <= i < |es| ==> es[i].valueType in ts
    ensures forall t :: t in ts ==> exists i :: 0 <= i < |es| && es[i].valueType == t
  {
    set i | 0 <= i < |es| :: es[i].valueType
  }

  /** Entry i is the first of its type. */
  predicate IsFirst(es: seq<Entry>, i: int)
    requires 0 <= i < |es|
  {
    forall j :: 0 <= j < i ==> es[j].valueType != es[i].valueType
  }

  /** Past the head, being first in the record is being first in its tail with another type than the head's. */
  lemma IsFirstShift(es: seq<Entry>, i: int)
    requires 0 < i < |es|
    ensures IsFirst(es, i) <==> es[i].valueType != es[0].valueType && IsFirst(es[1..], i - 1)
  {
    assert es[1..][i - 1] == es[i];
    if es[i].valueType != es[0].valueType && IsFirst(es[1..], i - 1) {
      forall j | 0 <= j < i ensures es[j].valueType != es[i].valueType {
        if j > 0 {
          assert es[1..][j - 1] == es[j];
        }
      }
    }
    if IsFirst(es, i) {
      forall j | 0 <= j < i - 1 ensures es[1..][j].valueType != es[1..][i - 1].valueType {
        assert es[1..][j] == es[j + 1];
      }
    }
  }

  /** The types of the entries with the head's type added. */
  lemma TypeSetCons(es: seq<Entry>)
    requires es != []
    ensures TypeSet(es) == {es[0].valueType} + TypeSet(es[1..])
  {
    forall u | u in TypeSet(es) ensures u in {es[0].valueType} + TypeSet(es[1..]) {
      var i :| 0 <= i < |es| && es[i].valueType == u;
      if i > 0 { assert es[1..][i - 1] == es[i]; }
    }
    forall u | u in TypeSet(es[1..]) ensures u in TypeSet(es) {
      var i :| 0 <= i < |es[1..]| && es[1..][i].valueType == u;
      assert es[i + 1] == es[1..][i];
    }
  }

  /** One turn of the loop: a known type is skipped, a new one is read and stored. */
  lemma FirstValuesCons(es: seq<Entry>, acc: map<string, Value>)
    requires es != [] && (es[0].valueType in acc || ValueOf(es[0].data).Ok?)
    ensures FirstValues(es, acc)
      == FirstValues(es[1..], if es[0].valueType in acc then acc else acc[es[0].valueType := ValueOf(es[0].data).value])
  {
  }

  /** A successful loop keeps what acc held and adds every type of the entries. */
  lemma {:induction false} FirstValuesKeys(es: seq<Entry>, acc: map<string, Value>)
    requires FirstValues(es, acc).Ok?
    ensures var m := FirstValues(es, acc).value;
      m.Keys == acc.Keys + TypeSet(es) && forall t :: t in acc ==> m[t] == acc[t]
    decreases |es|
  {
    if es != [] {
      var t := es[0].valueType;
      var acc' := if t in acc then acc else acc[t := ValueOf(es[0].data).value];
      FirstValuesCons(es, acc);
      FirstValuesKeys(es[1..], acc');
      TypeSetCons(es);
    }
  }

  /** A successful loop maps each type it adds to the value of the first entry of that type. */
  lemma {:induction false} FirstValuesFirst(es: seq<Entry>, acc: map<string, Value>)
    requires FirstValues(es, acc).Ok?
    ensures var m := FirstValues(es, acc).value;
      forall i :: 0 <= i < |es| && es[i].valueType !in acc && IsFirst(es, i) ==>
        es[i].valueType in m && ValueOf(es[i].data) == Ok(m[es[i].valueType])
    decreases |es|
  {
    if es != [] {
      var t := es[0].valueType;
      var acc' := if t in acc then acc else acc[t := ValueOf(es[0].data).value];
      FirstValuesCons(es, acc);
      FirstValuesFirst(es[1..], acc');
      FirstValuesKeys(es[1..], acc');
      var m := FirstValues(es, acc).value;
      forall i | 0 <= i < |es| && es[i].valueType !in acc && IsFirst(es, i)
        ensures es[i].valueType in m && ValueOf(es[i].data) == Ok(m[es[i].valueType])
      {
        if i > 0 {
          IsFirstShift(es, i);
          assert es[1..][i - 1] == es[i];
        }
      }
    }
  }

  /**
   * The loop fails exactly when the first entry of some new type has data
   * without a 'value' to read; a later entry of the same type is never read.
   */
  lemma {:induction false} FirstValuesFails(es: seq<Entry>, acc: map<string, Value>)
    ensures FirstValues(es, acc).Err? <==>
      exists i :: 0 <= i < |es| && es[i].valueType !in acc && IsFirst(es, i) && ValueOf(es[i].data).Err?
    decreases |es|
  {
    if es != [] {
      var t := es[0].valueType;
      assert IsFirst(es, 0);
      if t in acc || ValueOf(es[0].data).Ok? {
        var acc' := if t in acc then acc else acc[t := ValueOf(es[0].data).value];
        FirstValuesCons(es, acc);
        FirstValuesFails(es[1..], acc');
        if FirstValues(es, acc).Err? {
          var j :| 0 <= j < |es[1..]| && es[1..][j].valueType !in acc' && IsFirst(es[1..], j) && ValueOf(es[1..][j].data).Err?;
          IsFirstShift(es, j + 1);
          assert es[j + 1] == es[1..][j];
        } else {
          forall i | 0 <= i < |es| && es[i].valueType !in acc && IsFirst(es, i)
            ensures ValueOf(es[i].data).Ok?
          {
            if i > 0 {
              IsFirstShift(es, i);
              assert es[1..][i - 1] == es[i];
            }
          }
        }
      }
    }
  }

  /** retrieve_handle_record on the record obtained: None when there is none, else the first value of each type. */
  function RecordAsDict(record: Option<Record>): Result<Option<map<string, Value>>, Error>
  {
    if record.None? then Ok(None)
    else
      match FirstValues(record.value.values, map[])
      case Err(err) => Err(err)
      case Ok(m) => Ok(Some(m))
  }

  /**
   * The dict holds exactly the types of the record, each with the value of
   * the first entry of that type; it fails exactly when one of those first
   * entries has no readable value.
   */
  lemma RecordAsDictFirstWins(record: Option<Record>)
    ensures record.None? ==> RecordAsDict(record) == Ok(None)
    ensures record.Some? ==>
      var es := record.value.values;
      (RecordAsDict(record).Err? <==> exists i :: 0 <= i < |es| && IsFirst(es, i) && ValueOf(es[i].data).Err?)
      && (RecordAsDict(record).Ok? ==>
            var m := RecordAsDict(record).value.value;
            m.Keys == TypeSet(es)
            && forall i :: 0 <= i < |es| && IsFirst(es, i) ==> ValueOf(es[i].data) == Ok(m[es[i].valueType]))
  {
    if record.Some? {
      var es := record.value.values;
      FirstValuesFails(es, map[]);
      if FirstValues(es, map[]).Ok? {
        FirstValuesKeys(es, map[]);
        FirstValuesFirst(es, map[]);
      }
    }
  }

  /** retrieve_handle_record as written: the for loop that fills the dict. */
  method RetrieveHandleRecord(record: Option<Record>) returns (r: Result<Option<map<string, Value>>, Error>)
    ensures r == RecordAsDict(record)
  {
    if record.None? {
      return Ok(None);
    }
    var entries := record.value.values;
    var dict: map<string, Value> := map[];
    var k := 0;
    while k < |entries|
      invariant 0 <= k <= |entries|
      invariant FirstValues(entries, map[]) == FirstValues(entries[k..], dict)
    {
      assert entries[k..][0] == entries[k] && entries[k..][1..] == entries[k + 1..];
      var key := entries[k].valueType;
      if key !in dict {
        var v := ValueOf(entries[k].data);
        if v.Err? {
          return Err(v.error);
        }
        dict := dict[key := v.value];
      }
      k := k + 1;
    }
    assert entries[k..] == [];
    return Ok(Some(dict));
  }

  // ---------------------------------------------------------------------
  // get_value_from_handle
  // ---------------------------------------------------------------------

  /** get_value_from_handle on the record obtained: the value of the first entry of type key, if any. */
  function ValueFromRecord(handle: string, record: Option<Record>, key: string): (r: Result<Option<Value>, Error>)
    ensures record.None? ==> r == Err(HandleNotFound(handle))
    ensures record.Some? && key !in Types(record.value.values) ==> r == Ok(None)
  {
    if record.None? then Err(HandleNotFound(handle))
    else
      var es := record.value.values;
      match FirstOf(Types(es), key, 0)
      case None => Ok(None)
      case Some(i) =>
        match ValueOf(es[i].data)
        case Err(err) => Err(err)
        case Ok(v) => Ok(Some(v))
  }

  /**
   * get_value_from_handle agrees with retrieve_handle_record: when the
   * whole record converts to a dict, the single value is the dict's entry
   * for key, and None exactly when the dict has no such key.
   */
  lemma ValueAgreesWithDict(handle: string, record: Option<Record>, key: string)
    requires record.Some? && RecordAsDict(record).Ok?
    ensures var m := RecordAsDict(record).value.value;
      ValueFromRecord(handle, record, key) == if key in m then Ok(Some(m[key])) else Ok(None)
  {
    RecordAsDictFirstWins(record);
    var es := record.value.values;
    var first := FirstOf(Types(es), key, 0);
    if first.Some? {
      assert es[first.value].valueType == key;
      assert IsFirst(es, first.value) by {
        forall j | 0 <= j < first.value ensures es[j].valueType != key {
          assert Types(es)[j] != key;
        }
      }
    } else {
      forall i | 0 <= i < |es| ensures es[i].valueType != key {
        assert Types(es)[i] != key;
      }
    }
  }

  /** get_value_from_handle as written: the loop collecting every position of type key, then the first of them. */
  method GetValueFromHandle(handle: string, record: Option<Record>, key: string) returns (r: Result<Option<Value>, Error>)
    ensures r == ValueFromRecord(handle, record, key)
  {
    if record.None? {
      return Err(HandleNotFound(handle));
    }
    var entries := record.value.values;
    var positions: seq<nat> := [];
    var k := 0;
    while k < |entries|
      invariant 0 <= k <= |entries|
      invariant forall j :: 0 <= j < |positions| ==> positions[j] < k && entries[positions[j]].valueType == key
      invariant positions == [] <==> forall j :: 0 <= j < k ==> entries[j].valueType != key
      invariant positions != [] ==> forall j :: 0 <= j < positions[0] ==> entries[j].valueType != key
    {
      if entries[k].valueType == key {
        positions := positions + [k];
      }
      k := k + 1;
    }
    if |positions| == 0 {
      return Ok(None);
    }
    FirstOfAt(Types(entries), key, 0, positions[0]);
    var v := ValueOf(entries[positions[0]].data);
    if v.Err? {
      return Err(v.error);
    }
    return Ok(Some(v.value));
  }

  // ---------------------------------------------------------------------
  // __get_handle_record_if_necessary
  // ---------------------------------------------------------------------

  /**
   * A record already in hand is reused when it is for the same handle;
   * otherwise the record retrieved from the server (fetched) is used.
   */
  function RecordIfNecessary(handle: string, given: Option<Record>, fetched: Option<Record>): (r: Option<Record>)
    ensures given.Some? && given.value.handle == handle ==> r == given
    ensures given.None? || given.value.handle != handle ==> r == fetched
  {
    if given.None? then fetched
    else if handle != given.value.handle then fetched
    else given
  }

  /**
   * The record used always belongs to the handle asked for, whenever the
   * server's answer does; it is absent only when no usable record was
   * given and the server found none.
   */
  lemma RecordIfNecessaryForHandle(handle: string, given: Option<Record>, fetched: Option<Record>)
    requires fetched.None? || fetched.value.handle == handle
    ensures var r := RecordIfNecessary(handle, given, fetched);
      (r.None? || r.value.handle == handle)
      && (r.None? <==> (given.None? || given.value.handle != handle) && fetched.None?)
  {
  }

  // ---------------------------------------------------------------------
  // retrieve_handle_record_json
  // ---------------------------------------------------------------------

  /** What the GET of a record answered, as classified by the response helpers. */
  datatype GetResponse = NotFound | Exists(record: Record) | Empty(record: Record) | OtherResponse

  /** handle.lstrip('hdl:').lstrip('doi:'): two character-set strips, not prefix removals. */
  function ExpectedHandle(handle: string): string
  {
    LStrip(LStrip(handle, "hdl:"), "doi:")
  }

  /**
   * retrieve_handle_record_json after the GET: None for an unknown handle,
   * the record when the server returns the expected handle (or an empty
   * record), an error otherwise.
   */
  function RecordJson(handle: string, resp: GetResponse): (r: Result<Option<Record>, Error>)
    ensures resp.NotFound? <==> r == Ok(None)
    ensures resp.Exists? ==> (r.Ok? <==> resp.record.handle == ExpectedHandle(handle))
    ensures resp.Empty? ==> r == Ok(Some(resp.record))
    ensures r.Ok? && r.value.Some? ==> resp.Exists? || resp.Empty?
  {
    match resp
    case NotFound => Ok(None)
    case Exists(rec) =>
      if rec.handle == ExpectedHandle(handle) then Ok(Some(rec))
      else Err(GenericHandleError("retrieving handle record"))
    case Empty(rec) => Ok(Some(rec))
    case OtherResponse => Err(GenericHandleError("retrieving"))
  }

  /** A handle without the stripped characters at its start is expected back verbatim. */
  lemma PlainHandleExpected(handle: string)
    requires handle != [] && handle[0] !in "hdl:doi:"
    ensures ExpectedHandle(handle) == handle
  {
  }

  /** A run of characters of the set is stripped; the strip stops at the first character outside it. */
  lemma {:induction false} LStripRun(p: string, rest: string, chars: string)
    requires forall i :: 0 <= i < |p| ==> p[i] in chars
    requires rest == [] || rest[0] !in chars
    ensures LStrip(p + rest, chars) == rest
  {
    if p == [] {
      assert p + rest == rest;
    } else {
      assert (p + rest)[1..] == p[1..] + rest;
      LStripRun(p[1..], rest, chars);
    }
  }

  /** "hdl:11022/abc" is expected back as 11022/abc, as intended by the strip. */
  lemma HdlPrefixStripped()
    ensures ExpectedHandle("hdl:11022/abc") == "11022/abc"
  {
    assert "hdl:" == ['h', 'd', 'l', ':'];
    assert "doi:" == ['d', 'o', 'i', ':'];
    assert "11022/abc"[0] == '1';
    assert "hdl:" + "11022/abc" == "hdl:11022/abc";
    LStripRun("hdl:", "11022/abc", "hdl:");
    LStripRun([], "11022/abc", "doi:");
  }

  /**
   * The character-set strip also eats the start of a handle whose prefix
   * begins with one of those letters: for "hdl:dh/1" the server's "dh/1" is
   * refused, since the expected handle is "/1".
   */
  lemma LetterPrefixOverStripped(rec: Record)
    requires rec.handle == "dh/1"
    ensures ExpectedHandle("hdl:dh/1") == "/1"
    ensures RecordJson("hdl:dh/1", Exists(rec)) == Err(GenericHandleError("retrieving handle record"))
  {
    OverStrippedHandle();
    assert "/1" != "dh/1" by {
      assert |"/1"| != |"dh/1"|;
    }
  }

  lemma OverStrippedHandle()
    ensures ExpectedHandle("hdl:dh/1") == "/1"
  {
    assert "hdl:" == ['h', 'd', 'l', ':'];
    assert "doi:" == ['d', 'o', 'i', ':'];
    assert "hdl:dh" == ['h', 'd', 'l', ':', 'd', 'h'];
    assert "/1"[0] == '/';
    assert "hdl:dh" + "/1" == "hdl:dh/1";
    LStripRun("hdl:dh", "/1", "hdl:");
    LStripRun([], "/1", "doi:");
  }

  // ---------------------------------------------------------------------
  // delete_handle_value
  // ---------------------------------------------------------------------

  /** The key argument: one key, or a list of keys. */
  datatype KeyArg = OneKey(key: string) | KeyList(keys: seq<string>)

  function KeysOf(arg: KeyArg): seq<string>
  {
    match arg
    case OneKey(k) => [k]
    case KeyList(ks) => ks
  }

  /** xs before the indices of a successful rest of the loop; an error passes through. */
  function Prepend(xs: seq<int>, r: Result<seq<int>, Error>): (p: Result<seq<int>, Error>)
    ensures p.Err? <==> r.Err?
    ensures r.Err? ==> p == r
    ensures r.Ok? ==> p.value == xs + r.value
  {
    match r
    case Err(err) => Err(err)
    case Ok(t) => Ok(xs + t)
  }

  /** The loop over the keys: HS_ADMIN is refused, a key already done is skipped, the indices of the others concatenated. */
  function IndicesToDelete(handle: string, keys: seq<string>, done: seq<string>, es: seq<Entry>): Result<seq<int>, Error>
    decreases |keys|
  {
    if keys == [] then Ok([])
    else if keys[0] == HS_ADMIN then Err(IllegalOperation("deleting \"HS_ADMIN\""))
    else if keys[0] in done then IndicesToDelete(handle, keys[1..], done, es)
    else
      Prepend(IndicesOf(keys[0], es), IndicesToDelete(handle, keys[1..], done + [keys[0]], es))
  }

  /**
   * delete_handle_value up to the DELETE: an unknown handle is an error,
   * no matching index sends nothing, otherwise the DELETE lists the indices.
   */
  function DeleteValues(handle: string, fetched: Option<seq<Entry>>, arg: KeyArg): Result<Option<DeleteRequest>, Error>
  {
    if fetched.None? then Err(HandleNotFound(handle))
    else
      match IndicesToDelete(handle, KeysOf(arg), [], fetched.value)
      case Err(err) => Err(err)
      case Ok(indices) =>
        if |indices| == 0 then Ok(None) else Ok(Some(DeleteRequest(handle, Some(indices))))
  }

  /** The key loop refuses exactly a key list holding HS_ADMIN, whatever its position. */
  lemma {:induction false} IndicesToDeleteFails(handle: string, keys: seq<string>, done: seq<string>, es: seq<Entry>)
    ensures IndicesToDelete(handle, keys, done, es).Err? <==> HS_ADMIN in keys
    ensures IndicesToDelete(handle, keys, done, es).Err? ==>
      IndicesToDelete(handle, keys, done, es).error == IllegalOperation("deleting \"HS_ADMIN\"")
    decreases |keys|
  {
    if keys != [] && keys[0] != HS_ADMIN {
      assert keys == [keys[0]] + keys[1..];
      IndicesToDeleteFails(handle, keys[1..], done, es);
      IndicesToDeleteFails(handle, keys[1..], done + [keys[0]], es);
    }
  }

  /**
   * The collected indices are exactly those of the entries whose type is
   * among the keys not yet done.
   */
  lemma {:induction false} IndicesToDeleteMembers(handle: string, keys: seq<string>, done: seq<string>, es: seq<Entry>)
    requires IndicesToDelete(handle, keys, done, es).Ok?
    ensures var r := IndicesToDelete(handle, keys, done, es).value;
      (forall i :: 0 <= i < |es| && es[i].valueType in keys && es[i].valueType !in done ==> es[i].index in r)
      && forall x :: x in r ==> exists i :: 0 <= i < |es| && es[i].valueType in keys && es[i].valueType !in done && es[i].index == x
    decreases |keys|
  {
    if keys != [] {
      IndicesToDeleteFails(handle, keys, done, es);
      var k := keys[0];
      var done' := if k in done then done else done + [k];
      IndicesToDeleteMembers(handle, keys[1..], done', es);
      IndicesOfMembers(k, es);
      var r := IndicesToDelete(handle, keys, done, es).value;
      var rest := IndicesToDelete(handle, keys[1..], done', es).value;
      assert r == if k in done then rest else IndicesOf(k, es) + rest;
      forall i | 0 <= i < |es| && es[i].valueType in keys && es[i].valueType !in done
        ensures es[i].index in r
      {
        if es[i].valueType != k {
          assert es[i].valueType in keys[1..];
        }
      }
      forall x | x in r
        ensures exists i :: 0 <= i < |es| && es[i].valueType in keys && es[i].valueType !in done && es[i].index == x
      {
        if x in rest {
          var i :| 0 <= i < |es| && es[i].valueType in keys[1..] && es[i].valueType !in done' && es[i].index == x;
          assert es[i].valueType in keys;
        } else {
          var i :| 0 <= i < |es| && es[i].valueType == k && es[i].index == x;
          assert es[i].valueType in keys;
        }
      }
    }
  }

  /**
   * delete_handle_value fails on an unknown handle and on HS_ADMIN among
   * the keys; otherwise it never sends a DELETE without indices (which
   * would delete the whole handle), and the DELETE it sends lists exactly
   * the indices of the entries whose type is one of the keys.
   */
  lemma DeleteValuesSafe(handle: string, fetched: Option<seq<Entry>>, arg: KeyArg)
    ensures var r := DeleteValues(handle, fetched, arg);
      (fetched.None? ==> r == Err(HandleNotFound(handle)))
      && (fetched.Some? ==> (r.Err? <==> HS_ADMIN in KeysOf(arg)))
      && (fetched.Some? && r.Ok? ==>
            var es := fetched.value;
            (r.value.None? <==> forall i :: 0 <= i < |es| ==> es[i].valueType !in KeysOf(arg))
            && (r.value.Some? ==>
                  r.value.value.handle == handle && r.value.value.indices.Some? && |r.value.value.indices.value| > 0
                  && (forall i :: 0 <= i < |es| && es[i].valueType in KeysOf(arg) ==> es[i].index in r.value.value.indices.value)
                  && forall x :: x in r.value.value.indices.value ==>
                       exists i :: 0 <= i < |es| && es[i].valueType in KeysOf(arg) && es[i].index == x))
  {
    if fetched.Some? {
      IndicesToDeleteFails(handle, KeysOf(arg), [], fetched.value);
      if IndicesToDelete(handle, KeysOf(arg), [], fetched.value).Ok? {
        IndicesToDeleteStart(handle, KeysOf(arg), fetched.value);
      }
    }
  }

  /**
   * The key loop from an empty keys_done lists exactly the indices of the
   * entries whose type is one of the keys, and nothing when there is none.
   */
  lemma IndicesToDeleteStart(handle: string, keys: seq<string>, es: seq<Entry>)
    requires IndicesToDelete(handle, keys, [], es).Ok?
    ensures var r := IndicesToDelete(handle, keys, [], es).value;
      (forall i :: 0 <= i < |es| && es[i].valueType in keys ==> es[i].index in r)
      && (forall x :: x in r ==> exists i :: 0 <= i < |es| && es[i].valueType in keys && es[i].index == x)
      && (|r| == 0 <==> forall i :: 0 <= i < |es| ==> es[i].valueType !in keys)
  {
    IndicesToDeleteMembers(handle, keys, [], es);
    var r := IndicesToDelete(handle, keys, [], es).value;
    forall x | x in r
      ensures exists i :: 0 <= i < |es| && es[i].valueType in keys && es[i].index == x
    {
      var i :| 0 <= i < |es| && es[i].valueType in keys && es[i].valueType !in [] && es[i].index == x;
    }
    if |r| > 0 {
      assert r[0] in r;
    } else {
      forall i | 0 <= i < |es| ensures es[i].valueType !in keys {
        assert es[i].index !in r;
      }
    }
  }

  /** The loop of delete_handle_value as written, with keys_done and the running list of indices. */
  method CollectIndices(handle: string, keys: seq<string>, es: seq<Entry>) returns (r: Result<seq<int>, Error>)
    ensures r == IndicesToDelete(handle, keys, [], es)
  {
    var indices: seq<int> := [];
    var done: seq<string> := [];
    var k := 0;
    PrependNil(IndicesToDelete(handle, keys, [], es));
    assert keys[0..] == keys;
    while k < |keys|
      invariant 0 <= k <= |keys|
      invariant IndicesToDelete(handle, keys, [], es) == Prepend(indices, IndicesToDelete(handle, keys[k..], done, es))
    {
      assert keys[k..][0] == keys[k] && keys[k..][1..] == keys[k + 1..];
      var key := keys[k];
      if key == HS_ADMIN {
        return Err(IllegalOperation("deleting \"HS_ADMIN\""));
      }
      if key !in done {
        var onekey := IndicesForKey(key, es);
        PrependAssoc(indices, onekey, IndicesToDelete(handle, keys[k + 1..], done + [key], es));
        indices := indices + onekey;
        done := done + [key];
      }
      k := k + 1;
    }
    assert keys[k..] == [];
    assert indices + [] == indices;
    return Ok(indices);
  }

  lemma PrependNil(r: Result<seq<int>, Error>)
    ensures Prepend([], r) == r
  {
    if r.Ok? {
      assert [] + r.value == r.value;
    }
  }

  lemma PrependAssoc(a: seq<int>, b: seq<int>, r: Result<seq<int>, Error>)
    ensures Prepend(a, Prepend(b, r)) == Prepend(a + b, r)
  {
    if r.Ok? {
      assert a + (b + r.value) == (a + b) + r.value;
    }
  }

  /** delete_handle_value as written, up to the DELETE. */
  method DeleteHandleValue(handle: string, fetched: Option<seq<Entry>>, arg: KeyArg) returns (r: Result<Option<DeleteRequest>, Error>)
    ensures r == DeleteValues(handle, fetched, arg)
  {
    if fetched.None? {
      return Err(HandleNotFound(handle));
    }
    var keys := KeysOf(arg);
    var indices := CollectIndices(handle, keys, fetched.value);
    if indices.Err? {
      return Err(indices.error);
    }
    if !(|indices.value| > 0) {
      return Ok(None);
    }
    return Ok(Some(DeleteRequest(handle, Some(indices.value))));
  }

  // ---------------------------------------------------------------------
  // delete_handle
  // ---------------------------------------------------------------------

  const DELETE_HANDLE_EXTRA_ARGS :=
    "You specified more than one argument. If you wanted to delete just some values from a handle, please use the new method \"delete_handle_value()\"."

  /** delete_handle up to the DELETE: extra positional arguments are refused, else the whole handle is deleted. */
  function DeleteWholeHandle(handle: string, other: seq<string>): (r: Result<DeleteRequest, Error>)
    ensures r.Err? <==> |other| > 0
    ensures r.Err? ==> r.error == TypeError(DELETE_HANDLE_EXTRA_ARGS)
    ensures r.Ok? ==> r.value.handle == handle && r.value.indices.None?
  {
    if |other| > 0 then Err(TypeError(DELETE_HANDLE_EXTRA_ARGS))
    else Ok(DeleteRequest(handle, None))
  }
}
