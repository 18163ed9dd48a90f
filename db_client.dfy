/**
 * The database client (DBHandleClient): each operation is a sequence of
 * queries against the handles table, modelled as a class whose rows field
 * is the table and whose methods are proved against functions of the old
 * table.
 */
module DbClient {
  import opened Wrappers
  import opened PyStr
  import opened IndexAllocator
  import opened DbAdminCodec
  import opened DbTable
  import opened HandleRecord

  /** The exceptions the database client raises, by itself and through Python. */
  datatype DbError =
    | DbNotFound(handle: string)
    | DbAlreadyExists(handle: string, msg: string)
    | DbKeyNotFound(handle: string, key: string, msg: string)
      /** int(perm, 2) on permissions that are no binary numeral. */
    | PermissionsValueError
      /** handle_key[0] with no key/value pair, or query_result[0] on no row. */
    | KeyIndexError
      /** binascii.hexlify('') when the handle has no HS_ADMIN row. */
    | HexlifyTypeError
    | AdminDecodeError(cause: DecodeError)
      /** args[key] on a keyword argument that was not given. */
    | ArgKeyError(key: string)

  /**
   * The keyword arguments register_handle reads from **args, each None when
   * it was not given. Other keywords (such as the perm of its docstring)
   * are never read and so do not appear.
   */
  datatype AdminArgs = AdminArgs(adminHandle: Option<seq<byte>>, adminHandleIndex: Option<int>, permissions: Option<string>)

  /** What retrieve_handle_record returns: the visible values and the decoded HS_ADMIN dict. */
  datatype DbRecord = DbRecord(values: map<string, string>, admin: AdminInfo)

  /** The table after an operation, and the exception it raised, if any. */
  datatype Outcome = Outcome(rows: seq<Row>, err: Option<DbError>)

  const URL_IDX := 1
  const KEY_NOT_FOUND_MSG := "Key not found in Handle"
  const REGISTER_EXISTS_MSG := "Could not register handle"

  // ---------------------------------------------------------------------
  // The operations, as functions of the table
  // ---------------------------------------------------------------------

  /** retrieve_handle_record_without_HS_values: the visible values, or DBHandleNotFoundException. */
  function WithoutHs(rows: seq<Row>, h: string): Result<map<string, string>, DbError>
  {
    if !HandleExists(rows, h) then Err(DbNotFound(h)) else Ok(Conv(RowsOf(rows, h)))
  }

  /** check_if_key_exists: whether the key is among the visible values. */
  function KeyExists(rows: seq<Row>, h: string, key: string): Result<bool, DbError>
  {
    match WithoutHs(rows, h)
    case Err(e) => Err(e)
    case Ok(d) => Ok(key in d)
  }

  /** create_new_index over the idx values already used by h. */
  function NewIndex(rows: seq<Row>, h: string, url: bool, hsAdmin: bool): int
  {
    NextIndex(IdxList(RowsOf(rows, h)), url, hsAdmin)
  }

  function UrlRow(h: string, url: string): Row
  {
    Row(h, URL_IDX, URL, url)
  }

  /** The HS_ADMIN row add_admin_entry inserts at idx 100, or None where int(perm, 2) raises (ASCII digits only). */
  function AdminRow(h: string, adminHandle: seq<byte>, index: int, perm: string): Option<Row>
  {
    match AdminHex(adminHandle, index, perm)
    case None => None
    case Some(hex) => Some(Row(h, ADMIN_IDX, HS_ADMIN, StoredHex(hex)))
  }

  /**
   * register_handle: refuse an existing handle unless overwrite is set,
   * otherwise delete it, insert the URL row, then the HS_ADMIN row. A bad
   * permission string raises only after the URL row is in.
   */
  function Register(rows: seq<Row>, h: string, url: string, overwrite: bool,
                    adminHandle: seq<byte>, index: int, perm: string): Outcome
  {
    if !overwrite && HandleExists(rows, h) then
      Outcome(rows, Some(DbAlreadyExists(h, REGISTER_EXISTS_MSG)))
    else
      var base := if HandleExists(rows, h) then Without(rows, h) else rows;
      Insert(base, UrlRow(h, url), AdminRow(h, adminHandle, index, perm))
  }

  /**
   * register_handle as called: admin_handle, admin_handle_index and
   * permissions are read from **args in that order, and the first one
   * missing raises KeyError before the table is touched.
   */
  function RegisterCall(rows: seq<Row>, h: string, url: string, overwrite: bool, args: AdminArgs): Outcome
  {
    if args.adminHandle.None? then Outcome(rows, Some(ArgKeyError("admin_handle")))
    else if args.adminHandleIndex.None? then Outcome(rows, Some(ArgKeyError("admin_handle_index")))
    else if args.permissions.None? then Outcome(rows, Some(ArgKeyError("permissions")))
    else Register(rows, h, url, overwrite, args.adminHandle.value, args.adminHandleIndex.value, args.permissions.value)
  }

  /** The two INSERTs of register_handle: the URL row, then the HS_ADMIN row unless its value could not be built. */
  function Insert(base: seq<Row>, urlRow: Row, adminRow: Option<Row>): Outcome
  {
    match adminRow
    case None => Outcome(base + [urlRow], Some(PermissionsValueError))
    case Some(a) => Outcome(base + [urlRow] + [a], None)
  }

  /** delete_handle: all rows of the handle go, or DBHandleNotFoundException. */
  function DeleteHandle(rows: seq<Row>, h: string): Outcome
  {
    if HandleExists(rows, h) then Outcome(Without(rows, h), None)
    else Outcome(rows, Some(DbNotFound(h)))
  }

  /** delete_handle_value: the rows of h of type key go, if the key is visible. */
  function DeleteHandleValue(rows: seq<Row>, h: string, key: string): Outcome
  {
    match KeyExists(rows, h, key)
    case Err(e) => Outcome(rows, Some(e))
    case Ok(visible) =>
      if visible then Outcome(WithoutKey(rows, h, key), None)
      else Outcome(rows, Some(DbKeyNotFound(h, key, KEY_NOT_FOUND_MSG)))
  }

  /**
   * The data column of a row create_new_value inserts, as this model keeps
   * it: the value's UTF-8 bytes are stored, and an HS_ADMIN row reads back
   * through binascii.hexlify, so its data is their hex text.
   */
  function StoredData(key: string, value: string): (d: string)
    ensures key != HS_ADMIN ==> d == value
    ensures key == HS_ADMIN ==> Unhexlify(d) == Some(Utf8(value))
  {
    if key == HS_ADMIN then
      UnhexlifyHexOfBytes(Utf8(value));
      HexOfBytes(Utf8(value))
    else value
  }

  /**
   * modify_handle_value: only the first key/value pair counts. A visible
   * key has its data updated on the rows at the idx of its first row; an
   * invisible one is added at a new index when addIfNotExists is set.
   */
  function Modify(rows: seq<Row>, h: string, kvpairs: seq<(string, string)>, addIfNotExists: bool): Outcome
  {
    if kvpairs == [] then Outcome(rows, Some(KeyIndexError))
    else
      var key := kvpairs[0].0;
      var value := kvpairs[0].1;
      match KeyExists(rows, h, key)
      case Err(e) => Outcome(rows, Some(e))
      case Ok(visible) =>
        if visible then
          match FirstIdxOf(RowsOf(rows, h), key)
          case None => Outcome(rows, Some(KeyIndexError))
          case Some(i) => Outcome(UpdateData(rows, h, i, value), None)
        else if addIfNotExists then
          Outcome(rows + [Row(h, NewIndex(rows, h, false, false), key, StoredData(key, value))], None)
        else Outcome(rows, None)
  }

  /**
   * retrieve_handle_record: the visible values, and the HS_ADMIN fields
   * decoded from the last HS_ADMIN row of the handle.
   */
  function Retrieve(rows: seq<Row>, h: string): Result<DbRecord, DbError>
  {
    match WithoutHs(rows, h)
    case Err(e) => Err(e)
    case Ok(values) =>
      match LastAdmin(RowsOf(rows, h))
      case None => Err(HexlifyTypeError)
      case Some(hex) =>
        match DecodeAdmin(hex)
        case Err(e) => Err(AdminDecodeError(e))
        case Ok(info) => Ok(DbRecord(values, info))
  }

  // ---------------------------------------------------------------------
  // Properties
  // ---------------------------------------------------------------------

  /** An existing handle is refused unless overwrite is set, and the table is left as it was. */
  lemma RegisterRefusesExisting(rows: seq<Row>, h: string, url: string, overwrite: bool,
                                adminHandle: seq<byte>, index: int, perm: string)
    ensures var o := Register(rows, h, url, overwrite, adminHandle, index, perm);
      (o.err == Some(DbAlreadyExists(h, REGISTER_EXISTS_MSG)) <==> !overwrite && HandleExists(rows, h))
      && (o.err == Some(DbAlreadyExists(h, REGISTER_EXISTS_MSG)) ==> o.rows == rows)
  {
  }

  /**
   * Registration that gets past the existence check leaves the handle with
   * exactly a URL row at idx 1 followed by an HS_ADMIN row at idx 100, or,
   * when the permissions are no binary numeral, with the URL row alone.
   */
  lemma RegisterHandleRows(rows: seq<Row>, h: string, url: string, overwrite: bool,
                           adminHandle: seq<byte>, index: int, perm: string)
    requires overwrite || !HandleExists(rows, h)
    ensures var o := Register(rows, h, url, overwrite, adminHandle, index, perm);
      (o.err.None? <==> ParseBinary(perm).Some?)
      && (o.err.None? ==> RowsOf(o.rows, h) == [UrlRow(h, url), AdminRow(h, adminHandle, index, perm).value])
      && (o.err.Some? ==> o.err == Some(PermissionsValueError) && RowsOf(o.rows, h) == [UrlRow(h, url)])
  {
    var base := if HandleExists(rows, h) then Without(rows, h) else rows;
    RegisterIsInsert(rows, h, url, overwrite, adminHandle, index, perm);
    WithoutRowsOf(rows, h, h);
    AdminRowShape(h, adminHandle, index, perm);
    InsertOutcome(base, UrlRow(h, url), AdminRow(h, adminHandle, index, perm), h);
  }

  /**
   * A missing HS_ADMIN keyword raises KeyError, naming the first one missing,
   * and leaves the table as it was; with all three given the call is the
   * registration proper, which never raises KeyError.
   */
  lemma RegisterCallArgs(rows: seq<Row>, h: string, url: string, overwrite: bool, args: AdminArgs)
    ensures var o := RegisterCall(rows, h, url, overwrite, args);
      ((o.err.Some? && o.err.value.ArgKeyError?)
        <==> args.adminHandle.None? || args.adminHandleIndex.None? || args.permissions.None?)
      && (o.err.Some? && o.err.value.ArgKeyError? ==> o.rows == rows)
      && (args.adminHandle.None? ==> o.err == Some(ArgKeyError("admin_handle")))
      && (args.adminHandle.Some? && args.adminHandleIndex.None? ==> o.err == Some(ArgKeyError("admin_handle_index")))
      && (args.adminHandle.Some? && args.adminHandleIndex.Some? && args.permissions.None? ==>
            o.err == Some(ArgKeyError("permissions")))
      && (args.adminHandle.Some? && args.adminHandleIndex.Some? && args.permissions.Some? ==>
            o == Register(rows, h, url, overwrite, args.adminHandle.value, args.adminHandleIndex.value, args.permissions.value))
  {
    if args.adminHandle.Some? && args.adminHandleIndex.Some? && args.permissions.Some? {
      var o := Register(rows, h, url, overwrite, args.adminHandle.value, args.adminHandleIndex.value, args.permissions.value);
      assert o.err.None? || o.err == Some(PermissionsValueError) || o.err.value.DbAlreadyExists?;
    }
  }

  /** The docstring's example passes the permissions as perm, which is never read: KeyError on permissions. */
  lemma DocstringExampleRaises(rows: seq<Row>, h: string, url: string, adminHandle: seq<byte>)
    ensures RegisterCall(rows, h, url, false, AdminArgs(Some(adminHandle), Some(200), None))
      == Outcome(rows, Some(ArgKeyError("permissions")))
  {
  }

  /** Past the existence check, register_handle is the two INSERTs on the table without h. */
  lemma RegisterIsInsert(rows: seq<Row>, h: string, url: string, overwrite: bool,
                         adminHandle: seq<byte>, index: int, perm: string)
    requires overwrite || !HandleExists(rows, h)
    ensures Register(rows, h, url, overwrite, adminHandle, index, perm)
      == Insert(if HandleExists(rows, h) then Without(rows, h) else rows, UrlRow(h, url), AdminRow(h, adminHandle, index, perm))
  {
  }

  /** The HS_ADMIN row is built exactly when the permissions are a binary numeral, and belongs to h. */
  lemma AdminRowShape(h: string, adminHandle: seq<byte>, index: int, perm: string)
    ensures var a := AdminRow(h, adminHandle, index, perm);
      (a.Some? <==> ParseBinary(perm).Some?) && (a.Some? ==> a.value.handle == h)
  {
  }

  /** The two INSERTs on a table without rows of h leave h with the URL row and the HS_ADMIN row if there is one. */
  lemma InsertOutcome(base: seq<Row>, urlRow: Row, adminRow: Option<Row>, h: string)
    requires urlRow.handle == h && (adminRow.Some? ==> adminRow.value.handle == h) && RowsOf(base, h) == []
    ensures var o := Insert(base, urlRow, adminRow);
      (o.err.None? <==> adminRow.Some?)
      && (o.err.None? ==> RowsOf(o.rows, h) == [urlRow, adminRow.value])
      && (o.err.Some? ==> o.err == Some(PermissionsValueError) && RowsOf(o.rows, h) == [urlRow])
  {
    InsertRows(base, urlRow, adminRow, h);
  }

  /** What the two INSERTs add to the rows of handle g. */
  lemma InsertRows(base: seq<Row>, urlRow: Row, adminRow: Option<Row>, g: string)
    ensures var o := Insert(base, urlRow, adminRow);
      var u := if urlRow.handle == g then [urlRow] else [];
      RowsOf(o.rows, g) == RowsOf(base, g) + u
        + (if adminRow.Some? && adminRow.value.handle == g then [adminRow.value] else [])
  {
    RowsOfSnoc(base, urlRow, g);
    if adminRow.Some? {
      RowsOfSnoc(base + [urlRow], adminRow.value, g);
    }
  }

  /** Registering h leaves the rows of every other handle as they were. */
  lemma RegisterKeepsOthers(rows: seq<Row>, h: string, url: string, overwrite: bool,
                            adminHandle: seq<byte>, index: int, perm: string, g: string)
    requires g != h
    ensures RowsOf(Register(rows, h, url, overwrite, adminHandle, index, perm).rows, g) == RowsOf(rows, g)
  {
    if overwrite || !HandleExists(rows, h) {
      var base := if HandleExists(rows, h) then Without(rows, h) else rows;
      RegisterIsInsert(rows, h, url, overwrite, adminHandle, index, perm);
      WithoutRowsOf(rows, h, g);
      AdminRowShape(h, adminHandle, index, perm);
      InsertRows(base, UrlRow(h, url), AdminRow(h, adminHandle, index, perm), g);
    }
  }

  /** The rows register_handle leaves behind, as the dict conversion sees them: only the URL. */
  lemma RegisteredValues(h: string, url: string, a: Row)
    requires a.valueType == HS_ADMIN
    ensures Conv([UrlRow(h, url), a]) == map[URL := url]
    ensures LastAdmin([UrlRow(h, url), a]) == Some(a.data)
  {
    var rs := [UrlRow(h, url), a];
    assert !IsHs(URL) && IsHs(HS_ADMIN);
    assert Kept(rs, 0) && !Kept(rs, 1);
    assert ConvUpTo(rs, 1) == map[URL := url];
  }

  /**
   * What register_handle writes, retrieve_handle_record reads back: the URL
   * as the one visible value, and the admin handle, index and permissions,
   * for 12-bit permissions of value at least 16 and an index below 2^32.
   */
  lemma RegisterThenRetrieve(rows: seq<Row>, h: string, url: string, overwrite: bool,
                             adminHandle: seq<byte>, index: int, perm: string)
    requires overwrite || !HandleExists(rows, h)
    requires |perm| == 12 && AllBinary(perm) && BinValue(perm) >= 16
    requires 0 <= index < INDEX_BOUND
    ensures var o := Register(rows, h, url, overwrite, adminHandle, index, perm);
      o.err.None?
      && Retrieve(o.rows, h) == Ok(DbRecord(map[URL := url], AdminInfo(adminHandle, index, perm)))
  {
    AdminRoundTrip(adminHandle, index, perm);
    PlainBinary(perm);
    RegisterHandleRows(rows, h, url, overwrite, adminHandle, index, perm);
    var a := AdminRow(h, adminHandle, index, perm).value;
    RegisteredValues(h, url, a);
  }

  /** delete_handle: refused for an absent handle; otherwise the handle is gone and nothing else changes. */
  lemma DeleteHandleEffect(rows: seq<Row>, h: string, g: string)
    ensures var o := DeleteHandle(rows, h);
      (o.err.Some? <==> !HandleExists(rows, h))
      && (o.err.Some? ==> o.err == Some(DbNotFound(h)) && o.rows == rows)
      && !HandleExists(o.rows, h)
      && (g != h ==> RowsOf(o.rows, g) == RowsOf(rows, g))
  {
    WithoutRowsOf(rows, h, g);
    WithoutRowsOf(rows, h, h);
  }

  /**
   * delete_handle_value succeeds exactly when the key is visible; then no
   * row of h with that type is left and every other row stays.
   */
  lemma DeleteValueEffect(rows: seq<Row>, h: string, key: string, r: Row)
    ensures var o := DeleteHandleValue(rows, h, key);
      (o.err.None? <==> HandleExists(rows, h) && key in Conv(RowsOf(rows, h)))
      && (o.err.Some? ==> o.rows == rows)
      && (!HandleExists(rows, h) ==> o.err == Some(DbNotFound(h)))
      && (o.err.None? ==> (r in o.rows <==> r in rows && !(r.handle == h && r.valueType == key)))
  {
    WithoutKeyMembers(rows, h, key, r);
  }

  /** HS_* values can never be deleted through delete_handle_value. */
  lemma HsValuesNotDeletable(rows: seq<Row>, h: string, key: string)
    requires IsHs(key)
    ensures var o := DeleteHandleValue(rows, h, key);
      o.rows == rows
      && o.err == if HandleExists(rows, h) then Some(DbKeyNotFound(h, key, KEY_NOT_FOUND_MSG)) else Some(DbNotFound(h))
  {
    ConvHidesHs(RowsOf(rows, h), key);
  }

  /** Only the first pair counts: the others are never looked at. */
  lemma ModifyFirstPairOnly(rows: seq<Row>, h: string, kvpairs: seq<(string, string)>, addIfNotExists: bool)
    requires kvpairs != []
    ensures Modify(rows, h, kvpairs, addIfNotExists) == Modify(rows, h, [kvpairs[0]], addIfNotExists)
  {
    assert [kvpairs[0]][0] == kvpairs[0];
  }

  /**
   * No pair raises IndexError before anything else, a missing handle
   * raises DBHandleNotFoundException, and nothing changes on an error.
   */
  lemma ModifyErrors(rows: seq<Row>, h: string, kvpairs: seq<(string, string)>, addIfNotExists: bool)
    ensures var o := Modify(rows, h, kvpairs, addIfNotExists);
      (kvpairs == [] ==> o.err == Some(KeyIndexError))
      && (kvpairs != [] && !HandleExists(rows, h) ==> o.err == Some(DbNotFound(h)))
      && (o.err.Some? ==> o.rows == rows)
      && (o.err.None? <==> kvpairs != [] && HandleExists(rows, h))
  {
    if kvpairs != [] && HandleExists(rows, h) {
      var key := kvpairs[0].0;
      var rs := RowsOf(rows, h);
      if key in Conv(rs) {
        ConvValue(rs, key);
        var i :| LastKept(rs, |rs|, i, key);
        assert FirstIdxOf(rs, key).Some?;
      }
    }
  }

  /**
   * A visible key is updated in place: the rows of h at the idx of the
   * first row of that type get the new data, and nothing else in the
   * table changes.
   */
  lemma ModifyUpdatesInPlace(rows: seq<Row>, h: string, key: string, value: string, addIfNotExists: bool)
    requires HandleExists(rows, h) && key in Conv(RowsOf(rows, h))
    ensures FirstIdxOf(RowsOf(rows, h), key).Some?
    ensures var i := FirstIdxOf(RowsOf(rows, h), key).value;
      var o := Modify(rows, h, [(key, value)], addIfNotExists);
      o.err.None? && |o.rows| == |rows|
      && forall k :: 0 <= k < |rows| ==>
        o.rows[k] == if rows[k].handle == h && rows[k].idx == i then rows[k].(data := value) else rows[k]
  {
    var rs := RowsOf(rows, h);
    ConvValue(rs, key);
    var j :| LastKept(rs, |rs|, j, key);
    assert FirstIdxOf(rs, key).Some?;
  }

  /**
   * An invisible key is appended at a fresh default-mode index when
   * addIfNotExists is set: one not used by the handle, at least 2 and
   * outside 100..199; without the flag nothing happens.
   */
  lemma ModifyAddsNew(rows: seq<Row>, h: string, key: string, value: string, addIfNotExists: bool)
    requires HandleExists(rows, h) && key !in Conv(RowsOf(rows, h))
    ensures var o := Modify(rows, h, [(key, value)], addIfNotExists);
      var n := NewIndex(rows, h, false, false);
      o.err.None?
      && (addIfNotExists ==> o.rows == rows + [Row(h, n, key, StoredData(key, value))])
      && (!addIfNotExists ==> o.rows == rows)
      && n !in IdxList(RowsOf(rows, h)) && n >= 2 && !(100 <= n < 200)
  {
    DefaultModeAvoidsReserved(IdxList(RowsOf(rows, h)));
  }

  /**
   * Since HS_* types are never visible, modifying one on an existing
   * handle with addIfNotExists adds a further row of that type instead of
   * updating the existing one.
   */
  lemma ModifyHsKeyAdds(rows: seq<Row>, h: string, key: string, value: string)
    requires IsHs(key) && HandleExists(rows, h)
    ensures Modify(rows, h, [(key, value)], true).rows == rows + [Row(h, NewIndex(rows, h, false, false), key, StoredData(key, value))]
    ensures key == HS_ADMIN ==>
      LastAdmin(RowsOf(Modify(rows, h, [(key, value)], true).rows, h)) == Some(HexOfBytes(Utf8(value)))
  {
    ConvHidesHs(RowsOf(rows, h), key);
    var added := Row(h, NewIndex(rows, h, false, false), key, StoredData(key, value));
    assert (rows + [added])[..|rows|] == rows;
  }

  /**
   * Adding HS_ADMIN "abc" through modify_handle_value stores the bytes of
   * "abc", which retrieve_handle_record reads back hexlified as 616263.
   */
  lemma ModifyAdminExample()
    ensures Modify([Row("h", 1, URL, "u")], "h", [(HS_ADMIN, "abc")], true).rows
      == [Row("h", 1, URL, "u"), Row("h", 2, HS_ADMIN, "616263")]
  {
    var rows := [Row("h", 1, URL, "u")];
    assert RowsOf(rows, "h") == rows;
    assert IdxList(rows) == [1];
    NextIndexUnique([1], false, false, 2);
    ModifyHsKeyAdds(rows, "h", HS_ADMIN, "abc");
    AbcHex();
  }

  lemma AbcHex()
    ensures StoredData(HS_ADMIN, "abc") == "616263"
  {
    var b := Utf8("abc");
    assert Utf8("c") == [0x63];
    assert Utf8("bc") == [0x62] + Utf8("c");
    assert b == [0x61, 0x62, 0x63];
    assert HexOfByte(0x63) == "63";
    assert HexOfBytes(b[2..]) == "63";
    assert HexOfBytes(b[1..]) == "62" + "63";
    assert HexOfBytes(b) == "61" + "6263";
  }

  /** retrieve_handle_record reads the last HS_ADMIN row and shows no other HS_* value. */
  lemma RetrieveAdminFromLastRow(rows: seq<Row>, h: string, k: string)
    requires HandleExists(rows, h) && LastAdmin(RowsOf(rows, h)).Some?
    requires DecodeAdmin(LastAdmin(RowsOf(rows, h)).value).Ok?
    ensures Retrieve(rows, h).Ok?
    ensures Retrieve(rows, h).value.admin == DecodeAdmin(LastAdmin(RowsOf(rows, h)).value).value
    ensures IsHs(k) ==> k !in Retrieve(rows, h).value.values
  {
    if IsHs(k) {
      ConvHidesHs(RowsOf(rows, h), k);
    }
  }

  // ---------------------------------------------------------------------
  // The client
  // ---------------------------------------------------------------------

  class DbHandleClient {
    /** The handles table, in table order. */
    var rows: seq<Row>
    var adminHandle: seq<byte>
    var adminHandleIndex: int
    var perm: string
    var handleKey: string
    var handleValue: string

    /** A client over an existing table; the connection itself is not part of this model. */
    constructor(table: seq<Row>)
      ensures rows == table
      ensures adminHandle == [] && adminHandleIndex == 0 && perm == [] && handleKey == [] && handleValue == []
    {
      rows := table;
      adminHandle := [];
      adminHandleIndex := 0;
      perm := [];
      handleKey := [];
      handleValue := [];
    }

    /** get_list_of_idx: the idx of each row of h, in the order the query returns them. */
    method GetListOfIdx(h: string) returns (listIdx: seq<int>)
      ensures listIdx == IdxList(RowsOf(rows, h))
    {
      var result := RowsOf(rows, h);
      listIdx := [];
      var k := 0;
      while k < |result|
        invariant 0 <= k <= |result|
        invariant listIdx == IdxList(result[..k])
      {
        assert result[..k + 1][..k] == result[..k];
        listIdx := listIdx + [result[k].idx];
        k := k + 1;
      }
      assert result[..k] == result;
    }

    /**
     * create_new_index: the used indices as a set, united with the reserved
     * ones, and the first free index in range(start, searchmax).
     */
    method CreateNewIndex(h: string, url: bool, hsAdmin: bool) returns (index: int)
      ensures index == NewIndex(rows, h, url, hsAdmin)
    {
      var start, prohibited := StartAndReserved(url, hsAdmin);
      var used := GetListOfIdx(h);
      var existing := set k | k in used;
      var all := existing + prohibited;
      // max(all_prohibited_indices): the reserved maximum, or a larger used index
      var top := MaxOf(used, ReservedMax(url, hsAdmin));
      var searchmax := (if start > top then start else top) + 2;
      index := FirstFree(all, start, searchmax, used, url, hsAdmin);
    }

    /** retrieve_handle_record_without_HS_values. */
    method RetrieveWithoutHs(h: string) returns (r: Result<map<string, string>, DbError>)
      ensures r == WithoutHs(rows, h)
    {
      if !HandleExists(rows, h) {
        return Err(DbNotFound(h));
      }
      var d := ConvertQueryResult(RowsOf(rows, h));
      r := Ok(d);
    }

    /** check_if_key_exists. */
    method CheckIfKeyExists(h: string, key: string) returns (r: Result<bool, DbError>)
      ensures r == KeyExists(rows, h, key)
    {
      var record := RetrieveWithoutHs(h);
      if record.Err? {
        return Err(record.error);
      }
      r := Ok(key in record.value);
    }

    /** delete_handle. */
    method DeleteHandleRows(h: string) returns (err: Option<DbError>)
      modifies this
      ensures Outcome(rows, err) == DeleteHandle(old(rows), h)
      ensures adminHandle == old(adminHandle) && adminHandleIndex == old(adminHandleIndex) && perm == old(perm)
      ensures handleKey == old(handleKey) && handleValue == old(handleValue)
    {
      if HandleExists(rows, h) {
        rows := Without(rows, h);
        err := None;
      } else {
        err := Some(DbNotFound(h));
      }
    }

    /** delete_handle_value. */
    method DeleteHandleValueRows(h: string, key: string) returns (err: Option<DbError>)
      modifies this
      ensures Outcome(rows, err) == DeleteHandleValue(old(rows), h, key)
      ensures adminHandle == old(adminHandle) && adminHandleIndex == old(adminHandleIndex) && perm == old(perm)
      ensures handleKey == old(handleKey) && handleValue == old(handleValue)
    {
      var keyExists := CheckIfKeyExists(h, key);
      if keyExists.Err? {
        return Some(keyExists.error);
      }
      if keyExists.value {
        rows := WithoutKey(rows, h, key);
        err := None;
      } else {
        err := Some(DbKeyNotFound(h, key, KEY_NOT_FOUND_MSG));
      }
    }

    /** add_admin_entry: the padded index, the permissions in hex, and the row at idx 100. */
    method AddAdminEntry(h: string, admin: seq<byte>, index: int, permissions: string) returns (err: Option<DbError>)
      modifies this
      ensures AdminRow(h, admin, index, permissions).Some? ==>
        rows == old(rows) + [AdminRow(h, admin, index, permissions).value] && err.None?
      ensures AdminRow(h, admin, index, permissions).None? ==>
        rows == old(rows) && err == Some(PermissionsValueError)
      ensures adminHandle == old(adminHandle) && adminHandleIndex == old(adminHandleIndex) && perm == old(perm)
      ensures handleKey == old(handleKey) && handleValue == old(handleValue)
    {
      var hsadminIndex := PadIndex(index);
      var p := ParseBinary(permissions);
      if p.None? {
        return Some(PermissionsValueError);
      }
      var adminPerm := PyHexTail(p.value);
      var hexValue := "0" + adminPerm + "0000000f" + HexOfBytes(admin) + hsadminIndex;
      assert AdminHex(admin, index, permissions) == Some(hexValue);
      rows := rows + [Row(h, ADMIN_IDX, HS_ADMIN, StoredHex(hexValue))];
      err := None;
    }

    /**
     * register_handle: each HS_ADMIN keyword is stored in its field as it is
     * read, so a KeyError leaves the fields read before it updated.
     */
    method RegisterHandle(h: string, url: string, overwrite: bool, args: AdminArgs) returns (err: Option<DbError>)
      modifies this
      ensures adminHandle == (if args.adminHandle.Some? then args.adminHandle.value else old(adminHandle))
      ensures adminHandleIndex ==
        (if args.adminHandle.Some? && args.adminHandleIndex.Some? then args.adminHandleIndex.value else old(adminHandleIndex))
      ensures perm == (if args.adminHandle.Some? && args.adminHandleIndex.Some? && args.permissions.Some?
        then args.permissions.value else old(perm))
      ensures Outcome(rows, err) == RegisterCall(old(rows), h, url, overwrite, args)
      ensures handleKey == old(handleKey) && handleValue == old(handleValue)
    {
      if args.adminHandle.None? {
        return Some(ArgKeyError("admin_handle"));
      }
      adminHandle := args.adminHandle.value;
      if args.adminHandleIndex.None? {
        return Some(ArgKeyError("admin_handle_index"));
      }
      adminHandleIndex := args.adminHandleIndex.value;
      if args.permissions.None? {
        return Some(ArgKeyError("permissions"));
      }
      perm := args.permissions.value;
      var handleExists := HandleExists(rows, h);
      if !overwrite && handleExists {
        return Some(DbAlreadyExists(h, REGISTER_EXISTS_MSG));
      }
      if handleExists {
        var _ := DeleteHandleRows(h);
      }
      rows := rows + [UrlRow(h, url)];
      err := AddAdminEntry(h, adminHandle, adminHandleIndex, perm);
    }

    /** create_new_value: remember the pair as strings and insert it at a new default-mode index. */
    method CreateNewValue(h: string, key: string, value: string)
      modifies this
      ensures handleKey == key && handleValue == value
      ensures rows == old(rows) + [Row(h, NewIndex(old(rows), h, false, false), key, StoredData(key, value))]
      ensures adminHandle == old(adminHandle) && adminHandleIndex == old(adminHandleIndex) && perm == old(perm)
    {
      handleKey := key;
      handleValue := value;
      var newIdx := CreateNewIndex(h, false, false);
      rows := rows + [Row(h, newIdx, handleKey, StoredData(handleKey, handleValue))];
    }

    /**
     * modify_handle_value. The existence check comes first but raises
     * nothing; check_if_key_exists then raises for a missing handle, so
     * the branch for an unexisting handle is never reached.
     */
    method ModifyHandleValue(h: string, kvpairs: seq<(string, string)>, addIfNotExists: bool) returns (err: Option<DbError>)
      modifies this
      ensures Outcome(rows, err) == Modify(old(rows), h, kvpairs, addIfNotExists)
      ensures adminHandle == old(adminHandle) && adminHandleIndex == old(adminHandleIndex) && perm == old(perm)
      ensures if kvpairs != [] && KeyExists(old(rows), h, kvpairs[0].0) == Ok(false) && addIfNotExists
        then handleKey == kvpairs[0].0 && handleValue == kvpairs[0].1
        else handleKey == old(handleKey) && handleValue == old(handleValue)
    {
      if kvpairs == [] {
        return Some(KeyIndexError);
      }
      var key := kvpairs[0].0;
      var value := kvpairs[0].1;
      var handleRecordExists := HandleExists(rows, h);
      var keyExists := CheckIfKeyExists(h, key);
      if keyExists.Err? {
        return Some(keyExists.error);
      }
      if keyExists.value {
        var idxKey := FirstIdxOf(RowsOf(rows, h), key);
        if idxKey.None? {
          return Some(KeyIndexError);
        }
        rows := UpdateData(rows, h, idxKey.value, value);
      } else if addIfNotExists {
        CreateNewValue(h, key, value);
      }
      err := None;
    }

    /** retrieve_handle_record: the visible values plus the fields of the last HS_ADMIN row. */
    method RetrieveHandleRecord(h: string) returns (r: Result<DbRecord, DbError>)
      ensures r == Retrieve(rows, h)
    {
      var values := RetrieveWithoutHs(h);
      if values.Err? {
        return Err(values.error);
      }
      var json := RowsOf(rows, h);
      var hsadmin: Option<string> := None;
      var k := 0;
      while k < |json|
        invariant 0 <= k <= |json|
        invariant hsadmin == LastAdmin(json[..k])
      {
        assert json[..k + 1][..k] == json[..k];
        if json[k].valueType == HS_ADMIN {
          hsadmin := Some(json[k].data);
        }
        k := k + 1;
      }
      assert json[..k] == json;
      if hsadmin.None? {
        return Err(HexlifyTypeError);
      }
      var info := DecodeAdmin(hsadmin.value);
      if info.Err? {
        return Err(AdminDecodeError(info.error));
      }
      r := Ok(DbRecord(values.value, info.value));
    }
  }
}
