/**
 * The handles table as the database client queries it: rows of (handle,
 * idx, type, data) in table order, the SELECT filters the client issues,
 * and convert_query_result_to_dict, which hides every HS_* row together
 * with the row that follows it. A SELECT returns a handle's rows in the
 * order they were inserted; the real queries carry no ORDER BY, so this
 * order is an assumption of the model.
 */
module DbTable {
  import opened Wrappers

  /**
   * One row of the handles table. The ttl, timestamp, refs and permission
   * columns are not part of this model; HS_ADMIN data is kept as the hex
   * text binascii.hexlify gives back.
   */
  datatype Row = Row(handle: string, idx: int, valueType: string, data: string)

  /** The seven administrative types the dict conversion drops. */
  const HS_KEYS: seq<string> := ["HS_ADMIN", "HS_SITE", "HS_PUBKEY", "HS_SECKEY", "HS_ALIAS", "HS_VLIST", "HS_SERV"]

  predicate IsHs(t: string)
  {
    t in HS_KEYS
  }

  // ---------------------------------------------------------------------
  // The SELECT and DELETE filters
  // ---------------------------------------------------------------------

  /** SELECT … WHERE handle = h: the rows of h, in table order. */
  function RowsOf(rows: seq<Row>, h: string): (r: seq<Row>)
    ensures |r| <= |rows|
    ensures forall i :: 0 <= i < |r| ==> r[i].handle == h
  {
    if rows == [] then []
    else RowsOf(rows[..|rows| - 1], h) + (if rows[|rows| - 1].handle == h then [rows[|rows| - 1]] else [])
  }

  /** check_if_handle_exists: SELECT count(*) is not 0. */
  predicate HandleExists(rows: seq<Row>, h: string)
  {
    |RowsOf(rows, h)| != 0
  }

  lemma {:induction false} RowsOfAppend(a: seq<Row>, b: seq<Row>, h: string)
    ensures RowsOf(a + b, h) == RowsOf(a, h) + RowsOf(b, h)
    decreases |b|
  {
    if b == [] {
      assert a + b == a;
    } else {
      var c := b[..|b| - 1];
      assert (a + b)[..|a + b| - 1] == a + c;
      assert b[..|b| - 1] == c;
      RowsOfAppend(a, c, h);
    }
  }

  /** One more row at the end of the table adds it to its own handle's rows only. */
  lemma RowsOfSnoc(rows: seq<Row>, r: Row, h: string)
    ensures RowsOf(rows + [r], h) == RowsOf(rows, h) + (if r.handle == h then [r] else [])
  {
    assert (rows + [r])[..|rows + [r]| - 1] == rows;
  }

  /** A row is among the rows of h exactly when it is in the table and belongs to h. */
  lemma {:induction false} RowsOfMembers(rows: seq<Row>, h: string, r: Row)
    ensures r in RowsOf(rows, h) <==> r in rows && r.handle == h
    decreases |rows|
  {
    if rows != [] {
      var p := rows[..|rows| - 1];
      RowsOfMembers(p, h, r);
      assert rows == p + [rows[|rows| - 1]];
    }
  }

  /** DELETE FROM handles WHERE handle = h. */
  function Without(rows: seq<Row>, h: string): (r: seq<Row>)
    ensures |r| <= |rows|
  {
    if rows == [] then []
    else Without(rows[..|rows| - 1], h) + (if rows[|rows| - 1].handle != h then [rows[|rows| - 1]] else [])
  }

  /** After the DELETE the handle has no rows, and every other handle keeps its own. */
  lemma {:induction false} WithoutRowsOf(rows: seq<Row>, h: string, g: string)
    ensures RowsOf(Without(rows, h), g) == if g == h then [] else RowsOf(rows, g)
    decreases |rows|
  {
    if rows != [] {
      var p := rows[..|rows| - 1];
      var last := rows[|rows| - 1];
      WithoutRowsOf(p, h, g);
      var tail := if last.handle != h then [last] else [];
      RowsOfAppend(Without(p, h), tail, g);
      if tail != [] {
        assert [last][..0] == [];
      }
    }
  }

  /** DELETE FROM handles WHERE handle = h AND type = key. */
  function WithoutKey(rows: seq<Row>, h: string, key: string): (r: seq<Row>)
    ensures |r| <= |rows|
  {
    if rows == [] then []
    else
      var last := rows[|rows| - 1];
      WithoutKey(rows[..|rows| - 1], h, key) + (if !(last.handle == h && last.valueType == key) then [last] else [])
  }

  /** What the DELETE keeps: exactly the rows that are not rows of h with type key. */
  lemma {:induction false} WithoutKeyMembers(rows: seq<Row>, h: string, key: string, r: Row)
    ensures r in WithoutKey(rows, h, key) <==> r in rows && !(r.handle == h && r.valueType == key)
    decreases |rows|
  {
    if rows != [] {
      var p := rows[..|rows| - 1];
      WithoutKeyMembers(p, h, key, r);
      assert rows == p + [rows[|rows| - 1]];
    }
  }

  /** The rows of other handles are untouched by the DELETE. */
  lemma {:induction false} WithoutKeyOthers(rows: seq<Row>, h: string, key: string, g: string)
    requires g != h
    ensures RowsOf(WithoutKey(rows, h, key), g) == RowsOf(rows, g)
    decreases |rows|
  {
    if rows != [] {
      var p := rows[..|rows| - 1];
      var last := rows[|rows| - 1];
      WithoutKeyOthers(p, h, key, g);
      var tail := if !(last.handle == h && last.valueType == key) then [last] else [];
      RowsOfAppend(WithoutKey(p, h, key), tail, g);
      if tail != [] {
        assert [last][..0] == [];
      }
    }
  }

  /** UPDATE handles SET data = v WHERE handle = h AND idx = i. */
  function UpdateData(rows: seq<Row>, h: string, i: int, v: string): (r: seq<Row>)
    ensures |r| == |rows|
    ensures forall k :: 0 <= k < |rows| ==>
      r[k] == if rows[k].handle == h && rows[k].idx == i then rows[k].(data := v) else rows[k]
  {
    seq(|rows|, k requires 0 <= k < |rows| =>
      if rows[k].handle == h && rows[k].idx == i then rows[k].(data := v) else rows[k])
  }

  /** get_list_of_idx: the idx column of the rows, in order. */
  function IdxList(rs: seq<Row>): (r: seq<int>)
    ensures |r| == |rs| && forall k :: 0 <= k < |rs| ==> r[k] == rs[k].idx
  {
    if rs == [] then [] else IdxList(rs[..|rs| - 1]) + [rs[|rs| - 1].idx]
  }

  /** get_idx_existing_key: the idx of the first row of type key; None where query_result[0] raises IndexError. */
  function FirstIdxOf(rs: seq<Row>, key: string): (r: Option<int>)
    ensures r.Some? ==> exists k :: (0 <= k < |rs| && rs[k].valueType == key && rs[k].idx == r.value
      && forall j :: 0 <= j < k ==> rs[j].valueType != key)
    ensures r.None? ==> forall k :: 0 <= k < |rs| ==> rs[k].valueType != key
  {
    if rs == [] then None
    else if rs[0].valueType == key then Some(rs[0].idx)
    else
      var r := FirstIdxOf(rs[1..], key);
      assert forall k :: 1 <= k < |rs| ==> rs[k] == rs[1..][k - 1];
      r
  }

  // ---------------------------------------------------------------------
  // convert_query_result_to_dict
  // ---------------------------------------------------------------------

  /** Row i survives the conversion: it is no HS_* row and it does not follow one. */
  predicate Kept(rs: seq<Row>, i: int)
    requires 0 <= i < |rs|
  {
    !IsHs(rs[i].valueType) && !(i > 0 && IsHs(rs[i - 1].valueType))
  }

  /** The dict after the first n rows: kept rows update it in order, so a later one wins. */
  function ConvUpTo(rs: seq<Row>, n: nat): map<string, string>
    requires n <= |rs|
  {
    if n == 0 then map[]
    else
      var m := ConvUpTo(rs, n - 1);
      if Kept(rs, n - 1) then m[rs[n - 1].valueType := rs[n - 1].data] else m
  }

  /** The dict convert_query_result_to_dict returns for the rows rs. */
  function Conv(rs: seq<Row>): map<string, string>
  {
    ConvUpTo(rs, |rs|)
  }

  /** Row i is the last kept row of type k among the first n. */
  predicate LastKept(rs: seq<Row>, n: nat, i: int, k: string)
  {
    n <= |rs| && 0 <= i < n && Kept(rs, i) && rs[i].valueType == k
    && forall j :: i < j < n ==> !Kept(rs, j) || rs[j].valueType != k
  }

  /**
   * The dict holds a key exactly when a kept row has that type, and its
   * value is the data of the last such row.
   */
  lemma {:induction false} ConvUpToValue(rs: seq<Row>, n: nat, k: string)
    requires n <= |rs|
    ensures k in ConvUpTo(rs, n) <==> exists i :: LastKept(rs, n, i, k)
    ensures forall i :: LastKept(rs, n, i, k) ==> k in ConvUpTo(rs, n) && ConvUpTo(rs, n)[k] == rs[i].data
  {
    if n > 0 {
      ConvUpToValue(rs, n - 1, k);
      if Kept(rs, n - 1) && rs[n - 1].valueType == k {
        assert LastKept(rs, n, n - 1, k);
        forall i | LastKept(rs, n, i, k)
          ensures i == n - 1
        {
        }
      } else {
        var m := ConvUpTo(rs, n - 1);
        assert ConvUpTo(rs, n) == if Kept(rs, n - 1) then m[rs[n - 1].valueType := rs[n - 1].data] else m;
        assert k in ConvUpTo(rs, n) <==> k in m;
        assert k in m ==> ConvUpTo(rs, n)[k] == m[k];
        forall i
          ensures LastKept(rs, n, i, k) <==> LastKept(rs, n - 1, i, k)
        {
        }
        if k in m {
          var i :| LastKept(rs, n - 1, i, k);
          assert LastKept(rs, n, i, k);
        }
      }
    }
  }

  lemma ConvValue(rs: seq<Row>, k: string)
    ensures k in Conv(rs) <==> exists i :: LastKept(rs, |rs|, i, k)
    ensures forall i :: LastKept(rs, |rs|, i, k) ==> k in Conv(rs) && Conv(rs)[k] == rs[i].data
  {
    ConvUpToValue(rs, |rs|, k);
  }

  /** No HS_* type is ever visible in the dict. */
  lemma ConvHidesHs(rs: seq<Row>, k: string)
    requires IsHs(k)
    ensures k !in Conv(rs)
  {
    ConvValue(rs, k);
  }

  /** The row right after an HS_* row is hidden too: here the URL disappears and only EMAIL is left. */
  lemma ConvDropsRowAfterHs()
    ensures Conv([Row("h", 100, "HS_ADMIN", "0fff"), Row("h", 1, "URL", "u"), Row("h", 2, "EMAIL", "e")])
      == map["EMAIL" := "e"]
  {
    var rs := [Row("h", 100, "HS_ADMIN", "0fff"), Row("h", 1, "URL", "u"), Row("h", 2, "EMAIL", "e")];
    assert IsHs(rs[0].valueType);
    assert !IsHs("URL") && !IsHs("EMAIL");
    assert !Kept(rs, 0) && !Kept(rs, 1) && Kept(rs, 2);
    assert ConvUpTo(rs, 2) == ConvUpTo(rs, 1) == ConvUpTo(rs, 0) == map[];
  }

  /**
   * The loop of convert_query_result_to_dict: an HS_* row sets the skip
   * flag, the next row only clears it, every other row updates the dict.
   */
  method ConvertQueryResult(rs: seq<Row>) returns (d: map<string, string>)
    ensures d == Conv(rs)
  {
    d := map[];
    var skip := false;
    var k := 0;
    while k < |rs|
      invariant 0 <= k <= |rs|
      invariant d == ConvUpTo(rs, k)
      invariant skip == (k > 0 && IsHs(rs[k - 1].valueType))
    {
      var t := rs[k].valueType;
      if t in HS_KEYS {
        skip := true;
      } else if skip {
        skip := false;
      } else {
        d := d[t := rs[k].data];
      }
      k := k + 1;
    }
  }

  // ---------------------------------------------------------------------
  // The HS_ADMIN row retrieve_handle_record reads
  // ---------------------------------------------------------------------

  /** The data of the last HS_ADMIN row: the loop in retrieve_handle_record overwrites on each one. */
  function LastAdmin(rs: seq<Row>): (r: Option<string>)
    ensures r.Some? ==> exists i :: (0 <= i < |rs| && rs[i].valueType == "HS_ADMIN" && rs[i].data == r.value
      && forall j :: i < j < |rs| ==> rs[j].valueType != "HS_ADMIN")
    ensures r.None? ==> forall i :: 0 <= i < |rs| ==> rs[i].valueType != "HS_ADMIN"
  {
    if rs == [] then None
    else if rs[|rs| - 1].valueType == "HS_ADMIN" then Some(rs[|rs| - 1].data)
    else LastAdmin(rs[..|rs| - 1])
  }
}
