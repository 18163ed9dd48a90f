/**
 * The HS_ADMIN value the database client writes and reads back: the hex
 * text of '0', the permission bits in hex, the constant '0000000f', the
 * admin handle's bytes in hex and the admin index as 8 hex digits; and the
 * decoder that slices that text apart again.
 */
module DbAdminCodec {
  import opened Wrappers
  import opened PyStr

  const INDEX_LENGTH: nat := 8
  const ADMIN_IDX := 100
  const INDEX_BOUND: nat := 0x1_0000_0000

  /** The HS_ADMIN fields as the database client reads them back. */
  datatype AdminInfo = AdminInfo(handle: seq<byte>, index: int, permissions: string)

  /** What decoding can raise: int(…, 16) on a bad slice, or unhexlify on one. */
  datatype DecodeError = HexValueError | UnhexlifyError

  // ---------------------------------------------------------------------
  // add_admin_entry
  // ---------------------------------------------------------------------

  /** The index field: hex(index)[2:] with '0' prepended up to 8 characters; a longer one is kept. */
  function IndexField(index: int): (r: string)
    ensures |r| >= INDEX_LENGTH
    ensures index >= 0 ==> r == ZFill(ToHex(index), INDEX_LENGTH)
  {
    var h := PyHexTail(index);
    (if |h| < INDEX_LENGTH then Zeros(INDEX_LENGTH - |h|) else []) + h
  }

  /** The padding loop of add_admin_entry: one '0' prepended per missing character. */
  method PadIndex(index: int) returns (field: string)
    ensures field == IndexField(index)
  {
    field := PyHexTail(index);
    ghost var h := field;
    if |field| < INDEX_LENGTH {
      var missing := INDEX_LENGTH - |field|;
      var k := 0;
      assert field == Zeros(0) + h;
      while k < missing
        invariant 0 <= k <= missing
        invariant field == Zeros(k) + h
      {
        assert "0" + Zeros(k) == Zeros(k + 1);
        field := "0" + field;
        k := k + 1;
      }
    } else {
      assert [] + h == h;
    }
  }

  /**
   * The hex text of the HS_ADMIN value, or None when the permissions are
   * not a binary numeral (int(perm, 2) raises ValueError).
   */
  function AdminHex(adminHandle: seq<byte>, index: int, perm: string): Option<string>
  {
    match ParseBinary(perm)
    case None => None
    case Some(p) => Some("0" + PyHexTail(p) + "0000000f" + HexOfBytes(adminHandle) + IndexField(index))
  }

  // ---------------------------------------------------------------------
  // get_hs_admin_index and retrieve_handle_record
  // ---------------------------------------------------------------------

  /**
   * What the data column gives back: UNHEX stores an odd number of hex
   * digits as if a '0' led them, and hexlify reads the bytes back in
   * lower-case hex.
   */
  function StoredHex(value: string): (r: string)
    ensures |r| % 2 == 0
  {
    if |value| % 2 == 1 then "0" + value else value
  }

  /** get_hs_admin_index: the value of the last 8 hex digits. */
  function HsAdminIndex(hex: string): Option<nat>
  {
    ParseHex(PySlice(hex, |hex| - 8, |hex|))
  }

  /**
   * The HS_ADMIN part of retrieve_handle_record: the index from the last 8
   * digits, the admin handle from hex[12:len-8], the permissions as the
   * value of the first 4 digits in binary, zero-filled to 12 bits.
   */
  function DecodeAdmin(hex: string): Result<AdminInfo, DecodeError>
  {
    match HsAdminIndex(hex)
    case None => Err(HexValueError)
    case Some(index) =>
      match Unhexlify(PySlice(hex, 12, |hex| - 8))
      case None => Err(UnhexlifyError)
      case Some(handle) =>
        match ParseHex(PySlice(hex, 0, 4))
        case None => Err(HexValueError)
        case Some(p) => Ok(AdminInfo(handle, index, ZFill(ToBinary(p), 12)))
  }

  // ---------------------------------------------------------------------
  // The round trip
  // ---------------------------------------------------------------------

  lemma PowValues()
    ensures Pow(2, 12) == 4096 && Pow(16, 8) == INDEX_BOUND
  {
    assert Pow(2, 4) == 16;
    assert Pow(2, 8) == 256;
    assert Pow(16, 4) == 65536;
  }

  /** A 12-bit permission string of value at least 16 has two or three hex digits. */
  lemma PermissionDigits(perm: string)
    requires |perm| == 12 && AllBinary(perm) && BinValue(perm) >= 16
    ensures ParseBinary(perm) == Some(BinValue(perm))
    ensures 2 <= |ToHex(BinValue(perm))| <= 3
  {
    var v := BinValue(perm);
    PlainBinary(perm);
    BinValueBound(perm);
    PowValues();
    if v < 256 {
      assert |ToHex(v / 16)| == 1;
    } else {
      ToHexThreeDigits(v);
    }
  }

  /** An index below 2^32 fills the index field exactly and reads back as itself. */
  lemma IndexFieldRoundTrip(index: int)
    requires 0 <= index < INDEX_BOUND
    ensures |IndexField(index)| == INDEX_LENGTH
    ensures ParseHex(IndexField(index)) == Some(index)
  {
    PowValues();
    ToHexLength(index, 8);
    HexRoundTrip(INDEX_LENGTH - |ToHex(index)|, index);
  }

  lemma StoredOdd(v: string, m: nat)
    requires |v| == 2 * m + 1
    ensures StoredHex(v) == "0" + v
  {
  }

  lemma StoredEven(v: string, m: nat)
    requires |v| == 2 * m
    ensures StoredHex(v) == v
  {
  }

  /** Stored, a value with two permission digits gets a '0' in front. */
  lemma StoredTwoDigits(p: string, t: string, m: nat)
    requires |p| == 2 && |t| == 2 * m
    ensures StoredHex("0" + p + t) == Zeros(2) + p + t
  {
    var v := "0" + p + t;
    StoredOdd(v, m + 1);
    assert Zeros(2) == "00";
    assert "0" + v == "00" + p + t;
  }

  /** Stored, a value with three permission digits is kept as written. */
  lemma StoredThreeDigits(p: string, t: string, m: nat)
    requires |p| == 3 && |t| == 2 * m
    ensures StoredHex("0" + p + t) == Zeros(1) + p + t
  {
    StoredEven("0" + p + t, m + 2);
    assert Zeros(1) == "0";
  }

  /** The decoder on a value laid out as 4 permission digits, 8 more, the handle's hex and the index field. */
  lemma DecodeOfParts(q: string, c: string, h: string, f: string)
    requires |q| == 4 && |c| == 8 && |f| == 8
    requires ParseHex(q).Some? && ParseHex(f).Some? && Unhexlify(h).Some?
    ensures DecodeAdmin(q + c + h + f)
      == Ok(AdminInfo(Unhexlify(h).value, ParseHex(f).value, ZFill(ToBinary(ParseHex(q).value), 12)))
  {
    var hex := q + c + h + f;
    assert |hex| == 20 + |h|;
    assert PySlice(hex, |hex| - 8, |hex|) == f by {
      assert hex[|hex| - 8..] == f;
    }
    assert PySlice(hex, 12, |hex| - 8) == h by {
      assert hex[12..12 + |h|] == h;
    }
    assert PySlice(hex, 0, 4) == q by {
      assert hex[..4] == q;
    }
  }

  /** The value written with a permission part p, before UNHEX. */
  lemma AdminHexLayout(adminHandle: seq<byte>, index: int, perm: string)
    requires ParseBinary(perm).Some? && ParseBinary(perm).value >= 0
    ensures AdminHex(adminHandle, index, perm)
      == Some("0" + ToHex(ParseBinary(perm).value) + ("0000000f" + HexOfBytes(adminHandle) + IndexField(index)))
  {
    var p := ToHex(ParseBinary(perm).value);
    var h := HexOfBytes(adminHandle);
    var f := IndexField(index);
    assert "0" + p + "0000000f" + h + f == "0" + p + ("0000000f" + h + f);
  }

  /** The permission digits zero-padded to four. */
  function PermField(p: string): (r: string)
    requires |p| <= 4
    ensures |r| == 4
  {
    Zeros(4 - |p|) + p
  }

  /** With two or three permission digits the stored value has a 4-digit permission field. */
  lemma StoredPermissionField(p: string, h: string, f: string, m: nat)
    requires 2 <= |p| <= 3 && |h| == 2 * m && |f| == 8
    ensures StoredHex("0" + p + ("0000000f" + h + f)) == PermField(p) + "0000000f" + h + f
  {
    var t := "0000000f" + h + f;
    assert |t| == 2 * (m + 8);
    if |p| == 2 {
      StoredTwoDigits(p, t, m + 8);
    } else {
      StoredThreeDigits(p, t, m + 8);
    }
  }

  /**
   * Reading back recovers what add_admin_entry wrote: for a 12-bit
   * permission string of value at least 16 and an index below 2^32, the
   * admin handle, the index and the permissions come back unchanged.
   */
  lemma AdminRoundTrip(adminHandle: seq<byte>, index: int, perm: string)
    requires |perm| == 12 && AllBinary(perm) && BinValue(perm) >= 16
    requires 0 <= index < INDEX_BOUND
    ensures AdminHex(adminHandle, index, perm).Some?
    ensures DecodeAdmin(StoredHex(AdminHex(adminHandle, index, perm).value)) == Ok(AdminInfo(adminHandle, index, perm))
  {
    var v := BinValue(perm);
    PermissionDigits(perm);
    IndexFieldRoundTrip(index);
    var p := ToHex(v);
    var h := HexOfBytes(adminHandle);
    var f := IndexField(index);
    AdminHexLayout(adminHandle, index, perm);
    StoredPermissionField(p, h, f, |adminHandle|);
    HexRoundTrip(4 - |p|, v);
    UnhexlifyHexOfBytes(adminHandle);
    DecodeOfParts(PermField(p), "0000000f", h, f);
    BinaryRoundTrip(perm);
  }

  /** Permissions that are no binary numeral raise ValueError before anything is written. */
  lemma NonBinaryPermissionsRejected(adminHandle: seq<byte>, index: int)
    ensures AdminHex(adminHandle, index, "rwx").None?
  {
    assert Strip("rwx") == "rwx";
    assert "rwx"[0] == 'r';
  }

  /**
   * Below 16 the permissions take one hex digit, the value has even length
   * and every later slice is shifted by two digits: the decoded admin
   * handle loses its first byte.
   */
  lemma SmallPermissionsMisread(adminHandle: seq<byte>, index: int, perm: string)
    requires adminHandle != [] && 0 <= index < INDEX_BOUND
    requires |perm| == 12 && AllBinary(perm) && BinValue(perm) < 16
    ensures AdminHex(adminHandle, index, perm).Some?
    ensures var r := DecodeAdmin(StoredHex(AdminHex(adminHandle, index, perm).value));
      r.Ok? && r.value.handle == adminHandle[1..] && r.value.index == index
  {
    var v := BinValue(perm);
    PlainBinary(perm);
    var p := ToHex(v);
    assert |p| == 1;
    var f := IndexField(index);
    IndexFieldRoundTrip(index);
    var h := HexOfBytes(adminHandle);
    AdminHexLayout(adminHandle, index, perm);
    var written := "0" + p + ("0000000f" + h + f);
    StoredEven(written, 9 + |adminHandle|);
    ShiftedLayout(p, h, f);
    assert h[2..] == HexOfBytes(adminHandle[1..]);
    UnhexlifyHexOfBytes(adminHandle[1..]);
    DecodeOfParts(("0" + p + "00"), "00000f" + h[..2], h[2..], f);
  }

  /** One permission digit: the 4-digit field takes two of the constant's zeros, and the handle's first byte moves into the constant's place. */
  lemma ShiftedLayout(p: string, h: string, f: string)
    requires |p| == 1 && AllHex(p) && |h| >= 2
    ensures "0" + p + ("0000000f" + h + f) == ("0" + p + "00") + ("00000f" + h[..2]) + h[2..] + f
    ensures ParseHex("0" + p + "00").Some?
  {
    assert h == h[..2] + h[2..];
    var q := "0" + p + "00";
    assert q[0] == '0' && q[1] == p[0] && q[2] == '0' && q[3] == '0';
  }
}
