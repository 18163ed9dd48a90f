/**
 * The batch client (BatchHandleClient): every method appends commands for
 * hdl-genericbatch to the batch file, or, for the two authenticate
 * methods, truncates the file and writes the authentication line. The
 * file is a string buffer field; its meaning is read off by splitting it
 * at newlines, as the batch tool reads it line by line.
 */
module BatchClient {
  import opened Wrappers
  import opened PyStr
  import opened Lines

  /** __base_client_batch_path + '/handle_batch': the path has a doubled slash. */
  const BATCH_FILE := "./pyhandle/batch/" + "/handle_batch"

  /** The ttl and the permission flags every command line carries. */
  const VALUE_FLAGS := " 86400 1110 "

  /** KeyError for a missing kvpairs key, TypeError for a non-str type or data. */
  datatype BatchError = BatchKeyError(key: string) | BatchTypeError

  /** The file contents and the three fields modify_handle_value and add_handle_value set. */
  datatype BatchState = BatchState(buffer: string, valueType: Scalar, index: Scalar, data: Scalar)

  // ---------------------------------------------------------------------
  // The lines the commands write
  // ---------------------------------------------------------------------

  function CreateLine(handle: string): string
  {
    "CREATE " + handle
  }

  /** The HS_ADMIN value at index 100: ADMIN index:permissions:admin handle. */
  function AdminLine(adminIndex: Scalar, adminHandle: string, perm: string): string
  {
    "100 HS_ADMIN" + VALUE_FLAGS + "ADMIN " + StrOf(adminIndex) + ":" + perm + ":" + adminHandle
  }

  function AddLine(handle: string): string
  {
    "ADD " + handle
  }

  /** The URL value at index 1. */
  function UrlLine(url: string): string
  {
    "1 URL" + VALUE_FLAGS + "UTF8 " + url
  }

  /** The operation and the handle: MODIFY h or ADD h. */
  function OpLine(op: string, handle: string): string
  {
    op + " " + handle
  }

  /** One UTF8 value: index, type, ttl and permissions, then the data. */
  function ValueLine(index: Scalar, valueType: string, data: string): string
  {
    StrOf(index) + " " + valueType + VALUE_FLAGS + "UTF8 " + data
  }

  function RemoveLine(handle: string, index: Scalar): string
  {
    "REMOVE " + StrOf(index) + ":" + handle
  }

  // ---------------------------------------------------------------------
  // The commands
  // ---------------------------------------------------------------------

  /** register_handle_batch, first write: the CREATE command with the HS_ADMIN value. */
  function CreateCommand(handle: string, adminIndex: Scalar, adminHandle: string, perm: string): string
  {
    "\n" + CreateLine(handle) + "\n" + AdminLine(adminIndex, adminHandle, perm)
  }

  /** register_handle_batch, second write: an empty line, then the ADD of the URL. */
  function AddUrlCommand(handle: string, url: string): string
  {
    "\n" + "" + "\n" + AddLine(handle) + "\n" + UrlLine(url)
  }

  /** delete_handle: one DELETE line. */
  function DeleteCommand(handle: string): string
  {
    "\nDELETE " + handle
  }

  /** modify_handle_value (op MODIFY) and add_handle_value (op ADD). */
  function ValueCommand(op: string, handle: string, index: Scalar, valueType: string, data: string): string
  {
    "\n" + OpLine(op, handle) + "\n" + ValueLine(index, valueType, data)
  }

  /** The REMOVE lines for the indices, in list order. */
  function RemoveLineSeq(handle: string, indices: seq<Scalar>): (r: seq<string>)
    ensures |r| == |indices| && forall k :: 0 <= k < |indices| ==> r[k] == RemoveLine(handle, indices[k])
  {
    if indices == [] then [] else RemoveLineSeq(handle, indices[..|indices| - 1]) + [RemoveLine(handle, indices[|indices| - 1])]
  }

  /** delete_handle_value: one REMOVE line per index, each after a newline. */
  function RemoveCommands(handle: string, indices: seq<Scalar>): string
  {
    NewlineJoined(RemoveLineSeq(handle, indices))
  }

  /** authenticate_seckey: the whole file is the user line and the password. */
  function SeckeyText(user: string, password: string): string
  {
    "AUTHENTICATE SECKEY:" + user + "\n" + password
  }

  /** authenticate_pubkey: the user line, then the key path with '|passphrase' when one is given. */
  function PubkeyText(user: string, keyPath: string, passphrase: Option<string>): string
  {
    "AUTHENTICATE PUBKEY:" + user + "\n" + keyPath + (if passphrase.Some? then "|" + passphrase.value else "")
  }

  /**
   * The shared logic of modify_handle_value and add_handle_value: nothing
   * for empty kvpairs; otherwise the fields are set one by one (a missing
   * key raises KeyError after the earlier ones are set), and the command is
   * written when type and data are strings, concatenation raising TypeError
   * otherwise.
   */
  function ValueOp(st: BatchState, op: string, handle: string, kvpairs: map<string, Scalar>): (BatchState, Option<BatchError>)
  {
    if |kvpairs| == 0 then (st, None)
    else if "type" !in kvpairs then (st, Some(BatchKeyError("type")))
    else
      var st1 := st.(valueType := kvpairs["type"]);
      if "index" !in kvpairs then (st1, Some(BatchKeyError("index")))
      else
        var st2 := st1.(index := kvpairs["index"]);
        if "data" !in kvpairs then (st2, Some(BatchKeyError("data")))
        else
          var st3 := st2.(data := kvpairs["data"]);
          if st3.valueType.SInt? || st3.data.SInt? then (st3, Some(BatchTypeError))
          else (st3.(buffer := st.buffer + ValueCommand(op, handle, st3.index, st3.valueType.s, st3.data.s)), None)
  }

  // ---------------------------------------------------------------------
  // What the commands mean, line by line
  // ---------------------------------------------------------------------

  lemma LiteralLines()
    ensures NoNewline("CREATE ") && NoNewline("100 HS_ADMIN") && NoNewline(VALUE_FLAGS) && NoNewline("ADMIN ")
    ensures NoNewline(":") && NoNewline("ADD ") && NoNewline("1 URL") && NoNewline("UTF8 ") && NoNewline(" ")
    ensures NoNewline("REMOVE ") && NoNewline("DELETE ") && NoNewline("")
  {
  }

  lemma CreateLinesClean(handle: string, adminIndex: Scalar, adminHandle: string, perm: string)
    requires NoNewline(handle) && NoNewline(StrOf(adminIndex)) && NoNewline(adminHandle) && NoNewline(perm)
    ensures NoNewline(CreateLine(handle)) && NoNewline(AdminLine(adminIndex, adminHandle, perm))
  {
    LiteralLines();
    NoNewlineCat("CREATE ", handle);
    var a := "100 HS_ADMIN";
    NoNewlineCat(a, VALUE_FLAGS);
    NoNewlineCat(a + VALUE_FLAGS, "ADMIN ");
    NoNewlineCat(a + VALUE_FLAGS + "ADMIN ", StrOf(adminIndex));
    NoNewlineCat(a + VALUE_FLAGS + "ADMIN " + StrOf(adminIndex), ":");
    NoNewlineCat(a + VALUE_FLAGS + "ADMIN " + StrOf(adminIndex) + ":", perm);
    NoNewlineCat(a + VALUE_FLAGS + "ADMIN " + StrOf(adminIndex) + ":" + perm, ":");
    NoNewlineCat(a + VALUE_FLAGS + "ADMIN " + StrOf(adminIndex) + ":" + perm + ":", adminHandle);
  }

  lemma AddLinesClean(handle: string, url: string)
    requires NoNewline(handle) && NoNewline(url)
    ensures NoNewline(AddLine(handle)) && NoNewline(UrlLine(url))
  {
    LiteralLines();
    NoNewlineCat("ADD ", handle);
    NoNewlineCat("1 URL", VALUE_FLAGS);
    NoNewlineCat("1 URL" + VALUE_FLAGS, "UTF8 ");
    NoNewlineCat("1 URL" + VALUE_FLAGS + "UTF8 ", url);
  }

  /**
   * register_handle_batch adds exactly five lines: CREATE, the HS_ADMIN
   * value at index 100, an empty line, ADD, and the URL at index 1.
   */
  lemma RegisterLines(old_: string, handle: string, url: string, adminIndex: Scalar, adminHandle: string, perm: string)
    requires NoNewline(handle) && NoNewline(url) && NoNewline(StrOf(adminIndex))
    requires NoNewline(adminHandle) && NoNewline(perm)
    ensures SplitLines(old_ + CreateCommand(handle, adminIndex, adminHandle, perm) + AddUrlCommand(handle, url))
      == SplitLines(old_) + [CreateLine(handle), AdminLine(adminIndex, adminHandle, perm), "", AddLine(handle), UrlLine(url)]
  {
    var l1 := CreateLine(handle);
    var l2 := AdminLine(adminIndex, adminHandle, perm);
    var l4 := AddLine(handle);
    var l5 := UrlLine(url);
    CreateLinesClean(handle, adminIndex, adminHandle, perm);
    AddLinesClean(handle, url);
    TwoLines(l1, l2);
    JoinedLines(old_, [l1, l2]);
    ThreeLines("", l4, l5);
    JoinedLines(old_ + CreateCommand(handle, adminIndex, adminHandle, perm), ["", l4, l5]);
    assert [l1, l2] + ["", l4, l5] == [l1, l2, "", l4, l5];
  }

  /** delete_handle adds one DELETE line. */
  lemma DeleteLines(old_: string, handle: string)
    requires NoNewline(handle)
    ensures SplitLines(old_ + DeleteCommand(handle)) == SplitLines(old_) + ["DELETE " + handle]
  {
    LiteralLines();
    NoNewlineCat("DELETE ", handle);
    assert old_ + DeleteCommand(handle) == old_ + "\n" + ("DELETE " + handle);
    SplitJoin(old_, "DELETE " + handle);
    SplitSingle("DELETE " + handle);
  }

  /** A value command adds the operation line and the value line. */
  lemma ValueCommandLines(old_: string, op: string, handle: string, index: Scalar, valueType: string, data: string)
    requires NoNewline(op) && NoNewline(handle) && NoNewline(StrOf(index)) && NoNewline(valueType) && NoNewline(data)
    ensures SplitLines(old_ + ValueCommand(op, handle, index, valueType, data))
      == SplitLines(old_) + [OpLine(op, handle), ValueLine(index, valueType, data)]
  {
    LiteralLines();
    NoNewlineCat(op, " ");
    NoNewlineCat(op + " ", handle);
    NoNewlineCat(StrOf(index), " ");
    NoNewlineCat(StrOf(index) + " ", valueType);
    NoNewlineCat(StrOf(index) + " " + valueType, VALUE_FLAGS);
    NoNewlineCat(StrOf(index) + " " + valueType + VALUE_FLAGS, "UTF8 ");
    NoNewlineCat(StrOf(index) + " " + valueType + VALUE_FLAGS + "UTF8 ", data);
    var l1 := OpLine(op, handle);
    var l2 := ValueLine(index, valueType, data);
    TwoLines(l1, l2);
    JoinedLines(old_, [l1, l2]);
  }

  lemma RemoveLineClean(handle: string, index: Scalar)
    requires NoNewline(handle) && NoNewline(StrOf(index))
    ensures NoNewline(RemoveLine(handle, index))
  {
    LiteralLines();
    NoNewlineCat("REMOVE ", StrOf(index));
    NoNewlineCat("REMOVE " + StrOf(index), ":");
    NoNewlineCat("REMOVE " + StrOf(index) + ":", handle);
  }

  /** delete_handle_value adds one REMOVE line per index, in order, and nothing for no index. */
  lemma RemoveLines(old_: string, handle: string, indices: seq<Scalar>)
    requires NoNewline(handle) && forall k :: 0 <= k < |indices| ==> NoNewline(StrOf(indices[k]))
    ensures SplitLines(old_ + RemoveCommands(handle, indices)) == SplitLines(old_) + RemoveLineSeq(handle, indices)
  {
    var lines := RemoveLineSeq(handle, indices);
    forall k | 0 <= k < |lines|
      ensures NoNewline(lines[k])
    {
      RemoveLineClean(handle, indices[k]);
    }
    JoinedLines(old_, lines);
  }

  /** A single index gives the same one REMOVE line as the loop would. */
  lemma SingleRemove(handle: string, index: Scalar)
    ensures RemoveCommands(handle, [index]) == "\n" + RemoveLine(handle, index)
  {
    assert RemoveLineSeq(handle, [index]) == [RemoveLine(handle, index)];
    OneLine(RemoveLine(handle, index));
  }

  lemma RemoveCommandsSnoc(handle: string, indices: seq<Scalar>, x: Scalar)
    ensures RemoveCommands(handle, indices + [x]) == RemoveCommands(handle, indices) + "\n" + RemoveLine(handle, x)
  {
    assert (indices + [x])[..|indices|] == indices;
  }

  lemma AppendAssoc(a: string, b: string, c: string)
    ensures a + b + ("\n" + c) == a + (b + "\n" + c)
  {
  }

  /** One pass of the removal loop appends the command for the next index. */
  lemma RemoveStep(start: string, handle: string, indices: seq<Scalar>, k: int)
    requires 0 <= k < |indices|
    ensures start + RemoveCommands(handle, indices[..k]) + ("\n" + RemoveLine(handle, indices[k]))
      == start + RemoveCommands(handle, indices[..k + 1])
  {
    assert indices[..k + 1] == indices[..k] + [indices[k]];
    RemoveCommandsSnoc(handle, indices[..k], indices[k]);
    AppendAssoc(start, RemoveCommands(handle, indices[..k]), RemoveLine(handle, indices[k]));
  }

  /**
   * modify_handle_value and add_handle_value write exactly when kvpairs
   * holds type, index and data with string type and data; the two lines
   * then follow the existing ones, and on every error the file is as it
   * was.
   */
  lemma ValueOpLines(st: BatchState, op: string, handle: string, kvpairs: map<string, Scalar>)
    requires NoNewline(op) && NoNewline(handle)
    requires forall k :: k in kvpairs ==> NoNewline(StrOf(kvpairs[k]))
    ensures var (st', err) := ValueOp(st, op, handle, kvpairs);
      && (err.None? <==> (|kvpairs| == 0 || ("type" in kvpairs && "index" in kvpairs && "data" in kvpairs
            && kvpairs["type"].SText? && kvpairs["data"].SText?)))
      && (err.Some? || |kvpairs| == 0 ==> st'.buffer == st.buffer)
      && (err.None? && |kvpairs| > 0 ==>
            st'.valueType == kvpairs["type"] && st'.index == kvpairs["index"] && st'.data == kvpairs["data"]
            && SplitLines(st'.buffer) == SplitLines(st.buffer)
               + [OpLine(op, handle), ValueLine(kvpairs["index"], kvpairs["type"].s, kvpairs["data"].s)])
  {
    var (st', err) := ValueOp(st, op, handle, kvpairs);
    if err.None? && |kvpairs| > 0 {
      var t := kvpairs["type"];
      var d := kvpairs["data"];
      assert StrOf(t) == t.s && StrOf(d) == d.s;
      ValueCommandLines(st.buffer, op, handle, kvpairs["index"], t.s, d.s);
    }
  }

  /** authenticate_seckey leaves two lines: the user and the password. */
  lemma SeckeyLines(user: string, password: string)
    requires NoNewline(user) && NoNewline(password)
    ensures SplitLines(SeckeyText(user, password)) == ["AUTHENTICATE SECKEY:" + user, password]
  {
    var a := "AUTHENTICATE SECKEY:";
    assert NoNewline(a);
    NoNewlineCat(a, user);
    SplitJoin(a + user, password);
    SplitSingle(a + user);
    SplitSingle(password);
  }

  /** authenticate_pubkey leaves two lines; the passphrase follows the key path after '|' when given. */
  lemma PubkeyLines(user: string, keyPath: string, passphrase: Option<string>)
    requires NoNewline(user) && NoNewline(keyPath)
    requires passphrase.Some? ==> NoNewline(passphrase.value)
    ensures SplitLines(PubkeyText(user, keyPath, passphrase))
      == ["AUTHENTICATE PUBKEY:" + user, keyPath + (if passphrase.Some? then "|" + passphrase.value else "")]
  {
    var a := "AUTHENTICATE PUBKEY:";
    assert NoNewline(a) && NoNewline("|") && NoNewline("");
    var tail := if passphrase.Some? then "|" + passphrase.value else "";
    if passphrase.Some? {
      NoNewlineCat("|", passphrase.value);
    }
    NoNewlineCat(keyPath, tail);
    NoNewlineCat(a, user);
    assert PubkeyText(user, keyPath, passphrase) == a + user + "\n" + (keyPath + tail);
    SplitJoin(a + user, keyPath + tail);
    SplitSingle(a + user);
    SplitSingle(keyPath + tail);
  }

  /**
   * BatchHandleClient with the batch file as a buffer. The type, index and
   * data attributes that modify_handle_value and add_handle_value set are
   * fields; before the first such call they hold the empty text.
   */
  class BatchHandleClient {
    var buffer: string
    var valueType: Scalar
    var index: Scalar
    var data: Scalar

    /** The client over a batch file with the given contents (create_batch_file leaves it empty). */
    constructor(contents: string)
      ensures buffer == contents
      ensures valueType == SText([]) && index == SText([]) && data == SText([])
    {
      buffer := contents;
      valueType := SText([]);
      index := SText([]);
      data := SText([]);
    }

    function State(): BatchState
      reads this
    {
      BatchState(buffer, valueType, index, data)
    }

    /** register_handle_batch: the CREATE command, then the ADD of the URL, both appended. */
    method RegisterHandleBatch(handle: string, url: string, adminIndex: Scalar, adminHandle: string, perm: string)
      modifies this
      ensures buffer == old(buffer) + CreateCommand(handle, adminIndex, adminHandle, perm) + AddUrlCommand(handle, url)
      ensures valueType == old(valueType) && index == old(index) && data == old(data)
    {
      buffer := buffer + CreateCommand(handle, adminIndex, adminHandle, perm);
      buffer := buffer + AddUrlCommand(handle, url);
    }

    /** delete_handle: the DELETE command, appended. */
    method DeleteHandle(handle: string)
      modifies this
      ensures buffer == old(buffer) + DeleteCommand(handle)
      ensures valueType == old(valueType) && index == old(index) && data == old(data)
    {
      buffer := buffer + DeleteCommand(handle);
    }

    /** The body modify_handle_value and add_handle_value share, for the operation op. */
    method WriteValue(op: string, handle: string, kvpairs: map<string, Scalar>) returns (err: Option<BatchError>)
      modifies this
      ensures (State(), err) == ValueOp(old(State()), op, handle, kvpairs)
    {
      if |kvpairs| == 0 {
        return None;
      }
      if "type" !in kvpairs {
        return Some(BatchKeyError("type"));
      }
      valueType := kvpairs["type"];
      if "index" !in kvpairs {
        return Some(BatchKeyError("index"));
      }
      index := kvpairs["index"];
      if "data" !in kvpairs {
        return Some(BatchKeyError("data"));
      }
      data := kvpairs["data"];
      if valueType.SInt? || data.SInt? {
        return Some(BatchTypeError);
      }
      buffer := buffer + ValueCommand(op, handle, index, valueType.s, data.s);
      err := None;
    }

    /** modify_handle_value: a MODIFY command for one value. */
    method ModifyHandleValue(handle: string, kvpairs: map<string, Scalar>) returns (err: Option<BatchError>)
      modifies this
      ensures (State(), err) == ValueOp(old(State()), "MODIFY", handle, kvpairs)
    {
      err := WriteValue("MODIFY", handle, kvpairs);
    }

    /** add_handle_value: an ADD command for one value. */
    method AddHandleValue(handle: string, kvpairs: map<string, Scalar>) returns (err: Option<BatchError>)
      modifies this
      ensures (State(), err) == ValueOp(old(State()), "ADD", handle, kvpairs)
    {
      err := WriteValue("ADD", handle, kvpairs);
    }

    /** delete_handle_value: one REMOVE line per index, written in a loop unless there is exactly one. */
    method DeleteHandleValue(handle: string, valueIndex: seq<Scalar>)
      modifies this
      ensures buffer == old(buffer) + RemoveCommands(handle, valueIndex)
      ensures valueType == old(valueType) && index == old(index) && data == old(data)
    {
      if |valueIndex| == 1 {
        SingleRemove(handle, valueIndex[0]);
        assert valueIndex == [valueIndex[0]];
        buffer := buffer + ("\n" + RemoveLine(handle, valueIndex[0]));
      } else {
        var k := 0;
        while k < |valueIndex|
          invariant 0 <= k <= |valueIndex|
          invariant buffer == old(buffer) + RemoveCommands(handle, valueIndex[..k])
          invariant valueType == old(valueType) && index == old(index) && data == old(data)
        {
          RemoveStep(old(buffer), handle, valueIndex, k);
          buffer := buffer + ("\n" + RemoveLine(handle, valueIndex[k]));
          k := k + 1;
        }
        assert valueIndex[..k] == valueIndex;
      }
    }

    /** authenticate_seckey: the file is truncated to the authentication text; the path is returned. */
    method AuthenticateSeckey(user: string, password: string) returns (path: string)
      modifies this
      ensures buffer == SeckeyText(user, password) && path == BATCH_FILE
      ensures valueType == old(valueType) && index == old(index) && data == old(data)
    {
      buffer := SeckeyText(user, password);
      path := BATCH_FILE;
    }

    /** authenticate_pubkey: the file is truncated to the authentication text. */
    method AuthenticatePubkey(user: string, keyPath: string, passphrase: Option<string>)
      modifies this
      ensures buffer == PubkeyText(user, keyPath, passphrase)
      ensures valueType == old(valueType) && index == old(index) && data == old(data)
    {
      if passphrase.Some? {
        buffer := "AUTHENTICATE PUBKEY:" + user + "\n" + keyPath + "|" + passphrase.value;
      } else {
        buffer := "AUTHENTICATE PUBKEY:" + user + "\n" + keyPath;
      }
    }
  }
}
