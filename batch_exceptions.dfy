/**
 * The message of BatchFileExistsException: 'Batch file ', the file name
 * inserted by replacing 'ile ', the custom message after ': ', and a
 * closing full stop.
 */
module BatchExceptions {
  import opened Wrappers
  import opened PyStr

  const BATCH_DEFAULT := "Batch file "

  /** Both keyword arguments are read, file first; either may be None. */
  function BatchFileMessage(args: Kwargs): Result<string, MissingKey>
  {
    if "file" !in args then Err(MissingKey("file"))
    else if "msg" !in args then Err(MissingKey("msg"))
    else
      var named := match args["file"]
        case None => BATCH_DEFAULT
        case Some(f) => ReplaceAll(BATCH_DEFAULT, "ile ", "ile " + f);
      var withMsg := match args["msg"]
        case None => named
        case Some(m) => named + ": " + m;
      Ok(withMsg + ".")
  }

  lemma BatchSplit()
    ensures BATCH_DEFAULT == "Batch f" + "ile " + ""
  {
  }

  lemma BatchNoOther()
    ensures NoMatchStart("Batch f", "ile ") && NoMatchStart("", "ile ")
  {
  }

  lemma BatchWord()
    ensures "Batch f" + "ile " == BATCH_DEFAULT
  {
  }

  /** The file name follows 'Batch file ' directly. */
  lemma BatchNamed(f: string)
    ensures ReplaceAll(BATCH_DEFAULT, "ile ", "ile " + f) == BATCH_DEFAULT + f
  {
    BatchSplit();
    BatchNoOther();
    BatchWord();
    ReplaceOnce("Batch f", "ile ", "", "ile " + f);
    Regroup("Batch f", "ile ", f, "");
  }

  /**
   * 'Batch file [<file>][: <msg>].': the message always ends in a full
   * stop, so with both arguments None it is 'Batch file .'.
   */
  lemma BatchFileText(args: Kwargs)
    requires "file" in args && "msg" in args
    ensures BatchFileMessage(args) == Ok(
      "Batch file " + (if args["file"].Some? then args["file"].value else "")
      + (if args["msg"].Some? then ": " + args["msg"].value else "") + ".")
  {
    var optFile := if args["file"].Some? then args["file"].value else "";
    var named := match args["file"]
      case None => BATCH_DEFAULT
      case Some(f) => ReplaceAll(BATCH_DEFAULT, "ile ", "ile " + f);
    if args["file"].Some? {
      BatchNamed(args["file"].value);
    } else {
      assert BATCH_DEFAULT + "" == BATCH_DEFAULT;
    }
    assert named == "Batch file " + optFile;
    if args["msg"].Some? {
      assert named + ": " + args["msg"].value == named + (": " + args["msg"].value);
    } else {
      assert named + "" == named;
    }
  }

  /** With neither a file nor a message the text is 'Batch file .'. */
  lemma BatchFileBare()
    ensures BatchFileMessage(map["file" := None, "msg" := None]) == Ok("Batch file .")
  {
    var args: Kwargs := map["file" := None, "msg" := None];
    BatchFileText(args);
    assert "Batch file " + "" + "" + "." == "Batch file .";
  }

  /** A missing argument raises KeyError, the file being looked up first. */
  lemma BatchFileErrors(args: Kwargs)
    ensures BatchFileMessage(args).Err? <==> ("file" !in args || "msg" !in args)
    ensures "file" !in args ==> BatchFileMessage(args) == Err(MissingKey("file"))
  {
  }
}
