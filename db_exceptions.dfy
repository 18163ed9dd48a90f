/**
 * The messages of the exceptions the database client raises. Each
 * constructor reads its keyword arguments (a missing one raises KeyError)
 * and builds the message with str.replace, which replaces every
 * occurrence.
 */
module DbExceptions {
  import opened Wrappers
  import opened PyStr

  const NOT_FOUND_DEFAULT := "Handle not found on Server"
  const NOT_SPECIFIED_DEFAULT := "Error during searching"
  const EXISTS_DEFAULT := "Handle already exists"
  const NO_CREDENTIALS_DEFAULT := "Insufficient credentials"
  const KEY_NOT_FOUND_DEFAULT := "Key not found in Handle"

  /** DBHandleNotFoundException: the handle is inserted after 'Handle'. */
  function NotFoundMessage(args: Kwargs): Result<string, MissingKey>
  {
    if "handle" !in args then Err(MissingKey("handle"))
    else match args["handle"]
      case None => Ok(NOT_FOUND_DEFAULT)
      case Some(h) => Ok(ReplaceAll(NOT_FOUND_DEFAULT, "andle", "andle " + h))
  }

  /** DBHandleKeyNotSpecifiedException: a custom message only adds a full stop. */
  function KeyNotSpecifiedMessage(args: Kwargs): Result<string, MissingKey>
  {
    if "msg" !in args then Err(MissingKey("msg"))
    else Ok(NOT_SPECIFIED_DEFAULT + (if args["msg"].Some? then "." else ""))
  }

  /** DBHandleAlreadyExistsException: the handle after 'Handle', the custom message after ': ', a full stop. */
  function AlreadyExistsMessage(args: Kwargs): Result<string, MissingKey>
  {
    if "handle" !in args then Err(MissingKey("handle"))
    else if "msg" !in args then Err(MissingKey("msg"))
    else
      var named := match args["handle"]
        case None => EXISTS_DEFAULT
        case Some(h) => ReplaceAll(EXISTS_DEFAULT, "andle", "andle " + h);
      var withMsg := match args["msg"]
        case None => named
        case Some(m) => named + ": " + m;
      Ok(withMsg + ".")
  }

  /** DBHandleNoCredentialsError: the given message, or the default one. */
  function NoCredentialsMessage(msg: Option<string>): (r: string)
    ensures msg.Some? ==> r == msg.value
    ensures msg.None? ==> r == NO_CREDENTIALS_DEFAULT
  {
    if msg.Some? then msg.value else NO_CREDENTIALS_DEFAULT
  }

  /**
   * DBHandleKeyNotFoundException: only when both handle and key are given,
   * the handle goes after 'Handle' and then the key after every 'ey' of
   * the result, the inserted handle included.
   */
  function KeyNotFoundMessage(args: Kwargs): Result<string, MissingKey>
  {
    if "handle" !in args then Err(MissingKey("handle"))
    else if "key" !in args then Err(MissingKey("key"))
    else if args["handle"].Some? && args["key"].Some? then
      var h := args["handle"].value;
      var k := args["key"].value;
      Ok(ReplaceAll(ReplaceAll(KEY_NOT_FOUND_DEFAULT, "andle", "andle " + h), "ey", "ey " + k))
    else Ok(KEY_NOT_FOUND_DEFAULT)
  }

  // ---------------------------------------------------------------------
  // The messages spelled out
  // ---------------------------------------------------------------------

  lemma NotFoundSplit()
    ensures NOT_FOUND_DEFAULT == "H" + "andle" + " not found on Server"
  {
  }

  lemma NotFoundNoOther()
    ensures NoMatchStart("H", "andle") && NoMatchStart(" not found on Server", "andle")
  {
  }

  lemma HandleWord()
    ensures "H" + "andle " == "Handle "
  {
  }

  /** With a handle, the message reads 'Handle <h> not found on Server'; the handle key is required. */
  lemma NotFoundText(args: Kwargs)
    ensures "handle" !in args ==> NotFoundMessage(args) == Err(MissingKey("handle"))
    ensures "handle" in args && args["handle"].Some? ==>
      NotFoundMessage(args) == Ok("Handle " + args["handle"].value + " not found on Server")
    ensures "handle" in args && args["handle"].None? ==> NotFoundMessage(args) == Ok("Handle not found on Server")
  {
    if "handle" in args && args["handle"].Some? {
      var h := args["handle"].value;
      NotFoundSplit();
      NotFoundNoOther();
      HandleWord();
      ReplaceOnce("H", "andle", " not found on Server", "andle " + h);
      Regroup("H", "andle ", h, " not found on Server");
    }
  }

  lemma SearchingParts()
    ensures NOT_SPECIFIED_DEFAULT + "." == "Error during searching."
    ensures NOT_SPECIFIED_DEFAULT + "" == "Error during searching"
  {
  }

  /** The custom text never appears: only a full stop marks that one was given. */
  lemma KeyNotSpecifiedText(args: Kwargs)
    ensures "msg" !in args ==> KeyNotSpecifiedMessage(args) == Err(MissingKey("msg"))
    ensures "msg" in args && args["msg"].Some? ==> KeyNotSpecifiedMessage(args) == Ok("Error during searching.")
    ensures "msg" in args && args["msg"].None? ==> KeyNotSpecifiedMessage(args) == Ok("Error during searching")
  {
    SearchingParts();
  }

  lemma ExistsSplit()
    ensures EXISTS_DEFAULT == "H" + "andle" + " already exists"
  {
  }

  lemma ExistsNoOther()
    ensures NoMatchStart("H", "andle") && NoMatchStart(" already exists", "andle")
  {
  }

  lemma ExistsWords()
    ensures EXISTS_DEFAULT == "Handle" + " already exists"
    ensures "Handle " == "Handle" + " "
  {
  }

  /** The handle goes after 'Handle', separated by a space. */
  lemma ExistsNamed(h: string)
    ensures ReplaceAll(EXISTS_DEFAULT, "andle", "andle " + h) == "Handle" + " " + h + " already exists"
  {
    ExistsSplit();
    ExistsNoOther();
    HandleWord();
    ExistsWords();
    ReplaceOnce("H", "andle", " already exists", "andle " + h);
    Regroup("H", "andle ", h, " already exists");
    Regroup("Handle", " ", h, " already exists");
  }

  /** 'Handle[ <h>] already exists[: <msg>].', always ending in a full stop. */
  lemma AlreadyExistsText(args: Kwargs)
    requires "handle" in args && "msg" in args
    ensures AlreadyExistsMessage(args) == Ok(
      "Handle" + (if args["handle"].Some? then " " + args["handle"].value else "") + " already exists"
      + (if args["msg"].Some? then ": " + args["msg"].value else "") + ".")
  {
    var optHandle := if args["handle"].Some? then " " + args["handle"].value else "";
    var optMsg := if args["msg"].Some? then ": " + args["msg"].value else "";
    var named := match args["handle"]
      case None => EXISTS_DEFAULT
      case Some(h) => ReplaceAll(EXISTS_DEFAULT, "andle", "andle " + h);
    if args["handle"].Some? {
      var h := args["handle"].value;
      ExistsNamed(h);
      Regroup("Handle", " ", h, " already exists");
    } else {
      ExistsWords();
      EmptyMiddle("Handle", " already exists");
    }
    assert named == "Handle" + optHandle + " already exists";
    if args["msg"].Some? {
      Append3(named, ": ", args["msg"].value);
    } else {
      assert named + "" == named;
    }
  }

  lemma EmptyMiddle(a: string, b: string)
    ensures a + "" + b == a + b
  {
  }

  lemma Append3(a: string, b: string, c: string)
    ensures a + b + c == a + (b + c)
  {
  }

  /** Only a missing argument is an error, and the handle is looked up first. */
  lemma AlreadyExistsErrors(args: Kwargs)
    ensures AlreadyExistsMessage(args).Err? <==> ("handle" !in args || "msg" !in args)
    ensures "handle" !in args ==> AlreadyExistsMessage(args) == Err(MissingKey("handle"))
  {
  }

  lemma KeyNotFoundSplit()
    ensures KEY_NOT_FOUND_DEFAULT == "Key not found in H" + "andle" + ""
  {
  }

  lemma KeyNotFoundNoOther()
    ensures NoMatchStart("Key not found in H", "andle") && NoMatchStart("", "andle")
  {
  }

  lemma KeyNotFoundNoOtherKey()
    ensures NoMatchStart("K", "ey") && NoMatchStart(" not found in Handle ", "ey")
  {
  }

  lemma KeyNotFoundResplit()
    ensures "Key not found in H" + "andle " == "K" + "ey" + " not found in Handle "
  {
  }

  lemma KeyWord()
    ensures "K" + "ey " == "Key "
  {
  }

  /**
   * With both arguments the message is 'Key <k> not found in Handle ', then
   * the handle with the key inserted after each of its own 'ey's.
   */
  lemma KeyNotFoundText(args: Kwargs)
    requires "handle" in args && "key" in args && args["handle"].Some? && args["key"].Some?
    ensures var h := args["handle"].value; var k := args["key"].value;
      KeyNotFoundMessage(args) == Ok("Key " + k + " not found in Handle " + ReplaceAll(h, "ey", "ey " + k))
  {
    var h := args["handle"].value;
    var k := args["key"].value;
    KeyNotFoundSplit();
    KeyNotFoundNoOther();
    KeyNotFoundNoOtherKey();
    KeyNotFoundResplit();
    KeyWord();
    ReplaceOnce("Key not found in H", "andle", "", "andle " + h);
    Regroup("Key not found in H", "andle ", h, "");
    Assoc("K" + "ey", " not found in Handle ", h);
    ReplaceThenRest("K", "ey", " not found in Handle ", h, "ey " + k);
    var r := ReplaceAll(h, "ey", "ey " + k);
    Regroup("K", "ey ", k, " not found in Handle ");
    assert "K" + ("ey " + k) + " not found in Handle " + r == "Key " + k + " not found in Handle " + r;
  }

  /** A handle without 'ey' keeps its text. */
  lemma KeyNotFoundPlain(args: Kwargs)
    requires "handle" in args && "key" in args && args["handle"].Some? && args["key"].Some?
    requires !Occurs(args["handle"].value, "ey")
    ensures KeyNotFoundMessage(args)
      == Ok("Key " + args["key"].value + " not found in Handle " + args["handle"].value)
  {
    KeyNotFoundText(args);
    ReplaceAllAbsent(args["handle"].value, "ey", "ey " + args["key"].value);
  }

  lemma HeyMessage()
    ensures "Key " + "k" + " not found in Handle " + "hey k" == "Key k not found in Handle hey k"
  {
  }

  /** The 'ey' replacement also reaches into the handle: 'hey' gets the key twice. */
  lemma KeyNotFoundRewritesHandle()
    ensures KeyNotFoundMessage(map["handle" := Some("hey"), "key" := Some("k")])
      == Ok("Key k not found in Handle hey k")
  {
    var args := map["handle" := Some("hey"), "key" := Some("k")];
    KeyNotFoundText(args);
    assert "hey" == "h" + "ey" + "" && NoMatchStart("h", "ey") && NoMatchStart("", "ey");
    assert "h" + "ey k" + "" == "hey k";
    HeyMessage();
    ReplaceOnce("h", "ey", "", "ey k");
    assert "ey " + "k" == "ey k";
  }

  /** Without both arguments nothing is substituted. */
  lemma KeyNotFoundDefault(args: Kwargs)
    ensures "handle" !in args ==> KeyNotFoundMessage(args) == Err(MissingKey("handle"))
    ensures "handle" in args && "key" !in args ==> KeyNotFoundMessage(args) == Err(MissingKey("key"))
    ensures "handle" in args && "key" in args && (args["handle"].None? || args["key"].None?) ==>
      KeyNotFoundMessage(args) == Ok("Key not found in Handle")
  {
  }
}
