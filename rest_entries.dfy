/**
 * The REST client's settings and the two entry builders it uses to
 * assemble records: __create_entry for ordinary types and
 * __create_admin_entry for HS_ADMIN, and the handle-name builder
 * generate_PID_name.
 */
module RestEntries {
  import opened Wrappers
  import opened PyStr
  import opened HandleRecord

  /** The permission bits written into HS_ADMIN when none are configured. */
  const DEFAULT_PERMISSIONS := "011111110011"

  /**
   * What the constructor keeps: the handle owner ('index:handle' or None),
   * the HS_ADMIN permissions, whether HS_ADMIN may be modified, and the
   * owner parser utilhandle.remove_index_from_handle, which is not part of
   * this model and is given here as a function.
   */
  datatype Config = Config(
    handleOwner: Option<string>,
    permissions: string,
    modifyHsAdmin: bool,
    parseOwner: string -> (Scalar, string))

  /** The constructor's keyword arguments; None means the key was not passed. */
  datatype ClientArgs = ClientArgs(
    permissions: Option<string>,
    modifyHsAdmin: Option<bool>,
    handleOwner: Option<Option<string>>)

  /** __store_args_or_set_to_defaults: a passed key wins, otherwise the default. */
  function ConfigFromArgs(args: ClientArgs, parseOwner: string -> (Scalar, string)): (c: Config)
    ensures args.permissions.Some? ==> c.permissions == args.permissions.value
    ensures args.permissions.None? ==> c.permissions == DEFAULT_PERMISSIONS
    ensures c.modifyHsAdmin <==> args.modifyHsAdmin == Some(true)
    ensures c.handleOwner.Some? <==> args.handleOwner.Some? && args.handleOwner.value.Some?
    ensures c.handleOwner.Some? ==> c.handleOwner == args.handleOwner.value
  {
    Config(
      if args.handleOwner.Some? then args.handleOwner.value else None,
      if args.permissions.Some? then args.permissions.value else DEFAULT_PERMISSIONS,
      if args.modifyHsAdmin.Some? then args.modifyHsAdmin.value else false,
      parseOwner)
  }

  /** __create_entry: any type but HS_ADMIN; the ttl key is present only when a ttl is given. */
  function CreateEntry(entryType: string, data: Data, index: int, ttl: Option<int>): (r: Result<Entry, Error>)
    ensures r.Err? <==> entryType == HS_ADMIN
    ensures r.Err? ==> r.error.IllegalOperation?
    ensures r.Ok? ==> r.value == Entry(index, entryType, data, ttl, None)
  {
    if entryType == HS_ADMIN then Err(IllegalOperation("creating HS_ADMIN entry"))
    else Ok(Entry(index, entryType, data, ttl, None))
  }

  /** The (index, handle) written into HS_ADMIN: the configured owner, or '200' and '0.NA/<prefix>'. */
  function AdminOwner(handleOwner: Option<string>, parseOwner: string -> (Scalar, string), handle: string): (Scalar, string)
  {
    if handleOwner.None? then (SText("200"), "0.NA/" + BeforeFirst(handle, '/'))
    else parseOwner(handleOwner.value)
  }

  /** __create_admin_entry: an HS_ADMIN entry at index whose data is {'format': 'admin', 'value': {...}}. */
  function CreateAdminEntry(handleOwner: Option<string>, parseOwner: string -> (Scalar, string),
                            permissions: string, index: int, handle: string, ttl: Option<int>): (e: Entry)
    ensures e.index == index && e.valueType == HS_ADMIN && e.ttl == ttl && e.timestamp.None?
    ensures e.data.Formatted? && e.data.format == "admin" && e.data.value.Admin?
    ensures e.data.value.permissions == permissions
    ensures handleOwner.Some? ==> (e.data.value.index, e.data.value.handle) == parseOwner(handleOwner.value)
  {
    var (adminIndex, adminHandle) := AdminOwner(handleOwner, parseOwner, handle);
    Entry(index, HS_ADMIN, Formatted("admin", Admin(adminIndex, adminHandle, permissions)), ttl, None)
  }

  /**
   * Without a configured owner the admin is index '200' (a string, not an
   * int) of '0.NA/' followed by the handle's prefix: the text before the
   * first '/', which is the whole handle when it has no '/'.
   */
  lemma DefaultOwnerIsPrefixAdmin(parseOwner: string -> (Scalar, string), permissions: string, index: int,
                                  handle: string, ttl: Option<int>)
    ensures var e := CreateAdminEntry(None, parseOwner, permissions, index, handle, ttl);
      exists k :: 0 <= k <= |handle| && '/' !in handle[..k] && (k == |handle| || handle[k] == '/')
        && e.data.value == Admin(SText("200"), "0.NA/" + handle[..k], permissions)
  {
    var k := |BeforeFirst(handle, '/')|;
    assert handle[..k] == BeforeFirst(handle, '/');
  }

  /** generate_PID_name, with the random UUID passed in as the suffix. */
  function GeneratePidName(prefix: Option<string>, suffix: string): (name: string)
    ensures prefix.None? ==> name == suffix
    ensures prefix.Some? ==> name == prefix.value + "/" + suffix
  {
    if prefix.Some? then prefix.value + "/" + suffix else suffix
  }

  /**
   * A generated name under a prefix without '/' gets the default admin
   * '0.NA/<prefix>' when registered without an owner.
   */
  lemma GeneratedNameAdminIsPrefix(prefix: string, suffix: string)
    requires '/' !in prefix
    ensures BeforeFirst(GeneratePidName(Some(prefix), suffix), '/') == prefix
  {
    BeforeFirstOfJoin(prefix, '/', suffix);
  }

  /** With the test's owner parser, '300:handle/owner' becomes index 300 of 'handle/owner'. */
  lemma ConfiguredOwnerExample(parseOwner: string -> (Scalar, string), handle: string)
    requires parseOwner("300:handle/owner") == (SInt(300), "handle/owner")
    ensures CreateAdminEntry(Some("300:handle/owner"), parseOwner, DEFAULT_PERMISSIONS, 100, handle, None).data
      == Formatted("admin", Admin(SInt(300), "handle/owner", "011111110011"))
  {
  }
}
