# pyhandle handle-record logic in Dafny

This project models the logic of pyhandle, the Python client library for the
Handle System, and proves properties of that model. A handle record is an
ordered list of entries `{index, type, data, ttl?, timestamp?}`. The model
covers what the library does with that list. It does not cover how the list
travels over HTTP or SQL.

- **REST client** (`pyhandle/client/resthandleclient.py`)
  - `IndexAllocator`: the index allocator `__make_another_index`. It returns
    the least free index at or above the start (2 by default, 1 for URL,
    100 for HS_ADMIN). Index 1 and indices 100-199 stay reserved.
  - `RestReconciler`: `__handle_modification` and its four public wrappers.
    The fetched record is an `Option<seq<Entry>>` and the changes are a
    sequence of (type, data) pairs in the caller's order. The PUT that would
    be sent is returned as a `PutRequest` value.
  - `RestRegistration`: `register_handle`, `register_handle_kv` and
    `register_handle_json`.
  - `RestEntries`: the entry builders `__create_entry` and
    `__create_admin_entry`, `generate_PID_name` and the constructor
    defaults.
  - `RestAccess`: the read helpers, the returned-handle check, the index
    collection of `delete_handle_value` and the argument check of
    `delete_handle`. The DELETE is returned as a `DeleteRequest`.
- **Database client** (`pyhandle/client/dbhandleclient.py`)
  - `DbTable`: a `seq<Row>` table of (handle, idx, type, data) rows and the
    row filter `convert_query_result_to_dict`.
  - `DbAdminCodec`: the HS_ADMIN hex encoder and decoder.
  - `DbClient`: the register, modify and delete flows as functions over the
    table. The class `DbHandleClient` holds the table and the fields the
    Python object keeps, and its methods update them.
- **Batch client** (`pyhandle/client/batchhandleclient.py`)
  - `BatchClient`: the class `BatchHandleClient`. Its batch file is a text
    buffer field that methods append to or overwrite.
  - `Lines`: splitting text into lines, used to state the line format.
- **Exception messages** (`pyhandle/dbhsexceptions.py`,
  `pyhandle/batchhsexceptions.py`)
  - `DbExceptions` and `BatchExceptions` build the messages.
  - `PyStr` supplies Python's replace-all `str.replace`, `lstrip` with a
    character set, slicing, `hex`, `bin`, `int(…, 2)` with the whitespace `int()` strips and
    its grammar for ASCII numerals, `int(…, 16)` on bare hex digits, and `zfill`.

Quirks of the code that the model keeps:

- **HS_ADMIN modification always fails.** The HS_ADMIN branch of
  `__handle_modification` pops `'timestamp'` twice, so that path always
  raises.
- **No change means an error.** When no entry changes, no PUT is sent, and
  the final line reads the unbound name `resp`.
- **Added URLs are not put at index 1.** A URL added during modification
  gets a default-mode index, which is never 1.
- **`lstrip` strips characters, not a prefix.** The returned-handle check
  uses `lstrip('hdl:').lstrip('doi:')`, so `hdl:dh/1` is expected back as
  `/1`.
- **The key replacement rewrites the handle too.**
  `DBHandleKeyNotFoundException` replaces every `'ey'`, including any inside
  the handle text it has just inserted.
- **Only the first pair is used.** The database `modify_handle_value` looks
  at the first key/value pair and ignores the rest.
- **Small permission values are misread.** The database HS_ADMIN value is
  written through MySQL `UNHEX`, which treats an odd-length hex string as if
  a `'0'` led it. Decoding therefore gets the permissions, handle and index
  back only when the permission value has at least two hex digits.
  `SmallPermissionsMisread` shows that for values below 16 the permission
  field takes in two digits of the constant, and the first byte of the admin
  handle is lost.

## Model

| member | source | states |
|---|---|---|
| IndexAllocator.NextIndex | pyhandle/client/resthandleclient.py:1130-1155 | the index lies between the start and the search bound, is not used and not reserved, and every candidate below it from the start is used or reserved |
| IndexAllocator.NextIndexUnique | pyhandle/client/resthandleclient.py:1150-1155 | an index that is free and has every lower candidate taken is exactly the allocated one, so the allocation is the least free index |
| IndexAllocator.AboveMaxIsFree | pyhandle/client/resthandleclient.py:1151-1152 | any index above the largest used or reserved one is free, so the bounded search always finds an index |
| IndexAllocator.DefaultModeAvoidsReserved | pyhandle/client/resthandleclient.py:1130-1135 | in default mode the index is at least 2 and never in 100-199 |
| IndexAllocator.UrlModeAvoidsAdminRange | pyhandle/client/resthandleclient.py:1137-1139 | in URL mode the index is at least 1, never in 100-199, and is 1 when 1 is unused |
| IndexAllocator.UrlWinsOverAdmin | pyhandle/client/resthandleclient.py:1137-1142 | asking for URL and HS_ADMIN together gives the URL-mode index |
| IndexAllocator.AdminModeFromHundred | pyhandle/client/resthandleclient.py:1140-1142 | in HS_ADMIN mode the index is the least unused one from 100 on, so it is 100 when 100 is unused |
| IndexAllocator.EmptyRecordIndices | pyhandle/client/resthandleclient.py:1130-1155 | on an empty record, URL mode gives 1, HS_ADMIN mode 100 and default mode 2 |
| IndexAllocator.NextIndexDependsOnSetOnly | pyhandle/client/resthandleclient.py:1144-1151 | the allocation depends only on the set of used indices, not on their order or repetition |
| IndexAllocator.StartAndReserved | pyhandle/client/resthandleclient.py:1130-1142 | the start and the reserved set match the mode, with URL taking precedence |
| IndexAllocator.MakeAnotherIndex | pyhandle/client/resthandleclient.py:1116-1155 | the loop returns the least free index of the entries' indices |
| IndexAllocator.CollectUsed | pyhandle/client/resthandleclient.py:1144-1152 | the collected set is exactly the entries' indices, and the bound base is their maximum together with the reserved maximum |
| IndexAllocator.FirstFree | pyhandle/client/resthandleclient.py:1153-1155 | scanning from the start up to the search bound returns the least index outside the prohibited set |
| RestEntries.ConfigFromArgs | pyhandle/client/resthandleclient.py:113-153 | the permissions default to 011111110011, HS_ADMIN modification is off unless it is enabled, and an owner is stored only when one is given and not None |
| RestEntries.CreateEntry | pyhandle/client/resthandleclient.py:1157-1183 | an HS_ADMIN type is refused with IllegalOperation; any other type gives an entry with the given index, type and data, a ttl only when one is given, and no timestamp |
| RestEntries.CreateAdminEntry | pyhandle/client/resthandleclient.py:1185-1226 | the entry is of type HS_ADMIN at the given index, holds admin-format data with the permissions verbatim, and, when an owner is configured, the index and handle parsed from it |
| RestEntries.DefaultOwnerIsPrefixAdmin | pyhandle/client/resthandleclient.py:1204-1207 | without an owner, the admin value is index "200" (a string) and handle 0.NA/ followed by the text before the first '/' of the handle |
| RestEntries.ConfiguredOwnerExample | pyhandle/tests/testcases/handleclient_write_patched_unit_test.py:299-370 | the owner 300:handle/owner, parsed into index 300 and handle handle/owner, appears in the admin value |
| RestEntries.GeneratePidName | pyhandle/client/resthandleclient.py:965-983 | the name is prefix/suffix when a prefix is given, and the suffix alone otherwise |
| RestEntries.GeneratedNameAdminIsPrefix | pyhandle/client/resthandleclient.py:1204-1207 | for a generated name, the default-owner rule recovers exactly the prefix |
| RestAccess.IndicesOfMembers | pyhandle/client/resthandleclient.py:1005-1009 | every entry of the key contributes its index, every collected index comes from an entry of the key, and the result is empty exactly when no entry has the key |
| RestAccess.IndicesOfDistinct | pyhandle/client/resthandleclient.py:1005-1009 | with distinct indices in the record, the collected indices are distinct |
| RestAccess.IndicesForKey | pyhandle/client/resthandleclient.py:987-1009 | the loop collects the indices of the key's entries in record order |
| RestAccess.RecordAsDictFirstWins | pyhandle/client/resthandleclient.py:342-352 | a missing record gives None; otherwise the dict fails exactly when a first entry of its type has bare data, has exactly the record's types as keys, and holds each type's first value |
| RestAccess.RetrieveHandleRecord | pyhandle/client/resthandleclient.py:313-352 | the loop builds the first-occurrence dict |
| RestAccess.ValueFromRecord | pyhandle/client/resthandleclient.py:381-401 | a missing record raises HandleNotFound, and a key absent from the record gives None |
| RestAccess.ValueAgreesWithDict | pyhandle/client/resthandleclient.py:354-401 | the single value is the one the first-occurrence dict holds for the key, or None when it has none |
| RestAccess.GetValueFromHandle | pyhandle/client/resthandleclient.py:354-401 | the loop returns the value of the first entry of the key |
| RestAccess.RecordIfNecessary | pyhandle/client/resthandleclient.py:1109-1113 | a given record for the same handle is reused; otherwise the fetched one is used |
| RestAccess.RecordIfNecessaryForHandle | pyhandle/client/resthandleclient.py:1109-1113 | the record used belongs to the handle whenever the fetched one does, and is absent exactly when no record for the handle was given and none was fetched |
| RestAccess.RecordJson | pyhandle/client/resthandleclient.py:285-311 | not found gives None; an existing record is accepted exactly when its handle is the expected one; an empty record is returned as it is; nothing else gives a record |
| RestAccess.PlainHandleExpected | pyhandle/client/resthandleclient.py:295 | a handle not starting with one of the characters h, d, l, o, i or ':' is expected back unchanged |
| RestAccess.HdlPrefixStripped | pyhandle/client/resthandleclient.py:295 | hdl:11022/abc is expected back as 11022/abc |
| RestAccess.LetterPrefixOverStripped | pyhandle/client/resthandleclient.py:295-300 | hdl:dh/1 is expected back as /1, so a server answer for dh/1 is rejected as a different handle |
| RestAccess.IndicesToDeleteFails | pyhandle/client/resthandleclient.py:637-642 | collecting fails exactly when HS_ADMIN is among the keys, with the 'deleting "HS_ADMIN"' operation |
| RestAccess.IndicesToDeleteMembers | pyhandle/client/resthandleclient.py:636-647 | the collected indices are exactly those of entries whose type is a key not yet done |
| RestAccess.DeleteValuesSafe | pyhandle/client/resthandleclient.py:622-652 | a missing record raises HandleNotFound; HS_ADMIN is refused; no DELETE is sent when no entry matches; a DELETE sent names a non-empty index list holding exactly the indices of the matching entries |
| RestAccess.CollectIndices | pyhandle/client/resthandleclient.py:636-647 | the loop with keys_done collects the index list of the key-by-key definition |
| RestAccess.DeleteHandleValue | pyhandle/client/resthandleclient.py:604-652 | the method decides as the index-collection definition does |
| RestAccess.DeleteWholeHandle | pyhandle/client/resthandleclient.py:691-698 | extra arguments raise TypeError; otherwise a DELETE of the whole handle without indices is sent |
| RestReconciler.ModifyEntry | pyhandle/client/resthandleclient.py:535-547 | a match is overwritten with the new data and loses its timestamp, keeping index and ttl; a missing timestamp raises KeyError, and HS_ADMIN always fails |
| RestReconciler.Reconcile | pyhandle/client/resthandleclient.py:493-602 | a missing record raises HandleNotFound; HS_ADMIN among the keys without permission raises IllegalOperation; a PUT sent is non-empty, for the handle, with the given overwrite and the payload's own indices |
| RestReconciler.ReconcileSuccess | pyhandle/client/resthandleclient.py:526-575 | every sent entry is a fetched entry modified in place or a new entry added after the previous ones; each carries one of the changes; a key is sent exactly when it is in the record or adding is allowed; HS_ADMIN is never sent; distinct indices stay distinct |
| RestReconciler.SentEntries | pyhandle/client/resthandleclient.py:526-570 | the payload of the keyword loop has the properties listed for Reconcile |
| RestReconciler.ApplyChangesKeeps | pyhandle/client/resthandleclient.py:526-570 | the state invariant holds after every prefix of the changes |
| RestReconciler.DuplicateTypeFails | pyhandle/client/resthandleclient.py:551-555 | two entries sharing a requested type make the modification fail, so no PUT is sent |
| RestReconciler.NotSentTwice | pyhandle/client/resthandleclient.py:529-555 | a type held by two fetched entries can never be in a payload built from modified and added entries |
| RestReconciler.HsAdminNeverModified | pyhandle/client/resthandleclient.py:506-540 | HS_ADMIN among the keys fails whenever it is in the record or adding is allowed, whatever the HS_ADMIN permission |
| RestReconciler.NoMatchNoChange | pyhandle/client/resthandleclient.py:557-570 | without adding, keys absent from the record change nothing |
| RestReconciler.NothingChangedIsUnbound | pyhandle/client/resthandleclient.py:578-602 | when nothing changes, no PUT is sent and the unbound resp is read |
| RestReconciler.AddsAt | pyhandle/client/resthandleclient.py:558-567 | an absent key is added at the least index free among the existing and earlier sent entries, with the given ttl and no timestamp |
| RestReconciler.ModifyOneExample | pyhandle/tests/testcases/handleclient_write_patched_unit_test.py:494-526 | modifying TEST4 sends one entry at index 4 with its ttl 86400 kept |
| RestReconciler.SeveralInexistentExample | pyhandle/tests/testcases/handleclient_write_patched_unit_test.py:775-825 | TEST4 and TEST2 are modified in place; TEST100 and TEST101 are added at 2 and 3 without ttl |
| RestReconciler.CorruptedExample | pyhandle/tests/testcases/handleclient_write_patched_unit_test.py:687-711 | a record with TEST2 twice gives BrokenHandleRecord |
| RestReconciler.HsAdminRefusedExample | pyhandle/tests/testcases/handleclient_write_patched_unit_test.py:827-849 | modifying HS_ADMIN with the default configuration gives IllegalOperation |
| RestReconciler.HandleModification | pyhandle/client/resthandleclient.py:493-602 | the method gives the result of the definition |
| RestReconciler.KeywordLoop | pyhandle/client/resthandleclient.py:524-570 | the keyword loop over the mutated record gives the definition's record and payload, and the nothingchanged flag is set exactly when the payload is empty |
| RestReconciler.OneChange | pyhandle/client/resthandleclient.py:526-570 | one keyword step matches the definition, list_of_old_and_new_entries stays the record followed by the payload, and the changed flag is set exactly when one entry was appended |
| RestReconciler.ScanEntries | pyhandle/client/resthandleclient.py:529-555 | the inner scan modifies the first entry of the key, or fails when a second one follows, or changes nothing when there is none |
| RestReconciler.OverwriteEntry | pyhandle/client/resthandleclient.py:535-550 | the matched entry is replaced in the record and appended to both lists |
| RestReconciler.PayloadIndices | pyhandle/client/resthandleclient.py:572-575 | the index list is the payload's indices in order |
| RestReconciler.ModifyOrAddHandleValue | pyhandle/client/resthandleclient.py:445-449 | modification with adding and overwrite both on |
| RestReconciler.ModifyHandleValueNotAdd | pyhandle/client/resthandleclient.py:451-455 | modification with adding off and overwrite on |
| RestReconciler.AddHandleValue | pyhandle/client/resthandleclient.py:457-461 | modification with adding on and overwrite off |
| RestReconciler.ModifyHandleValue | pyhandle/client/resthandleclient.py:463-491 | modification with the caller's add flag and overwrite on |
| RestRegistration.DictSet | pyhandle/client/resthandleclient.py:811-815 | dict item assignment replaces an existing key in place, or appends a new key last, and keeps keys distinct |
| RestRegistration.KvEntriesAppend | pyhandle/client/resthandleclient.py:870-879 | building the entries fails exactly when HS_ADMIN is among the pairs; otherwise each pair's entry is appended in turn |
| RestRegistration.KvEntriesDistinct | pyhandle/client/resthandleclient.py:870-879 | the built entries have distinct indices |
| RestRegistration.KvEntryRange | pyhandle/client/resthandleclient.py:873-877 | a pair's index is never in 100-199, and is at least 2 unless its type is URL |
| RestRegistration.KvUrlGetsOne | pyhandle/client/resthandleclient.py:873-877 | with distinct keys, the URL pair gets index 1 |
| RestRegistration.RegisterKvFails | pyhandle/client/resthandleclient.py:850-879 | registration fails exactly when the handle exists and overwrite is off (HandleAlreadyExists), or HS_ADMIN is among the pairs (IllegalOperation) |
| RestRegistration.RegisterKvSends | pyhandle/client/resthandleclient.py:860-882 | the PUT holds HS_ADMIN at 100 and then one entry per pair in order, with its type and data, no ttl and no index in 100-199; indices are distinct and URL is at 1 |
| RestRegistration.RegisterJsonSends | pyhandle/client/resthandleclient.py:742-770 | an existing handle without overwrite is refused; otherwise the caller's entries are sent unchanged, followed, only when none is HS_ADMIN, by the admin entry built from the configured owner and permissions at the least index from 100 on that the entries leave unused |
| RestRegistration.RegisterLegacyIsKv | pyhandle/client/resthandleclient.py:804-824 | additional URLs raise NotImplemented; otherwise the call is register_handle_kv with URL and CHECKSUM appended after the extra pairs |
| RestRegistration.AdditionalUrlsRefused | pyhandle/client/resthandleclient.py:817-818 | additional URLs are refused whatever the other arguments |
| RestRegistration.TestAdminEntry | pyhandle/tests/testcases/handleclient_write_patched_unit_test.py:192-203 | the default admin entry for my/testhandle is index 100 with value {index "200", handle 0.NA/my, permissions 011111110011} |
| RestRegistration.RegisterExampleEntries | pyhandle/tests/testcases/handleclient_write_patched_unit_test.py:102-107 | FOO, BAR, URL and CHECKSUM get indices 2, 3, 1 and 4 after the admin entry |
| RestRegistration.RegisterHandleExample | pyhandle/tests/testcases/handleclient_write_patched_unit_test.py:64-116 | register_handle with FOO and BAR sends exactly that five-entry payload |
| RestRegistration.RegisterHandleKv | pyhandle/client/resthandleclient.py:826-882 | the method gives the result of the definition |
| RestRegistration.AppendPairs | pyhandle/client/resthandleclient.py:870-879 | the append loop builds the entries of the definition |
| RestRegistration.RegisterHandle | pyhandle/client/resthandleclient.py:772-824 | the method gives the result of the definition |
| RestRegistration.RegisterHandleJson | pyhandle/client/resthandleclient.py:714-770 | the method gives the result of the definition |
| DbAdminCodec.IndexField | pyhandle/client/dbhandleclient.py:643-648 | the index field has at least 8 characters, and is the hex of a non-negative index left-padded with '0' to 8 |
| DbAdminCodec.PadIndex | pyhandle/client/dbhandleclient.py:643-648 | the padding loop gives the index field |
| DbAdminCodec.IndexFieldRoundTrip | pyhandle/client/dbhandleclient.py:864-870 | an index below 2^32 has an 8-digit field, and reading it as hex gives the index back |
| DbAdminCodec.AdminHexLayout | pyhandle/client/dbhandleclient.py:643-657 | the value is '0', the unpadded hex of the permission bits, '0000000f', the admin handle's hex and the index field |
| DbAdminCodec.StoredHex | pyhandle/client/dbhandleclient.py:663-669 | what UNHEX stores reads back as an even number of hex digits |
| DbAdminCodec.DecodeOfParts | pyhandle/client/dbhandleclient.py:846-858 | decoding takes the permissions from the first 4 digits zero-filled to 12 bits, the handle from digits 12 to len-8, and the index from the last 8 |
| DbAdminCodec.AdminRoundTrip | pyhandle/client/dbhandleclient.py:842-858 | for 12-bit permissions of value at least 16 and an index below 2^32, decoding the stored value recovers the handle, index and permissions |
| DbAdminCodec.NonBinaryPermissionsRejected | pyhandle/client/dbhandleclient.py:650 | permissions that are not binary digits make int(perm, 2) fail |
| DbAdminCodec.SmallPermissionsMisread | pyhandle/client/dbhandleclient.py:850-856 | for permission values below 16, decoding loses the first byte of the admin handle, though the index still reads back |
| DbTable.RowsOfMembers | pyhandle/client/dbhandleclient.py:549-550 | the rows of a handle are exactly the table rows with that handle |
| DbTable.FirstIdxOf | pyhandle/client/dbhandleclient.py:601-608 | the idx found is that of the first row of the key, and none is found when no row has it |
| DbTable.UpdateData | pyhandle/client/dbhandleclient.py:590-592 | the UPDATE changes the data of the rows of the handle at that idx and nothing else |
| DbTable.IdxList | pyhandle/client/dbhandleclient.py:502-508 | the list holds each row's idx in order |
| DbTable.ConvValue | pyhandle/client/dbhandleclient.py:261-279 | a key is in the dict exactly when some kept row has it, and its value is that of the last such row |
| DbTable.ConvHidesHs | pyhandle/client/dbhandleclient.py:262-271 | none of the seven HS_* types is ever a key |
| DbTable.ConvDropsRowAfterHs | pyhandle/client/dbhandleclient.py:265-274 | the row after an HS_* row is skipped too |
| DbTable.ConvertQueryResult | pyhandle/client/dbhandleclient.py:251-279 | the loop with its skip flag builds the filtered dict |
| DbTable.LastAdmin | pyhandle/client/dbhandleclient.py:842-844 | the HS_ADMIN data used is that of the last HS_ADMIN row, and there is none when no row has that type |
| DbClient.RegisterRefusesExisting | pyhandle/client/dbhandleclient.py:384-390 | registration raises AlreadyExists exactly when the handle exists and overwrite is off, and then the table is unchanged |
| DbClient.RegisterHandleRows | pyhandle/client/dbhandleclient.py:392-406 | after registration the handle's rows are the URL row at idx 1 and the HS_ADMIN row at idx 100, or the URL row alone when int(perm, 2) rejects the permissions |
| DbClient.RegisterCallArgs | pyhandle/client/dbhandleclient.py:372-375 | a missing admin_handle, admin_handle_index or permissions keyword raises KeyError for the first one missing, in that order, with the table unchanged; with all three the call is the registration proper |
| DbClient.DocstringExampleRaises | pyhandle/client/dbhandleclient.py:359-366 | the docstring's example, which passes the permissions as perm, raises KeyError on permissions |
| DbClient.RegisterKeepsOthers | pyhandle/client/dbhandleclient.py:392-406 | registration leaves the rows of every other handle unchanged |
| DbClient.RegisterThenRetrieve | pyhandle/client/dbhandleclient.py:348-406 | retrieving a handle just registered gives its URL and exactly the admin handle, index and permissions given |
| DbClient.DeleteHandleEffect | pyhandle/client/dbhandleclient.py:454-473 | an absent handle raises NotFound and changes nothing; otherwise all its rows go and other handles keep theirs |
| DbClient.DeleteValueEffect | pyhandle/client/dbhandleclient.py:475-491 | the delete succeeds exactly when the key is visible in the filtered dict, then removes exactly the rows of the handle with that type; otherwise nothing changes |
| DbClient.HsValuesNotDeletable | pyhandle/client/dbhandleclient.py:475-491 | an HS_* key can never be deleted: the table is unchanged and KeyNotFound or NotFound is raised |
| DbClient.ModifyFirstPairOnly | pyhandle/client/dbhandleclient.py:579-584 | only the first key/value pair matters |
| DbClient.ModifyErrors | pyhandle/client/dbhandleclient.py:579-599 | no pairs raises an index error, an absent handle raises NotFound, an error changes nothing, and success is exactly a given pair on an existing handle |
| DbClient.ModifyUpdatesInPlace | pyhandle/client/dbhandleclient.py:586-592 | a visible key has its data updated at its first idx, and no row is added or removed |
| DbClient.StoredData | pyhandle/client/dbhandleclient.py:623-630 | the data of an inserted row reads back as the value itself, except under HS_ADMIN, where it unhexlifies to the value's UTF-8 bytes, as retrieve_handle_record's hexlify reads it |
| DbClient.ModifyAddsNew | pyhandle/client/dbhandleclient.py:593-596 | an invisible key is added at a fresh idx of at least 2, outside 100-199, holding the stored form of the value, when adding is on; otherwise nothing changes |
| DbClient.ModifyHsKeyAdds | pyhandle/client/dbhandleclient.py:584-596 | an HS_* key is never visible, so with adding on it is added as a new row; an added HS_ADMIN row becomes the last one, and retrieval reads the hex of the value's UTF-8 bytes from it |
| DbClient.ModifyAdminExample | pyhandle/client/dbhandleclient.py:593-596 | adding HS_ADMIN "abc" to a handle with a URL row appends a row at idx 2 that reads back as 616263 |
| DbClient.RetrieveAdminFromLastRow | pyhandle/client/dbhandleclient.py:842-860 | the record's admin is the decoding of the last HS_ADMIN row, and no HS_* key appears among its values |
| DbClient.DbHandleClient.constructor | pyhandle/client/dbhandleclient.py:32-69 | the client starts on the given table with its HS_ADMIN and value fields empty |
| DbClient.DbHandleClient.GetListOfIdx | pyhandle/client/dbhandleclient.py:493-508 | the idx values of the handle's rows, in table order |
| DbClient.DbHandleClient.CreateNewIndex | pyhandle/client/dbhandleclient.py:671-707 | the least free index of the handle's idx values, by the REST allocation rule |
| DbClient.DbHandleClient.RetrieveWithoutHs | pyhandle/client/dbhandleclient.py:536-556 | the filtered dict of the handle's rows, or NotFound |
| DbClient.DbHandleClient.CheckIfKeyExists | pyhandle/client/dbhandleclient.py:722-736 | whether the key is visible in the filtered dict, or NotFound |
| DbClient.DbHandleClient.DeleteHandleRows | pyhandle/client/dbhandleclient.py:454-473 | the table and the error are those of handle deletion, and the other fields are unchanged |
| DbClient.DbHandleClient.DeleteHandleValueRows | pyhandle/client/dbhandleclient.py:475-491 | the table and the error are those of value deletion, and the other fields are unchanged |
| DbClient.DbHandleClient.AddAdminEntry | pyhandle/client/dbhandleclient.py:632-669 | one HS_ADMIN row at idx 100 holding the encoded value is appended, or PermissionsValueError is raised and the table is unchanged |
| DbClient.DbHandleClient.RegisterHandle | pyhandle/client/dbhandleclient.py:348-406 | each HS_ADMIN keyword is stored in its field as it is read, up to the first missing one, and the table and the error are those of the call with its KeyError path |
| DbClient.DbHandleClient.CreateNewValue | pyhandle/client/dbhandleclient.py:610-630 | the key and value are stored in the fields, and one row is appended at a new index holding the key and the stored form of the value (hex of its UTF-8 bytes under HS_ADMIN) |
| DbClient.DbHandleClient.ModifyHandleValue | pyhandle/client/dbhandleclient.py:558-599 | the table and the error are those of modification, an added HS_ADMIN value included, and the key and value fields change only when a new value is added |
| DbClient.DbHandleClient.RetrieveHandleRecord | pyhandle/client/dbhandleclient.py:822-862 | the filtered values with the decoded HS_ADMIN of the handle |
| BatchClient.RegisterLines | pyhandle/client/batchhandleclient.py:70-75 | registering adds the lines CREATE h, the HS_ADMIN line, an empty line, ADD h and the URL line |
| BatchClient.DeleteLines | pyhandle/client/batchhandleclient.py:87-88 | deleting adds exactly the line DELETE h |
| BatchClient.ValueOpLines | pyhandle/client/batchhandleclient.py:101-108 | with empty pairs nothing is written; with type, index and data given the fields are set and the op line and value line are added; a missing key or non-text value raises and writes nothing |
| BatchClient.RemoveLines | pyhandle/client/batchhandleclient.py:141-148 | one REMOVE idx:h line is added per index in list order, in both branches, and none for an empty list |
| BatchClient.SeckeyLines | pyhandle/client/batchhandleclient.py:156-157 | the file is exactly the lines AUTHENTICATE SECKEY:user and the password |
| BatchClient.PubkeyLines | pyhandle/client/batchhandleclient.py:172-178 | the file is exactly the lines AUTHENTICATE PUBKEY:user and the key path, with \|passphrase only when one is given |
| BatchClient.BatchHandleClient.constructor | pyhandle/client/batchhandleclient.py:30-32 | the client starts on the given file contents with empty type, index and data |
| BatchClient.BatchHandleClient.RegisterHandleBatch | pyhandle/client/batchhandleclient.py:53-75 | the CREATE and ADD commands are appended and nothing else changes |
| BatchClient.BatchHandleClient.DeleteHandle | pyhandle/client/batchhandleclient.py:77-88 | the DELETE command is appended and nothing else changes |
| BatchClient.BatchHandleClient.WriteValue | pyhandle/client/batchhandleclient.py:101-108 | the buffer, the fields and the error are those of the value operation |
| BatchClient.BatchHandleClient.ModifyHandleValue | pyhandle/client/batchhandleclient.py:90-108 | the value operation with MODIFY |
| BatchClient.BatchHandleClient.AddHandleValue | pyhandle/client/batchhandleclient.py:110-128 | the value operation with ADD |
| BatchClient.BatchHandleClient.DeleteHandleValue | pyhandle/client/batchhandleclient.py:130-150 | the REMOVE commands are appended and nothing else changes |
| BatchClient.BatchHandleClient.AuthenticateSeckey | pyhandle/client/batchhandleclient.py:152-159 | the buffer is replaced by the SECKEY text, and the batch file path is returned |
| BatchClient.BatchHandleClient.AuthenticatePubkey | pyhandle/client/batchhandleclient.py:161-178 | the buffer is replaced by the PUBKEY text |
| DbExceptions.NotFoundText | pyhandle/dbhsexceptions.py:15-25 | a missing handle key raises; otherwise the message is Handle h not found on Server, or the default when the handle is None |
| DbExceptions.KeyNotSpecifiedText | pyhandle/dbhsexceptions.py:31-39 | a missing msg key raises; otherwise the message is Error during searching, with a full stop only when a custom message is given |
| DbExceptions.AlreadyExistsText | pyhandle/dbhsexceptions.py:47-64 | the message is Handle, the handle when given, already exists, ': ' and the message when given, then a full stop |
| DbExceptions.AlreadyExistsErrors | pyhandle/dbhsexceptions.py:53-55 | the message fails exactly when the handle or msg key is missing |
| DbExceptions.NoCredentialsMessage | pyhandle/dbhsexceptions.py:70-73 | the given message, or Insufficient credentials when it is None |
| DbExceptions.KeyNotFoundText | pyhandle/dbhsexceptions.py:79-92 | with both given, the message is Key k not found in Handle, then the handle with k inserted after each 'ey' in it |
| DbExceptions.KeyNotFoundPlain | pyhandle/dbhsexceptions.py:79-92 | with both given and no 'ey' in the handle, the message is Key k not found in Handle h |
| DbExceptions.KeyNotFoundRewritesHandle | pyhandle/dbhsexceptions.py:84-87 | handle hey and key k give Key k not found in Handle hey k |
| DbExceptions.KeyNotFoundDefault | pyhandle/dbhsexceptions.py:79-92 | a missing key raises, and with the handle or key None the message stays Key not found in Handle |
| BatchExceptions.BatchFileText | pyhandle/batchhsexceptions.py:4-17 | the message is Batch file, the file when given, ': ' and the message when given, then a full stop |
| BatchExceptions.BatchFileBare | pyhandle/batchhsexceptions.py:6-15 | with both None the message is Batch file . |
| BatchExceptions.BatchFileErrors | pyhandle/batchhsexceptions.py:7-8 | the message fails exactly when the file or msg key is missing |
| PyStr.LStrip | pyhandle/client/resthandleclient.py:295 | lstrip keeps a suffix of the text: the dropped front holds only characters of the set, and the kept part does not start with one |
| PyStr.BeforeFirst | pyhandle/client/resthandleclient.py:1206 | split('/')[0] is the longest separator-free prefix: it is the whole text or is followed by the separator |
| PyStr.ReplaceOnce | pyhandle/dbhsexceptions.py:20 | when no other match starts in the text around one occurrence of the pattern, replace-all substitutes that occurrence only |
| PyStr.ReplaceAllAbsent | pyhandle/dbhsexceptions.py:86-87 | replace-all leaves text without the pattern unchanged |
| PyStr.PlainBinary | pyhandle/client/dbhandleclient.py:650 | int(s, 2) of a string of binary digits is its value |
| PyStr.BinaryPrefixAccepted | pyhandle/client/dbhandleclient.py:650 | int(s, 2) accepts a sign followed by a 0b or 0B prefix, with one underscore after the prefix |
| PyStr.SurroundingSpaceAccepted | pyhandle/client/dbhandleclient.py:650 | int(s, 2) strips whitespace from both ends |
| PyStr.UnderscoresAccepted | pyhandle/client/dbhandleclient.py:650 | int(s, 2) reads single underscores between digits |
| PyStr.MalformedPrefixRejected | pyhandle/client/dbhandleclient.py:650 | a bare 0b prefix, or two underscores after it, make int(s, 2) raise |
| PyStr.MalformedUnderscoresRejected | pyhandle/client/dbhandleclient.py:650 | doubled, leading or trailing underscores make int(s, 2) raise |
| PyStr.SpaceAfterSignRejected | pyhandle/client/dbhandleclient.py:650 | whitespace between the sign and the digits makes int(s, 2) raise |
| PyStr.SeparatorNotStripped | pyhandle/client/dbhandleclient.py:650 | int(s, 2) does not strip the ASCII separators U+001C to U+001F, although str.isspace accepts them, so a leading one makes it raise |
| PyStr.HexRoundTrip | pyhandle/client/dbhandleclient.py:868 | int(…, 16) of a hex rendering with leading zeros gives the number back |
| PyStr.BinaryRoundTrip | pyhandle/client/dbhandleclient.py:856 | bin of a binary string's value, zero-filled to the string's width, gives the string back |
| PyStr.UnhexlifyHexOfBytes | pyhandle/client/dbhandleclient.py:851 | unhexlify inverts the hex encoding of a byte sequence |

## Left out

- HTTP transport is outside the model: the GET, PUT and DELETE requests, `HandleSystemConnector`, `hsresponses` and `decoded_response`. A fetched record is an input value, and a write is a returned request value. The server's answer to a write, and the errors raised from it, are not modelled.
- `check_handle_syntax`, `search_handle` and the Searcher are not part of this model. That code is not shown or is network I/O.
- `str()` of non-string values (the Python repr of dicts) is not modelled. `retrieve_handle_record` keeps the `Value` itself rather than its string form.
- `int(…, 2)` (`ParseBinary`) accepts ASCII digits only. Python also reads other Unicode decimal digits of value 0 or 1.
- `int(…, 16)` (`ParseHex`) reads bare hex digits only, without sign, `0x` prefix, whitespace or underscores. Its arguments here are slices of the data column read back in hex.
- Record indices are integers in this model (`Entry.index`). `__make_another_index` converts each with `int(…)`, which also takes numeric strings and raises ValueError on other text; neither case is modelled.
- UTF-8 decoding is not modelled: the database admin handle is a byte sequence. A value that `create_new_value` inserts is taken to be stored as its UTF-8 bytes, that is, a connection character set of UTF-8. Quoting inside the SQL text is not modelled.
- Only the MySQL `UNHEX` storage rule is modelled: an odd-length hex string is read as if led by `'0'`. Negative permissions or a negative admin index put an `x` into the hex text (`hex(-n)[2:]`). `UNHEX` then stores NULL, and `binascii.hexlify(None)` raises TypeError on retrieval. The model instead decodes the stored text as it is. That gives `AdminDecodeError` when the `x` falls inside a decoded slice, and a wrong index when a long negative index leaves it outside the last 8 digits.
- DbTable.ConvValue: the model takes every SELECT to return a handle's rows in insertion order. The source's queries have no ORDER BY, so the server picks the order. The same assumption underlies `DbTable.ConvertQueryResult` (which row follows an HS_* row and is hidden with it), `DbTable.FirstIdxOf` (`query_result[0]`), `DbTable.LastAdmin` (the last HS_ADMIN row) and the rows `DbClient.Modify` and `DbClient.DbHandleClient.CreateNewValue` append. For example, a value added after registration lands behind the HS_ADMIN row and is hidden from later reads. A server returning rows in idx order would show it.
- The SQL plumbing is not modelled: connections, query strings, `execute_query`, search, listing, `pretty_print` and `connection_status`. The database is a sequence of rows.
- The database `add_handle_value` is not modelled, because its SQL is malformed.
- `generate_and_register_handle` (REST and database) is not modelled. On the database side it passes the checksum positionally as `overwrite`.
- `create_batch_file` is not modelled, because it creates a file on disk. The batch client starts from the given buffer contents.
- UUID generation is not modelled. `GeneratePidName` takes the suffix as a parameter.
- Timestamps are not modelled: the wall clock and `strptime` are left out. The database ttl, ttl_type, timestamp and permission columns are not modelled either, since no modelled logic reads them.
- `utilhandle.remove_index_from_handle` is not part of this model. It appears as an uninterpreted function parameter (`parseOwner`).
- Logging is not modelled, nor is the fetch-then-write race between concurrent writers.
- An explicit `HS_ADMIN_permissions=None` makes the REST constructor raise TypeError while it builds its log message. `ClientArgs.permissions` cannot express a passed None, so this error is not modelled.
- The batch `type`, `index` and `data` attributes start as empty text rather than absent. The database client's HS_ADMIN and value attributes start empty rather than absent.
- DbAdminCodec.AdminRoundTrip: proved only for permission values of at least 16, because below 16 the stored value is misread (`SmallPermissionsMisread`).
- RestRegistration.RegisterHandle: requires distinct extra keys, because Python keyword arguments cannot repeat a key. `RestReconciler.Reconcile`, in contrast, accepts a change sequence with repeated keys.
- RestRegistration.RegisterKvSends: states URL at index 1 only for pairs with distinct keys, for the same reason.
- BatchClient.RegisterLines: the line-by-line statements (also `DeleteLines`, `ValueOpLines` and `RemoveLines`) assume arguments without newlines. The class methods state the exact appended text for every argument.
