/**
 * The REST client's registration path: register_handle_kv (an HS_ADMIN
 * entry at 100, then one entry per key-value pair at a fresh index, 1 for
 * URL), register_handle (the legacy signature over register_handle_kv) and
 * register_handle_json (the caller's entries, plus an HS_ADMIN entry when
 * they have none). Each sends one PUT without indices.
 */
module RestRegistration {
  import opened Wrappers
  import opened PyStr
  import opened HandleRecord
  import opened IndexAllocator
  import opened RestEntries
  import opened RestReconciler

  /** The keys of a Python dict are distinct. */
  predicate DistinctKeys(d: seq<Change>)
  {
    forall a, b :: 0 <= a < b < |d| ==> d[a].0 != d[b].0
  }

  /** d[k] = v on an insertion-ordered dict: an existing key keeps its place, a new one goes last. */
  function DictSet(d: seq<Change>, k: string, v: Data): (r: seq<Change>)
    requires DistinctKeys(d)
    ensures DistinctKeys(r)
    ensures |r| == if k in Keys(d) then |d| else |d| + 1
    ensures forall m :: 0 <= m < |d| ==> r[m] == if d[m].0 == k then (k, v) else d[m]
    ensures k !in Keys(d) ==> r == d + [(k, v)]
  {
    var pos := FirstOf(Keys(d), k, 0);
    if pos.Some? then d[pos.value := (k, v)] else d + [(k, v)]
  }

  /** The loop of register_handle_kv over the key-value pairs, appending to acc. */
  function KvEntries(pairs: seq<Change>, acc: seq<Entry>): Result<seq<Entry>, Error>
    decreases |pairs|
  {
    if pairs == [] then Ok(acc)
    else
      var index := NextIndex(Indices(acc), pairs[0].0 == URL, false);
      match CreateEntry(pairs[0].0, pairs[0].1, index, None)
      case Err(err) => Err(err)
      case Ok(e) => KvEntries(pairs[1..], acc + [e])
  }

  /** The HS_ADMIN entry register_handle_kv starts from. */
  function KvAdminEntry(cfg: Config, handle: string): Entry
  {
    CreateAdminEntry(cfg.handleOwner, cfg.parseOwner, cfg.permissions, NextIndex([], false, true), handle, None)
  }

  /**
   * register_handle_kv, given the existence check's fetched record (only
   * consulted when overwrite is false).
   */
  function RegisterKv(cfg: Config, handle: string, overwrite: bool, fetched: Option<seq<Entry>>, pairs: seq<Change>)
    : Result<PutRequest, Error>
  {
    if !overwrite && fetched.Some? then Err(HandleAlreadyExists(handle))
    else
      match KvEntries(pairs, [KvAdminEntry(cfg, handle)])
      case Err(err) => Err(err)
      case Ok(es) => Ok(PutRequest(handle, es, None, overwrite))
  }

  /**
   * register_handle: location and checksum are set as the URL and CHECKSUM
   * keys of the extra types, then additional_URLs is refused, then
   * register_handle_kv runs on the result.
   */
  function RegisterLegacy(cfg: Config, handle: string, location: Option<Data>, checksum: Option<Data>,
                          additionalUrls: Option<seq<string>>, overwrite: bool, fetched: Option<seq<Entry>>,
                          extratypes: seq<Change>): Result<PutRequest, Error>
    requires DistinctKeys(extratypes)
  {
    var withUrl := if location.Some? then DictSet(extratypes, URL, location.value) else extratypes;
    var pairs := if checksum.Some? then DictSet(withUrl, CHECKSUM, checksum.value) else withUrl;
    if additionalUrls.Some? then Err(NotImplemented("additional_URLs"))
    else RegisterKv(cfg, handle, overwrite, fetched, pairs)
  }

  /**
   * register_handle_json: the caller's entries as given, with an HS_ADMIN
   * entry appended at an index from 100 on when none of them is HS_ADMIN.
   */
  function RegisterJson(cfg: Config, handle: string, entries: seq<Entry>, overwrite: bool, fetched: Option<seq<Entry>>)
    : Result<PutRequest, Error>
  {
    if !overwrite && fetched.Some? then Err(HandleAlreadyExists(handle))
    else if HS_ADMIN in Types(entries) then Ok(PutRequest(handle, entries, None, overwrite))
    else
      var admin := CreateAdminEntry(cfg.handleOwner, cfg.parseOwner, cfg.permissions,
                                    NextIndex(Indices(entries), false, true), handle, None);
      Ok(PutRequest(handle, entries + [admin], None, overwrite))
  }

  // ---------------------------------------------------------------------
  // The key-value loop
  // ---------------------------------------------------------------------

  /** The entry the loop creates for a pair whose key is not HS_ADMIN, after the entries acc. */
  function KvEntry(acc: seq<Entry>, kv: Change): Entry
  {
    Entry(NextIndex(Indices(acc), kv.0 == URL, false), kv.0, kv.1, None, None)
  }

  lemma KvEntriesCons(pairs: seq<Change>, acc: seq<Entry>)
    requires pairs != [] && pairs[0].0 != HS_ADMIN
    ensures KvEntries(pairs, acc) == KvEntries(pairs[1..], acc + [KvEntry(acc, pairs[0])])
  {
  }

  /** The entries acc followed by one per pair, each made by step from the entries before it. */
  function AppendEach(pairs: seq<Change>, acc: seq<Entry>, step: (seq<Entry>, Change) -> Entry): (r: seq<Entry>)
    ensures |r| == |acc| + |pairs|
    decreases |pairs|
  {
    if pairs == [] then acc else AppendEach(pairs[1..], acc + [step(acc, pairs[0])], step)
  }

  /**
   * The loop fails exactly when one of the keys is HS_ADMIN, and then with
   * IllegalOperation; otherwise it appends KvEntry's entry for every pair.
   */
  lemma {:induction false} KvEntriesAppend(pairs: seq<Change>, acc: seq<Entry>)
    ensures KvEntries(pairs, acc)
      == if HS_ADMIN in Keys(pairs) then Err(IllegalOperation("creating HS_ADMIN entry"))
         else Ok(AppendEach(pairs, acc, KvEntry))
    decreases |pairs|
  {
    if pairs != [] {
      assert Keys(pairs) == [pairs[0].0] + Keys(pairs[1..]);
      if pairs[0].0 != HS_ADMIN {
        KvEntriesCons(pairs, acc);
        KvEntriesAppend(pairs[1..], acc + [KvEntry(acc, pairs[0])]);
      }
    }
  }

  /** AppendEach keeps acc as it is. */
  lemma {:induction false} AppendEachPrefix(pairs: seq<Change>, acc: seq<Entry>, step: (seq<Entry>, Change) -> Entry)
    ensures AppendEach(pairs, acc, step)[..|acc|] == acc
    decreases |pairs|
  {
    if pairs != [] {
      var acc' := acc + [step(acc, pairs[0])];
      AppendEachPrefix(pairs[1..], acc', step);
      var r := AppendEach(pairs, acc, step);
      assert r[..|acc|] == r[..|acc'|][..|acc|];
    }
  }

  /** The entry for pair m is made from everything before it. */
  lemma {:induction false} AppendEachAt(pairs: seq<Change>, acc: seq<Entry>, step: (seq<Entry>, Change) -> Entry, m: int)
    requires 0 <= m < |pairs|
    ensures var r := AppendEach(pairs, acc, step);
      r[|acc| + m] == step(r[..|acc| + m], pairs[m])
    decreases |pairs|
  {
    var acc' := acc + [step(acc, pairs[0])];
    var r := AppendEach(pairs[1..], acc', step);
    assert AppendEach(pairs, acc, step) == r;
    AppendEachPrefix(pairs[1..], acc', step);
    if m == 0 {
      assert r[..|acc'|] == acc';
      assert r[|acc|] == acc'[|acc|];
      assert r[..|acc|] == r[..|acc'|][..|acc|];
    } else {
      AppendEachAt(pairs[1..], acc', step, m - 1);
      assert pairs[1..][m - 1] == pairs[m];
      assert |acc'| + (m - 1) == |acc| + m;
    }
  }

  /** Every created index is new, so the indices stay distinct. */
  lemma {:induction false} KvEntriesDistinct(pairs: seq<Change>, acc: seq<Entry>)
    requires Distinct(Indices(acc))
    ensures Distinct(Indices(AppendEach(pairs, acc, KvEntry)))
    decreases |pairs|
  {
    if pairs != [] {
      AppendKeepsDistinct(acc, KvEntry(acc, pairs[0]));
      KvEntriesDistinct(pairs[1..], acc + [KvEntry(acc, pairs[0])]);
    }
  }

  /** A created index lies outside 100..199; it is at least 1 for URL and at least 2 for any other type. */
  lemma KvEntryRange(acc: seq<Entry>, kv: Change)
    ensures var e := KvEntry(acc, kv); !(100 <= e.index < 200) && e.index >= (if kv.0 == URL then 1 else 2)
  {
    DefaultModeAvoidsReserved(Indices(acc));
    UrlModeAvoidsAdminRange(Indices(acc));
  }

  /** An entry the loop made for a non-URL pair has an index of at least 2. */
  lemma KvOtherAvoidsOne(pairs: seq<Change>, acc: seq<Entry>, j: int)
    requires 0 <= j < |pairs| && pairs[j].0 != URL
    ensures AppendEach(pairs, acc, KvEntry)[|acc| + j].index != 1
  {
    var r := AppendEach(pairs, acc, KvEntry);
    AppendEachAt(pairs, acc, KvEntry, j);
    KvEntryRange(r[..|acc| + j], pairs[j]);
  }

  /** With distinct keys and index 1 free in acc, no entry before the URL pair's has index 1. */
  lemma KvNoOneBefore(pairs: seq<Change>, acc: seq<Entry>, m: int)
    requires DistinctKeys(pairs)
    requires 0 <= m < |pairs| && pairs[m].0 == URL && 1 !in Indices(acc)
    ensures 1 !in Indices(AppendEach(pairs, acc, KvEntry)[..|acc| + m])
  {
    var r := AppendEach(pairs, acc, KvEntry);
    AppendEachPrefix(pairs, acc, KvEntry);
    var before := r[..|acc| + m];
    var ix := Indices(before);
    forall j | 0 <= j < |before|
      ensures ix[j] != 1
    {
      if j >= |acc| {
        assert pairs[j - |acc|].0 != URL;
        KvOtherAvoidsOne(pairs, acc, j - |acc|);
        assert before[j] == r[j];
      } else {
        assert before[j] == acc[j];
        assert Indices(acc)[j] == acc[j].index;
      }
    }
  }

  /**
   * With distinct keys and index 1 free in acc, the URL pair gets index 1:
   * every pair before it has another type, so its index is at least 2.
   */
  lemma KvUrlGetsOne(pairs: seq<Change>, acc: seq<Entry>, m: int)
    requires DistinctKeys(pairs)
    requires 0 <= m < |pairs| && pairs[m].0 == URL && 1 !in Indices(acc)
    ensures AppendEach(pairs, acc, KvEntry)[|acc| + m].index == 1
  {
    var r := AppendEach(pairs, acc, KvEntry);
    KvNoOneBefore(pairs, acc, m);
    AppendEachAt(pairs, acc, KvEntry, m);
    UrlModeAvoidsAdminRange(Indices(r[..|acc| + m]));
  }

  // ---------------------------------------------------------------------
  // What a registration sends
  // ---------------------------------------------------------------------

  /** register_handle_kv fails exactly when the handle exists and overwrite is off, or a key is HS_ADMIN. */
  lemma RegisterKvFails(cfg: Config, handle: string, overwrite: bool, fetched: Option<seq<Entry>>, pairs: seq<Change>)
    ensures var r := RegisterKv(cfg, handle, overwrite, fetched, pairs);
      (r.Err? <==> (!overwrite && fetched.Some?) || HS_ADMIN in Keys(pairs))
      && (!overwrite && fetched.Some? ==> r == Err(HandleAlreadyExists(handle)))
      && (overwrite || fetched.None? ==> r.Err? ==> r == Err(IllegalOperation("creating HS_ADMIN entry")))
  {
    KvEntriesAppend(pairs, [KvAdminEntry(cfg, handle)]);
  }

  /** What the loop appends after one entry: the pairs' types and data, no ttl, indices outside 100..199. */
  lemma KvEntriesCarry(pairs: seq<Change>, first: Entry)
    ensures var es := AppendEach(pairs, [first], KvEntry);
      |es| == |pairs| + 1 && es[0] == first
      && forall m :: 0 <= m < |pairs| ==>
           es[m + 1].valueType == pairs[m].0 && es[m + 1].data == pairs[m].1
           && es[m + 1].ttl.None? && !(100 <= es[m + 1].index < 200)
  {
    AppendEachPrefix(pairs, [first], KvEntry);
    var es := AppendEach(pairs, [first], KvEntry);
    assert es[0] == es[..1][0];
    forall m | 0 <= m < |pairs|
      ensures es[m + 1].valueType == pairs[m].0 && es[m + 1].data == pairs[m].1
      ensures es[m + 1].ttl.None? && !(100 <= es[m + 1].index < 200)
    {
      AppendEachAt(pairs, [first], KvEntry, m);
      KvEntryRange(es[..m + 1], pairs[m]);
    }
  }

  /** With distinct keys, the loop after an entry other than 1 puts the URL at index 1. */
  lemma KvEntriesUrl(pairs: seq<Change>, first: Entry)
    requires DistinctKeys(pairs) && first.index != 1
    ensures forall m :: 0 <= m < |pairs| && pairs[m].0 == URL ==> AppendEach(pairs, [first], KvEntry)[m + 1].index == 1
  {
    assert Indices([first]) == [first.index];
    forall m | 0 <= m < |pairs| && pairs[m].0 == URL
      ensures AppendEach(pairs, [first], KvEntry)[m + 1].index == 1
    {
      KvUrlGetsOne(pairs, [first], m);
    }
  }

  /**
   * A successful register_handle_kv sends the HS_ADMIN entry at index 100
   * followed by one entry per pair, in order, with the pair's type and
   * data, no ttl, and pairwise distinct indices outside 100..199; with
   * distinct keys the URL entry is at index 1.
   */
  lemma RegisterKvSends(cfg: Config, handle: string, overwrite: bool, fetched: Option<seq<Entry>>, pairs: seq<Change>)
    ensures var r := RegisterKv(cfg, handle, overwrite, fetched, pairs);
      r.Ok? ==>
        r.value.handle == handle && r.value.indices.None? && r.value.overwrite == overwrite
        && |r.value.entries| == |pairs| + 1
        && r.value.entries[0] == KvAdminEntry(cfg, handle) && r.value.entries[0].index == 100
        && (forall m :: 0 <= m < |pairs| ==>
              r.value.entries[m + 1].valueType == pairs[m].0 && r.value.entries[m + 1].data == pairs[m].1
              && r.value.entries[m + 1].ttl.None? && !(100 <= r.value.entries[m + 1].index < 200))
        && Distinct(Indices(r.value.entries))
        && (DistinctKeys(pairs) ==> forall m :: 0 <= m < |pairs| && pairs[m].0 == URL ==> r.value.entries[m + 1].index == 1)
  {
    var admin := KvAdminEntry(cfg, handle);
    var r := RegisterKv(cfg, handle, overwrite, fetched, pairs);
    if r.Ok? {
      EmptyRecordIndices();
      KvEntriesAppend(pairs, [admin]);
      KvEntriesCarry(pairs, admin);
      assert Indices([admin]) == [100];
      KvEntriesDistinct(pairs, [admin]);
      if DistinctKeys(pairs) {
        KvEntriesUrl(pairs, admin);
      }
    }
  }

  /**
   * register_handle_json sends the caller's entries unchanged and in order;
   * when none is HS_ADMIN it appends exactly one, built from the configured
   * owner and permissions, at the least index from 100 on that none of them
   * uses (100 itself when free).
   */
  lemma RegisterJsonSends(cfg: Config, handle: string, entries: seq<Entry>, overwrite: bool, fetched: Option<seq<Entry>>)
    ensures var r := RegisterJson(cfg, handle, entries, overwrite, fetched);
      (r.Err? <==> !overwrite && fetched.Some?)
      && (r.Err? ==> r.error == HandleAlreadyExists(handle))
      && (r.Ok? ==>
            r.value.handle == handle && r.value.indices.None? && r.value.overwrite == overwrite
            && r.value.entries[..|entries|] == entries
            && HS_ADMIN in Types(r.value.entries)
            && (HS_ADMIN in Types(entries) ==> r.value.entries == entries)
            && (HS_ADMIN !in Types(entries) ==>
                  |r.value.entries| == |entries| + 1
                  && var admin := r.value.entries[|entries|];
                  admin.valueType == HS_ADMIN && admin.data.Formatted? && admin.data.value.Admin?
                  && admin.data.value.permissions == cfg.permissions
                  && admin == CreateAdminEntry(cfg.handleOwner, cfg.parseOwner, cfg.permissions, admin.index, handle, None)
                  && admin.index >= 100 && admin.index !in Indices(entries)
                  && (forall i :: 100 <= i < admin.index ==> i in Indices(entries))
                  && (100 !in Indices(entries) ==> admin.index == 100)))
  {
    var r := RegisterJson(cfg, handle, entries, overwrite, fetched);
    AdminModeFromHundred(Indices(entries));
    if r.Ok? {
      if HS_ADMIN !in Types(entries) {
        var n := NextIndex(Indices(entries), false, true);
        var admin := CreateAdminEntry(cfg.handleOwner, cfg.parseOwner, cfg.permissions, n, handle, None);
        assert r.value.entries == entries + [admin];
        TypesSnoc(entries, admin);
        assert r.value.entries[..|entries|] == entries;
      } else {
        assert r.value.entries[..|entries|] == entries;
      }
    }
  }

  /**
   * register_handle refuses additional_URLs whatever else holds; otherwise
   * it is register_handle_kv on the extra types with URL and CHECKSUM set.
   */
  lemma RegisterLegacyIsKv(cfg: Config, handle: string, location: Option<Data>, checksum: Option<Data>,
                           additionalUrls: Option<seq<string>>, overwrite: bool, fetched: Option<seq<Entry>>,
                           extratypes: seq<Change>)
    requires DistinctKeys(extratypes)
    ensures additionalUrls.Some? ==>
      RegisterLegacy(cfg, handle, location, checksum, additionalUrls, overwrite, fetched, extratypes)
        == Err(NotImplemented("additional_URLs"))
    ensures additionalUrls.None? && location.Some? && checksum.Some? && URL !in Keys(extratypes)
            && CHECKSUM !in Keys(extratypes) ==>
      RegisterLegacy(cfg, handle, location, checksum, additionalUrls, overwrite, fetched, extratypes)
        == RegisterKv(cfg, handle, overwrite, fetched, extratypes + [(URL, location.value), (CHECKSUM, checksum.value)])
  {
    if additionalUrls.None? && location.Some? && checksum.Some? && URL !in Keys(extratypes) && CHECKSUM !in Keys(extratypes) {
      DictSetTwoNew(extratypes, URL, location.value, CHECKSUM, checksum.value);
    }
  }

  /** Setting two new keys appends them in order. */
  lemma DictSetTwoNew(d: seq<Change>, k1: string, v1: Data, k2: string, v2: Data)
    requires DistinctKeys(d) && k1 !in Keys(d) && k2 !in Keys(d) && k1 != k2
    ensures DictSet(DictSet(d, k1, v1), k2, v2) == d + [(k1, v1), (k2, v2)]
  {
    var d1 := DictSet(d, k1, v1);
    assert d1 == d + [(k1, v1)];
    assert Keys(d1) == Keys(d) + [k1];
    assert k2 !in Keys(d1);
    assert d1 + [(k2, v2)] == d + [(k1, v1), (k2, v2)];
  }

  // ---------------------------------------------------------------------
  // The scenario of the unit test
  // ---------------------------------------------------------------------

  /** The client of the tests: default owner and permissions, HS_ADMIN not modifiable. */
  function TestConfig(parseOwner: string -> (Scalar, string)): Config
  {
    Config(None, DEFAULT_PERMISSIONS, false, parseOwner)
  }

  const TEST_HANDLE := "my/testhandle"
  const TEST_ADMIN := Entry(100, HS_ADMIN, Formatted("admin", Admin(SText("200"), "0.NA/my", "011111110011")), None, None)
  const FOO_PAIR: Change := ("FOO", Bare(Str("foo")))
  const BAR_PAIR: Change := ("BAR", Bare(Str("bar")))
  const URL_PAIR: Change := (URL, Bare(Str("http://foo.bar")))
  const CHECKSUM_PAIR: Change := (CHECKSUM, Bare(Str("123456")))

  /** The admin entry of the tests: owner 200 at 0.NA/my, default permissions, index 100. */
  lemma TestAdminEntry(parseOwner: string -> (Scalar, string))
    ensures KvAdminEntry(TestConfig(parseOwner), TEST_HANDLE) == TEST_ADMIN
  {
    EmptyRecordIndices();
    BeforeFirstOfJoin("my", '/', "testhandle");
    assert "my" + ['/'] + "testhandle" == TEST_HANDLE;
  }

  lemma ExampleFoo()
    ensures KvEntry([TEST_ADMIN], FOO_PAIR) == Entry(2, "FOO", Bare(Str("foo")), None, None)
  {
    assert Indices([TEST_ADMIN]) == [100];
    NextIndexUnique([100], false, false, 2);
  }

  lemma ExampleBar(foo: Entry)
    requires foo == Entry(2, "FOO", Bare(Str("foo")), None, None)
    ensures KvEntry([TEST_ADMIN, foo], BAR_PAIR) == Entry(3, "BAR", Bare(Str("bar")), None, None)
  {
    assert Indices([TEST_ADMIN, foo]) == [100, 2];
    NextIndexUnique([100, 2], false, false, 3);
  }

  lemma ExampleUrl(foo: Entry, bar: Entry)
    requires foo.index == 2 && bar.index == 3
    ensures KvEntry([TEST_ADMIN, foo, bar], URL_PAIR) == Entry(1, URL, Bare(Str("http://foo.bar")), None, None)
  {
    assert Indices([TEST_ADMIN, foo, bar]) == [100, 2, 3];
    NextIndexUnique([100, 2, 3], true, false, 1);
  }

  lemma ExampleChecksum(foo: Entry, bar: Entry, url: Entry)
    requires foo.index == 2 && bar.index == 3 && url.index == 1
    ensures KvEntry([TEST_ADMIN, foo, bar, url], CHECKSUM_PAIR) == Entry(4, CHECKSUM, Bare(Str("123456")), None, None)
  {
    assert Indices([TEST_ADMIN, foo, bar, url]) == [100, 2, 3, 1];
    NextIndexUnique([100, 2, 3, 1], false, false, 4);
  }

  /** One turn of the loop, at position k of the pairs. */
  lemma KvEntriesStep(pairs: seq<Change>, k: int, acc: seq<Entry>)
    requires 0 <= k < |pairs|
    ensures KvEntries(pairs[k..], acc)
      == if pairs[k].0 == HS_ADMIN then Err(IllegalOperation("creating HS_ADMIN entry"))
         else KvEntries(pairs[k + 1..], acc + [KvEntry(acc, pairs[k])])
  {
    assert pairs[k..][0] == pairs[k] && pairs[k..][1..] == pairs[k + 1..];
  }

  lemma ExampleLast(foo: Entry, bar: Entry, url: Entry, sum: Entry)
    requires KvEntry([TEST_ADMIN, foo, bar, url], CHECKSUM_PAIR) == sum
    ensures KvEntries([CHECKSUM_PAIR], [TEST_ADMIN, foo, bar, url]) == Ok([TEST_ADMIN, foo, bar, url, sum])
  {
    KvEntriesCons([CHECKSUM_PAIR], [TEST_ADMIN, foo, bar, url]);
    assert [CHECKSUM_PAIR][1..] == [];
    assert [TEST_ADMIN, foo, bar, url] + [sum] == [TEST_ADMIN, foo, bar, url, sum];
  }

  lemma ExampleFromUrl(foo: Entry, bar: Entry, url: Entry, sum: Entry)
    requires KvEntry([TEST_ADMIN, foo, bar], URL_PAIR) == url
    requires KvEntry([TEST_ADMIN, foo, bar, url], CHECKSUM_PAIR) == sum
    ensures KvEntries([URL_PAIR, CHECKSUM_PAIR], [TEST_ADMIN, foo, bar]) == Ok([TEST_ADMIN, foo, bar, url, sum])
  {
    KvEntriesCons([URL_PAIR, CHECKSUM_PAIR], [TEST_ADMIN, foo, bar]);
    assert [URL_PAIR, CHECKSUM_PAIR][1..] == [CHECKSUM_PAIR];
    assert [TEST_ADMIN, foo, bar] + [url] == [TEST_ADMIN, foo, bar, url];
    ExampleLast(foo, bar, url, sum);
  }

  lemma ExampleFromBar(foo: Entry, bar: Entry, url: Entry, sum: Entry)
    requires KvEntry([TEST_ADMIN, foo], BAR_PAIR) == bar
    requires KvEntry([TEST_ADMIN, foo, bar], URL_PAIR) == url
    requires KvEntry([TEST_ADMIN, foo, bar, url], CHECKSUM_PAIR) == sum
    ensures KvEntries([BAR_PAIR, URL_PAIR, CHECKSUM_PAIR], [TEST_ADMIN, foo]) == Ok([TEST_ADMIN, foo, bar, url, sum])
  {
    KvEntriesCons([BAR_PAIR, URL_PAIR, CHECKSUM_PAIR], [TEST_ADMIN, foo]);
    assert [BAR_PAIR, URL_PAIR, CHECKSUM_PAIR][1..] == [URL_PAIR, CHECKSUM_PAIR];
    assert [TEST_ADMIN, foo] + [bar] == [TEST_ADMIN, foo, bar];
    ExampleFromUrl(foo, bar, url, sum);
  }

  /** The loop of the test: FOO at 2, BAR at 3, URL at 1, CHECKSUM at 4, after the admin entry at 100. */
  lemma RegisterExampleEntries()
    ensures KvEntries([FOO_PAIR, BAR_PAIR, URL_PAIR, CHECKSUM_PAIR], [TEST_ADMIN])
      == Ok([TEST_ADMIN,
             Entry(2, "FOO", Bare(Str("foo")), None, None),
             Entry(3, "BAR", Bare(Str("bar")), None, None),
             Entry(1, URL, Bare(Str("http://foo.bar")), None, None),
             Entry(4, CHECKSUM, Bare(Str("123456")), None, None)])
  {
    var foo := Entry(2, "FOO", Bare(Str("foo")), None, None);
    var bar := Entry(3, "BAR", Bare(Str("bar")), None, None);
    var url := Entry(1, URL, Bare(Str("http://foo.bar")), None, None);
    var sum := Entry(4, CHECKSUM, Bare(Str("123456")), None, None);
    ExampleFoo();
    ExampleBar(foo);
    ExampleUrl(foo, bar);
    ExampleChecksum(foo, bar, url);
    KvEntriesCons([FOO_PAIR, BAR_PAIR, URL_PAIR, CHECKSUM_PAIR], [TEST_ADMIN]);
    assert [FOO_PAIR, BAR_PAIR, URL_PAIR, CHECKSUM_PAIR][1..] == [BAR_PAIR, URL_PAIR, CHECKSUM_PAIR];
    assert [TEST_ADMIN] + [foo] == [TEST_ADMIN, foo];
    ExampleFromBar(foo, bar, url, sum);
  }

  /**
   * register_handle('my/testhandle', 'http://foo.bar', checksum='123456',
   * FOO='foo', BAR='bar'): HS_ADMIN at 100, FOO at 2, BAR at 3, then URL at 1
   * and CHECKSUM at 4.
   */
  lemma RegisterHandleExample(parseOwner: string -> (Scalar, string))
    ensures RegisterLegacy(TestConfig(parseOwner), TEST_HANDLE, Some(URL_PAIR.1), Some(CHECKSUM_PAIR.1), None,
                           false, None, [FOO_PAIR, BAR_PAIR])
      == Ok(PutRequest(TEST_HANDLE,
                       [TEST_ADMIN,
                        Entry(2, "FOO", Bare(Str("foo")), None, None),
                        Entry(3, "BAR", Bare(Str("bar")), None, None),
                        Entry(1, URL, Bare(Str("http://foo.bar")), None, None),
                        Entry(4, CHECKSUM, Bare(Str("123456")), None, None)],
                       None, false))
  {
    var cfg := TestConfig(parseOwner);
    var extratypes := [FOO_PAIR, BAR_PAIR];
    assert Keys(extratypes) == ["FOO", "BAR"];
    RegisterLegacyIsKv(cfg, TEST_HANDLE, Some(URL_PAIR.1), Some(CHECKSUM_PAIR.1), None, false, None, extratypes);
    assert extratypes + [(URL, URL_PAIR.1), (CHECKSUM, CHECKSUM_PAIR.1)] == [FOO_PAIR, BAR_PAIR, URL_PAIR, CHECKSUM_PAIR];
    TestAdminEntry(parseOwner);
    RegisterExampleEntries();
  }

  /** register_handle with additional_URLs is refused before anything is looked up. */
  lemma AdditionalUrlsRefused(cfg: Config, handle: string, location: Option<Data>, overwrite: bool,
                              fetched: Option<seq<Entry>>, extratypes: seq<Change>, urls: seq<string>)
    requires DistinctKeys(extratypes)
    ensures RegisterLegacy(cfg, handle, location, None, Some(urls), overwrite, fetched, extratypes)
      == Err(NotImplemented("additional_URLs"))
  {
    RegisterLegacyIsKv(cfg, handle, location, None, Some(urls), overwrite, fetched, extratypes);
  }

  // ---------------------------------------------------------------------
  // The source's loops
  // ---------------------------------------------------------------------

  /** register_handle_kv as written: the admin entry, then the loop over the pairs. */
  method RegisterHandleKv(cfg: Config, handle: string, overwrite: bool, fetched: Option<seq<Entry>>, pairs: seq<Change>)
    returns (r: Result<PutRequest, Error>)
    ensures r == RegisterKv(cfg, handle, overwrite, fetched, pairs)
  {
    if !overwrite && fetched.Some? {
      return Err(HandleAlreadyExists(handle));
    }
    var adminIndex := MakeAnotherIndex([], false, true);
    var admin := CreateAdminEntry(cfg.handleOwner, cfg.parseOwner, cfg.permissions, adminIndex, handle, None);
    assert admin == KvAdminEntry(cfg, handle);
    var entries := AppendPairs(pairs, [admin]);
    if entries.Err? {
      return Err(entries.error);
    }
    return Ok(PutRequest(handle, entries.value, None, overwrite));
  }

  /** The for loop of register_handle_kv: one entry per pair, appended to the list. */
  method AppendPairs(pairs: seq<Change>, start: seq<Entry>) returns (r: Result<seq<Entry>, Error>)
    ensures r == KvEntries(pairs, start)
  {
    var entries := start;
    var k := 0;
    while k < |pairs|
      invariant 0 <= k <= |pairs|
      invariant KvEntries(pairs, start) == KvEntries(pairs[k..], entries)
    {
      var key := pairs[k].0;
      var isUrl := key == URL;
      var index := MakeAnotherIndex(entries, isUrl, false);
      var entry := CreateEntry(key, pairs[k].1, index, None);
      KvEntriesStep(pairs, k, entries);
      if entry.Err? {
        return Err(entry.error);
      }
      entries := entries + [entry.value];
      k := k + 1;
    }
    assert pairs[k..] == [];
    return Ok(entries);
  }

  /** register_handle as written: the two dict assignments, the additional_URLs check, then register_handle_kv. */
  method RegisterHandle(cfg: Config, handle: string, location: Option<Data>, checksum: Option<Data>,
                        additionalUrls: Option<seq<string>>, overwrite: bool, fetched: Option<seq<Entry>>,
                        extratypes: seq<Change>) returns (r: Result<PutRequest, Error>)
    requires DistinctKeys(extratypes)
    ensures r == RegisterLegacy(cfg, handle, location, checksum, additionalUrls, overwrite, fetched, extratypes)
  {
    var kv := extratypes;
    if location.Some? {
      kv := DictSet(kv, URL, location.value);
    }
    if checksum.Some? {
      kv := DictSet(kv, CHECKSUM, checksum.value);
    }
    if additionalUrls.Some? {
      return Err(NotImplemented("additional_URLs"));
    }
    r := RegisterHandleKv(cfg, handle, overwrite, fetched, kv);
  }

  /** register_handle_json as written: the loop collecting the types, then the admin entry if missing. */
  method RegisterHandleJson(cfg: Config, handle: string, entries: seq<Entry>, overwrite: bool, fetched: Option<seq<Entry>>)
    returns (r: Result<PutRequest, Error>)
    ensures r == RegisterJson(cfg, handle, entries, overwrite, fetched)
  {
    if !overwrite && fetched.Some? {
      return Err(HandleAlreadyExists(handle));
    }
    var list := entries;
    var keys: seq<string> := [];
    var i := 0;
    while i < |list|
      invariant 0 <= i <= |list| && list == entries
      invariant |keys| == i && forall j :: 0 <= j < i ==> keys[j] == list[j].valueType
    {
      keys := keys + [list[i].valueType];
      i := i + 1;
    }
    assert keys == Types(entries);
    if HS_ADMIN !in keys {
      var index := MakeAnotherIndex(list, false, true);
      var admin := CreateAdminEntry(cfg.handleOwner, cfg.parseOwner, cfg.permissions, index, handle, None);
      list := list + [admin];
    }
    return Ok(PutRequest(handle, list, None, overwrite));
  }
}
