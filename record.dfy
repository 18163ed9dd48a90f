/**
 * The handle record as the REST client sees it: an ordered list of
 * entries {index, type, data, ttl?, timestamp?}, the exceptions the client
 * raises, and the requests it sends to the Handle Server.
 */
module HandleRecord {
  import opened Wrappers
  import opened PyStr

  /** A JSON value found under data.value, or given by a caller as new data. */
  datatype Value =
    | Str(s: string)
      /** {'index': …, 'handle': …, 'permissions': …}, the value of an HS_ADMIN entry. */
    | Admin(index: Scalar, handle: string, permissions: string)

  /** The 'data' field of an entry: a bare value, or a {'format', 'value'} dict. */
  datatype Data = Bare(v: Value) | Formatted(format: string, value: Value)

  /** One handle value; ttl and timestamp are keys that may be absent. */
  datatype Entry = Entry(index: int, valueType: string, data: Data, ttl: Option<int>, timestamp: Option<string>)

  /** The JSON body of a retrieved record: {'handle': …, 'values': [...]}. */
  datatype Record = Record(handle: string, values: seq<Entry>)

  /** The exceptions raised by the REST client, by Python, and by the code it calls. */
  datatype Error =
    | HandleNotFound(handle: string)
    | IllegalOperation(operation: string)
    | BrokenHandleRecord(handle: string)
    | HandleAlreadyExists(handle: string)
    | GenericHandleError(operation: string)
    | NotImplemented(what: string)
    | KeyError(key: string)
    | TypeError(what: string)
    | UnboundLocalError(name: string)

  /** A PUT of entries to the handle; indices are sent only by the modification path. */
  datatype PutRequest = PutRequest(handle: string, entries: seq<Entry>, indices: Option<seq<int>>, overwrite: bool)

  /** A DELETE to the handle: of the listed indices, or of the whole handle when there are none. */
  datatype DeleteRequest = DeleteRequest(handle: string, indices: Option<seq<int>>)

  const HS_ADMIN := "HS_ADMIN"
  const URL := "URL"
  const CHECKSUM := "CHECKSUM"

  /** A Python dict value, as opposed to a str: item assignment on it succeeds. */
  predicate IsDict(d: Data)
  {
    !(d.Bare? && d.v.Str?)
  }

  /** The indices of the entries, in list order. */
  function Indices(es: seq<Entry>): (r: seq<int>)
    ensures |r| == |es| && forall i :: 0 <= i < |es| ==> r[i] == es[i].index
  {
    if es == [] then [] else [es[0].index] + Indices(es[1..])
  }

  lemma {:induction false} IndicesAppend(a: seq<Entry>, b: seq<Entry>)
    ensures Indices(a + b) == Indices(a) + Indices(b)
  {
    if a != [] {
      assert (a + b)[1..] == a[1..] + b;
      IndicesAppend(a[1..], b);
    } else {
      assert a + b == b;
    }
  }

  /** The types of the entries, in list order. */
  function Types(es: seq<Entry>): (r: seq<string>)
    ensures |r| == |es| && forall i :: 0 <= i < |es| ==> r[i] == es[i].valueType
  {
    if es == [] then [] else [es[0].valueType] + Types(es[1..])
  }

  /** The first position at or after from whose type is t, if any. */
  function FirstOf(ts: seq<string>, t: string, from: nat): (r: Option<nat>)
    ensures r.Some? ==> from <= r.value < |ts| && ts[r.value] == t
    ensures r.Some? ==> forall j :: from <= j < r.value ==> ts[j] != t
    ensures r.None? ==> forall j :: from <= j < |ts| ==> ts[j] != t
    decreases |ts| - from
  {
    if from >= |ts| then None
    else if ts[from] == t then Some(from)
    else FirstOf(ts, t, from + 1)
  }

  /** position i holds t and nothing between from and i does: it is the first from from on. */
  lemma FirstOfAt(ts: seq<string>, t: string, from: nat, i: nat)
    requires from <= i < |ts| && ts[i] == t
    requires forall j :: from <= j < i ==> ts[j] != t
    ensures FirstOf(ts, t, from) == Some(i)
  {
  }

  /** Nothing from from on holds t: there is no first one. */
  lemma FirstOfNone(ts: seq<string>, t: string, from: nat)
    requires forall j :: from <= j < |ts| ==> ts[j] != t
    ensures FirstOf(ts, t, from) == None
  {
  }

  /** No index occurs twice. */
  predicate Distinct(xs: seq<int>)
  {
    forall a, b :: 0 <= a < b < |xs| ==> xs[a] != xs[b]
  }
}
