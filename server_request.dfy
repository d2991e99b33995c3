/** The argument clean-up at the top of `make_api_request`: the endpoint
    loses one leading '/', query parameters lose their `None` values, and
    the request body loses its `None` values at every nested dict level. */
module ServerRequest {
  import opened Common

  /** A JSON value as Python holds it after `json.loads`. A dict is its
      entries in insertion order, each key once. */
  datatype Value =
    | Null
    | Bool(b: bool)
    | Num(n: int)
    | Str(s: string)
    | List(items: seq<Value>)
    | Dict(entries: seq<Entry>)

  datatype Entry = Entry(key: string, val: Value)

  function Keys(es: seq<Entry>): (ks: seq<string>)
    ensures |ks| == |es| && forall i :: 0 <= i < |es| ==> ks[i] == es[i].key
  {
    seq(|es|, i requires 0 <= i < |es| => es[i].key)
  }

  /** Endpoint normalisation: one leading '/' is dropped. */
  function NormaliseEndpoint(endpoint: string): (r: string)
    ensures |endpoint| > 0 && endpoint[0] == '/' ==> endpoint == "/" + r
    ensures !(|endpoint| > 0 && endpoint[0] == '/') ==> r == endpoint
  {
    if |endpoint| > 0 && endpoint[0] == '/' then endpoint[1..] else endpoint
  }

  /** `{k: v for k, v in params.items() if v is not None}`: one level only. */
  function DropNone(es: seq<Entry>): (r: seq<Entry>)
    ensures |r| <= |es|
    decreases |es|
  {
    if |es| == 0 then []
    else if es[0].val == Null then DropNone(es[1..])
    else [es[0]] + DropNone(es[1..])
  }

  /** `clean_dict(d)`: a non-dict comes back as it is; a dict keeps its
      non-`None` entries in order, each nested dict value cleaned in turn.
      Lists are not entered. */
  function CleanDict(v: Value): Value
    decreases v, 1
  {
    match v
    case Dict(es) => Dict(CleanEntries(es, v))
    case _ => v
  }

  /** The comprehension over the entries of the dict `parent`. */
  function CleanEntries(es: seq<Entry>, ghost parent: Value): (r: seq<Entry>)
    requires forall i :: 0 <= i < |es| ==> es[i].val < parent
    ensures |r| <= |es|
    decreases parent, 0, |es|
  {
    if |es| == 0 then []
    else if es[0].val == Null then CleanEntries(es[1..], parent)
    else [Entry(es[0].key, CleanValue(es[0].val))] + CleanEntries(es[1..], parent)
  }

  /** `clean_dict(v) if isinstance(v, dict) else v`. */
  function CleanValue(v: Value): Value
    decreases v, 2
  {
    if v.Dict? then CleanDict(v) else v
  }

  /** No dict reachable through dict values holds a `None` value. */
  predicate NoNoneDeep(v: Value)
    decreases v
  {
    match v
    case Dict(es) => forall i :: 0 <= i < |es| ==> es[i].val != Null && NoNoneDeep(es[i].val)
    case _ => true
  }

  /** The parameters clean-up leaves no `None` value, keeps every other
      entry, and invents none. */
  lemma {:induction false} DropNoneSound(es: seq<Entry>)
    ensures forall i :: 0 <= i < |DropNone(es)| ==> DropNone(es)[i].val != Null
    ensures forall e :: e in DropNone(es) <==> e in es && e.val != Null
    decreases |es|
  {
    if |es| > 0 {
      DropNoneSound(es[1..]);
      assert es == [es[0]] + es[1..];
    }
  }

  /** Parameters with no `None` value pass through unchanged. */
  lemma {:induction false} DropNoneFixed(es: seq<Entry>)
    requires forall i :: 0 <= i < |es| ==> es[i].val != Null
    ensures DropNone(es) == es
    decreases |es|
  {
    if |es| > 0 {
      DropNoneFixed(es[1..]);
      assert es == [es[0]] + es[1..];
    }
  }

  /** The cleaned body is free of `None` values at every dict level. */
  lemma CleanDictNoNone(v: Value)
    ensures NoNoneDeep(CleanDict(v))
    decreases v, 1
  {
    if v.Dict? {
      CleanEntriesNoNone(v.entries, v);
    }
  }

  lemma {:induction false} CleanEntriesNoNone(es: seq<Entry>, parent: Value)
    requires forall i :: 0 <= i < |es| ==> es[i].val < parent
    ensures forall i :: 0 <= i < |CleanEntries(es, parent)| ==>
      CleanEntries(es, parent)[i].val != Null && NoNoneDeep(CleanEntries(es, parent)[i].val)
    decreases parent, 0, |es|
  {
    if |es| > 0 {
      CleanEntriesNoNone(es[1..], parent);
      if es[0].val != Null {
        CleanDictNoNone(es[0].val);
        var t := CleanEntries(es[1..], parent);
        var r := CleanEntries(es, parent);
        assert r == [Entry(es[0].key, CleanValue(es[0].val))] + t;
        forall i | 0 < i < |r| ensures r[i] == t[i - 1] {
        }
      }
    }
  }

  /** A body already free of `None` values comes back unchanged, so
      `clean_dict` changes exactly the bodies that hold a `None`. */
  lemma CleanDictFixed(v: Value)
    requires NoNoneDeep(v)
    ensures CleanDict(v) == v
    decreases v, 1
  {
    if v.Dict? {
      CleanEntriesFixed(v.entries, v);
    }
  }

  lemma {:induction false} CleanEntriesFixed(es: seq<Entry>, parent: Value)
    requires forall i :: 0 <= i < |es| ==> es[i].val < parent
    requires forall i :: 0 <= i < |es| ==> es[i].val != Null && NoNoneDeep(es[i].val)
    ensures CleanEntries(es, parent) == es
    decreases parent, 0, |es|
  {
    if |es| > 0 {
      CleanEntriesFixed(es[1..], parent);
      CleanDictFixed(es[0].val);
      assert es == [es[0]] + es[1..];
    }
  }

  /** `clean_dict` is idempotent. */
  lemma CleanDictIdempotent(v: Value)
    ensures CleanDict(CleanDict(v)) == CleanDict(v)
  {
    CleanDictNoNone(v);
    CleanDictFixed(CleanDict(v));
  }

  /** At each dict level `clean_dict` keeps the same entries the
      parameters clean-up keeps, under the same keys and in the same order;
      a kept value is itself cleaned when it is a dict and otherwise kept
      as it is, lists included. */
  lemma {:induction false} CleanEntriesShape(es: seq<Entry>, parent: Value)
    requires forall i :: 0 <= i < |es| ==> es[i].val < parent
    ensures |CleanEntries(es, parent)| == |DropNone(es)|
    ensures Keys(CleanEntries(es, parent)) == Keys(DropNone(es))
    ensures forall i :: 0 <= i < |DropNone(es)| ==>
      CleanEntries(es, parent)[i].val == CleanValue(DropNone(es)[i].val)
    decreases |es|
  {
    if |es| > 0 {
      CleanEntriesShape(es[1..], parent);
      if es[0].val != Null {
        var t := CleanEntries(es[1..], parent);
        var d := DropNone(es[1..]);
        var r := CleanEntries(es, parent);
        assert r == [Entry(es[0].key, CleanValue(es[0].val))] + t;
        assert DropNone(es) == [es[0]] + d;
        forall i | 0 < i < |r| ensures r[i] == t[i - 1] && DropNone(es)[i] == d[i - 1] {
        }
      }
    }
  }

  /** The arguments `make_api_request` goes on to send. */
  datatype Request = Request(endpoint: string, params: Option<seq<Entry>>, data: Option<Value>)

  /** The clean-up before the request is sent: no query parameter and no
      body field at any dict level is `None` afterwards, and an absent
      `params` or `data` stays absent. */
  function PrepareRequest(endpoint: string, params: Option<seq<Entry>>, data: Option<Value>): (r: Request)
    ensures r.params.Some? <==> params.Some?
    ensures r.data.Some? <==> data.Some?
    ensures r.params.Some? ==> forall i :: 0 <= i < |r.params.value| ==> r.params.value[i].val != Null
    ensures r.data.Some? ==> NoNoneDeep(r.data.value)
    ensures IsPrefix("/", endpoint) ==> endpoint == "/" + r.endpoint
  {
    var ps := if params.Some? then DropNoneSound(params.value); Some(DropNone(params.value)) else None;
    var d := if data.Some? then CleanDictNoNone(data.value); Some(CleanDict(data.value)) else None;
    Request(NormaliseEndpoint(endpoint), ps, d)
  }

  /** A value that is not a dict is returned as it is, lists included. */
  lemma CleanDictKeepsNonDict(v: Value)
    requires !v.Dict?
    ensures CleanDict(v) == v
  {
  }
}
