/** The Grafana Infinity data-source proxy: finding the data source by type and
    name, rewriting its record so that its health check fetches a chosen URL, and
    the GET handler that turns the request path into that URL and its query
    parameters. Every HTTP exchange with Grafana is an input: the fetched data-source
    list, the fetched record, and the data dug out of the query response. */
module InfinityProxy {
  import opened Wrappers
  import opened PyText
  import opened JsonValue

  const InfinityType: string := "yesoreyeram-infinity-datasource"
  const ProxyName: string := "prxoyds"
  const LookupFailure: string := "Error checking Infinity datasource: "
  const NotFound: string := "Infinity datasource not found in Grafana."

  // ---------------------------------------------------------------------------
  // check_infinity_datasource

  /** What one pass of the lookup loop makes of one entry: go on, return its
      uid and id, or raise (and so exit) with the exception's text. */
  datatype Step = Skip | Found(uid: Json, id: Json) | Fail(error: string)

  /** The entry test `ds["type"] == ... and ds["name"] == ...` and then
      `ds["uid"], ds["id"]`. Subscripting anything but an object raises, a
      missing key raises `KeyError` (whose text is the quoted key), and the name
      is read only once the type has matched. */
  function Inspect(ds: Json): (step: Step)
    ensures step.Found? <==>
      && ds.JObject?
      && "type" in ds.members && ds.members["type"] == JString(InfinityType)
      && "name" in ds.members && ds.members["name"] == JString(ProxyName)
      && "uid" in ds.members && "id" in ds.members
    ensures step.Found? ==> step.uid == ds.members["uid"] && step.id == ds.members["id"]
    ensures step.Skip? <==>
      && ds.JObject? && "type" in ds.members
      && (ds.members["type"] != JString(InfinityType)
          || ("name" in ds.members && ds.members["name"] != JString(ProxyName)))
  {
    if !ds.JObject? then Fail("data-source entry is not a JSON object")
    else
      var m := ds.members;
      if "type" !in m then Fail("'type'")
      else if m["type"] != JString(InfinityType) then Skip
      else if "name" !in m then Fail("'name'")
      else if m["name"] != JString(ProxyName) then Skip
      else if "uid" !in m then Fail("'uid'")
      else if "id" !in m then Fail("'id'")
      else Found(m["uid"], m["id"])
  }

  /** Entry `i` is the first one the loop does not skip. */
  predicate Decides(items: seq<Json>, i: int) {
    0 <= i < |items| && !Inspect(items[i]).Skip?
    && forall j | 0 <= j < i :: Inspect(items[j]).Skip?
  }

  /** What the function returns, or the message it exits with, once an entry decided. */
  function Decision(step: Step): (r: Result<(Json, Json)>)
    ensures r.Ok? <==> step.Found?
    ensures step.Found? ==> r.value == (step.uid, step.id)
    ensures r.Err? ==> HasPrefix(r.msg, LookupFailure)
    ensures step.Skip? ==> r.msg == LookupFailure + NotFound
  {
    match step
    case Found(uid, id) => Ok((uid, id))
    case Fail(e) => Err(LookupFailure + e)
    case Skip => Err(LookupFailure + NotFound)
  }

  /** At most one entry decides, so the lookup's outcome is well defined. */
  lemma DecidesUnique(items: seq<Json>, i: int, k: int)
    requires Decides(items, i) && Decides(items, k)
    ensures i == k
  {
  }

  /** `check_infinity_datasource()` on the answer to the data-source list
      request (an error when the request, its status or its JSON failed): the uid
      and id of the first entry, in list order, with the Infinity type and the
      proxy's name; an exit when an earlier entry raises or none matches. */
  method CheckInfinityDatasource(response: Result<Json>) returns (r: Result<(Json, Json)>)
    ensures response.Err? ==> r == Err(LookupFailure + response.msg)
    ensures response.Ok? && !response.value.JArray? ==> r.Err?
    ensures response.Ok? && response.value.JArray? ==>
      var items := response.value.items;
      && (forall i | Decides(items, i) :: r == Decision(Inspect(items[i])))
      && ((forall i | 0 <= i < |items| :: Inspect(items[i]).Skip?) ==> r == Err(LookupFailure + NotFound))
      && (r.Ok? <==> exists i | Decides(items, i) :: Inspect(items[i]).Found?)
      && (r.Ok? ==> exists i | 0 <= i < |items| ::
            && Inspect(items[i]) == Found(r.value.0, r.value.1)
            && forall j | 0 <= j < i :: Inspect(items[j]).Skip?)
  {
    if response.Err? {
      return Err(LookupFailure + response.msg);
    }
    if !response.value.JArray? {
      return Err(LookupFailure + "data-source list is not a JSON array");
    }
    var items := response.value.items;
    for i := 0 to |items|
      invariant forall j | 0 <= j < i :: Inspect(items[j]).Skip?
    {
      var step := Inspect(items[i]);
      if !step.Skip? {
        assert Decides(items, i);
        forall k | Decides(items, k) ensures k == i { DecidesUnique(items, i, k); }
        return Decision(step);
      }
    }
    return Err(LookupFailure + NotFound);
  }

  // ---------------------------------------------------------------------------
  // update_infinity_datasource

  /** The three keys the rewrite sets inside `jsonData`. */
  const HealthCheckKeys: set<string> := {"customHealthCheckEnabled", "customHealthCheckUrl", "params"}

  /** The parsed query parameters as the JSON object they are sent as. */
  function ParamsJson(params: map<string, string>): (j: Json)
    ensures j.JObject? && j.members.Keys == params.Keys
    ensures forall k | k in params :: j.members[k] == JString(params[k])
  {
    JObject(map k | k in params :: JString(params[k]))
  }

  /** The record the four assignments leave behind, when all of them succeed:
      they need a `jsonData` member that is itself an object. */
  function Rewritten(record: map<string, Json>, url: string, params: map<string, string>): (r: Option<map<string, Json>>)
    ensures r.Some? <==> "jsonData" in record && record["jsonData"].JObject?
    ensures r.Some? ==> r.value.Keys == record.Keys + {"url"} && r.value["url"] == JString(url)
    ensures r.Some? ==> forall k | k in record && k != "url" && k != "jsonData" :: r.value[k] == record[k]
    ensures r.Some? ==>
      && r.value["jsonData"].JObject?
      && var before, after := record["jsonData"].members, r.value["jsonData"].members;
      && after.Keys == before.Keys + HealthCheckKeys
      && after["customHealthCheckEnabled"] == JBool(true)
      && after["customHealthCheckUrl"] == JString(url)
      && after["params"] == ParamsJson(params)
      && forall k | k in before && k !in HealthCheckKeys :: after[k] == before[k]
  {
    if "jsonData" in record && record["jsonData"].JObject? then
      var settings := record["jsonData"].members;
      var settings' := settings["customHealthCheckEnabled" := JBool(true)]
                               ["customHealthCheckUrl" := JString(url)]
                               ["params" := ParamsJson(params)];
      Some(record["url" := JString(url)]["jsonData" := JObject(settings')])
    else None
  }

  /** Rewriting a rewritten record again leaves what the last rewrite alone
      would: each request replaces everything the previous one set. */
  lemma RewriteOverwrites(record: map<string, Json>, url: string, params: map<string, string>,
                          url': string, params': map<string, string>)
    requires Rewritten(record, url, params).Some?
    ensures Rewritten(Rewritten(record, url, params).value, url', params') == Rewritten(record, url', params')
  {
    var once := Rewritten(record, url, params).value;
    var settings := record["jsonData"].members;
    var first := once["jsonData"].members;
    var again := first["customHealthCheckEnabled" := JBool(true)]
                      ["customHealthCheckUrl" := JString(url')]
                      ["params" := ParamsJson(params')];
    var direct := settings["customHealthCheckEnabled" := JBool(true)]
                          ["customHealthCheckUrl" := JString(url')]
                          ["params" := ParamsJson(params')];
    assert again == direct;
    assert once["url" := JString(url')]["jsonData" := JObject(again)]
      == record["url" := JString(url')]["jsonData" := JObject(direct)];
  }

  /** The fetched record, a dictionary that the rewrite updates in place. */
  class DatasourceRecord {
    var members: map<string, Json>

    constructor(members: map<string, Json>)
      ensures this.members == members
    {
      this.members := members;
    }

    /** The four assignments in order: `url` is set first, and the first of the
        `jsonData` ones raises unless `jsonData` is an object, leaving the
        record with only `url` changed. */
    method Rewrite(url: string, params: map<string, string>) returns (ok: bool)
      modifies this
      ensures ok <==> Rewritten(old(members), url, params).Some?
      ensures ok ==> members == Rewritten(old(members), url, params).value
      ensures !ok ==> members == old(members)["url" := JString(url)]
    {
      members := members["url" := JString(url)];
      if "jsonData" !in members || !members["jsonData"].JObject? {
        return false;
      }
      var settings := members["jsonData"].members;
      settings := settings["customHealthCheckEnabled" := JBool(true)];
      settings := settings["customHealthCheckUrl" := JString(url)];
      settings := settings["params" := ParamsJson(params)];
      members := members["jsonData" := JObject(settings)];
      return true;
    }
  }

  /** The record sent back with PUT, if the rewrite got that far. */
  function SentRecord(fetched: Result<Json>, url: string, params: map<string, string>): (put: Option<Json>)
    ensures put.Some? <==>
      (fetched.Ok? && fetched.value.JObject?
       && "jsonData" in fetched.value.members && fetched.value.members["jsonData"].JObject?)
    ensures put.Some? ==> put.value == JObject(Rewritten(fetched.value.members, url, params).value)
  {
    if fetched.Ok? && fetched.value.JObject? && Rewritten(fetched.value.members, url, params).Some? then
      Some(JObject(Rewritten(fetched.value.members, url, params).value))
    else None
  }

  /** `update_infinity_datasource(url, params)` given the answer to the record
      request: the record is sent back rewritten exactly when it is an object
      whose `jsonData` is an object; every failure is only reported. This is
      the executable form of `SentRecord`, updating the record in place. */
  method UpdateInfinityDatasource(fetched: Result<Json>, url: string, params: map<string, string>)
    returns (put: Option<Json>)
    ensures put.Some? <==>
      (fetched.Ok? && fetched.value.JObject?
       && "jsonData" in fetched.value.members && fetched.value.members["jsonData"].JObject?)
    ensures put == SentRecord(fetched, url, params)
  {
    if fetched.Err? || !fetched.value.JObject? {
      return None;
    }
    var datasource := new DatasourceRecord(fetched.value.members);
    var ok := datasource.Rewrite(url, params);
    if ok {
      put := Some(JObject(datasource.members));
    } else {
      put := None;
    }
  }

  // ---------------------------------------------------------------------------
  // The query string: dict(param.split("=") for param in url.split("&") if "=" in param)

  /** The `if "=" in param` filter, keeping order. */
  function KeyValuePieces(pieces: seq<string>): (kept: seq<string>)
    ensures forall p :: p in kept <==> p in pieces && '=' in p
  {
    if |pieces| == 0 then []
    else (if '=' in pieces[0] then [pieces[0]] else []) + KeyValuePieces(pieces[1..])
  }

  lemma {:induction false} KeyValuePiecesConcat(xs: seq<string>, ys: seq<string>)
    ensures KeyValuePieces(xs + ys) == KeyValuePieces(xs) + KeyValuePieces(ys)
    decreases |xs|
  {
    if |xs| > 0 {
      assert (xs + ys)[0] == xs[0] && (xs + ys)[1..] == xs[1..] + ys;
      KeyValuePiecesConcat(xs[1..], ys);
    } else {
      assert xs + ys == ys;
    }
  }

  /** `param.split("=")` for every kept piece. */
  function SplitPairs(pieces: seq<string>): seq<seq<string>> {
    seq(|pieces|, i requires 0 <= i < |pieces| => Split(pieces[i], '='))
  }

  /** The text of the `ValueError` that `dict()` raises for an element that is
      not a pair. */
  function DictError(index: nat, length: nat): string {
    "dictionary update sequence element #" + NatToString(index) + " has length "
      + NatToString(length) + "; 2 is required"
  }

  /** `dict(elements)` over a sequence of lists: each must be a key and a value,
      a later pair overwrites an earlier one with the same key, and the first
      element of any other length raises. */
  function Dict(elements: seq<seq<string>>): (r: Result<map<string, string>>)
    ensures r.Ok? <==> forall i | 0 <= i < |elements| :: |elements[i]| == 2
    decreases |elements|
  {
    if |elements| == 0 then Ok(map[])
    else
      var n := |elements| - 1;
      assert forall i | 0 <= i < n :: elements[..n][i] == elements[i];
      match Dict(elements[..n])
      case Err(e) => Err(e)
      case Ok(m) =>
        if |elements[n]| == 2 then Ok(m[elements[n][0] := elements[n][1]])
        else Err(DictError(n, |elements[n]|))
  }

  /** The error names the first element that is not a pair, and its length. */
  lemma {:induction false} DictFirstError(elements: seq<seq<string>>, i: nat)
    requires i < |elements| && |elements[i]| != 2
    requires forall j | 0 <= j < i :: |elements[j]| == 2
    ensures Dict(elements) == Err(DictError(i, |elements[i]|))
    decreases |elements|
  {
    var n := |elements| - 1;
    var init := elements[..n];
    if i < n {
      assert init[i] == elements[i];
      DictFirstError(init, i);
    } else {
      assert forall j | 0 <= j < |init| :: |init[j]| == 2;
    }
  }

  /** One more element: a pair updates the dictionary built so far, anything
      else raises unless an earlier element already did. */
  lemma DictAppend(elements: seq<seq<string>>, last: seq<string>)
    ensures Dict(elements + [last]) ==
      match Dict(elements)
      case Err(e) => Err(e)
      case Ok(m) =>
        if |last| == 2 then Ok(m[last[0] := last[1]]) else Err(DictError(|elements|, |last|))
  {
    assert (elements + [last])[..|elements|] == elements;
  }

  /** The keys are exactly the first items of the pairs. */
  lemma {:induction false} DictKeys(elements: seq<seq<string>>)
    requires forall i | 0 <= i < |elements| :: |elements[i]| == 2
    ensures Dict(elements).Ok?
    ensures forall k :: k in Dict(elements).value <==> exists i | 0 <= i < |elements| :: elements[i][0] == k
    decreases |elements|
  {
    if |elements| > 0 {
      var n := |elements| - 1;
      var init, last := elements[..n], elements[n];
      assert elements == init + [last];
      DictKeys(init);
      DictAppend(init, last);
      var m := Dict(init).value;
      forall k ensures k in Dict(elements).value <==> exists i | 0 <= i < |elements| :: elements[i][0] == k {
        if k in m {
          var i :| 0 <= i < n && init[i][0] == k;
          assert elements[i][0] == k;
        } else if k != last[0] {
          forall i | 0 <= i < |elements| ensures elements[i][0] != k {
            if i < n { assert init[i][0] != k; }
          }
        }
      }
    }
  }

  /** Pair `i` holds the last occurrence of its key. */
  predicate LastOfKey(elements: seq<seq<string>>, i: int) {
    && 0 <= i < |elements| && |elements[i]| == 2
    && forall j | i < j < |elements| :: |elements[j]| == 2 ==> elements[j][0] != elements[i][0]
  }

  /** Each key holds the second item of its last pair: later pairs win. */
  lemma {:induction false} DictLastWins(elements: seq<seq<string>>)
    requires forall i | 0 <= i < |elements| :: |elements[i]| == 2
    ensures Dict(elements).Ok?
    ensures forall i | LastOfKey(elements, i) ::
      elements[i][0] in Dict(elements).value && Dict(elements).value[elements[i][0]] == elements[i][1]
    decreases |elements|
  {
    if |elements| > 0 {
      var n := |elements| - 1;
      var init, last := elements[..n], elements[n];
      assert elements == init + [last];
      DictLastWins(init);
      DictAppend(init, last);
      forall i | LastOfKey(elements, i)
        ensures elements[i][0] in Dict(elements).value && Dict(elements).value[elements[i][0]] == elements[i][1]
      {
        if i < n {
          assert LastOfKey(init, i);
        }
      }
    }
  }

  /** The query parameters of the request path. */
  function ParseQuery(url: string): (r: Result<map<string, string>>)
    ensures r.Err? <==> exists p | p in Split(url, '&') :: |Split(p, '=')| > 2
    ensures r.Ok? ==> forall k :: k in r.value <==>
      exists p | p in Split(url, '&') && '=' in p :: Split(p, '=')[0] == k
  {
    var pieces := Split(url, '&');
    PairsFail(pieces);
    PairsKeys(pieces);
    Dict(SplitPairs(KeyValuePieces(pieces)))
  }

  lemma SplitPairsConcat(xs: seq<string>, ys: seq<string>)
    ensures SplitPairs(xs + ys) == SplitPairs(xs) + SplitPairs(ys)
  {
    var both := SplitPairs(xs + ys);
    assert forall i | 0 <= i < |xs| :: both[i] == Split(xs[i], '=');
    assert forall i | |xs| <= i < |both| :: both[i] == Split(ys[i - |xs|], '=');
  }

  /** The pairs of the `&`-separated pieces fail exactly when some piece holds
      two or more `=`, that is, splits into more than two parts. */
  lemma PairsFail(pieces: seq<string>)
    ensures Dict(SplitPairs(KeyValuePieces(pieces))).Err? <==> exists p | p in pieces :: |Split(p, '=')| > 2
  {
    var kept := KeyValuePieces(pieces);
    var elements := SplitPairs(kept);
    if Dict(elements).Err? {
      var i :| 0 <= i < |elements| && |elements[i]| != 2;
      SplitPieces(kept[i], '=');
      assert kept[i] in pieces;
    }
    if exists p | p in pieces :: |Split(p, '=')| > 2 {
      var p :| p in pieces && |Split(p, '=')| > 2;
      SplitPieces(p, '=');
      var i :| 0 <= i < |kept| && kept[i] == p;
      assert |elements[i]| != 2;
    }
  }

  /** The keys of the pairs are the parts before the `=` of the pieces that
      hold one (which value each key takes is `DictLastWins`). */
  lemma PairsKeys(pieces: seq<string>)
    ensures Dict(SplitPairs(KeyValuePieces(pieces))).Ok? ==>
      forall k :: k in Dict(SplitPairs(KeyValuePieces(pieces))).value <==>
        exists p | p in pieces && '=' in p :: Split(p, '=')[0] == k
  {
    var kept := KeyValuePieces(pieces);
    var elements := SplitPairs(kept);
    if Dict(elements).Ok? {
      DictKeys(elements);
      forall k ensures k in Dict(elements).value <==> exists p | p in pieces && '=' in p :: Split(p, '=')[0] == k {
        if k in Dict(elements).value {
          var i :| 0 <= i < |elements| && elements[i][0] == k;
          assert kept[i] in kept;
        }
        if exists p | p in pieces && '=' in p :: Split(p, '=')[0] == k {
          var p :| p in pieces && '=' in p && Split(p, '=')[0] == k;
          var i :| 0 <= i < |kept| && kept[i] == p;
          assert elements[i][0] == k;
        }
      }
    }
  }

  /** A `key=value` piece, with neither part holding `&` or `=`, is one piece
      that is kept and splits into the key and the value. */
  lemma KeyValuePiece(key: string, value: string)
    requires '&' !in key && '=' !in key && '&' !in value && '=' !in value
    ensures '&' !in key + "=" + value && Split(key + "=" + value, '&') == [key + "=" + value]
    ensures KeyValuePieces([key + "=" + value]) == [key + "=" + value]
    ensures SplitPairs([key + "=" + value]) == [[key, value]]
  {
    var piece := key + "=" + value;
    assert piece == key + ['='] + value;
    assert '=' in piece by { assert piece[|key|] == '='; }
    var single: seq<string> := [piece];
    assert single[1..] == [];
    SplitAfterPiece(key, '=', value);
    assert Split(piece, '=') == [key, value];
  }

  /** A single `key=value` piece parses to that one pair. */
  lemma ParseQuerySingle(key: string, value: string)
    requires '&' !in key && '=' !in key && '&' !in value && '=' !in value
    ensures ParseQuery(key + "=" + value) == Ok(map[key := value])
  {
    KeyValuePiece(key, value);
    DictAppend([], [key, value]);
    assert [] + [[key, value]] == [[key, value]];
  }

  /** Appending `&key=value` adds that pair last, so it overrides any earlier
      value of the same key; an earlier error stays. */
  lemma ParseQueryAppend(url: string, key: string, value: string)
    requires '&' !in key && '=' !in key && '&' !in value && '=' !in value
    ensures ParseQuery(url + "&" + key + "=" + value) ==
      match ParseQuery(url)
      case Ok(m) => Ok(m[key := value])
      case Err(e) => Err(e)
  {
    var piece := key + "=" + value;
    assert url + "&" + key + "=" + value == url + ['&'] + piece;
    KeyValuePiece(key, value);
    SplitConcat(url, '&', piece);
    var pieces := Split(url, '&');
    KeyValuePiecesConcat(pieces, [piece]);
    var kept := KeyValuePieces(pieces);
    SplitPairsConcat(kept, [piece]);
    DictAppend(SplitPairs(kept), [key, value]);
  }

  /** Appending a piece without `=` changes nothing: such pieces are ignored. */
  lemma ParseQueryIgnoresBarePiece(url: string, bare: string)
    requires '&' !in bare && '=' !in bare
    ensures ParseQuery(url + "&" + bare) == ParseQuery(url)
  {
    assert url + "&" + bare == url + ['&'] + bare;
    SplitConcat(url, '&', bare);
    var pieces := Split(url, '&');
    KeyValuePiecesConcat(pieces, [bare]);
    var single: seq<string> := [bare];
    assert KeyValuePieces(single) == [] by { assert single[1..] == []; }
    assert KeyValuePieces(pieces) + [] == KeyValuePieces(pieces);
  }

  /** The whole request path is parsed, leading slash included, so the first
      key keeps that slash: the path `/key=value` gives the key `/key`. */
  lemma ParseQueryKeepsSlash(key: string, value: string)
    requires '&' !in key && '=' !in key && '&' !in value && '=' !in value
    ensures ParseQuery("/" + key + "=" + value) == Ok(map["/" + key := value])
  {
    ParseQuerySingle("/" + key, value);
  }

  /** A piece with two `=` is rejected with Python's message for the first
      element that is not a pair. */
  lemma ParseQueryTwoEquals(key: string, middle: string, value: string)
    requires '&' !in key && '=' !in key && '&' !in middle && '=' !in middle
    requires '&' !in value && '=' !in value
    ensures ParseQuery(key + "=" + middle + "=" + value) == Err(DictError(0, 3))
  {
    var piece := key + "=" + middle + "=" + value;
    assert piece == key + ['='] + (middle + ['='] + value);
    SplitAfterPiece(key, '=', middle + ['='] + value);
    SplitAfterPiece(middle, '=', value);
    assert '=' in piece by { assert piece[|key|] == '='; }
    assert Split(piece, '&') == [piece];
    var single: seq<string> := [piece];
    assert KeyValuePieces(single) == single by { assert single[1..] == []; }
    var elements := SplitPairs([piece]);
    assert |elements[0]| == 3;
    DictFirstError(elements, 0);
  }

  // ---------------------------------------------------------------------------
  // ProxyHandler.do_GET

  /** What the handler writes: the data string, or `{"error": message}`. */
  datatype Body = Text(text: string) | ErrorObject(error: string)

  /** `do_GET` for request path `path`: parse the parameters (a failure answers
      500 before anything is sent to Grafana), rewrite and send back the
      record, then answer 200 with the data found in the query response, or
      500 when it could not be found. */
  method HandleGet(path: string, fetched: Result<Json>, queried: Result<string>)
    returns (status: int, body: Body, put: Option<Json>)
    ensures ParseQuery(path).Err? ==>
      status == 500 && body == ErrorObject(ParseQuery(path).msg) && put == None
    ensures ParseQuery(path).Ok? ==> put == SentRecord(fetched, path, ParseQuery(path).value)
    ensures ParseQuery(path).Ok? ==> (status == 200 <==> queried.Ok?)
    ensures ParseQuery(path).Ok? && queried.Ok? ==> body == Text(queried.value)
    ensures ParseQuery(path).Ok? && queried.Err? ==> status == 500 && body == ErrorObject(queried.msg)
  {
    var url := path;
    var params := ParseQuery(url);
    if params.Err? {
      return 500, ErrorObject(params.msg), None;
    }
    put := UpdateInfinityDatasource(fetched, url, params.value);
    match queried
    case Ok(data) =>
      status, body := 200, Text(data);
    case Err(e) =>
      status, body := 500, ErrorObject(e);
  }
}
