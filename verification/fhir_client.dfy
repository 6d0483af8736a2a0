/** The terminology client: builds the query of `CodeSystem/$validate-code` and
    `ConceptMap/$translate`, hands the request to the transport, and wraps the
    response's `parameter` array in a new accessor. */
module FhirClient {
  import opened Wrappers
  import opened Errors
  import opened FhirParameters

  /** The `in_params` dict, keys in insertion order; `None` marks a value the
      caller did not supply. */
  type QueryParams = seq<(string, Option<string>)>

  /** A GET request as it leaves the session: full URL and the encoded query pairs. */
  datatype Request = Request(url: string, query: seq<(string, string)>)

  /** `base` is the configured server URL. `fetch` stands for the HTTP session:
      it performs the GET, raises on a failing status, decodes the JSON body and
      returns its `parameter` member (`None` when the body has none). */
  datatype Client = Client(base: string, fetch: Request -> Result<Option<seq<Entry>>, Error>)

  const ValidateCodePath: string := "CodeSystem/$validate-code"
  const TranslatePath: string := "ConceptMap/$translate"

  /** Query encoding as the HTTP library does it: a parameter whose value is
      `None` is left out of the request, the others keep their order. */
  function Encode(q: QueryParams): (sent: seq<(string, string)>)
    ensures |sent| <= |q|
    ensures forall k, v :: (k, v) in sent <==> (k, Some(v)) in q
  {
    if q == [] then []
    else
      var rest := Encode(q[1..]);
      assert forall kv :: kv in q <==> kv == q[0] || kv in q[1..];
      match q[0].1
      case Some(v) => [(q[0].0, v)] + rest
      case None => rest
  }

  /** A key that occurs once in the parameter map is sent with value v exactly
      when the map binds it to `Some(v)`. */
  lemma EncodeKey(q: QueryParams, j: int)
    requires 0 <= j < |q|
    requires UniqueKeys(q)
    ensures forall v :: (q[j].0, v) in Encode(q) <==> q[j].1 == Some(v)
  {
    forall v | (q[j].0, Some(v)) in q
      ensures q[j].1 == Some(v)
    {
      var i :| 0 <= i < |q| && q[i] == (q[j].0, Some(v));
    }
  }

  /** No parameter name occurs twice: the source builds each map as a dict literal. */
  predicate UniqueKeys(q: QueryParams) {
    forall i, j :: 0 <= i < j < |q| ==> q[i].0 != q[j].0
  }

  /** Encoding never repeats a name of a map without repeated names, so each
      parameter is sent at most once. */
  lemma {:induction false} EncodeUnique(q: QueryParams)
    requires UniqueKeys(q)
    ensures forall i, j :: 0 <= i < j < |Encode(q)| ==> Encode(q)[i].0 != Encode(q)[j].0
  {
    if q != [] {
      var tail := q[1..];
      assert UniqueKeys(tail) by {
        forall i, j | 0 <= i < j < |tail|
          ensures tail[i].0 != tail[j].0
        {
          assert tail[i] == q[i + 1] && tail[j] == q[j + 1];
        }
      }
      EncodeUnique(tail);
      var rest := Encode(tail);
      forall j | 0 <= j < |rest|
        ensures rest[j].0 != q[0].0
      {
        assert (rest[j].0, rest[j].1) in rest;
        assert (rest[j].0, Some(rest[j].1)) in tail;
        var m :| 0 <= m < |tail| && tail[m] == (rest[j].0, Some(rest[j].1));
        assert q[m + 1] == tail[m];
      }
    }
  }

  lemma TranslateKeysUnique(url: Option<string>, system: Option<string>, code: string, target: Option<string>, reverse: bool)
    ensures UniqueKeys(TranslateQuery(url, system, code, target, reverse))
  {
    var q := TranslateQuery(url, system, code, target, reverse);
    assert q[0].0[0] == 'u' && q[1].0[0] == 's' && q[2].0[0] == 'c' && q[3].0[0] == 't' && q[4].0[0] == 'r';
  }

  function ValidateCodeQuery(system: Option<string>, version: Option<string>, code: string): QueryParams {
    [("url", system), ("version", version), ("code", Some(code))]
  }

  function TranslateQuery(url: Option<string>, system: Option<string>, code: string, target: Option<string>, reverse: bool): QueryParams {
    [("url", url), ("system", system), ("code", Some(code)), ("target", target),
     ("reverse", if reverse then Some("true") else None)]
  }

  /** The validate-code request sends exactly `url`, `version` and `code`, each
      only when it has a value, to the server's `CodeSystem/$validate-code`. */
  function ValidateCodeRequest(base: string, system: Option<string>, version: Option<string>, code: string): (req: Request)
    ensures req.url == base + ValidateCodePath
    ensures forall k, v :: (k, v) in req.query <==>
      || (k == "url" && system == Some(v))
      || (k == "version" && version == Some(v))
      || (k == "code" && v == code)
  {
    Request(base + ValidateCodePath, Encode(ValidateCodeQuery(system, version, code)))
  }

  /** The translate request carries `reverse=true` when asked to reverse and no
      `reverse` parameter at all otherwise: never `reverse=false`. */
  function TranslateRequest(base: string, url: Option<string>, system: Option<string>, code: string, target: Option<string>, reverse: bool): (req: Request)
    ensures req.url == base + TranslatePath
    ensures forall v :: ("reverse", v) in req.query <==> reverse && v == "true"
    ensures ("reverse", "false") !in req.query
  {
    var q := TranslateQuery(url, system, code, target, reverse);
    TranslateKeysUnique(url, system, code, target, reverse);
    EncodeKey(q, 4);
    Request(base + TranslatePath, Encode(q))
  }

  /** The translate request binds `url`, `system`, `code` and `target` to the
      arguments, each only when it has a value. */
  lemma TranslateRequestBinds(base: string, url: Option<string>, system: Option<string>, code: string, target: Option<string>, reverse: bool)
    ensures var req := TranslateRequest(base, url, system, code, target, reverse);
      && (forall v :: ("url", v) in req.query <==> url == Some(v))
      && (forall v :: ("system", v) in req.query <==> system == Some(v))
      && (forall v :: ("code", v) in req.query <==> v == code)
      && (forall v :: ("target", v) in req.query <==> target == Some(v))
  {
    var q := TranslateQuery(url, system, code, target, reverse);
    assert TranslateRequest(base, url, system, code, target, reverse).query == Encode(q);
    TranslateKeysUnique(url, system, code, target, reverse);
    EncodeKey(q, 0);
    EncodeKey(q, 1);
    EncodeKey(q, 2);
    EncodeKey(q, 3);
  }

  /** `code_system_validate_code`: a transport failure propagates unchanged;
      otherwise the response's parameter array becomes a new accessor. */
  function ValidateCode(client: Client, system: Option<string>, version: Option<string>, code: string): (r: Result<Parameters, Error>)
    ensures var answer := client.fetch(ValidateCodeRequest(client.base, system, version, code));
      && (r.Failure? <==> answer.Failure?)
      && (r.Failure? ==> r.error == answer.error)
      && (r.Success? ==> r.value.list == answer.value)
  {
    var list :- client.fetch(ValidateCodeRequest(client.base, system, version, code));
    Success(Parameters(list))
  }

  /** `concept_map_translate`: same wrapping and failure behaviour as `ValidateCode`. */
  function Translate(client: Client, url: Option<string>, system: Option<string>, code: string, target: Option<string>, reverse: bool): (r: Result<Parameters, Error>)
    ensures var answer := client.fetch(TranslateRequest(client.base, url, system, code, target, reverse));
      && (r.Failure? <==> answer.Failure?)
      && (r.Failure? ==> r.error == answer.error)
      && (r.Success? ==> r.value.list == answer.value)
  {
    var list :- client.fetch(TranslateRequest(client.base, url, system, code, target, reverse));
    Success(Parameters(list))
  }
}
