/** The mapping verifier and its row-by-row driver: for each (source code, target
    code) pair, look up both display texts and decide whether the terminology
    server knows a mapping from the source code to exactly the target code. */
module VerifyMapping {
  import opened Wrappers
  import opened Errors
  import opened FhirParameters
  import opened FhirClient

  /** Python truthiness of an optional boolean: only a present `true` counts. */
  predicate Truthy(b: Option<bool>) {
    b == Some(true)
  }

  /** The decision `get_display` takes on a validate-code response. */
  function DisplayFrom(response: Parameters): (r: Result<Option<string>, Error>)
    ensures response.list.None? ==> r == Failure(NotIterable)
    ensures Lacks(response, "result") ==> r == Failure(NotFound("result"))
    ensures FirstIs(response, "result", BooleanSlot, Some(true)) ==>
      (r == Failure(NotFound("display")) <==> Lacks(response, "display"))
    ensures FirstIs(response, "result", BooleanSlot, Some(true)) ==>
      (r.Success? <==> !Lacks(response, "display"))
    ensures FirstIs(response, "result", BooleanSlot, Some(true)) && r.Success? ==>
      FirstIs(response, "display", StringSlot, r.value)
    ensures FirstIs(response, "result", BooleanSlot, Some(false)) ==> r == Success(None)
    ensures FirstIs(response, "result", BooleanSlot, None) ==> r == Success(None)
  {
    var result :- GetBoolean(response, "result");
    if Truthy(result) then GetString(response, "display") else Success(None)
  }

  /** `get_display`: ask the server to validate the code, then decide. */
  function GetDisplay(client: Client, system: Option<string>, version: Option<string>, code: string): (r: Result<Option<string>, Error>)
    ensures var answer := client.fetch(ValidateCodeRequest(client.base, system, version, code));
      && (answer.Failure? ==> r == Failure(answer.error))
      && (answer.Success? ==> r == DisplayFrom(Parameters(answer.value)))
  {
    var response :- ValidateCode(client, system, version, code);
    DisplayFrom(response)
  }

  /** The coding is exactly the requested target: same system, same code, no
      normalisation of either. */
  predicate IsTarget(c: Coding, systemB: Option<string>, codeB: string) {
    c.system == systemB && c.code == Some(codeB)
  }

  /** The first `concept` coding of every match part, in order. The whole list is
      built before anything is compared, so the first part that has no `concept`
      entry, or no list at all, fails the decision. */
  function Concepts(parts: seq<Parameters>): (r: Result<seq<Option<Coding>>, Error>)
    ensures r.Success? ==> |r.value| == |parts|
    ensures r.Success? ==> forall k :: 0 <= k < |parts| ==> GetCoding(parts[k], "concept") == Success(r.value[k])
    ensures r.Failure? ==> exists k ::
      && 0 <= k < |parts|
      && GetCoding(parts[k], "concept") == Failure(r.error)
      && forall j :: 0 <= j < k ==> GetCoding(parts[j], "concept").Success?
    ensures (forall k :: 0 <= k < |parts| ==> GetCoding(parts[k], "concept").Success?) ==> r.Success?
  {
    if parts == [] then Success([])
    else
      var c :- GetCoding(parts[0], "concept");
      var rest :- Concepts(parts[1..]);
      assert forall k :: 1 <= k < |parts| ==> parts[k] == parts[1..][k - 1];
      Success([c] + rest)
  }

  /** The concepts that are exactly the target, in order. Every concept is
      inspected; a `None` concept has no `.get` and fails the filter. */
  function Matching(concepts: seq<Option<Coding>>, systemB: Option<string>, codeB: string): (r: Result<seq<Coding>, Error>)
    ensures r.Failure? <==> None in concepts
    ensures r.Failure? ==> r.error == NoneHasNoGet
    ensures r.Success? ==> forall c :: c in r.value ==> IsTarget(c, systemB, codeB)
    ensures r.Success? ==> (r.value != [] <==>
      exists k :: 0 <= k < |concepts| && concepts[k].Some? && IsTarget(concepts[k].value, systemB, codeB))
  {
    if concepts == [] then Success([])
    else
      match concepts[0]
      case None => Failure(NoneHasNoGet)
      case Some(c) =>
        var rest :- Matching(concepts[1..], systemB, codeB);
        assert forall k :: 1 <= k < |concepts| ==> concepts[k] == concepts[1..][k - 1];
        Success(if IsTarget(c, systemB, codeB) then [c] + rest else rest)
  }

  /** The decision `mapping_exists` takes on a translate response. */
  function MappingDecision(response: Parameters, systemB: Option<string>, codeB: string): (r: Result<bool, Error>)
    ensures response.list.None? ==> r == Failure(NotIterable)
    ensures Lacks(response, "result") ==> r == Failure(NotFound("result"))
    ensures FirstIs(response, "result", BooleanSlot, Some(false)) ==> r == Success(false)
    ensures FirstIs(response, "result", BooleanSlot, None) ==> r == Success(false)
  {
    var result :- GetBoolean(response, "result");
    if !Truthy(result) then Success(false)
    else
      // The list is present once `result` was read, so this cannot fail.
      var parts := GetParts(response, "match").value;
      var concepts :- Concepts(parts);
      var matches :- Matching(concepts, systemB, codeB);
      Success(|matches| > 0)
  }

  /** `mapping_exists`: translate in reverse towards the target system, then decide. */
  function MappingExists(client: Client, url: Option<string>, systemA: Option<string>, codeA: string, systemB: Option<string>, codeB: string): (r: Result<bool, Error>)
    ensures var answer := client.fetch(TranslateRequest(client.base, url, systemA, codeA, systemB, true));
      && (answer.Failure? ==> r == Failure(answer.error))
      && (answer.Success? ==> r == MappingDecision(Parameters(answer.value), systemB, codeB))
  {
    var mappings :- Translate(client, url, systemA, codeA, systemB, true);
    MappingDecision(mappings, systemB, codeB)
  }

  // ----- Properties of the mapping decision -----

  /** Entry `i` is a `match` whose nested list starts its `concept` entries with
      the coding `c`. */
  ghost predicate MatchConceptAt(es: seq<Entry>, i: int, c: Coding) {
    && 0 <= i < |es|
    && HasName(es[i], "match")
    && FirstIs(Parameters(es[i].part), "concept", CodingSlot, Some(c))
  }

  /** Every `match` entry has a nested list whose first `concept` holds a coding:
      the shape under which the decision cannot fail after a true `result`. */
  ghost predicate WellFormedMatches(es: seq<Entry>) {
    forall i :: 0 <= i < |es| && HasName(es[i], "match") ==>
      exists c :: MatchConceptAt(es, i, c)
  }

  /** A `true` answer is backed by a `match` entry whose first concept is exactly
      the target, under a true `result`. */
  lemma {:induction false} MappingDecisionSound(response: Parameters, systemB: Option<string>, codeB: string)
    requires MappingDecision(response, systemB, codeB) == Success(true)
    ensures FirstIs(response, "result", BooleanSlot, Some(true))
    ensures exists i, c :: MatchConceptAt(response.list.value, i, c) && IsTarget(c, systemB, codeB)
  {
    var es := response.list.value;
    assert GetBoolean(response, "result") == Success(Some(true));
    var parts := GetParts(response, "match").value;
    var concepts := Concepts(parts).value;
    var matches := Matching(concepts, systemB, codeB);
    assert matches.Success? && matches.value != [];
    var k :| 0 <= k < |concepts| && concepts[k].Some? && IsTarget(concepts[k].value, systemB, codeB);
    var c := concepts[k].value;
    assert GetCoding(parts[k], "concept") == Success(Some(c));
    var i :| 0 <= i < |es| && HasName(es[i], "match") && PartSlot(es[i]) == parts[k].list;
    assert MatchConceptAt(es, i, c);
  }

  /** Well-formed matches give every match part a present first concept. */
  lemma {:induction false} WellFormedConcepts(response: Parameters)
    requires response.list.Some? && WellFormedMatches(response.list.value)
    ensures Concepts(GetParts(response, "match").value).Success?
    ensures None !in Concepts(GetParts(response, "match").value).value
  {
    var es := response.list.value;
    var parts := GetParts(response, "match").value;
    forall k | 0 <= k < |parts|
      ensures GetCoding(parts[k], "concept").Success? && GetCoding(parts[k], "concept").value.Some?
    {
      var i :| 0 <= i < |es| && HasName(es[i], "match") && PartSlot(es[i]) == parts[k].list;
      var c :| MatchConceptAt(es, i, c);
    }
    var concepts := Concepts(parts).value;
    forall k | 0 <= k < |concepts|
      ensures concepts[k].Some?
    {
      assert GetCoding(parts[k], "concept") == Success(concepts[k]);
    }
  }

  /** A `match` entry whose first concept is the target shows up among the concepts. */
  lemma {:induction false} TargetConceptListed(response: Parameters, i: int, c: Coding)
    requires response.list.Some? && MatchConceptAt(response.list.value, i, c)
    requires Concepts(GetParts(response, "match").value).Success?
    ensures Some(c) in Concepts(GetParts(response, "match").value).value
  {
    var es := response.list.value;
    var parts := GetParts(response, "match").value;
    ValuesForNameComplete(es, "match", PartSlot, i);
    var vs := ValuesForName(es, "match", PartSlot);
    var k :| 0 <= k < |vs| && vs[k] == es[i].part;
    assert parts[k].list == es[i].part;
    var concepts := Concepts(parts).value;
    assert GetCoding(parts[k], "concept") == Success(concepts[k]);
    assert concepts[k] == Some(c);
  }

  /** Under a true `result`, a `match` entry without a nested list, without a
      `concept` entry or with a `concept` holding no coding fails the decision:
      it is never answered as a silent `false`. */
  lemma {:induction false} MalformedMatchFails(response: Parameters, systemB: Option<string>, codeB: string)
    requires FirstIs(response, "result", BooleanSlot, Some(true))
    requires !WellFormedMatches(response.list.value)
    ensures MappingDecision(response, systemB, codeB).Failure?
  {
    var es := response.list.value;
    var i :| 0 <= i < |es| && HasName(es[i], "match") && !(exists c :: MatchConceptAt(es, i, c));
    var parts := GetParts(response, "match").value;
    ValuesForNameComplete(es, "match", PartSlot, i);
    var vs := ValuesForName(es, "match", PartSlot);
    var k :| 0 <= k < |vs| && vs[k] == es[i].part;
    assert parts[k].list == es[i].part;
    var coding := GetCoding(parts[k], "concept");
    assert GetBoolean(response, "result") == Success(Some(true));
    if Concepts(parts).Success? {
      var concepts := Concepts(parts).value;
      assert coding == Success(concepts[k]);
      if concepts[k].Some? {
        assert MatchConceptAt(es, i, concepts[k].value);
      } else {
        assert None in concepts;
      }
    }
  }

  /** Under a true `result` and well-formed matches, the answer is `true` exactly
      when some `match` entry's first concept is the target. */
  lemma {:induction false} MappingDecisionComplete(response: Parameters, systemB: Option<string>, codeB: string)
    requires FirstIs(response, "result", BooleanSlot, Some(true))
    requires WellFormedMatches(response.list.value)
    ensures MappingDecision(response, systemB, codeB) ==
      Success(exists i, c :: MatchConceptAt(response.list.value, i, c) && IsTarget(c, systemB, codeB))
  {
    WellFormedConcepts(response);
    var parts := GetParts(response, "match").value;
    var concepts := Concepts(parts).value;
    var matches := Matching(concepts, systemB, codeB);
    assert GetBoolean(response, "result") == Success(Some(true));
    assert MappingDecision(response, systemB, codeB) == Success(|matches.value| > 0);
    if exists i, c :: MatchConceptAt(response.list.value, i, c) && IsTarget(c, systemB, codeB) {
      var i, c :| MatchConceptAt(response.list.value, i, c) && IsTarget(c, systemB, codeB);
      TargetConceptListed(response, i, c);
      var k :| 0 <= k < |concepts| && concepts[k] == Some(c);
      assert matches.value != [];
    } else if MappingDecision(response, systemB, codeB) == Success(true) {
      MappingDecisionSound(response, systemB, codeB);
    }
  }

  /** The translate request always asks for a reverse translation towards the
      target system, and the answer to that one request decides the outcome. */
  lemma MappingExistsAsksReverse(client: Client, other: Client, url: Option<string>, systemA: Option<string>, codeA: string, systemB: Option<string>, codeB: string)
    requires other.base == client.base
    requires other.fetch(TranslateRequest(client.base, url, systemA, codeA, systemB, true))
          == client.fetch(TranslateRequest(client.base, url, systemA, codeA, systemB, true))
    ensures ("reverse", "true") in TranslateRequest(client.base, url, systemA, codeA, systemB, true).query
    ensures forall v :: ("target", v) in TranslateRequest(client.base, url, systemA, codeA, systemB, true).query <==> systemB == Some(v)
    ensures MappingExists(other, url, systemA, codeA, systemB, codeB) == MappingExists(client, url, systemA, codeA, systemB, codeB)
  {
    TranslateRequestBinds(client.base, url, systemA, codeA, systemB, true);
  }

  /** The comparison is exact: a coding whose code differs only in letter case
      is not the target. */
  lemma CaseMatters()
    ensures
      var concept := Entry(Some("concept"), None, None, Some(Coding(Some("http://example.org/b"), Some("ABC"), None)), None);
      var matchEntry := Entry(Some("match"), None, None, None, Some([concept]));
      var result := Entry(Some("result"), Some(true), None, None, None);
      MappingDecision(Parameters(Some([result, matchEntry])), Some("http://example.org/b"), "abc") == Success(false)
  {
  }

  // ----- The CSV driver -----

  const HeaderIn: seq<string> := ["source_code", "target_code"]

  const HeaderOut: seq<string> := ["source_code", "target_code", "source_display", "target_display", "mapping_valid"]

  /** One written CSV cell: text, the empty cell written for `None`, or a boolean. */
  datatype Cell = Text(text: string) | Blank | Flag(flag: bool)

  function OptionalText(o: Option<string>): Cell {
    match o
    case Some(s) => Text(s)
    case None => Blank
  }

  function HeaderRow(): (row: seq<Cell>)
    ensures |row| == |HeaderOut|
    ensures forall j :: 0 <= j < |row| ==> row[j] == Text(HeaderOut[j])
  {
    seq(|HeaderOut|, j requires 0 <= j < |HeaderOut| => Text(HeaderOut[j]))
  }

  /** The `[mapping]` settings; a key written without a value reads as `None`. */
  datatype Config = Config(
    sourceSystem: Option<string>,
    sourceVersion: Option<string>,
    targetSystem: Option<string>,
    targetVersion: Option<string>,
    conceptMap: Option<string>)

  /** The written row, in the column order of the output header. */
  function OutputRow(sourceCode: string, targetCode: string, sourceDisplay: Option<string>, targetDisplay: Option<string>, mappingValid: bool): (row: seq<Cell>)
    ensures |row| == |HeaderOut|
    ensures row[0] == Text(sourceCode) && row[1] == Text(targetCode)
    ensures row[2] == OptionalText(sourceDisplay) && row[3] == OptionalText(targetDisplay)
    ensures row[4] == Flag(mappingValid)
  {
    [Text(sourceCode), Text(targetCode), OptionalText(sourceDisplay), OptionalText(targetDisplay), Flag(mappingValid)]
  }

  /** One data row: build the record, run the three lookups in order, and lay the
      answers out under the output header. */
  function ProcessRow(config: Config, client: Client, row: seq<string>): (r: Result<seq<Cell>, Error>)
    ensures |row| != 2 ==> r == Failure(RecordArity(|row|))
    ensures r.Success? ==> |row| == 2 && |r.value| == |HeaderOut|
    ensures r.Success? ==> r.value[0] == Text(row[0]) && r.value[1] == Text(row[1])
    ensures r.Success? ==>
      var source := GetDisplay(client, config.sourceSystem, config.sourceVersion, row[0]);
      source.Success? && r.value[2] == OptionalText(source.value)
    ensures r.Success? ==>
      var target := GetDisplay(client, config.targetSystem, config.targetVersion, row[1]);
      target.Success? && r.value[3] == OptionalText(target.value)
    ensures r.Success? ==>
      var valid := MappingExists(client, config.conceptMap, config.sourceSystem, row[0], config.targetSystem, row[1]);
      valid.Success? && r.value[4] == Flag(valid.value)
    ensures |row| == 2 ==>
      var source := GetDisplay(client, config.sourceSystem, config.sourceVersion, row[0]);
      var target := GetDisplay(client, config.targetSystem, config.targetVersion, row[1]);
      var valid := MappingExists(client, config.conceptMap, config.sourceSystem, row[0], config.targetSystem, row[1]);
      && (source.Failure? ==> r == Failure(source.error))
      && (source.Success? && target.Failure? ==> r == Failure(target.error))
      && (source.Success? && target.Success? && valid.Failure? ==> r == Failure(valid.error))
      && (source.Success? && target.Success? && valid.Success? ==> r.Success?)
  {
    if |row| != 2 then Failure(RecordArity(|row|))
    else
      var sourceCode, targetCode := row[0], row[1];
      var sourceDisplay :- GetDisplay(client, config.sourceSystem, config.sourceVersion, sourceCode);
      var targetDisplay :- GetDisplay(client, config.targetSystem, config.targetVersion, targetCode);
      var mappingValid :- MappingExists(client, config.conceptMap, config.sourceSystem, sourceCode, config.targetSystem, targetCode);
      Success(OutputRow(sourceCode, targetCode, sourceDisplay, targetDisplay, mappingValid))
  }

  /** The driver loop over the input rows, for any per-row step. The output
      header is written first; the input header is checked next; then each data
      row is processed and written in order until one fails. What was written
      before a failure stays written. */
  method Drive(process: seq<string> -> Result<seq<Cell>, Error>, input: seq<seq<string>>) returns (written: seq<seq<Cell>>, failure: Option<Error>)
    ensures |written| >= 1 && written[0] == HeaderRow()
    ensures input == [] ==> written == [HeaderRow()] && failure == Some(EmptyInput)
    ensures input != [] && input[0] != HeaderIn ==> written == [HeaderRow()] && failure == Some(InvalidHeader)
    ensures input != [] ==> |written| <= |input|
    ensures forall k :: 1 <= k < |written| ==> input[0] == HeaderIn && process(input[k]) == Success(written[k])
    ensures failure.None? <==> input != [] && input[0] == HeaderIn && |written| == |input|
    ensures failure.Some? && input != [] && input[0] == HeaderIn ==>
      |written| < |input| && process(input[|written|]) == Failure(failure.value)
  {
    written := [HeaderRow()];
    if input == [] {
      return written, Some(EmptyInput);
    }
    if input[0] != HeaderIn {
      return written, Some(InvalidHeader);
    }
    var i := 1;
    while i < |input|
      invariant 1 <= i <= |input|
      invariant |written| == i && written[0] == HeaderRow()
      invariant forall k :: 1 <= k < i ==> process(input[k]) == Success(written[k])
    {
      var row := process(input[i]);
      if row.Failure? {
        return written, Some(row.error);
      }
      written := written + [row.value];
      i := i + 1;
    }
    failure := None;
  }

  /** The whole run of `main` over the input rows with the configured lookups. */
  method Run(config: Config, client: Client, input: seq<seq<string>>) returns (written: seq<seq<Cell>>, failure: Option<Error>)
    ensures |written| >= 1 && written[0] == HeaderRow()
    ensures input == [] ==> written == [HeaderRow()] && failure == Some(EmptyInput)
    ensures input != [] && input[0] != HeaderIn ==> written == [HeaderRow()] && failure == Some(InvalidHeader)
    ensures input != [] ==> |written| <= |input|
    ensures forall k :: 1 <= k < |written| ==> input[0] == HeaderIn && ProcessRow(config, client, input[k]) == Success(written[k])
    ensures failure.None? <==> input != [] && input[0] == HeaderIn && |written| == |input|
    ensures failure.Some? && input != [] && input[0] == HeaderIn ==>
      |written| < |input| && ProcessRow(config, client, input[|written|]) == Failure(failure.value)
  {
    written, failure := Drive(row => ProcessRow(config, client, row), input);
  }

  /** The documented end-to-end example: a server that validates both codes with
      display "Headache" and maps R51 to R51.9 in the target system yields the row
      R51, R51.9, Headache, Headache, true. */
  lemma HeadacheRow()
    ensures
      var config := Config(Some(ExampleSource), None, Some(ExampleTarget), None, None);
      ProcessRow(config, Client(ExampleBase, ExampleFetch), ["R51", "R51.9"])
        == Success([Text("R51"), Text("R51.9"), Text("Headache"), Text("Headache"), Flag(true)])
  {
    ExampleDisplay();
    ExampleDecision();
  }

  lemma ExampleDisplay()
    ensures DisplayFrom(Parameters(Some(ExampleResponse()))) == Success(Some("Headache"))
  {
    var response := Parameters(Some(ExampleResponse()));
    assert FirstNamedAt(response.list.value, "result", 0);
    assert FirstNamedAt(response.list.value, "display", 1);
  }

  lemma ExampleDecision()
    ensures MappingDecision(Parameters(Some(ExampleResponse())), Some(ExampleTarget), "R51.9") == Success(true)
  {
    var response := Parameters(Some(ExampleResponse()));
    var es := response.list.value;
    var c := Coding(Some(ExampleTarget), Some("R51.9"), None);
    assert FirstNamedAt(es, "result", 0);
    assert FirstNamedAt(es[2].part.value, "concept", 0);
    assert MatchConceptAt(es, 2, c);
    assert WellFormedMatches(es) by {
      forall i | 0 <= i < |es| && HasName(es[i], "match")
        ensures exists c' :: MatchConceptAt(es, i, c')
      {
        assert i == 2;
      }
    }
    MappingDecisionComplete(response, Some(ExampleTarget), "R51.9");
  }

  const ExampleBase: string := "https://tx.example.org/"
  const ExampleSource: string := "http://example.org/a"
  const ExampleTarget: string := "http://example.org/b"

  /** One answer that serves both operations: `result` true, the display
      "Headache", and one match whose concept is R51.9 in the target system. */
  function ExampleResponse(): seq<Entry> {
    var concept := Entry(Some("concept"), None, None, Some(Coding(Some(ExampleTarget), Some("R51.9"), None)), None);
    [Entry(Some("result"), Some(true), None, None, None),
     Entry(Some("display"), None, Some("Headache"), None, None),
     Entry(Some("match"), None, None, None, Some([concept]))]
  }

  function ExampleFetch(req: Request): Result<Option<seq<Entry>>, Error> {
    Success(Some(ExampleResponse()))
  }
}
