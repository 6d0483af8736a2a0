# FHIR mapping verifier — Dafny model

This project models the core of a small tool that checks clinical code mappings
against a FHIR terminology server. The tool reads (source code, target code)
pairs. For each pair it asks `CodeSystem/$validate-code` for the display text of
both codes. It asks `ConceptMap/$translate` (in reverse, towards the target
system) whether a mapping to exactly the target code exists. It then writes a
five-column row.

The model has four modules:

- `FhirParameters` (`fhir_parameters.dfy`) is the read-only accessor over an HL7
  FHIR R4 Parameters resource. An entry is a key bag with an optional `name` and
  four optional value slots: boolean, string, coding, and a nested `part` list.
  The datatype is recursive through `part`. Lookups filter by name only and then
  read one slot. A same-named entry that lacks the slot gives `None`; it is not
  skipped. The singular getters take the first element and fail with `NotFound`
  when there is none. An accessor built over a missing array (`None`) fails with
  `NotIterable` as soon as it is queried.
- `FhirClient` (`fhir_client.dfy`) builds the query parameters of the two
  operations. Parameters whose value is `None` are left out of the request. The
  client hands the request to an abstract `fetch` and wraps the returned
  `parameter` array in a new accessor.
- `VerifyMapping` (`verify_mapping.dfy`) holds the decisions `get_display` and
  `mapping_exists`. It also holds the per-row step and the driver loop of
  `main`, written as a pure function and a method over row sequences.
- `Wrappers` and `Errors` hold `Option`, `Result` and the exceptions that
  propagate uncaught.

Queries are pure functions over immutable values. So the stored list is never
modified, and repeating a query on one accessor gives the same answer; no
separate lemma is needed for that.

## Model

| member | source | states |
|---|---|---|
| FhirParameters.ValuesForNameAppend | src/fhir.py:15-16 | The name filter over a concatenation is the concatenation of the filters, so entries keep their original relative order. |
| FhirParameters.ValuesForNameCount | src/fhir.py:15-16 | The filter has exactly one element per entry whose name equals the query. The count does not depend on which value kind is read, so a same-named entry lacking the slot still contributes. |
| FhirParameters.ValuesForNameOrigin | src/fhir.py:16 | Every element of the filter is what some same-named entry holds in the requested slot (`None` when the key is missing). |
| FhirParameters.ValuesForNameComplete | src/fhir.py:16 | Every same-named entry's slot value appears in the filter. |
| FhirParameters.ValuesForNameEmpty | src/fhir.py:16 | The filter is empty exactly when no entry carries the name. |
| FhirParameters.ValuesForNameHead | src/fhir.py:15-19 | The head of the filter is the slot of the first same-named entry, and a first same-named entry exists exactly when the filter is non-empty. |
| FhirParameters.Values | src/fhir.py:21-34 | A plural getter fails (TypeError) exactly when the accessor wraps no list. Otherwise it returns one element per same-named entry, and an empty sequence, not an error, when no entry has the name. |
| FhirParameters.Value | src/fhir.py:18-31 | A singular getter fails with NotFound exactly when the list has no entry of that name. It succeeds exactly when a first same-named entry exists, and then returns that entry's slot. |
| FhirParameters.GetParts | src/fhir.py:40-41 | Yields one new accessor per same-named entry. Each accessor is built over exactly that entry's `part` list, so it sees only nested entries. |
| FhirParameters.GetPart | src/fhir.py:37-38 | The first same-named entry's `part` list as a new accessor, or NotFound exactly when no entry has the name. |
| FhirParameters.GetPartsAppend | src/fhir.py:40-41 | The accessors yielded for one stretch of the list do not depend on the entries around it, so siblings never leak into a part's scope. |
| FhirClient.Encode | src/fhir.py:56-57 | A query parameter is sent with value v exactly when the parameter map binds it to `Some(v)`. Parameters bound to `None` are omitted. |
| FhirClient.ValidateCodeRequest | src/fhir.py:61-67 | The validate-code request goes to base + `CodeSystem/$validate-code`. It sends exactly `url`→system, `version`→version and `code`→code, each only when present. |
| FhirClient.EncodeKey | src/fhir.py:56-57 | For a parameter name that occurs once in the map, the request carries that name with value v exactly when the map binds it to `Some(v)`. |
| FhirClient.EncodeUnique | src/fhir.py:56-57 | Encoding a parameter map without repeated names sends no name twice. |
| FhirClient.TranslateKeysUnique | src/fhir.py:71-77 | The five translate parameter names are pairwise distinct. |
| FhirClient.TranslateRequest | src/fhir.py:70-78 | The translate request goes to base + `ConceptMap/$translate`. It carries `reverse=true` exactly when reverse is set and never `reverse=false`. |
| FhirClient.TranslateRequestBinds | src/fhir.py:71-77 | The translate request sends `url`, `system` and `target` with value v exactly when the argument is `Some(v)`, and always sends `code` with the given code. |
| FhirClient.ValidateCode | src/fhir.py:56-68 | A transport failure propagates unchanged. Otherwise the response's `parameter` array becomes the new accessor's list. |
| FhirClient.Translate | src/fhir.py:70-79 | The same wrapping and failure propagation for the translate operation. |
| VerifyMapping.DisplayFrom | src/verify_mapping.py:32-35 | With no `result` entry it fails with NotFound("result"). With a first `result` of true it returns the first `display` string, or fails with NotFound("display") exactly when there is none. With a first `result` of false or `None` it returns `None`. |
| VerifyMapping.GetDisplay | src/verify_mapping.py:30-35 | A failed validate-code exchange propagates. Otherwise the display decision is taken on exactly the answer to that request. |
| VerifyMapping.Concepts | src/verify_mapping.py:43 | Takes the first `concept` coding of every match part, in order. The first part without a `concept` entry, or without a list, fails the whole step with its error; every part before it succeeded. |
| VerifyMapping.Matching | src/verify_mapping.py:44-45 | Fails (AttributeError) exactly when some concept is `None`. Otherwise it keeps only exact targets, and the result is non-empty exactly when some concept has system == system_b and code == code_b. |
| VerifyMapping.MappingDecision | src/verify_mapping.py:40-42 | A first `result` that is false or `None` answers false, whatever the match entries hold. A missing `result` fails with NotFound. A missing list fails with TypeError. |
| VerifyMapping.MappingDecisionSound | src/verify_mapping.py:40-45 | A true answer implies a true `result` and some `match` entry whose first concept has exactly (system_b, code_b). |
| VerifyMapping.MalformedMatchFails | src/verify_mapping.py:40-45 | Under a true `result`, a `match` entry without a nested list, without a `concept` entry, or whose first concept holds no coding makes the decision fail; it is never answered `false`. |
| VerifyMapping.MappingDecisionComplete | src/verify_mapping.py:40-45 | Take a true `result` and match entries that each have a first concept coding. Then the answer is true exactly when some `match` entry's first concept is exactly (system_b, code_b). |
| VerifyMapping.MappingExists | src/verify_mapping.py:38-39 | A failed translate exchange propagates. Otherwise the decision is taken on the answer to the translate request made with reverse set and system_b as target. |
| VerifyMapping.MappingExistsAsksReverse | src/verify_mapping.py:39 | The request sent carries `reverse=true` and `target`=system_b, and two servers that give the same answer to that one request give the same result. |
| VerifyMapping.CaseMatters | src/verify_mapping.py:44 | The comparison is case-sensitive: a concept "ABC" does not match a requested "abc". |
| VerifyMapping.ProcessRow | src/verify_mapping.py:73-79 | A row of other than two fields fails (TypeError). A written row has the five output columns: source code, target code, source display (blank for `None`), target display, and the mapping flag. Each cell is taken from the record and from the three lookups. The lookups run in source order: the first failing one stops the row and its error propagates, and when all three succeed the row is written. |
| VerifyMapping.Drive | src/verify_mapping.py:58-79 | The output header is always written first. Empty input fails (StopIteration) and a first row other than exactly `source_code,target_code` fails (ValueError), each with only the header written. Otherwise data rows are written in input order, one per row, up to the first failing row, whose error is reported. |
| VerifyMapping.Run | src/verify_mapping.py:55-79 | The same guarantees with the configured per-row step of `main`. |
| VerifyMapping.HeadacheRow | src/verify_mapping.py:73-79 | On a server answering result true, display "Headache" and one match with R51.9 in the target system, the row R51,R51.9 becomes R51, R51.9, Headache, Headache, true. |

## Left out

- HTTP transport is not modelled: the session, `raise_for_status`, JSON decoding and the TLS verification flag (`src/fhir.py:51-59`). They are network I/O in a foreign library. The client's `fetch` function stands for all of them and returns either a failure or the body's `parameter` member.
- Dropping `None`-valued query parameters is the HTTP library's behaviour, not code of this repository. `FhirClient.Encode` models it as described for that library.
- The process-wide urllib3 warning suppression (`src/fhir.py:4`) is left out. It is a side effect with no bearing on results.
- Argument parsing, config-file reading and file opening with a byte-order-mark-tolerant encoding (`src/verify_mapping.py:49-55, 62-69`) are left out as I/O glue. The configuration is a `Config` value in which a key without a value is `None`. A missing config key (KeyError) is not modelled.
- CSV encoding details are left out: quoting, line terminator, `None` written as an empty field, and `True`/`False` text. Rows are sequences of strings in and of `Cell` values out.
- The progress line printed per row (`src/verify_mapping.py:72`) is left out because it is cosmetic.
- Entries are typed: a `valueBoolean` is a boolean, a `valueCoding` is a coding, and so on. A server sending a JSON value of another type in a slot, where Python truthiness or `.get` would behave differently, is not modelled.
- Laziness of the plural getters is not modelled. Each call returns a finite sequence. Every caller in the source consumes the whole sequence or its first element, and the list is evaluated eagerly when the generator is created, so the observable results are the same.
