/** Operation documentation: what enrichment fills in, and what the quality gate still reports. */
module OperationDocumentation {
  import opened Common
  import opened Json
  import opened ParameterDocumentation
  import Text

  /** The keys of an operation that enrichment and gate read or write. `responses` is `None` when it is not a
      dictionary, `parameters` when it is not a list. */
  datatype Documentation = Documentation(summary: Value, description: Value, tags: Value,
                                         responses: Option<seq<Entry<Value>>>, parameters: Option<seq<Value>>)

  /** One operation of the document, under its method as written and its path. */
  datatype Operation = Operation(method_: string, path: string, id: Value, doc: Documentation)

  const GENERATED_ERROR := "Unexpected error response."

  // ---------------------------------------------------------------- shared texts

  predicate IsLetter(c: char) {
    'a' <= c <= 'z' || 'A' <= c <= 'Z'
  }

  /** `str.title()`. */
  function Title(s: string): string {
    seq(|s|, i requires 0 <= i < |s| =>
      if i > 0 && IsLetter(s[i - 1]) then Text.LowerChar(s[i]) else Text.UpperChar(s[i]))
  }

  function DropSlashes(s: string): string {
    if s != [] && s[0] == '/' then DropSlashes(s[1..]) else s
  }

  function FirstSegment(s: string): string {
    if s == [] || s[0] == '/' then [] else [s[0]] + FirstSegment(s[1..])
  }

  function InferredTag(path: string): string {
    if "/health/" <= path || path == "/health" then "Health"
    else if path == "/metrics" then "Monitoring"
    else
      var segment := FirstSegment(DropSlashes(path));
      Title(Text.Replace(if segment == "" then "default" else segment, '-', ' '))
  }

  function GeneratedSummary(method_: string, path: string): string {
    Text.Upper(method_) + " " + path
  }

  function GeneratedDescription(method_: string, path: string, service: string): string {
    Text.Upper(method_) + " operation for " + path + " in " + service + "."
  }

  predicate IsInfrastructure(path: string) {
    path == "/metrics" || path == "/health" || "/health/" <= path
  }

  // ---------------------------------------------------------------- enrichment

  predicate HasErrorResponse(responses: seq<Entry<Value>>) {
    exists i :: 0 <= i < |responses| && (var code := responses[i].key; "4" <= code || "5" <= code || code == "default")
  }

  function Ensured(o: Operation, service: string): Documentation {
    var Documentation(summary, description, tags, responses, parameters) := o.doc;
    Documentation(
      if Truthy(summary) then summary else Str(GeneratedSummary(o.method_, o.path)),
      if Truthy(description) then description else Str(GeneratedDescription(o.method_, o.path, service)),
      if Truthy(tags) then tags else Arr([Str(InferredTag(o.path))]),
      if responses.None? || HasErrorResponse(responses.value) then responses
      else Some(responses.value + [Entry("default", Obj([Entry("description", Str(GENERATED_ERROR))]))]),
      if parameters.None? then None else Some(EnsuredParameters(parameters.value)))
  }

  /** One operation dictionary, rewritten in place. */
  class OperationNode {
    var summary: Value
    var description: Value
    var tags: Value
    var responses: Option<seq<Entry<Value>>>
    var parameters: Option<seq<Value>>

    constructor (doc: Documentation)
      ensures Doc() == doc
    {
      summary, description, tags, responses := doc.summary, doc.description, doc.tags, doc.responses;
      parameters := doc.parameters;
    }

    function Doc(): Documentation
      reads this
    {
      Documentation(summary, description, tags, responses, parameters)
    }

    /** The body of the operation loop of `_ensure_operation_documentation`. */
    method EnsureDocumentation(method_: string, path: string, service: string)
      modifies this
      ensures Doc() == Ensured(Operation(method_, path, Null, old(Doc())), service)
    {
      if !Truthy(summary) {
        summary := Str(GeneratedSummary(method_, path));
      }
      if !Truthy(description) {
        description := Str(GeneratedDescription(method_, path, service));
      }
      if !Truthy(tags) {
        tags := Arr([Str(InferredTag(path))]);
      }
      if responses.Some? && !HasErrorResponse(responses.value) {
        responses := Some(responses.value + [Entry("default", Obj([Entry("description", Str(GENERATED_ERROR))]))]);
      }
      EnsureParameters();
    }

    /** `_ensure_operation_parameter_documentation`. */
    method EnsureParameters()
      modifies this`parameters
      ensures parameters == if old(parameters).None? then None else Some(EnsuredParameters(old(parameters).value))
    {
      hide EnsuredParameter;
      if parameters.None? {
        return;
      }
      var list := parameters.value;
      for i := 0 to |list|
        invariant |list| == |old(parameters).value|
        invariant forall j :: 0 <= j < |list| ==>
          list[j] == if j < i then EnsuredParameter(old(parameters).value[j]) else old(parameters).value[j]
      {
        list := list[i := EnsuredParameter(list[i])];
      }
      assert list == EnsuredParameters(old(parameters).value);
      parameters := Some(list);
    }
  }

  // ---------------------------------------------------------------- the gate

  /** `_is_authored_error_response`. */
  predicate AuthoredError(code: string, response: Value) {
    "4" <= code || "5" <= code ||
    (code == "default" &&
     !(response.Obj? && Find(response.entries, "description").Some?
       && Equal(Find(response.entries, "description").value, Str(GENERATED_ERROR))))
  }

  predicate HasSuccess(responses: seq<Entry<Value>>) {
    exists i :: 0 <= i < |responses| && "2" <= responses[i].key
  }

  predicate HasAuthoredError(responses: seq<Entry<Value>>) {
    exists i :: 0 <= i < |responses| && AuthoredError(responses[i].key, responses[i].value)
  }

  /** A text the gate accepts: present, and outside infrastructure paths not the generated one. */
  predicate Authored(path: string, text: Value, generated: Value) {
    Truthy(text) && (IsInfrastructure(path) || !Equal(text, generated))
  }

  /** `_missing_operation_documentation`, which receives the method in upper case. */
  function Missing(o: Operation, service: string): seq<string> {
    var upper := Text.Upper(o.method_);
    (if Authored(o.path, o.doc.summary, Str(GeneratedSummary(upper, o.path))) then [] else ["summary"])
    + (if Authored(o.path, o.doc.description, Str(GeneratedDescription(upper, o.path, service))) then []
        else ["description"])
    + (if Authored(o.path, o.doc.tags, Arr([Str(InferredTag(o.path))])) then [] else ["tags"])
    + ResponseGaps(o.path, o.doc.responses)
  }

  function ResponseGaps(path: string, responses: Option<seq<Entry<Value>>>): seq<string> {
    if responses.None? || responses.value == [] then ["responses"]
    else
      (if HasSuccess(responses.value) then [] else ["2xx response"])
      + (if IsInfrastructure(path) || HasAuthoredError(responses.value) then []
          else ["error response (4xx/5xx/default)"])
  }

  /** The loop of `evaluate_schema` over the operations: every gap with its method and path, in document order, and
      the ids that are there. `show` is `str`. */
  method CollectMissing(operations: seq<Operation>, service: string, show: Value -> string)
      returns (gaps: seq<(string, string, string)>, ids: seq<string>)
    ensures gaps == AllMissing(operations, service)
    ensures ids == OperationIds(operations, show)
  {
    hide GapsOf;
    gaps, ids := [], [];
    for k := 0 to |operations|
      invariant gaps + AllMissing(operations[k..], service) == AllMissing(operations, service)
      invariant ids + OperationIds(operations[k..], show) == OperationIds(operations, show)
    {
      var o := operations[k];
      assert operations[k..][1..] == operations[k + 1..];
      if Truthy(o.id) {
        ids := ids + [show(o.id)];
      }
      gaps := gaps + GapsOf(o, service);
    }
  }

  function OperationIds(operations: seq<Operation>, show: Value -> string): seq<string> {
    if operations == [] then []
    else (if Truthy(operations[0].id) then [show(operations[0].id)] else []) + OperationIds(operations[1..], show)
  }

  /** `_duplicate_operation_ids`: the ids that occur more than once, each once and in order. */
  function DuplicateIds(ids: seq<string>): (duplicates: seq<string>)
    ensures Text.Ascending(duplicates) && forall id :: id in duplicates <==> multiset(ids)[id] > 1
  {
    Text.Sorted(set id | id in ids && multiset(ids)[id] > 1)
  }

  function GapsOf(o: Operation, service: string): seq<(string, string, string)> {
    var missing := Missing(o, service);
    seq(|missing|, i requires 0 <= i < |missing| => (Text.Upper(o.method_), o.path, missing[i]))
  }

  function AllMissing(operations: seq<Operation>, service: string): seq<(string, string, string)> {
    if operations == [] then [] else GapsOf(operations[0], service) + AllMissing(operations[1..], service)
  }

  // ---------------------------------------------------------------- enrichment never hides an authoring gap

  lemma AddedErrorIsNotAuthored(responses: seq<Entry<Value>>)
    requires !HasErrorResponse(responses)
    ensures var added := responses + [Entry("default", Obj([Entry("description", Str(GENERATED_ERROR))]))];
            HasSuccess(added) == HasSuccess(responses) && HasAuthoredError(added) == HasAuthoredError(responses)
  {
    var last := Entry("default", Obj([Entry("description", Str(GENERATED_ERROR))]));
    var added := responses + [last];
    assert !("2" <= last.key) && !AuthoredError(last.key, last.value) by {
      assert last.key[0] == 'd';
      assert Find(last.value.entries, "description") == Some(Str(GENERATED_ERROR));
    }
    forall i | 0 <= i < |responses|
      ensures added[i] == responses[i]
    {
    }
    if i :| 0 <= i < |responses| && "2" <= responses[i].key {
      assert "2" <= added[i].key;
    }
    assert !HasAuthoredError(responses);
  }

  /** The gaps enrichment could hide: an empty response dictionary, and the texts of infrastructure paths. */
  predicate Unmaskable(o: Operation) {
    && o.doc.responses != Some([])
    && (IsInfrastructure(o.path) ==> Truthy(o.doc.summary) && Truthy(o.doc.description) && Truthy(o.doc.tags))
  }

  lemma TextGapUnchangedIff(path: string, text: Value, generated: Value)
    requires Truthy(generated) && Equal(generated, generated)
    ensures Authored(path, if Truthy(text) then text else generated, generated) == Authored(path, text, generated)
       <==> (IsInfrastructure(path) ==> Truthy(text))
    ensures Authored(path, text, generated) ==> Authored(path, if Truthy(text) then text else generated, generated)
  {
  }

  lemma ResponseGapsUnchangedIff(o: Operation, service: string)
    ensures ResponseGaps(o.path, Ensured(o, service).responses) == ResponseGaps(o.path, o.doc.responses)
       <==> o.doc.responses != Some([])
    ensures "responses" in ResponseGaps(o.path, o.doc.responses) <==>
        o.doc.responses.None? || o.doc.responses == Some([])
  {
    hide InferredTag, GeneratedSummary, GeneratedDescription;
    if o.doc.responses.Some? && !HasErrorResponse(o.doc.responses.value) {
      AddedErrorIsNotAuthored(o.doc.responses.value);
    }
    if o.doc.responses == Some([]) {
      assert "responses" !in ResponseGaps(o.path, Ensured(o, service).responses);
    }
  }

  /** Four lists of gaps, the first three of them one label each or empty, differ when one of them does. */
  lemma GapListsEqualIff(a: bool, b: bool, c: bool, d: seq<string>, a': bool, b': bool, c': bool, d': seq<string>)
    requires (a ==> a') && (b ==> b') && (c ==> c')
    requires forall l :: l in d || l in d' ==> l != "summary" && l != "description" && l != "tags"
    ensures GapList(a, b, c, d) == GapList(a', b', c', d') <==> a == a' && b == b' && c == c' && d == d'
  {
    var x, y := GapList(a, b, c, d), GapList(a', b', c', d');
    GapLabels(a, b, c, d);
    GapLabels(a', b', c', d');
    if x == y {
      var n := (if a then 0 else 1) + (if b then 0 else 1) + (if c then 0 else 1);
      assert x[n..] == d && y[n..] == d';
    }
  }

  lemma GapLabels(a: bool, b: bool, c: bool, d: seq<string>)
    requires forall l :: l in d ==> l != "summary" && l != "description" && l != "tags"
    ensures "summary" in GapList(a, b, c, d) <==> !a
    ensures "description" in GapList(a, b, c, d) <==> !b
    ensures "tags" in GapList(a, b, c, d) <==> !c
  {
  }

  function GapList(a: bool, b: bool, c: bool, d: seq<string>): seq<string> {
    (if a then [] else ["summary"]) + (if b then [] else ["description"]) + (if c then [] else ["tags"]) + d
  }

  /** Exactly when the gate's verdict on an operation is the same before and after enrichment. */
  lemma GateUnchangedIff(o: Operation, service: string)
    ensures Missing(o.(doc := Ensured(o, service)), service) == Missing(o, service) <==> Unmaskable(o)
  {
    hide InferredTag, GeneratedSummary, GeneratedDescription, HasErrorResponse, HasSuccess, HasAuthoredError, Authored;
    GeneratedIgnoresCase(o, service);
    var after := Ensured(o, service);
    var summary, description := Str(GeneratedSummary(o.method_, o.path)),
        Str(GeneratedDescription(o.method_, o.path, service));
    var tags := Arr([Str(InferredTag(o.path))]);
    TextGapUnchangedIff(o.path, o.doc.summary, summary);
    TextGapUnchangedIff(o.path, o.doc.description, description);
    TextGapUnchangedIff(o.path, o.doc.tags, tags);
    ResponseGapsUnchangedIff(o, service);
    GapListsEqualIff(Authored(o.path, o.doc.summary, summary), Authored(o.path, o.doc.description, description),
                     Authored(o.path, o.doc.tags, tags), ResponseGaps(o.path, o.doc.responses),
                     Authored(o.path, after.summary, summary), Authored(o.path, after.description, description),
                     Authored(o.path, after.tags, tags), ResponseGaps(o.path, after.responses));
  }

  /** An operation with an empty response dictionary, whose missing responses the gate no longer reports once the
      default error was added. */
  lemma EmptyResponsesMasked(service: string)
    ensures var o := Operation("get", "/x", Null, Documentation(Str("s"), Str("d"), Arr([Str("t")]), Some([]), None));
            "responses" in Missing(o, service) && "responses" !in Missing(o.(doc := Ensured(o, service)), service)
  {
    hide InferredTag, GeneratedSummary, GeneratedDescription;
    var o := Operation("get", "/x", Null, Documentation(Str("s"), Str("d"), Arr([Str("t")]), Some([]), None));
    GateUnchangedIff(o, service);
    var added := [Entry("default", Obj([Entry("description", Str(GENERATED_ERROR))]))];
    assert [] + added == added && !HasErrorResponse([]);
    assert Ensured(o, service).responses == Some(added);
    assert "responses" !in ResponseGaps(o.path, Some(added));
  }

  /** An operation of an infrastructure path without a summary, which the gate no longer reports once one was
      generated. */
  lemma InfrastructureTextMasked(service: string)
    ensures var o := Operation("get", "/metrics", Null, Documentation(Null, Str("d"), Arr([Str("t")]), None, None));
            "summary" in Missing(o, service) && "summary" !in Missing(o.(doc := Ensured(o, service)), service)
  {
    hide InferredTag, GeneratedSummary, GeneratedDescription;
    var o := Operation("get", "/metrics", Null, Documentation(Null, Str("d"), Arr([Str("t")]), None, None));
    GeneratedIgnoresCase(o, service);
    var after := Ensured(o, service);
    assert Truthy(after.summary) && Authored(o.path, after.summary, Str(GeneratedSummary(Text.Upper("get"), o.path)));
    assert ResponseGaps(o.path, after.responses) == ["responses"] && "responses"[0] == 'r' && "summary"[0] == 's';
  }

  lemma GeneratedIgnoresCase(o: Operation, service: string)
    ensures GeneratedSummary(Text.Upper(o.method_), o.path) == GeneratedSummary(o.method_, o.path)
    ensures GeneratedDescription(Text.Upper(o.method_), o.path, service)
        == GeneratedDescription(o.method_, o.path, service)
    ensures GeneratedSummary(o.method_, o.path) != "" && GeneratedDescription(o.method_, o.path, service) != ""
  {
  }

  function EnrichOperations(operations: seq<Operation>, service: string): (r: seq<Operation>)
    ensures |r| == |operations|
    ensures forall i :: 0 <= i < |r| ==> r[i] == operations[i].(doc := Ensured(operations[i], service))
  {
    if operations == [] then []
    else [operations[0].(doc := Ensured(operations[0], service))] + EnrichOperations(operations[1..], service)
  }

  /** Outside the two exceptions, the gate's whole report on the enriched document is its report on the authored one,
      the duplicate operation ids included. */
  lemma {:induction false} ReportUnchanged(operations: seq<Operation>, service: string, show: Value -> string)
    requires forall o :: o in operations ==> Unmaskable(o)
    ensures AllMissing(EnrichOperations(operations, service), service) == AllMissing(operations, service)
    ensures OperationIds(EnrichOperations(operations, service), show) == OperationIds(operations, show)
  {
    hide Ensured, Missing, Unmaskable;
    if operations != [] {
      assert operations[0] in operations;
      GateUnchangedIff(operations[0], service);
      ReportUnchanged(operations[1..], service, show);
    }
  }

  /** Enriching an enriched operation changes nothing. */
  lemma EnsuredIdempotent(o: Operation, service: string)
    ensures Ensured(o.(doc := Ensured(o, service)), service) == Ensured(o, service)
  {
    hide InferredTag, GeneratedSummary, GeneratedDescription, EnsuredParameter;
    GeneratedIgnoresCase(o, service);
    if o.doc.responses.Some? && !HasErrorResponse(o.doc.responses.value) {
      var responses := Ensured(o, service).responses.value;
      assert responses[|responses| - 1].key == "default";
    }
    if o.doc.parameters.Some? {
      ParametersIdempotent(o.doc.parameters.value);
    }
  }

  lemma ParametersIdempotent(parameters: seq<Value>)
    ensures EnsuredParameters(EnsuredParameters(parameters)) == EnsuredParameters(parameters)
  {
    hide EnsuredParameter;
    forall p ensures EnsuredParameter(EnsuredParameter(p)) == EnsuredParameter(p) {
      ParameterIdempotent(p);
    }
  }
}
