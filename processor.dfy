/** `AIProcessor._parse_response` (the definition Python binds, the second
    one): from the model's reply to the parsed JSON value with its diagram
    cleaned, or to the message of the `ValueError` it raises. */
module Processor {
  import opened Wrappers
  import opened PyStr
  import opened JsonValue
  import opened Cleanup
  import opened Diagram

  /** The `TypeError` or `AttributeError` Python raises when the parsed
      value does not have the shape the clean-up expects. */
  datatype Fault =
    | NotIterable(typeName: string)   // 'diagram' in <number, bool or None>
    | ListIndex                       // <list>['diagram']
    | StringIndex                     // <str>['diagram']
    | NoStrip(typeName: string)       // <non-str>.strip(...)

  datatype Error =
    | StructureNotFound
    | InvalidJson(reason: string)
    | TypeFault(fault: Fault)

  datatype Outcome = Success(data: Json) | Failure(error: Error)

  /** The interpreter's text for a fault, as CPython 3.11 words it. */
  function FaultText(f: Fault): string {
    match f
    case NotIterable(t) => "argument of type '" + t + "' is not iterable"
    case ListIndex => "list indices must be integers or slices, not str"
    case StringIndex => "string indices must be integers, not 'str'"
    case NoStrip(t) => "'" + t + "' object has no attribute 'strip'"
  }

  /** The text of the `ValueError` the caller sees. A decode error raised by
      the second parse escapes the inner handler and reaches the outer
      `except json.JSONDecodeError`, so it is not wrapped a second time;
      everything else passes through `except Exception`. */
  function Message(e: Error): (m: string)
    ensures StartsWith(m, "Invalid JSON format: ") <==> e.InvalidJson?
    ensures StartsWith(m, "Error processing response: ") <==> !e.InvalidJson?
  {
    match e
    case StructureNotFound => Prefixed("Error processing response: ", "No valid JSON structure found")
    case InvalidJson(reason) => Prefixed("Invalid JSON format: ", reason)
    case TypeFault(f) => Prefixed("Error processing response: ", FaultText(f))
  }

  function Prefixed(p: string, t: string): (m: string)
    requires p != []
    ensures StartsWith(m, p) && m[0] == p[0]
  {
    assert (p + t)[..|p|] == p;
    p + t
  }

  // ---------------------------------------------------------------------
  // What the method computes, stage by stage

  /** Lines 225-239: the first parse, and on its failure the second parse
      of the retried text. */
  function TwoAttempts(jsonText: string, parse: Parser): ParseResult {
    if parse(jsonText).Parsed? then parse(jsonText) else parse(RetryText(jsonText))
  }

  /** The outcome of parsing the reply's JSON region: `None` when there is
      no region. */
  function Decoded(reply: string, parse: Parser): Option<ParseResult> {
    match ExtractRegion(Cleaned(reply))
    case None => None
    case Some(region) => Some(TwoAttempts(JsonText(region), parse))
  }

  /** `'diagram' in data` followed by `data['diagram'].strip(...)` faults. */
  predicate Faulty(v: Json) {
    match v
    case JObject(fields) => "diagram" in fields && !fields["diagram"].JString?
    case JArray(elems) => JString("diagram") in elems
    case JString(s) => Contains(s, "diagram")
    case _ => true
  }

  /** The fault a faulty value raises. */
  function FaultOf(v: Json): Fault
    requires Faulty(v)
  {
    match v
    case JObject(fields) => NoStrip(TypeName(fields["diagram"]))
    case JArray(_) => ListIndex
    case JString(_) => StringIndex
    case _ => NotIterable(TypeName(v))
  }

  /** `w` is `v` with the diagram of an object cleaned and nothing else
      changed. */
  predicate DiagramCleaned(v: Json, w: Json) {
    if v.JObject? && "diagram" in v.fields && v.fields["diagram"].JString? then
      w.JObject? && w.fields.Keys == v.fields.Keys &&
      (forall k :: k in v.fields && k != "diagram" ==> w.fields[k] == v.fields[k]) &&
      w.fields["diagram"] == JString(CleanDiagram(v.fields["diagram"].s))
    else w == v
  }

  /** Lines 205-224: the reply's JSON region, normalised, or `None` when the
      cleaned reply lacks a brace. */
  method ExtractJsonText(responseText: string) returns (r: Option<string>)
    ensures r.None? <==> '{' !in Cleaned(responseText) || '}' !in Cleaned(responseText)
    ensures r.Some? ==> r == Some(JsonText(ExtractRegion(Cleaned(responseText)).value))
    ensures r.Some? ==> SingleSpaced(r.value)
  {
    // Line 205, then line 208.
    var cleanedText := StripFences(responseText);
    cleanedText := RewriteBacktickDiagram(cleanedText);

    // Lines 211-217.
    var startIdx := Find(cleanedText, '{');
    var endIdx := RFind(cleanedText, '}');
    if startIdx == -1 || endIdx == -1 {
      return None;
    }
    var jsonStr := if startIdx <= endIdx then cleanedText[startIdx..endIdx + 1] else [];
    assert ExtractRegion(cleanedText) == Some(jsonStr);
    var region := jsonStr;

    // Line 220, then lines 223-224.
    jsonStr := CollapseWhitespace(jsonStr);
    jsonStr := Replace(jsonStr, "\\\"", "\"");
    jsonStr := Replace(jsonStr, "\"\"", "\"");
    assert jsonStr == JsonText(region);
    JsonTextSingleSpaced(region);
    return Some(jsonStr);
  }

  /** Lines 226-239: parse, and on a decode error parse the retried text. */
  method ParseWithRetry(jsonStr: string, parse: Parser) returns (r: ParseResult)
    ensures parse(jsonStr).Parsed? ==> r == parse(jsonStr)
    ensures parse(jsonStr).Malformed? ==> r == parse(RetryText(jsonStr))
  {
    var text := jsonStr;
    var attempt := parse(text);
    if attempt.Malformed? {
      text := RetryRewrite(text);
      text := Replace(text, "\n", " ");
      attempt := parse(text);
    }
    return attempt;
  }

  /** Lines 245-264: the diagram text, step by step. */
  method CleanDiagramText(diagram: string) returns (text: string)
    ensures text == CleanDiagram(diagram)
    ensures WellFormed(text)
  {
    text := StripQuotes(diagram);
    text := UnescapeNewlines(text);
    text := EnsureHeader(text);
    text := AddStyle(text, LiveStyle);
    text := TrimLines(text);
  }

  lemma UpdateCleans(fields: map<string, Json>, text: string)
    requires "diagram" in fields && fields["diagram"].JString?
    requires text == CleanDiagram(fields["diagram"].s)
    ensures DiagramCleaned(JObject(fields), JObject(fields["diagram" := JString(text)]))
  {
    UpdateDiagram(fields, text);
  }

  /** Writing `data['diagram']` changes that entry only. */
  lemma UpdateDiagram(fields: map<string, Json>, text: string)
    requires "diagram" in fields
    ensures var w := fields["diagram" := JString(text)];
      w.Keys == fields.Keys && w["diagram"] == JString(text) &&
      forall k :: k in fields && k != "diagram" ==> w[k] == fields[k]
  {
  }

  /** Lines 242-267 for a dictionary. */
  method CleanObjectDiagram(fields: map<string, Json>) returns (r: Outcome)
    ensures Faulty(JObject(fields)) ==> r == Failure(TypeFault(FaultOf(JObject(fields))))
    ensures !Faulty(JObject(fields)) ==> r.Success? && DiagramCleaned(JObject(fields), r.data)
    ensures r.Success? ==> r.data.JObject?
    ensures r.Success? && "diagram" in r.data.fields ==>
      r.data.fields["diagram"].JString? && WellFormed(r.data.fields["diagram"].s)
  {
    if "diagram" in fields {
      var diagram := fields["diagram"];
      if !diagram.JString? {
        return Failure(TypeFault(NoStrip(TypeName(diagram))));
      }
      var text := CleanDiagramText(diagram.s);
      var updated := fields["diagram" := JString(text)];
      UpdateCleans(fields, text);
      return Success(JObject(updated));
    }
    return Success(JObject(fields));
  }

  /** Lines 242-267: clean the diagram of a parsed dictionary in place. */
  method CleanParsedDiagram(data: Json) returns (r: Outcome)
    ensures Faulty(data) ==> r == Failure(TypeFault(FaultOf(data)))
    ensures !Faulty(data) ==> r.Success? && DiagramCleaned(data, r.data)
    ensures r.Success? && r.data.JObject? && "diagram" in r.data.fields ==>
      r.data.fields["diagram"].JString? && WellFormed(r.data.fields["diagram"].s)
  {
    match data {
      case JObject(fields) =>
        r := CleanObjectDiagram(fields);
      case JArray(elems) =>
        if JString("diagram") in elems {
          return Failure(TypeFault(ListIndex));
        }
        return Success(data);
      case JString(s) =>
        if Contains(s, "diagram") {
          return Failure(TypeFault(StringIndex));
        }
        return Success(data);
      case _ =>
        return Failure(TypeFault(NotIterable(TypeName(data))));
    }
  }

  /** Lines 195-283. */
  method ParseResponse(responseText: string, parse: Parser) returns (r: Outcome)
    ensures r == Failure(StructureNotFound) <==>
      '{' !in Cleaned(responseText) || '}' !in Cleaned(responseText)
    ensures Decoded(responseText, parse).Some? && Decoded(responseText, parse).value.Malformed? <==>
      r.Failure? && r.error.InvalidJson?
    ensures r.Failure? && r.error.InvalidJson? ==>
      r.error.reason == Decoded(responseText, parse).value.reason
    ensures Decoded(responseText, parse).Some? && Decoded(responseText, parse).value.Parsed? ==>
      var v := Decoded(responseText, parse).value.value;
      (Faulty(v) ==> r == Failure(TypeFault(FaultOf(v)))) &&
      (!Faulty(v) ==> r.Success? && DiagramCleaned(v, r.data))
    ensures r.Success? && r.data.JObject? && "diagram" in r.data.fields ==>
      r.data.fields["diagram"].JString? && WellFormed(r.data.fields["diagram"].s)
  {
    var jsonStr := ExtractJsonText(responseText);
    if jsonStr.None? {
      return Failure(StructureNotFound);
    }
    var attempt := ParseWithRetry(jsonStr.value, parse);
    assert Decoded(responseText, parse) == Some(attempt);
    if attempt.Malformed? {
      return Failure(InvalidJson(attempt.reason));
    }
    r := CleanParsedDiagram(attempt.value);
  }
}
