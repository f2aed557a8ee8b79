# Response normaliser and keyword validator of the architecture assistant

The assistant sends a description of a system to a language model. The
model answers with a JSON object that also carries a Mermaid diagram. This
project models the part of `AIProcessor` that turns that reply into data:

- `_parse_response`, the definition Python actually binds (the second one).
  It strips code fences, rewrites a diagram quoted in backticks into a JSON
  string, and cuts out the text from the first `{` to the last `}`. It then
  collapses whitespace and unescapes quotes, parses the text, and retries the
  parse once after one more rewrite. Finally it cleans the `diagram` entry:
  it strips quotes, unescapes `\n`, adds the `graph TD` header and the style
  block, and trims every line.
- `_format_mermaid`, the older diagram formatter. It also runs a repair of
  labelled arrows (line 183). `Diagram.FormatMermaid` models it as written;
  `Diagram.FormatMermaidIntended` uses the corrected arrow pattern of the
  finding below.
- `_validate_keywords`, which reports for each of nine architecture
  categories the keywords the diagram does not mention, ignoring case.

Modules:

- `PyStr`: the Python `str` operations used (`isspace`, `strip`, `replace`,
  `find`, `rfind`, `in`, `split`/`join` on newlines, `lower`).
- `Regex`: `re.sub` as a left-to-right scan with a matcher function.
- `Cleanup`: each regular-expression step of the reply clean-up as a
  hand-written matcher. The fence and backtick-diagram matchers are proved
  against a declarative description of what their pattern matches, in both
  directions.
- `Diagram`: the diagram clean-up and `_format_mermaid`.
- `Keywords`: the validator.
- `JsonValue`: the values `json.loads` builds.
- `Processor`: `_parse_response` itself, as imperative methods proved
  against the functions above.

`json.loads` is not modelled. It is a parameter `parse: string ->
ParseResult`, so every statement about the parser's output holds for any
parser.

Facts about the code that the model keeps, where a reader might expect
otherwise:

- The labelled-arrow repair is not part of the live normalisation. Only
  `_format_mermaid` runs it. That method has no `self` and is called only
  from the first `_parse_response`, which the second definition replaces.
  So `Diagram.CleanDiagram` has no arrow repair, and `Diagram.FormatMermaid`
  has it, with the pattern exactly as line 183 writes it.
- When both parses fail, the error raised is that of the second parse, not
  the first: `Processor.Decoded` carries the second reason.
- Neither core function turns single-dash arrows into spaces.
- The validator does not ask for at least one keyword per category. It
  reports a category as soon as any one of its keywords is missing, and lists
  all the missing ones (`Keywords.ValidateKeywords`).
- Fence stripping is not idempotent: `Cleanup.FencesNotIdempotent` shows a
  reply (two backticks, a space, four backticks) that leaves a fence after
  one pass, which a second pass removes.
- The diagram clean-up is not idempotent either: `Diagram.CleanNotIdempotent`
  shows that `graph'` followed by a space becomes `graph'`, which a second
  pass turns into `graph`. The quote strip works on the ends of the whole
  text, and the line trimming afterwards can expose a quote at the end. The
  clean-up is a fixed point only on diagrams that are already clean
  (`Diagram.CleanDiagramFixedPoint`): well formed, no quote or backtick at
  either end, no `\n` escape, and either the style block present or no
  `graph TD` to place it after.

## Model

| member | source | states |
|---|---|---|
| PyStr.Find | src/llm_processes.py:211 | `find("{")` is -1 exactly when the character is absent, else the first index holding it |
| PyStr.RFind | src/llm_processes.py:212 | `rfind("}")` is -1 exactly when absent, else the last index holding it |
| PyStr.FindFrom | src/llm_processes.py:211 | the first index at or after the start holding the character, or -1 exactly when there is none |
| PyStr.IsSpace | src/llm_processes.py:220 | the characters `\s` and `strip()` treat as whitespace: tab to carriage return, the separators 0x1C-0x1F, space, 0x85, no-break space and the Unicode spaces CPython's `str.isspace` accepts |
| PyStr.Contains | src/llm_processes.py:260 | `p in s`: the text starts with the word here or further on; `OccursAtContains`, `CharAbsent` and `ContainsChar` prove it against an occurrence at an index and against a character missing from the text |
| PyStr.ReplaceAbsent | src/llm_processes.py:249 | `replace` with a pattern that does not occur returns the text unchanged |
| PyStr.Replace | src/llm_processes.py:223-224 | `str.replace` with a non-empty pattern: occurrences are replaced left to right without overlap; its partners are `ReplaceAbsent`, `ReplaceIntroduces`, `ReplaceKeepsOut` and `ReplaceCopiesPrefix` |
| PyStr.ReplaceIntroduces | src/llm_processes.py:261 | where the pattern occurs, the replacement appears in the result |
| PyStr.ReplaceKeepsOut | src/llm_processes.py:223-224 | a character in neither the text nor the replacement is not in the result |
| PyStr.ReplaceCopiesPrefix | src/llm_processes.py:261 | a prefix with no first character of the pattern is copied unchanged |
| PyStr.LStripBy | src/llm_processes.py:246 | `lstrip(chars)` removes only a leading run of the given characters and stops at a kept one |
| PyStr.RStripBy | src/llm_processes.py:246 | `rstrip(chars)` removes only a trailing run of the given characters and stops at a kept one |
| PyStr.StripByShape | src/llm_processes.py:246 | `strip(chars)` is a slice of the text with dropped characters only on either side and kept characters at both ends |
| PyStr.StripBy | src/llm_processes.py:246 | `strip(chars)`: `lstrip` then `rstrip` with the same set; `StripByShape` is its partner |
| PyStr.StripStartsWith | src/llm_processes.py:252 | for a word ending in a non-space, `strip().startswith(p)` is `lstrip().startswith(p)` |
| PyStr.LStripStartsWith | src/llm_processes.py:252 | the left-stripped text starts with a word exactly when the text is whitespace followed by that word |
| PyStr.StripIdempotent | src/llm_processes.py:264 | stripping twice is stripping once |
| PyStr.Strip | src/llm_processes.py:252 | `strip()` with no argument: `strip(chars)` with the whitespace test; `StripByShape`, `StripStartsWith` and `StripIdempotent` state what it keeps |
| PyStr.SplitLines | src/llm_processes.py:264 | `split('\n')` is never empty and no piece holds a newline |
| PyStr.JoinSplit | src/llm_processes.py:264 | joining the pieces of a split with newlines gives the text back |
| PyStr.SplitJoin | src/llm_processes.py:264 | splitting a join of newline-free lines gives the lines back |
| PyStr.JoinLines | src/llm_processes.py:264 | `'\n'.join(lines)`; `JoinSplit` and `SplitJoin` show it inverts `split('\n')` both ways |
| PyStr.Lower | src/llm_processes.py:300 | `lower()` keeps the length and lower-cases each character |
| PyStr.LowerIdempotent | src/llm_processes.py:300 | lower-casing twice is lower-casing once |
| Regex.SubCopies | src/llm_processes.py:205 | where the pattern matches nowhere in a stretch, `re.sub` copies that stretch |
| Regex.Sub | src/llm_processes.py:205 | `re.sub` over the whole text, for a matcher whose matches are non-empty and inside the text; `SubCopies`, `SubNoMatch`, `SubKeepsOut` and `SubFilter` state what it copies and what it keeps |
| Regex.SubFrom | src/llm_processes.py:205 | the `re.sub` scan from an index: at a match it emits the replacement and resumes at the match's end, otherwise it copies one character and moves on |
| Regex.SubFirstMatch | src/llm_processes.py:205 | the first match the scan reaches is replaced, the text before it is copied, and the scan resumes at the match's end |
| Regex.SubNoMatch | src/llm_processes.py:205 | a text in which the pattern never matches is returned unchanged |
| Regex.SubKeepsOut | src/llm_processes.py:237 | a character absent from the text and from every replacement is absent from the result |
| Regex.SubFilter | src/llm_processes.py:220 | if each replacement keeps exactly the chosen characters of its match, so does the whole substitution |
| Cleanup.SkipSpace | src/llm_processes.py:205 | greedy `\s*`: the run it consumes is all whitespace and is followed by a non-space or the end |
| Cleanup.FenceAt | src/llm_processes.py:205 | a fence match is non-empty, inside the text, and replaced by nothing |
| Cleanup.FenceAtLongest | src/llm_processes.py:205 | the match at an index is a fence and the longest one starting there; with no match, no fence starts there |
| Cleanup.StripFences | src/llm_processes.py:205 | line 205: every fence match is deleted in one pass; `StripFencesNoBacktick` and `FencesNotIdempotent` are its partners |
| Cleanup.StripFencesNoBacktick | src/llm_processes.py:205 | a reply without a backtick has no fence to remove |
| Cleanup.FencesNotIdempotent | src/llm_processes.py:205 | two backticks, a space and four backticks give three backticks, which a second pass removes |
| Cleanup.FirstClose | src/llm_processes.py:208 | the closing backtick it finds lies at or after the start and is followed by whitespace and `,` or `}` |
| Cleanup.FirstCloseFirst | src/llm_processes.py:208 | lazy `[\s\S]*?`: no closing backtick lies between the start and the one found, and when none is found there is none at or after the start |
| Cleanup.BacktickDiagramAt | src/llm_processes.py:208 | a backtick-diagram match is non-empty and inside the text |
| Cleanup.BacktickDiagramShape | src/llm_processes.py:208 | a match is an `IsBacktickDiagram`: a colon, whitespace, a backtick, whitespace, `graph TD`, then the lazy body up to the first closing backtick (a backtick, whitespace, then `,` or `}`); it becomes a colon, a space and the captured text in double quotes, then the delimiter |
| Cleanup.BacktickDiagramFound | src/llm_processes.py:208 | the converse: wherever an `IsBacktickDiagram` stands at an index, the engine matches it there, up to its first closing backtick, and rewrites it as a double-quoted string followed by the delimiter |
| Cleanup.RewriteFirstDiagram | src/llm_processes.py:208 | the first backtick diagram the scan reaches is rewritten: the text before it is copied, the diagram becomes a double-quoted string with its delimiter, and the scan resumes after the delimiter |
| Cleanup.RewriteBacktickDiagram | src/llm_processes.py:208 | line 208 as a left-to-right scan with the backtick-diagram matcher; `BacktickDiagramShape` and `BacktickDiagramFound` tie each match to the pattern both ways, `RewriteFirstDiagram` and `RewriteNoBacktick` state what the scan does to a whole reply |
| Cleanup.Cleaned | src/llm_processes.py:205-208 | the fence strip then the backtick rewrite, the text the brace search sees; see `CleanedNoBacktick` |
| Cleanup.RewriteNoBacktick | src/llm_processes.py:208 | a reply without a backtick is not rewritten |
| Cleanup.CleanedNoBacktick | src/llm_processes.py:205-208 | a reply without a backtick goes to the brace search unchanged |
| Cleanup.ExtractRegion | src/llm_processes.py:211-217 | there is no region ("No valid JSON structure found") exactly when a `{` or a `}` is missing |
| Cleanup.RegionOutermost | src/llm_processes.py:211-217 | with the first `{` before the last `}`, the region runs from the one to the other, both included |
| Cleanup.RegionCrossed | src/llm_processes.py:217 | when the last `}` comes before the first `{`, the slice is empty, not an error |
| Cleanup.SpaceRunAt | src/llm_processes.py:220 | a `\s+` match is a non-empty run of whitespace replaced by one space |
| Cleanup.CollapseWhitespace | src/llm_processes.py:220 | `re.sub(r'\s+', ' ', ...)`; `CollapseSingleSpaced`, `CollapseKeepsText` and `CollapseSingleSpacedFixed` are its partners |
| Cleanup.CollapseSingleSpaced | src/llm_processes.py:220 | after the collapse no two whitespace characters are adjacent and every whitespace character is a space |
| Cleanup.CollapseKeepsText | src/llm_processes.py:220 | the collapse keeps every non-space character, in order |
| Cleanup.CollapseSingleSpacedFixed | src/llm_processes.py:220 | a single-spaced text is left alone by the collapse |
| Cleanup.UnescapeQuotes | src/llm_processes.py:223-224 | the two quote replacements in order, backslash-quote first; `UnescapeSingleSpaced` is its partner |
| Cleanup.JsonText | src/llm_processes.py:220-224 | the collapse then the quote unescaping, the text of the first parse; `JsonTextSingleSpaced` is its partner |
| Cleanup.UnescapeSingleSpaced | src/llm_processes.py:223-224 | the two quote replacements keep a text single-spaced |
| Cleanup.JsonTextSingleSpaced | src/llm_processes.py:217-224 | the text given to the first parse is single-spaced |
| Cleanup.RetryAt | src/llm_processes.py:237 | a retry match is non-empty and inside the text, starts at a colon and ends at a double quote |
| Cleanup.RetryKeepsText | src/llm_processes.py:237 | the retry rewrite changes only whitespace: every other character stays, in order |
| Cleanup.RetryNoDiagram | src/llm_processes.py:237 | a text without `graph TD` is not touched by the retry rewrite |
| Cleanup.RetryRewrite | src/llm_processes.py:237 | line 237's substitution; `RetryAt`, `RetryKeepsText` and `RetryNoDiagram` are its partners |
| Cleanup.RetryText | src/llm_processes.py:237-238 | line 237 then the newline replacement of line 238, the text of the second parse; `RetryTextNoNewline` is its partner |
| Cleanup.RetryTextNoNewline | src/llm_processes.py:237-238 | on single-spaced text the newline replacement of the retry does nothing |
| Diagram.StripQuotes | src/llm_processes.py:246 | after `` strip('"`\'') `` neither end is a quote or backtick |
| Diagram.IsQuoteChar | src/llm_processes.py:246 | the character set of `` strip('"`\'') ``: double quote, backtick, single quote |
| Diagram.StripQuotesRemovesEnds | src/llm_processes.py:246 | the result is a slice of the text, and only quotes and backticks were cut from either side |
| Diagram.UnescapeLeavesNoEscape | src/llm_processes.py:249 | after `replace('\\n', '\n')` no backslash-n escape is left, even after a backslash |
| Diagram.UnescapeNewlines | src/llm_processes.py:249 | `replace('\\n', '\n')`; `UnescapeLeavesNoEscape` is its partner |
| Diagram.HeaderSplit | src/llm_processes.py:252 | a text with a header is whitespace followed by `graph` |
| Diagram.HeaderJoin | src/llm_processes.py:252 | whitespace followed by `graph` is a header |
| Diagram.HasHeader | src/llm_processes.py:252 | `diagram.strip().startswith('graph')`; `HeaderSplit` and `HeaderJoin` characterise it both ways |
| Diagram.EnsureHeader | src/llm_processes.py:252-253 | the result has the header; it equals the input exactly when the input had one; otherwise it is `graph TD` and a newline in front of the input |
| Diagram.AddStyleFrame | src/llm_processes.py:260-261 | with the marker present, or no `graph TD`, the style step changes nothing |
| Diagram.AddStyleInserts | src/llm_processes.py:260-261 | without the marker, and with a `graph TD`, the result holds `graph TD`, a newline and the style block |
| Diagram.AddStyleIdempotent | src/llm_processes.py:260-261 | a style block holding the marker is added at most once |
| Diagram.AddStyleKeepsHeader | src/llm_processes.py:252-261 | the style step keeps the header |
| Diagram.AddStyle | src/llm_processes.py:260-261 | the marker test then the replacement of `graph TD`; `AddStyleFrame`, `AddStyleInserts`, `AddStyleIdempotent` and `AddStyleKeepsHeader` are its partners |
| Diagram.StripAll | src/llm_processes.py:264 | each line is replaced by its stripped form and the line count is kept |
| Diagram.TrimmedLines | src/llm_processes.py:264 | the trimmed text has the same number of lines, each the original line stripped and none with whitespace at an end |
| Diagram.TrimLinesIdempotent | src/llm_processes.py:264 | trimming the lines a second time changes nothing |
| Diagram.TrimLinesCons | src/llm_processes.py:264 | trimming is the first line stripped, a newline, then the rest trimmed |
| Diagram.TrimLinesKeepsHeader | src/llm_processes.py:252-264 | trimming the lines keeps the header |
| Diagram.TrimLinesFixed | src/llm_processes.py:264 | a text whose lines are all stripped is its own trimming |
| Diagram.TrimLines | src/llm_processes.py:264 | every line stripped and the lines joined again; `TrimmedLines`, `TrimLinesIdempotent`, `TrimLinesCons` and `TrimLinesFixed` are its partners |
| Diagram.WrittenArrowAt | src/llm_processes.py:183 | a match of the pattern as written starts with two dashes and a pipe right after them, holds a label of at least one character, ends in a pipe and `>`, and is replaced by itself without the last `>` |
| Diagram.WrittenMissesExample | src/llm_processes.py:183 | the pattern as written leaves `ArrowExample` (an arrow with a head, the label `go` between pipes, then a stray `>`) unchanged |
| Diagram.RepairArrowsAsWritten | src/llm_processes.py:183 | line 183 as written, `re.sub` with the written pattern; `WrittenRepairKeepsText`, `WrittenRepairFrame`, `WrittenRepairKeepsHeader` and `WrittenMissesExample` are its partners |
| Diagram.WrittenArrowIsDefect | src/llm_processes.py:183 | the written pattern matches exactly the texts `IsWrittenDefect` describes (two dashes and a pipe, a label without a pipe, then a pipe and `>`), and at such a text gives the unique match |
| Diagram.WrittenDefectIsArrowDefect | src/llm_processes.py:183 | every text the written pattern matches is a defect the intended pattern matches too |
| Diagram.WrittenRepairKeepsText | src/llm_processes.py:183 | the repair as written removes `>` characters only and keeps every other character in order |
| Diagram.WrittenRepairFrame | src/llm_processes.py:183 | a diagram in which no pipe is followed by `>` is not changed by the repair as written |
| Diagram.WrittenRepairKeepsHeader | src/llm_processes.py:179-183 | the repair as written keeps the header |
| Diagram.LabelledArrowAt | src/llm_processes.py:183 | a match of the intended pattern starts with `--`, ends in a pipe and `>`, and is replaced by itself without the `>` |
| Diagram.LabelledArrowIsDefect | src/llm_processes.py:183 | the intended pattern matches exactly the labelled arrows with a stray `>`, and at a defect gives the unique match |
| Diagram.RepairLabelledArrows | src/llm_processes.py:183 | line 183 with the intended pattern; `RepairKeepsText`, `RepairFrame`, `RepairKeepsHeader` and `RepairExample` are its partners |
| Diagram.RepairKeepsText | src/llm_processes.py:183 | the arrow repair removes `>` characters only and keeps every other character in order |
| Diagram.RepairFrame | src/llm_processes.py:183 | a diagram in which no pipe is followed by `>` is not changed by the repair |
| Diagram.RepairKeepsHeader | src/llm_processes.py:179-183 | the arrow repair keeps the header |
| Diagram.ExampleArrowAt | src/llm_processes.py:183 | in `ArrowExample` the intended pattern matches the whole arrow, from index 5 to index 13 |
| Diagram.RepairExample | src/llm_processes.py:183 | the intended repair removes exactly the stray `>` from `ArrowExample`, and the result is the arrow with its label and no stray `>` |
| Diagram.CleanDiagram | src/llm_processes.py:242-264 | the cleaned diagram has the header and no line with whitespace at an end |
| Diagram.CleanDiagramFixedPoint | src/llm_processes.py:242-264 | a well-formed diagram with no quote at an end, no `\n` escape, and its style block present (or no `graph TD`) is left unchanged |
| Diagram.CleanNotIdempotent | src/llm_processes.py:245-264 | `graph'` and a space is cleaned to `graph'`, which a second clean-up turns into `graph`, so the clean-up is not idempotent |
| Diagram.CleanPlain | src/llm_processes.py:245-264 | a diagram with a header after the quote strip and with no backslash and no `T` is only quote-stripped and trimmed |
| Diagram.FormatMermaid | src/llm_processes.py:174-193 | `_format_mermaid` as written, with line 183's own pattern: the formatted diagram has the header and no line with whitespace at an end |
| Diagram.FormatMermaidIntended | src/llm_processes.py:174-193 | the same pipeline with the intended arrow pattern of line 183: the result has the header and no line with whitespace at an end |
| Keywords.Missing | src/llm_processes.py:300 | the missing keywords are exactly those not mentioned, kept in the declared order; the list is empty exactly when all are mentioned |
| Keywords.Mentions | src/llm_processes.py:300 | `k.lower() in diagram.lower()`; `ValidateIgnoresCase` and `SameMentions` are its partners |
| Keywords.ValidateFrom | src/llm_processes.py:300-301 | the comprehension's filter: no category is reported with an empty list |
| Keywords.ValidateFromEntry | src/llm_processes.py:300-301 | over any table with distinct names, a category is reported exactly when it has a missing keyword, and then with exactly its missing list |
| Keywords.ValidateFromNames | src/llm_processes.py:300-301 | every reported name is the name of a category of the table |
| Keywords.ValidateFromAbsent | src/llm_processes.py:300-301 | a name no category of the table has is never reported |
| Keywords.RequiredDistinct | src/llm_processes.py:288-298 | the nine category names of the table are pairwise different, so no entry of the report overwrites another |
| Keywords.ValidateKeywords | src/llm_processes.py:286-308 | each of the nine categories is reported exactly when one of its keywords is not mentioned, with that list; nothing else is reported |
| Keywords.ValidateAllPresent | src/llm_processes.py:300-308 | a diagram mentioning every keyword gives an empty report |
| Keywords.ValidateEmpty | src/llm_processes.py:300-301 | an empty diagram has every category reported with all its keywords |
| Keywords.NoneMentioned | src/llm_processes.py:300 | when no keyword is mentioned, all of them are missing |
| Keywords.ValidateIgnoresCase | src/llm_processes.py:300-301 | lower-casing the diagram first does not change the report |
| Keywords.SameMentions | src/llm_processes.py:300-301 | two diagrams mentioning the same keywords get the same report |
| JsonValue.TypeName | src/llm_processes.py:242-246 | the type name is `dict` exactly for objects and `str` exactly for strings |
| Processor.Message | src/llm_processes.py:275-283 | the message starts with "Invalid JSON format: " exactly for a decode error, and with "Error processing response: " for every other error |
| Processor.ExtractJsonText | src/llm_processes.py:205-224 | no text exactly when the cleaned reply lacks a brace; otherwise the normalised region, which is single-spaced |
| Processor.TwoAttempts | src/llm_processes.py:225-239 | the first parse, and on its failure the parse of the retried text; `ParseWithRetry` is proved against it |
| Processor.Decoded | src/llm_processes.py:205-239 | nothing when no region is found, otherwise the outcome of the two attempts; `ParseResponse` is proved against it |
| Processor.ParseWithRetry | src/llm_processes.py:226-239 | a successful first parse is kept; otherwise the result is the parse of the retried text |
| Processor.CleanDiagramText | src/llm_processes.py:245-264 | the step-by-step clean-up computes the clean diagram, which is well formed |
| Processor.UpdateDiagram | src/llm_processes.py:267 | writing `data['diagram']` changes that entry only |
| Processor.Faulty | src/llm_processes.py:242-246 | the parsed values on which `'diagram' in data` or `data['diagram'].strip(...)` raises: a dict whose diagram is not a string, a list holding the string `diagram`, a string containing `diagram`, and every number, boolean or null |
| Processor.FaultOf | src/llm_processes.py:242-246 | the fault each faulty value raises, with the type name of the value involved |
| Processor.FaultText | src/llm_processes.py:242-246 | the interpreter's text for each fault, which line 283 wraps |
| Processor.CleanObjectDiagram | src/llm_processes.py:242-267 | for a dict: a non-string diagram fails with the `strip` fault; otherwise only the diagram entry changes and it holds the clean, well-formed text |
| Processor.CleanParsedDiagram | src/llm_processes.py:242-273 | a value without the needed shape fails with its interpreter fault; otherwise the value comes back with only its diagram cleaned |
| Processor.ParseResponse | src/llm_processes.py:195-283 | a structure error exactly when a brace is missing; a JSON error exactly when the final parse failed, with its reason; otherwise the parsed value's fault or the value with its diagram cleaned and well formed |

## Constants

The source's literal data, as constants of the model:

- `Diagram.Marker`, src/llm_processes.py:260: the text `%% Style definitions` whose presence means the style block is already there.
- `Diagram.LiveStyle`, src/llm_processes.py:256-259: the style block the live clean-up inserts after `graph TD`.
- `Diagram.FormatStyle`, src/llm_processes.py:186-189: the style block `_format_mermaid` inserts. It differs from the live one only in the indentation of its last line.
- `Keywords.Required`, src/llm_processes.py:288-298: the nine categories and their keywords, in declared order. `Keywords.RequiredDistinct` proves the names pairwise different.

## Left out

- The Streamlit calls (`st.write`, `st.code`, `st.error`, `st.warning`) only display things. They are not modelled, and neither is the context window sliced around `e.pos` for display.
- `json.loads` is a parameter, not a model of the JSON grammar. The type `Json` keeps a float as its literal text.
- Python `dict` key order is not modelled. The parsed object and the validator's result are `map`s.
- Processor.CleanObjectDiagram: the source writes `data['diagram']` into the dictionary in place. The model returns the updated map, so aliasing of the parsed object is not captured.
- `_generate_prompt`, `analyze_process`, `__init__`, the Groq client call and `app.py` are not part of this model.
- The first, shadowed `_parse_response` (lines 129-172) is dead code and is not modelled. Its only effect is that `_format_mermaid` is dead in practice too; `_format_mermaid` is still modelled in full, as written (`Diagram.FormatMermaid`) and with the corrected arrow pattern (`Diagram.FormatMermaidIntended`).
- PyStr.Lower: lower-cases ASCII letters only. Python's full Unicode case mapping is not modelled.
- Processor.FaultText: the interpreter's messages are written as CPython 3.11 words them. Other versions word them differently.
- Diagram.AddStyleInserts: proves that the style block follows some `graph TD`. It does not prove that every occurrence is followed by it, although `replace` inserts it after each one.
- Cleanup.RetryKeepsText: proves that the retry rewrite changes only whitespace. It does not prove that this whitespace is exactly the run after a colon that opens a string containing `graph TD`.
- Regular expressions are not modelled in general. Each of the five patterns has its own hand-written matcher, with a declarative description for the fence (`Cleanup.IsFence`), the backtick diagram (`Cleanup.IsBacktickDiagram`) and both arrow patterns (line 183 as written: `Diagram.IsWrittenDefect`; as intended: `Diagram.IsArrowDefect`).

## Findings

The arrow repair at line 183 asks for two dashes followed directly by a
pipe, so it never matches an arrow that has a head (`-->`). The constant
`Diagram.ArrowExample` is the arrow `A[X] -->` with the label `go` between
pipes and a stray `>` before ` B[Y]`.

| source | as written | input that shows it | evidently intended | confidence | as-written member | corrected member |
|---|---|---|---|---|---|---|
| src/llm_processes.py:183 | the pattern needs a literal two dashes and a pipe, so it misses labelled arrows with a head | `Diagram.ArrowExample` comes back unchanged, stray `>` included, although the comment at line 182 and the prompt's rule at lines 123-125 say to remove it | an optional head after the two dashes, then the label and its pipes, with the stray `>` removed | not executed | Diagram.WrittenMissesExample | Diagram.RepairExample |

`Diagram.FormatMermaid` keeps line 183 as written, so its arrow repair
leaves the stray `>` of `Diagram.ArrowExample` in place. `Diagram.FormatMermaidIntended` is
the same pipeline with the corrected pattern (`Diagram.RepairLabelledArrows`).
