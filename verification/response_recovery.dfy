/**
 * Recovery of the structured summary from the language model's free-form
 * reply: `_extract_json`, a fixed chain of fallbacks around a JSON parser,
 * and `_validate_response`, which checks and normalises the three fields.
 * The JSON parser itself (Python's `json.loads`) is not modelled: it is a
 * parameter `parse` that yields the decoded value or `None` on a decode error.
 */
module ResponseRecovery {
  import opened Wrappers
  import opened Text
  import opened Sequences

  /** A decoded JSON value as Python holds it. A float keeps Python's
      `repr` of itself; objects are dictionaries. */
  datatype Json =
    | JNull
    | JBool(b: bool)
    | JInt(i: int)
    | JFloat(repr: string)
    | JString(s: string)
    | JArray(items: seq<Json>)
    | JObject(fields: map<string, Json>)

  /** `LLMError`: a message and an HTTP status, 502 unless stated. */
  datatype LlmError = LlmError(message: string, status: int)

  function NewLlmError(message: string): (e: LlmError)
    ensures e.message == message && e.status == 502
  {
    LlmError(message, 502)
  }

  const PARSE_FAILURE: string :=
    "LLM returned a response that could not be parsed as JSON. This is usually transient — please try again."

  // ---------------------------------------------------------------------
  // _extract_json
  // ---------------------------------------------------------------------

  const FENCE: string := "```"

  /** Where the inner text of a fence opened at `i` starts: after the three
      backticks and an immediately following `json` tag, if any. */
  function OpenEnd(t: string, i: int): (p: int)
    ensures p == i + 3 || p == i + 7
  {
    if OccursAt(t, "json", i + 3) then i + 7 else i + 3
  }

  /** `re.search` with the fence pattern ```` ```(?:json)?\s*\n?(.*?)\n?\s*``` ````
      (dot matching newlines), followed by `.strip()` of group 1. The match
      starts at the first fence; its group runs from the end of that fence
      (and of the tag) to the first fence at or after that point, less
      surrounding whitespace, which the strip removes anyway. No closing
      fence means no match: a later opening fence cannot help, since its
      closing fence would close the first one too. `FenceInnerMatches`
      states the result in terms of fence positions. */
  function FenceInner(t: string): (r: Option<string>)
    ensures r.Some? ==> Stripped(r.value)
  {
    var i := FindFrom(t, FENCE, 0);
    if i < 0 then None
    else
      var p := OpenEnd(t, i);
      var c := FindFrom(t, FENCE, p);
      if c < 0 then None else Some(Strip(t[p..c]))
  }

  /** The fence search matches exactly when some fence follows the first
      fence and its tag, and then yields the stripped text between them,
      up to the first such closing fence. */
  lemma FenceInnerMatches(t: string)
    ensures FenceInner(t).Some? <==>
              exists i, c :: FirstOccurrence(t, FENCE, 0, i) && OpenEnd(t, i) <= c && OccursAt(t, FENCE, c)
    ensures forall i, c :: FirstOccurrence(t, FENCE, 0, i) && FirstOccurrence(t, FENCE, OpenEnd(t, i), c) ==>
              FenceInner(t) == Some(Strip(t[OpenEnd(t, i)..c]))
  {
    var i := FindFrom(t, FENCE, 0);
    FindIsFirst(t, FENCE, 0);
    if i >= 0 {
      FindIsFirst(t, FENCE, OpenEnd(t, i));
    }
  }

  /** The text the parse attempts work on: the stripped reply, or the
      stripped inside of its first fenced block. */
  function Payload(text: string): (t: string)
    ensures Stripped(t)
  {
    var t := Strip(text);
    match FenceInner(t)
    case Some(inner) => inner
    case None => t
  }

  /** From the first `{` to the last `}`, both included, when the first
      comes before the last. */
  function BraceSpan(t: string): (r: Option<string>)
    ensures r.Some? ==> |r.value| >= 2 && r.value[0] == '{' && r.value[|r.value| - 1] == '}'
    ensures r.Some? ==> exists a :: SpanAt(t, r.value, a)
    ensures r.None? <==> '{' !in t || '}' !in t || RFindChar(t, '}') < FindChar(t, '{')
  {
    var s := FindChar(t, '{');
    var e := RFindChar(t, '}');
    if s != -1 && e > s then
      SpanWitness(t, s, e);
      Some(t[s..e + 1])
    else None
  }

  /** `span` sits at `a` in `t`, with no `{` before it and no `}` after it. */
  predicate SpanAt(t: string, span: string, a: int) {
    0 <= a && a + |span| <= |t| && t[a..a + |span|] == span
    && '{' !in t[..a] && '}' !in t[a + |span|..]
  }

  lemma SpanWitness(t: string, s: int, e: int)
    requires 0 <= s < e < |t| && t[s] == '{' && t[e] == '}'
    requires '{' !in t[..s] && '}' !in t[e + 1..]
    ensures t[s..e + 1][0] == '{' && t[s..e + 1][e - s] == '}'
    ensures SpanAt(t, t[s..e + 1], s)
  {
    var span := t[s..e + 1];
    assert s + |span| == e + 1;
  }

  /** `_extract_json`: the payload parsed as it is; failing that, the brace
      span parsed; failing that, an `LLMError` with status 502. Whatever JSON
      value parses is returned, object or not. The contract below only
      records that order of attempts; what the function recovers is stated
      by `PlainReply` (a bare JSON text), `FencedReply` (a fenced block) and
      `ObjectInProse` (an object surrounded by prose). */
  function ExtractJson(text: string, parse: string -> Option<Json>): (r: Result<Json, LlmError>)
    ensures var t := Payload(text);
            && (parse(t).Some? ==> r == Ok(parse(t).value))
            && (parse(t).None? && BraceSpan(t).Some? && parse(BraceSpan(t).value).Some? ==>
                  r == Ok(parse(BraceSpan(t).value).value))
            && (r.Err? <==> parse(t).None? && (BraceSpan(t).None? || parse(BraceSpan(t).value).None?))
    ensures r.Err? ==> r.error == NewLlmError(PARSE_FAILURE)
  {
    var t := Payload(text);
    match parse(t)
    case Some(v) => Ok(v)
    case None =>
      match BraceSpan(t)
      case None => Err(NewLlmError(PARSE_FAILURE))
      case Some(span) =>
        match parse(span)
        case Some(v) => Ok(v)
        case None => Err(NewLlmError(PARSE_FAILURE))
  }

  /** A reply that is a JSON text with whitespace around it and no fence
      decodes directly. */
  lemma PlainReply(w1: string, body: string, w2: string, parse: string -> Option<Json>, v: Json)
    requires AllSpace(w1) && AllSpace(w2) && Stripped(body)
    requires '`' !in body && parse(body) == Some(v)
    ensures ExtractJson(w1 + body + w2, parse) == Ok(v)
  {
    StripExact(w1, body, w2);
    NoFence(body);
  }

  lemma NoFence(t: string)
    requires '`' !in t
    ensures FenceInner(t).None?
  {
    forall k
      ensures !OccursAt(t, FENCE, k)
    {
      NotAt(t, FENCE, k);
    }
    FenceInnerMatches(t);
  }

  /** A pattern whose first character is absent occurs nowhere. */
  lemma NotAt(t: string, pat: string, k: int)
    requires pat != [] && pat[0] !in t
    ensures !OccursAt(t, pat, k)
  {
    if 0 <= k && k + |pat| <= |t| {
      assert t[k..k + |pat|][0] == t[k];
    }
  }

  /** The pieces of a fenced block: the fence, a tag, a newline, the body,
      a newline and the closing fence. */
  function FencedBlock(tag: string, body: string): string {
    FENCE + tag + "\n" + body + "\n" + FENCE
  }

  /** The text `pre`, then `block`, then `post`. */
  function Within(pre: string, block: string, post: string): string {
    pre + block + post
  }

  /** Whatever follows it, the first fenced block of a text, untagged or
      tagged `json`, yields its body, stripped, when no backtick comes
      before it. */
  lemma FirstBlock(pre: string, tag: string, body: string, post: string)
    requires tag == "" || tag == "json"
    requires '`' !in pre && '`' !in body
    ensures FenceInner(Within(pre, FencedBlock(tag, body), post)) == Some(Strip(body))
  {
    OpensAtBlock(pre, tag, body, post);
    ClosesAtBlock(pre, tag, body, post);
    SearchResults();
    StripPadded("\n", body, "\n");
  }

  /** The search for the first fence stops at `i`, and its tag ends at `p`. */
  predicate Opens(t: string, i: int, p: int) {
    FindFrom(t, FENCE, 0) == i >= 0 && OpenEnd(t, i) == p
  }

  /** The search for a fence from `p` stops at `c`, and `m` lies between. */
  predicate Closes(t: string, p: int, c: int, m: string) {
    0 <= p <= c <= |t| && FindFrom(t, FENCE, p) == c && t[p..c] == m
  }

  /** The fence search in terms of where its steps stop. */
  lemma SearchResults()
    ensures forall t, i, p, c, m :: Opens(t, i, p) && Closes(t, p, c, m) ==> FenceInner(t) == Some(Strip(m))
  {
  }

  /** In a text holding a block after backtick-free prose, the first fence
      is the block's own. */
  lemma OpensAtBlock(pre: string, tag: string, body: string, post: string)
    requires tag == "" || tag == "json"
    requires '`' !in pre && '`' !in body
    ensures Opens(Within(pre, FencedBlock(tag, body), post), |pre|, |pre| + 3 + |tag|)
  {
    WithinParts(pre, FencedBlock(tag, body), post);
    FirstFence(Within(pre, FencedBlock(tag, body), post), |pre|, tag, body);
  }

  /** In the same text, the next fence after the block's tag closes the
      block, and the body lies between, one newline either side. */
  lemma ClosesAtBlock(pre: string, tag: string, body: string, post: string)
    requires '`' !in body
    ensures Closes(Within(pre, FencedBlock(tag, body), post), |pre| + 3 + |tag|, |pre| + |tag| + |body| + 5, "\n" + body + "\n")
  {
    WithinParts(pre, FencedBlock(tag, body), post);
    ClosesAt(Within(pre, FencedBlock(tag, body), post), |pre|, tag, body);
  }

  /** The same, for a block at `i` in any text. */
  lemma ClosesAt(t: string, i: nat, tag: string, body: string)
    requires '`' !in body
    requires i + |FencedBlock(tag, body)| <= |t| && t[i..i + |FencedBlock(tag, body)|] == FencedBlock(tag, body)
    ensures Closes(t, i + 3 + |tag|, i + |tag| + |body| + 5, "\n" + body + "\n")
  {
    ClosingFence(t, i, tag, body);
    BlockGroup(t, i, tag, body);
  }

  /** The search for the first fence stops at the block. */
  lemma FirstFence(t: string, i: nat, tag: string, body: string)
    requires tag == "" || tag == "json"
    requires '`' !in body
    requires i + |FencedBlock(tag, body)| <= |t| && t[i..i + |FencedBlock(tag, body)|] == FencedBlock(tag, body)
    requires '`' !in t[..i]
    ensures FindFrom(t, FENCE, 0) == i && OpenEnd(t, i) == i + 3 + |tag|
  {
    NoTickBefore(t, i);
    BlockOpens(t, i, tag, body);
    FindFromSkips(t, FENCE, 0, i);
  }

  /** The search for the closing fence stops at the end of the block. */
  lemma ClosingFence(t: string, i: nat, tag: string, body: string)
    requires '`' !in body
    requires i + |FencedBlock(tag, body)| <= |t| && t[i..i + |FencedBlock(tag, body)|] == FencedBlock(tag, body)
    ensures FindFrom(t, FENCE, i + 3 + |tag|) == i + |tag| + |body| + 5
  {
    BlockCloses(t, i, tag, body);
    FindFromSkips(t, FENCE, i + 3 + |tag|, i + |tag| + |body| + 5);
  }

  /** No backtick before `i`, position by position. */
  lemma NoTickBefore(t: string, i: nat)
    requires i <= |t| && '`' !in t[..i]
    ensures forall k :: 0 <= k < i ==> t[k] != '`'
  {
    forall k | 0 <= k < i
      ensures t[k] != '`'
    {
      assert t[..i][k] == t[k];
    }
  }

  /** A block opens with a fence, and its tag ends where the search
      expects. */
  lemma BlockOpens(t: string, i: nat, tag: string, body: string)
    requires tag == "" || tag == "json"
    requires '`' !in body
    requires i + |FencedBlock(tag, body)| <= |t| && t[i..i + |FencedBlock(tag, body)|] == FencedBlock(tag, body)
    ensures OccursAt(t, FENCE, i) && OpenEnd(t, i) == i + 3 + |tag|
  {
    var block := FencedBlock(tag, body);
    BlockShape(tag, body);
    SliceWithin(t, i, block, 0, 3);
    if tag == "json" {
      SliceWithin(t, i, block, 3, 7);
    } else {
      SliceWithin(t, i, block, 3, 4);
      assert t[i + 3] == '\n' by {
        assert t[i + 3] == t[i + 3..i + 4][0];
      }
      assert !OccursAt(t, "json", i + 3) by {
        if i + 7 <= |t| {
          assert t[i + 3..i + 7][0] == t[i + 3];
        }
      }
    }
  }

  /** A block closes with a fence, and no backtick comes before it. */
  lemma BlockCloses(t: string, i: nat, tag: string, body: string)
    requires '`' !in body
    requires i + |FencedBlock(tag, body)| <= |t| && t[i..i + |FencedBlock(tag, body)|] == FencedBlock(tag, body)
    ensures OccursAt(t, FENCE, i + |tag| + |body| + 5)
    ensures forall k :: i + 3 + |tag| <= k < i + |tag| + |body| + 5 ==> t[k] != '`'
  {
    var block := FencedBlock(tag, body);
    BlockShape(tag, body);
    SliceWithin(t, i, block, |tag| + |body| + 5, |block|);
    forall k | i + 3 + |tag| <= k < i + |tag| + |body| + 5
      ensures t[k] != '`'
    {
      assert t[k] == t[i..i + |block|][k - i];
    }
  }

  /** Between the fences of a block lies its body, one newline each side. */
  lemma BlockGroup(t: string, i: nat, tag: string, body: string)
    requires i + |FencedBlock(tag, body)| <= |t| && t[i..i + |FencedBlock(tag, body)|] == FencedBlock(tag, body)
    ensures i + |tag| + |body| + 5 <= |t|
    ensures t[i + 3 + |tag|..i + |tag| + |body| + 5] == "\n" + body + "\n"
  {
    BlockMiddle(tag, body);
    SliceWithin(t, i, FencedBlock(tag, body), 3 + |tag|, |tag| + |body| + 5);
  }

  /** The length and the middle of a block. */
  lemma BlockMiddle(tag: string, body: string)
    ensures |FencedBlock(tag, body)| == |tag| + |body| + 8
    ensures FencedBlock(tag, body)[3 + |tag|..|tag| + |body| + 5] == "\n" + body + "\n"
  {
    assert FencedBlock(tag, body) == FENCE + tag + ("\n" + body + "\n") + FENCE;
  }

  /** The pieces of a block, by position. */
  lemma BlockShape(tag: string, body: string)
    requires '`' !in body
    ensures var b, p := FencedBlock(tag, body), 3 + |tag|;
            && |b| == |tag| + |body| + 8
            && b[0..3] == FENCE && b[3..p] == tag && b[3..p + 1] == tag + "\n"
            && b[|tag| + |body| + 5..|b|] == FENCE
            && forall k :: p <= k < |tag| + |body| + 5 ==> b[k] != '`'
  {
    var b, p := FencedBlock(tag, body), 3 + |tag|;
    var middle := "\n" + body + "\n";
    assert b == FENCE + tag + middle + FENCE;
    forall k | p <= k < |tag| + |body| + 5
      ensures b[k] != '`'
    {
      assert b[k] == middle[k - p];
    }
  }

  /** A slice of a text that holds `s` at `i` is the same slice of `s`. */
  lemma SliceWithin(t: string, i: nat, s: string, a: nat, b: nat)
    requires i + |s| <= |t| && t[i..i + |s|] == s && a <= b <= |s|
    ensures t[i + a..i + b] == s[a..b]
  {
    forall k | 0 <= k < b - a
      ensures t[i + a..i + b][k] == s[a..b][k]
    {
      assert t[i..i + |s|][a + k] == t[i + a + k];
    }
  }

  /** A JSON text in the first fenced block of a reply, untagged or tagged
      `json`, decodes to what the text decodes to, whatever prose or
      whitespace surrounds the block. */
  lemma FenceInProse(pre: string, tag: string, body: string, post: string, parse: string -> Option<Json>, v: Json)
    requires tag == "" || tag == "json"
    requires '`' !in pre && '`' !in body && parse(Strip(body)) == Some(v)
    ensures ExtractJson(Within(pre, FencedBlock(tag, body), post), parse) == Ok(v)
  {
    var block := FencedBlock(tag, body);
    var a, b := StripAround(pre, block, post);
    assert '`' !in pre[a..] by {
      forall k | 0 <= k < |pre| - a
        ensures pre[a..][k] != '`'
      {
        assert pre[a..][k] == pre[a + k];
      }
    }
    PayloadOfBlock(pre + block + post, pre[a..], tag, body, post[..b]);
  }

  /** The prose and the block, recovered from the text holding them. */
  lemma WithinParts(head: string, block: string, tail: string)
    ensures |head| + |block| <= |Within(head, block, tail)|
    ensures Within(head, block, tail)[..|head|] == head
    ensures Within(head, block, tail)[|head|..|head| + |block|] == block
  {
  }

  /** The payload of a reply whose stripped text holds a first block. */
  lemma PayloadOfBlock(text: string, pre: string, tag: string, body: string, post: string)
    requires tag == "" || tag == "json"
    requires '`' !in pre && '`' !in body
    requires Strip(text) == pre + FencedBlock(tag, body) + post
    ensures Payload(text) == Strip(body)
  {
    FirstBlock(pre, tag, body, post);
  }

  /** A reply that is just a ```` ```json ```` fenced block decodes to what
      its body decodes to. */
  lemma FencedReply(body: string, parse: string -> Option<Json>, v: Json)
    requires '`' !in body && parse(Strip(body)) == Some(v)
    ensures ExtractJson(FencedBlock("json", body), parse) == Ok(v)
  {
    BlockUnstripped("json", body);
    WithinNothing(FencedBlock("json", body));
    PayloadOfBlock(FencedBlock("json", body), [], "json", body, []);
  }

  /** A block starts and ends with a backtick, so stripping leaves it be. */
  lemma BlockUnstripped(tag: string, body: string)
    requires '`' !in body
    ensures Strip(FencedBlock(tag, body)) == FencedBlock(tag, body)
  {
    var block := FencedBlock(tag, body);
    BlockShape(tag, body);
    assert block[0] == block[0..3][0] && block[|block| - 1] == block[|tag| + |body| + 5..|block|][2];
    StrippedFixed(block);
  }

  /** With nothing around it, a block is the whole text. */
  lemma WithinNothing(block: string)
    ensures Within([], block, []) == block
  {
  }

  /** Prose around a single JSON object: when the whole reply does not
      decode, the span from the first `{` to the last `}` does. */
  lemma ObjectInProse(pre: string, obj: string, post: string, parse: string -> Option<Json>, v: Json)
    requires Stripped(pre + obj + post) && '`' !in pre + obj + post
    requires '{' !in pre && '}' !in post
    requires |obj| >= 2 && obj[0] == '{' && obj[|obj| - 1] == '}'
    requires parse(pre + obj + post).None? && parse(obj) == Some(v)
    ensures ExtractJson(pre + obj + post, parse) == Ok(v)
  {
    var t := pre + obj + post;
    StrippedFixed(t);
    NoFence(t);
    assert Payload(t) == t;
    SpanOfObject(pre, obj, post);
  }

  lemma SpanOfObject(pre: string, obj: string, post: string)
    requires '{' !in pre && '}' !in post
    requires |obj| >= 2 && obj[0] == '{' && obj[|obj| - 1] == '}'
    ensures BraceSpan(pre + obj + post) == Some(obj)
  {
    var t := pre + obj + post;
    var s := FindChar(t, '{');
    var e := RFindChar(t, '}');
    assert t[|pre|] == '{';
    assert t[|pre| + |obj| - 1] == '}';
    assert s == |pre| by {
      assert t[..|pre|] == pre;
      assert '{' in t[..|pre| + 1];
    }
    assert e == |pre| + |obj| - 1 by {
      assert t[|pre| + |obj|..] == post;
    }
    assert t[s..e + 1] == obj;
  }

  // ---------------------------------------------------------------------
  // _validate_response
  // ---------------------------------------------------------------------

  /** The cleaned result: exactly these three fields. */
  datatype Summary = Summary(summary: string, technologies: seq<string>, structure: string)

  /** Why validation fails: an `LLMError`, or Python's `AttributeError` when
      the decoded value is not a dictionary and has no `get`. */
  datatype ValidationError = Invalid(error: LlmError) | NotADictionary

  function MissingField(field: string): (m: string)
    ensures StartsWith(m, "LLM response is missing a valid '")
  {
    "LLM response is missing a valid '" + field + "' field."
  }

  /** Python truthiness. A float is false only when zero. */
  predicate Truthy(j: Json) {
    match j
    case JNull => false
    case JBool(b) => b
    case JInt(i) => i != 0
    case JFloat(repr) => repr != "0.0" && repr != "-0.0"
    case JString(s) => s != ""
    case JArray(items) => items != []
    case JObject(fields) => fields != map[]
  }

  /** Python's `str()` of a decoded value; lists, dictionaries and floats are
      rendered by `reprOf`, their Python representation. */
  function PyStr(j: Json, reprOf: Json -> string): string {
    match j
    case JNull => "None"
    case JBool(b) => if b then "True" else "False"
    case JInt(i) => IntToString(i)
    case JString(s) => s
    case _ => reprOf(j)
  }

  /** `str` as the function applied to each list element. */
  function StrOf(reprOf: Json -> string): Json -> string {
    j => PyStr(j, reprOf)
  }

  /** A string field that is present and not blank. */
  predicate GoodText(v: Option<Json>) {
    v.Some? && v.value.JString? && Strip(v.value.s) != ""
  }

  predicate GoodList(v: Option<Json>) {
    v.Some? && v.value.JArray?
  }

  function Get(fields: map<string, Json>, key: string): Option<Json> {
    if key in fields then Some(fields[key]) else None
  }

  /** `_validate_response`: `summary`, `technologies` and `structure` are
      checked in this order and the first bad one is reported; on success
      the two texts are stripped and the technologies are the `str()` of the
      truthy list elements, in order. */
  function ValidateResponse(data: Json, reprOf: Json -> string): (r: Result<Summary, ValidationError>)
    ensures !data.JObject? ==> r == Err(NotADictionary)
    ensures data.JObject? ==>
              var f := data.fields;
              && (!GoodText(Get(f, "summary")) ==>
                    r == Err(Invalid(NewLlmError(MissingField("summary")))))
              && (GoodText(Get(f, "summary")) && !GoodList(Get(f, "technologies")) ==>
                    r == Err(Invalid(NewLlmError(MissingField("technologies")))))
              && (GoodText(Get(f, "summary")) && GoodList(Get(f, "technologies"))
                  && !GoodText(Get(f, "structure")) ==>
                    r == Err(Invalid(NewLlmError(MissingField("structure")))))
              && (r.Ok? <==> GoodText(Get(f, "summary")) && GoodList(Get(f, "technologies"))
                             && GoodText(Get(f, "structure")))
    ensures r.Ok? ==> Stripped(r.value.summary) && r.value.summary != ""
                      && Stripped(r.value.structure) && r.value.structure != ""
    ensures r.Ok? ==> r.value.summary == Strip(data.fields["summary"].s)
                      && r.value.structure == Strip(data.fields["structure"].s)
                      && r.value.technologies ==
                           FilterMap(data.fields["technologies"].items, Truthy, StrOf(reprOf))
  {
    if !data.JObject? then Err(NotADictionary)
    else
      var summary := Get(data.fields, "summary");
      var technologies := Get(data.fields, "technologies");
      var structure := Get(data.fields, "structure");
      if !GoodText(summary) then Err(Invalid(NewLlmError(MissingField("summary"))))
      else if !GoodList(technologies) then Err(Invalid(NewLlmError(MissingField("technologies"))))
      else if !GoodText(structure) then Err(Invalid(NewLlmError(MissingField("structure"))))
      else
        var techs := FilterMap(technologies.value.items, Truthy, StrOf(reprOf));
        Ok(Summary(Strip(summary.value.s), techs, Strip(structure.value.s)))
  }

  /** The cleaned result as a JSON dictionary. */
  function SummaryJson(s: Summary): Json {
    JObject(map[
      "summary" := JString(s.summary),
      "technologies" := JArray(seq(|s.technologies|, i requires 0 <= i < |s.technologies| => JString(s.technologies[i]))),
      "structure" := JString(s.structure)])
  }

  /** Empty strings and nulls are dropped from the technologies, the rest
      kept in order. */
  lemma FalsyTechnologiesDropped(reprOf: Json -> string)
    ensures FilterMap([JString("Python"), JString(""), JNull, JString("FastAPI")], Truthy, StrOf(reprOf))
            == ["Python", "FastAPI"]
  {
    var items := [JString("Python"), JString(""), JNull, JString("FastAPI")];
    assert items[1..][1..][1..] == [JString("FastAPI")];
  }

  /** Each list element contributes on its own: a falsy one (`null`, `false`,
      `0`, `""`, an empty list or dictionary) is dropped, and a truthy one
      contributes its `str()` in its place, wherever it stands. */
  lemma TechnologyEntry(a: seq<Json>, x: Json, b: seq<Json>, reprOf: Json -> string)
    ensures FilterMap(a + [x] + b, Truthy, StrOf(reprOf))
            == FilterMap(a, Truthy, StrOf(reprOf))
               + (if Truthy(x) then [PyStr(x, reprOf)] else [])
               + FilterMap(b, Truthy, StrOf(reprOf))
  {
    FilterMapAppend(a + [x], b, Truthy, StrOf(reprOf));
    FilterMapAppend(a, [x], Truthy, StrOf(reprOf));
    assert [x][1..] == [];
  }

  /** No technology is an empty string when no representation is empty. */
  lemma {:induction false} TechnologiesNonEmpty(items: seq<Json>, reprOf: Json -> string)
    requires forall x :: reprOf(x) != ""
    ensures forall t :: t in FilterMap(items, Truthy, StrOf(reprOf)) ==> t != ""
  {
    FilterMapMembers(items, Truthy, StrOf(reprOf), "");
  }

  /** Validating a cleaned result again returns it unchanged. */
  lemma ValidateIdempotent(data: Json, reprOf: Json -> string, s: Summary)
    requires forall x :: reprOf(x) != ""
    requires ValidateResponse(data, reprOf) == Ok(s)
    ensures ValidateResponse(SummaryJson(s), reprOf) == Ok(s)
  {
    TechnologiesNonEmpty(data.fields["technologies"].items, reprOf);
    RevalidateSummary(s, reprOf);
  }

  lemma RevalidateSummary(s: Summary, reprOf: Json -> string)
    requires Stripped(s.summary) && s.summary != "" && Stripped(s.structure) && s.structure != ""
    requires forall t :: t in s.technologies ==> t != ""
    ensures ValidateResponse(SummaryJson(s), reprOf) == Ok(s)
  {
    StrippedFixed(s.summary);
    StrippedFixed(s.structure);
    var techs := s.technologies;
    var js := SummaryJson(s).fields["technologies"].items;
    forall i | 0 <= i < |techs|
      ensures js[i] == JString(techs[i]) && techs[i] != ""
    {
      assert techs[i] in techs;
    }
    RewrapStrings(techs, js, reprOf);
    var f := SummaryJson(s).fields;
    assert Get(f, "summary") == Some(JString(s.summary));
    assert Get(f, "technologies") == Some(JArray(js));
    assert Get(f, "structure") == Some(JString(s.structure));
  }

  /** Non-empty strings wrapped as JSON strings come back unchanged. */
  lemma {:induction false} RewrapStrings(techs: seq<string>, js: seq<Json>, reprOf: Json -> string)
    requires |js| == |techs|
    requires forall i :: 0 <= i < |techs| ==> js[i] == JString(techs[i]) && techs[i] != ""
    ensures FilterMap(js, Truthy, StrOf(reprOf)) == techs
    decreases |techs|
  {
    if |techs| > 0 {
      RewrapStrings(techs[1..], js[1..], reprOf);
    }
  }
}
