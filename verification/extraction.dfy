/** `cleanAndParseJSON` (services/geminiService.ts): the best-effort recovery
    of a JSON payload from a model's reply. Markdown fences are deleted, the
    text is trimmed, and if it holds both an opening (`{` or `[`) and a
    closing (`}` or `]`) bracket, the text from the first opening to the last
    closing bracket is kept. `JSON.parse` is a parameter: a partial function
    that yields `None` where the real one throws; the source then returns `[]`,
    which each caller supplies as `onError`. */
module Extraction {
  import opened Common
  import opened JsText

  const JsonFence := "```json\n"
  const Fence := "```"

  predicate IsOpening(c: char) {
    c == '{' || c == '['
  }

  predicate IsClosing(c: char) {
    c == '}' || c == ']'
  }

  /** Fences removed (`"```json\n"` first, then every remaining `"```"`), then trimmed. */
  function StripFences(text: string): string
  {
    Trim(RemoveAll(RemoveAll(text, JsonFence), Fence))
  }

  /** Index of the first opening bracket, or -1. */
  function JsonStart(s: string): (r: int)
    ensures -1 <= r < |s|
    ensures r == -1 <==> '{' !in s && '[' !in s
    ensures r >= 0 ==> IsOpening(s[r]) && forall i :: 0 <= i < r ==> !IsOpening(s[i])
  {
    var brace := IndexOf(s, '{');
    var bracket := IndexOf(s, '[');
    var r := if brace != -1 && bracket != -1 then (if brace < bracket then brace else bracket)
             else if brace != -1 then brace
             else if bracket != -1 then bracket
             else -1;
    assert r >= 0 ==> forall i :: 0 <= i < r ==> s[i] != '{' && s[i] != '[' by {
      forall i | 0 <= i < r
        ensures s[i] != '{' && s[i] != '['
      {
        NoneBeforeFirst(s, '{', i);
        NoneBeforeFirst(s, '[', i);
      }
    }
    r
  }

  /** `Math.max(lastIndexOf('}'), lastIndexOf(']'))`: the last closing bracket, or -1. */
  function JsonEnd(s: string): (r: int)
    ensures -1 <= r < |s|
    ensures r == -1 <==> '}' !in s && ']' !in s
    ensures r >= 0 ==> IsClosing(s[r]) && forall i :: r < i < |s| ==> !IsClosing(s[i])
  {
    var brace := LastIndexOf(s, '}');
    var bracket := LastIndexOf(s, ']');
    var r := if brace > bracket then brace else bracket;
    assert forall i :: r < i < |s| ==> s[i] != '}' && s[i] != ']' by {
      forall i | r < i < |s|
        ensures s[i] != '}' && s[i] != ']'
      {
        NoneAfterLast(s, '}', i);
        NoneAfterLast(s, ']', i);
      }
    }
    r
  }

  /** The part of the cleaned text handed to `JSON.parse`. When the last
      closing bracket comes before the first opening one, `substring` swaps
      its arguments and the text between them is kept. */
  function JsonSpan(s: string): (r: string)
    ensures JsonStart(s) == -1 || JsonEnd(s) == -1 ==> r == s
    ensures 0 <= JsonStart(s) <= JsonEnd(s) ==>
              r == s[JsonStart(s)..JsonEnd(s) + 1] && IsOpening(r[0]) && IsClosing(r[|r| - 1])
    ensures 0 <= JsonEnd(s) < JsonStart(s) ==> r == s[JsonEnd(s) + 1..JsonStart(s)]
  {
    var start, end := JsonStart(s), JsonEnd(s);
    if start != -1 && end != -1 then Substring(s, start, end + 1) else s
  }

  /** The text `cleanAndParseJSON` hands to `JSON.parse`. */
  function ExtractJsonText(text: string): string
  {
    JsonSpan(StripFences(text))
  }

  /** `cleanAndParseJSON(text)` with `JSON.parse` given as `parse`. */
  function CleanAndParse<J>(text: string, parse: string -> Option<J>, onError: J): J
  {
    var parsed := parse(ExtractJsonText(text));
    if parsed.Some? then parsed.value else onError
  }

  // ---------------------------------------------------------------------------
  // Round trips

  /** A JSON document as the extraction sees it: it starts with an opening
      bracket, ends with a closing one, and holds no backtick. */
  predicate Bracketed(j: string) {
    |j| > 0 && IsOpening(j[0]) && IsClosing(j[|j| - 1]) && '`' !in j
  }

  /** Text around the payload that holds no bracket and no backtick. */
  predicate Plain(s: string) {
    forall i :: 0 <= i < |s| ==> !IsOpening(s[i]) && !IsClosing(s[i]) && s[i] != '`'
  }

  /** Removal skips a prefix that does not hold the pattern's first character. */
  lemma {:induction false} RemoveAllSkip(a: string, b: string, p: string)
    requires |p| > 0 && p[0] !in a
    ensures RemoveAll(a + b, p) == a + RemoveAll(b, p)
    decreases |a|
  {
    if |a| > 0 {
      assert (a + b)[0] == a[0] != p[0];
      assert (a + b)[1..] == a[1..] + b;
      RemoveAllSkip(a[1..], b, p);
      assert a == [a[0]] + a[1..];
    } else {
      assert a + b == b;
    }
  }

  lemma RemoveAllAbsent(s: string, p: string)
    requires |p| > 0 && p[0] !in s
    ensures RemoveAll(s, p) == s
  {
    RemoveAllSkip(s, [], p);
    assert s + [] == s;
  }

  /** In `pre + j + post`, the payload `j` is exactly what the brackets delimit. */
  lemma SpanOfPayload(pre: string, j: string, post: string)
    requires Plain(pre) && Plain(post) && Bracketed(j)
    ensures var s := pre + j + post;
            JsonStart(s) == |pre| && JsonEnd(s) == |pre| + |j| - 1
  {
    var s := pre + j + post;
    assert s[|pre|] == j[0];
    forall i | 0 <= i < |pre|
      ensures !IsOpening(s[i])
    {
      assert s[i] == pre[i];
    }
    FirstOpeningAt(s, |pre|);
    var end := |pre| + |j| - 1;
    assert s[end] == j[|j| - 1];
    forall i | end < i < |s|
      ensures !IsClosing(s[i])
    {
      assert s[i] == post[i - |pre| - |j|];
    }
    LastClosingAt(s, end);
  }

  /** An opening bracket with none before it is where the span starts. */
  lemma FirstOpeningAt(s: string, k: int)
    requires 0 <= k < |s| && IsOpening(s[k]) && forall i :: 0 <= i < k ==> !IsOpening(s[i])
    ensures JsonStart(s) == k
  {
    assert s[k] in s;
  }

  /** A closing bracket with none after it is where the span ends. */
  lemma LastClosingAt(s: string, k: int)
    requires 0 <= k < |s| && IsClosing(s[k]) && forall i :: k < i < |s| ==> !IsClosing(s[i])
    ensures JsonEnd(s) == k
  {
    assert s[k] in s;
  }

  lemma PlainAroundHasNoTick(pre: string, j: string, post: string)
    requires Plain(pre) && Plain(post) && Bracketed(j)
    ensures '`' !in pre + j + post
  {
    var s := pre + j + post;
    forall i | 0 <= i < |s|
      ensures s[i] != '`'
    {
      if i < |pre| {
        assert s[i] == pre[i];
      } else if i < |pre| + |j| {
        assert s[i] == j[i - |pre|];
      } else {
        assert s[i] == post[i - |pre| - |j|];
      }
    }
  }

  /** Text without backticks and without surrounding white space is already clean. */
  lemma StripClean(s: string)
    requires '`' !in s
    requires s == [] || (!IsSpace(s[0]) && !IsSpace(s[|s| - 1]))
    ensures StripFences(s) == s
  {
    RemoveAllAbsent(s, JsonFence);
    RemoveAllAbsent(s, Fence);
    TrimKeeps(s);
  }

  /** The span of the payload inside its surrounding prose. */
  lemma JsonSpanOfPayload(pre: string, j: string, post: string)
    requires Plain(pre) && Plain(post) && Bracketed(j)
    ensures JsonSpan(pre + j + post) == j
  {
    var s := pre + j + post;
    SpanOfPayload(pre, j, post);
    assert s[|pre|..|pre| + |j|] == j;
  }

  /** Prose around a JSON document is cut away. */
  lemma ProseRoundTrip<J>(pre: string, j: string, post: string, parse: string -> Option<J>, onError: J)
    requires Plain(pre) && Plain(post) && Bracketed(j)
    requires pre == [] || !IsSpace(pre[0])
    requires post == [] || !IsSpace(post[|post| - 1])
    ensures ExtractJsonText(pre + j + post) == j
    ensures CleanAndParse(pre + j + post, parse, onError) == parse(j).GetOr(onError)
  {
    var s := pre + j + post;
    PlainAroundHasNoTick(pre, j, post);
    assert s[0] == (if pre == [] then j[0] else pre[0]);
    assert s[|s| - 1] == (if post == [] then j[|j| - 1] else post[|post| - 1]);
    StripClean(s);
    JsonSpanOfPayload(pre, j, post);
  }

  /** Both removals and the trim peel a Markdown JSON block down to its body. */
  lemma StripFenced(j: string)
    requires Bracketed(j)
    ensures StripFences(JsonFence + j + "\n" + Fence) == j
  {
    OpeningFenceRemoved(j);
    ClosingFenceRemoved(j);
    TrimNewline(j);
  }

  /** Removing `"```json\n"` drops the opening fence and nothing else. */
  lemma OpeningFenceRemoved(j: string)
    requires Bracketed(j)
    ensures RemoveAll(JsonFence + j + "\n" + Fence, JsonFence) == j + "\n" + Fence
  {
    var text := JsonFence + j + "\n" + Fence;
    var body := j + "\n" + Fence;
    assert text == JsonFence + body;
    assert StartsWith(text, JsonFence);
    assert text[|JsonFence|..] == body;
    assert '`' !in j + "\n";
    RemoveAllSkip(j + "\n", Fence, JsonFence);
    assert RemoveAll(Fence, JsonFence) == Fence;
  }

  /** Removing `"```"` then drops the closing fence and nothing else. */
  lemma ClosingFenceRemoved(j: string)
    requires Bracketed(j)
    ensures RemoveAll(j + "\n" + Fence, Fence) == j + "\n"
  {
    assert '`' !in j + "\n";
    RemoveAllSkip(j + "\n", Fence, Fence);
    assert RemoveAll(Fence, Fence) == "";
  }

  /** A reply fenced as a Markdown JSON block yields exactly the document. */
  lemma FencedRoundTrip<J>(j: string, parse: string -> Option<J>, onError: J)
    requires Bracketed(j)
    ensures ExtractJsonText(JsonFence + j + "\n" + Fence) == j
    ensures CleanAndParse(JsonFence + j + "\n" + Fence, parse, onError) == parse(j).GetOr(onError)
  {
    var text := JsonFence + j + "\n" + Fence;
    StripFenced(j);
    JsonSpanOfDocument(j);
    assert ExtractJsonText(text) == JsonSpan(j);
  }

  lemma JsonSpanOfDocument(j: string)
    requires Bracketed(j)
    ensures JsonSpan(j) == j
  {
    JsonSpanOfPayload([], j, []);
    assert [] + j + [] == j;
  }

  lemma TrimNewline(j: string)
    requires |j| > 0 && !IsSpace(j[0]) && !IsSpace(j[|j| - 1])
    ensures Trim(j + "\n") == j
  {
    assert TrimStart(j + "\n") == j + "\n";
    assert (j + "\n")[..|j|] == j;
    assert TrimEnd(j + "\n") == TrimEnd(j);
    assert TrimEnd(j) == j;
  }

  /** Without any bracket the whole cleaned text goes to the parser. */
  lemma NoBracketsWholeText(text: string)
    requires forall i :: 0 <= i < |text| ==> !IsOpening(text[i])
    ensures ExtractJsonText(text) == StripFences(text)
  {
    var s := StripFences(text);
    assert '{' !in s && '[' !in s by {
      StripKeepsOut(text, '{');
      StripKeepsOut(text, '[');
    }
  }

  /** Cleaning never introduces a character. */
  lemma StripKeepsOut(text: string, c: char)
    requires c !in text
    ensures c !in StripFences(text)
  {
    RemoveAllSubset(text, JsonFence, c);
    RemoveAllSubset(RemoveAll(text, JsonFence), Fence, c);
    TrimKeepsOut(RemoveAll(RemoveAll(text, JsonFence), Fence), c);
  }

  lemma {:induction false} RemoveAllSubset(s: string, p: string, c: char)
    requires |p| > 0 && c !in s
    ensures c !in RemoveAll(s, p)
    decreases |s|
  {
    if |s| > 0 {
      if StartsWith(s, p) {
        RemoveAllSubset(s[|p|..], p, c);
      } else {
        RemoveAllSubset(s[1..], p, c);
      }
    }
  }
}
