/** Retrieval and answer composition (rag.py): the query sent to the vector
    store, the pairing of its reply, the prompt built from the retrieved
    chunks, the request sent to the Ollama HTTP API, and the mapping of every
    outcome to the text shown to the user. The store and the HTTP service are
    parameters: functions from the request the code sends to the reply it
    gets; the environment after `load_dotenv()` is a map. */
module Rag {
  import opened Wrappers
  import opened Text

  // ---------------------------------------------------------------- constants

  /** `SYSTEM_PROMPT` */
  const SystemPrompt: string :=
    "You are a precise Partner Program assistant." +
    " Answer ONLY using the provided context excerpts." +
    " If the answer is not in the context, say: 'I don't know based on the current documentation.'" +
    " Be concise and use bullet points. Include a short 'Sources' list with file names."

  /** What `answer` returns when nothing was retrieved. */
  const NoContextMessage: string :=
    "I couldn't retrieve any context. Please run `python ingest.py` after placing your documents " +
    "under `data/docs/`, then try again."

  /** The fixed head of the message `answer` returns when generation fails. */
  const LlmFailedHead: string :=
    "LLM call failed." + " Check that Ollama is running and `OLLAMA_HOST`/`OLLAMA_MODEL` are set.\n\n"

  /** The separator between two context segments. */
  const SegmentSeparator: string := "\n\n---\n"

  const DefaultModel: string := "granite3.3:8b"
  const DefaultHost: string := "http://localhost:11434"
  const GenerateTimeout: int := 120
  const DefaultTopK: int := 4

  // ---------------------------------------------------------------- retrieve

  /** A metadata value as the store hands it back: ingestion stores strings
      (source, path) and integers (chunk). */
  datatype MetaValue = StrValue(s: string) | IntValue(i: int)

  type Meta = map<string, MetaValue>

  /** `coll.query(query_texts=..., n_results=...)` */
  datatype QueryRequest = QueryRequest(queryTexts: seq<string>, nResults: int)

  /** The reply of `coll.query`: for each of the two keys the code reads, the
      list of result lists (one per query text), or `None` when the key is
      absent. */
  datatype QueryReply = QueryReply(documents: Option<seq<seq<string>>>, metadatas: Option<seq<seq<Meta>>>)

  /** Opening the collection (`_get_collection`) and querying it: the reply,
      or the text of the exception either step raised. */
  type Store = QueryRequest -> Result<QueryReply, string>

  /** One retrieved chunk: its text and its metadata. */
  type Pair = (string, Meta)

  /** The request `retrieve(query, k)` sends: one query text, and
      `max(1, k)` results. */
  function RetrieveRequest(query: string, k: int): (req: QueryRequest)
    ensures req.queryTexts == [query]
    ensures req.nResults >= 1 && req.nResults >= k
    ensures req.nResults == k || req.nResults == 1
  {
    QueryRequest([query], Max(1, k))
  }

  /** `res.get(key, [[]])[0]`: an absent key gives the empty list, a present
      but empty list of lists raises IndexError. */
  function FirstList<T>(lists: Option<seq<seq<T>>>): (r: Result<seq<T>, string>)
    ensures lists.None? ==> r == Ok([])
    ensures lists.Some? ==> (r.Err? <==> |lists.value| == 0)
    ensures lists.Some? && r.Ok? ==> r.value == lists.value[0]
  {
    match lists
    case None => Ok([])
    case Some(ls) => if |ls| == 0 then Err("list index out of range") else Ok(ls[0])
  }

  /** Python's `list(zip(a, b))`. */
  function Zip<A, B>(a: seq<A>, b: seq<B>): (z: seq<(A, B)>)
    ensures |z| == Min(|a|, |b|)
    ensures forall i :: 0 <= i < |z| ==> z[i] == (a[i], b[i])
  {
    if |a| == 0 || |b| == 0 then []
    else [(a[0], b[0])] + Zip(a[1..], b[1..])
  }

  /** `retrieve(query, k)`: the first document list and the first metadata
      list of the store's reply, zipped; `Err` where opening or querying the
      store raises, or where indexing raises. */
  function Retrieve(store: Store, query: string, k: int): Result<seq<Pair>, string>
  {
    match store(RetrieveRequest(query, k))
    case Err(e) => Err(e)
    case Ok(reply) =>
      match FirstList(reply.documents)
      case Err(e) => Err(e)
      case Ok(docs) =>
        match FirstList(reply.metadatas)
        case Err(e) => Err(e)
        case Ok(metas) => Ok(Zip(docs, metas))
  }

  /** What `retrieve` returns, in terms of the store's outcome for the one
      request it sends: the store's own error when it raises; otherwise the
      pairs of the two first lists in order, as many as the shorter list has;
      nothing when a key is absent; an error exactly when a present key holds
      no list. */
  lemma RetrieveSpec(store: Store, query: string, k: int)
    ensures var out := store(RetrieveRequest(query, k));
      out.Err? ==> Retrieve(store, query, k) == Err(out.error)
    ensures var out := store(RetrieveRequest(query, k));
      out.Ok? ==>
        (Retrieve(store, query, k).Err? <==> (out.value.documents == Some([]) || out.value.metadatas == Some([])))
    ensures var out := store(RetrieveRequest(query, k));
      out.Ok? && (out.value.documents.None? || out.value.metadatas.None?) && Retrieve(store, query, k).Ok? ==>
        Retrieve(store, query, k).value == []
    ensures var out := store(RetrieveRequest(query, k));
      out.Ok? && out.value.documents.Some? && out.value.metadatas.Some? && Retrieve(store, query, k).Ok? ==>
        var docs, metas := out.value.documents.value[0], out.value.metadatas.value[0];
        var pairs := Retrieve(store, query, k).value;
        |pairs| == Min(|docs|, |metas|) &&
        forall i :: 0 <= i < |pairs| ==> pairs[i] == (docs[i], metas[i])
  {
    var out := store(RetrieveRequest(query, k));
    if out.Ok? {
      var reply := out.value;
      if reply.documents == Some([]) {
        assert FirstList(reply.documents).Err?;
      } else if reply.metadatas == Some([]) {
        assert FirstList(reply.metadatas).Err?;
      }
    }
  }

  /** `answer` and `retrieve` default to `top_k = 4`, so by default the store
      is asked for four results. */
  lemma DefaultRetrieveRequest(query: string)
    ensures RetrieveRequest(query, DefaultTopK) == QueryRequest([query], 4)
  {
  }

  /** `retrieve` with `k <= 1` asks for, and returns, the same as with `k = 1`. */
  lemma RetrieveClampsK(store: Store, query: string, k: int)
    requires k <= 1
    ensures Retrieve(store, query, k) == Retrieve(store, query, 1)
  {
  }

  // ---------------------------------------------------------------- prompt

  /** Python's `str(n)` for an integer: the canonical decimal digits of its
      magnitude (no leading zero unless it is 0), after a '-' when negative. */
  function IntToString(n: int): (s: string)
    ensures n >= 0 ==> AllDigits(s) && |s| >= 1 && DecimalValue(s) == n && (s[0] == '0' ==> n == 0)
    ensures n < 0 ==> |s| >= 2 && s[0] == '-' && AllDigits(s[1..]) && DecimalValue(s[1..]) == -n && s[1] != '0'
  {
    if n >= 0 then
      NatToStringValue(n);
      NatToString(n)
    else
      NatToStringValue(-n);
      var d := NatToString(-n);
      assert ("-" + d)[1..] == d;
      "-" + d
  }

  /** `f"{v}"` for a metadata value. */
  function FormatValue(v: MetaValue): string
  {
    match v
    case StrValue(s) => s
    case IntValue(i) => IntToString(i)
  }

  /** `m.get('source', 'unknown')`, formatted. */
  function SourceLabel(m: Meta): (src: string)
    ensures "source" !in m ==> src == "unknown"
    ensures "source" in m && m["source"].StrValue? ==> src == m["source"].s
    ensures "source" in m && m["source"].IntValue? ==> src == IntToString(m["source"].i)
  {
    if "source" in m then FormatValue(m["source"]) else "unknown"
  }

  /** f"[From {source}]:\n{d}" */
  function Segment(p: Pair): (seg: string)
  {
    "[From " + SourceLabel(p.1) + "]:\n" + p.0
  }

  /** A segment is its source label in the header, and then the chunk text,
      unchanged. */
  lemma SegmentLayout(p: Pair)
    ensures var head := "[From " + SourceLabel(p.1) + "]:\n";
      |Segment(p)| == |head| + |p.0| &&
      Segment(p)[..|head|] == head && Segment(p)[|head|..] == p.0
  {
  }

  function Segments(pairs: seq<Pair>): (segs: seq<string>)
    ensures |segs| == |pairs|
    ensures forall i :: 0 <= i < |pairs| ==> segs[i] == Segment(pairs[i])
  {
    seq(|pairs|, i requires 0 <= i < |pairs| => Segment(pairs[i]))
  }

  /** `ctx_text`: the segments joined with "\n\n---\n". */
  function ContextBlock(pairs: seq<Pair>): string
  {
    Join(SegmentSeparator, Segments(pairs))
  }

  /** In the context block, the segment of pair `i` comes after those of
      pairs `0..i-1` and before those of the later pairs, a separator between
      each two: the block follows retrieval order. */
  lemma ContextBlockOrder(pairs: seq<Pair>, i: nat)
    requires i < |pairs|
    ensures var segs := Segments(pairs);
      ContextBlock(pairs) ==
        (if i == 0 then "" else Join(SegmentSeparator, segs[..i]) + SegmentSeparator) +
        Segment(pairs[i]) +
        (if i == |pairs| - 1 then "" else SegmentSeparator + Join(SegmentSeparator, segs[i + 1..]))
  {
    var segs := Segments(pairs);
    var n := |pairs|;
    if n > 1 {
      if i > 0 {
        JoinSplitAt(SegmentSeparator, segs, i);
        var tail := segs[i..];
        if i < n - 1 {
          JoinSplitAt(SegmentSeparator, tail, 1);
          assert tail[..1] == [segs[i]];
          assert tail[1..] == segs[i + 1..];
        } else {
          assert tail == [segs[i]];
        }
      } else {
        JoinSplitAt(SegmentSeparator, segs, 1);
        assert segs[..1] == [segs[0]];
      }
    }
  }

  /** The context block has the length of its segments plus one separator
      between each two. */
  lemma {:induction false} ContextBlockLength(pairs: seq<Pair>)
    requires |pairs| >= 1
    ensures |ContextBlock(pairs)| == SumLengths(Segments(pairs)) + |SegmentSeparator| * (|pairs| - 1)
  {
    var segs := Segments(pairs);
    if |pairs| > 1 {
      ContextBlockLength(pairs[1..]);
      assert Segments(pairs[1..]) == segs[1..];
    }
  }

  function SumLengths(parts: seq<string>): nat
  {
    if parts == [] then 0 else |parts[0]| + SumLengths(parts[1..])
  }

  /** `user_prompt` for context block `ctx`. */
  function UserPrompt(ctx: string, query: string): string
  {
    "Context excerpts:\n" + ctx + "\n\n" +
    "Question: " + query + "\n\n" +
    "Answer in bullets. Then add a 'Sources' list with the file names only."
  }

  /** `full_prompt`: the system prompt, the user prompt and the final cue. */
  function FullPrompt(query: string, pairs: seq<Pair>): string
  {
    SystemPrompt + "\n\n" + UserPrompt(ContextBlock(pairs), query) + "\n\nAnswer:"
  }

  /** The prompt starts with the system prompt and a blank line, then holds
      the user prompt, and ends with the final cue "Answer:" after a blank
      line. */
  lemma FullPromptLayout(query: string, pairs: seq<Pair>)
    ensures var p := FullPrompt(query, pairs);
      var sys := SystemPrompt + "\n\n";
      var user := UserPrompt(ContextBlock(pairs), query);
      |p| == |sys| + |user| + 9 &&
      p[..|sys|] == sys && p[|sys|..|sys| + |user|] == user && p[|sys| + |user|..] == "\n\nAnswer:"
  {
    SliceOfConcat(SystemPrompt + "\n\n", UserPrompt(ContextBlock(pairs), query), "\n\nAnswer:");
  }

  /** The user prompt opens with "Context excerpts:" on a line of its own,
      followed by the context block; the question comes after it, right after
      "Question: ". */
  lemma UserPromptLayout(ctx: string, query: string)
    ensures var u := UserPrompt(ctx, query);
      var at := |"Context excerpts:\n"| + |ctx| + |"\n\nQuestion: "|;
      at + |query| <= |u| &&
      u[..|"Context excerpts:\n"|] == "Context excerpts:\n" &&
      u[|"Context excerpts:\n"|..|"Context excerpts:\n"| + |ctx|] == ctx &&
      u[at..at + |query|] == query
  {
    var ce, nn, q := "Context excerpts:\n", "\n\n", "Question: ";
    var ai := "Answer in bullets. Then add a 'Sources' list with the file names only.";
    var y0 := ce + ctx;
    var y2 := y0 + nn + q;
    var y3 := y2 + query;
    var y4 := y3 + nn;
    assert UserPrompt(ctx, query) == y4 + ai;
    SliceOfPrefix(y4, ai, 0, |y0|);
    SliceOfPrefix(y3, nn, 0, |y0|);
    SliceOfPrefix(y2, query, 0, |y0|);
    SliceOfPrefix(y0 + nn, q, 0, |y0|);
    SliceOfPrefix(y0, nn, 0, |y0|);
    assert y0[..|ce|] == ce && y0[|ce|..] == ctx;
    SliceOfPrefix(y4, ai, |ce|, |y0|);
    SliceOfPrefix(y3, nn, |ce|, |y0|);
    SliceOfPrefix(y2, query, |ce|, |y0|);
    SliceOfPrefix(y0 + nn, q, |ce|, |y0|);
    SliceOfPrefix(y0, nn, |ce|, |y0|);
    SliceOfPrefix(y4, ai, |y2|, |y3|);
    SliceOfPrefix(y3, nn, |y2|, |y3|);
    assert y3[|y2|..] == query;
    assert (y0 + nn + q)[..|ce|] == ce;
  }

  // ---------------------------------------------------------------- _ollama_generate

  /** `x or os.getenv(key, default)`: an explicit non-empty value wins, then
      the environment (even when empty there), then the default. */
  function Setting(explicit: Option<string>, env: map<string, string>, key: string, default: string): string
  {
    if explicit.Some? && explicit.value != "" then explicit.value
    else if key in env then env[key]
    else default
  }

  /** An explicit non-empty argument overrides the environment and the
      default; without one, a value set in the environment overrides the
      default. */
  lemma SettingPrecedence(explicit: Option<string>, env: map<string, string>, key: string, default: string)
    ensures explicit.Some? && explicit.value != "" ==>
              forall env' :: Setting(explicit, env', key, default) == explicit.value
    ensures (explicit.None? || explicit.value == "") && key in env ==> Setting(explicit, env, key, default) == env[key]
    ensures (explicit.None? || explicit.value == "") && key !in env ==> Setting(explicit, env, key, default) == default
  {
  }

  /** `requests.post(url, json=payload, timeout=timeout)` */
  datatype GenerateRequest = GenerateRequest(url: string, model: string, prompt: string, stream: bool, timeout: int)

  /** What the call brings back: an exception raised by `post` (connection
      refused, timeout), or a response with its status, reason phrase and
      body, read as JSON. */
  datatype HttpOutcome =
    | Raised(error: string)
    | Replied(status: int, reason: string, body: JsonBody)

  /** `r.json()`: an object (its string-valued fields), or a decoding error. */
  datatype JsonBody = Object(fields: map<string, string>) | NotJson(error: string)

  type Http = GenerateRequest -> HttpOutcome

  /** The request `_ollama_generate(prompt, model, host, timeout)` sends. */
  function OllamaRequest(env: map<string, string>, prompt: string, model: Option<string>, host: Option<string>, timeout: int): (req: GenerateRequest)
    ensures req.url == Setting(host, env, "OLLAMA_HOST", DefaultHost) + "/api/generate"
    ensures req.model == Setting(model, env, "OLLAMA_MODEL", DefaultModel)
    ensures req.prompt == prompt && !req.stream && req.timeout == timeout
  {
    var m := Setting(model, env, "OLLAMA_MODEL", DefaultModel);
    var h := Setting(host, env, "OLLAMA_HOST", DefaultHost);
    GenerateRequest(h + "/api/generate", m, prompt, false, timeout)
  }

  /** With nothing set, the request goes to the local Ollama server and asks
      for the Granite model. */
  lemma OllamaDefaults(prompt: string)
    ensures OllamaRequest(map[], prompt, None, None, GenerateTimeout) ==
              GenerateRequest("http://localhost:11434/api/generate", "granite3.3:8b", prompt, false, 120)
  {
  }

  /** The text of the HTTPError that `raise_for_status` raises for a 4xx or
      5xx status. */
  function StatusErrorText(status: int, reason: string, url: string): string
    requires 400 <= status < 600
  {
    NatToString(status) + (if status < 500 then " Client Error: " else " Server Error: ") +
    reason + " for url: " + url
  }

  /** `_ollama_generate`: `Ok` with the reply's "response" field ("" when it
      has none), or `Err` with the text of the exception it raises. */
  function OllamaGenerate(http: Http, env: map<string, string>, prompt: string,
                          model: Option<string>, host: Option<string>, timeout: int): Result<string, string>
  {
    var req := OllamaRequest(env, prompt, model, host, timeout);
    match http(req)
    case Raised(e) => Err(e)
    case Replied(status, reason, body) =>
      if 400 <= status < 600 then Err(StatusErrorText(status, reason, req.url))
      else
        match body
        case NotJson(e) => Err(e)
        case Object(fields) => Ok(if "response" in fields then fields["response"] else "")
  }

  /** `_ollama_generate` succeeds exactly on a non-error status with a JSON
      body, and then returns the "response" field, or "" without one. */
  lemma OllamaGenerateSpec(http: Http, env: map<string, string>, prompt: string,
                           model: Option<string>, host: Option<string>, timeout: int)
    ensures var out := http(OllamaRequest(env, prompt, model, host, timeout));
      OllamaGenerate(http, env, prompt, model, host, timeout).Ok? <==>
        (out.Replied? && !(400 <= out.status < 600) && out.body.Object?)
    ensures var out := http(OllamaRequest(env, prompt, model, host, timeout));
      out.Replied? && !(400 <= out.status < 600) && out.body.Object? ==>
        OllamaGenerate(http, env, prompt, model, host, timeout).value ==
          (if "response" in out.body.fields then out.body.fields["response"] else "")
  {
  }

  // ---------------------------------------------------------------- answer

  /** The message `answer` returns when generation raised `error`. */
  function LlmFailureMessage(error: string): string
  {
    LlmFailedHead + "Error: " + error
  }

  /** The failure message starts with "LLM call failed." and ends with
      "Error: " and the text of the exception. */
  lemma LlmFailureMessageLayout(error: string)
    ensures var msg := LlmFailureMessage(error);
      |msg| >= 16 + 7 + |error| && msg[..16] == "LLM call failed." && msg[|msg| - |error| - 7..] == "Error: " + error
  {
    var hd := "LLM call failed.";
    var mid := " Check that Ollama is running and `OLLAMA_HOST`/`OLLAMA_MODEL` are set.\n\n";
    assert LlmFailureMessage(error) == hd + mid + ("Error: " + error);
    SliceOfConcat(hd, mid, "Error: " + error);
  }

  /** `answer(query, top_k)`: `Err` when retrieval raises (that exception is
      not caught); otherwise the fallback message when nothing was retrieved,
      else the generated text, or the failure message when generation raised. */
  function Answer(store: Store, http: Http, env: map<string, string>, query: string, topK: int): Result<string, string>
  {
    match Retrieve(store, query, topK)
    case Err(e) => Err(e)
    case Ok(pairs) =>
      if |pairs| == 0 then Ok(NoContextMessage)
      else
        match OllamaGenerate(http, env, FullPrompt(query, pairs), None, None, GenerateTimeout)
        case Ok(text) => Ok(text)
        case Err(e) => Ok(LlmFailureMessage(e))
  }

  /** When nothing is retrieved, `answer` returns the fallback message, the
      same whatever the HTTP service and the environment would do: no request
      is made. */
  lemma AnswerWithoutContext(store: Store, http1: Http, http2: Http, env1: map<string, string>, env2: map<string, string>,
                             query: string, topK: int)
    requires Retrieve(store, query, topK) == Ok([])
    ensures Answer(store, http1, env1, query, topK) == Ok(NoContextMessage)
    ensures Answer(store, http1, env1, query, topK) == Answer(store, http2, env2, query, topK)
  {
  }

  /** With context, `answer` sends one request, built from the full prompt
      with the environment's (or default) model and host and a 120 s timeout,
      and returns the generated text unchanged, or the failure message ending
      in "Error: <text of the exception>". A retrieval that succeeds never
      makes `answer` fail. */
  lemma AnswerWithContext(store: Store, http: Http, env: map<string, string>, query: string, topK: int)
    requires Retrieve(store, query, topK).Ok? && |Retrieve(store, query, topK).value| > 0
    ensures var pairs := Retrieve(store, query, topK).value;
      var req := OllamaRequest(env, FullPrompt(query, pairs), None, None, GenerateTimeout);
      var gen := OllamaGenerate(http, env, FullPrompt(query, pairs), None, None, GenerateTimeout);
      req.timeout == 120 && req.prompt == FullPrompt(query, pairs) &&
      Answer(store, http, env, query, topK).Ok? &&
      (gen.Ok? ==> Answer(store, http, env, query, topK).value == gen.value) &&
      (gen.Err? ==> Answer(store, http, env, query, topK).value == LlmFailureMessage(gen.error))
  {
  }

  /** Whatever the retrieval, `answer` fails only when `retrieve` raises, and
      with that error. */
  lemma AnswerFailsOnlyInRetrieval(store: Store, http: Http, env: map<string, string>, query: string, topK: int)
    ensures Answer(store, http, env, query, topK).Err? <==> Retrieve(store, query, topK).Err?
    ensures Retrieve(store, query, topK).Err? ==>
              Answer(store, http, env, query, topK).error == Retrieve(store, query, topK).error
  {
  }

  /** When opening or querying the store raises, that exception leaves
      `answer`: the call to `retrieve` sits outside the `try`. */
  lemma AnswerStoreFailure(store: Store, http: Http, env: map<string, string>, query: string, topK: int)
    requires store(RetrieveRequest(query, topK)).Err?
    ensures Answer(store, http, env, query, topK) == Err(store(RetrieveRequest(query, topK)).error)
  {
    assert Retrieve(store, query, topK) == Err(store(RetrieveRequest(query, topK)).error);
  }
}
