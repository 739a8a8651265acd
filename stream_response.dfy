/**
 * Response shaping for the `openclaw agent --json` CLI: how each way a run can
 * end becomes the chunks that `stream_chat_response` yields, the list of
 * payloads that `get_all_responses` returns, and the text of
 * `get_full_response`; plus `_split_sentences`, which cuts a reply at
 * whitespace following `.`, `!` or `?`.
 *
 * The subprocess and its JSON decoding are not modelled: a run is given as a
 * `CliOutcome` value already classified the way the code's branches and
 * exception handlers classify it.
 */
module Responses {
  import opened Common
  import opened Text

  // ---------------------------------------------------------------------
  // How a CLI run can end

  /** One element of `result.payloads`: its `text` and `mediaUrl` keys (`None` when missing or null). */
  datatype Payload = Payload(text: Option<string>, mediaUrl: Option<string>)

  /** The end of one `openclaw agent` run, in the order the code tests for them. */
  datatype CliOutcome =
    | Parsed(payloads: seq<Payload>)  // exit status 0, stdout is JSON; `result.payloads`, or [] when missing
    | DecodeError(stdout: string)      // exit status 0, stdout is not JSON
    | NonZero                          // a non-zero exit status
    | Timeout                          // the 130 s wait expired
    | NotFound(message: string)        // the `openclaw` executable is missing; `str(e)`
    | Failed(message: string)          // any other exception; `str(e)`

  /** A payload's text is used only when present and non-empty (Python truthiness). */
  predicate Truthy(text: Option<string>) { text.Some? && |text.value| > 0 }

  /** `not user_text or not user_text.strip()`. */
  predicate IsBlank(userText: string) { Strip(userText) == [] }

  const NotCaught: string := "I didn't catch that. Could you please repeat?"
  const UnexpectedFormat: string := "I processed your message but got an unexpected response format."
  const Received: string := "I received your message."
  const ProcessingError: string := "Sorry, I encountered an error processing your request."
  const TooLong: string := "Sorry, the response took too long. Please try again."
  const Unavailable: string := "The chat service is not available right now."
  const WentWrong: string := "Sorry, something went wrong: "

  /** On a decode error: the stripped stdout, or the fixed acknowledgement when that is empty. */
  function RawOrReceived(stdout: string): (r: string)
    ensures |r| > 0
    ensures r == Strip(stdout) || (Strip(stdout) == [] && r == Received)
  {
    var raw := Strip(stdout);
    if |raw| > 0 then raw else Received
  }

  // ---------------------------------------------------------------------
  // `_split_sentences`

  predicate SentenceEnd(c: char) { c == '.' || c == '!' || c == '?' }

  /** `(?<=[.!?])\s+` can start matching at position `i` of `s`. */
  predicate BoundaryAt(s: string, i: int) {
    0 < i < |s| && SentenceEnd(s[i - 1]) && IsSpace(s[i])
  }

  /** The leftmost boundary at or after `from`, the one `re.split` finds next. */
  function FirstBoundary(s: string, from: nat): (r: Option<nat>)
    ensures r.Some? ==> from <= r.value < |s| && BoundaryAt(s, r.value)
    decreases |s| - from
  {
    if from >= |s| then None
    else if BoundaryAt(s, from) then Some(from)
    else FirstBoundary(s, from + 1)
  }

  /** `FirstBoundary` finds nothing exactly when there is no boundary from `from` on, and otherwise the leftmost one. */
  lemma {:induction false} FirstBoundaryLeftmost(s: string, from: nat)
    ensures FirstBoundary(s, from).None? <==> forall k :: from <= k < |s| ==> !BoundaryAt(s, k)
    ensures FirstBoundary(s, from).Some? ==> forall k :: from <= k < FirstBoundary(s, from).value ==> !BoundaryAt(s, k)
    decreases |s| - from
  {
    if from < |s| && !BoundaryAt(s, from) {
      FirstBoundaryLeftmost(s, from + 1);
    }
  }

  /**
   * `re.split(r'(?<=[.!?])\s+', s)` from position `start` on: cut at the
   * leftmost boundary, skip the whole whitespace run there (`\s+` is greedy)
   * and scan on from the end of the run, with the look-behind reading `s`.
   */
  function SplitFrom(s: string, start: nat): (pieces: seq<string>)
    requires start <= |s|
    ensures |pieces| >= 1
    decreases |s| - start
  {
    match FirstBoundary(s, start)
    case None => [s[start..]]
    case Some(i) => [s[start..i]] + SplitFrom(s, RunEnd(s, i))
  }

  /** The whitespace runs the split removes, one between each pair of pieces. */
  function SeparatorsFrom(s: string, start: nat): seq<string>
    requires start <= |s|
    decreases |s| - start
  {
    match FirstBoundary(s, start)
    case None => []
    case Some(i) => [s[i..RunEnd(s, i)]] + SeparatorsFrom(s, RunEnd(s, i))
  }

  /** `re.split(r'(?<=[.!?])\s+', s)`. */
  function SplitRaw(s: string): (pieces: seq<string>)
    ensures |pieces| >= 1
  {
    SplitFrom(s, 0)
  }

  /** Pieces and separators, alternating. */
  function Weave(pieces: seq<string>, seps: seq<string>): string
    decreases |pieces|
  {
    if |pieces| == 0 then ""
    else if |pieces| == 1 || |seps| == 0 then pieces[0]
    else pieces[0] + seps[0] + Weave(pieces[1..], seps[1..])
  }

  /** The comprehension `[p.strip() for p in pieces if p.strip()]`. */
  function Cleaned(pieces: seq<string>): (r: seq<string>)
    ensures |r| <= |pieces|
    ensures forall k :: 0 <= k < |r| ==> |r[k]| > 0 && IsStripped(r[k])
  {
    if |pieces| == 0 then []
    else
      var p := Strip(pieces[0]);
      (if |p| > 0 then [p] else []) + Cleaned(pieces[1..])
  }

  /** `_split_sentences`: every sentence is non-empty and stripped. */
  function SplitSentences(text: string): (r: seq<string>)
    ensures forall k :: 0 <= k < |r| ==> |r[k]| > 0 && IsStripped(r[k])
  {
    Cleaned(SplitRaw(text))
  }

  /** Without a boundary there is nothing to cut at. */
  lemma NoBoundaryNone(s: string, from: nat)
    requires forall j :: from <= j ==> !BoundaryAt(s, j)
    ensures FirstBoundary(s, from) == None
  {
    FirstBoundaryLeftmost(s, from);
  }

  /** The leftmost boundary is the one with no boundary before it. */
  lemma FirstBoundaryIs(s: string, i: nat)
    requires BoundaryAt(s, i)
    requires forall k :: 0 <= k < i ==> !BoundaryAt(s, k)
    ensures FirstBoundary(s, 0) == Some(i)
  {
    FirstBoundaryLeftmost(s, 0);
  }

  /** One cut of the split: the piece before the boundary, the run there, and the rest from the end of the run. */
  lemma SplitStep(s: string, start: nat, i: nat)
    requires start <= |s| && FirstBoundary(s, start) == Some(i)
    ensures start <= i <= RunEnd(s, i) <= |s|
    ensures SplitFrom(s, start) == [s[start..i]] + SplitFrom(s, RunEnd(s, i))
    ensures SeparatorsFrom(s, start) == [s[i..RunEnd(s, i)]] + SeparatorsFrom(s, RunEnd(s, i))
  {
  }

  /** A suffix is its three consecutive slices. */
  lemma SliceThree(s: string, start: nat, i: nat, e: nat)
    requires start <= i <= e <= |s|
    ensures s[start..] == s[start..i] + s[i..e] + s[e..]
  {
  }

  /** Weaving the pieces with the removed whitespace runs gives the text back. */
  lemma {:induction false} SplitRebuild(s: string, start: nat)
    requires start <= |s|
    ensures |SeparatorsFrom(s, start)| == |SplitFrom(s, start)| - 1
    ensures Weave(SplitFrom(s, start), SeparatorsFrom(s, start)) == s[start..]
    decreases |s| - start
  {
    match FirstBoundary(s, start)
    case None =>
    case Some(i) =>
      var e := RunEnd(s, i);
      SplitStep(s, start, i);
      SplitRebuild(s, e);
      WeaveCons(s[start..i], s[i..e], SplitFrom(s, e), SeparatorsFrom(s, e));
      SliceThree(s, start, i, e);
  }

  lemma WeaveCons(piece: string, sep: string, pieces: seq<string>, seps: seq<string>)
    requires |pieces| >= 1
    ensures Weave([piece] + pieces, [sep] + seps) == piece + sep + Weave(pieces, seps)
  {
    assert ([piece] + pieces)[1..] == pieces && ([sep] + seps)[1..] == seps;
  }

  /** Every removed run is non-empty whitespace. */
  lemma {:induction false} SeparatorsAreSpace(s: string, start: nat)
    requires start <= |s|
    ensures forall k :: 0 <= k < |SeparatorsFrom(s, start)| ==>
              |SeparatorsFrom(s, start)[k]| > 0 && AllSpace(SeparatorsFrom(s, start)[k])
    decreases |s| - start
  {
    match FirstBoundary(s, start)
    case None =>
    case Some(i) =>
      var e := RunEnd(s, i);
      RunEndSpaces(s, i);
      SeparatorsAreSpace(s, e);
      assert AllSpace(s[i..e]) by {
        forall k | 0 <= k < e - i ensures IsSpace(s[i..e][k]) { assert s[i..e][k] == s[i + k]; }
      }
  }

  /** A scan position the look-behind cannot match at: the start, or just after a non-sentence-end. */
  predicate ScanStart(s: string, start: nat) {
    start == 0 || (start <= |s| && !SentenceEnd(s[start - 1]))
  }

  /** Every piece followed by a removed run is non-empty and ends with `.`, `!` or `?`. */
  lemma {:induction false} PiecesEndSentences(s: string, start: nat)
    requires start <= |s| && ScanStart(s, start)
    ensures forall k :: 0 <= k < |SplitFrom(s, start)| - 1 ==>
              |SplitFrom(s, start)[k]| > 0 &&
              SentenceEnd(SplitFrom(s, start)[k][|SplitFrom(s, start)[k]| - 1])
    decreases |s| - start
  {
    match FirstBoundary(s, start)
    case None =>
    case Some(i) =>
      var e := RunEnd(s, i);
      RunEndSpaces(s, i);
      assert start < i;
      PiecesEndSentences(s, e);
      assert s[start..i][i - start - 1] == s[i - 1];
  }

  /** No piece holds a boundary of its own: the split cuts at every boundary and only there. */
  lemma {:induction false} PiecesHaveNoBoundary(s: string, start: nat)
    requires start <= |s|
    ensures forall k, j :: 0 <= k < |SplitFrom(s, start)| ==> !BoundaryAt(SplitFrom(s, start)[k], j)
    decreases |s| - start
  {
    FirstBoundaryLeftmost(s, start);
    match FirstBoundary(s, start)
    case None =>
      forall j ensures !BoundaryAt(s[start..], j) {
        if 0 < j < |s| - start {
          assert s[start..][j] == s[start + j] && s[start..][j - 1] == s[start + j - 1];
          assert !BoundaryAt(s, start + j);
        }
      }
    case Some(i) =>
      var e := RunEnd(s, i);
      PiecesHaveNoBoundary(s, e);
      forall j ensures !BoundaryAt(s[start..i], j) {
        if 0 < j < i - start {
          assert s[start..i][j] == s[start + j] && s[start..i][j - 1] == s[start + j - 1];
          assert !BoundaryAt(s, start + j);
        }
      }
  }

  /** The first piece from `start` on begins at `start`. */
  lemma FirstPieceAt(s: string, start: nat)
    requires start <= |s|
    ensures |SplitFrom(s, start)[0]| > 0 ==> start < |s| && SplitFrom(s, start)[0][0] == s[start]
  {
    match FirstBoundary(s, start)
    case None =>
    case Some(i) =>
      assert SplitFrom(s, start)[0] == s[start..i];
  }

  /** A piece after a cut never starts with whitespace: `\s+` takes the whole run. */
  lemma {:induction false} PiecesAfterCutStartSolid(s: string, start: nat)
    requires start <= |s|
    ensures forall k :: 0 < k < |SplitFrom(s, start)| && |SplitFrom(s, start)[k]| > 0 ==>
              !IsSpace(SplitFrom(s, start)[k][0])
    decreases |s| - start
  {
    match FirstBoundary(s, start)
    case None =>
    case Some(i) =>
      var e := RunEnd(s, i);
      var rest := SplitFrom(s, e);
      assert SplitFrom(s, start) == [s[start..i]] + rest;
      FirstPieceAt(s, e);
      PiecesAfterCutStartSolid(s, e);
      forall k | 0 < k < |SplitFrom(s, start)| && |SplitFrom(s, start)[k]| > 0
        ensures !IsSpace(SplitFrom(s, start)[k][0])
      {
        assert SplitFrom(s, start)[k] == rest[k - 1];
      }
  }

  /** The shape of `re.split` on the whole text. */
  lemma SplitRawShape(s: string)
    ensures |SeparatorsFrom(s, 0)| == |SplitRaw(s)| - 1
    ensures Weave(SplitRaw(s), SeparatorsFrom(s, 0)) == s
    ensures forall k :: 0 <= k < |SeparatorsFrom(s, 0)| ==>
              |SeparatorsFrom(s, 0)[k]| > 0 && AllSpace(SeparatorsFrom(s, 0)[k])
    ensures forall k :: 0 <= k < |SplitRaw(s)| - 1 ==>
              |SplitRaw(s)[k]| > 0 && SentenceEnd(SplitRaw(s)[k][|SplitRaw(s)[k]| - 1])
    ensures forall k, j :: 0 <= k < |SplitRaw(s)| ==> !BoundaryAt(SplitRaw(s)[k], j)
    ensures forall k :: 0 < k < |SplitRaw(s)| && |SplitRaw(s)[k]| > 0 ==> !IsSpace(SplitRaw(s)[k][0])
  {
    PiecesAfterCutStartSolid(s, 0);
    SplitRebuild(s, 0);
    SeparatorsAreSpace(s, 0);
    PiecesEndSentences(s, 0);
    PiecesHaveNoBoundary(s, 0);
  }

  /** Without a boundary, `re.split` returns the text as its only piece. */
  lemma NoBoundaryOnePiece(s: string)
    requires forall j :: !BoundaryAt(s, j)
    ensures SplitRaw(s) == [s]
  {
    NoBoundaryNone(s, 0);
    assert s[0..] == s;
  }

  /** Text with no boundary is one sentence: `[text.strip()]`, or `[]` when that is empty. */
  lemma NoBoundaryOneSentence(text: string)
    requires forall j :: !BoundaryAt(text, j)
    ensures SplitSentences(text) == (if Strip(text) == [] then [] else [Strip(text)])
  {
    NoBoundaryOnePiece(text);
  }

  /** Whitespace-only text holds no sentence. */
  lemma SpaceHasNoSentences(text: string)
    requires AllSpace(text)
    ensures SplitSentences(text) == []
  {
    assert forall j :: !BoundaryAt(text, j);
    NoBoundaryOneSentence(text);
    StripEmptyIffAllSpace(text);
  }

  /** The cut of `a + gap + b` at the end of `a`. */
  lemma TwoPieces(a: string, gap: string, b: string)
    requires |a| > 0 && SentenceEnd(a[|a| - 1])
    requires forall j :: !BoundaryAt(a, j)
    requires |gap| > 0 && AllSpace(gap)
    requires (|b| > 0 ==> !IsSpace(b[0])) && forall j :: !BoundaryAt(b, j)
    ensures SplitRaw(a + gap + b) == [a, b]
  {
    var s := a + gap + b;
    var e := |a| + |gap|;
    assert s[..|a|] == a && s[e..] == b;
    assert FirstBoundary(s, 0) == Some(|a|) by {
      assert s[|a| - 1] == a[|a| - 1] && s[|a|] == gap[0];
      forall k | 0 <= k < |a| ensures !BoundaryAt(s, k) {
        assert !BoundaryAt(a, k);
        assert s[k] == a[k];
        assert 0 < k ==> s[k - 1] == a[k - 1];
      }
      FirstBoundaryIs(s, |a|);
    }
    assert RunEnd(s, |a|) == e by {
      forall k | |a| <= k < e ensures IsSpace(s[k]) { assert s[k] == gap[k - |a|]; }
      assert e < |s| ==> s[e] == b[0];
      RunEndIs(s, |a|, e);
    }
    assert FirstBoundary(s, e) == None by {
      forall j | e <= j ensures !BoundaryAt(s, j) {
        if j == e { assert s[j - 1] == gap[|gap| - 1]; }
        else if BoundaryAt(s, j) { assert BoundaryAt(b, j - e); }
      }
      NoBoundaryNone(s, e);
    }
    assert s[0..|a|] == a;
    assert SplitFrom(s, e) == [b];
  }

  /** A sentence-end followed by whitespace and more text splits into two sentences. */
  lemma TwoSentences(a: string, gap: string, b: string)
    requires |a| > 0 && IsStripped(a) && SentenceEnd(a[|a| - 1])
    requires forall j :: !BoundaryAt(a, j)
    requires |gap| > 0 && AllSpace(gap)
    requires |b| > 0 && IsStripped(b) && forall j :: !BoundaryAt(b, j)
    ensures SplitSentences(a + gap + b) == [a, b]
  {
    TwoPieces(a, gap, b);
    StripStripped(a);
    StripStripped(b);
    assert Cleaned([a, b]) == [a] + Cleaned([b]);
  }

  // ---------------------------------------------------------------------
  // `stream_chat_response` and `get_full_response`

  /** The chunks `stream_chat_response` yields, in order; only `payloads[0]` is ever looked at. */
  function ChatChunks(userText: string, outcome: CliOutcome): seq<string> {
    if IsBlank(userText) then [NotCaught]
    else
      match outcome
      case Parsed(payloads) =>
        if |payloads| > 0 && Truthy(payloads[0].text) then SplitSentences(payloads[0].text.value)
        else [UnexpectedFormat]
      case DecodeError(stdout) => [RawOrReceived(stdout)]
      case NonZero => [ProcessingError]
      case Timeout => [TooLong]
      case NotFound(_) => [Unavailable]
      case Failed(message) => [WentWrong + message]
  }

  /** `get_full_response`: collects every chunk of the stream and joins them with single spaces. */
  method GetFullResponse(userText: string, outcome: CliOutcome) returns (r: string)
    ensures r == Join(" ", ChatChunks(userText, outcome))
  {
    var chunks := Collect(ChatChunks(userText, outcome));
    r := Join(" ", chunks);
  }

  /** The `async for` loop of `get_full_response`, appending each chunk the stream yields. */
  method Collect(stream: seq<string>) returns (chunks: seq<string>)
    ensures chunks == stream
  {
    chunks := [];
    var i := 0;
    while i < |stream|
      invariant 0 <= i <= |stream|
      invariant chunks == stream[..i]
    {
      chunks := chunks + [stream[i]];
      i := i + 1;
    }
    assert stream[..i] == stream;
  }

  /** Blank input: the stream is the single fixed request to repeat, so is the full response. */
  lemma BlankInputChunks(userText: string, outcome: CliOutcome)
    requires AllSpace(userText)
    ensures ChatChunks(userText, outcome) == [NotCaught]
    ensures Join(" ", ChatChunks(userText, outcome)) == NotCaught
  {
    StripEmptyIffAllSpace(userText);
  }

  /** A falsy first payload gives the format fallback whatever the later payloads carry. */
  lemma FirstPayloadOnly(userText: string, first: Payload, later: seq<Payload>)
    requires !IsBlank(userText)
    requires !Truthy(first.text)
    ensures ChatChunks(userText, Parsed([first] + later)) == [UnexpectedFormat]
  {
  }

  /** Every outcome other than a usable first payload yields exactly one non-empty chunk. */
  lemma SingleChunkOutcomes(userText: string, outcome: CliOutcome)
    requires IsBlank(userText) || !outcome.Parsed? ||
             !(|outcome.payloads| > 0 && Truthy(outcome.payloads[0].text))
    ensures |ChatChunks(userText, outcome)| == 1
    ensures |ChatChunks(userText, outcome)[0]| > 0
  {
  }

  /** A truthy but whitespace-only first payload makes the stream yield nothing at all. */
  lemma WhitespacePayloadYieldsNothing(userText: string, text: string, later: seq<Payload>)
    requires !IsBlank(userText)
    requires |text| > 0 && AllSpace(text)
    ensures ChatChunks(userText, Parsed([Payload(Some(text), None)] + later)) == []
  {
    SpaceHasNoSentences(text);
    FirstPayloadChunks(userText, [Payload(Some(text), None)] + later);
  }

  /** A truthy first payload is streamed sentence by sentence. */
  lemma FirstPayloadChunks(userText: string, payloads: seq<Payload>)
    requires !IsBlank(userText)
    requires |payloads| > 0 && Truthy(payloads[0].text)
    ensures ChatChunks(userText, Parsed(payloads)) == SplitSentences(payloads[0].text.value)
  {
  }

  // ---------------------------------------------------------------------
  // `get_all_responses`

  /** One dict of the returned list: `{"text": ..., "mediaUrl": ...}`. */
  datatype Reply = Reply(text: string, mediaUrl: Option<string>)

  /** The payloads with truthy text, in order, each with its `mediaUrl`. */
  function TextPayloads(payloads: seq<Payload>): (r: seq<Reply>)
    ensures |r| <= |payloads|
    ensures forall k :: 0 <= k < |r| ==> |r[k].text| > 0
  {
    if |payloads| == 0 then []
    else
      var last := payloads[|payloads| - 1];
      TextPayloads(payloads[..|payloads| - 1]) + (if Truthy(last.text) then [Reply(last.text.value, last.mediaUrl)] else [])
  }

  /** A single reply without media. */
  function Only(text: string): seq<Reply> { [Reply(text, None)] }

  /** What `get_all_responses` returns, for every outcome. */
  function AllResponses(userText: string, outcome: CliOutcome): seq<Reply> {
    if IsBlank(userText) then Only(NotCaught)
    else
      match outcome
      case Parsed(payloads) =>
        var found := TextPayloads(payloads);
        if |found| > 0 then found else Only(UnexpectedFormat)
      case DecodeError(stdout) => Only(RawOrReceived(stdout))
      case NonZero => Only(ProcessingError)
      case Timeout => Only(TooLong)
      case NotFound(_) => Only(Unavailable)
      case Failed(message) => Only(WentWrong + message)
  }

  /** The loop of `get_all_responses` that builds `results` from the payloads with truthy text. */
  method SelectTextPayloads(payloads: seq<Payload>) returns (results: seq<Reply>)
    ensures results == TextPayloads(payloads)
  {
    results := [];
    var i := 0;
    while i < |payloads|
      invariant 0 <= i <= |payloads|
      invariant results == TextPayloads(payloads[..i])
    {
      assert payloads[..i + 1][..i] == payloads[..i];
      var payload := payloads[i];
      if payload.text.Some? && |payload.text.value| > 0 {
        results := results + [Reply(payload.text.value, payload.mediaUrl)];
      }
      i := i + 1;
    }
    assert payloads[..i] == payloads;
  }

  /** `get_all_responses`. */
  method GetAllResponses(userText: string, outcome: CliOutcome) returns (results: seq<Reply>)
    ensures results == AllResponses(userText, outcome)
  {
    if IsBlank(userText) {
      return Only(NotCaught);
    }
    match outcome
    case Parsed(payloads) =>
      results := SelectTextPayloads(payloads);
      if |results| == 0 {
        results := Only(UnexpectedFormat);
      }
    case DecodeError(stdout) =>
      var raw := Strip(stdout);
      if |raw| > 0 {
        results := Only(raw);
      } else {
        results := Only(Received);
      }
    case NonZero => results := Only(ProcessingError);
    case Timeout => results := Only(TooLong);
    case NotFound(_) => results := Only(Unavailable);
    case Failed(message) => results := Only(WentWrong + message);
  }

  /** `get_all_responses` never returns an empty list, and every text in it is non-empty. */
  lemma AllResponsesNonEmpty(userText: string, outcome: CliOutcome)
    ensures |AllResponses(userText, outcome)| >= 1
    ensures forall k :: 0 <= k < |AllResponses(userText, outcome)| ==> |AllResponses(userText, outcome)[k].text| > 0
  {
    if !IsBlank(userText) && outcome.DecodeError? {
      assert |RawOrReceived(outcome.stdout)| > 0;
    }
  }

  /** A payload is kept exactly when its text is truthy. */
  lemma {:induction false} TextPayloadsExactly(payloads: seq<Payload>)
    ensures TextPayloads(payloads) == [] <==> forall k :: 0 <= k < |payloads| ==> !Truthy(payloads[k].text)
    ensures forall k :: 0 <= k < |payloads| && Truthy(payloads[k].text) ==>
              Reply(payloads[k].text.value, payloads[k].mediaUrl) in TextPayloads(payloads)
  {
    TextPayloadsNone(payloads);
    forall k | 0 <= k < |payloads| && Truthy(payloads[k].text)
      ensures Reply(payloads[k].text.value, payloads[k].mediaUrl) in TextPayloads(payloads)
    {
      TextPayloadsKeeps(payloads, k);
    }
  }

  /** Nothing is selected exactly when no payload has truthy text. */
  lemma {:induction false} TextPayloadsNone(payloads: seq<Payload>)
    ensures TextPayloads(payloads) == [] <==> forall k :: 0 <= k < |payloads| ==> !Truthy(payloads[k].text)
    decreases |payloads|
  {
    if |payloads| > 0 {
      var init := payloads[..|payloads| - 1];
      TextPayloadsNone(init);
      assert forall k :: 0 <= k < |init| ==> init[k] == payloads[k];
    }
  }

  /** A payload with truthy text is selected, with its `mediaUrl`. */
  lemma {:induction false} TextPayloadsKeeps(payloads: seq<Payload>, k: nat)
    requires k < |payloads| && Truthy(payloads[k].text)
    ensures Reply(payloads[k].text.value, payloads[k].mediaUrl) in TextPayloads(payloads)
    decreases |payloads|
  {
    var init := payloads[..|payloads| - 1];
    if k < |init| {
      assert init[k] == payloads[k];
      TextPayloadsKeeps(init, k);
    }
  }

  /** `TextPayloads` over a concatenation is the concatenation of the two selections. */
  lemma {:induction false} TextPayloadsAppend(a: seq<Payload>, b: seq<Payload>)
    ensures TextPayloads(a + b) == TextPayloads(a) + TextPayloads(b)
    decreases |b|
  {
    if |b| == 0 {
      assert a + b == a;
    } else {
      var b' := b[..|b| - 1];
      assert (a + b)[..|a + b| - 1] == a + b';
      assert (a + b)[|a + b| - 1] == b[|b| - 1];
      TextPayloadsAppend(a, b');
    }
  }

  /**
   * Where the two entry points differ: with a falsy first payload and a
   * truthy second one, the stream gives the format fallback while
   * `get_all_responses` returns the second payload's text.
   */
  lemma LaterPayloadReachesOnlyAllResponses(userText: string, first: Payload, second: Payload)
    requires !IsBlank(userText)
    requires !Truthy(first.text) && Truthy(second.text)
    ensures ChatChunks(userText, Parsed([first, second])) == [UnexpectedFormat]
    ensures AllResponses(userText, Parsed([first, second])) == [Reply(second.text.value, second.mediaUrl)]
  {
    var payloads := [first, second];
    assert payloads[..1] == [first] && [first][..0] == [];
    assert TextPayloads([first]) == [];
    assert TextPayloads(payloads) == [Reply(second.text.value, second.mediaUrl)];
  }

  /** Outside a parsed reply, both entry points answer with the same single text. */
  lemma SameFallbacks(userText: string, outcome: CliOutcome)
    requires IsBlank(userText) || !outcome.Parsed?
    ensures |AllResponses(userText, outcome)| == 1
    ensures ChatChunks(userText, outcome) == [AllResponses(userText, outcome)[0].text]
  {
  }

  // ---------------------------------------------------------------------
  // `get_main_session_id`

  const MainSessionKey: string := "agent:main:main"

  /**
   * `get_main_session_id` over the contents of `sessions.json`: `None` when
   * the file is missing or unreadable, else each key's `sessionId` entry.
   * Falls back to the key itself unless a non-empty id is recorded.
   */
  function MainSessionId(index: Option<map<string, Option<string>>>): (r: string)
    ensures |r| > 0
    ensures r != MainSessionKey ==>
              index.Some? && MainSessionKey in index.value && index.value[MainSessionKey] == Some(r)
    ensures index.Some? && MainSessionKey in index.value && Truthy(index.value[MainSessionKey]) ==>
              r == index.value[MainSessionKey].value
  {
    if index.Some? && MainSessionKey in index.value && Truthy(index.value[MainSessionKey]) then
      index.value[MainSessionKey].value
    else MainSessionKey
  }
}
