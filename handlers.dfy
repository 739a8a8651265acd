/**
 * The decisions the HTTP handlers of the voice backend make without help
 * from the outside world: which upload names and formats they accept, how
 * text is put into the Piper shell command, which cached file a requested
 * name resolves to, and what text `_process_chat` answers with for each way
 * the `openclaw` run can end.
 *
 * Whisper, Piper and the CLI are not run: each handler is given how that run
 * ended (`WhisperRun`, `PiperRun`, `CliOutcome`), and fresh identifiers
 * (`uuid4().hex`) arrive as parameters.
 */
module Handlers {
  import opened Common
  import opened Text
  import opened Responses

  // ---------------------------------------------------------------------
  // Upload names and the audio-format allow-lists

  const DefaultUploadName: string := "audio.wav"

  /** `file.filename or "audio.wav"`: a missing or empty name becomes the default. */
  function UploadName(filename: Option<string>): string {
    if filename.Some? && |filename.value| > 0 then filename.value else DefaultUploadName
  }

  /** `name.split('.')[-1].lower()`. */
  function ExtensionOf(name: string): string {
    var parts := Split(name, '.');
    Lower(parts[|parts| - 1])
  }

  /** The extension of an upload, as both upload handlers compute it. */
  function Extension(filename: Option<string>): string {
    ExtensionOf(UploadName(filename))
  }

  /** An extension never holds a dot. */
  lemma ExtensionHasNoDot(name: string)
    ensures '.' !in ExtensionOf(name)
  {
    var parts := Split(name, '.');
    LowerKeeps(parts[|parts| - 1], '.');
  }

  /** The extension is everything after the last dot, lowered. */
  lemma ExtensionAfterLastDot(stem: string, ext: string)
    requires '.' !in ext
    ensures Extension(Some(stem + "." + ext)) == Lower(ext)
  {
    SplitLast(stem, ext, '.');
  }

  /** A name without a dot is its own extension, lowered. */
  lemma ExtensionWithoutDot(name: string)
    requires |name| > 0 && '.' !in name
    ensures Extension(Some(name)) == Lower(name)
  {
    SplitWithout(name, '.');
  }

  /** A missing or empty upload name is read as a WAV upload. */
  lemma DefaultExtension(filename: Option<string>)
    requires filename == None || filename == Some("")
    ensures Extension(filename) == "wav"
  {
    assert UploadName(filename) == "audio" + "." + "wav";
    ExtensionAfterLastDot("audio", "wav");
    LowerWav();
  }

  lemma LowerWav()
    ensures Lower("wav") == "wav"
  {
    var w := Lower("wav");
    assert w[0] == 'w' && w[1] == 'a' && w[2] == 'v';
  }

  /** What `/voice/transcribe` accepts. */
  const TranscribeFormats: set<string> := {"wav", "webm", "mp3", "m4a"}

  /** What `/voice/chat/audio` accepts. */
  const ChatAudioFormats: set<string> := {"wav", "webm", "mp3", "m4a", "mp4", "ogg", "oga"}

  /** The chat upload accepts strictly more: exactly `mp4`, `ogg` and `oga` besides the transcribe list. */
  lemma ChatAcceptsMore()
    ensures TranscribeFormats < ChatAudioFormats
    ensures ChatAudioFormats - TranscribeFormats == {"mp4", "ogg", "oga"}
  {
  }

  /** The 400 rejection both upload handlers raise for an extension outside their list. */
  function CheckFormat(ext: string, allowed: set<string>): (r: Result<string>)
    ensures r.Ok? <==> ext in allowed
    ensures r.Ok? ==> r.value == ext
    ensures r.Err? ==> r.error == HttpError(400, "Unsupported audio format: " + ext)
  {
    if ext in allowed then Ok(ext) else Err(HttpError(400, "Unsupported audio format: " + ext))
  }

  // ---------------------------------------------------------------------
  // `/voice/transcribe` and `/voice/chat/audio`

  /** How the Whisper run on a saved upload ended. */
  datatype WhisperRun =
    | WhisperFailed(stderr: string)  // a non-zero exit status
    | NoTranscript                   // exit status 0, but no `{id}.txt` was written
    | Transcript(text: string)       // the contents of `{id}.txt`

  /** `transcribe_audio`: the stripped transcript, or the error the handler raises. */
  function TranscribeAudio(filename: Option<string>, whisper: WhisperRun): (r: Result<string>)
    ensures Extension(filename) !in TranscribeFormats ==>
              r == Err(HttpError(400, "Unsupported audio format: " + Extension(filename)))
    ensures r.Ok? <==> Extension(filename) in TranscribeFormats && whisper.Transcript?
    ensures r.Ok? ==> r.value == Strip(whisper.text)
    ensures r.Err? && Extension(filename) in TranscribeFormats ==> r.error.status == 500
  {
    var ext := Extension(filename);
    if ext !in TranscribeFormats then Err(HttpError(400, "Unsupported audio format: " + ext))
    else
      match whisper
      case WhisperFailed(stderr) => Err(HttpError(500, "Transcription failed: " + stderr))
      case NoTranscript => Err(HttpError(500, "Whisper did not produce output file"))
      case Transcript(text) => Ok(Strip(text))
  }

  // ---------------------------------------------------------------------
  // `_process_chat`

  const Processed: string := "I processed your message."
  const NoText: HttpError := HttpError(400, "No text provided")

  /** `"I heard: {user_text}. "`, the start of every failure answer. */
  function Heard(userText: string): string { "I heard: " + userText + ". " }

  /** The text `_process_chat` answers with, for each way the CLI run can end. */
  function ChatResponseText(userText: string, outcome: CliOutcome): (r: string)
    ensures |r| > 0
    ensures outcome.Parsed? && |outcome.payloads| > 0 && Truthy(outcome.payloads[0].text) ==>
              r == outcome.payloads[0].text.value
    ensures outcome.Parsed? && !(|outcome.payloads| > 0 && Truthy(outcome.payloads[0].text)) ==> r == Processed
    ensures outcome.DecodeError? ==> r == RawOrReceived(outcome.stdout)
    ensures outcome.NonZero? ==> r == Heard(userText) + "Processing encountered an issue."
    ensures outcome.Timeout? ==> r == Heard(userText) + "Response timed out."
    ensures outcome.NotFound? || outcome.Failed? ==> r == Heard(userText) + "Error: " + outcome.message
  {
    match outcome
    case Parsed(payloads) =>
      if |payloads| > 0 && Truthy(payloads[0].text) then payloads[0].text.value else Processed
    case DecodeError(stdout) => RawOrReceived(stdout)
    case NonZero => Heard(userText) + "Processing encountered an issue."
    case Timeout => Heard(userText) + "Response timed out."
    case NotFound(message) => Heard(userText) + "Error: " + message
    case Failed(message) => Heard(userText) + "Error: " + message
  }

  /** The JSON body `_process_chat` returns. */
  datatype ChatReply = ChatReply(userText: string, text: string, audioUrl: string)

  /** `"/voice/audio/{audio_id}.wav"`. */
  function AudioUrl(audioId: string): string { AudioRoute + audioId + ".wav" }

  const AudioRoute: string := "/voice/audio/"

  /**
   * `_process_chat`: empty text is refused before the CLI is asked; otherwise
   * the reply echoes the input, carries the chosen text and names the audio
   * file. The Piper run's result is not looked at, so it is no parameter.
   */
  function ProcessChat(userText: string, outcome: CliOutcome, audioId: string): (r: Result<ChatReply>)
    ensures r.Err? <==> userText == []
    ensures r.Err? ==> r.error == NoText
    ensures r.Ok? ==> r.value.userText == userText && r.value.audioUrl == AudioUrl(audioId)
    ensures r.Ok? ==> r.value.text == ChatResponseText(userText, outcome)
  {
    if userText == [] then Err(NoText)
    else Ok(ChatReply(userText, ChatResponseText(userText, outcome), AudioUrl(audioId)))
  }

  /** Every failure of the CLI run answers by repeating the user's words. */
  lemma FailuresRepeatInput(userText: string, outcome: CliOutcome)
    requires outcome.NonZero? || outcome.Timeout? || outcome.NotFound? || outcome.Failed?
    ensures var r := ChatResponseText(userText, outcome);
            |Heard(userText)| < |r| && r[..|Heard(userText)|] == Heard(userText)
  {
    var r := ChatResponseText(userText, outcome);
    var h := Heard(userText);
    match outcome
    case NonZero => assert r == h + "Processing encountered an issue.";
    case Timeout => assert r == h + "Response timed out.";
    case NotFound(message) => assert r == h + ("Error: " + message);
    case Failed(message) => assert r == h + ("Error: " + message);
  }

  /**
   * Where `_process_chat` and `get_all_responses` agree: a usable first
   * payload, or a reply that is not JSON, gives the same first text.
   */
  lemma SameFirstReply(userText: string, outcome: CliOutcome)
    requires !IsBlank(userText)
    requires outcome.DecodeError? || (outcome.Parsed? && |outcome.payloads| > 0 && Truthy(outcome.payloads[0].text))
    ensures |AllResponses(userText, outcome)| > 0
    ensures AllResponses(userText, outcome)[0].text == ChatResponseText(userText, outcome)
  {
    match outcome
    case DecodeError(stdout) =>
    case Parsed(p) =>
      assert ChatResponseText(userText, outcome) == p[0].text.value;
      FirstTextPayload(p);
      assert AllResponses(userText, outcome) == TextPayloads(p);
  }

  /** A truthy first payload is the first selected reply. */
  lemma FirstTextPayload(p: seq<Payload>)
    requires |p| > 0 && Truthy(p[0].text)
    ensures |TextPayloads(p)| > 0 && TextPayloads(p)[0] == Reply(p[0].text.value, p[0].mediaUrl)
  {
    TextPayloadsAppend([p[0]], p[1..]);
    assert [p[0]] + p[1..] == p;
    assert [p[0]][..0] == [];
    assert TextPayloads([p[0]]) == [Reply(p[0].text.value, p[0].mediaUrl)];
  }

  /**
   * Where they differ: a first payload without text gives the fixed answer
   * here, while `get_all_responses` returns the second payload's text.
   */
  lemma OnlyFirstPayloadCounts(userText: string, first: Payload, second: Payload)
    requires !IsBlank(userText)
    requires !Truthy(first.text) && Truthy(second.text)
    ensures ChatResponseText(userText, Parsed([first, second])) == Processed
    ensures AllResponses(userText, Parsed([first, second]))[0].text == second.text.value
  {
    LaterPayloadReachesOnlyAllResponses(userText, first, second);
  }

  /**
   * Whitespace-only text is not refused by `_process_chat` (only empty text
   * is), although `stream_chat_response` refuses it.
   */
  lemma WhitespaceIsProcessed(userText: string, outcome: CliOutcome, audioId: string)
    requires |userText| > 0 && AllSpace(userText)
    ensures ProcessChat(userText, outcome, audioId).Ok?
    ensures ChatChunks(userText, outcome) == [NotCaught]
  {
    BlankInputChunks(userText, outcome);
  }

  /** `chat_audio`: format check, transcription, then `_process_chat` on the stripped transcript. */
  function ChatAudio(filename: Option<string>, whisper: WhisperRun, outcome: CliOutcome, audioId: string): (r: Result<ChatReply>)
    ensures Extension(filename) !in ChatAudioFormats ==>
              r == Err(HttpError(400, "Unsupported audio format: " + Extension(filename)))
    ensures Extension(filename) in ChatAudioFormats && whisper.Transcript? ==>
              r == ProcessChat(Strip(whisper.text), outcome, audioId)
    ensures Extension(filename) in ChatAudioFormats && !whisper.Transcript? ==> r.Err? && r.error.status == 500
  {
    var ext := Extension(filename);
    if ext !in ChatAudioFormats then Err(HttpError(400, "Unsupported audio format: " + ext))
    else
      match whisper
      case WhisperFailed(stderr) => Err(HttpError(500, "Transcription failed: " + stderr))
      case NoTranscript => Err(HttpError(500, "Transcription produced no output"))
      case Transcript(text) => ProcessChat(Strip(text), outcome, audioId)
  }

  /** A recording that transcribes to nothing but whitespace is refused with 400. */
  lemma SilentRecordingRefused(filename: Option<string>, text: string, outcome: CliOutcome, audioId: string)
    requires Extension(filename) in ChatAudioFormats
    requires AllSpace(text)
    ensures ChatAudio(filename, Transcript(text), outcome, audioId) == Err(NoText)
  {
    StripEmptyIffAllSpace(text);
  }

  /** An upload `/voice/transcribe` takes as audio is taken by `/voice/chat/audio` too. */
  lemma TranscribableIsChattable(filename: Option<string>, text: string, outcome: CliOutcome, audioId: string)
    requires TranscribeAudio(filename, Transcript(text)).Ok?
    ensures ChatAudio(filename, Transcript(text), outcome, audioId) ==
              ProcessChat(TranscribeAudio(filename, Transcript(text)).value, outcome, audioId)
  {
  }

  // ---------------------------------------------------------------------
  // `safe_text`, as written

  const EscapedDouble: string := "\\\""
  const EscapedSingle: string := "'\\''"

  /** `text.replace('"', '\\"').replace("'", "'\\''")`. */
  function SafeText(s: string): string {
    Replace(Replace(s, '"', EscapedDouble), '\'', EscapedSingle)
  }

  /** What `safe_text` makes of one character. */
  function EscapeQuote(c: char): string {
    if c == '"' then EscapedDouble else if c == '\'' then EscapedSingle else [c]
  }

  /** The character-by-character reading of `safe_text`. */
  function QuotesEscaped(s: string): string {
    if |s| == 0 then [] else EscapeQuote(s[0]) + QuotesEscaped(s[1..])
  }

  /** `Replace` of a single character. */
  lemma ReplaceOne(x: char, c: char, r: string)
    ensures Replace([x], c, r) == if x == c then r else [x]
  {
    assert [x][1..] == [];
  }

  /** The two replacements in source order act on each character on its own. */
  lemma {:induction false} SafeTextPerChar(s: string)
    ensures SafeText(s) == QuotesEscaped(s)
  {
    if |s| > 0 {
      var h := if s[0] == '"' then EscapedDouble else [s[0]];
      var t := Replace(s[1..], '"', EscapedDouble);
      assert Replace(s, '"', EscapedDouble) == h + t;
      ReplaceAppend(h, t, '\'', EscapedSingle);
      if s[0] == '"' {
        ReplaceAbsent(EscapedDouble, '\'', EscapedSingle);
      } else {
        ReplaceOne(s[0], '\'', EscapedSingle);
      }
      SafeTextPerChar(s[1..]);
    }
  }

  /** Escaping the single quotes first gives the same text. */
  lemma {:induction false} QuotesFirstPerChar(s: string)
    ensures Replace(Replace(s, '\'', EscapedSingle), '"', EscapedDouble) == QuotesEscaped(s)
  {
    if |s| > 0 {
      var h := if s[0] == '\'' then EscapedSingle else [s[0]];
      var t := Replace(s[1..], '\'', EscapedSingle);
      assert Replace(s, '\'', EscapedSingle) == h + t;
      ReplaceAppend(h, t, '"', EscapedDouble);
      if s[0] == '\'' {
        ReplaceAbsent(EscapedSingle, '"', EscapedDouble);
      } else {
        ReplaceOne(s[0], '"', EscapedDouble);
      }
      QuotesFirstPerChar(s[1..]);
    }
  }

  /** The two replacements commute. */
  lemma SafeTextCommutes(s: string)
    ensures Replace(Replace(s, '\'', EscapedSingle), '"', EscapedDouble) == SafeText(s)
  {
    SafeTextPerChar(s);
    QuotesFirstPerChar(s);
  }

  /** Each `"` adds one character and each `'` three. */
  lemma SafeTextLength(s: string)
    ensures |SafeText(s)| == |s| + Count(s, '"') + 3 * Count(s, '\'')
  {
    var once := Replace(s, '"', EscapedDouble);
    ReplaceLength(s, '"', EscapedDouble);
    ReplaceLength(once, '\'', EscapedSingle);
    CountAfterReplace(s, '"', EscapedDouble, '\'');
    assert Count(EscapedDouble, '\'') == 0;
  }

  /** Text without quotes passes through unchanged, `$`, backtick and backslash included. */
  lemma SafeTextKeepsUnquoted(s: string)
    requires '"' !in s && '\'' !in s
    ensures SafeText(s) == s
  {
    ReplaceAbsent(s, '"', EscapedDouble);
    ReplaceAbsent(s, '\'', EscapedSingle);
  }

  // ---------------------------------------------------------------------
  // How the shell reads the text between `echo "` and `"`

  /** The characters a backslash escapes inside a double-quoted shell word. */
  predicate Escapable(c: char) { c == '$' || c == '`' || c == '"' || c == '\\' }

  function Prepend(c: char, r: Option<string>): Option<string> {
    if r.Some? then Some([c] + r.value) else None
  }

  /**
   * The literal value of `"body"` as a POSIX shell reads it (section 2.2.3
   * of the Shell Command Language): a backslash before `$`, backtick, `"`
   * or `\` escapes it, before a newline joins the lines, and is kept before
   * anything else. `None` when `body` is not a literal: an unescaped `"`
   * closes the quotes early, an unescaped `$` or backtick may expand, and a
   * trailing backslash escapes the closing quote.
   */
  function Unquote(body: string): Option<string>
    decreases |body|
  {
    if |body| == 0 then Some([])
    else if body[0] == '\\' then
      if |body| == 1 then None
      else if Escapable(body[1]) then Prepend(body[1], Unquote(body[2..]))
      else if body[1] == '\n' then Unquote(body[2..])
      else Prepend('\\', Unquote(body[1..]))
    else if body[0] == '"' || body[0] == '$' || body[0] == '`' then None
    else Prepend(body[0], Unquote(body[1..]))
  }

  lemma UnquoteLiteral(c: char, rest: string)
    requires !Escapable(c)
    ensures Unquote([c] + rest) == Prepend(c, Unquote(rest))
  {
    assert ([c] + rest)[1..] == rest;
  }

  /** A backslash before anything it does not escape is kept. */
  lemma UnquoteKeptBackslash(c: char, rest: string)
    requires !Escapable(c) && c != '\n'
    ensures Unquote(['\\', c] + rest) == Prepend('\\', Unquote([c] + rest))
  {
    assert (['\\', c] + rest)[1..] == [c] + rest;
  }

  /** `'\''` inside double quotes is four literal characters. */
  lemma UnquoteEscapedSingle(rest: string)
    ensures Unquote(EscapedSingle + rest) == Prepend('\'', Prepend('\\', Prepend('\'', Prepend('\'', Unquote(rest)))))
  {
    assert EscapedSingle + rest == ['\''] + (['\\', '\''] + (['\''] + rest));
    UnquoteLiteral('\'', ['\\', '\''] + (['\''] + rest));
    assert ['\\', '\''] + (['\''] + rest) == ['\\', '\''] + ("'" + rest);
    UnquoteKeptBackslash('\'', "'" + rest);
    assert ['\''] + ("'" + rest) == ['\''] + (['\''] + rest);
    UnquoteLiteral('\'', ['\''] + rest);
    UnquoteLiteral('\'', rest);
  }

  /** Text with no character the shell treats specially inside double quotes. */
  predicate NoShellSpecials(s: string) { forall i :: 0 <= i < |s| ==> !Escapable(s[i]) }

  /** For such text, `safe_text` gives a literal the shell reads back as the escaped text itself. */
  lemma {:induction false} EscapedPlainIsLiteral(s: string)
    requires NoShellSpecials(s)
    ensures Unquote(QuotesEscaped(s)) == Some(QuotesEscaped(s))
  {
    if |s| > 0 {
      var rest := QuotesEscaped(s[1..]);
      assert NoShellSpecials(s[1..]) by {
        forall i | 0 <= i < |s[1..]| ensures !Escapable(s[1..][i]) { assert s[1..][i] == s[i + 1]; }
      }
      EscapedPlainIsLiteral(s[1..]);
      assert !Escapable(s[0]);
      if s[0] == '\'' {
        UnquoteEscapedSingle(rest);
        assert QuotesEscaped(s) == EscapedSingle + rest;
        assert ['\''] + (['\\'] + (['\''] + (['\''] + rest))) == EscapedSingle + rest;
      } else {
        UnquoteLiteral(s[0], rest);
      }
    }
  }

  /**
   * Every apostrophe reaches Piper as `'\''`: text made of letters, spaces,
   * punctuation and at least one `'` is spoken longer than it was written.
   */
  lemma ApostropheIsSpokenEscaped(s: string)
    requires NoShellSpecials(s) && '\'' in s
    ensures Unquote(SafeText(s)) == Some(SafeText(s))
    ensures Unquote(SafeText(s)) != Some(s)
  {
    SafeTextPerChar(s);
    EscapedPlainIsLiteral(s);
    SafeTextLength(s);
    var i :| 0 <= i < |s| && s[i] == '\'';
    CountPositive(s, i, '\'');
  }

  lemma {:induction false} CountPositive(s: string, i: nat, c: char)
    requires i < |s| && s[i] == c
    ensures Count(s, c) > 0
  {
    if i > 0 { CountPositive(s[1..], i - 1, c); }
  }

  /** The input `it's` is echoed as `it'\''s`. */
  lemma ItsIsMangled()
    ensures Unquote(SafeText("it's")) == Some("it'\\''s")
  {
    var its := "it's";
    assert its[2] == '\'';
    assert NoShellSpecials(its);
    ApostropheIsSpokenEscaped(its);
    SafeTextPerChar(its);
    assert its[1..] == "t's" && its[1..][1..] == "'s" && its[1..][1..][1..] == "s" && "s"[1..] == [];
    assert QuotesEscaped("s") == "s";
    assert QuotesEscaped("'s") == EscapedSingle + "s";
    assert QuotesEscaped(its) == "it" + EscapedSingle + "s";
    assert "it" + EscapedSingle + "s" == "it'\\''s";
  }

  /** A `$(...)` in the text is left for the shell to run. */
  lemma CommandSubstitutionPassesThrough()
    ensures SafeText("$(reboot)") == "$(reboot)"
    ensures Unquote(SafeText("$(reboot)")) == None
  {
    SafeTextKeepsUnquoted("$(reboot)");
  }

  // ---------------------------------------------------------------------
  // Quoting for `echo "{text}"`, corrected

  /** A backslash before each character the shell would otherwise act on. */
  function QuoteChar(c: char): string { if Escapable(c) then ['\\', c] else [c] }

  /** The body to put between `echo "` and `"` so that the shell reads back `s`. */
  function EchoQuote(s: string): (q: string)
    ensures |q| >= |s|
  {
    if |s| == 0 then [] else QuoteChar(s[0]) + EchoQuote(s[1..])
  }

  /** The shell reads back exactly the text, whatever it holds. */
  lemma {:induction false} EchoQuoteRoundTrip(s: string)
    ensures Unquote(EchoQuote(s)) == Some(s)
  {
    if |s| > 0 {
      var rest := EchoQuote(s[1..]);
      var b := QuoteChar(s[0]) + rest;
      EchoQuoteRoundTrip(s[1..]);
      if Escapable(s[0]) {
        assert b[0] == '\\' && b[1] == s[0] && b[2..] == rest;
      } else {
        UnquoteLiteral(s[0], rest);
      }
      assert [s[0]] + s[1..] == s;
    }
  }

  /** Text without special characters is quoted as itself, as `safe_text` would leave it. */
  lemma {:induction false} EchoQuotePlain(s: string)
    requires NoShellSpecials(s) && '\'' !in s
    ensures EchoQuote(s) == s && SafeText(s) == s
  {
    SafeTextKeepsUnquoted(s);
    if |s| > 0 {
      assert NoShellSpecials(s[1..]) by {
        forall i | 0 <= i < |s[1..]| ensures !Escapable(s[1..][i]) { assert s[1..][i] == s[i + 1]; }
      }
      EchoQuotePlain(s[1..]);
      assert [s[0]] + s[1..] == s;
    }
  }

  // ---------------------------------------------------------------------
  // `/voice/speak`

  const PiperModel: string := "/Users/rich/Projects/piper-models/en_US-lessac-medium.onnx"
  const AudioCacheDir: string := "audio_cache"

  /** The command text before and after the quoted body of `PIPER_CMD`. */
  const EchoPrefix: string := "eval \"$(pyenv init -)\" && echo \""
  function EchoSuffix(outputFile: string): string { "\" | piper -m " + PiperModel + " -f " + outputFile }

  /** `PIPER_CMD` filled in as written, with `safe_text`. */
  function PiperCommandAsWritten(text: string, outputFile: string): string {
    EchoPrefix + SafeText(text) + EchoSuffix(outputFile)
  }

  /** `PIPER_CMD` filled in with the body the shell reads back as `text`. */
  function PiperCommand(text: string, outputFile: string): (cmd: string)
    ensures |cmd| >= |EchoPrefix| + |EchoSuffix(outputFile)|
    ensures cmd[..|EchoPrefix|] == EchoPrefix
    ensures cmd[|cmd| - |EchoSuffix(outputFile)|..] == EchoSuffix(outputFile)
  {
    EchoPrefix + EchoQuote(text) + EchoSuffix(outputFile)
  }

  /** What stands between the fixed parts of the command is read back by the shell as the text. */
  lemma PiperCommandQuotesText(text: string, outputFile: string)
    ensures var cmd := PiperCommand(text, outputFile);
            Unquote(cmd[|EchoPrefix|..|cmd| - |EchoSuffix(outputFile)|]) == Some(text)
  {
    var cmd := PiperCommand(text, outputFile);
    assert cmd[|EchoPrefix|..|cmd| - |EchoSuffix(outputFile)|] == EchoQuote(text);
    EchoQuoteRoundTrip(text);
  }

  /** The command as written makes the shell echo `it'\''s` for `it's`. */
  lemma PiperCommandAsWrittenMangles(outputFile: string)
    ensures var cmd := PiperCommandAsWritten("it's", outputFile);
            Unquote(cmd[|EchoPrefix|..|cmd| - |EchoSuffix(outputFile)|]) == Some("it'\\''s")
  {
    var cmd := PiperCommandAsWritten("it's", outputFile);
    assert cmd[|EchoPrefix|..|cmd| - |EchoSuffix(outputFile)|] == SafeText("it's");
    ItsIsMangled();
  }

  /** How the Piper run for `/voice/speak` ended. */
  datatype PiperRun =
    | PiperFailed(stderr: string)  // a non-zero exit status
    | NoAudio                      // exit status 0, but no `{id}.wav` was written
    | Spoken                       // the audio file exists

  /** `speak`: the URL of the new audio file, or the error the handler raises. */
  function Speak(audioId: string, piper: PiperRun): (r: Result<string>)
    ensures r.Ok? <==> piper.Spoken?
    ensures r.Ok? ==> r.value == AudioUrl(audioId)
    ensures r.Err? ==> r.error.status == 500
    ensures piper.PiperFailed? ==> r.error.detail == "Text-to-speech failed: " + piper.stderr
  {
    match piper
    case PiperFailed(stderr) => Err(HttpError(500, "Text-to-speech failed: " + stderr))
    case NoAudio => Err(HttpError(500, "Piper did not produce output file"))
    case Spoken => Ok(AudioUrl(audioId))
  }

  // ---------------------------------------------------------------------
  // `/voice/audio/{filename}`

  /** A path component `pathlib` keeps: not empty (from `//` or a trailing `/`) and not `.`. */
  predicate Kept(part: string) { part != [] && part != "." }

  /** The kept components, in order. */
  function Components(parts: seq<string>): (r: seq<string>)
    ensures |r| <= |parts|
    ensures forall k :: 0 <= k < |r| ==> r[k] in parts && Kept(r[k])
  {
    if |parts| == 0 then []
    else
      var last := parts[|parts| - 1];
      Components(parts[..|parts| - 1]) + (if Kept(last) then [last] else [])
  }

  /** `Path(filename).name`: the last kept component, or `""` when there is none. */
  function BaseName(path: string): (name: string)
    ensures '/' !in name
    ensures name != "."
  {
    var cs := Components(Split(path, '/'));
    if |cs| == 0 then [] else cs[|cs| - 1]
  }

  /** The last component is the name, whatever directories precede it. */
  lemma BaseNameAfterDirectory(dir: string, name: string)
    requires '/' !in name && Kept(name)
    ensures BaseName(dir + "/" + name) == name
  {
    SplitLast(dir, name, '/');
  }

  /** A plain file name is its own base name. */
  lemma BaseNameOfName(name: string)
    requires '/' !in name && Kept(name)
    ensures BaseName(name) == name
  {
    SplitWithout(name, '/');
    assert [name][..0] == [];
  }

  /** `serve_audio`: the cached file the name resolves to, or 404 when it does not exist. */
  function ServeAudio(filename: string, present: set<string>): (r: Result<string>)
    ensures r.Ok? <==> BaseName(filename) in present
    ensures r.Err? ==> r.error == HttpError(404, "File not found")
    ensures r.Ok? ==> var n := |AudioCacheDir| + 1;
              |r.value| >= n && r.value[..n] == AudioCacheDir + "/" && '/' !in r.value[n..]
    ensures r.Ok? ==> r.value == AudioCacheDir + "/" + BaseName(filename)
  {
    var name := BaseName(filename);
    if name in present then
      var path := AudioCacheDir + "/" + name;
      assert path[|AudioCacheDir| + 1..] == name;
      Ok(path)
    else Err(HttpError(404, "File not found"))
  }

  /** The file an audio URL names is the one served from the cache. */
  lemma AudioUrlIsServed(audioId: string, present: set<string>)
    requires '/' !in audioId
    requires audioId + ".wav" in present
    ensures var url := AudioUrl(audioId);
            ServeAudio(url[|AudioRoute|..], present) == Ok(AudioCacheDir + "/" + audioId + ".wav")
  {
    var url := AudioUrl(audioId);
    var file := audioId + ".wav";
    assert url[|AudioRoute|..] == file;
    assert '/' !in ".wav";
    assert '/' !in file;
    assert file[|file| - 1] == 'v';
    BaseNameOfName(file);
    assert AudioCacheDir + "/" + audioId + ".wav" == AudioCacheDir + "/" + file;
  }
}
