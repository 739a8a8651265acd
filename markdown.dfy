/**
 * `strip_markdown`: fifteen regular-expression substitutions applied one
 * after the other to the assistant's reply, then `strip`, so that the
 * text-to-speech engine does not read markup aloud.
 *
 * Every pattern is modelled by a matcher that decides, from one position of
 * the text, whether the pattern matches there, where the match ends and what
 * replaces it. The backtracking of each pattern is resolved by hand: all of
 * them are deterministic once written out (a greedy `[^*]+` can only stop at
 * the first `*`, `#{1,6}\s+` fails when seven `#` follow, `\s*$` backs off to
 * the last line end inside the whitespace run). `SubFrom` is the scan
 * `re.sub` performs: try the pattern at the current position, emit the
 * replacement and continue after the match, or copy one character and move
 * on. Anchors and lookarounds (`^` under `re.MULTILINE`, `(?<!\w)`, `(?!\w)`)
 * read the text as it was before the pass, as they do in `re.sub`.
 */
module Markdown {
  import opened Common
  import opened Text

  /** The patterns of `strip_markdown`, one per `re.sub` call. */
  datatype Pattern =
    | Fence             // ```[\s\S]*?```            -> ''
    | InlineCode        // `([^`]+)`                 -> \1
    | BoldStars         // \*\*([^*]+)\*\*           -> \1
    | BoldUnderscores   // __([^_]+)__               -> \1
    | ItalicStar        // (?<!\w)\*([^*]+)\*(?!\w)  -> \1
    | ItalicUnderscore  // (?<!\w)_([^_]+)_(?!\w)    -> \1
    | Heading           // ^#{1,6}\s+                -> ''
    | Link              // \[([^\]]+)\]\([^)]+\)     -> \1
    | Image             // !\[([^\]]*)\]\([^)]+\)    -> \1
    | BlockQuote        // ^>\s+                     -> ''
    | Rule              // ^[-*_]{3,}\s*$            -> ''
    | Bullet            // ^\s*[-*+]\s+              -> ''
    | Numbered          // ^\s*\d+\.\s+              -> ''
    | Strike            // ~~([^~]+)~~               -> \1
    | BlankLines        // \n{3,}                    -> '\n\n'

  /** The passes in the order the function applies them. */
  const Passes: seq<Pattern> :=
    [Fence, InlineCode, BoldStars, BoldUnderscores, ItalicStar, ItalicUnderscore,
     Heading, Link, Image, BlockQuote, Rule, Bullet, Numbered, Strike, BlankLines]

  /** A match found at some position: where it ends and what it is replaced by. */
  datatype Hit = Hit(end: nat, replacement: string)

  const RuleChars: set<char> := {'-', '*', '_'}
  const BulletChars: set<char> := {'-', '*', '+'}
  const Digits: set<char> := {'0', '1', '2', '3', '4', '5', '6', '7', '8', '9'}

  /** `^` under `re.MULTILINE`: the start of the text or just after a newline. */
  predicate LineStart(s: string, i: nat) {
    i == 0 || (i <= |s| && s[i - 1] == '\n')
  }

  /** `$` under `re.MULTILINE`: the end of the text or just before a newline. */
  predicate LineEnd(s: string, p: nat) {
    p == |s| || (p < |s| && s[p] == '\n')
  }

  /** `(?<!\w)` at `i`. */
  predicate NoWordBefore(s: string, i: nat) {
    i == 0 || (i <= |s| && !IsWordChar(s[i - 1]))
  }

  /** `(?!\w)` at `p`. */
  predicate NoWordAt(s: string, p: nat) {
    p >= |s| || !IsWordChar(s[p])
  }

  /** The first index at or after `j` holding `c`. */
  function Find(s: string, c: char, j: nat): (r: Option<nat>)
    requires j <= |s|
    ensures r.Some? ==> j <= r.value < |s| && s[r.value] == c
    decreases |s| - j
  {
    if j == |s| then None else if s[j] == c then Some(j) else Find(s, c, j + 1)
  }

  /** Three backticks start at `k`. */
  predicate FenceAt(s: string, k: nat) {
    k + 3 <= |s| && s[k] == '`' && s[k + 1] == '`' && s[k + 2] == '`'
  }

  /** The first fence at or after `j`: the lazy `[\s\S]*?` stops there. */
  function FindFence(s: string, j: nat): (r: Option<nat>)
    requires j <= |s|
    ensures r.Some? ==> j <= r.value && FenceAt(s, r.value)
    decreases |s| - j
  {
    if j == |s| then None else if FenceAt(s, j) then Some(j) else FindFence(s, j + 1)
  }

  /** The largest `p` in `lo..hi` where `$` holds: `\s*` gives back characters until `$` matches. */
  function LastLineEnd(s: string, lo: nat, hi: nat): (r: Option<nat>)
    requires lo <= hi <= |s|
    ensures r.Some? ==> lo <= r.value <= hi && LineEnd(s, r.value)
    decreases hi - lo
  {
    if LineEnd(s, hi) then Some(hi) else if hi == lo then None else LastLineEnd(s, lo, hi - 1)
  }

  function MatchFence(s: string, i: nat): Option<Hit>
    requires i < |s|
  {
    if !FenceAt(s, i) then None
    else match FindFence(s, i + 3)
      case None => None
      case Some(k) => Some(Hit(k + 3, ""))
  }

  /** `c([^c]+)c`, used for inline code. */
  function MatchSingle(s: string, i: nat, c: char): Option<Hit>
    requires i < |s|
  {
    if s[i] != c then None
    else match Find(s, c, i + 1)
      case None => None
      case Some(j) => if j > i + 1 then Some(Hit(j + 1, s[i + 1..j])) else None
  }

  /** `cc([^c]+)cc`, used for bold and strike-through. */
  function MatchDouble(s: string, i: nat, c: char): Option<Hit>
    requires i < |s|
  {
    if !(s[i] == c && i + 1 < |s| && s[i + 1] == c) then None
    else match Find(s, c, i + 2)
      case None => None
      case Some(j) =>
        if j > i + 2 && j + 1 < |s| && s[j + 1] == c then Some(Hit(j + 2, s[i + 2..j])) else None
  }

  /** `(?<!\w)c([^c]+)c(?!\w)`, used for italics. */
  function MatchItalic(s: string, i: nat, c: char): Option<Hit>
    requires i < |s|
  {
    if !(NoWordBefore(s, i) && s[i] == c) then None
    else match Find(s, c, i + 1)
      case None => None
      case Some(j) =>
        if j > i + 1 && NoWordAt(s, j + 1) then Some(Hit(j + 1, s[i + 1..j])) else None
  }

  function MatchHeading(s: string, i: nat): Option<Hit>
    requires i < |s|
  {
    if !LineStart(s, i) then None
    else
      var h := Span(s, i, {'#'});
      if i < h <= i + 6 && h < |s| && IsSpace(s[h]) then Some(Hit(RunEnd(s, h), "")) else None
  }

  /** `\([^)]+\)` right after the `]` at `j`: the end of the link target. */
  function TargetEnd(s: string, j: nat): (r: Option<nat>)
    requires j < |s|
    ensures r.Some? ==> j + 3 < r.value <= |s|
  {
    if !(j + 1 < |s| && s[j + 1] == '(') then None
    else match Find(s, ')', j + 2)
      case None => None
      case Some(k) => if k > j + 2 then Some(k + 1) else None
  }

  function MatchLink(s: string, i: nat): Option<Hit>
    requires i < |s|
  {
    if s[i] != '[' then None
    else match Find(s, ']', i + 1)
      case None => None
      case Some(j) =>
        if j == i + 1 then None
        else match TargetEnd(s, j)
          case None => None
          case Some(e) => Some(Hit(e, s[i + 1..j]))
  }

  function MatchImage(s: string, i: nat): Option<Hit>
    requires i < |s|
  {
    if !(s[i] == '!' && i + 1 < |s| && s[i + 1] == '[') then None
    else match Find(s, ']', i + 2)
      case None => None
      case Some(j) =>
        match TargetEnd(s, j)
        case None => None
        case Some(e) => Some(Hit(e, s[i + 2..j]))
  }

  function MatchQuote(s: string, i: nat): Option<Hit>
    requires i < |s|
  {
    if LineStart(s, i) && s[i] == '>' && i + 1 < |s| && IsSpace(s[i + 1])
    then Some(Hit(RunEnd(s, i + 1), ""))
    else None
  }

  function MatchRule(s: string, i: nat): Option<Hit>
    requires i < |s|
  {
    if !LineStart(s, i) then None
    else
      var d := Span(s, i, RuleChars);
      if d < i + 3 then None
      else match LastLineEnd(s, d, RunEnd(s, d))
        case None => None
        case Some(p) => Some(Hit(p, ""))
  }

  function MatchBullet(s: string, i: nat): Option<Hit>
    requires i < |s|
  {
    if !LineStart(s, i) then None
    else
      var q := RunEnd(s, i);
      if q + 1 < |s| && s[q] in BulletChars && IsSpace(s[q + 1])
      then Some(Hit(RunEnd(s, q + 1), ""))
      else None
  }

  function MatchNumbered(s: string, i: nat): Option<Hit>
    requires i < |s|
  {
    if !LineStart(s, i) then None
    else
      var q := RunEnd(s, i);
      var d := Span(s, q, Digits);
      if q < d && d + 1 < |s| && s[d] == '.' && IsSpace(s[d + 1])
      then Some(Hit(RunEnd(s, d + 1), ""))
      else None
  }

  function MatchBlankLines(s: string, i: nat): Option<Hit>
    requires i < |s|
  {
    var e := Span(s, i, {'\n'});
    if e >= i + 3 then Some(Hit(e, "\n\n")) else None
  }

  /** The match of `p` starting at `i`, if any; a match is never empty. */
  function MatchAt(p: Pattern, s: string, i: nat): (r: Option<Hit>)
    requires i < |s|
    ensures r.Some? ==> i < r.value.end <= |s|
  {
    match p
    case Fence => MatchFence(s, i)
    case InlineCode => MatchSingle(s, i, '`')
    case BoldStars => MatchDouble(s, i, '*')
    case BoldUnderscores => MatchDouble(s, i, '_')
    case ItalicStar => MatchItalic(s, i, '*')
    case ItalicUnderscore => MatchItalic(s, i, '_')
    case Heading => MatchHeading(s, i)
    case Link => MatchLink(s, i)
    case Image => MatchImage(s, i)
    case BlockQuote => MatchQuote(s, i)
    case Rule => MatchRule(s, i)
    case Bullet => MatchBullet(s, i)
    case Numbered => MatchNumbered(s, i)
    case Strike => MatchDouble(s, i, '~')
    case BlankLines => MatchBlankLines(s, i)
  }

  /** The output of `re.sub(p, ..., s)` from position `i` on. */
  function SubFrom(p: Pattern, s: string, i: nat): string
    requires i <= |s|
    decreases |s| - i
  {
    if i == |s| then []
    else match MatchAt(p, s, i)
      case None => [s[i]] + SubFrom(p, s, i + 1)
      case Some(h) => h.replacement + SubFrom(p, s, h.end)
  }

  /** One `re.sub` pass over the whole text. */
  function Sub(p: Pattern, s: string): string {
    SubFrom(p, s, 0)
  }

  /** The passes `ps` applied in order. */
  function Pipeline(ps: seq<Pattern>, s: string): string
    decreases |ps|
  {
    if ps == [] then s else Sub(ps[|ps| - 1], Pipeline(ps[..|ps| - 1], s))
  }

  /** `strip_markdown(text)`. */
  function StripMarkdown(text: string): (r: string)
    ensures IsStripped(r)
  {
    Strip(Pipeline(Passes, text))
  }

  // ---------------------------------------------------------------------
  // The scan
  // ---------------------------------------------------------------------

  /** Where the pattern matches nowhere in `i..j`, the pass copies that stretch. */
  lemma {:induction false} SubFromCopies(p: Pattern, s: string, i: nat, j: nat)
    requires i <= j <= |s|
    requires forall k :: i <= k < j ==> MatchAt(p, s, k).None?
    ensures SubFrom(p, s, i) == s[i..j] + SubFrom(p, s, j)
    decreases j - i
  {
    if i < j {
      calc {
        SubFrom(p, s, i);
        [s[i]] + SubFrom(p, s, i + 1);
        { SubFromCopies(p, s, i + 1, j); }
        [s[i]] + (s[i + 1..j] + SubFrom(p, s, j));
        { assert s[i..j] == [s[i]] + s[i + 1..j]; }
        s[i..j] + SubFrom(p, s, j);
      }
    }
  }

  /** A pattern that matches nowhere leaves the text as it is. */
  lemma SubNoMatch(p: Pattern, s: string)
    requires forall k :: 0 <= k < |s| ==> MatchAt(p, s, k).None?
    ensures Sub(p, s) == s
  {
    SubFromCopies(p, s, 0, |s|);
  }

  // ---------------------------------------------------------------------
  // Text without markup passes through unchanged
  // ---------------------------------------------------------------------

  /** Three newlines in a row start at `k`. */
  predicate TripleAt(t: string, k: int) {
    0 <= k && k + 2 < |t| && t[k] == '\n' && t[k + 1] == '\n' && t[k + 2] == '\n'
  }

  /** No run of three or more newlines. */
  predicate NoTriple(t: string) {
    forall k :: 0 <= k < |t| ==> !TripleAt(t, k)
  }

  /** The characters a pattern cannot match without. */
  function Triggers(p: Pattern): set<char> {
    match p
    case Fence => {'`'}
    case InlineCode => {'`'}
    case BoldStars => {'*'}
    case BoldUnderscores => {'_'}
    case ItalicStar => {'*'}
    case ItalicUnderscore => {'_'}
    case Heading => {'#'}
    case Link => {'['}
    case Image => {'['}
    case BlockQuote => {'>'}
    case Rule => RuleChars
    case Bullet => BulletChars
    case Numbered => Digits
    case Strike => {'~'}
    case BlankLines => {}
  }

  /** From `e` on, `s` gives the pattern nothing to match. */
  predicate InertFrom(p: Pattern, s: string, e: nat) {
    (forall k :: e <= k < |s| ==> s[k] !in Triggers(p)) &&
    (p == BlankLines ==> forall k :: e <= k < |s| ==> !TripleAt(s, k))
  }

  /** `s` gives the pattern nothing to match. */
  predicate Inert(p: Pattern, s: string) {
    InertFrom(p, s, 0)
  }

  /** Without its trigger characters a pattern matches nowhere. */
  lemma InertNoMatch(p: Pattern, s: string, e: nat, i: nat)
    requires InertFrom(p, s, e) && e <= i < |s|
    ensures MatchAt(p, s, i).None?
  {
    match p
    case Bullet =>
      var q := RunEnd(s, i);
      if q + 1 < |s| { assert s[q] !in Triggers(p); }
    case Numbered =>
      var q := RunEnd(s, i);
      if q < |s| { assert s[q] !in Triggers(p); }
    case Image =>
      if i + 1 < |s| { assert s[i + 1] !in Triggers(p); }
    case BlankLines =>
      SpanMembers(s, i, {'\n'});
      assert !TripleAt(s, i);
    case _ =>
      assert s[i] !in Triggers(p);
  }

  /** From where the text is inert the pass copies it. */
  lemma CopiesInert(p: Pattern, s: string, e: nat)
    requires e <= |s| && InertFrom(p, s, e)
    ensures SubFrom(p, s, e) == s[e..]
  {
    forall k | e <= k < |s| ensures MatchAt(p, s, k).None? { InertNoMatch(p, s, e, k); }
    SubFromCopies(p, s, e, |s|);
  }

  /** A pass over text without its trigger characters changes nothing. */
  lemma InertSub(p: Pattern, s: string)
    requires Inert(p, s)
    ensures Sub(p, s) == s
  {
    CopiesInert(p, s, 0);
  }

  /** Every character some pattern needs. */
  const Special: set<char> := {'`', '*', '_', '#', '[', '>', '-', '+', '~'} + Digits

  /** Prose without markup: no special character and no run of three newlines. */
  predicate Plain(s: string) {
    (forall k :: 0 <= k < |s| ==> s[k] !in Special) && NoTriple(s)
  }

  lemma {:induction false} PipelinePlain(ps: seq<Pattern>, s: string)
    requires Plain(s)
    ensures Pipeline(ps, s) == s
    decreases |ps|
  {
    if ps != [] {
      PipelinePlain(ps[..|ps| - 1], s);
      var p := ps[|ps| - 1];
      assert Triggers(p) <= Special;
      InertSub(p, s);
    }
  }

  /** Plain, already stripped prose comes out of `strip_markdown` unchanged. */
  lemma StripMarkdownPlain(s: string)
    requires Plain(s) && IsStripped(s)
    ensures StripMarkdown(s) == s
  {
    PipelinePlain(Passes, s);
    StripStripped(s);
  }

  // ---------------------------------------------------------------------
  // Runs of blank lines
  // ---------------------------------------------------------------------

  /** Prepending a character creates no triple newline unless the text starts with two newlines. */
  lemma ConsNoTriple(c: char, rest: string)
    requires NoTriple(rest)
    requires c == '\n' ==> !(|rest| > 1 && rest[0] == '\n' && rest[1] == '\n')
    ensures NoTriple([c] + rest)
  {
    var t := [c] + rest;
    forall k ensures !TripleAt(t, k) {
      if 0 < k && k + 2 < |t| { assert !TripleAt(rest, k - 1); }
    }
  }

  /**
   * Collapsing from `i` on leaves no triple newline, and the output starts
   * with as many newlines as the text at `i` does, capped at two.
   */
  lemma {:induction false} CollapseFrom(s: string, i: nat)
    requires i <= |s|
    ensures var out := SubFrom(BlankLines, s, i);
            var run := Span(s, i, {'\n'}) - i;
            NoTriple(out) &&
            (run == 0 ==> !(|out| > 0 && out[0] == '\n')) &&
            (run <= 1 ==> !(|out| > 1 && out[0] == '\n' && out[1] == '\n'))
    decreases |s| - i
  {
    if i < |s| {
      var e := Span(s, i, {'\n'});
      if e >= i + 3 {
        assert Span(s, e, {'\n'}) == e;
        CollapseFrom(s, e);
        var rest := SubFrom(BlankLines, s, e);
        assert SubFrom(BlankLines, s, i) == "\n\n" + rest;
        ConsNoTriple('\n', rest);
        ConsNoTriple('\n', "\n" + rest);
        assert "\n\n" + rest == ['\n'] + (['\n'] + rest);
      } else {
        if s[i] == '\n' { assert Span(s, i + 1, {'\n'}) == e; }
        CollapseFrom(s, i + 1);
        ConsNoTriple(s[i], SubFrom(BlankLines, s, i + 1));
      }
    }
  }

  /** After the blank-line pass no three newlines follow each other. */
  lemma CollapseBlankLines(s: string)
    ensures NoTriple(Sub(BlankLines, s))
  {
    CollapseFrom(s, 0);
  }

  /** A slice of text without triple newlines has none either. */
  lemma NoTripleSlice(t: string, a: nat, b: nat)
    requires a <= b <= |t| && NoTriple(t)
    ensures NoTriple(t[a..b])
  {
    forall k ensures !TripleAt(t[a..b], k) {
      if 0 <= k && k + 2 < b - a { assert !TripleAt(t, a + k); }
    }
  }

  /** The last pass of a pipeline runs on what the earlier passes produced. */
  lemma PipelineLast(ps: seq<Pattern>, s: string)
    requires ps != []
    ensures Pipeline(ps, s) == Sub(ps[|ps| - 1], Pipeline(ps[..|ps| - 1], s))
  {
  }

  /** Stripping cannot create a triple newline. */
  lemma StripNoTriple(t: string)
    requires NoTriple(t)
    ensures NoTriple(Strip(t))
  {
    var u := Strip(t);
    var a := |t| - |TrimLeft(t)|;
    StripIsSlice(t);
    assert u == t[a..a + |u|];
    NoTripleSlice(t, a, a + |u|);
  }

  /** A pipeline that ends with the blank-line pass, then stripped, has no triple newline. */
  lemma StrippedPipelineNoTriple(ps: seq<Pattern>, text: string)
    requires ps != [] && ps[|ps| - 1] == BlankLines
    ensures NoTriple(Strip(Pipeline(ps, text)))
  {
    PipelineLast(ps, text);
    CollapseBlankLines(Pipeline(ps[..|ps| - 1], text));
    StripNoTriple(Pipeline(ps, text));
  }

  /** `strip_markdown` never returns more than one blank line in a row. */
  lemma StripMarkdownNoTriple(text: string)
    ensures NoTriple(StripMarkdown(text))
  {
    StrippedPipelineNoTriple(Passes, text);
  }

  // ---------------------------------------------------------------------
  // What each pass does to the markup it targets
  // ---------------------------------------------------------------------

  /** Where the five parts of `a + open + x + close + b` sit. */
  lemma Around(a: string, open: string, x: string, close: string, b: string)
    ensures var s := a + open + x + close + b;
            var i := |a| + |open|;
            var j := i + |x|;
            s[0..|a|] == a && s[|a|..i] == open && s[i..j] == x &&
            s[j..j + |close|] == close && s[j + |close|..|s|] == b
  {
  }

  /** `Find` stops at the first occurrence. */
  lemma {:induction false} FindIs(s: string, c: char, j: nat, k: nat)
    requires j <= k < |s| && s[k] == c && c !in s[j..k]
    ensures Find(s, c, j) == Some(k)
    decreases k - j
  {
    if j < k {
      assert s[j] == s[j..k][0];
      assert s[j + 1..k] == s[j..k][1..];
      FindIs(s, c, j + 1, k);
    }
  }

  /** `FindFence` stops at the first fence. */
  lemma {:induction false} FindFenceIs(s: string, j: nat, k: nat)
    requires j <= k && FenceAt(s, k) && '`' !in s[j..k]
    ensures FindFence(s, j) == Some(k)
    decreases k - j
  {
    if j < k {
      assert s[j] == s[j..k][0];
      assert s[j + 1..k] == s[j..k][1..];
      FindFenceIs(s, j + 1, k);
    }
  }

  /** The character every match of the pattern starts with, where there is one. */
  function Opener(p: Pattern): Option<char> {
    match p
    case Fence => Some('`')
    case InlineCode => Some('`')
    case BoldStars => Some('*')
    case BoldUnderscores => Some('_')
    case ItalicStar => Some('*')
    case ItalicUnderscore => Some('_')
    case Heading => Some('#')
    case Link => Some('[')
    case Image => Some('!')
    case BlockQuote => Some('>')
    case Strike => Some('~')
    case BlankLines => Some('\n')
    case _ => None
  }

  /** A pattern never matches where its opening character is missing. */
  lemma NoMatchWithoutOpener(p: Pattern, s: string, k: nat)
    requires k < |s| && Opener(p).Some? && s[k] != Opener(p).value
    ensures MatchAt(p, s, k).None?
  {
  }

  /** The pass copies a stretch where the pattern's opening character never occurs. */
  lemma CopiesWithout(p: Pattern, c: char, s: string, i: nat, j: nat)
    requires Opener(p) == Some(c)
    requires i <= j <= |s| && c !in s[i..j]
    ensures SubFrom(p, s, i) == s[i..j] + SubFrom(p, s, j)
  {
    forall k | i <= k < j ensures MatchAt(p, s, k).None? {
      assert s[k] == s[i..j][k - i];
      NoMatchWithoutOpener(p, s, k);
    }
    SubFromCopies(p, s, i, j);
  }

  /** The same for the rest of the text from `j` on. */
  lemma CopiesRest(p: Pattern, c: char, s: string, j: nat)
    requires Opener(p) == Some(c)
    requires j <= |s| && c !in s[j..|s|]
    ensures SubFrom(p, s, j) == s[j..|s|]
  {
    CopiesWithout(p, c, s, j, |s|);
    assert SubFrom(p, s, |s|) == [];
  }

  /** A match at `i` with no opening character after it: its replacement, then the rest unchanged. */
  lemma HitThenRest(p: Pattern, c: char, s: string, i: nat, h: Hit)
    requires Opener(p) == Some(c) && i < |s| && MatchAt(p, s, i) == Some(h)
    requires c !in s[h.end..|s|]
    ensures SubFrom(p, s, i) == h.replacement + s[h.end..|s|]
  {
    CopiesRest(p, c, s, h.end);
  }

  /** A fenced block ends at the first closing fence, and the whole block goes. */
  lemma FenceBlockAt(s: string, i: nat, k: nat)
    requires i < |s| && FenceAt(s, i) && i + 3 <= k && FenceAt(s, k)
    requires '`' !in s[i + 3..k]
    ensures SubFrom(Fence, s, i) == SubFrom(Fence, s, k + 3)
  {
    FindFenceIs(s, i + 3, k);
  }

  /**
   * Fenced code blocks are removed with their contents, and the lazy match
   * stops at the first closing fence: text between two blocks survives.
   */
  lemma FenceBlocks(pre: string, a: string, mid: string, b: string, post: string)
    requires '`' !in pre && '`' !in a && '`' !in mid && '`' !in b && '`' !in post
    ensures Sub(Fence, pre + "```" + a + "```" + mid + "```" + b + "```" + post) == pre + mid + post
  {
    var tail := mid + "```" + b + "```" + post;
    var s := pre + "```" + a + "```" + tail;
    assert pre + "```" + a + "```" + mid + "```" + b + "```" + post == s;
    var o1 := |pre|;
    var c1 := o1 + 3 + |a|;
    var m := c1 + 3;
    assert s[..o1] == pre && s[o1 + 3..c1] == a && s[m..] == tail;
    CopiesWithout(Fence, '`', s, 0, o1);
    FenceBlockAt(s, o1, c1);
    FenceTail(s, m, mid, b, post);
  }

  /** The second half of `FenceBlocks`: from `m` on the text is `mid`, a block, then `post`. */
  lemma FenceTail(s: string, m: nat, mid: string, b: string, post: string)
    requires m <= |s| && s[m..] == mid + "```" + b + "```" + post
    requires '`' !in mid && '`' !in b && '`' !in post
    ensures SubFrom(Fence, s, m) == mid + post
  {
    var o2 := m + |mid|;
    var c2 := o2 + 3 + |b|;
    var e := c2 + 3;
    assert s[m..o2] == mid && s[o2 + 3..c2] == b && s[e..] == post;
    assert FenceAt(s, o2) && FenceAt(s, c2);
    CopiesWithout(Fence, '`', s, m, o2);
    FenceBlockAt(s, o2, c2);
    CopiesWithout(Fence, '`', s, e, |s|);
  }

  /** A backtick-delimited span at `i` matches, with its inside as the replacement. */
  lemma InlineCodeAt(s: string, i: nat, j: nat)
    requires i + 1 < j < |s| && s[i] == '`' && s[j] == '`' && '`' !in s[i + 1..j]
    ensures MatchAt(InlineCode, s, i) == Some(Hit(j + 1, s[i + 1..j]))
  {
    FindIs(s, '`', i + 1, j);
  }

  /** Inline code keeps its text and loses its backticks. */
  lemma InlineCodeUnwrapped(a: string, x: string, b: string)
    requires '`' !in a && '`' !in x && '`' !in b && x != []
    ensures Sub(InlineCode, a + "`" + x + "`" + b) == a + x + b
  {
    var s := a + "`" + x + "`" + b;
    Around(a, "`", x, "`", b);
    var i := |a|;
    var j := i + 1 + |x|;
    assert s[i] == s[i..i + 1][0] && s[j] == s[j..j + 1][0];
    InlineCodeSpan(s, i, j);
  }

  /** The same in terms of positions: the two backticks at `i` and `j` are dropped. */
  lemma InlineCodeSpan(s: string, i: nat, j: nat)
    requires i + 1 < j < |s| && s[i] == '`' && s[j] == '`'
    requires '`' !in s[0..i] && '`' !in s[i + 1..j] && '`' !in s[j + 1..|s|]
    ensures Sub(InlineCode, s) == s[0..i] + (s[i + 1..j] + s[j + 1..|s|])
  {
    calc {
      Sub(InlineCode, s);
      { CopiesWithout(InlineCode, '`', s, 0, i); }
      s[0..i] + SubFrom(InlineCode, s, i);
      { InlineCodeAt(s, i, j); HitThenRest(InlineCode, '`', s, i, Hit(j + 1, s[i + 1..j])); }
      s[0..i] + (s[i + 1..j] + s[j + 1..|s|]);
    }
  }

  /** A doubled-marker span at `i` matches, with its inside as the replacement. */
  lemma DoubleAt(p: Pattern, c: char, s: string, i: nat, j: nat)
    requires (p == BoldStars && c == '*') || (p == BoldUnderscores && c == '_') || (p == Strike && c == '~')
    requires i + 2 < j && j + 1 < |s| && s[i] == c && s[i + 1] == c && s[j] == c && s[j + 1] == c
    requires c !in s[i + 2..j]
    ensures MatchAt(p, s, i) == Some(Hit(j + 2, s[i + 2..j]))
  {
    assert MatchAt(p, s, i) == MatchDouble(s, i, c);
    DoubleMatch(s, i, j, c);
  }

  lemma DoubleMatch(s: string, i: nat, j: nat, c: char)
    requires i + 2 < j && j + 1 < |s| && s[i] == c && s[i + 1] == c && s[j] == c && s[j + 1] == c
    requires c !in s[i + 2..j]
    ensures MatchDouble(s, i, c) == Some(Hit(j + 2, s[i + 2..j]))
  {
    FindIs(s, c, i + 2, j);
  }

  /** Bold (`**x**`, `__x__`) and strike-through (`~~x~~`) keep their text and lose the markers. */
  lemma DoubleUnwrapped(p: Pattern, c: char, a: string, x: string, b: string)
    requires (p == BoldStars && c == '*') || (p == BoldUnderscores && c == '_') || (p == Strike && c == '~')
    requires c !in a && c !in x && c !in b && x != []
    ensures Sub(p, a + [c, c] + x + [c, c] + b) == a + x + b
  {
    var s := a + [c, c] + x + [c, c] + b;
    Around(a, [c, c], x, [c, c], b);
    var i := |a|;
    var j := i + 2 + |x|;
    assert s[i] == s[i..i + 2][0] && s[i + 1] == s[i..i + 2][1];
    assert s[j] == s[j..j + 2][0] && s[j + 1] == s[j..j + 2][1];
    DoubleSpan(p, c, s, i, j);
  }

  /** The same in terms of positions: the marker pairs at `i` and `j` are dropped. */
  lemma DoubleSpan(p: Pattern, c: char, s: string, i: nat, j: nat)
    requires (p == BoldStars && c == '*') || (p == BoldUnderscores && c == '_') || (p == Strike && c == '~')
    requires i + 2 < j && j + 1 < |s| && s[i] == c && s[i + 1] == c && s[j] == c && s[j + 1] == c
    requires c !in s[0..i] && c !in s[i + 2..j] && c !in s[j + 2..|s|]
    ensures Sub(p, s) == s[0..i] + (s[i + 2..j] + s[j + 2..|s|])
  {
    calc {
      Sub(p, s);
      { CopiesWithout(p, c, s, 0, i); }
      s[0..i] + SubFrom(p, s, i);
      { DoubleAt(p, c, s, i, j); HitThenRest(p, c, s, i, Hit(j + 2, s[i + 2..j])); }
      s[0..i] + (s[i + 2..j] + s[j + 2..|s|]);
    }
  }

  lemma ItalicMatch(s: string, i: nat, j: nat, c: char)
    requires i + 1 < j < |s| && s[i] == c && s[j] == c && c !in s[i + 1..j]
    requires NoWordBefore(s, i) && NoWordAt(s, j + 1)
    ensures MatchItalic(s, i, c) == Some(Hit(j + 1, s[i + 1..j]))
  {
    FindIs(s, c, i + 1, j);
  }

  /** An italic span at `i` matches, with its inside as the replacement. */
  lemma ItalicAt(p: Pattern, c: char, s: string, i: nat, j: nat)
    requires (p == ItalicStar && c == '*') || (p == ItalicUnderscore && c == '_')
    requires i + 1 < j < |s| && s[i] == c && s[j] == c && c !in s[i + 1..j]
    requires NoWordBefore(s, i) && NoWordAt(s, j + 1)
    ensures MatchAt(p, s, i) == Some(Hit(j + 1, s[i + 1..j]))
  {
    assert MatchAt(p, s, i) == MatchItalic(s, i, c);
    ItalicMatch(s, i, j, c);
  }

  /** In terms of positions: the single markers at `i` and `j` are dropped. */
  lemma ItalicSpan(p: Pattern, c: char, s: string, i: nat, j: nat)
    requires (p == ItalicStar && c == '*') || (p == ItalicUnderscore && c == '_')
    requires i + 1 < j < |s| && s[i] == c && s[j] == c
    requires c !in s[0..i] && c !in s[i + 1..j] && c !in s[j + 1..|s|]
    requires NoWordBefore(s, i) && NoWordAt(s, j + 1)
    ensures Sub(p, s) == s[0..i] + (s[i + 1..j] + s[j + 1..|s|])
  {
    calc {
      Sub(p, s);
      { CopiesWithout(p, c, s, 0, i); }
      s[0..i] + SubFrom(p, s, i);
      { ItalicAt(p, c, s, i, j); HitThenRest(p, c, s, i, Hit(j + 1, s[i + 1..j])); }
      s[0..i] + (s[i + 1..j] + s[j + 1..|s|]);
    }
  }

  /**
   * Italics (`*x*`, `_x_`) keep their text and lose the markers, provided
   * no word character touches the markers from outside.
   */
  lemma ItalicUnwrapped(p: Pattern, c: char, a: string, x: string, b: string)
    requires (p == ItalicStar && c == '*') || (p == ItalicUnderscore && c == '_')
    requires c !in a && c !in x && c !in b && x != []
    requires a == [] || !IsWordChar(a[|a| - 1])
    requires b == [] || !IsWordChar(b[0])
    ensures Sub(p, a + [c] + x + [c] + b) == a + x + b
  {
    var s := a + [c] + x + [c] + b;
    var i := |a|;
    var j := i + 1 + |x|;
    ItalicLayout(c, a, x, b);
    ItalicSpan(p, c, s, i, j);
  }

  /** Where the markers of `a*x*b` sit, and what lies around them. */
  lemma ItalicLayout(c: char, a: string, x: string, b: string)
    requires c !in a && c !in x && c !in b && x != []
    requires a == [] || !IsWordChar(a[|a| - 1])
    requires b == [] || !IsWordChar(b[0])
    ensures var s := a + [c] + x + [c] + b;
            var i := |a|;
            var j := i + 1 + |x|;
            i + 1 < j < |s| && s[i] == c && s[j] == c &&
            s[0..i] == a && s[i + 1..j] == x && s[j + 1..|s|] == b &&
            NoWordBefore(s, i) && NoWordAt(s, j + 1)
  {
    var s := a + [c] + x + [c] + b;
    Around(a, [c], x, [c], b);
    var i := |a|;
    var j := i + 1 + |x|;
    assert s[i] == s[i..i + 1][0] && s[j] == s[j..j + 1][0];
    assert i > 0 ==> s[i - 1] == s[0..i][i - 1];
    assert j + 1 < |s| ==> s[j + 1] == s[j + 1..|s|][0];
  }

  /** An underscore right after a word character never opens italics: `snake_case_name` survives. */
  lemma IntrawordUnderscores(s: string)
    requires forall k :: 0 <= k < |s| && s[k] == '_' ==> 0 < k && IsWordChar(s[k - 1])
    ensures Sub(ItalicUnderscore, s) == s
  {
    SubNoMatch(ItalicUnderscore, s);
  }

  lemma LinkMatch(s: string, i: nat, j: nat, k: nat)
    requires i + 1 < j && j + 2 < k < |s|
    requires s[i] == '[' && s[j] == ']' && s[j + 1] == '(' && s[k] == ')'
    requires ']' !in s[i + 1..j] && ')' !in s[j + 2..k]
    ensures MatchLink(s, i) == Some(Hit(k + 1, s[i + 1..j]))
  {
    FindIs(s, ']', i + 1, j);
    FindIs(s, ')', j + 2, k);
  }

  /** In terms of positions: `[text](target)` from `i` to `k` becomes `text`. */
  lemma LinkSpan(s: string, i: nat, j: nat, k: nat)
    requires i + 1 < j && j + 2 < k < |s|
    requires s[i] == '[' && s[j] == ']' && s[j + 1] == '(' && s[k] == ')'
    requires ']' !in s[i + 1..j] && ')' !in s[j + 2..k]
    requires '[' !in s[0..i] && '[' !in s[k + 1..|s|]
    ensures Sub(Link, s) == s[0..i] + (s[i + 1..j] + s[k + 1..|s|])
  {
    calc {
      Sub(Link, s);
      { CopiesWithout(Link, '[', s, 0, i); }
      s[0..i] + SubFrom(Link, s, i);
      { LinkMatch(s, i, j, k); HitThenRest(Link, '[', s, i, Hit(k + 1, s[i + 1..j])); }
      s[0..i] + (s[i + 1..j] + s[k + 1..|s|]);
    }
  }

  /** A link keeps its text and loses its target. */
  lemma LinkText(a: string, t: string, u: string, b: string)
    requires '[' !in a && '[' !in b && t != [] && ']' !in t && u != [] && ')' !in u
    ensures Sub(Link, a + "[" + t + "](" + u + ")" + b) == a + t + b
  {
    var s := a + "[" + t + "](" + u + ")" + b;
    var i := |a|;
    var j := i + 1 + |t|;
    var k := j + 2 + |u|;
    assert s[0..i] == a && s[i + 1..j] == t && s[j + 2..k] == u && s[k + 1..|s|] == b;
    assert s[i] == '[' && s[j] == ']' && s[j + 1] == '(' && s[k] == ')';
    LinkSpan(s, i, j, k);
  }

  lemma ImageMatch(s: string, j: nat, k: nat)
    requires 2 <= j && j + 2 < k < |s|
    requires s[0] == '!' && s[1] == '[' && s[j] == ']' && s[j + 1] == '(' && s[k] == ')'
    requires ']' !in s[2..j] && ')' !in s[j + 2..k]
    ensures MatchImage(s, 0) == Some(Hit(k + 1, s[2..j]))
  {
    FindIs(s, ']', 2, j);
    FindIs(s, ')', j + 2, k);
  }

  /** On its own the image rule would reduce `![alt](target)` to `alt`. */
  lemma ImageAlone(alt: string, u: string)
    requires ']' !in alt && u != [] && ')' !in u
    ensures Sub(Image, "![" + alt + "](" + u + ")") == alt
  {
    var s := "![" + alt + "](" + u + ")";
    var j := 2 + |alt|;
    var k := j + 2 + |u|;
    assert s[2..j] == alt && s[j + 2..k] == u;
    assert s[0] == '!' && s[1] == '[' && s[j] == ']' && s[j + 1] == '(' && s[k] == ')';
    ImageMatch(s, j, k);
    assert SubFrom(Image, s, |s|) == [];
  }

  /**
   * The link rule runs first and consumes `[alt](target)` of an image with
   * alt text, so the image rule never sees it and `![alt](target)` comes
   * out as `!alt`.
   */
  lemma ImageAfterLink(alt: string, u: string)
    requires alt != [] && '[' !in alt && ']' !in alt && u != [] && ')' !in u
    ensures Sub(Image, Sub(Link, "![" + alt + "](" + u + ")")) == "!" + alt
  {
    assert "![" + alt + "](" + u + ")" == "!" + "[" + alt + "](" + u + ")" + "";
    LinkText("!", alt, u, "");
    assert "!" + alt + "" == "!" + alt;
    InertSub(Image, "!" + alt);
  }

  /** An image without alt text is not a link (`[^\]]+` needs a character), so the image rule removes it whole. */
  lemma ImageWithoutAlt(u: string)
    requires u != [] && ')' !in u && '[' !in u
    ensures Sub(Image, Sub(Link, "![](" + u + ")")) == ""
  {
    var s := "![](" + u + ")";
    forall k | 0 <= k < |s| ensures MatchAt(Link, s, k).None? {
      if k == 1 { assert Find(s, ']', 2) == Some(2); }
      else if k >= 4 && k < |s| - 1 { assert s[k] == u[k - 4]; }
    }
    SubNoMatch(Link, s);
    assert s == "![" + "" + "](" + u + ")";
    ImageAlone("", u);
  }

  /** `n` hash signs. */
  function Hashes(n: nat): (r: string)
    ensures |r| == n && forall k :: 0 <= k < n ==> r[k] == '#'
  {
    seq(n, _ => '#')
  }

  /** A heading marker of one to six `#` and the whitespace after it are removed. */
  lemma HeadingRemoved(h: nat, ws: string, rest: string)
    requires 1 <= h <= 6 && ws != [] && AllSpace(ws)
    requires rest == [] || !IsSpace(rest[0])
    requires '#' !in rest
    ensures Sub(Heading, Hashes(h) + ws + rest) == rest
  {
    var s := Hashes(h) + ws + rest;
    var e := h + |ws|;
    assert forall k :: 0 <= k < h ==> s[k] == '#';
    assert forall k :: h <= k < e ==> s[k] == ws[k - h];
    assert forall k :: e <= k < |s| ==> s[k] == rest[k - e];
    assert s[e..] == rest;
    SpanIs(s, 0, h, {'#'});
    RunEndIs(s, h, e);
    assert MatchAt(Heading, s, 0) == Some(Hit(e, ""));
    CopiesInert(Heading, s, e);
  }

  /** Seven or more `#` are no heading marker: the line is left alone. */
  lemma HeadingTooDeep(h: nat, rest: string)
    requires h > 6 && '#' !in rest
    ensures Sub(Heading, Hashes(h) + rest) == Hashes(h) + rest
  {
    var s := Hashes(h) + rest;
    assert forall k :: 0 <= k < h ==> s[k] == '#';
    assert forall k :: h <= k < |s| ==> s[k] == rest[k - h];
    SpanIs(s, 0, h, {'#'});
    forall k | 0 <= k < |s| ensures MatchAt(Heading, s, k).None? {
      if h <= k { assert s[k] != '#'; }
    }
    SubNoMatch(Heading, s);
  }

  /** A block-quote marker and the whitespace after it are removed. */
  lemma QuoteRemoved(ws: string, rest: string)
    requires ws != [] && AllSpace(ws)
    requires rest == [] || !IsSpace(rest[0])
    requires '>' !in rest
    ensures Sub(BlockQuote, ">" + ws + rest) == rest
  {
    var s := ">" + ws + rest;
    var e := 1 + |ws|;
    assert forall k :: 1 <= k < e ==> s[k] == ws[k - 1];
    assert forall k :: e <= k < |s| ==> s[k] == rest[k - e];
    assert s[e..] == rest;
    RunEndIs(s, 1, e);
    assert MatchAt(BlockQuote, s, 0) == Some(Hit(e, ""));
    CopiesInert(BlockQuote, s, e);
  }

  /** A horizontal rule that ends the text goes, with any whitespace after it. */
  lemma RuleRemoved(run: string, sp: string)
    requires |run| >= 3 && (forall k :: 0 <= k < |run| ==> run[k] in RuleChars)
    requires AllSpace(sp)
    ensures Sub(Rule, run + sp) == ""
  {
    var s := run + sp;
    var d := |run|;
    assert forall k :: 0 <= k < d ==> s[k] == run[k];
    assert forall k :: d <= k < |s| ==> s[k] == sp[k - d];
    SpanIs(s, 0, d, RuleChars);
    RunEndIs(s, d, |s|);
    assert MatchAt(Rule, s, 0) == Some(Hit(|s|, ""));
    assert SubFrom(Rule, s, |s|) == [];
  }

  /**
   * A horizontal rule followed by more text: `\s*` runs on over blank
   * lines and then backs off to the last newline, which stays.
   */
  lemma RuleBeforeText(run: string, sp: string, rest: string)
    requires |run| >= 3 && (forall k :: 0 <= k < |run| ==> run[k] in RuleChars)
    requires AllSpace(sp)
    requires rest != [] && !IsSpace(rest[0])
    requires forall k :: 0 <= k < |rest| ==> rest[k] !in RuleChars
    ensures Sub(Rule, run + sp + "\n" + rest) == "\n" + rest
  {
    var s := run + sp + "\n" + rest;
    var d := |run|;
    var n := d + |sp|;
    assert forall k :: 0 <= k < d ==> s[k] == run[k];
    assert forall k :: d <= k < n ==> s[k] == sp[k - d];
    assert s[n] == '\n';
    assert forall k :: n + 1 <= k < |s| ==> s[k] == rest[k - n - 1];
    assert s[n..] == "\n" + rest;
    SpanIs(s, 0, d, RuleChars);
    RunEndIs(s, d, n + 1);
    assert LastLineEnd(s, d, n + 1) == Some(n);
    assert MatchAt(Rule, s, 0) == Some(Hit(n, ""));
    CopiesInert(Rule, s, n);
  }

  /** A bullet marker, its indentation and the whitespace after it are removed. */
  lemma BulletRemoved(ind: string, m: char, ws: string, rest: string)
    requires AllSpace(ind) && m in BulletChars && ws != [] && AllSpace(ws)
    requires rest == [] || !IsSpace(rest[0])
    requires forall k :: 0 <= k < |rest| ==> rest[k] !in BulletChars
    ensures Sub(Bullet, ind + [m] + ws + rest) == rest
  {
    var s := ind + [m] + ws + rest;
    var q := |ind|;
    var e := q + 1 + |ws|;
    assert forall k :: 0 <= k < q ==> s[k] == ind[k];
    assert s[q] == m;
    assert forall k :: q + 1 <= k < e ==> s[k] == ws[k - q - 1];
    assert forall k :: e <= k < |s| ==> s[k] == rest[k - e];
    assert s[e..] == rest;
    RunEndIs(s, 0, q);
    RunEndIs(s, q + 1, e);
    assert MatchAt(Bullet, s, 0) == Some(Hit(e, ""));
    CopiesInert(Bullet, s, e);
  }

  /** A numbered-list marker (`12. `), its indentation and the whitespace after it are removed. */
  lemma NumberedRemoved(ind: string, num: string, ws: string, rest: string)
    requires AllSpace(ind) && num != [] && (forall k :: 0 <= k < |num| ==> num[k] in Digits)
    requires ws != [] && AllSpace(ws)
    requires rest == [] || !IsSpace(rest[0])
    requires forall k :: 0 <= k < |rest| ==> rest[k] !in Digits
    ensures Sub(Numbered, ind + num + "." + ws + rest) == rest
  {
    var s := ind + num + "." + ws + rest;
    var q := |ind|;
    var d := q + |num|;
    var e := d + 1 + |ws|;
    Around(ind, num, ".", ws, rest);
    assert s[d] == s[d..d + 1][0];
    assert e < |s| ==> s[e] == s[e..|s|][0];
    NumberedAt(s, q, d, e);
    CopiesInert(Numbered, s, e);
  }

  /** A numbered-list marker ending at `e` is matched at the start of `s`. */
  lemma NumberedAt(s: string, q: nat, d: nat, e: nat)
    requires q < d && d + 1 < e <= |s|
    requires AllSpace(s[0..q]) && (forall k :: 0 <= k < d - q ==> s[q..d][k] in Digits)
    requires s[d] == '.' && AllSpace(s[d + 1..e]) && (e == |s| || !IsSpace(s[e]))
    requires forall k :: 0 <= k < |s| - e ==> s[e..|s|][k] !in Digits
    ensures MatchAt(Numbered, s, 0) == Some(Hit(e, "")) && InertFrom(Numbered, s, e)
  {
    assert s[q] == s[q..d][0];
    RunEndOver(s, 0, q);
    SpanOver(s, q, d, Digits);
    assert s[d + 1] == s[d + 1..e][0];
    RunEndOver(s, d + 1, e);
    forall k | e <= k < |s| ensures s[k] !in Digits { assert s[k] == s[e..|s|][k - e]; }
  }
}
