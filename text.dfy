/**
 * The Python string primitives the backend relies on (`str.strip`,
 * `str.split()`, `str.split(sep)`, `sep.join`, `str.lower`, `str.replace`),
 * over an explicit ASCII character model: whitespace is the ten ASCII
 * characters `str.isspace` accepts and case folding maps `A`..`Z` only.
 */
module Text {
  import opened Common

  /**
   * The ASCII characters `str.isspace` accepts, which `strip`, `split()` and
   * the regex class `\s` use: space, `\t` to `\r`, and the separators
   * `\x1c` to `\x1f`.
   */
  predicate IsSpace(c: char) {
    c == ' ' || '\t' <= c <= '\r' || '\U{001C}' <= c <= '\U{001F}'
  }

  predicate IsDigit(c: char) { '0' <= c <= '9' }

  predicate IsLetter(c: char) { 'a' <= c <= 'z' || 'A' <= c <= 'Z' }

  /** The regex class `\w`. */
  predicate IsWordChar(c: char) { IsLetter(c) || IsDigit(c) || c == '_' }

  predicate AllSpace(s: string) { forall i :: 0 <= i < |s| ==> IsSpace(s[i]) }

  predicate NoSpace(s: string) { forall i :: 0 <= i < |s| ==> !IsSpace(s[i]) }

  /** Neither end of `s` is whitespace (what `strip` guarantees). */
  predicate IsStripped(s: string) {
    s == [] || (!IsSpace(s[0]) && !IsSpace(s[|s| - 1]))
  }

  /** `str.lstrip()`: `s` from the end of its leading whitespace run. */
  function TrimLeft(s: string): (r: string)
    ensures |r| <= |s|
    ensures r == [] || !IsSpace(r[0])
  {
    s[RunEnd(s, 0)..]
  }

  /** The start of the whitespace run that ends at `j` (`j` itself when `s[j - 1]` is not whitespace). */
  function RunStart(s: string, j: nat): (b: nat)
    requires j <= |s|
    ensures b <= j
    ensures b > 0 ==> !IsSpace(s[b - 1])
    decreases j
  {
    if j > 0 && IsSpace(s[j - 1]) then RunStart(s, j - 1) else j
  }

  /** Everything between the start of the run and `j` is whitespace. */
  lemma {:induction false} RunStartSpaces(s: string, j: nat)
    requires j <= |s|
    ensures forall k :: RunStart(s, j) <= k < j ==> IsSpace(s[k])
    decreases j
  {
    if j > 0 && IsSpace(s[j - 1]) { RunStartSpaces(s, j - 1); }
  }

  /** `str.rstrip()`: `s` up to the start of its trailing whitespace run. */
  function TrimRight(s: string): (r: string)
    ensures |r| <= |s|
    ensures r == [] || !IsSpace(r[|r| - 1])
  {
    s[..RunStart(s, |s|)]
  }

  /** `str.strip()`: the contiguous middle of `s` without whitespace at either end. */
  function Strip(s: string): (r: string)
    ensures IsStripped(r)
    ensures |r| <= |s|
  {
    TrimRight(TrimLeft(s))
  }

  /** `strip` only cuts away the whitespace at both ends: the result is a slice of `s`. */
  lemma StripIsSlice(s: string)
    ensures var a := |s| - |TrimLeft(s)|;
            a + |Strip(s)| <= |s| && Strip(s) == s[a..a + |Strip(s)|]
  {
    var t := TrimLeft(s);
    assert t == s[RunEnd(s, 0)..];
  }

  /** What `strip` cuts away at either end is whitespace. */
  lemma StripCutsSpace(s: string)
    ensures var a := |s| - |TrimLeft(s)|;
            AllSpace(s[..a]) && AllSpace(s[a + |Strip(s)|..])
  {
    var t := TrimLeft(s);
    var a := RunEnd(s, 0);
    RunEndSpaces(s, 0);
    RunStartSpaces(t, |t|);
    var tail := s[a + |Strip(s)|..];
    forall k | 0 <= k < |tail| ensures IsSpace(tail[k]) {
      assert tail[k] == t[|Strip(s)| + k];
    }
  }

  /** `strip` returns an already stripped string unchanged. */
  lemma StripStripped(s: string)
    requires IsStripped(s)
    ensures Strip(s) == s
  {
  }

  /** `s.strip()` is falsy exactly when `s` is all whitespace. */
  lemma StripEmptyIffAllSpace(s: string)
    ensures Strip(s) == [] <==> AllSpace(s)
  {
    var t := TrimLeft(s);
    RunEndSpaces(s, 0);
    RunStartSpaces(t, |t|);
    if AllSpace(s) { RunEndIs(s, 0, |s|); }
    assert Strip(s) == [] ==> t == [] && RunEnd(s, 0) == |s|;
  }

  // ---------------------------------------------------------------------
  // `str.split()`: maximal runs of non-whitespace characters

  /** The length of the leading non-whitespace run of `s`. */
  function WordLength(s: string): (n: nat)
    ensures n <= |s|
    ensures NoSpace(s[..n])
    ensures n < |s| ==> IsSpace(s[n])
  {
    if |s| == 0 || IsSpace(s[0]) then 0
    else
      var k := WordLength(s[1..]);
      assert s[..k + 1] == [s[0]] + s[1..][..k];
      k + 1
  }

  /** The end of the whitespace run starting at `j` (`j` itself when `s[j]` is not whitespace). */
  function RunEnd(s: string, j: nat): (e: nat)
    requires j <= |s|
    ensures j <= e <= |s|
    ensures e < |s| ==> !IsSpace(s[e])
    ensures j < |s| && IsSpace(s[j]) ==> j < e
    decreases |s| - j
  {
    if j < |s| && IsSpace(s[j]) then RunEnd(s, j + 1) else j
  }

  /** The end of a whitespace run is where the whitespace stops. */
  lemma {:induction false} RunEndIs(s: string, j: nat, e: nat)
    requires j <= e <= |s|
    requires forall k :: j <= k < e ==> IsSpace(s[k])
    requires e == |s| || !IsSpace(s[e])
    ensures RunEnd(s, j) == e
    decreases e - j
  {
    if j < e { RunEndIs(s, j + 1, e); }
  }

  /** The same, for a run given as a slice. */
  lemma RunEndOver(s: string, j: nat, e: nat)
    requires j <= e <= |s| && AllSpace(s[j..e])
    requires e == |s| || !IsSpace(s[e])
    ensures RunEnd(s, j) == e
  {
    forall k | j <= k < e ensures IsSpace(s[k]) { assert s[k] == s[j..e][k - j]; }
    RunEndIs(s, j, e);
  }

  /** Everything the run covers is whitespace. */
  lemma {:induction false} RunEndSpaces(s: string, j: nat)
    requires j <= |s|
    ensures forall k :: j <= k < RunEnd(s, j) ==> IsSpace(s[k])
    decreases |s| - j
  {
    if j < |s| && IsSpace(s[j]) { RunEndSpaces(s, j + 1); }
  }

  /** The end of the run of characters from `cs` starting at `j`. */
  function Span(s: string, j: nat, cs: set<char>): (e: nat)
    requires j <= |s|
    ensures j <= e <= |s|
    ensures e < |s| ==> s[e] !in cs
    ensures j < |s| && s[j] in cs ==> j < e
    decreases |s| - j
  {
    if j < |s| && s[j] in cs then Span(s, j + 1, cs) else j
  }

  /** Everything the run covers is in `cs`. */
  lemma {:induction false} SpanMembers(s: string, j: nat, cs: set<char>)
    requires j <= |s|
    ensures forall k :: j <= k < Span(s, j, cs) ==> s[k] in cs
    decreases |s| - j
  {
    if j < |s| && s[j] in cs { SpanMembers(s, j + 1, cs); }
  }

  /** The end of a run is where the run stops. */
  lemma {:induction false} SpanIs(s: string, j: nat, e: nat, cs: set<char>)
    requires j <= e <= |s|
    requires forall k :: j <= k < e ==> s[k] in cs
    requires e == |s| || s[e] !in cs
    ensures Span(s, j, cs) == e
    decreases e - j
  {
    if j < e { SpanIs(s, j + 1, e, cs); }
  }

  /** The same, for a run given as a slice. */
  lemma SpanOver(s: string, j: nat, e: nat, cs: set<char>)
    requires j <= e <= |s| && forall k :: 0 <= k < e - j ==> s[j..e][k] in cs
    requires e == |s| || s[e] !in cs
    ensures Span(s, j, cs) == e
  {
    forall k | j <= k < e ensures s[k] in cs { assert s[k] == s[j..e][k - j]; }
    SpanIs(s, j, e, cs);
  }

  /** A word as `str.split()` yields it: non-empty and without whitespace. */
  predicate IsWord(w: string) { |w| > 0 && NoSpace(w) }

  /** `s.split()` with no separator argument. */
  function Words(s: string): (ws: seq<string>)
    ensures forall i :: 0 <= i < |ws| ==> IsWord(ws[i])
    decreases |s|
  {
    var t := TrimLeft(s);
    if t == [] then []
    else
      var n := WordLength(t);
      var w := t[..n];
      assert IsWord(w);
      [w] + Words(t[n..])
  }

  /** Whitespace-only text has no words. */
  lemma WordsOfSpace(s: string)
    requires AllSpace(s)
    ensures Words(s) == []
  {
    RunEndIs(s, 0, |s|);
  }

  lemma {:induction false} WordLengthOfWord(w: string, rest: string)
    requires NoSpace(w)
    requires rest == [] || IsSpace(rest[0])
    ensures WordLength(w + rest) == |w|
    decreases |w|
  {
    if |w| > 0 {
      assert (w + rest)[1..] == w[1..] + rest;
      assert NoSpace(w[1..]) by {
        forall i | 0 <= i < |w[1..]| ensures !IsSpace(w[1..][i]) { assert w[1..][i] == w[i + 1]; }
      }
      WordLengthOfWord(w[1..], rest);
    } else {
      assert w + rest == rest;
    }
  }

  /** A word followed by whitespace (or nothing) splits off as the first word. */
  lemma WordsOfWordThen(w: string, rest: string)
    requires IsWord(w)
    requires rest == [] || IsSpace(rest[0])
    ensures Words(w + rest) == [w] + Words(rest)
  {
    var s := w + rest;
    assert TrimLeft(s) == s;
    WordLengthOfWord(w, rest);
    assert s[..|w|] == w && s[|w|..] == rest;
  }

  // ---------------------------------------------------------------------
  // `sep.join(parts)` and `s.split(sep)` for a one-character separator

  /** `sep.join(parts)`. */
  function Join(sep: string, parts: seq<string>): string
  {
    if |parts| == 0 then ""
    else if |parts| == 1 then parts[0]
    else parts[0] + sep + Join(sep, parts[1..])
  }

  /** A leading space does not change the words. */
  lemma WordsAfterSpace(rest: string)
    ensures Words(" " + rest) == Words(rest)
  {
    var s := " " + rest;
    var e := RunEnd(rest, 0);
    RunEndSpaces(rest, 0);
    forall k | 0 <= k < e + 1 ensures IsSpace(s[k]) {
      if k > 0 { assert s[k] == rest[k - 1]; }
    }
    assert e + 1 == |s| || !IsSpace(s[e + 1]);
    RunEndIs(s, 0, e + 1);
    assert s[e + 1..] == rest[e..];
  }

  /** Joining words with single spaces and splitting again gives back the words. */
  lemma {:induction false} WordsJoin(ws: seq<string>)
    requires forall i :: 0 <= i < |ws| ==> IsWord(ws[i])
    ensures Words(Join(" ", ws)) == ws
  {
    if |ws| == 1 {
      WordsOfWordThen(ws[0], []);
      assert ws[0] + [] == ws[0];
    } else if |ws| > 1 {
      var rest := Join(" ", ws[1..]);
      assert Join(" ", ws) == ws[0] + (" " + rest);
      calc {
        Words(Join(" ", ws));
        Words(ws[0] + (" " + rest));
        { WordsOfWordThen(ws[0], " " + rest); }
        [ws[0]] + Words(" " + rest);
        { WordsAfterSpace(rest); }
        [ws[0]] + Words(rest);
        { WordsJoin(ws[1..]); }
        [ws[0]] + ws[1..];
        ws;
      }
    }
  }

  /** The first position of `c` in `s`, if any. */
  function IndexOf(s: string, c: char): (r: Option<nat>)
    ensures r.None? <==> c !in s
    ensures r.Some? ==> r.value < |s| && s[r.value] == c && c !in s[..r.value]
  {
    if |s| == 0 then None
    else if s[0] == c then Some(0)
    else
      var r := IndexOf(s[1..], c);
      if r.None? then None
      else
        assert s[..r.value + 1] == [s[0]] + s[1..][..r.value];
        Some(r.value + 1)
  }

  /** `s.split(c)`: the pieces between the occurrences of `c`, none of which holds `c`. */
  function Split(s: string, c: char): (parts: seq<string>)
    ensures |parts| >= 1
    ensures forall i :: 0 <= i < |parts| ==> c !in parts[i]
    decreases |s|
  {
    match IndexOf(s, c)
    case None => [s]
    case Some(i) => [s[..i]] + Split(s[i + 1..], c)
  }

  /** Joining the pieces of `s.split(c)` with `c` gives back `s`. */
  lemma {:induction false} JoinSplit(s: string, c: char)
    ensures Join([c], Split(s, c)) == s
    decreases |s|
  {
    match IndexOf(s, c)
    case None =>
    case Some(i) =>
      JoinSplit(s[i + 1..], c);
      var rest := Split(s[i + 1..], c);
      assert Split(s, c) == [s[..i]] + rest;
      assert Split(s, c)[1..] == rest;
      assert s == s[..i] + [c] + s[i + 1..];
  }

  /** Text without the separator splits into the single piece `[s]`. */
  lemma SplitWithout(s: string, c: char)
    requires c !in s
    ensures Split(s, c) == [s]
  {
  }

  /** The last piece of `s.split(c)` is everything after the last `c`. */
  lemma {:induction false} SplitLast(a: string, b: string, c: char)
    requires c !in b
    ensures var p := Split(a + [c] + b, c); p[|p| - 1] == b
    decreases |a|
  {
    var s := a + [c] + b;
    assert s[|a|] == c;
    var i := IndexOf(s, c).value;
    assert i <= |a|;
    var rest := s[i + 1..];
    var p := Split(rest, c);
    assert Split(s, c) == [s[..i]] + p;
    LastOfCons(s[..i], p);
    if i == |a| {
      assert rest == b;
      SplitWithout(b, c);
    } else {
      assert rest == a[i + 1..] + [c] + b;
      SplitLast(a[i + 1..], b, c);
    }
  }

  lemma LastOfCons<T>(x: T, p: seq<T>)
    requires |p| > 0
    ensures var q := [x] + p; q[|q| - 1] == p[|p| - 1]
  {
    var q := [x] + p;
    assert q[|q| - 1] == q[|p|];
  }

  // ---------------------------------------------------------------------
  // `str.lower()` and `str.replace(c, r)`

  function LowerChar(c: char): char {
    if 'A' <= c <= 'Z' then (c as int - 'A' as int + 'a' as int) as char else c
  }

  /** `s.lower()`: position-wise case folding. */
  function Lower(s: string): (r: string)
    ensures |r| == |s|
    ensures forall i :: 0 <= i < |s| ==> r[i] == LowerChar(s[i])
  {
    seq(|s|, i requires 0 <= i < |s| => LowerChar(s[i]))
  }

  /** Lowering never introduces or removes a given non-letter character. */
  lemma LowerKeeps(s: string, c: char)
    requires !IsLetter(c)
    ensures c in s <==> c in Lower(s)
  {
    if c in s {
      var i :| 0 <= i < |s| && s[i] == c;
      assert Lower(s)[i] == c;
    }
    if c in Lower(s) {
      var i :| 0 <= i < |s| && Lower(s)[i] == c;
      assert s[i] == c;
    }
  }

  /** How many times `c` occurs in `s`. */
  function Count(s: string, c: char): nat {
    if |s| == 0 then 0 else (if s[0] == c then 1 else 0) + Count(s[1..], c)
  }

  /** `s.replace(c, r)` for a one-character pattern: every `c` becomes `r`. */
  function Replace(s: string, c: char, r: string): string {
    if |s| == 0 then [] else (if s[0] == c then r else [s[0]]) + Replace(s[1..], c, r)
  }

  lemma {:induction false} ReplaceAppend(a: string, b: string, c: char, r: string)
    ensures Replace(a + b, c, r) == Replace(a, c, r) + Replace(b, c, r)
    decreases |a|
  {
    if |a| > 0 {
      assert (a + b)[1..] == a[1..] + b;
      ReplaceAppend(a[1..], b, c, r);
    } else {
      assert a + b == b;
    }
  }

  lemma {:induction false} CountAppend(a: string, b: string, c: char)
    ensures Count(a + b, c) == Count(a, c) + Count(b, c)
    decreases |a|
  {
    if |a| > 0 {
      assert (a + b)[1..] == a[1..] + b;
      CountAppend(a[1..], b, c);
    } else {
      assert a + b == b;
    }
  }

  /** Replacing a character that does not occur changes nothing. */
  lemma {:induction false} ReplaceAbsent(s: string, c: char, r: string)
    requires c !in s
    ensures Replace(s, c, r) == s
  {
    if |s| > 0 { ReplaceAbsent(s[1..], c, r); }
  }

  /** Length of `s.replace(c, r)`. */
  lemma {:induction false} ReplaceLength(s: string, c: char, r: string)
    ensures |Replace(s, c, r)| == |s| + Count(s, c) * (|r| - 1)
  {
    if |s| > 0 { ReplaceLength(s[1..], c, r); }
  }

  /** Occurrences of `d` after replacing a different character `c` by `r`. */
  lemma {:induction false} CountAfterReplace(s: string, c: char, r: string, d: char)
    requires c != d
    ensures Count(Replace(s, c, r), d) == Count(s, d) + Count(s, c) * Count(r, d)
  {
    if |s| > 0 {
      var t := Replace(s[1..], c, r);
      var n := Count(s[1..], c);
      var m := Count(r, d);
      CountAfterReplace(s[1..], c, r, d);
      if s[0] == c {
        CountAppend(r, t, d);
        assert Count(s, c) == 1 + n;
        assert (1 + n) * m == m + n * m;
      } else {
        CountAppend([s[0]], t, d);
        assert Count(s, c) == n;
      }
    }
  }
}
