/** URL detection shared by TrackingGenerator and EmailTracker: the two global regular
    expressions as left-to-right scanners, and the clean-up of trailing punctuation.

    A scan looks for a match at the current position; a failed match copies one character
    and moves on, a successful one resumes right after the match. Positions are suffixes:
    `MatchLen(p, s)` is the length of the match that starts at the first character of `s`. */
module LinkScan {
  import opened JsText

  /** The two URL patterns of the source. */
  datatype Pattern =
    | Generator  // https?:\/\/[^\s<>"']*[^\s<>"'\.,;:!?)]  (trackingGenerator.ts)
    | Tracker    // https?:\/\/[^\s<>"']+                   (mailTracker.ts)

  /** The characters both patterns refuse inside a URL: `\s`, `<`, `>`, `"` and `'`. */
  predicate IsUrlBreak(c: char) {
    IsSpace(c) || c == '<' || c == '>' || c == '"' || c == '\''
  }

  /** The characters the Generator pattern refuses as the last character of a URL. */
  const ClosingPunct: set<char> := {'.', ',', ';', ':', '!', '?', ')'}

  /** The characters the clean-up loop strips from the end of a matched URL. */
  const TrailingPunct: set<char> := {'.', ',', ';', ':', '!', '?', ')', ']', '}', '\'', '"'}

  /** No URL break in `s[i..j]`. */
  predicate BreakFree(s: string, i: nat, j: nat)
    requires i <= j <= |s|
  {
    forall m :: i <= m < j ==> !IsUrlBreak(s[m])
  }

  /** The length of the `https?:\/\/` prefix of `s`, or 0 when `s` does not start with one. */
  function SchemeLen(s: string): (k: nat)
    ensures k == 0 || k == 7 || k == 8
    ensures k > 0 ==> k <= |s| && s[k - 1] == '/' && BreakFree(s, 0, k)
    ensures k > 0 ==> s[0] == 'h'
  {
    if "https://" <= s then 8 else if "http://" <= s then 7 else 0
  }

  /** The scheme only depends on the first characters of the text. */
  lemma SchemeOfSamePrefix(s: string, t: string)
    requires SchemeLen(s) > 0 && SchemeLen(s) <= |t| && t[..SchemeLen(s)] == s[..SchemeLen(s)]
    ensures SchemeLen(t) == SchemeLen(s)
  {
    if SchemeLen(s) == 7 {
      assert t[..7] == "http://";
      assert t[4] == ':';
    } else {
      assert t[..8] == "https://";
    }
  }

  /** The length of the longest prefix of `s` without a URL break. */
  function RunLen(s: string): (n: nat)
    ensures n <= |s| && BreakFree(s, 0, n)
    ensures n == |s| || IsUrlBreak(s[n])
  {
    if s == [] || IsUrlBreak(s[0]) then 0 else 1 + RunLen(s[1..])
  }

  /** `t` without its longest suffix of characters from `cs`. */
  function DropTrailing(t: string, cs: set<char>): (r: string)
    ensures r <= t
    ensures r == [] || r[|r| - 1] !in cs
    ensures forall j :: |r| <= j < |t| ==> t[j] in cs
  {
    if t != [] && t[|t| - 1] in cs then DropTrailing(t[..|t| - 1], cs) else t
  }

  /** The three facts DropTrailing promises determine its result: any split of `t` into a
      part not ending in `cs` and a tail drawn from `cs` is the one DropTrailing makes. */
  lemma DropTrailingUnique(t: string, cs: set<char>, u: string)
    requires u <= t
    requires u == [] || u[|u| - 1] !in cs
    requires forall j :: |u| <= j < |t| ==> t[j] in cs
    ensures DropTrailing(t, cs) == u
  {
  }

  /** The URL a pattern matches at the start of `s`, as a length; 0 when there is none.
      For Tracker the match is the scheme and the whole run after it, when that run is not
      empty. For Generator it is the scheme and that run up to its last character outside
      ClosingPunct (the greedy `*` gives back characters until the final class matches). */
  function MatchLen(p: Pattern, s: string): (n: nat)
    ensures n <= |s|
    ensures n > 0 ==> 0 < SchemeLen(s) < n && BreakFree(s, 0, n)
    ensures n > 0 && p == Generator ==> s[n - 1] !in ClosingPunct
  {
    var k := SchemeLen(s);
    if k == 0 then 0
    else
      var run := s[k..k + RunLen(s[k..])];
      var body := if p == Generator then DropTrailing(run, ClosingPunct) else run;
      if body == [] then 0 else k + |body|
  }

  /** `s[..m]` is a text the pattern's regular expression accepts. */
  predicate IsMatchEnd(p: Pattern, s: string, m: nat) {
    var k := SchemeLen(s);
    && 0 < k < m <= |s|
    && BreakFree(s, k, m)
    && (p == Generator ==> s[m - 1] !in ClosingPunct)
  }

  /** MatchLen is the leftmost-longest match of the regular expression: it is a text the
      pattern accepts, no longer text is, and there is a match exactly when it is positive. */
  lemma MatchIsLongest(p: Pattern, s: string)
    ensures MatchLen(p, s) > 0 ==> IsMatchEnd(p, s, MatchLen(p, s))
    ensures forall m: nat :: IsMatchEnd(p, s, m) ==> 0 < m <= MatchLen(p, s)
  {
    var k := SchemeLen(s);
    forall m: nat | IsMatchEnd(p, s, m)
      ensures 0 < m <= MatchLen(p, s)
    {
      var r := RunLen(s[k..]);
      var run := s[k..k + r];
      if p == Generator {
        assert run[m - k - 1] == s[m - 1];
      }
    }
  }

  /** One step of the global scan. */
  datatype Piece =
    | Plain(c: char)    // a position where no match starts: the character is copied
    | Link(url: string) // a match, as the regular expression found it

  /** The global scan of `s`: the regex's matches and the characters between them, in order. */
  function Decompose(p: Pattern, s: string): seq<Piece>
    decreases |s|
  {
    if s == [] then []
    else
      var n := MatchLen(p, s);
      if n > 0 then [Link(s[..n])] + Decompose(p, s[n..])
      else [Plain(s[0])] + Decompose(p, s[1..])
  }

  /** The text the pieces were read from. */
  function Flatten(ps: seq<Piece>): string {
    if ps == [] then []
    else (match ps[0] case Plain(c) => [c] case Link(u) => u) + Flatten(ps[1..])
  }

  /** The matched URLs, in order. */
  function Links(ps: seq<Piece>): seq<string> {
    if ps == [] then []
    else (match ps[0] case Plain(_) => [] case Link(u) => [u]) + Links(ps[1..])
  }

  /** `s.match(pattern)` (with `[]` for null): every match, raw, in order. */
  function Matches(p: Pattern, s: string): seq<string> {
    Links(Decompose(p, s))
  }

  /** The scan loses and invents nothing: the pieces spell the input. */
  lemma {:induction false} FlattenDecompose(p: Pattern, s: string)
    ensures Flatten(Decompose(p, s)) == s
    decreases |s|
  {
    if s != [] {
      var m := if MatchLen(p, s) > 0 then MatchLen(p, s) else 1;
      FlattenDecomposeStep(p, s);
      FlattenDecompose(p, s[m..]);
      Rejoin(s, m, Flatten(Decompose(p, s)), Flatten(Decompose(p, s[m..])));
    }
  }

  /** A text spelled as the first `m` characters of `s` and then the rest of `s` is `s`. */
  lemma Rejoin(s: string, m: nat, whole: string, rest: string)
    requires m <= |s| && whole == s[..m] + rest && rest == s[m..]
    ensures whole == s
  {
    assert s[..m] + s[m..] == s;
  }

  /** The first piece spells the text up to where the scan resumes. */
  lemma FlattenDecomposeStep(p: Pattern, s: string)
    requires s != []
    ensures var m := if MatchLen(p, s) > 0 then MatchLen(p, s) else 1;
      Flatten(Decompose(p, s)) == s[..m] + Flatten(Decompose(p, s[m..]))
  {
    var n := MatchLen(p, s);
    var m := if n > 0 then n else 1;
    var ps := Decompose(p, s);
    assert ps[1..] == Decompose(p, s[m..]);
    if n == 0 {
      assert s[..m] == [s[0]];
    }
  }

  /** What every match looks like: a scheme, at least one more character, no URL break,
      and, for Generator, a last character outside ClosingPunct. */
  predicate IsLinkText(p: Pattern, u: string) {
    && 0 < SchemeLen(u) < |u|
    && BreakFree(u, 0, |u|)
    && (p == Generator ==> u[|u| - 1] !in ClosingPunct)
  }

  lemma {:induction false} MatchesAreLinkTexts(p: Pattern, s: string)
    ensures forall k :: 0 <= k < |Matches(p, s)| ==> IsLinkText(p, Matches(p, s)[k])
    decreases |s|
  {
    if s != [] {
      var n := MatchLen(p, s);
      MatchesStep(p, s);
      if n > 0 {
        MatchesAreLinkTexts(p, s[n..]);
        MatchIsLinkText(p, s);
        LinkTextsCons(p, s[..n], Matches(p, s[n..]));
      } else {
        MatchesAreLinkTexts(p, s[1..]);
      }
    }
  }

  /** The match at the start of a text has the shape of a link text. */
  lemma MatchIsLinkText(p: Pattern, s: string)
    requires MatchLen(p, s) > 0
    ensures IsLinkText(p, s[..MatchLen(p, s)])
  {
    var n := MatchLen(p, s);
    var u := s[..n];
    SchemeOfSamePrefix(s, u);
    forall m | 0 <= m < |u|
      ensures !IsUrlBreak(u[m])
    {
      assert u[m] == s[m];
    }
  }

  lemma LinkTextsCons(p: Pattern, u: string, us: seq<string>)
    requires IsLinkText(p, u)
    requires forall k :: 0 <= k < |us| ==> IsLinkText(p, us[k])
    ensures forall k :: 0 <= k < |[u] + us| ==> IsLinkText(p, ([u] + us)[k])
  {
    forall k | 0 <= k < |[u] + us|
      ensures IsLinkText(p, ([u] + us)[k])
    {
      if k > 0 {
        assert ([u] + us)[k] == us[k - 1];
      }
    }
  }

  /** Text with no `http` scheme anywhere has no match. */
  predicate NoScheme(s: string) {
    forall i :: 0 <= i <= |s| ==> SchemeLen(s[i..]) == 0
  }

  lemma {:induction false} NoSchemeAllPlain(p: Pattern, s: string)
    requires NoScheme(s)
    ensures Matches(p, s) == []
    ensures Decompose(p, s) == seq(|s|, k requires 0 <= k < |s| => Plain(s[k]))
    decreases |s|
  {
    if s != [] {
      assert SchemeLen(s[0..]) == 0;
      assert s[0..] == s;
      forall i | 0 <= i <= |s[1..]|
        ensures SchemeLen(s[1..][i..]) == 0
      {
        assert s[1..][i..] == s[i + 1..];
      }
      NoSchemeAllPlain(p, s[1..]);
    }
  }

  /** The clean URL: the match without its trailing punctuation. */
  function Clean(url: string): string {
    DropTrailing(url, TrailingPunct)
  }

  /** The stripped punctuation, in its original order. */
  function Punct(url: string): string {
    url[|Clean(url)|..]
  }

  /** The clean-up loop: while the last character is trailing punctuation, move it to the
      front of `punctuation`. The result splits the URL into a part that does not end in
      punctuation and the punctuation tail, which is what Clean and Punct describe. */
  method StripTrailing(url: string) returns (cleanUrl: string, punctuation: string)
    ensures cleanUrl + punctuation == url
    ensures cleanUrl == [] || cleanUrl[|cleanUrl| - 1] !in TrailingPunct
    ensures forall j :: 0 <= j < |punctuation| ==> punctuation[j] in TrailingPunct
    ensures cleanUrl == Clean(url) && punctuation == Punct(url)
  {
    cleanUrl, punctuation := url, "";
    while cleanUrl != [] && cleanUrl[|cleanUrl| - 1] in TrailingPunct
      invariant cleanUrl + punctuation == url
      invariant forall j :: 0 <= j < |punctuation| ==> punctuation[j] in TrailingPunct
    {
      punctuation := [cleanUrl[|cleanUrl| - 1]] + punctuation;
      cleanUrl := cleanUrl[..|cleanUrl| - 1];
    }
    assert cleanUrl <= url;
    forall j | |cleanUrl| <= j < |url|
      ensures url[j] in TrailingPunct
    {
      assert url[j] == punctuation[j - |cleanUrl|];
    }
    DropTrailingUnique(url, TrailingPunct, cleanUrl);
  }

  /** Stripping never reaches into the scheme, which ends in `/`: a match's clean URL still
      starts with the scheme the match started with. */
  lemma CleanKeepsScheme(url: string)
    requires SchemeLen(url) > 0
    ensures |Clean(url)| >= SchemeLen(url)
    ensures SchemeLen(Clean(url)) == SchemeLen(url)
    ensures Clean(url) + Punct(url) == url
  {
    var k := SchemeLen(url);
    var c := Clean(url);
    assert c[..k] == url[..k];
    SchemeOfSamePrefix(url, c);
  }

  /** One step of `match`: a match at the first character is listed and skipped whole;
      otherwise the first character is skipped. */
  lemma MatchesStep(p: Pattern, s: string)
    requires s != []
    ensures var n := MatchLen(p, s);
      Matches(p, s) == if n > 0 then [s[..n]] + Matches(p, s[n..]) else Matches(p, s[1..])
  {
    var ps := Decompose(p, s);
    assert ps[1..] == Decompose(p, s[if MatchLen(p, s) > 0 then MatchLen(p, s) else 1..]);
  }

  /** No match starts at a character other than `h`. */
  lemma MatchesSkip(p: Pattern, s: string)
    requires s != [] && s[0] != 'h'
    ensures Matches(p, s) == Matches(p, s[1..])
  {
    MatchesStep(p, s);
  }

  /** Replacing newlines by `<br>` does not change whether a text without `\n` or `<`
      starts it: up to the first newline the texts agree, and there one has `\n`, the
      other `<`. */
  lemma PrefixUnderBreaks(w: string, s: string)
    requires '\n' !in w && '<' !in w
    ensures w <= NewlinesToBreaks(s) <==> w <= s
  {
    var m := |TakeUntil(s, '\n')|;
    assert s[..m] == TakeUntil(s, '\n');
    NewlinesToBreaksSplit(s, m);
    var t := NewlinesToBreaks(s);
    if m < |s| {
      assert s[m..][1..] == s[m + 1..];
      assert NewlinesToBreaks(s[m..]) == "<br>" + NewlinesToBreaks(s[m + 1..]);
      assert t[m] == '<';
      if |w| <= m {
        assert t[..|w|] == s[..|w|];
      }
    } else {
      assert s[m..] == [];
      assert t == s;
    }
  }

  lemma SchemeUnderBreaks(s: string)
    ensures SchemeLen(NewlinesToBreaks(s)) == SchemeLen(s)
  {
    PrefixUnderBreaks("https://", s);
    PrefixUnderBreaks("http://", s);
  }

  /** A break-free text followed by a break (or by nothing) is one whole run. */
  lemma {:induction false} RunLenOfBreakAfter(u: string, v: string)
    requires BreakFree(u, 0, |u|)
    requires v == [] || IsUrlBreak(v[0])
    ensures RunLen(u + v) == |u|
    decreases |u|
  {
    if u != [] {
      assert (u + v)[1..] == u[1..] + v;
      RunLenOfBreakAfter(u[1..], v);
    } else {
      assert u + v == v;
    }
  }

  /** Newline conversion keeps the run at the start of a text: a newline ends it and `<br>`
      starts with `<`, which ends it too. */
  lemma {:induction false} RunUnderBreaks(s: string)
    ensures var r := RunLen(s);
      RunLen(NewlinesToBreaks(s)) == r && NewlinesToBreaks(s)[..r] == s[..r]
    decreases |s|
  {
    if s != [] && !IsUrlBreak(s[0]) {
      RunUnderBreaks(s[1..]);
      NewlinesToBreaksCons(s);
      RunCons(s[0], s[1..], NewlinesToBreaks(s[1..]));
      assert [s[0]] + s[1..] == s;
    }
  }

  /** A character that is not a break, in front of two texts with the same run, gives two
      texts with the same run. */
  lemma RunCons(c: char, a: string, b: string)
    requires !IsUrlBreak(c) && RunLen(b) == RunLen(a) && b[..RunLen(a)] == a[..RunLen(a)]
    ensures RunLen([c] + b) == RunLen([c] + a) == 1 + RunLen(a)
    ensures ([c] + b)[..1 + RunLen(a)] == ([c] + a)[..1 + RunLen(a)]
  {
    assert ([c] + a)[1..] == a && ([c] + b)[1..] == b;
    var r := RunLen(a);
    assert ([c] + a)[..1 + r] == [c] + a[..r];
    assert ([c] + b)[..1 + r] == [c] + b[..r];
  }

  /** Newlines are URL breaks and `<br>` starts with one, so the match at the start of a
      text is the same before and after newline conversion. */
  lemma MatchLenUnderBreaks(p: Pattern, s: string)
    ensures MatchLen(p, NewlinesToBreaks(s)) == MatchLen(p, s)
  {
    SchemeUnderBreaks(s);
    if SchemeLen(s) > 0 {
      RunAfterSchemeUnderBreaks(s);
      MatchLenOfRun(p, s, NewlinesToBreaks(s));
    }
  }

  lemma RunAfterSchemeUnderBreaks(s: string)
    requires SchemeLen(s) > 0
    ensures var k, t := SchemeLen(s), NewlinesToBreaks(s);
      && k <= |t|
      && RunLen(t[k..]) == RunLen(s[k..])
      && t[k..k + RunLen(s[k..])] == s[k..k + RunLen(s[k..])]
  {
    var k := SchemeLen(s);
    forall j | 0 <= j < k
      ensures s[..k][j] != '\n'
    {
      assert !IsUrlBreak(s[j]);
    }
    RunAfterPrefixUnderBreaks(s, k);
  }

  /** After a newline-free prefix, the run is the same before and after conversion. */
  lemma RunAfterPrefixUnderBreaks(s: string, k: nat)
    requires k <= |s| && '\n' !in s[..k]
    ensures var t := NewlinesToBreaks(s);
      && k <= |t|
      && RunLen(t[k..]) == RunLen(s[k..])
      && t[k..k + RunLen(s[k..])] == s[k..k + RunLen(s[k..])]
  {
    NewlinesToBreaksSplit(s, k);
    RunUnderBreaks(s[k..]);
    RunAfterSplit(s, NewlinesToBreaks(s), k, NewlinesToBreaks(s[k..]));
  }

  /** Text made of the first `k` characters of `s` and a part with the same run as the rest
      of `s` has that run at `k`. */
  lemma RunAfterSplit(s: string, t: string, k: nat, u: string)
    requires k <= |s| && t == s[..k] + u
    requires RunLen(u) == RunLen(s[k..]) && u[..RunLen(u)] == s[k..][..RunLen(u)]
    ensures k <= |t| && RunLen(t[k..]) == RunLen(s[k..])
    ensures t[k..k + RunLen(s[k..])] == s[k..k + RunLen(s[k..])]
  {
    var r := RunLen(u);
    SliceOfConcat(s[..k], u, r);
    SliceOfSlice(s, k, r);
  }

  /** The match at the start of a text depends only on its scheme and the run after it. */
  lemma MatchLenOfRun(p: Pattern, s: string, t: string)
    requires SchemeLen(s) == SchemeLen(t) > 0
    requires RunLen(s[SchemeLen(s)..]) == RunLen(t[SchemeLen(s)..])
    requires var k := SchemeLen(s); s[k..k + RunLen(s[k..])] == t[k..k + RunLen(s[k..])]
    ensures MatchLen(p, s) == MatchLen(p, t)
  {
    var k := SchemeLen(s);
    var run := s[k..k + RunLen(s[k..])];
    assert run == t[k..k + RunLen(t[k..])];
  }

  /** `<br>` holds no match. */
  lemma MatchesOfBreak(p: Pattern, u: string)
    ensures Matches(p, "<br>" + u) == Matches(p, u)
  {
    var w := "<br>";
    assert w[0] != 'h' && w[1] != 'h' && w[2] != 'h' && w[3] != 'h';
    MatchesSkipAll(p, w, u);
  }

  /** Text without `h` holds no match and is skipped over. */
  lemma {:induction false} MatchesSkipAll(p: Pattern, w: string, u: string)
    requires forall k :: 0 <= k < |w| ==> w[k] != 'h'
    ensures Matches(p, w + u) == Matches(p, u)
    decreases |w|
  {
    if w == [] {
      assert w + u == u;
    } else {
      MatchesSkip(p, w + u);
      assert (w + u)[1..] == w[1..] + u;
      MatchesSkipAll(p, w[1..], u);
    }
  }

  lemma UnderBreaksAtMatch(p: Pattern, s: string)
    requires s != [] && MatchLen(p, s) > 0
    requires Matches(p, NewlinesToBreaks(s[MatchLen(p, s)..])) == Matches(p, s[MatchLen(p, s)..])
    ensures Matches(p, NewlinesToBreaks(s)) == Matches(p, s)
  {
    var t := NewlinesToBreaks(s);
    var n := MatchLen(p, s);
    MatchLenUnderBreaks(p, s);
    MatchesStep(p, s);
    assert '\n' !in s[..n] by {
      forall j | 0 <= j < n
        ensures s[..n][j] != '\n'
      {
      }
    }
    NewlinesToBreaksSplit(s, n);
    assert t[..n] == s[..n] && t[n..] == NewlinesToBreaks(s[n..]);
    MatchesStep(p, t);
  }

  lemma UnderBreaksAtPlain(p: Pattern, s: string)
    requires s != [] && MatchLen(p, s) == 0
    requires Matches(p, NewlinesToBreaks(s[1..])) == Matches(p, s[1..])
    ensures Matches(p, NewlinesToBreaks(s)) == Matches(p, s)
  {
    var t := NewlinesToBreaks(s);
    MatchesStep(p, s);
    if s[0] != '\n' {
      MatchLenUnderBreaks(p, s);
      assert t == [s[0]] + NewlinesToBreaks(s[1..]);
      assert t[1..] == NewlinesToBreaks(s[1..]);
      MatchesStep(p, t);
    } else {
      assert t == "<br>" + NewlinesToBreaks(s[1..]);
      MatchesOfBreak(p, NewlinesToBreaks(s[1..]));
    }
  }

  /** `\n` to `<br>` conversion keeps every match: the matches of the converted text are
      those of the original, in the same order. */
  lemma {:induction false} MatchesUnderBreaks(p: Pattern, s: string)
    ensures Matches(p, NewlinesToBreaks(s)) == Matches(p, s)
    decreases |s|
  {
    if s != [] {
      var n := MatchLen(p, s);
      if n > 0 {
        MatchesUnderBreaks(p, s[n..]);
        UnderBreaksAtMatch(p, s);
      } else {
        MatchesUnderBreaks(p, s[1..]);
        UnderBreaksAtPlain(p, s);
      }
    }
  }
}
