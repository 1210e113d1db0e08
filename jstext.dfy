/** The JavaScript string built-ins the modelled code relies on, stated over Dafny strings
    (sequences of Unicode scalar values). */
module JsText {

  /** The class `\s` of JavaScript regular expressions: WhiteSpace and LineTerminator
      code points. `String.prototype.trim` removes exactly this set. */
  predicate IsSpace(c: char) {
    c == '\t' || c == '\n' || c == '\U{B}' || c == '\U{C}' || c == '\r' || c == ' '
    || c == '\U{A0}' || c == '\U{1680}' || ('\U{2000}' <= c <= '\U{200A}')
    || c == '\U{2028}' || c == '\U{2029}' || c == '\U{202F}' || c == '\U{205F}'
    || c == '\U{3000}' || c == '\U{FEFF}'
  }

  /** The number of whitespace characters `s` starts with. */
  function LeadingSpaces(s: string): (n: nat)
    ensures n <= |s|
    ensures n == |s| || !IsSpace(s[n])
    ensures forall k :: 0 <= k < n ==> IsSpace(s[k])
  {
    if s != [] && IsSpace(s[0]) then 1 + LeadingSpaces(s[1..]) else 0
  }

  /** The number of whitespace characters `s` ends with. */
  function TrailingSpaces(s: string): (n: nat)
    ensures n <= |s|
    ensures n == |s| || !IsSpace(s[|s| - 1 - n])
    ensures forall k :: |s| - n <= k < |s| ==> IsSpace(s[k])
  {
    if s != [] && IsSpace(s[|s| - 1]) then 1 + TrailingSpaces(s[..|s| - 1]) else 0
  }

  /** `s` with its leading whitespace removed. */
  function TrimStart(s: string): string {
    s[LeadingSpaces(s)..]
  }

  /** `s` with its trailing whitespace removed. */
  function TrimEnd(s: string): string {
    s[..|s| - TrailingSpaces(s)]
  }

  /** `String.prototype.trim`. */
  function Trim(s: string): string {
    TrimEnd(TrimStart(s))
  }

  /** Trim keeps a contiguous slice of its input, drops only whitespace around it, and
      leaves no whitespace at either end. */
  lemma TrimIsSlice(s: string)
    ensures var lead := LeadingSpaces(s);
      && lead + |Trim(s)| <= |s|
      && Trim(s) == s[lead..lead + |Trim(s)|]
      && (forall k :: 0 <= k < lead ==> IsSpace(s[k]))
      && (forall k :: lead + |Trim(s)| <= k < |s| ==> IsSpace(s[k]))
      && (Trim(s) == [] || (!IsSpace(Trim(s)[0]) && !IsSpace(Trim(s)[|Trim(s)| - 1])))
  {
    var lead := LeadingSpaces(s);
    var t := TrimStart(s);
    var r := TrimEnd(t);
    TrimEndIsPrefix(t);
    SpacesAfterSlice(s, lead, t, r);
  }

  /** A prefix `r` of `s[lead..]` followed there by whitespace only is the slice of `s` at
      `lead`, and everything after it in `s` is whitespace. */
  lemma SpacesAfterSlice(s: string, lead: nat, t: string, r: string)
    requires lead <= |s| && t == s[lead..] && |r| <= |t| && r == t[..|r|]
    requires forall k :: |r| <= k < |t| ==> IsSpace(t[k])
    ensures lead + |r| <= |s| && r == s[lead..lead + |r|]
    ensures forall k :: lead + |r| <= k < |s| ==> IsSpace(s[k])
    ensures r != [] ==> r[0] == s[lead]
  {
    forall k | lead + |r| <= k < |s|
      ensures IsSpace(s[k])
    {
      assert s[k] == t[k - lead];
    }
  }

  /** `TrimEnd` keeps a prefix and drops only whitespace after it. */
  lemma TrimEndIsPrefix(t: string)
    ensures var r := TrimEnd(t);
      && |r| <= |t| && r == t[..|r|]
      && (forall k :: |r| <= k < |t| ==> IsSpace(t[k]))
      && (r == [] || !IsSpace(r[|r| - 1]))
  {
    var r := TrimEnd(t);
    if r != [] {
      assert r[|r| - 1] == t[|t| - 1 - TrailingSpaces(t)];
    }
  }

  /** Text without whitespace at either end is its own trim. */
  lemma TrimKeeps(s: string)
    requires s == [] || (!IsSpace(s[0]) && !IsSpace(s[|s| - 1]))
    ensures Trim(s) == s
  {
    assert LeadingSpaces(s) == 0;
    assert s[0..] == s;
    assert TrailingSpaces(s) == 0;
    assert s[..|s|] == s;
  }

  /** A string is blank (`!s.trim()` holds) exactly when every character is whitespace. */
  predicate IsBlank(s: string) {
    Trim(s) == []
  }

  lemma BlankIffAllSpace(s: string)
    ensures IsBlank(s) <==> forall k :: 0 <= k < |s| ==> IsSpace(s[k])
  {
    TrimIsSlice(s);
    if !IsBlank(s) {
      assert !IsSpace(s[LeadingSpaces(s)]);
    }
  }

  /** `toLowerCase` on one character, restricted to ASCII. */
  function LowerChar(c: char): char {
    if 'A' <= c <= 'Z' then (c as int + 32) as char else c
  }

  /** `String.prototype.toLowerCase`, restricted to ASCII letters. */
  function ToLower(s: string): (r: string)
    ensures |r| == |s|
    ensures forall k :: 0 <= k < |s| ==> r[k] == LowerChar(s[k])
  {
    if s == [] then [] else [LowerChar(s[0])] + ToLower(s[1..])
  }

  /** `s.includes(t)`: `t` occurs somewhere in `s`. */
  predicate Contains(s: string, t: string)
    decreases |s|
  {
    t <= s || (s != [] && Contains(s[1..], t))
  }

  /** A string shorter than the text searched for does not contain it. */
  lemma {:induction false} ContainsNeedsRoom(s: string, t: string)
    requires |s| < |t|
    ensures !Contains(s, t)
  {
    if s != [] {
      ContainsNeedsRoom(s[1..], t);
    }
  }

  /** `s.replace(/pat/g, rep)` where `pat` is a literal text and `rep` is inserted as it is:
      occurrences are found left to right and do not overlap. */
  function ReplaceAll(s: string, pat: string, rep: string): string
    requires pat != []
    decreases |s|
  {
    if s == [] then []
    else if pat <= s then rep + ReplaceAll(s[|pat|..], pat, rep)
    else [s[0]] + ReplaceAll(s[1..], pat, rep)
  }

  /** Text in which the pattern does not occur is returned unchanged. */
  lemma {:induction false} ReplaceAllAbsent(s: string, pat: string, rep: string)
    requires pat != [] && !Contains(s, pat)
    ensures ReplaceAll(s, pat, rep) == s
  {
    if s != [] {
      ReplaceAllAbsent(s[1..], pat, rep);
    }
  }

  /** The replacement text `String.prototype.replace` inserts for one match when it is given a
      string (GetSubstitution, section 22.1.3.19.1 of ECMA-262, for a pattern without capture
      groups): `$$` stands for `$`, `$&` for the match, `` $` `` for the text before it and
      `$'` for the text after it; any other `$` is kept. */
  function Substitution(rep: string, matched: string, before: string, after: string): string
    decreases |rep|
  {
    if rep == [] then []
    else if rep[0] == '$' && |rep| >= 2 && rep[1] in "$&`'" then
      (match rep[1]
       case '$' => "$"
       case '&' => matched
       case '`' => before
       case _ => after)
      + Substitution(rep[2..], matched, before, after)
    else [rep[0]] + Substitution(rep[1..], matched, before, after)
  }

  /** A replacement without `$` is inserted as it is. */
  lemma {:induction false} SubstitutionLiteral(rep: string, matched: string, before: string, after: string)
    requires '$' !in rep
    ensures Substitution(rep, matched, before, after) == rep
    decreases |rep|
  {
    if rep != [] {
      SubstitutionLiteral(rep[1..], matched, before, after);
    }
  }

  /** `s.replace(/pat/g, rep)` as JavaScript evaluates it when `rep` is a string: every
      occurrence from position `i` on, left to right and not overlapping, becomes
      `Substitution(rep, …)`. */
  function ReplaceAllExpanding(s: string, pat: string, rep: string, i: nat): string
    requires pat != [] && i <= |s|
    decreases |s| - i
  {
    if i == |s| then []
    else if pat <= s[i..] then
      Substitution(rep, pat, s[..i], s[i + |pat|..]) + ReplaceAllExpanding(s, pat, rep, i + |pat|)
    else [s[i]] + ReplaceAllExpanding(s, pat, rep, i + 1)
  }

  /** With a replacement free of `$`, the expanding replace is the literal one. */
  lemma {:induction false} ExpandingIsLiteralWithoutDollar(s: string, pat: string, rep: string, i: nat)
    requires pat != [] && i <= |s| && '$' !in rep
    ensures ReplaceAllExpanding(s, pat, rep, i) == ReplaceAll(s[i..], pat, rep)
    decreases |s| - i
  {
    if i < |s| {
      if pat <= s[i..] {
        SubstitutionLiteral(rep, pat, s[..i], s[i + |pat|..]);
        ExpandingIsLiteralWithoutDollar(s, pat, rep, i + |pat|);
        assert s[i..][|pat|..] == s[i + |pat|..];
      } else {
        ExpandingIsLiteralWithoutDollar(s, pat, rep, i + 1);
        assert s[i..][1..] == s[i + 1..];
      }
    }
  }

  /** The literal replace puts the replacement in place of a text that is just the pattern. */
  lemma ReplaceAllWhole(pat: string, rep: string)
    requires pat != []
    ensures ReplaceAll(pat, pat, rep) == rep
  {
    assert pat[|pat|..] == [];
    assert rep + [] == rep;
  }

  /** `s.replace(/\n/g, '<br>')`. */
  function NewlinesToBreaks(s: string): (r: string)
    ensures '\n' !in r
  {
    if s == [] then []
    else (if s[0] == '\n' then "<br>" else [s[0]]) + NewlinesToBreaks(s[1..])
  }

  /** NewlinesToBreaks is the literal replace-all of `\n` by `<br>`. */
  lemma {:induction false} NewlinesToBreaksReplaces(s: string)
    ensures NewlinesToBreaks(s) == ReplaceAll(s, "\n", "<br>")
    decreases |s|
  {
    if s != [] {
      NewlinesToBreaksReplaces(s[1..]);
      assert "\n" <= s <==> s[0] == '\n';
    }
  }

  /** Text without newlines is left as it is. */
  lemma NewlinesToBreaksKeeps(s: string)
    requires '\n' !in s
    ensures NewlinesToBreaks(s) == s
  {
    NewlinesToBreaksSplit(s, |s|);
    assert s[..|s|] == s && s[|s|..] == [];
  }

  /** One character of the conversion: a character other than `\n` is copied. */
  lemma NewlinesToBreaksCons(s: string)
    requires s != [] && s[0] != '\n'
    ensures NewlinesToBreaks(s) == [s[0]] + NewlinesToBreaks(s[1..])
  {
  }

  /** A prefix without newlines is copied as it is. */
  lemma {:induction false} NewlinesToBreaksSplit(s: string, m: nat)
    requires m <= |s| && '\n' !in s[..m]
    ensures NewlinesToBreaks(s) == s[..m] + NewlinesToBreaks(s[m..])
    decreases m
  {
    if m > 0 {
      assert s[0] == s[..m][0];
      NewlinesToBreaksSplit(s[1..], m - 1);
      assert s[1..][m - 1..] == s[m..];
      assert [s[0]] + s[1..][..m - 1] == s[..m];
    }
  }

  lemma SliceOfSlice(s: string, i: nat, n: nat)
    requires i + n <= |s|
    ensures s[i..][..n] == s[i..i + n] && s[i..][n..] == s[i + n..]
  {
  }

  lemma SliceOfConcat(a: string, b: string, n: nat)
    requires n <= |b|
    ensures (a + b)[|a|..] == b && (a + b)[|a|..|a| + n] == b[..n]
  {
  }

  /** `s.length`: the number of UTF-16 code units, two for a code point above U+FFFF. */
  function Utf16Length(s: string): (n: nat)
    ensures |s| <= n <= 2 * |s|
  {
    if s == [] then 0 else (if s[0] as int > 0xFFFF then 2 else 1) + Utf16Length(s[1..])
  }

  /** The longest prefix of `s` that does not contain `c`. */
  function TakeUntil(s: string, c: char): (r: string)
    ensures r <= s && c !in r
    ensures |r| == |s| || s[|r|] == c
  {
    if s == [] || s[0] == c then [] else [s[0]] + TakeUntil(s[1..], c)
  }

  /** Reading up to a delimiter recovers the text written before it. */
  lemma {:induction false} TakeUntilConcat(x: string, y: string, c: char)
    requires c !in x && y != [] && y[0] == c
    ensures TakeUntil(x + y, c) == x
  {
    if x != [] {
      assert (x + y)[1..] == x[1..] + y;
      TakeUntilConcat(x[1..], y, c);
    }
  }

  /** Characters `encodeURIComponent` leaves as they are. */
  predicate IsUriUnreserved(c: char) {
    ('A' <= c <= 'Z') || ('a' <= c <= 'z') || ('0' <= c <= '9') || c in "-_.!~*'()"
  }

  /** The UTF-8 bytes of one code point. */
  function Utf8(c: char): (bytes: seq<int>)
    ensures 1 <= |bytes| <= 4
    ensures forall k :: 0 <= k < |bytes| ==> 0 <= bytes[k] < 256
  {
    var n := c as int;
    if n < 0x80 then [n]
    else if n < 0x800 then [0xC0 + n / 64, 0x80 + n % 64]
    else if n < 0x10000 then [0xE0 + n / 4096, 0x80 + n / 64 % 64, 0x80 + n % 64]
    else [0xF0 + n / 262144, 0x80 + n / 4096 % 64, 0x80 + n / 64 % 64, 0x80 + n % 64]
  }

  /** An upper-case hexadecimal digit. */
  function HexUpper(v: int): (c: char)
    requires 0 <= v < 16
    ensures IsUriUnreserved(c)
  {
    if v < 10 then ('0' as int + v) as char else ('A' as int + v - 10) as char
  }

  /** `%XX` for each byte. */
  function PercentBytes(bytes: seq<int>): (r: string)
    requires forall k :: 0 <= k < |bytes| ==> 0 <= bytes[k] < 256
    ensures |r| == 3 * |bytes|
    ensures forall k :: 0 <= k < |r| ==> IsUriUnreserved(r[k]) || r[k] == '%'
  {
    if bytes == [] then []
    else ['%', HexUpper(bytes[0] / 16), HexUpper(bytes[0] % 16)] + PercentBytes(bytes[1..])
  }

  /** `encodeURIComponent`: unreserved characters are kept, every other code point becomes
      the percent-escapes of its UTF-8 bytes. The result uses only unreserved characters
      and `%`, and text made of unreserved characters comes back unchanged. */
  function EncodeUriComponent(s: string): (r: string)
    ensures forall k :: 0 <= k < |r| ==> IsUriUnreserved(r[k]) || r[k] == '%'
    ensures (forall k :: 0 <= k < |s| ==> IsUriUnreserved(s[k])) ==> r == s
  {
    if s == [] then []
    else if IsUriUnreserved(s[0]) then [s[0]] + EncodeUriComponent(s[1..])
    else PercentBytes(Utf8(s[0])) + EncodeUriComponent(s[1..])
  }

  /** An encoded component cannot end a quoted HTML attribute, start a tag, or begin a
      new query parameter. */
  lemma EncodedIsAttributeSafe(s: string)
    ensures var r := EncodeUriComponent(s);
      '"' !in r && '<' !in r && '>' !in r && '&' !in r && '=' !in r
      && forall k :: 0 <= k < |r| ==> !IsSpace(r[k])
  {
    var r := EncodeUriComponent(s);
    forall k | 0 <= k < |r|
      ensures r[k] != '"' && r[k] != '<' && r[k] != '>' && r[k] != '&' && r[k] != '=' && !IsSpace(r[k])
    {
      assert IsUriUnreserved(r[k]) || r[k] == '%';
    }
  }
}
