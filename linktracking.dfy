/** The markup both trackers produce: the open-tracking pixel, the click-tracking anchor that
    replaces each URL, and the replace loop that puts them together. */
module LinkTracking {
  import opened Results
  import opened JsText
  import opened LinkScan
  import Base64

  /** The end of the pixel's `src` attribute and the rest of the `<img>` tag. */
  const PixelTail: string := "\"" + " width=\"1\" height=\"1\" style=\"display:none;\" alt=\"\" />"

  /** The end of the anchor's `href` attribute, its style and the end of the start tag. */
  const AnchorStyle: string := "\"" + " style=\"color: #1a73e8; text-decoration: underline;\">"

  /** `{base}?id={id}&email={encodeURIComponent(email)}`: the query both endpoints receive. */
  function TrackingQuery(baseUrl: string, trackingId: string, email: string): string {
    baseUrl + "?id=" + trackingId + "&email=" + EncodeUriComponent(email)
  }

  /** The hidden 1x1 open-tracking image. */
  function Pixel(openUrl: string, trackingId: string, email: string): (r: string)
    ensures "<img src=\"" <= r
  {
    "<img src=\"" + TrackingQuery(openUrl, trackingId, email) + PixelTail
  }

  /** The pixel's `src` attribute is exactly the open-tracking query, and the tag is hidden
      and 1x1, whenever the base URL and the id do not contain a double quote. */
  lemma PixelSource(openUrl: string, trackingId: string, email: string)
    requires '"' !in openUrl && '"' !in trackingId
    ensures var r := Pixel(openUrl, trackingId, email);
      && TakeUntil(r[10..], '"') == TrackingQuery(openUrl, trackingId, email)
      && r[|r| - |PixelTail|..] == PixelTail
  {
    var q := TrackingQuery(openUrl, trackingId, email);
    QueryHasNoQuote(openUrl, trackingId, email);
    PixelLayout(openUrl, trackingId, email);
    TakeUntilConcat(q, PixelTail, '"');
  }

  lemma QueryHasNoQuote(baseUrl: string, trackingId: string, email: string)
    requires '"' !in baseUrl && '"' !in trackingId
    ensures '"' !in TrackingQuery(baseUrl, trackingId, email)
  {
    EncodedIsAttributeSafe(email);
  }

  lemma PixelLayout(openUrl: string, trackingId: string, email: string)
    ensures var r := Pixel(openUrl, trackingId, email);
      r[10..] == TrackingQuery(openUrl, trackingId, email) + PixelTail
      && r[|r| - |PixelTail|..] == PixelTail
  {
    var head := "<img src=\"";
    assert |head| == 10;
    ThreePartCut(head, TrackingQuery(openUrl, trackingId, email), PixelTail);
  }

  /** Cutting a three-part concatenation after its first part and before its last. */
  lemma ThreePartCut(a: string, b: string, c: string)
    ensures (a + b + c)[|a|..] == b + c && (a + b + c)[|a + b + c| - |c|..] == c
  {
  }

  /** The anchor's start: `<a href="{click query}&url=`. */
  function AnchorHead(clickUrl: string, trackingId: string, email: string): string {
    "<a href=\"" + TrackingQuery(clickUrl, trackingId, email) + "&url="
  }

  /** The callback's replacement for one match: an anchor on the clean URL, whose `url`
      parameter is `btoa(cleanUrl)`, followed by the stripped punctuation. */
  function Anchor(clickUrl: string, trackingId: string, email: string, url: string): (r: Result<string>)
    ensures r.Ok? <==> Base64.IsLatin1(Clean(url))
  {
    var clean := Clean(url);
    match Base64.Btoa(clean)
    case Failure(e) => Failure(e)
    case Ok(encoded) =>
      Ok(AnchorHead(clickUrl, trackingId, email) + encoded + AnchorStyle + clean + "</a>" + Punct(url))
  }

  /** What a reader of an anchor sees: the decoded `url` parameter, the visible text and
      the text that follows `</a>`. */
  datatype ParsedAnchor = ParsedAnchor(target: string, text: string, trailing: string)

  /** Reads an anchor that starts with `head`: the base64 value up to the closing quote, the
      style, the visible text up to `<`, then `</a>`; None for any other shape. */
  function ParseAnchor(a: string, head: string): Option<ParsedAnchor> {
    if !(head <= a) then None
    else
      var afterHead := a[|head|..];
      var encoded := TakeUntil(afterHead, '"');
      var afterValue := afterHead[|encoded|..];
      if !(AnchorStyle <= afterValue) then None
      else
        var afterStyle := afterValue[|AnchorStyle|..];
        var text := TakeUntil(afterStyle, '<');
        var afterText := afterStyle[|text|..];
        if !("</a>" <= afterText) then None
        else
          match Base64.Decode(encoded)
          case None => None
          case Some(target) => Some(ParsedAnchor(target, text, afterText[4..]))
  }

  /** Every anchor reads back as: `url` parameter decoding to the clean URL, visible text
      equal to the clean URL, and the stripped punctuation right after `</a>`; the clean URL
      and that punctuation spell the match. */
  lemma AnchorRoundTrip(clickUrl: string, trackingId: string, email: string, url: string)
    requires BreakFree(url, 0, |url|)
    requires Base64.IsLatin1(Clean(url))
    ensures Anchor(clickUrl, trackingId, email, url).Ok?
    ensures ParseAnchor(Anchor(clickUrl, trackingId, email, url).value, AnchorHead(clickUrl, trackingId, email))
         == Some(ParsedAnchor(Clean(url), Clean(url), Punct(url)))
    ensures Clean(url) + Punct(url) == url
  {
    var head := AnchorHead(clickUrl, trackingId, email);
    var clean, punct := Clean(url), Punct(url);
    var encoded := Base64.Btoa(clean);
    var a := head + encoded.value + AnchorStyle + clean + "</a>" + punct;
    assert Anchor(clickUrl, trackingId, email, url) == Ok(a) by {
      AnchorOfStrip(clickUrl, trackingId, email, url, clean, punct, encoded);
    }
    assert ParseAnchor(a, head) == Some(ParsedAnchor(clean, clean, punct)) by {
      CleanHasNoTagStart(url);
      Base64.DecodeEncode(clean);
      Base64.EncodedHasNoQuote(clean);
      ParseLayout(head, encoded.value, clean, punct, clean);
    }
  }

  /** Any text laid out as an anchor reads back: a value without `"` that decodes to
      `target`, and a visible text without `<`. */
  lemma ParseLayout(head: string, encoded: string, text: string, trailing: string, target: string)
    requires '"' !in encoded && '<' !in text && Base64.Decode(encoded) == Some(target)
    ensures ParseAnchor(head + encoded + AnchorStyle + text + "</a>" + trailing, head)
         == Some(ParsedAnchor(target, text, trailing))
  {
    var tail := "</a>" + trailing;
    var a := head + encoded + AnchorStyle + text + tail;
    assert head + encoded + AnchorStyle + text + "</a>" + trailing == a;
    ConcatLayout(head, encoded, AnchorStyle, text, tail);
    var afterHead := a[|head|..];
    assert TakeUntil(afterHead, '"') == encoded by {
      assert AnchorStyle[0] == '"';
      TakeUntilConcat(encoded, AnchorStyle + (text + tail), '"');
    }
    var afterValue := afterHead[|encoded|..];
    assert AnchorStyle <= afterValue by {
      PrefixOfConcat(AnchorStyle, text + tail);
    }
    var afterStyle := afterValue[|AnchorStyle|..];
    assert TakeUntil(afterStyle, '<') == text by {
      assert tail[0] == '<';
      TakeUntilConcat(text, tail, '<');
    }
    var afterText := afterStyle[|text|..];
    assert afterText == tail;
    assert "</a>" <= afterText && afterText[4..] == trailing by {
      PrefixOfConcat("</a>", trailing);
    }
  }

  lemma PrefixOfConcat(x: string, y: string)
    ensures x <= x + y && (x + y)[|x|..] == y
  {
  }

  /** The anchor, cut where ParseAnchor reads it. */
  lemma AnchorLayout(clickUrl: string, trackingId: string, email: string, url: string)
    requires Base64.IsLatin1(Clean(url))
    ensures var head, clean := AnchorHead(clickUrl, trackingId, email), Clean(url);
      var encoded, tail := Base64.Encode(clean), "</a>" + Punct(url);
      var a := Anchor(clickUrl, trackingId, email, url).value;
      && head <= a
      && a[|head|..] == encoded + (AnchorStyle + (clean + tail))
      && (encoded + (AnchorStyle + (clean + tail)))[|encoded|..] == AnchorStyle + (clean + tail)
      && (AnchorStyle + (clean + tail))[|AnchorStyle|..] == clean + tail
      && (clean + tail)[|clean|..] == tail
      && tail[4..] == Punct(url)
  {
    var head, clean := AnchorHead(clickUrl, trackingId, email), Clean(url);
    var encoded := Base64.Encode(clean);
    AnchorOfStrip(clickUrl, trackingId, email, url, clean, Punct(url), Base64.Btoa(clean));
    ConcatLayout(head, encoded, AnchorStyle, clean, "</a>" + Punct(url));
  }

  /** The anchor assembled from a strip and an encoding, as the replace callback builds it. */
  lemma AnchorOfStrip(clickUrl: string, trackingId: string, email: string, url: string,
                      clean: string, punct: string, encoded: Result<string>)
    requires clean == Clean(url) && punct == Punct(url) && encoded == Base64.Btoa(clean)
    requires encoded.Ok?
    ensures Anchor(clickUrl, trackingId, email, url)
         == Ok(AnchorHead(clickUrl, trackingId, email) + encoded.value + AnchorStyle + clean + "</a>" + punct)
  {
  }

  /** Cutting a five-part concatenation at its part boundaries. */
  lemma ConcatLayout(h: string, e: string, st: string, c: string, t: string)
    ensures var a := h + e + st + c + t;
      && h <= a
      && a[|h|..] == e + (st + (c + t))
      && (e + (st + (c + t)))[|e|..] == st + (c + t)
      && (st + (c + t))[|st|..] == c + t
      && (c + t)[|c|..] == t
  {
    var a := h + e + st + c + t;
    assert a == h + (e + (st + (c + t)));
  }

  lemma CleanHasNoTagStart(url: string)
    requires BreakFree(url, 0, |url|)
    ensures '<' !in Clean(url)
  {
    var clean := Clean(url);
    forall j | 0 <= j < |clean|
      ensures clean[j] != '<'
    {
      assert clean[j] == url[j];
    }
  }

  /** The replaced text: plain characters copied, each match replaced by its anchor. The
      first match whose clean URL has a character above U+00FF makes `btoa` throw. */
  function Render(ps: seq<Piece>, clickUrl: string, trackingId: string, email: string): Result<string> {
    if ps == [] then Ok([])
    else
      match ps[0]
      case Plain(c) => Prepend([c], Render(ps[1..], clickUrl, trackingId, email))
      case Link(u) =>
        match Anchor(clickUrl, trackingId, email, u)
        case Failure(e) => Failure(e)
        case Ok(a) => Prepend(a, Render(ps[1..], clickUrl, trackingId, email))
  }

  /** `text.replace(pattern, callback)` with the anchor-building callback. */
  function TrackLinks(p: Pattern, text: string, clickUrl: string, trackingId: string, email: string): Result<string> {
    Render(Decompose(p, text), clickUrl, trackingId, email)
  }

  /** Every clean URL is Latin-1 in the pieces. */
  predicate AllLatin1(urls: seq<string>) {
    forall k :: 0 <= k < |urls| ==> Base64.IsLatin1(Clean(urls[k]))
  }

  /** Rendering fails exactly when some match's clean URL is not Latin-1. */
  lemma {:induction false} RenderFails(ps: seq<Piece>, clickUrl: string, trackingId: string, email: string)
    ensures Render(ps, clickUrl, trackingId, email).Ok? <==> AllLatin1(Links(ps))
  {
    if ps != [] {
      RenderFails(ps[1..], clickUrl, trackingId, email);
      var rest := Links(ps[1..]);
      match ps[0]
      case Plain(c) =>
        assert Links(ps) == rest;
      case Link(u) =>
        assert Links(ps) == [u] + rest;
        AllLatin1Cons(u, rest);
    }
  }

  lemma AllLatin1Cons(u: string, rest: seq<string>)
    ensures AllLatin1([u] + rest) <==> Base64.IsLatin1(Clean(u)) && AllLatin1(rest)
  {
    var us := [u] + rest;
    if AllLatin1(us) {
      assert us[0] == u;
      forall k | 0 <= k < |rest|
        ensures Base64.IsLatin1(Clean(rest[k]))
      {
        assert us[k + 1] == rest[k];
      }
    }
    if Base64.IsLatin1(Clean(u)) && AllLatin1(rest) {
      forall k | 0 <= k < |us|
        ensures Base64.IsLatin1(Clean(us[k]))
      {
        if k > 0 {
          assert us[k] == rest[k - 1];
        }
      }
    }
  }

  /** The callback's anchor for each URL, in order; the first URL it fails on fails the list. */
  function AnchorsFor(urls: seq<string>, clickUrl: string, trackingId: string, email: string): (r: Result<seq<string>>)
    ensures r.Ok? <==> forall k :: 0 <= k < |urls| ==> Anchor(clickUrl, trackingId, email, urls[k]).Ok?
    ensures r.Ok? ==> |r.value| == |urls|
    ensures r.Ok? ==> forall k :: 0 <= k < |urls| ==> Anchor(clickUrl, trackingId, email, urls[k]) == Ok(r.value[k])
    decreases |urls|
  {
    if urls == [] then Ok([])
    else
      match Anchor(clickUrl, trackingId, email, urls[0])
      case Failure(e) => Failure(e)
      case Ok(a) =>
        match AnchorsFor(urls[1..], clickUrl, trackingId, email)
        case Failure(e) => Failure(e)
        case Ok(rest) => Ok([a] + rest)
  }

  /** The pieces with each plain character kept and the `k`-th match replaced by `anchors[k]`. */
  function Weave(ps: seq<Piece>, anchors: seq<string>): string
    requires |anchors| == |Links(ps)|
  {
    if ps == [] then []
    else
      match ps[0]
      case Plain(c) => [c] + Weave(ps[1..], anchors)
      case Link(_) => anchors[0] + Weave(ps[1..], anchors[1..])
  }

  /** Rendering emits one anchor per match and nothing else: it succeeds exactly when every
      match has an anchor, and the text is the pieces with the `k`-th match replaced by the
      `k`-th anchor. */
  lemma {:induction false} RenderEmitsAnchors(ps: seq<Piece>, clickUrl: string, trackingId: string, email: string)
    ensures var r, anchors := Render(ps, clickUrl, trackingId, email), AnchorsFor(Links(ps), clickUrl, trackingId, email);
      && (r.Ok? <==> anchors.Ok?)
      && (r.Ok? ==> |anchors.value| == |Links(ps)| && r.value == Weave(ps, anchors.value))
  {
    if ps != [] {
      RenderEmitsAnchors(ps[1..], clickUrl, trackingId, email);
      match ps[0]
      case Plain(c) =>
        assert Links(ps) == Links(ps[1..]);
      case Link(u) =>
        assert Links(ps) == [u] + Links(ps[1..]);
        assert Links(ps)[1..] == Links(ps[1..]);
    }
  }

  /** The tracked text is produced exactly when every clean URL can go through `btoa`. */
  lemma TrackLinksSucceeds(p: Pattern, text: string, clickUrl: string, trackingId: string, email: string)
    ensures TrackLinks(p, text, clickUrl, trackingId, email).Ok? <==> AllLatin1(Matches(p, text))
  {
    RenderFails(Decompose(p, text), clickUrl, trackingId, email);
  }

  /** Plain pieces render as the characters they hold. */
  lemma {:induction false} RenderPlain(s: string, clickUrl: string, trackingId: string, email: string)
    ensures Render(seq(|s|, k requires 0 <= k < |s| => Plain(s[k])), clickUrl, trackingId, email) == Ok(s)
    decreases |s|
  {
    var ps := seq(|s|, k requires 0 <= k < |s| => Plain(s[k]));
    if s != [] {
      assert ps[1..] == seq(|s[1..]|, k requires 0 <= k < |s[1..]| => Plain(s[1..][k]));
      RenderPlain(s[1..], clickUrl, trackingId, email);
      assert [s[0]] + s[1..] == s;
    }
  }

  /** Text with no `http://` or `https://` comes back unchanged and has no match. */
  lemma NoSchemePassesThrough(p: Pattern, text: string, clickUrl: string, trackingId: string, email: string)
    requires NoScheme(text)
    ensures TrackLinks(p, text, clickUrl, trackingId, email) == Ok(text)
    ensures Matches(p, text) == []
  {
    NoSchemeAllPlain(p, text);
    RenderPlain(text, clickUrl, trackingId, email);
  }

  lemma PrependTwice(a: string, b: string, r: Result<string>)
    ensures Prepend(a, Prepend(b, r)) == Prepend(a + b, r)
  {
    if r.Ok? {
      assert a + (b + r.value) == (a + b) + r.value;
    }
  }

  /** One step of the scan at a match: the anchor, then the rest of the text. */
  lemma TrackLinksAtMatch(p: Pattern, s: string, clickUrl: string, trackingId: string, email: string,
                          url: string, anchor: string)
    requires s != [] && MatchLen(p, s) > 0 && url == s[..MatchLen(p, s)]
    requires Anchor(clickUrl, trackingId, email, url) == Ok(anchor)
    ensures TrackLinks(p, s, clickUrl, trackingId, email)
         == Prepend(anchor, TrackLinks(p, s[MatchLen(p, s)..], clickUrl, trackingId, email))
  {
    var n := MatchLen(p, s);
    var ps := Decompose(p, s);
    assert ps[0] == Link(s[..n]) && ps[1..] == Decompose(p, s[n..]);
  }

  /** A match whose clean URL cannot be encoded makes the whole replacement fail. */
  lemma TrackLinksAtBadMatch(p: Pattern, s: string, clickUrl: string, trackingId: string, email: string,
                             url: string)
    requires s != [] && MatchLen(p, s) > 0 && url == s[..MatchLen(p, s)]
    requires Anchor(clickUrl, trackingId, email, url).Failure?
    ensures TrackLinks(p, s, clickUrl, trackingId, email).Failure?
  {
    var n := MatchLen(p, s);
    var ps := Decompose(p, s);
    assert ps[0] == Link(s[..n]);
  }

  /** One step of the scan where no match starts. */
  lemma TrackLinksAtPlain(p: Pattern, s: string, clickUrl: string, trackingId: string, email: string)
    requires s != [] && MatchLen(p, s) == 0
    ensures TrackLinks(p, s, clickUrl, trackingId, email)
         == Prepend([s[0]], TrackLinks(p, s[1..], clickUrl, trackingId, email))
  {
    var ps := Decompose(p, s);
    assert ps[0] == Plain(s[0]) && ps[1..] == Decompose(p, s[1..]);
  }

  /** Two prepends in a row are one prepend of both prefixes. */
  lemma Chain(whole: Result<string>, r: Result<string>, x: Result<string>, out: string, prefix: string)
    requires whole == Prepend(out, r) && r == Prepend(prefix, x)
    ensures whole == Prepend(out + prefix, x)
  {
    PrependTwice(out, prefix, x);
  }

  lemma StartScan(p: Pattern, text: string, clickUrl: string, trackingId: string, email: string)
    ensures TrackLinks(p, text, clickUrl, trackingId, email)
         == Prepend("", TrackLinks(p, text[0..], clickUrl, trackingId, email))
  {
    var r := TrackLinks(p, text, clickUrl, trackingId, email);
    assert text[0..] == text;
    if r.Ok? {
      assert "" + r.value == r.value;
    }
  }

  lemma FailScan(goal: Result<string>, out: string, rest: Result<string>)
    requires goal == Prepend(out, rest) && rest.Failure?
    ensures goal == Failure(rest.error)
  {
  }

  lemma FinishScan(goal: Result<string>, out: string, rest: Result<string>)
    requires goal == Prepend(out, rest) && rest == Ok([])
    ensures goal == Ok(out)
  {
    assert out + [] == out;
  }

  /** The replace callback for one match: strip the trailing punctuation, `btoa` the clean
      URL and build the anchor, the punctuation following it. */
  method LinkCallback(clickUrl: string, trackingId: string, email: string, url: string)
    returns (r: Result<string>)
    ensures r == Anchor(clickUrl, trackingId, email, url)
  {
    var cleanUrl, punctuation := StripTrailing(url);
    var encoded := Base64.Btoa(cleanUrl);
    if encoded.Failure? {
      return Failure(encoded.error);
    }
    AnchorOfStrip(clickUrl, trackingId, email, url, cleanUrl, punctuation, encoded);
    return Ok(AnchorHead(clickUrl, trackingId, email) + encoded.value + AnchorStyle
              + cleanUrl + "</a>" + punctuation);
  }

  /** What TrackLinks makes of the text from `i` on, given what the step at `i` emitted and
      how far it went. */
  ghost predicate StepAgrees(p: Pattern, text: string, clickUrl: string, trackingId: string, email: string,
                             i: nat, n: nat, emitted: Result<string>)
    requires i + n <= |text|
  {
    TrackLinks(p, text[i..], clickUrl, trackingId, email)
      == match emitted
         case Failure(e) => Failure(e)
         case Ok(piece) => Prepend(piece, TrackLinks(p, text[i + n..], clickUrl, trackingId, email))
  }

  /** One step of `replace` at position `i`: a match goes to the callback and is consumed
      whole; any other character is copied. */
  method ReplaceStep(p: Pattern, text: string, clickUrl: string, trackingId: string, email: string, i: nat)
    returns (n: nat, emitted: Result<string>)
    requires i < |text|
    ensures 0 < n && i + n <= |text|
    ensures StepAgrees(p, text, clickUrl, trackingId, email, i, n, emitted)
  {
    n := MatchLen(p, text[i..]);
    SliceOfSlice(text, i, n);
    if n > 0 {
      var url := text[i..i + n];
      emitted := LinkCallback(clickUrl, trackingId, email, url);
      if emitted.Failure? {
        TrackLinksAtBadMatch(p, text[i..], clickUrl, trackingId, email, url);
      } else {
        TrackLinksAtMatch(p, text[i..], clickUrl, trackingId, email, url, emitted.value);
      }
    } else {
      SliceOfSlice(text, i, 1);
      TrackLinksAtPlain(p, text[i..], clickUrl, trackingId, email);
      n, emitted := 1, Ok([text[i]]);
    }
  }

  /** The replace loop: scan left to right; at a match, hand it to the callback and emit
      what it returns, then resume after the match; elsewhere copy one character. It
      computes TrackLinks. */
  method ReplaceLinks(p: Pattern, text: string, clickUrl: string, trackingId: string, email: string)
    returns (r: Result<string>)
    ensures r == TrackLinks(p, text, clickUrl, trackingId, email)
  {
    ghost var goal := TrackLinks(p, text, clickUrl, trackingId, email);
    var out := "";
    var i := 0;
    StartScan(p, text, clickUrl, trackingId, email);
    while i < |text|
      invariant 0 <= i <= |text|
      invariant goal == Prepend(out, TrackLinks(p, text[i..], clickUrl, trackingId, email))
    {
      var n, emitted := ReplaceStep(p, text, clickUrl, trackingId, email, i);
      ghost var here := TrackLinks(p, text[i..], clickUrl, trackingId, email);
      if emitted.Failure? {
        assert here == Failure(emitted.error);
        FailScan(goal, out, here);
        return Failure(emitted.error);
      }
      ghost var next := TrackLinks(p, text[i + n..], clickUrl, trackingId, email);
      assert here == Prepend(emitted.value, next);
      Chain(goal, here, next, out, emitted.value);
      ghost var start := i;
      out := out + emitted.value;
      i := i + n;
      assert text[i..] == text[start + n..];
    }
    assert text[i..] == [];
    FinishScan(goal, out, TrackLinks(p, text[i..], clickUrl, trackingId, email));
    return Ok(out);
  }
}
