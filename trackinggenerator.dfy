/** `TrackingGenerator` (src/services/customEmailService/trackingGenerator.ts): turns a
    plain-text body into tracked HTML with the Generator URL pattern, the hard-coded Cloud Run
    endpoints, and a UUID as tracking id. */
module TrackingGenerator {
  import opened Results
  import opened JsText
  import opened LinkScan
  import opened LinkTracking
  import Uuid

  /** The click-tracking endpoint. */
  const TrackClickUrl: string := "https://track-click-5hq6q424ca-uc.a.run.app"

  /** The open-tracking endpoint. */
  const TrackOpenUrl: string := "https://track-open-5hq6q424ca-uc.a.run.app"

  /** `generateTrackingId()`: the same version-4 template as `generateUUID`, so the id has
      that layout. */
  function GenerateTrackingId(draws: seq<Uuid.Nibble>): (id: string)
    requires |draws| == Uuid.DrawCount
    ensures Uuid.IsUuidV4(id)
    ensures '"' !in id
  {
    Uuid.GenerateUuidLayout(draws);
    var id := Uuid.GenerateUuid(draws);
    assert forall i :: 0 <= i < |id| ==> id[i] != '"' by {
      forall i | 0 <= i < |id|
        ensures id[i] != '"'
      {
        if i !in {8, 13, 14, 18, 19, 23} {
          assert Uuid.IsLowerHex(id[i]);
        }
      }
    }
    id
  }

  /** `generateTrackingPixel(trackingId, recipientEmail)`. */
  function GenerateTrackingPixel(trackingId: string, email: string): string {
    Pixel(TrackOpenUrl, trackingId, email)
  }

  lemma EndpointsHaveNoQuote()
    ensures '"' !in TrackOpenUrl && '"' !in TrackClickUrl
  {
  }

  /** The pixel's `src` is the open endpoint with the id and the encoded email, and the tag
      ends with the hidden 1x1 attributes. */
  lemma GeneratorPixelSource(trackingId: string, email: string)
    requires '"' !in trackingId
    ensures var r := GenerateTrackingPixel(trackingId, email);
      && "<img src=\"" <= r
      && TakeUntil(r[10..], '"') == TrackOpenUrl + "?id=" + trackingId + "&email=" + EncodeUriComponent(email)
      && r[|r| - |PixelTail|..] == PixelTail
  {
    EndpointsHaveNoQuote();
    PixelSource(TrackOpenUrl, trackingId, email);
  }

  /** `createTrackedLinks(text, trackingId, recipientEmail)`: the replace loop with the
      Generator pattern and the click endpoint. `btoa` throwing is the Failure result. */
  method CreateTrackedLinks(text: string, trackingId: string, email: string) returns (r: Result<string>)
    ensures r == TrackLinks(Generator, text, TrackClickUrl, trackingId, email)
    ensures r.Ok? <==> AllLatin1(Matches(Generator, text))
  {
    TrackLinksSucceeds(Generator, text, TrackClickUrl, trackingId, email);
    r := ReplaceLinks(Generator, text, TrackClickUrl, trackingId, email);
  }

  /** `countLinks(text)`: the number of Generator matches. */
  function CountLinks(text: string): nat {
    |Matches(Generator, text)|
  }

  /** Text without `http://` or `https://` has no link and is not changed. */
  lemma NoSchemeNoLinks(text: string, trackingId: string, email: string)
    requires NoScheme(text)
    ensures CountLinks(text) == 0
    ensures TrackLinks(Generator, text, TrackClickUrl, trackingId, email) == Ok(text)
  {
    NoSchemePassesThrough(Generator, text, TrackClickUrl, trackingId, email);
  }

  /** `convertNewlinesToHtml(text)`. */
  function ConvertNewlinesToHtml(text: string): (r: string)
    ensures '\n' !in r
  {
    NewlinesToBreaks(text)
  }

  /** `countLinks(text)` is the number of anchors the rewrite of `text` emits: it emits one
      anchor per match, in order, and copies the text between matches. */
  lemma CountLinksCountsAnchors(text: string, trackingId: string, email: string)
    ensures var ps := Decompose(Generator, text);
      var r := TrackLinks(Generator, text, TrackClickUrl, trackingId, email);
      var anchors := AnchorsFor(Links(ps), TrackClickUrl, trackingId, email);
      && (r.Ok? <==> anchors.Ok?)
      && (r.Ok? ==> |anchors.value| == CountLinks(text) && r.value == Weave(ps, anchors.value))
  {
    RenderEmitsAnchors(Decompose(Generator, text), TrackClickUrl, trackingId, email);
  }

  /** Counting the links of the raw body counts the links the converted body gets: the
      conversion neither creates, removes nor changes a match. */
  lemma CountLinksUnderBreaks(text: string)
    ensures CountLinks(text) == |Matches(Generator, ConvertNewlinesToHtml(text))|
    ensures AllLatin1(Matches(Generator, ConvertNewlinesToHtml(text))) <==> AllLatin1(Matches(Generator, text))
  {
    MatchesUnderBreaks(Generator, text);
  }

  /** What `generateTrackedHtml` returns. */
  datatype TrackedHtml = TrackedHtml(trackingId: string, html: string, linksCount: nat)

  /** `generateTrackedHtml(emailBody, recipientEmail, signatureContent)`, with the id's random
      draws as input: the pixel, then the converted body with its links tracked, then the
      signature; `linksCount` counts the links of the raw body, which is the number of
      anchors in `html`. It fails exactly when some clean URL is not Latin-1. */
  method GenerateTrackedHtml(emailBody: string, email: string, signatureContent: string, draws: seq<Uuid.Nibble>)
    returns (r: Result<TrackedHtml>)
    requires |draws| == Uuid.DrawCount
    ensures r.Ok? <==> AllLatin1(Matches(Generator, emailBody))
    ensures r.Ok? ==>
      var id := GenerateTrackingId(draws);
      var body := ConvertNewlinesToHtml(emailBody);
      && r.value.trackingId == id
      && Uuid.IsUuidV4(r.value.trackingId)
      && TrackLinks(Generator, body, TrackClickUrl, id, email).Ok?
      && r.value.html == GenerateTrackingPixel(id, email)
                         + TrackLinks(Generator, body, TrackClickUrl, id, email).value
                         + signatureContent
      && r.value.linksCount == |Matches(Generator, body)|
    ensures r.Ok? ==>
      && GenerateTrackingPixel(r.value.trackingId, email) <= r.value.html
      && signatureContent <= r.value.html[|r.value.html| - |signatureContent|..]
  {
    var trackingId := GenerateTrackingId(draws);
    var linksCount := CountLinks(emailBody);
    var bodyWithBreaks := ConvertNewlinesToHtml(emailBody);
    CountLinksUnderBreaks(emailBody);
    var bodyWithTrackedLinks := CreateTrackedLinks(bodyWithBreaks, trackingId, email);
    if bodyWithTrackedLinks.Failure? {
      return Failure(bodyWithTrackedLinks.error);
    }
    var trackingPixel := GenerateTrackingPixel(trackingId, email);
    var fullHtml := trackingPixel + bodyWithTrackedLinks.value + signatureContent;
    assert fullHtml[|fullHtml| - |signatureContent|..] == signatureContent;
    return Ok(TrackedHtml(trackingId, fullHtml, linksCount));
  }
}
