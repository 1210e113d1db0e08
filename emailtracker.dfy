/** `EmailTracker` (src/services/bulkEmailService/mailTracker.ts): personalises an email,
    tracks its links with the Tracker URL pattern and prepends the open pixel. The endpoints
    come from a configuration file that is not part of this model, so they are parameters. */
module EmailTracker {
  import opened Results
  import opened JsText
  import opened LinkScan
  import opened LinkTracking
  import Uuid

  /** `generateTrackingPixel(trackingId, recipientEmail)` with the configured open endpoint. */
  function GenerateTrackingPixel(openUrl: string, trackingId: string, email: string): (r: string)
    ensures "<img src=\"" <= r
  {
    Pixel(openUrl, trackingId, email)
  }

  /** The pixel is exactly `<img src="{open}?id={id}&email={encoded}" width="1" height="1"
      style="display:none;" alt="" />`, its `src` read back up to the closing quote. */
  lemma TrackerPixelSource(openUrl: string, trackingId: string, email: string)
    requires '"' !in openUrl && '"' !in trackingId
    ensures var r := GenerateTrackingPixel(openUrl, trackingId, email);
      && TakeUntil(r[10..], '"') == openUrl + "?id=" + trackingId + "&email=" + EncodeUriComponent(email)
      && r[|r| - |PixelTail|..] == PixelTail
  {
    PixelSource(openUrl, trackingId, email);
  }

  /** `wrapLinksWithTracking(htmlContent, trackingId, recipientEmail)`: the replace loop with
      the Tracker pattern. `btoa` throwing is the Failure result. */
  method WrapLinksWithTracking(clickUrl: string, htmlContent: string, trackingId: string, email: string)
    returns (r: Result<string>)
    ensures r == TrackLinks(Tracker, htmlContent, clickUrl, trackingId, email)
    ensures r.Ok? <==> AllLatin1(Matches(Tracker, htmlContent))
  {
    TrackLinksSucceeds(Tracker, htmlContent, clickUrl, trackingId, email);
    r := ReplaceLinks(Tracker, htmlContent, clickUrl, trackingId, email);
  }

  /** `extractLinksFromContent(content)`: the raw matches, in order, punctuation included;
      each is a scheme followed by a non-empty run without a URL break. */
  function ExtractLinksFromContent(content: string): (links: seq<string>)
    ensures forall k :: 0 <= k < |links| ==> IsLinkText(Tracker, links[k])
  {
    MatchesAreLinkTexts(Tracker, content);
    Matches(Tracker, content)
  }

  /** The content is taken as HTML when it mentions `<html` or `<body`. */
  predicate IsHtml(content: string) {
    Contains(content, "<html") || Contains(content, "<body")
  }

  /** The content before personalisation: HTML as it is, plain text with `<br>` for `\n`. */
  function PrepareContent(content: string): (r: string)
    ensures !IsHtml(content) ==> '\n' !in r
  {
    if IsHtml(content) then content else NewlinesToBreaks(content)
  }

  /** HTML content keeps its newlines; any other content has each `\n` replaced by `<br>`. */
  lemma PrepareContentCases(content: string)
    ensures IsHtml(content) ==> PrepareContent(content) == content
    ensures !IsHtml(content) ==> PrepareContent(content) == ReplaceAll(content, "\n", "<br>")
  {
    NewlinesToBreaksReplaces(content);
  }

  /** `value || ''` for an optional string. */
  function OrEmpty(value: Option<string>): string {
    match value
    case None => ""
    case Some(v) => v
  }

  /** The placeholders, replaced in this order: `{{name}}`, then `{{company}}`, then
      `{{email}}`, each value inserted as it is. */
  function Personalize(content: string, email: string, name: Option<string>, company: Option<string>): string {
    ReplaceAll(ReplaceAll(ReplaceAll(content, "{{name}}", OrEmpty(name)), "{{company}}", OrEmpty(company)),
               "{{email}}", email)
  }

  /** The same three replacements as the source writes them: `replace` with a string
      replacement, which expands `$` patterns in the recipient's values. */
  function PersonalizeAsWritten(content: string, email: string, name: Option<string>, company: Option<string>): string {
    var a := ReplaceAllExpanding(content, "{{name}}", OrEmpty(name), 0);
    var b := ReplaceAllExpanding(a, "{{company}}", OrEmpty(company), 0);
    ReplaceAllExpanding(b, "{{email}}", email, 0)
  }

  /** The two agree unless a value contains `$`. */
  lemma PersonalizeAgreesWithoutDollar(content: string, email: string, name: Option<string>, company: Option<string>)
    requires '$' !in OrEmpty(name) && '$' !in OrEmpty(company) && '$' !in email
    ensures PersonalizeAsWritten(content, email, name, company) == Personalize(content, email, name, company)
  {
    var a := ReplaceAllExpanding(content, "{{name}}", OrEmpty(name), 0);
    ExpandingIsLiteralWithoutDollar(content, "{{name}}", OrEmpty(name), 0);
    assert content[0..] == content;
    var b := ReplaceAllExpanding(a, "{{company}}", OrEmpty(company), 0);
    ExpandingIsLiteralWithoutDollar(a, "{{company}}", OrEmpty(company), 0);
    assert a[0..] == a;
    ExpandingIsLiteralWithoutDollar(b, "{{email}}", email, 0);
    assert b[0..] == b;
  }

  /** A recipient named `$$` is greeted as `$` by the source; the literal replacement keeps
      the name. */
  lemma DollarNameIsMangled()
    ensures PersonalizeAsWritten("{{name}}", "a@b.co", Some("$$"), None) == "$"
    ensures Personalize("{{name}}", "a@b.co", Some("$$"), None) == "$$"
  {
    var s := "{{name}}";
    assert s[0..] == s && s[..0] == [] && s[8..] == [];
    assert Substitution("$$", s, [], []) == "$";
    var a := ReplaceAllExpanding(s, "{{name}}", "$$", 0);
    assert a == "$";
    assert !("{{company}}" <= a) && !("{{email}}" <= a);
    assert ReplaceAllExpanding(a, "{{company}}", "", 0) == a;
    assert ReplaceAllExpanding(a, "{{email}}", "a@b.co", 0) == a;
    ReplaceAllWhole("{{name}}", "$$");
    ReplaceAllAbsent("$$", "{{company}}", "");
    ReplaceAllAbsent("$$", "{{email}}", "a@b.co");
  }

  /** The literal replacement greets the recipient by exactly the name given, whatever
      characters it holds, as long as it contains no later placeholder. */
  lemma NameInsertedLiterally(email: string, name: string)
    requires !Contains(name, "{{company}}") && !Contains(name, "{{email}}")
    ensures Personalize("{{name}}", email, Some(name), None) == name
  {
    ReplaceAllWhole("{{name}}", name);
    ReplaceAllAbsent(name, "{{company}}", "");
    ReplaceAllAbsent(name, "{{email}}", email);
  }

  /** The name is inserted before `{{company}}` is replaced, so a placeholder inside the name
      is replaced too, while the email, inserted last, is kept as it is. */
  lemma PlaceholderOrder()
    ensures Personalize("{{name}}", "x", Some("{{company}}"), Some("ACME")) == "ACME"
    ensures Personalize("{{email}}", "{{name}}", Some("Ann"), None) == "{{name}}"
  {
    ReplaceAllWhole("{{name}}", "{{company}}");
    ReplaceAllWhole("{{company}}", "ACME");
    ReplaceAllAbsent("ACME", "{{email}}", "x");
    EmailHasNoName();
    ReplaceAllAbsent("{{email}}", "{{name}}", "Ann");
    ReplaceAllAbsent("{{email}}", "{{company}}", "");
    ReplaceAllWhole("{{email}}", "{{name}}");
  }

  lemma EmailHasNoName()
    ensures !Contains("{{email}}", "{{name}}")
  {
    var s := "{{email}}";
    assert s[1..][1..] == s[2..];
    ContainsNeedsRoom(s[2..], "{{name}}");
    assert s[2] == 'e';
    assert s[1..][1] == 'e';
  }

  /** What `generateTrackedEmail` returns. */
  datatype TrackedEmail = TrackedEmail(trackingId: string, trackedHtml: string)

  /** `generateTrackedEmail(emailContent, recipientEmail, recipientName, recipientCompany)`,
      with the endpoints, the clock reading and the random base-36 text as inputs: prepare
      the content, personalise it, track its links, put the pixel in front. It fails exactly
      when some clean URL of the personalised content is not Latin-1. Placeholders are filled
      literally; without `$` in the values that is what the code as written does too. */
  method GenerateTrackedEmail(openUrl: string, clickUrl: string, emailContent: string, email: string,
                              name: Option<string>, company: Option<string>, now: nat, random36: string)
    returns (r: Result<TrackedEmail>)
    ensures var content := Personalize(PrepareContent(emailContent), email, name, company);
      r.Ok? <==> AllLatin1(Matches(Tracker, content))
    ensures r.Ok? ==>
      var id := Uuid.GenerateTrackingId(now, random36);
      var content := Personalize(PrepareContent(emailContent), email, name, company);
      && r.value.trackingId == id
      && TrackLinks(Tracker, content, clickUrl, id, email).Ok?
      && r.value.trackedHtml == GenerateTrackingPixel(openUrl, id, email)
                                + TrackLinks(Tracker, content, clickUrl, id, email).value
    ensures r.Ok? && '$' !in OrEmpty(name) && '$' !in OrEmpty(company) && '$' !in email ==>
      var content := PersonalizeAsWritten(PrepareContent(emailContent), email, name, company);
      && TrackLinks(Tracker, content, clickUrl, r.value.trackingId, email).Ok?
      && r.value.trackedHtml == GenerateTrackingPixel(openUrl, r.value.trackingId, email)
                                + TrackLinks(Tracker, content, clickUrl, r.value.trackingId, email).value
    ensures r.Ok? ==> "track_" <= r.value.trackingId
    ensures r.Ok? ==> GenerateTrackingPixel(openUrl, r.value.trackingId, email) <= r.value.trackedHtml
    ensures emailContent == [] ==>
      r == Ok(TrackedEmail(Uuid.GenerateTrackingId(now, random36),
                           GenerateTrackingPixel(openUrl, Uuid.GenerateTrackingId(now, random36), email)))
  {
    var trackingId := Uuid.GenerateTrackingId(now, random36);
    Uuid.IdPrefixes(now, random36);
    var htmlContent := if IsHtml(emailContent) then emailContent else NewlinesToBreaks(emailContent);
    htmlContent := ReplaceAll(htmlContent, "{{name}}", OrEmpty(name));
    htmlContent := ReplaceAll(htmlContent, "{{company}}", OrEmpty(company));
    htmlContent := ReplaceAll(htmlContent, "{{email}}", email);
    assert htmlContent == Personalize(PrepareContent(emailContent), email, name, company);
    if '$' !in OrEmpty(name) && '$' !in OrEmpty(company) && '$' !in email {
      PersonalizeAgreesWithoutDollar(PrepareContent(emailContent), email, name, company);
    }
    if emailContent == [] {
      EmptyContentIsEmpty(clickUrl, trackingId, email, name, company);
      assert htmlContent == [];
    }
    var trackedContent := WrapLinksWithTracking(clickUrl, htmlContent, trackingId, email);
    if trackedContent.Failure? {
      return Failure(trackedContent.error);
    }
    var trackingPixel := GenerateTrackingPixel(openUrl, trackingId, email);
    var trackedHtml := trackingPixel + trackedContent.value;
    if emailContent == [] {
      assert trackedContent.value == [];
      assert trackedHtml == trackingPixel;
    }
    return Ok(TrackedEmail(trackingId, trackedHtml));
  }

  /** Empty content stays empty and has nothing to track. */
  lemma EmptyContentIsEmpty(clickUrl: string, trackingId: string, email: string,
                            name: Option<string>, company: Option<string>)
    ensures Personalize(PrepareContent([]), email, name, company) == []
    ensures TrackLinks(Tracker, [], clickUrl, trackingId, email) == Ok([])
  {
    assert !IsHtml([]) by {
      ContainsNeedsRoom([], "<html");
      ContainsNeedsRoom([], "<body");
    }
  }
}
