# AiEmailer email tracking and validation, modelled in Dafny

This project models the logic at the centre of the AiEmailer front end:

- The two email-tracking transforms.
  - `TrackingGenerator` is used by the single-email composer.
  - `EmailTracker` is used by the bulk sender.
  - Each one finds the `http://` and `https://` URLs in a body with a regular expression.
  - Each strips trailing punctuation off every URL and rewrites it as a click-tracking `<a>`. The anchor's `url` parameter is the `btoa` (base64, section 4 of RFC 4648) of the clean URL.
  - Each puts a hidden 1x1 open-tracking `<img>` in front.
  - `EmailTracker` also turns newlines into `<br>` for plain text and fills in the `{{name}}`, `{{company}}` and `{{email}}` placeholders.
- The recipient validators:
  - the shared address pattern;
  - the disposable-domain check;
  - the bulk partition into valid, invalid and duplicate addresses;
  - the single-email form check with its ordered error list.
- The mock analytics service: a case-insensitive search filter followed by a page slice, and the exact-address lookup.
- The UUID-v4 template filler and the `track_`/`campaign_` identifiers.

Modules, one per file:

- `Results` (results.dfy): `Option`, `Result` and the error a failed `btoa` raises.
- `JsText` (jstext.dfy): the JavaScript string built-ins the code relies on. These are:
  - `\s`, `trim` and `toLowerCase` (on ASCII letters);
  - `includes` and literal replace-all;
  - the `$` expansion of `String.prototype.replace`;
  - UTF-16 `length` and `encodeURIComponent`.
- `Base64` (base64.dfy): `btoa` over Latin-1 code units, with a decoder and the round trip.
- `LinkScan` (linkscan.dfy): both URL patterns as explicit scanners. A failed match copies one character and moves on; a match is consumed whole. Also here: the global scan, `match`, and the punctuation-stripping loop.
- `LinkTracking` (linktracking.dfy): the pixel, the anchor, and `replace` with the anchor-building callback. The callback's replace loop is proved equal to the scan.
- `TrackingGenerator` and `EmailTracker`: the two classes' static methods.
- `VariantComparison` (variants.dfy): when the two transforms agree.
- `MailValidator`, `CustomEmailValidator`, `MailAnalyticsMock` and `Uuid`.

How the model stands in for things it cannot run:

- Randomness and the clock are inputs. A UUID takes its 31 random nibbles, and an identifier takes the `Date.now()` reading and the base-36 text.
- The tracking endpoints of `EmailTracker` come from a configuration file outside this model (src/services/bulkEmailService/mailTracker.ts:3), so they are parameters. `TrackingGenerator`'s endpoints are its two hard-coded constants.
- A `btoa` that throws is a `Failure(InvalidCharacterError)` that ends the whole `replace`, as the exception does.

## Model

| member | source | states |
|---|---|---|
| Base64.Btoa | src/services/customEmailService/trackingGenerator.ts:36 | `btoa` succeeds exactly when every character is at most U+00FF; otherwise it fails with InvalidCharacterError; its output uses only the base64 alphabet and `=` |
| Base64.DecodeEncode | src/services/customEmailService/trackingGenerator.ts:36-37 | base64-decoding what `btoa` produced gives back the clean URL (the round trip of RFC 4648 section 4) |
| Base64.EncodedHasNoQuote | src/services/customEmailService/trackingGenerator.ts:37-39 | the encoded URL holds no `"`, so it cannot close the `href` attribute it is placed in |
| JsText.TrimIsSlice | src/services/bulkEmailService/mailValidator.ts:34 | `trim` keeps one contiguous slice of its input and removes only whitespace before and after it |
| JsText.BlankIffAllSpace | src/services/customEmailService/emailValidator.ts:14 | `!s.trim()` holds exactly when every character of `s` is whitespace |
| JsText.ToLower | src/services/bulkEmailService/mailValidator.ts:34 | `toLowerCase` keeps the length and lower-cases each character in place |
| JsText.NewlinesToBreaks | src/services/customEmailService/trackingGenerator.ts:51-53 | no `\n` is left in the converted text |
| JsText.NewlinesToBreaksReplaces | src/services/customEmailService/trackingGenerator.ts:52 | the conversion is the literal replace-all of `\n` by `<br>`, so every other character is kept in order |
| JsText.NewlinesToBreaksKeeps | src/services/customEmailService/trackingGenerator.ts:52 | text without a newline is returned unchanged |
| JsText.ReplaceAllAbsent | src/services/bulkEmailService/mailTracker.ts:55-58 | a placeholder that does not occur leaves the text unchanged |
| JsText.ReplaceAllWhole | src/services/bulkEmailService/mailTracker.ts:55-58 | a text that is just the placeholder becomes just the value |
| JsText.ExpandingIsLiteralWithoutDollar | src/services/bulkEmailService/mailTracker.ts:55-58 | JavaScript's `replace` with a string replacement is the literal replace when the replacement has no `$` |
| JsText.Utf16Length | src/services/customEmailService/emailValidator.ts:22 | `length` counts UTF-16 code units: at least one and at most two per character |
| JsText.EncodeUriComponent | src/services/customEmailService/trackingGenerator.ts:17 | `encodeURIComponent` output consists of unreserved characters and `%` escapes, and text made only of unreserved characters comes back unchanged |
| JsText.EncodedIsAttributeSafe | src/services/customEmailService/trackingGenerator.ts:17-18 | an encoded email holds no `"`, `<`, `>`, `&`, `=` or whitespace, so it stays inside the `src`/`href` value and its query parameter |
| LinkScan.SchemeLen | src/services/customEmailService/trackingGenerator.ts:23 | the `https?:\/\/` prefix is 7 or 8 characters, starts with `h` and ends with `/`; 0 means there is no prefix |
| LinkScan.MatchLen | src/services/customEmailService/trackingGenerator.ts:23 | a match is a scheme followed by at least one character, none of them whitespace, `<`, `>`, `"` or `'`; a Generator match does not end in `.,;:!?)` |
| LinkScan.MatchIsLongest | src/services/bulkEmailService/mailTracker.ts:19 | the scanner's match is a text the regular expression accepts, and no accepted text at that position is longer, for both patterns |
| LinkScan.FlattenDecompose | src/services/customEmailService/trackingGenerator.ts:25 | the global scan loses and invents nothing: its plain characters and matches spell the input |
| LinkScan.MatchesStep | src/services/customEmailService/trackingGenerator.ts:46 | `match` with the `g` flag lists a match at the current position and resumes after it, or moves on one character |
| LinkScan.MatchesAreLinkTexts | src/services/bulkEmailService/mailTracker.ts:75-78 | every extracted link is a raw match: scheme, at least one more character, no URL break |
| LinkScan.NoSchemeAllPlain | src/services/customEmailService/trackingGenerator.ts:44-48 | text without `http://` or `https://` has no match and scans as plain characters only |
| LinkScan.StripTrailing | src/services/customEmailService/trackingGenerator.ts:27-33 | the strip loop returns a clean URL and punctuation that concatenate to the match; the clean URL does not end in `.,;:!?)]}'"`, and the punctuation consists only of such characters |
| LinkScan.DropTrailingUnique | src/services/customEmailService/trackingGenerator.ts:30-33 | those three facts determine the split, so the loop and its specification agree on every input |
| LinkScan.CleanKeepsScheme | src/services/customEmailService/trackingGenerator.ts:30-33 | stripping stops at the scheme's `/`: the clean URL still starts with the same `http://` or `https://` |
| LinkScan.MatchesUnderBreaks | src/services/customEmailService/trackingGenerator.ts:62-68 | converting `\n` to `<br>` keeps the matches of a text exactly, for both patterns |
| LinkTracking.Pixel | src/services/customEmailService/trackingGenerator.ts:16-19 | the pixel is an `<img src="…">` tag |
| LinkTracking.PixelSource | src/services/customEmailService/trackingGenerator.ts:17-18 | the pixel's `src` reads back as exactly `{open}?id={id}&email={encodeURIComponent(email)}`, and the tag ends `" width="1" height="1" style="display:none;" alt="" />` |
| LinkTracking.Anchor | src/services/customEmailService/trackingGenerator.ts:36-39 | the callback's anchor exists exactly when the clean URL is Latin-1 |
| LinkTracking.AnchorRoundTrip | src/services/customEmailService/trackingGenerator.ts:36-39 | reading an anchor back: its `url` parameter decodes to the clean URL, its visible text is the clean URL, and the stripped punctuation follows `</a>`; the two spell the match |
| LinkTracking.RenderFails | src/services/customEmailService/trackingGenerator.ts:25-40 | rendering the scanned pieces fails exactly when some match's clean URL is not Latin-1 |
| LinkTracking.AnchorsFor | src/services/customEmailService/trackingGenerator.ts:36-39 | the callback's anchor for each match in order: a list exactly when every match has an anchor, and then one anchor per match, the k-th being the k-th match's |
| LinkTracking.RenderEmitsAnchors | src/services/customEmailService/trackingGenerator.ts:25-40 | the rewrite emits one anchor per match and nothing else: it succeeds exactly when the anchor list exists, and its text is the scanned pieces with the k-th match replaced by the k-th anchor |
| LinkTracking.TrackLinks | src/services/customEmailService/trackingGenerator.ts:25-40 | `text.replace(pattern, callback)`; its contract is carried by TrackLinksSucceeds, RenderEmitsAnchors, NoSchemePassesThrough and TrackLinksAtMatch/AtBadMatch/AtPlain |
| LinkTracking.TrackLinksSucceeds | src/services/bulkEmailService/mailTracker.ts:21-38 | the rewrite succeeds exactly when every match's clean URL can go through `btoa` |
| LinkTracking.NoSchemePassesThrough | src/services/customEmailService/trackingGenerator.ts:22-25 | text with no `http://` or `https://` is returned unchanged |
| LinkTracking.TrackLinksAtMatch | src/services/customEmailService/trackingGenerator.ts:25 | at a match the output is the callback's anchor followed by the rewrite of the text after the match |
| LinkTracking.TrackLinksAtBadMatch | src/services/customEmailService/trackingGenerator.ts:36 | a match whose clean URL `btoa` rejects makes the whole rewrite fail |
| LinkTracking.TrackLinksAtPlain | src/services/customEmailService/trackingGenerator.ts:25 | where no match starts, one character is copied and the scan moves on |
| LinkTracking.LinkCallback | src/services/customEmailService/trackingGenerator.ts:25-40 | the callback (strip loop, `btoa`, anchor template) returns exactly the specified anchor or failure |
| LinkTracking.ReplaceStep | src/services/customEmailService/trackingGenerator.ts:25 | one step of `replace` consumes at least one character and emits what the specification's scan emits for it |
| LinkTracking.ReplaceLinks | src/services/customEmailService/trackingGenerator.ts:25-40 | the `replace` loop with the callback computes the specified rewrite |
| TrackingGenerator.GenerateTrackingId | src/services/customEmailService/trackingGenerator.ts:7-13 | the tracking id is a version-4 UUID and holds no `"` |
| TrackingGenerator.GenerateTrackingPixel | src/services/customEmailService/trackingGenerator.ts:16-19 | the pixel on the hard-coded open endpoint; its `src` and tag are stated by GeneratorPixelSource |
| TrackingGenerator.EndpointsHaveNoQuote | src/services/customEmailService/trackingGenerator.ts:3-4 | the hard-coded endpoints hold no `"` |
| TrackingGenerator.GeneratorPixelSource | src/services/customEmailService/trackingGenerator.ts:16-19 | the pixel's `src` is the open endpoint with the id and the encoded email, in a hidden 1x1 tag |
| TrackingGenerator.CreateTrackedLinks | src/services/customEmailService/trackingGenerator.ts:22-41 | the rewrite with Generator's pattern and the click endpoint; it succeeds exactly when every clean URL is Latin-1 |
| TrackingGenerator.NoSchemeNoLinks | src/services/customEmailService/trackingGenerator.ts:22-48 | text without `http://` or `https://` is not changed and counts 0 links |
| TrackingGenerator.CountLinks | src/services/customEmailService/trackingGenerator.ts:44-48 | `countLinks` is the number of Generator matches; what it counts is stated by CountLinksCountsAnchors, CountLinksUnderBreaks and NoSchemeNoLinks |
| TrackingGenerator.CountLinksCountsAnchors | src/services/customEmailService/trackingGenerator.ts:44-48 | the count equals the number of anchors the rewrite of the same text emits, one per match in order, with the text between matches copied |
| TrackingGenerator.ConvertNewlinesToHtml | src/services/customEmailService/trackingGenerator.ts:51-53 | no `\n` is left |
| TrackingGenerator.CountLinksUnderBreaks | src/services/customEmailService/trackingGenerator.ts:62-68 | the links counted in the raw body are the matches the converted body is rewritten at, and the body can be encoded exactly when the converted one can |
| TrackingGenerator.GenerateTrackedHtml | src/services/customEmailService/trackingGenerator.ts:56-81 | `html` is the pixel, then the converted body with its links tracked, then the signature verbatim; `linksCount` is the number of matches rewritten; the id is a version-4 UUID; it fails exactly when a clean URL is not Latin-1 |
| EmailTracker.GenerateTrackingPixel | src/services/bulkEmailService/mailTracker.ts:8-11 | the pixel is an `<img src="…">` tag |
| EmailTracker.IsHtml | src/services/bulkEmailService/mailTracker.ts:50-52 | the content counts as HTML when it contains `<html` or `<body`; its effect is stated by PrepareContentCases |
| EmailTracker.TrackerPixelSource | src/services/bulkEmailService/mailTracker.ts:8-11 | the pixel is exactly `<img src="{open}?id={id}&email={encodeURIComponent(email)}" width="1" height="1" style="display:none;" alt="" />` |
| EmailTracker.WrapLinksWithTracking | src/services/bulkEmailService/mailTracker.ts:13-39 | the rewrite with Tracker's pattern and the click endpoint; it succeeds exactly when every clean URL is Latin-1 |
| EmailTracker.ExtractLinksFromContent | src/services/bulkEmailService/mailTracker.ts:75-79 | the raw matches, each a scheme plus a run without breaks, punctuation included |
| EmailTracker.PrepareContent | src/services/bulkEmailService/mailTracker.ts:50-52 | content that mentions neither `<html` nor `<body` has no `\n` left |
| EmailTracker.PrepareContentCases | src/services/bulkEmailService/mailTracker.ts:50-52 | HTML content keeps its newlines; any other content has each `\n` replaced by `<br>` |
| EmailTracker.PersonalizeAgreesWithoutDollar | src/services/bulkEmailService/mailTracker.ts:55-58 | the code as written and the literal placeholder replacement agree whenever no value contains `$` |
| EmailTracker.DollarNameIsMangled | src/services/bulkEmailService/mailTracker.ts:56 | a recipient named `$$` is greeted as `$` by the code as written, and as `$$` by the literal replacement |
| EmailTracker.NameInsertedLiterally | src/services/bulkEmailService/mailTracker.ts:56 | the literal replacement inserts the name exactly as given |
| EmailTracker.PlaceholderOrder | src/services/bulkEmailService/mailTracker.ts:55-58 | `{{name}}` is replaced before `{{company}}`, so a placeholder inside the name is replaced too, while the email, inserted last, is kept as it is |
| EmailTracker.EmptyContentIsEmpty | src/services/bulkEmailService/mailTracker.ts:50-61 | empty content stays empty through conversion, personalisation and link tracking |
| EmailTracker.GenerateTrackedEmail | src/services/bulkEmailService/mailTracker.ts:41-73 | `trackedHtml` is the pixel followed by the tracked, personalised, converted content, with placeholders filled literally; when no name, company or email contains `$` that is also the code as written; the id starts with `track_`; for an empty body it is the pixel alone; it fails exactly when a clean URL is not Latin-1 |
| VariantComparison.GeneratorWithinTracker | src/services/customEmailService/trackingGenerator.ts:23 | where both patterns match, Generator's match is a prefix of Tracker's, and the difference consists only of `.,;:!?)` |
| VariantComparison.AnchorOfLongerMatch | src/services/bulkEmailService/mailTracker.ts:26-37 | the extra punctuation Tracker's match takes in is stripped and reappears right after `</a>` |
| VariantComparison.VariantsAgree | src/services/bulkEmailService/mailTracker.ts:19 | if Generator's pattern matches wherever Tracker's does, both rewrites (with the same endpoints) give the same text and count the same links |
| VariantComparison.BareSchemeMatches | src/services/bulkEmailService/mailTracker.ts:19 | on `http://.` Tracker's pattern matches and Generator's does not, so the hypothesis can fail |
| VariantComparison.BareSchemeGenerator | src/services/customEmailService/trackingGenerator.ts:23-25 | Generator leaves `http://.` as it is |
| VariantComparison.BareSchemeTracker | src/services/bulkEmailService/mailTracker.ts:19-38 | Tracker rewrites `http://.` into exactly the anchor on the clean URL `http://`, with the stripped `.` after `</a>` |
| MailValidator.IsValidEmail | src/services/bulkEmailService/mailValidator.ts:5-8 | the address pattern as three runs of `[^\s@]`; its meaning is stated by IsValidEmailIff |
| MailValidator.IsValidEmailIff | src/services/bulkEmailService/mailValidator.ts:5-8 | the pattern accepts exactly the addresses with no whitespace, exactly one `@`, a non-empty local part, and a `.` in the domain with a character on each side |
| MailValidator.IsDisposableEmail | src/services/bulkEmailService/mailValidator.ts:10-21 | `split('@')[1]`, lower-cased, is one of the four domains; its meaning is stated by IsDisposableIff and DisposableOfValid |
| MailValidator.IsDisposableIff | src/services/bulkEmailService/mailValidator.ts:10-21 | an address is disposable exactly when the text after its first `@`, up to any further `@`, lower-cased, is one of the four domains; without `@` it never is |
| MailValidator.DisposableOfValid | src/services/bulkEmailService/mailValidator.ts:19 | for a valid address the checked field is the whole domain |
| MailValidator.Normalize | src/services/bulkEmailService/mailValidator.ts:34 | the key has no upper-case letter and is as long as the trimmed input; ValidEntries states that valid keys are trimmed too |
| MailValidator.ValidateBulk | src/services/bulkEmailService/mailValidator.ts:23-51 | the loop with the `seen` set returns the three lists of the input-by-input classification |
| MailValidator.Members | src/services/bulkEmailService/mailValidator.ts:30 | the `seen` set holds exactly the entries of `valid` |
| MailValidator.ClassifyStep | src/services/bulkEmailService/mailValidator.ts:36-47 | each input goes to `invalid` when its key fails the check, to `duplicates` when the key is already valid, and otherwise adds the key to `valid` |
| MailValidator.ClassifySizes | src/services/bulkEmailService/mailValidator.ts:33-48 | every input lands in exactly one list: the three lengths add up to the number of inputs |
| MailValidator.ValidAreSeen | src/services/bulkEmailService/mailValidator.ts:41-47 | `valid` holds exactly the keys of the valid inputs so far |
| MailValidator.ValidDistinct | src/services/bulkEmailService/mailValidator.ts:41-47 | `valid` has no repeated entry |
| MailValidator.ValidAreValidKeys | src/services/bulkEmailService/mailValidator.ts:34-47 | every `valid` entry passes the check and is the key of some input |
| MailValidator.ValidEntries | src/services/bulkEmailService/mailValidator.ts:34-47 | every `valid` entry passes the check, is lower case, is trimmed, and is the normalised form of an input |
| MailValidator.ValidIsTrimmed | src/services/bulkEmailService/mailValidator.ts:34-36 | a valid address has nothing to trim |
| MailValidator.ClassifyByKind | src/services/bulkEmailService/mailValidator.ts:33-48 | `invalid` is the inputs whose key fails the check, as given; `duplicates` the inputs whose key an earlier input had, as given; `valid` the keys of the first occurrences; each in input order |
| CustomEmailValidator.RecipientError | src/services/customEmailService/emailValidator.ts:14-18 | at most one recipient error, none exactly when the untrimmed address is valid, and it is one of the two recipient messages |
| CustomEmailValidator.BodyError | src/services/customEmailService/emailValidator.ts:20-24 | at most one body error, none exactly when the trimmed body has 10 or more UTF-16 code units |
| CustomEmailValidator.ValidateEmailForm | src/services/customEmailService/emailValidator.ts:8-30 | `errors` is the recipient's error followed by the body's; `isValid` holds exactly when there is none, which is exactly when the address is valid and the trimmed body long enough |
| CustomEmailValidator.ValidIsNotBlank | src/services/customEmailService/emailValidator.ts:14-17 | a valid address is never blank, so the two recipient branches never overlap |
| CustomEmailValidator.MessagesDistinct | src/services/customEmailService/emailValidator.ts:15-23 | the four messages are distinct |
| CustomEmailValidator.FormErrorCases | src/services/customEmailService/emailValidator.ts:14-24 | blank recipient: only "Recipient email is required", first; invalid recipient: only "Please enter a valid email address", first; blank body: "Email body is required", last; trimmed body of 1-9 code units: the too-short message, last |
| CustomEmailValidator.UntrimmedRecipientRejected | src/services/customEmailService/emailValidator.ts:16 | the check sees the untrimmed address: `a@b.co` is valid but ` a@b.co` gets the invalid-address message |
| CustomEmailValidator.LeadingSpaceInvalid | src/services/customEmailService/emailValidator.ts:4 | an address with leading whitespace fails the pattern |
| MailAnalyticsMock.EffectivePage | src/services/mailAnalyticsServices/mock.ts:62 | an absent or zero page is 1; any other page is kept |
| MailAnalyticsMock.EffectiveLimit | src/services/mailAnalyticsServices/mock.ts:63 | an absent or zero limit is 10; any other limit is kept |
| MailAnalyticsMock.EffectiveSearch | src/services/mailAnalyticsServices/mock.ts:64 | the search is lower-cased, and empty when absent |
| MailAnalyticsMock.Filter | src/services/mailAnalyticsServices/mock.ts:69-71 | `filter` keeps exactly the elements that pass and nothing else |
| MailAnalyticsMock.FilterKeepsOrder | src/services/mailAnalyticsServices/mock.ts:69-71 | `filter` distributes over concatenation, so relative order is kept |
| MailAnalyticsMock.FilterCount | src/services/mailAnalyticsServices/mock.ts:69-71 | the filtered list has one entry per passing position |
| MailAnalyticsMock.EmptySearchKeepsAll | src/services/mailAnalyticsServices/mock.ts:68-72 | the empty search matches every record, so skipping the filter for it changes nothing |
| MailAnalyticsMock.RelativeIndex | src/services/mailAnalyticsServices/mock.ts:77 | `slice`'s index: a negative index counts from the end, and the index is clamped to the list |
| MailAnalyticsMock.SliceIsWithin | src/services/mailAnalyticsServices/mock.ts:77 | every element of a slice is an element of the sliced list |
| MailAnalyticsMock.SliceInRange | src/services/mailAnalyticsServices/mock.ts:75-77 | with non-negative indices the slice is the part of `start..end` inside the list |
| MailAnalyticsMock.GetMailAnalytics | src/services/mailAnalyticsServices/mock.ts:55-87 | on the canned records: the effective page and limit are echoed, `total` counts the matching records, and every returned record is a canned record that matches the search; the window is stated by PageWindow |
| MailAnalyticsMock.Query | src/services/mailAnalyticsServices/mock.ts:62-84 | the response echoes the effective page and limit, `total` is the number of matching records, and every returned record is a listed record that matches the search |
| MailAnalyticsMock.PageStart | src/services/mailAnalyticsServices/mock.ts:75 | the page starts at a non-negative index for a page of at least 1 and a positive limit |
| MailAnalyticsMock.PageWindow | src/services/mailAnalyticsServices/mock.ts:75-77 | `data` is the filtered list from `(page-1)*limit` up to `min(page*limit, total)`, so it has at most `limit` records; a page past the end is empty |
| MailAnalyticsMock.NoQueryListsAll | src/services/mailAnalyticsServices/mock.ts:62-84 | without a query the response is all eight records, total 8, page 1, limit 10 |
| MailAnalyticsMock.NegativeLimitCountsFromEnd | src/services/mailAnalyticsServices/mock.ts:63-77 | a negative limit reaches `slice` as it is and counts from the end: limit -3 on page 1 gives the first five records |
| MailAnalyticsMock.GetEmailAnalytics | src/services/mailAnalyticsServices/mock.ts:89-96 | a found record is a canned record with exactly that address; FindFirst states it is the first and that none is found only when no record has it |
| MailAnalyticsMock.FindFirst | src/services/mailAnalyticsServices/mock.ts:92 | the lookup gives the first record whose address is exactly the argument, or none when no record has it |
| MailAnalyticsMock.LookupFindsListed | src/services/mailAnalyticsServices/mock.ts:92 | a listed address finds its record |
| MailAnalyticsMock.LookupIsCaseSensitive | src/services/mailAnalyticsServices/mock.ts:92 | unlike the search, the lookup is exact: the upper-case form of a listed address finds nothing |
| Uuid.HexDigit | src/Utils/uuid.ts:7 | `v.toString(16)` of a nibble is a lower-case hexadecimal digit |
| Uuid.HexValue | src/Utils/uuid.ts:7 | reading a digit back gives the nibble it came from |
| Uuid.VariantNibble | src/Utils/uuid.ts:6 | `r & 0x3 \| 0x8` lies in 8..11 and keeps the draw's two low bits |
| Uuid.VariantBits | src/Utils/uuid.ts:6 | the bitwise expression equals `8 + r % 4` |
| Uuid.Fill | src/Utils/uuid.ts:4-8 | the filled template keeps every fixed character and has a lower-case hex digit at each `x` and one of `89ab` at the `y` |
| Uuid.UnfillFill | src/Utils/uuid.ts:4-8 | reading the filled template back gives every `x` draw and the low two bits of the `y` draw |
| Uuid.FillSameIff | src/Utils/uuid.ts:4-8 | two sets of draws fill the template alike exactly when those visible parts agree |
| Uuid.TemplateSlots | src/Utils/uuid.ts:4 | a UUID takes 31 draws |
| Uuid.TemplateText | src/Utils/uuid.ts:4 | the template is `xxxxxxxx-xxxx-4xxx-yxxx-xxxxxxxxxxxx` |
| Uuid.GenerateUuid | src/Utils/uuid.ts:3-9 | the template filled from the draws keeps its fixed characters and has a hex digit at each `x` and one of `89ab` at the `y`; the layout is stated by GenerateUuidLayout |
| Uuid.GenerateUuidLayout | src/Utils/uuid.ts:3-9 | the output has the layout of section 5.4 of RFC 9562: length 36, `-` at 8, 13, 18 and 23, `4` at 14, one of `89ab` at 19, and lower-case hex digits elsewhere |
| Uuid.GenerateUuidSameIff | src/Utils/uuid.ts:3-9 | two UUIDs are equal exactly when their draws agree, except that only the low two bits of the `y` draw count |
| Uuid.DecimalRoundTrip | src/Utils/uuid.ts:13 | the decimal digits of `Date.now()` read back as the same number |
| Uuid.Substr | src/Utils/uuid.ts:13 | `substr(2, 9)` gives at most nine characters |
| Uuid.PrefixedIdParts | src/Utils/uuid.ts:11-18 | an identifier splits back into its prefix, the clock reading, `_`, and at most nine random characters |
| Uuid.GenerateTrackingId | src/Utils/uuid.ts:11-14 | `track_`, the clock reading, `_` and at most nine random characters; stated by IdPrefixes and PrefixedIdParts |
| Uuid.GenerateCampaignId | src/Utils/uuid.ts:16-18 | `campaign_`, the clock reading and at most nine random characters; stated by IdPrefixes and PrefixedIdParts |
| Uuid.IdPrefixes | src/Utils/uuid.ts:11-18 | `generateTrackingId` output starts with `track_` and `generateCampaignId` output starts with `campaign_` |

## Left out

- Randomness and the clock are inputs. `Math.random`, `Date.now` and `toString(36)` (src/Utils/uuid.ts:5,13,17 and src/services/customEmailService/trackingGenerator.ts:9) take their values as parameters. `toString(36)` of a random number is an arbitrary string parameter, of which only the `substr(2, 9)` is modelled.
- The configuration file that holds `EmailTracker`'s endpoints is not part of this model; the endpoints are parameters.
- The Promise and `setTimeout` wrappers of the mock service are left out, as is the asynchronous form of its results. Only the filter, slice and lookup inside them are modelled.
- Non-integer, NaN and non-numeric `page` and `limit` values are left out. The model takes integers, so `(page - 1) * limit` is exact integer arithmetic rather than floating point.
- `toLowerCase` is modelled on ASCII letters only, and `\s` is the fixed set of JavaScript WhiteSpace and LineTerminator characters, with no Unicode tables.
- Strings are sequences of code points, not UTF-16 code units. This makes no difference for the patterns, the strip loop or `btoa`, whose characters are all in the Basic Multilingual Plane or are rejected anyway. `trim().length` uses an explicit UTF-16 length.
- MailValidator.ValidateBulk: the source's `continue` statements are written as an `if`/`else` chain with the same effect.
- EmailTracker.ExtractLinksFromContent: anchors are not counted by searching the output text, because an anchor-shaped text already in the input would be counted too. Instead the link list is the scan's match list (LinkScan.Matches), and LinkTracking.RenderEmitsAnchors proves the rewrite emits exactly one anchor per entry of that list, in order.
- TrackingGenerator.CountLinks: the same holds for `countLinks`. It counts the scan's matches, and TrackingGenerator.CountLinksCountsAnchors ties that number to the anchors the rewrite emits, not to a search of the output text.
- EmailTracker.GenerateTrackedEmail: it is specified with the corrected literal placeholder filling (EmailTracker.Personalize), not with the `$` expansion the code performs at src/services/bulkEmailService/mailTracker.ts:55-58 (see Findings). Its contract also states the as-written result, but only when the name, the company and the email contain no `$`. For values with `$`, EmailTracker.PersonalizeAsWritten and EmailTracker.DollarNameIsMangled model what the code produces.
- The version-4 layout of TrackingGenerator.GenerateTrackingId is proved through the same template filler as `generateUUID`, because the two functions have identical bodies.
- HTML escaping is not modelled because the code performs none: a clean URL or a signature is inserted as it is.
- `countLinks`'s `null` result from `match` is the empty list.

## Findings

| source | as written | input that shows it | evidently intended | confidence | as-written member | corrected member |
|---|---|---|---|---|---|---|
| src/services/bulkEmailService/mailTracker.ts:55-58 | `replace(/\{\{name\}\}/g, recipientName \|\| '')`, and the same for the company and the email: a string replacement, in which JavaScript expands `$$`, `$&`, `` $` `` and `$'` | recipient name `$$` with content `{{name}}` gives `$` (EmailTracker.DollarNameIsMangled) | the recipient's values are inserted as they are, for example by a replacer function `() => value` | not executed | EmailTracker.PersonalizeAsWritten | EmailTracker.Personalize |
