# Santa Nodemonkes viewer: a Dafny model of its state handling

The viewer is a single React client component, `SantaViewer`. It shows the sprite of one
Nodemonke from a catalog numbered 1 to 10000. It can fill the background with the
colour of the item's body category, taken from catalog metadata. It can also use a
colour the user picks, and it saves the composited sprite as a PNG.

This project takes the component's state handling out of React. It models that
handling as pure transitions over an immutable `ViewState`. The record has the
component's fields `id`, `imageUrl`, `bgColor`, `status`, `isError`, `showColorPicker`,
`metadata` and `metadataLoaded`. Browser work enters only as the outcome it produced:
the result of each metadata fetch, and how the canvas part of a save ended.

Modules:

- `JsNumber` (js_number.dfy): JavaScript's `Number.parseInt(s, 10)` over unbounded
  integers, with NaN as `None`. It skips the JavaScript whitespace code points, takes an
  optional sign and then the longest run of ASCII digits. The module also has the plain
  decimal spelling `IntToString`, which `ParseInt` inverts. JavaScript's `String(n)`
  writes the same only below 10^21.
- `BodyColors` (body_colors.dfy): the body-colour table and the case-insensitive
  `BODY_COLORS[body.toLowerCase()] || null` lookup. The table has the 32 entries the
  component lists.
- `Metadata` (metadata.dfy): catalog entries, and the outcome of fetching the metadata
  from one candidate source (`Fetched(entries)` or `Failed`). It also holds the two
  candidate URLs in order, the outcomes a fetch gives for them (`Candidates`), and
  first-match search (`FirstIndex`, `Find`, `FirstSuccess`).
- `SantaViewer` (santa_viewer.dfy): `ViewState`, the status messages and the handlers:
  - `showStatus`
  - `validateAndSetId`, together with the effect that reruns `updateImage`
  - `updateImage` as `SpriteUrl`
  - `loadMetadata` as a fold over the candidates' outcomes
  - `getAutoBackground`, `updateBackground` and the colour input
  - `downloadImage` without its canvas work
- `ViewerSession` (viewer_session.dfy): the mount effects, then any sequence of events,
  each applied as one step. It proves the invariant that every reachable state holds
  an accepted id and shows that id's sprite, so `imageUrl` is never empty.
- `Affix` (affix.dfy) and `Wrappers` (wrappers.dfy): stripping a fixed prefix and suffix,
  which inverts the sprite URL and the download file name, and `Option`.

Behaviour of the code that a reader might expect to be otherwise:

- The saved file is named `santa-nodemonke-<id>.png`. It carries no resolution and no
  `-HD` suffix.
- The raw text of the ID field is stored and used as typed. For example `"42abc"`,
  `" 7"` and `"1e5"` are all accepted; the last one is id 1.
- Only one compositing path exists, with no fallback tiers.
- The resolution bounds 28 to 1200 are not enforced.
- An invalid ID never reaches `updateImage` through the validator, so the sprite URL is
  never cleared by typing.

## Model

| member | source | states |
|---|---|---|
| JsNumber.PrefixRun | components/SantaViewer.tsx:84 | parseInt scans by longest prefix: every character before the returned position satisfies the test and the one at it does not; parseInt uses it to skip leading whitespace and to read the digit run |
| JsNumber.PrefixRunStops | components/SantaViewer.tsx:84 | a block of matching characters followed by a non-matching one is scanned exactly to its end, so whitespace before a number is skipped exactly |
| JsNumber.DigitRun | components/SantaViewer.tsx:84 | parseInt reads the longest run of decimal digits: every character in the run is a digit, and the next one is not |
| JsNumber.ParseIntOfDecimal | components/SantaViewer.tsx:84 | parseInt with radix 10 reads back the decimal spelling of any integer, whatever whitespace comes before it and whatever non-digit text comes after it |
| JsNumber.ParseInt | components/SantaViewer.tsx:84 | parseInt gives a number exactly when the first character after the leading whitespace and one optional sign is a digit, and a negative number only when that sign is a minus; its value is stated by ParseIntOfDigits |
| JsNumber.ParseIntOfDigits | components/SantaViewer.tsx:84 | after any whitespace and an optional sign, any digit run followed by a non-digit tail parses to the value of those digits, negated after a minus: "+42" and " 0042x" are 42 |
| JsNumber.ParseSignedOfDigits | components/SantaViewer.tsx:84 | after the whitespace, a "+" or "-" (or no sign) and then a digit run give the digits' value, negated after "-" |
| JsNumber.LeadingZero | components/SantaViewer.tsx:84 | a leading zero does not change the value of a digit run |
| JsNumber.ParseIntLeadingDigit | components/SantaViewer.tsx:84 | after any whitespace and an optional sign, the result is a number exactly when the next character is a digit; a digit later on does not help, so "abc1", "-x5" and "+" are NaN |
| JsNumber.ParseIntNoDigits | components/SantaViewer.tsx:84-85 | input without a single digit parses to NaN and is rejected |
| JsNumber.DecimalValue | components/SantaViewer.tsx:84 | the digit value of the decimal spelling of n is n |
| SantaViewer.InitialIdValid | components/SantaViewer.tsx:37 | the initial id "1" passes the validator |
| SantaViewer.IsValidId | components/SantaViewer.tsx:84-85 | an id is accepted only when parseInt gives a number in [1, 10000]; such text starts, after its whitespace, with a digit or a plus sign, never a minus |
| SantaViewer.IdAcceptedDigits | components/SantaViewer.tsx:84-85 | any digit run after whitespace and an optional sign, before a non-digit tail, is accepted exactly when the sign is not a minus and the digits' value is in [1, 10000]; a plus sign and leading zeros do not matter |
| SantaViewer.IdAcceptedIffInRange | components/SantaViewer.tsx:84-85 | the decimal spelling of n, after whitespace and before a non-digit tail, is accepted exactly when 1 <= n <= 10000 |
| SantaViewer.ShowStatus | components/SantaViewer.tsx:78-81 | showStatus sets the message and the error flag and changes nothing else |
| SantaViewer.ValidateAndSetId | components/SantaViewer.tsx:83-88 | the raw input becomes the id exactly when its parseInt is a number in [1, 10000]; otherwise the whole state is untouched; the state changes iff the input is accepted and differs from the current id |
| SantaViewer.SpriteUrl | components/SantaViewer.tsx:91-100 | the URL is empty exactly for a rejected id; otherwise it is the sprite directory, then the raw id, then ".png", and stripping the two recovers the id |
| SantaViewer.UpdateImage | components/SantaViewer.tsx:91-100 | only imageUrl changes; it becomes empty exactly for a rejected id, and otherwise stripping the sprite directory and ".png" from it gives back the id |
| SantaViewer.EditId | components/SantaViewer.tsx:51-53 | typing changes only id and imageUrl, and only for accepted input. An accepted id different from the current one sets the image to its sprite URL; retyping the current id changes nothing, because the effect keyed on id does not rerun |
| SantaViewer.LoadMetadata | components/SantaViewer.tsx:55-76 | the loop fetches at most one time per candidate and changes only metadata, metadataLoaded and the status; a non-error result means metadata is loaded and equals the entries of the last candidate fetched |
| SantaViewer.LoadMetadataFromCandidates | components/SantaViewer.tsx:56-75 | over the two candidate URLs: a first success is used after one fetch; otherwise the second is fetched, and its entries are used or an error is shown with metadata kept |
| SantaViewer.LoadMetadataFirstSuccess | components/SantaViewer.tsx:55-76 | the outcome is decided by the first successful candidate: its entries are stored, metadataLoaded becomes true with a non-error status, and exactly k+1 candidates are fetched; if all fail, only the status changes, to an error |
| SantaViewer.LoadMetadataIgnoresLater | components/SantaViewer.tsx:67-70 | candidates after the first success are never consulted: replacing them does not change the result |
| SantaViewer.LoadMetadataAllFail | components/SantaViewer.tsx:75 | when every candidate fails, metadata and metadataLoaded keep their values and the final status is an error |
| SantaViewer.GetAutoBackground | components/SantaViewer.tsx:102-108 | an auto colour, when found, is one of the table's colours |
| SantaViewer.GetAutoBackgroundOfFirstMatch | components/SantaViewer.tsx:103-106 | for the first entry carrying the id, the result is the table colour of its lower-cased Body, and null when the Body is missing, empty or not a table key |
| SantaViewer.GetAutoBackgroundNoMatch | components/SantaViewer.tsx:103-107 | with no entry for the id, or an id that is NaN, there is no auto colour |
| SantaViewer.GetAutoBackgroundExamples | components/SantaViewer.tsx:25-34 | a Body of "Gold" or "GOLD" gives "#FFAA01"; "Unknown" or a missing id gives none |
| SantaViewer.UpdateBackground | components/SantaViewer.tsx:110-127 | "custom" only negates showColorPicker. "auto" without metadata gives an error and keeps the colour. "auto" with metadata sets the colour with a non-error status when the lookup finds one, and otherwise gives an error and keeps the colour. "auto" changes nothing beyond colour and status, and any new colour comes from the table |
| SantaViewer.CustomTwiceRestores | components/SantaViewer.tsx:124-126 | pressing "Custom Color" twice restores the original state |
| SantaViewer.PickColor | components/SantaViewer.tsx:277-284 | the colour input sets bgColor while the picker is shown and changes nothing else |
| SantaViewer.DownloadImage | components/SantaViewer.tsx:130-186 | with an empty image URL nothing changes and nothing is saved. Otherwise only the status changes; it is an error exactly when the canvas part failed (thrown error, no 2D context, null blob). A file is saved exactly on success, under "santa-nodemonke-" + id + ".png" |
| BodyColors.Lookup | components/SantaViewer.tsx:105 | a colour found is the table's entry for the lower-cased body name |
| BodyColors.LookupFindsListed | components/SantaViewer.tsx:105 | the lookup succeeds exactly for body names whose lower case is a table key, since no listed colour is empty |
| BodyColors.ColorsNonEmpty | components/SantaViewer.tsx:25-34 | every colour in the table is non-empty, so the null fallback only applies to missing keys |
| BodyColors.LookupIgnoresCase | components/SantaViewer.tsx:105 | body names of the same length whose characters are equal or are the same ASCII letter in different case get the same colour |
| BodyColors.LookupExamples | components/SantaViewer.tsx:25-34 | "Gold", "GOLD" and "gold" give "#FFAA01"; "Unknown" gives none |
| BodyColors.Lower | components/SantaViewer.tsx:105 | lower-casing keeps the length and maps each code point by itself |
| Metadata.Find | components/SantaViewer.tsx:103 | find returns none exactly when no entry carries the id, and otherwise an entry with that id that no earlier entry shares |
| Metadata.FirstSuccess | components/SantaViewer.tsx:61-74 | the position of the first successful candidate: all earlier ones failed |
| ViewerSession.Mount | components/SantaViewer.tsx:37-53 | after the mount effects the image is "/assets/merged/1.png" and the status is the non-error loading message; every other field keeps its initial value |
| ViewerSession.MountEstablishesInv | components/SantaViewer.tsx:47-53 | after the mount effects the id is accepted and the image is "/assets/merged/1.png" |
| ViewerSession.StepPreservesInv | components/SantaViewer.tsx:51-53 | every handler keeps the id accepted, the image URL equal to its sprite URL, and metadata empty while not loaded |
| ViewerSession.RunPreservesInv | components/SantaViewer.tsx:51-53 | any sequence of events keeps that invariant |
| ViewerSession.ImageUrlNeverEmpty | components/SantaViewer.tsx:131 | in every reachable state the image URL is the sprite URL of an accepted id and never empty, so saving never takes its early exit |
| ViewerSession.EveryCatalogIdAccepted | components/SantaViewer.tsx:93-96 | every id from 1 to 10000 in decimal is accepted, and its sprite URL contains that decimal |
| ViewerSession.ValidatorKeepsTrailingText | components/SantaViewer.tsx:83-88 | "42abc" is accepted and stored verbatim |
| ViewerSession.ValidatorStopsAtExponent | components/SantaViewer.tsx:84-86 | "1e5" parses as 1 and is accepted as typed |
| ViewerSession.ValidatorSkipsPlusSign | components/SantaViewer.tsx:84-86 | "+" before any accepted decimal id, as in "+10000", parses to that id and is stored as typed |
| ViewerSession.ValidatorReadsPastLeadingZero | components/SantaViewer.tsx:84-85 | "0" before a decimal parses to the same number, so "010001" is rejected and "042" is accepted |
| ViewerSession.ValidatorRejectsNoLeadingDigit | components/SantaViewer.tsx:84-85 | "abc1", "-x5" and "+" parse to NaN and leave the state untouched |
| ViewerSession.ValidatorRejectsPastRange | components/SantaViewer.tsx:85 | "10001" leaves the state untouched |
| ViewerSession.ValidatorRejectsNoDigits | components/SantaViewer.tsx:85 | "abc" and "" leave the state untouched |

## Left out

- Canvas compositing and the download mechanics (components/SantaViewer.tsx:137-180) are
  left out. This covers image loading, the 2D context, filling, drawing without
  smoothing, `toBlob`, object URLs and the link click. They are browser rasterization, so
  only their outcome (`RenderOutcome`) enters the model.
- A save whose `toBlob` callback throws, or whose sprite never finishes loading, is left
  out. The callback (components/SantaViewer.tsx:166-180) runs outside the `try` of
  lines 135-182, so the status would stay "generating" without an error. Neither case
  is a `RenderOutcome`.
- Real `fetch` and `response.json()` are left out; each candidate's result is given as a
  `FetchOutcome`. The payload is not validated by the component, so entries are assumed
  well formed (a numeric `id` and a string-valued attribute map).
- The resolution input and its default (components/SantaViewer.tsx:10-12, 38, 266-268)
  are left out. The component stores `Number(value)` and enforces no bound, and the
  default depends on user-agent sniffing.
- The wording of the status messages is left out. Each message is a constructor of
  `Status`, and `MetadataReady` carries the entry count that the message shows.
- Console logging is left out.
- React scheduling and asynchronous interleaving are left out. A metadata load and a
  save are each applied as one atomic event. So the transient "loading" and "generating"
  statuses are overwritten within the same step. A save also reads the state current at
  that step, not the state the click captured.
- The metadata load is allowed any number of times in a session, though the component
  runs it once. The invariant holds either way.
- Double-precision rounding in parseInt is left out; the model reads digits into
  unbounded integers. Rounding is monotone, and 1, 10000 and 10001 are exact doubles. So
  the accepted range [1, 10000] is decided the same way. The number is used in one other
  place: "Auto Background" compares it with the entry ids
  (components/SantaViewer.tsx:103 and 116-117). That comparison is exact too, because
  every reachable id parses into [1, 10000] (`ViewerSession.Inv`). For an unreachable id
  above 2^53, JavaScript's rounding could match an entry that the model does not match.
- BodyColors.Lower: it models `toLowerCase` only on ASCII letters and on the Kelvin sign
  U+212A, the one non-ASCII code point whose lower case is an ASCII letter. Every other
  code point is kept. This cannot change a lookup, because every table key is ASCII
  letters. Property names that JavaScript objects inherit (such as "constructor") are not
  keys of the table.
- app/download-image/route.ts is left out. It is a proxy that fetches a URL and
  re-serves the bytes with a download header, and the component does not use it.
- app/layout.tsx, app/page.tsx and next.config.js are left out. They are the page shell
  and build configuration, with no state logic.
- The inline styles and JSX markup are left out. Only the colour input's change handler
  is modelled, as `PickColor`.
