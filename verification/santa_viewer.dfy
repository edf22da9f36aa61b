/** The state of the viewer component and its handlers, as pure transitions from one
    `ViewState` to the next. Browser work (fetching, canvas drawing, the download
    itself) enters only as the outcome it produced. */
module SantaViewer {
  import opened Wrappers
  import opened Affix
  import opened JsNumber
  import opened Metadata
  import BodyColors

  const MinId := 1
  const MaxId := 10000

  /** An ID is accepted when its base-10 parseInt is a number in [MinId, MaxId]. Such
      text starts, after its whitespace, with a digit or a plus sign. */
  predicate IsValidId(raw: string): (ok: bool)
    ensures ParseInt(raw).None? ==> !ok
    ensures ok ==> WhitespaceRun(raw) < |raw|
                   && (IsDigit(raw[WhitespaceRun(raw)]) || raw[WhitespaceRun(raw)] == '+')
  {
    match ParseInt(raw)
    case None => false
    case Some(v) => MinId <= v <= MaxId
  }

  /** The decimal spelling of n, between whitespace and a non-digit tail, is accepted
      exactly when n lies in [MinId, MaxId]. */
  lemma IdAcceptedIffInRange(w: string, n: int, tail: string)
    requires AllWhitespace(w)
    requires |tail| == 0 || !IsDigit(tail[0])
    ensures IsValidId(w + IntToString(n) + tail) <==> MinId <= n <= MaxId
  {
    ParseIntOfDecimal(w, n, tail);
  }

  /** Any digit run, after whitespace and an optional sign and before a non-digit tail,
      is accepted exactly when there is no minus sign and its value lies in
      [MinId, MaxId]; a plus sign and leading zeros do not matter. */
  lemma IdAcceptedDigits(w: string, sign: string, d: string, tail: string)
    requires AllWhitespace(w)
    requires sign == "" || sign == "+" || sign == "-"
    requires |d| > 0 && AllDigits(d)
    requires |tail| == 0 || !IsDigit(tail[0])
    ensures IsValidId(w + sign + d + tail) <==> sign != "-" && MinId <= DigitsValue(d) <= MaxId
  {
    ParseIntOfDigits(w, sign, d, tail);
  }

  /** The status line. Each message of the component is one constructor; its text is
      not modelled. `Idle` is the empty message, which hides the line. */
  datatype Status =
    | Idle
    | LoadingMetadata
    | MetadataReady(count: nat)
    | MetadataUnavailable
    | AutoNeedsMetadata
    | AutoApplied(color: string)
    | AutoColorNotFound
    | Generating
    | CanvasUnsupported
    | GenerationFailed
    | Saved
    | SaveFailed

  datatype ViewState = ViewState(
    id: string,
    imageUrl: string,
    bgColor: string,
    status: Status,
    isError: bool,
    showColorPicker: bool,
    metadata: seq<Entry>,
    metadataLoaded: bool)

  /** The state before any effect has run. */
  function Initial(): ViewState {
    ViewState("1", "", "#ffffff", Idle, false, false, [], false)
  }

  lemma InitialIdValid()
    ensures IsValidId(Initial().id)
  {
    IdAcceptedIffInRange("", 1, "");
    assert "" + IntToString(1) + "" == Initial().id;
  }

  /** `showStatus(message, error)`. */
  function ShowStatus(s: ViewState, message: Status, error: bool): (r: ViewState)
    ensures r.status == message && r.isError == error
    ensures r.(status := s.status, isError := s.isError) == s
  {
    s.(status := message, isError := error)
  }

  // ---------------------------------------------------------------- ID and sprite

  /** `validateAndSetId(input)`: the raw input becomes the id when it is accepted. */
  function ValidateAndSetId(s: ViewState, input: string): (r: ViewState)
    ensures IsValidId(input) ==> r == s.(id := input)
    ensures !IsValidId(input) ==> r == s
    ensures r != s <==> IsValidId(input) && input != s.id
  {
    if IsValidId(input) then s.(id := input) else s
  }

  const RepoPath: string := ""
  const SpriteDir: string := RepoPath + "/assets/merged/"
  const SpriteExt: string := ".png"

  /** The URL `updateImage` computes for an id: the sprite under the merged assets
      directory for an accepted id, the empty string otherwise. */
  function SpriteUrl(imageId: string): (url: string)
    ensures url == "" <==> !IsValidId(imageId)
    ensures url != "" ==> Strip(SpriteDir, SpriteExt, url) == Some(imageId)
  {
    if IsValidId(imageId) then
      StripWrap(SpriteDir, imageId, SpriteExt);
      SpriteDir + imageId + SpriteExt
    else
      ""
  }

  /** `updateImage(imageId)`. */
  function UpdateImage(s: ViewState, imageId: string): (r: ViewState)
    ensures r == s.(imageUrl := r.imageUrl)
    ensures r.imageUrl == "" <==> !IsValidId(imageId)
    ensures r.imageUrl != "" ==> Strip(SpriteDir, SpriteExt, r.imageUrl) == Some(imageId)
  {
    s.(imageUrl := SpriteUrl(imageId))
  }

  /** Typing into the ID field: `validateAndSetId`, then the effect keyed on `id`,
      which runs `updateImage` only when the id actually changed. */
  function EditId(s: ViewState, input: string): (r: ViewState)
    ensures !IsValidId(input) ==> r == s
    ensures IsValidId(input) ==> r.id == input && r == s.(id := input, imageUrl := r.imageUrl)
    ensures r.imageUrl != s.imageUrl ==> r.imageUrl == SpriteUrl(input) && r.imageUrl != ""
    ensures IsValidId(input) && input != s.id ==> r.imageUrl == SpriteUrl(input)
    ensures input == s.id ==> r == s
  {
    var s1 := ValidateAndSetId(s, input);
    if s1.id != s.id then UpdateImage(s1, s1.id) else s1
  }

  // ---------------------------------------------------------------- metadata

  /** The state after the load loop, and how many candidates it fetched. */
  datatype LoadRun = LoadRun(state: ViewState, attempts: nat)

  /** `loadMetadata`, with `outcomes[i]` standing for what the i-th candidate source
      gave. Each attempt first shows the loading status; the first success stores its
      entries and stops; when all fail, an error status is shown. */
  function LoadMetadata(s: ViewState, outcomes: seq<FetchOutcome>): (r: LoadRun)
    ensures r.attempts <= |outcomes|
    ensures r.state == s.(metadata := r.state.metadata, metadataLoaded := r.state.metadataLoaded,
                          status := r.state.status, isError := r.state.isError)
    ensures !r.state.isError ==>
              && 0 < r.attempts && r.state.metadataLoaded
              && outcomes[r.attempts - 1] == Fetched(r.state.metadata)
    decreases |outcomes|
  {
    if |outcomes| == 0 then
      LoadRun(ShowStatus(s, MetadataUnavailable, true), 0)
    else
      var s1 := ShowStatus(s, LoadingMetadata, false);
      match outcomes[0]
      case Fetched(data) =>
        LoadRun(ShowStatus(s1.(metadata := data, metadataLoaded := true), MetadataReady(|data|), false), 1)
      case Failed =>
        var rest := LoadMetadata(s1, outcomes[1..]);
        LoadRun(rest.state, rest.attempts + 1)
  }

  /** The loop's result is decided by the first successful candidate alone. */
  lemma {:induction false} LoadMetadataFirstSuccess(s: ViewState, outcomes: seq<FetchOutcome>)
    ensures var k := FirstSuccess(outcomes);
            var r := LoadMetadata(s, outcomes);
            && (k < |outcomes| ==>
                  && r.attempts == k + 1
                  && r.state == s.(metadata := outcomes[k].entries, metadataLoaded := true,
                                   status := MetadataReady(|outcomes[k].entries|), isError := false))
            && (k == |outcomes| ==>
                  && r.attempts == |outcomes|
                  && r.state == s.(status := MetadataUnavailable, isError := true))
    decreases |outcomes|
  {
    if |outcomes| > 0 && outcomes[0].Failed? {
      var s1 := ShowStatus(s, LoadingMetadata, false);
      LoadMetadataFirstSuccess(s1, outcomes[1..]);
      assert FirstSuccess(outcomes) == FirstSuccess(outcomes[1..]) + 1;
    }
  }

  /** Candidates after the first success are never consulted: replacing them changes
      nothing. */
  lemma LoadMetadataIgnoresLater(s: ViewState, outcomes: seq<FetchOutcome>, rest: seq<FetchOutcome>)
    requires FirstSuccess(outcomes) < |outcomes|
    ensures var k := FirstSuccess(outcomes);
            LoadMetadata(s, outcomes[..k + 1] + rest) == LoadMetadata(s, outcomes)
  {
    var k := FirstSuccess(outcomes);
    var other := outcomes[..k + 1] + rest;
    assert forall j :: 0 <= j <= k ==> other[j] == outcomes[j];
    assert FirstSuccess(other) == k by {
      assert other[k].Fetched?;
    }
    LoadMetadataFirstSuccess(s, outcomes);
    LoadMetadataFirstSuccess(s, other);
  }

  /** Over the two candidate sources: the first one that answers supplies the entries,
      and the second is fetched only when the first fails. */
  lemma LoadMetadataFromCandidates(s: ViewState, fetch: string -> FetchOutcome)
    ensures var first := fetch(MetadataUrls[0]);
            var second := fetch(MetadataUrls[1]);
            var r := LoadMetadata(s, Candidates(fetch));
            && (first.Fetched? ==>
                  r.attempts == 1 && r.state.metadataLoaded && r.state.metadata == first.entries)
            && (first.Failed? && second.Fetched? ==>
                  r.attempts == 2 && r.state.metadataLoaded && r.state.metadata == second.entries)
            && (first.Failed? && second.Failed? ==>
                  r.attempts == 2 && r.state.isError && r.state.metadata == s.metadata)
  {
    var outcomes := Candidates(fetch);
    LoadMetadataFirstSuccess(s, outcomes);
    assert outcomes[0] == fetch(MetadataUrls[0]) && outcomes[1] == fetch(MetadataUrls[1]);
  }

  /** When every candidate fails, the metadata and its flag are left as they were and
      the final status is an error. */
  lemma LoadMetadataAllFail(s: ViewState, outcomes: seq<FetchOutcome>)
    requires forall j :: 0 <= j < |outcomes| ==> outcomes[j].Failed?
    ensures var r := LoadMetadata(s, outcomes).state;
            && r.metadata == s.metadata && r.metadataLoaded == s.metadataLoaded
            && r.isError && r.status == MetadataUnavailable
  {
    LoadMetadataFirstSuccess(s, outcomes);
  }

  // ---------------------------------------------------------------- background

  /** `getAutoBackground(imageId)`: the colour of the Body of the first entry with that
      id; none when there is no such entry, its Body is missing or empty, or the body
      is not in the table. */
  function GetAutoBackground(metadata: seq<Entry>, imageId: Option<int>): (r: Option<string>)
    ensures r.Some? ==> r.value in BodyColors.Table.Values
  {
    match Find(metadata, imageId)
    case None => None
    case Some(item) =>
      if "Body" in item.attributes && item.attributes["Body"] != "" then
        BodyColors.Lookup(item.attributes["Body"])
      else
        None
  }

  /** The colour found is the table's colour for the lower-cased Body of the first
      entry carrying the id. */
  lemma GetAutoBackgroundOfFirstMatch(metadata: seq<Entry>, n: int, k: nat)
    requires k < |metadata| && metadata[k].id == n
    requires forall j :: 0 <= j < k ==> metadata[j].id != n
    ensures var attrs := metadata[k].attributes;
            var body := if "Body" in attrs then attrs["Body"] else "";
            GetAutoBackground(metadata, Some(n))
              == if BodyColors.Lower(body) in BodyColors.Table
                 then Some(BodyColors.Table[BodyColors.Lower(body)]) else None
  {
    var found := Find(metadata, Some(n));
    assert found == Some(metadata[k]) by {
      var k' :| 0 <= k' < |metadata| && metadata[k'] == found.value && HasId(found.value, Some(n))
                && forall j :: 0 <= j < k' ==> !HasId(metadata[j], Some(n));
      assert !(k' < k) by { assert HasId(metadata[k'], Some(n)); }
      assert !(k < k') by { assert HasId(metadata[k], Some(n)); }
    }
    var attrs := metadata[k].attributes;
    var body := if "Body" in attrs then attrs["Body"] else "";
    BodyColors.LookupFindsListed(body);
    assert BodyColors.Lower("") == "";
  }

  /** With no entry for the id (or an id that is NaN) there is no auto colour. */
  lemma GetAutoBackgroundNoMatch(metadata: seq<Entry>, imageId: Option<int>)
    requires forall j :: 0 <= j < |metadata| ==> imageId != Some(metadata[j].id)
    ensures GetAutoBackground(metadata, imageId) == None
  {
  }

  lemma GetAutoBackgroundExamples()
    ensures GetAutoBackground([Entry(42, 0, map["Body" := "Gold"])], Some(42)) == Some("#FFAA01")
    ensures GetAutoBackground([Entry(42, 0, map["Body" := "GOLD"])], Some(42)) == Some("#FFAA01")
    ensures GetAutoBackground([Entry(42, 0, map["Body" := "Unknown"])], Some(42)) == None
    ensures GetAutoBackground([Entry(42, 0, map["Body" := "Gold"])], Some(7)) == None
  {
    BodyColors.LookupExamples();
  }

  datatype BackgroundMode = Auto | Custom

  /** `updateBackground(mode)`. */
  function UpdateBackground(s: ViewState, mode: BackgroundMode): (r: ViewState)
    ensures mode == Custom ==> r == s.(showColorPicker := !s.showColorPicker)
    ensures mode == Auto ==> r == s.(bgColor := r.bgColor, status := r.status, isError := r.isError)
    ensures mode == Auto && !s.metadataLoaded ==> r.bgColor == s.bgColor && r.isError && r.status == AutoNeedsMetadata
    ensures mode == Auto && s.metadataLoaded ==>
              match GetAutoBackground(s.metadata, ParseInt(s.id))
              case Some(c) => r.bgColor == c && r.status == AutoApplied(c) && !r.isError
              case None => r.bgColor == s.bgColor && r.status == AutoColorNotFound && r.isError
    ensures r.bgColor != s.bgColor ==> r.bgColor in BodyColors.Table.Values && !r.isError
  {
    match mode
    case Auto =>
      if !s.metadataLoaded then
        ShowStatus(s, AutoNeedsMetadata, true)
      else
        var autoBg := GetAutoBackground(s.metadata, ParseInt(s.id));
        if autoBg.Some? then
          ShowStatus(s.(bgColor := autoBg.value), AutoApplied(autoBg.value), false)
        else
          ShowStatus(s, AutoColorNotFound, true)
    case Custom =>
      s.(showColorPicker := !s.showColorPicker)
  }

  /** Pressing "Custom Color" twice restores the state. */
  lemma CustomTwiceRestores(s: ViewState)
    ensures UpdateBackground(UpdateBackground(s, Custom), Custom) == s
  {
  }

  /** The colour input's change handler. The input is shown only while the picker is
      open, so with the picker closed no change can arrive and nothing happens. */
  function PickColor(s: ViewState, color: string): (r: ViewState)
    ensures s.showColorPicker ==> r.bgColor == color
    ensures r == s.(bgColor := r.bgColor)
    ensures !s.showColorPicker ==> r == s
  {
    if s.showColorPicker then s.(bgColor := color) else s
  }

  // ---------------------------------------------------------------- download

  /** How the browser part of `downloadImage` ended: an exception inside the `try`
      (the sprite did not load, or drawing or encoding threw), no 2D context, `toBlob`
      gave null, or the PNG was encoded and the download link clicked. */
  datatype RenderOutcome = Threw | NoContext | NullBlob | Encoded

  /** The state after `downloadImage`, and the file name saved, if any. */
  datatype SaveRun = SaveRun(state: ViewState, savedAs: Option<string>)

  const DownloadPrefix: string := "santa-nodemonke-"
  const DownloadExt: string := ".png"

  function DownloadName(id: string): string {
    DownloadPrefix + id + DownloadExt
  }

  /** `downloadImage` without the canvas work. */
  function DownloadImage(s: ViewState, outcome: RenderOutcome): (r: SaveRun)
    ensures s.imageUrl == "" ==> r == SaveRun(s, None)
    ensures r.state == s.(status := r.state.status, isError := r.state.isError)
    ensures s.imageUrl != "" ==> (r.state.isError <==> !outcome.Encoded?)
    ensures r.savedAs.Some? <==> s.imageUrl != "" && outcome.Encoded?
    ensures r.savedAs.Some? ==> Strip(DownloadPrefix, DownloadExt, r.savedAs.value) == Some(s.id)
  {
    if s.imageUrl == "" then
      SaveRun(s, None)
    else
      var s1 := ShowStatus(s, Generating, false);
      match outcome
      case Threw => SaveRun(ShowStatus(s1, SaveFailed, true), None)
      case NoContext => SaveRun(ShowStatus(s1, CanvasUnsupported, true), None)
      case NullBlob => SaveRun(ShowStatus(s1, GenerationFailed, true), None)
      case Encoded =>
        StripWrap(DownloadPrefix, s.id, DownloadExt);
        SaveRun(ShowStatus(s1, Saved, false), Some(DownloadName(s.id)))
  }
}
