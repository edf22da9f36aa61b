/** A session of the viewer: the mount effects, then any sequence of user actions and
    completed asynchronous work, each applied as one step. Every reachable state keeps
    an accepted id whose sprite URL is on screen. */
module ViewerSession {
  import opened Wrappers
  import opened JsNumber
  import opened Metadata
  import opened SantaViewer

  /** What can happen after mount: typing in the ID field, the two background buttons,
      the colour input, the metadata loop finishing, and a save finishing. */
  datatype Event =
    | TypeId(input: string)
    | Background(mode: BackgroundMode)
    | ChooseColor(color: string)
    | MetadataLoaded(outcomes: seq<FetchOutcome>)
    | Save(outcome: RenderOutcome)

  /** The mount effects in order: `loadMetadata` shows its loading status before its
      first fetch, then `updateImage` runs for the initial id. */
  function Mount(): (r: ViewState)
    ensures r.imageUrl == "/assets/merged/1.png"
    ensures r.status == LoadingMetadata && !r.isError
    ensures r.(imageUrl := "", status := Idle) == Initial()
  {
    InitialIdValid();
    var s := ShowStatus(Initial(), LoadingMetadata, false);
    UpdateImage(s, s.id)
  }

  function Step(s: ViewState, e: Event): ViewState {
    match e
    case TypeId(input) => EditId(s, input)
    case Background(mode) => UpdateBackground(s, mode)
    case ChooseColor(color) => PickColor(s, color)
    case MetadataLoaded(outcomes) => LoadMetadata(s, outcomes).state
    case Save(outcome) => DownloadImage(s, outcome).state
  }

  function Run(s: ViewState, events: seq<Event>): ViewState
    decreases |events|
  {
    if |events| == 0 then s else Run(Step(s, events[0]), events[1..])
  }

  /** The id is always an accepted one, the image shows its sprite, and metadata is
      present only once a load succeeded. */
  ghost predicate Inv(s: ViewState) {
    && IsValidId(s.id)
    && s.imageUrl == SpriteUrl(s.id)
    && (!s.metadataLoaded ==> s.metadata == [])
  }

  lemma MountEstablishesInv()
    ensures Inv(Mount())
    ensures Mount().imageUrl == "/assets/merged/1.png"
  {
    InitialIdValid();
  }

  /** The invariant depends only on the id, the image URL and the metadata fields. */
  lemma InvFrame(s: ViewState, r: ViewState)
    requires Inv(s)
    requires r.id == s.id && r.imageUrl == s.imageUrl
    requires r.metadata == s.metadata && r.metadataLoaded == s.metadataLoaded
    ensures Inv(r)
  {
  }

  lemma EditIdPreservesInv(s: ViewState, input: string)
    requires Inv(s)
    ensures Inv(EditId(s, input))
  {
    if IsValidId(input) && input != s.id {
      assert EditId(s, input) == s.(id := input, imageUrl := SpriteUrl(input));
    }
  }

  lemma LoadMetadataPreservesInv(s: ViewState, outcomes: seq<FetchOutcome>)
    requires Inv(s)
    ensures Inv(LoadMetadata(s, outcomes).state)
  {
    var r := LoadMetadata(s, outcomes).state;
    LoadMetadataFirstSuccess(s, outcomes);
    if FirstSuccess(outcomes) == |outcomes| {
      InvFrame(s, r);
    } else {
      assert r.id == s.id && r.imageUrl == s.imageUrl && r.metadataLoaded;
    }
  }

  lemma BackgroundPreservesInv(s: ViewState, mode: BackgroundMode)
    requires Inv(s)
    ensures Inv(UpdateBackground(s, mode))
  {
    var r := UpdateBackground(s, mode);
    assert r.id == s.id && r.imageUrl == s.imageUrl;
    InvFrame(s, r);
  }

  lemma ChooseColorPreservesInv(s: ViewState, color: string)
    requires Inv(s)
    ensures Inv(PickColor(s, color))
  {
    InvFrame(s, PickColor(s, color));
  }

  lemma SavePreservesInv(s: ViewState, outcome: RenderOutcome)
    requires Inv(s)
    ensures Inv(DownloadImage(s, outcome).state)
  {
    var r := DownloadImage(s, outcome).state;
    assert r.id == s.id && r.imageUrl == s.imageUrl;
    InvFrame(s, r);
  }

  lemma StepPreservesInv(s: ViewState, e: Event)
    requires Inv(s)
    ensures Inv(Step(s, e))
  {
    match e
    case TypeId(input) => EditIdPreservesInv(s, input);
    case Background(mode) => BackgroundPreservesInv(s, mode);
    case ChooseColor(color) => ChooseColorPreservesInv(s, color);
    case MetadataLoaded(outcomes) => LoadMetadataPreservesInv(s, outcomes);
    case Save(outcome) => SavePreservesInv(s, outcome);
  }

  lemma {:induction false} RunPreservesInv(s: ViewState, events: seq<Event>)
    requires Inv(s)
    ensures Inv(Run(s, events))
    decreases |events|
  {
    if |events| > 0 {
      StepPreservesInv(s, events[0]);
      RunPreservesInv(Step(s, events[0]), events[1..]);
    }
  }

  /** Whatever happens after mount, the image URL is the sprite of an accepted id and
      never the empty string, so "Save Image" never takes its early exit. */
  lemma ImageUrlNeverEmpty(events: seq<Event>)
    ensures var s := Run(Mount(), events);
            && IsValidId(s.id)
            && s.imageUrl == SpriteDir + s.id + SpriteExt
            && s.imageUrl != ""
  {
    MountEstablishesInv();
    RunPreservesInv(Mount(), events);
  }

  /** Every id from 1 to 10000, written in decimal, is accepted, and its sprite URL
      is that decimal between the sprite directory and ".png". */
  lemma EveryCatalogIdAccepted(n: int)
    requires MinId <= n <= MaxId
    ensures IsValidId(IntToString(n))
    ensures SpriteUrl(IntToString(n)) == SpriteDir + IntToString(n) + SpriteExt
  {
    IdAcceptedIffInRange("", n, "");
    assert "" + IntToString(n) + "" == IntToString(n);
  }

  /** An accepted spelling is stored as typed, text after the digits included. */
  lemma ValidatorKeepsTrailingText(s: ViewState)
    ensures EditId(s, "42abc").id == "42abc"
  {
    var input := "42abc";
    assert IntToString(42) == "42";
    assert input == "" + IntToString(42) + "abc";
    ParseIntOfDecimal("", 42, "abc");
    assert IsValidId(input);
  }

  /** An exponent is not part of parseInt's digit run: "1e5" is id 1, not 100000. */
  lemma ValidatorStopsAtExponent(s: ViewState)
    ensures ParseInt("1e5") == Some(1)
    ensures EditId(s, "1e5").id == "1e5"
  {
    assert IntToString(1) == "1";
    ParseIntOfDecimal("", 1, "e5");
    assert "" + "1" + "e5" == "1e5";
  }

  /** A plus sign is skipped: "+" before an accepted decimal id reads as that id, and
      the text is stored as typed. */
  lemma ValidatorSkipsPlusSign(s: ViewState, n: int)
    requires MinId <= n <= MaxId
    ensures ParseInt("+" + IntToString(n)) == Some(n)
    ensures EditId(s, "+" + IntToString(n)).id == "+" + IntToString(n)
  {
    var d := IntToString(n);
    DecimalValue(n);
    ParseIntOfDigits("", "+", d, "");
    IdAcceptedDigits("", "+", d, "");
    assert "" + "+" + d + "" == "+" + d;
  }

  /** A leading zero adds nothing: "0" before a decimal reads as the same number, so
      "010001" is rejected like "10001" and "042" is accepted like "42". */
  lemma ValidatorReadsPastLeadingZero(n: nat)
    ensures ParseInt("0" + IntToString(n)) == Some(n)
    ensures IsValidId("0" + IntToString(n)) <==> MinId <= n <= MaxId
  {
    var d := IntToString(n);
    DecimalValue(n);
    LeadingZero(d);
    ParseIntOfDigits("", "", "0" + d, "");
    IdAcceptedDigits("", "", "0" + d, "");
    assert "" + "" + ("0" + d) + "" == "0" + d;
  }

  /** One past the last catalog id leaves the whole state alone. */
  lemma ValidatorRejectsPastRange(s: ViewState)
    ensures EditId(s, "10001") == s
  {
    assert IntToString(10001) == "10001";
    IdAcceptedIffInRange("", 10001, "");
    assert "" + "10001" + "" == "10001";
    assert !IsValidId("10001");
  }

  /** Text without digits leaves the whole state alone. */
  lemma ValidatorRejectsNoDigits(s: ViewState)
    ensures EditId(s, "abc") == s
    ensures EditId(s, "") == s
  {
    ParseIntNoDigits("abc");
    ParseIntNoDigits("");
  }

  /** A digit later in the text does not help when the first character after the
      whitespace and sign is not one: "abc1", "-x5" and "+" are all NaN. */
  lemma ValidatorRejectsNoLeadingDigit(s: ViewState)
    ensures ParseInt("abc1") == None && EditId(s, "abc1") == s
    ensures ParseInt("-x5") == None && EditId(s, "-x5") == s
    ensures ParseInt("+") == None && EditId(s, "+") == s
  {
    ParseIntLeadingDigit("", "", "abc1");
    assert "" + "" + "abc1" == "abc1";
    ParseIntLeadingDigit("", "-", "x5");
    assert "" + "-" + "x5" == "-x5";
    ParseIntLeadingDigit("", "+", "");
    assert "" + "+" + "" == "+";
  }
}
