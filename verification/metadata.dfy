/** Catalog metadata: its entries, the outcomes of fetching it from a candidate source,
    and first-match search over sequences. */
module Metadata {
  import opened Wrappers

  /** One row of the metadata JSON; `attributes` maps attribute names such as "Body"
      to their values. */
  datatype Entry = Entry(id: int, inscription: int, attributes: map<string, string>)

  /** What one candidate source gave: its parsed JSON array, or a failure (network
      error, a response that is not ok, or a body that is not JSON). */
  datatype FetchOutcome = Fetched(entries: seq<Entry>) | Failed

  /** The candidate sources, in the order they are tried. */
  const MetadataUrls: seq<string> := [
    "https://pub-ce8a03b190984a3d99332e13b7d5e3cb.r2.dev/metadata.json",
    "https://metadata.138148178.xyz/metadata.json"
  ]

  /** What each candidate source gave, in the order they are tried, for a fetch that
      answers each URL. */
  function Candidates(fetch: string -> FetchOutcome): (r: seq<FetchOutcome>)
    ensures |r| == |MetadataUrls|
    ensures forall i :: 0 <= i < |r| ==> r[i] == fetch(MetadataUrls[i])
  {
    seq(|MetadataUrls|, i requires 0 <= i < |MetadataUrls| => fetch(MetadataUrls[i]))
  }

  /** Index of the first element satisfying `p`, or `|s|` when there is none. */
  function FirstIndex<T>(s: seq<T>, p: T -> bool): (k: nat)
    ensures k <= |s|
    ensures forall j :: 0 <= j < k ==> !p(s[j])
    ensures k < |s| ==> p(s[k])
  {
    if |s| == 0 then 0
    else if p(s[0]) then 0
    else 1 + FirstIndex(s[1..], p)
  }

  predicate HasId(e: Entry, target: Option<int>) {
    target == Some(e.id)
  }

  /** `metadata.find(item => item.id === target)`; a target of NaN matches nothing. */
  function Find(metadata: seq<Entry>, target: Option<int>): (r: Option<Entry>)
    ensures r.None? <==> forall j :: 0 <= j < |metadata| ==> !HasId(metadata[j], target)
    ensures r.Some? ==> exists k :: 0 <= k < |metadata| && metadata[k] == r.value && HasId(r.value, target)
                                    && forall j :: 0 <= j < k ==> !HasId(metadata[j], target)
  {
    var k := FirstIndex(metadata, e => HasId(e, target));
    if k < |metadata| then Some(metadata[k]) else None
  }

  predicate Succeeded(o: FetchOutcome) {
    o.Fetched?
  }

  /** Position of the first candidate that succeeded, or the number of candidates when
      every one failed. */
  function FirstSuccess(outcomes: seq<FetchOutcome>): (k: nat)
    ensures k <= |outcomes|
    ensures forall j :: 0 <= j < k ==> outcomes[j].Failed?
    ensures k < |outcomes| ==> outcomes[k].Fetched?
  {
    FirstIndex(outcomes, Succeeded)
  }
}
