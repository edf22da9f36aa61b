/** The fixed table from lower-case body category to background colour, and the
    case-insensitive lookup into it. */
module BodyColors {
  import opened Wrappers

  /** The 32 body categories and their background colours. Every key is spelled in
      lower-case ASCII letters. */
  const Table: map<string, string> := map[
    "albino" := "#BDADAD", "alien" := "#04CFE7", "beak" := "#F8AC00", "binary" := "#010101",
    "boned" := "#000000", "bot" := "#484848", "brown" := "#310000", "dark" := "#482510",
    "deathbot" := "#282831", "dos" := "#0002A5", "gold" := "#FFAA01", "green" := "#002205",
    "grey" := "#232A30", "hyena" := "#BA8837", "ion" := "#060F26", "light" := "#B7844F",
    "medium" := "#945321", "mempool" := "#BE0B3A", "moon" := "#3501BB", "patriot" := "#0D0060",
    "pepe" := "#127602", "pink" := "#E944CE", "purple" := "#38034A", "rainbow" := "#009DFF",
    "red" := "#630001", "safemode" := "#000DFF", "striped" := "#110654", "underlord" := "#9C0901",
    "vhs" := "#0600FF", "white" := "#c7bcb6", "wrapped" := "#FFFFFF", "zombie" := "#104119"
  ]

  /** JavaScript's `toLowerCase` on one code point, exact for ASCII letters and for the
      Kelvin sign U+212A, the one code point outside ASCII whose lower case is a single
      ASCII letter. Every other code point is kept as it is: its true lower case is never
      made of ASCII letters alone, and neither is the code point itself, so a key of the
      table (all ASCII letters) is found exactly when JavaScript would find it. */
  function LowerChar(c: char): char {
    if 'A' <= c <= 'Z' then ((c as int) + 32) as char
    else if c as int == 0x212A then 'k'
    else c
  }

  function Lower(s: string): (t: string)
    ensures |t| == |s|
    ensures forall i :: 0 <= i < |s| ==> t[i] == LowerChar(s[i])
  {
    seq(|s|, i requires 0 <= i < |s| => LowerChar(s[i]))
  }

  /** `BODY_COLORS[body.toLowerCase()] || null`. */
  function Lookup(body: string): (r: Option<string>)
    ensures r.Some? ==> Lower(body) in Table && r.value == Table[Lower(body)]
  {
    var key := Lower(body);
    if key in Table && Table[key] != "" then Some(Table[key]) else None
  }

  /** Every listed colour is non-empty, so `|| null` never turns a listed colour into null. */
  lemma ColorsNonEmpty()
    ensures forall k :: k in Table ==> Table[k] != ""
  {
  }

  /** The lookup finds exactly the listed categories, ignoring case. */
  lemma LookupFindsListed(body: string)
    ensures Lookup(body).Some? <==> Lower(body) in Table
    ensures Lower(body) in Table ==> Lookup(body) == Some(Table[Lower(body)])
  {
    ColorsNonEmpty();
  }

  predicate IsAsciiLetter(c: char) {
    'A' <= c <= 'Z' || 'a' <= c <= 'z'
  }

  /** The same ASCII letter, one in upper and one in lower case. */
  predicate CaseVariants(c: char, d: char) {
    IsAsciiLetter(c) && IsAsciiLetter(d) && (c as int - d as int == 32 || d as int - c as int == 32)
  }

  /** Two body names that differ only in the case of their letters get the same colour. */
  lemma LookupIgnoresCase(a: string, b: string)
    requires |a| == |b|
    requires forall i :: 0 <= i < |a| ==> a[i] == b[i] || CaseVariants(a[i], b[i])
    ensures Lookup(a) == Lookup(b)
  {
    assert Lower(a) == Lower(b) by {
      forall i | 0 <= i < |a|
        ensures LowerChar(a[i]) == LowerChar(b[i])
      {
      }
    }
  }

  lemma LookupExamples()
    ensures Lookup("Gold") == Some("#FFAA01")
    ensures Lookup("GOLD") == Some("#FFAA01")
    ensures Lookup("gold") == Some("#FFAA01")
    ensures Lookup("Unknown") == None
  {
    assert Lower("Gold") == "gold";
    assert Lower("GOLD") == "gold";
    assert Lower("gold") == "gold";
    assert Lower("Unknown") == "unknown";
  }
}
