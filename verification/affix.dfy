/** Strings built by wrapping an identifier between a fixed prefix and suffix,
    and the inverse that recovers the identifier. */
module Affix {
  import opened Wrappers

  /** The part of `s` between `prefix` and `suffix`, when `s` has that shape. */
  function Strip(prefix: string, suffix: string, s: string): (r: Option<string>)
    ensures r.Some? <==> |prefix| + |suffix| <= |s| && s[..|prefix|] == prefix && s[|s| - |suffix|..] == suffix
    ensures r.Some? ==> prefix + r.value + suffix == s
  {
    if |prefix| + |suffix| <= |s| && s[..|prefix|] == prefix && s[|s| - |suffix|..] == suffix then
      var mid := s[|prefix|..|s| - |suffix|];
      assert s == s[..|prefix|] + mid + s[|s| - |suffix|..];
      Some(mid)
    else
      None
  }

  /** Wrapping then stripping gives back the wrapped text. */
  lemma StripWrap(prefix: string, mid: string, suffix: string)
    ensures Strip(prefix, suffix, prefix + mid + suffix) == Some(mid)
  {
    var s := prefix + mid + suffix;
    assert s[..|prefix|] == prefix;
    assert s[|s| - |suffix|..] == suffix;
    assert s[|prefix|..|s| - |suffix|] == mid;
  }
}
