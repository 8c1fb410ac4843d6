/** Artifact names as both implementations match them: a version group of
    the character class `[A-z0-9_\-]` followed by a fixed suffix. */
module ArtifactNames {
  import opened Wrappers
  import opened Text

  /** The character class `[A-z0-9_\-]`. `A-z` runs from 0x41 to 0x7A, so it
      admits `[`, `\`, `]`, `^`, `_` and the backtick besides the letters. */
  predicate VersionChar(c: char) {
    ('A' <= c <= 'z') || ('0' <= c <= '9') || c == '_' || c == '-'
  }

  predicate VersionChars(s: string) {
    s == [] || (VersionChar(s[0]) && VersionChars(s[1..]))
  }

  lemma {:induction false} VersionCharsAppend(a: string, b: string)
    ensures VersionChars(a + b) <==> VersionChars(a) && VersionChars(b)
    decreases |a|
  {
    if a != [] {
      assert (a + b)[0] == a[0] && (a + b)[1..] == a[1..] + b;
      VersionCharsAppend(a[1..], b);
    } else {
      assert a + b == b;
    }
  }

  /** `^([A-z0-9_\-]+)<suffix>$`: the group when the whole name matches. As
      the suffix is anchored at the end, the group is the name without it. */
  function SuffixGroup(name: string, suffix: string): (v: Option<string>)
    ensures v.Some? ==> v.value != [] && VersionChars(v.value) && name == v.value + suffix
  {
    var n := |name| - |suffix|;
    if n > 0 && EndsWith(name, suffix) && VersionChars(name[..n]) then
      assert name == name[..n] + name[n..];
      Some(name[..n])
    else None
  }

  /** Every name the pattern accepts is matched, with its group as the version. */
  lemma SuffixGroupOf(p: string, suffix: string)
    requires p != [] && VersionChars(p)
    ensures SuffixGroup(p + suffix, suffix) == Some(p)
  {
    var name := p + suffix;
    assert name[..|p|] == p && name[|p|..] == suffix;
  }
}
