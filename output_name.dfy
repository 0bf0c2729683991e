/**
 * Output file name: `name.replaceFirst("[.][^.]+$", "") + "_repremoved.wav"`.
 * The pattern matches a dot followed by one or more non-dot characters up
 * to the end of the name, so only a final, non-empty, dot-free extension
 * is removed.
 */
module OutputName {

  const Suffix: string := "_repremoved.wav"

  /** Index of the last `c` in `s`, or -1 when `s` has none. */
  function LastIndexOf(s: string, c: char): (k: int)
    ensures -1 <= k < |s|
    ensures k >= 0 ==> s[k] == c
    ensures forall t :: k < t < |s| ==> s[t] != c
  {
    if s == [] then -1
    else if s[|s| - 1] == c then |s| - 1
    else LastIndexOf(s[..|s| - 1], c)
  }

  /**
   * The pattern `[.][^.]+$` matches from position k: a dot at k, at least
   * one character after it, and no dot after it.
   */
  predicate ExtensionAt(s: string, k: int)
  {
    0 <= k && k + 1 < |s| && s[k] == '.' && forall t :: k < t < |s| ==> s[t] != '.'
  }

  /**
   * `replaceFirst("[.][^.]+$", "")`: the match, when there is one, runs to
   * the end of the name and is cut off; otherwise the name is unchanged.
   */
  function StripExtension(s: string): (r: string)
    ensures forall k :: ExtensionAt(s, k) ==> r == s[..k]
    ensures (forall k :: !ExtensionAt(s, k)) ==> r == s
  {
    var k := LastIndexOf(s, '.');
    assert 0 <= k && k + 1 < |s| ==> ExtensionAt(s, k);
    if 0 <= k && k + 1 < |s| then s[..k] else s
  }

  /** The output name: the input name without its extension, then the suffix. */
  function OutputFileName(name: string): (r: string)
    ensures |r| >= |Suffix| && r[|r| - |Suffix|..] == Suffix
    ensures forall k :: ExtensionAt(name, k) ==> r == name[..k] + Suffix
    ensures (forall k :: !ExtensionAt(name, k)) ==> r == name + Suffix
  {
    StripExtension(name) + Suffix
  }

  /** At most one position matches: a later dot would lie inside the earlier match. */
  lemma ExtensionUnique(s: string, k: int, k': int)
    requires ExtensionAt(s, k) && ExtensionAt(s, k')
    ensures k == k'
  {
  }

  /** Only the last extension goes: `a.b.wav` becomes `a.b_repremoved.wav`. */
  lemma LastExtensionOnly()
    ensures OutputFileName("a.b.wav") == "a.b_repremoved.wav"
  {
    assert ExtensionAt("a.b.wav", 3);
  }

  /** A name without a dot keeps all of its characters. */
  lemma NoExtensionKept()
    ensures OutputFileName("noext") == "noext_repremoved.wav"
  {
    forall k ensures !ExtensionAt("noext", k) {
      if 0 <= k < 5 {
        assert "noext"[k] != '.';
      }
    }
  }

  /** A trailing dot with nothing after it is not an extension. */
  lemma TrailingDotKept()
    ensures OutputFileName("file.") == "file._repremoved.wav"
  {
    forall k ensures !ExtensionAt("file.", k) {
      if 0 <= k < 4 {
        assert "file."[k] != '.';
      }
    }
  }
}
