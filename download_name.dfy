/**
 * The name offered for the downloaded PNG. A missing or empty name gives
 * `white-border.png`; otherwise the final extension (the pattern `\.[^.]+$`) is
 * removed once and `-white-border.png` is appended.
 *
 * The pattern matches a '.' followed by one or more non-'.' characters up to the
 * end of the name, so the only place it can match is the last '.', and only when
 * something follows it.
 */
module DownloadName {
  import opened Wrappers

  const Suffix: string := "-white-border.png"
  const Fallback: string := "white-border.png"

  /** The pattern `\.[^.]+$` matches the whole of s[i..]: the final extension starts at i. */
  predicate ExtensionAt(s: string, i: int) {
    0 <= i < |s| - 1 && s[i] == '.' && forall j :: i < j < |s| ==> s[j] != '.'
  }

  /** The index of the last '.' in `s`, if any. */
  function LastDot(s: string): (r: Option<nat>)
    ensures r.Some? ==> r.value < |s| && s[r.value] == '.'
    ensures r.Some? ==> forall j :: r.value < j < |s| ==> s[j] != '.'
    ensures r.None? ==> forall j :: 0 <= j < |s| ==> s[j] != '.'
  {
    if |s| == 0 then None
    else if s[|s| - 1] == '.' then Some(|s| - 1)
    else LastDot(s[..|s| - 1])
  }

  /** Removing the pattern's match: cut from the last '.' when something follows it. */
  function StripExtension(s: string): (r: string)
    ensures forall i :: ExtensionAt(s, i) ==> r == s[..i]
    ensures (forall i :: !ExtensionAt(s, i)) ==> r == s
  {
    LastDotFindsExtension(s);
    match LastDot(s)
    case Some(i) => if i < |s| - 1 then s[..i] else s
    case None => s
  }

  /** Wherever the pattern matches, the last '.' is where the match starts. */
  lemma LastDotFindsExtension(s: string)
    ensures forall i :: ExtensionAt(s, i) ==> LastDot(s) == Some(i)
    ensures LastDot(s).Some? && LastDot(s).value < |s| - 1 ==> ExtensionAt(s, LastDot(s).value)
  {
  }

  /** The pattern has at most one match in any name. */
  lemma ExtensionUnique(s: string, i: int, k: int)
    requires ExtensionAt(s, i) && ExtensionAt(s, k)
    ensures i == k
  {
  }

  /** The downloaded file's name; a missing or empty name gives the bare fallback. */
  function DownloadName(fileName: Option<string>): (r: string)
    ensures fileName.None? || fileName == Some("") ==> r == Fallback
    ensures fileName.Some? && fileName.value != "" ==> r == StripExtension(fileName.value) + Suffix
  {
    match fileName
    case Some(name) => if name != "" then StripExtension(name) + Suffix else Fallback
    case None => Fallback
  }

  /** Every name ends in `white-border.png`. */
  lemma AlwaysEndsInFallback(fileName: Option<string>)
    ensures |DownloadName(fileName)| >= |Fallback|
    ensures DownloadName(fileName)[|DownloadName(fileName)| - |Fallback|..] == Fallback
  {
  }

  /** A name with a final extension loses only that extension. */
  lemma ExtensionReplaced(name: string, i: int)
    requires ExtensionAt(name, i)
    ensures DownloadName(Some(name)) == name[..i] + Suffix
  {
  }

  /** A name with no '.', or one that ends in '.', is kept whole. */
  lemma NameWithoutExtensionKept(name: string)
    requires name != ""
    requires (forall j :: 0 <= j < |name| ==> name[j] != '.') || name[|name| - 1] == '.'
    ensures DownloadName(Some(name)) == name + Suffix
  {
  }

  /** The stem is a prefix of the name, and what was cut is one extension. */
  lemma StripIsPrefix(s: string)
    ensures |StripExtension(s)| <= |s| && StripExtension(s) == s[..|StripExtension(s)|]
    ensures StripExtension(s) != s ==> ExtensionAt(s, |StripExtension(s)|)
  {
  }

  lemma MultiDotExample()
    ensures DownloadName(Some("a.b.jpg")) == "a.b-white-border.png"
  {
    assert ExtensionAt("a.b.jpg", 3);
  }

  lemma TrailingDotExample()
    ensures DownloadName(Some("photo.")) == "photo.-white-border.png"
  {
  }

  /** A name that is all extension, such as a dotfile, leaves an empty stem. */
  lemma DotfileExample()
    ensures DownloadName(Some(".png")) == "-white-border.png"
  {
    assert ExtensionAt(".png", 0);
  }
}
