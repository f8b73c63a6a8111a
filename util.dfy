/** The current file-name sanitiser (util.go): four one-for-one character
    replacements applied in a fixed chain. */
module Util {
  import opened GoStrings

  /** The characters the current sanitiser removes. */
  predicate IsIllegal(c: char) {
    c == '/' || c == ':' || c == '!' || c == '?'
  }

  /** What the chain does to one character: a path separator becomes an
      underscore, the three punctuation marks become a space. */
  function SanitizedChar(c: char): (d: char)
    ensures !IsIllegal(d)
    ensures !IsIllegal(c) ==> d == c
  {
    match c
    case '/' => '_'
    case ':' => ' '
    case '!' => ' '
    case '?' => ' '
    case _ => c
  }

  /** `removeIllegalCharacters`: the chain of four `strings.Replace` calls.
      Its result is the input with each character sanitised in place. */
  function RemoveIllegalCharacters(filename: string): (r: string)
    ensures |r| == |filename|
    ensures forall i :: 0 <= i < |r| ==> r[i] == SanitizedChar(filename[i])
    ensures forall i :: 0 <= i < |r| ==> !IsIllegal(r[i])
    ensures '/' !in r
  {
    var slashes := ReplaceAll(filename, '/', '_');
    var colons := ReplaceAll(slashes, ':', ' ');
    var bangs := ReplaceAll(colons, '!', ' ');
    ReplaceAll(bangs, '?', ' ')
  }

  /** Sanitising a sanitised name changes nothing. */
  lemma RemoveIllegalCharactersIdempotent(filename: string)
    ensures RemoveIllegalCharacters(RemoveIllegalCharacters(filename)) == RemoveIllegalCharacters(filename)
  {
  }

  /** A name without any of the four characters is returned unchanged. */
  lemma RemoveIllegalCharactersKeepsLegalNames(filename: string)
    requires forall i :: 0 <= i < |filename| ==> !IsIllegal(filename[i])
    ensures RemoveIllegalCharacters(filename) == filename
  {
  }
}
