/** Entry-name normalisation done by the writer before it opens an entry:
    every leading path separator ('/' or '\') is dropped, so that the name
    stored in the archive is relative. */
module EntryNames {

  /** The two characters the writer treats as path separators. */
  predicate IsSeparator(c: char) {
    c == '/' || c == '\\'
  }

  /** The name with all of its leading separators removed: a suffix of the
      name that does not start with a separator, and everything cut off in
      front of it is a separator. */
  function StripLeadingSeparators(name: string): (r: string)
    ensures |r| <= |name| && r == name[|name| - |r|..]
    ensures r == [] || !IsSeparator(r[0])
    ensures forall k :: 0 <= k < |name| - |r| ==> IsSeparator(name[k])
    decreases |name|
  {
    if |name| > 0 && IsSeparator(name[0]) then
      var rest := StripLeadingSeparators(name[1..]);
      assert forall k :: 1 <= k < |name| - |rest| ==> name[k] == name[1..][k - 1];
      rest
    else
      name
  }

  /** The stripped name is exactly the suffix name[j..] whose prefix name[..j]
      is all separators and which does not itself start with one; in
      particular it is the longest suffix without a leading separator. */
  lemma StripIsCleanSuffix(name: string, j: nat)
    requires j <= |name|
    ensures StripLeadingSeparators(name) == name[j..] <==>
              (forall k :: 0 <= k < j ==> IsSeparator(name[k])) &&
              (j == |name| || !IsSeparator(name[j]))
  {
  }

  /** Normalising an already normalised name changes nothing. */
  lemma StripIdempotent(name: string)
    ensures StripLeadingSeparators(StripLeadingSeparators(name)) == StripLeadingSeparators(name)
  {
  }

  /** A name that does not start with a separator is left as it is. */
  lemma StripKeepsCleanName(name: string)
    requires name == [] || !IsSeparator(name[0])
    ensures StripLeadingSeparators(name) == name
  {
  }

  /** The pointer-advancing loop of addEntry and addRawEntry: the index i
      plays the part of the advanced `filename` pointer. */
  method SkipLeadingSeparators(filename: string) returns (name: string)
    ensures name == StripLeadingSeparators(filename)
  {
    var i := 0;
    while i < |filename| && IsSeparator(filename[i])
      invariant i <= |filename|
      invariant forall k :: 0 <= k < i ==> IsSeparator(filename[k])
    {
      i := i + 1;
    }
    StripIsCleanSuffix(filename, i);
    name := filename[i..];
  }
}
