/**
 * `FileSystemHandler.sanitize_filename`: turning a page title into a name
 * Windows accepts, by deleting the characters it refuses, writing spaces as
 * underscores and keeping at most 255 characters.
 */
module FileSystemHandler {
  import opened Strings

  /** The characters Windows refuses in file names. */
  const Invalid: set<char> := {'<', '>', ':', '"', '/', '\\', '|', '?', '*'}

  /** The longest file name Windows accepts. */
  const MaxLength: nat := 255

  /** The input with every refused character deleted. */
  function DropInvalid(s: string): (r: string)
    ensures |r| <= |s|
    ensures forall i :: 0 <= i < |r| ==> r[i] !in Invalid
  {
    if s == [] then [] else (if s[0] in Invalid then [] else [s[0]]) + DropInvalid(s[1..])
  }

  /** Every character that is not refused is kept as many times as it occurs,
      and refused ones not at all. */
  lemma {:induction false} DropInvalidCounts(s: string, c: char)
    ensures multiset(DropInvalid(s))[c] == if c in Invalid then 0 else multiset(s)[c]
  {
    if s != [] {
      DropInvalidCounts(s[1..], c);
      var head := if s[0] in Invalid then [] else [s[0]];
      assert multiset(DropInvalid(s)) == multiset(head) + multiset(DropInvalid(s[1..]));
      assert multiset(s) == multiset([s[0]]) + multiset(s[1..]) by {
        assert s == [s[0]] + s[1..];
      }
    }
  }

  /** `replace(' ', '_')`: every space written as an underscore, every other
      character kept where it was. */
  function Underscored(s: string): (r: string)
    ensures |r| == |s|
    ensures forall i :: 0 <= i < |s| ==> (s[i] == ' ' ==> r[i] == '_') && (s[i] != ' ' ==> r[i] == s[i])
  {
    ReplaceOneChar(s, ' ', '_');
    Replace(s, " ", "_")
  }

  /** `sanitize_filename`: refused characters deleted, spaces made underscores,
      then cut to at most 255 characters. */
  function SanitizeFilename(filename: string): (r: string)
    ensures |r| <= MaxLength
    ensures forall i :: 0 <= i < |r| ==> r[i] !in Invalid && r[i] != ' '
  {
    var t := Underscored(DropInvalid(filename));
    if |t| <= MaxLength then t else t[..MaxLength]
  }

  /** Deleting refused characters works piece by piece, so the characters kept
      stay in the order they had. */
  lemma {:induction false} DropInvalidAppend(a: string, b: string)
    ensures DropInvalid(a + b) == DropInvalid(a) + DropInvalid(b)
  {
    if a == [] {
      assert a + b == b;
    } else {
      var head := if a[0] in Invalid then [] else [a[0]];
      assert (a + b)[0] == a[0];
      assert (a + b)[1..] == a[1..] + b;
      DropInvalidAppend(a[1..], b);
      assert DropInvalid(a + b) == head + (DropInvalid(a[1..]) + DropInvalid(b));
      assert DropInvalid(a) == head + DropInvalid(a[1..]);
    }
  }

  /** A name without refused characters loses nothing. */
  lemma {:induction false} DropInvalidOfValid(s: string)
    requires forall i :: 0 <= i < |s| ==> s[i] !in Invalid
    ensures DropInvalid(s) == s
  {
    if s != [] {
      DropInvalidOfValid(s[1..]);
    }
  }

  /** A name that is already acceptable (no refused character, no space, at
      most 255 characters) comes back unchanged. */
  lemma SanitizeValid(s: string)
    requires forall i :: 0 <= i < |s| ==> s[i] !in Invalid && s[i] != ' '
    requires |s| <= MaxLength
    ensures SanitizeFilename(s) == s
  {
    DropInvalidOfValid(s);
  }

  /** Sanitising a sanitised name changes nothing. */
  lemma SanitizeIdempotent(s: string)
    ensures SanitizeFilename(SanitizeFilename(s)) == SanitizeFilename(s)
  {
    SanitizeValid(SanitizeFilename(s));
  }

  /** Only the first 255 kept characters matter: once they are there, anything
      appended to the name is cut off. */
  lemma SanitizeIgnoresTail(s: string, t: string)
    requires |DropInvalid(s)| >= MaxLength
    ensures SanitizeFilename(s + t) == SanitizeFilename(s)
  {
    DropInvalidAppend(s, t);
    var d := DropInvalid(s);
    var u := Underscored(d + DropInvalid(t));
    assert forall i :: 0 <= i < MaxLength ==> u[i] == Underscored(d)[i];
  }
}
