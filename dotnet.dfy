/** The pieces of the .NET base library whose behaviour the service relies on:
    Path.GetExtension (with the Unix directory separator), String.ToLowerInvariant
    on ASCII letters, and the decimal rendering Enum.ToString falls back to. */
module DotNet {

  /** Path.DirectorySeparatorChar and AltDirectorySeparatorChar on Unix. */
  predicate IsDirectorySeparator(c: char) {
    c == '/'
  }

  /** No '.' and no directory separator anywhere in s. */
  predicate IsPlain(s: string) {
    forall i :: 0 <= i < |s| ==> s[i] != '.' && !IsDirectorySeparator(s[i])
  }

  /** Some directory separator stands after position j of path. */
  ghost predicate SeparatorAfter(path: string, j: int) {
    exists k :: 0 <= j < k < |path| && IsDirectorySeparator(path[k])
  }

  /** Every '.' of path lies before a separator: the final segment has no dot. */
  ghost predicate NoDotInFinalSegment(path: string) {
    forall j :: 0 <= j < |path| && path[j] == '.' ==> SeparatorAfter(path, j)
  }

  /** Path.GetExtension: the suffix that starts at the last '.' of the final
      path segment, or "" when that segment has no '.' or ends with one. */
  function GetExtension(path: string): (ext: string)
    ensures ext != "" ==>
      2 <= |ext| <= |path| && ext == path[|path| - |ext|..] && ext[0] == '.' && IsPlain(ext[1..])
    ensures ext == "" ==> path == "" || path[|path| - 1] == '.' || NoDotInFinalSegment(path)
  {
    ExtensionBefore(path, |path|)
  }

  /** The backwards scan of Path.GetExtension, having passed path[i..]. */
  function ExtensionBefore(path: string, i: nat): (ext: string)
    requires i <= |path|
    requires IsPlain(path[i..])
    ensures ext != "" ==>
      2 <= |ext| <= |path| && ext == path[|path| - |ext|..] && ext[0] == '.' && IsPlain(ext[1..])
    ensures ext == "" ==> path == "" || path[|path| - 1] == '.' || NoDotInFinalSegment(path)
    decreases i
  {
    if i == 0 then
      assert path[0..] == path;
      ""
    else if path[i - 1] == '.' then
      if i == |path| then "" else assert path[i - 1..][1..] == path[i..]; path[i - 1..]
    else if IsDirectorySeparator(path[i - 1]) then
      SeparatorEndsFinalSegment(path, i);
      ""
    else
      assert path[i - 1..] == [path[i - 1]] + path[i..];
      ExtensionBefore(path, i - 1)
  }

  lemma SeparatorEndsFinalSegment(path: string, i: nat)
    requires 0 < i <= |path|
    requires IsPlain(path[i..]) && IsDirectorySeparator(path[i - 1])
    ensures NoDotInFinalSegment(path)
  {
  }

  /** The empty extension arises exactly in the three cases its contract names. */
  lemma ExtensionEmptyIff(path: string)
    ensures GetExtension(path) == "" <==>
      (path == "" || path[|path| - 1] == '.' || NoDotInFinalSegment(path))
  {
  }

  /** A name that ends in '.' followed by a plain non-empty stem-free suffix has
      exactly that suffix as its extension, whatever comes before it. */
  lemma ExtensionOfSuffix(stem: string, ext: string)
    requires |ext| >= 2 && ext[0] == '.' && IsPlain(ext[1..])
    ensures GetExtension(stem + ext) == ext
  {
    var path := stem + ext;
    var k := |stem|;
    var r := GetExtension(path);
    assert path[k] == '.';
    assert path[|path| - 1] == ext[1..][|ext| - 2];
    assert !SeparatorAfter(path, k) by {
      forall s | k < s < |path| ensures !IsDirectorySeparator(path[s]) {
        assert path[s] == ext[1..][s - k - 1];
      }
    }
  }

  /** A name without any '.' has no extension. */
  lemma NoDotNoExtension(path: string)
    requires forall i :: 0 <= i < |path| ==> path[i] != '.'
    ensures GetExtension(path) == ""
  {
  }

  /** Char.ToLowerInvariant on the ASCII letters. */
  function LowerChar(c: char): char {
    if 'A' <= c <= 'Z' then (c as int + 32) as char else c
  }

  /** String.ToLowerInvariant, letter by letter. */
  function ToLowerInvariant(s: string): string {
    seq(|s|, i requires 0 <= i < |s| => LowerChar(s[i]))
  }

  lemma ToLowerInvariantIdempotent(s: string)
    ensures ToLowerInvariant(ToLowerInvariant(s)) == ToLowerInvariant(s)
  {
  }

  /** Lower-casing never creates or removes a '.' or a separator, so taking the
      extension commutes with it. */
  lemma {:induction false} ExtensionOfLowered(path: string)
    ensures GetExtension(ToLowerInvariant(path)) == ToLowerInvariant(GetExtension(path))
  {
    ExtensionBeforeLowered(path, |path|);
  }

  lemma {:induction false} ExtensionBeforeLowered(path: string, i: nat)
    requires i <= |path| && IsPlain(path[i..])
    ensures IsPlain(ToLowerInvariant(path)[i..])
    ensures ExtensionBefore(ToLowerInvariant(path), i) == ToLowerInvariant(ExtensionBefore(path, i))
    decreases i
  {
    var lower := ToLowerInvariant(path);
    LowerSlice(path, i);
    if i > 0 {
      var c := path[i - 1];
      assert lower[i - 1] == LowerChar(c);
      if c != '.' && !IsDirectorySeparator(c) {
        assert path[i - 1..] == [c] + path[i..];
        ExtensionBeforeLowered(path, i - 1);
      } else if c == '.' && i < |path| {
        LowerSlice(path, i - 1);
      }
    }
  }

  /** Lower-casing a suffix is the suffix of the lower-cased string, and keeps
      it plain. */
  lemma LowerSlice(s: string, i: nat)
    requires i <= |s|
    ensures ToLowerInvariant(s)[i..] == ToLowerInvariant(s[i..])
    ensures IsPlain(s[i..]) ==> IsPlain(ToLowerInvariant(s)[i..])
  {
  }

  /** The decimal digits of n, most significant first. */
  function NatToString(n: nat): (s: string)
    ensures |s| >= 1 && forall i :: 0 <= i < |s| ==> '0' <= s[i] <= '9'
    decreases n
  {
    var digit := ['0' + (n % 10) as char];
    if n < 10 then digit else NatToString(n / 10) + digit
  }

  /** Int32.ToString in the invariant culture: a '-' before negative numbers. */
  function IntToString(n: int): (s: string)
    ensures |s| >= 1 && (s[0] == '-' || '0' <= s[0] <= '9')
    ensures forall i :: 0 < i < |s| ==> '0' <= s[i] <= '9'
  {
    if n < 0 then "-" + NatToString(-n) else NatToString(n)
  }
}
