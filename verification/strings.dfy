/** The string helpers of `neko::util::string`. Case mapping is the "C"
    locale's: only the ASCII letters `A`-`Z` and `a`-`z` change. The default
    arguments of `wrapWith` and `caseSensitive` are Dafny default parameters. */
module Strings {
  import opened Wrappers

  predicate IsUpper(c: char) {
    'A' <= c <= 'Z'
  }

  predicate IsLower(c: char) {
    'a' <= c <= 'z'
  }

  /** `std::tolower` of one character. */
  function LowerChar(c: char): char {
    if IsUpper(c) then (c as int + 32) as char else c
  }

  /** `std::toupper` of one character. */
  function UpperChar(c: char): char {
    if IsLower(c) then (c as int - 32) as char else c
  }

  /** `a` and `b` are the same text up to the case of ASCII letters. */
  predicate SameIgnoringCase(a: string, b: string) {
    |a| == |b| &&
    forall i :: 0 <= i < |a| ==>
      a[i] == b[i] || (IsUpper(a[i]) && b[i] as int == a[i] as int + 32)
                   || (IsLower(a[i]) && b[i] as int == a[i] as int - 32)
  }

  /** `toLower`: the same text with every upper-case letter lowered. */
  function ToLower(s: string): (r: string)
    ensures SameIgnoringCase(s, r)
    ensures forall i :: 0 <= i < |r| ==> !IsUpper(r[i])
    ensures forall i :: 0 <= i < |s| && !IsUpper(s[i]) ==> r[i] == s[i]
  {
    seq(|s|, i requires 0 <= i < |s| => LowerChar(s[i]))
  }

  /** `toUpper`: the same text with every lower-case letter raised. */
  function ToUpper(s: string): (r: string)
    ensures SameIgnoringCase(s, r)
    ensures forall i :: 0 <= i < |r| ==> !IsLower(r[i])
    ensures forall i :: 0 <= i < |s| && !IsLower(s[i]) ==> r[i] == s[i]
  {
    seq(|s|, i requires 0 <= i < |s| => UpperChar(s[i]))
  }

  /** Lowering is idempotent, and a text is left alone exactly when it has no
      upper-case letter. */
  lemma ToLowerIdempotent(s: string)
    ensures ToLower(ToLower(s)) == ToLower(s)
    ensures ToLower(s) == s <==> forall i :: 0 <= i < |s| ==> !IsUpper(s[i])
  {
    if ToLower(s) == s {
      forall i | 0 <= i < |s|
        ensures !IsUpper(s[i])
      {
        assert ToLower(s)[i] == s[i];
      }
    }
  }

  /** Raising is idempotent, and a text is left alone exactly when it has no
      lower-case letter. */
  lemma ToUpperIdempotent(s: string)
    ensures ToUpper(ToUpper(s)) == ToUpper(s)
    ensures ToUpper(s) == s <==> forall i :: 0 <= i < |s| ==> !IsLower(s[i])
  {
    if ToUpper(s) == s {
      forall i | 0 <= i < |s|
        ensures !IsLower(s[i])
      {
        assert ToUpper(s)[i] == s[i];
      }
    }
  }

  /** Lowering forgets a previous raising, and the other way round. */
  lemma CaseMappingsAbsorb(s: string)
    ensures ToLower(ToUpper(s)) == ToLower(s)
    ensures ToUpper(ToLower(s)) == ToUpper(s)
  {
  }

  /** Two texts that are the same up to case lower to the same text. */
  lemma ToLowerOfSameIgnoringCase(a: string, b: string)
    requires SameIgnoringCase(a, b)
    ensures ToLower(a) == ToLower(b)
  {
  }

  /** `wrapWith`: `prefix`, then `str`, then `suffix`. */
  function WrapWith(str: string, prefix: string := "\"", suffix: string := "\""): (r: string)
    ensures |r| == |prefix| + |str| + |suffix|
    ensures r[..|prefix|] == prefix
    ensures r[|prefix|..|prefix| + |str|] == str
    ensures r[|prefix| + |str|..] == suffix
  {
    prefix + str + suffix
  }

  /** `std::string::find_last_of` for a single character. */
  function FindLast(s: string, c: char): (pos: Option<nat>)
    ensures pos.None? <==> c !in s
    ensures pos.Some? ==> pos.value < |s| && s[pos.value] == c && c !in s[pos.value + 1..]
  {
    if |s| == 0 then None
    else if s[|s| - 1] == c then Some(|s| - 1)
    else
      var p := FindLast(s[..|s| - 1], c);
      assert s == s[..|s| - 1] + [s[|s| - 1]];
      if p.Some? then
        assert s[p.value + 1..] == s[..|s| - 1][p.value + 1..] + [s[|s| - 1]];
        p
      else p
  }

  /** `getExtensionName`: the text after the last `.`, lowered unless
      `caseSensitive`; empty when there is no `.`. */
  function ExtensionName(filename: string, caseSensitive: bool := false): (ext: string)
    ensures '.' !in filename ==> ext == ""
    ensures '.' !in ext
  {
    match FindLast(filename, '.')
    case None => ""
    case Some(pos) =>
      var ext := filename[pos + 1..];
      if caseSensitive then ext else ToLower(ext)
  }

  /** With a `.` in the name, the extension is exactly the text after the last
      one: `filename` is some text, a `.`, then the extension's source text,
      which holds no `.`; lowered unless `caseSensitive`. */
  lemma ExtensionNameAfterLastDot(filename: string, caseSensitive: bool)
    requires '.' in filename
    ensures var ext := ExtensionName(filename, caseSensitive);
      var k := |filename| - |ext|;
      && 0 < k <= |filename|
      && filename[k - 1] == '.'
      && '.' !in filename[k..]
      && ext == (if caseSensitive then filename[k..] else ToLower(filename[k..]))
  {
  }

  /** `matchExtensionName`: the extension of `name` equals `target`, up to case
      unless `caseSensitive`. */
  function MatchExtensionName(name: string, target: string, caseSensitive: bool := false): (r: bool)
    ensures caseSensitive ==> (r <==> ExtensionName(name, true) == target)
    ensures !caseSensitive ==> (r <==> ToLower(ExtensionName(name, true)) == ToLower(target))
  {
    var ext := ExtensionName(name, caseSensitive);
    if caseSensitive then ext == target
    else
      ToLowerIdempotent(ExtensionName(name, true));
      ToLower(ext) == ToLower(target)
  }

  /** `matchExtensionNames`: some target matches; checked in order, stopping at
      the first match. */
  method MatchExtensionNames(name: string, targets: seq<string>, caseSensitive: bool := false) returns (r: bool)
    ensures r <==> exists i :: 0 <= i < |targets| && MatchExtensionName(name, targets[i], caseSensitive)
  {
    var i := 0;
    while i < |targets|
      invariant 0 <= i <= |targets|
      invariant forall j :: 0 <= j < i ==> !MatchExtensionName(name, targets[j], caseSensitive)
    {
      var matched := MatchExtensionName(name, targets[i], caseSensitive);
      if matched {
        assert MatchExtensionName(name, targets[i], caseSensitive);
        return true;
      }
      i := i + 1;
    }
    return false;
  }

  /** `convertToUnixPath`: every `\` becomes `/`. */
  function ConvertToUnixPath(path: string): (r: string)
    ensures |r| == |path|
    ensures '\\' !in r
    ensures forall i :: 0 <= i < |path| && path[i] == '\\' ==> r[i] == '/'
    ensures forall i :: 0 <= i < |path| && path[i] != '\\' ==> r[i] == path[i]
  {
    seq(|path|, i requires 0 <= i < |path| => if path[i] == '\\' then '/' else path[i])
  }

  /** Converting twice is converting once; a path is left alone exactly when
      it has no `\`. */
  lemma ConvertToUnixPathIdempotent(path: string)
    ensures ConvertToUnixPath(ConvertToUnixPath(path)) == ConvertToUnixPath(path)
    ensures ConvertToUnixPath(path) == path <==> '\\' !in path
  {
    if '\\' in path {
      var i :| 0 <= i < |path| && path[i] == '\\';
      assert ConvertToUnixPath(path)[i] != path[i];
    }
  }
}
