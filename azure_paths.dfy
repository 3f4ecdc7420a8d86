/**
 * The slash helpers of AzureFileObject: removeLeadingSlash and removeTrailingSlash
 * strip every '/' at one end of a path, one character per pass of a while loop.
 */
module AzurePaths {

  /** The reference definition: the path with all leading '/' taken off. */
  function StripLeading(s: string): string
    decreases |s|
  {
    if |s| > 0 && s[0] == '/' then StripLeading(s[1..]) else s
  }

  /** The reference definition: the path with all trailing '/' taken off. */
  function StripTrailing(s: string): string
    decreases |s|
  {
    if |s| > 0 && s[|s| - 1] == '/' then StripTrailing(s[..|s| - 1]) else s
  }

  /** r is s less a run of leading slashes, and r itself does not start with one. */
  predicate LeadingStripped(s: string, r: string) {
    |r| <= |s| && r == s[|s| - |r|..] &&
    (forall j :: 0 <= j < |s| - |r| ==> s[j] == '/') &&
    (|r| == 0 || r[0] != '/')
  }

  /** r is s less a run of trailing slashes, and r itself does not end with one. */
  predicate TrailingStripped(s: string, r: string) {
    |r| <= |s| && r == s[..|r|] &&
    (forall j :: |r| <= j < |s| ==> s[j] == '/') &&
    (|r| == 0 || r[|r| - 1] != '/')
  }

  /** Only one string is s stripped of its leading slashes: the reference one. */
  lemma {:induction false} LeadingUnique(s: string, r: string)
    requires LeadingStripped(s, r)
    ensures r == StripLeading(s)
    decreases |s|
  {
    if |r| < |s| {
      assert s[0] == '/';
      var t := s[1..];
      assert t[|t| - |r|..] == s[|s| - |r|..];
      assert forall j :: 0 <= j < |t| - |r| ==> t[j] == s[j + 1];
      LeadingUnique(t, r);
    } else {
      assert s[|s| - |r|..] == s;
    }
  }

  /** Only one string is s stripped of its trailing slashes: the reference one. */
  lemma {:induction false} TrailingUnique(s: string, r: string)
    requires TrailingStripped(s, r)
    ensures r == StripTrailing(s)
    decreases |s|
  {
    if |r| < |s| {
      assert s[|s| - 1] == '/';
      var t := s[..|s| - 1];
      assert t[..|r|] == s[..|r|];
      TrailingUnique(t, r);
    } else {
      assert s[..|r|] == s;
    }
  }

  /** removeLeadingSlash: while the path starts with '/', drop its first character. */
  method RemoveLeadingSlash(relpath: string) returns (r: string)
    ensures LeadingStripped(relpath, r)
    ensures r == StripLeading(relpath)
  {
    r := relpath;
    while |r| > 0 && r[0] == '/'
      invariant |r| <= |relpath| && r == relpath[|relpath| - |r|..]
      invariant forall j :: 0 <= j < |relpath| - |r| ==> relpath[j] == '/'
      decreases |r|
    {
      assert relpath[|relpath| - |r|] == r[0];
      r := r[1..];
    }
    LeadingUnique(relpath, r);
  }

  /** removeTrailingSlash: while the path ends with '/', drop its last character. */
  method RemoveTrailingSlash(itemPath: string) returns (r: string)
    ensures TrailingStripped(itemPath, r)
    ensures r == StripTrailing(itemPath)
  {
    r := itemPath;
    while |r| > 0 && r[|r| - 1] == '/'
      invariant |r| <= |itemPath| && r == itemPath[..|r|]
      invariant forall j :: |r| <= j < |itemPath| ==> itemPath[j] == '/'
      decreases |r|
    {
      assert itemPath[|r| - 1] == r[|r| - 1];
      r := r[..|r| - 1];
    }
    TrailingUnique(itemPath, r);
  }

  /** Stripping the leading slashes a second time changes nothing. */
  lemma {:induction false} LeadingIdempotent(s: string)
    ensures StripLeading(StripLeading(s)) == StripLeading(s)
    decreases |s|
  {
    if |s| > 0 && s[0] == '/' {
      LeadingIdempotent(s[1..]);
    }
  }

  /** Stripping the trailing slashes a second time changes nothing. */
  lemma {:induction false} TrailingIdempotent(s: string)
    ensures StripTrailing(StripTrailing(s)) == StripTrailing(s)
    decreases |s|
  {
    if |s| > 0 && s[|s| - 1] == '/' {
      TrailingIdempotent(s[..|s| - 1]);
    }
  }

  /** A path of slashes only, the root "/" among them, is stripped to the empty string. */
  lemma {:induction false} OnlySlashesVanish(s: string)
    requires forall j :: 0 <= j < |s| ==> s[j] == '/'
    ensures StripLeading(s) == "" && StripTrailing(s) == ""
    decreases |s|
  {
    if |s| > 0 {
      OnlySlashesVanish(s[1..]);
      OnlySlashesVanish(s[..|s| - 1]);
    }
  }
}
