/** Reading the user name out of a profile address, and the address the
    activity is then fetched from. */
module Usernames {
  import opened Strings

  const UserPath: string := "/user/"
  const SiteRoot: string := "https://www.reddit.com"

  /** The characters a user name is read from: ASCII letters, digits, '_'
      and '-'. */
  predicate IsNameChar(c: char) {
    ('A' <= c <= 'Z') || ('a' <= c <= 'z') || ('0' <= c <= '9') || c == '_' || c == '-'
  }

  /** A user name can be read at p: the user path, then a name character. */
  predicate NameAt(url: string, p: nat) {
    OccursAt(url, UserPath, p) && p + |UserPath| < |url| && IsNameChar(url[p + |UserPath|])
  }

  /** The end of the run of name characters that starts at i. */
  function NameEnd(url: string, i: nat): (j: nat)
    requires i <= |url|
    ensures i <= j <= |url|
    decreases |url| - i
  {
    if i < |url| && IsNameChar(url[i]) then NameEnd(url, i + 1) else i
  }

  lemma {:induction false} NameEndSpec(url: string, i: nat)
    requires i <= |url|
    ensures NameEnd(url, i) == |url| || !IsNameChar(url[NameEnd(url, i)])
    ensures forall k :: i <= k < NameEnd(url, i) ==> IsNameChar(url[k])
    decreases |url| - i
  {
    if i < |url| && IsNameChar(url[i]) {
      NameEndSpec(url, i + 1);
    }
  }

  /** The leftmost position at or after p where a name can be read. */
  function FirstNameFrom(url: string, p: nat): (r: Option<nat>)
    ensures r.Some? ==> p <= r.value && NameAt(url, r.value)
    ensures r.Some? ==> forall q :: p <= q < r.value ==> !NameAt(url, q)
    ensures r.None? ==> forall q :: p <= q ==> !NameAt(url, q)
    decreases |url| - p
  {
    if p >= |url| then None
    else if NameAt(url, p) then Some(p)
    else FirstNameFrom(url, p + 1)
  }

  /** The search for the user path followed by the longest run of name
      characters; the group of the leftmost match, or None. */
  function ExtractUsername(url: string): Option<string> {
    match FirstNameFrom(url, 0)
    case None => None
    case Some(p) => Some(url[p + |UserPath|..NameEnd(url, p + |UserPath|)])
  }

  /** There is no name exactly when no name character follows the user path
      anywhere in the address. */
  lemma ExtractUsernameNone(url: string)
    ensures ExtractUsername(url).None? <==> forall p :: !NameAt(url, p)
  {
  }

  /** A name read from the address is non-empty, made of name characters
      only, and is the whole run after the leftmost user path that has one. */
  lemma ExtractUsernameSome(url: string) returns (p: nat)
    requires ExtractUsername(url).Some?
    ensures NameAt(url, p) && forall q: nat :: q < p ==> !NameAt(url, q)
    ensures var u := ExtractUsername(url).value;
            u != [] && (forall i :: 0 <= i < |u| ==> IsNameChar(u[i]))
            && p + |UserPath| + |u| <= |url| && url[p + |UserPath|..p + |UserPath| + |u|] == u
            && (p + |UserPath| + |u| == |url| || !IsNameChar(url[p + |UserPath| + |u|]))
  {
    p := FirstNameFrom(url, 0).value;
    var i := p + |UserPath|;
    NameEndSpec(url, i);
    var u := ExtractUsername(url).value;
    assert u == url[i..NameEnd(url, i)];
    forall k | 0 <= k < |u| ensures IsNameChar(u[k]) { assert u[k] == url[i + k]; }
  }

  /** The address the activity is fetched from. */
  function ProfileUrl(name: string): string {
    SiteRoot + UserPath + name + "/"
  }

  /** Trailing occurrences of c removed, as str.rstrip(c). */
  function RStripChar(s: string, c: char): (r: string)
    ensures |r| <= |s| && r == s[..|r|]
  {
    if s != [] && s[|s| - 1] == c then RStripChar(s[..|s| - 1], c) else s
  }

  /** The last '/'-separated segment after trailing '/' are removed: how the
      fetch reads the name back out of the profile address. */
  function LastPathSegment(url: string): string {
    var parts := Split(RStripChar(url, '/'), '/');
    parts[|parts| - 1]
  }

  /** The checks before the fetch: the address must hold the user path and
      a name must be read from it; the result is the profile address. */
  function ResolveProfile(url: string): Option<string> {
    if !exists p :: 0 <= p < |url| && OccursAt(url, UserPath, p) then None
    else match ExtractUsername(url)
      case None => None
      case Some(name) => if name == [] then None else Some(ProfileUrl(name))
  }

  lemma NameHasNoSlash(name: string)
    requires forall i :: 0 <= i < |name| ==> IsNameChar(name[i])
    ensures '/' !in name
  {
    forall i | 0 <= i < |name| ensures name[i] != '/' { assert IsNameChar(name[i]); }
  }

  /** Reading the name back from the profile address built from it gives
      the name. */
  lemma ProfileRoundTrip(name: string)
    requires name != [] && forall i :: 0 <= i < |name| ==> IsNameChar(name[i])
    ensures LastPathSegment(ProfileUrl(name)) == name
  {
    var url := ProfileUrl(name);
    var head := SiteRoot + "/user";
    assert url == head + ['/'] + name + "/";
    assert url[..|url| - 1] == head + ['/'] + name;
    assert IsNameChar(name[|name| - 1]);
    assert RStripChar(url, '/') == head + ['/'] + name;
    NameHasNoSlash(name);
    SplitAppend(head, name, '/');
    SplitNone(name, '/');
  }

  lemma NoUserPathBefore(name: string, q: nat)
    requires q < |SiteRoot|
    ensures !OccursAt(ProfileUrl(name), UserPath, q)
  {
    var url := ProfileUrl(name);
    assert url[q] == SiteRoot[q];
    if q + 1 < |SiteRoot| {
      assert url[q + 1] == SiteRoot[q + 1];
    } else {
      assert url[q + 1] == '/';
    }
  }

  /** The name read from a profile address built from a name is that name. */
  lemma ExtractFromProfile(name: string)
    requires name != [] && forall i :: 0 <= i < |name| ==> IsNameChar(name[i])
    ensures ExtractUsername(ProfileUrl(name)) == Some(name)
  {
    var url := ProfileUrl(name);
    var i := |SiteRoot| + |UserPath|;
    ProfileNameFirst(name);
    ProfileNameEnd(name);
    assert url[i..i + |name|] == name;
  }

  /** In a profile address the leftmost readable name is the one after the
      site root. */
  lemma ProfileNameFirst(name: string)
    requires name != [] && forall i :: 0 <= i < |name| ==> IsNameChar(name[i])
    ensures FirstNameFrom(ProfileUrl(name), 0) == Some(|SiteRoot|)
  {
    var url := ProfileUrl(name);
    var p := |SiteRoot|;
    assert url[p..p + |UserPath|] == UserPath;
    assert url[p + |UserPath|] == name[0];
    assert NameAt(url, p);
    forall q: nat | q < p ensures !NameAt(url, q) { NoUserPathBefore(name, q); }
  }

  /** In a profile address the name run stops at the closing '/'. */
  lemma ProfileNameEnd(name: string)
    requires forall i :: 0 <= i < |name| ==> IsNameChar(name[i])
    ensures NameEnd(ProfileUrl(name), |SiteRoot| + |UserPath|) == |SiteRoot| + |UserPath| + |name|
  {
    var url := ProfileUrl(name);
    var i := |SiteRoot| + |UserPath|;
    forall k | i <= k < i + |name| ensures IsNameChar(url[k]) { assert url[k] == name[k - i]; }
    NameEndFrom(url, i, |name|);
  }

  lemma {:induction false} NameEndFrom(url: string, i: nat, n: nat)
    requires i + n < |url| && !IsNameChar(url[i + n])
    requires forall k :: i <= k < i + n ==> IsNameChar(url[k])
    ensures NameEnd(url, i) == i + n
    decreases n
  {
    if n > 0 {
      NameEndFrom(url, i + 1, n - 1);
    }
  }

  /** The address checks pass exactly when a name can be read, and the fetch
      then reads back the very name that was extracted. */
  lemma ResolveProfileSpec(url: string)
    ensures ResolveProfile(url).None? <==> forall p :: !NameAt(url, p)
    ensures ResolveProfile(url).Some? ==>
              LastPathSegment(ResolveProfile(url).value) == ExtractUsername(url).value
  {
    ExtractUsernameNone(url);
    if ExtractUsername(url).Some? {
      var p := ExtractUsernameSome(url);
      assert p < |url| && OccursAt(url, UserPath, p);
      ProfileRoundTrip(ExtractUsername(url).value);
    }
  }
}
