// The two repository-URL parsers: the HTTPS-only one of
// repositorymanagement/parser and the HTTPS-or-SSH one of
// repositorymanagement/service/parser. Both match the whole URL against a
// regular expression; here the expression is worked out by hand into the
// deterministic steps the regex engine is forced through, and a composing
// function builds the URLs each parser accepts.

module RepositoryUrls {
  import opened Nullable
  import opened JavaLang

  datatype RepositoryData = RepositoryData(repositoryUrl: string, platform: string, owner: string, name: string)

  // ---------------------------------------------------------------------
  // The shared tail `(?<owner>[^/]+)/(?<name>(?!\.git$)[^/]+?)(?:\.git)*$`
  // ---------------------------------------------------------------------

  /** `n` copies of ".git". */
  function Reps(n: nat): (r: string)
    ensures |r| == 4 * n
  {
    if n == 0 then "" else ".git" + Reps(n - 1)
  }

  /** The language of `(?:\.git)*`. */
  predicate GitReps(s: string)
    decreases |s|
  {
    |s| == 0 || (StartsWith(s, ".git") && GitReps(s[4..]))
  }

  lemma {:induction false} RepsAppend(a: nat, b: nat)
    ensures Reps(a + b) == Reps(a) + Reps(b)
    decreases a
  {
    if a > 0 {
      RepsAppend(a - 1, b);
      assert Reps(a + b) == ".git" + Reps(a - 1 + b);
    }
  }

  /** `(?:\.git)*` matches exactly the strings of copies of ".git". */
  lemma {:induction false} GitRepsAreReps(s: string)
    ensures GitReps(s) <==> s == Reps(|s| / 4)
    decreases |s|
  {
    if |s| >= 4 {
      GitRepsAreReps(s[4..]);
      assert |s[4..]| / 4 == |s| / 4 - 1;
      assert Reps(|s| / 4) == ".git" + Reps(|s| / 4 - 1);
    }
  }

  lemma RepsMatch(n: nat)
    ensures GitReps(Reps(n))
  {
    GitRepsAreReps(Reps(n));
  }

  /** A non-empty string of copies of ".git" ends with ".git". */
  lemma RepsEnd(n: nat)
    requires n >= 1
    ensures EndsWith(Reps(n), ".git")
  {
    RepsAppend(n - 1, 1);
    assert Reps(1) == ".git";
  }

  /** When a string followed by copies of ".git" is itself such copies, the
      string is: the regex cannot split a ".git" across the boundary. */
  lemma RepsPrefix(x: string, n: nat)
    requires GitReps(x + Reps(n))
    ensures GitReps(x)
  {
    var m := |x + Reps(n)| / 4;
    GitRepsAreReps(x + Reps(n));
    assert |x| == 4 * (m - n);
    RepsAppend(m - n, n);
    assert x == (x + Reps(n))[..|x|] == Reps(m - n);
    RepsMatch(m - n);
  }

  /** Java's line terminators, before which a `$` outside MULTILINE mode
      also matches at the end of the input. */
  predicate IsLineTerminator(c: char) {
    c == '\n' || c == '\r' || c == '\U{0085}' || c == '\U{2028}' || c == '\U{2029}'
  }

  /** `\.git$` at the start of `t`: ".git" at the very end, or followed only
      by a final line terminator (one character, or "\r\n"). */
  predicate GitAtEnd(t: string) {
    || t == ".git"
    || t == ".git\r\n"
    || (|t| == 5 && t[..4] == ".git" && IsLineTerminator(t[4]))
  }

  /** The lazy `[^/]+?` followed by `(?:\.git)*` and the end: the shortest
      end of the name, at or after `k`, after which only copies of ".git"
      remain. */
  function NameEnd(t: string, k: nat): (r: nat)
    requires 1 <= k <= |t|
    decreases |t| - k
    ensures k <= r <= |t| && GitReps(t[r..])
    ensures forall j :: k <= j < r ==> !GitReps(t[j..])
  {
    if GitReps(t[k..]) then k else NameEnd(t, k + 1)
  }

  /** What the owner may be: at least one character, no '/'. */
  predicate ValidOwner(owner: string) {
    |owner| > 0 && '/' !in owner
  }

  /** What the lazy name group can capture: at least one character, no '/',
      and ".git" at its end only when it is nothing but ".git". */
  predicate ValidName(name: string) {
    |name| > 0 && '/' !in name && (EndsWith(name, ".git") ==> name == ".git")
  }

  /** Matches the shared tail against `rest`, the URL after its platform
      prefix, and returns the owner and name groups. */
  function MatchRepo(rest: string): (r: Option<(string, string)>)
    ensures r.Some? ==> ValidOwner(r.value.0) && ValidName(r.value.1)
  {
    match IndexOfFrom(rest, '/', 0)
    case None => None
    case Some(i) =>
      var t := rest[i + 1..];
      if i == 0 || |t| == 0 || '/' in t || GitAtEnd(t) then None
      else
        var name := t[..NameEnd(t, 1)];
        NameShape(t, name);
        Some((rest[..i], name))
  }

  /** A name found by the lazy group ends with ".git" only when it is
      ".git": a longer one would leave a shorter name whose tail is copies
      of ".git". */
  lemma NameShape(t: string, name: string)
    requires 1 <= |t| && '/' !in t && name == t[..NameEnd(t, 1)]
    ensures ValidName(name)
  {
    var k := NameEnd(t, 1);
    if EndsWith(name, ".git") && |name| > 4 {
      assert t[k - 4..k] == name[|name| - 4..];
      GitPrefix(t, k - 4);
      assert false;
    }
  }

  /** One ".git" in front of copies of ".git" is more copies. */
  lemma GitPrefix(t: string, y: nat)
    requires y + 4 <= |t| && t[y..y + 4] == ".git" && GitReps(t[y + 4..])
    ensures GitReps(t[y..])
  {
    assert t[y..][..4] == ".git" && t[y..][4..] == t[y + 4..];
  }

  /** The lazy name stops right before the trailing copies of ".git". */
  lemma NameEndAt(name: string, n: nat)
    requires |name| > 0 && !EndsWith(name, ".git")
    ensures NameEnd(name + Reps(n), 1) == |name|
  {
    var t := name + Reps(n);
    assert t[|name|..] == Reps(n);
    RepsMatch(n);
    var k := NameEnd(t, 1);
    if k < |name| {
      assert t[k..] == name[k..] + Reps(n);
      RepsPrefix(name[k..], n);
      GitRepsEnd(name[k..]);
      assert false;
    }
  }

  /** A non-empty string of copies of ".git" ends with ".git". */
  lemma GitRepsEnd(x: string)
    requires GitReps(x) && |x| > 0
    ensures EndsWith(x, ".git")
  {
    GitRepsAreReps(x);
    RepsEnd(|x| / 4);
  }

  /** Appending copies of ".git" to a name the lookahead accepts keeps it
      accepted. */
  lemma NoGitAtEnd(name: string, n: nat)
    requires |name| > 0 && !GitAtEnd(name) && !EndsWith(name, ".git")
    ensures !GitAtEnd(name + Reps(n))
  {
    if n > 0 {
      var r := Reps(n);
      var t := name + r;
      RepsEnd(n);
      assert r[|r| - 1] == r[|r| - 4..][3] == 't';
      assert t[|t| - 1] == 't';
      assert t != ".git" && t != ".git\r\n" by {
        assert |t| >= 5;
        assert ".git\r\n"[5] == '\n';
      }
    }
  }

  /** A name followed by `n` copies of ".git". */
  function NameTail(name: string, n: nat): string {
    name + Reps(n)
  }

  /** Owner, '/', name and `n` trailing copies of ".git": what the shared
      tail of both expressions accepts. */
  function RepoTail(owner: string, name: string, n: nat): string {
    owner + "/" + NameTail(name, n)
  }

  lemma {:induction false} RepsSlashFree(n: nat)
    ensures '/' !in Reps(n)
  {
    if n > 0 {
      RepsSlashFree(n - 1);
      assert Reps(n) == ".git" + Reps(n - 1);
    }
  }

  /** The first '/' of a piece without one, followed by '/', is right after
      the piece. */
  lemma FirstSlash(a: string, b: string)
    requires '/' !in a
    ensures IndexOfFrom(a + "/" + b, '/', 0) == Some(|a|)
    ensures (a + "/" + b)[..|a|] == a && (a + "/" + b)[|a| + 1..] == b
  {
    var s := a + "/" + b;
    assert s[|a|] == '/';
    forall j | 0 <= j < |a| ensures s[j] != '/' { assert s[j] == a[j]; }
  }

  /** What the name group and the trailing copies see of a valid name
      followed by copies of ".git". */
  lemma NameTailShape(name: string, n: nat)
    requires |name| > 0 && '/' !in name && !EndsWith(name, ".git") && !GitAtEnd(name)
    ensures var t := NameTail(name, n);
            && |t| > 0 && '/' !in t && !GitAtEnd(t)
            && NameEnd(t, 1) == |name| && t[..|name|] == name
  {
    var t := NameTail(name, n);
    RepsSlashFree(n);
    forall j | 0 <= j < |t| ensures t[j] != '/' {
      if j < |name| { assert t[j] == name[j]; } else { assert t[j] == Reps(n)[j - |name|]; }
    }
    NoGitAtEnd(name, n);
    NameEndAt(name, n);
  }

  /** Owner, '/', name and copies of ".git" are matched back into the same
      owner and name. */
  lemma MatchRepoRoundTrip(owner: string, name: string, n: nat)
    requires ValidOwner(owner) && |name| > 0 && '/' !in name
    requires !EndsWith(name, ".git") && !GitAtEnd(name)
    ensures MatchRepo(RepoTail(owner, name, n)) == Some((owner, name))
  {
    FirstSlash(owner, NameTail(name, n));
    NameTailShape(name, n);
  }

  /** Whatever the tail accepts is an owner, '/', a name and copies of
      ".git". */
  lemma MatchRepoSound(rest: string) returns (n: nat)
    requires MatchRepo(rest).Some?
    ensures var (owner, name) := MatchRepo(rest).value;
            rest == RepoTail(owner, name, n)
  {
    var i := IndexOfFrom(rest, '/', 0).value;
    var t := rest[i + 1..];
    var k := NameEnd(t, 1);
    assert MatchRepo(rest) == Some((rest[..i], t[..k]));
    GitRepsAreReps(t[k..]);
    n := |t[k..]| / 4;
    assert t == NameTail(t[..k], n) by {
      assert t[k..] == Reps(n);
      assert t == t[..k] + t[k..];
    }
    assert rest == rest[..i] + "/" + t by {
      assert rest[i] == '/';
    }
  }

  // ---------------------------------------------------------------------
  // repositorymanagement/parser/RepositoryUrlParser
  // ---------------------------------------------------------------------

  const HttpsPrefix := "https://"

  /** The InvalidRepositoryUrlException message. */
  function HttpsOnlyError(url: string): string {
    "Invalid repository URL: " + url + ", only GitHub and GitLab HTTPS URLs are supported"
  }

  /** `git(?:hub|lab)\.com/` at the start of `rest`: the platform group. */
  function HttpsPlatform(rest: string): (r: Option<string>)
    ensures r.Some? ==> (r.value == "github" || r.value == "gitlab") && StartsWith(rest, r.value + ".com/")
  {
    if StartsWith(rest, "github.com/") then Some("github")
    else if StartsWith(rest, "gitlab.com/") then Some("gitlab")
    else None
  }

  /** `normalizeRepositoryUrl`: "https://" in front unless the URL starts
      with "http", then one trailing ".git" dropped. */
  function NormalizeRepositoryUrl(url: string): (r: string)
    ensures StartsWith(r, "http")
    ensures StartsWith(url, "http") ==> r == url || r + ".git" == url
    ensures !StartsWith(url, "http") ==> r == HttpsPrefix + url || r + ".git" == HttpsPrefix + url
  {
    var u := if StartsWith(url, "http") then url else HttpsPrefix + url;
    assert u[..4] == "http";
    if EndsWith(u, ".git") then
      // "http" and ".git" cannot overlap, so four characters survive
      assert u[|u| - 4] == u[|u| - 4..][0] == '.';
      assert forall i :: 0 <= i < 4 ==> u[i] == u[..4][i] != '.';
      assert u[..|u| - 4][..4] == u[..4];
      assert u[..|u| - 4] + ".git" == u;
      u[..|u| - 4]
    else u
  }

  /** The part of the URL after the optional "https://". */
  function AfterScheme(url: string): string {
    if StartsWith(url, HttpsPrefix) then url[8..] else url
  }

  /** A URL with a platform after its optional scheme comes back from
      normalisation with the scheme: one starting with "http" but not
      "https://" would have to start with "git". */
  lemma NormalizedHasScheme(url: string)
    requires HttpsPlatform(AfterScheme(url)).Some?
    ensures StartsWith(NormalizeRepositoryUrl(url), HttpsPrefix)
  {
    var rest := AfterScheme(url);
    assert rest[..3] == "git";
    if StartsWith(url, HttpsPrefix) {
      assert url[..4] == HttpsPrefix[..4] == "http";
      assert |url| >= 19;
      var r := NormalizeRepositoryUrl(url);
      assert r[..8] == url[..8];
    } else {
      assert !StartsWith(url, "http") by { assert url[..3] == "git"; }
      var u := HttpsPrefix + url;
      assert u[..8] == HttpsPrefix && |u| >= 19;
      var r := NormalizeRepositoryUrl(url);
      assert r[..8] == u[..8];
    }
  }

  /** `parse`: the optional "https://" is taken when present (without it
      the URL would have to start with "git"), then the platform, then the
      shared tail; the URL is returned normalised. */
  function ParseRepositoryUrl(url: string): (r: Result<RepositoryData, string>)
    ensures r.Err? ==> r.error == HttpsOnlyError(url)
    ensures r.Ok? ==> && StartsWith(r.value.repositoryUrl, HttpsPrefix)
                      && (r.value.platform == "github" || r.value.platform == "gitlab")
                      && ValidOwner(r.value.owner) && ValidName(r.value.name)
  {
    var rest := AfterScheme(url);
    match HttpsPlatform(rest)
    case None => Err(HttpsOnlyError(url))
    case Some(platform) =>
      match MatchRepo(rest[11..])
      case None => Err(HttpsOnlyError(url))
      case Some((owner, name)) =>
        NormalizedHasScheme(url);
        Ok(RepositoryData(NormalizeRepositoryUrl(url), platform, owner, name))
  }

  function Scheme(withScheme: bool): string {
    if withScheme then HttpsPrefix else ""
  }

  /** The URL the HTTPS parser accepts for a platform, owner, name and
      number of trailing ".git", with or without the scheme. */
  function HttpsUrl(withScheme: bool, platform: string, owner: string, name: string, n: nat): string {
    Scheme(withScheme) + (platform + ".com/") + RepoTail(owner, name, n)
  }

  /** The scheme, when present, is the only thing before the platform. */
  lemma HttpsUrlScheme(withScheme: bool, platform: string, tail: string)
    requires platform == "github" || platform == "gitlab"
    ensures var url := Scheme(withScheme) + (platform + ".com/") + tail;
            && AfterScheme(url) == platform + ".com/" + tail
            && StartsWith(url, "http") == withScheme
  {
    var url := Scheme(withScheme) + (platform + ".com/") + tail;
    if withScheme {
      assert url[..8] == HttpsPrefix && url[8..] == platform + ".com/" + tail;
      assert url[..4] == "http";
    } else {
      assert url[0] == 'g';
    }
  }

  /** The platform prefix is read back. */
  lemma HttpsUrlPlatform(platform: string, tail: string)
    requires platform == "github" || platform == "gitlab"
    ensures var rest := platform + ".com/" + tail;
            HttpsPlatform(rest) == Some(platform) && rest[11..] == tail
  {
    var rest := platform + ".com/" + tail;
    assert rest[..11] == platform + ".com/";
    if platform == "gitlab" {
      assert rest[3] == 'l';
      assert !StartsWith(rest, "github.com/");
    }
  }

  /** A string ending in '/' and a name that does not end with ".git" does
      not end with ".git" either: the '/' would fall inside the last four
      characters of a short name. */
  lemma NoGitEnd(x: string, name: string)
    requires !EndsWith(name, ".git")
    ensures !EndsWith(x + "/" + name, ".git")
  {
    var s := x + "/" + name;
    if |s| >= 4 {
      if |name| >= 4 {
        assert s[|s| - 4..] == name[|name| - 4..];
      } else {
        var slash := |s| - |name| - 1;
        assert s[slash] == '/';
        assert s[|s| - 4..][slash - (|s| - 4)] == '/';
      }
    }
  }

  /** After a composed URL's head, the tail ends with ".git" exactly when
      there is a copy to drop, and dropping it leaves one copy fewer. */
  lemma ComposedEnd(head: string, owner: string, name: string, n: nat)
    requires !EndsWith(name, ".git")
    ensures var u := head + RepoTail(owner, name, n);
            && (n == 0 ==> !EndsWith(u, ".git"))
            && (n > 0 ==> EndsWith(u, ".git") && u[..|u| - 4] == head + RepoTail(owner, name, n - 1))
  {
    var u := head + RepoTail(owner, name, n);
    if n == 0 {
      assert NameTail(name, 0) == name;
      assert u == (head + owner) + "/" + name;
      NoGitEnd(head + owner, name);
    } else {
      RepsAppend(n - 1, 1);
      assert Reps(1) == ".git";
      assert NameTail(name, n) == NameTail(name, n - 1) + ".git";
      var v := head + RepoTail(owner, name, n - 1);
      assert u == v + ".git";
      assert u[|u| - 4..] == ".git" && u[..|u| - 4] == v;
    }
  }

  /** Normalising a composed URL gives it the scheme and drops one trailing
      ".git". */
  lemma NormalizeHttpsUrl(withScheme: bool, platform: string, owner: string, name: string, n: nat)
    requires platform == "github" || platform == "gitlab"
    requires !EndsWith(name, ".git")
    ensures NormalizeRepositoryUrl(HttpsUrl(withScheme, platform, owner, name, n))
            == HttpsUrl(true, platform, owner, name, if n == 0 then 0 else n - 1)
  {
    var url := HttpsUrl(withScheme, platform, owner, name, n);
    HttpsUrlScheme(withScheme, platform, RepoTail(owner, name, n));
    var head := HttpsPrefix + (platform + ".com/");
    var u := if StartsWith(url, "http") then url else HttpsPrefix + url;
    assert u == head + RepoTail(owner, name, n);
    ComposedEnd(head, owner, name, n);
  }

  /** Every URL composed from valid parts is accepted and gives back its
      platform, owner and name; the returned URL always carries the scheme
      and exactly one trailing ".git" fewer. */
  lemma ParseRepositoryUrlRoundTrip(withScheme: bool, platform: string, owner: string, name: string, n: nat)
    requires platform == "github" || platform == "gitlab"
    requires ValidOwner(owner) && |name| > 0 && '/' !in name
    requires !EndsWith(name, ".git") && !GitAtEnd(name)
    ensures ParseRepositoryUrl(HttpsUrl(withScheme, platform, owner, name, n))
            == Ok(RepositoryData(HttpsUrl(true, platform, owner, name, if n == 0 then 0 else n - 1),
                                 platform, owner, name))
  {
    var tail := RepoTail(owner, name, n);
    HttpsUrlScheme(withScheme, platform, tail);
    HttpsUrlPlatform(platform, tail);
    MatchRepoRoundTrip(owner, name, n);
    NormalizeHttpsUrl(withScheme, platform, owner, name, n);
  }

  /** What an accepted URL is made of: its part after the scheme starts
      with the platform and ".com/", and the tail matches into the owner
      and name. */
  lemma ParsedParts(url: string) returns (rest: string)
    requires ParseRepositoryUrl(url).Ok?
    ensures var d := ParseRepositoryUrl(url).value;
            && rest == AfterScheme(url) && |rest| >= 11 && rest[..11] == d.platform + ".com/"
            && MatchRepo(rest[11..]) == Some((d.owner, d.name))
  {
    rest := AfterScheme(url);
  }

  /** A URL whose part after the scheme is platform, ".com/" and a tail is
      the composed URL of that tail. */
  lemma Recompose(url: string, platform: string, owner: string, name: string, n: nat)
    requires |AfterScheme(url)| >= 11 && AfterScheme(url)[..11] == platform + ".com/"
    requires AfterScheme(url)[11..] == RepoTail(owner, name, n)
    ensures url == HttpsUrl(StartsWith(url, HttpsPrefix), platform, owner, name, n)
  {
    var rest := AfterScheme(url);
    assert rest == platform + ".com/" + rest[11..];
    assert url == Scheme(StartsWith(url, HttpsPrefix)) + rest;
  }

  /** Every accepted URL is composed from its parts and some number of
      trailing ".git". */
  lemma ParseRepositoryUrlSound(url: string) returns (withScheme: bool, n: nat)
    requires ParseRepositoryUrl(url).Ok?
    ensures var d := ParseRepositoryUrl(url).value;
            url == HttpsUrl(withScheme, d.platform, d.owner, d.name, n)
  {
    withScheme := StartsWith(url, HttpsPrefix);
    var d := ParseRepositoryUrl(url).value;
    var rest := ParsedParts(url);
    n := MatchRepoSound(rest[11..]);
    Recompose(url, d.platform, d.owner, d.name, n);
  }

  /** The name group can be exactly ".git": the lookahead only rejects a
      tail that is one ".git", so "github.com/<owner>/.git.git" leaves one
      ".git" as the name. */
  lemma DotGitName(owner: string)
    requires ValidOwner(owner)
    ensures ParseRepositoryUrl(HttpsUrl(false, "github", owner, ".git", 1))
            == Ok(RepositoryData(HttpsUrl(true, "github", owner, ".git", 0), "github", owner, ".git"))
  {
    HttpsUrlScheme(false, "github", RepoTail(owner, ".git", 1));
    HttpsUrlPlatform("github", RepoTail(owner, ".git", 1));
    DotGitMatch(owner);
    DotGitNormalize(owner);
  }

  lemma DotGitMatch(owner: string)
    requires ValidOwner(owner)
    ensures MatchRepo(RepoTail(owner, ".git", 1)) == Some((owner, ".git"))
  {
    DotGitTail();
    FirstSlash(owner, NameTail(".git", 1));
  }

  lemma DotGitNormalize(owner: string)
    ensures NormalizeRepositoryUrl(HttpsUrl(false, "github", owner, ".git", 1))
            == HttpsUrl(true, "github", owner, ".git", 0)
  {
    var url := HttpsUrl(false, "github", owner, ".git", 1);
    HttpsUrlScheme(false, "github", RepoTail(owner, ".git", 1));
    var head := HttpsPrefix + ("github" + ".com/");
    assert HttpsPrefix + url == head + RepoTail(owner, ".git", 1);
    assert Reps(1) == ".git";
    assert RepoTail(owner, ".git", 1) == RepoTail(owner, ".git", 0) + ".git";
    var v := head + RepoTail(owner, ".git", 0);
    assert HttpsPrefix + url == v + ".git";
    assert (v + ".git")[|v + ".git"| - 4..] == ".git" && (v + ".git")[..|v + ".git"| - 4] == v;
  }

  /** ".git.git" as seen by the name group: accepted by the lookahead, and
      the lazy name stops after the first ".git". */
  lemma DotGitTail()
    ensures var t := NameTail(".git", 1);
            && t == ".git.git" && '/' !in t && !GitAtEnd(t)
            && NameEnd(t, 1) == 4 && t[..4] == ".git"
  {
    var t := NameTail(".git", 1);
    assert Reps(1) == ".git";
    assert t == ".git.git";
    assert !GitReps(t[1..]) by { assert t[1..][..4] == "git."; }
    assert !GitReps(t[2..]) by { assert t[2..][..4] == "it.g"; }
    assert !GitReps(t[3..]) by { assert t[3..][..4] == "t.gi"; }
    assert GitReps(t[4..]) by { assert t[4..][..4] == ".git" && t[4..][4..] == ""; }
  }

  /** `RepositoryData.getPath`: `Path.of(platform, owner, name)` with '/'
      as the separator. */
  function GetPath(d: RepositoryData): (r: string)
    requires ValidOwner(d.platform) && ValidOwner(d.owner) && ValidOwner(d.name)
    requires '\U{0000}' !in d.platform + d.owner + d.name
    ensures |r| == |d.platform| + |d.owner| + |d.name| + 2
    ensures r[..|d.platform|] == d.platform && r[|d.platform|] == '/'
  {
    var parts := [d.platform, d.owner, d.name];
    assert parts[1..] == [d.owner, d.name] && parts[1..][1..] == [d.name];
    assert JoinWith(parts[1..], '/') == d.owner + ['/'] + d.name;
    assert JoinWith(parts, '/') == d.platform + ['/'] + (d.owner + ['/'] + d.name);
    JoinWith(parts, '/')
  }

  /** The path splits back at '/' into platform, owner and name. */
  lemma GetPathSplits(d: RepositoryData)
    requires ValidOwner(d.platform) && ValidOwner(d.owner) && ValidOwner(d.name)
    requires '\U{0000}' !in d.platform + d.owner + d.name
    ensures SplitAll(GetPath(d), '/') == [d.platform, d.owner, d.name]
  {
    var tail := d.owner + "/" + d.name;
    assert [d.platform, d.owner, d.name][1..] == [d.owner, d.name];
    assert [d.owner, d.name][1..] == [d.name];
    assert JoinWith([d.owner, d.name], '/') == tail;
    assert GetPath(d) == d.platform + "/" + tail;
    FirstSlash(d.platform, tail);
    FirstSlash(d.owner, d.name);
    assert IndexOfFrom(d.name, '/', 0) == None;
    assert SplitAll(d.name, '/') == [d.name];
    assert SplitAll(tail, '/') == [d.owner] + SplitAll(d.name, '/');
    assert SplitAll(GetPath(d), '/') == [d.platform] + SplitAll(tail, '/');
  }

  // ---------------------------------------------------------------------
  // repositorymanagement/service/parser/RepositoryUrlParser
  // ---------------------------------------------------------------------

  /** The IllegalArgumentException message. */
  function CloneUrlError(url: string): string {
    "Invalid repository URL: " + url + ", only GitHub and GitLab URLs are supported"
  }

  predicate IsClonePlatform(platform: string) {
    platform == "github" || platform == "gitlab" || platform == "git@github" || platform == "git@gitlab"
  }

  /** The prefix a platform group stands for: SSH platforms keep "git@" in
      the group and end in ':'. */
  function ClonePrefix(platform: string): string {
    if platform == "git@github" || platform == "git@gitlab" then platform + ".com:"
    else HttpsPrefix + platform + ".com/"
  }

  /** The alternation `https://(git(?:hub|lab))\.com/|(git@git(?:hub|lab))\.com:`
      at the start of the URL: the platform group that matched. */
  function ClonePlatform(url: string): (r: Option<string>)
    ensures r.Some? ==> IsClonePlatform(r.value) && StartsWith(url, ClonePrefix(r.value))
  {
    if StartsWith(url, ClonePrefix("github")) then Some("github")
    else if StartsWith(url, ClonePrefix("gitlab")) then Some("gitlab")
    else if StartsWith(url, ClonePrefix("git@github")) then Some("git@github")
    else if StartsWith(url, ClonePrefix("git@gitlab")) then Some("git@gitlab")
    else None
  }

  /** `parse`: the platform group is the HTTPS one when present, else the
      SSH one; the URL is returned unchanged. */
  function ParseCloneUrl(url: string): (r: Result<RepositoryData, string>)
    ensures r.Err? ==> r.error == CloneUrlError(url)
    ensures r.Ok? ==> && r.value.repositoryUrl == url && IsClonePlatform(r.value.platform)
                      && ValidOwner(r.value.owner) && ValidName(r.value.name)
  {
    match ClonePlatform(url)
    case None => Err(CloneUrlError(url))
    case Some(platform) =>
      match MatchRepo(url[|ClonePrefix(platform)|..])
      case None => Err(CloneUrlError(url))
      case Some((owner, name)) => Ok(RepositoryData(url, platform, owner, name))
  }

  function CloneUrl(platform: string, owner: string, name: string, n: nat): string {
    ClonePrefix(platform) + RepoTail(owner, name, n)
  }

  /** The four prefixes differ early enough that each is read back as its
      own platform. */
  lemma ClonePlatformOf(platform: string, tail: string)
    requires IsClonePlatform(platform)
    ensures ClonePlatform(ClonePrefix(platform) + tail) == Some(platform)
  {
    var prefix := ClonePrefix(platform);
    var url := prefix + tail;
    assert url[..|prefix|] == prefix;
    if platform == "gitlab" {
      assert url[11] == 'l' && ClonePrefix("github")[11] == 'h';
    } else if platform == "git@github" || platform == "git@gitlab" {
      assert url[0] == 'g' && ClonePrefix("github")[0] == 'h' && ClonePrefix("gitlab")[0] == 'h';
      if platform == "git@gitlab" {
        assert url[7] == 'l' && ClonePrefix("git@github")[7] == 'h';
      }
    }
  }

  /** Every URL composed from valid parts is accepted, returned as given,
      and gives back its platform, owner and name. */
  lemma ParseCloneUrlRoundTrip(platform: string, owner: string, name: string, n: nat)
    requires IsClonePlatform(platform)
    requires ValidOwner(owner) && |name| > 0 && '/' !in name
    requires !EndsWith(name, ".git") && !GitAtEnd(name)
    ensures var url := CloneUrl(platform, owner, name, n);
            ParseCloneUrl(url) == Ok(RepositoryData(url, platform, owner, name))
  {
    var prefix := ClonePrefix(platform);
    var tail := RepoTail(owner, name, n);
    ClonePlatformOf(platform, tail);
    assert (prefix + tail)[|prefix|..] == tail;
    MatchRepoRoundTrip(owner, name, n);
  }

  /** What an accepted URL is made of: the platform prefix, then a tail
      matching into the owner and name. */
  lemma CloneParsedParts(url: string) returns (prefix: string)
    requires ParseCloneUrl(url).Ok?
    ensures var d := ParseCloneUrl(url).value;
            && prefix == ClonePrefix(d.platform) && |prefix| <= |url| && url[..|prefix|] == prefix
            && MatchRepo(url[|prefix|..]) == Some((d.owner, d.name))
  {
    prefix := ClonePrefix(ClonePlatform(url).value);
  }

  /** Every accepted URL is composed from its parts and some number of
      trailing ".git". */
  lemma ParseCloneUrlSound(url: string) returns (n: nat)
    requires ParseCloneUrl(url).Ok?
    ensures var d := ParseCloneUrl(url).value;
            url == CloneUrl(d.platform, d.owner, d.name, n)
  {
    var d := ParseCloneUrl(url).value;
    var prefix := CloneParsedParts(url);
    n := MatchRepoSound(url[|prefix|..]);
    assert url == url[..|prefix|] + url[|prefix|..];
  }
}
