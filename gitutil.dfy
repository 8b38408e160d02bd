/**
 * The repository-URL resolver of Helm's git getter: the classifier that decides
 * whether a chart reference names a git repository, and the parser that turns
 * such a reference into a record holding the original string and the remote URL.
 */
module GitUtil {
  import opened Wrappers
  import opened NetUrl

  // ---------------------------------------------------------------------------
  // Classification: the anchored pattern ^git(\+\w+)?://
  // ---------------------------------------------------------------------------

  /** RE2's `\w`: the ASCII word characters [0-9A-Za-z_]. */
  predicate IsWordChar(c: char) {
    ('0' <= c <= '9') || ('A' <= c <= 'Z') || ('a' <= c <= 'z') || c == '_'
  }

  predicate AllWord(w: string) {
    forall j :: 0 <= j < |w| ==> IsWordChar(w[j])
  }

  /** `p` occurs in `s` starting at index `i`. */
  predicate HasAt(s: string, i: nat, p: string) {
    i + |p| <= |s| && s[i..i + |p|] == p
  }

  /**
   * The language of the regular expression `git(\+\w+)?://`: either `git://`, or
   * `git+`, a non-empty run of word characters, and `://`.
   */
  ghost predicate InPattern(p: string) {
    p == "git://"
    || (|p| >= 8 && p[..4] == "git+" && p[|p| - 3..] == "://" && AllWord(p[4..|p| - 3]))
  }

  /** The anchored regular expression matches `s`: some prefix of `s` is in its language. */
  ghost predicate RegexMatches(s: string) {
    exists n :: 0 <= n <= |s| && InPattern(s[..n])
  }

  /** The length of the longest run of word characters in `s` that starts at index `i`. */
  function WordRun(s: string, i: nat): (n: nat)
    requires i <= |s|
    ensures i + n <= |s|
    ensures AllWord(s[i..i + n])
    ensures i + n < |s| ==> !IsWordChar(s[i + n])
    decreases |s| - i
  {
    if i < |s| && IsWordChar(s[i]) then
      var rest := WordRun(s, i + 1);
      assert s[i..i + 1 + rest] == [s[i]] + s[i + 1..i + 1 + rest];
      1 + rest
    else
      0
  }

  /**
   * Where the match of `^git(\+\w+)?://` against `s` ends, or `None` when it does
   * not match. A successful match always starts at index 0.
   */
  function MatchEnd(s: string): (m: Option<nat>)
    ensures m.Some? ==> m.value <= |s| && InPattern(s[..m.value])
  {
    if !("git" <= s) then None
    else if HasAt(s, 3, "://") then
      assert s[..6] == s[..3] + s[3..6];
      Some(6)
    else if |s| > 3 && s[3] == '+' then
      var n := WordRun(s, 4);
      if n > 0 && HasAt(s, 4 + n, "://") then
        var p := s[..7 + n];
        assert p[..4] == s[..3] + [s[3]];
        assert p[|p| - 3..] == s[4 + n..7 + n];
        assert p[4..|p| - 3] == s[4..4 + n];
        Some(7 + n)
      else None
    else None
  }

  /**
   * Go's `IsGitRepository`: whether a chart reference is to be treated as a git
   * repository URL, which is exactly when the anchored regular expression matches it.
   */
  predicate IsGitRepository(url: string)
    ensures IsGitRepository(url) <==> RegexMatches(url)
  {
    MatchEndDecidesRegex(url);
    MatchEnd(url).Some?
  }

  /** A run of `k` word characters followed by a non-word character (or the end) is the run WordRun finds. */
  lemma WordRunExact(s: string, i: nat, k: nat)
    requires i + k <= |s|
    requires AllWord(s[i..i + k])
    requires i + k < |s| ==> !IsWordChar(s[i + k])
    ensures WordRun(s, i) == k
  {
  }

  /** Every prefix in the pattern's language is the match MatchEnd reports: the match is found and is unique. */
  lemma MatchEndComplete(s: string, n: nat)
    requires n <= |s| && InPattern(s[..n])
    ensures MatchEnd(s) == Some(n)
  {
    var p := s[..n];
    if p == "git://" {
      assert s[..3] == p[..3];
      assert s[3..6] == p[3..6];
    } else {
      assert s[..3] == p[..3];
      assert s[3] == p[3] == '+';
      var k := n - 7;
      assert p[4..|p| - 3] == s[4..4 + k];
      assert s[4 + k..n] == p[|p| - 3..];
      WordRunExact(s, 4, k);
    }
  }

  /** The recogniser finds a match exactly for the strings the anchored regular expression matches. */
  lemma MatchEndDecidesRegex(s: string)
    ensures MatchEnd(s).Some? <==> RegexMatches(s)
  {
    if MatchEnd(s).Some? {
      var m := MatchEnd(s).value;
      assert 0 <= m <= |s| && InPattern(s[..m]);
    }
    if RegexMatches(s) {
      var n :| 0 <= n <= |s| && InPattern(s[..n]);
      MatchEndComplete(s, n);
    }
  }

  /** At most one prefix of a string is in the pattern's language. */
  lemma MatchedPrefixUnique(s: string, n1: nat, n2: nat)
    requires n1 <= |s| && InPattern(s[..n1])
    requires n2 <= |s| && InPattern(s[..n2])
    ensures n1 == n2
  {
    MatchEndComplete(s, n1);
    MatchEndComplete(s, n2);
  }

  /** The pattern is anchored at the start only: whatever follows an accepted string is ignored. */
  lemma AcceptedExtends(s: string, t: string)
    requires IsGitRepository(s)
    ensures IsGitRepository(s + t) && MatchEnd(s + t) == MatchEnd(s)
  {
    var m := MatchEnd(s).value;
    assert (s + t)[..m] == s[..m];
    MatchEndComplete(s + t, m);
  }

  /**
   * Acceptance depends only on the matched prefix: it is accepted itself, no
   * shorter prefix is accepted, and anything may follow it.
   */
  lemma MatchedPrefixDecides(s: string)
    requires IsGitRepository(s)
    ensures var m := MatchEnd(s).value;
      && IsGitRepository(s[..m])
      && (forall n :: 0 <= n < m ==> !IsGitRepository(s[..n]))
      && (forall t :: IsGitRepository(s[..m] + t))
  {
    var m := MatchEnd(s).value;
    assert s[..m][..m] == s[..m];
    MatchEndComplete(s[..m], m);
    forall n | 0 <= n < m
      ensures !IsGitRepository(s[..n])
    {
      if IsGitRepository(s[..n]) {
        var k := MatchEnd(s[..n]).value;
        assert s[..n][..k] == s[..k];
        MatchEndComplete(s, k);
      }
    }
    forall t
      ensures IsGitRepository(s[..m] + t)
    {
      AcceptedExtends(s[..m], t);
    }
  }

  /** Every string beginning with `git://` is a git repository URL. */
  lemma GitSchemeAccepted(t: string)
    ensures IsGitRepository("git://" + t)
  {
    var s := "git://" + t;
    assert s[..6] == "git://";
    MatchEndComplete(s, 6);
  }

  /** Every string beginning with `git+`, one or more word characters and `://` is a git repository URL. */
  lemma GitPlusSchemeAccepted(w: string, t: string)
    requires |w| > 0 && AllWord(w)
    ensures IsGitRepository("git+" + w + "://" + t)
  {
    var s := "git+" + w + "://" + t;
    var n := |w| + 7;
    var p := s[..n];
    assert p == "git+" + w + "://";
    assert p[..4] == "git+";
    assert p[|p| - 3..] == "://";
    assert p[4..|p| - 3] == w;
    MatchEndComplete(s, n);
  }

  /** A string that does not begin with `git` is never a git repository URL. */
  lemma NotGitPrefixRejected(s: string)
    requires !("git" <= s)
    ensures !IsGitRepository(s)
  {
  }

  /** `git+` must be followed by at least one word character: `git+://…` is rejected. */
  lemma EmptySchemeRejected(t: string)
    ensures !IsGitRepository("git+://" + t)
  {
    var s := "git+://" + t;
    assert s[4] == ':';
    WordRunExact(s, 4, 0);
  }

  /**
   * The word characters after `git+` must be followed directly by `://`: a
   * non-word character that does not begin `://` (as in `git+a-b://`) rejects.
   */
  lemma NonWordInSchemeRejected(w: string, c: char, t: string)
    requires AllWord(w) && !IsWordChar(c)
    requires !("://" <= [c] + t)
    ensures !IsGitRepository("git+" + w + [c] + t)
  {
    var s := "git+" + w + [c] + t;
    var k := |w|;
    assert s[4..4 + k] == w;
    assert s[4 + k] == c;
    WordRunExact(s, 4, k);
    assert s[..3] == "git" && s[3] == '+';
    assert s[4 + k..] == [c] + t;
  }

  /**
   * Solver aid, not a property: the `git+https` example reference spelled as
   * `git+`, `https`, `://` and the remainder, proved apart from the lemmas that use it.
   */
  lemma HttpsExampleSpelling()
    ensures "git+" + "https" + "://" + "example.com/example/chart" == "git+https://example.com/example/chart"
  {
  }

  /** Solver aid, not a property: the `git+https` example reference spelled as the marker and an `https://` URL. */
  lemma MarkedExampleSpelling()
    ensures GitPlusMarker + "https://example.com/example/chart" == "git+https://example.com/example/chart"
  {
  }

  /** Solver aid, not a property: the `git://` example reference does not begin with the `git+` marker. */
  lemma UnmarkedExampleSpelling()
    ensures !(GitPlusMarker <= "git://example.com/example/chart")
  {
    assert "git://example.com/example/chart"[3] != GitPlusMarker[3];
  }

  /** Classifier test table: an `oci://` reference is not a git repository URL. */
  lemma OciReferenceRejected()
    ensures !IsGitRepository("oci://example.com/example/chart")
  {
    assert "oci://example.com/example/chart"[0] != "git"[0];
    NotGitPrefixRejected("oci://example.com/example/chart");
  }

  /** Classifier test table: a `git://` reference is a git repository URL. */
  lemma GitReferenceAccepted()
    ensures IsGitRepository("git://example.com/example/chart")
  {
    var s := "git://" + "example.com/example/chart";
    assert forall i :: 0 <= i < |s| ==> s[i] == "git://example.com/example/chart"[i];
    GitSchemeAccepted("example.com/example/chart");
  }

  /** Classifier test table: a `git+https://` reference is a git repository URL. */
  lemma GitHttpsReferenceAccepted()
    ensures IsGitRepository("git+https://example.com/example/chart")
  {
    var w := "https";
    assert AllWord(w) by {
      assert IsWordChar('h') && IsWordChar('t') && IsWordChar('p') && IsWordChar('s');
    }
    GitPlusSchemeAccepted(w, "example.com/example/chart");
    HttpsExampleSpelling();
  }

  /** `git+://x` is rejected, and so is `git+a-b://`. */
  lemma MalformedSchemesRejected()
    ensures !IsGitRepository("git+://x")
    ensures !IsGitRepository("git+a-b://")
  {
    EmptySchemeRejected("x");
    assert "git+://" + "x" == "git+://x";
    assert AllWord("a");
    NonWordInSchemeRejected("a", '-', "b://");
    assert "git+" + "a" + ['-'] + "b://" == "git+a-b://";
  }

  // ---------------------------------------------------------------------------
  // Parsing: ParseGitRepositoryURL
  // ---------------------------------------------------------------------------

  /** A git repository reference: the caller's string, verbatim, and the remote URL parsed from it. */
  datatype GitRepositoryURL = GitRepositoryURL(RepositoryURL: string, GitRemoteURL: Url)

  /** The foreign URL parser (`giturls.Parse`): a URL, or an error message. */
  type Parser = string -> Result<Url, string>

  const GitPlusMarker: string := "git+"

  const CredentialsMessage: string :=
    "git repository URL should not contain credentials - please use git credential helpers"

  /** Why a reference could not be resolved: the parser's own error, or embedded credentials. */
  datatype GitError = ParseFailed(cause: string) | CredentialsNotAllowed

  /** The text of the error the caller sees. */
  function Message(e: GitError): string
  {
    match e
    case ParseFailed(cause) => cause
    case CredentialsNotAllowed => CredentialsMessage
  }

  /** Go's `strings.TrimPrefix`: `s` without a leading `prefix`, and `s` itself when it has none. */
  function TrimPrefix(s: string, prefix: string): (r: string)
    ensures prefix <= s ==> prefix + r == s
    ensures !(prefix <= s) ==> r == s
  {
    if prefix <= s then s[|prefix|..] else s
  }

  /** The string handed to the URL parser: the reference with one leading `git+` marker removed. */
  function ParserInput(repositoryURL: string): (r: string)
    ensures repositoryURL == (if GitPlusMarker <= repositoryURL then GitPlusMarker else "") + r
  {
    TrimPrefix(repositoryURL, GitPlusMarker)
  }

  /** A record that ParseGitRepositoryURL can produce: credential-free, and its remote URL is the parse of its own string. */
  predicate WellFormed(parse: Parser, g: GitRepositoryURL) {
    g.GitRemoteURL.User.None? && parse(ParserInput(g.RepositoryURL)) == Ok(g.GitRemoteURL)
  }

  /** Go's `ParseGitRepositoryURL`. */
  function ParseGitRepositoryURL(parse: Parser, repositoryURL: string): (r: Result<GitRepositoryURL, GitError>)
    ensures r.Ok? ==> r.value.RepositoryURL == repositoryURL && WellFormed(parse, r.value)
    ensures r.Err? <==> parse(ParserInput(repositoryURL)).Err? || parse(ParserInput(repositoryURL)).value.User.Some?
  {
    match parse(ParserInput(repositoryURL))
    case Err(e) => Err(ParseFailed(e))
    case Ok(gitRemoteURL) =>
      if gitRemoteURL.User.Some? then Err(CredentialsNotAllowed)
      else Ok(GitRepositoryURL(repositoryURL, gitRemoteURL))
  }

  /** Exactly one leading `git+` is removed, even when another one follows it. */
  lemma ParserInputStripsOneMarker(t: string)
    ensures ParserInput(GitPlusMarker + t) == t
  {
    assert GitPlusMarker <= GitPlusMarker + t;
  }

  /** A reference without the `git+` marker reaches the parser unchanged. */
  lemma ParserInputUnmarked(s: string)
    requires !(GitPlusMarker <= s)
    ensures ParserInput(s) == s
  {
  }

  /** `git+git+x` is handed to the parser as `git+x`. */
  lemma ParserInputDoubleMarker()
    ensures ParserInput("git+git+x") == "git+x"
  {
    ParserInputStripsOneMarker("git+x");
    assert GitPlusMarker + "git+x" == "git+git+x";
  }

  /** `u` begins with a non-empty run of word characters of length `k`, then `://`. */
  predicate SchemeAt(u: string, k: nat) {
    0 < k && k + 3 <= |u| && AllWord(u[..k]) && u[k..k + 3] == "://"
  }

  /**
   * What a classified reference hands to the parser begins with a scheme and `://`:
   * `git` for `git://…`, and the inner scheme, up to the matched `://`, for `git+<scheme>://…`.
   */
  lemma ClassifiedParserInputHasScheme(s: string)
    requires IsGitRepository(s)
    ensures exists k :: SchemeAt(ParserInput(s), k)
    ensures "git://" <= s ==> SchemeAt(ParserInput(s), 3)
    ensures !("git://" <= s) ==> var m := MatchEnd(s).value; m >= 8 && SchemeAt(ParserInput(s), m - 7)
  {
    if "git://" <= s {
      assert s[3..6] == "git://"[3..6];
      assert HasAt(s, 3, "://");
    }
    var m := MatchEnd(s).value;
    var p := s[..m];
    if p == "git://" {
      assert s[3] == p[3] == ':';
      assert GitPlusMarker[3] == '+';
      assert ParserInput(s) == s;
      assert s[..3] == p[..3] == "git";
      assert s[3..6] == p[3..6];
      assert AllWord(s[..3]);
      assert SchemeAt(ParserInput(s), 3);
    } else {
      assert |p| >= 8 && s[..4] == p[..4];
      var u := ParserInput(s);
      assert u == s[4..];
      var k := m - 7;
      assert u[..k] == p[4..|p| - 3];
      assert u[k..k + 3] == p[|p| - 3..];
      assert SchemeAt(u, k);
    }
  }

  /** On success the caller's string is kept verbatim, `git+` marker included. */
  lemma OriginalStringPreserved(parse: Parser, s: string)
    requires ParseGitRepositoryURL(parse, s).Ok?
    ensures ParseGitRepositoryURL(parse, s).value.RepositoryURL == s
  {
  }

  /** A parser error is returned unchanged, with no record. */
  lemma ParseErrorPropagated(parse: Parser, s: string)
    requires parse(ParserInput(s)).Err?
    ensures ParseGitRepositoryURL(parse, s) == Err(ParseFailed(parse(ParserInput(s)).error))
    ensures Message(ParseGitRepositoryURL(parse, s).error) == parse(ParserInput(s)).error
  {
  }

  /** A parsed URL with credentials is refused with the credential-helper message, and no record. */
  lemma CredentialsRejected(parse: Parser, s: string)
    requires parse(ParserInput(s)).Ok? && parse(ParserInput(s)).value.User.Some?
    ensures ParseGitRepositoryURL(parse, s) == Err(CredentialsNotAllowed)
    ensures Message(ParseGitRepositoryURL(parse, s).error) == CredentialsMessage
  {
  }

  /**
   * Round trip: every well-formed record is what parsing its own string yields, so
   * the results of ParseGitRepositoryURL are exactly the well-formed records.
   */
  lemma WellFormedRoundTrip(parse: Parser, g: GitRepositoryURL)
    requires WellFormed(parse, g)
    ensures ParseGitRepositoryURL(parse, g.RepositoryURL) == Ok(g)
  {
  }

  /**
   * Parser test table, first row, under the explicit hypothesis that rendering
   * the parsed URL gives back the parser's input (a property of the foreign
   * library): `git://…` is kept as it is and handed to the parser unchanged.
   */
  lemma GitReferenceParsed(parse: Parser, render: Url -> string)
    requires parse("git://example.com/example/chart").Ok?
    requires parse("git://example.com/example/chart").value.User.None?
    requires render(parse("git://example.com/example/chart").value) == "git://example.com/example/chart"
    ensures var r := ParseGitRepositoryURL(parse, "git://example.com/example/chart");
      r.Ok? && r.value.RepositoryURL == "git://example.com/example/chart"
      && render(r.value.GitRemoteURL) == "git://example.com/example/chart"
  {
    UnmarkedExampleSpelling();
    ParserInputUnmarked("git://example.com/example/chart");
  }

  /**
   * Parser test table, second row, under the same hypothesis: `git+https://…` is
   * kept verbatim and its remote URL renders without the `git+` marker.
   */
  lemma GitHttpsReferenceParsed(parse: Parser, render: Url -> string)
    requires parse("https://example.com/example/chart").Ok?
    requires parse("https://example.com/example/chart").value.User.None?
    requires render(parse("https://example.com/example/chart").value) == "https://example.com/example/chart"
    ensures var r := ParseGitRepositoryURL(parse, "git+https://example.com/example/chart");
      r.Ok? && r.value.RepositoryURL == "git+https://example.com/example/chart"
      && render(r.value.GitRemoteURL) == "https://example.com/example/chart"
  {
    ParserInputStripsOneMarker("https://example.com/example/chart");
    MarkedExampleSpelling();
  }
}
