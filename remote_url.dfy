/**
 * Identity extraction from the `origin` remote URL (`curentIdentity` in
 * src/classes/cli.ts). The outputs of `git rev-parse --is-inside-work-tree`
 * and `git remote get-url origin` are inputs; the regular expression
 * `/git@(.*):(.*)\/(.*).git/` is modelled by a matcher for that one pattern
 * with the semantics of a backtracking JavaScript engine: the leftmost start
 * position wins, and for that start each greedy `(.*)` takes as much as it can
 * while the rest of the pattern still matches.
 */
module RemoteUrl {
  import opened Text

  datatype Option<T> = None | Some(value: T)

  /** What the regular expression's `.` matches: any character except a line terminator. */
  predicate IsDot(c: char)
  {
    !IsLineTerminator(c)
  }

  /** Every character of `s[lo..hi]` is matched by `.`. */
  ghost predicate Dots(s: string, lo: int, hi: int)
    requires 0 <= lo <= hi <= |s|
  {
    forall x :: lo <= x < hi ==> IsDot(s[x])
  }

  /** One way the pattern can match `s`: `git@` at `start`, the `:` at
      `colon`, the `/` at `slash`, and the character matched by the unescaped
      `.` before the final `git` at `dot`. */
  datatype Span = Span(start: nat, colon: nat, slash: nat, dot: nat)

  /** The three capture groups of a match. For a URL `git@H:O/R.git` they are
      the host H, the owner O and the repository R. */
  datatype Captures = Captures(host: string, owner: string, repo: string)

  ghost predicate IsMatch(s: string, m: Span)
  {
    && m.start + 4 <= m.colon < m.slash < m.dot && m.dot + 4 <= |s|
    && s[m.start..m.start + 4] == "git@"
    && s[m.colon] == ':' && s[m.slash] == '/'
    && s[m.dot + 1..m.dot + 4] == "git"
    && Dots(s, m.start + 4, m.colon)
    && Dots(s, m.colon + 1, m.slash)
    && Dots(s, m.slash + 1, m.dot + 1)
  }

  /** The order in which a backtracking engine tries matches: earlier start
      first, then for each greedy group the longer capture first. `TriedNoLaterThan(a, b)`
      holds when `a` is tried no later than `b`. */
  predicate TriedNoLaterThan(a: Span, b: Span)
  {
    || a.start < b.start
    || (a.start == b.start && a.colon > b.colon)
    || (a.start == b.start && a.colon == b.colon && a.slash > b.slash)
    || (a.start == b.start && a.colon == b.colon && a.slash == b.slash && a.dot >= b.dot)
  }

  /** The third group and the final `.git` can match after the `/` at `slash`
      with the wildcard at `dot`. */
  ghost predicate TailAt(s: string, slash: nat, dot: nat)
  {
    slash < dot && dot + 4 <= |s| && s[dot + 1..dot + 4] == "git" && Dots(s, slash + 1, dot + 1)
  }

  /** The greedy third group: the last `dot <= hi` that completes the match. */
  function LastDot(s: string, slash: nat, hi: nat): (r: Option<nat>)
    ensures r.Some? ==> slash < r.value <= hi && TailAt(s, slash, r.value)
    ensures r.Some? ==> forall d: nat :: r.value < d <= hi ==> !TailAt(s, slash, d)
    ensures r.None? ==> forall d: nat :: d <= hi ==> !TailAt(s, slash, d)
    decreases hi
  {
    if hi <= slash then None
    else if hi + 4 <= |s| && s[hi + 1..hi + 4] == "git" && (forall x | slash + 1 <= x < hi + 1 :: IsDot(s[x]))
    then Some(hi)
    else LastDot(s, slash, hi - 1)
  }

  /** The second group can end at the `/` at `slash` and the rest matches. */
  ghost predicate SlashAt(s: string, colon: nat, slash: nat)
  {
    colon < slash < |s| && s[slash] == '/' && Dots(s, colon + 1, slash) && LastDot(s, slash, |s|).Some?
  }

  /** The greedy second group: the last `slash <= hi` that completes the match. */
  function LastSlash(s: string, colon: nat, hi: nat): (r: Option<nat>)
    ensures r.Some? ==> colon < r.value <= hi && SlashAt(s, colon, r.value)
    ensures r.Some? ==> forall j: nat :: r.value < j <= hi ==> !SlashAt(s, colon, j)
    ensures r.None? ==> forall j: nat :: j <= hi ==> !SlashAt(s, colon, j)
    decreases hi
  {
    if hi <= colon then None
    else if hi < |s| && s[hi] == '/' && (forall x | colon + 1 <= x < hi :: IsDot(s[x]))
            && LastDot(s, hi, |s|).Some?
    then Some(hi)
    else LastSlash(s, colon, hi - 1)
  }

  /** The first group can end at the `:` at `colon` and the rest matches. */
  ghost predicate ColonAt(s: string, start: nat, colon: nat)
  {
    start + 4 <= colon < |s| && s[colon] == ':' && Dots(s, start + 4, colon)
    && LastSlash(s, colon, |s|).Some?
  }

  /** The greedy first group: the last `colon <= hi` that completes the match. */
  function LastColon(s: string, start: nat, hi: nat): (r: Option<nat>)
    ensures r.Some? ==> start + 4 <= r.value <= hi && ColonAt(s, start, r.value)
    ensures r.Some? ==> forall i: nat :: r.value < i <= hi ==> !ColonAt(s, start, i)
    ensures r.None? ==> forall i: nat :: i <= hi ==> !ColonAt(s, start, i)
    decreases hi
  {
    if hi < start + 4 then None
    else if hi < |s| && s[hi] == ':' && (forall x | start + 4 <= x < hi :: IsDot(s[x]))
            && LastSlash(s, hi, |s|).Some?
    then Some(hi)
    else LastColon(s, start, hi - 1)
  }

  /** A match can start at `start`. */
  ghost predicate StartAt(s: string, start: nat)
  {
    start + 4 <= |s| && s[start..start + 4] == "git@" && LastColon(s, start, |s|).Some?
  }

  /** The leftmost start at or after `from` from which the pattern matches. */
  function FirstStart(s: string, from: nat): (r: Option<nat>)
    ensures r.Some? ==> from <= r.value && StartAt(s, r.value)
    ensures r.Some? ==> forall p: nat :: from <= p < r.value ==> !StartAt(s, p)
    ensures r.None? ==> forall p: nat :: from <= p ==> !StartAt(s, p)
    decreases |s| - from
  {
    if from + 4 > |s| then None
    else if s[from..from + 4] == "git@" && LastColon(s, from, |s|).Some? then Some(from)
    else FirstStart(s, from + 1)
  }

  /** Every match passes each stage of the search: its `.git` tail, its `/`,
      its `:` and its `git@` are each found by the stage that looks for them. */
  lemma MatchStages(s: string, m: Span)
    requires IsMatch(s, m)
    ensures TailAt(s, m.slash, m.dot)
    ensures SlashAt(s, m.colon, m.slash)
    ensures ColonAt(s, m.start, m.colon)
    ensures StartAt(s, m.start)
  {
    assert TailAt(s, m.slash, m.dot);
    assert LastDot(s, m.slash, |s|).Some?;
    assert SlashAt(s, m.colon, m.slash);
    assert LastSlash(s, m.colon, |s|).Some?;
    assert ColonAt(s, m.start, m.colon);
  }

  /** The match `s.match(/git@(.*):(.*)\/(.*).git/)` finds, if any: a match,
      and the first one in backtracking order among all matches. */
  function Exec(s: string): (r: Option<Span>)
    ensures r.Some? ==> IsMatch(s, r.value)
    ensures r.Some? ==> forall m :: IsMatch(s, m) ==> TriedNoLaterThan(r.value, m)
    ensures r.None? ==> forall m :: !IsMatch(s, m)
  {
    forall m | IsMatch(s, m) ensures StartAt(s, m.start) && ColonAt(s, m.start, m.colon)
                               && SlashAt(s, m.colon, m.slash) && TailAt(s, m.slash, m.dot) {
      MatchStages(s, m);
    }
    match FirstStart(s, 0)
    case None => None
    case Some(p) =>
      var i := LastColon(s, p, |s|).value;
      var j := LastSlash(s, i, |s|).value;
      var k := LastDot(s, j, |s|).value;
      Some(Span(p, i, j, k))
  }

  /** The groups captured by match `m` of `s`. */
  function GroupsOf(s: string, m: Span): Captures
    requires m.start + 4 <= m.colon < m.slash < m.dot <= |s|
  {
    Captures(s[m.start + 4..m.colon], s[m.colon + 1..m.slash], s[m.slash + 1..m.dot])
  }

  /** The capture groups of `s.match(/git@(.*):(.*)\/(.*).git/)`, or None when
      it returns null: the groups of the first match in backtracking order. */
  function Match(s: string): (r: Option<Captures>)
    ensures r.None? <==> forall m :: !IsMatch(s, m)
    ensures r.Some? ==> exists m :: && IsMatch(s, m) && r.value == GroupsOf(s, m)
                                    && forall m' :: IsMatch(s, m') ==> TriedNoLaterThan(m, m')
  {
    match Exec(s)
    case None => None
    case Some(m) => Some(GroupsOf(s, m))
  }

  /** What `git` printed on stdout, or that `execSync` threw because the
      command failed. */
  datatype CommandResult = Output(text: string) | Failed

  /** What `curentIdentity` reports. */
  datatype Report =
    | Current(identity: string)   // "Current identity: <identity>"
    | NotGitRepo                  // "This directory is not a git repository."
    | NoIdentity                  // "Could not find an established identity for this repository."
    | CommandError                // a git command failed; its error is reported

  /** `curentIdentity`: the owner group of the trimmed `origin` URL, once the
      trimmed rev-parse output is exactly `true`. */
  function CurrentIdentity(revParse: CommandResult, remote: CommandResult): (r: Report)
    ensures r.Current? ==> revParse.Output? && Trim(revParse.text) == "true" && remote.Output?
    ensures r.Current? ==> r.identity != [] && exists m :: && IsMatch(Trim(remote.text), m)
                                                         && r.identity == GroupsOf(Trim(remote.text), m).owner
                                                         && forall m' :: IsMatch(Trim(remote.text), m') ==> TriedNoLaterThan(m, m')
    ensures r == NotGitRepo <==> revParse.Output? && Trim(revParse.text) != "true"
    ensures r == NoIdentity <==> && revParse.Output? && Trim(revParse.text) == "true" && remote.Output?
                                 && (Match(Trim(remote.text)).None? || Match(Trim(remote.text)).value.owner == [])
    ensures r == CommandError <==> revParse.Failed? || (Trim(revParse.text) == "true" && remote.Failed?)
  {
    match revParse
    case Failed => CommandError
    case Output(out) =>
      if Trim(out) != "true" then NotGitRepo
      else match remote
        case Failed => CommandError
        case Output(url) =>
          var groups := Match(Trim(url));
          if groups.Some? && groups.value.owner != [] then Current(groups.value.owner) else NoIdentity
  }

  /** When rev-parse succeeds but its trimmed output is not `true` (it prints
      `false` inside a `.git` directory or a bare repository), the remote URL
      is never consulted: the report is NotGitRepo whatever `git remote
      get-url origin` would give. Outside any repository git exits non-zero,
      rev-parse is `Failed`, and the report is CommandError instead. */
  lemma NotGitRepoIgnoresRemote(revParse: string, remote1: CommandResult, remote2: CommandResult)
    requires Trim(revParse) != "true"
    ensures CurrentIdentity(Output(revParse), remote1) == CurrentIdentity(Output(revParse), remote2) == NotGitRepo
  {
  }

  /** Every character of `s` is one the wildcard `.` matches. */
  ghost predicate SingleLine(s: string)
  {
    Dots(s, 0, |s|)
  }

  /** On a URL `git@H:O/R.git` whose owner O and repository R hold no `:`,
      whose repository holds no `/` and whose parts are single lines, the
      match found is the one that splits the URL into exactly H, O and R. */
  lemma MatchOfWellFormedUrl(host: string, owner: string, repo: string)
    requires Free(owner, ':') && Free(repo, ':') && Free(repo, '/')
    requires SingleLine(host) && SingleLine(owner) && SingleLine(repo)
    ensures Match("git@" + host + ":" + owner + "/" + repo + ".git") == Some(Captures(host, owner, repo))
  {
    var s := "git@" + host + ":" + owner + "/" + repo + ".git";
    var c, l, d := 4 + |host|, 5 + |host| + |owner|, |s| - 4;
    assert |s| == 10 + |host| + |owner| + |repo|;
    forall x | 4 <= x < c ensures s[x] == host[x - 4] { }
    forall x | c < x < l ensures s[x] == owner[x - c - 1] { }
    forall x | l < x < d ensures s[x] == repo[x - l - 1] { }
    assert s[c] == ':' && s[l] == '/' && s[d] == '.';
    assert s[..4] == "git@" && s[d + 1..] == "git";
    var m0 := Span(0, c, l, d);
    assert IsMatch(s, m0);
    var m := Exec(s).value;
    assert m.start == 0;
    assert m.colon == c;
    assert m.slash == l;
    assert m.dot == d;
    assert s[0 + 4..c] == host && s[c + 1..l] == owner && s[l + 1..d] == repo;
  }

  /** The identity reported for a well-formed remote URL is its owner segment
      (the second capture group), not its host; trailing line feeds of both
      git outputs are trimmed away. */
  lemma IdentityOfWellFormedUrl(host: string, owner: string, repo: string, revTail: string, urlTail: string)
    requires Free(owner, ':') && Free(repo, ':') && Free(repo, '/')
    requires SingleLine(host) && SingleLine(owner) && SingleLine(repo)
    requires owner != []
    requires AllTrimmable(revTail) && AllTrimmable(urlTail)
    ensures CurrentIdentity(Output("true" + revTail), Output("git@" + host + ":" + owner + "/" + repo + ".git" + urlTail))
            == Current(owner)
  {
    var url := "git@" + host + ":" + owner + "/" + repo + ".git";
    RevParseTrueTrimmed(revTail);
    WellFormedUrlTrimmed(host, owner, repo, urlTail);
    MatchOfWellFormedUrl(host, owner, repo);
    ReportsOwnerGroup("true" + revTail, url + urlTail);
  }

  lemma RevParseTrueTrimmed(revTail: string)
    requires AllTrimmable(revTail)
    ensures Trim("true" + revTail) == "true"
  {
    TrimmedWhenEndsAreVisible([], "true", revTail);
    assert [] + "true" == "true";
  }

  lemma WellFormedUrlTrimmed(host: string, owner: string, repo: string, urlTail: string)
    requires AllTrimmable(urlTail)
    ensures Trim("git@" + host + ":" + owner + "/" + repo + ".git" + urlTail) == "git@" + host + ":" + owner + "/" + repo + ".git"
  {
    TrimmedWhenEndsAreVisible("git@" + host + ":" + owner + "/" + repo, ".git", urlTail);
  }

  lemma ReportsOwnerGroup(revParse: string, url: string)
    requires Trim(revParse) == "true"
    requires Match(Trim(url)).Some? && Match(Trim(url)).value.owner != []
    ensures CurrentIdentity(Output(revParse), Output(url)) == Current(Match(Trim(url)).value.owner)
  {
  }

  /** `a + b` is its own trim when it starts and ends with a visible
      character, and stays so with trailing white space added. */
  lemma TrimmedWhenEndsAreVisible(a: string, b: string, tail: string)
    requires a + b != [] && !IsTrimmable((a + b)[0]) && b != [] && !IsTrimmable(b[|b| - 1])
    requires AllTrimmable(tail)
    ensures Trim(a + b + tail) == a + b
  {
    TrimAround([], a + b, tail);
    assert [] + (a + b) + tail == a + b + tail;
  }

  /** Trimming keeps a string free of any character it was free of. */
  lemma TrimKeepsFree(s: string, c: char)
    requires Free(s, c)
    ensures Free(Trim(s), c)
  {
    var u := TrimStart(s);
    InfixKeepsFree(s, c, |s| - |u|, |s|);
    InfixKeepsFree(u, c, 0, |TrimEnd(u)|);
  }

  lemma InfixKeepsFree(s: string, c: char, lo: nat, hi: nat)
    requires lo <= hi <= |s| && Free(s, c)
    ensures Free(s[lo..hi], c)
  {
    forall x | 0 <= x < hi - lo ensures s[lo..hi][x] != c { assert s[lo..hi][x] == s[lo + x]; }
  }

  /** A remote URL without a `/` never matches the pattern, so it reports that
      no identity is established; `git@test:test.git` is such a URL. */
  lemma RemoteWithoutSlashHasNoIdentity(revParse: string, url: string)
    requires Trim(revParse) == "true"
    requires Free(url, '/')
    ensures CurrentIdentity(Output(revParse), Output(url)) == NoIdentity
  {
    TrimKeepsFree(url, '/');
    var t := Trim(url);
    assert forall m :: !IsMatch(t, m);
  }
}
