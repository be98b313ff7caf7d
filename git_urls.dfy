/**
 * The two URL helpers of `GitOperations`: the web address of the `origin`
 * remote, and the address of the page that opens a pull request from the
 * current branch into a base branch. The repository itself is not modelled:
 * the remote URL and the current branch name are parameters.
 */
module GitUrls {
  import opened PyText

  const SshPrefix: string := "git@github.com:"
  const HttpsPrefix: string := "https://github.com/"
  const GitSuffix: string := ".git"
  const CompareSegment: string := "/compare/"
  const RangeSeparator: string := "..."
  const ExpandQuery: string := "?expand=1"

  /** `get_remote_url`, given the URL of `origin`: an SSH address of GitHub
      has every `git@github.com:` rewritten to `https://github.com/`; then
      one trailing `.git` is dropped. */
  function RemoteUrl(url: string): (r: string)
    ensures !StartsWith(url, SshPrefix) ==>
      r + (if EndsWith(url, GitSuffix) then GitSuffix else "") == url
  {
    var https := if StartsWith(url, SshPrefix) then Replace(url, SshPrefix, HttpsPrefix) else url;
    if EndsWith(https, GitSuffix) then
      assert https == https[..|https| - 4] + GitSuffix;
      https[..|https| - 4]
    else
      https
  }

  lemma SshPrefixNonOverlapping()
    ensures NonOverlapping(SshPrefix)
  {
    UniqueLastNonOverlapping(SshPrefix);
  }

  /** An SSH address becomes the HTTPS address of the same repository, with
      its `.git` dropped, when the prefix occurs only at its start. */
  lemma SshBecomesHttps(rest: string)
    requires NoOccurrence(rest, SshPrefix)
    ensures RemoteUrl(SshPrefix + rest) ==
      HttpsPrefix + (if EndsWith(rest, GitSuffix) then rest[..|rest| - 4] else rest)
  {
    var url := SshPrefix + rest;
    DropPrefix(SshPrefix, rest);
    assert StartsWith(url, SshPrefix);
    SshPrefixNonOverlapping();
    assert "" + SshPrefix + rest == url;
    ReplaceSingle("", SshPrefix, rest, HttpsPrefix);
    var https := HttpsPrefix + rest;
    assert Replace(url, SshPrefix, HttpsPrefix) == https;
    if |rest| >= 4 {
      assert https[|https| - 4..] == rest[|rest| - 4..];
      if EndsWith(rest, GitSuffix) {
        assert https[..|https| - 4] == HttpsPrefix + rest[..|rest| - 4];
      }
    } else {
      var j := |HttpsPrefix| - 1 - (|https| - 4);
      assert https[|https| - 4..][j] == '/' != GitSuffix[j];
      assert !EndsWith(https, GitSuffix);
      assert !EndsWith(rest, GitSuffix);
    }
  }

  /** Only one `.git` is dropped: a doubled suffix leaves one behind. */
  lemma GitSuffixDroppedOnce(u: string)
    requires !StartsWith(u + GitSuffix + GitSuffix, SshPrefix)
    ensures RemoteUrl(u + GitSuffix + GitSuffix) == u + GitSuffix
  {
    var url := u + GitSuffix + GitSuffix;
    assert url[|url| - 4..] == GitSuffix;
    assert url[..|url| - 4] == u + GitSuffix;
  }

  /** `create_pr_url`, given the current branch name: the page address is
      the remote's address, `/compare/`, the range `base...current`, then
      the expand query. */
  function PrUrl(url: string, base: string, current: string): (r: string)
    ensures StartsWith(r, RemoteUrl(url) + CompareSegment) && EndsWith(r, ExpandQuery)
    ensures |RemoteUrl(url) + CompareSegment| <= |r| - |ExpandQuery| &&
      r[|RemoteUrl(url) + CompareSegment|..|r| - |ExpandQuery|] == base + RangeSeparator + current
  {
    var head := RemoteUrl(url) + CompareSegment;
    ConcatAssoc(head, base, RangeSeparator);
    ConcatAssoc(head, base + RangeSeparator, current);
    Between(head, base + RangeSeparator + current, ExpandQuery);
    RemoteUrl(url) + CompareSegment + base + RangeSeparator + current + ExpandQuery
  }

  /** A base branch git accepts holds no `..` and does not end with `.`. */
  predicate ValidBase(base: string) {
    NoOccurrence(base, "..") && (base == [] || base[|base| - 1] != '.')
  }

  /** The branches can be read back from the page address: the range splits
      at its first `...` into the base and the current branch. */
  lemma PrUrlBranches(url: string, base: string, current: string)
    requires ValidBase(base)
    ensures var r, lo := PrUrl(url, base, current), |RemoteUrl(url) + CompareSegment|;
      SplitOnce(r[lo..|r| - |ExpandQuery|], RangeSeparator) == [base, current]
  {
    RangeSplitsAtBase(base, current);
  }

  /** The first `...` of `base...current` is the separator itself. */
  lemma RangeSplitsAtBase(base: string, current: string)
    requires ValidBase(base)
    ensures SplitOnce(base + RangeSeparator + current, RangeSeparator) == [base, current]
  {
    var s := base + RangeSeparator + current;
    var n := |base|;
    assert OccursAt(s, RangeSeparator, n);
    var r := SplitOnce(s, RangeSeparator);
    assert |r| == 2;
    forall j | 0 <= j < n ensures !OccursAt(s, RangeSeparator, j) {
      if j + 1 < n {
        assert !OccursAt(base, "..", j);
        assert s[j] == base[j] && s[j + 1] == base[j + 1];
      } else {
        assert s[j] == base[n - 1];
      }
    }
    var m := |r[0]|;
    assert m == n;
    assert r[0] == s[..n] == base;
    assert r[1] == s[n + 3..] == current;
    assert r == [r[0], r[1]];
  }

  lemma Between(a: string, m: string, z: string)
    ensures StartsWith(a + m + z, a) && EndsWith(a + m + z, z)
    ensures (a + m + z)[|a|..|a + m + z| - |z|] == m
  {
    var s := a + m + z;
    assert s[..|a|] == a;
    assert s[|s| - |z|..] == z;
    assert s[|a|..|s| - |z|] == m;
  }

  /** A worked case: the SSH remote of `o/r` and the branches `main` and
      `feat`. */
  lemma PrUrlOfSshRemote()
    ensures PrUrl("git@github.com:o/r.git", "main", "feat") ==
      "https://github.com/o/r/compare/main...feat?expand=1"
  {
    RemoteUrlOfSshRemote();
    CompareUrlText();
  }

  lemma CompareUrlText()
    ensures "https://github.com/o/r" + CompareSegment + "main" + RangeSeparator + "feat" + ExpandQuery ==
      "https://github.com/o/r/compare/main...feat?expand=1"
  {
    var head := "https://github.com/o/r" + CompareSegment;
    assert head == "https://github.com/o/r/compare/";
    var range := "main" + RangeSeparator + "feat";
    assert range == "main...feat";
    ConcatAssoc(head, "main", RangeSeparator);
    ConcatAssoc(head, "main" + RangeSeparator, "feat");
    assert head + range + ExpandQuery == "https://github.com/o/r/compare/main...feat?expand=1";
  }

  lemma RemoteUrlOfSshRemote()
    ensures RemoteUrl("git@github.com:o/r.git") == "https://github.com/o/r"
  {
    var rest := "o/r.git";
    assert NoOccurrence(rest, SshPrefix);
    assert "git@github.com:o/r.git" == SshPrefix + rest;
    SshBecomesHttps(rest);
    assert EndsWith(rest, GitSuffix);
    assert rest[..3] == "o/r";
    assert HttpsPrefix + "o/r" == "https://github.com/o/r";
  }
}
