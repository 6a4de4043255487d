/**
  `GitRepository.validate_repository_url`: the nine URL shapes the cache
  accepts, written out as predicates over the stripped URL. Each predicate
  is the language of one anchored regular expression; `Word` is the class
  `[\w\-\.]` over ASCII.
*/
module GitUrl {
  import opened Common
  import opened Strings

  /** A character of `[\w\-\.]`. */
  predicate WordChar(c: char) {
    IsAlnum(c) || c == '_' || c == '-' || c == '.'
  }

  /** `[\w\-\.]+`. */
  predicate Word(s: string) {
    s != [] && forall i :: 0 <= i < |s| ==> WordChar(s[i])
  }

  /**
    `[\w\-\.]+/[\w\-\.]+(?:\.git)?`: owner, one slash, repository name. The
    optional `.git` adds nothing, since its characters are word characters.
  */
  predicate OwnerRepo(r: string) {
    match IndexOf(r, '/')
    case None => false
    case Some(k) => Word(r[..k]) && Word(r[k + 1..])
  }

  /** `OwnerRepo` followed by an optional `/`. */
  predicate OwnerRepoSlash(r: string) {
    OwnerRepo(r) || (r != [] && r[|r| - 1] == '/' && OwnerRepo(r[..|r| - 1]))
  }

  /** The three hosted forges: an `https://` URL, optionally ending in `/`, or an scp-style `git@` URL. */
  predicate HostedUrl(u: string) {
    || (StartsWith(u, "https://github.com/") && OwnerRepoSlash(u[19..]))
    || (StartsWith(u, "git@github.com:") && OwnerRepo(u[15..]))
    || (StartsWith(u, "https://gitlab.com/") && OwnerRepoSlash(u[19..]))
    || (StartsWith(u, "git@gitlab.com:") && OwnerRepo(u[15..]))
    || (StartsWith(u, "https://bitbucket.org/") && OwnerRepoSlash(u[22..]))
    || (StartsWith(u, "git@bitbucket.org:") && OwnerRepo(u[18..]))
  }

  /**
    `<host>` `sep` `.*\.git` (or `.*\.git/?` when `slashAllowed`): a nonempty
    host free of `sep`, then a tail on one line ending in `.git`.
  */
  predicate HostThenGit(r: string, sep: char, slashAllowed: bool) {
    match IndexOf(r, sep)
    case None => false
    case Some(k) =>
      var tail := r[k + 1..];
      && k > 0
      && '\n' !in tail
      && (EndsWith(tail, ".git") || (slashAllowed && EndsWith(tail, ".git/")))
  }

  /** The three generic shapes: `https?://host/...git/?`, `git@host:...git`, `ssh://git@host/...git`. */
  predicate GenericUrl(u: string) {
    || (StartsWith(u, "https://") && HostThenGit(u[8..], '/', true))
    || (StartsWith(u, "http://") && HostThenGit(u[7..], '/', true))
    || (StartsWith(u, "git@") && HostThenGit(u[4..], ':', false))
    || (StartsWith(u, "ssh://git@") && HostThenGit(u[10..], '/', false))
  }

  /** `validate_repository_url`: a missing or empty URL is refused; otherwise the stripped URL must take one of the shapes. */
  predicate ValidRepositoryUrl(url: Option<string>): (ok: bool)
    ensures ok ==> url.Some? && Strip(url.value) != []
  {
    url.Some? && url.value != [] && (HostedUrl(Strip(url.value)) || GenericUrl(Strip(url.value)))
  }

  /** Surrounding whitespace never decides validity. */
  lemma StripInsensitive(url: string)
    requires url != [] && Strip(url) != []
    ensures ValidRepositoryUrl(Some(url)) == ValidRepositoryUrl(Some(Strip(url)))
  {
    StripOfTrimmed(Strip(url));
  }

  /** A URL that is only whitespace is refused. */
  lemma BlankRefused(url: string)
    requires Strip(url) == []
    ensures !ValidRepositoryUrl(Some(url))
  {
  }

  /** Every GitHub `https://owner/name` URL is accepted, with or without a `.git` suffix in `name`. */
  lemma GitHubHttpsAccepted(owner: string, name: string)
    requires Word(owner) && Word(name)
    ensures ValidRepositoryUrl(Some("https://github.com/" + owner + "/" + name))
  {
    var r := owner + "/" + name;
    OwnerRepoOf(owner, name);
    var u := "https://github.com/" + r;
    assert u == "https://github.com/" + owner + "/" + name;
    assert u[..19] == "https://github.com/" && u[19..] == r;
    assert HostedUrl(u);
    WordEdges(r, owner, name);
    assert u[|u| - 1] == r[|r| - 1];
    StripOfTrimmed(u);
  }

  /** Every GitHub `git@github.com:owner/name` URL is accepted. */
  lemma GitHubScpAccepted(owner: string, name: string)
    requires Word(owner) && Word(name)
    ensures ValidRepositoryUrl(Some("git@github.com:" + owner + "/" + name))
  {
    var r := owner + "/" + name;
    OwnerRepoOf(owner, name);
    var v := "git@github.com:" + r;
    assert v == "git@github.com:" + owner + "/" + name;
    assert v[..15] == "git@github.com:" && v[15..] == r;
    assert HostedUrl(v);
    WordEdges(r, owner, name);
    assert v[|v| - 1] == r[|r| - 1];
    StripOfTrimmed(v);
  }

  /** A URL of another scheme, such as `ftp://`, takes none of the shapes. */
  lemma FtpRefused(url: string)
    requires StartsWith(Strip(url), "ftp://")
    ensures !ValidRepositoryUrl(Some(url))
  {
    var u := Strip(url);
    assert u[0] == 'f';
    DiffersAt(u, "https://github.com/", 0);
    DiffersAt(u, "git@github.com:", 0);
    DiffersAt(u, "https://gitlab.com/", 0);
    DiffersAt(u, "git@gitlab.com:", 0);
    DiffersAt(u, "https://bitbucket.org/", 0);
    DiffersAt(u, "git@bitbucket.org:", 0);
    DiffersAt(u, "https://", 0);
    DiffersAt(u, "http://", 0);
    DiffersAt(u, "git@", 0);
    DiffersAt(u, "ssh://git@", 0);
  }

  /** A GitHub URL naming an owner but no repository is refused unless the owner itself ends in `.git`. */
  lemma OwnerOnlyRefused(owner: string)
    requires Word(owner) && !EndsWith(owner, ".git") && !EndsWith(owner, ".git/")
    ensures !ValidRepositoryUrl(Some("https://github.com/" + owner))
  {
    var u := "https://github.com/" + owner;
    assert u[0] == 'h' && u[|u| - 1] == owner[|owner| - 1] && WordChar(owner[|owner| - 1]);
    StripOfTrimmed(u);
    OwnerOnlyNotHosted(owner);
    OwnerOnlyNotGeneric(owner);
  }

  lemma WordHasNoSlash(w: string)
    requires Word(w)
    ensures '/' !in w
  {
    forall i | 0 <= i < |w| ensures w[i] != '/' {
      assert WordChar(w[i]);
    }
  }

  lemma OwnerOnlyNotHosted(owner: string)
    requires Word(owner)
    ensures !HostedUrl("https://github.com/" + owner)
  {
    var u := "https://github.com/" + owner;
    WordHasNoSlash(owner);
    assert u[19..] == owner;
    assert !OwnerRepo(owner);
    assert owner[|owner| - 1] != '/';
    assert !OwnerRepoSlash(u[19..]);
    assert u[8] == 'g' && u[11] == 'h';
    DiffersAt(u, "git@github.com:", 0);
    DiffersAt(u, "https://gitlab.com/", 11);
    DiffersAt(u, "git@gitlab.com:", 0);
    DiffersAt(u, "https://bitbucket.org/", 8);
    DiffersAt(u, "git@bitbucket.org:", 0);
  }

  lemma OwnerOnlyNotGeneric(owner: string)
    requires Word(owner) && !EndsWith(owner, ".git") && !EndsWith(owner, ".git/")
    ensures !GenericUrl("https://github.com/" + owner)
  {
    var u := "https://github.com/" + owner;
    WordHasNoSlash(owner);
    assert u[4] == 's';
    DiffersAt(u, "http://", 4);
    DiffersAt(u, "git@", 0);
    DiffersAt(u, "ssh://git@", 0);
    var r := u[8..];
    assert r == "github.com/" + owner;
    assert r[..10] == "github.com";
    IndexOfFirst(r, '/', 10);
    assert r[11..] == owner;
  }

  lemma DiffersAt(s: string, p: string, i: nat)
    requires i < |p| && i < |s| && s[i] != p[i]
    ensures !StartsWith(s, p)
  {
    if |p| <= |s| {
      assert s[..|p|][i] == s[i];
    }
  }

  lemma OwnerRepoOf(owner: string, name: string)
    requires Word(owner) && Word(name)
    ensures OwnerRepo(owner + "/" + name)
  {
    var r := owner + "/" + name;
    assert forall i :: 0 <= i < |owner| ==> r[i] == owner[i];
    assert r[|owner|] == '/';
    assert '/' !in owner by {
      forall i | 0 <= i < |owner| ensures owner[i] != '/' {
        assert WordChar(owner[i]);
      }
    }
    IndexOfFirst(r, '/', |owner|);
    assert r[..|owner|] == owner;
    assert r[|owner| + 1..] == name;
  }

  /** When `s[k] == c` and `c` does not occur before `k`, `IndexOf` finds `k`. */
  lemma {:induction false} IndexOfFirst(s: string, c: char, k: nat)
    requires k < |s| && s[k] == c && c !in s[..k]
    ensures IndexOf(s, c) == Some(k)
    decreases k
  {
    if k > 0 {
      assert s[0] == s[..k][0];
      assert s[1..][..k - 1] == s[..k][1..];
      IndexOfFirst(s[1..], c, k - 1);
    }
  }

  /** A string built from word characters and a slash has no surrounding whitespace. */
  lemma WordEdges(r: string, owner: string, name: string)
    requires Word(owner) && Word(name) && r == owner + "/" + name
    ensures !IsSpace(r[0]) && !IsSpace(r[|r| - 1])
  {
    assert r[0] == owner[0] && WordChar(owner[0]);
    assert r[|r| - 1] == name[|name| - 1] && WordChar(name[|name| - 1]);
  }
}
