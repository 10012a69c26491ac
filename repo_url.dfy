/** The "is this a source-repository URL" test that the RubyGems and PyPI lookups
    apply to registry metadata:
    `^(scheme)(github\.com|gitlab\.com|bitbucket\.org)\/[^\/]+\/[^\/]+(\.git)?$`,
    where the RubyGems lookup admits the schemes `https://`, `git@`, `http://` and
    the PyPI lookup only `https://` and `git@`. */
module RepoUrl {
  import opened Strings

  const Hosts: seq<string> := ["github.com", "gitlab.com", "bitbucket.org"]
  const GemSchemes: seq<string> := ["https://", "git@", "http://"]
  const PipSchemes: seq<string> := ["https://", "git@"]

  /** `[^\/]+` */
  predicate IsSegment(s: string)
  {
    |s| > 0 && '/' !in s
  }

  /** What follows the host: `/owner/name`. The optional `(\.git)?` adds nothing,
      since the second `[^\/]+` can itself end in `.git`. */
  predicate IsOwnerAndName(rest: string)
  {
    && |rest| >= 1 && rest[0] == '/'
    && var t := rest[1..];
       var i := IndexOf(t, '/');
       1 <= i < |t| && IsSegment(t[i + 1..])
  }

  /** The regular expression, as a matcher: some admitted scheme and host start
      the URL and the rest is `/owner/name`. */
  predicate Matches(schemes: seq<string>, url: string)
  {
    exists scheme, host | scheme in schemes && host in Hosts ::
      StartsWith(url, scheme + host) && IsOwnerAndName(url[|scheme + host|..])
  }

  /** The pattern as a test on strings, for code that takes the test as a value. */
  function Pattern(schemes: seq<string>): string -> bool
  {
    (url: string) => Matches(schemes, url)
  }

  /** The URL of repository `owner/name` on `host`, written with `scheme`. */
  function RepoUrlOf(scheme: string, host: string, owner: string, name: string): string
  {
    scheme + host + "/" + owner + "/" + name
  }

  /** The same language, described by how its strings are built. */
  ghost predicate IsRepoShape(schemes: seq<string>, url: string)
  {
    exists scheme, host, owner, name ::
      && scheme in schemes && host in Hosts && IsSegment(owner) && IsSegment(name)
      && url == RepoUrlOf(scheme, host, owner, name)
  }

  /** The matcher accepts exactly the URLs of that shape. */
  lemma MatchesIffShape(schemes: seq<string>, url: string)
    ensures Matches(schemes, url) <==> IsRepoShape(schemes, url)
  {
    if Matches(schemes, url) {
      var scheme, host :| scheme in schemes && host in Hosts &&
        StartsWith(url, scheme + host) && IsOwnerAndName(url[|scheme + host|..]);
      MatchIsShape(schemes, url, scheme, host);
    }
    if IsRepoShape(schemes, url) {
      var scheme, host, owner, name :| && scheme in schemes && host in Hosts
        && IsSegment(owner) && IsSegment(name)
        && url == RepoUrlOf(scheme, host, owner, name);
      ShapeMatches(schemes, scheme, host, owner, name);
    }
  }

  lemma MatchIsShape(schemes: seq<string>, url: string, scheme: string, host: string)
    requires scheme in schemes && host in Hosts
    requires StartsWith(url, scheme + host) && IsOwnerAndName(url[|scheme + host|..])
    ensures IsRepoShape(schemes, url)
  {
    var owner, name := SplitUrl(url, scheme + host);
    assert url == RepoUrlOf(scheme, host, owner, name);
  }

  /** A URL that starts with `prefix` followed by `/owner/name` is cut into those parts. */
  lemma SplitUrl(url: string, prefix: string) returns (owner: string, name: string)
    requires StartsWith(url, prefix) && IsOwnerAndName(url[|prefix|..])
    ensures IsSegment(owner) && IsSegment(name) && url == prefix + "/" + owner + "/" + name
  {
    var rest := url[|prefix|..];
    var t := rest[1..];
    var i := IndexOf(t, '/');
    owner, name := t[..i], t[i + 1..];
    assert t == owner + "/" + name by {
      assert t[i] == '/';
      SplitAt(t, i);
    }
    assert rest == "/" + t by {
      SplitAt(rest, 0);
    }
    assert url == prefix + rest by {
      assert url[..|prefix|] == prefix;
    }
    Regroup(prefix, owner, name);
  }

  /** Cutting a string at `i` and rejoining the pieces, with the cut character in between. */
  lemma SplitAt(s: string, i: nat)
    requires i < |s|
    ensures s == s[..i] + [s[i]] + s[i + 1..]
  {
  }

  lemma Regroup(prefix: string, owner: string, name: string)
    ensures prefix + ("/" + (owner + "/" + name)) == prefix + "/" + owner + "/" + name
  {
  }

  lemma ShapeMatches(schemes: seq<string>, scheme: string, host: string, owner: string, name: string)
    requires scheme in schemes && host in Hosts && IsSegment(owner) && IsSegment(name)
    ensures Matches(schemes, RepoUrlOf(scheme, host, owner, name))
  {
    var prefix := scheme + host;
    var rest := "/" + owner + "/" + name;
    var url := RepoUrlOf(scheme, host, owner, name);
    assert url == prefix + rest;
    assert url[|prefix|..] == rest;
    assert rest[1..] == owner + "/" + name;
    IndexOfPrefix(owner, '/', name);
    assert rest[1..][|owner| + 1..] == name;
    assert IsOwnerAndName(rest);
    assert StartsWith(url, prefix);
  }

  /** The schemes differ between the two lookups: `http://` only counts for RubyGems. */
  lemma HttpAcceptedForGems()
    ensures Matches(GemSchemes, "http://github.com/rails/rails")
  {
    var url := "http://" + "github.com" + "/" + "rails" + "/" + "rails";
    assert url == "http://github.com/rails/rails";
    assert GemSchemes[2] == "http://" && Hosts[0] == "github.com";
    ShapeMatches(GemSchemes, "http://", "github.com", "rails", "rails");
  }

  lemma HttpRejectedForPip()
    ensures !Matches(PipSchemes, "http://github.com/pallets/flask")
  {
    var url := "http://github.com/pallets/flask";
    forall scheme, host | scheme in PipSchemes && host in Hosts
      ensures !StartsWith(url, scheme + host)
    {
      NotPrefix(url, scheme, host);
    }
  }

  lemma NotPrefix(url: string, scheme: string, host: string)
    requires url == "http://github.com/pallets/flask"
    requires scheme in PipSchemes
    ensures !StartsWith(url, scheme + host)
  {
    if scheme == "https://" {
      assert url[4] != (scheme + host)[4];
    } else {
      assert url[0] != (scheme + host)[0];
    }
  }

  /** The usual `git@host:owner/name` form is not accepted: the pattern wants a `/` after the host. */
  lemma ScpFormRejected()
    ensures !Matches(GemSchemes, "git@github.com:rails/rails")
  {
    var url := "git@github.com:rails/rails";
    forall scheme, host | scheme in GemSchemes && host in Hosts && StartsWith(url, scheme + host)
      ensures !IsOwnerAndName(url[|scheme + host|..])
    {
      ScpPrefix(url, scheme, host);
    }
  }

  lemma ScpPrefix(url: string, scheme: string, host: string)
    requires url == "git@github.com:rails/rails"
    requires scheme in GemSchemes && host in Hosts && StartsWith(url, scheme + host)
    ensures |scheme + host| == 14 && url[14] == ':'
  {
    assert url[0] == (scheme + host)[0];
    assert scheme == "git@";
    assert url[4] == (scheme + host)[4];
    assert url[7] == (scheme + host)[7];
    assert host == "github.com";
  }
}
