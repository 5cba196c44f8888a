/** Where the directory keeps each kind of document, and how `getCluster`
    recovers a cluster's environment from the path the all-clusters map holds. */
module Paths {
  import opened Results

  /** `SA_PATH`: the sub-tree holding service-account keys. */
  const ServiceAccountDir := "credentials/google/"

  function SecretPath(prefix: string, name: string, environment: string): string
  {
    prefix + "data/clusters/" + environment + "/" + name
  }

  function AllClustersPath(prefix: string): string
  {
    prefix + "data/clusters/all"
  }

  function SecretSAPath(prefix: string, addr: string): string
  {
    prefix + "data/" + ServiceAccountDir + addr
  }

  function ChannelPath(prefix: string, channel: string): string
  {
    prefix + "data/channels/" + channel
  }

  // ---------------------------------------------------------------------
  // The four kinds of path never collide.

  /** Character `|prefix| + 6` tells the kinds apart: `l` for clusters,
      `h` for channels, `r` for credentials. */
  lemma PathKinds(prefix: string, name: string, environment: string, channel: string, addr: string)
    ensures SecretPath(prefix, name, environment)[|prefix| + 6] == 'l'
    ensures AllClustersPath(prefix)[|prefix| + 6] == 'l'
    ensures ChannelPath(prefix, channel)[|prefix| + 6] == 'h'
    ensures SecretSAPath(prefix, addr)[|prefix| + 6] == 'r'
  {
    var p := |prefix|;
    assert SecretPath(prefix, name, environment)[p + 6] == "data/clusters/"[6];
    assert ChannelPath(prefix, channel)[p + 6] == "data/channels/"[6];
    assert SecretSAPath(prefix, addr)[p + 6] == ("data/" + ServiceAccountDir)[6];
  }

  lemma ChannelPathIsNotClusterPath(prefix: string, channel: string, name: string, environment: string)
    ensures ChannelPath(prefix, channel) != SecretPath(prefix, name, environment)
    ensures ChannelPath(prefix, channel) != AllClustersPath(prefix)
    ensures ChannelPath(prefix, channel) != SecretSAPath(prefix, name)
  {
    PathKinds(prefix, name, environment, channel, name);
  }

  lemma SecretSAPathIsNotClusterPath(prefix: string, addr: string, name: string, environment: string)
    ensures SecretSAPath(prefix, addr) != SecretPath(prefix, name, environment)
    ensures SecretSAPath(prefix, addr) != AllClustersPath(prefix)
  {
    PathKinds(prefix, name, environment, addr, addr);
  }

  /** A cluster document never sits at the all-clusters path: its path has a
      `/` after the environment, and `all` has none. */
  lemma SecretPathIsNotAllClustersPath(prefix: string, name: string, environment: string)
    ensures SecretPath(prefix, name, environment) != AllClustersPath(prefix)
  {
    var s := SecretPath(prefix, name, environment);
    var all := AllClustersPath(prefix);
    if |s| == |all| {
      var k := |prefix| + 14 + |environment|;
      assert s[k] == '/';
      assert all[|prefix| + 14..] == "all";
      assert all[k] == all[|prefix| + 14..][k - |prefix| - 14];
    }
  }

  lemma SecretPathInjective(prefix: string, name: string, e1: string, e2: string)
    requires SecretPath(prefix, name, e1) == SecretPath(prefix, name, e2)
    ensures e1 == e2
  {
    var s1 := SecretPath(prefix, name, e1);
    var s2 := SecretPath(prefix, name, e2);
    var n := |prefix| + 14;
    assert s1[n..n + |e1|] == e1;
    assert s2[n..n + |e2|] == e2;
  }

  lemma ChannelPathInjective(prefix: string, c1: string, c2: string)
    requires ChannelPath(prefix, c1) == ChannelPath(prefix, c2)
    ensures c1 == c2
  {
    var n := |prefix| + 14;
    assert ChannelPath(prefix, c1)[n..] == c1;
    assert ChannelPath(prefix, c2)[n..] == c2;
  }

  lemma SecretSAPathInjective(prefix: string, a1: string, a2: string)
    requires SecretSAPath(prefix, a1) == SecretSAPath(prefix, a2)
    ensures a1 == a2
  {
    var n := |prefix| + 5 + |ServiceAccountDir|;
    assert SecretSAPath(prefix, a1)[n..] == a1;
    assert SecretSAPath(prefix, a2)[n..] == a2;
  }

  // ---------------------------------------------------------------------
  // The regular expression /clusters\/([^/]+)\// of getCluster.

  const Marker := "clusters/"

  /** The first `/` at or after `i`, or `|s|` when there is none. */
  function SlashFrom(s: string, i: nat): (j: nat)
    requires i <= |s|
    ensures i <= j <= |s|
    ensures forall k :: i <= k < j ==> s[k] != '/'
    ensures j < |s| ==> s[j] == '/'
    decreases |s| - i
  {
    if i == |s| || s[i] == '/' then i else SlashFrom(s, i + 1)
  }

  /** The expression matches at index `i`: the marker, then at least one
      character other than `/`, then a `/`. Since `[^/]+` cannot cross a `/`,
      the run it matches is the whole run up to the next `/`. */
  predicate MatchAt(s: string, i: nat)
  {
    MarkerAt(s, i) &&
    var j := SlashFrom(s, i + |Marker|); i + |Marker| < j < |s|
  }

  /** The first capture group of the match at `i`. */
  function Capture(s: string, i: nat): string
    requires MatchAt(s, i)
  {
    s[i + |Marker|..SlashFrom(s, i + |Marker|)]
  }

  /** `exec` from index `i`: the leftmost match wins. */
  function SearchFrom(s: string, i: nat): (r: Option<string>)
    requires i <= |s|
    ensures r.None? <==> forall k: nat :: i <= k ==> !MatchAt(s, k)
    ensures r.Some? ==>
              exists k: nat :: i <= k && MatchAt(s, k) && r.value == Capture(s, k) &&
                               forall k': nat :: i <= k' < k ==> !MatchAt(s, k')
    decreases |s| - i
  {
    if MatchAt(s, i) then Some(Capture(s, i))
    else if i == |s| then None
    else SearchFrom(s, i + 1)
  }

  /** `/clusters\/([^/]+)\//.exec(path)[1]`, or None where `exec` returns null. */
  function EnvFromPath(path: string): Option<string>
  {
    SearchFrom(path, 0)
  }

  /** `clusters/` occurs in `s` at index `i`. */
  predicate MarkerAt(s: string, i: nat)
  {
    i + |Marker| <= |s| && s[i..i + |Marker|] == Marker
  }

  ghost predicate HasNoMarker(prefix: string)
  {
    forall i: nat :: !MarkerAt(prefix, i)
  }

  /** Scanning a copy of `e` that is followed by a `/` stops where
      scanning `e` itself stops. */
  lemma SlashFromEmbedded(s: string, base: nat, e: string)
    requires base + |e| < |s|
    requires s[base..base + |e|] == e && s[base + |e|] == '/'
    ensures SlashFrom(s, base) == base + SlashFrom(e, 0)
  {
    var je := SlashFrom(e, 0);
    forall k | base <= k < base + je
      ensures s[k] != '/'
    {
      assert s[k] == s[base..base + |e|][k - base];
    }
    if je < |e| {
      assert s[base + je] == s[base..base + |e|][je];
    }
  }

  /** Before the `clusters/` the path builder adds, a prefix without a
      marker of its own offers the expression no match. */
  lemma NoMatchInPrefix(prefix: string, name: string, environment: string)
    requires HasNoMarker(prefix)
    ensures forall k: nat :: k < |prefix| + 5 ==> !MatchAt(SecretPath(prefix, name, environment), k)
  {
    var s := SecretPath(prefix, name, environment);
    var p := |prefix|;
    forall k: nat | k < p + 5
      ensures !MatchAt(s, k)
    {
      if k + |Marker| <= p {
        assert !MarkerAt(prefix, k);
        assert s[k..k + |Marker|] == prefix[k..k + |Marker|];
      } else if k <= p {
        assert s[p] == 'd';
        assert s[k..k + |Marker|][p - k] == 'd';
        assert 'd' !in Marker;
      } else {
        assert s[k] in "ata/";
        assert s[k..k + |Marker|][0] == s[k];
      }
    }
  }

  /** When nothing matches before `at` and something matches at `at`, that
      match is the one `exec` reports. */
  lemma LeftmostMatch(s: string, at: nat)
    requires MatchAt(s, at)
    requires forall k: nat :: k < at ==> !MatchAt(s, k)
    ensures EnvFromPath(s) == Some(Capture(s, at))
  {
    var r := EnvFromPath(s);
    assert r.Some?;
    var m: nat :| MatchAt(s, m) && r.value == Capture(s, m) && forall k': nat :: k' < m ==> !MatchAt(s, k');
    assert m == at;
  }

  /** The pieces a cluster path is built from, by position. */
  lemma SecretPathParts(prefix: string, name: string, environment: string)
    ensures var s := SecretPath(prefix, name, environment);
            var base := |prefix| + 5 + |Marker|;
            && |s| == base + |environment| + 1 + |name|
            && s[|prefix| + 5..base] == Marker
            && s[base..base + |environment|] == environment
            && s[base + |environment|] == '/'
  {
  }

  /** The `clusters/` the path builder adds starts a match, and its capture
      is the environment's first segment. */
  lemma MatchInSecretPath(prefix: string, name: string, environment: string)
    requires environment != "" && environment[0] != '/'
    ensures var s := SecretPath(prefix, name, environment);
            && MatchAt(s, |prefix| + 5)
            && Capture(s, |prefix| + 5) == environment[..SlashFrom(environment, 0)]
  {
    var s := SecretPath(prefix, name, environment);
    var at := |prefix| + 5;
    var base := at + |Marker|;
    SecretPathParts(prefix, name, environment);
    SlashFromEmbedded(s, base, environment);
    var je := SlashFrom(environment, 0);
    assert MarkerAt(s, at);
    assert s[base..base + je] == s[base..base + |environment|][..je];
  }

  /** The expression gives back the first segment of the environment a
      cluster path was built from, provided that segment is not empty and the
      prefix contains no `clusters/` of its own. */
  lemma EnvFromSecretPath(prefix: string, name: string, environment: string)
    requires environment != "" && environment[0] != '/'
    requires HasNoMarker(prefix)
    ensures EnvFromPath(SecretPath(prefix, name, environment))
            == Some(environment[..SlashFrom(environment, 0)])
  {
    MatchInSecretPath(prefix, name, environment);
    NoMatchInPrefix(prefix, name, environment);
    LeftmostMatch(SecretPath(prefix, name, environment), |prefix| + 5);
  }

  /** An environment that is one non-empty segment comes back whole: the
      path `getCluster` reads is the one `registerCluster` wrote. */
  lemma EnvFromSecretPathWhole(prefix: string, name: string, environment: string)
    requires environment != "" && '/' !in environment
    requires HasNoMarker(prefix)
    ensures EnvFromPath(SecretPath(prefix, name, environment)) == Some(environment)
  {
    EnvFromSecretPath(prefix, name, environment);
    assert environment[..|environment|] == environment;
  }

  /** An environment with a `/` in it is cut at the first `/`, so the
      cluster is looked up under a different path than it was saved at. */
  lemma EnvWithSlashIsCut()
    ensures EnvFromPath(SecretPath("kv/", "c1", "eu/west")) == Some("eu")
  {
    forall i: nat
      ensures !MarkerAt("kv/", i)
    {
    }
    EnvFromSecretPath("kv/", "c1", "eu/west");
    assert SlashFrom("eu/west", 2) == 2;
    assert SlashFrom("eu/west", 1) == 2;
    assert SlashFrom("eu/west", 0) == 2;
    assert "eu/west"[..2] == "eu";
  }
}
