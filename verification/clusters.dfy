/** The cluster side of the directory: the all-clusters map (slug to document
    path), the per-cluster documents, and the operations that keep a
    cluster's `channels` field and the channels' member lists in step. */
module Clusters {
  import opened Results
  import opened SortedLists
  import opened VaultStore
  import opened Paths
  import opened Channels

  function ClustersPath(v: Vault): string
  {
    AllClustersPath(v.prefix)
  }

  // ---------------------------------------------------------------------
  // Cluster documents

  /** None of the props would change the stored document: each key already
      holds a deep-equal value (`needsUpdate` is false), deep equality being
      `==` on canonical values (see `Value`). */
  predicate Unchanged(previous: Doc, props: Doc)
  {
    forall k :: k in props ==> Field(previous, k) == props[k]
  }

  /** _saveClusterData: merge `props` over the stored cluster document,
      skipping the write when nothing would change. */
  function SaveClusterData(v: Vault, props: Doc, slug: string, environment: string): (r: Vault)
    ensures SameOutside(v, r, {SecretPath(v.prefix, slug, environment)})
    ensures var path := SecretPath(v.prefix, slug, environment);
            && (forall k :: k in props ==> Field(ReadDoc(r, path), k) == props[k])
            && (forall k :: k !in props ==> Field(ReadDoc(r, path), k) == Field(ReadDoc(v, path), k))
            && (Unchanged(ReadDoc(v, path), props) ==> r == v)
            && (!Unchanged(ReadDoc(v, path), props) ==> path in r.docs && Stored(r.docs[path]))
  {
    var path := SecretPath(v.prefix, slug, environment);
    var previous := ReadDoc(v, path);
    if Unchanged(previous, props) then v
    else Put(v, path, Clean(previous + props))
  }

  /** Saving the same props twice is saving them once: the second save finds
      every key already holding its value and writes nothing. */
  lemma SaveClusterDataIdempotent(v: Vault, props: Doc, slug: string, environment: string)
    ensures var once := SaveClusterData(v, props, slug, environment);
            SaveClusterData(once, props, slug, environment) == once
  {
    var once := SaveClusterData(v, props, slug, environment);
    assert Unchanged(ReadDoc(once, SecretPath(v.prefix, slug, environment)), props);
  }

  /** The environment a cluster document names, as it prints in a path. */
  function EnvironmentOf(cluster: Doc): string
  {
    TemplateText(Field(cluster, "environment"))
  }

  /** `channels` of a cluster document with the `= []` default of
      addClusterToChannel. */
  function ChannelsOrEmpty(cluster: Doc): Option<seq<string>>
  {
    match Field(cluster, "channels")
    case Undefined => Some([])
    case Strs(l) => Some(l)
    case _ => None
  }

  /** `channels` of a cluster document with no default, as
      removeClusterFromChannel and unregisterCluster read it. */
  function ChannelsStrict(cluster: Doc): Option<seq<string>>
  {
    match Field(cluster, "channels")
    case Strs(l) => Some(l)
    case _ => None
  }

  // ---------------------------------------------------------------------
  // The all-clusters map

  /** The map as _ensureClusterExists reads it: a missing document is an
      error here, not an empty map. */
  function ClusterMap(v: Vault): Result<map<string, string>>
  {
    match Lookup(v, ClustersPath(v))
    case None => Err(Unreadable(ClustersPath(v)))
    case Some(d) =>
      match Field(d, "value")
      case StrMap(m) => Ok(m)
      case _ => Err(Unreadable(ClustersPath(v)))
  }

  /** `map[slug]` is truthy. */
  predicate Registered(m: map<string, string>, slug: string)
  {
    slug in m && m[slug] != ""
  }

  /** _ensureClusterExists */
  function EnsureClusterExists(v: Vault, slug: string): (r: Result<()>)
    ensures r.Ok? <==> ClusterMap(v).Ok? && Registered(ClusterMap(v).value, slug)
    ensures ClusterMap(v).Ok? && !Registered(ClusterMap(v).value, slug) ==> r == Err(ClusterMissing(slug))
  {
    match ClusterMap(v)
    case Err(e) => Err(e)
    case Ok(m) => if Registered(m, slug) then Ok(()) else Err(ClusterMissing(slug))
  }

  /** The environment getCluster reads the cluster under: taken back out of
      the cluster's entry in the map by the regular expression. */
  function ClusterEnv(v: Vault, slug: string): Result<string>
  {
    match ClusterMap(v)
    case Err(e) => Err(e)
    case Ok(m) =>
      if !Registered(m, slug) then Err(ClusterMissing(slug))
      else
        match EnvFromPath(m[slug])
        case None => Err(NoEnvironment(m[slug]))
        case Some(environment) => Ok(environment)
  }

  /** getCluster: the cluster's document, empty when nothing is stored at
      the path its map entry names. */
  function GetCluster(v: Vault, slug: string): (r: Result<Doc>)
    ensures EnsureClusterExists(v, slug).Err? ==> r == Err(EnsureClusterExists(v, slug).error)
  {
    match ClusterEnv(v, slug)
    case Err(e) => Err(e)
    case Ok(environment) => Ok(ReadDoc(v, SecretPath(v.prefix, slug, environment)))
  }

  /** A store whose all-clusters map is as it was sends getCluster to the
      same document path. */
  lemma GetClusterAfter(v: Vault, w: Vault, slug: string)
    requires w.prefix == v.prefix && Lookup(w, ClustersPath(v)) == Lookup(v, ClustersPath(v))
    ensures ClusterEnv(w, slug) == ClusterEnv(v, slug)
    ensures ClusterEnv(v, slug).Ok? ==>
              GetCluster(w, slug) == Ok(ReadDoc(w, SecretPath(v.prefix, slug, ClusterEnv(v, slug).value)))
  {
    assert ClusterMap(w) == ClusterMap(v);
  }

  /** listClusters: every key of the map, sorted. */
  ghost function ListClusters(v: Vault): (r: Result<seq<string>>)
    ensures r.Ok? <==> ClusterMap(v).Ok?
    ensures r.Ok? ==> Sorted(r.value) && Distinct(r.value)
    ensures r.Ok? ==> forall s :: s in r.value <==> s in ClusterMap(v).value
  {
    match Field(ReadDoc(v, ClustersPath(v)), "value")
    case StrMap(m) => Ok(SortedElements(m.Keys))
    case _ => Err(Unreadable(ClustersPath(v)))
  }

  /** The map as registerCluster reads it: a missing map is empty. */
  function IndexMap(v: Vault): Option<map<string, string>>
  {
    match Field(ReadDoc(v, ClustersPath(v)), "value")
    case Undefined => Some(map[])
    case StrMap(m) => Some(m)
    case _ => None
  }

  /** The last step of registerCluster: record the cluster's document path
      in the map, unless the map already records exactly that path. */
  function IndexCluster(v: Vault, slug: string, path: string): (r: Step<()>)
    ensures SameOutside(v, r.vault, {ClustersPath(v)})
    ensures IndexMap(v).None? ==> r == Step(v, Err(Unreadable(ClustersPath(v))))
    ensures IndexMap(v).Some? ==>
              r.result.Ok? && ClusterMap(r.vault) == Ok(IndexMap(v).value[slug := path])
    ensures IndexMap(v).Some? && slug in IndexMap(v).value && IndexMap(v).value[slug] == path ==>
              r.vault == v
  {
    match IndexMap(v)
    case None => Step(v, Err(Unreadable(ClustersPath(v))))
    case Some(m) =>
      if slug in m && m[slug] == path then
        assert m[slug := path] == m;
        Step(v, Ok(()))
      else Step(Put(v, ClustersPath(v), ValueDoc(StrMap(m[slug := path]))), Ok(()))
  }

  // ---------------------------------------------------------------------
  // Membership

  /** The cluster document addClusterToChannel and removeClusterFromChannel
      write back to: named by the environment field of the document
      getCluster returned. */
  function WrittenPath(v: Vault, cluster: Doc, slug: string): string
  {
    SecretPath(v.prefix, slug, EnvironmentOf(cluster))
  }

  /** A store change confined to `paths` leaves the member list of a channel
      whose path is not among them as it was. */
  lemma MembersOutside(v: Vault, w: Vault, paths: set<string>, channel: string)
    requires SameOutside(v, w, paths) && ChannelPath(v.prefix, channel) !in paths
    ensures Members(w, channel) == Members(v, channel)
  {
    assert ReadDoc(w, ChannelPath(v.prefix, channel)) == ReadDoc(v, ChannelPath(v.prefix, channel));
  }

  /** Two channels have the same member-list path only when they are the
      same channel, and no member-list path is a cluster path. */
  lemma ChannelPathsApart(prefix: string, c: string, channel: string, slug: string, environment: string)
    ensures c != channel ==> ChannelPath(prefix, c) != ChannelPath(prefix, channel)
    ensures ChannelPath(prefix, c) != SecretPath(prefix, slug, environment)
    ensures ChannelPath(prefix, c) != AllClustersPath(prefix)
  {
    if ChannelPath(prefix, c) == ChannelPath(prefix, channel) {
      ChannelPathInjective(prefix, c, channel);
    }
    ChannelPathIsNotClusterPath(prefix, c, slug, environment);
  }

  /** The write half of addClusterToChannel, once both reads succeeded: the
      member-list side, then the cluster side (`channels` is the cluster's
      current list, `environment` names its document). */
  function Link(v: Vault, slug: string, channel: string, channels: seq<string>, environment: string): (r: Step<()>)
    ensures SameOutside(v, r.vault, {ChannelPath(v.prefix, channel), SecretPath(v.prefix, slug, environment)})
    ensures r.result.Ok? <==> Members(v, channel).Some?
  {
    var side := AddToMembers(v, slug, channel);
    var updated := AddName(channels, channel);
    Step(SaveClusterData(side.vault, map["channels" := Strs(updated)], slug, environment), side.result)
  }

  /** The write half of removeClusterFromChannel, once the reads succeeded. */
  function Unlink(v: Vault, slug: string, channel: string, channels: seq<string>, environment: string): (r: Step<()>)
    ensures SameOutside(v, r.vault, {ChannelPath(v.prefix, channel), SecretPath(v.prefix, slug, environment)})
    ensures r.result.Ok? <==> Members(v, channel).Some?
  {
    var side := RemoveFromMembers(v, slug, channel);
    Step(SaveClusterData(side.vault, map["channels" := Strs(Without(channels, channel))], slug, environment), side.result)
  }

  lemma LinkJoinsMembers(v: Vault, slug: string, channel: string, channels: seq<string>, environment: string)
    requires Members(v, channel).Some?
    ensures var r := Link(v, slug, channel, channels, environment).vault;
            Members(r, channel).Some? && Added(Members(v, channel).value, Members(r, channel).value, slug)
  {
    var side := AddToMembers(v, slug, channel);
    ChannelPathIsNotClusterPath(v.prefix, channel, slug, environment);
    MembersOutside(side.vault, Link(v, slug, channel, channels, environment).vault,
                   {SecretPath(v.prefix, slug, environment)}, channel);
  }

  lemma UnlinkDropsMember(v: Vault, slug: string, channel: string, channels: seq<string>, environment: string)
    requires Members(v, channel).Some?
    ensures var r := Unlink(v, slug, channel, channels, environment).vault;
            Members(r, channel).Some? && Removed(Members(v, channel).value, Members(r, channel).value, slug)
  {
    var side := RemoveFromMembers(v, slug, channel);
    ChannelPathIsNotClusterPath(v.prefix, channel, slug, environment);
    MembersOutside(side.vault, Unlink(v, slug, channel, channels, environment).vault,
                   {SecretPath(v.prefix, slug, environment)}, channel);
  }

  /** Saving a new `channels` list puts exactly that list in the field. */
  lemma SaveChannelsField(v: Vault, slug: string, environment: string, updated: seq<string>)
    ensures var r := SaveClusterData(v, map["channels" := Strs(updated)], slug, environment);
            Field(ReadDoc(r, SecretPath(v.prefix, slug, environment)), "channels") == Strs(updated)
  {
    assert "channels" in map["channels" := Strs(updated)];
  }

  lemma LinkJoinsChannels(v: Vault, slug: string, channel: string, channels: seq<string>, environment: string)
    ensures var r := Link(v, slug, channel, channels, environment).vault;
            var path := SecretPath(v.prefix, slug, environment);
            Field(ReadDoc(r, path), "channels") == Strs(AddName(channels, channel))
  {
    var updated := AddName(channels, channel);
    var side := AddToMembers(v, slug, channel);
    SaveChannelsField(side.vault, slug, environment, updated);
  }

  lemma UnlinkDropsChannel(v: Vault, slug: string, channel: string, channels: seq<string>, environment: string)
    ensures var r := Unlink(v, slug, channel, channels, environment).vault;
            var path := SecretPath(v.prefix, slug, environment);
            Field(ReadDoc(r, path), "channels").Strs? && Removed(channels, Field(ReadDoc(r, path), "channels").items, channel)
  {
    FilterRemoves(channels, channel);
    var side := RemoveFromMembers(v, slug, channel);
    SaveChannelsField(side.vault, slug, environment, Without(channels, channel));
  }

  /** The member-list write of either half leaves every cluster document as
      it was; the cluster-side write changes the `channels` field only. */
  lemma WriteHalfKeepsField(v: Vault, side: Vault, w: Vault, slug: string, channel: string, updated: seq<string>,
                            environment: string, name: string, e: string, k: string)
    requires SameOutside(v, side, {ChannelPath(v.prefix, channel)})
    requires w == SaveClusterData(side, map["channels" := Strs(updated)], slug, environment)
    requires k != "channels"
    ensures Field(ReadDoc(w, SecretPath(v.prefix, name, e)), k) == Field(ReadDoc(v, SecretPath(v.prefix, name, e)), k)
  {
    ChannelPathIsNotClusterPath(v.prefix, channel, name, e);
    assert ReadDoc(side, SecretPath(v.prefix, name, e)) == ReadDoc(v, SecretPath(v.prefix, name, e));
  }

  lemma LinkKeepsField(v: Vault, slug: string, channel: string, channels: seq<string>, environment: string,
                       name: string, e: string, k: string)
    requires k != "channels"
    ensures var r := Link(v, slug, channel, channels, environment).vault;
            Field(ReadDoc(r, SecretPath(v.prefix, name, e)), k) == Field(ReadDoc(v, SecretPath(v.prefix, name, e)), k)
  {
    var side := AddToMembers(v, slug, channel);
    var updated := AddName(channels, channel);
    WriteHalfKeepsField(v, side.vault, Link(v, slug, channel, channels, environment).vault, slug, channel, updated,
                        environment, name, e, k);
  }

  lemma UnlinkKeepsField(v: Vault, slug: string, channel: string, channels: seq<string>, environment: string,
                         name: string, e: string, k: string)
    requires k != "channels"
    ensures var r := Unlink(v, slug, channel, channels, environment).vault;
            Field(ReadDoc(r, SecretPath(v.prefix, name, e)), k) == Field(ReadDoc(v, SecretPath(v.prefix, name, e)), k)
  {
    var side := RemoveFromMembers(v, slug, channel);
    WriteHalfKeepsField(v, side.vault, Unlink(v, slug, channel, channels, environment).vault, slug, channel,
                        Without(channels, channel), environment, name, e, k);
  }

  // ---------------------------------------------------------------------
  // addClusterToChannel and removeClusterFromChannel

  /** addClusterToChannel: with the cluster registered and the channel
      listed, the channel joins the cluster's `channels` field and the slug
      joins the channel's member list. Nothing is written unless both reads
      succeed. */
  function AddClusterToChannel(v: Vault, slug: string, channel: string): (r: Step<()>)
    ensures GetCluster(v, slug).Err? ==> r == Step(v, Err(GetCluster(v, slug).error))
    ensures GetCluster(v, slug).Ok? && !Listed(v, channel) ==> r.vault == v && r.result.Err?
    ensures r.vault.prefix == v.prefix
  {
    match GetCluster(v, slug)
    case Err(e) => Step(v, Err(e))
    case Ok(cluster) =>
      match EnsureChannelsExist(v, [channel])
      case Err(e) => Step(v, Err(e))
      case Ok(_) =>
        match ChannelsOrEmpty(cluster)
        case None => Step(v, Err(Unreadable(WrittenPath(v, cluster, slug))))
        case Some(channels) => Link(v, slug, channel, channels, EnvironmentOf(cluster))
  }

  /** removeClusterFromChannel: with the cluster registered and the channel
      listed, the channel leaves the cluster's `channels` field (which may be
      left as `[]`) and the slug leaves the channel's member list. A cluster
      document without a `channels` field makes it fail before any write. */
  function RemoveClusterFromChannel(v: Vault, slug: string, channel: string): (r: Step<()>)
    ensures GetCluster(v, slug).Err? ==> r == Step(v, Err(GetCluster(v, slug).error))
    ensures GetCluster(v, slug).Ok? && !Listed(v, channel) ==> r.vault == v && r.result.Err?
    ensures GetCluster(v, slug).Ok? && ChannelsStrict(GetCluster(v, slug).value).None? ==>
              r.vault == v && r.result.Err?
    ensures r.vault.prefix == v.prefix
  {
    match GetCluster(v, slug)
    case Err(e) => Step(v, Err(e))
    case Ok(cluster) =>
      match EnsureChannelsExist(v, [channel])
      case Err(e) => Step(v, Err(e))
      case Ok(_) =>
        match ChannelsStrict(cluster)
        case None => Step(v, Err(Unreadable(WrittenPath(v, cluster, slug))))
        case Some(channels) => Unlink(v, slug, channel, channels, EnvironmentOf(cluster))
  }

  /** Both reads of addClusterToChannel succeed and the write half runs. */
  ghost predicate Linking(v: Vault, slug: string, channel: string)
  {
    GetCluster(v, slug).Ok? && Listed(v, channel) && ChannelsOrEmpty(GetCluster(v, slug).value).Some?
  }

  /** Both reads of removeClusterFromChannel succeed and the write half runs. */
  ghost predicate Unlinking(v: Vault, slug: string, channel: string)
  {
    GetCluster(v, slug).Ok? && Listed(v, channel) && ChannelsStrict(GetCluster(v, slug).value).Some?
  }

  /** addClusterToChannel either runs its write half or writes nothing. */
  lemma AddClusterToChannelCases(v: Vault, slug: string, channel: string)
    ensures Linking(v, slug, channel) ==>
              var cluster := GetCluster(v, slug).value;
              AddClusterToChannel(v, slug, channel)
              == Link(v, slug, channel, ChannelsOrEmpty(cluster).value, EnvironmentOf(cluster))
    ensures !Linking(v, slug, channel) ==>
              AddClusterToChannel(v, slug, channel).vault == v && AddClusterToChannel(v, slug, channel).result.Err?
  {
    assert EnsureChannelsExist(v, [channel]).Ok? <==> Listed(v, channel);
  }

  /** removeClusterFromChannel either runs its write half or writes nothing. */
  lemma RemoveClusterFromChannelCases(v: Vault, slug: string, channel: string)
    ensures Unlinking(v, slug, channel) ==>
              var cluster := GetCluster(v, slug).value;
              RemoveClusterFromChannel(v, slug, channel)
              == Unlink(v, slug, channel, ChannelsStrict(cluster).value, EnvironmentOf(cluster))
    ensures !Unlinking(v, slug, channel) ==>
              RemoveClusterFromChannel(v, slug, channel).vault == v && RemoveClusterFromChannel(v, slug, channel).result.Err?
  {
    assert EnsureChannelsExist(v, [channel]).Ok? <==> Listed(v, channel);
  }

  /** addClusterToChannel succeeds exactly when both records can be read and
      the channel is listed and has a member list; then each side names the
      other. */
  lemma AddClusterToChannelLinksBothSides(v: Vault, slug: string, channel: string)
    ensures AddClusterToChannel(v, slug, channel).result.Ok? <==> Linking(v, slug, channel) && Members(v, channel).Some?
    ensures var r := AddClusterToChannel(v, slug, channel).vault;
            AddClusterToChannel(v, slug, channel).result.Ok? ==>
              var cluster := GetCluster(v, slug).value;
              var path := WrittenPath(v, cluster, slug);
              && Field(ReadDoc(r, path), "channels").Strs?
              && Added(ChannelsOrEmpty(cluster).value, Field(ReadDoc(r, path), "channels").items, channel)
              && Members(r, channel).Some?
              && Added(Members(v, channel).value, Members(r, channel).value, slug)
  {
    AddClusterToChannelCases(v, slug, channel);
    if Linking(v, slug, channel) {
      var cluster := GetCluster(v, slug).value;
      LinkJoinsChannels(v, slug, channel, ChannelsOrEmpty(cluster).value, EnvironmentOf(cluster));
      assert Added(ChannelsOrEmpty(cluster).value, AddName(ChannelsOrEmpty(cluster).value, channel), channel);
      if Members(v, channel).Some? {
        LinkJoinsMembers(v, slug, channel, ChannelsOrEmpty(cluster).value, EnvironmentOf(cluster));
      }
    }
  }

  /** removeClusterFromChannel succeeds exactly when both records can be
      read, the document has a `channels` field and the channel is listed and
      has a member list; then neither side names the other. */
  lemma RemoveClusterFromChannelUnlinksBothSides(v: Vault, slug: string, channel: string)
    ensures RemoveClusterFromChannel(v, slug, channel).result.Ok? <==> Unlinking(v, slug, channel) && Members(v, channel).Some?
    ensures var r := RemoveClusterFromChannel(v, slug, channel).vault;
            RemoveClusterFromChannel(v, slug, channel).result.Ok? ==>
              var cluster := GetCluster(v, slug).value;
              var path := WrittenPath(v, cluster, slug);
              && Field(ReadDoc(r, path), "channels").Strs?
              && Removed(ChannelsStrict(cluster).value, Field(ReadDoc(r, path), "channels").items, channel)
              && channel !in Field(ReadDoc(r, path), "channels").items
              && Members(r, channel).Some?
              && Removed(Members(v, channel).value, Members(r, channel).value, slug)
              && slug !in Members(r, channel).value
  {
    RemoveClusterFromChannelCases(v, slug, channel);
    if Unlinking(v, slug, channel) {
      var cluster := GetCluster(v, slug).value;
      var channels := ChannelsStrict(cluster).value;
      var r := RemoveClusterFromChannel(v, slug, channel).vault;
      UnlinkDropsChannel(v, slug, channel, channels, EnvironmentOf(cluster));
      var after := Field(ReadDoc(r, WrittenPath(v, cluster, slug)), "channels").items;
      assert channel !in multiset(after);
      if Members(v, channel).Some? {
        UnlinkDropsMember(v, slug, channel, channels, EnvironmentOf(cluster));
        assert slug !in multiset(Members(r, channel).value);
      }
    }
  }

  /** Neither write half touches the all-clusters map. */
  lemma WriteHalvesKeepMap(v: Vault, slug: string, channel: string, channels: seq<string>, environment: string)
    ensures Lookup(Link(v, slug, channel, channels, environment).vault, ClustersPath(v)) == Lookup(v, ClustersPath(v))
    ensures Lookup(Unlink(v, slug, channel, channels, environment).vault, ClustersPath(v)) == Lookup(v, ClustersPath(v))
  {
    ChannelPathIsNotClusterPath(v.prefix, channel, slug, environment);
    SecretPathIsNotAllClustersPath(v.prefix, slug, environment);
  }

  lemma AddClusterToChannelKeepsMap(v: Vault, slug: string, channel: string)
    ensures Lookup(AddClusterToChannel(v, slug, channel).vault, ClustersPath(v)) == Lookup(v, ClustersPath(v))
  {
    AddClusterToChannelCases(v, slug, channel);
    if Linking(v, slug, channel) {
      var cluster := GetCluster(v, slug).value;
      WriteHalvesKeepMap(v, slug, channel, ChannelsOrEmpty(cluster).value, EnvironmentOf(cluster));
    }
  }

  lemma RemoveClusterFromChannelKeepsMap(v: Vault, slug: string, channel: string)
    ensures Lookup(RemoveClusterFromChannel(v, slug, channel).vault, ClustersPath(v)) == Lookup(v, ClustersPath(v))
  {
    RemoveClusterFromChannelCases(v, slug, channel);
    if Unlinking(v, slug, channel) {
      var cluster := GetCluster(v, slug).value;
      WriteHalvesKeepMap(v, slug, channel, ChannelsStrict(cluster).value, EnvironmentOf(cluster));
    }
  }

  /** Of any cluster document, addClusterToChannel changes at most the
      `channels` field. */
  lemma AddClusterToChannelKeepsField(v: Vault, slug: string, channel: string, name: string, environment: string, k: string)
    requires k != "channels"
    ensures var r := AddClusterToChannel(v, slug, channel).vault;
            Field(ReadDoc(r, SecretPath(v.prefix, name, environment)), k)
            == Field(ReadDoc(v, SecretPath(v.prefix, name, environment)), k)
  {
    AddClusterToChannelCases(v, slug, channel);
    if Linking(v, slug, channel) {
      var cluster := GetCluster(v, slug).value;
      LinkKeepsField(v, slug, channel, ChannelsOrEmpty(cluster).value, EnvironmentOf(cluster), name, environment, k);
    }
  }

  /** Of any cluster document, removeClusterFromChannel changes at most the
      `channels` field. */
  lemma RemoveClusterFromChannelKeepsField(v: Vault, slug: string, channel: string, name: string, environment: string, k: string)
    requires k != "channels"
    ensures var r := RemoveClusterFromChannel(v, slug, channel).vault;
            Field(ReadDoc(r, SecretPath(v.prefix, name, environment)), k)
            == Field(ReadDoc(v, SecretPath(v.prefix, name, environment)), k)
  {
    RemoveClusterFromChannelCases(v, slug, channel);
    if Unlinking(v, slug, channel) {
      var cluster := GetCluster(v, slug).value;
      UnlinkKeepsField(v, slug, channel, ChannelsStrict(cluster).value, EnvironmentOf(cluster), name, environment, k);
    }
  }

  /** The member list of any channel other than the one named is left as
      it was by either write half. */
  lemma WriteHalvesKeepOtherChannels(v: Vault, slug: string, channel: string, channels: seq<string>,
                                     environment: string, c: string)
    requires c != channel
    ensures Members(Link(v, slug, channel, channels, environment).vault, c) == Members(v, c)
    ensures Members(Unlink(v, slug, channel, channels, environment).vault, c) == Members(v, c)
  {
    var paths := {ChannelPath(v.prefix, channel), SecretPath(v.prefix, slug, environment)};
    ChannelPathsApart(v.prefix, c, channel, slug, environment);
    MembersOutside(v, Link(v, slug, channel, channels, environment).vault, paths, c);
    MembersOutside(v, Unlink(v, slug, channel, channels, environment).vault, paths, c);
  }

  /** addClusterToChannel leaves the member lists of other channels as they
      were. */
  lemma AddClusterToChannelKeepsOtherChannels(v: Vault, slug: string, channel: string, c: string)
    requires c != channel
    ensures Members(AddClusterToChannel(v, slug, channel).vault, c) == Members(v, c)
  {
    AddClusterToChannelCases(v, slug, channel);
    if Linking(v, slug, channel) {
      var cluster := GetCluster(v, slug).value;
      WriteHalvesKeepOtherChannels(v, slug, channel, ChannelsOrEmpty(cluster).value, EnvironmentOf(cluster), c);
    }
  }

  /** addClusterToChannel takes no name off any member list. */
  lemma AddClusterToChannelKeepsMember(v: Vault, slug: string, channel: string, c: string, x: string)
    requires Members(v, c).Some? && x in Members(v, c).value
    ensures var r := AddClusterToChannel(v, slug, channel).vault;
            Members(r, c).Some? && x in Members(r, c).value
  {
    if c != channel {
      AddClusterToChannelKeepsOtherChannels(v, slug, channel, c);
    } else {
      AddClusterToChannelCases(v, slug, channel);
      if Linking(v, slug, channel) {
        var cluster := GetCluster(v, slug).value;
        LinkJoinsMembers(v, slug, channel, ChannelsOrEmpty(cluster).value, EnvironmentOf(cluster));
        AddedKeeps(Members(v, c).value, Members(AddClusterToChannel(v, slug, channel).vault, c).value, slug, x);
      }
    }
  }

  /** removeClusterFromChannel leaves the member lists of other channels as
      they were. */
  lemma RemoveClusterFromChannelKeepsOtherChannels(v: Vault, slug: string, channel: string, c: string)
    requires c != channel
    ensures Members(RemoveClusterFromChannel(v, slug, channel).vault, c) == Members(v, c)
  {
    RemoveClusterFromChannelCases(v, slug, channel);
    if Unlinking(v, slug, channel) {
      var cluster := GetCluster(v, slug).value;
      ChannelPathsApart(v.prefix, c, channel, slug, EnvironmentOf(cluster));
      MembersOutside(v, RemoveClusterFromChannel(v, slug, channel).vault,
                     {ChannelPath(v.prefix, channel), WrittenPath(v, cluster, slug)}, c);
    }
  }

  /** A channel listed in `v` is still listed after addClusterToChannel:
      the only list it may write is a member list, and writing the
      reserved channel's member list only adds a name. */
  lemma LinkKeepsListed(v: Vault, slug: string, channel: string, channels: seq<string>, environment: string)
    requires Listed(v, channel)
    ensures Listed(Link(v, slug, channel, channels, environment).vault, channel)
  {
    var w := Link(v, slug, channel, channels, environment).vault;
    if channel == AllChannels {
      assert Members(v, channel) == Some(ListChannels(v).value);
      LinkJoinsMembers(v, slug, channel, channels, environment);
      AddedKeeps(Members(v, channel).value, Members(w, channel).value, slug, channel);
    } else {
      ChannelPathsApart(v.prefix, AllChannels, channel, slug, environment);
      assert Lookup(w, ListPath(v)) == Lookup(v, ListPath(v));
    }
  }

  /** Any cluster document read back after a write half that saved the
      list `updated`: the environment field is as it was, and the document is
      either the one written, holding `updated`, or untouched. */
  lemma WriteHalfRereads(v: Vault, side: Vault, w: Vault, slug: string, channel: string, updated: seq<string>,
                         environment: string, e: string)
    requires SameOutside(v, side, {ChannelPath(v.prefix, channel)})
    requires w == SaveClusterData(side, map["channels" := Strs(updated)], slug, environment)
    ensures var read := SecretPath(v.prefix, slug, e);
            && EnvironmentOf(ReadDoc(w, read)) == EnvironmentOf(ReadDoc(v, read))
            && (e != environment ==> ReadDoc(w, read) == ReadDoc(v, read))
            && (e == environment ==> Field(ReadDoc(w, read), "channels") == Strs(updated))
            && (e == environment ==> ChannelsOrEmpty(ReadDoc(w, read)) == Some(updated))
            && (e == environment ==> ChannelsStrict(ReadDoc(w, read)) == Some(updated))
  {
    var read := SecretPath(v.prefix, slug, e);
    WriteHalfKeepsField(v, side, w, slug, channel, updated, environment, slug, e, "environment");
    ChannelPathIsNotClusterPath(v.prefix, channel, slug, e);
    if e != environment {
      if read == SecretPath(v.prefix, slug, environment) {
        SecretPathInjective(v.prefix, slug, e, environment);
      }
      assert ReadDoc(w, read) == ReadDoc(side, read);
    } else {
      SaveChannelsField(side, slug, environment, updated);
    }
  }

  /** A cluster document read back after the write half: the environment
      field is as it was, and `channels` either is as it was or already
      holds the channel. */
  lemma LinkRereadsDocument(v: Vault, slug: string, channel: string, channels: seq<string>, environment: string,
                            e: string)
    requires ChannelsOrEmpty(ReadDoc(v, SecretPath(v.prefix, slug, e))) == Some(channels)
    ensures var w := Link(v, slug, channel, channels, environment).vault;
            var read := SecretPath(v.prefix, slug, e);
            && EnvironmentOf(ReadDoc(w, read)) == EnvironmentOf(ReadDoc(v, read))
            && ChannelsOrEmpty(ReadDoc(w, read)).Some?
            && AddName(ChannelsOrEmpty(ReadDoc(w, read)).value, channel) == AddName(channels, channel)
  {
    var side := AddToMembers(v, slug, channel);
    var updated := AddName(channels, channel);
    var w := Link(v, slug, channel, channels, environment).vault;
    var read := SecretPath(v.prefix, slug, e);
    WriteHalfRereads(v, side.vault, w, slug, channel, updated, environment, e);
    if e == environment {
      AddNameTwice(channels, channel);
    }
  }

  /** When addClusterToChannel runs its write half, getCluster afterwards
      reads the same document path, finds the same environment field, and
      finds `channels` either untouched or already holding the channel. */
  lemma LinkRereadsCluster(v: Vault, slug: string, channel: string)
    requires Linking(v, slug, channel)
    ensures var cluster := GetCluster(v, slug).value;
            var channels := ChannelsOrEmpty(cluster).value;
            var w := AddClusterToChannel(v, slug, channel).vault;
            && GetCluster(w, slug).Ok?
            && EnvironmentOf(GetCluster(w, slug).value) == EnvironmentOf(cluster)
            && ChannelsOrEmpty(GetCluster(w, slug).value).Some?
            && AddName(ChannelsOrEmpty(GetCluster(w, slug).value).value, channel) == AddName(channels, channel)
  {
    AddClusterToChannelCases(v, slug, channel);
    var cluster := GetCluster(v, slug).value;
    var w := AddClusterToChannel(v, slug, channel).vault;
    AddClusterToChannelKeepsMap(v, slug, channel);
    GetClusterAfter(v, w, slug);
    LinkRereadsDocument(v, slug, channel, ChannelsOrEmpty(cluster).value, EnvironmentOf(cluster),
                        ClusterEnv(v, slug).value);
  }

  /** Running the write half again, from a `channels` list that adds up to
      the same list, writes nothing and returns what the first run did. */
  lemma LinkAgain(v: Vault, slug: string, channel: string, channels: seq<string>, environment: string,
                  channels2: seq<string>)
    requires AddName(channels2, channel) == AddName(channels, channel)
    ensures var once := Link(v, slug, channel, channels, environment);
            Link(once.vault, slug, channel, channels2, environment) == once
  {
    var once := Link(v, slug, channel, channels, environment);
    var w := once.vault;
    var side := AddToMembers(w, slug, channel);
    if Members(v, channel).Some? {
      LinkJoinsMembers(v, slug, channel, channels, environment);
      assert side == Step(w, Ok(()));
    } else {
      ChannelPathIsNotClusterPath(v.prefix, channel, slug, environment);
      assert Members(w, channel) == None;
    }
    LinkJoinsChannels(v, slug, channel, channels, environment);
    assert Unchanged(ReadDoc(w, SecretPath(w.prefix, slug, environment)),
                     map["channels" := Strs(AddName(channels2, channel))]);
  }

  /** Applying addClusterToChannel twice is applying it once: the second
      call finds the slug listed and the channel recorded, and writes
      nothing. */
  lemma AddClusterToChannelIdempotent(v: Vault, slug: string, channel: string)
    ensures var once := AddClusterToChannel(v, slug, channel);
            AddClusterToChannel(once.vault, slug, channel) == once
  {
    AddClusterToChannelCases(v, slug, channel);
    if Linking(v, slug, channel) {
      var cluster := GetCluster(v, slug).value;
      var channels := ChannelsOrEmpty(cluster).value;
      var environment := EnvironmentOf(cluster);
      var w := AddClusterToChannel(v, slug, channel).vault;
      LinkRereadsCluster(v, slug, channel);
      LinkKeepsListed(v, slug, channel, channels, environment);
      AddClusterToChannelCases(w, slug, channel);
      LinkAgain(v, slug, channel, channels, environment, ChannelsOrEmpty(GetCluster(w, slug).value).value);
    }
  }

  // ---------------------------------------------------------------------
  // Removal, applied twice

  /** A channel listed in `v` is still listed after removeClusterFromChannel's
      write half, unless the reserved channel's member list (the channel list
      itself) loses that very name. */
  lemma UnlinkKeepsListed(v: Vault, slug: string, channel: string, channels: seq<string>, environment: string)
    requires Listed(v, channel)
    requires channel != AllChannels || slug != AllChannels
    ensures Listed(Unlink(v, slug, channel, channels, environment).vault, channel)
  {
    var w := Unlink(v, slug, channel, channels, environment).vault;
    if channel == AllChannels {
      assert Members(v, channel) == Some(ListChannels(v).value);
      UnlinkDropsMember(v, slug, channel, channels, environment);
      RemovedKeeps(Members(v, channel).value, Members(w, channel).value, slug, channel);
    } else {
      ChannelPathsApart(v.prefix, AllChannels, channel, slug, environment);
      assert Lookup(w, ListPath(v)) == Lookup(v, ListPath(v));
    }
  }

  /** A cluster document read back after removeClusterFromChannel's write
      half: the environment field is as it was, and `channels` either is as
      it was or already lacks the channel. */
  lemma UnlinkRereadsDocument(v: Vault, slug: string, channel: string, channels: seq<string>, environment: string,
                              e: string)
    requires ChannelsStrict(ReadDoc(v, SecretPath(v.prefix, slug, e))) == Some(channels)
    ensures var w := Unlink(v, slug, channel, channels, environment).vault;
            var read := SecretPath(v.prefix, slug, e);
            && EnvironmentOf(ReadDoc(w, read)) == EnvironmentOf(ReadDoc(v, read))
            && ChannelsStrict(ReadDoc(w, read)).Some?
            && Without(ChannelsStrict(ReadDoc(w, read)).value, channel) == Without(channels, channel)
  {
    var side := RemoveFromMembers(v, slug, channel);
    var updated := Without(channels, channel);
    WriteHalfRereads(v, side.vault, Unlink(v, slug, channel, channels, environment).vault, slug, channel, updated,
                     environment, e);
    WithoutTwice(channels, channel);
  }

  /** When removeClusterFromChannel runs its write half, getCluster
      afterwards reads the same document path and finds the same environment
      field and a `channels` list that filters to the same result. */
  lemma UnlinkRereadsCluster(v: Vault, slug: string, channel: string)
    requires Unlinking(v, slug, channel)
    ensures var cluster := GetCluster(v, slug).value;
            var channels := ChannelsStrict(cluster).value;
            var w := RemoveClusterFromChannel(v, slug, channel).vault;
            && GetCluster(w, slug).Ok?
            && EnvironmentOf(GetCluster(w, slug).value) == EnvironmentOf(cluster)
            && ChannelsStrict(GetCluster(w, slug).value).Some?
            && Without(ChannelsStrict(GetCluster(w, slug).value).value, channel) == Without(channels, channel)
  {
    RemoveClusterFromChannelCases(v, slug, channel);
    var cluster := GetCluster(v, slug).value;
    var w := RemoveClusterFromChannel(v, slug, channel).vault;
    RemoveClusterFromChannelKeepsMap(v, slug, channel);
    GetClusterAfter(v, w, slug);
    UnlinkRereadsDocument(v, slug, channel, ChannelsStrict(cluster).value, EnvironmentOf(cluster),
                          ClusterEnv(v, slug).value);
  }

  /** Running the removal's write half again, from a `channels` list that
      filters to the same list, writes nothing and returns what the first run
      did. */
  lemma UnlinkAgain(v: Vault, slug: string, channel: string, channels: seq<string>, environment: string,
                    channels2: seq<string>)
    requires Without(channels2, channel) == Without(channels, channel)
    ensures var once := Unlink(v, slug, channel, channels, environment);
            Unlink(once.vault, slug, channel, channels2, environment) == once
  {
    var once := Unlink(v, slug, channel, channels, environment);
    var w := once.vault;
    var side := RemoveFromMembers(w, slug, channel);
    if Members(v, channel).Some? {
      UnlinkDropsMember(v, slug, channel, channels, environment);
      assert slug !in multiset(Members(w, channel).value);
      assert side == Step(w, Ok(()));
    } else {
      ChannelPathIsNotClusterPath(v.prefix, channel, slug, environment);
      assert Members(w, channel) == None;
    }
    var side1 := RemoveFromMembers(v, slug, channel);
    SaveChannelsField(side1.vault, slug, environment, Without(channels, channel));
    assert Unchanged(ReadDoc(w, SecretPath(w.prefix, slug, environment)),
                     map["channels" := Strs(Without(channels2, channel))]);
  }

  /** Applying removeClusterFromChannel twice is applying it once, except
      when the slug and the channel are both the reserved name: then the
      first call takes `all` off the channel list and the second fails. */
  lemma RemoveClusterFromChannelIdempotent(v: Vault, slug: string, channel: string)
    requires channel != AllChannels || slug != AllChannels
    ensures var once := RemoveClusterFromChannel(v, slug, channel);
            RemoveClusterFromChannel(once.vault, slug, channel) == once
  {
    RemoveClusterFromChannelCases(v, slug, channel);
    if Unlinking(v, slug, channel) {
      var cluster := GetCluster(v, slug).value;
      var channels := ChannelsStrict(cluster).value;
      var environment := EnvironmentOf(cluster);
      var w := RemoveClusterFromChannel(v, slug, channel).vault;
      UnlinkRereadsCluster(v, slug, channel);
      UnlinkKeepsListed(v, slug, channel, channels, environment);
      RemoveClusterFromChannelCases(w, slug, channel);
      UnlinkAgain(v, slug, channel, channels, environment, ChannelsStrict(GetCluster(w, slug).value).value);
    }
  }

  /** The exception to idempotence: removing the slug `all` from the
      channel `all` filters `all` out of the member list of `all`, which is
      the channel list itself, so the channel is no longer listed and a
      second call fails. */
  lemma RemoveAllFromAllUnlists(v: Vault)
    requires RemoveClusterFromChannel(v, AllChannels, AllChannels).result.Ok?
    ensures var once := RemoveClusterFromChannel(v, AllChannels, AllChannels).vault;
            && !Listed(once, AllChannels)
            && RemoveClusterFromChannel(once, AllChannels, AllChannels).result.Err?
  {
    var once := RemoveClusterFromChannel(v, AllChannels, AllChannels).vault;
    RemoveClusterFromChannelUnlinksBothSides(v, AllChannels, AllChannels);
    assert ListChannels(once) == Ok(Members(once, AllChannels).value);
  }

  /** The remove half undoes the add half: with both lists sorted and
      holding neither name, the member list and the cluster's `channels`
      field come back as they were. */
  lemma LinkThenUnlink(v: Vault, slug: string, channel: string, channels: seq<string>, environment: string)
    requires Members(v, channel).Some? && Sorted(Members(v, channel).value) && slug !in Members(v, channel).value
    requires Sorted(channels) && channel !in channels
    ensures var w := Link(v, slug, channel, channels, environment).vault;
            var u := Unlink(w, slug, channel, AddName(channels, channel), environment).vault;
            && Members(u, channel) == Members(v, channel)
            && Field(ReadDoc(u, SecretPath(v.prefix, slug, environment)), "channels") == Strs(channels)
  {
    var members := Members(v, channel).value;
    var w := Link(v, slug, channel, channels, environment).vault;
    var added := AddName(channels, channel);
    var u := Unlink(w, slug, channel, added, environment).vault;
    var side := AddToMembers(v, slug, channel);
    assert Members(side.vault, channel) == Some(AddName(members, slug));
    ChannelPathIsNotClusterPath(v.prefix, channel, slug, environment);
    MembersOutside(side.vault, w, {SecretPath(v.prefix, slug, environment)}, channel);
    SortAfterPush(members, slug);
    WithoutUndoesInsert(members, slug);
    UnlinkDropsMember(w, slug, channel, added, environment);
    FilterUnique(Members(w, channel).value, Members(u, channel).value, slug);
    var side2 := RemoveFromMembers(w, slug, channel);
    SaveChannelsField(side2.vault, slug, environment, Without(added, channel));
    SortAfterPush(channels, channel);
    WithoutUndoesInsert(channels, channel);
  }

  /** After the add write half, getCluster finds the document the write
      went to, when it found it before: its environment is unchanged and its
      `channels` field holds the updated list, so removeClusterFromChannel
      runs its write half on that list. */
  lemma LinkThenReread(v: Vault, slug: string, channel: string, channels: seq<string>, environment: string)
    requires ClusterEnv(v, slug) == Ok(environment) && Listed(v, channel) && Members(v, channel).Some?
    requires EnvironmentOf(ReadDoc(v, SecretPath(v.prefix, slug, environment))) == environment
    ensures var w := Link(v, slug, channel, channels, environment).vault;
            var path := SecretPath(v.prefix, slug, environment);
            && GetCluster(w, slug) == Ok(ReadDoc(w, path))
            && ChannelsStrict(ReadDoc(w, path)) == Some(AddName(channels, channel))
            && EnvironmentOf(ReadDoc(w, path)) == environment
            && Listed(w, channel) && Members(w, channel).Some?
  {
    var w := Link(v, slug, channel, channels, environment).vault;
    WriteHalvesKeepMap(v, slug, channel, channels, environment);
    GetClusterAfter(v, w, slug);
    LinkJoinsChannels(v, slug, channel, channels, environment);
    LinkKeepsField(v, slug, channel, channels, environment, slug, environment, "environment");
    LinkKeepsListed(v, slug, channel, channels, environment);
    LinkJoinsMembers(v, slug, channel, channels, environment);
  }

  /** Adding a cluster to a channel and then removing it gives both sides
      back, when both lists were sorted and held neither name and getCluster
      reads the document the writes go to. A document that had no `channels`
      field is left with `channels: []`. */
  lemma AddThenRemoveClusterRestores(v: Vault, slug: string, channel: string)
    requires Linking(v, slug, channel) && Members(v, channel).Some?
    requires Sorted(Members(v, channel).value) && slug !in Members(v, channel).value
    requires var cluster := GetCluster(v, slug).value;
             && Sorted(ChannelsOrEmpty(cluster).value) && channel !in ChannelsOrEmpty(cluster).value
             && ClusterEnv(v, slug) == Ok(EnvironmentOf(cluster))
    ensures var cluster := GetCluster(v, slug).value;
            var added := AddClusterToChannel(v, slug, channel);
            var removed := RemoveClusterFromChannel(added.vault, slug, channel);
            var path := WrittenPath(v, cluster, slug);
            && added.result.Ok? && removed.result.Ok?
            && Members(removed.vault, channel) == Members(v, channel)
            && Field(ReadDoc(removed.vault, path), "channels") == Strs(ChannelsOrEmpty(cluster).value)
            && (Field(cluster, "channels") != Undefined ==>
                  Field(ReadDoc(removed.vault, path), "channels") == Field(ReadDoc(v, path), "channels"))
  {
    var cluster := GetCluster(v, slug).value;
    var channels := ChannelsOrEmpty(cluster).value;
    var environment := EnvironmentOf(cluster);
    AddThenRemoveWriteHalves(v, slug, channel);
    LinkThenUnlink(v, slug, channel, channels, environment);
    var w := Link(v, slug, channel, channels, environment).vault;
    var u := Unlink(w, slug, channel, AddName(channels, channel), environment).vault;
    assert AddClusterToChannel(v, slug, channel).vault == w;
    assert RemoveClusterFromChannel(w, slug, channel).vault == u;
  }

  /** Under the conditions above, the two operations come down to their
      write halves, run one after the other, and both succeed. */
  lemma AddThenRemoveWriteHalves(v: Vault, slug: string, channel: string)
    requires Linking(v, slug, channel) && Members(v, channel).Some?
    requires ClusterEnv(v, slug) == Ok(EnvironmentOf(GetCluster(v, slug).value))
    ensures var cluster := GetCluster(v, slug).value;
            var channels := ChannelsOrEmpty(cluster).value;
            var environment := EnvironmentOf(cluster);
            var w := Link(v, slug, channel, channels, environment).vault;
            && cluster == ReadDoc(v, SecretPath(v.prefix, slug, environment))
            && AddClusterToChannel(v, slug, channel) == Step(w, Ok(()))
            && RemoveClusterFromChannel(w, slug, channel)
               == Unlink(w, slug, channel, AddName(channels, channel), environment)
            && RemoveClusterFromChannel(w, slug, channel).result.Ok?
  {
    var cluster := GetCluster(v, slug).value;
    var channels := ChannelsOrEmpty(cluster).value;
    var environment := EnvironmentOf(cluster);
    var path := SecretPath(v.prefix, slug, environment);
    assert cluster == ReadDoc(v, path);
    AddClusterToChannelCases(v, slug, channel);
    var w := Link(v, slug, channel, channels, environment).vault;
    LinkThenReread(v, slug, channel, channels, environment);
    RemoveClusterFromChannelCases(w, slug, channel);
  }

  // ---------------------------------------------------------------------
  // Cluster lifecycle

  /** The channel loop of registerCluster: one addClusterToChannel after
      another, stopping at the first failure. */
  function AddToChannels(v: Vault, slug: string, channels: seq<string>): (r: Step<()>)
    ensures r.vault.prefix == v.prefix
    ensures |channels| > 0 && GetCluster(v, slug).Err? ==> r == Step(v, Err(GetCluster(v, slug).error))
    decreases |channels|
  {
    if |channels| == 0 then Step(v, Ok(()))
    else
      var first := AddClusterToChannel(v, slug, channels[0]);
      if first.result.Err? then first
      else AddToChannels(first.vault, slug, channels[1..])
  }

  lemma {:induction false} AddToChannelsKeepsMap(v: Vault, slug: string, channels: seq<string>)
    ensures Lookup(AddToChannels(v, slug, channels).vault, ClustersPath(v)) == Lookup(v, ClustersPath(v))
    decreases |channels|
  {
    if |channels| > 0 {
      var first := AddClusterToChannel(v, slug, channels[0]);
      AddClusterToChannelKeepsMap(v, slug, channels[0]);
      if first.result.Ok? {
        AddToChannelsKeepsMap(first.vault, slug, channels[1..]);
      }
    }
  }

  lemma {:induction false} AddToChannelsKeepsField(v: Vault, slug: string, channels: seq<string>,
                                                   name: string, environment: string, k: string)
    requires k != "channels"
    ensures var r := AddToChannels(v, slug, channels).vault;
            Field(ReadDoc(r, SecretPath(v.prefix, name, environment)), k)
            == Field(ReadDoc(v, SecretPath(v.prefix, name, environment)), k)
    decreases |channels|
  {
    if |channels| > 0 {
      var first := AddClusterToChannel(v, slug, channels[0]);
      AddClusterToChannelKeepsField(v, slug, channels[0], name, environment, k);
      if first.result.Ok? {
        AddToChannelsKeepsField(first.vault, slug, channels[1..], name, environment, k);
      }
    }
  }

  lemma {:induction false} AddToChannelsKeepsMember(v: Vault, slug: string, channels: seq<string>, c: string, x: string)
    requires Members(v, c).Some? && x in Members(v, c).value
    ensures var r := AddToChannels(v, slug, channels).vault;
            Members(r, c).Some? && x in Members(r, c).value
    decreases |channels|
  {
    if |channels| > 0 {
      var first := AddClusterToChannel(v, slug, channels[0]);
      AddClusterToChannelKeepsMember(v, slug, channels[0], c, x);
      if first.result.Ok? {
        AddToChannelsKeepsMember(first.vault, slug, channels[1..], c, x);
      }
    }
  }

  /** When the loop completes, the slug is on the member list of every
      channel it went through. */
  lemma {:induction false} AddToChannelsJoins(v: Vault, slug: string, channels: seq<string>, c: string)
    requires AddToChannels(v, slug, channels).result.Ok? && c in channels
    ensures var r := AddToChannels(v, slug, channels).vault;
            Members(r, c).Some? && slug in Members(r, c).value
    decreases |channels|
  {
    var first := AddClusterToChannel(v, slug, channels[0]);
    var r := AddToChannels(v, slug, channels).vault;
    assert r == AddToChannels(first.vault, slug, channels[1..]).vault;
    if c == channels[0] {
      AddClusterToChannelLinksBothSides(v, slug, c);
      AddToChannelsKeepsMember(first.vault, slug, channels[1..], c, slug);
    } else {
      assert c in channels[1..];
      AddToChannelsJoins(first.vault, slug, channels[1..], c);
    }
  }

  /** registerCluster: check the environment is a string and every channel
      is listed, save the cluster document, join each channel, and only then
      record the cluster in the all-clusters map. */
  function RegisterCluster(v: Vault, slug: string, environment: Value, secretProps: Value,
                           channels: seq<string>): (r: Step<()>)
    ensures !environment.Str? ==> r.vault == v && r.result.Err? && r.result.error.BadArgument?
    ensures environment.Str? && EnsureChannelsExist(v, channels).Err? ==>
              r == Step(v, Err(EnsureChannelsExist(v, channels).error))
    ensures r.vault.prefix == v.prefix
  {
    if !environment.Str? then Step(v, Err(BadArgument("`environment` must be a string")))
    else
      match EnsureChannelsExist(v, channels)
      case Err(e) => Step(v, Err(e))
      case Ok(_) =>
        var saved := SaveClusterData(v, ClusterProps(environment, secretProps), slug, environment.s);
        var joined := AddToChannels(saved, slug, channels);
        if joined.result.Err? then joined
        else IndexCluster(joined.vault, slug, SecretPath(v.prefix, slug, environment.s))
  }

  /** The props registerCluster and updateCluster save. */
  function ClusterProps(environment: Value, secretProps: Value): Doc
  {
    map["environment" := environment, "value" := secretProps]
  }

  /** The map write leaves every member list and cluster document alone. */
  lemma IndexClusterKeeps(v: Vault, slug: string, path: string, c: string, name: string, environment: string)
    ensures Members(IndexCluster(v, slug, path).vault, c) == Members(v, c)
    ensures ReadDoc(IndexCluster(v, slug, path).vault, SecretPath(v.prefix, name, environment))
            == ReadDoc(v, SecretPath(v.prefix, name, environment))
  {
    ChannelPathIsNotClusterPath(v.prefix, c, name, environment);
    SecretPathIsNotAllClustersPath(v.prefix, name, environment);
    MembersOutside(v, IndexCluster(v, slug, path).vault, {ClustersPath(v)}, c);
  }

  /** The steps of registerCluster past its checks, named. */
  lemma RegisterClusterSteps(v: Vault, slug: string, environment: string, secretProps: Value, channels: seq<string>)
    requires EnsureChannelsExist(v, channels).Ok?
    ensures var saved := SaveClusterData(v, ClusterProps(Str(environment), secretProps), slug, environment);
            var joined := AddToChannels(saved, slug, channels);
            var r := RegisterCluster(v, slug, Str(environment), secretProps, channels);
            && (joined.result.Err? ==> r == joined)
            && (joined.result.Ok? ==> r == IndexCluster(joined.vault, slug, SecretPath(v.prefix, slug, environment)))
  {
  }

  /** Once the channel check passes, the cluster document holds the given
      environment and secret props, whatever happens after. */
  lemma RegisterClusterSavesDocument(v: Vault, slug: string, environment: string, secretProps: Value,
                                     channels: seq<string>)
    requires EnsureChannelsExist(v, channels).Ok?
    ensures var r := RegisterCluster(v, slug, Str(environment), secretProps, channels).vault;
            var path := SecretPath(v.prefix, slug, environment);
            && Field(ReadDoc(r, path), "environment") == Str(environment)
            && Field(ReadDoc(r, path), "value") == secretProps
  {
    var props := ClusterProps(Str(environment), secretProps);
    var saved := SaveClusterData(v, props, slug, environment);
    var joined := AddToChannels(saved, slug, channels);
    var path := SecretPath(v.prefix, slug, environment);
    RegisterClusterSteps(v, slug, environment, secretProps, channels);
    assert "environment" in props && "value" in props;
    AddToChannelsKeepsField(saved, slug, channels, slug, environment, "environment");
    AddToChannelsKeepsField(saved, slug, channels, slug, environment, "value");
    if joined.result.Ok? {
      IndexClusterKeeps(joined.vault, slug, path, "", slug, environment);
    }
  }

  /** registerCluster reads the map through the same document either way. */
  lemma IndexMapSame(v: Vault, w: Vault)
    requires w.prefix == v.prefix && Lookup(w, ClustersPath(v)) == Lookup(v, ClustersPath(v))
    ensures IndexMap(w) == IndexMap(v)
  {
    assert ReadDoc(w, ClustersPath(v)) == ReadDoc(v, ClustersPath(v));
  }

  /** The map registerCluster reads before its last step is the one it
      started from: nothing before it writes the all-clusters map. */
  lemma RegisterClusterReadsMap(v: Vault, slug: string, environment: string, secretProps: Value, channels: seq<string>)
    ensures var saved := SaveClusterData(v, ClusterProps(Str(environment), secretProps), slug, environment);
            IndexMap(AddToChannels(saved, slug, channels).vault) == IndexMap(v)
  {
    var saved := SaveClusterData(v, ClusterProps(Str(environment), secretProps), slug, environment);
    SecretPathIsNotAllClustersPath(v.prefix, slug, environment);
    assert Lookup(saved, ClustersPath(v)) == Lookup(v, ClustersPath(v));
    var joined := AddToChannels(saved, slug, channels).vault;
    AddToChannelsKeepsMap(saved, slug, channels);
    IndexMapSame(v, joined);
  }

  /** On success the map sends the slug to its document path and keeps every
      other entry; when it already did, the map is not written. */
  lemma RegisterClusterIndexes(v: Vault, slug: string, environment: string, secretProps: Value, channels: seq<string>)
    requires RegisterCluster(v, slug, Str(environment), secretProps, channels).result.Ok?
    ensures var r := RegisterCluster(v, slug, Str(environment), secretProps, channels).vault;
            var path := SecretPath(v.prefix, slug, environment);
            && IndexMap(v).Some?
            && ClusterMap(r) == Ok(IndexMap(v).value[slug := path])
            && (slug in IndexMap(v).value && IndexMap(v).value[slug] == path ==>
                  Lookup(r, ClustersPath(v)) == Lookup(v, ClustersPath(v)))
  {
    var saved := SaveClusterData(v, ClusterProps(Str(environment), secretProps), slug, environment);
    RegisterClusterSteps(v, slug, environment, secretProps, channels);
    RegisterClusterReadsMap(v, slug, environment, secretProps, channels);
    AddToChannelsKeepsMap(saved, slug, channels);
    SecretPathIsNotAllClustersPath(v.prefix, slug, environment);
  }

  /** On success the slug is on the member list of every channel asked for. */
  lemma RegisterClusterJoins(v: Vault, slug: string, environment: string, secretProps: Value, channels: seq<string>, c: string)
    requires RegisterCluster(v, slug, Str(environment), secretProps, channels).result.Ok?
    requires c in channels
    ensures var r := RegisterCluster(v, slug, Str(environment), secretProps, channels).vault;
            Members(r, c).Some? && slug in Members(r, c).value
  {
    var saved := SaveClusterData(v, ClusterProps(Str(environment), secretProps), slug, environment);
    var joined := AddToChannels(saved, slug, channels);
    RegisterClusterSteps(v, slug, environment, secretProps, channels);
    AddToChannelsJoins(saved, slug, channels, c);
    IndexClusterKeeps(joined.vault, slug, SecretPath(v.prefix, slug, environment), c, slug, environment);
  }

  /** The map is written only after the channel loop, and the loop reads the
      map: a slug the map does not yet hold cannot be registered with any
      channel. The call fails, but the cluster document has been written. */
  lemma RegisterFreshSlugWithChannelsFails(v: Vault, slug: string, environment: string, secretProps: Value,
                                           channels: seq<string>)
    requires EnsureChannelsExist(v, channels).Ok? && |channels| > 0
    requires EnsureClusterExists(v, slug).Err?
    ensures var r := RegisterCluster(v, slug, Str(environment), secretProps, channels);
            && r.result == Err(EnsureClusterExists(v, slug).error)
            && Field(ReadDoc(r.vault, SecretPath(v.prefix, slug, environment)), "value") == secretProps
  {
    var saved := SaveClusterData(v, ClusterProps(Str(environment), secretProps), slug, environment);
    RegisterClusterSteps(v, slug, environment, secretProps, channels);
    RegisterClusterSavesDocument(v, slug, environment, secretProps, channels);
    SecretPathIsNotAllClustersPath(v.prefix, slug, environment);
    assert Lookup(saved, ClustersPath(v)) == Lookup(v, ClustersPath(v));
    GetClusterAfter(v, saved, slug);
    assert GetCluster(saved, slug) == Err(EnsureClusterExists(v, slug).error);
  }

  /** After a successful registration getCluster finds the document just
      saved, when the environment is one non-empty path segment and the
      prefix holds no `clusters/` of its own. */
  lemma RegisterThenGet(v: Vault, slug: string, environment: string, secretProps: Value, channels: seq<string>)
    requires RegisterCluster(v, slug, Str(environment), secretProps, channels).result.Ok?
    requires environment != "" && '/' !in environment
    requires HasNoMarker(v.prefix)
    ensures var r := RegisterCluster(v, slug, Str(environment), secretProps, channels).vault;
            && GetCluster(r, slug).Ok?
            && Field(GetCluster(r, slug).value, "environment") == Str(environment)
            && Field(GetCluster(r, slug).value, "value") == secretProps
  {
    var r := RegisterCluster(v, slug, Str(environment), secretProps, channels).vault;
    var path := SecretPath(v.prefix, slug, environment);
    RegisterClusterIndexes(v, slug, environment, secretProps, channels);
    RegisterClusterSavesDocument(v, slug, environment, secretProps, channels);
    EnvFromSecretPathWhole(v.prefix, slug, environment);
    assert ClusterEnv(r, slug) == Ok(environment);
  }

  /** updateCluster: with the cluster registered, save the new secret props
      and environment to the document the given environment names. */
  function UpdateCluster(v: Vault, slug: string, environment: Value, secretProps: Value): (r: Step<()>)
    ensures EnsureClusterExists(v, slug).Err? ==> r == Step(v, Err(EnsureClusterExists(v, slug).error))
    ensures EnsureClusterExists(v, slug).Ok? ==>
              var path := SecretPath(v.prefix, slug, TemplateText(environment));
              && r.result.Ok?
              && SameOutside(v, r.vault, {path})
              && Field(ReadDoc(r.vault, path), "value") == secretProps
              && Field(ReadDoc(r.vault, path), "environment") == environment
              && Field(ReadDoc(r.vault, path), "channels") == Field(ReadDoc(v, path), "channels")
  {
    match EnsureClusterExists(v, slug)
    case Err(e) => Step(v, Err(e))
    case Ok(_) =>
      var props := ClusterProps(environment, secretProps);
      assert "value" in props && "environment" in props && "channels" !in props;
      Step(SaveClusterData(v, props, slug, TemplateText(environment)), Ok(()))
  }

  /** Updating a cluster twice with the same arguments is updating it once. */
  lemma UpdateClusterIdempotent(v: Vault, slug: string, environment: Value, secretProps: Value)
    ensures var once := UpdateCluster(v, slug, environment, secretProps);
            UpdateCluster(once.vault, slug, environment, secretProps) == once
  {
    var once := UpdateCluster(v, slug, environment, secretProps);
    if EnsureClusterExists(v, slug).Ok? {
      var props := ClusterProps(environment, secretProps);
      SaveClusterDataIdempotent(v, props, slug, TemplateText(environment));
      SecretPathIsNotAllClustersPath(v.prefix, slug, TemplateText(environment));
      assert ClusterMap(once.vault) == ClusterMap(v);
    }
  }

  /** The `Promise.all` of unregisterCluster: every removal runs; the call
      fails when any of them failed. */
  function RemoveFromChannels(v: Vault, slug: string, channels: seq<string>): (r: Step<()>)
    ensures r.vault.prefix == v.prefix
    decreases |channels|
  {
    if |channels| == 0 then Step(v, Ok(()))
    else
      var first := RemoveFromMembers(v, slug, channels[0]);
      var rest := RemoveFromChannels(first.vault, slug, channels[1..]);
      Step(rest.vault, if first.result.Err? then first.result else rest.result)
  }

  /** One member-list removal, seen from any channel `c`. */
  lemma RemoveFromMembersAt(v: Vault, slug: string, channel: string, c: string)
    ensures var r := RemoveFromMembers(v, slug, channel).vault;
            && (Members(r, c).Some? <==> Members(v, c).Some?)
            && (c != channel ==> Members(r, c) == Members(v, c))
            && (c == channel && Members(v, c).Some? ==> slug !in Members(r, c).value)
            && (Members(v, c).Some? && slug !in Members(v, c).value ==> slug !in Members(r, c).value)
  {
    var r := RemoveFromMembers(v, slug, channel).vault;
    if c != channel {
      ChannelPathsApart(v.prefix, c, channel, slug, "");
      MembersOutside(v, r, {ChannelPath(v.prefix, channel)}, c);
    } else if Members(v, c).Some? {
      RemovedKeeps(Members(v, c).value, Members(r, c).value, slug, slug);
    }
  }

  /** Documents at paths no member list uses are left as they were. */
  lemma {:induction false} RemoveFromChannelsOutside(v: Vault, slug: string, channels: seq<string>, q: string)
    requires forall c :: ChannelPath(v.prefix, c) != q
    ensures Lookup(RemoveFromChannels(v, slug, channels).vault, q) == Lookup(v, q)
    decreases |channels|
  {
    if |channels| > 0 {
      var first := RemoveFromMembers(v, slug, channels[0]);
      RemoveFromChannelsOutside(first.vault, slug, channels[1..], q);
    }
  }

  lemma {:induction false} RemoveFromChannelsAt(v: Vault, slug: string, channels: seq<string>, c: string)
    ensures var r := RemoveFromChannels(v, slug, channels).vault;
            && (Members(r, c).Some? <==> Members(v, c).Some?)
            && (c !in channels ==> Members(r, c) == Members(v, c))
            && (Members(v, c).Some? && (c in channels || slug !in Members(v, c).value) ==>
                  slug !in Members(r, c).value)
    decreases |channels|
  {
    if |channels| > 0 {
      var first := RemoveFromMembers(v, slug, channels[0]);
      RemoveFromMembersAt(v, slug, channels[0], c);
      RemoveFromChannelsAt(first.vault, slug, channels[1..], c);
      assert channels == [channels[0]] + channels[1..];
    }
  }

  /** The removals succeed exactly when every channel has a member list;
      then none of those lists holds the slug. */
  lemma {:induction false} RemoveFromChannelsOutcome(v: Vault, slug: string, channels: seq<string>)
    ensures RemoveFromChannels(v, slug, channels).result.Ok? <==> forall c :: c in channels ==> Members(v, c).Some?
    decreases |channels|
  {
    if |channels| > 0 {
      var first := RemoveFromMembers(v, slug, channels[0]);
      RemoveFromChannelsOutcome(first.vault, slug, channels[1..]);
      forall c
        ensures Members(first.vault, c).Some? <==> Members(v, c).Some?
      {
        RemoveFromMembersAt(v, slug, channels[0], c);
      }
      assert channels == [channels[0]] + channels[1..];
    }
  }

  /** unregisterCluster: with the cluster registered and its document
      carrying a `channels` field, take the slug off every channel it lists,
      drop it from the map, and delete the document its environment field
      names. */
  function UnregisterCluster(v: Vault, slug: string): (r: Step<()>)
    ensures GetCluster(v, slug).Err? ==> r == Step(v, Err(GetCluster(v, slug).error))
    ensures GetCluster(v, slug).Ok? && ChannelsStrict(GetCluster(v, slug).value).None? ==>
              r.vault == v && r.result.Err?
    ensures r.vault.prefix == v.prefix
  {
    match GetCluster(v, slug)
    case Err(e) => Step(v, Err(e))
    case Ok(cluster) =>
      match ChannelsStrict(cluster)
      case None => Step(v, Err(Unreadable(WrittenPath(v, cluster, slug))))
      case Some(channels) =>
        var removed := RemoveFromChannels(v, slug, channels);
        if removed.result.Err? then removed
        else
          match Field(ReadDoc(removed.vault, ClustersPath(v)), "value")
          case StrMap(m) =>
            var unlisted := Put(removed.vault, ClustersPath(v), ValueDoc(StrMap(m - {slug})));
            Step(Delete(unlisted, WrittenPath(v, cluster, slug)), Ok(()))
          case _ => Step(removed.vault, Err(Unreadable(ClustersPath(v))))
  }

  /** No member-list path is the map's path or a cluster document's. */
  lemma NoChannelPathIs(prefix: string, slug: string, environment: string)
    ensures forall c :: ChannelPath(prefix, c) != AllClustersPath(prefix)
    ensures forall c :: ChannelPath(prefix, c) != SecretPath(prefix, slug, environment)
  {
    forall c
      ensures ChannelPath(prefix, c) != AllClustersPath(prefix)
      ensures ChannelPath(prefix, c) != SecretPath(prefix, slug, environment)
    {
      ChannelPathIsNotClusterPath(prefix, c, slug, environment);
    }
  }

  /** The steps of unregisterCluster once its reads succeeded, named. */
  lemma UnregisterClusterSteps(v: Vault, slug: string)
    requires GetCluster(v, slug).Ok? && ChannelsStrict(GetCluster(v, slug).value).Some?
    ensures var cluster := GetCluster(v, slug).value;
            var removed := RemoveFromChannels(v, slug, ChannelsStrict(cluster).value);
            var r := UnregisterCluster(v, slug);
            && ClusterMap(removed.vault) == ClusterMap(v)
            && (removed.result.Err? ==> r == removed)
            && (removed.result.Ok? ==>
                  r == Step(Delete(Put(removed.vault, ClustersPath(v), ValueDoc(StrMap(ClusterMap(v).value - {slug}))),
                                   WrittenPath(v, cluster, slug)), Ok(())))
  {
    var cluster := GetCluster(v, slug).value;
    var removed := RemoveFromChannels(v, slug, ChannelsStrict(cluster).value);
    NoChannelPathIs(v.prefix, slug, "");
    RemoveFromChannelsOutside(v, slug, ChannelsStrict(cluster).value, ClustersPath(v));
    assert ClusterMap(removed.vault) == ClusterMap(v);
  }

  /** unregisterCluster succeeds exactly when the cluster is registered, its
      document has a `channels` field, and every channel in it has a member
      list. */
  lemma UnregisterClusterOutcome(v: Vault, slug: string)
    ensures UnregisterCluster(v, slug).result.Ok? <==>
              && GetCluster(v, slug).Ok?
              && ChannelsStrict(GetCluster(v, slug).value).Some?
              && forall c :: c in ChannelsStrict(GetCluster(v, slug).value).value ==> Members(v, c).Some?
  {
    if GetCluster(v, slug).Ok? && ChannelsStrict(GetCluster(v, slug).value).Some? {
      UnregisterClusterSteps(v, slug);
      RemoveFromChannelsOutcome(v, slug, ChannelsStrict(GetCluster(v, slug).value).value);
    }
  }

  /** After a successful unregisterCluster the map no longer holds the slug
      and keeps every other entry, listClusters no longer shows it, and the
      document its environment field named is gone. */
  lemma UnregisterClusterRemoves(v: Vault, slug: string)
    requires UnregisterCluster(v, slug).result.Ok?
    ensures var r := UnregisterCluster(v, slug).vault;
            && ClusterMap(v).Ok?
            && ClusterMap(r) == Ok(ClusterMap(v).value - {slug})
            && ListClusters(r).Ok? && slug !in ListClusters(r).value
            && Lookup(r, WrittenPath(v, GetCluster(v, slug).value, slug)) == None
  {
    UnregisterClusterSteps(v, slug);
    var cluster := GetCluster(v, slug).value;
    SecretPathIsNotAllClustersPath(v.prefix, slug, EnvironmentOf(cluster));
  }

  /** After a successful unregisterCluster no channel the cluster listed
      holds the slug on its member list. */
  lemma UnregisterClusterLeavesChannels(v: Vault, slug: string, c: string)
    requires UnregisterCluster(v, slug).result.Ok?
    requires GetCluster(v, slug).Ok? && ChannelsStrict(GetCluster(v, slug).value).Some?
    requires c in ChannelsStrict(GetCluster(v, slug).value).value
    ensures var r := UnregisterCluster(v, slug).vault;
            Members(r, c).Some? && slug !in Members(r, c).value
  {
    var cluster := GetCluster(v, slug).value;
    var channels := ChannelsStrict(cluster).value;
    var removed := RemoveFromChannels(v, slug, channels);
    UnregisterClusterSteps(v, slug);
    RemoveFromChannelsOutcome(v, slug, channels);
    RemoveFromChannelsAt(v, slug, channels, c);
    var r := UnregisterCluster(v, slug).vault;
    var unlisted := Put(removed.vault, ClustersPath(v), ValueDoc(StrMap(ClusterMap(v).value - {slug})));
    ChannelPathIsNotClusterPath(v.prefix, c, slug, EnvironmentOf(cluster));
    MembersOutside(removed.vault, unlisted, {ClustersPath(v)}, c);
    MembersOutside(unlisted, r, {WrittenPath(v, cluster, slug)}, c);
  }
}
