/** The channel registry: the list of channel names stored at `channels/all`,
    and the member list each channel keeps at `channels/<name>`. */
module Channels {
  import opened Results
  import opened SortedLists
  import opened VaultStore
  import opened Paths

  /** The reserved channel name: `channels/all` holds the channel list itself. */
  const AllChannels := "all"

  function ListPath(v: Vault): string
  {
    ChannelPath(v.prefix, AllChannels)
  }

  /** listChannels: the stored list, with a missing document or field read as
      the empty list. */
  function ListChannels(v: Vault): (r: Result<seq<string>>)
    ensures Lookup(v, ListPath(v)) == None ==> r == Ok([])
  {
    match Field(ReadDoc(v, ListPath(v)), "value")
    case Undefined => Ok([])
    case Strs(l) => Ok(l)
    case _ => Err(Unreadable(ListPath(v)))
  }

  /** The channel is in the channel list. */
  ghost predicate Listed(v: Vault, channel: string)
  {
    ListChannels(v).Ok? && channel in ListChannels(v).value
  }

  /** listClustersByChannel: the member list as stored; `undefined`, not the
      empty list, when the channel has no document. */
  function ListClustersByChannel(v: Vault, channel: string): (r: Value)
    ensures Lookup(v, ChannelPath(v.prefix, channel)) == None ==> r == Undefined
  {
    Field(ReadDoc(v, ChannelPath(v.prefix, channel)), "value")
  }

  /** The member list of a channel, when one of the right shape is stored. */
  function Members(v: Vault, channel: string): Option<seq<string>>
  {
    match ListClustersByChannel(v, channel)
    case Strs(l) => Some(l)
    case _ => None
  }

  /** The `forEach` of _ensureChannelsExist: the first requested channel
      missing from `list` is reported. */
  function FirstUnlisted(channels: seq<string>, list: seq<string>): (r: Result<()>)
    ensures r.Ok? <==> forall c :: c in channels ==> c in list
    ensures r.Err? ==>
              exists i :: 0 <= i < |channels| && r.error == ChannelMissing(channels[i]) &&
                          channels[i] !in list && forall j :: 0 <= j < i ==> channels[j] in list
  {
    if |channels| == 0 then Ok(())
    else if channels[0] !in list then Err(ChannelMissing(channels[0]))
    else
      var r := FirstUnlisted(channels[1..], list);
      assert channels == [channels[0]] + channels[1..];
      if r.Err? then
        var i :| 0 <= i < |channels[1..]| && r.error == ChannelMissing(channels[1..][i]) &&
                 channels[1..][i] !in list && forall j :: 0 <= j < i ==> channels[1..][j] in list;
        assert forall j :: 0 <= j < i + 1 ==> channels[j] in list by {
          forall j | 0 <= j < i + 1
            ensures channels[j] in list
          {
            if j > 0 {
              assert channels[j] == channels[1..][j - 1];
            }
          }
        }
        assert channels[i + 1] == channels[1..][i];
        r
      else
        r
  }

  /** _ensureChannelsExist: succeeds exactly when every requested channel is
      listed; it only reads. */
  function EnsureChannelsExist(v: Vault, channels: seq<string>): (r: Result<()>)
    ensures ListChannels(v).Err? ==> r == Err(ListChannels(v).error)
    ensures r.Ok? <==> ListChannels(v).Ok? && forall c :: c in channels ==> Listed(v, c)
  {
    match ListChannels(v)
    case Err(e) => Err(e)
    case Ok(list) => FirstUnlisted(channels, list)
  }

  /** The two writes of createChannel, for any new list: the list reads
      back, and so does the member list of a channel other than `all`. */
  lemma WriteListAndMembers(v: Vault, channel: string, listed: seq<string>)
    requires channel != AllChannels
    ensures var w := Put(Put(v, ListPath(v), ValueDoc(Strs(listed))), ChannelPath(v.prefix, channel), ValueDoc(Strs([])));
            && ListChannels(w) == Ok(listed)
            && Members(w, channel) == Some([])
            && SameOutside(v, w, {ListPath(v), ChannelPath(v.prefix, channel)})
  {
    if ChannelPath(v.prefix, channel) == ListPath(v) {
      ChannelPathInjective(v.prefix, channel, AllChannels);
    }
  }

  /** The two writes of deleteChannel, for any new list. */
  lemma WriteListAndDelete(v: Vault, channel: string, kept: seq<string>)
    ensures var w := Delete(Put(v, ListPath(v), ValueDoc(Strs(kept))), ChannelPath(v.prefix, channel));
            && Lookup(w, ChannelPath(v.prefix, channel)) == None
            && SameOutside(v, w, {ListPath(v), ChannelPath(v.prefix, channel)})
            && (channel != AllChannels ==> ListChannels(w) == Ok(kept))
  {
    if channel != AllChannels && ChannelPath(v.prefix, channel) == ListPath(v) {
      ChannelPathInjective(v.prefix, channel, AllChannels);
    }
  }

  /** createChannel: a no-op for `all` and for a listed name; otherwise the
      name joins the list, which is written back sorted, and the channel gets
      an empty member list. */
  function CreateChannel(v: Vault, channel: string): (r: Step<()>)
    ensures channel == AllChannels ==> r == Step(v, Ok(()))
    ensures channel != AllChannels && ListChannels(v).Err? ==> r == Step(v, Err(ListChannels(v).error))
    ensures Listed(v, channel) ==> r == Step(v, Ok(()))
    ensures channel != AllChannels && ListChannels(v).Ok? && !Listed(v, channel) ==>
              && r.result.Ok?
              && SameOutside(v, r.vault, {ListPath(v), ChannelPath(v.prefix, channel)})
              && ListChannels(r.vault).Ok?
              && Added(ListChannels(v).value, ListChannels(r.vault).value, channel)
              && Members(r.vault, channel) == Some([])
  {
    if channel == AllChannels then Step(v, Ok(()))
    else
      match ListChannels(v)
      case Err(e) => Step(v, Err(e))
      case Ok(list) =>
        if channel in list then Step(v, Ok(()))
        else
          var listed := AddName(list, channel);
          WriteListAndMembers(v, channel, listed);
          Step(Put(Put(v, ListPath(v), ValueDoc(Strs(listed))), ChannelPath(v.prefix, channel), ValueDoc(Strs([]))), Ok(()))
  }

  /** deleteChannel: the list is written back without the name, whether or
      not it was listed, and the channel's member list is deleted. */
  function DeleteChannel(v: Vault, channel: string): (r: Step<()>)
    ensures ListChannels(v).Err? ==> r == Step(v, Err(ListChannels(v).error))
    ensures ListChannels(v).Ok? ==>
              && r.result.Ok?
              && SameOutside(v, r.vault, {ListPath(v), ChannelPath(v.prefix, channel)})
              && Lookup(r.vault, ChannelPath(v.prefix, channel)) == None
    ensures ListChannels(v).Ok? && channel != AllChannels ==>
              && ListChannels(r.vault).Ok?
              && Removed(ListChannels(v).value, ListChannels(r.vault).value, channel)
  {
    match ListChannels(v)
    case Err(e) => Step(v, Err(e))
    case Ok(list) =>
      var kept := Without(list, channel);
      FilterRemoves(list, channel);
      WriteListAndDelete(v, channel, kept);
      Step(Delete(Put(v, ListPath(v), ValueDoc(Strs(kept))), ChannelPath(v.prefix, channel)), Ok(()))
  }

  /** _addClusterToChannel: the slug joins the member list unless it is
      already there, in which case nothing is written. A channel without a
      member list makes it fail, also without a write. */
  function AddToMembers(v: Vault, slug: string, channel: string): (r: Step<()>)
    ensures SameOutside(v, r.vault, {ChannelPath(v.prefix, channel)})
    ensures Members(v, channel).None? ==> r == Step(v, Err(Unreadable(ChannelPath(v.prefix, channel))))
    ensures Members(v, channel).Some? ==>
              && r.result.Ok?
              && Members(r.vault, channel).Some?
              && Added(Members(v, channel).value, Members(r.vault, channel).value, slug)
    ensures Members(v, channel).Some? && slug in Members(v, channel).value ==> r.vault == v
  {
    var path := ChannelPath(v.prefix, channel);
    match Members(v, channel)
    case None => Step(v, Err(Unreadable(path)))
    case Some(members) =>
      if slug in members then Step(v, Ok(()))
      else Step(Put(v, path, ValueDoc(Strs(AddName(members, slug)))), Ok(()))
  }

  /** _removeClusterFromChannel: the slug is filtered out of the member list;
      nothing is written when it was not there. A channel without a member
      list makes it fail, also without a write. */
  function RemoveFromMembers(v: Vault, slug: string, channel: string): (r: Step<()>)
    ensures SameOutside(v, r.vault, {ChannelPath(v.prefix, channel)})
    ensures Members(v, channel).None? ==> r == Step(v, Err(Unreadable(ChannelPath(v.prefix, channel))))
    ensures Members(v, channel).Some? ==>
              && r.result.Ok?
              && Members(r.vault, channel).Some?
              && Removed(Members(v, channel).value, Members(r.vault, channel).value, slug)
    ensures Members(v, channel).Some? && slug !in Members(v, channel).value ==> r.vault == v
  {
    var path := ChannelPath(v.prefix, channel);
    match Members(v, channel)
    case None => Step(v, Err(Unreadable(path)))
    case Some(members) =>
      var kept := Without(members, slug);
      FilterRemoves(members, slug);
      if |kept| == |members| then Step(v, Ok(()))
      else Step(Put(v, path, ValueDoc(Strs(kept))), Ok(()))
  }

  // ---------------------------------------------------------------------
  // Properties relating several calls.

  /** Creating a channel twice is creating it once. */
  lemma CreateChannelIdempotent(v: Vault, channel: string)
    requires CreateChannel(v, channel).result.Ok?
    ensures var once := CreateChannel(v, channel).vault;
            CreateChannel(once, channel) == Step(once, Ok(()))
  {
    var once := CreateChannel(v, channel).vault;
    if channel != AllChannels && !Listed(v, channel) {
      assert channel in ListChannels(once).value;
    }
  }

  /** Deleting a channel just created gives back the channel list it was
      created in, when that list was sorted. */
  lemma CreateThenDeleteRestoresList(v: Vault, channel: string)
    requires channel != AllChannels && ListChannels(v).Ok? && !Listed(v, channel)
    requires Sorted(ListChannels(v).value)
    ensures var created := CreateChannel(v, channel).vault;
            ListChannels(DeleteChannel(created, channel).vault) == ListChannels(v)
  {
    var before := ListChannels(v).value;
    var listed := AddName(before, channel);
    WriteListAndMembers(v, channel, listed);
    var created := CreateChannel(v, channel).vault;
    assert ListChannels(created) == Ok(listed);
    var kept := Without(listed, channel);
    WriteListAndDelete(created, channel, kept);
    SortAfterPush(before, channel);
    WithoutUndoesInsert(before, channel);
    assert kept == before;
  }

  /** Deleting a channel touches no cluster document and not the
      all-clusters map. */
  lemma DeleteChannelKeepsClusters(v: Vault, channel: string, name: string, environment: string)
    ensures var r := DeleteChannel(v, channel).vault;
            && Lookup(r, SecretPath(v.prefix, name, environment)) == Lookup(v, SecretPath(v.prefix, name, environment))
            && Lookup(r, AllClustersPath(v.prefix)) == Lookup(v, AllClustersPath(v.prefix))
  {
    ChannelPathIsNotClusterPath(v.prefix, channel, name, environment);
    ChannelPathIsNotClusterPath(v.prefix, AllChannels, name, environment);
  }

  /** The reserved name is not guarded on deletion: deleting `all` deletes
      the channel list, so every channel disappears from it. */
  lemma DeleteAllEmptiesRegistry(v: Vault)
    requires ListChannels(v).Ok?
    ensures ListChannels(DeleteChannel(v, AllChannels).vault) == Ok([])
  {
  }

  /** Adding a slug to a member list and then removing it gives the list
      back, when it was sorted and did not hold the slug. */
  lemma AddThenRemoveMember(v: Vault, slug: string, channel: string)
    requires Members(v, channel).Some? && slug !in Members(v, channel).value
    requires Sorted(Members(v, channel).value)
    ensures var added := AddToMembers(v, slug, channel).vault;
            Members(RemoveFromMembers(added, slug, channel).vault, channel) == Members(v, channel)
  {
    var before := Members(v, channel).value;
    SortAfterPush(before, slug);
    WithoutUndoesInsert(before, slug);
  }
}
