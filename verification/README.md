# cluster-info-client: the Vault-backed directory, modelled in Dafny

The client keeps a directory of clusters and release channels inside a
Vault key/value store. Everything lives under one path prefix (`kv/` by
default):

| document | path | contents |
|---|---|---|
| channel list | `data/channels/all` | the names of all channels |
| member list | `data/channels/<name>` | the slugs of the clusters on that channel |
| cluster document | `data/clusters/<environment>/<slug>` | `environment`, `value` (the secret props), `channels` |
| all-clusters map | `data/clusters/all` | slug → path of the cluster document |
| service-account key | `data/credentials/google/<client_email>` | the key, under `value` |

Every public operation is a sequence of reads and writes over that store.
The model makes the store a value, `Vault(prefix, docs)`, with
`docs: map<string, Doc>`. A document maps field names to a small `Value`
type: missing, string, list of names, string map, or any other JSON.
Each operation is a pure function returning `Step(vault, result)`.

- The store is returned on failure as well. The client never rolls back,
  and some failures come after writes have been made.
- Pairs of requests the client sends at the same time (`Promise.all`) write
  different paths, so they are modelled one after the other.

Modules, following the structure of `index.js`:

- `Results`: `Option`, `Result`, and the errors the client throws.
- `VaultStore`: the store, its reads and writes, and the frame predicate
  `SameOutside` ("no other path changed").
- `SortedLists`: how the client orders and edits lists of names.
  - JavaScript's default string `sort`, as insertion sort.
  - `push` + `sort` on a name not yet present (`AddName`).
  - `filter(x => x !== name)` (`Without`).
  - Lemmas relating these operations.
- `Paths`: the four path builders.
  - They never collide.
  - The regular expression `getCluster` uses to recover a cluster's
    environment from its map entry.
- `Channels`: the channel registry and the member-list helpers.
- `Clusters`: cluster documents, the all-clusters map, the membership
  operations, and the cluster lifecycle.
- `ServiceAccounts`: the service-account keys.

Behaviour the proofs pin down, beyond each operation's own contract:

- A brand-new slug cannot be registered with any channel.
  - `registerCluster` joins the channels before it records the slug in the
    all-clusters map.
  - `addClusterToChannel` requires that entry.
  - So the call always fails, after the cluster document has been written
    (`Clusters.RegisterFreshSlugWithChannelsFails`).
- `getCluster` recovers the environment from the map entry with
  `/clusters\/([^/]+)\//`.
  - It finds the saved document when the environment is a single path
    segment and the prefix contains no `clusters/`
    (`Clusters.RegisterThenGet`). These conditions are sufficient; the
    model does not claim they are necessary.
  - An environment such as `eu/west` is cut to `eu`
    (`Paths.EnvWithSlashIsCut`).
- `deleteChannel` does not guard the reserved name `all`. Deleting `all`
  deletes the channel list itself (`Channels.DeleteAllEmptiesRegistry`).
- `addClusterToChannel` followed by `removeClusterFromChannel` restores
  both the member list and the cluster's `channels` field, when both lists
  were sorted and held neither name and `getCluster` reads the document the
  writes go to. A document that had no `channels` field does not get its
  missing field back: it is left with `channels: []`
  (`Clusters.AddThenRemoveClusterRestores`).
- `removeClusterFromChannel` applied twice equals applying it once, except
  in one case: when both the slug and the channel are `all`, the first call
  takes `all` off the channel list and the second call fails
  (`Clusters.RemoveClusterFromChannelIdempotent`,
  `Clusters.RemoveAllFromAllUnlists`).

The model follows `index.js` as written, including where the repository's
tests, which inspect a Redis store, expect otherwise:

- `removeClusterFromChannel` writes `channels: []` back when the last
  channel goes (index.js:195-200). The tests at test/index.test.js:253 and
  test/index.test.js:261 expect the field to read `undefined` instead.
- `listClustersByChannel` returns `undefined` for a channel without a
  document (index.js:205-206), not an empty list.
- The channel list is returned as stored (index.js:162-163). It stays
  sorted only because every write keeps it sorted: `createChannel` sorts it
  (index.js:137-138, `SortedLists.SortAfterPush`) and `deleteChannel`'s
  filter keeps a sorted list sorted (index.js:151, `Channels.DeleteChannel`
  through `Removed`).

## Model

| member | source | states |
|---|---|---|
| VaultStore.Put | index.js:89 | a write replaces the document at its path and leaves every other path as it was |
| VaultStore.Delete | index.js:157 | a delete removes the document at its path and leaves every other path as it was |
| VaultStore.Clean | index.js:297-302 | a merged document as stored: `undefined` fields are dropped and every other field reads back unchanged |
| VaultStore.ReadDoc | index.js:309-326 | `_readVault`: the stored document at a path, and `{}` when there is none (the 404 branch) |
| SortedLists.BelowTotal | index.js:138 | any two names are ordered one way or the other by the default string sort |
| SortedLists.BelowTransitive | index.js:138 | the default string order is transitive |
| SortedLists.BelowAntisymmetric | index.js:138 | two names that each sort no later than the other are equal |
| SortedLists.BelowReflexive | index.js:138 | every name sorts no later than itself |
| SortedLists.Insert | index.js:271-272 | pushing a name onto a sorted list and sorting gives a sorted list with that one name more |
| SortedLists.Sort | index.js:137-138 | `sort()` returns a sorted permutation of its input |
| SortedLists.Without | index.js:279-281 | `filter(x => x !== name)` drops every occurrence of the name and keeps every other name with its multiplicity and in its original order (the result is a subsequence); the length is unchanged exactly when the name was absent, which is the test `_removeClusterFromChannel` uses to skip the write |
| SortedLists.WithoutKeepsSorted | index.js:195 | filtering a sorted list keeps it sorted |
| SortedLists.WithoutKeepsDistinct | index.js:195 | filtering a list without duplicates keeps it without duplicates |
| SortedLists.InsertAtEnd | index.js:137-138 | a name that sorts after the whole list is appended |
| SortedLists.SortOfSorted | index.js:138 | sorting an already sorted list returns it unchanged |
| SortedLists.SortAfterPush | index.js:137-138 | `push` then `sort` on a sorted list is sorted insertion |
| SortedLists.InsertKeepsDistinct | index.js:269-272 | inserting a name not yet present keeps a list free of duplicates |
| SortedLists.WithoutUndoesInsert | index.js:271-279 | filtering out a name that sorted insertion just added gives the list back |
| SortedLists.WithoutAbsent | index.js:279-281 | filtering out an absent name leaves the list unchanged |
| SortedLists.WithoutTwice | index.js:195 | filtering a name out a second time changes nothing |
| SortedLists.AddedKeeps | index.js:175-178 | adding a name keeps every name that was there |
| SortedLists.RemovedKeeps | index.js:195 | after a removal a name is present exactly when it was present before and is not the removed one |
| SortedLists.AddName | index.js:175-178 | add-if-absent: the name is present afterwards; the list is unchanged if it was present, otherwise sorted with exactly that name more |
| SortedLists.AddNameTwice | index.js:175-178 | adding a name a second time changes nothing |
| SortedLists.FilterRemoves | index.js:195 | filtering removes exactly that name, keeps the rest in their order, leaves an absent-name list unchanged, and keeps sortedness and distinctness |
| SortedLists.FilterUnique | index.js:195 | any subsequence of the list that holds every other name as often as the list does is exactly the filter's result, so `Removed` fixes the list completely |
| SortedLists.SortedElements | index.js:122 | `Object.keys(m).sort()`: sorted, without duplicates, and holding exactly the keys |
| Paths.SecretPath | index.js:334-336 | `_secretPath`: `<prefix>data/clusters/<environment>/<name>` |
| Paths.AllClustersPath | index.js:338-340 | `_allClustersPath`: `<prefix>data/clusters/all` |
| Paths.SecretSAPath | index.js:342-344 | `_secretSAPath`: `<prefix>data/credentials/google/<addr>` |
| Paths.ChannelPath | index.js:346-348 | `_channelPath`: `<prefix>data/channels/<channel>` |
| Paths.PathKinds | index.js:334-348 | cluster, channel and credential paths differ at a fixed position after the prefix |
| Paths.ChannelPathIsNotClusterPath | index.js:334-348 | a channel path is never a cluster document, the all-clusters map or a key path |
| Paths.SecretSAPathIsNotClusterPath | index.js:334-344 | a key path is never a cluster document or the all-clusters map |
| Paths.SecretPathIsNotAllClustersPath | index.js:334-340 | no cluster document sits at the all-clusters path |
| Paths.SecretPathInjective | index.js:334-336 | one slug under two environments gives two paths |
| Paths.ChannelPathInjective | index.js:346-348 | two channels never share a path |
| Paths.SecretSAPathInjective | index.js:342-344 | two addresses never share a key path |
| Paths.SlashFrom | index.js:128 | the run `[^/]+` matches: it contains no `/` and stops at a `/` or the end |
| Paths.SearchFrom | index.js:128 | `exec` reports nothing exactly when no position matches; otherwise it reports the capture of the leftmost match |
| Paths.NoMatchInPrefix | index.js:128 | a prefix without `clusters/` offers the expression no match before the builder's own `clusters/` |
| Paths.LeftmostMatch | index.js:128 | a match with none before it is the one `exec` reports |
| Paths.MatchInSecretPath | index.js:128 | the builder's `clusters/` starts a match whose capture is the first segment of the environment |
| Paths.EnvFromSecretPath | index.js:125-130 | on a cluster path, the expression yields the first segment of the environment it was built from |
| Paths.EnvFromSecretPathWhole | index.js:125-130 | an environment that is one non-empty segment is recovered whole |
| Paths.EnvWithSlashIsCut | index.js:128 | `kv/data/clusters/eu/west/c1` yields `eu`, not `eu/west` |
| Paths.EnvFromPath | index.js:128 | `/clusters\/([^/]+)\//.exec(path)[1]`: the capture of the leftmost match, or none where `exec` returns null |
| Channels.ListChannels | index.js:160-164 | a missing channel list reads as the empty list |
| Channels.ListClustersByChannel | index.js:203-207 | a channel without a document yields `undefined`, not an empty list |
| Channels.Members | index.js:267-277 | the member list `_addClusterToChannel` and `_removeClusterFromChannel` read, when the channel document holds a list |
| Channels.FirstUnlisted | index.js:259-263 | succeeds exactly when every requested channel is listed; otherwise reports the first one that is not |
| Channels.EnsureChannelsExist | index.js:256-264 | succeeds exactly when the list is readable and every requested channel is on it; it writes nothing |
| Channels.CreateChannel | index.js:132-147 | `all` and an already-listed name change nothing; otherwise the name is added to the list (sorted, no other change), the channel gets an empty member list, and no other path changes |
| Channels.DeleteChannel | index.js:149-158 | the list loses exactly that name, the member list is deleted, and no other path changes |
| Channels.AddToMembers | index.js:266-274 | the slug is added to the member list with no write when already there; a channel with no member list fails without a write |
| Channels.RemoveFromMembers | index.js:276-284 | the slug is filtered out of the member list with no write when absent; a channel with no member list fails without a write |
| Channels.CreateChannelIdempotent | index.js:132-147 | creating a channel twice is creating it once |
| Channels.CreateThenDeleteRestoresList | index.js:132-158 | deleting a channel just created restores the sorted channel list it was created in |
| Channels.DeleteChannelKeepsClusters | index.js:149-158 | deleting a channel touches no cluster document and not the all-clusters map |
| Channels.DeleteAllEmptiesRegistry | index.js:149-158 | deleting the unguarded name `all` empties the channel registry |
| Channels.AddThenRemoveMember | index.js:266-284 | adding a slug to a sorted member list that lacked it and removing it again restores the list |
| Clusters.SaveClusterData | index.js:286-303 | every key of the props reads back with its new value and every other key keeps its old one; no write when nothing changes; only the one document path changes |
| Clusters.SaveClusterDataIdempotent | index.js:289-295 | saving the same props twice writes only once |
| Clusters.ClusterMap | index.js:251-252 | the raw read and parse of the all-clusters map in `_ensureClusterExists`: a missing document or a non-object value is an error |
| Clusters.ClusterEnv | index.js:125-128 | getCluster's environment: the existence check, then the regex applied to the slug's map entry, failing where `exec` returns null |
| Clusters.EnsureClusterExists | index.js:249-254 | succeeds exactly when the map is readable and holds a truthy entry for the slug; a missing map is an error, not an empty map |
| Clusters.GetCluster | index.js:125-130 | fails as the existence check fails, before reading the document |
| Clusters.GetClusterAfter | index.js:125-130 | with the map unchanged, the cluster is read from the same path as before |
| Clusters.ListClusters | index.js:120-123 | the keys of the all-clusters map, sorted and without duplicates; fails exactly when the map cannot be read |
| Clusters.IndexMap | index.js:85 | the map as registerCluster reads it, with the `value = {}` default for a missing map |
| Clusters.IndexCluster | index.js:85-89 | the map afterwards sends the slug to the path and keeps every other entry; no write when the entry is already that path; a missing map counts as empty |
| Clusters.Link | index.js:180-183 | the write half of addClusterToChannel touches only the member list and the cluster document, and fails exactly when the channel has no member list |
| Clusters.Unlink | index.js:197-200 | the write half of removeClusterFromChannel touches only the member list and the cluster document, and fails exactly when the channel has no member list |
| Clusters.LinkJoinsMembers | index.js:181 | the slug is added to the channel's member list |
| Clusters.UnlinkDropsMember | index.js:198 | the slug is removed from the channel's member list |
| Clusters.LinkJoinsChannels | index.js:173-182 | the cluster's `channels` field becomes the old list with the channel added |
| Clusters.UnlinkDropsChannel | index.js:193-199 | the cluster's `channels` field becomes the old list with the channel filtered out |
| Clusters.LinkKeepsField | index.js:180-183 | no cluster document changes in any field other than `channels` |
| Clusters.UnlinkKeepsField | index.js:197-200 | no cluster document changes in any field other than `channels` |
| Clusters.AddClusterToChannel | index.js:166-184 | an unregistered cluster or an unlisted channel fails with no write; the prefix never changes |
| Clusters.RemoveClusterFromChannel | index.js:186-201 | an unregistered cluster, an unlisted channel, or a document with no `channels` field fails with no write |
| Clusters.AddClusterToChannelLinksBothSides | index.js:166-184 | succeeds exactly when both reads succeed and the channel has a member list; then the channel is on the cluster's list and the slug on the channel's, each added in sorted order |
| Clusters.RemoveClusterFromChannelUnlinksBothSides | index.js:186-201 | succeeds exactly when both reads succeed, the document has `channels` and the channel has a member list; then neither side names the other, and every other name is kept |
| Clusters.AddClusterToChannelKeepsMap | index.js:166-184 | the all-clusters map is not written |
| Clusters.RemoveClusterFromChannelKeepsMap | index.js:186-201 | the all-clusters map is not written |
| Clusters.AddClusterToChannelKeepsField | index.js:173-183 | of any cluster document, at most the `channels` field changes |
| Clusters.RemoveClusterFromChannelKeepsField | index.js:193-200 | of any cluster document, at most the `channels` field changes |
| Clusters.WriteHalvesKeepOtherChannels | index.js:180-200 | the member list of any other channel is untouched by either write half |
| Clusters.AddClusterToChannelKeepsOtherChannels | index.js:166-184 | the member lists of other channels are unchanged |
| Clusters.AddClusterToChannelKeepsMember | index.js:166-184 | no slug is taken off any member list |
| Clusters.RemoveClusterFromChannelKeepsOtherChannels | index.js:186-201 | the member lists of other channels are unchanged |
| Clusters.LinkKeepsListed | index.js:180-183 | a listed channel stays listed |
| Clusters.LinkRereadsDocument | index.js:173-182 | re-reading any document of the slug after the write half: same environment, and a `channels` list that adds up to the same list |
| Clusters.LinkRereadsCluster | index.js:166-184 | after the write half, getCluster reads the same document with the same environment and a `channels` list that adds up to the same list |
| Clusters.LinkAgain | index.js:175-183 | a second write half from such a list writes nothing and returns the same result |
| Clusters.AddClusterToChannelIdempotent | index.js:166-184 | applying addClusterToChannel twice is applying it once, failures included |
| Clusters.UnlinkKeepsListed | index.js:197-200 | a listed channel stays listed unless both slug and channel are `all` |
| Clusters.UnlinkRereadsDocument | index.js:193-199 | re-reading any document of the slug after the removal: same environment, and a `channels` list that filters to the same list |
| Clusters.UnlinkRereadsCluster | index.js:186-201 | after the removal, getCluster reads the same document with the same environment and a `channels` list that filters to the same list |
| Clusters.UnlinkAgain | index.js:195-200 | a second removal from such a list writes nothing and returns the same result |
| Clusters.RemoveClusterFromChannelIdempotent | index.js:186-201 | applying removeClusterFromChannel twice is applying it once, unless slug and channel are both `all` |
| Clusters.RemoveAllFromAllUnlists | index.js:186-201 | when removing the slug `all` from the channel `all` succeeds, `all` is no longer listed and a second identical call fails |
| Clusters.LinkThenUnlink | index.js:173-200 | the remove write half after the add write half gives back the member list and the `channels` list, when both were sorted and held neither name |
| Clusters.LinkThenReread | index.js:173-184 | after the add write half, getCluster reads the written document, whose environment is unchanged and whose `channels` holds the updated list, and the channel is still listed with a member list |
| Clusters.AddThenRemoveWriteHalves | index.js:166-201 | when getCluster reads the document the writes go to, addClusterToChannel succeeds with its write half, and the following removeClusterFromChannel runs its write half on the updated list and succeeds |
| Clusters.AddThenRemoveClusterRestores | index.js:166-201 | addClusterToChannel followed by removeClusterFromChannel succeeds and restores the member list and the cluster's `channels` field, when both lists were sorted and held neither name and getCluster reads the document the writes go to; a missing `channels` field comes back as `[]` |
| Clusters.AddToChannels | index.js:81-83 | the channel loop fails at once, with no write, when the cluster cannot be read |
| Clusters.AddToChannelsKeepsMap | index.js:81-83 | the channel loop never writes the all-clusters map |
| Clusters.AddToChannelsKeepsField | index.js:81-83 | the channel loop changes no cluster field other than `channels` |
| Clusters.AddToChannelsKeepsMember | index.js:81-83 | the channel loop takes no slug off any member list |
| Clusters.AddToChannelsJoins | index.js:81-83 | when the loop completes, the slug is on the member list of every channel it went through |
| Clusters.RegisterCluster | index.js:69-90 | a non-string environment fails before any access; an unlisted channel fails with no write |
| Clusters.RegisterClusterSavesDocument | index.js:74-79 | once the channel check passes, the cluster document holds the environment and the secret props, whatever happens after |
| Clusters.RegisterClusterReadsMap | index.js:79-85 | the map read at the end is the map the call started from |
| Clusters.RegisterClusterIndexes | index.js:85-89 | on success the map sends the slug to its document path and keeps every other entry; no map write when the entry was already that path |
| Clusters.RegisterClusterJoins | index.js:81-83 | on success the slug is on the member list of every requested channel |
| Clusters.RegisterFreshSlugWithChannelsFails | index.js:79-89 | a slug not yet in the map, registered with at least one channel, fails with the existence error after its document is written |
| Clusters.RegisterThenGet | index.js:69-130 | after a successful registration with a one-segment environment, getCluster returns the saved environment and secret props |
| Clusters.UpdateCluster | index.js:92-102 | an unregistered slug fails with no write; otherwise the document at the given environment holds the new value and environment, keeps its `channels`, and nothing else changes |
| Clusters.UpdateClusterIdempotent | index.js:92-102 | updating twice with the same arguments is updating once |
| Clusters.RemoveFromChannels | index.js:111 | removing the slug from several channels never changes the prefix |
| Clusters.RemoveFromMembersAt | index.js:276-284 | one removal keeps every other channel's member list and leaves the slug off the one it edits |
| Clusters.RemoveFromChannelsOutside | index.js:111 | the removals touch no document outside the member lists |
| Clusters.RemoveFromChannelsAt | index.js:111 | after the removals, no channel removed from still lists the slug, and other channels are unchanged |
| Clusters.RemoveFromChannelsOutcome | index.js:111 | the removals succeed exactly when every channel has a member list |
| Clusters.UnregisterCluster | index.js:104-118 | an unregistered slug or a document with no `channels` field fails with no write |
| Clusters.UnregisterClusterOutcome | index.js:104-118 | succeeds exactly when the cluster is registered, its document has `channels`, and each of those channels has a member list |
| Clusters.UnregisterClusterRemoves | index.js:113-117 | afterwards the map is the old map without the slug, listClusters does not show it, and the cluster document is deleted |
| Clusters.UnregisterClusterLeavesChannels | index.js:108-111 | afterwards no channel the cluster listed has the slug on its member list |
| ServiceAccounts.GetServiceAccount | index.js:220-223 | an address with no document yields `undefined` |
| ServiceAccounts.ClientEmail | index.js:210-211 | the key's `client_email` when it is truthy, none otherwise |
| ServiceAccounts.AddServiceAccount | index.js:209-218 | a key with no truthy `client_email` fails before any access; otherwise the key reads back under its address, with no write when it was already stored, and no other path changes |
| ServiceAccounts.RemoveServiceAccount | index.js:225-228 | the key reads back `undefined` and no other path changes |
| ServiceAccounts.ListServiceAccounts | index.js:230-234 | the listed addresses, sorted, with none lost or added |
| ServiceAccounts.AddServiceAccountIdempotent | index.js:213-215 | adding the same key twice is adding it once |
| ServiceAccounts.AddThenRemoveServiceAccount | index.js:209-228 | removing a key just added leaves no key there and every other path as before the add |
| ServiceAccounts.KeyPathIsApart | index.js:334-348 | a key path is never a cluster document, the map or a channel path |
| ServiceAccounts.AddServiceAccountKeepsDirectory | index.js:209-218 | adding a key leaves cluster documents, the map and channel documents untouched |

## Left out

- Client construction and authentication (index.js:8-40): AppRole login and the `vaultAuth` promise are I/O against Vault. The store is taken as already usable.
- `getCommon`, `issueCertificate` and `close` (index.js:236-247): they pass calls through to Vault or do nothing, and the directory does not use them.
- ServiceAccounts.ListServiceAccounts: the `vault.list` call is I/O. The addresses it returns are a parameter, so only the sorting is modelled.
- Concurrency in `Promise.all` (index.js:111, 168-171, 180-183, 188-200): the paired requests are modelled one after the other.
  - The paired writes touch different paths, so the final store is the same.
  - When both reads fail, the model reports the cluster's error; JavaScript reports whichever promise rejects first.
  - In unregisterCluster every removal still runs when one fails, as the writes of `Promise.all` siblings do.
- JSON text (index.js:298-301, 319-325): values are kept as `_readVault` returns them, after parsing.
  - Neither the `JSON.stringify` text nor the parse-with-fallback is modelled.
  - A string that is valid JSON text would read back parsed, and the model does not capture that.
- Duck typing: a stored field of an unexpected shape becomes an `Unreadable` error, where JavaScript might carry on.
  - Examples: a channel list that is not an array, or a map that is not an object.
- Deep equality (index.js:215, 290-292): `fast-deep-equal` is modelled as `==` on values. The two agree only when stored values are canonical, that is, when an `Opaque` value never holds JSON another constructor represents, such as `"[]"` (which is `Strs([])`) or `"{}"` (which is `StrMap(map[])`). The model assumes values are stored that way.
- HTTP status codes: a 404 from Vault is a path with no document, and other transport errors are not modelled.
- ServiceAccounts.AddServiceAccount: a key is modelled as a map of string fields. A non-string `client_email` or a nested key value is not modelled.
- Prototype keys: keys such as `__proto__` in the map and in documents are ordinary keys in the model.
- SortedLists.Below: compares characters as Dafny `char` values, while JavaScript compares UTF-16 code units. The two differ only for characters outside the Basic Multilingual Plane.
- VaultStore.TemplateText: prints a non-string `environment` the way a template literal does, but other JSON values print as their stored text.
- Clusters.AddClusterToChannel: its contract states the failure cases. The success case is stated by Clusters.AddClusterToChannelLinksBothSides and the `Keeps` lemmas, which keeps each proof small.
- Clusters.RemoveClusterFromChannel: its contract states the failure cases. The success case is stated by Clusters.RemoveClusterFromChannelUnlinksBothSides and the `Keeps` lemmas.
- Clusters.RegisterCluster: its contract states the failure cases. The success case is stated by the `RegisterCluster...` lemmas.
- Clusters.UnregisterCluster: its contract states the failure cases. The success case is stated by the `UnregisterCluster...` lemmas.
- Clusters.RemoveFromChannels: its contract states only that the prefix is kept. What the removals do is stated by the `RemoveFromChannels...` lemmas.
- Clusters.GetCluster: its contract states only the failure case. The success case is stated by Clusters.GetClusterAfter and Clusters.RegisterThenGet.
- ServiceAccounts.GetServiceAccount: its contract states only the missing case. The value of a stored key is stated by ServiceAccounts.AddServiceAccount.
