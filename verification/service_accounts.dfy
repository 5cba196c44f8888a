/** Service-account keys: one document per key under the credentials
    sub-tree, addressed by the key's `client_email`. */
module ServiceAccounts {
  import opened Results
  import opened SortedLists
  import opened VaultStore
  import opened Paths

  /** A service-account key as the directory handles it: a JSON object whose
      fields are strings. */
  type Key = map<string, string>

  /** The `client_email` of a key, when it has a truthy one. */
  function ClientEmail(key: Key): Option<string>
  {
    if "client_email" in key && key["client_email"] != "" then Some(key["client_email"]) else None
  }

  function KeyPath(v: Vault, addr: string): string
  {
    SecretSAPath(v.prefix, addr)
  }

  /** getServiceAccount: the `value` field of the key's document; `undefined`
      when there is none. */
  function GetServiceAccount(v: Vault, addr: string): (r: Value)
    ensures Lookup(v, KeyPath(v, addr)) == None ==> r == Undefined
  {
    Field(ReadDoc(v, KeyPath(v, addr)), "value")
  }

  /** addServiceAccount: a key without a truthy `client_email` is refused
      before the store is read; a key equal to the stored one is not written
      again; otherwise the key is stored under its address. */
  function AddServiceAccount(v: Vault, key: Key): (r: Step<()>)
    ensures ClientEmail(key).None? ==> r.vault == v && r.result.Err? && r.result.error.BadArgument?
    ensures ClientEmail(key).Some? ==>
              var addr := ClientEmail(key).value;
              && r.result.Ok?
              && SameOutside(v, r.vault, {KeyPath(v, addr)})
              && GetServiceAccount(r.vault, addr) == StrMap(key)
              && (GetServiceAccount(v, addr) == StrMap(key) ==> r.vault == v)
  {
    match ClientEmail(key)
    case None => Step(v, Err(BadArgument("service account key must have a `client_email` property")))
    case Some(addr) =>
      if GetServiceAccount(v, addr) == StrMap(key) then Step(v, Ok(()))
      else Step(Put(v, KeyPath(v, addr), ValueDoc(StrMap(key))), Ok(()))
  }

  /** removeServiceAccount: delete the key's document. */
  function RemoveServiceAccount(v: Vault, addr: string): (r: Step<()>)
    ensures r.result.Ok?
    ensures SameOutside(v, r.vault, {KeyPath(v, addr)})
    ensures GetServiceAccount(r.vault, addr) == Undefined
  {
    Step(Delete(v, KeyPath(v, addr)), Ok(()))
  }

  /** listServiceAccounts: the addresses the store lists under the
      credentials sub-tree, sorted. The listing itself is a parameter. */
  function ListServiceAccounts(listed: seq<string>): (r: seq<string>)
    ensures Sorted(r)
    ensures multiset(r) == multiset(listed)
  {
    Sort(listed)
  }

  /** Adding the same key twice is adding it once. */
  lemma AddServiceAccountIdempotent(v: Vault, key: Key)
    ensures var once := AddServiceAccount(v, key);
            AddServiceAccount(once.vault, key) == once
  {
  }

  /** Removing a key just added leaves no key at that address, and every
      other document as it was before the add. */
  lemma AddThenRemoveServiceAccount(v: Vault, key: Key)
    requires ClientEmail(key).Some?
    ensures var addr := ClientEmail(key).value;
            var r := RemoveServiceAccount(AddServiceAccount(v, key).vault, addr).vault;
            && GetServiceAccount(r, addr) == Undefined
            && SameOutside(v, r, {KeyPath(v, addr)})
  {
  }

  /** A key's document is never a cluster document, the all-clusters map,
      or a channel document: storing or removing keys leaves the directory
      itself untouched. */
  lemma KeyPathIsApart(v: Vault, addr: string, name: string, environment: string, channel: string)
    ensures KeyPath(v, addr) != SecretPath(v.prefix, name, environment)
    ensures KeyPath(v, addr) != AllClustersPath(v.prefix)
    ensures KeyPath(v, addr) != ChannelPath(v.prefix, channel)
  {
    SecretSAPathIsNotClusterPath(v.prefix, addr, name, environment);
    PathKinds(v.prefix, name, environment, channel, addr);
  }

  lemma AddServiceAccountKeepsDirectory(v: Vault, key: Key, name: string, environment: string, channel: string)
    ensures var r := AddServiceAccount(v, key).vault;
            && Lookup(r, SecretPath(v.prefix, name, environment)) == Lookup(v, SecretPath(v.prefix, name, environment))
            && Lookup(r, AllClustersPath(v.prefix)) == Lookup(v, AllClustersPath(v.prefix))
            && Lookup(r, ChannelPath(v.prefix, channel)) == Lookup(v, ChannelPath(v.prefix, channel))
  {
    if ClientEmail(key).Some? {
      KeyPathIsApart(v, ClientEmail(key).value, name, environment, channel);
    }
  }
}
