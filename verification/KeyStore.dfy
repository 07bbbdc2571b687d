/** KeyStore.swift: the object whose dictionaries and flags go through the states of the model. */
module KeyStore {
  import opened Options
  import opened KeyStoreModel

  class KeyStore {
    var accountsByAddress: map<Address, Account>
    var keysByAddress: map<Address, Key>
    var pendingAccountUrls: seq<Url>
    var loadedAccountUrls: set<Url>
    var directoryListingPending: bool
    var backupExclusionPending: bool
    ghost var disk: map<Url, Key>

    ghost function Value(): State
      reads this
    {
      State(
        accountsByAddress, keysByAddress, pendingAccountUrls, loadedAccountUrls, directoryListingPending,
        backupExclusionPending, disk)
    }

    /** init */
    constructor (io: Io, ghost disk: map<Url, Key>)
      ensures Value() == Start(io, disk)
    {
      accountsByAddress, keysByAddress, pendingAccountUrls, loadedAccountUrls := map[], map[], [], {};
      directoryListingPending, backupExclusionPending := false, true;
      this.disk := disk;
      new;
      LoadDirectory(io);
    }

    /** load */
    method LoadDirectory(io: Io)
      modifies this
      ensures Value() == Load(old(Value()), io)
    {
      if !io.created {
        directoryListingPending := true;
        return;
      }
      RetryDirectoryBackupExclusion(io);
      if io.listing.None? {
        directoryListingPending := true;
        return;
      }
      directoryListingPending := false;
      LoadAccounts(io.listing.value, io);
    }

    /** loadAccounts */
    method LoadAccounts(urls: seq<Url>, io: Io)
      modifies this
      ensures Value() == LoadFrom(old(Value()), urls, |urls|, io)
    {
      ghost var s := Value();
      pendingAccountUrls := [];
      var i := 0;
      while i < |urls|
        invariant 0 <= i <= |urls| && Value() == LoadFrom(s, urls, i, io)
      {
        LoadAccount(urls[i], io.file(urls[i]));
        i := i + 1;
      }
    }

    /** One turn of loadAccounts. */
    method LoadAccount(url: Url, outcome: Outcome)
      modifies this
      ensures Value() == LoadOne(old(Value()), url, outcome)
    {
      match outcome {
        case IsDirectory => return;
        case NoSuchFile => return;
        case Unreadable => pendingAccountUrls := pendingAccountUrls + [url];
        case NotAKey => return;
        case Read(key, attributesSet) =>
          if !attributesSet { pendingAccountUrls := pendingAccountUrls + [url]; }
          if url in loadedAccountUrls { return; }
          loadedAccountUrls := loadedAccountUrls + {url};
          if key.address !in keysByAddress { Cache(key); }
          if key.address !in accountsByAddress {
            accountsByAddress := accountsByAddress[key.address := Account(key.address, key.keyType, url)];
          }
      }
    }

    /** cache */
    method Cache(key: Key)
      modifies `keysByAddress
      ensures keysByAddress == old(keysByAddress)[key.address := key]
    {
      keysByAddress := keysByAddress[key.address := key];
    }

    method RetryDirectoryBackupExclusion(io: Io)
      modifies `backupExclusionPending
      ensures backupExclusionPending == !io.directoryExcluded
    {
      backupExclusionPending := !io.directoryExcluded;
    }

    /** The part of withStateLock before its body. */
    method WithStateLock(io: Io)
      modifies this
      ensures Value() == Enter(old(Value()), io)
    {
      if backupExclusionPending { RetryDirectoryBackupExclusion(io); }
      if directoryListingPending {
        LoadDirectory(io);
      } else if |pendingAccountUrls| > 0 {
        LoadAccounts(pendingAccountUrls, io);
      }
    }

    /** What other threads do between two locked sections. */
    method OtherAccesses(ios: seq<Io>)
      modifies this
      ensures Value() == Accesses(old(Value()), ios)
    {
      var i := 0;
      while i < |ios|
        invariant 0 <= i <= |ios| && Value() == Accesses(old(Value()), ios[..i])
      {
        assert ios[..i + 1][..i] == ios[..i];
        WithStateLock(ios[i]);
        i := i + 1;
      }
      assert ios[..|ios|] == ios;
    }

    /** hasUnreadableAccounts */
    method HasUnreadableAccounts() returns (r: bool)
      ensures r == HasUnreadable(Value())
    {
      if directoryListingPending { return true; }
      var i := 0;
      while i < |pendingAccountUrls|
        invariant 0 <= i <= |pendingAccountUrls|
        invariant forall j :: 0 <= j < i ==> pendingAccountUrls[j] in loadedAccountUrls
      {
        if pendingAccountUrls[i] !in loadedAccountUrls { return true; }
        i := i + 1;
      }
      return false;
    }

    /** save: whether the key is on disk. */
    method SaveKey(key: Key, url: Url, saving: Saving) returns (ok: bool)
      modifies `backupExclusionPending, `disk
      ensures Value() == Save(old(Value()), key, url, saving) && ok == Saves(old(Value()), saving)
    {
      var unreadable := HasUnreadableAccounts();
      if unreadable || saving.EncodingFails? { return false; }
      backupExclusionPending := true;
      if saving.ExclusionFails? { return false; }
      backupExclusionPending := false;
      if saving.WriteFails? { return false; }
      disk := disk[url := key];
      return true;
    }

    /** accounts, account(for:), key(for:) and the exports only read, after loading what is pending. */
    method AccountFor(address: Address, io: Io) returns (r: Option<Account>)
      modifies this
      ensures Value() == Apply(old(Value()), Access(io))
      ensures r == if address in accountsByAddress then Some(accountsByAddress[address]) else None
    {
      WithStateLock(io);
      return if address in accountsByAddress then Some(accountsByAddress[address]) else None;
    }

    method CreateAccount(key: Key, url: Url, io: Io, saving: Saving) returns (ok: bool)
      modifies this
      ensures Value() == Apply(old(Value()), Op.CreateAccount(io, key, url, saving))
      ensures ok == Succeeds(old(Value()), Op.CreateAccount(io, key, url, saving))
    {
      hide Enter, Save, Saves;
      WithStateLock(io);
      ok := Add(key, Account(key.address, key.keyType, url), saving);
    }

    /** The end of createAccount and of either import. */
    method Add(key: Key, account: Account, saving: Saving) returns (ok: bool)
      modifies this
      ensures Value() == Added(old(Value()), key, account, saving) && ok == Saves(old(Value()), saving)
    {
      hide Save, Saves;
      ok := SaveKey(key, account.url, saving);
      if !ok { return; }
      Cache(key);
      accountsByAddress := accountsByAddress[key.address := account];
    }

    method AddAccount(account: Account, io: Io, saving: Saving) returns (ok: bool)
      modifies this
      ensures Value() == Apply(old(Value()), Op.AddAccount(io, account, saving))
      ensures ok == Succeeds(old(Value()), Op.AddAccount(io, account, saving))
    {
      hide Enter, Save, Saves;
      WithStateLock(io);
      if account.address !in keysByAddress { return false; }
      ok := SaveKey(keysByAddress[account.address], account.url, saving);
      if !ok { return; }
      accountsByAddress := accountsByAddress[account.address := account];
    }

    method AddKey(key: Key, io: Io)
      modifies this
      ensures Value() == Apply(old(Value()), Op.AddKey(io, key))
    {
      WithStateLock(io);
      Cache(key);
    }

    /** import(json:): imported is the key made from the decrypted secret, if there is one. */
    method ImportJson(
      imported: Option<Key>, address: Address, url: Url, check: Io, between: seq<Io>, io: Io, saving: Saving)
      returns (ok: bool)
      modifies this
      ensures var op := Op.ImportJson(check, between, io, imported, address, url, saving);
        Value() == Apply(old(Value()), op) && ok == Succeeds(old(Value()), op)
    {
      hide Enter, Accesses, Save, Saves;
      var existing := AccountFor(address, check);
      if existing.Some? { return false; }
      if imported.None? || imported.value.address != address { return false; }
      OtherAccesses(between);
      WithStateLock(io);
      if address in accountsByAddress { return false; }
      ok := Add(imported.value, Account(address, imported.value.keyType, url), saving);
    }

    /** import(mnemonic:): the address is derived from the wallet, imported is the key made from the mnemonic. */
    method ImportMnemonic(
      imported: Option<Key>, address: Address, url: Url, check: Io, between: seq<Io>, io: Io, saving: Saving)
      returns (ok: bool)
      modifies this
      ensures var op := Op.ImportMnemonic(check, between, io, imported, address, url, saving);
        Value() == Apply(old(Value()), op) && ok == Succeeds(old(Value()), op)
    {
      hide Enter, Accesses, Save, Saves;
      var existing := AccountFor(address, check);
      if existing.Some? { return false; }
      if imported.None? { return false; }
      OtherAccesses(between);
      WithStateLock(io);
      if imported.value.address in accountsByAddress { return false; }
      ok := Add(imported.value, Account(address, HdWallet, url), saving);
    }

    method Update(account: Account, replacement: Option<Key>, check: Io, between: seq<Io>, io: Io, saving: Saving)
      returns (ok: bool)
      modifies this
      ensures var op := Op.Update(check, between, io, account, replacement, saving);
        Value() == Apply(old(Value()), op) && ok == Succeeds(old(Value()), op)
    {
      hide Enter, Accesses, Save, Saves;
      WithStateLock(check);
      if account.address !in keysByAddress { return false; }
      var key := keysByAddress[account.address];
      if replacement.None? || replacement.value.address != key.address { return false; }
      OtherAccesses(between);
      WithStateLock(io);
      ok := SaveKey(replacement.value, account.url, saving);
      if !ok { return; }
      Cache(replacement.value);
    }

    method Delete(account: Account, passwordFits: bool, check: Io, between: seq<Io>, io: Io, removed: bool)
      returns (ok: bool)
      modifies this
      ensures var op := Op.Delete(check, between, io, account.address, passwordFits, removed);
        Value() == Apply(old(Value()), op) && ok == Succeeds(old(Value()), op)
    {
      hide Enter, Accesses, HasUnreadable;
      WithStateLock(check);
      if account.address !in keysByAddress || account.address !in accountsByAddress { return false; }
      var storedAccount := accountsByAddress[account.address];
      if !passwordFits { return false; }
      OtherAccesses(between);
      WithStateLock(io);
      var unreadable := HasUnreadableAccounts();
      if unreadable || !removed { return false; }
      disk := disk - {storedAccount.url};
      keysByAddress := keysByAddress - {account.address};
      accountsByAddress := accountsByAddress - {account.address};
      return true;
    }
  }
}
