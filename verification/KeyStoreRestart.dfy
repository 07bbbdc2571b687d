/** What a new process finds on the disk that an earlier one left. */
module KeyStoreRestart {
  import opened KeyStoreModel

  // ---- a start with every file readable ----

  /** The file system shows what is on disk: every key file is listed and can be read, and nothing else is a key. */
  ghost predicate Shows(io: Io, disk: map<Url, Key>)
  {
    && io.created && io.listing.Some?
    && (forall u :: u in disk ==> u in io.listing.value)
    && forall u :: u in io.listing.value ==> Shown(io.file(u), disk, u)
  }

  predicate Shown(outcome: Outcome, disk: map<Url, Key>, u: Url)
  {
    if u in disk then outcome.Read? && outcome.key == disk[u]
    else outcome.IsDirectory? || outcome.NoSuchFile? || outcome.NotAKey?
  }

  function Addresses(disk: map<Url, Key>): set<Address>
  {
    set u | u in disk :: disk[u].address
  }

  /** An account is that of a file on disk, whose key is cached. */
  predicate OfFile(s: State, disk: map<Url, Key>, a: Address)
    requires a in s.accounts
  {
    var u := s.accounts[a].url;
    u in disk && disk[u].address == a && a in s.keys && s.keys[a] == disk[u]
    && s.accounts[a] == Account(a, disk[u].keyType, u)
  }

  /** Exactly the files seen have been registered. */
  ghost predicate Registers(s: State, disk: map<Url, Key>, seen: set<Url>)
  {
    && s.loaded == seen && !s.listingPending && s.keys.Keys == s.accounts.Keys
    && (forall u :: u in s.pending ==> u in seen)
    && (forall u :: u in seen ==> u in disk && disk[u].address in s.accounts)
    && forall a :: a in s.accounts ==> OfFile(s, disk, a)
  }

  lemma RegistersOne(s: State, disk: map<Url, Key>, seen: set<Url>, u: Url, outcome: Outcome)
    requires Registers(s, disk, seen) && Shown(outcome, disk, u)
    ensures Registers(LoadOne(s, u, outcome), disk, if u in disk then seen + {u} else seen)
    ensures LoadOne(s, u, outcome).disk == s.disk
  {
    hide Register, Registers;
    if outcome.Read? {
      if !outcome.attributesSet {
        RegistersPending(s, disk, seen, u, outcome.key);
      } else {
        RegistersFile(s, disk, seen, u, outcome.key);
      }
    }
  }

  lemma RegistersFile(s: State, disk: map<Url, Key>, seen: set<Url>, u: Url, key: Key)
    requires Registers(s, disk, seen) && u in disk && key == disk[u]
    ensures var t := Register(s, u, key);
      Registers(t, disk, seen + {u}) && t.disk == s.disk && t.pending == s.pending
  {
    hide OfFile;
    var t := Register(s, u, key);
    forall a | a in t.accounts ensures OfFile(t, disk, a) {
      if a in s.accounts { SameFile(s, t, disk, a); } else { NewFile(t, disk, u, key); }
    }
  }

  lemma NewFile(t: State, disk: map<Url, Key>, u: Url, key: Key)
    requires u in disk && key == disk[u] && key.address in t.accounts
    requires t.accounts[key.address] == Account(key.address, key.keyType, u)
    requires key.address in t.keys && t.keys[key.address] == key
    ensures OfFile(t, disk, key.address)
  {}

  lemma RegistersPending(s: State, disk: map<Url, Key>, seen: set<Url>, u: Url, key: Key)
    requires Registers(s, disk, seen) && u in disk && key == disk[u]
    ensures var t := Register(s.(pending := s.pending + [u]), u, key);
      Registers(t, disk, seen + {u}) && t.disk == s.disk
  {
    hide OfFile;
    RegistersFile(s, disk, seen, u, key);
    var t, v := Register(s, u, key), Register(s.(pending := s.pending + [u]), u, key);
    assert v == t.(pending := s.pending + [u]);
    forall a | a in v.accounts ensures OfFile(v, disk, a) { SameFile(t, v, disk, a); }
  }

  lemma SameFile(s: State, t: State, disk: map<Url, Key>, a: Address)
    requires a in s.accounts && a in s.keys && OfFile(s, disk, a)
    requires a in t.accounts && t.accounts[a] == s.accounts[a] && a in t.keys && t.keys[a] == s.keys[a]
    ensures OfFile(t, disk, a)
  {}

  lemma {:induction false} RegistersFirst(s: State, urls: seq<Url>, n: nat, io: Io)
    requires n <= |urls| && s.accounts == map[] && s.keys == map[] && s.loaded == {} && !s.listingPending
    requires forall u :: u in urls ==> Shown(io.file(u), s.disk, u)
    ensures Registers(LoadFrom(s, urls, n, io), s.disk, set u | u in urls[..n] && u in s.disk)
    ensures LoadFrom(s, urls, n, io).disk == s.disk
  {
    hide LoadOne, Shown;
    if n > 0 {
      RegistersFirst(s, urls, n - 1, io);
      hide Registers;
      var u, seen := urls[n - 1], set u | u in urls[..n - 1] && u in s.disk;
      RegistersOne(LoadFrom(s, urls, n - 1, io), s.disk, seen, u, io.file(u));
      assert urls[..n] == urls[..n - 1] + [u];
      assert (set v | v in urls[..n] && v in s.disk) == if u in s.disk then seen + {u} else seen;
    }
  }

  /** A new process registers exactly the addresses of the keys on disk, each with one of its files. */
  lemma Restarted(io: Io, disk: map<Url, Key>)
    requires Shows(io, disk)
    ensures var t := Start(io, disk);
      && Complete(t) && t.disk == disk && t.accounts.Keys == t.keys.Keys == Addresses(disk)
      && forall a :: a in t.accounts ==> OfFile(t, disk, a)
  {
    hide LoadFrom;
    var urls := io.listing.value;
    var s := State(map[], map[], [], {}, false, !io.directoryExcluded, disk);
    RegistersFirst(s, urls, |urls|, io);
    assert urls[..|urls|] == urls;
    assert (set u | u in urls && u in disk) == disk.Keys;
    assert Start(io, disk) == LoadFrom(s, urls, |urls|, io);
  }

  // ---- what comes back, and what does not ----

  /** A deleted address is gone after a restart exactly if no other file had it. */
  lemma DeletedStaysGone(s: State, op: Op, io: Io)
    requires op.Delete? && Succeeds(s, op) && Shows(io, Apply(s, op).disk)
    ensures op.address in Start(io, Apply(s, op).disk).accounts <==>
      exists u :: u in s.disk && u != Enter(s, op.check).accounts[op.address].url && s.disk[u].address == op.address
  {
    hide Enter, Accesses, Shows, Start, Addresses;
    var u := Enter(s, op.check).accounts[op.address].url;
    SectionsKeepDisk(s, op.check, op.between, op.io);
    assert Apply(s, op).disk == s.disk - {u};
    Restarted(io, Apply(s, op).disk);
    WithoutFile(s.disk, u, op.address);
  }

  lemma WithoutFile(disk: map<Url, Key>, u: Url, a: Address)
    ensures a in Addresses(disk - {u}) <==> exists v :: v in disk && v != u && disk[v].address == a
  {
    if v :| v in disk && v != u && disk[v].address == a {
      assert v in disk - {u};
      FileAddress(disk - {u}, v);
    }
  }

  /** What was saved under its own address comes back. */
  lemma SavedComesBack(s: State, op: Op, io: Io)
    requires Consistent(s) && Derived(op) && AddedAddress(op).Some?
    requires Succeeds(s, op) && Shows(io, Apply(s, op).disk)
    ensures AddedAddress(op).value in Start(io, Apply(s, op).disk).accounts
  {
    hide Shows, Apply, Start, Addresses, Enter, Accesses, Consistent, Saves;
    var t := Apply(s, op);
    SuccessMeans(s, op);
    ApplyConsistent(s, op);
    Restarted(io, t.disk);
    match op {
      case CreateAccount(_, key, url, _) => FileAddress(t.disk, url);
      case AddAccount(_, account, _) =>
        CachedAddress(t, account.address);
        FileAddress(t.disk, account.url);
      case ImportJson(_, _, _, _, _, url, _) => FileAddress(t.disk, url);
      case ImportMnemonic(_, _, _, _, _, url, _) => FileAddress(t.disk, url);
      case _ =>
    }
  }

  lemma FileAddress(disk: map<Url, Key>, u: Url)
    requires u in disk
    ensures disk[u].address in Addresses(disk)
  {}

  // ---- nothing registered is lost by a restart ----

  /** What is read is what is on disk; other outcomes are always possible. */
  ghost predicate Truthful(io: Io, disk: map<Url, Key>)
  {
    forall u :: io.file(u).Read? ==> u in disk && io.file(u).key == disk[u]
  }

  ghost predicate AllTruthful(ios: seq<Io>, disk: map<Url, Key>)
  {
    forall i :: 0 <= i < |ios| ==> Truthful(ios[i], disk)
  }

  /** A place to save a key of the address: empty or with a key of the same address. */
  predicate Free(disk: map<Url, Key>, url: Url, address: Address)
  {
    url in disk ==> disk[url].address == address
  }

  /** Accesses read what is on disk, keys are not saved over those of other addresses, and mnemonics are imported under
      their own address. */
  ghost predicate Honest(s: State, op: Op)
  {
    match op
    case Access(io) => Truthful(io, s.disk)
    case CreateAccount(io, key, url, _) => Truthful(io, s.disk) && Free(s.disk, url, key.address)
    case AddAccount(io, account, _) => Truthful(io, s.disk) && Free(s.disk, account.url, account.address)
    case AddKey(io, _) => Truthful(io, s.disk)
    case ImportJson(check, between, io, _, address, url, _) =>
      Truthful(check, s.disk) && AllTruthful(between, s.disk) && Truthful(io, s.disk) && Free(s.disk, url, address)
    case ImportMnemonic(check, between, io, _, address, url, _) =>
      && Truthful(check, s.disk) && AllTruthful(between, s.disk) && Truthful(io, s.disk) && Free(s.disk, url, address)
      && Derived(op)
    case Update(check, between, io, account, _, _) =>
      && Truthful(check, s.disk) && AllTruthful(between, s.disk) && Truthful(io, s.disk)
      && Free(s.disk, account.url, account.address)
    case Delete(check, between, io, _, _, _) =>
      Truthful(check, s.disk) && AllTruthful(between, s.disk) && Truthful(io, s.disk)
  }

  ghost predicate HonestRun(s: State, ops: seq<Op>)
  {
    |ops| == 0 || (HonestRun(s, ops[..|ops| - 1]) && Honest(Run(s, ops[..|ops| - 1]), ops[|ops| - 1]))
  }

  /** Every account has a file on disk with a key of its address. */
  ghost predicate OnDisk(s: State)
  {
    forall a :: a in s.accounts ==> s.accounts[a].url in s.disk && s.disk[s.accounts[a].url].address == a
  }

  lemma LoadOneOnDisk(s: State, u: Url, outcome: Outcome)
    requires OnDisk(s) && (outcome.Read? ==> u in s.disk && outcome.key == s.disk[u])
    ensures OnDisk(LoadOne(s, u, outcome)) && LoadOne(s, u, outcome).disk == s.disk
  {
    hide OnDisk, Register;
    PendingOnDisk(s, s.pending + [u]);
    if outcome.Read? {
      RegisterOnDisk(if outcome.attributesSet then s else s.(pending := s.pending + [u]), u, outcome.key);
    }
  }

  lemma PendingOnDisk(s: State, pending: seq<Url>)
    requires OnDisk(s)
    ensures OnDisk(s.(pending := pending))
  {}

  lemma RegisterOnDisk(s: State, u: Url, key: Key)
    requires OnDisk(s) && u in s.disk && key == s.disk[u]
    ensures OnDisk(Register(s, u, key)) && Register(s, u, key).disk == s.disk
  {}

  lemma {:induction false} LoadOnDisk(s: State, urls: seq<Url>, n: nat, io: Io)
    requires OnDisk(s) && Truthful(io, s.disk) && n <= |urls|
    ensures OnDisk(LoadFrom(s, urls, n, io)) && LoadFrom(s, urls, n, io).disk == s.disk
  {
    hide LoadOne;
    if n > 0 {
      LoadOnDisk(s, urls, n - 1, io);
      LoadOneOnDisk(LoadFrom(s, urls, n - 1, io), urls[n - 1], io.file(urls[n - 1]));
    }
  }

  lemma EnterOnDisk(s: State, io: Io)
    requires OnDisk(s) && Truthful(io, s.disk)
    ensures OnDisk(Enter(s, io)) && Enter(s, io).disk == s.disk
  {
    hide LoadFrom, Truthful;
    var t := if s.backupPending then s.(backupPending := !io.directoryExcluded) else s;
    if t.listingPending {
      if io.created && io.listing.Some? {
        var listed := t.(listingPending := false, backupPending := !io.directoryExcluded);
        LoadOnDisk(listed, io.listing.value, |io.listing.value|, io);
      }
    } else {
      LoadOnDisk(t, t.pending, |t.pending|, io);
    }
  }

  lemma {:induction false} AccessesOnDisk(s: State, ios: seq<Io>)
    requires OnDisk(s) && AllTruthful(ios, s.disk)
    ensures OnDisk(Accesses(s, ios)) && Accesses(s, ios).disk == s.disk
  {
    hide Enter, OnDisk, Truthful;
    if |ios| > 0 {
      AccessesOnDisk(s, ios[..|ios| - 1]);
      EnterOnDisk(Accesses(s, ios[..|ios| - 1]), ios[|ios| - 1]);
    }
  }

  lemma SectionsOnDisk(s: State, check: Io, between: seq<Io>, io: Io)
    requires OnDisk(s) && Truthful(check, s.disk) && AllTruthful(between, s.disk) && Truthful(io, s.disk)
    ensures var t, u := Enter(s, check), Enter(Accesses(Enter(s, check), between), io);
      OnDisk(t) && t.disk == s.disk && OnDisk(u) && u.disk == s.disk
  {
    hide Enter, Accesses, OnDisk, Truthful;
    EnterOnDisk(s, check);
    AccessesOnDisk(Enter(s, check), between);
    EnterOnDisk(Accesses(Enter(s, check), between), io);
  }

  lemma AddedOnDisk(s: State, key: Key, account: Account, saving: Saving)
    requires OnDisk(s) && Free(s.disk, account.url, key.address)
    ensures OnDisk(Added(s, key, account, saving))
  {}

  lemma SavedOnDisk(s: State, key: Key, account: Account, saving: Saving)
    requires OnDisk(s) && Free(s.disk, account.url, key.address) && account.address == key.address
    ensures var t := Save(s, key, account.url, saving);
      OnDisk(t) && (Saves(s, saving) ==> OnDisk(t.(accounts := t.accounts[account.address := account])))
  {}

  lemma UpdatedOnDisk(s: State, key: Key, url: Url, saving: Saving)
    requires OnDisk(s) && Free(s.disk, url, key.address)
    ensures OnDisk(Updated(s, key, url, saving))
  {}

  lemma DeletedOnDisk(s: State, address: Address, url: Url, removed: bool)
    requires OnDisk(s) && (url in s.disk ==> s.disk[url].address == address)
    ensures OnDisk(Deleted(s, address, url, removed))
  {}

  lemma ApplyOnDisk(s: State, op: Op)
    requires Consistent(s) && OnDisk(s) && Honest(s, op)
    ensures OnDisk(Apply(s, op))
  {
    hide Enter, Accesses, OnDisk, Truthful, AllTruthful, Added, Updated, Deleted, Save, Saves, Consistent;
    match op {
      case Access(io) => EnterOnDisk(s, io);
      case CreateAccount(io, key, url, saving) =>
        EnterOnDisk(s, io);
        AddedOnDisk(Enter(s, io), key, Account(key.address, key.keyType, url), saving);
      case AddAccount(io, account, saving) =>
        EnterOnDisk(s, io);
        EnterConsistent(s, io);
        var t := Enter(s, io);
        if account.address in t.keys {
          CachedAddress(t, account.address);
          SavedOnDisk(t, t.keys[account.address], account, saving);
        }
      case AddKey(io, key) =>
        EnterOnDisk(s, io);
        KeysOnDisk(Enter(s, io), key);
      case ImportJson(check, between, io, imported, address, url, saving) =>
        SectionsOnDisk(s, check, between, io);
        if imported.Some? && imported.value.address == address {
          var account := Account(address, imported.value.keyType, url);
          AddedOnDisk(Enter(Accesses(Enter(s, check), between), io), imported.value, account, saving);
        }
      case ImportMnemonic(check, between, io, imported, address, url, saving) =>
        SectionsOnDisk(s, check, between, io);
        if imported.Some? {
          var account := Account(address, HdWallet, url);
          AddedOnDisk(Enter(Accesses(Enter(s, check), between), io), imported.value, account, saving);
        }
      case Update(check, between, io, account, replacement, saving) =>
        SectionsOnDisk(s, check, between, io);
        EnterConsistent(s, check);
        if account.address in Enter(s, check).keys && replacement.Some? {
          CachedAddress(Enter(s, check), account.address);
          if replacement.value.address == account.address {
            UpdatedOnDisk(Enter(Accesses(Enter(s, check), between), io), replacement.value, account.url, saving);
          }
        }
      case Delete(check, between, io, address, _, removed) =>
        SectionsOnDisk(s, check, between, io);
        var t := Enter(s, check);
        if address in t.accounts {
          FileOf(t, address);
          DeletedOnDisk(Enter(Accesses(t, between), io), address, t.accounts[address].url, removed);
        }
    }
  }

  lemma CachedAddress(s: State, a: Address)
    requires Consistent(s) && a in s.keys
    ensures s.keys[a].address == a
  {}

  lemma FileOf(s: State, a: Address)
    requires OnDisk(s) && a in s.accounts
    ensures s.accounts[a].url in s.disk && s.disk[s.accounts[a].url].address == a
  {}

  lemma KeysOnDisk(s: State, key: Key)
    requires OnDisk(s)
    ensures OnDisk(s.(keys := s.keys[key.address := key]))
  {}

  lemma HonestDerived(s: State, op: Op)
    requires Honest(s, op)
    ensures Derived(op)
  {}

  /** In every reachable state, every account has a file on disk with a key of its address. */
  lemma {:induction false} AlwaysOnDisk(io: Io, disk: map<Url, Key>, ops: seq<Op>)
    requires Truthful(io, disk) && HonestRun(Start(io, disk), ops)
    ensures OnDisk(Run(Start(io, disk), ops)) && Consistent(Run(Start(io, disk), ops))
  {
    hide Apply, Honest, Consistent, OnDisk, Truthful, Start;
    var s := Start(io, disk);
    if |ops| == 0 {
      StartOnDisk(io, disk);
    } else {
      var before, op := ops[..|ops| - 1], ops[|ops| - 1];
      AlwaysOnDisk(io, disk, before);
      HonestDerived(Run(s, before), op);
      ApplyOnDisk(Run(s, before), op);
      ApplyConsistent(Run(s, before), op);
    }
  }

  lemma StartOnDisk(io: Io, disk: map<Url, Key>)
    requires Truthful(io, disk)
    ensures OnDisk(Start(io, disk)) && Consistent(Start(io, disk))
  {
    hide Truthful, LoadFrom;
    var s := State(map[], map[], [], {}, false, true, disk);
    if io.created && io.listing.Some? {
      var listed := s.(backupPending := !io.directoryExcluded);
      LoadOnDisk(listed, io.listing.value, |io.listing.value|, io);
      LoadConsistent(listed, io.listing.value, |io.listing.value|, io);
    }
  }

  /** A restart loses no account: with every file readable, a new process registers all the accounts of the one
      before. */
  lemma NothingLost(io: Io, disk: map<Url, Key>, ops: seq<Op>, again: Io)
    requires Truthful(io, disk) && HonestRun(Start(io, disk), ops) && Shows(again, Run(Start(io, disk), ops).disk)
    ensures var s := Run(Start(io, disk), ops); s.accounts.Keys <= Start(again, s.disk).accounts.Keys
  {
    hide Start, Run, Shows, HonestRun, Truthful;
    var s := Run(Start(io, disk), ops);
    AlwaysOnDisk(io, disk, ops);
    Restarted(again, s.disk);
  }
}
