/** KeyStore.swift as a state machine: what is registered, what is still unread, and what is on disk. Every
    access to the file system is an outcome given from outside. */
module KeyStoreModel {
  import opened Arith
  import opened Options

  type Address = seq<u8>
  type Url = string

  datatype AccountType = EncryptedKey | HdWallet

  datatype Key = Key(address: Address, keyType: AccountType, secret: seq<u8>)

  datatype Account = Account(address: Address, accountType: AccountType, url: Url)

  /** What reading a listed file gives; for a key, whether its protection and backup attributes could be set. */
  datatype Outcome = IsDirectory | NoSuchFile | Unreadable | NotAKey | Read(key: Key, attributesSet: bool)

  /** The file system at one access: whether the directory can be created, its listing, its backup
      attribute, and the files. */
  datatype Io = Io(created: bool, listing: Option<seq<Url>>, directoryExcluded: bool, file: Url -> Outcome)

  /** How far a save gets past its guard. */
  datatype Saving = EncodingFails | ExclusionFails | WriteFails | Committed

  datatype State = State(
    accounts: map<Address, Account>,
    keys: map<Address, Key>,
    pending: seq<Url>,
    loaded: set<Url>,
    listingPending: bool,
    backupPending: bool,
    disk: map<Url, Key>)

  /** hasUnreadableAccounts */
  predicate HasUnreadable(s: State)
  {
    s.listingPending || exists u :: u in s.pending && u !in s.loaded
  }

  // ---- loading ----

  /** A key file that could be read for the first time is registered, unless its address is already. */
  function Register(s: State, u: Url, key: Key): State
  {
    if u in s.loaded then s else
    var t := s.(loaded := s.loaded + {u});
    var t := if key.address in t.keys then t else t.(keys := t.keys[key.address := key]);
    if key.address in t.accounts then t
    else t.(accounts := t.accounts[key.address := Account(key.address, key.keyType, u)])
  }

  /** One turn of loadAccounts. */
  function LoadOne(s: State, u: Url, outcome: Outcome): State
  {
    match outcome
    case IsDirectory => s
    case NoSuchFile => s
    case NotAKey => s
    case Unreadable => s.(pending := s.pending + [u])
    case Read(key, attributesSet) => Register(if attributesSet then s else s.(pending := s.pending + [u]), u, key)
  }

  function LoadFrom(s: State, urls: seq<Url>, n: nat, io: Io): State
    requires n <= |urls|
  {
    if n == 0 then s.(pending := []) else LoadOne(LoadFrom(s, urls, n - 1, io), urls[n - 1], io.file(urls[n - 1]))
  }

  /** load */
  function Load(s: State, io: Io): State
  {
    if !io.created then s.(listingPending := true)
    else if io.listing.None? then s.(listingPending := true, backupPending := !io.directoryExcluded)
    else
      var listed := s.(listingPending := false, backupPending := !io.directoryExcluded);
      LoadFrom(listed, io.listing.value, |io.listing.value|, io)
  }

  /** What withStateLock does before its body. */
  function Enter(s: State, io: Io): State
  {
    var t := if s.backupPending then s.(backupPending := !io.directoryExcluded) else s;
    if t.listingPending then Load(t, io)
    else if |t.pending| > 0 then LoadFrom(t, t.pending, |t.pending|, io)
    else t
  }

  /** Accesses one after the other: what other threads may do between two locked sections of a change. Changes exclude
      each other, but reads only wait for a section to end. */
  function Accesses(s: State, ios: seq<Io>): State
  {
    if |ios| == 0 then s else Enter(Accesses(s, ios[..|ios| - 1]), ios[|ios| - 1])
  }

  // ---- changes ----

  /** save: refused while a listed file is unread; otherwise the key is on disk if it gets that far. */
  function Save(s: State, key: Key, url: Url, saving: Saving): State
  {
    if HasUnreadable(s) then s
    else match saving
      case EncodingFails => s
      case ExclusionFails => s.(backupPending := true)
      case WriteFails => s.(backupPending := false)
      case Committed => s.(backupPending := false, disk := s.disk[url := key])
  }

  predicate Saves(s: State, saving: Saving)
  {
    !HasUnreadable(s) && saving.Committed?
  }

  /** The public operations, with the outcomes of all their accesses and of those between their two sections. Keys that
      cannot be decrypted or made are missing. */
  datatype Op =
    | Access(io: Io)
    | CreateAccount(io: Io, key: Key, url: Url, saving: Saving)
    | AddAccount(io: Io, account: Account, saving: Saving)
    | AddKey(io: Io, key: Key)
    | ImportJson(check: Io, between: seq<Io>, io: Io, imported: Option<Key>, address: Address, url: Url, saving: Saving)
    | ImportMnemonic(
        check: Io, between: seq<Io>, io: Io, imported: Option<Key>, address: Address, url: Url, saving: Saving)
    | Update(check: Io, between: seq<Io>, io: Io, account: Account, replacement: Option<Key>, saving: Saving)
    | Delete(check: Io, between: seq<Io>, io: Io, address: Address, passwordFits: bool, removed: bool)

  /** A new or imported key is saved, cached and registered, or nothing but the outcome of the save remains. */
  function Added(s: State, key: Key, account: Account, saving: Saving): State
  {
    var t := Save(s, key, account.url, saving);
    if Saves(s, saving)
    then t.(keys := t.keys[key.address := key], accounts := t.accounts[key.address := account])
    else t
  }

  /** The second section of either import. */
  function Imported(s: State, key: Key, account: Account, saving: Saving): State
  {
    if key.address in s.accounts then s else Added(s, key, account, saving)
  }

  /** The second section of update. */
  function Updated(s: State, key: Key, url: Url, saving: Saving): State
  {
    var t := Save(s, key, url, saving);
    if Saves(s, saving) then t.(keys := t.keys[key.address := key]) else t
  }

  /** The second section of delete. */
  function Deleted(s: State, address: Address, url: Url, removed: bool): State
  {
    if HasUnreadable(s) || !removed then s
    else s.(disk := s.disk - {url}, keys := s.keys - {address}, accounts := s.accounts - {address})
  }

  function Apply(s: State, op: Op): State
  {
    match op
    case Access(io) => Enter(s, io)
    case CreateAccount(io, key, url, saving) => Added(Enter(s, io), key, Account(key.address, key.keyType, url), saving)
    case AddAccount(io, account, saving) =>
      var t := Enter(s, io);
      if account.address !in t.keys then t
      else
        var u := Save(t, t.keys[account.address], account.url, saving);
        if Saves(t, saving) then u.(accounts := u.accounts[account.address := account]) else u
    case AddKey(io, key) => var t := Enter(s, io); t.(keys := t.keys[key.address := key])
    case ImportJson(check, between, io, imported, address, url, saving) =>
      var t := Enter(s, check);
      if address in t.accounts || imported.None? || imported.value.address != address then t
      else
        var account := Account(address, imported.value.keyType, url);
        Imported(Enter(Accesses(t, between), io), imported.value, account, saving)
    case ImportMnemonic(check, between, io, imported, address, url, saving) =>
      var t := Enter(s, check);
      if address in t.accounts || imported.None? then t
      else Imported(Enter(Accesses(t, between), io), imported.value, Account(address, HdWallet, url), saving)
    case Update(check, between, io, account, replacement, saving) =>
      var t := Enter(s, check);
      if account.address !in t.keys || replacement.None?
         || replacement.value.address != t.keys[account.address].address then t
      else Updated(Enter(Accesses(t, between), io), replacement.value, account.url, saving)
    case Delete(check, between, io, address, passwordFits, removed) =>
      var t := Enter(s, check);
      if address !in t.keys || address !in t.accounts || !passwordFits then t
      else Deleted(Enter(Accesses(t, between), io), address, t.accounts[address].url, removed)
  }

  /** Whether an operation reports success. */
  predicate Succeeds(s: State, op: Op)
  {
    match op
    case Access(_) => true
    case CreateAccount(io, _, _, saving) => Saves(Enter(s, io), saving)
    case AddAccount(io, account, saving) => account.address in Enter(s, io).keys && Saves(Enter(s, io), saving)
    case AddKey(_, _) => true
    case ImportJson(check, between, io, imported, address, _, saving) =>
      var t := Enter(s, check);
      && address !in t.accounts && imported.Some? && imported.value.address == address
      && (var u := Enter(Accesses(t, between), io); address !in u.accounts && Saves(u, saving))
    case ImportMnemonic(check, between, io, imported, address, _, saving) =>
      var t := Enter(s, check);
      && address !in t.accounts && imported.Some?
      && (var u := Enter(Accesses(t, between), io); imported.value.address !in u.accounts && Saves(u, saving))
    case Update(check, between, io, account, replacement, saving) =>
      var t := Enter(s, check);
      && account.address in t.keys && replacement.Some? && replacement.value.address == t.keys[account.address].address
      && Saves(Enter(Accesses(t, between), io), saving)
    case Delete(check, between, io, address, passwordFits, removed) =>
      var t := Enter(s, check);
      && address in t.keys && address in t.accounts && passwordFits
      && !HasUnreadable(Enter(Accesses(t, between), io)) && removed
  }

  /** A new process, and its operations one after the other. */
  function Start(io: Io, disk: map<Url, Key>): State
  {
    Load(State(map[], map[], [], {}, false, true, disk), io)
  }

  function Run(s: State, ops: seq<Op>): State
  {
    if |ops| == 0 then s else Apply(Run(s, ops[..|ops| - 1]), ops[|ops| - 1])
  }

  // ---- every account has its key ----

  ghost predicate Consistent(s: State)
  {
    && (forall a :: a in s.keys ==> s.keys[a].address == a)
    && (forall a :: a in s.accounts ==> s.accounts[a].address == a && a in s.keys)
  }

  lemma RegisterConsistent(s: State, u: Url, key: Key)
    requires Consistent(s)
    ensures Consistent(Register(s, u, key))
  {}

  lemma PendingConsistent(s: State, pending: seq<Url>)
    requires Consistent(s)
    ensures Consistent(s.(pending := pending))
  {}

  lemma LoadOneConsistent(s: State, u: Url, outcome: Outcome)
    requires Consistent(s)
    ensures Consistent(LoadOne(s, u, outcome))
  {
    hide Consistent, Register;
    match outcome {
      case Unreadable => PendingConsistent(s, s.pending + [u]);
      case Read(key, attributesSet) =>
        PendingConsistent(s, s.pending + [u]);
        RegisterConsistent(if attributesSet then s else s.(pending := s.pending + [u]), u, key);
      case _ =>
    }
  }

  lemma StartsConsistent(s: State, urls: seq<Url>, io: Io)
    requires Consistent(s)
    ensures Consistent(LoadFrom(s, urls, 0, io))
  {}

  lemma {:induction false} LoadConsistent(s: State, urls: seq<Url>, n: nat, io: Io)
    requires Consistent(s) && n <= |urls|
    ensures Consistent(LoadFrom(s, urls, n, io))
  {
    hide Consistent, LoadOne;
    if n == 0 {
      StartsConsistent(s, urls, io);
    } else {
      LoadConsistent(s, urls, n - 1, io);
      LoadOneConsistent(LoadFrom(s, urls, n - 1, io), urls[n - 1], io.file(urls[n - 1]));
    }
  }

  lemma EnterConsistent(s: State, io: Io)
    requires Consistent(s)
    ensures Consistent(Enter(s, io))
  {
    if s.listingPending {
      if io.created && io.listing.Some? {
        var listed := s.(listingPending := false, backupPending := !io.directoryExcluded);
        LoadConsistent(listed, io.listing.value, |io.listing.value|, io);
      }
    } else {
      var t := if s.backupPending then s.(backupPending := !io.directoryExcluded) else s;
      LoadConsistent(t, t.pending, |t.pending|, io);
    }
  }

  lemma {:induction false} AccessesConsistent(s: State, ios: seq<Io>)
    requires Consistent(s)
    ensures Consistent(Accesses(s, ios))
  {
    hide Enter, Consistent;
    if |ios| > 0 {
      AccessesConsistent(s, ios[..|ios| - 1]);
      EnterConsistent(Accesses(s, ios[..|ios| - 1]), ios[|ios| - 1]);
    }
  }

  /** Both sections of a change start from a consistent state. */
  lemma SectionsConsistent(s: State, check: Io, between: seq<Io>, io: Io)
    requires Consistent(s)
    ensures Consistent(Enter(s, check)) && Consistent(Enter(Accesses(Enter(s, check), between), io))
  {
    hide Enter, Accesses, Consistent;
    EnterConsistent(s, check);
    AccessesConsistent(Enter(s, check), between);
    EnterConsistent(Accesses(Enter(s, check), between), io);
  }

  lemma AddedConsistent(s: State, key: Key, account: Account, saving: Saving)
    requires Consistent(s)
    ensures Saves(s, saving) ==> (Consistent(Added(s, key, account, saving)) <==> account.address == key.address)
    ensures !Saves(s, saving) ==> Consistent(Added(s, key, account, saving))
  {
    var t := Added(s, key, account, saving);
    if Saves(s, saving) { assert t.accounts[key.address] == account; }
  }

  lemma UpdatedConsistent(s: State, key: Key, url: Url, saving: Saving)
    requires Consistent(s)
    ensures Consistent(Updated(s, key, url, saving))
  {}

  lemma DeletedConsistent(s: State, address: Address, url: Url, removed: bool)
    requires Consistent(s)
    ensures Consistent(Deleted(s, address, url, removed))
  {}

  /** The key made from a mnemonic has the address that was derived from it: two computations of the library, which the
      mnemonic import does not compare. */
  predicate Derived(op: Op)
  {
    op.ImportMnemonic? && op.imported.Some? ==> op.imported.value.address == op.address
  }

  lemma ApplyConsistent(s: State, op: Op)
    requires Consistent(s) && Derived(op)
    ensures Consistent(Apply(s, op))
  {
    hide Enter, Accesses, Added, Updated, Deleted;
    match op {
      case Access(io) => EnterConsistent(s, io);
      case CreateAccount(io, key, url, saving) =>
        EnterConsistent(s, io);
        AddedConsistent(Enter(s, io), key, Account(key.address, key.keyType, url), saving);
      case AddAccount(io, _, _) => EnterConsistent(s, io);
      case AddKey(io, _) => EnterConsistent(s, io);
      case ImportJson(check, between, io, imported, address, url, saving) =>
        SectionsConsistent(s, check, between, io);
        if imported.Some? {
          AddedConsistent(Enter(Accesses(Enter(s, check), between), io), imported.value,
                          Account(address, imported.value.keyType, url), saving);
        }
      case ImportMnemonic(check, between, io, imported, address, url, saving) =>
        SectionsConsistent(s, check, between, io);
        if imported.Some? {
          var account := Account(address, HdWallet, url);
          AddedConsistent(Enter(Accesses(Enter(s, check), between), io), imported.value, account, saving);
        }
      case Update(check, between, io, account, replacement, saving) =>
        SectionsConsistent(s, check, between, io);
        if replacement.Some? {
          UpdatedConsistent(Enter(Accesses(Enter(s, check), between), io), replacement.value, account.url, saving);
        }
      case Delete(check, between, io, address, _, removed) =>
        SectionsConsistent(s, check, between, io);
        if address in Enter(s, check).accounts {
          var url := Enter(s, check).accounts[address].url;
          DeletedConsistent(Enter(Accesses(Enter(s, check), between), io), address, url, removed);
        }
    }
  }

  /** A mnemonic import that succeeds keeps accounts and keys together exactly if the two addresses are the same. */
  lemma ImportMnemonicExact(s: State, op: Op)
    requires Consistent(s) && op.ImportMnemonic? && Succeeds(s, op)
    ensures Consistent(Apply(s, op)) <==> op.imported.value.address == op.address
  {
    hide Enter, Accesses, Added, Consistent, Saves;
    SectionsConsistent(s, op.check, op.between, op.io);
    AddedConsistent(Enter(Accesses(Enter(s, op.check), op.between), op.io), op.imported.value,
                    Account(op.address, HdWallet, op.url), op.saving);
  }

  /** In every reachable state each account has a cached key, both with that address, as long as keys made from
      mnemonics have the addresses derived from them. */
  lemma {:induction false} AlwaysConsistent(io: Io, disk: map<Url, Key>, ops: seq<Op>)
    requires forall i :: 0 <= i < |ops| ==> Derived(ops[i])
    ensures Consistent(Run(Start(io, disk), ops))
  {
    if |ops| == 0 {
      var s := State(map[], map[], [], {}, false, true, disk);
      if io.created && io.listing.Some? {
        var listed := s.(listingPending := false, backupPending := !io.directoryExcluded);
        LoadConsistent(listed, io.listing.value, |io.listing.value|, io);
      }
    } else {
      AlwaysConsistent(io, disk, ops[..|ops| - 1]);
      ApplyConsistent(Run(Start(io, disk), ops[..|ops| - 1]), ops[|ops| - 1]);
    }
  }

  // ---- once everything listed has been read ----

  /** The listing is known and nothing in it is unread. */
  predicate Complete(s: State)
  {
    !HasUnreadable(s)
  }

  /** Loading files that have been loaded before registers nothing. */
  lemma {:induction false} LoadKnown(s: State, urls: seq<Url>, n: nat, io: Io)
    requires n <= |urls| && forall i :: 0 <= i < n ==> urls[i] in s.loaded
    ensures var t := LoadFrom(s, urls, n, io);
      && t == s.(pending := t.pending)
      && forall u :: u in t.pending ==> u in s.loaded
  {
    if n > 0 { LoadKnown(s, urls, n - 1, io); }
  }

  lemma EnterComplete(s: State, io: Io)
    requires Complete(s)
    ensures var t := Enter(s, io);
      Complete(t) && t.accounts == s.accounts && t.keys == s.keys && t.loaded == s.loaded && t.disk == s.disk
  {
    var t := if s.backupPending then s.(backupPending := !io.directoryExcluded) else s;
    if |t.pending| > 0 {
      forall i | 0 <= i < |t.pending| ensures t.pending[i] in t.loaded { assert t.pending[i] in s.pending; }
      LoadKnown(t, t.pending, |t.pending|, io);
    }
  }

  // ---- what loading does ----

  /** A listed file is read if it is opened and holds a key, or never will be needed: only an unreadable one is left. */
  predicate Unread(s: State, io: Io, u: Url)
  {
    u !in s.loaded && io.file(u).Unreadable?
  }

  /** What the first n files leave behind. */
  ghost predicate Left(s: State, t: State, urls: seq<Url>, n: nat, io: Io)
    requires n <= |urls|
  {
    && t.listingPending == s.listingPending
    && (forall u :: u in t.loaded <==> u in s.loaded || (u in urls[..n] && io.file(u).Read?))
    && (forall u :: u in t.pending ==> u in urls[..n] && (io.file(u).Unreadable? || io.file(u).Read?))
    && (forall u :: u in urls[..n] && io.file(u).Unreadable? ==> u in t.pending)
  }

  lemma LeftNext(s: State, t: State, urls: seq<Url>, n: nat, io: Io)
    requires n < |urls| && Left(s, t, urls, n, io)
    ensures Left(s, LoadOne(t, urls[n], io.file(urls[n])), urls, n + 1, io)
  {
    hide LoadOne;
    var u := urls[n];
    LoadOneLeaves(t, u, io.file(u));
    assert urls[..n + 1] == urls[..n] + [u];
    forall w: Url ensures w in urls[..n + 1] <==> w in urls[..n] || w == u {}
  }

  lemma RegisterLeaves(s: State, u: Url, key: Key)
    ensures var t := Register(s, u, key);
      t.listingPending == s.listingPending && t.pending == s.pending && t.loaded == s.loaded + {u}
  {
    assert u in s.loaded ==> s.loaded + {u} == s.loaded;
  }

  lemma LoadOneLeaves(t: State, u: Url, outcome: Outcome)
    ensures var v := LoadOne(t, u, outcome);
      && v.listingPending == t.listingPending && v.loaded == (if outcome.Read? then t.loaded + {u} else t.loaded)
      && v.pending == t.pending + if outcome.Unreadable? || (outcome.Read? && !outcome.attributesSet) then [u] else []
  {
    hide Register;
    assert t.pending + [] == t.pending;
    if outcome.Read? {
      RegisterLeaves(t, u, outcome.key);
      RegisterLeaves(t.(pending := t.pending + [u]), u, outcome.key);
    }
  }

  lemma {:induction false} LoadLeaves(s: State, urls: seq<Url>, n: nat, io: Io)
    requires n <= |urls|
    ensures Left(s, LoadFrom(s, urls, n, io), urls, n, io)
  {
    if n > 0 {
      hide Left, LoadOne;
      LoadLeaves(s, urls, n - 1, io);
      LeftNext(s, LoadFrom(s, urls, n - 1, io), urls, n - 1, io);
    }
  }

  /** After an access something is unread exactly if the directory could not be listed when it had to be, or one of the
      listed files, or of those left from before, has never been loaded and still cannot be read. */
  lemma EnterUnread(s: State, io: Io)
    ensures HasUnreadable(Enter(s, io)) <==>
      if s.listingPending then
        !io.created || io.listing.None? || exists u :: u in io.listing.value && Unread(s, io, u)
      else
        exists u :: u in s.pending && Unread(s, io, u)
  {
    hide LoadFrom;
    var t := if s.backupPending then s.(backupPending := !io.directoryExcluded) else s;
    if s.listingPending {
      if io.created && io.listing.Some? {
        var urls := io.listing.value;
        LoadLeaves(t.(listingPending := false, backupPending := !io.directoryExcluded), urls, |urls|, io);
        assert urls[..|urls|] == urls;
      }
    } else {
      LoadLeaves(t, t.pending, |t.pending|, io);
      assert t.pending[..|t.pending|] == t.pending;
    }
  }

  /** Loading registers, but never takes back or replaces what is registered. */
  ghost predicate Extended(s: State, t: State)
  {
    && t.disk == s.disk && s.loaded <= t.loaded
    && (forall a :: a in s.keys ==> a in t.keys && t.keys[a] == s.keys[a])
    && (forall a :: a in s.accounts ==> a in t.accounts && t.accounts[a] == s.accounts[a])
  }

  lemma RegisterExtends(s: State, t: State, u: Url, key: Key)
    requires Extended(s, t)
    ensures Extended(s, Register(t, u, key))
  {}

  lemma LoadOneExtends(s: State, t: State, u: Url, outcome: Outcome)
    requires Extended(s, t)
    ensures Extended(s, LoadOne(t, u, outcome))
  {
    hide Register, Extended;
    PendingExtends(s, t, t.pending + [u]);
    if outcome.Read? {
      RegisterExtends(s, if outcome.attributesSet then t else t.(pending := t.pending + [u]), u, outcome.key);
    }
  }

  lemma PendingExtends(s: State, t: State, pending: seq<Url>)
    requires Extended(s, t)
    ensures Extended(s, t.(pending := pending))
  {}

  lemma {:induction false} LoadExtends(s: State, urls: seq<Url>, n: nat, io: Io)
    requires n <= |urls|
    ensures Extended(s, LoadFrom(s, urls, n, io))
  {
    if n > 0 {
      hide LoadOne, Extended;
      LoadExtends(s, urls, n - 1, io);
      LoadOneExtends(s, LoadFrom(s, urls, n - 1, io), urls[n - 1], io.file(urls[n - 1]));
    }
  }

  lemma EnterExtends(s: State, io: Io)
    ensures Extended(s, Enter(s, io))
  {
    hide LoadFrom, Extended;
    ExtendedItself(s);
    var t := if s.backupPending then s.(backupPending := !io.directoryExcluded) else s;
    if t.listingPending {
      if io.created && io.listing.Some? {
        var listed := t.(listingPending := false, backupPending := !io.directoryExcluded);
        LoadExtends(listed, io.listing.value, |io.listing.value|, io);
        ExtendedSame(s, listed, Enter(s, io));
      }
    } else {
      LoadExtends(t, t.pending, |t.pending|, io);
      ExtendedSame(s, t, LoadFrom(t, t.pending, |t.pending|, io));
      ExtendedSame(s, t, t);
    }
  }

  lemma ExtendedItself(s: State)
    ensures forall listing, backup :: Extended(s, s.(listingPending := listing, backupPending := backup))
  {}

  lemma ExtendedSame(s: State, t: State, u: State)
    requires Extended(t, u) || u == t
    requires t == s.(listingPending := t.listingPending, backupPending := t.backupPending)
    ensures Extended(s, u)
  {}

  /** The address an operation may add to the accounts. */
  function AddedAddress(op: Op): Option<Address>
  {
    match op
    case CreateAccount(_, key, _, _) => Some(key.address)
    case AddAccount(_, account, _) => Some(account.address)
    case ImportJson(_, _, _, _, address, _, _) => Some(address)
    case ImportMnemonic(_, _, _, imported, _, _, _) => if imported.Some? then Some(imported.value.address) else None
    case _ => None
  }

  lemma {:induction false} AccessesComplete(s: State, ios: seq<Io>)
    requires Complete(s)
    ensures var t := Accesses(s, ios);
      Complete(t) && t.accounts == s.accounts && t.keys == s.keys && t.loaded == s.loaded && t.disk == s.disk
  {
    hide Enter, Complete;
    if |ios| > 0 {
      AccessesComplete(s, ios[..|ios| - 1]);
      EnterComplete(Accesses(s, ios[..|ios| - 1]), ios[|ios| - 1]);
    }
  }

  lemma SectionsComplete(s: State, check: Io, between: seq<Io>, io: Io)
    requires Complete(s)
    ensures var t, u := Enter(s, check), Enter(Accesses(Enter(s, check), between), io);
      Complete(t) && t.accounts == s.accounts && Complete(u) && u.accounts == s.accounts
  {
    hide Enter, Accesses, Complete;
    EnterComplete(s, check);
    AccessesComplete(Enter(s, check), between);
    EnterComplete(Accesses(Enter(s, check), between), io);
  }

  lemma SaveComplete(s: State, key: Key, url: Url, saving: Saving)
    requires Complete(s)
    ensures var t := Save(s, key, url, saving);
      && Complete(t) && t.accounts == s.accounts && t.keys == s.keys
      && forall accounts :: Complete(t.(accounts := accounts))
  {}

  lemma KeyComplete(s: State, key: Key)
    requires Complete(s)
    ensures Complete(s.(keys := s.keys[key.address := key]))
  {}

  lemma AddedComplete(s: State, key: Key, account: Account, saving: Saving)
    requires Complete(s)
    ensures var t := Added(s, key, account, saving);
      Complete(t) && t.accounts.Keys <= s.accounts.Keys + {key.address}
  {}

  lemma ImportedComplete(s: State, key: Key, account: Account, saving: Saving)
    requires Complete(s)
    ensures var t := Imported(s, key, account, saving);
      Complete(t) && t.accounts.Keys <= s.accounts.Keys + {key.address}
  {
    hide Added, Complete;
    AddedComplete(s, key, account, saving);
  }

  lemma UpdatedComplete(s: State, key: Key, url: Url, saving: Saving)
    requires Complete(s)
    ensures var t := Updated(s, key, url, saving);
      Complete(t) && t.accounts == s.accounts
  {}

  lemma DeletedComplete(s: State, address: Address, url: Url, removed: bool)
    requires Complete(s)
    ensures var t := Deleted(s, address, url, removed);
      Complete(t) && t.accounts.Keys <= s.accounts.Keys
  {}

  /** Completeness is kept by every operation, and only adding operations add, only their own address. */
  lemma ApplyComplete(s: State, op: Op)
    requires Complete(s)
    ensures Complete(Apply(s, op))
    ensures forall a :: a in Apply(s, op).accounts && a !in s.accounts ==> AddedAddress(op) == Some(a)
  {
    hide Enter, Accesses, Added, Imported, Updated, Deleted, Complete, Save;
    match op {
      case Access(io) => EnterComplete(s, io);
      case CreateAccount(io, key, _, saving) =>
        EnterComplete(s, io);
        AddedComplete(Enter(s, io), key, Account(key.address, key.keyType, op.url), saving);
      case AddAccount(io, account, saving) =>
        EnterComplete(s, io);
        var t := Enter(s, io);
        if account.address in t.keys { SaveComplete(t, t.keys[account.address], account.url, saving); }
      case AddKey(io, key) =>
        EnterComplete(s, io);
        KeyComplete(Enter(s, io), key);
      case ImportJson(check, between, io, imported, address, url, saving) =>
        SectionsComplete(s, check, between, io);
        if imported.Some? {
          var account := Account(address, imported.value.keyType, url);
          ImportedComplete(Enter(Accesses(Enter(s, check), between), io), imported.value, account, saving);
        }
      case ImportMnemonic(check, between, io, imported, address, url, saving) =>
        SectionsComplete(s, check, between, io);
        if imported.Some? {
          var account := Account(address, HdWallet, url);
          ImportedComplete(Enter(Accesses(Enter(s, check), between), io), imported.value, account, saving);
        }
      case Update(check, between, io, account, replacement, saving) =>
        SectionsComplete(s, check, between, io);
        if replacement.Some? {
          UpdatedComplete(Enter(Accesses(Enter(s, check), between), io), replacement.value, account.url, saving);
        }
      case Delete(check, between, io, address, _, removed) =>
        SectionsComplete(s, check, between, io);
        var t := Enter(s, check);
        if address in t.accounts {
          DeletedComplete(Enter(Accesses(t, between), io), address, t.accounts[address].url, removed);
        }
    }
  }

  /** Once complete, always complete; and an address without an account, in particular a deleted one, gets
      one only by an operation that adds that very address. */
  lemma {:induction false} NothingReturns(s: State, ops: seq<Op>, a: Address)
    requires Complete(s) && a !in s.accounts
    requires forall i :: 0 <= i < |ops| ==> AddedAddress(ops[i]) != Some(a)
    ensures Complete(Run(s, ops)) && a !in Run(s, ops).accounts
  {
    if |ops| > 0 {
      NothingReturns(s, ops[..|ops| - 1], a);
      ApplyComplete(Run(s, ops[..|ops| - 1]), ops[|ops| - 1]);
    }
  }

  // ---- what is on disk ----

  lemma {:induction false} LoadKeepsDisk(s: State, urls: seq<Url>, n: nat, io: Io)
    requires n <= |urls|
    ensures LoadFrom(s, urls, n, io).disk == s.disk
  {
    if n > 0 { LoadKeepsDisk(s, urls, n - 1, io); }
  }

  lemma EnterKeepsDisk(s: State, io: Io)
    ensures Enter(s, io).disk == s.disk
  {
    var t := if s.backupPending then s.(backupPending := !io.directoryExcluded) else s;
    if t.listingPending {
      if io.created && io.listing.Some? {
        var listed := t.(listingPending := false, backupPending := !io.directoryExcluded);
        LoadKeepsDisk(listed, io.listing.value, |io.listing.value|, io);
      }
    } else {
      LoadKeepsDisk(t, t.pending, |t.pending|, io);
    }
  }

  lemma {:induction false} AccessesKeepDisk(s: State, ios: seq<Io>)
    ensures Accesses(s, ios).disk == s.disk
  {
    hide Enter;
    if |ios| > 0 {
      AccessesKeepDisk(s, ios[..|ios| - 1]);
      EnterKeepsDisk(Accesses(s, ios[..|ios| - 1]), ios[|ios| - 1]);
    }
  }

  lemma SectionsKeepDisk(s: State, check: Io, between: seq<Io>, io: Io)
    ensures Enter(s, check).disk == s.disk && Enter(Accesses(Enter(s, check), between), io).disk == s.disk
  {
    hide Enter, Accesses;
    EnterKeepsDisk(s, check);
    AccessesKeepDisk(Enter(s, check), between);
    EnterKeepsDisk(Accesses(Enter(s, check), between), io);
  }

  /** The operations that save or remove a key. */
  predicate Changes(op: Op)
  {
    !op.Access? && !op.AddKey?
  }

  /** Nothing is saved or removed while a listed file is unread: such an operation leaves the disk as it is, or it
      reports success and the state it leaves is complete, even if what it saved is what was there. */
  lemma DiskGuarded(s: State, op: Op)
    ensures Apply(s, op).disk != s.disk ==> Changes(op) && Succeeds(s, op)
    ensures Changes(op) && Succeeds(s, op) ==> Complete(Apply(s, op))
  {
    hide Enter, Accesses;
    match op {
      case Access(io) => EnterKeepsDisk(s, io);
      case CreateAccount(io, _, _, _) => EnterKeepsDisk(s, io);
      case AddAccount(io, _, _) => EnterKeepsDisk(s, io);
      case AddKey(io, _) => EnterKeepsDisk(s, io);
      case ImportJson(check, between, io, _, _, _, _) => SectionsKeepDisk(s, check, between, io);
      case ImportMnemonic(check, between, io, _, _, _, _) => SectionsKeepDisk(s, check, between, io);
      case Update(check, between, io, _, _, _) => SectionsKeepDisk(s, check, between, io);
      case Delete(check, between, io, _, _, _) => SectionsKeepDisk(s, check, between, io);
    }
  }

  /** What success means: the new key is on disk at its place, cached and registered, or all of it is gone. */
  lemma SuccessMeans(s: State, op: Op)
    requires Succeeds(s, op)
    ensures var t := Apply(s, op);
      match op
      case CreateAccount(_, key, url, _) => Stored(t, key, url) && Holds(t, key.address, url)
      case AddAccount(_, account, _) =>
        account.address in t.keys && Stored(t, t.keys[account.address], account.url)
          && Holds(t, account.address, account.url)
      case ImportJson(_, _, _, imported, address, url, _) => Stored(t, imported.value, url) && Holds(t, address, url)
      case ImportMnemonic(_, _, _, imported, _, url, _) =>
        Stored(t, imported.value, url) && Holds(t, imported.value.address, url)
      case Update(_, _, _, account, replacement, _) => Stored(t, replacement.value, account.url)
      case Delete(check, _, _, address, _, _) =>
        address !in t.accounts && address !in t.keys && Enter(s, check).accounts[address].url !in t.disk
      case _ => true
  {
    hide Enter, Accesses;
  }

  /** The effect of an operation on the accounts, the cached keys and the files, when everything listed
      has been read. */
  datatype Effect = Effect(accounts: map<Address, Account>, keys: map<Address, Key>, disk: map<Url, Key>)

  function EffectOf(s: State): Effect
  {
    Effect(s.accounts, s.keys, s.disk)
  }

  /** A failed operation has none. */
  lemma FailureMeans(s: State, op: Op)
    requires Complete(s) && !Succeeds(s, op)
    ensures EffectOf(Apply(s, op)) == EffectOf(s)
  {
    hide Enter, Accesses;
    OpSections(s, op);
  }

  /** A successful one changes only what it is about. */
  lemma SuccessExact(s: State, op: Op)
    requires Complete(s) && Succeeds(s, op)
    ensures op.AddAccount? ==> op.account.address in s.keys
    ensures op.Delete? ==> op.address in s.accounts
    ensures EffectOf(Apply(s, op)) ==
      match op
      case Access(_) => EffectOf(s)
      case AddKey(_, key) => EffectOf(s).(keys := s.keys[key.address := key])
      case CreateAccount(_, key, url, _) =>
        Effect(s.accounts[key.address := Account(key.address, key.keyType, url)], s.keys[key.address := key],
          s.disk[url := key])
      case AddAccount(_, account, _) =>
        EffectOf(s).(accounts := s.accounts[account.address := account],
                     disk := s.disk[account.url := s.keys[account.address]])
      case ImportJson(_, _, _, imported, address, url, _) =>
        Effect(s.accounts[address := Account(address, imported.value.keyType, url)],
          s.keys[address := imported.value], s.disk[url := imported.value])
      case ImportMnemonic(_, _, _, imported, address, url, _) =>
        var derived := imported.value.address;
        Effect(s.accounts[derived := Account(address, HdWallet, url)], s.keys[derived := imported.value],
          s.disk[url := imported.value])
      case Update(_, _, _, account, replacement, _) =>
        EffectOf(s).(keys := s.keys[replacement.value.address := replacement.value],
                     disk := s.disk[account.url := replacement.value])
      case Delete(_, _, _, address, _, _) =>
        Effect(s.accounts - {address}, s.keys - {address}, s.disk - {s.accounts[address].url})
  {
    hide Enter, Accesses;
    OpSections(s, op);
  }

  /** All accesses of an operation leave a complete state as it is. */
  lemma OpSections(s: State, op: Op)
    requires Complete(s)
    ensures op.Access? || op.CreateAccount? || op.AddAccount? || op.AddKey? ==>
      Complete(Enter(s, op.io)) && EffectOf(Enter(s, op.io)) == EffectOf(s)
    ensures op.ImportJson? || op.ImportMnemonic? || op.Update? || op.Delete? ==>
      var t, u := Enter(s, op.check), Enter(Accesses(Enter(s, op.check), op.between), op.io);
      Complete(t) && EffectOf(t) == EffectOf(s) && Complete(u) && EffectOf(u) == EffectOf(s)
  {
    hide Enter, Accesses, Complete;
    if op.Access? || op.CreateAccount? || op.AddAccount? || op.AddKey? {
      EnterComplete(s, op.io);
    } else {
      EnterComplete(s, op.check);
      AccessesComplete(Enter(s, op.check), op.between);
      EnterComplete(Accesses(Enter(s, op.check), op.between), op.io);
    }
  }

  predicate Stored(s: State, key: Key, url: Url)
  {
    url in s.disk && s.disk[url] == key
  }

  predicate Holds(s: State, address: Address, url: Url)
  {
    address in s.accounts && s.accounts[address].url == url && address in s.keys
  }
}
