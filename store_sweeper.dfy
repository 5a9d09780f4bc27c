/** The sweeper of store/store_sweeper.go. It expires secrets that outlived
    their lifetime, leaving a record of each expiry with the secret's code,
    and removes old files from the four sub-folders. Each sweep of a folder
    works from one listing of it, read before any file is touched. */
module StoreSweeper {
  import opened Common
  import opened StoreCodes
  import opened StoreIds
  import opened SecretStore
  import opened StoreLifecycle

  const Hour: int := 60 * Minute

  /** The order in which Sweep visits the folders: SweepSecrets first, then
      the four sub-folders. */
  const SweepOrder: seq<Folder> := [Root, BeingAccessed, Accessed, Expiring, Expired]

  /** How old a file may get in each folder: a secret lives for the store's
      lifetime; a file left in being_accessed gets one more minute; access
      and expiry records are kept for a day; expiring files go at once. */
  function MaxAge(f: Folder, lifetime: int): (r: int)
    ensures lifetime >= 0 ==> (r >= 0 && (r == 0 <==> f == Expiring || (f == Root && lifetime == 0)))
    ensures f == BeingAccessed ==> r > lifetime
    ensures f == Accessed || f == Expired ==> r == 24 * Hour
  {
    match f
    case Root => lifetime
    case BeingAccessed => lifetime + Minute
    case Accessed => 24 * Hour
    case Expiring => 0
    case Expired => 24 * Hour
  }

  /** A regular file modified before `now - maxAge`. */
  predicate Aged(e: Entry, now: int, maxAge: int) {
    e.File? && e.mtime < now - maxAge
  }

  /** A folder's listing once the sweep has handled the entries `names`:
      each of them that aged is gone. */
  function Pruned(l: Listing, names: set<string>, now: int, maxAge: int): Listing {
    map n | n in l && !(n in names && Aged(l[n], now, maxAge)) :: l[n]
  }

  /** The expiry record SweepSecrets writes: the first CodeByteSize bytes of
      the secret file, in a buffer of zeros when the file is shorter. */
  function ExpiredRecord(data: seq<byte>): (r: seq<byte>)
    ensures |r| == CodeByteSize
    ensures forall k :: 0 <= k < CodeByteSize ==> r[k] == if k < |data| then data[k] else 0
  {
    if |data| >= CodeByteSize then data[..CodeByteSize]
    else data + seq(CodeByteSize - |data|, _ => 0)
  }

  /** The secret `n` is among the handled names and has outlived its lifetime. */
  predicate Expires(d: Disk, names: set<string>, now: int, lifetime: int, n: string) {
    n in names && n in d.root && Aged(d.root[n], now, lifetime)
  }

  /** ... and was moved to the expiring folder, its rename not failing. */
  predicate Leaves(d: Disk, names: set<string>, now: int, lifetime: int, fails: set<string>, n: string) {
    Expires(d, names, now, lifetime, n) && n !in fails
  }

  /** The store once SweepSecrets has handled the root entries `names`: each
      expired secret has an expiry record; unless its rename fails (the
      names in `fails`), it has moved to the expiring folder and its record
      holds its code, otherwise the record is empty and it stays put. */
  function SweptSecrets(d: Disk, names: set<string>, now: int, lifetime: int, fails: set<string>): (r: Disk)
    ensures r.beingAccessed == d.beingAccessed && r.accessed == d.accessed
    ensures r.root.Keys <= d.root.Keys && d.expiring.Keys <= r.expiring.Keys && d.expired.Keys <= r.expired.Keys
  {
    d.(root := RootAfter(d, names, now, lifetime, fails),
       expiring := ExpiringAfter(d, names, now, lifetime, fails),
       expired := ExpiredAfter(d, names, now, lifetime, fails))
  }

  function RootAfter(d: Disk, names: set<string>, now: int, lifetime: int, fails: set<string>): Listing {
    map n | n in d.root && !Leaves(d, names, now, lifetime, fails, n) :: d.root[n]
  }

  function ExpiringAfter(d: Disk, names: set<string>, now: int, lifetime: int, fails: set<string>): Listing {
    map n | n in d.expiring.Keys + d.root.Keys && (n in d.expiring || Leaves(d, names, now, lifetime, fails, n))
      :: if Leaves(d, names, now, lifetime, fails, n) then d.root[n] else d.expiring[n]
  }

  function ExpiredAfter(d: Disk, names: set<string>, now: int, lifetime: int, fails: set<string>): Listing {
    map n | n in d.expired.Keys + d.root.Keys && (n in d.expired || Expires(d, names, now, lifetime, n))
      :: if Leaves(d, names, now, lifetime, fails, n) then File(ExpiredRecord(d.root[n].data), now)
         else if Expires(d, names, now, lifetime, n) then File([], now)
         else d.expired[n]
  }

  /** A sub-folder's sweep: its aged files are gone. */
  function SweptFolder(c: Config, d: Disk, f: Folder, now: int): (r: Disk)
    requires d.Valid()
    ensures r.Valid()
  {
    PrunedValid(d, f, d.Get(f).Keys, now, MaxAge(f, c.secretLifetime));
    d.Put(f, Pruned(d.Get(f), d.Get(f).Keys, now, MaxAge(f, c.secretLifetime)))
  }

  /** One folder's sweep, as a function of the store before it. */
  function SweepStep(c: Config, d: Disk, f: Folder, now: int, fails: set<string>): (r: Disk)
    requires d.Valid()
    ensures r.Valid()
  {
    if f == Root then
      SweptSecretsValid(d, d.root.Keys, now, c.secretLifetime, fails);
      SweptSecrets(d, d.root.Keys, now, c.secretLifetime, fails)
    else
      SweptFolder(c, d, f, now)
  }

  /** Sweep over the folders of `order`: stops at the first folder whose
      listing cannot be read and reports it. */
  function SweepFrom(c: Config, d: Disk, order: seq<Folder>, now: int, unreadable: set<Folder>, fails: set<string>): (r: (Disk, Option<Folder>))
    requires d.Valid()
    ensures r.0.Valid()
    ensures r.1.Some? ==> r.1.value in order && r.1.value in unreadable
    ensures r.1.None? ==> forall k :: 0 <= k < |order| ==> order[k] !in unreadable
    decreases |order|
  {
    if order == [] then (d, None)
    else if order[0] in unreadable then (d, Some(order[0]))
    else SweepFrom(c, SweepStep(c, d, order[0], now, fails), order[1..], now, unreadable, fails)
  }

  /** Sweep, as a function of the store before it: the store after it and
      the folder whose listing could not be read, if any. */
  function SweepSpec(c: Config, d: Disk, now: int, unreadable: set<Folder>, fails: set<string>): (r: (Disk, Option<Folder>))
    requires d.Valid()
    ensures r.0.Valid()
    ensures r.1.None? <==> unreadable == {}
  {
    var r := SweepFrom(c, d, SweepOrder, now, unreadable, fails);
    assert r.1.None? ==> forall f :: f !in unreadable by {
      if r.1.None? {
        forall f ensures f !in unreadable {
          assert f == SweepOrder[SweepIndex(f)];
        }
      }
    }
    r
  }

  function SweepIndex(f: Folder): (k: nat)
    ensures k < |SweepOrder| && SweepOrder[k] == f
  {
    match f
    case Root => 0
    case BeingAccessed => 1
    case Accessed => 2
    case Expiring => 3
    case Expired => 4
  }

  lemma SweptSecretsValid(d: Disk, names: set<string>, now: int, lifetime: int, fails: set<string>)
    requires d.Valid()
    ensures SweptSecrets(d, names, now, lifetime, fails).Valid()
  {
    var d' := SweptSecrets(d, names, now, lifetime, fails);
    assert SubfolderNames <= d'.root.Keys by {
      forall n | n in SubfolderNames ensures n in d'.root {
        assert d.root[n].Dir?;
      }
    }
  }

  lemma PrunedValid(d: Disk, f: Folder, names: set<string>, now: int, maxAge: int)
    requires d.Valid()
    ensures d.Put(f, Pruned(d.Get(f), names, now, maxAge)).Valid()
  {
    var l := Pruned(d.Get(f), names, now, maxAge);
    PutGet(d, f, l);
    if f == Root {
      forall n | n in SubfolderNames ensures n in l {
        assert d.root[n].Dir?;
      }
    }
  }

  lemma PutSelf(d: Disk, f: Folder)
    ensures d.Put(f, d.Get(f)) == d
  {
  }

  lemma PutRemoved(d: Disk, f: Folder, l: Listing, n: string)
    ensures d.Put(f, l).Removed(f, n) == d.Put(f, l - {n})
  {
  }

  lemma PrunedNone(l: Listing, now: int, maxAge: int)
    ensures Pruned(l, {}, now, maxAge) == l
  {
  }

  lemma PrunedSkip(l: Listing, names: set<string>, n: string, now: int, maxAge: int)
    requires n in l && !Aged(l[n], now, maxAge)
    ensures Pruned(l, names + {n}, now, maxAge) == Pruned(l, names, now, maxAge)
  {
  }

  lemma PrunedStep(l: Listing, names: set<string>, n: string, now: int, maxAge: int)
    requires n in l && n !in names && Aged(l[n], now, maxAge)
    ensures n in Pruned(l, names, now, maxAge)
    ensures Pruned(l, names + {n}, now, maxAge) == Pruned(l, names, now, maxAge) - {n}
  {
  }

  /** One entry of sweepFolder's loop: the file `n` is zeroed and removed
      when it has aged. */
  method PruneOne(s: Store, ghost d0: Disk, f: Folder, listing: Listing, ghost done: set<string>, n: string,
                  now: int, maxAge: int)
    requires s.Valid() && d0.Valid() && listing == d0.Get(f) && n in listing && n !in done
    requires s.disk == d0.Put(f, Pruned(listing, done, now, maxAge))
    modifies s
    ensures s.Valid() && s.Cfg() == old(s.Cfg())
    ensures s.disk == d0.Put(f, Pruned(listing, done + {n}, now, maxAge))
  {
    if Aged(listing[n], now, maxAge) {
      assert f == Root ==> d0.root[n].File?;
      PrunedStep(listing, done, n, now, maxAge);
      PutRemoved(d0, f, Pruned(listing, done, now, maxAge), n);
      s.ZeroFileAndRemove(f, n);
    } else {
      PrunedSkip(listing, done, n, now, maxAge);
    }
  }

  /** sweepFolder: every regular file of the folder's listing that is older
      than `maxAge` is zeroed and removed; a listing that cannot be read
      (`readable` false) leaves the folder alone and reports the error. */
  method SweepFolder(s: Store, f: Folder, maxAge: int, now: int, readable: bool) returns (ok: bool)
    requires s.Valid()
    modifies s
    ensures s.Valid() && s.Cfg() == old(s.Cfg())
    ensures ok == readable
    ensures readable ==> s.disk == old(s.disk).Put(f, Pruned(old(s.disk).Get(f), old(s.disk).Get(f).Keys, now, maxAge))
    ensures !readable ==> s.disk == old(s.disk)
  {
    if !readable {
      return false;
    }
    ghost var d0 := s.disk;
    var listing := s.disk.Get(f);
    var todo := listing.Keys;
    PutSelf(d0, f);
    PrunedNone(listing, now, maxAge);
    assert listing.Keys - todo == {};
    while todo != {}
      invariant todo <= listing.Keys
      invariant s.Valid() && s.Cfg() == old(s.Cfg())
      invariant s.disk == d0.Put(f, Pruned(listing, listing.Keys - todo, now, maxAge))
      decreases |todo|
    {
      var n :| n in todo;
      ghost var done := listing.Keys - todo;
      assert listing.Keys - (todo - {n}) == done + {n};
      PruneOne(s, d0, f, listing, done, n, now, maxAge);
      todo := todo - {n};
    }
    assert listing.Keys - todo == listing.Keys;
    return true;
  }

  lemma SweptSecretsNone(d: Disk, now: int, lifetime: int, fails: set<string>)
    ensures SweptSecrets(d, {}, now, lifetime, fails) == d
  {
    assert RootAfter(d, {}, now, lifetime, fails) == d.root;
    assert ExpiringAfter(d, {}, now, lifetime, fails) == d.expiring;
    assert ExpiredAfter(d, {}, now, lifetime, fails) == d.expired;
  }

  lemma RootAfterSkip(d: Disk, names: set<string>, n: string, now: int, lifetime: int, fails: set<string>)
    requires n in d.root && !Aged(d.root[n], now, lifetime)
    ensures RootAfter(d, names + {n}, now, lifetime, fails) == RootAfter(d, names, now, lifetime, fails)
  {
  }

  lemma ExpiringAfterSkip(d: Disk, names: set<string>, n: string, now: int, lifetime: int, fails: set<string>)
    requires n in d.root && !Aged(d.root[n], now, lifetime)
    ensures ExpiringAfter(d, names + {n}, now, lifetime, fails) == ExpiringAfter(d, names, now, lifetime, fails)
  {
  }

  lemma ExpiredAfterSkip(d: Disk, names: set<string>, n: string, now: int, lifetime: int, fails: set<string>)
    requires n in d.root && !Aged(d.root[n], now, lifetime)
    ensures ExpiredAfter(d, names + {n}, now, lifetime, fails) == ExpiredAfter(d, names, now, lifetime, fails)
  {
  }

  lemma SweptSecretsSkip(d: Disk, names: set<string>, n: string, now: int, lifetime: int, fails: set<string>)
    requires n in d.root && !Aged(d.root[n], now, lifetime)
    ensures SweptSecrets(d, names + {n}, now, lifetime, fails) == SweptSecrets(d, names, now, lifetime, fails)
  {
    RootAfterSkip(d, names, n, now, lifetime, fails);
    ExpiringAfterSkip(d, names, n, now, lifetime, fails);
    ExpiredAfterSkip(d, names, n, now, lifetime, fails);
  }

  lemma RootAfterStep(d: Disk, names: set<string>, n: string, now: int, lifetime: int, fails: set<string>)
    requires n in d.root && n !in names && Aged(d.root[n], now, lifetime)
    ensures n in RootAfter(d, names, now, lifetime, fails) && RootAfter(d, names, now, lifetime, fails)[n] == d.root[n]
    ensures RootAfter(d, names + {n}, now, lifetime, fails)
         == if n in fails then RootAfter(d, names, now, lifetime, fails) else RootAfter(d, names, now, lifetime, fails) - {n}
  {
  }

  lemma ExpiringAfterStep(d: Disk, names: set<string>, n: string, now: int, lifetime: int, fails: set<string>)
    requires n in d.root && n !in names && Aged(d.root[n], now, lifetime)
    ensures ExpiringAfter(d, names + {n}, now, lifetime, fails)
         == if n in fails then ExpiringAfter(d, names, now, lifetime, fails)
            else ExpiringAfter(d, names, now, lifetime, fails)[n := d.root[n]]
  {
  }

  lemma ExpiredAfterStep(d: Disk, names: set<string>, n: string, now: int, lifetime: int, fails: set<string>)
    requires n in d.root && n !in names && Aged(d.root[n], now, lifetime)
    ensures ExpiredAfter(d, names + {n}, now, lifetime, fails)
         == ExpiredAfter(d, names, now, lifetime, fails)[n := File(if n in fails then [] else ExpiredRecord(d.root[n].data), now)]
  {
  }

  /** An aged secret whose rename fails: only its empty expiry record is written. */
  lemma SweptSecretsStuck(d: Disk, names: set<string>, n: string, now: int, lifetime: int, fails: set<string>)
    requires n in d.root && n !in names && Aged(d.root[n], now, lifetime) && n in fails
    ensures SweptSecrets(d, names + {n}, now, lifetime, fails)
         == SweptSecrets(d, names, now, lifetime, fails).Written(Expired, n, [], now)
  {
    RootAfterStep(d, names, n, now, lifetime, fails);
    ExpiringAfterStep(d, names, n, now, lifetime, fails);
    ExpiredAfterStep(d, names, n, now, lifetime, fails);
  }

  /** An aged secret that is moved: the empty record, the rename, the record with its code. */
  lemma SweptSecretsMoved(d: Disk, names: set<string>, n: string, now: int, lifetime: int, fails: set<string>)
    requires n in d.root && n !in names && Aged(d.root[n], now, lifetime) && n !in fails
    ensures var b := SweptSecrets(d, names, now, lifetime, fails);
      && n in b.root && b.root[n] == d.root[n]
      && SweptSecrets(d, names + {n}, now, lifetime, fails)
         == b.Written(Expired, n, [], now).Moved(n, Expiring, n).Written(Expired, n, ExpiredRecord(d.root[n].data), now)
  {
    var b := SweptSecrets(d, names, now, lifetime, fails);
    RootAfterStep(d, names, n, now, lifetime, fails);
    ExpiringAfterStep(d, names, n, now, lifetime, fails);
    ExpiredAfterStep(d, names, n, now, lifetime, fails);
    MoveSteps(b, n, ExpiredRecord(d.root[n].data), now);
  }

  lemma MoveSteps(b: Disk, n: string, record: seq<byte>, now: int)
    requires n in b.root
    ensures b.Written(Expired, n, [], now).Moved(n, Expiring, n).Written(Expired, n, record, now)
         == b.(root := b.root - {n}, expiring := b.expiring[n := b.root[n]], expired := b.expired[n := File(record, now)])
  {
    var m := b.Written(Expired, n, [], now);
    assert m == b.(expired := b.expired[n := File([], now)]);
    var m2 := m.Moved(n, Expiring, n);
    assert m2 == m.(root := b.root - {n}, expiring := b.expiring[n := b.root[n]]);
    assert b.expired[n := File([], now)][n := File(record, now)] == b.expired[n := File(record, now)];
  }

  /** One entry of SweepSecrets' loop. */
  method ExpireOne(s: Store, ghost d0: Disk, listing: Listing, ghost done: set<string>, n: string,
                   now: int, lifetime: int, fails: set<string>)
    requires s.Valid() && d0.Valid() && listing == d0.root && n in listing && n !in done
    requires s.disk == SweptSecrets(d0, done, now, lifetime, fails)
    modifies s
    ensures s.Valid() && s.Cfg() == old(s.Cfg())
    ensures s.disk == SweptSecrets(d0, done + {n}, now, lifetime, fails)
  {
    ghost var b := s.disk;
    if Aged(listing[n], now, lifetime) {
      assert n !in SubfolderNames && n != "";
      s.WriteFile(Expired, n, [], now);
      ghost var w := s.disk;
      assert w.root == b.root;
      var moved := false;
      if n !in fails {
        SweptSecretsMoved(d0, done, n, now, lifetime, fails);
        moved := s.Rename(n, Expiring, n);
      }
      if moved {
        ghost var m := w.Moved(n, Expiring, n);
        assert s.disk == m;
        assert m.expiring[n] == d0.root[n];
        var record := ExpiredRecord(s.disk.expiring[n].data);
        assert record == ExpiredRecord(d0.root[n].data);
        s.WriteFile(Expired, n, record, now);
      } else {
        SweptSecretsStuck(d0, done, n, now, lifetime, fails);
      }
    } else {
      SweptSecretsSkip(d0, done, n, now, lifetime, fails);
    }
  }

  /** SweepSecrets: every secret file older than the store's lifetime gets
      an expiry record and is moved to the expiring folder; a rename that
      fails (the names in `fails`) is logged and the sweep goes on. A root
      listing that cannot be read (`readable` false) is reported. */
  method SweepSecrets(s: Store, now: int, readable: bool, fails: set<string>) returns (ok: bool)
    requires s.Valid()
    modifies s
    ensures s.Valid() && s.Cfg() == old(s.Cfg())
    ensures ok == readable
    ensures readable ==> s.disk == SweptSecrets(old(s.disk), old(s.disk).root.Keys, now, old(s.secretLifetime), fails)
    ensures !readable ==> s.disk == old(s.disk)
  {
    if !readable {
      return false;
    }
    ghost var d0 := s.disk;
    var listing := s.disk.root;
    var lifetime := s.secretLifetime;
    var todo := listing.Keys;
    SweptSecretsNone(d0, now, lifetime, fails);
    assert listing.Keys - todo == {};
    while todo != {}
      invariant todo <= listing.Keys
      invariant s.Valid() && s.Cfg() == old(s.Cfg())
      invariant s.disk == SweptSecrets(d0, listing.Keys - todo, now, lifetime, fails)
      decreases |todo|
    {
      var n :| n in todo;
      ghost var done := listing.Keys - todo;
      assert listing.Keys - (todo - {n}) == done + {n};
      ExpireOne(s, d0, listing, done, n, now, lifetime, fails);
      todo := todo - {n};
    }
    assert listing.Keys - todo == listing.Keys;
    return true;
  }

  /** SweepBeingAccessed, SweepAccessed, SweepExpiring and SweepExpired:
      sweepFolder on a sub-folder with its age limit. */
  method SweepSubfolder(s: Store, f: Folder, now: int, readable: bool) returns (ok: bool)
    requires s.Valid() && f != Root
    modifies s
    ensures s.Valid() && s.Cfg() == old(s.Cfg())
    ensures ok == readable
    ensures readable ==> s.disk == SweptFolder(old(s.Cfg()), old(s.disk), f, now)
    ensures !readable ==> s.disk == old(s.disk)
  {
    ok := SweepFolder(s, f, MaxAge(f, s.secretLifetime), now, readable);
  }

  /** SweepOrder from position k on, when `d` is the store before the
      folder at position k is swept. */
  lemma SweepUnfold(c: Config, d: Disk, k: nat, now: int, unreadable: set<Folder>, fails: set<string>)
    requires d.Valid() && k < |SweepOrder|
    ensures SweepOrder[k] in unreadable ==> SweepFrom(c, d, SweepOrder[k..], now, unreadable, fails) == (d, Some(SweepOrder[k]))
    ensures SweepOrder[k] !in unreadable ==>
      SweepFrom(c, d, SweepOrder[k..], now, unreadable, fails)
        == SweepFrom(c, SweepStep(c, d, SweepOrder[k], now, fails), SweepOrder[k + 1..], now, unreadable, fails)
  {
    assert SweepOrder[k..][1..] == SweepOrder[k + 1..];
  }

  /** Sweep: SweepSecrets, then the four sub-folders with their age limits,
      in SweepOrder; the first folder whose listing cannot be read ends the
      sweep. */
  method Sweep(s: Store, now: int, unreadable: set<Folder>, fails: set<string>) returns (failed: Option<Folder>)
    requires s.Valid()
    modifies s
    ensures s.Valid() && s.Cfg() == old(s.Cfg())
    ensures (s.disk, failed) == SweepSpec(old(s.Cfg()), old(s.disk), now, unreadable, fails)
  {
    ghost var c := s.Cfg();
    ghost var goal := SweepSpec(c, s.disk, now, unreadable, fails);
    assert SweepOrder[0..] == SweepOrder;
    var k := 0;
    while k < |SweepOrder|
      invariant 0 <= k <= |SweepOrder|
      invariant s.Valid() && s.Cfg() == c
      invariant goal == SweepFrom(c, s.disk, SweepOrder[k..], now, unreadable, fails)
    {
      var ok := SweepAt(s, k, now, unreadable, fails);
      if !ok {
        return Some(SweepOrder[k]);
      }
      k := k + 1;
    }
    assert SweepOrder[k..] == [];
    return None;
  }

  /** The call Sweep makes for the k-th folder: SweepSecrets for the root,
      the sub-folder's own sweep otherwise. It either reports its folder,
      ending the sweep, or leaves the rest of the sweep to the following
      folders. */
  method SweepAt(s: Store, k: nat, now: int, unreadable: set<Folder>, fails: set<string>) returns (ok: bool)
    requires s.Valid() && k < |SweepOrder|
    modifies s
    ensures s.Valid() && s.Cfg() == old(s.Cfg())
    ensures ok == (SweepOrder[k] !in unreadable)
    ensures ok ==>
      SweepFrom(old(s.Cfg()), old(s.disk), SweepOrder[k..], now, unreadable, fails)
        == SweepFrom(old(s.Cfg()), s.disk, SweepOrder[k + 1..], now, unreadable, fails)
    ensures !ok ==>
      SweepFrom(old(s.Cfg()), old(s.disk), SweepOrder[k..], now, unreadable, fails)
        == (s.disk, Some(SweepOrder[k]))
  {
    SweepUnfold(s.Cfg(), s.disk, k, now, unreadable, fails);
    var f := SweepOrder[k];
    if f == Root {
      ok := SweepSecrets(s, now, f !in unreadable, fails);
    } else {
      ok := SweepSubfolder(s, f, now, f !in unreadable);
    }
  }

  /** A full sweep, when every listing can be read: the five folder steps in
      SweepOrder. */
  lemma SweepAll(c: Config, d: Disk, now: int, fails: set<string>)
    requires d.Valid()
    ensures var d1 := SweepStep(c, d, Root, now, fails);
      var d2 := SweptFolder(c, d1, BeingAccessed, now);
      var d3 := SweptFolder(c, d2, Accessed, now);
      var d4 := SweptFolder(c, d3, Expiring, now);
      SweepSpec(c, d, now, {}, fails).0 == SweptFolder(c, d4, Expired, now)
  {
    assert SweepOrder[0..] == SweepOrder;
    assert SweepOrder[5..] == [];
    var d1 := SweepStep(c, d, Root, now, fails);
    var d2 := SweptFolder(c, d1, BeingAccessed, now);
    var d3 := SweptFolder(c, d2, Accessed, now);
    var d4 := SweptFolder(c, d3, Expiring, now);
    SweepUnfold(c, d, 0, now, {}, fails);
    SweepUnfold(c, d1, 1, now, {}, fails);
    SweepUnfold(c, d2, 2, now, {}, fails);
    SweepUnfold(c, d3, 3, now, {}, fails);
    SweepUnfold(c, d4, 4, now, {}, fails);
  }

  /** Sweeping a sub-folder touches no other folder, and in it removes
      exactly the files past the folder's age limit. */
  lemma SweptFolderFrame(c: Config, d: Disk, f: Folder, now: int)
    requires d.Valid() && f != Root
    ensures var r := SweptFolder(c, d, f, now);
      && (forall g :: g != f ==> r.Get(g) == d.Get(g))
      && (forall n :: n in r.Get(f) <==> n in d.Get(f) && !Aged(d.Get(f)[n], now, MaxAge(f, c.secretLifetime)))
      && (forall n :: n in r.Get(f) ==> r.Get(f)[n] == d.Get(f)[n])
  {
    PutGet(d, f, Pruned(d.Get(f), d.Get(f).Keys, now, MaxAge(f, c.secretLifetime)));
  }

  /** What SweepSecrets does to one root entry: a secret past its lifetime
      leaves the root for the expiring folder and its expiry record holds its
      first bytes, or, when its rename fails, stays put with an empty record;
      any other entry stays put. */
  lemma SweptSecretsAt(d: Disk, now: int, lifetime: int, fails: set<string>, n: string)
    requires n in d.root
    ensures var r := SweptSecrets(d, d.root.Keys, now, lifetime, fails);
      && (Aged(d.root[n], now, lifetime) && n !in fails ==>
            n !in r.root && n in r.expiring && r.expiring[n] == d.root[n]
            && n in r.expired && r.expired[n] == File(ExpiredRecord(d.root[n].data), now))
      && (Aged(d.root[n], now, lifetime) && n in fails ==>
            n in r.root && r.root[n] == d.root[n] && n in r.expired && r.expired[n] == File([], now))
      && (!Aged(d.root[n], now, lifetime) ==> n in r.root && r.root[n] == d.root[n])
  {
  }

  /** A secret past its lifetime is gone after one full sweep: moved out of
      the root, then zeroed and removed from the expiring folder in the same
      pass; its expiry record, which holds the first bytes of its file, is
      kept. A secret whose rename fails stays, with an empty record. */
  lemma SweepExpiresSecret(c: Config, d: Disk, now: int, fails: set<string>, n: string)
    requires d.Valid() && c.secretLifetime >= 0
    requires n in d.root && Aged(d.root[n], now, c.secretLifetime)
    ensures var d' := SweepSpec(c, d, now, {}, fails).0;
      && (n !in fails ==> n !in d'.root && n !in d'.expiring
                          && n in d'.expired && d'.expired[n] == File(ExpiredRecord(d.root[n].data), now))
      && (n in fails ==> n in d'.root && d'.root[n] == d.root[n] && n in d'.expired && d'.expired[n] == File([], now))
      && (n in d'.accessed ==> n in d.accessed)
  {
    SweepAll(c, d, now, fails);
    var d1 := SweepStep(c, d, Root, now, fails);
    var d2 := SweptFolder(c, d1, BeingAccessed, now);
    var d3 := SweptFolder(c, d2, Accessed, now);
    var d4 := SweptFolder(c, d3, Expiring, now);
    var d5 := SweptFolder(c, d4, Expired, now);
    SweptSecretsAt(d, now, c.secretLifetime, fails, n);
    SweptFolderFrame(c, d1, BeingAccessed, now);
    SweptFolderFrame(c, d2, Accessed, now);
    SweptFolderFrame(c, d3, Expiring, now);
    SweptFolderFrame(c, d4, Expired, now);
    assert d5.root == d1.root by {
      assert d2.Get(Root) == d1.Get(Root);
      assert d3.Get(Root) == d2.Get(Root);
      assert d4.Get(Root) == d3.Get(Root);
      assert d5.Get(Root) == d4.Get(Root);
    }
    assert d4.Get(Expired) == d1.Get(Expired) by {
      assert d2.Get(Expired) == d1.Get(Expired);
      assert d3.Get(Expired) == d2.Get(Expired);
    }
    assert d5.expiring == d4.expiring by {
      assert d5.Get(Expiring) == d4.Get(Expiring);
    }
    assert d5.Get(Accessed) == d3.Get(Accessed) by {
      assert d4.Get(Accessed) == d3.Get(Accessed);
    }
    if n !in fails {
      assert d3.expiring == d1.expiring by {
        assert d2.Get(Expiring) == d1.Get(Expiring);
        assert d3.Get(Expiring) == d2.Get(Expiring);
      }
      assert n !in d4.Get(Expiring);
    }
  }

  /** After a full sweep no file is past its folder's age limit, except
      secrets whose rename failed. */
  lemma SweepBoundsAges(c: Config, d: Disk, now: int, fails: set<string>)
    requires d.Valid()
    ensures var d' := SweepSpec(c, d, now, {}, fails).0;
      && (forall n :: n in d'.root && Aged(d'.root[n], now, c.secretLifetime) ==> n in fails)
      && (forall f, n :: f != Root && n in d'.Get(f) ==> !Aged(d'.Get(f)[n], now, MaxAge(f, c.secretLifetime)))
  {
    SweepAll(c, d, now, fails);
    var d1 := SweepStep(c, d, Root, now, fails);
    var d2 := SweptFolder(c, d1, BeingAccessed, now);
    var d3 := SweptFolder(c, d2, Accessed, now);
    var d4 := SweptFolder(c, d3, Expiring, now);
    var d5 := SweptFolder(c, d4, Expired, now);
    SweptFolderFrame(c, d1, BeingAccessed, now);
    SweptFolderFrame(c, d2, Accessed, now);
    SweptFolderFrame(c, d3, Expiring, now);
    SweptFolderFrame(c, d4, Expired, now);
    forall n | n in d5.root && Aged(d5.root[n], now, c.secretLifetime) ensures n in fails {
      assert d5.Get(Root) == d1.Get(Root) by {
        assert d2.Get(Root) == d1.Get(Root);
        assert d3.Get(Root) == d2.Get(Root);
        assert d4.Get(Root) == d3.Get(Root);
      }
      SweptSecretsAt(d, now, c.secretLifetime, fails, n);
    }
    assert d5.Get(BeingAccessed) == d2.Get(BeingAccessed) by {
      assert d3.Get(BeingAccessed) == d2.Get(BeingAccessed);
      assert d4.Get(BeingAccessed) == d3.Get(BeingAccessed);
    }
    assert d5.Get(Accessed) == d3.Get(Accessed) by {
      assert d4.Get(Accessed) == d3.Get(Accessed);
    }
    assert d5.Get(Expiring) == d4.Get(Expiring);
  }

  /** The expiry record of a well-formed secret file is its code. */
  lemma ExpiredRecordOfSecretFile(data: seq<byte>)
    requires IsSecretFile(data)
    ensures ExpiredRecord(data) == data[..CodeByteSize] && IsCodeRecord(ExpiredRecord(data))
  {
  }

  lemma SweptSecretsWellFormed(d: Disk, now: int, lifetime: int, fails: set<string>)
    requires d.Valid() && WellFormed(d)
    ensures WellFormed(SweptSecrets(d, d.root.Keys, now, lifetime, fails))
  {
    var r := SweptSecrets(d, d.root.Keys, now, lifetime, fails);
    forall n | n in r.expired
      ensures r.expired[n].File? && (r.expired[n].data == [] || IsCodeRecord(r.expired[n].data))
    {
      if n in d.root && Aged(d.root[n], now, lifetime) && n !in fails {
        ExpiredRecordOfSecretFile(d.root[n].data);
      }
    }
  }

  lemma SweptFolderWellFormed(c: Config, d: Disk, f: Folder, now: int)
    requires d.Valid() && WellFormed(d) && f != Root
    ensures WellFormed(SweptFolder(c, d, f, now))
  {
    SweptFolderFrame(c, d, f, now);
    var r := SweptFolder(c, d, f, now);
    assert r.root == d.root by {
      assert r.Get(Root) == d.Get(Root);
    }
    assert forall n :: n in r.accessed ==> n in d.accessed && r.accessed[n] == d.accessed[n] by {
      if f != Accessed {
        assert r.Get(Accessed) == d.Get(Accessed);
      }
    }
    assert forall n :: n in r.expired ==> n in d.expired && r.expired[n] == d.expired[n] by {
      if f != Expired {
        assert r.Get(Expired) == d.Get(Expired);
      }
    }
  }

  lemma {:induction false} SweepFromWellFormed(c: Config, d: Disk, order: seq<Folder>, now: int,
                                               unreadable: set<Folder>, fails: set<string>)
    requires d.Valid() && WellFormed(d)
    ensures WellFormed(SweepFrom(c, d, order, now, unreadable, fails).0)
    decreases |order|
  {
    if order != [] && order[0] !in unreadable {
      if order[0] == Root {
        SweptSecretsWellFormed(d, now, c.secretLifetime, fails);
      } else {
        SweptFolderWellFormed(c, d, order[0], now);
      }
      SweepFromWellFormed(c, SweepStep(c, d, order[0], now, fails), order[1..], now, unreadable, fails);
    }
  }

  /** A sweep, complete or cut short, keeps the store well formed: secret
      files keep their layout and every expiry record holds a code or is empty. */
  lemma SweepKeepsWellFormed(c: Config, d: Disk, now: int, unreadable: set<Folder>, fails: set<string>)
    requires d.Valid() && WellFormed(d)
    ensures WellFormed(SweepSpec(c, d, now, unreadable, fails).0)
  {
    SweepFromWellFormed(c, d, SweepOrder, now, unreadable, fails);
  }

  /** With only an expiry record left for a secret, Status and Retrieve both
      report it expired. */
  lemma ExpiredRecordReports(c: Config, d: Disk, id: string, code: string, t: int, bufLen: nat, env: Env)
    requires d.Valid() && env.Valid() && env.tempRand.Some?
    requires UuidToFileName(c.sha, id) !in d.root && UuidToFileName(c.sha, id) !in d.accessed
    requires UuidToFileName(c.sha, id) in d.expired && d.expired[UuidToFileName(c.sha, id)].File?
    requires |d.expired[UuidToFileName(c.sha, id)].data| == CodeByteSize
    requires code == Text(d.expired[UuidToFileName(c.sha, id)].data)
    ensures StatusSpec(c, d, id, code, t) == Some(SecretExpired)
    ensures RetrieveSpec(c, d, id, bufLen, env).1 == NotRetrieved(SecretExpired)
  {
    var n := UuidToFileName(c.sha, id);
    FileNameNotSubfolder(c.sha, id);
    var data := d.expired[n].data;
    assert data[..CodeByteSize] == data;
  }

  /** Once a sweep has expired a secret, its code still opens its status,
      which reports it expired, and a read reports it expired too. */
  lemma SweptSecretReportsExpired(c: Config, d: Disk, now: int, fails: set<string>, id: string,
                                  t: int, bufLen: nat, env: Env)
    requires d.Valid() && WellFormed(d) && c.secretLifetime >= 0 && env.Valid() && env.tempRand.Some?
    requires UuidToFileName(c.sha, id) in d.root && UuidToFileName(c.sha, id) !in d.accessed
    requires UuidToFileName(c.sha, id) !in fails
    requires Aged(d.root[UuidToFileName(c.sha, id)], now, c.secretLifetime)
    ensures var d' := SweepSpec(c, d, now, {}, fails).0;
      var code := Text(d.root[UuidToFileName(c.sha, id)].data[..CodeByteSize]);
      && StatusSpec(c, d', id, code, t) == Some(SecretExpired)
      && RetrieveSpec(c, d', id, bufLen, env).1 == NotRetrieved(SecretExpired)
  {
    var n := UuidToFileName(c.sha, id);
    var data := d.root[n].data;
    var d' := SweepSpec(c, d, now, {}, fails).0;
    SweepExpiresSecret(c, d, now, fails, n);
    ExpiredRecordOfSecretFile(data);
    var code := Text(data[..CodeByteSize]);
    ExpiredRecordReports(c, d', id, code, t, bufLen, env);
  }
}
