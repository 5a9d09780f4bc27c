/** The secret store of store/store.go. A secret lives in one file of the
    store's root folder; each access and expiry leaves a record behind in the
    accessed or expired folder, so that a secret can be read once only and a
    used id can never be reused. The file system is a value (`Disk`) held by
    the `Store` object, and every step of Save and Retrieve updates it. */
module SecretStore {
  import opened Common
  import opened StoreCodes
  import opened StoreIds
  import opened FreeSpace

  /** Durations and times are integer milliseconds. */
  const Minute: int := 60 * 1000
  const DefaultSecretLifetime: int := 10 * Minute
  const DefaultStorePath: string := "/tmp/sneakynote_store"

  /** An entry of a folder: a regular file with its contents and
      modification time, or a sub-directory. */
  datatype Entry = File(data: seq<byte>, mtime: int) | Dir

  type Listing = map<string, Entry>

  /** The store's root folder and its four sub-folders. */
  datatype Folder = Root | BeingAccessed | Accessed | Expiring | Expired

  const SubfolderNames: set<string> := {"being_accessed", "accessed", "expiring", "expired"}

  /** A file of this name may be placed in folder f without shadowing a sub-folder. */
  predicate CanHold(f: Folder, name: string) {
    f == Root ==> name !in SubfolderNames
  }

  predicate FilesOnly(l: Listing) {
    forall n :: n in l ==> l[n].File?
  }

  /** The contents of the store's five folders. */
  datatype Disk = Disk(root: Listing, beingAccessed: Listing, accessed: Listing, expiring: Listing, expired: Listing)
  {
    function Get(f: Folder): Listing {
      match f
      case Root => root
      case BeingAccessed => beingAccessed
      case Accessed => accessed
      case Expiring => expiring
      case Expired => expired
    }

    function Put(f: Folder, l: Listing): Disk {
      match f
      case Root => this.(root := l)
      case BeingAccessed => this.(beingAccessed := l)
      case Accessed => this.(accessed := l)
      case Expiring => this.(expiring := l)
      case Expired => this.(expired := l)
    }

    /** Moves the file `name` out of the root into the sub-folder `to` under
        `newName`, replacing any file of that name: `os.Rename`. */
    function Moved(name: string, to: Folder, newName: string): Disk
      requires name in root
    {
      this.(root := root - {name}).Put(to, Get(to)[newName := root[name]])
    }

    /** Creates or truncates a file and writes `data`; the file's time
        becomes `now`: `ioutil.WriteFile`. */
    function Written(f: Folder, name: string, data: seq<byte>, now: int): Disk {
      Put(f, Get(f)[name := File(data, now)])
    }

    /** Unlinks a file: `os.Remove`. */
    function Removed(f: Folder, name: string): Disk {
      Put(f, Get(f) - {name})
    }

    /** The root holds the four sub-folders and otherwise secret files; the
        sub-folders hold files only; no entry has an empty name. */
    predicate Valid() {
      && SubfolderNames <= root.Keys
      && (forall n :: n in root ==> (root[n].Dir? <==> n in SubfolderNames))
      && FilesOnly(beingAccessed) && FilesOnly(accessed) && FilesOnly(expiring) && FilesOnly(expired)
      && "" !in root && "" !in beingAccessed && "" !in accessed && "" !in expiring && "" !in expired
    }
  }

  /** The store as Setup leaves it on a fresh RAM disk. */
  function FreshDisk(): (d: Disk)
    ensures d.Valid()
  {
    Disk(map["being_accessed" := Dir, "accessed" := Dir, "expiring" := Dir, "expired" := Dir],
         map[], map[], map[], map[])
  }

  lemma PutGet(d: Disk, f: Folder, l: Listing)
    ensures d.Put(f, l).Get(f) == l
    ensures forall g :: g != f ==> d.Put(f, l).Get(g) == d.Get(g)
  {
  }

  lemma MovedValid(d: Disk, name: string, to: Folder, newName: string)
    requires d.Valid() && name in d.root && name !in SubfolderNames && to != Root && newName != ""
    ensures d.Moved(name, to, newName).Valid()
  {
    PutGet(d.(root := d.root - {name}), to, d.Get(to)[newName := d.root[name]]);
  }

  lemma WrittenValid(d: Disk, f: Folder, name: string, data: seq<byte>, now: int)
    requires d.Valid() && name != "" && CanHold(f, name)
    ensures d.Written(f, name, data, now).Valid()
  {
    PutGet(d, f, d.Get(f)[name := File(data, now)]);
  }

  lemma RemovedValid(d: Disk, f: Folder, name: string)
    requires d.Valid() && CanHold(f, name)
    ensures d.Removed(f, name).Valid()
  {
    PutGet(d, f, d.Get(f) - {name});
  }

  /** A file name made by UuidToFileName is never a sub-folder's name. */
  lemma FileNameNotSubfolder(sha: seq<byte> -> Digest, uuid: string)
    ensures UuidToFileName(sha, uuid) !in SubfolderNames
  {
    var name := UuidToFileName(sha, uuid);
    assert name == "" || |name| == 64;
  }

  datatype StoreError =
    | SecretTooLarge
    | DuplicateId
    | StorageFull
    | SecretAlreadyAccessed
    | SecretExpired
    | SecretNotFound
      /** crypto/rand failed */
    | RandomSourceFailed
      /** reading the request body failed with something other than EOF */
    | BodyReadFailed
      /** "Could not determine storage free space" */
    | FreeSpaceUnknown
      /** writing the secret file failed for a reason other than lack of space */
    | WriteFailed
      /** the secret file was too short to hold a code and its newline */
    | CodeUnreadable

  /** The request body handed to Save: its bytes, and whether reading the
      first MaxSecretSize+1 of them ends in an error other than EOF. */
  datatype Reader = Reader(data: seq<byte>, broken: bool)

  /** How the write of a new secret file ends. */
  datatype WriteOutcome = Written | NoSpaceLeft | WriteError

  /** What the outside world supplies to one call: the clock, the random
      draws (None when crypto/rand fails), the free-space reading and the
      outcome of writing a new secret file. */
  datatype Env = Env(now: int, codeDraws: Option<seq<nat>>, tempRand: Option<seq<byte>>,
                     free: Reading, write: WriteOutcome)
  {
    predicate Valid() {
      && (codeDraws.Some? ==> ValidDraws(codeDraws.value))
      && (tempRand.Some? ==> |tempRand.value| == 32)
    }
  }

  /** The settings of a Store, and the hash used to derive file names. */
  datatype Config = Config(maxSecretSize: int, headroom: int, secretLifetime: int, sha: seq<byte> -> Digest)

  /** AvailableMemory: free space minus the headroom, or -1 when it is unknown. */
  function AvailableMemory(free: Reading, headroom: int): (n: int)
    ensures free.failed ==> n == -1
    ensures !free.failed && Int64Min <= free.value - headroom <= Int64Max ==> n == free.value - headroom
  {
    if free.failed then -1 else Wrap64(free.value - headroom)
  }

  /** `os.Stat(path.Join(dir, name))` succeeds: the empty name denotes the folder itself. */
  predicate Exists(l: Listing, name: string) {
    name == "" || name in l
  }

  /** readCode: the first CodeByteSize bytes of a file, when it has that many. */
  function ReadCode(l: Listing, name: string): (r: Option<string>)
    ensures r.Some? <==> name in l && l[name].File? && |l[name].data| >= CodeByteSize
    ensures r.Some? ==> |r.value| == CodeByteSize && r.value == Text(l[name].data[..CodeByteSize])
  {
    if name in l && l[name].File? && |l[name].data| >= CodeByteSize
    then Some(Text(l[name].data[..CodeByteSize])) else None
  }

  /** accessedOrExpired: the record that marks an id as used, if any. */
  function AccessedOrExpired(d: Disk, name: string): (r: Option<StoreError>)
    ensures r.Some? <==> Exists(d.accessed, name) || Exists(d.expired, name)
    ensures r.Some? ==> r.value == SecretAlreadyAccessed || r.value == SecretExpired
    ensures r == Some(SecretExpired) ==> !Exists(d.accessed, name)
  {
    if Exists(d.accessed, name) then Some(SecretAlreadyAccessed)
    else if Exists(d.expired, name) then Some(SecretExpired)
    else None
  }

  /** retrieveNotFoundError */
  function RetrieveNotFoundError(d: Disk, name: string): (r: StoreError)
    ensures r == SecretNotFound <==> !Exists(d.accessed, name) && !Exists(d.expired, name)
    ensures r == SecretNotFound || r == SecretAlreadyAccessed || r == SecretExpired
    ensures r == SecretExpired ==> !Exists(d.accessed, name)
  {
    match AccessedOrExpired(d, name)
    case Some(e) => e
    case None => SecretNotFound
  }

  /** The contents of a secret file: the code, a newline, the payload. */
  function SecretFile(code: string, payload: seq<byte>): (data: seq<byte>)
    requires IsHumanCode(code)
    ensures |data| == CodeByteSize + 1 + |payload| && data[CodeByteSize + 1..] == payload
  {
    HumanCodeIsAscii(code);
    Bytes(code + "\n") + payload
  }

  /** The code Save and Retrieve take from a secret file: its first
      CodeByteSize+1 bytes with white space trimmed. */
  function CodeLine(data: seq<byte>): seq<byte>
    requires |data| >= CodeByteSize + 1
  {
    TrimSpace(data[..CodeByteSize + 1])
  }

  /** The code part of a secret file reads back as its code. */
  lemma CodeLineOfSecretFile(code: string, payload: seq<byte>)
    requires IsHumanCode(code)
    ensures IsAscii(code) && CodeLine(SecretFile(code, payload)) == Bytes(code)
    ensures Text(CodeLine(SecretFile(code, payload))) == code
    ensures ReadCode(map["n" := File(SecretFile(code, payload), 0)], "n") == Some(code)
  {
    HumanCodeIsAscii(code);
    var data := SecretFile(code, payload);
    assert data[..CodeByteSize + 1] == Bytes(code + "\n");
    TrimCodeLine(code);
    TextOfBytes(code);
    assert data[..CodeByteSize] == Bytes(code);
  }

  /** The code kept in the accessed record when a secret file is opened:
      its code line, or nothing when the file is too short to hold one. */
  function Record(data: seq<byte>): seq<byte> {
    if |data| >= CodeByteSize + 1 then CodeLine(data) else []
  }

  /** The store once the live secret `name` has been opened for reading:
      the file is gone from the root (it was moved into being_accessed under
      `temp`, then zeroed and removed) and its accessed record holds its code. */
  function Consumed(d: Disk, name: string, temp: string, now: int): (r: Disk)
    requires name in d.root && d.root[name].File?
    ensures name !in r.root && temp !in r.beingAccessed
    ensures forall n :: n in d.root && n != name ==> n in r.root && r.root[n] == d.root[n]
    ensures name in r.accessed && r.accessed[name].File? && r.accessed[name].mtime == now
    ensures |d.root[name].data| >= CodeByteSize + 1 ==>
      r.accessed[name].data == TrimSpace(d.root[name].data[..CodeByteSize + 1])
    ensures r.expiring == d.expiring && r.expired == d.expired
  {
    d.(root := d.root - {name},
       beingAccessed := d.beingAccessed - {temp},
       accessed := d.accessed[name := File(Record(d.root[name].data), now)])
  }

  lemma ConsumedValid(d: Disk, name: string, temp: string, now: int)
    requires d.Valid() && name in d.root && name !in SubfolderNames
    ensures Consumed(d, name, temp, now).Valid()
  {
  }

  /** The file operations that open a secret amount to Consumed: rename into
      being_accessed, an empty accessed record, the code written into the
      record when the file holds a code line, and the final removal. */
  lemma ConsumeSteps(d: Disk, name: string, temp: string, now: int)
    requires name in d.root && d.root[name].File?
    ensures var data := d.root[name].data;
      var inFlight := d.Moved(name, BeingAccessed, temp).Written(Accessed, name, [], now);
      var recorded := if |data| >= CodeByteSize + 1 then inFlight.Written(Accessed, name, CodeLine(data), now) else inFlight;
      recorded.Removed(BeingAccessed, temp) == Consumed(d, name, temp, now)
  {
    var data := d.root[name].data;
    var inFlight := d.Moved(name, BeingAccessed, temp).Written(Accessed, name, [], now);
    var recorded := if |data| >= CodeByteSize + 1 then inFlight.Written(Accessed, name, CodeLine(data), now) else inFlight;
    var d' := recorded.Removed(BeingAccessed, temp);
    assert d'.beingAccessed == d.beingAccessed - {temp} by {
      assert d'.beingAccessed == d.beingAccessed[temp := d.root[name]] - {temp};
    }
    assert d'.accessed == d.accessed[name := File(Record(data), now)] by {
      if |data| >= CodeByteSize + 1 {
        assert d'.accessed == d.accessed[name := File([], now)][name := File(CodeLine(data), now)];
      }
    }
  }

  datatype SaveResult = Saved(code: string) | NotSaved(err: StoreError)

  /** Room for the body in Save's buffer: the buffer has
      MaxSecretStorageSize + 1 bytes and the code line fills the first
      CodeByteSize + 1 of them, so one byte more than MaxSecretSize can be
      read and a body that is too large is noticed. */
  function BodyRoom(maxSecretSize: int): (n: int)
    ensures n == maxSecretSize + 1
  {
    MaxSecretStorageSize(maxSecretSize) + 1 - (CodeByteSize + 1)
  }

  /** Save, as a function of the store before the call. */
  function SaveSpec(c: Config, d: Disk, uuid: string, body: Reader, env: Env): (r: (Disk, SaveResult))
    requires d.Valid() && env.Valid() && c.maxSecretSize >= 0
    ensures r.0.Valid()
  {
    var name := UuidToFileName(c.sha, uuid);
    FileNameNotSubfolder(c.sha, uuid);
    var nRead := Min(|body.data|, BodyRoom(c.maxSecretSize));
    var available := AvailableMemory(env.free, c.headroom);
    if AccessedOrExpired(d, name).Some? then (d, NotSaved(DuplicateId))
    else if env.codeDraws.None? then (d, NotSaved(RandomSourceFailed))
    else if body.broken then (d, NotSaved(BodyReadFailed))
    else if nRead > c.maxSecretSize then (d, NotSaved(SecretTooLarge))
    else if nRead > available then (d, NotSaved(StorageFull))
    else if available < 0 then (d, NotSaved(FreeSpaceUnknown))
    else if name in d.root then
      ConsumedValid(d, name, name, env.now);
      (Consumed(d, name, name, env.now), NotSaved(DuplicateId))
    else match env.write
      case NoSpaceLeft => (d, NotSaved(StorageFull))
      case WriteError => (d, NotSaved(WriteFailed))
      case Written =>
        var code := GenerateCode(env.codeDraws.value);
        (d.(root := d.root[name := File(SecretFile(code, body.data), env.now)]), Saved(code))
  }

  datatype Retrieval = Retrieved(payload: seq<byte>, code: string) | NotRetrieved(err: StoreError)

  /** The name of Retrieve's scratch file in being_accessed. */
  function TempName(tempRand: seq<byte>): (n: string)
    requires |tempRand| == 32
    ensures |n| == 64
  {
    HexEncode(tempRand)
  }

  /** Retrieve into a buffer of `bufLen` bytes, as a function of the store
      before the call. */
  function RetrieveSpec(c: Config, d: Disk, id: string, bufLen: nat, env: Env): (r: (Disk, Retrieval))
    requires d.Valid() && env.Valid()
    ensures r.0.Valid()
  {
    var name := UuidToFileName(c.sha, id);
    FileNameNotSubfolder(c.sha, id);
    if env.tempRand.None? then (d, NotRetrieved(RandomSourceFailed))
    else
      var temp := TempName(env.tempRand.value);
      if name in d.root && d.root[name].mtime < env.now - c.secretLifetime then
        (d, NotRetrieved(SecretExpired))
      else if name !in d.root then
        (d.(beingAccessed := d.beingAccessed - {temp}), NotRetrieved(RetrieveNotFoundError(d, name)))
      else
        var data := d.root[name].data;
        ConsumedValid(d, name, temp, env.now);
        var d' := Consumed(d, name, temp, env.now);
        if |data| < CodeByteSize + 1 then (d', NotRetrieved(CodeUnreadable))
        else
          var rest := data[CodeByteSize + 1..];
          (d', Retrieved(rest[..Min(bufLen, |rest|)], Text(CodeLine(data))))
  }

  /** locateSecretAndCode: the accessed record, then the expired record, then
      the live secret; the error says which was found. */
  function Locate(d: Disk, lifetime: int, name: string, now: int): (r: (Option<StoreError>, string))
    ensures r.0 == Some(SecretNotFound) <==> r.1 == ""
    ensures r.1 != "" ==> |r.1| == CodeByteSize
    ensures r.0 == None ==> name in d.root && d.root[name].File? && d.root[name].mtime >= now - lifetime
    ensures r.0 == Some(SecretAlreadyAccessed) <==> ReadCode(d.accessed, name).Some?
  {
    match ReadCode(d.accessed, name)
    case Some(code) => (Some(SecretAlreadyAccessed), code)
    case None =>
      match ReadCode(d.expired, name)
      case Some(code) => (Some(SecretExpired), code)
      case None =>
        match ReadCode(d.root, name)
        case Some(code) => (if d.root[name].mtime < now - lifetime then Some(SecretExpired) else None, code)
        case None => (Some(SecretNotFound), "")
  }

  /** Status: the located state, but only for a caller who knows the code. */
  function StatusSpec(c: Config, d: Disk, id: string, givenCode: string, now: int): (r: Option<StoreError>)
    ensures var name := UuidToFileName(c.sha, id);
      && (r == None ==> ReadCode(d.root, name) == Some(givenCode) && d.root[name].mtime >= now - c.secretLifetime)
      && (r == Some(SecretAlreadyAccessed) ==> ReadCode(d.accessed, name) == Some(givenCode))
      && (r == Some(SecretExpired) ==> ReadCode(d.expired, name) == Some(givenCode) || ReadCode(d.root, name) == Some(givenCode))
  {
    var (err, secretCode) := Locate(d, c.secretLifetime, UuidToFileName(c.sha, id), now);
    if givenCode != "" && givenCode == secretCode then err else Some(SecretNotFound)
  }

  /** `io.ReadFull` from a file holding `src` into `buf`: fills as much of
      the buffer as the file holds and leaves the rest of it alone. */
  method ReadFull(buf: array<byte>, src: seq<byte>) returns (n: int)
    modifies buf
    ensures n == Min(buf.Length, |src|)
    ensures buf[..n] == src[..n] && buf[n..] == old(buf[n..])
  {
    n := Min(buf.Length, |src|);
    forall i | 0 <= i < n {
      buf[i] := src[i];
    }
  }

  class Store {
    var disk: Disk
    var maxSecretSize: int
    var headroom: int
    var secretLifetime: int
    const root: string
    /** SHA-256, as a function from bytes to a 32-byte digest. */
    const sha: seq<byte> -> Digest

    predicate Valid()
      reads this
    {
      disk.Valid() && maxSecretSize >= 0
    }

    function Cfg(): Config
      reads this
    {
      Config(maxSecretSize, headroom, secretLifetime, sha)
    }

    /** Get followed by Setup: the default settings and a fresh RAM disk
        with the four sub-folders. */
    constructor Setup(sha: seq<byte> -> Digest, platformHeadroom: int)
      ensures Valid()
      ensures disk == FreshDisk() && root == DefaultStorePath
      ensures maxSecretSize == DefaultMaxSecretSize && headroom == platformHeadroom
      ensures secretLifetime == DefaultSecretLifetime && this.sha == sha
    {
      root := DefaultStorePath;
      this.sha := sha;
      maxSecretSize := DefaultMaxSecretSize;
      headroom := platformHeadroom;
      secretLifetime := DefaultSecretLifetime;
      var d := Disk(map[], map[], map[], map[], map[]);
      d := d.(root := d.root["being_accessed" := Dir]);
      d := d.(root := d.root["accessed" := Dir]);
      d := d.(root := d.root["expiring" := Dir]);
      d := d.(root := d.root["expired" := Dir]);
      disk := d;
    }

    /** `os.Rename` of a secret file out of the root into a sub-folder;
        fails when the file is missing. */
    method Rename(name: string, to: Folder, newName: string) returns (ok: bool)
      requires Valid() && name !in SubfolderNames && to != Root && newName != ""
      modifies this
      ensures Valid() && Cfg() == old(Cfg())
      ensures ok <==> name in old(disk).root
      ensures disk == if ok then old(disk).Moved(name, to, newName) else old(disk)
    {
      if name !in disk.root {
        return false;
      }
      MovedValid(disk, name, to, newName);
      disk := disk.Moved(name, to, newName);
      ok := true;
    }

    /** `ioutil.WriteFile`: creates or truncates the file; its time becomes now. */
    method WriteFile(f: Folder, name: string, data: seq<byte>, now: int)
      requires Valid() && name != "" && CanHold(f, name)
      modifies this
      ensures Valid() && Cfg() == old(Cfg())
      ensures disk == old(disk).Written(f, name, data, now)
    {
      WrittenValid(disk, f, name, data, now);
      disk := disk.Written(f, name, data, now);
    }

    /** zeroFileAndRemove: overwrites the file's contents with zeros, then
        unlinks it. Removal is deferred, so it happens even when zeroing fails. */
    method ZeroFileAndRemove(f: Folder, name: string)
      requires Valid() && CanHold(f, name)
      modifies this
      ensures Valid() && Cfg() == old(Cfg())
      ensures disk == old(disk).Removed(f, name)
    {
      var l := disk.Get(f);
      if name in l && l[name].File? {
        WrittenValid(disk, f, name, seq(|l[name].data|, _ => 0 as byte), l[name].mtime);
        disk := disk.Written(f, name, seq(|l[name].data|, _ => 0 as byte), l[name].mtime);
      }
      RemovedValid(disk, f, name);
      disk := disk.Removed(f, name);
      assert disk.Get(f) == l - {name};
    }

    /** The duplicate-id branch of Save: the live secret is moved to
        being_accessed, the accessed record gets its code, and the moved
        file is zeroed and removed. */
    method KillSecret(fileName: string, now: int)
      requires Valid() && fileName in disk.root && fileName !in SubfolderNames
      modifies this
      ensures Valid() && Cfg() == old(Cfg())
      ensures disk == Consumed(old(disk), fileName, fileName, now)
    {
      ghost var d0 := disk;
      var _ := Rename(fileName, BeingAccessed, fileName);
      WriteFile(Accessed, fileName, [], now);
      var content := disk.beingAccessed[fileName].data;
      assert content == d0.root[fileName].data;
      if |content| >= CodeByteSize + 1 {
        WriteFile(Accessed, fileName, CodeLine(content), now);
      }
      ZeroFileAndRemove(BeingAccessed, fileName);
      ConsumeSteps(d0, fileName, fileName, now);
    }

    /** Stores a new secret under `uuid` and returns its code. */
    method Save(body: Reader, uuid: string, env: Env) returns (code: string, err: Option<StoreError>)
      requires Valid() && env.Valid()
      modifies this
      ensures Valid() && Cfg() == old(Cfg())
      ensures var (d, r) := SaveSpec(old(Cfg()), old(disk), uuid, body, env);
        disk == d && (if r.Saved? then err.None? && code == r.code else err == Some(r.err) && code == "")
    {
      var fileName := UuidToFileName(sha, uuid);
      FileNameNotSubfolder(sha, uuid);
      if AccessedOrExpired(disk, fileName).Some? {
        return "", Some(DuplicateId);
      }
      if env.codeDraws.None? {
        return "", Some(RandomSourceFailed);
      }
      code := GenerateCode(env.codeDraws.value);
      var nRead := Min(|body.data|, BodyRoom(maxSecretSize));
      if body.broken {
        return "", Some(BodyReadFailed);
      }
      if nRead > maxSecretSize {
        return "", Some(SecretTooLarge);
      }
      var available := AvailableMemory(env.free, headroom);
      if nRead > available {
        return "", Some(StorageFull);
      } else if available < 0 {
        return "", Some(FreeSpaceUnknown);
      }
      if fileName in disk.root {
        // Same id sent twice: the secret is destroyed.
        KillSecret(fileName, env.now);
        return "", Some(DuplicateId);
      }
      match env.write {
        case NoSpaceLeft =>
          return "", Some(StorageFull);
        case WriteError =>
          return "", Some(WriteFailed);
        case Written =>
          WriteFile(Root, fileName, SecretFile(code, body.data[..nRead]), env.now);
          assert body.data[..nRead] == body.data;
          err := None;
      }
    }

    /** Reads a secret once: the secret file is moved aside, the accessed
        record is written, the payload is copied into `buf` and the file is
        zeroed and removed. */
    method Retrieve(id: string, buf: array<byte>, env: Env) returns (nRead: int, code: string, err: Option<StoreError>)
      requires Valid() && env.Valid()
      modifies this, buf
      ensures Valid() && Cfg() == old(Cfg())
      ensures var (d, r) := RetrieveSpec(old(Cfg()), old(disk), id, buf.Length, env);
        && disk == d
        && (r.Retrieved? ==>
              && err.None? && code == r.code && nRead == |r.payload|
              && buf[..nRead] == r.payload && buf[nRead..] == old(buf[nRead..]))
        && (r.NotRetrieved? ==> err == Some(r.err) && code == "" && nRead == -1 && buf[..] == old(buf[..]))
    {
      var fileName := UuidToFileName(sha, id);
      FileNameNotSubfolder(sha, id);
      if env.tempRand.None? {
        return -1, "", Some(RandomSourceFailed);
      }
      var temp := TempName(env.tempRand.value);
      if fileName in disk.root && disk.root[fileName].mtime < env.now - secretLifetime {
        return -1, "", Some(SecretExpired);
      }
      ghost var d0 := disk;
      var moved := Rename(fileName, BeingAccessed, temp);
      if !moved {
        ZeroFileAndRemove(BeingAccessed, temp);
        return -1, "", Some(RetrieveNotFoundError(disk, fileName));
      }
      // Make a record of this access as soon as possible.
      WriteFile(Accessed, fileName, [], env.now);
      var content := disk.beingAccessed[temp].data;
      assert content == d0.root[fileName].data;
      if |content| < CodeByteSize + 1 {
        ZeroFileAndRemove(BeingAccessed, temp);
        ConsumeSteps(d0, fileName, temp, env.now);
        return -1, "", Some(CodeUnreadable);
      }
      var codeBytes := CodeLine(content);
      WriteFile(Accessed, fileName, codeBytes, env.now);
      var rest := content[CodeByteSize + 1..];
      nRead := ReadFull(buf, rest);
      ZeroFileAndRemove(BeingAccessed, temp);
      ConsumeSteps(d0, fileName, temp, env.now);
      code := Text(codeBytes);
      err := None;
    }

    /** locateSecretAndCode: three attempts, since a concurrent request may
        move the secret between the checks. */
    method LocateSecretAndCode(fileName: string, now: int) returns (err: Option<StoreError>, code: string)
      ensures (err, code) == Locate(disk, secretLifetime, fileName, now)
    {
      var retries := 0;
      while retries < 3
        invariant 0 <= retries <= 3
        invariant retries > 0 ==> Locate(disk, secretLifetime, fileName, now) == (Some(SecretNotFound), "")
      {
        var accessedCode := ReadCode(disk.accessed, fileName);
        if accessedCode.Some? {
          return Some(SecretAlreadyAccessed), accessedCode.value;
        }
        var expiredCode := ReadCode(disk.expired, fileName);
        if expiredCode.Some? {
          return Some(SecretExpired), expiredCode.value;
        }
        var secretCode := ReadCode(disk.root, fileName);
        if secretCode.Some? {
          if disk.root[fileName].mtime < now - secretLifetime {
            return Some(SecretExpired), secretCode.value;
          } else {
            return None, secretCode.value;
          }
        }
        retries := retries + 1;
      }
      return Some(SecretNotFound), "";
    }

    /** Status of a secret for a caller presenting `givenCode`. */
    method Status(id: string, givenCode: string, now: int) returns (err: Option<StoreError>)
      ensures err == StatusSpec(Cfg(), disk, id, givenCode, now)
    {
      var fileName := UuidToFileName(sha, id);
      var located, secretCode := LocateSecretAndCode(fileName, now);
      if givenCode != "" && givenCode == secretCode {
        return located;
      } else {
        return Some(SecretNotFound);
      }
    }
  }
}
