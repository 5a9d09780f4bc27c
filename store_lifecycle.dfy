/** What the store promises across calls: a saved secret is read back once,
    with its code; every later read, status query or save under the same id
    is refused; sending an id twice destroys the secret; and the files in the
    store always have the layout Save gives them. */
module StoreLifecycle {
  import opened Common
  import opened StoreCodes
  import opened StoreIds
  import opened FreeSpace
  import opened SecretStore

  /** Save gets past every check that precedes the file operations. */
  predicate SaveChecksPass(c: Config, d: Disk, uuid: string, body: Reader, env: Env)
    requires d.Valid() && env.Valid() && c.maxSecretSize >= 0
  {
    var name := UuidToFileName(c.sha, uuid);
    && AccessedOrExpired(d, name).None?
    && env.codeDraws.Some?
    && !body.broken
    && |body.data| <= c.maxSecretSize
    && |body.data| <= AvailableMemory(env.free, c.headroom)
  }

  /** A successful Save stores the code line and the whole payload under the
      hashed id, stamped with the current time, and touches nothing else. */
  lemma SaveStores(c: Config, d: Disk, uuid: string, body: Reader, env: Env)
    requires d.Valid() && env.Valid() && c.maxSecretSize >= 0
    ensures var (d', r) := SaveSpec(c, d, uuid, body, env);
      var name := UuidToFileName(c.sha, uuid);
      r.Saved? <==> SaveChecksPass(c, d, uuid, body, env) && name !in d.root && env.write.Written?
    ensures var (d', r) := SaveSpec(c, d, uuid, body, env);
      var name := UuidToFileName(c.sha, uuid);
      r.Saved? ==>
        && IsHumanCode(r.code) && r.code == GenerateCode(env.codeDraws.value)
        && name != "" && d' == d.(root := d.root[name := File(SecretFile(r.code, body.data), env.now)])
  {
    var name := UuidToFileName(c.sha, uuid);
    if SaveChecksPass(c, d, uuid, body, env) {
      assert Min(|body.data|, BodyRoom(c.maxSecretSize)) == |body.data|;
    }
  }

  /** Every secret file Save writes fits the storage bound: the code line
      and at most MaxSecretSize bytes of payload. A payload of exactly
      MaxSecretSize bytes fills it. */
  lemma SavedFileFits(c: Config, d: Disk, uuid: string, body: Reader, env: Env)
    requires d.Valid() && env.Valid() && c.maxSecretSize >= 0
    ensures var (d', r) := SaveSpec(c, d, uuid, body, env);
      var name := UuidToFileName(c.sha, uuid);
      r.Saved? ==>
        && name in d'.root && d'.root[name].File?
        && |d'.root[name].data| <= MaxSecretStorageSize(c.maxSecretSize)
        && (|body.data| == c.maxSecretSize ==> |d'.root[name].data| == MaxSecretStorageSize(c.maxSecretSize))
  {
    SaveStores(c, d, uuid, body, env);
  }

  /** The free-space check never reports "Could not determine storage free
      space": an unknown reading is -1, and any body, even an empty one, is
      larger than that, so Save answers StorageFull first. */
  lemma FreeSpaceUnknownUnreachable(c: Config, d: Disk, uuid: string, body: Reader, env: Env)
    requires d.Valid() && env.Valid() && c.maxSecretSize >= 0
    ensures SaveSpec(c, d, uuid, body, env).1 != NotSaved(FreeSpaceUnknown)
  {
  }

  /** A body of exactly MaxSecretSize bytes is within the limit; one byte
      more is refused as too large, and nothing is stored. */
  lemma SizeLimit(c: Config, d: Disk, uuid: string, body: Reader, env: Env)
    requires d.Valid() && env.Valid() && c.maxSecretSize >= 0
    requires AccessedOrExpired(d, UuidToFileName(c.sha, uuid)).None? && env.codeDraws.Some? && !body.broken
    ensures |body.data| <= c.maxSecretSize ==> SaveSpec(c, d, uuid, body, env).1 != NotSaved(SecretTooLarge)
    ensures |body.data| > c.maxSecretSize ==> SaveSpec(c, d, uuid, body, env) == (d, NotSaved(SecretTooLarge))
  {
  }

  /** Reading a secret within its lifetime, into a buffer large enough,
      gives back exactly the payload and the code that Save returned; the
      secret is gone from the root and its accessed record holds the code. */
  lemma SaveThenRetrieve(c: Config, d: Disk, uuid: string, body: Reader, env: Env,
                         bufLen: nat, env2: Env)
    requires d.Valid() && env.Valid() && env2.Valid() && c.maxSecretSize >= 0
    requires SaveSpec(c, d, uuid, body, env).1.Saved?
    requires env2.tempRand.Some? && env2.now - c.secretLifetime <= env.now
    requires bufLen >= |body.data|
    ensures var (d1, saved) := SaveSpec(c, d, uuid, body, env);
      var (d2, got) := RetrieveSpec(c, d1, uuid, bufLen, env2);
      var name := UuidToFileName(c.sha, uuid);
      && got == Retrieved(body.data, saved.code)
      && name !in d2.root
      && name in d2.accessed && IsAscii(saved.code) && d2.accessed[name].data == Bytes(saved.code)
  {
    SaveStores(c, d, uuid, body, env);
    var (d1, saved) := SaveSpec(c, d, uuid, body, env);
    var name := UuidToFileName(c.sha, uuid);
    var data := SecretFile(saved.code, body.data);
    assert d1.root[name] == File(data, env.now);
    CodeLineOfSecretFile(saved.code, body.data);
    assert data[CodeByteSize + 1..][..|body.data|] == body.data;
  }

  /** A secret is read at most once: after a read that opened the file, a
      second read of the same id reports SecretAlreadyAccessed and changes
      nothing but the scratch name it drew. */
  lemma SingleUse(c: Config, d: Disk, id: string, bufLen: nat, env: Env, bufLen2: nat, env2: Env)
    requires d.Valid() && env.Valid() && env2.Valid()
    requires var r := RetrieveSpec(c, d, id, bufLen, env).1; r.Retrieved? || r == NotRetrieved(CodeUnreadable)
    requires env2.tempRand.Some?
    ensures var d1 := RetrieveSpec(c, d, id, bufLen, env).0;
      RetrieveSpec(c, d1, id, bufLen2, env2)
        == (d1.(beingAccessed := d1.beingAccessed - {TempName(env2.tempRand.value)}), NotRetrieved(SecretAlreadyAccessed))
  {
    var name := UuidToFileName(c.sha, id);
    FileNameNotSubfolder(c.sha, id);
    ConsumedValid(d, name, TempName(env.tempRand.value), env.now);
  }

  /** Once a secret has been read, its id can never be saved again. */
  lemma NoReuseAfterRead(c: Config, d: Disk, id: string, bufLen: nat, env: Env, body: Reader, env2: Env)
    requires d.Valid() && env.Valid() && env2.Valid() && c.maxSecretSize >= 0
    requires RetrieveSpec(c, d, id, bufLen, env).1.Retrieved?
    ensures var d1 := RetrieveSpec(c, d, id, bufLen, env).0;
      SaveSpec(c, d1, id, body, env2) == (d1, NotSaved(DuplicateId))
  {
    var name := UuidToFileName(c.sha, id);
    FileNameNotSubfolder(c.sha, id);
    ConsumedValid(d, name, TempName(env.tempRand.value), env.now);
  }

  /** Sending a live id again destroys the secret: the second Save fails
      with DuplicateId, the secret file is gone, its accessed record holds
      its code, and a later read reports SecretAlreadyAccessed. */
  lemma DuplicateSaveDestroys(c: Config, d: Disk, uuid: string, body: Reader, env: Env,
                              bufLen: nat, env2: Env)
    requires d.Valid() && env.Valid() && env2.Valid() && c.maxSecretSize >= 0
    requires UuidToFileName(c.sha, uuid) in d.root
    requires SaveChecksPass(c, d, uuid, body, env)
    requires env2.tempRand.Some?
    ensures var name := UuidToFileName(c.sha, uuid);
      var (d1, r) := SaveSpec(c, d, uuid, body, env);
      && r == NotSaved(DuplicateId)
      && name !in d1.root
      && d1.accessed == d.accessed[name := File(Record(d.root[name].data), env.now)]
      && RetrieveSpec(c, d1, uuid, bufLen, env2).1 == NotRetrieved(SecretAlreadyAccessed)
  {
    FileNameNotSubfolder(c.sha, uuid);
    assert Min(|body.data|, BodyRoom(c.maxSecretSize)) == |body.data|;
  }

  /** Status answers only a caller who presents the secret's code: without
      it, every id looks unknown. */
  lemma StatusNeedsCode(c: Config, d: Disk, id: string, givenCode: string, now: int)
    ensures givenCode == "" ==> StatusSpec(c, d, id, givenCode, now) == Some(SecretNotFound)
    ensures StatusSpec(c, d, id, givenCode, now) != Some(SecretNotFound) ==>
      && |givenCode| == CodeByteSize
      && givenCode == Locate(d, c.secretLifetime, UuidToFileName(c.sha, id), now).1
  {
  }

  /** Right after Save, the holder of the code sees the secret as waiting
      (no error) until its lifetime ends, and as expired afterwards. */
  lemma StatusOfSavedSecret(c: Config, d: Disk, uuid: string, body: Reader, env: Env, now: int)
    requires d.Valid() && env.Valid() && c.maxSecretSize >= 0
    requires SaveSpec(c, d, uuid, body, env).1.Saved?
    ensures var (d1, saved) := SaveSpec(c, d, uuid, body, env);
      StatusSpec(c, d1, uuid, saved.code, now)
        == if env.now < now - c.secretLifetime then Some(SecretExpired) else None
  {
    SaveStores(c, d, uuid, body, env);
    var (d1, saved) := SaveSpec(c, d, uuid, body, env);
    var name := UuidToFileName(c.sha, uuid);
    CodeLineOfSecretFile(saved.code, body.data);
    assert ReadCode(d1.accessed, name).None? && ReadCode(d1.expired, name).None?;
    ReadCodeOfSecretFile(d1.root, name, saved.code, body.data, env.now);
  }

  lemma ReadCodeOfSecretFile(l: Listing, name: string, code: string, payload: seq<byte>, t: int)
    requires IsHumanCode(code) && name in l && l[name] == File(SecretFile(code, payload), t)
    ensures ReadCode(l, name) == Some(code)
  {
    HumanCodeIsAscii(code);
    var data := SecretFile(code, payload);
    assert data[..CodeByteSize] == Bytes(code);
    TextOfBytes(code);
  }

  /** After the secret has been read, the holder of the code is told so. */
  lemma StatusAfterRead(c: Config, d: Disk, uuid: string, body: Reader, env: Env,
                        bufLen: nat, env2: Env, now: int)
    requires d.Valid() && env.Valid() && env2.Valid() && c.maxSecretSize >= 0
    requires SaveSpec(c, d, uuid, body, env).1.Saved?
    requires env2.tempRand.Some? && env2.now - c.secretLifetime <= env.now
    requires bufLen >= |body.data|
    ensures var (d1, saved) := SaveSpec(c, d, uuid, body, env);
      var d2 := RetrieveSpec(c, d1, uuid, bufLen, env2).0;
      StatusSpec(c, d2, uuid, saved.code, now) == Some(SecretAlreadyAccessed)
  {
    SaveThenRetrieve(c, d, uuid, body, env, bufLen, env2);
    var (d1, saved) := SaveSpec(c, d, uuid, body, env);
    var d2 := RetrieveSpec(c, d1, uuid, bufLen, env2).0;
    StatusOfAccessedRecord(c, d2, uuid, saved.code, now);
  }

  /** An accessed record holding the code makes Status report the secret as read. */
  lemma StatusOfAccessedRecord(c: Config, d: Disk, id: string, code: string, now: int)
    requires IsHumanCode(code) && IsAscii(code)
    requires UuidToFileName(c.sha, id) in d.accessed
    requires d.accessed[UuidToFileName(c.sha, id)].File? && d.accessed[UuidToFileName(c.sha, id)].data == Bytes(code)
    ensures StatusSpec(c, d, id, code, now) == Some(SecretAlreadyAccessed)
  {
    var name := UuidToFileName(c.sha, id);
    TextOfBytes(code);
    assert Bytes(code)[..CodeByteSize] == Bytes(code);
    assert ReadCode(d.accessed, name) == Some(code);
  }

  /** The layout of a secret file: a human code, a newline, then the payload. */
  predicate IsSecretFile(data: seq<byte>) {
    |data| >= CodeByteSize + 1 && IsHumanCode(Text(data[..CodeByteSize])) && data[CodeByteSize] == 10
  }

  /** An accessed or expired record that holds a code. */
  predicate IsCodeRecord(data: seq<byte>) {
    |data| == CodeByteSize && IsHumanCode(Text(data))
  }

  /** Every secret file has the layout Save writes; every accessed record
      holds a code; an expired record holds a code or, when the sweeper
      could not move the secret, nothing. */
  predicate WellFormed(d: Disk) {
    && (forall n :: n in d.root && d.root[n].File? ==> IsSecretFile(d.root[n].data))
    && (forall n :: n in d.accessed ==> d.accessed[n].File? && IsCodeRecord(d.accessed[n].data))
    && (forall n :: n in d.expired ==> d.expired[n].File? && (d.expired[n].data == [] || IsCodeRecord(d.expired[n].data)))
  }

  lemma SecretFileLayout(code: string, payload: seq<byte>)
    requires IsHumanCode(code)
    ensures IsSecretFile(SecretFile(code, payload))
    ensures Record(SecretFile(code, payload)) == Bytes(code) && IsCodeRecord(Bytes(code))
  {
    HumanCodeIsAscii(code);
    var data := SecretFile(code, payload);
    assert data[..CodeByteSize] == Bytes(code);
    TextOfBytes(code);
    CodeLineOfSecretFile(code, payload);
  }

  /** The code line of any well-formed secret file is its code. */
  lemma RecordOfSecretFile(data: seq<byte>)
    requires IsSecretFile(data)
    ensures IsCodeRecord(Record(data))
  {
    var code := Text(data[..CodeByteSize]);
    assert data == SecretFile(code, data[CodeByteSize + 1..]) by {
      HumanCodeIsAscii(code);
      var b := Bytes(code + "\n");
      assert forall k :: 0 <= k < CodeByteSize ==> b[k] == data[k];
      assert b == data[..CodeByteSize + 1];
    }
    SecretFileLayout(code, data[CodeByteSize + 1..]);
  }

  /** WellFormed looks only at the root, accessed and expired folders. */
  lemma WellFormedFrame(d: Disk, d': Disk)
    requires WellFormed(d) && d'.root == d.root && d'.accessed == d.accessed && d'.expired == d.expired
    ensures WellFormed(d')
  {
  }

  lemma ConsumedWellFormed(d: Disk, name: string, temp: string, now: int)
    requires WellFormed(d) && name in d.root && d.root[name].File?
    ensures WellFormed(Consumed(d, name, temp, now))
  {
    RecordOfSecretFile(d.root[name].data);
  }

  /** Save either leaves the three folders alone, stores a new secret file,
      or (for a live duplicate) consumes the secret. */
  lemma SaveEffect(c: Config, d: Disk, uuid: string, body: Reader, env: Env)
    requires d.Valid() && env.Valid() && c.maxSecretSize >= 0
    ensures var (d', r) := SaveSpec(c, d, uuid, body, env);
      var name := UuidToFileName(c.sha, uuid);
      || d' == d
      || (name in d.root && d.root[name].File? && d' == Consumed(d, name, name, env.now))
      || (r.Saved? && IsHumanCode(r.code) && d' == d.(root := d.root[name := File(SecretFile(r.code, body.data), env.now)]))
  {
    FileNameNotSubfolder(c.sha, uuid);
  }

  /** Retrieve either leaves the three folders alone or consumes the secret. */
  lemma RetrieveEffect(c: Config, d: Disk, id: string, bufLen: nat, env: Env)
    requires d.Valid() && env.Valid()
    ensures var d' := RetrieveSpec(c, d, id, bufLen, env).0;
      var name := UuidToFileName(c.sha, id);
      || (d'.root == d.root && d'.accessed == d.accessed && d'.expired == d.expired)
      || (env.tempRand.Some? && name in d.root && d.root[name].File?
          && d' == Consumed(d, name, TempName(env.tempRand.value), env.now))
  {
    FileNameNotSubfolder(c.sha, id);
  }

  lemma SaveKeepsWellFormed(c: Config, d: Disk, uuid: string, body: Reader, env: Env)
    requires d.Valid() && env.Valid() && c.maxSecretSize >= 0 && WellFormed(d)
    ensures WellFormed(SaveSpec(c, d, uuid, body, env).0)
  {
    var name := UuidToFileName(c.sha, uuid);
    var (d1, r) := SaveSpec(c, d, uuid, body, env);
    SaveEffect(c, d, uuid, body, env);
    if d1 == d {
    } else if name in d.root && d.root[name].File? && d1 == Consumed(d, name, name, env.now) {
      ConsumedWellFormed(d, name, name, env.now);
    } else {
      AddSecretWellFormed(d, name, r.code, body.data, env.now);
    }
  }

  lemma AddSecretWellFormed(d: Disk, name: string, code: string, payload: seq<byte>, now: int)
    requires WellFormed(d) && IsHumanCode(code)
    ensures WellFormed(d.(root := d.root[name := File(SecretFile(code, payload), now)]))
  {
    SecretFileLayout(code, payload);
  }

  lemma RetrieveKeepsWellFormed(c: Config, d: Disk, id: string, bufLen: nat, env: Env)
    requires d.Valid() && env.Valid() && WellFormed(d)
    ensures WellFormed(RetrieveSpec(c, d, id, bufLen, env).0)
  {
    var name := UuidToFileName(c.sha, id);
    var d1 := RetrieveSpec(c, d, id, bufLen, env).0;
    RetrieveEffect(c, d, id, bufLen, env);
    if d1.root == d.root && d1.accessed == d.accessed && d1.expired == d.expired {
      WellFormedFrame(d, d1);
    } else {
      ConsumedWellFormed(d, name, TempName(env.tempRand.value), env.now);
    }
  }

  /** In a well-formed store every secret file holds a code line, so
      Retrieve never fails for want of one. */
  lemma WellFormedCodeReadable(c: Config, d: Disk, id: string, bufLen: nat, env: Env)
    requires d.Valid() && env.Valid() && WellFormed(d)
    ensures RetrieveSpec(c, d, id, bufLen, env).1 != NotRetrieved(CodeUnreadable)
  {
    FileNameNotSubfolder(c.sha, id);
  }

  lemma FreshDiskWellFormed()
    ensures WellFormed(FreshDisk())
  {
  }
}
