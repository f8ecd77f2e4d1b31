/** Authenticating with an API key through a cache, and revoking a key: database first, cache entry second. */
module ApiKeyAuth {
  import opened Collections
  import opened ApiKeyFormat

  datatype Credential = Credential(
    keyPk: nat, tenantId: nat, deviceId: nat, keyId: string, keyHash: seq<Byte>,
    expiresAt: Option<int>, revokedAt: Option<int>, machineId: string, deviceActive: bool)

  datatype CacheEntry = CacheEntry(cred: Credential, setAt: int)

  datatype DeviceIdentity = DeviceIdentity(tenantId: nat, deviceId: nat, machineId: string, keyPk: nat, keyId: string)

  datatype AuthError = KeyInvalid
  datatype RevokeError = KeyNotFound

  predicate Expired(cred: Credential, now: int) {
    cred.expiresAt.Some? && cred.expiresAt.value <= now
  }

  /** Not revoked, not expired, device active. */
  predicate Usable(cred: Credential, now: int) {
    cred.revokedAt.None? && !Expired(cred, now) && cred.deviceActive
  }

  /** revoked_at is written once; a second revocation leaves it. */
  function Revoked(cred: Credential, now: int): Credential {
    if cred.revokedAt.None? then cred.(revokedAt := Some(now)) else cred
  }

  /** The database after revoking the key with this primary key and tenant. */
  function RevokeWhere(db: map<string, Credential>, keyPk: nat, tenantId: nat, now: int): map<string, Credential> {
    map k | k in db :: if db[k].keyPk == keyPk && db[k].tenantId == tenantId then Revoked(db[k], now) else db[k]
  }

  class Keys {
    var db: map<string, Credential>
    var cache: map<string, CacheEntry>
    const ttl: int
    const hash: string -> seq<Byte>

    constructor (ttl: int, hash: string -> seq<Byte>)
      ensures this.ttl == (if ttl <= 0 then 60000 else ttl) && this.hash == hash && db == map[] && cache == map[]
    {
      this.ttl := if ttl <= 0 then 60000 else ttl;
      this.hash := hash;
      db, cache := map[], map[];
    }

    /** The database knows a key by its public id, and a cached credential is some credential of that id. */
    ghost predicate Valid()
      reads this
    {
      && (forall k :: k in db ==> db[k].keyId == k && k != [])
      && (forall k, l :: k in db && l in db && db[k].keyPk == db[l].keyPk ==> k == l)
      && (forall k :: k in cache ==> cache[k].cred.keyId == k)
    }

    method Lookup(keyId: string, now: int) returns (cred: Option<Credential>)
      requires Valid()
      modifies this`cache
      ensures Valid()
      ensures
        if keyId in old(cache) && now < old(cache)[keyId].setAt + ttl then
          cred == Some(old(cache)[keyId].cred) && cache == old(cache)
        else if keyId in db then
          cred == Some(db[keyId]) && cache == old(cache)[keyId := CacheEntry(db[keyId], now)]
        else
          cred == None && cache == old(cache)
    {
      if keyId in cache && now < cache[keyId].setAt + ttl {
        return Some(cache[keyId].cred);
      }
      if keyId !in db {
        return None;
      }
      cache := cache[keyId := CacheEntry(db[keyId], now)];
      cred := Some(db[keyId]);
    }

    /** What a look-up of this key gives: a cached credential younger than the time to live, or the one of the
        database. */
    ghost predicate Gives(keyId: string, now: int, cred: Credential)
      reads this
    {
      if keyId in cache && now < cache[keyId].setAt + ttl then cred == cache[keyId].cred
      else keyId in db && cred == db[keyId]
    }

    /** Exactly who gets in: whoever presents a well-formed key whose credential, as looked up, has the secret's digest,
        is not revoked, has an active device, and expires later than now or never. Every refusal looks the same. */
    method Authenticate(plaintext: string, now: int) returns (r: Result<DeviceIdentity, AuthError>)
      requires Valid()
      modifies this`cache
      ensures Valid()
      ensures r.Ok? <==>
                Parse(plaintext).Ok? && var p := Parse(plaintext).value;
                exists cred :: old(Gives(p.keyId, now, cred))
                  && cred.keyHash == hash(p.secret) && cred.revokedAt == None && cred.deviceActive
                  && (cred.expiresAt.None? || now < cred.expiresAt.value)
      ensures r.Ok? ==>
                exists cred :: old(Gives(Parse(plaintext).value.keyId, now, cred))
                  && r.value == DeviceIdentity(cred.tenantId, cred.deviceId, cred.machineId, cred.keyPk, cred.keyId)
                  && cred.keyId == Parse(plaintext).value.keyId
      ensures
        if Parse(plaintext).Err? then cache == old(cache) else
          var keyId := Parse(plaintext).value.keyId;
          cache == if keyId in db && !(keyId in old(cache) && now < old(cache)[keyId].setAt + ttl)
                   then old(cache)[keyId := CacheEntry(db[keyId], now)] else old(cache)
    {
      var parsed := Parse(plaintext);
      if parsed.Err? {
        return Err(KeyInvalid);
      }
      var found := Lookup(parsed.value.keyId, now);
      if found.None? {
        return Err(KeyInvalid);
      }
      var cred := found.value;
      if cred.keyHash != hash(parsed.value.secret) {
        return Err(KeyInvalid);
      }
      if cred.revokedAt.Some? || (cred.expiresAt.Some? && cred.expiresAt.value <= now) || !cred.deviceActive {
        return Err(KeyInvalid);
      }
      r := Ok(DeviceIdentity(cred.tenantId, cred.deviceId, cred.machineId, cred.keyPk, cred.keyId));
    }

    /** `listed` are the device's keys, as the database lists them; the cache delete may fail. */
    method RevokeAPIKey(tenantId: nat, deviceId: nat, keyPk: nat, listed: seq<Credential>, now: int, delWorks: bool)
      returns (r: Result<string, RevokeError>)
      requires Valid()
      requires forall c :: c in listed <==>
                 exists k :: k in db && db[k] == c && c.tenantId == tenantId && c.deviceId == deviceId
      modifies this
      ensures Valid()
      ensures r.Ok? <==> exists k :: k in old(db) && old(db)[k].keyPk == keyPk && old(db)[k].tenantId == tenantId
                                     && old(db)[k].deviceId == deviceId
      ensures r.Ok? ==>
                && r.value in db && db[r.value].keyPk == keyPk && db[r.value].revokedAt.Some?
                && db == RevokeWhere(old(db), keyPk, tenantId, now)
                && (forall k :: k in old(db) && k != r.value ==> k in db && db[k] == old(db)[k])
                && db[r.value] == (if old(db)[r.value].revokedAt.Some? then old(db)[r.value]
                                   else old(db)[r.value].(revokedAt := Some(now)))
                && cache == (if delWorks then old(cache) - {r.value} else old(cache))
      ensures r.Err? ==> db == old(db) && cache == old(cache)
    {
      var keyId: string := [];
      for i := 0 to |listed|
        invariant keyId == []
        invariant forall j :: 0 <= j < i ==> listed[j].keyPk != keyPk
      {
        if listed[i].keyPk == keyPk {
          assert listed[i] in listed;
          keyId := listed[i].keyId;
          break;
        }
      }
      if keyId == [] {
        return Err(KeyNotFound);
      }
      assert keyId in db && db[keyId].keyPk == keyPk;
      db := RevokeWhere(db, keyPk, tenantId, now);
      if delWorks {
        cache := cache - {keyId};
      }
      r := Ok(keyId);
    }
  }
}
