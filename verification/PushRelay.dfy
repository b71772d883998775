/** The push relay's key and device-token registry.  The four key prefixes of the store are four maps,
    and each handler is one atomic step.  `hash` stands for SHA-256. */
module PushRelay {
  import opened Wrappers

  datatype Source = Admin | Self

  /** `registeredIp == ""` is null. */
  datatype ApiKeyRecord = ApiKeyRecord(
    id: string, label_: string, enabled: bool, createdAt: int, expiresAt: Option<int>, source: Source, registeredIp: string)

  type Hash = string -> string

  datatype State = State(
    keys: map<string, ApiKeyRecord>,
    keyIds: map<string, string>,
    ipKeys: map<string, string>,
    boundTokens: map<string, string>)

  const EMPTY_STATE: State := State(map[], map[], map[], map[])

  /** A missing entry reads as the empty string. */
  function Get(m: map<string, string>, k: string): string {
    if k in m then m[k] else ""
  }

  predicate IsExpired(record: ApiKeyRecord, now: int) {
    record.expiresAt.Some? && record.expiresAt.value <= now
  }

  predicate IsUsable(record: ApiKeyRecord, now: int) {
    record.enabled && !IsExpired(record, now)
  }

  // ---------- Handlers on states ----------

  function Minted(st: State, hash: Hash, key: string, record: ApiKeyRecord): State {
    st.(keys := st.keys[hash(key) := record], keyIds := st.keyIds[record.id := hash(key)])
  }

  function Revoked(st: State, id: string): State {
    var h := Get(st.keyIds, id);
    if h == "" then st
    else
      var ip := if h in st.keys then st.keys[h].registeredIp else "";
      State(st.keys - {h}, st.keyIds - {id},
            if ip != "" && Get(st.ipKeys, ip) == id then st.ipKeys - {ip} else st.ipKeys,
            st.boundTokens)
  }

  /** One key per address bucket: the bucket's earlier key is revoked first. */
  function Registered(st: State, hash: Hash, ip: string, label_: string, key: string, id: string, now: int): State {
    var record := ApiKeyRecord(id, label_, true, now, None, Self, ip);
    if ip == "" then Minted(st, hash, key, record)
    else
      var prior := Get(st.ipKeys, ip);
      var s := Minted(if prior != "" then Revoked(st, prior) else st, hash, key, record);
      s.(ipKeys := s.ipKeys[ip := id])
  }

  predicate MayBind(st: State, hash: Hash, token: string, keyId: string, now: int) {
    var owner := Get(st.boundTokens, hash(token));
    || owner == "" || owner == keyId
    || (var h := Get(st.keyIds, owner);
        h == "" || h !in st.keys || !IsUsable(st.keys[h], now))
  }

  datatype ClaimResult = Allowed(newlyClaimed: bool) | Refused | Unauthorized

  function Claimed(st: State, hash: Hash, token: string, keyId: string, now: int): (State, ClaimResult) {
    if !MayBind(st, hash, token, keyId, now) then (st, Refused)
    else if Get(st.boundTokens, hash(token)) == keyId && hash(token) in st.boundTokens then (st, Allowed(false))
    else (st.(boundTokens := st.boundTokens[hash(token) := keyId]), Allowed(true))
  }

  function Released(st: State, hash: Hash, token: string): State {
    st.(boundTokens := st.boundTokens - {hash(token)})
  }

  /** The send path up to the delivery: the presented key must be known and usable. */
  function SendClaimed(st: State, hash: Hash, key: string, token: string, now: int): (State, ClaimResult) {
    if hash(key) in st.keys && IsUsable(st.keys[hash(key)], now) then Claimed(st, hash, token, st.keys[hash(key)].id, now)
    else (st, Unauthorized)
  }

  // ---------- The registry object ----------

  class Registry {
    const hash: Hash
    var keys: map<string, ApiKeyRecord>
    var keyIds: map<string, string>
    var ipKeys: map<string, string>
    var boundTokens: map<string, string>

    constructor (hash: Hash)
      ensures this.hash == hash && Abs() == EMPTY_STATE
    {
      this.hash := hash;
      keys, keyIds, ipKeys, boundTokens := map[], map[], map[], map[];
    }

    function Abs(): State
      reads this
    {
      State(keys, keyIds, ipKeys, boundTokens)
    }

    method MintKey(key: string, id: string, label_: string, expiresAt: Option<int>, source: Source,
                   registeredIp: string, now: int)
      returns (record: ApiKeyRecord)
      modifies this
      ensures record == ApiKeyRecord(id, label_, true, now, expiresAt, source, registeredIp)
      ensures Abs() == Minted(old(Abs()), hash, key, record)
    {
      record := ApiKeyRecord(id, label_, true, now, expiresAt, source, registeredIp);
      var h := hash(key);
      keys := keys[h := record];
      keyIds := keyIds[id := h];
    }

    method RevokeKeyById(id: string) returns (known: bool)
      modifies this
      ensures known <==> Get(old(keyIds), id) != ""
      ensures Abs() == Revoked(old(Abs()), id)
    {
      var h := Get(keyIds, id);
      if h == "" {
        return false;
      }
      var ip := if h in keys then keys[h].registeredIp else "";
      keys := keys - {h};
      keyIds := keyIds - {id};
      if ip != "" {
        var current := Get(ipKeys, ip);
        if current == id {
          ipKeys := ipKeys - {ip};
        }
      }
      known := true;
    }

    /** `open` is the registration switch and `withinLimit` the answer of the per-address rate limiter. */
    method HandleRegister(open: bool, withinLimit: bool, ip: string, label_: string, key: string, id: string, now: int)
      returns (record: Option<ApiKeyRecord>)
      modifies this
      ensures record.Some? <==> open && (ip != "" ==> withinLimit)
      ensures record == None ==> Abs() == old(Abs())
      ensures record.Some? ==> Abs() == Registered(old(Abs()), hash, ip, label_, key, id, now) && record.value.id == id
    {
      if !open || (ip != "" && !withinLimit) {
        return None;
      }
      if ip != "" {
        var prior := Get(ipKeys, ip);
        if prior != "" {
          var revoked := RevokeKeyById(prior);
        }
      }
      var minted := MintKey(key, id, label_, None, Self, ip, now);
      if ip != "" {
        ipKeys := ipKeys[ip := minted.id];
      }
      record := Some(minted);
    }

    method CheckTokenBinding(token: string, keyId: string, now: int) returns (allowed: bool)
      ensures allowed == MayBind(Abs(), hash, token, keyId, now)
    {
      var boundKeyId := Get(boundTokens, hash(token));
      if boundKeyId == "" || boundKeyId == keyId {
        return true;
      }
      var boundHash := Get(keyIds, boundKeyId);
      if boundHash == "" {
        return true;
      }
      if boundHash !in keys || !keys[boundHash].enabled || IsExpired(keys[boundHash], now) {
        return true;
      }
      allowed := false;
    }

    method ClaimTokenForSend(token: string, keyId: string, now: int) returns (result: ClaimResult)
      modifies this
      ensures (Abs(), result) == Claimed(old(Abs()), hash, token, keyId, now)
    {
      var allowed := CheckTokenBinding(token, keyId, now);
      if !allowed {
        return Refused;
      }
      if hash(token) in boundTokens && boundTokens[hash(token)] == keyId {
        return Allowed(false);
      }
      boundTokens := boundTokens[hash(token) := keyId];
      result := Allowed(true);
    }

    method ReleaseToken(token: string)
      modifies this
      ensures Abs() == Released(old(Abs()), hash, token)
    {
      boundTokens := boundTokens - {hash(token)};
    }
  }

  // ---------- The indexes ----------

  ghost predicate Injective(hash: Hash) {
    (forall x, y :: hash(x) == hash(y) ==> x == y) && forall x :: hash(x) != ""
  }

  ghost predicate Indexed(st: State) {
    && (forall h :: h in st.keys ==>
          h != "" && st.keys[h].id != "" && st.keys[h].id in st.keyIds && st.keyIds[st.keys[h].id] == h)
    && (forall id :: id in st.keyIds ==> st.keyIds[id] in st.keys && st.keys[st.keyIds[id]].id == id)
  }

  ghost predicate Bucketed(st: State) {
    && (forall h :: h in st.keys && st.keys[h].registeredIp != "" ==>
          st.keys[h].registeredIp in st.ipKeys && st.ipKeys[st.keys[h].registeredIp] == st.keys[h].id)
    && (forall ip :: ip in st.ipKeys ==>
          && ip != "" && st.ipKeys[ip] in st.keyIds && st.keyIds[st.ipKeys[ip]] in st.keys
          && st.keys[st.keyIds[st.ipKeys[ip]]].registeredIp == ip)
  }

  /** Keys, their identifiers and the address buckets index one another. */
  ghost predicate Inv(st: State) {
    Indexed(st) && Bucketed(st)
  }

  /** A new key and identifier collide with none in use. */
  ghost predicate Unused(st: State, hash: Hash, key: string, id: string) {
    hash(key) !in st.keys && id != "" && id !in st.keyIds && forall t :: t in st.boundTokens ==> st.boundTokens[t] != id
  }

  /** Each non-empty address bucket has at most one registered key. */
  lemma {:induction false} OneKeyPerBucket(st: State, h: string, h': string)
    requires Inv(st) && h in st.keys && h' in st.keys
    requires st.keys[h].registeredIp == st.keys[h'].registeredIp != ""
    ensures h == h'
  {
    assert st.keyIds[st.keys[h].id] == h && st.keyIds[st.keys[h'].id] == h';
  }

  lemma {:induction false} RevokeKeeps(st: State, id: string)
    requires Inv(st)
    ensures Inv(Revoked(st, id)) && id !in Revoked(st, id).keyIds
    ensures forall other :: other != id ==> (other in Revoked(st, id).keyIds <==> other in st.keyIds)
  {
  }

  lemma {:induction false} MintIndexed(st: State, hash: Hash, key: string, record: ApiKeyRecord)
    requires Indexed(st) && Injective(hash) && Unused(st, hash, key, record.id)
    ensures Indexed(Minted(st, hash, key, record))
  {
  }

  lemma {:induction false} AdminKeeps(st: State, hash: Hash, key: string, record: ApiKeyRecord)
    requires Inv(st) && Injective(hash) && Unused(st, hash, key, record.id) && record.registeredIp == ""
    ensures Inv(Minted(st, hash, key, record))
  {
    MintIndexed(st, hash, key, record);
  }

  /** After a bucket's earlier key is revoked, no key and no index entry of the bucket is left. */
  lemma {:induction false} BucketCleared(st: State, ip: string)
    requires Inv(st) && ip != ""
    ensures var prior := Get(st.ipKeys, ip);
            var s := if prior != "" then Revoked(st, prior) else st;
            && Inv(s) && ip !in s.ipKeys && (forall h :: h in s.keys ==> h in st.keys && s.keys[h].registeredIp != ip)
            && (forall id :: id in s.keyIds ==> id in st.keyIds) && s.boundTokens == st.boundTokens
  {
    var prior := Get(st.ipKeys, ip);
    RevokeKeeps(st, prior);
    assert ip in st.ipKeys ==> prior in st.keyIds;
    var s := if prior != "" then Revoked(st, prior) else st;
    assert ip in st.ipKeys ==> prior != "" && st.keys[st.keyIds[prior]].registeredIp == ip;
    forall h | h in s.keys
      ensures h in st.keys && s.keys[h].registeredIp != ip
    {
    }
  }

  lemma {:induction false} MintIntoBucket(st: State, hash: Hash, key: string, record: ApiKeyRecord)
    requires Inv(st) && Injective(hash) && Unused(st, hash, key, record.id)
    requires record.registeredIp != "" && record.registeredIp !in st.ipKeys
    requires forall h :: h in st.keys ==> st.keys[h].registeredIp != record.registeredIp
    ensures var s := Minted(st, hash, key, record); Inv(s.(ipKeys := s.ipKeys[record.registeredIp := record.id]))
  {
    MintIndexed(st, hash, key, record);
  }

  /** Registering keeps the indexes, and leaves the new key as the only one of its bucket. */
  lemma {:induction false} RegisterKeeps(st: State, hash: Hash, ip: string, label_: string, key: string,
                                         id: string, now: int)
    requires Inv(st) && Injective(hash) && Unused(st, hash, key, id)
    ensures var s := Registered(st, hash, ip, label_, key, id, now);
            && Inv(s) && s.boundTokens == st.boundTokens
            && (ip != "" ==> forall h :: h in s.keys && s.keys[h].registeredIp == ip ==> h == hash(key))
  {
    var record := ApiKeyRecord(id, label_, true, now, None, Self, ip);
    if ip == "" {
      AdminKeeps(st, hash, key, record);
    } else {
      BucketCleared(st, ip);
      var prior := Get(st.ipKeys, ip);
      var s := if prior != "" then Revoked(st, prior) else st;
      MintIntoBucket(s, hash, key, record);
      hide Revoked, Inv;
    }
  }

  // ---------- Token ownership ----------

  ghost predicate Active(st: State, id: string, now: int) {
    id in st.keyIds && st.keyIds[id] in st.keys && IsUsable(st.keys[st.keyIds[id]], now)
  }

  ghost predicate Owns(st: State, hash: Hash, token: string, id: string) {
    id != "" && Get(st.boundTokens, hash(token)) == id
  }

  /** A claim is refused exactly when another active key owns the token; otherwise it makes the
      claiming key the owner. */
  lemma {:induction false} ClaimExact(st: State, hash: Hash, token: string, keyId: string, now: int)
    requires Inv(st) && keyId != ""
    ensures var (s, result) := Claimed(st, hash, token, keyId, now);
            && (result == Refused <==> exists id :: id != keyId && Owns(st, hash, token, id) && Active(st, id, now))
            && (result != Refused ==> Owns(s, hash, token, keyId))
            && (result == Allowed(false) <==> Owns(st, hash, token, keyId))
            && s.keys == st.keys && s.keyIds == st.keyIds && s.ipKeys == st.ipKeys
  {
    var owner := Get(st.boundTokens, hash(token));
    if owner != "" && owner != keyId && Active(st, owner, now) {
      assert Owns(st, hash, token, owner);
    }
  }

  datatype Op =
    | Create(key: string, record: ApiKeyRecord, at: int)
    | Register(ip: string, label_: string, key: string, id: string, at: int)
    | Revoke(id: string, at: int)
    | Send(key: string, token: string, at: int)
    | Release(token: string, at: int)

  ghost predicate Enabled(st: State, hash: Hash, op: Op) {
    match op
    case Create(key, record, _) => Unused(st, hash, key, record.id) && record.source == Admin && record.registeredIp == ""
    case Register(_, _, key, id, _) => Unused(st, hash, key, id)
    case _ => true
  }

  function Apply(st: State, hash: Hash, op: Op): State {
    match op
    case Create(key, record, _) => Minted(st, hash, key, record)
    case Register(ip, label_, key, id, at) => Registered(st, hash, ip, label_, key, id, at)
    case Revoke(id, _) => Revoked(st, id)
    case Send(key, token, at) => SendClaimed(st, hash, key, token, at).0
    case Release(token, _) => Released(st, hash, token)
  }

  /** Every handler keeps the indexes. */
  lemma {:induction false} StepKeeps(st: State, hash: Hash, op: Op)
    requires Inv(st) && Injective(hash) && Enabled(st, hash, op)
    ensures Inv(Apply(st, hash, op))
  {
    match op {
      case Create(key, record, _) => AdminKeeps(st, hash, key, record);
      case Register(ip, label_, key, id, at) => RegisterKeeps(st, hash, ip, label_, key, id, at);
      case Revoke(id, _) => RevokeKeeps(st, id);
      case Send(key, token, at) =>
      case Release(token, _) =>
    }
  }

  /** The owner `id` of `token` loses it by `op`: the claim is released, the key is revoked or superseded
      from its address bucket, or the key has expired by then. */
  ghost predicate EndsOwnership(st: State, hash: Hash, op: Op, token: string, id: string) {
    || (op.Release? && op.token == token)
    || (op.Revoke? && op.id == id)
    || (op.Register? && op.ip != "" && Get(st.ipKeys, op.ip) == id)
    || !Active(st, id, op.at)
  }

  /** One step that does not end the ownership leaves owner and key in place, and refuses every other key. */
  lemma {:induction false} OwnerStays(st: State, hash: Hash, op: Op, token: string, id: string)
    requires Inv(st) && Injective(hash) && Enabled(st, hash, op)
    requires Owns(st, hash, token, id) && !EndsOwnership(st, hash, op, token, id)
    ensures Owns(Apply(st, hash, op), hash, token, id)
    ensures op.Send? && op.token == token && hash(op.key) in st.keys && st.keys[hash(op.key)].id != id ==>
              SendClaimed(st, hash, op.key, token, op.at).1 in {Refused, Unauthorized}
  {
    match op {
      case Create(key, record, _) =>
      case Register(ip, label_, key, newId, at) =>
      case Revoke(other, _) =>
      case Send(key, other, at) =>
        if other != token {
          assert hash(other) != hash(token);
        }
      case Release(other, _) =>
        assert hash(other) != hash(token);
    }
  }

  ghost predicate Runnable(st: State, hash: Hash, ops: seq<Op>)
    decreases |ops|
  {
    ops == [] || (Enabled(st, hash, ops[0]) && Runnable(Apply(st, hash, ops[0]), hash, ops[1..]))
  }

  ghost function StateAt(st: State, hash: Hash, ops: seq<Op>, k: nat): State
    requires k <= |ops|
    decreases k
  {
    if k == 0 then st else StateAt(Apply(st, hash, ops[0]), hash, ops[1..], k - 1)
  }

  /** Every reachable registry is consistently indexed. */
  lemma {:induction false} RunKeeps(st: State, hash: Hash, ops: seq<Op>, k: nat)
    requires Inv(st) && Injective(hash) && Runnable(st, hash, ops) && k <= |ops|
    ensures Inv(StateAt(st, hash, ops, k))
    decreases k
  {
    hide Inv, Injective, Enabled, Apply;
    if k > 0 {
      StepKeeps(st, hash, ops[0]);
      RunKeeps(Apply(st, hash, ops[0]), hash, ops[1..], k - 1);
    }
  }

  /** No step of the run so far ended the ownership. */
  ghost predicate Unbroken(st: State, hash: Hash, ops: seq<Op>, token: string, id: string, k: nat)
    requires k <= |ops|
    decreases k
  {
    k == 0 || (!EndsOwnership(st, hash, ops[0], token, id) && Unbroken(Apply(st, hash, ops[0]), hash, ops[1..], token, id, k - 1))
  }

  lemma {:induction false} OwnerStaysLong(st: State, hash: Hash, ops: seq<Op>, token: string, id: string, k: nat)
    requires Inv(st) && Injective(hash) && Runnable(st, hash, ops) && k < |ops|
    requires Owns(st, hash, token, id) && Unbroken(st, hash, ops, token, id, k + 1)
    ensures var s := StateAt(st, hash, ops, k);
            Inv(s) && Owns(s, hash, token, id) && Enabled(s, hash, ops[k]) && !EndsOwnership(s, hash, ops[k], token, id)
    decreases k
  {
    hide Inv, Injective, Enabled, Apply, Owns, EndsOwnership;
    if k > 0 {
      StepKeeps(st, hash, ops[0]);
      OwnerStays(st, hash, ops[0], token, id);
      OwnerStaysLong(Apply(st, hash, ops[0]), hash, ops[1..], token, id, k - 1);
    }
  }

  /** Over any run, a token claimed by a key is never granted to another until that key is revoked,
      superseded or expired, or the claim is released. */
  lemma {:induction false} TokenStaysPinned(st: State, hash: Hash, ops: seq<Op>, token: string, id: string, k: nat)
    requires Inv(st) && Injective(hash) && Runnable(st, hash, ops) && k < |ops|
    requires Owns(st, hash, token, id) && Unbroken(st, hash, ops, token, id, k + 1)
    requires ops[k].Send? && ops[k].token == token
    ensures var s := StateAt(st, hash, ops, k);
            hash(ops[k].key) in s.keys && s.keys[hash(ops[k].key)].id != id ==>
              SendClaimed(s, hash, ops[k].key, token, ops[k].at).1 in {Refused, Unauthorized}
  {
    hide Inv, Injective, Enabled, Owns, EndsOwnership, SendClaimed, Runnable, Unbroken, StateAt;
    OwnerStaysLong(st, hash, ops, token, id, k);
    OwnerStays(StateAt(st, hash, ops, k), hash, ops[k], token, id);
  }
}
