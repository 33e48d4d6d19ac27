/** Access credentials: the store that keeps them, the service that issues and looks them up, and
    what holds over every run. The authenticated cipher and base64 are parameters. */
module Credentials {
  import opened Results
  import opened KeyGeneration

  type Time = int

  datatype Credential = Credential(
    accessKey: string,
    userID: string,
    secretKeyEncrypted: string,
    createdAt: Option<Time>,
    revokedAt: Option<Time>)

  datatype Error =
    | NotFound
    | AlreadyExists
    | NullByte
    | KeyRequired
    | InvalidInput
    | RandomFailed
    | CipherUnavailable
    | BadCiphertext

  type Rows = map<string, Credential>

  // ---------------------------------------------------------------- the repository

  function CreateError(rows: Rows, accessKey: string): Option<Error> {
    if '\0' in accessKey then Some(NullByte)
    else if accessKey in rows then Some(AlreadyExists)
    else if accessKey == "" then Some(KeyRequired)
    else None
  }

  /** The error of a lookup or a revocation. */
  function FindError(rows: Rows, accessKey: string): Option<Error> {
    if '\0' in accessKey then Some(NullByte)
    else if accessKey !in rows || rows[accessKey].revokedAt.Some? then Some(NotFound)
    else None
  }

  class CredentialRepository {
    var rows: Rows

    constructor ()
      ensures rows == map[]
    {
      rows := map[];
    }

    method Create(c: Credential, now: Time) returns (r: Result<Credential, Error>)
      modifies this
      ensures r == if '\0' in c.accessKey then Err(NullByte)
                   else if c.accessKey in old(rows) then Err(AlreadyExists)
                   else if c.accessKey == "" then Err(KeyRequired)
                   else Ok(c.(createdAt := if c.createdAt.Some? then c.createdAt else Some(now)))
      ensures r.Err? <==> CreateError(old(rows), c.accessKey).Some?
      ensures r.Err? ==> r.error == CreateError(old(rows), c.accessKey).value && rows == old(rows)
      ensures r.Ok? ==> r.value == (if c.createdAt.None? then c.(createdAt := Some(now)) else c)
                        && rows == old(rows)[c.accessKey := r.value]
    {
      if '\0' in c.accessKey {
        return Err(NullByte);
      }
      if c.accessKey in rows {
        return Err(AlreadyExists);
      }
      var stamped := c;
      if c.createdAt.None? {
        stamped := c.(createdAt := Some(now));
      }
      if c.accessKey == "" {
        return Err(KeyRequired);
      }
      rows := rows[c.accessKey := stamped];
      return Ok(stamped);
    }

    method GetByAccessKey(accessKey: string) returns (r: Result<Credential, Error>)
      ensures r == if '\0' in accessKey then Err(NullByte)
                   else if accessKey in rows && rows[accessKey].revokedAt.None? then Ok(rows[accessKey])
                   else Err(NotFound)
      ensures r.Err? <==> FindError(rows, accessKey).Some?
    {
      if '\0' in accessKey {
        return Err(NullByte);
      }
      if accessKey !in rows {
        return Err(NotFound);
      }
      var c := rows[accessKey];
      if c.revokedAt.Some? {
        return Err(NotFound);
      }
      return Ok(c);
    }

    method Revoke(accessKey: string, now: Time) returns (r: Result<(), Error>)
      modifies this
      ensures r.Err? <==> FindError(old(rows), accessKey).Some?
      ensures r.Err? ==> r.error == FindError(old(rows), accessKey).value
      ensures r == if '\0' in accessKey then Err(NullByte)
                   else if accessKey in old(rows) && old(rows)[accessKey].revokedAt.None? then Ok(())
                   else Err(NotFound)
      ensures rows == if r.Ok? then old(rows)[accessKey := old(rows)[accessKey].(revokedAt := Some(now))] else old(rows)
      ensures rows == AfterRevoke(old(rows), accessKey, now)
    {
      if '\0' in accessKey {
        return Err(NullByte);
      }
      if accessKey !in rows {
        return Err(NotFound);
      }
      var c := rows[accessKey];
      if c.revokedAt.Some? {
        return Err(NotFound);
      }
      rows := rows[accessKey := c.(revokedAt := Some(now))];
      return Ok(());
    }
  }

  function AfterRevoke(rows: Rows, accessKey: string, now: Time): Rows {
    if FindError(rows, accessKey).Some? then rows
    else rows[accessKey := rows[accessKey].(revokedAt := Some(now))]
  }

  // ---------------------------------------------------------------- the cipher

  /** AES-GCM under the master key and standard base64; `ready` is false for a master key of bad length. */
  datatype Cipher = Cipher(
    ready: bool,
    nonceSize: nat,
    seal: (string, string) -> string,
    unseal: (string, string) -> Option<string>,
    encode: string -> string,
    decode: string -> Option<string>)
  {
    ghost predicate Valid() {
      && (forall n, p | |n| == nonceSize :: unseal(n, seal(n, p)) == Some(p))
      && (forall x :: decode(encode(x)) == Some(x))
    }

    /** The nonce goes in front of the ciphertext. */
    function Encrypt(plaintext: string, nonce: Option<string>): Result<string, Error> {
      if !ready then Err(CipherUnavailable)
      else if nonce.None? then Err(RandomFailed)
      else Ok(encode(nonce.value + seal(nonce.value, plaintext)))
    }

    function Decrypt(encoded: string): Result<string, Error> {
      var raw := decode(encoded);
      if raw.None? then Err(BadCiphertext)
      else if !ready then Err(CipherUnavailable)
      else if |raw.value| < nonceSize then Err(BadCiphertext)
      else
        var plaintext := unseal(raw.value[..nonceSize], raw.value[nonceSize..]);
        if plaintext.None? then Err(BadCiphertext) else Ok(plaintext.value)
    }
  }

  /** Decrypting undoes encrypting, whatever nonce was drawn; what is stored is the nonce and, sealed
      under it, the plaintext. */
  lemma DecryptOfEncrypt(c: Cipher, plaintext: string, nonce: string)
    requires c.Valid() && c.ready && |nonce| == c.nonceSize
    ensures c.Encrypt(plaintext, Some(nonce)) == Ok(c.encode(nonce + c.seal(nonce, plaintext)))
    ensures c.Decrypt(c.Encrypt(plaintext, Some(nonce)).value) == Ok(plaintext)
  {
  }

  // ---------------------------------------------------------------- the service

  const MAX_ACCESS_KEY_RETRIES: nat := 5
  const ACCESS_KEY_PREFIX: string := "AKIA"
  const ACCESS_KEY_RAND_LENGTH: nat := 16
  const SECRET_KEY_LENGTH: nat := 30

  /** What the outside world supplies to one call of `IssueCredential`: the user lookup, and the
      random draws (none when the generator fails). */
  datatype Draws = Draws(
    user: Option<Error>,
    secret: Option<string>,
    nonce: Option<string>,
    keys: seq<Option<string>>)
  {
    /** Thirty random bytes for the secret and sixteen for each access key. */
    predicate Sized() {
      && (secret.Some? ==> |secret.value| == SECRET_KEY_LENGTH)
      && forall k <- keys | k.Some? :: |k.value| == ACCESS_KEY_RAND_LENGTH
    }
  }

  function AccessKey(draw: string): string {
    ACCESS_KEY_PREFIX + MapBytes(BASE32, draw)
  }

  datatype Issued = Issued(accessKey: string, secretKey: string, userID: string, createdAt: Option<Time>)

  /** The first drawn key that can be created, or why there is none. */
  function PickKey(rows: Rows, keys: seq<Option<string>>): Result<string, Error> {
    if keys == [] then Err(AlreadyExists)
    else if keys[0].None? then Err(RandomFailed)
    else match CreateError(rows, AccessKey(keys[0].value))
      case None => Ok(AccessKey(keys[0].value))
      case Some(AlreadyExists) => PickKey(rows, keys[1..])
      case Some(e) => Err(e)
  }

  function IssueOutcome(rows: Rows, userID: string, d: Draws, now: Time, c: Cipher): Result<Issued, Error>
    requires |d.keys| == MAX_ACCESS_KEY_RETRIES
  {
    if userID == "" then Err(InvalidInput)
    else if d.user.Some? then Err(d.user.value)
    else if d.secret.None? then Err(RandomFailed)
    else
      var secretKey := c.encode(d.secret.value);
      var encrypted := c.Encrypt(secretKey, d.nonce);
      if encrypted.Err? then Err(encrypted.error)
      else match PickKey(rows, d.keys)
        case Err(e) => Err(e)
        case Ok(key) => Ok(Issued(key, secretKey, userID, Some(now)))
  }

  function AfterIssue(rows: Rows, userID: string, d: Draws, now: Time, c: Cipher): Rows
    requires |d.keys| == MAX_ACCESS_KEY_RETRIES
  {
    match IssueOutcome(rows, userID, d, now, c)
    case Err(_) => rows
    case Ok(issued) =>
      rows[issued.accessKey := Credential(issued.accessKey, userID, c.Encrypt(issued.secretKey, d.nonce).value, Some(now), None)]
  }

  class CredentialService {
    const credentials: CredentialRepository
    const cipher: Cipher

    constructor (credentials: CredentialRepository, cipher: Cipher)
      ensures this.credentials == credentials && this.cipher == cipher
    {
      this.credentials, this.cipher := credentials, cipher;
    }

    method IssueCredential(userID: string, d: Draws, now: Time) returns (r: Result<Issued, Error>, attempts: nat)
      requires |d.keys| == MAX_ACCESS_KEY_RETRIES
      modifies credentials
      ensures r == IssueOutcome(old(credentials.rows), userID, d, now, cipher)
      ensures credentials.rows == AfterIssue(old(credentials.rows), userID, d, now, cipher)
      ensures attempts <= 5
      ensures r.Ok? ==>
        && d.secret.Some? && d.nonce.Some? && 1 <= attempts && d.keys[attempts - 1].Some?
        && r.value == Issued(accessKey := "AKIA" + MapBytes(BASE32, d.keys[attempts - 1].value),
                             secretKey := cipher.encode(d.secret.value), userID := userID, createdAt := Some(now))
        && credentials.rows == old(credentials.rows)[r.value.accessKey := Credential(
             accessKey := r.value.accessKey, userID := userID,
             secretKeyEncrypted := cipher.encode(d.nonce.value + cipher.seal(d.nonce.value, r.value.secretKey)),
             createdAt := Some(now), revokedAt := None)]
      ensures r.Err? ==> credentials.rows == old(credentials.rows)
      ensures r == Err(AlreadyExists) && attempts > 0 ==> attempts == 5
    {
      attempts := 0;
      if userID == "" {
        return Err(InvalidInput), attempts;
      }
      if d.user.Some? {
        return Err(d.user.value), attempts;
      }
      if d.secret.None? {
        return Err(RandomFailed), attempts;
      }
      var secretKey := cipher.encode(d.secret.value);
      var encrypted := cipher.Encrypt(secretKey, d.nonce);
      if encrypted.Err? {
        return Err(encrypted.error), attempts;
      }
      var c;
      while true
        invariant attempts < MAX_ACCESS_KEY_RETRIES
        invariant credentials.rows == old(credentials.rows)
        invariant PickKey(old(credentials.rows), d.keys[attempts..]) == PickKey(old(credentials.rows), d.keys)
        decreases MAX_ACCESS_KEY_RETRIES - attempts
      {
        var draw := d.keys[attempts];
        assert d.keys[attempts..][0] == draw && d.keys[attempts..][1..] == d.keys[attempts + 1..];
        if draw.None? {
          return Err(RandomFailed), attempts;
        }
        c := Credential(AccessKey(draw.value), userID, encrypted.value, None, None);
        var created := credentials.Create(c, now);
        attempts := attempts + 1;
        if created.Ok? {
          c := created.value;
          assert d.keys[attempts - 1] == draw;
          break;
        }
        if created.error == AlreadyExists && attempts < MAX_ACCESS_KEY_RETRIES {
          continue;
        }
        return Err(created.error), attempts;
      }
      return Ok(Issued(c.accessKey, secretKey, userID, c.createdAt)), attempts;
    }

    method RevokeCredential(accessKey: string, now: Time) returns (r: Result<(), Error>)
      modifies credentials
      ensures accessKey == "" ==> r == Err(InvalidInput) && credentials.rows == old(credentials.rows)
      ensures accessKey != "" ==>
        && credentials.rows == AfterRevoke(old(credentials.rows), accessKey, now)
        && match FindError(old(credentials.rows), accessKey)
           case None => r.Ok?
           case Some(e) => r == Err(e)
    {
      if accessKey == "" {
        return Err(InvalidInput);
      }
      r := credentials.Revoke(accessKey, now);
    }

    method LookupCredential(accessKey: string) returns (r: Result<(string, string), Error>)
      ensures r == LookupOutcome(credentials.rows, accessKey, cipher)
    {
      if accessKey == "" {
        return Err(InvalidInput);
      }
      var c := credentials.GetByAccessKey(accessKey);
      if c.Err? {
        return Err(c.error);
      }
      var secretKey := cipher.Decrypt(c.value.secretKeyEncrypted);
      if secretKey.Err? {
        return Err(secretKey.error);
      }
      return Ok((c.value.userID, secretKey.value));
    }
  }

  /** The owner and the secret behind an access key. */
  function LookupOutcome(rows: Rows, accessKey: string, c: Cipher): Result<(string, string), Error> {
    if accessKey == "" then Err(InvalidInput)
    else if FindError(rows, accessKey).Some? then Err(FindError(rows, accessKey).value)
    else match c.Decrypt(rows[accessKey].secretKeyEncrypted)
      case Err(e) => Err(e)
      case Ok(secretKey) => Ok((rows[accessKey].userID, secretKey))
  }

  // ---------------------------------------------------------------- one issue

  /** What an access key looks like: "AKIA" and a base32 letter for each byte drawn. */
  lemma AccessKeyShape(draw: string)
    ensures var key := AccessKey(draw);
            && |key| == 4 + |draw| && key[..4] == "AKIA" && '\0' !in key
            && forall i | 0 <= i < |draw| :: key[4 + i] == "ABCDEFGHIJKLMNOPQRSTUVWXYZ234567"[draw[i] as int % 32]
  {
    assert forall i | 0 <= i < 32 :: BASE32[i] != '\0';
  }

  predicate Taken(rows: Rows, k: Option<string>) {
    k.Some? && AccessKey(k.value) in rows
  }

  /** Keys are tried in the order drawn: the first that is not taken is picked, the first draw that fails
      ends the attempt, and only when all are taken is it given up as taken. */
  lemma {:induction false} PickedKeyIsFresh(rows: Rows, keys: seq<Option<string>>)
    ensures match PickKey(rows, keys)
            case Ok(key) => && key !in rows && key != "" && '\0' !in key
                            && exists i | 0 <= i < |keys| ::
                                 keys[i].Some? && key == AccessKey(keys[i].value) && forall k <- keys[..i] :: Taken(rows, k)
            case Err(AlreadyExists) => forall k <- keys :: Taken(rows, k)
            case Err(e) => e == RandomFailed
                           && exists i | 0 <= i < |keys| :: keys[i].None? && forall k <- keys[..i] :: Taken(rows, k)
  {
    if keys != [] {
      if keys[0].Some? {
        AccessKeyShape(keys[0].value);
      }
      if Taken(rows, keys[0]) {
        var rest := keys[1..];
        assert keys == [keys[0]] + rest;
        PickedKeyIsFresh(rows, rest);
        forall i | 0 <= i < |rest|
          ensures keys[..i + 1] == [keys[0]] + rest[..i] && keys[i + 1] == rest[i]
        {
        }
      } else {
        assert keys[..0] == [];
      }
    }
  }

  /** A successful issue adds exactly one fresh access key; a failed one changes nothing. It fails for
      want of a fresh key only when all five draws were taken. */
  lemma IssueAddsOneFreshKey(rows: Rows, userID: string, d: Draws, now: Time, c: Cipher)
    requires |d.keys| == MAX_ACCESS_KEY_RETRIES
    ensures match IssueOutcome(rows, userID, d, now, c)
            case Ok(issued) =>
              && issued.accessKey !in rows
              && AfterIssue(rows, userID, d, now, c).Keys == rows.Keys + {issued.accessKey}
              && AfterIssue(rows, userID, d, now, c) - {issued.accessKey} == rows
            case Err(e) =>
              && AfterIssue(rows, userID, d, now, c) == rows
              && (e == AlreadyExists && d.user.None? ==>
                    |d.keys| == 5 && forall k <- d.keys :: k.Some? && AccessKey(k.value) in rows)
  {
    PickedKeyIsFresh(rows, d.keys);
    if IssueOutcome(rows, userID, d, now, c) == Err(AlreadyExists) && d.user.None? {
      forall k | k in d.keys
        ensures k.Some? && AccessKey(k.value) in rows
      {
        assert Taken(rows, k);
      }
    }
  }

  /** Issuing succeeds exactly for a named and known user, when the generator and the cipher work and a
      drawn key is free before any draw fails. */
  lemma IssueSucceedsExactly(rows: Rows, userID: string, d: Draws, now: Time, c: Cipher)
    requires |d.keys| == MAX_ACCESS_KEY_RETRIES
    ensures IssueOutcome(rows, userID, d, now, c).Ok?
       <==> && userID != "" && d.user.None? && d.secret.Some? && c.ready && d.nonce.Some?
            && exists i | 0 <= i < |d.keys| ::
                 d.keys[i].Some? && AccessKey(d.keys[i].value) !in rows && forall k <- d.keys[..i] :: Taken(rows, k)
  {
    PickedKeyIsFresh(rows, d.keys);
    if i :| 0 <= i < |d.keys| && d.keys[i].Some? && AccessKey(d.keys[i].value) !in rows
            && forall k <- d.keys[..i] :: Taken(rows, k) {
      FreeKeyIsPicked(rows, d.keys, i);
    }
  }

  lemma {:induction false} FreeKeyIsPicked(rows: Rows, keys: seq<Option<string>>, i: nat)
    requires i < |keys| && keys[i].Some? && AccessKey(keys[i].value) !in rows
    requires forall k <- keys[..i] :: Taken(rows, k)
    ensures PickKey(rows, keys) == Ok(AccessKey(keys[i].value))
  {
    AccessKeyShape(keys[i].value);
    if i > 0 {
      assert keys[0] in keys[..i];
      AccessKeyShape(keys[0].value);
      assert Taken(rows, keys[0]);
      assert forall k <- keys[1..][..i - 1] :: k in keys[..i];
      FreeKeyIsPicked(rows, keys[1..], i - 1);
    }
  }

  /** The secret handed out encodes exactly the bytes drawn for it, and the row keeps its owner, its date
      and the sealed secret; with draws of the sizes asked for, the access key has twenty characters. */
  lemma SecretIsTheDraw(rows: Rows, userID: string, d: Draws, now: Time, c: Cipher)
    requires |d.keys| == MAX_ACCESS_KEY_RETRIES
    ensures IssueOutcome(rows, userID, d, now, c).Ok? && c.Valid() ==>
            var issued, rows' := IssueOutcome(rows, userID, d, now, c).value, AfterIssue(rows, userID, d, now, c);
            && d.secret.Some? && d.nonce.Some? && c.decode(issued.secretKey) == Some(d.secret.value)
            && issued.userID == userID && issued.createdAt == Some(now)
            && issued.accessKey in rows'
            && var row := rows'[issued.accessKey];
            && row.accessKey == issued.accessKey && row.userID == userID
            && row.createdAt == Some(now) && row.revokedAt.None?
            && c.decode(row.secretKeyEncrypted) == Some(d.nonce.value + c.seal(d.nonce.value, issued.secretKey))
            && (d.Sized() ==> |issued.accessKey| == 20 && |c.decode(issued.secretKey).value| == 30)
  {
    PickedKeyIsFresh(rows, d.keys);
    if IssueOutcome(rows, userID, d, now, c).Ok? && d.Sized() {
      var i :| 0 <= i < |d.keys| && d.keys[i].Some?
               && IssueOutcome(rows, userID, d, now, c).value.accessKey == AccessKey(d.keys[i].value);
      AccessKeyShape(d.keys[i].value);
      assert d.keys[i] in d.keys;
    }
  }

  /** Two issues that drew different bytes never hand out the same secret. */
  lemma DifferentDrawsDifferentSecrets(rows1: Rows, user1: string, d1: Draws, now1: Time,
                                       rows2: Rows, user2: string, d2: Draws, now2: Time, c: Cipher)
    requires |d1.keys| == MAX_ACCESS_KEY_RETRIES && |d2.keys| == MAX_ACCESS_KEY_RETRIES && d1.secret != d2.secret
    ensures c.Valid() && IssueOutcome(rows1, user1, d1, now1, c).Ok? && IssueOutcome(rows2, user2, d2, now2, c).Ok? ==>
      IssueOutcome(rows1, user1, d1, now1, c).value.secretKey != IssueOutcome(rows2, user2, d2, now2, c).value.secretKey
  {
    SecretIsTheDraw(rows1, user1, d1, now1, c);
    SecretIsTheDraw(rows2, user2, d2, now2, c);
  }

  /** A revocation that succeeds makes the key unfindable, can not be repeated, and touches no other key. */
  lemma RevokeTakesEffect(rows: Rows, accessKey: string, now: Time, later: Time, other: string, c: Cipher)
    requires FindError(rows, accessKey).None? && accessKey != "" && other != accessKey
    ensures var rows' := AfterRevoke(rows, accessKey, now);
            && LookupOutcome(rows', accessKey, c) == Err(NotFound)
            && AfterRevoke(rows', accessKey, later) == rows'
            && LookupOutcome(rows', other, c) == LookupOutcome(rows, other, c)
  {
  }

  // ---------------------------------------------------------------- runs

  datatype Op =
    | Issue(userID: string, draws: Draws, now: Time)
    | Revoke(accessKey: string, now: Time)

  function Step(rows: Rows, op: Op, c: Cipher): Rows
    requires op.Issue? ==> |op.draws.keys| == MAX_ACCESS_KEY_RETRIES
  {
    match op
    case Issue(userID, d, now) => AfterIssue(rows, userID, d, now, c)
    case Revoke(accessKey, now) => if accessKey == "" then rows else AfterRevoke(rows, accessKey, now)
  }

  /** Nonces are drawn at the cipher's size. */
  predicate NonceFits(d: Draws, c: Cipher) {
    d.nonce.Some? ==> |d.nonce.value| == c.nonceSize
  }

  ghost predicate IsRun(states: seq<Rows>, ops: seq<Op>, c: Cipher) {
    && |states| == |ops| + 1 && states[0] == map[]
    && forall i | 0 <= i < |ops| ::
        && (ops[i].Issue? ==> |ops[i].draws.keys| == MAX_ACCESS_KEY_RETRIES && NonceFits(ops[i].draws, c))
        && states[i + 1] == Step(states[i], ops[i], c)
  }

  /** `later` is `c`, possibly revoked since; a revocation is never taken back or redated. */
  predicate SameOrRevoked(c: Credential, later: Credential) {
    later == c || (c.revokedAt.None? && later.revokedAt.Some? && later == c.(revokedAt := later.revokedAt))
  }

  lemma StepIsMonotone(rows: Rows, op: Op, c: Cipher, key: string)
    requires op.Issue? ==> |op.draws.keys| == MAX_ACCESS_KEY_RETRIES
    requires key in rows
    ensures key in Step(rows, op, c) && SameOrRevoked(rows[key], Step(rows, op, c)[key])
  {
    if op.Issue? {
      IssueAddsOneFreshKey(rows, op.userID, op.draws, op.now, c);
    }
  }

  /** Over every run an access key, once there, keeps its owner, its encrypted secret and its date for
      ever, and moves only from live to revoked. */
  lemma {:induction false} KeysAreForEver(states: seq<Rows>, ops: seq<Op>, c: Cipher, i: nat, j: nat, key: string)
    requires IsRun(states, ops, c) && i <= j < |states| && key in states[i]
    ensures key in states[j] && SameOrRevoked(states[i][key], states[j][key])
    decreases j
  {
    if i < j {
      KeysAreForEver(states, ops, c, i, j - 1, key);
      StepIsMonotone(states[j - 1], ops[j - 1], c, key);
    }
  }

  /** Step `i` of the run issues this credential. */
  ghost predicate Issues(states: seq<Rows>, ops: seq<Op>, c: Cipher, i: nat, issued: Issued)
    requires IsRun(states, ops, c) && i < |ops|
  {
    ops[i].Issue? && IssueOutcome(states[i], ops[i].userID, ops[i].draws, ops[i].now, c) == Ok(issued)
  }

  /** No access key is issued twice in a run, revoked or not. */
  lemma NeverReissued(states: seq<Rows>, ops: seq<Op>, c: Cipher, i: nat, j: nat, first: Issued, second: Issued)
    requires IsRun(states, ops, c) && i < j < |ops|
    requires Issues(states, ops, c, i, first) && Issues(states, ops, c, j, second)
    ensures first.accessKey != second.accessKey
  {
    IssueAddsOneFreshKey(states[i], ops[i].userID, ops[i].draws, ops[i].now, c);
    IssueAddsOneFreshKey(states[j], ops[j].userID, ops[j].draws, ops[j].now, c);
    assert first.accessKey in states[i + 1];
    KeysAreForEver(states, ops, c, i + 1, j, first.accessKey);
  }

  /** From its issue on, and until it is revoked, looking an access key up gives the user it was issued
      to and exactly the secret that was handed out; after that it is not found. */
  lemma LookupReturnsIssuedSecret(states: seq<Rows>, ops: seq<Op>, c: Cipher, i: nat, j: nat, issued: Issued)
    requires IsRun(states, ops, c) && i < j < |states| && Issues(states, ops, c, i, issued)
    ensures issued.accessKey in states[j] && issued.userID == ops[i].userID
    ensures c.Valid() ==>
      LookupOutcome(states[j], issued.accessKey, c)
      == if states[j][issued.accessKey].revokedAt.Some? then Err(NotFound) else Ok((issued.userID, issued.secretKey))
  {
    var op := ops[i];
    IssueAddsOneFreshKey(states[i], op.userID, op.draws, op.now, c);
    PickedKeyIsFresh(states[i], op.draws.keys);
    assert issued.accessKey in states[i + 1];
    KeysAreForEver(states, ops, c, i + 1, j, issued.accessKey);
    if c.Valid() {
      DecryptOfEncrypt(c, issued.secretKey, op.draws.nonce.value);
    }
  }
}
