/**
 * The queue manager (src/Queue.php): it holds a configuration and a store,
 * reconciles the configuration with the queue's persisted settings
 * (creating the queue when it is missing), and sends messages in one
 * transaction each, publishing the new queue length on realtime queues.
 */
module QueueManager {
  import opened Wrappers
  import Radix
  import opened QueueConfig
  import opened Messages
  import opened KeyValueStore

  /** The QueueException cases, plus the constructor's refusal of persisted settings. */
  datatype QueueError =
    | NotFound(queue: string)
    | AlreadyExists
    | TooLarge
    | Invalid(reason: ConfigError)

  /** The settings reconciliation reads, in this order. */
  const SettingFields: seq<string> := ["vt", "delay", "maxsize"]

  /** The fields queue creation sets if absent. */
  const CreateFieldNames: set<string> := {"vt", "delay", "maxsize", "created", "modified"}

  /** The hash field counting the messages sent. */
  const TotalSent := "totalsent"

  /** PHP's (int) cast of a persisted setting; a text value is taken as 0. */
  function AsInt(f: Field): (n: int) {
    if f.Num? then f.n else 0
  }

  /** What hMGet of vt, delay and maxsize on the queue's hash returns in db. */
  function PersistedSettings(db: Db, c: Config): (vals: seq<Option<Field>>)
    ensures |vals| == |SettingFields|
  {
    var h := HashAt(db, QueueKey(c));
    seq(|SettingFields|, i requires 0 <= i < |SettingFields| => Lookup(h, SettingFields[i]))
  }

  /** No persisted setting differs from the configuration's. */
  predicate Agrees(c: Config, vals: seq<Option<Field>>)
    requires |vals| == |SettingFields| && None !in vals
  {
    c.vt == AsInt(vals[0].value) && c.delay == AsInt(vals[1].value) && c.maxSize == AsInt(vals[2].value)
  }

  // ------------------------------------------------------------- creation

  function CreateFields(c: Config, sec: nat): (h: Hash)
    ensures h.Keys == CreateFieldNames
  {
    map["vt" := Num(c.vt), "delay" := Num(c.delay), "maxsize" := Num(c.maxSize),
        "created" := Num(sec), "modified" := Num(sec)]
  }

  /** The creation transaction: five set-if-absent writes, then registration of the name. */
  function CreateBatch(c: Config, sec: nat): (b: seq<Command>)
    ensures |b| == 6 && b[5] == SAdd(RegistryKey(c), c.name)
    ensures forall i :: 0 <= i < 5 ==>
      b[i].HSetNx? && b[i].key == QueueKey(c) && b[i].field in CreateFields(c, sec)
      && b[i].value == CreateFields(c, sec)[b[i].field]
    ensures forall i, j :: 0 <= i < j < 5 ==> b[i].field != b[j].field
    ensures forall i :: 0 <= i < |SettingFields| ==> b[i].field == SettingFields[i]
    ensures IsCreateBatch(b, c, sec)
  {
    var k := QueueKey(c);
    [ HSetNx(k, "vt", Num(c.vt)), HSetNx(k, "delay", Num(c.delay)), HSetNx(k, "maxsize", Num(c.maxSize)),
      HSetNx(k, "created", Num(sec)), HSetNx(k, "modified", Num(sec)),
      SAdd(RegistryKey(c), c.name) ]
  }

  /**
   * The keyspace after creation: every creation field the hash lacked now
   * holds the configuration's value (existing ones win), and the name is in
   * the registry; nothing else changes.
   */
  function CreatedState(db: Db, c: Config, sec: nat): (r: Db) {
    db.(hashes := db.hashes[QueueKey(c) := CreateFields(c, sec) + HashAt(db, QueueKey(c))],
        sets := db.sets[RegistryKey(c) := SetAt(db, RegistryKey(c)) + {c.name}])
  }

  /** Another client got there first: some creation field exists, or the name is registered. */
  predicate CreateConflict(db: Db, c: Config) {
    CreateFieldNames * HashAt(db, QueueKey(c)).Keys != {} || c.name in SetAt(db, RegistryKey(c))
  }

  /** One set-if-absent write: the value lands only if the field is missing, and the reply says which. */
  lemma SetIfAbsentStep(db: Db, k: string, f: string, v: Field)
    ensures Step(db, HSetNx(k, f, v)) ==
      (db.(hashes := db.hashes[k := map[f := v] + HashAt(db, k)]), if f in HashAt(db, k) then Int(0) else Int(1))
  {
    var h := HashAt(db, k);
    if f in h {
      assert map[f := v] + h == h;
      assert db.hashes[k := h] == db.hashes;
    } else {
      assert map[f := v] + h == h[f := v];
    }
  }

  /** Adding a member leaves the set holding it, whether or not it was there. */
  lemma AddMemberStep(db: Db, k: string, m: string)
    ensures Step(db, SAdd(k, m)).0 == db.(sets := db.sets[k := SetAt(db, k) + {m}])
  {
    var s := SetAt(db, k);
    if m in s {
      assert s + {m} == s;
      assert db.sets[k := s] == db.sets;
    }
  }

  /** The hash just written at k is what reads back at k. */
  lemma HashAtRewrite(db: Db, k: string, h: Hash)
    ensures HashAt(db.(hashes := db.hashes[k := h]), k) == h
  {
  }

  /** Rewriting one hash twice is rewriting it once. */
  lemma RewriteHash(db: Db, k: string, h1: Hash, h2: Hash)
    ensures var d := db.(hashes := db.hashes[k := h1]); d.(hashes := d.hashes[k := h2]) == db.(hashes := db.hashes[k := h2])
  {
    var d := db.(hashes := db.hashes[k := h1]);
    assert d.hashes[k := h2] == db.hashes[k := h2];
  }

  /** A set-if-absent write appended to a prefix that has only rewritten the hash at k. */
  lemma SetIfAbsentNext(db: Db, b: seq<Command>, i: nat, k: string, f: string, v: Field, hPrev: Hash)
    requires i < |b| && b[i] == HSetNx(k, f, v)
    requires Exec(db, b[..i]).0 == db.(hashes := db.hashes[k := hPrev])
    ensures Exec(db, b[..i + 1]).0 == db.(hashes := db.hashes[k := map[f := v] + hPrev])
  {
    var d := db.(hashes := db.hashes[k := hPrev]);
    ExecPrefix(db, b, i);
    HashAtRewrite(db, k, hPrev);
    RewriteHash(db, k, hPrev, map[f := v] + hPrev);
    SetIfAbsentStep(d, k, f, v);
  }

  /** The first command of a batch, a set-if-absent write. */
  lemma SetIfAbsentFirst(db: Db, b: seq<Command>, k: string, f: string, v: Field)
    requires 0 < |b| && b[0] == HSetNx(k, f, v)
    ensures Exec(db, b[..0]).0 == db
    ensures Exec(db, b[..1]).0 == db.(hashes := db.hashes[k := map[f := v] + HashAt(db, k)])
  {
    ExecPrefix(db, b, 0);
    assert b[..0] == [];
    SetIfAbsentStep(db, k, f, v);
  }

  /** Setting the creation fields one by one, each only if absent, is the same as laying the defaults under h. */
  lemma LayeredDefaults(c: Config, sec: nat, h: Hash)
    ensures var h1 := map["vt" := Num(c.vt)] + h;
      var h2 := map["delay" := Num(c.delay)] + h1;
      var h3 := map["maxsize" := Num(c.maxSize)] + h2;
      var h4 := map["created" := Num(sec)] + h3;
      && map["modified" := Num(sec)] + h4 == CreateFields(c, sec) + h
      && ("delay" in h1 <==> "delay" in h)
      && ("maxsize" in h2 <==> "maxsize" in h)
      && ("created" in h3 <==> "created" in h)
      && ("modified" in h4 <==> "modified" in h)
  {
  }

  /** The six commands of the creation transaction, at positions 0 to 5 of b. */
  predicate IsCreateBatch(b: seq<Command>, c: Config, sec: nat) {
    && |b| == 6
    && b[0] == HSetNx(QueueKey(c), "vt", Num(c.vt))
    && b[1] == HSetNx(QueueKey(c), "delay", Num(c.delay))
    && b[2] == HSetNx(QueueKey(c), "maxsize", Num(c.maxSize))
    && b[3] == HSetNx(QueueKey(c), "created", Num(sec))
    && b[4] == HSetNx(QueueKey(c), "modified", Num(sec))
    && b[5] == SAdd(RegistryKey(c), c.name)
  }

  /** The states between the creation transaction's commands. */
  lemma CreatePrefixStates(db: Db, c: Config, sec: nat, b: seq<Command>)
    requires IsCreateBatch(b, c, sec)
    ensures var k, h := QueueKey(c), HashAt(db, QueueKey(c));
      var h1 := map["vt" := Num(c.vt)] + h;
      var h2 := map["delay" := Num(c.delay)] + h1;
      var h3 := map["maxsize" := Num(c.maxSize)] + h2;
      var h4 := map["created" := Num(sec)] + h3;
      && Exec(db, b[..0]).0 == db
      && Exec(db, b[..1]).0 == db.(hashes := db.hashes[k := h1])
      && Exec(db, b[..2]).0 == db.(hashes := db.hashes[k := h2])
      && Exec(db, b[..3]).0 == db.(hashes := db.hashes[k := h3])
      && Exec(db, b[..4]).0 == db.(hashes := db.hashes[k := h4])
      && Exec(db, b[..5]).0 == db.(hashes := db.hashes[k := CreateFields(c, sec) + h])
  {
    var k := QueueKey(c);
    var h := HashAt(db, k);
    var h1 := map["vt" := Num(c.vt)] + h;
    var h2 := map["delay" := Num(c.delay)] + h1;
    var h3 := map["maxsize" := Num(c.maxSize)] + h2;
    var h4 := map["created" := Num(sec)] + h3;
    SetIfAbsentFirst(db, b, k, "vt", Num(c.vt));
    SetIfAbsentNext(db, b, 1, k, "delay", Num(c.delay), h1);
    SetIfAbsentNext(db, b, 2, k, "maxsize", Num(c.maxSize), h2);
    SetIfAbsentNext(db, b, 3, k, "created", Num(sec), h3);
    SetIfAbsentNext(db, b, 4, k, "modified", Num(sec), h4);
    LayeredDefaults(c, sec, h);
  }

  /** The creation transaction leaves the creation state. */
  lemma CreateEffectState(db: Db, c: Config, sec: nat, b: seq<Command>)
    requires IsCreateBatch(b, c, sec)
    ensures Exec(db, b).0 == CreatedState(db, c, sec)
  {
    CreatePrefixStates(db, c, sec, b);
    var d5 := db.(hashes := db.hashes[QueueKey(c) := CreateFields(c, sec) + HashAt(db, QueueKey(c))]);
    ExecLast(db, b);
    AddMemberStep(d5, RegistryKey(c), c.name);
    assert SetAt(d5, RegistryKey(c)) == SetAt(db, RegistryKey(c));
  }

  /** The reply of a set-if-absent write within a batch: 0 exactly when the field was already there. */
  lemma SetIfAbsentReply(db: Db, b: seq<Command>, j: nat, k: string, f: string, v: Field, hj: Hash)
    requires j < |b| && b[j] == HSetNx(k, f, v)
    requires HashAt(Exec(db, b[..j]).0, k) == hj
    ensures Exec(db, b).1[j] == Int(0) <==> f in hj
  {
    ExecReplyAt(db, b, j);
  }

  /** The reply of adding a member within a batch: 0 exactly when it was already there. */
  lemma AddMemberReply(db: Db, b: seq<Command>, j: nat, k: string, m: string, s: set<string>)
    requires j < |b| && b[j] == SAdd(k, m)
    requires SetAt(Exec(db, b[..j]).0, k) == s
    ensures Exec(db, b).1[j] == Int(0) <==> m in s
  {
    ExecReplyAt(db, b, j);
  }

  /** The queue's hash and the registry between the creation transaction's commands. */
  lemma CreatePrefixHashes(db: Db, c: Config, sec: nat, b: seq<Command>)
    requires IsCreateBatch(b, c, sec)
    ensures var k, h := QueueKey(c), HashAt(db, QueueKey(c));
      var h1 := map["vt" := Num(c.vt)] + h;
      var h2 := map["delay" := Num(c.delay)] + h1;
      var h3 := map["maxsize" := Num(c.maxSize)] + h2;
      var h4 := map["created" := Num(sec)] + h3;
      && HashAt(Exec(db, b[..0]).0, k) == h
      && HashAt(Exec(db, b[..1]).0, k) == h1
      && HashAt(Exec(db, b[..2]).0, k) == h2
      && HashAt(Exec(db, b[..3]).0, k) == h3
      && HashAt(Exec(db, b[..4]).0, k) == h4
      && SetAt(Exec(db, b[..5]).0, RegistryKey(c)) == SetAt(db, RegistryKey(c))
  {
    var k, h := QueueKey(c), HashAt(db, QueueKey(c));
    var h1 := map["vt" := Num(c.vt)] + h;
    var h2 := map["delay" := Num(c.delay)] + h1;
    var h3 := map["maxsize" := Num(c.maxSize)] + h2;
    var h4 := map["created" := Num(sec)] + h3;
    CreatePrefixStates(db, c, sec, b);
    HashAtRewrite(db, k, h1);
    HashAtRewrite(db, k, h2);
    HashAtRewrite(db, k, h3);
    HashAtRewrite(db, k, h4);
  }

  /** Some creation field is already in h. */
  lemma ConflictingFields(h: Hash)
    ensures CreateFieldNames * h.Keys != {} <==>
      "vt" in h || "delay" in h || "maxsize" in h || "created" in h || "modified" in h
  {
    if CreateFieldNames * h.Keys != {} {
      var f :| f in CreateFieldNames * h.Keys;
      assert f in {"vt", "delay", "maxsize", "created", "modified"};
    } else {
      forall f | f in h ensures f !in CreateFieldNames {
        assert f !in CreateFieldNames * h.Keys;
      }
    }
  }

  /** Each reply of the creation transaction, in terms of the keyspace before it. */
  lemma CreateReplies(db: Db, c: Config, sec: nat, b: seq<Command>)
    requires IsCreateBatch(b, c, sec)
    ensures var h, rs := HashAt(db, QueueKey(c)), Exec(db, b).1;
      && |rs| == 6
      && (rs[0] == Int(0) <==> "vt" in h)
      && (rs[1] == Int(0) <==> "delay" in h)
      && (rs[2] == Int(0) <==> "maxsize" in h)
      && (rs[3] == Int(0) <==> "created" in h)
      && (rs[4] == Int(0) <==> "modified" in h)
      && (rs[5] == Int(0) <==> c.name in SetAt(db, RegistryKey(c)))
  {
    var k, h := QueueKey(c), HashAt(db, QueueKey(c));
    var h1 := map["vt" := Num(c.vt)] + h;
    var h2 := map["delay" := Num(c.delay)] + h1;
    var h3 := map["maxsize" := Num(c.maxSize)] + h2;
    var h4 := map["created" := Num(sec)] + h3;
    CreatePrefixHashes(db, c, sec, b);
    LayeredDefaults(c, sec, h);
    SetIfAbsentReply(db, b, 0, k, "vt", Num(c.vt), h);
    SetIfAbsentReply(db, b, 1, k, "delay", Num(c.delay), h1);
    SetIfAbsentReply(db, b, 2, k, "maxsize", Num(c.maxSize), h2);
    SetIfAbsentReply(db, b, 3, k, "created", Num(sec), h3);
    SetIfAbsentReply(db, b, 4, k, "modified", Num(sec), h4);
    AddMemberReply(db, b, 5, RegistryKey(c), c.name, SetAt(db, RegistryKey(c)));
  }

  /** The creation transaction answers 0 somewhere exactly when another client got there first. */
  lemma CreateEffectReplies(db: Db, c: Config, sec: nat, b: seq<Command>)
    requires IsCreateBatch(b, c, sec)
    ensures Int(0) in Exec(db, b).1 <==> CreateConflict(db, c)
  {
    CreateReplies(db, c, sec, b);
    ConflictingFields(HashAt(db, QueueKey(c)));
    var rs := Exec(db, b).1;
    assert rs == [rs[0], rs[1], rs[2], rs[3], rs[4], rs[5]];
  }

  /**
   * Running the creation transaction yields the creation state, and a reply
   * of 0 appears exactly when another client got there first.
   */
  lemma CreateBatchEffect(db: Db, c: Config, sec: nat)
    ensures Exec(db, CreateBatch(c, sec)).0 == CreatedState(db, c, sec)
    ensures Int(0) in Exec(db, CreateBatch(c, sec)).1 <==> CreateConflict(db, c)
  {
    CreateEffectState(db, c, sec, CreateBatch(c, sec));
    CreateEffectReplies(db, c, sec, CreateBatch(c, sec));
  }

  // -------------------------------------------------------- reconciliation

  /**
   * The specification of syncWithRedis: the outcome, the configuration the
   * manager holds afterwards and the keyspace afterwards.
   */
  function Reconciled(c: Config, db: Db, allowCreate: bool, sec: nat): (r: (Outcome<QueueError>, Config, Db))
    ensures r.0 == Fail(NotFound(GetName(c, true))) <==> !allowCreate && None in PersistedSettings(db, c)
    ensures r.0 == Fail(AlreadyExists) <==> allowCreate && None in PersistedSettings(db, c) && CreateConflict(db, c)
    ensures r.2 != db ==> allowCreate && None in PersistedSettings(db, c)
    ensures r.1 != c ==> r.0.Pass? && None !in PersistedSettings(db, c) && !Agrees(c, PersistedSettings(db, c))
    ensures r.0.Fail? ==> r.1 == c
  {
    var vals := PersistedSettings(db, c);
    if None in vals then
      if !allowCreate then (Fail(NotFound(GetName(c, true))), c, db)
      else (if CreateConflict(db, c) then Fail(AlreadyExists) else Pass, c, CreatedState(db, c, sec))
    else if Agrees(c, vals) then (Pass, c, db)
    else
      match NewConfig(c.name, c.namespace, c.realtime, AsInt(vals[0].value), AsInt(vals[1].value), AsInt(vals[2].value))
      case Success(adopted) => (Pass, adopted, db)
      case Failure(e) => (Fail(Invalid(e)), c, db)
  }

  /**
   * When reconciliation succeeds, for a valid configuration: a missing
   * setting needs creation to be allowed and free of conflict, and differing
   * settings must themselves be in range; agreeing settings always pass.
   * Creation leaves the creation state whatever its outcome.
   */
  lemma ReconciledSucceeds(c: Config, db: Db, allowCreate: bool, sec: nat)
    requires Valid(c)
    ensures var vals := PersistedSettings(db, c);
      Reconciled(c, db, allowCreate, sec).0.Pass? <==>
        && (None in vals ==> allowCreate && !CreateConflict(db, c))
        && (None !in vals && !Agrees(c, vals) ==>
              InSecondsRange(AsInt(vals[0].value)) && InSecondsRange(AsInt(vals[1].value))
              && ValidMaxSize(AsInt(vals[2].value)))
    ensures allowCreate && None in PersistedSettings(db, c) ==>
      Reconciled(c, db, allowCreate, sec).2 == CreatedState(db, c, sec)
  {
    var vals := PersistedSettings(db, c);
    if None !in vals && !Agrees(c, vals) {
      Reconfigure(c, AsInt(vals[0].value), AsInt(vals[1].value), AsInt(vals[2].value));
    }
  }

  /**
   * Settings that are all present, disagree and are refused fail with
   * Invalid, carrying the reason the Config constructor gives for them: one
   * of the three settings errors.
   */
  lemma ReconciledRefusal(c: Config, db: Db, allowCreate: bool, sec: nat)
    requires Valid(c)
    ensures var vals := PersistedSettings(db, c);
      var r := Reconciled(c, db, allowCreate, sec);
      None !in vals && !Agrees(c, vals) && r.0.Fail? ==>
        && r.0 == Fail(Invalid(NewConfig(c.name, c.namespace, c.realtime,
                                         AsInt(vals[0].value), AsInt(vals[1].value), AsInt(vals[2].value)).error))
        && r.0.error.reason in {VtOutOfRange, ConfigError.DelayOutOfRange, MaxSizeOutOfRange}
  {
    var vals := PersistedSettings(db, c);
    if None !in vals && !Agrees(c, vals) {
      Reconfigure(c, AsInt(vals[0].value), AsInt(vals[1].value), AsInt(vals[2].value));
    }
  }

  /** Creation without a conflict persists exactly the configuration's settings. */
  lemma CreatedSettings(db: Db, c: Config, sec: nat)
    requires !CreateConflict(db, c)
    ensures PersistedSettings(CreatedState(db, c, sec), c) == [Some(Num(c.vt)), Some(Num(c.delay)), Some(Num(c.maxSize))]
  {
    var h := HashAt(db, QueueKey(c));
    ConflictingFields(h);
    var h' := CreateFields(c, sec) + h;
    assert HashAt(CreatedState(db, c, sec), QueueKey(c)) == h';
    assert h'["vt"] == Num(c.vt) && h'["delay"] == Num(c.delay) && h'["maxsize"] == Num(c.maxSize);
  }

  /**
   * After a successful reconciliation the held configuration is valid, has
   * the original name, namespace and realtime flag, and agrees with the
   * settings now persisted: the store is authoritative.
   */
  lemma ReconciledAgrees(c: Config, db: Db, allowCreate: bool, sec: nat)
    requires Valid(c)
    requires Reconciled(c, db, allowCreate, sec).0.Pass?
    ensures var (_, c', db') := Reconciled(c, db, allowCreate, sec);
      && Valid(c')
      && c'.name == c.name && c'.namespace == c.namespace && c'.realtime == c.realtime
      && None !in PersistedSettings(db', c')
      && Agrees(c', PersistedSettings(db', c'))
  {
    var vals := PersistedSettings(db, c);
    var (_, c', db') := Reconciled(c, db, allowCreate, sec);
    if None in vals {
      CreatedSettings(db, c, sec);
    } else if !Agrees(c, vals) {
      Reconfigure(c, AsInt(vals[0].value), AsInt(vals[1].value), AsInt(vals[2].value));
      assert QueueKey(c') == QueueKey(c);
    }
  }

  /**
   * Reconciliation is idempotent: once it has succeeded, running it again
   * (allowed to create or not, at any time) succeeds, keeps the
   * configuration and writes nothing.
   */
  lemma ReconcileTwice(c: Config, db: Db, allowCreate: bool, sec: nat, allowCreate': bool, sec': nat)
    requires Valid(c)
    requires Reconciled(c, db, allowCreate, sec).0.Pass?
    ensures var (_, c', db') := Reconciled(c, db, allowCreate, sec);
      Reconciled(c', db', allowCreate', sec') == (Pass, c', db')
  {
    ReconciledAgrees(c, db, allowCreate, sec);
  }

  // -------------------------------------------------------------- sending

  /** The sprintf('%06d') microsecond part of the stamp: at least six digits, zero-padded. */
  function PaddedMicros(usec: nat): (ms: string)
    ensures |ms| >= 6 && Radix.AllDigits(ms, 10)
  {
    Radix.ZeroPadValue(Radix.Encode(usec, 10), 6, 10);
    Radix.ZeroPad(Radix.Encode(usec, 10), 6)
  }

  /** The decimal microsecond stamp an id is built from: the seconds, then the padded microseconds. */
  function MicroTimestamp(sec: nat, usec: nat): (s: string)
    ensures Radix.AllDigits(s, 10)
  {
    Radix.DecodeAppend(Radix.Encode(sec, 10), PaddedMicros(usec), 10);
    Radix.Encode(sec, 10) + PaddedMicros(usec)
  }

  /** The millisecond stamp a score is built from: the seconds, then the first three padded digits, as an integer. */
  function MsTimestamp(sec: nat, usec: nat): (t: nat)
    ensures sec * 1000 <= t < sec * 1000 + 1000
  {
    var ms := PaddedMicros(usec)[..3];
    assert Radix.AllDigits(ms, 10);
    Radix.DecodeAppend(Radix.Encode(sec, 10), ms, 10);
    Radix.DecodeEncode(sec, 10);
    Radix.DecodeBound(ms, 10);
    assert Radix.Pow(10, 3) == 1000;
    Radix.Decode(Radix.Encode(sec, 10) + ms, 10)
  }

  lemma PadSixDigits(usec: nat)
    requires usec < 1000000
    ensures |PaddedMicros(usec)| == 6 && Radix.Decode(PaddedMicros(usec), 10) == usec
  {
    assert Radix.Pow(10, 6) == 1000000;
    Radix.EncodeLength(usec, 10, 6);
    Radix.ZeroPadValue(Radix.Encode(usec, 10), 6, 10);
    Radix.DecodeEncode(usec, 10);
  }

  /** For a clock reading with usec < 10^6 the id's stamp is the time in microseconds. */
  lemma MicroTimestampValue(sec: nat, usec: nat)
    requires usec < 1000000
    ensures Radix.Decode(MicroTimestamp(sec, usec), 10) == sec * 1000000 + usec
  {
    PadSixDigits(usec);
    Radix.DecodeAppend(Radix.Encode(sec, 10), PaddedMicros(usec), 10);
    Radix.DecodeEncode(sec, 10);
    assert Radix.Pow(10, 6) == 1000000;
  }

  /** For a clock reading with usec < 10^6 the score's stamp is the time in whole milliseconds. */
  lemma MsTimestampValue(sec: nat, usec: nat)
    requires usec < 1000000
    ensures MsTimestamp(sec, usec) == sec * 1000 + usec / 1000
  {
    var p := PaddedMicros(usec);
    PadSixDigits(usec);
    var hi, lo := p[..3], p[3..];
    assert p == hi + lo;
    assert Radix.AllDigits(hi, 10) && Radix.AllDigits(lo, 10);
    Radix.DecodeAppend(hi, lo, 10);
    Radix.DecodeBound(lo, 10);
    assert Radix.Pow(10, 3) == 1000;
    assert usec == Radix.Decode(hi, 10) * 1000 + Radix.Decode(lo, 10);
    assert Radix.Decode(hi, 10) == usec / 1000;
    Radix.DecodeAppend(Radix.Encode(sec, 10), hi, 10);
    Radix.DecodeEncode(sec, 10);
  }

  /** The send transaction: schedule, store the payload, count; on realtime queues also read the length. */
  function SendBatch(c: Config, id: string, score: int, payload: string): (b: seq<Command>)
    ensures |b| == if c.realtime then 4 else 3
    ensures forall i :: 0 <= i < |b| ==> b[i].key == GetName(c, true) || b[i].key == QueueKey(c)
    ensures b[0] == ZAdd(GetName(c, true), score, id)
    ensures c.realtime ==> b[3] == ZCard(GetName(c, true))
    ensures IsSendBatch(b, c, id, score, payload)
  {
    var key := GetName(c, true);
    [ZAdd(key, score, id), HSet(QueueKey(c), id, Text(payload)), HIncrBy(QueueKey(c), TotalSent, 1)]
      + (if c.realtime then [ZCard(key)] else [])
  }

  /** The counter after one more send (a counter holding text is left as it is). */
  function CountSent(h: Hash): (r: Hash) {
    if TotalSent !in h then h[TotalSent := Num(1)]
    else if h[TotalSent].Num? then h[TotalSent := Num(h[TotalSent].n + 1)]
    else h
  }

  /**
   * The keyspace after a send: the id scheduled at its score in the sorted
   * set, the payload stored under the id in the hash, the counter advanced;
   * nothing else changes.
   */
  function SentState(db: Db, c: Config, id: string, score: int, payload: string): (r: Db) {
    var key := GetName(c, true);
    db.(zsets := db.zsets[key := ZSetAt(db, key)[id := score]],
        hashes := db.hashes[QueueKey(c) := CountSent(HashAt(db, QueueKey(c))[id := Text(payload)])])
  }

  /** The commands of the send transaction, in order. */
  predicate IsSendBatch(b: seq<Command>, c: Config, id: string, score: int, payload: string) {
    && |b| == (if c.realtime then 4 else 3)
    && b[0] == ZAdd(GetName(c, true), score, id)
    && b[1] == HSet(QueueKey(c), id, Text(payload))
    && b[2] == HIncrBy(QueueKey(c), TotalSent, 1)
    && (c.realtime ==> b[3] == ZCard(GetName(c, true)))
  }

  lemma ScheduleStep(db: Db, key: string, score: int, member: string)
    ensures Step(db, ZAdd(key, score, member)).0 == db.(zsets := db.zsets[key := ZSetAt(db, key)[member := score]])
  {
  }

  lemma StorePayloadStep(db: Db, k: string, f: string, v: Field)
    ensures Step(db, HSet(k, f, v)).0 == db.(hashes := db.hashes[k := HashAt(db, k)[f := v]])
  {
  }

  lemma CountStep(db: Db, k: string)
    ensures Step(db, HIncrBy(k, TotalSent, 1)).0 == db.(hashes := db.hashes[k := CountSent(HashAt(db, k))])
  {
    var h := HashAt(db, k);
    if TotalSent in h && !h[TotalSent].Num? {
      assert db.hashes[k := h] == db.hashes;
    }
  }

  /** After the first command of the send transaction. */
  lemma SendFirstState(db: Db, c: Config, id: string, score: int, payload: string, b: seq<Command>)
    requires IsSendBatch(b, c, id, score, payload)
    ensures Exec(db, b[..1]).0 == db.(zsets := db.zsets[GetName(c, true) := ZSetAt(db, GetName(c, true))[id := score]])
  {
    ExecPrefix(db, b, 0);
    assert b[..0] == [];
    ScheduleStep(db, GetName(c, true), score, id);
  }

  /** After the first two commands of the send transaction. */
  lemma SendSecondState(db: Db, c: Config, id: string, score: int, payload: string, b: seq<Command>)
    requires IsSendBatch(b, c, id, score, payload)
    ensures var d1 := db.(zsets := db.zsets[GetName(c, true) := ZSetAt(db, GetName(c, true))[id := score]]);
      Exec(db, b[..2]).0 == d1.(hashes := d1.hashes[QueueKey(c) := HashAt(db, QueueKey(c))[id := Text(payload)]])
  {
    var d1 := db.(zsets := db.zsets[GetName(c, true) := ZSetAt(db, GetName(c, true))[id := score]]);
    SendFirstState(db, c, id, score, payload, b);
    ExecPrefix(db, b, 1);
    StorePayloadStep(d1, QueueKey(c), id, Text(payload));
    assert HashAt(d1, QueueKey(c)) == HashAt(db, QueueKey(c));
  }

  /** After the three writes of the send transaction. */
  lemma SendWritesState(db: Db, c: Config, id: string, score: int, payload: string, b: seq<Command>)
    requires IsSendBatch(b, c, id, score, payload)
    ensures Exec(db, b[..3]).0 == SentState(db, c, id, score, payload)
  {
    var qk := QueueKey(c);
    var d1 := db.(zsets := db.zsets[GetName(c, true) := ZSetAt(db, GetName(c, true))[id := score]]);
    var h2 := HashAt(db, qk)[id := Text(payload)];
    SendSecondState(db, c, id, score, payload, b);
    ExecPrefix(db, b, 2);
    HashAtRewrite(d1, qk, h2);
    CountStep(d1.(hashes := d1.hashes[qk := h2]), qk);
    RewriteHash(d1, qk, h2, CountSent(h2));
  }

  /** The send transaction's effect, for any batch holding its commands. */
  lemma SendEffect(db: Db, c: Config, id: string, score: int, payload: string, b: seq<Command>)
    requires IsSendBatch(b, c, id, score, payload)
    ensures var d := SentState(db, c, id, score, payload);
      && Exec(db, b).0 == d
      && |Exec(db, b).1| == (if c.realtime then 4 else 3)
      && (c.realtime ==> Exec(db, b).1[3] == Int(|ZSetAt(d, GetName(c, true))|))
  {
    SendWritesState(db, c, id, score, payload, b);
    if c.realtime {
      ExecLast(db, b);
      ExecReplyAt(db, b, 3);
    } else {
      assert b[..3] == b;
    }
  }

  /** Running the send transaction yields the sent state; a realtime queue's fourth reply is the new length. */
  lemma SendBatchEffect(db: Db, c: Config, id: string, score: int, payload: string)
    ensures var (d, rs) := Exec(db, SendBatch(c, id, score, payload));
      && d == SentState(db, c, id, score, payload)
      && |rs| == (if c.realtime then 4 else 3)
      && (c.realtime ==> rs[3] == Int(|ZSetAt(d, GetName(c, true))|))
  {
    SendEffect(db, c, id, score, payload, SendBatch(c, id, score, payload));
  }

  /** Which fields the queue's hash keeps for itself; a message id is never one of them. */
  predicate IsMetadataField(f: string) {
    f in CreateFieldNames || f == TotalSent
  }

  lemma IdIsNotMetadata(stamp: nat, picks: seq<int>)
    requires ValidPicks(picks)
    ensures !IsMetadataField(MessageId(stamp, picks))
  {
    MessageIdShape(stamp, picks);
  }

  /**
   * A send changes no setting and nothing outside the queue's two keys, and
   * in the hash only the id's field and the counter.
   */
  lemma SendTouchesOnlyItsQueue(db: Db, c: Config, id: string, score: int, payload: string, c': Config)
    requires !IsMetadataField(id)
    ensures var d := SentState(db, c, id, score, payload);
      && d.sets == db.sets
      && d.zsets - {GetName(c, true)} == db.zsets - {GetName(c, true)}
      && d.hashes - {QueueKey(c)} == db.hashes - {QueueKey(c)}
      && (forall f :: f != id && f != TotalSent ==>
            Lookup(HashAt(d, QueueKey(c)), f) == Lookup(HashAt(db, QueueKey(c)), f))
      && PersistedSettings(d, c') == PersistedSettings(db, c')
  {
    var d := SentState(db, c, id, score, payload);
    var vals, vals' := PersistedSettings(db, c'), PersistedSettings(d, c');
    forall i | 0 <= i < |SettingFields| ensures vals'[i] == vals[i] {
      assert IsMetadataField(SettingFields[i]);
    }
  }

  // ---------------------------------------------------------- the manager

  class Queue {
    var config: Config
    const store: Store

    predicate Valid()
      reads this
    {
      QueueConfig.Valid(config)
    }

    /** The field assignments of the constructor; OpenQueue adds the reconciliation. */
    constructor (config: Config, store: Store)
      requires QueueConfig.Valid(config)
      ensures Valid() && this.config == config && this.store == store
    {
      this.config := config;
      this.store := store;
    }

    /** syncWithRedis: read the settings, then create, adopt or keep. */
    method SyncWithRedis(allowCreate: bool, sec: nat) returns (r: Outcome<QueueError>)
      requires Valid()
      modifies this, store
      ensures Valid()
      ensures (r, config, store.State()) == Reconciled(old(config), old(store.State()), allowCreate, sec)
      ensures store.published == old(store.published)
    {
      var hash := store.HMGet(QueueKey(config), SettingFields);
      assert hash == PersistedSettings(store.State(), config);
      if None in hash {
        if allowCreate {
          r := Create(sec);
        } else {
          r := Fail(NotFound(GetName(config, true)));
        }
      } else if config.vt != AsInt(hash[0].value)
             || config.delay != AsInt(hash[1].value)
             || config.maxSize != AsInt(hash[2].value) {
        var adopted := NewConfig(config.name, config.namespace, config.realtime,
                                 AsInt(hash[0].value), AsInt(hash[1].value), AsInt(hash[2].value));
        if adopted.Failure? {
          return Fail(Invalid(adopted.error));
        }
        config := adopted.value;
        r := Pass;
      } else {
        r := Pass;
      }
    }

    /** create: one transaction of set-if-absent writes; any reply of 0 means the queue already exists. */
    method Create(sec: nat) returns (r: Outcome<QueueError>)
      requires Valid()
      modifies store
      ensures store.State() == CreatedState(old(store.State()), config, sec)
      ensures r == if CreateConflict(old(store.State()), config) then Fail(AlreadyExists) else Pass
      ensures store.published == old(store.published)
    {
      CreateBatchEffect(store.State(), config, sec);
      var result := store.Transaction(CreateBatch(config, sec));
      if Int(0) in result {
        r := Fail(AlreadyExists);
      } else {
        r := Pass;
      }
    }

    /**
     * sendMessage at server time (sec, usec), with `picks` standing for the
     * 22 random draws: refuse a message checkSize rejects, otherwise run the
     * send transaction, publish the new length on a realtime queue, and
     * return the id.
     */
    method SendMessage(m: Message, sec: nat, usec: nat, picks: seq<int>) returns (r: Result<string, QueueError>)
      requires Valid() && m.Valid()
      requires usec < 1000000
      requires sec * 1000000 + usec < MaxExactStamp
      requires ValidPicks(picks)
      modifies store
      ensures !m.CheckSize(config.maxSize) ==>
        r == Failure(TooLarge) && store.State() == old(store.State()) && store.published == old(store.published)
      ensures m.CheckSize(config.maxSize) ==>
        var id := MessageId(sec * 1000000 + usec, picks);
        var score := m.GenerateQueueScore(sec * 1000 + usec / 1000, config.delay);
        var db := SentState(old(store.State()), config, id, score, m.payload);
        && r == Success(id)
        && store.State() == db
        && store.published == old(store.published) +
             (if config.realtime then [Publication(PublishKey(config), Int(|ZSetAt(db, GetName(config, true))|))] else [])
    {
      if !m.CheckSize(config.maxSize) {
        return Failure(TooLarge);
      }
      ghost var db0 := store.State();
      MicroTimestampValue(sec, usec);
      MsTimestampValue(sec, usec);
      var messageId := m.GenerateUid(MicroTimestamp(sec, usec), picks);
      assert messageId == MessageId(sec * 1000000 + usec, picks);
      var score := m.GenerateQueueScore(MsTimestamp(sec, usec), config.delay);
      assert score == m.GenerateQueueScore(sec * 1000 + usec / 1000, config.delay);
      ghost var db := SentState(db0, config, messageId, score, m.payload);
      SendBatchEffect(db0, config, messageId, score, m.payload);
      var result := store.Transaction(SendBatch(config, messageId, score, m.payload));
      assert store.State() == db;
      if config.realtime {
        assert result[3] == Int(|ZSetAt(db, GetName(config, true))|);
        store.Publish(PublishKey(config), result[3]);
      }
      r := Success(messageId);
    }
  }

  /**
   * new Queue(config, adapter, allowQueueCreation): the manager exists only
   * if reconciliation succeeds.
   */
  method OpenQueue(config: Config, store: Store, allowCreate: bool, sec: nat) returns (r: Result<Queue, QueueError>)
    requires QueueConfig.Valid(config)
    modifies store
    ensures var (outcome, c', db') := Reconciled(config, old(store.State()), allowCreate, sec);
      && store.State() == db'
      && store.published == old(store.published)
      && (r.Success? <==> outcome.Pass?)
      && (r.Success? ==> fresh(r.value) && r.value.store == store && r.value.config == c' && r.value.Valid())
      && (r.Failure? ==> outcome == Fail(r.error))
  {
    var q := new Queue(config, store);
    var outcome := q.SyncWithRedis(allowCreate, sec);
    if outcome.Fail? {
      return Failure(outcome.error);
    }
    r := Success(q);
  }
}
