/**
 * The part of Redis the client drives, as seen through its adapter
 * (src/Redis/RedisAdapterInterface.php): hashes, sorted sets and sets held
 * in maps, a transaction that runs a queued command list in one step and
 * returns one reply per command, and a log of published messages.
 */
module KeyValueStore {
  import opened Wrappers

  /** A hash field's value: a number, or text such as a message payload. */
  datatype Field = Num(n: int) | Text(s: string)

  type Hash = map<string, Field>

  /** A sorted set: member to score. */
  type SortedSet = map<string, int>

  /** The keyspace, one map per type of value. */
  datatype Db = Db(hashes: map<string, Hash>, zsets: map<string, SortedSet>, sets: map<string, set<string>>)

  /** A missing key reads as an empty value of its type, as Redis does. */
  function HashAt(db: Db, key: string): (h: Hash) {
    if key in db.hashes then db.hashes[key] else map[]
  }

  function ZSetAt(db: Db, key: string): (z: SortedSet) {
    if key in db.zsets then db.zsets[key] else map[]
  }

  function SetAt(db: Db, key: string): (s: set<string>) {
    if key in db.sets then db.sets[key] else {}
  }

  function Lookup(h: Hash, field: string): Option<Field> {
    if field in h then Some(h[field]) else None
  }

  /** The commands a transaction may queue. */
  datatype Command =
    | HSetNx(key: string, field: string, value: Field)
    | HSet(key: string, field: string, value: Field)
    | HIncrBy(key: string, field: string, increment: int)
    | SAdd(key: string, member: string)
    | ZAdd(key: string, score: int, member: string)
    | ZCard(key: string)

  /** A command's reply: an integer, or an error (incrementing a field that holds text). */
  datatype Reply = Int(n: int) | Error

  /** One command against the keyspace. */
  function Step(db: Db, c: Command): (r: (Db, Reply))
    ensures r.0.hashes - {c.key} == db.hashes - {c.key}
    ensures r.0.zsets - {c.key} == db.zsets - {c.key}
    ensures r.0.sets - {c.key} == db.sets - {c.key}
    ensures (c.HSetNx? || c.HSet? || c.HIncrBy?) ==> r.0.zsets == db.zsets && r.0.sets == db.sets
    ensures c.SAdd? ==> r.0.hashes == db.hashes && r.0.zsets == db.zsets
    ensures c.ZAdd? ==> r.0.hashes == db.hashes && r.0.sets == db.sets
    ensures c.ZCard? ==> r.0 == db
    ensures c.HSetNx? ==> (r.1 == Int(0) <==> c.field in HashAt(db, c.key))
    ensures c.SAdd? ==> (r.1 == Int(0) <==> c.member in SetAt(db, c.key))
  {
    match c
    case HSetNx(key, field, value) =>
      var h := HashAt(db, key);
      if field in h then (db, Int(0))
      else (db.(hashes := db.hashes[key := h[field := value]]), Int(1))
    case HSet(key, field, value) =>
      var h := HashAt(db, key);
      (db.(hashes := db.hashes[key := h[field := value]]), Int(if field in h then 0 else 1))
    case HIncrBy(key, field, increment) =>
      var h := HashAt(db, key);
      if field !in h then (db.(hashes := db.hashes[key := h[field := Num(increment)]]), Int(increment))
      else if h[field].Num? then
        var n := h[field].n + increment;
        (db.(hashes := db.hashes[key := h[field := Num(n)]]), Int(n))
      else (db, Error)
    case SAdd(key, member) =>
      var s := SetAt(db, key);
      if member in s then (db, Int(0))
      else (db.(sets := db.sets[key := s + {member}]), Int(1))
    case ZAdd(key, score, member) =>
      var z := ZSetAt(db, key);
      (db.(zsets := db.zsets[key := z[member := score]]), Int(if member in z then 0 else 1))
    case ZCard(key) =>
      (db, Int(|ZSetAt(db, key)|))
  }

  /** A transaction: the commands run in order, each reply in the position of its command. */
  function Exec(db: Db, batch: seq<Command>): (r: (Db, seq<Reply>))
    ensures |r.1| == |batch|
  {
    if batch == [] then (db, [])
    else
      var (d, replies) := Exec(db, batch[..|batch| - 1]);
      var (d', reply) := Step(d, batch[|batch| - 1]);
      (d', replies + [reply])
  }

  /** Extending a batch by one command runs that command on the state the shorter batch left. */
  lemma ExecPrefix(db: Db, b: seq<Command>, k: nat)
    requires k < |b|
    ensures Exec(db, b[..k + 1]).0 == Step(Exec(db, b[..k]).0, b[k]).0
    ensures Exec(db, b[..k + 1]).1 == Exec(db, b[..k]).1 + [Step(Exec(db, b[..k]).0, b[k]).1]
  {
    assert b[..k + 1][..k] == b[..k];
  }

  /** A non-empty batch runs its last command on the state the others left. */
  lemma ExecLast(db: Db, b: seq<Command>)
    requires |b| > 0
    ensures Exec(db, b).0 == Step(Exec(db, b[..|b| - 1]).0, b[|b| - 1]).0
  {
  }

  /**
   * The reply in position j is the reply of command j on the state the
   * commands before it left: later commands do not change earlier replies.
   */
  lemma {:induction false} ExecReplyAt(db: Db, b: seq<Command>, j: nat)
    requires j < |b|
    ensures Exec(db, b).1[j] == Step(Exec(db, b[..j]).0, b[j]).1
  {
    var n := |b| - 1;
    var front := b[..n];
    if j < n {
      assert Exec(db, b).1[j] == Exec(db, front).1[j];
      ExecReplyAt(db, front, j);
      assert front[..j] == b[..j];
    } else {
      assert b[..j] == front;
    }
  }

  /** A message sent on a pub/sub channel. */
  datatype Publication = Publication(channel: string, message: Reply)

  class Store {
    var hashes: map<string, Hash>
    var zsets: map<string, SortedSet>
    var sets: map<string, set<string>>
    /** Every message published so far, oldest first. */
    var published: seq<Publication>

    constructor (db: Db)
      ensures State() == db && published == []
    {
      hashes, zsets, sets := db.hashes, db.zsets, db.sets;
      published := [];
    }

    function State(): Db
      reads this
    {
      Db(hashes, zsets, sets)
    }

    /** hMGet: each requested field's value, or None where the hash lacks it. */
    method HMGet(key: string, fields: seq<string>) returns (values: seq<Option<Field>>)
      ensures |values| == |fields|
      ensures forall i :: 0 <= i < |fields| ==>
        (values[i].Some? <==> fields[i] in HashAt(State(), key))
        && (values[i].Some? ==> values[i].value == HashAt(State(), key)[fields[i]])
    {
      var h := HashAt(State(), key);
      values := seq(|fields|, i requires 0 <= i < |fields| => Lookup(h, fields[i]));
    }

    /** transaction: MULTI, the queued commands, EXEC. */
    method Transaction(batch: seq<Command>) returns (replies: seq<Reply>)
      modifies this
      ensures (State(), replies) == Exec(old(State()), batch)
      ensures published == old(published)
    {
      replies := [];
      for i := 0 to |batch|
        invariant (State(), replies) == Exec(old(State()), batch[..i])
        invariant published == old(published)
      {
        assert batch[..i + 1][..i] == batch[..i];
        var (db, reply) := Step(State(), batch[i]);
        hashes, zsets, sets := db.hashes, db.zsets, db.sets;
        replies := replies + [reply];
      }
      assert batch[..|batch|] == batch;
    }

    /** publish: appends to the log and leaves the keyspace alone. */
    method Publish(channel: string, message: Reply)
      modifies this
      ensures published == old(published) + [Publication(channel, message)]
      ensures State() == old(State())
    {
      published := published + [Publication(channel, message)];
    }
  }
}
