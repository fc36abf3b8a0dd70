/**
 * The Redis store as the consumer uses it through Jedis: `set` and `del` by
 * key. Keys are the UTF-8 bytes of a column value and values the UTF-8 bytes
 * of a JSON document; both encodings are taken as injective, so keys are
 * strings and values are `Document`s.
 */
module Redis {
  import opened Wrappers
  import opened Projection

  type Db = map<string, Document>

  /** One store call issued by the consumer. */
  datatype Command = Del(key: string) | Set(key: string, value: Document)

  function Exec(db: Db, c: Command): Db
  {
    match c
    case Del(k) => db - {k}
    case Set(k, v) => db[k := v]
  }

  /** The store after the commands `cs` have been issued in order. */
  function ExecAll(db: Db, cs: seq<Command>): Db
  {
    if |cs| == 0 then db else Exec(ExecAll(db, cs[..|cs| - 1]), cs[|cs| - 1])
  }

  function Lookup(db: Db, k: string): Option<Document>
  {
    if k in db then Some(db[k]) else None
  }

  /** What a lookup of the key of `c` gives right after `c`. */
  function Effect(c: Command): Option<Document>
  {
    match c
    case Del(_) => None
    case Set(_, v) => Some(v)
  }

  /** The keys `cs` writes or deletes. */
  function Touched(cs: seq<Command>): set<string>
  {
    set i | 0 <= i < |cs| :: cs[i].key
  }

  /** The last command of `cs` on key `k`, if there is one. */
  function LastCommandOn(cs: seq<Command>, k: string): (r: Option<Command>)
    ensures r.Some? <==> k in Touched(cs)
    ensures r.Some? ==> r.value.key == k && r.value in cs
  {
    if |cs| == 0 then None
    else if cs[|cs| - 1].key == k then Some(cs[|cs| - 1])
    else
      var init := cs[..|cs| - 1];
      assert Touched(cs) == Touched(init) + {cs[|cs| - 1].key} by {
        assert forall i :: 0 <= i < |init| ==> init[i] == cs[i];
      }
      LastCommandOn(init, k)
  }

  /** The last command on the key of `cs[j]` is `cs[j]` when no later one shares its key. */
  lemma {:induction false} LastCommandIs(cs: seq<Command>, j: nat)
    requires j < |cs|
    requires forall j' :: j < j' < |cs| ==> cs[j'].key != cs[j].key
    ensures LastCommandOn(cs, cs[j].key) == Some(cs[j])
  {
    if j < |cs| - 1 {
      LastCommandIs(cs[..|cs| - 1], j);
    }
  }

  lemma {:induction false} ExecAllAppend(db: Db, a: seq<Command>, b: seq<Command>)
    ensures ExecAll(db, a + b) == ExecAll(ExecAll(db, a), b)
    decreases |b|
  {
    if |b| == 0 {
      assert a + b == a;
    } else {
      assert (a + b)[..|a + b| - 1] == a + b[..|b| - 1];
      ExecAllAppend(db, a, b[..|b| - 1]);
    }
  }

  /**
   * Last write wins: after `cs`, a key holds what the last command on it left,
   * or what it held before when `cs` does not touch it.
   */
  lemma {:induction false} ExecAllAt(db: Db, cs: seq<Command>, k: string)
    ensures Lookup(ExecAll(db, cs), k) ==
      match LastCommandOn(cs, k)
      case None => Lookup(db, k)
      case Some(c) => Effect(c)
  {
    if |cs| > 0 {
      ExecAllAt(db, cs[..|cs| - 1], k);
    }
  }

  /** Keys that no command touches keep their old value. */
  lemma {:induction false} ExecAllUntouched(db: Db, cs: seq<Command>)
    ensures forall k :: k !in Touched(cs) ==> Lookup(ExecAll(db, cs), k) == Lookup(db, k)
  {
    forall k | k !in Touched(cs) ensures Lookup(ExecAll(db, cs), k) == Lookup(db, k) {
      ExecAllAt(db, cs, k);
    }
  }

  lemma SameLookups(a: Db, b: Db)
    requires forall k :: Lookup(a, k) == Lookup(b, k)
    ensures a == b
  {
    assert a.Keys == b.Keys by {
      forall k ensures k in a <==> k in b {
        assert Lookup(a, k) == Lookup(b, k);
      }
    }
    forall k | k in a ensures a[k] == b[k] {
      assert Lookup(a, k) == Lookup(b, k);
    }
  }

  /**
   * Commands that touch only keys `f` touches again leave no trace once `f`
   * has been issued after them.
   */
  lemma Absorbed(db: Db, p: seq<Command>, f: seq<Command>)
    requires Touched(p) <= Touched(f)
    ensures ExecAll(ExecAll(db, p), f) == ExecAll(db, f)
  {
    forall k ensures Lookup(ExecAll(ExecAll(db, p), f), k) == Lookup(ExecAll(db, f), k) {
      ExecAllAt(ExecAll(db, p), f, k);
      ExecAllAt(db, f, k);
      if LastCommandOn(f, k).None? {
        ExecAllAt(db, p, k);
      }
    }
    SameLookups(ExecAll(ExecAll(db, p), f), ExecAll(db, f));
  }

  /** Issuing the same commands twice leaves the store as issuing them once. */
  lemma ExecAllIdempotent(db: Db, cs: seq<Command>)
    ensures ExecAll(ExecAll(db, cs), cs) == ExecAll(db, cs)
  {
    Absorbed(db, cs, cs);
  }

  /**
   * A run cut short after a prefix of `cs`, then the whole of `cs`, leaves the
   * store as the whole of `cs` alone.
   */
  lemma PrefixThenWhole(db: Db, cs: seq<Command>, n: nat)
    requires n <= |cs|
    ensures ExecAll(ExecAll(db, cs[..n]), cs) == ExecAll(db, cs)
  {
    assert Touched(cs[..n]) <= Touched(cs) by {
      forall i | 0 <= i < n ensures cs[..n][i].key in Touched(cs) {
        assert cs[..n][i] == cs[i];
      }
    }
    Absorbed(db, cs[..n], cs);
  }

  /** The Jedis connection; `db` is the state of the Redis key space. */
  class Jedis {
    var db: Db

    constructor (db: Db)
      ensures this.db == db
    {
      this.db := db;
    }

    /** `jedis.del(key)` */
    method Del(key: string)
      modifies this
      ensures db == Exec(old(db), Command.Del(key))
      ensures key !in db
    {
      db := db - {key};
    }

    /** `jedis.set(key, value)` */
    method Set(key: string, value: Document)
      modifies this
      ensures db == Exec(old(db), Command.Set(key, value))
      ensures key in db && db[key] == value
    {
      db := db[key := value];
    }
  }
}
