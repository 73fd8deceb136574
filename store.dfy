/** The shared store the distributed limiters talk to, reduced to the commands they send: hash
    fields (`HMGET`/`HMSET`), integer counters (`GET`/`INCRBY`) and sorted sets
    (`ZREMRANGEBYSCORE`/`ZCARD`/`ZADD`/`ZRANGE 0 0 WITHSCORES`). Each command is one atomic step
    from a store value to the next. */
module Store {
  import opened Results

  /** The sorted-set member name `f"{now}:{i}"`: the `i`-th entry added at time `now`. */
  datatype Member = Member(at: real, index: nat)

  datatype Entry = Entry(member: Member, score: real)

  /** The keyspace, one map per kind of value the limiters keep. A sorted set is kept in score
      order, as `ZRANGE` reads it. */
  datatype Store = Store(
    hashes: map<string, map<string, real>>,
    counters: map<string, int>,
    zsets: map<string, seq<Entry>>)

  /** A store with no keys. */
  function Empty(): (st: Store)
    ensures st.hashes == map[] && st.counters == map[] && st.zsets == map[]
  {
    Store(map[], map[], map[])
  }

  // ---------------------------------------------------------------- hashes

  /** One field of `HMGET`: absent when the key or the field is missing. */
  function HGet(st: Store, key: string, field: string): Option<real> {
    if key in st.hashes && field in st.hashes[key] then Some(st.hashes[key][field]) else None
  }

  /** `HMSET key f1 v1 f2 v2 ...`: the given fields are written, the hash's other fields stay. */
  function HSet(st: Store, key: string, fields: map<string, real>): (st': Store)
    ensures forall f :: f in fields ==> HGet(st', key, f) == Some(fields[f])
    ensures st'.counters == st.counters && st'.zsets == st.zsets
  {
    var before := if key in st.hashes then st.hashes[key] else map[];
    st.(hashes := st.hashes[key := before + fields])
  }

  /** Reading a field back after `HMSET`: the written fields read as written, every other field
      of every key reads as before. */
  lemma HGetAfterHSet(st: Store, key: string, fields: map<string, real>, k: string, f: string)
    ensures HGet(HSet(st, key, fields), k, f) ==
      if k == key && f in fields then Some(fields[f]) else HGet(st, k, f)
  {
  }

  // ---------------------------------------------------------------- counters

  /** `GET key` on a counter: absent when the key is missing. */
  function Get(st: Store, key: string): Option<int> {
    if key in st.counters then Some(st.counters[key]) else None
  }

  /** The count `GET` reads, with a missing key as 0 (`int(v) if v else 0`, `GET key or 0`). */
  function CountOf(st: Store, key: string): int {
    if key in st.counters then st.counters[key] else 0
  }

  /** `INCRBY key n`: a missing key counts from 0. */
  function IncrBy(st: Store, key: string, n: int): (st': Store)
    ensures Get(st', key) == Some(CountOf(st, key) + n)
    ensures st'.hashes == st.hashes && st'.zsets == st.zsets
  {
    st.(counters := st.counters[key := CountOf(st, key) + n])
  }

  /** `INCRBY` adds `n` to one counter and changes nothing else. */
  lemma IncrByChangesOneCounter(st: Store, key: string, n: int, k: string)
    ensures CountOf(IncrBy(st, key, n), k) == if k == key then CountOf(st, key) + n else CountOf(st, k)
    ensures Get(IncrBy(st, key, n), key) == Some(CountOf(st, key) + n)
    ensures IncrBy(st, key, n).hashes == st.hashes && IncrBy(st, key, n).zsets == st.zsets
  {
  }

  // ---------------------------------------------------------------- sorted sets

  /** Scores never decrease along the set. */
  predicate Sorted(z: seq<Entry>) {
    forall i, j :: 0 <= i < j < |z| ==> z[i].score <= z[j].score
  }

  /** No member name appears twice. */
  predicate Distinct(z: seq<Entry>) {
    forall i, j :: 0 <= i < j < |z| ==> z[i].member != z[j].member
  }

  /** What a sorted set is: in score order, one entry per member name. */
  predicate WellFormed(z: seq<Entry>) {
    Sorted(z) && Distinct(z)
  }

  /** The entries of a sorted set, empty when the key is missing. */
  function Members(st: Store, key: string): seq<Entry> {
    if key in st.zsets then st.zsets[key] else []
  }

  /** Every sorted set in the store is well formed. */
  predicate Valid(st: Store) {
    forall key :: key in st.zsets ==> WellFormed(st.zsets[key])
  }

  /** The entries that satisfy `keep`, in their order. */
  function Keep(z: seq<Entry>, keep: Entry -> bool): (z': seq<Entry>)
    ensures |z'| <= |z|
    decreases |z|
  {
    if z == [] then [] else (if keep(z[0]) then [z[0]] else []) + Keep(z[1..], keep)
  }

  lemma {:induction false} KeepContents(z: seq<Entry>, keep: Entry -> bool)
    ensures forall e :: e in Keep(z, keep) <==> e in z && keep(e)
    decreases |z|
  {
    if z != [] {
      KeepContents(z[1..], keep);
      assert z == [z[0]] + z[1..];
    }
  }

  /** Keeping every entry keeps the set as it is. */
  lemma {:induction false} KeepAll(z: seq<Entry>, keep: Entry -> bool)
    requires forall e :: e in z ==> keep(e)
    ensures Keep(z, keep) == z
    decreases |z|
  {
    if z != [] {
      assert z[0] in z;
      forall e | e in z[1..]
        ensures keep(e)
      {
        assert e in z;
      }
      KeepAll(z[1..], keep);
      assert z == [z[0]] + z[1..];
    }
  }

  /** A sorted set is its first entry in front of a sorted set of entries scored no lower,
      none of which has its member name. */
  lemma SplitFirst(z: seq<Entry>)
    requires WellFormed(z) && z != []
    ensures WellFormed(z[1..])
    ensures forall e :: e in z[1..] ==> z[0].score <= e.score && z[0].member != e.member
  {
    forall e | e in z[1..]
      ensures z[0].score <= e.score && z[0].member != e.member
    {
      var j :| 0 <= j < |z[1..]| && z[1..][j] == e;
      assert z[1 + j] == e;
    }
  }

  /** Putting an entry in front of a sorted set keeps it sorted when it scores no higher and
      its member name is new. */
  lemma JoinFirst(x: Entry, z: seq<Entry>)
    requires WellFormed(z)
    requires forall e :: e in z ==> x.score <= e.score && x.member != e.member
    ensures WellFormed([x] + z)
  {
    var y := [x] + z;
    forall i, j | 0 <= i < j < |y|
      ensures y[i].score <= y[j].score && y[i].member != y[j].member
    {
      if i == 0 {
        assert y[j] == z[j - 1] && y[j] in z;
      } else {
        assert y[i] == z[i - 1] && y[j] == z[j - 1];
      }
    }
  }

  /** Dropping entries keeps a sorted set sorted and its names distinct. */
  lemma {:induction false} KeepIsWellFormed(z: seq<Entry>, keep: Entry -> bool)
    requires WellFormed(z)
    ensures WellFormed(Keep(z, keep))
    decreases |z|
  {
    if z != [] {
      SplitFirst(z);
      KeepIsWellFormed(z[1..], keep);
      KeepContents(z[1..], keep);
      if keep(z[0]) {
        JoinFirst(z[0], Keep(z[1..], keep));
      }
    }
  }

  /** The entry placed where its score belongs: after every entry scoring the same or lower. */
  function Insert(z: seq<Entry>, x: Entry): (z': seq<Entry>)
    ensures |z'| == |z| + 1
    decreases |z|
  {
    if z == [] then [x]
    else if x.score < z[0].score then [x] + z
    else [z[0]] + Insert(z[1..], x)
  }

  lemma {:induction false} InsertContents(z: seq<Entry>, x: Entry)
    ensures forall e :: e in Insert(z, x) <==> e == x || e in z
    decreases |z|
  {
    if z != [] && x.score >= z[0].score {
      InsertContents(z[1..], x);
      assert z == [z[0]] + z[1..];
    }
  }

  /** An entry scoring at least as high as every entry goes last. */
  lemma {:induction false} InsertAtEnd(z: seq<Entry>, x: Entry)
    requires forall e :: e in z ==> e.score <= x.score
    ensures Insert(z, x) == z + [x]
    decreases |z|
  {
    if z != [] {
      assert z[0] in z;
      forall e | e in z[1..]
        ensures e.score <= x.score
      {
        assert e in z;
      }
      InsertAtEnd(z[1..], x);
      assert z == [z[0]] + z[1..];
    }
  }

  /** Inserting an entry whose member name is new keeps a sorted set sorted and its names
      distinct. */
  lemma {:induction false} InsertIsWellFormed(z: seq<Entry>, x: Entry)
    requires WellFormed(z) && forall e :: e in z ==> e.member != x.member
    ensures WellFormed(Insert(z, x))
    decreases |z|
  {
    if z != [] {
      SplitFirst(z);
      if x.score < z[0].score {
        JoinFirst(x, z);
      } else {
        InsertIsWellFormed(z[1..], x);
        InsertContents(z[1..], x);
        JoinFirst(z[0], Insert(z[1..], x));
      }
    }
  }

  /** The entries that do not carry member name `m`. */
  function NotNamed(m: Member): Entry -> bool {
    (e: Entry) => e.member != m
  }

  /** The entries scored outside `[lo, hi]`. */
  function ScoredOutside(lo: real, hi: real): Entry -> bool {
    (e: Entry) => !(lo <= e.score <= hi)
  }

  /** `ZADD key {member: score}` on one set: the member's earlier entry, if any, gives way to
      the new one. */
  function AddEntry(z: seq<Entry>, m: Member, score: real): (z': seq<Entry>)
    ensures |z'| <= |z| + 1
  {
    Insert(Keep(z, NotNamed(m)), Entry(m, score))
  }

  /** After `ZADD` the member has exactly the new score and every other member keeps its entry. */
  lemma AddEntryContents(z: seq<Entry>, m: Member, score: real)
    ensures forall e :: e in AddEntry(z, m, score) <==> e == Entry(m, score) || (e in z && e.member != m)
  {
    KeepContents(z, NotNamed(m));
    InsertContents(Keep(z, NotNamed(m)), Entry(m, score));
  }

  /** `ZADD` keeps a set well formed. */
  lemma AddEntryIsWellFormed(z: seq<Entry>, m: Member, score: real)
    requires WellFormed(z)
    ensures WellFormed(AddEntry(z, m, score))
  {
    var kept := Keep(z, NotNamed(m));
    KeepContents(z, NotNamed(m));
    KeepIsWellFormed(z, NotNamed(m));
    InsertIsWellFormed(kept, Entry(m, score));
  }

  /** `ZREMRANGEBYSCORE key lo hi`: the entries scored in `[lo, hi]` are removed. */
  function ZRemRangeByScore(st: Store, key: string, lo: real, hi: real): (st': Store)
    ensures ZCard(st', key) <= ZCard(st, key)
    ensures st'.hashes == st.hashes && st'.counters == st.counters
  {
    st.(zsets := st.zsets[key := Keep(Members(st, key), ScoredOutside(lo, hi))])
  }

  /** `ZCARD key`. */
  function ZCard(st: Store, key: string): (n: nat)
    ensures key !in st.zsets ==> n == 0
    ensures n == 0 <==> Members(st, key) == []
  {
    |Members(st, key)|
  }

  /** `ZADD key {member: score}`. */
  function ZAdd(st: Store, key: string, m: Member, score: real): (st': Store)
    ensures Entry(m, score) in Members(st', key)
    ensures ZCard(st', key) <= ZCard(st, key) + 1
    ensures st'.hashes == st.hashes && st'.counters == st.counters
  {
    AddEntryContents(Members(st, key), m, score);
    st.(zsets := st.zsets[key := AddEntry(Members(st, key), m, score)])
  }

  /** `ZADD` of a new member name scoring at least as high as every entry appends it. */
  lemma AddEntryNewLast(z: seq<Entry>, m: Member, score: real)
    requires forall e :: e in z ==> e.member != m && e.score <= score
    ensures AddEntry(z, m, score) == z + [Entry(m, score)]
  {
    KeepAll(z, NotNamed(m));
    InsertAtEnd(z, Entry(m, score));
  }

  /** The score of `ZRANGE key 0 0 WITHSCORES`: the first entry's, absent on an empty set. */
  function LowestScore(st: Store, key: string): (r: Option<real>)
    ensures r.None? <==> Members(st, key) == []
  {
    var z := Members(st, key);
    if z == [] then None else Some(z[0].score)
  }

  /** `ZREMRANGEBYSCORE` leaves in the set exactly the entries scored outside `[lo, hi]`, in
      their order. */
  lemma ZRemRangeByScoreContents(st: Store, key: string, lo: real, hi: real)
    ensures var z' := Members(ZRemRangeByScore(st, key, lo, hi), key);
      && (forall e :: e in z' <==> e in Members(st, key) && !(lo <= e.score <= hi))
      && |z'| <= ZCard(st, key)
  {
    KeepContents(Members(st, key), ScoredOutside(lo, hi));
  }

  /** `ZREMRANGEBYSCORE` keeps every set well formed. */
  lemma ZRemRangeByScoreKeepsValid(st: Store, key: string, lo: real, hi: real)
    requires Valid(st)
    ensures Valid(ZRemRangeByScore(st, key, lo, hi))
  {
    assert WellFormed(Members(st, key));
    KeepIsWellFormed(Members(st, key), ScoredOutside(lo, hi));
  }

  /** `ZREMRANGEBYSCORE` touches no other key. */
  lemma ZRemRangeByScoreTouchesOneKey(st: Store, key: string, lo: real, hi: real)
    ensures var st' := ZRemRangeByScore(st, key, lo, hi);
      && (forall k :: k != key ==> Members(st', k) == Members(st, k))
      && st'.hashes == st.hashes && st'.counters == st.counters
  {
  }

  /** `ZADD` gives the member exactly the new score, keeps every other member's entry and grows
      the set by at most one. */
  lemma ZAddContents(st: Store, key: string, m: Member, score: real)
    ensures var z' := Members(ZAdd(st, key, m, score), key);
      && (forall e :: e in z' <==> e == Entry(m, score) || (e in Members(st, key) && e.member != m))
      && |z'| <= ZCard(st, key) + 1
  {
    AddEntryContents(Members(st, key), m, score);
  }

  /** `ZADD` keeps every set well formed. */
  lemma ZAddKeepsValid(st: Store, key: string, m: Member, score: real)
    requires Valid(st)
    ensures Valid(ZAdd(st, key, m, score))
  {
    assert WellFormed(Members(st, key));
    AddEntryIsWellFormed(Members(st, key), m, score);
  }

  /** `ZADD` touches no other key. */
  lemma ZAddTouchesOneKey(st: Store, key: string, m: Member, score: real)
    ensures var st' := ZAdd(st, key, m, score);
      && (forall k :: k != key ==> Members(st', k) == Members(st, k))
      && st'.hashes == st.hashes && st'.counters == st.counters
  {
  }

  /** In a well-formed set the first entry has the lowest score, so `ZRANGE 0 0 WITHSCORES`
      reads the oldest timestamp. */
  lemma LowestScoreIsMinimum(st: Store, key: string)
    requires Valid(st)
    ensures LowestScore(st, key).None? <==> Members(st, key) == []
    ensures LowestScore(st, key).Some? ==>
      (exists e :: e in Members(st, key) && e.score == LowestScore(st, key).value)
      && forall e :: e in Members(st, key) ==> LowestScore(st, key).value <= e.score
  {
    var z := Members(st, key);
    if z != [] {
      assert WellFormed(z);
      assert z[0] in z;
      SplitFirst(z);
      assert z == [z[0]] + z[1..];
    }
  }
}
