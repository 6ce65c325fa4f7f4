/** Entities shared by clients and servers: timestamps, keys and items. */
module Data {

  type Field = string
  type Value = string
  type Values = map<Field, Value>

  /** A key is a string; `std::map` and `std::set` order keys lexicographically. */
  type Key = string

  /** Seconds and microseconds, both of C++ type `long`. */
  datatype Timestamp = Timestamp(sec: int, usec: int) {

    predicate Less(other: Timestamp) {
      if sec == other.sec then usec < other.usec else sec < other.sec
    }

    predicate Greater(other: Timestamp) {
      if sec == other.sec then usec > other.usec else sec > other.sec
    }

    predicate IsEmpty() {
      this == ZERO
    }
  }

  /** The default-constructed timestamp: "no version". */
  const ZERO := Timestamp(0, 0)

  /** The moment that a timestamp stands for, counted in microseconds. */
  function Moment(t: Timestamp): int {
    1000000 * t.sec + t.usec
  }

  predicate IsClockReading(t: Timestamp) {
    0 <= t.usec < 1000000
  }

  /** Timestamps that a clock can show are ordered in time, by both operators. */
  lemma OrderedInTime(t: Timestamp, u: Timestamp)
    requires IsClockReading(t) && IsClockReading(u)
    ensures t.Less(u) <==> Moment(t) < Moment(u)
    ensures t.Greater(u) <==> Moment(t) > Moment(u)
    ensures t.IsEmpty() <==> Moment(t) == 0
  {
  }

  /** Whatever the fields hold, any two timestamps are equal, or one is less and the other greater. */
  lemma TimestampsCompare(t: Timestamp, u: Timestamp, v: Timestamp)
    ensures t.Greater(u) <==> u.Less(t)
    ensures t.Less(u) || t == u || u.Less(t)
    ensures t.Less(u) ==> t != u && !u.Less(t)
    ensures t.Less(u) && u.Less(v) ==> t.Less(v)
  {
  }

  datatype Item = Item(key: Key, values: Values, ts: Timestamp, trxKeys: set<Key>)

  /** Which of the servers keeps a key of this hash. */
  function ServerOf(hash: nat, servers: nat): (server: nat)
    requires servers > 0
    ensures server < servers
  {
    hash % servers
  }

  /** Counting up the hashes, servers take turns. */
  lemma ServersTakeTurns(hash: nat, servers: nat) returns (turns: nat)
    requires servers > 0
    ensures hash == turns * servers + ServerOf(hash, servers)
  {
    turns := hash / servers;
  }

  /** `Item()`: what a server returns for a version it does not have. */
  const EMPTY_ITEM := Item("", map[], ZERO, {})

  /** `Item(key)`: what a freshly handed-out slot holds. */
  function InitialItem(key: Key): Item {
    Item(key, map[], ZERO, {})
  }

  /** Lexicographic `<` on strings, the order in which lock-based clients visit keys. */
  predicate KeyLess(a: Key, b: Key) {
    if b == "" then false
    else if a == "" then true
    else if a[0] == b[0] then KeyLess(a[1..], b[1..])
    else a[0] < b[0]
  }

  /** The first `n` characters agree, and then `a` ends or has the smaller character. */
  predicate FirstDiffer(a: Key, b: Key, n: nat) {
    n <= |a| && n < |b| && a[..n] == b[..n] && (n == |a| || a[n] < b[n])
  }

  lemma {:induction false} KeyLessIffFirstDiffer(a: Key, b: Key)
    ensures KeyLess(a, b) <==> exists n: nat :: FirstDiffer(a, b, n)
  {
    if b != "" {
      if a == "" {
        assert FirstDiffer(a, b, 0);
      } else {
        KeyLessIffFirstDiffer(a[1..], b[1..]);
        forall n: nat
          ensures FirstDiffer(a, b, n) <==> if n == 0 then a[0] < b[0] else a[0] == b[0] && FirstDiffer(a[1..], b[1..], n - 1)
        {
          if 0 < n <= |a| && n <= |b| {
            assert a[..n] == [a[0]] + a[1..][..n - 1] && b[..n] == [b[0]] + b[1..][..n - 1];
          }
        }
        if n: nat :| FirstDiffer(a[1..], b[1..], n) && a[0] == b[0] {
          assert FirstDiffer(a, b, n + 1);
        }
        if a[0] < b[0] {
          assert FirstDiffer(a, b, 0);
        }
      }
    }
  }

  lemma KeyLessIrreflexive(a: Key)
    ensures !KeyLess(a, a)
  {
  }

  lemma {:induction false} KeyLessTransitive(a: Key, b: Key, c: Key)
    requires KeyLess(a, b) && KeyLess(b, c)
    ensures KeyLess(a, c)
  {
    if a != "" && a[0] == b[0] == c[0] {
      KeyLessTransitive(a[1..], b[1..], c[1..]);
    }
  }

  lemma {:induction false} KeyLessTotal(a: Key, b: Key)
    requires a != b
    ensures KeyLess(a, b) || KeyLess(b, a)
  {
    if a != "" && b != "" && a[0] == b[0] {
      assert a == [a[0]] + a[1..] && b == [b[0]] + b[1..];
      KeyLessTotal(a[1..], b[1..]);
    }
  }
}
