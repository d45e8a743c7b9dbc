/** The in-memory window of block hashes behind the BLOCKHASH opcode. */
module BlockHashes {
  import opened Primitives
  import opened Finite

  const WINDOW: nat := 256

  /** `recent` is `all` restricted to its largest numbers: WINDOW of them, or all if fewer. */
  predicate IsWindow(all: map<U64, Hash>, recent: map<U64, Hash>) {
    && (forall n :: n in recent ==> n in all && recent[n] == all[n])
    && |recent| == Min(WINDOW, |all|)
    && (forall n, m :: n in all && n !in recent && m in recent ==> n < m)
  }

  lemma EmptyWindow(none: map<U64, Hash>)
    requires none == map[]
    ensures IsWindow(none, none)
  {
  }

  /** Drop the oldest number once there are too many. */
  function Trim(recent: map<U64, Hash>): map<U64, Hash> {
    if |recent| > WINDOW then recent - {MinKey(recent)} else recent
  }

  /** A full window that takes in one more number drops the smallest. */
  lemma Slide(all: map<U64, Hash>, recent: map<U64, Hash>, number: U64, hash: Hash, oldest: U64)
    requires IsWindow(all, recent) && |recent| == WINDOW && number !in recent
    requires oldest == number || oldest in recent
    requires oldest <= number && forall m :: m in recent ==> oldest <= m
    ensures IsWindow(all[number := hash], recent[number := hash] - {oldest})
  {
    RemoveSize(recent[number := hash], oldest);
  }

  lemma RecordKeepsWindow(all: map<U64, Hash>, recent: map<U64, Hash>, number: U64, hash: Hash)
    requires IsWindow(all, recent)
    ensures IsWindow(all[number := hash], Trim(recent[number := hash]))
  {
    var grown := recent[number := hash];
    if |grown| > WINDOW {
      assert forall m :: m in recent ==> m in grown;
      assert number in grown;
      Slide(all, recent, number, hash, MinKey(grown));
    } else if |recent| < WINDOW {
      assert recent.Keys <= all.Keys;
      SubsetSize(recent.Keys, all.Keys);
    }
  }

  lemma RemoveSize(m: map<U64, Hash>, n: U64)
    requires n in m
    ensures |m - {n}| == |m| - 1
  {
    assert (m - {n}).Keys == m.Keys - {n};
  }

  // ----- Any sequence of records -----

  datatype Record = Record(number: U64, hash: Hash)

  function RecordedAfter(rs: seq<Record>): map<U64, Hash> {
    if rs == [] then map[]
    else RecordedAfter(rs[..|rs| - 1])[rs[|rs| - 1].number := rs[|rs| - 1].hash]
  }

  function RecentAfter(rs: seq<Record>): map<U64, Hash> {
    if rs == [] then map[]
    else Trim(RecentAfter(rs[..|rs| - 1])[rs[|rs| - 1].number := rs[|rs| - 1].hash])
  }

  /** After any records, in any order and with repeats, memory holds exactly the newest numbers on disk. */
  lemma {:induction false} WindowOnEveryRun(rs: seq<Record>)
    ensures IsWindow(RecordedAfter(rs), RecentAfter(rs))
    ensures |RecentAfter(rs)| == Min(256, |RecordedAfter(rs)|)
    decreases |rs|
  {
    if rs != [] {
      var front, last := rs[..|rs| - 1], rs[|rs| - 1];
      WindowOnEveryRun(front);
      RecordKeepsWindow(RecordedAfter(front), RecentAfter(front), last.number, last.hash);
    }
  }

  /** The window is determined by what was recorded. */
  lemma WindowIsUnique(all: map<U64, Hash>, a: map<U64, Hash>, b: map<U64, Hash>)
    requires IsWindow(all, a) && IsWindow(all, b)
    ensures a == b
  {
    if n :| n in a && n !in b {
      assert forall m :: m in b ==> m in a;
      assert b.Keys <= a.Keys;
      SubsetSize(b.Keys, a.Keys);
      assert false;
    }
    assert a.Keys <= b.Keys;
    SubsetSize(a.Keys, b.Keys);
  }
}
