/**
 Payload selection (`collect_payload`): the greedy pass over the candidates, and the
 length-prefixed framing the block's transactions travel in.
 */
module Payload {
  import opened Primitives
  import opened Finite
  import opened Transactions
  import opened PoolModel
  import opened PoolInvariants

  // ----- Framing -----

  /** One transaction: its length as a little-endian u32 (cut to 32 bits), then its bytes. */
  function Frame(raw: Bytes): (f: Bytes)
    ensures |f| == 4 + |raw|
  {
    Le32(|raw| % TWO_32) + raw
  }

  function Encode(raws: seq<Bytes>): Bytes {
    if raws == [] then [] else Encode(raws[..|raws| - 1]) + Frame(raws[|raws| - 1])
  }

  /** The receiving side: read a length, then that many bytes, until nothing is left. */
  function Parse(b: Bytes): Option<seq<Bytes>> {
    if b == [] then Some([])
    else if |b| < 4 then None
    else
      var len := FromLe32(b[..4]);
      if |b| < 4 + len then None
      else
        match Parse(b[4 + len..])
        case Some(rest) => Some([b[4..4 + len]] + rest)
        case None => None
  }

  lemma Associate(a: Bytes, b: Bytes, c: Bytes)
    ensures (a + b) + c == a + (b + c)
  {
  }

  lemma {:induction false} EncodeFront(raw: Bytes, rest: seq<Bytes>)
    ensures Encode([raw] + rest) == Frame(raw) + Encode(rest)
    decreases |rest|
  {
    var all := [raw] + rest;
    if rest == [] {
      assert all[..|all| - 1] == [];
    } else {
      var front := rest[..|rest| - 1];
      assert all[..|all| - 1] == [raw] + front;
      EncodeFront(raw, front);
      Associate(Frame(raw), Encode(front), Frame(rest[|rest| - 1]));
    }
  }

  lemma ParseFront(raw: Bytes, b: Bytes)
    requires |raw| < TWO_32
    ensures Parse(Frame(raw) + b) == match Parse(b) case Some(rest) => Some([raw] + rest) case None => None
  {
    var f := Frame(raw) + b;
    Le32RoundTrip(|raw|);
    assert |raw| % TWO_32 == |raw|;
    assert f[..4] == Le32(|raw|);
    assert f[4..4 + |raw|] == raw;
    assert f[4 + |raw|..] == b;
  }

  /** Framing is lossless for transactions shorter than 4 GiB. */
  lemma {:induction false} FramingRoundTrip(raws: seq<Bytes>)
    requires forall i :: 0 <= i < |raws| ==> |raws[i]| < TWO_32
    ensures Parse(Encode(raws)) == Some(raws)
    decreases |raws|
  {
    if raws != [] {
      var rest := raws[1..];
      assert raws == [raws[0]] + rest;
      EncodeFront(raws[0], rest);
      FramingRoundTrip(rest);
      ParseFront(raws[0], Encode(rest));
    }
  }

  /** A frame is four bytes of length, the least significant first, and then the transaction itself. */
  lemma FrameIsLittleEndian(raw: Bytes)
    requires |raw| < TWO_32
    ensures var f := Frame(raw);
            var a: int, b: int, c: int, d: int := f[0], f[1], f[2], f[3];
            a + 256 * b + 65_536 * c + 16_777_216 * d == |raw| && f[4..] == raw
  {
    Le32IsLittleEndian(|raw|);
    FrameParts(raw);
  }

  lemma FrameParts(raw: Bytes)
    requires |raw| < TWO_32
    ensures forall i :: 0 <= i < 4 ==> Frame(raw)[i] == Le32(|raw|)[i]
    ensures Frame(raw)[4..] == raw
  {
    assert |raw| % TWO_32 == |raw|;
  }

  // ----- The greedy pass -----

  datatype Selection = Selection(payload: Bytes, gas: U64, taken: seq<PoolEntry>, full: bool)

  const NOTHING := Selection([], 0, [], false)

  /** One turn: stop for good on a byte overflow, skip on a gas overflow, otherwise append. */
  function Consider(sel: Selection, c: PoolEntry, maxBytes: nat, maxGas: U64): Selection {
    if sel.full then sel
    else if |sel.payload| + 4 + |c.Raw()| > maxBytes then sel.(full := true)
    else if maxGas > 0 && WrapAdd64(sel.gas, c.Gas()) > maxGas then sel
    else Selection(sel.payload + Frame(c.Raw()), WrapAdd64(sel.gas, c.Gas()), sel.taken + [c], false)
  }

  function Select(cs: seq<PoolEntry>, maxBytes: nat, maxGas: U64): Selection {
    if cs == [] then NOTHING
    else Consider(Select(cs[..|cs| - 1], maxBytes, maxGas), cs[|cs| - 1], maxBytes, maxGas)
  }

  function Raws(es: seq<PoolEntry>): (r: seq<Bytes>)
    ensures |r| == |es| && forall i :: 0 <= i < |es| ==> r[i] == es[i].Raw()
  {
    if es == [] then [] else Raws(es[..|es| - 1]) + [es[|es| - 1].Raw()]
  }

  function GasSum(es: seq<PoolEntry>): nat {
    if es == [] then 0 else GasSum(es[..|es| - 1]) + es[|es| - 1].Gas()
  }

  /** The candidates: the head of every sender with pending transactions, by falling tip. */
  ghost predicate IsCandidateOrder(p: Pool, cs: seq<PoolEntry>) {
    && (forall i :: 0 <= i < |cs| ==> HasPending(p, cs[i].Sender()) && cs[i] == Head(p.senders[cs[i].Sender()]))
    && (forall s :: HasPending(p, s) ==> s in SendersOf(cs))
    && DistinctSenders(cs)
    && FallingTips(cs)
  }

  /**
   The candidates in terms of the queues: the entry under the lowest pending nonce of every sender
   that has one, no sender twice, the higher tip first.
   */
  ghost predicate AreLowest(p: Pool, cs: seq<PoolEntry>) {
    && (forall i :: 0 <= i < |cs| ==>
          && cs[i].Sender() in p.senders && p.senders[cs[i].Sender()].pending != map[]
          && IsLowest(p.senders[cs[i].Sender()].pending, cs[i]))
    && (forall s :: s in p.senders && p.senders[s].pending != map[] ==>
          exists i :: 0 <= i < |cs| && cs[i].Sender() == s && IsLowest(p.senders[s].pending, cs[i]))
    && (forall i, j :: 0 <= i < j < |cs| ==> cs[i].Sender() != cs[j].Sender() && cs[i].tip >= cs[j].tip)
  }

  ghost predicate IsLowest(m: Lane, e: PoolEntry) {
    exists n :: n in m && m[n] == e && forall k :: k in m ==> n <= k
  }

  lemma CandidatesAreLowest(p: Pool, cs: seq<PoolEntry>)
    requires IsCandidateOrder(p, cs)
    ensures AreLowest(p, cs)
  {
    forall s | s in p.senders && p.senders[s].pending != map[]
      ensures IsLowest(p.senders[s].pending, Head(p.senders[s]))
      ensures exists i :: 0 <= i < |cs| && cs[i].Sender() == s && IsLowest(p.senders[s].pending, cs[i])
    {
      var m := p.senders[s].pending;
      assert MinKey(m) in m && m[MinKey(m)] == Head(p.senders[s]);
      assert HasPending(p, s);
      var i :| 0 <= i < |cs| && cs[i].Sender() == s;
    }
  }

  function SendersOf(es: seq<PoolEntry>): set<Address> {
    set i | 0 <= i < |es| :: es[i].Sender()
  }

  predicate DistinctSenders(cs: seq<PoolEntry>) {
    forall i, j :: 0 <= i < j < |cs| ==> cs[i].Sender() != cs[j].Sender()
  }

  predicate FallingTips(cs: seq<PoolEntry>) {
    forall i, j :: 0 <= i < j < |cs| ==> cs[i].tip >= cs[j].tip
  }

  /** The payload is the framing of what was taken, within the byte limit. */
  lemma {:induction false} PayloadFramesTaken(cs: seq<PoolEntry>, maxBytes: nat, maxGas: U64)
    ensures var sel := Select(cs, maxBytes, maxGas);
            sel.payload == Encode(Raws(sel.taken)) && |sel.payload| <= maxBytes
    decreases |cs|
  {
    if cs != [] {
      PayloadFramesTaken(cs[..|cs| - 1], maxBytes, maxGas);
      var before, c := Select(cs[..|cs| - 1], maxBytes, maxGas), cs[|cs| - 1];
      var all := before.taken + [c];
      assert all[..|all| - 1] == before.taken;
      assert Raws(all)[..|all| - 1] == Raws(before.taken);
      assert Encode(Raws(all)) == Encode(Raws(before.taken)) + Frame(c.Raw());
    }
  }

  lemma {:induction false} TakenAreShort(cs: seq<PoolEntry>, maxBytes: nat, maxGas: U64, i: nat)
    requires i < |Select(cs, maxBytes, maxGas).taken|
    ensures |Select(cs, maxBytes, maxGas).taken[i].Raw()| + 4 <= maxBytes
    decreases |cs|
  {
    var before := Select(cs[..|cs| - 1], maxBytes, maxGas);
    if i < |before.taken| {
      TakenAreShort(cs[..|cs| - 1], maxBytes, maxGas, i);
    }
  }

  /** Below 4 GiB the payload parses back to exactly the taken transactions, in order. */
  lemma PayloadParsesBack(cs: seq<PoolEntry>, maxBytes: nat, maxGas: U64)
    requires maxBytes < TWO_32 + 4
    ensures var sel := Select(cs, maxBytes, maxGas);
            Parse(sel.payload) == Some(Raws(sel.taken))
  {
    var sel := Select(cs, maxBytes, maxGas);
    PayloadFramesTaken(cs, maxBytes, maxGas);
    forall i | 0 <= i < |sel.taken|
      ensures |Raws(sel.taken)[i]| < TWO_32
    {
      TakenAreShort(cs, maxBytes, maxGas, i);
    }
    FramingRoundTrip(Raws(sel.taken));
  }

  /** What is taken keeps the candidates' order: senders stay distinct, tips keep falling. */
  lemma {:induction false} TakenKeepsOrder(cs: seq<PoolEntry>, maxBytes: nat, maxGas: U64)
    requires DistinctSenders(cs) && FallingTips(cs)
    ensures var taken := Select(cs, maxBytes, maxGas).taken;
            && DistinctSenders(taken) && FallingTips(taken)
            && forall i :: 0 <= i < |taken| ==> taken[i] in cs
    decreases |cs|
  {
    if cs != [] {
      var n := |cs| - 1;
      TakenKeepsOrder(cs[..n], maxBytes, maxGas);
      var before := Select(cs[..n], maxBytes, maxGas).taken;
      forall i | 0 <= i < |before|
        ensures before[i] in cs && before[i].Sender() != cs[n].Sender() && before[i].tip >= cs[n].tip
      {
        var j :| 0 <= j < n && cs[..n][j] == before[i];
        assert cs[j] == before[i];
      }
    }
  }

  // ----- What is left out, and why -----

  /** The byte test fails at the turn of candidate `i`. */
  predicate Overflows(cs: seq<PoolEntry>, maxBytes: nat, maxGas: U64, i: nat)
    requires i < |cs|
  {
    |Encode(Raws(Select(cs[..i], maxBytes, maxGas).taken))| + 4 + |cs[i].Raw()| > maxBytes
  }

  /** The gas test fails at the turn of candidate `i`. */
  predicate GasRefuses(cs: seq<PoolEntry>, maxBytes: nat, maxGas: U64, i: nat)
    requires i < |cs|
  {
    maxGas > 0 && Wrapped(GasSum(Select(cs[..i], maxBytes, maxGas).taken) + cs[i].Gas()) > maxGas
  }

  /** The running total is the sum of the gas limits taken, wrapped at 64 bits. */
  lemma {:induction false} GasIsWrapped(cs: seq<PoolEntry>, maxBytes: nat, maxGas: U64)
    ensures var sel := Select(cs, maxBytes, maxGas); sel.gas == Wrapped(GasSum(sel.taken))
    decreases |cs|
  {
    if cs != [] {
      var n := |cs| - 1;
      GasIsWrapped(cs[..n], maxBytes, maxGas);
      WrappedOneMore(Select(cs[..n], maxBytes, maxGas), cs[n], maxBytes, maxGas);
    }
  }

  lemma WrappedOneMore(sel: Selection, c: PoolEntry, maxBytes: nat, maxGas: U64)
    requires sel.gas == Wrapped(GasSum(sel.taken))
    ensures WrapAdd64(sel.gas, c.Gas()) == Wrapped(GasSum(sel.taken) + c.Gas())
    ensures var sel' := Consider(sel, c, maxBytes, maxGas); sel'.gas == Wrapped(GasSum(sel'.taken))
  {
    WrapIsSum(GasSum(sel.taken), c.Gas());
    GasOneMore(sel.taken, c);
  }

  lemma GasOneMore(es: seq<PoolEntry>, c: PoolEntry)
    ensures GasSum(es + [c]) == GasSum(es) + c.Gas()
  {
    assert (es + [c])[..|es|] == es;
  }

  lemma TurnOf(cs: seq<PoolEntry>, maxBytes: nat, maxGas: U64, i: nat)
    requires i < |cs|
    ensures Select(cs[..i + 1], maxBytes, maxGas) == Consider(Select(cs[..i], maxBytes, maxGas), cs[i], maxBytes, maxGas)
  {
    assert cs[..i + 1][..i] == cs[..i];
  }

  lemma TurnOverflows(cs: seq<PoolEntry>, maxBytes: nat, maxGas: U64, i: nat, j: nat)
    requires i < |cs| && j == i + 1
    ensures Select(cs[..j], maxBytes, maxGas).full
            <==> Select(cs[..i], maxBytes, maxGas).full || Overflows(cs, maxBytes, maxGas, i)
  {
    TurnOf(cs, maxBytes, maxGas, i);
    PayloadFramesTaken(cs[..i], maxBytes, maxGas);
  }

  /** The pass is over before turn `i` exactly when some earlier turn overflowed. */
  lemma {:induction false} FullMeansOverflowed(cs: seq<PoolEntry>, maxBytes: nat, maxGas: U64, i: nat)
    requires i <= |cs|
    ensures Select(cs[..i], maxBytes, maxGas).full <==> exists j: nat :: j < i && Overflows(cs, maxBytes, maxGas, j)
    decreases i
  {
    if i > 0 {
      FullMeansOverflowed(cs, maxBytes, maxGas, i - 1);
      TurnOverflows(cs, maxBytes, maxGas, i - 1, i);
    }
  }

  lemma OneMoreTaken(early: seq<PoolEntry>, sel: Selection, c: PoolEntry, maxBytes: nat, maxGas: U64)
    requires early <= sel.taken
    ensures var taken := Consider(sel, c, maxBytes, maxGas).taken;
            early <= taken && forall e :: e in taken ==> e in sel.taken || e == c
  {
  }

  lemma {:induction false} TakenOnlyGrows(cs: seq<PoolEntry>, maxBytes: nat, maxGas: U64, i: nat, j: nat)
    requires i <= j <= |cs|
    ensures Select(cs[..i], maxBytes, maxGas).taken <= Select(cs[..j], maxBytes, maxGas).taken
    ensures forall e :: e in Select(cs[..j], maxBytes, maxGas).taken ==>
              e in Select(cs[..i], maxBytes, maxGas).taken || exists k :: i <= k < j && cs[k] == e
    decreases j
  {
    if i < j {
      TakenOnlyGrows(cs, maxBytes, maxGas, i, j - 1);
      TurnOf(cs, maxBytes, maxGas, j - 1);
      OneMoreTaken(Select(cs[..i], maxBytes, maxGas).taken, Select(cs[..j - 1], maxBytes, maxGas), cs[j - 1], maxBytes, maxGas);
    }
  }

  lemma {:induction false} TakenComesFrom(cs: seq<PoolEntry>, maxBytes: nat, maxGas: U64, i: nat, e: PoolEntry)
    requires i <= |cs| && e in Select(cs[..i], maxBytes, maxGas).taken
    ensures exists k :: 0 <= k < i && cs[k] == e
  {
    assert cs[..0] == [];
    TakenOnlyGrows(cs, maxBytes, maxGas, 0, i);
  }

  lemma NotTakenEarly(cs: seq<PoolEntry>, maxBytes: nat, maxGas: U64, i: nat)
    requires DistinctSenders(cs) && i < |cs|
    ensures cs[i] !in Select(cs[..i], maxBytes, maxGas).taken
    ensures cs[i] in Select(cs, maxBytes, maxGas).taken <==> cs[i] in Select(cs[..i + 1], maxBytes, maxGas).taken
  {
    if cs[i] in Select(cs[..i], maxBytes, maxGas).taken {
      TakenComesFrom(cs, maxBytes, maxGas, i, cs[i]);
      assert false;
    }
    assert cs[..|cs|] == cs;
    TakenOnlyGrows(cs, maxBytes, maxGas, i + 1, |cs|);
  }

  lemma GasTest(cs: seq<PoolEntry>, maxBytes: nat, maxGas: U64, i: nat)
    requires i < |cs|
    ensures GasRefuses(cs, maxBytes, maxGas, i)
            <==> maxGas > 0 && WrapAdd64(Select(cs[..i], maxBytes, maxGas).gas, cs[i].Gas()) > maxGas
  {
    GasIsWrapped(cs[..i], maxBytes, maxGas);
    WrappedOneMore(Select(cs[..i], maxBytes, maxGas), cs[i], maxBytes, maxGas);
  }

  lemma TakenAtTurn(cs: seq<PoolEntry>, maxBytes: nat, maxGas: U64, i: nat)
    requires DistinctSenders(cs) && i < |cs|
    ensures cs[i] in Select(cs, maxBytes, maxGas).taken
            <==> !Select(cs[..i], maxBytes, maxGas).full && !Overflows(cs, maxBytes, maxGas, i) && !GasRefuses(cs, maxBytes, maxGas, i)
  {
    NotTakenEarly(cs, maxBytes, maxGas, i);
    GasTest(cs, maxBytes, maxGas, i);
    PayloadFramesTaken(cs[..i], maxBytes, maxGas);
    TurnOf(cs, maxBytes, maxGas, i);
  }

  /**
   A candidate is left out exactly when it failed the gas test at its turn, or stands at or after
   the first byte overflow.
   */
  lemma OmittedExactlyWhen(cs: seq<PoolEntry>, maxBytes: nat, maxGas: U64, i: nat)
    requires DistinctSenders(cs) && i < |cs|
    ensures cs[i] !in Select(cs, maxBytes, maxGas).taken
            <==> || GasRefuses(cs, maxBytes, maxGas, i)
                 || exists j: nat :: j <= i && Overflows(cs, maxBytes, maxGas, j)
  {
    TakenAtTurn(cs, maxBytes, maxGas, i);
    FullMeansOverflowed(cs, maxBytes, maxGas, i);
  }

  // ----- The gas limit -----

  /** No candidate's gas limit reaches past `cap`. */
  predicate GasCapped(cs: seq<PoolEntry>, cap: U64) {
    forall i :: 0 <= i < |cs| ==> cs[i].Gas() <= cap
  }

  /**
   No sum that a pass over `k` candidates capped at `cap` can form reaches 2^64: the running
   total before the last one is within the limit, and within the caps of the others.
   */
  predicate SumsFit(cap: U64, maxGas: U64, k: nat) {
    k == 0 || cap + Min(maxGas, Times(cap, k - 1)) < TWO_64
  }

  /** The sum of `n` gas limits of `cap`. */
  function Times(cap: U64, n: nat): nat {
    if n == 0 then 0 else Times(cap, n - 1) + cap
  }

  lemma {:induction false} TimesIsProduct(cap: U64, n: nat)
    ensures Times(cap, n) == cap * n
    decreases n
  {
    if n > 0 {
      TimesIsProduct(cap, n - 1);
      assert cap * n == cap * (n - 1) + cap;
    }
  }

  lemma {:induction false} TimesMono(cap: U64, m: nat, n: nat)
    requires m <= n
    ensures Times(cap, m) <= Times(cap, n)
    decreases n
  {
    if m < n {
      TimesMono(cap, m, n - 1);
    }
  }

  lemma BoundedTurn(sel: Selection, c: PoolEntry, maxBytes: nat, maxGas: U64, bound: nat, cap: U64)
    requires maxGas > 0 && IsExact(sel, Min(maxGas, bound))
    requires c.Gas() <= cap && cap + Min(maxGas, bound) < TWO_64
    ensures IsExact(Consider(sel, c, maxBytes, maxGas), Min(maxGas, bound + cap))
  {
    WrapIsExact(sel.gas, c.Gas());
    assert (sel.taken + [c])[..|sel.taken|] == sel.taken;
  }

  ghost predicate IsExact(sel: Selection, bound: nat) {
    sel.gas == GasSum(sel.taken) <= bound
  }

  lemma {:induction false} GasUpTo(cs: seq<PoolEntry>, maxBytes: nat, maxGas: U64, cap: U64, k: nat, i: nat)
    requires maxGas > 0 && i <= |cs| <= k && GasCapped(cs, cap) && SumsFit(cap, maxGas, k)
    ensures IsExact(Select(cs[..i], maxBytes, maxGas), Min(maxGas, Times(cap, i)))
    decreases i
  {
    if i > 0 {
      var n := i - 1;
      GasUpTo(cs, maxBytes, maxGas, cap, k, n);
      TimesMono(cap, n, k - 1);
      TurnOf(cs, maxBytes, maxGas, n);
      BoundedTurn(Select(cs[..n], maxBytes, maxGas), cs[n], maxBytes, maxGas, Times(cap, n), cap);
    }
  }

  /** While sums fit a u64, the running total is exact and within the limit. */
  lemma GasIsBounded(cs: seq<PoolEntry>, maxBytes: nat, maxGas: U64, cap: U64, k: nat)
    requires maxGas > 0 && |cs| <= k && GasCapped(cs, cap) && SumsFit(cap, maxGas, k)
    ensures var sel := Select(cs, maxBytes, maxGas);
            sel.gas == GasSum(sel.taken) <= maxGas
  {
    GasUpTo(cs, maxBytes, maxGas, cap, k, |cs|);
    assert cs[..|cs|] == cs;
  }
}
