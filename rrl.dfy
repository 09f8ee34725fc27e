/** rrl.go's RateLimiter: a rolling-window limiter kept in a Redis sorted
    set. Each call prunes the entries that have left the window, reads what
    is left, records the caller's own entry whatever the outcome, refreshes
    the key's TTL, and then advises: 0 to go ahead, or how many milliseconds
    remain until the oldest entry leaves the window.

    The clock, the entropy source and the fate of the pipelined transaction
    are parameters of TimeLeft. Scores are integer microseconds; the range
    read is printed and parsed back by zparts, as rrl.go does. */
module Rrl {
  import opened Wrappers
  import opened GoInt
  import opened SortedSetStore
  import Uuid
  import Zparts

  /** The ways a call can fail: `rand.Read` failed, the pipeline's Exec
      failed, or (a runtime panic, not an error value) a slice was indexed
      out of range: `elements[0]` of an empty list, or a lone token in
      zparts. */
  datatype Failure = RandFailed | ExecFailed | IndexOutOfRange

  /** What happens to the MULTI/EXEC transaction: it runs and answers, it
      never reaches the store, or it runs and its answer is lost. */
  datatype Fault = Delivered | LostBeforeExec | LostAfterExec

  /** Go's `(int, error)` result; on an error the int is -1. */
  datatype Reply = Reply(millis: int, err: Option<Failure>)

  /** `now - intervalInMillis*1000` in int64 microseconds. */
  function ClearBefore(now: Int64, intervalInMillis: Int64): (clearBefore: Int64)
    ensures NoOverflow(now, intervalInMillis) ==> clearBefore == now - intervalInMillis * 1000
  {
    Wrap64(now - Wrap64(intervalInMillis * 1000))
  }

  /** Neither product nor difference in ClearBefore leaves int64. */
  predicate NoOverflow(now: int, intervalInMillis: int) {
    InRange64(intervalInMillis * 1000) && InRange64(now - intervalInMillis * 1000)
  }

  /** The TTL handed to EXPIRE: whole seconds, truncated toward zero. */
  function TtlSeconds(intervalInMillis: Int64): (secs: int)
    ensures intervalInMillis >= 0 ==> 0 <= secs * 1000 <= intervalInMillis < secs * 1000 + 1000
  {
    Quo(intervalInMillis, 1000)
  }

  /** ZREMRANGEBYSCORE key 0 clearBefore: what survives is every entry newer
      than clearBefore, and every entry with a negative score. */
  function Prune(z: ZSet, clearBefore: int): (w: ZSet)
    ensures forall m :: m in w ==> m in z && w[m] == z[m] && (w[m] < 0 || w[m] > clearBefore)
    ensures forall m :: m in z && (z[m] < 0 || z[m] > clearBefore) ==> m in w
  {
    RemoveRangeByScore(z, 0, clearBefore)
  }

  /** A non-empty set has an element to pick. */
  lemma HasElement(s: set<int>)
    requires s != {}
    ensures exists x :: x in s
  {
    if forall x :: x !in s {
      assert false;
    }
  }

  ghost function MinOf(s: set<int>): (low: int)
    requires s != {}
    ensures low in s && forall x :: x in s ==> low <= x
    decreases s
  {
    HasElement(s);
    var x :| x in s;
    var others := s - {x};
    assert forall y :: y in s ==> y == x || y in others;
    if others == {} then
      x
    else
      var rest := MinOf(others);
      if x <= rest then x else rest
  }

  /** The lowest score in a non-empty window. */
  ghost function Oldest(w: ZSet): (s: int)
    requires |w| > 0
    ensures exists m :: m in w && w[m] == s
    ensures forall m :: m in w ==> s <= w[m]
  {
    assert forall k :: k in w ==> w[k] in w.Values;
    MinOf(w.Values)
  }

  /** The advice TimeLeft gives from the window it read before recording
      the caller. */
  ghost function Decide(maxInInterval: int, clearBefore: int, w: ZSet): Reply
  {
    if |w| < maxInInterval then Reply(0, None)
    else if |w| == 0 then Reply(-1, Some(IndexOutOfRange))
    else Reply(Quo(Wrap64(Oldest(w) - clearBefore), 1000), None)
  }

  /** The window after a call that reached the store: pruned, then holding
      the caller's token at score `now`. */
  function Recorded(z: ZSet, clearBefore: int, now: int, token: string): (w: ZSet)
    ensures token in w && w[token] == now
    ensures forall m :: m in w && m != token ==> m in Prune(z, clearBefore) && w[m] == z[m]
    ensures forall m :: m in Prune(z, clearBefore) ==> m in w
  {
    Prune(z, clearBefore)[token := now]
  }

  /** The head of the score-ordered listing of a window is its oldest entry. */
  lemma HeadIsOldest(es: seq<Entry>, w: ZSet)
    requires SortedByScore(es) && Lists(es, w) && |es| > 0
    ensures es[0].score == Oldest(w)
  {
    var o := Oldest(w);
    var m :| m in w && w[m] == o;
    assert Entry(o, m) in es;
    var j :| 0 <= j < |es| && es[j] == Entry(o, m);
    assert es[0].score <= es[j].score;
    assert es[0].member in w;
  }

  /** The listing as `redis.Z` values, each score printed in decimal. */
  function PairsOf(es: seq<Entry>): seq<Zparts.Pair>
  {
    seq(|es|, i requires 0 <= i < |es| => Zparts.Pair(Zparts.Decimal(es[i].score), es[i].member))
  }

  /** The advice rrl.go computes from what zparts returned. */
  function Advice(maxInInterval: int, clearBefore: int, parsed: Result<seq<Zparts.Pair>, Zparts.Panic>): (r: Reply)
    ensures r.err.Some? <==> parsed.Err? || (|parsed.value| == 0 && maxInInterval <= 0)
    ensures r.err.Some? ==> r == Reply(-1, Some(IndexOutOfRange))
    ensures r.millis != 0 && r.err.None? ==> parsed.Ok? && |parsed.value| >= maxInInterval
  {
    match parsed
    case Err(_) => Reply(-1, Some(IndexOutOfRange))
    case Ok(elements) =>
      if |elements| < maxInInterval then Reply(0, None)
      else if |elements| == 0 then Reply(-1, Some(IndexOutOfRange))
      else Reply(Quo(Wrap64(Zparts.ParseScore(elements[0].score) - clearBefore), 1000), None)
  }

  /** Every member is a plain token, as rrl's own tokens are. */
  predicate PlainMembers(z: ZSet) {
    forall m :: m in z ==> Zparts.Plain(m)
  }

  /** For a key without a colon and a window of plain members, the advice
      rrl.go reads off the printed range reply is the decision on the
      window itself, whichever order ties are listed in. */
  lemma AdviceMatchesDecide(maxInInterval: int, clearBefore: int, key: string, es: seq<Entry>, w: ZSet)
    requires ':' !in key && PlainMembers(w)
    requires SortedByScore(es) && Lists(es, w)
    ensures Advice(maxInInterval, clearBefore, Zparts.Parse(Zparts.RangeReply(key, PairsOf(es)))) ==
      Decide(maxInInterval, clearBefore, w)
  {
    var ps := PairsOf(es);
    PairsPrintable(es, w);
    Zparts.ParseRangeReply(key, ps);
    if |es| > 0 {
      HeadIsOldest(es, w);
      Zparts.ParseDecimal(es[0].score);
    }
    AdviceOnWindow(maxInInterval, clearBefore, ps, w);
  }

  /** Advice on a list as long as the window, headed by its oldest score. */
  lemma AdviceOnWindow(maxInInterval: int, clearBefore: int, ps: seq<Zparts.Pair>, w: ZSet)
    requires |ps| == |w|
    requires |ps| > 0 ==> Zparts.ParseScore(ps[0].score) == Oldest(w)
    ensures Advice(maxInInterval, clearBefore, Ok(ps)) == Decide(maxInInterval, clearBefore, w)
  {
  }

  lemma PairsPrintable(es: seq<Entry>, w: ZSet)
    requires PlainMembers(w) && Lists(es, w)
    ensures forall i :: 0 <= i < |PairsOf(es)| ==> Zparts.Printable(PairsOf(es)[i])
  {
    forall i | 0 <= i < |es| ensures Zparts.Printable(PairsOf(es)[i]) {
      Zparts.DecimalPlain(es[i].score);
      assert es[i].member in w;
    }
  }

  /** rrl's tokens are plain, so a set only TimeLeft writes keeps plain members. */
  lemma RecordedStaysPlain(z: ZSet, clearBefore: int, now: int, b: Uuid.Block)
    requires PlainMembers(z)
    ensures PlainMembers(Recorded(z, clearBefore, now, Uuid.Format(b)))
  {
    var t := Uuid.Format(b);
    Uuid.FormatShape(b);
    forall i | 0 <= i < |t| ensures t[i] != ' ' && t[i] != ':' && t[i] != '{' && t[i] != '}' {
      if Uuid.IsDashPosition(i) {
        assert t[i] == '-';
      } else {
        assert Uuid.IsUpperHex(t[i]);
      }
    }
  }

  // ---------------------------------------------------------------------------
  // Properties of the decision

  /** A window pruned with clearBefore and kept in int64 range. */
  predicate Fresh(w: ZSet, clearBefore: int) {
    forall m :: m in w ==> clearBefore < w[m] && InRange64(w[m] - clearBefore)
  }

  /** The advice is "go ahead" exactly when fewer than maxInInterval entries
      were read, or when the oldest of them leaves the window within the
      next millisecond (the wait is truncated to whole milliseconds). It is
      a panic exactly when the window is empty and maxInInterval <= 0. */
  lemma DecisionRule(maxInInterval: int, clearBefore: int, w: ZSet)
    requires Fresh(w, clearBefore)
    ensures Decide(maxInInterval, clearBefore, w) == Reply(0, None) <==>
      |w| < maxInInterval || (|w| > 0 && Oldest(w) - clearBefore < 1000)
    ensures Decide(maxInInterval, clearBefore, w).err.Some? <==> |w| == 0 && maxInInterval <= 0
    ensures |w| >= maxInInterval && |w| > 0 ==>
      Decide(maxInInterval, clearBefore, w).millis == (Oldest(w) - clearBefore) / 1000
  {
    if |w| >= maxInInterval && |w| > 0 {
      var o := Oldest(w);
      var m :| m in w && w[m] == o;
      assert clearBefore < o && InRange64(o - clearBefore);
    }
  }

  /** With timestamps in [0, now], no overflow and a non-negative interval,
      a decided wait lies between 0 and intervalInMillis, and a positive
      maxInInterval always gives a decision. */
  lemma WaitWithinInterval(maxInInterval: int, now: Int64, intervalInMillis: Int64, z: ZSet)
    requires NoOverflow(now, intervalInMillis) && intervalInMillis >= 0
    requires forall m :: m in z ==> 0 <= z[m] <= now
    ensures var clearBefore := ClearBefore(now, intervalInMillis);
      var r := Decide(maxInInterval, clearBefore, Prune(z, clearBefore));
      && (maxInInterval >= 1 ==> r.err == None)
      && (r.err == None ==> 0 <= r.millis <= intervalInMillis)
  {
    var clearBefore := ClearBefore(now, intervalInMillis);
    assert clearBefore == now - intervalInMillis * 1000;
    var w := Prune(z, clearBefore);
    assert Fresh(w, clearBefore);
    DecisionRule(maxInInterval, clearBefore, w);
    if |w| >= maxInInterval && |w| > 0 {
      var o := Oldest(w);
      var m :| m in w && w[m] == o;
      assert o - clearBefore <= intervalInMillis * 1000;
    }
  }

  /** The caller's own entry is not in the window the decision counts: a
      call that is told to go ahead can leave maxInInterval entries behind,
      and one that is told to wait still leaves one more than it counted. */
  lemma CountExcludesCaller(z: ZSet, clearBefore: int, now: int, token: string)
    requires token !in z
    ensures |Recorded(z, clearBefore, now, token)| == |Prune(z, clearBefore)| + 1
  {
    assert token !in Prune(z, clearBefore);
  }

  /** One call of the scenario below: the window it reads and the state it
      leaves, for a window of 1000 ms. */
  lemma ScenarioStep(z: ZSet, now: Int64, token: string, w: ZSet, z': ZSet)
    requires NoOverflow(now, 1000)
    requires forall m :: m in z ==> (m in w <==> z[m] > now - 1_000_000)
    requires forall m :: m in w ==> m in z && w[m] == z[m]
    requires forall m :: m in z' <==> m in w || m == token
    requires token in z' && z'[token] == now
    requires forall m :: m in w && m != token ==> z'[m] == w[m]
    requires forall m :: m in z ==> z[m] >= 0
    ensures Prune(z, ClearBefore(now, 1000)) == w
    ensures Recorded(z, ClearBefore(now, 1000), now, token) == z'
  {
    var cb := ClearBefore(now, 1000);
    assert cb == now - 1_000_000;
    var p := Prune(z, cb);
    assert p.Keys == w.Keys;
    assert p == w;
    var r := Recorded(z, cb, now, token);
    assert r.Keys == z'.Keys;
  }

  /** A full window of two entries waits for the older one. */
  lemma DecideFullPair(clearBefore: int, a: string, x: int, b: string, y: int)
    requires a != b && x <= y && InRange64(x - clearBefore)
    ensures Decide(2, clearBefore, map[a := x, b := y]) == Reply(Quo(x - clearBefore, 1000), None)
  {
    var w := map[a := x, b := y];
    assert w.Keys == {a, b};
    assert |w| == 2;
    assert w[a] == x;
    assert Oldest(w) == x;
  }

  /** One call of the scenario below, for a window of 1000 ms and capacity
      2: the window it reads is w, the reply is expected, the state is z'. */
  ghost predicate ScenarioCall(z: ZSet, now: Int64, token: string, z': ZSet, expected: Reply) {
    var clearBefore := ClearBefore(now, 1000);
    && Decide(2, clearBefore, Prune(z, clearBefore)) == expected
    && Recorded(z, clearBefore, now, token) == z'
  }

  lemma ScenarioFirstCalls(t1: string, t2: string)
    requires t1 != t2
    ensures ScenarioCall(map[], 0, t1, map[t1 := 0], Reply(0, None))
    ensures ScenarioCall(map[t1 := 0], 100_000, t2, map[t1 := 0, t2 := 100_000], Reply(0, None))
  {
    var z1: ZSet := map[t1 := 0];
    ScenarioStep(map[], 0, t1, map[], z1);
    ScenarioStep(z1, 100_000, t2, z1, map[t1 := 0, t2 := 100_000]);
    assert |z1| == 1;
  }

  lemma ScenarioThirdCall(t1: string, t2: string, t3: string)
    requires t1 != t2 && t1 != t3 && t2 != t3
    ensures ScenarioCall(map[t1 := 0, t2 := 100_000], 200_000, t3,
      map[t1 := 0, t2 := 100_000, t3 := 200_000], Reply(800, None))
  {
    var z2: ZSet := map[t1 := 0, t2 := 100_000];
    ScenarioStep(z2, 200_000, t3, z2, map[t1 := 0, t2 := 100_000, t3 := 200_000]);
    DecideFullPair(ClearBefore(200_000, 1000), t1, 0, t2, 100_000);
  }

  lemma ScenarioFourthCall(t1: string, t2: string, t3: string, t4: string)
    requires t1 != t2 && t1 != t3 && t2 != t3 && t4 != t2 && t4 != t3
    ensures ScenarioCall(map[t1 := 0, t2 := 100_000, t3 := 200_000], 1_001_000, t4,
      map[t2 := 100_000, t3 := 200_000, t4 := 1_001_000], Reply(99, None))
  {
    var w4: ZSet := map[t2 := 100_000, t3 := 200_000];
    ScenarioStep(map[t1 := 0, t2 := 100_000, t3 := 200_000], 1_001_000, t4, w4, w4[t4 := 1_001_000]);
    DecideFullPair(ClearBefore(1_001_000, 1000), t2, 100_000, t3, 200_000);
  }

  /** The sequence of calls of a window of 1000 ms and capacity 2 at 0, 100,
      200 and 1001 ms: 0, 0, a wait of 800 ms, and, because the third call
      was recorded although it was told to wait, a wait of 99 ms. */
  lemma AdvisoryScenario(t1: string, t2: string, t3: string, t4: string)
    requires t1 != t2 && t1 != t3 && t2 != t3 && t4 != t2 && t4 != t3
    ensures var z1, z2, z3 := map[t1 := 0], map[t1 := 0, t2 := 100_000], map[t1 := 0, t2 := 100_000, t3 := 200_000];
      && ScenarioCall(map[], 0, t1, z1, Reply(0, None))
      && ScenarioCall(z1, 100_000, t2, z2, Reply(0, None))
      && ScenarioCall(z2, 200_000, t3, z3, Reply(800, None))
      && ScenarioCall(z3, 1_001_000, t4, map[t2 := 100_000, t3 := 200_000, t4 := 1_001_000], Reply(99, None))
  {
    ScenarioFirstCalls(t1, t2);
    ScenarioThirdCall(t1, t2, t3);
    ScenarioFourthCall(t1, t2, t3, t4);
  }

  class RateLimiter {
    const intervalInMillis: Int64
    const maxInInterval: Int64
    const client: Store

    /** NewRateLimiter: the configuration is taken as given, unchecked. */
    constructor (intervalInMillis: Int64, maxInInterval: Int64, client: Store)
      ensures this.intervalInMillis == intervalInMillis
      ensures this.maxInInterval == maxInInterval
      ensures this.client == client
    {
      this.intervalInMillis := intervalInMillis;
      this.maxInInterval := maxInInterval;
      this.client := client;
    }

    /** The four queued commands of TimeLeft, applied in order: prune the
        window, read it back sorted, record the caller, refresh the TTL. */
    method ExecPipeline(id: string, clearBefore: int, now: int, element: string) returns (elements: seq<Entry>)
      modifies client
      ensures SortedByScore(elements)
      ensures Lists(elements, Prune(old(client.Members(id)), clearBefore))
      ensures client.zsets == old(client.zsets)[id := Recorded(old(client.Members(id)), clearBefore, now, element)]
      ensures client.ttls == old(client.ttls)[id := TtlSeconds(intervalInMillis)]
    {
      ghost var window := Prune(client.Members(id), clearBefore);
      client.ZRemRangeByScore(id, 0, clearBefore);
      assert client.Members(id) == window;
      elements := client.ZRangeWithScores(id);
      client.ZAdd(id, now, element);
      assert client.zsets == old(client.zsets)[id := window[element := now]];
      var _ := client.Expire(id, TtlSeconds(intervalInMillis));
    }

    /** What follows Exec: print the range reply, parse it with zparts
        and advise from the parsed list. */
    method AdviseFrom(id: string, clearBefore: int, listing: seq<Entry>) returns (r: Reply)
      ensures r == Advice(maxInInterval, clearBefore, Zparts.Parse(Zparts.RangeReply(id, PairsOf(listing))))
    {
      var reply := Zparts.RangeReply(id, PairsOf(listing));
      var parsed := Zparts.ParseReply(reply);
      if parsed.Err? {
        return Reply(-1, Some(IndexOutOfRange));
      }
      var elements := parsed.value;
      if |elements| < maxInInterval {
        return Reply(0, None);
      }
      if |elements| == 0 {
        return Reply(-1, Some(IndexOutOfRange));
      }
      var timeleft := Quo(Wrap64(Zparts.ParseScore(elements[0].score) - clearBefore), 1000);
      return Reply(timeleft, None);
    }

    /** TimeLeft(id), with the microsecond clock reading `now`, the outcome
        of `rand.Read` and the fate of the transaction as parameters. */
    method TimeLeft(id: string, now: Int64, rand: Uuid.Entropy, fault: Fault) returns (r: Reply)
      modifies client
      ensures rand.ReadFailed? ==> r == Reply(-1, Some(RandFailed)) && unchanged(client)
      ensures rand.Random? && fault.LostBeforeExec? ==> r == Reply(-1, Some(ExecFailed)) && unchanged(client)
      ensures rand.Random? && !fault.LostBeforeExec? ==>
        var clearBefore := ClearBefore(now, intervalInMillis);
        && client.zsets == old(client.zsets)[id := Recorded(old(client.Members(id)), clearBefore, now, Uuid.Format(rand.bytes))]
        && client.ttls == old(client.ttls)[id := TtlSeconds(intervalInMillis)]
      ensures rand.Random? && fault.LostAfterExec? ==> r == Reply(-1, Some(ExecFailed))
      ensures rand.Random? && fault.Delivered? ==>
        var clearBefore := ClearBefore(now, intervalInMillis);
        exists es :: SortedByScore(es) && Lists(es, Prune(old(client.Members(id)), clearBefore)) &&
          r == Advice(maxInInterval, clearBefore, Zparts.Parse(Zparts.RangeReply(id, PairsOf(es))))
      ensures rand.Random? && fault.Delivered? && ':' !in id && PlainMembers(old(client.Members(id))) ==>
        var clearBefore := ClearBefore(now, intervalInMillis);
        r == Decide(maxInInterval, clearBefore, Prune(old(client.Members(id)), clearBefore))
      ensures rand.Random? && fault.Delivered? && ':' in id ==>
        r == Advice(maxInInterval, ClearBefore(now, intervalInMillis), Zparts.Parse(Zparts.RangeReply(id, [])))
    {
      var clearBefore := ClearBefore(now, intervalInMillis);
      var token := Uuid.NewToken(rand);
      if token.Err? {
        return Reply(-1, Some(RandFailed));
      }
      var element := token.value;
      assert element == Uuid.Format(rand.bytes);
      if fault.LostBeforeExec? {
        return Reply(-1, Some(ExecFailed));
      }
      ghost var window := Prune(client.Members(id), clearBefore);
      ghost var plain := PlainMembers(client.Members(id));
      var listing := ExecPipeline(id, clearBefore, now, element);
      if fault.LostAfterExec? {
        return Reply(-1, Some(ExecFailed));
      }
      r := AdviseFrom(id, clearBefore, listing);
      if ':' !in id && plain {
        AdviceMatchesDecide(maxInInterval, clearBefore, id, listing, window);
      }
      if ':' in id {
        Zparts.ColonInKeyIgnoresWindow(id, PairsOf(listing));
      }
      assert SortedByScore(listing) && Lists(listing, window);
    }
  }
}
