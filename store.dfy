/** An in-memory stand-in for the Redis commands rrl.go issues: a key maps
    to a sorted set (each member once, with an integer score), and a key may
    carry a time-to-live in seconds. Time never passes here, so nothing
    expires; only the recorded TTL is modelled. */
module SortedSetStore {

  /** One member of a sorted set with its score. */
  datatype Entry = Entry(score: int, member: string)

  /** A sorted set: member to score. */
  type ZSet = map<string, int>

  predicate SortedByScore(es: seq<Entry>) {
    forall i, j :: 0 <= i < j < |es| ==> es[i].score <= es[j].score
  }

  /** `es` lists the members of `z` with their scores, each exactly once. */
  predicate Lists(es: seq<Entry>, z: ZSet) {
    && |es| == |z|
    && (forall i :: 0 <= i < |es| ==> es[i].member in z && z[es[i].member] == es[i].score)
    && (forall m :: m in z ==> Entry(z[m], m) in es)
  }

  /** ZREMRANGEBYSCORE on one set: the members whose score lies in
      [min, max], both ends included, are gone; the rest keep their scores. */
  function RemoveRangeByScore(z: ZSet, min: int, max: int): ZSet
  {
    map m | m in z && !(min <= z[m] <= max) :: z[m]
  }

  /** Places `e` into a score-ordered list, after the entries that score lower. */
  function InsertByScore(es: seq<Entry>, e: Entry): seq<Entry>
  {
    if es == [] || e.score <= es[0].score then [e] + es
    else [es[0]] + InsertByScore(es[1..], e)
  }

  /** The insertion adds `e` and keeps every entry of `es`. */
  lemma {:induction false} InsertByScorePermutes(es: seq<Entry>, e: Entry)
    ensures multiset(InsertByScore(es, e)) == multiset(es) + multiset{e}
  {
    if es != [] && e.score > es[0].score {
      InsertByScorePermutes(es[1..], e);
      assert es == [es[0]] + es[1..];
    }
  }

  /** Inserting into a score-ordered list keeps it ordered. */
  lemma {:induction false} InsertByScoreSorted(es: seq<Entry>, e: Entry)
    requires SortedByScore(es)
    ensures SortedByScore(InsertByScore(es, e))
    ensures InsertByScore(es, e)[0] == e || (es != [] && InsertByScore(es, e)[0] == es[0])
  {
    if es != [] && e.score > es[0].score {
      var tail := InsertByScore(es[1..], e);
      InsertByScoreSorted(es[1..], e);
      var r := [es[0]] + tail;
      assert forall k :: 0 <= k < |tail| ==> es[0].score <= tail[0].score <= tail[k].score;
      assert forall k :: 0 < k < |r| ==> r[k] == tail[k - 1];
    }
  }

  class Store {
    var zsets: map<string, ZSet>
    var ttls: map<string, int>

    constructor ()
      ensures zsets == map[] && ttls == map[]
    {
      zsets := map[];
      ttls := map[];
    }

    /** The set under `key`; a missing key reads as an empty set. */
    function Members(key: string): ZSet
      reads this
    {
      if key in zsets then zsets[key] else map[]
    }

    /** ZREMRANGEBYSCORE key min max. */
    method ZRemRangeByScore(key: string, min: int, max: int)
      modifies this
      ensures zsets == if key in old(zsets) then old(zsets)[key := RemoveRangeByScore(old(zsets)[key], min, max)] else old(zsets)
      ensures ttls == old(ttls)
    {
      if key in zsets {
        zsets := zsets[key := RemoveRangeByScore(zsets[key], min, max)];
      }
    }

    /** ZRANGE key 0 -1 WITHSCORES: every member with its score, lowest score first. */
    method ZRangeWithScores(key: string) returns (es: seq<Entry>)
      ensures SortedByScore(es)
      ensures Lists(es, Members(key))
    {
      var z := Members(key);
      var rest := z.Keys;
      es := [];
      while rest != {}
        invariant rest <= z.Keys
        invariant SortedByScore(es)
        invariant |es| == |z.Keys - rest|
        invariant forall x :: x in es <==> x.member in z.Keys - rest && z[x.member] == x.score
        decreases rest
      {
        var m :| m in rest;
        var next := InsertByScore(es, Entry(z[m], m));
        InsertByScoreSorted(es, Entry(z[m], m));
        InsertByScorePermutes(es, Entry(z[m], m));
        assert forall x :: x in next <==> x in es || x == Entry(z[m], m) by {
          forall x ensures x in next <==> x in es || x == Entry(z[m], m) {
            assert x in next <==> x in multiset(next);
            assert x in es <==> x in multiset(es);
          }
        }
        assert m !in z.Keys - rest;
        assert z.Keys - (rest - {m}) == (z.Keys - rest) + {m};
        es := next;
        rest := rest - {m};
      }
      assert z.Keys - rest == z.Keys;
    }

    /** ZADD key score member: adds the member, or moves it to the new score. */
    method ZAdd(key: string, score: int, member: string)
      modifies this
      ensures zsets == old(zsets)[key := old(Members(key))[member := score]]
      ensures ttls == old(ttls)
    {
      zsets := zsets[key := Members(key)[member := score]];
    }

    /** EXPIRE key seconds: records the TTL of an existing key; reports
        whether the key existed. */
    method Expire(key: string, seconds: int) returns (existed: bool)
      modifies this
      ensures existed == (key in old(zsets))
      ensures zsets == old(zsets)
      ensures ttls == if existed then old(ttls)[key := seconds] else old(ttls)
    {
      existed := key in zsets;
      if existed {
        ttls := ttls[key := seconds];
      }
    }
  }
}
