/** A sorted-set adapter: one store sorted set under the key prefix,
    addressed two ways. A slice reads members by rank position, any other
    subscript reads a member's score. The `reversed` flag of the instance
    turns the default order around: it flips iteration and swaps `rank` and
    `revrank`. Serialisation is off and scores are integers. */
module RedisSortedSetModel {
  import opened Wrappers
  import opened Keys
  import opened RedisStore
  import LC = ListCommands
  import SE = SortedEntries

  /** The message of the KeyError raised for a member that is absent. */
  const NotAMember := "KeyError: member not in sorted set"

  /** The entries of the sorted set at key kp; a missing key is the empty
      set. */
  function ZSetAt(ks: Keyspace, kp: string): seq<SE.ZEntry> {
    if kp in ks && ks[kp].ZSet? then ks[kp].entries else []
  }

  /** The key holds a non-empty sorted set, each member once and in order,
      or nothing. */
  ghost predicate ZSetOk(ks: Keyspace, kp: string) {
    kp in ks ==> ks[kp].ZSet? && ks[kp].entries != [] && SE.ValidEntries(ks[kp].entries)
  }

  /** The score of the last pair that names m, if any pair does. */
  function LastScore(pairs: seq<(int, string)>, m: string): (r: Option<int>)
    ensures r.None? <==> forall i :: 0 <= i < |pairs| ==> pairs[i].1 != m
  {
    if pairs == [] then None
    else if pairs[|pairs| - 1].1 == m then Some(pairs[|pairs| - 1].0)
    else LastScore(pairs[..|pairs| - 1], m)
  }

  /** A member's position in the chosen order (ascending unless `desc`). */
  function RankIn(es: seq<SE.ZEntry>, desc: bool, m: string): (r: Option<nat>)
    ensures r.None? <==> m !in SE.Members(es)
    ensures r.Some? ==> r.value < |es| && SE.Ordered(es, desc)[r.value] == m
  {
    if desc then
      ReverseHasSame(SE.Members(es), m);
      SE.RevRank(es, m)
    else SE.Rank(es, m)
  }

  /** A sequence and its reverse hold the same elements. */
  lemma ReverseHasSame(s: seq<string>, m: string)
    ensures m in LC.Reverse(s) <==> m in s
  {
    if m in s {
      var i :| 0 <= i < |s| && s[i] == m;
      LC.ReverseAt(s, |s| - 1 - i);
    }
    if m in LC.Reverse(s) {
      var i :| 0 <= i < |s| && LC.Reverse(s)[i] == m;
      LC.ReverseAt(s, i);
    }
  }

  /** A member's rank in one order and in the other add up to size - 1,
      whichever order is the default. */
  lemma RankInSum(es: seq<SE.ZEntry>, desc: bool, m: string)
    requires SE.DistinctMembers(es) && m in SE.Members(es)
    ensures RankIn(es, desc, m).Some? && RankIn(es, !desc, m).Some?
    ensures RankIn(es, desc, m).value + RankIn(es, !desc, m).value == |es| - 1
  {
    SE.RankPlusRevRank(es, m);
  }

  /** With each member once, a member's rank is its position in the
      entries, and its reverse rank the mirrored position. */
  lemma RankIsPosition(es: seq<SE.ZEntry>, i: nat)
    requires SE.DistinctMembers(es) && i < |es|
    ensures RankIn(es, false, es[i].member) == Some(i)
    ensures RankIn(es, true, es[i].member) == Some(|es| - 1 - i)
  {
    var m := es[i].member;
    assert SE.Members(es)[i] == m;
    var r := RankIn(es, false, m);
    assert es[r.value].member == m;
    RankInSum(es, false, m);
  }

  /** ZADD of the pairs in order keeps the entries sorted with each member
      once. */
  lemma {:induction false} ZAddAllValid(es: seq<SE.ZEntry>, pairs: seq<(int, string)>)
    requires SE.ValidEntries(es)
    ensures SE.ValidEntries(ZAddAll(es, pairs).0)
    ensures pairs != [] ==> ZAddAll(es, pairs).0 != []
  {
    if pairs != [] {
      var prev := ZAddAll(es, pairs[..|pairs| - 1]);
      var p := pairs[|pairs| - 1];
      ZAddAllValid(es, pairs[..|pairs| - 1]);
      SE.ZAddValid(prev.0, p.1, p.0);
      assert SE.ZEntry(p.1, p.0) in ZAddAll(es, pairs).0;
    }
  }

  /** After ZADD every member named by a pair has the score of the last
      pair naming it; every other member keeps its score, or stays absent. */
  lemma {:induction false} ZAddAllScore(es: seq<SE.ZEntry>, pairs: seq<(int, string)>, m: string)
    requires SE.ValidEntries(es)
    ensures SE.Score(ZAddAll(es, pairs).0, m) ==
            if LastScore(pairs, m).Some? then LastScore(pairs, m) else SE.Score(es, m)
  {
    if pairs != [] {
      var init := pairs[..|pairs| - 1];
      var prev := ZAddAll(es, init);
      var p := pairs[|pairs| - 1];
      ZAddAllValid(es, init);
      if p.1 == m {
        SE.ZAddOwnScore(prev.0, m, p.0);
      } else {
        ZAddAllScore(es, init, m);
        SE.ZAddOtherScore(prev.0, p.1, p.0, m);
      }
    }
  }

  /** One ZADD grows the entries by one exactly when the member is new. */
  lemma ZAddSize(es: seq<SE.ZEntry>, m: string, score: int)
    ensures |SE.ZAdd(es, m, score)| == |es| + (if m in SE.Members(es) then 0 else 1)
  {
    match LC.FirstIndex(SE.Members(es), m)
    case None =>
    case Some(i) =>
      assert |SE.RemoveMember(es, m)| == |es| - 1;
  }

  /** The reply of ZADD, the number of new members, is how much the set
      grew. */
  lemma {:induction false} ZAddAllCount(es: seq<SE.ZEntry>, pairs: seq<(int, string)>)
    ensures |ZAddAll(es, pairs).0| == |es| + ZAddAll(es, pairs).1
  {
    if pairs != [] {
      var init := pairs[..|pairs| - 1];
      var p := pairs[|pairs| - 1];
      ZAddAllCount(es, init);
      ZAddSize(ZAddAll(es, init).0, p.1, p.0);
    }
  }

  /** ZADD of at least one pair on a key that holds a sorted set or nothing:
      the key holds the updated entries, the reply counts the new members,
      and no other key changes. */
  lemma ZAddEffect(ks: Keyspace, kp: string, pairs: seq<(int, string)>)
    requires (kp in ks ==> ks[kp].ZSet?) && pairs != []
    ensures Apply(ks, ZAdd(kp, pairs)) ==
            (ks[kp := ZSet(ZAddAll(ZSetAt(ks, kp), pairs).0)], Int(ZAddAll(ZSetAt(ks, kp), pairs).1))
  {
  }

  /** Storing sorted, distinct, non-empty entries keeps the key well formed. */
  lemma ZSetOkStore(ks: Keyspace, kp: string, es: seq<SE.ZEntry>)
    requires es != [] && SE.ValidEntries(es)
    ensures ZSetOk(ks[kp := ZSet(es)], kp) && ZSetAt(ks[kp := ZSet(es)], kp) == es
  {
  }

  /** The scores after ZADD of the pairs, for every member at once. */
  lemma ZAddAllScores(es: seq<SE.ZEntry>, pairs: seq<(int, string)>)
    requires SE.ValidEntries(es)
    ensures forall m :: SE.Score(ZAddAll(es, pairs).0, m) ==
              if LastScore(pairs, m).Some? then LastScore(pairs, m) else SE.Score(es, m)
  {
    forall m ensures SE.Score(ZAddAll(es, pairs).0, m) ==
                       if LastScore(pairs, m).Some? then LastScore(pairs, m) else SE.Score(es, m) {
      ZAddAllScore(es, pairs, m);
    }
  }

  /** Everything ZADD of at least one pair does to a well-formed key: it
      stays well formed and holds the updated entries, the reply is how
      much the set grew, and no other key changes. */
  lemma ZAddOutcome(ks: Keyspace, kp: string, pairs: seq<(int, string)>)
    requires ZSetOk(ks, kp) && pairs != []
    ensures var res := Apply(ks, ZAdd(kp, pairs));
            ZSetOk(res.0, kp) &&
            res.1 == Int(ZAddAll(ZSetAt(ks, kp), pairs).1) &&
            |ZSetAt(res.0, kp)| == |ZSetAt(ks, kp)| + ZAddAll(ZSetAt(ks, kp), pairs).1 &&
            ZSetAt(res.0, kp) == ZAddAll(ZSetAt(ks, kp), pairs).0 &&
            res.0 - {kp} == ks - {kp}
  {
    ZAddEffect(ks, kp, pairs);
    ZAddStored(ks, kp, pairs);
  }

  /** The keyspace ZADD leaves, without the command: the key holds the
      updated entries, well formed, grown by the count of new members. */
  lemma ZAddStored(ks: Keyspace, kp: string, pairs: seq<(int, string)>)
    requires ZSetOk(ks, kp) && pairs != []
    ensures var es := ZSetAt(ks, kp);
            var ks2 := ks[kp := ZSet(ZAddAll(es, pairs).0)];
            ZSetOk(ks2, kp) &&
            |ZSetAt(ks2, kp)| == |es| + ZAddAll(es, pairs).1 &&
            ZSetAt(ks2, kp) == ZAddAll(es, pairs).0 &&
            ks2 - {kp} == ks - {kp}
  {
    var es := ZSetAt(ks, kp);
    var added := ZAddAll(es, pairs);
    ZAddAllValid(es, pairs);
    ZAddAllCount(es, pairs);
    ZSetOkStore(ks, kp, added.0);
    assert ks[kp := ZSet(added.0)] - {kp} == ks - {kp};
  }

  /** ZREVRANK for the descending order, ZRANK for the ascending one. */
  function RankCommand(kp: string, desc: bool, m: string): Command {
    if desc then ZRevRank(kp, m) else ZRank(kp, m)
  }

  /** The rank command of an order answers the member's position in it. */
  lemma RankQuery(ks: Keyspace, kp: string, desc: bool, m: string)
    requires ZSetOk(ks, kp)
    ensures ReadOnly(RankCommand(kp, desc, m))
    ensures Apply(ks, RankCommand(kp, desc, m)).1 == Num(AsInt(RankIn(ZSetAt(ks, kp), desc, m)))
  {
  }

  class RedisSortedSet {
    const store: Store
    const prefix: string
    const name: string
    const keyPrefix: string
    /** Descending order by default. */
    const reversed: bool

    /** The entries held under the key prefix, in ascending order. */
    function Entries(): seq<SE.ZEntry>
      reads store
    {
      ZSetAt(store.state, keyPrefix)
    }

    ghost predicate Valid()
      reads store
    {
      keyPrefix == KeyPrefix(prefix, name) && ZSetOk(store.state, keyPrefix)
    }

    /** `RedisSortedSet(name, data, prefix, reversed=...)`: the pairs of
        `data` added. */
    constructor(store: Store, name: string, prefix: string, reversed: bool, data: seq<(int, string)>)
      requires ZSetOk(store.state, KeyPrefix(prefix, name))
      modifies store
      ensures this.store == store && this.name == name && this.prefix == prefix && this.reversed == reversed
      ensures Valid()
      ensures Entries() == ZAddAll(ZSetAt(old(store.state), KeyPrefix(prefix, name)), data).0
      ensures store.state - {keyPrefix} == old(store.state) - {keyPrefix}
    {
      this.store := store;
      this.name := name;
      this.prefix := prefix;
      this.reversed := reversed;
      keyPrefix := KeyPrefix(prefix, name);
      new;
      var _ := Add(data);
    }

    /** `add(score, member, ...)`: ZADD of the pairs, nothing when there are
        none. The reply is the number of members that were new. */
    method Add(pairs: seq<(int, string)>) returns (r: Option<int>)
      requires Valid()
      modifies store
      ensures Valid()
      ensures pairs == [] ==> r == None && store.state == old(store.state)
      ensures pairs != [] ==> r == Some(ZAddAll(old(Entries()), pairs).1)
      ensures |Entries()| == |old(Entries())| + ZAddAll(old(Entries()), pairs).1
      ensures Entries() == ZAddAll(old(Entries()), pairs).0
      ensures store.state - {keyPrefix} == old(store.state) - {keyPrefix}
    {
      if pairs == [] {
        return None;
      }
      ZAddOutcome(store.state, keyPrefix, pairs);
      var reply := store.Do(ZAdd(keyPrefix, pairs));
      r := Some(reply.n);
    }

    /** `z[member] = score`: add(score, member). */
    method SetItem(member: string, score: int) returns (r: Option<int>)
      requires Valid()
      modifies store
      ensures Valid()
      ensures r == Some(if member in SE.Members(old(Entries())) then 0 else 1)
      ensures SE.Score(Entries(), member) == Some(score)
      ensures forall m :: m != member ==> SE.Score(Entries(), m) == SE.Score(old(Entries()), m)
      ensures store.state - {keyPrefix} == old(store.state) - {keyPrefix}
    {
      ghost var es := Entries();
      var pairs := [(score, member)];
      assert ZAddAll(es, pairs).1 == if member in SE.Members(es) then 0 else 1 by {
        assert pairs[..0] == [];
      }
      r := Add(pairs);
      ZAddAllScore(es, pairs, member);
      forall m | m != member ensures SE.Score(Entries(), m) == SE.Score(es, m) {
        ZAddAllScore(es, pairs, m);
      }
    }

    /** `z[member]` with a member: its score by ZSCORE, or a KeyError. */
    method GetScore(member: string) returns (r: Result<int>)
      requires Valid()
      ensures r.Ok? <==> member in SE.Members(Entries())
      ensures r.Ok? ==> SE.Score(Entries(), member) == Some(r.value)
      ensures r.Err? ==> r.error == NotAMember
    {
      var reply := store.Query(ZScore(keyPrefix, member));
      match reply.num
      case None => r := Err(NotAMember);
      case Some(score) => r := Ok(score);
    }

    /** `member in z`: ZSCORE answers a score. */
    method Contains(member: string) returns (b: bool)
      requires Valid()
      ensures b <==> member in SE.Members(Entries())
    {
      var reply := store.Query(ZScore(keyPrefix, member));
      b := reply.num.Some?;
    }

    /** `len(z)` / `size`: ZCARD. */
    method Size() returns (r: int)
      requires Valid()
      ensures r == |Entries()|
    {
      var reply := store.Query(ZCard(keyPrefix));
      r := reply.n;
    }

    /** `rank(member)`: the position in the default order, so ZREVRANK when
        the set is reversed and ZRANK otherwise. */
    method Rank(member: string) returns (r: Option<int>)
      requires Valid()
      ensures r.None? <==> member !in SE.Members(Entries())
      ensures r.Some? ==> 0 <= r.value < |Entries()| && SE.Ordered(Entries(), reversed)[r.value] == member
      ensures r == AsInt(RankIn(Entries(), reversed, member))
    {
      RankQuery(store.state, keyPrefix, reversed, member);
      var reply := store.Query(RankCommand(keyPrefix, reversed, member));
      r := reply.num;
    }

    /** `revrank(member)`: the position in the opposite order, so ZRANK
        when the set is reversed and ZREVRANK otherwise. */
    method RevRank(member: string) returns (r: Option<int>)
      requires Valid()
      ensures r.None? <==> member !in SE.Members(Entries())
      ensures r.Some? ==> 0 <= r.value < |Entries()| && SE.Ordered(Entries(), !reversed)[r.value] == member
      ensures r == AsInt(RankIn(Entries(), !reversed, member))
    {
      RankQuery(store.state, keyPrefix, !reversed, member);
      var reply := store.Query(RankCommand(keyPrefix, !reversed, member));
      r := reply.num;
    }

    /** `iter(start, stop, reverse)`: ZRANGE of the inclusive window of
        positions, descending when `reverse` says so or, when it is not
        given, when the set is reversed. */
    method Iter(start: int, stop: int, reverse: Option<bool>) returns (r: seq<string>)
      requires Valid()
      ensures r == LC.LRange(SE.Ordered(Entries(), reverse.GetOr(reversed)), start, stop)
    {
      var desc := reverse.GetOr(reversed);
      var reply := store.Query(ZRange(keyPrefix, start, stop, desc));
      r := reply.items;
    }

    /** `z[start:stop]`: the members at those positions of the default
        order, with an explicit stop of 0 read as the empty slice. */
    method GetSlice(start: Option<int>, stop: Option<int>) returns (r: seq<string>)
      requires Valid()
      ensures r == LC.PySlice(SE.Ordered(Entries(), reversed), start, stop)
    {
      if stop == Some(0) {
        LC.PySliceZeroStop(SE.Ordered(Entries(), reversed), start);
        return [];
      }
      ghost var o := SE.Ordered(Entries(), reversed);
      LC.SliceAsWrittenAgrees(o, start, stop);
      assert LC.SliceAsWritten(o, start, stop) == LC.LRange(o, start.GetOr(0), stop.GetOr(0) - 1);
      r := Iter(start.GetOr(0), stop.GetOr(0) - 1, None);
    }
  }

  /** Iterating with the default bounds reads every member once, in the
      chosen order. */
  lemma IterAll(es: seq<SE.ZEntry>, desc: bool)
    ensures LC.LRange(SE.Ordered(es, desc), 0, -1) == SE.Ordered(es, desc)
  {
  }

  /** `z[:0]` as written: a stop of 0 is falsy, so the window becomes 0..-1,
      and on a one-member set ZRANGE answers that member where Python's
      slice is empty. */
  lemma SliceAsWrittenZeroStop(e: SE.ZEntry, desc: bool)
    ensures SE.Range([e], 0, -1, desc) == [e.member]
    ensures LC.PySlice(SE.Ordered([e], desc), None, Some(0)) == []
  {
    assert SE.Members([e]) == [e.member];
  }

  /** The eleven members of the rank test, in ascending order of score;
      the integer member 5 is stored as the text "5". */
  function RankTestEntries(): seq<SE.ZEntry> {
    [SE.ZEntry("hello", 1), SE.ZEntry("world", 2), SE.ZEntry("hello2", 3), SE.ZEntry("world2", 4),
     SE.ZEntry("hello3", 5), SE.ZEntry("world3", 6), SE.ZEntry("hello4", 7), SE.ZEntry("world4", 8),
     SE.ZEntry("hello5", 9), SE.ZEntry("world5", 10), SE.ZEntry("5", 11)]
  }

  /** On that set, "hello2" is third in ascending order and "hello4"
      seventh; a reversed set answers the mirrored positions, 8 for
      `rank("hello2")` and 6 for `revrank("hello4")`. */
  lemma RankTestExample()
    ensures RankIn(RankTestEntries(), false, "hello2") == Some(2)
    ensures RankIn(RankTestEntries(), true, "hello2") == Some(8)
    ensures RankIn(RankTestEntries(), false, "hello4") == Some(6)
    ensures RankIn(RankTestEntries(), true, "hello4") == Some(4)
  {
    RankTestHello2();
    RankTestHello4();
  }

  lemma RankTestHello2()
    ensures RankIn(RankTestEntries(), false, "hello2") == Some(2)
    ensures RankIn(RankTestEntries(), true, "hello2") == Some(8)
  {
    RankTestDistinct();
    RankIsPosition(RankTestEntries(), 2);
  }

  lemma RankTestHello4()
    ensures RankIn(RankTestEntries(), false, "hello4") == Some(6)
    ensures RankIn(RankTestEntries(), true, "hello4") == Some(4)
  {
    RankTestDistinct();
    RankIsPosition(RankTestEntries(), 6);
  }

  lemma RankTestDistinct()
    ensures SE.DistinctMembers(RankTestEntries())
  {
  }
}
