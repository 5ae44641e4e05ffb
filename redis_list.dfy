/** A list adapter: one store list under the key prefix, with Python's list
    operations built from the store's list commands. The store only inserts
    relative to a value, so `insert` and `pop(i)` address an index by
    overwriting it with a sentinel value first; `reverse`, `reverse_iter`
    and `iter` page through the list in windows. Serialisation is off: the
    stored strings are the items. */
module RedisListModel {
  import opened Wrappers
  import opened Numerals
  import opened Keys
  import opened RedisStore
  import LC = ListCommands

  /** The width of the windows `reverse` and `reverse_iter` read. */
  const Window := 1000

  function Min(a: int, b: int): int {
    if a < b then a else b
  }

  /** No key ending in ':' is a key prefix: stripping it again changes
      nothing, so the prefix of a structure nested under it is that prefix,
      a colon and the name. */
  lemma NestedKeyPrefix(kp: string, name: string)
    requires kp == [] || kp[|kp| - 1] != ':'
    requires name != [] && name[|name| - 1] != ':'
    ensures KeyPrefix(kp, name) == kp + ":" + name
  {
    KeyPrefixShape(kp, name);
  }

  /** The key of a temporary list named by a number, nested under a list's
      key prefix, is never that key prefix. */
  lemma TempKeyDiffers(prefix: string, name: string, id: nat)
    ensures KeyPrefix(KeyPrefix(prefix, name), Digits(id)) != KeyPrefix(prefix, name)
  {
    var kp := KeyPrefix(prefix, name);
    var d := Digits(id);
    assert IsDigit(d[|d| - 1]);
    NestedKeyPrefix(kp, d);
    assert |KeyPrefix(kp, d)| > |kp|;
  }

  /** The items of the list at key kp; a missing key is the empty list. */
  function ListAt(ks: Keyspace, kp: string): seq<string> {
    if kp in ks && ks[kp].List? then ks[kp].items else []
  }

  /** The key holds a non-empty list or nothing. */
  ghost predicate ListOk(ks: Keyspace, kp: string) {
    kp in ks ==> ks[kp].List? && ks[kp].items != []
  }

  /** Writing a list back: the key then holds exactly it, nothing else
      changes. */
  lemma PutListEffect(ks: Keyspace, kp: string, t: seq<string>)
    ensures ListOk(PutList(ks, kp, t), kp) && ListAt(PutList(ks, kp, t), kp) == t
    ensures PutList(ks, kp, t) - {kp} == ks - {kp}
  {
  }

  /** LINDEX on a list key: the item at that position, if there is one. */
  lemma LIndexEffect(ks: Keyspace, kp: string, i: int)
    requires ListOk(ks, kp)
    ensures Apply(ks, LIndex(kp, i)) == (ks, Bulk(LC.LIndex(ListAt(ks, kp), i)))
  {
  }

  /** LSET on a list key: the position overwritten, or the error when the
      index is out of range or the list is missing. */
  lemma LSetEffect(ks: Keyspace, kp: string, i: int, v: string)
    requires ListOk(ks, kp)
    ensures var s := ListAt(ks, kp);
            var res := Apply(ks, LSet(kp, i, v));
            if -|s| <= i < |s| then res == (ks[kp := List(s[LC.Normalize(|s|, i) := v])], Done)
            else res == (ks, Error(if s == [] then NoSuchKey else OutOfRange))
  {
  }

  /** LREM on a list key: the list with the removals written back. */
  lemma LRemEffect(ks: Keyspace, kp: string, count: int, v: string)
    requires ListOk(ks, kp)
    ensures Apply(ks, LRem(kp, count, v)).0 == PutList(ks, kp, LC.LRem(ListAt(ks, kp), count, v))
  {
    if kp !in ks {
      assert ks - {kp} == ks;
    }
  }

  /** LRANGE on a list key: the window of the list. */
  lemma LRangeEffect(ks: Keyspace, kp: string, start: int, stop: int)
    requires ListOk(ks, kp)
    ensures Apply(ks, LRange(kp, start, stop)) == (ks, Items(LC.LRange(ListAt(ks, kp), start, stop)))
  {
  }

  /** LINSERT BEFORE a pivot that is in the list: the new list and its
      length. */
  lemma LInsertEffect(ks: Keyspace, kp: string, pivot: string, v: string)
    requires ListOk(ks, kp) && pivot in ListAt(ks, kp)
    ensures var t := LC.LInsertBefore(ListAt(ks, kp), pivot, v).value;
            Apply(ks, LInsertBefore(kp, pivot, v)) == (ks[kp := List(t)], Int(|t|))
  {
  }

  /** LPOP (head) and RPOP on a list key. */
  lemma PopEffect(ks: Keyspace, kp: string, head: bool)
    requires ListOk(ks, kp)
    ensures var s := ListAt(ks, kp);
            var res := Apply(ks, if head then LPop(kp) else RPop(kp));
            if s == [] then res == (ks, Bulk(None))
            else res == (PutList(ks, kp, if head then s[1..] else s[..|s| - 1]),
                         Bulk(Some(if head then s[0] else s[|s| - 1])))
  {
  }

  /** The pipeline of `insert` on the list with the sentinel at position j:
      the value and the old occupant both go before the sentinel, and the
      first LINSERT answers the length after it. */
  lemma InsertPipeline(ks: Keyspace, kp: string, s: seq<string>, j: nat, v: string, u: string)
    requires j < |s| && u !in s && u != v
    requires kp in ks && ks[kp] == List(s[j := u])
    ensures var run := Run(ks, [LInsertBefore(kp, u, v), LInsertBefore(kp, u, s[j])]);
            run.1[0] == Int(|s| + 1) &&
            run.0 == ks[kp := List(s[..j] + [v, s[j], u] + s[j + 1..])]
  {
    var ks2 := ks[kp := List(s[..j] + [v, u] + s[j + 1..])];
    FirstSentinelInsert(ks, kp, s, j, v, u);
    SecondSentinelInsert(ks2, kp, s, j, v, u);
    assert ks2[kp := List(s[..j] + [v, s[j], u] + s[j + 1..])] == ks[kp := List(s[..j] + [v, s[j], u] + s[j + 1..])];
    RunTwo(ks, LInsertBefore(kp, u, v), LInsertBefore(kp, u, s[j]));
  }

  lemma FirstSentinelInsert(ks: Keyspace, kp: string, s: seq<string>, j: nat, v: string, u: string)
    requires j < |s| && u !in s && u != v
    requires kp in ks && ks[kp] == List(s[j := u])
    ensures Apply(ks, LInsertBefore(kp, u, v)) == (ks[kp := List(s[..j] + [v, u] + s[j + 1..])], Int(|s| + 1))
  {
    LC.FreshAroundIndex(s, j, u);
    LC.SentinelFirstInsert(s, j, v, u);
  }

  lemma SecondSentinelInsert(ks: Keyspace, kp: string, s: seq<string>, j: nat, v: string, u: string)
    requires j < |s| && u !in s && u != v
    requires kp in ks && ks[kp] == List(s[..j] + [v, u] + s[j + 1..])
    ensures Apply(ks, LInsertBefore(kp, u, s[j])).0 == ks[kp := List(s[..j] + [v, s[j], u] + s[j + 1..])]
  {
    LC.FreshAroundIndex(s, j, u);
    LC.SentinelSecondInsert(s, j, v, u);
  }

  /** The sentinel removed after `insert`'s pipeline: the value at position
      j, the old occupant after it. */
  lemma InsertCleanup(ks: Keyspace, kp: string, s: seq<string>, j: nat, v: string, u: string)
    requires j < |s| && u !in s && u != v
    requires kp in ks && ks[kp] == List(s[..j] + [v, s[j], u] + s[j + 1..])
    ensures var fin := Apply(ks, LRem(kp, 0, u)).0;
            ListOk(fin, kp) && ListAt(fin, kp) == s[..j] + [v] + s[j..] && fin - {kp} == ks - {kp}
  {
    LC.SentinelInsert(s, j, v, u);
    LRemEffect(ks, kp, 0, u);
    PutListEffect(ks, kp, s[..j] + [v] + s[j..]);
  }

  /** Everything `insert` sends after the sentinel was written at position
      j: the two LINSERTs, whose first reply is the new length, then the
      LREM of the sentinel. The list gains the value at position j and no
      other key changes. */
  lemma InsertRest(ks: Keyspace, kp: string, s: seq<string>, j: nat, v: string, u: string)
    requires j < |s| && u !in s && u != v
    requires kp in ks && ks[kp] == List(s[j := u])
    ensures var run := Run(ks, [LInsertBefore(kp, u, v), LInsertBefore(kp, u, s[j])]);
            var fin := Apply(run.0, LRem(kp, 0, u)).0;
            run.1[0] == Int(|s| + 1) &&
            ListOk(fin, kp) && ListAt(fin, kp) == s[..j] + [v] + s[j..] && fin - {kp} == ks - {kp}
  {
    InsertPipeline(ks, kp, s, j, v, u);
    var ks3 := ks[kp := List(s[..j] + [v, s[j], u] + s[j + 1..])];
    InsertCleanup(ks3, kp, s, j, v, u);
    assert ks3 - {kp} == ks - {kp};
  }

  /** The whole of `insert` at an index in range, from the keyspace it
      starts on: LINDEX reads the occupant, LSET writes the sentinel over
      it, the two LINSERTs answer the new length first, and LREM leaves the
      value at the normalised index with nothing else changed. */
  lemma InsertOutcome(ks: Keyspace, kp: string, i: int, v: string, u: string)
    requires ListOk(ks, kp) && u !in ListAt(ks, kp) && u != v
    requires -|ListAt(ks, kp)| <= i < |ListAt(ks, kp)|
    ensures var s := ListAt(ks, kp);
            var j := LC.Normalize(|s|, i);
            var got := Apply(ks, LIndex(kp, i)).1;
            var w := Apply(ks, LSet(kp, i, u));
            w.1 == Done && got.Bulk? && got.value.Some? &&
            var run := Run(w.0, [LInsertBefore(kp, u, v), LInsertBefore(kp, u, got.value.value)]);
            var fin := Apply(run.0, LRem(kp, 0, u)).0;
            run.1[0] == Int(|s| + 1) &&
            ListOk(fin, kp) && ListAt(fin, kp) == s[..j] + [v] + s[j..] && fin - {kp} == ks - {kp}
  {
    var s := ListAt(ks, kp);
    var j := LC.Normalize(|s|, i);
    LIndexEffect(ks, kp, i);
    LSetEffect(ks, kp, i, u);
    var ks1 := ks[kp := List(s[j := u])];
    InsertRest(ks1, kp, s, j, v, u);
    assert ks1 - {kp} == ks - {kp};
  }

  /** The sentinel removed after `pop(i)` overwrote position j with it:
      exactly position j is gone. */
  lemma PopCleanup(ks: Keyspace, kp: string, s: seq<string>, j: nat, u: string)
    requires j < |s| && u !in s
    requires kp in ks && ks[kp] == List(s[j := u])
    ensures var fin := Apply(ks, LRem(kp, 0, u)).0;
            ListOk(fin, kp) && ListAt(fin, kp) == s[..j] + s[j + 1..] && fin - {kp} == ks - {kp}
  {
    LC.SentinelDelete(s, j, u);
    LRemEffect(ks, kp, 0, u);
    PutListEffect(ks, kp, s[..j] + s[j + 1..]);
  }

  /** One window of `iter`: an empty window starts at or past the end, and
      from a start at or after the head the window continues what was
      yielded so far. */
  lemma IterWindow(s: seq<string>, start: int, first: int, count: int, r: seq<string>)
    requires count >= 0
    requires start >= 0 ==> start <= first && r == s[Min(start, |s|)..Min(first, |s|)]
    ensures var w := LC.LRange(s, first, first + count);
            (w != [] ==> first < |s|) &&
            (start >= 0 ==> r + w == s[Min(start, |s|)..Min(first + (count + 1), |s|)])
  {
    var w := LC.LRange(s, first, first + count);
    if w != [] {
      LC.NonEmptyWindowStart(s, first, first + count);
    }
    if start >= 0 {
      LC.ForwardWindow(s, first, first + count);
      if first < |s| {
        assert s[Min(start, |s|)..first] + s[first..Min(first + count + 1, |s|)] == s[Min(start, |s|)..Min(first + count + 1, |s|)];
      }
    }
  }

  /** The whole of `pop(i)` at an index in range other than the head
      shortcut, from the keyspace it starts on: LINDEX reads the item, LSET
      writes the sentinel over it, and LREM leaves the list without that
      position and every other key as it was. */
  lemma PopAtOutcome(ks: Keyspace, kp: string, i: int, u: string)
    requires ListOk(ks, kp) && u !in ListAt(ks, kp)
    requires -|ListAt(ks, kp)| <= i < |ListAt(ks, kp)|
    ensures var s := ListAt(ks, kp);
            var j := LC.Normalize(|s|, i);
            var w := Apply(ks, LSet(kp, i, u));
            var fin := Apply(w.0, LRem(kp, 0, u)).0;
            w.1 == Done && Apply(ks, LIndex(kp, i)).1 == Bulk(Some(s[j])) &&
            ListOk(fin, kp) && ListAt(fin, kp) == s[..j] + s[j + 1..] && fin - {kp} == ks - {kp}
  {
    var s := ListAt(ks, kp);
    var j := LC.Normalize(|s|, i);
    LIndexEffect(ks, kp, i);
    LSetEffect(ks, kp, i, u);
    var ks1 := ks[kp := List(s[j := u])];
    PopCleanup(ks1, kp, s, j, u);
    assert ks1 - {kp} == ks - {kp};
  }

  /** RENAME of the temporary list over the list at kp when the temporary
      key was fresh before the windows were appended to it: with nothing
      appended the RENAME fails and the keyspace is as it was; otherwise kp
      holds the appended items, the temporary key is gone, and nothing
      else changed. */
  lemma RenameEffect(before: Keyspace, st: Keyspace, tmpKey: string, kp: string)
    requires before - {tmpKey} == st - {tmpKey} && tmpKey !in st && tmpKey != kp
    requires ListOk(before, tmpKey)
    ensures var res := Apply(before, Rename(tmpKey, kp));
            if ListAt(before, tmpKey) == [] then res == (st, Error(NoSuchKey))
            else res.1 == Done && res.0 - {kp} == st - {kp} && tmpKey !in res.0 &&
                 ListOk(res.0, kp) && ListAt(res.0, kp) == ListAt(before, tmpKey)
  {
    var res := Apply(before, Rename(tmpKey, kp));
    if tmpKey !in before {
      assert before == before - {tmpKey} && st == st - {tmpKey};
    } else {
      forall k | k != kp ensures (k in res.0 <==> k in st) && (k in res.0 ==> res.0[k] == st[k]) {
        if k != tmpKey {
          MinusAgree(before, st, {tmpKey}, k);
        }
      }
      assert res.0 - {kp} == st - {kp};
    }
  }

  /** Deleting a key that is already gone changes nothing. */
  lemma AbsentKeyUnchanged(a: Keyspace, b: Keyspace, k: string)
    requires a - {k} == b - {k} && k !in a && k !in b
    ensures a == b
  {
    assert a == a - {k} && b == b - {k};
  }

  class RedisList {
    const store: Store
    const prefix: string
    const name: string
    const keyPrefix: string

    /** The items of the list; a missing key is the empty list. */
    function Contents(): seq<string>
      reads store
    {
      ListAt(store.state, keyPrefix)
    }

    /** The key holds a list or nothing; the store never keeps an empty
        list. */
    ghost predicate Valid()
      reads store
    {
      keyPrefix == KeyPrefix(prefix, name) && ListOk(store.state, keyPrefix)
    }

    /** `RedisList(name, data, prefix)`: the list extended with `data`. */
    constructor(store: Store, name: string, prefix: string, data: seq<string>)
      requires var kp := KeyPrefix(prefix, name);
               kp in store.state ==> store.state[kp].List? && store.state[kp].items != []
      modifies store
      ensures this.store == store && this.name == name && this.prefix == prefix
      ensures Valid()
      ensures var kp := KeyPrefix(prefix, name);
              Contents() == (if kp in old(store.state) then old(store.state)[kp].items else []) + data
      ensures store.state - {keyPrefix} == old(store.state) - {keyPrefix}
    {
      this.store := store;
      this.name := name;
      this.prefix := prefix;
      keyPrefix := KeyPrefix(prefix, name);
      new;
      Extend(data);
    }

    /** `l.extend(items)`: RPUSH of the items, nothing when there are none. */
    method Extend(items: seq<string>)
      requires Valid()
      modifies store
      ensures Valid()
      ensures Contents() == old(Contents()) + items
      ensures store.state - {keyPrefix} == old(store.state) - {keyPrefix}
    {
      if items != [] {
        var st := store.state;
        var _ := store.Do(RPush(keyPrefix, items));
        assert store.state == st[keyPrefix := List(Contents())];
      }
    }

    /** `len(l)`: LLEN. */
    method Size() returns (r: int)
      requires Valid()
      ensures r == |Contents()|
    {
      var reply := store.Query(LLen(keyPrefix));
      r := reply.n;
    }

    /** `l[index]` with an integer: LINDEX, nothing when out of range. */
    method GetItem(index: int) returns (r: Option<string>)
      requires Valid()
      ensures r.Some? <==> -|Contents()| <= index < |Contents()|
      ensures r.Some? ==> r.value == Contents()[LC.Normalize(|Contents()|, index)]
    {
      var reply := store.Query(LIndex(keyPrefix, index));
      r := reply.value;
    }

    /** LRANGE of the list's key: the inclusive window [start, stop]. */
    method ReadRange(start: int, stop: int) returns (w: seq<string>)
      requires Valid()
      ensures w == LC.LRange(Contents(), start, stop)
    {
      LRangeEffect(store.state, keyPrefix, start, stop);
      var reply := store.Query(LRange(keyPrefix, start, stop));
      w := reply.items;
    }

    /** `l[start:stop]`: LRANGE from `start or 0` to `(stop or 0) - 1`,
        with an explicit stop of 0 read as the empty slice. */
    method GetSlice(start: Option<int>, stop: Option<int>) returns (r: seq<string>)
      requires Valid()
      ensures r == LC.PySlice(Contents(), start, stop)
    {
      if stop == Some(0) {
        LC.PySliceZeroStop(Contents(), start);
        return [];
      }
      LC.SliceAsWrittenAgrees(Contents(), start, stop);
      r := ReadRange(start.GetOr(0), stop.GetOr(0) - 1);
    }

    /** `l[index] = value`: LSET; out of range (or on a missing list) the
        store's error is raised and nothing changes. */
    method SetItem(index: int, value: string) returns (r: Result<()>)
      requires Valid()
      modifies store
      ensures Valid()
      ensures var s := old(Contents());
              if -|s| <= index < |s| then r == Ok(()) && Contents() == s[LC.Normalize(|s|, index) := value]
              else r == Err(if s == [] then NoSuchKey else OutOfRange) && store.state == old(store.state)
      ensures store.state - {keyPrefix} == old(store.state) - {keyPrefix}
    {
      var reply := store.Do(LSet(keyPrefix, index, value));
      if reply.Error? {
        r := Err(reply.message);
      } else {
        r := Ok(());
      }
    }

    /** `l.remove(item, count)`: LREM. */
    method Remove(item: string, count: int)
      requires Valid()
      modifies store
      ensures Valid()
      ensures Contents() == LC.LRem(old(Contents()), count, item)
      ensures store.state - {keyPrefix} == old(store.state) - {keyPrefix}
    {
      var _ := store.Do(LRem(keyPrefix, count, item));
    }

    /** `l.clear()`: DEL of the list's key; the reply counts the keys
        removed. */
    method Clear() returns (r: int)
      requires Valid()
      modifies store
      ensures Valid() && Contents() == [] && keyPrefix !in store.state
      ensures r == if old(Contents()) == [] then 0 else 1
      ensures store.state - {keyPrefix} == old(store.state) - {keyPrefix}
    {
      var reply := store.Do(Del([keyPrefix]));
      var gone := set k | k in [keyPrefix] && k in old(store.state);
      assert keyPrefix in old(store.state) ==> gone == {keyPrefix};
      assert keyPrefix !in old(store.state) ==> gone == {};
      r := reply.n;
    }

    /** `l.pop()`: RPOP; `l.pop(0)`: LPOP; `l.pop(i)` otherwise: read
        position i, overwrite it with the sentinel, remove every copy of the
        sentinel. With a sentinel not in the list exactly position i goes;
        an index out of range raises (for `pop()` and `pop(0)` on an empty
        list the answer is None). */
    method Pop(index: Option<int>, sentinel: string) returns (r: Result<Option<string>>)
      requires Valid()
      requires index.Some? && index.value != 0 ==> sentinel !in Contents()
      modifies store
      ensures Valid()
      ensures var s := old(Contents());
              var i := index.GetOr(-1);
              if -|s| <= i < |s| then
                var j := LC.Normalize(|s|, i);
                r == Ok(Some(s[j])) && Contents() == s[..j] + s[j + 1..]
              else
                store.state == old(store.state) &&
                r == (if index.None? || index == Some(0) then Ok(None)
                      else Err(if s == [] then NoSuchKey else OutOfRange))
      ensures store.state - {keyPrefix} == old(store.state) - {keyPrefix}
    {
      var s := Contents();
      var st := store.state;
      if index.None? {
        PopEffect(st, keyPrefix, false);
        if s != [] {
          PutListEffect(st, keyPrefix, s[..|s| - 1]);
        }
        var reply := store.Do(RPop(keyPrefix));
        r := Ok(reply.value);
      } else if index.value == 0 {
        PopEffect(st, keyPrefix, true);
        if s != [] {
          PutListEffect(st, keyPrefix, s[1..]);
        }
        var reply := store.Do(LPop(keyPrefix));
        r := Ok(reply.value);
      } else {
        var got := store.Query(LIndex(keyPrefix, index.value));
        LSetEffect(st, keyPrefix, index.value, sentinel);
        var written := store.Do(LSet(keyPrefix, index.value, sentinel));
        if written.Error? {
          return Err(written.message);
        }
        PopAtOutcome(st, keyPrefix, index.value, sentinel);
        var _ := store.Do(LRem(keyPrefix, 0, sentinel));
        r := Ok(got.value);
      }
    }

    /** `l.insert(index, value)`: read position index, overwrite it with the
        sentinel, then in one transaction LINSERT the value and the old
        occupant before the sentinel, and remove the sentinel. The answer is
        the first LINSERT's reply, the length after it. With a sentinel that
        is neither in the list nor the value, the value lands at the index,
        the old occupant right after it, and the length grows by one. */
    method Insert(index: int, value: string, sentinel: string) returns (r: Result<int>)
      requires Valid() && sentinel !in Contents() && sentinel != value
      modifies store
      ensures Valid()
      ensures var s := old(Contents());
              if -|s| <= index < |s| then
                var j := LC.Normalize(|s|, index);
                r == Ok(|s| + 1) && Contents() == s[..j] + [value] + s[j..]
              else
                store.state == old(store.state) && r == Err(if s == [] then NoSuchKey else OutOfRange)
      ensures store.state - {keyPrefix} == old(store.state) - {keyPrefix}
    {
      var s := Contents();
      var st := store.state;
      var got := store.Query(LIndex(keyPrefix, index));
      LSetEffect(st, keyPrefix, index, sentinel);
      var written := store.Do(LSet(keyPrefix, index, sentinel));
      if written.Error? {
        return Err(written.message);
      }
      InsertOutcome(st, keyPrefix, index, value, sentinel);
      var replies := store.Execute([LInsertBefore(keyPrefix, sentinel, value), LInsertBefore(keyPrefix, sentinel, got.value.value)]);
      var _ := store.Do(LRem(keyPrefix, 0, sentinel));
      r := Ok(replies[0].n);
    }

    /** `l.iter(start, count)`: inclusive LRANGE windows [start, start+count]
        advancing by count+1 until one comes back empty. From a start at or
        after the head the items are yielded once each, in order. */
    method Iter(start: int, count: int) returns (r: seq<string>)
      requires Valid() && count >= 0
      ensures start >= 0 ==> r == Contents()[Min(start, |Contents()|)..]
    {
      var s := Contents();
      var n := |s|;
      var first, last := start, start + count;
      var more := true;
      r := [];
      while more
        invariant last == first + count
        invariant more ==> first == start || first < n + count + 1
        invariant start >= 0 ==> start <= first && r == s[Min(start, n)..Min(first, n)]
        invariant start >= 0 && !more ==> first >= n
        decreases if more then 1 + (if n + count + 1 - first > 0 then n + count + 1 - first else 0) else 0
      {
        var window := ReadRange(first, last);
        IterWindow(s, start, first, count, r);
        r := r + window;
        more := window != [];
        first, last := first + (count + 1), last + (count + 1);
      }
    }

    /** `l.reverse_iter()`: Window-wide LRANGE windows read from the tail,
        each yielded back to front, until one comes back empty: the items
        last to first. */
    method ReverseIter() returns (r: seq<string>)
      requires Valid()
      ensures r == LC.Reverse(Contents())
    {
      var s := Contents();
      var n := |s|;
      var first, last := -Window, -1;
      var skipped: nat := 0;
      var more := true;
      ghost var lo := n;
      r := [];
      while more
        invariant last == -1 - skipped && first == -Window - skipped
        invariant 0 <= lo <= n && lo == n - Min(skipped, n)
        invariant r == LC.Reverse(s[lo..])
        invariant more ==> skipped == 0 || skipped - Window < n
        invariant !more ==> n <= skipped
        decreases if more then n - skipped + Window + 1 else 0
      {
        var window := ReadRange(first, last);
        WindowFromTail(s, skipped);
        r := r + LC.Reverse(window);
        more := window != [];
        first, last, skipped := first - Window, last - Window, skipped + Window;
        lo := n - Min(skipped, n);
      }
      assert s[lo..] == s;
    }

    /** One step of the loop of `l.reverse()`: the window [first, last] of
        `src` is read and appended, reversed, to this list. */
    method AppendReversedWindow(src: RedisList, first: int, last: int) returns (window: seq<string>)
      requires Valid() && src.Valid() && src.store == store && src.keyPrefix != keyPrefix
      modifies store
      ensures Valid() && src.Valid() && src.Contents() == old(src.Contents())
      ensures window == LC.LRange(src.Contents(), first, last)
      ensures Contents() == old(Contents()) + LC.Reverse(window)
      ensures store.state - {keyPrefix} == old(store.state) - {keyPrefix}
    {
      window := src.ReadRange(first, last);
      ghost var st := store.state;
      // `extend` itself skips an empty window, which is what the loop's
      // `if cursor` guard does before calling it.
      Extend(LC.Reverse(window));
      MinusAgree(store.state, st, {keyPrefix}, src.keyPrefix);
    }

    /** The loop of `l.reverse()`: Window-wide windows of `src` read from the
        tail are appended, each reversed, to this (empty) list; `src` and
        every other key keep their values. */
    method AppendReversed(src: RedisList)
      requires Valid() && src.Valid() && src.store == store && src.keyPrefix != keyPrefix
      requires Contents() == []
      modifies store
      ensures Valid() && src.Valid() && src.Contents() == old(src.Contents())
      ensures Contents() == LC.Reverse(old(src.Contents()))
      ensures store.state - {keyPrefix} == old(store.state) - {keyPrefix}
    {
      var s := src.Contents();
      var n := |s|;
      var st := store.state;
      var first, last := -Window, -1;
      var skipped: nat := 0;
      var more := true;
      ghost var lo := n;
      while more
        invariant Valid() && src.Valid() && src.Contents() == s
        invariant store.state - {keyPrefix} == st - {keyPrefix}
        invariant last == -1 - skipped && first == -Window - skipped
        invariant 0 <= lo <= n && lo == n - Min(skipped, n)
        invariant Contents() == LC.Reverse(s[lo..])
        invariant more ==> skipped == 0 || skipped - Window < n
        invariant !more ==> n <= skipped
        decreases if more then n - skipped + Window + 1 else 0
      {
        var window := AppendReversedWindow(src, first, last);
        WindowFromTail(s, skipped);
        more := window != [];
        first, last, skipped := first - Window, last - Window, skipped + Window;
        lo := n - Min(skipped, n);
      }
      assert s[lo..] == s;
    }

    /** `l.reverse()`: the list is copied, reversed, into a temporary list
        nested under the key prefix and named by `tmpId`, which is then
        RENAMEd over the list and cleared. A non-empty list ends reversed
        with no other key changed; on an empty list the temporary list was
        never created and the RENAME raises. */
    method Reverse(tmpId: nat) returns (r: Result<()>)
      requires Valid() && KeyPrefix(keyPrefix, Digits(tmpId)) !in store.state
      modifies store
      ensures Valid()
      ensures old(Contents()) != [] ==>
                r == Ok(()) && Contents() == LC.Reverse(old(Contents())) &&
                store.state - {keyPrefix} == old(store.state) - {keyPrefix}
      ensures old(Contents()) == [] ==> r == Err(NoSuchKey) && store.state == old(store.state)
    {
      var st := store.state;
      TempKeyDiffers(prefix, name, tmpId);
      var tmp := new RedisList(store, Digits(tmpId), keyPrefix, []);
      MinusAgree(store.state, st, {tmp.keyPrefix}, keyPrefix);
      tmp.AppendReversed(this);
      var before := store.state;
      RenameEffect(before, st, tmp.keyPrefix, keyPrefix);
      var renamed := store.Do(Rename(tmp.keyPrefix, keyPrefix));
      if renamed.Error? {
        return Err(renamed.message);
      }
      var moved := store.state;
      var _ := tmp.Clear();
      AbsentKeyUnchanged(store.state, moved, tmp.keyPrefix);
      r := Ok(());
    }

    /** `l.count(value)`: a pass over `iter()` counting equal items. */
    method Count(value: string) returns (r: nat)
      requires Valid()
      ensures r == multiset(Contents())[value]
    {
      var items := Iter(0, 1000);
      r := 0;
      var i := 0;
      while i < |items|
        invariant 0 <= i <= |items|
        invariant r == multiset(items[..i])[value]
      {
        assert items[..i + 1] == items[..i] + [items[i]];
        if items[i] == value {
          r := r + 1;
        }
        i := i + 1;
      }
      assert items[..i] == items;
    }

    /** `l.index(item)`: the position of the first equal item in a pass over
        `iter()`, or None. */
    method Index(item: string) returns (r: Option<nat>)
      requires Valid()
      ensures r.None? <==> item !in Contents()
      ensures r.Some? ==> r.value < |Contents()| && Contents()[r.value] == item && item !in Contents()[..r.value]
    {
      var items := Iter(0, 1000);
      var i := 0;
      while i < |items|
        invariant 0 <= i <= |items|
        invariant item !in items[..i]
      {
        if items[i] == item {
          return Some(i);
        }
        assert items[..i + 1] == items[..i] + [items[i]];
        i := i + 1;
      }
      assert items[..i] == items;
      r := None;
    }
  }

  /** The Window-wide window that ends right before the `skipped` last
      items: empty once those are all of the list. Prepended to the items
      already skipped, it reaches Window items further towards the head. */
  lemma WindowFromTail(s: seq<string>, skipped: nat)
    ensures var w := LC.LRange(s, -Window - skipped, -1 - skipped);
            var n := |s|;
            (w == [] <==> n <= skipped) &&
            LC.Reverse(s[n - Min(skipped, n)..]) + LC.Reverse(w) == LC.Reverse(s[n - Min(skipped + Window, n)..])
  {
    var n := |s|;
    var w := LC.LRange(s, -Window - skipped, -1 - skipped);
    LC.BackwardWindow(s, -Window - skipped, -1 - skipped);
    if n > skipped {
      var a, b := n - Min(skipped + Window, n), n - skipped;
      assert w == s[a..b];
      assert s[a..] == s[a..b] + s[b..];
      LC.ReverseConcat(s[a..b], s[b..]);
    } else {
      assert w == [];
      assert Min(skipped + Window, n) == n == Min(skipped, n);
    }
  }

}
