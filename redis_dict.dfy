/** A counted dictionary: every element is a string key "<key prefix>:<key>"
    in the store, and the number of elements is kept in a hash field shared
    by many dictionaries: field <key prefix> of the bucket hash
    "<prefix>.size.<shard>". Every write or delete pairs its command with a
    conditional +1 or -1 on that field, decided by an existence check sent
    before the pipeline runs. For sequential use the field always equals
    the number of element keys; that is the invariant `Valid`. */
module RedisDictModel {
  import opened Wrappers
  import opened Numerals
  import opened Keys
  import opened RedisStore

  const KeyError := "KeyError"

  predicate HasPrefix(k: string, p: string) {
    |p| <= |k| && k[..|p|] == p
  }

  /** The keys of the store under "<key prefix>:", i.e. a dictionary's
      elements. */
  function ElementKeys(ks: Keyspace, kp: string): set<string> {
    set k | k in ks && HasPrefix(k, kp + ":")
  }

  /** The element keys of the given dictionary keys. */
  function KeysOf(kp: string, pairs: seq<(string, string)>): set<string> {
    if pairs == [] then {} else KeysOf(kp, pairs[..|pairs| - 1]) + {GetKey(kp, pairs[|pairs| - 1].0)}
  }

  /** The keys a full SCAN returned, over all its pages. */
  function PageKeys(pages: seq<seq<string>>): set<string> {
    if pages == [] then {} else PageKeys(pages[..|pages| - 1]) + Elems(pages[|pages| - 1])
  }

  function Elems(page: seq<string>): set<string> {
    set i | 0 <= i < |page| :: page[i]
  }

  /** The stored count: the field of the bucket hash, 0 when the bucket or
      the field is missing, nothing when it is not a hash or not a number. */
  function Counter(ks: Keyspace, bucket: string, kp: string): Option<int> {
    if bucket !in ks then Some(0)
    else if !ks[bucket].Hash? then None
    else if kp !in ks[bucket].fields then Some(0)
    else ParseInt(ks[bucket].fields[kp])
  }

  /** The counts of the other dictionaries that share the bucket. */
  function OtherCounters(ks: Keyspace, bucket: string, kp: string): map<string, string> {
    if bucket in ks && ks[bucket].Hash? then ks[bucket].fields - {kp} else map[]
  }

  /** What every counted write sends: the element command, followed by a
      HINCRBY of the count when `send` is set. */
  function WithCount(c: Command, bucket: string, kp: string, d: int, send: bool): seq<Command> {
    if send then [c, HIncrBy(bucket, kp, d)] else [c]
  }

  lemma GetKeyIsElement(kp: string, key: string)
    ensures HasPrefix(GetKey(kp, key), kp + ":")
  {
    assert GetKey(kp, key)[..|kp + ":"|] == kp + ":";
  }

  lemma GetKeyInjective(kp: string, a: string, b: string)
    requires a != b
    ensures GetKey(kp, a) != GetKey(kp, b)
  {
    assert GetKey(kp, a)[|kp| + 1..] == a;
    assert GetKey(kp, b)[|kp| + 1..] == b;
  }

  /** No bucket key lies under a dictionary's key prefix. */
  lemma BucketOutsideElements(prefix: string, name: string, digest: nat, sizeMod: nat)
    ensures !HasPrefix(BucketKey(prefix, digest, sizeMod), KeyPrefix(prefix, name) + ":")
  {
    var kp := KeyPrefix(prefix, name);
    var p := RStripColons(prefix);
    KeyPrefixStartsWithPrefix(prefix, name, "");
    assert GetKey(kp, "") == kp + ":";
    var b := BucketKey(prefix, digest, sizeMod);
    assert b[|p|] == '.';
  }

  lemma ElementKeysOutside(a: Keyspace, b: Keyspace, kp: string, S: set<string>)
    requires a - S == b - S
    ensures ElementKeys(a, kp) - S == ElementKeys(b, kp) - S
  {
    forall k | k !in S ensures k in a <==> k in b {
      MinusAgree(a, b, S, k);
    }
  }

  lemma CounterOutside(a: Keyspace, b: Keyspace, bucket: string, kp: string, S: set<string>)
    requires a - S == b - S && bucket !in S
    ensures Counter(a, bucket, kp) == Counter(b, bucket, kp)
    ensures OtherCounters(a, bucket, kp) == OtherCounters(b, bucket, kp)
  {
    MinusAgree(a, b, S, bucket);
  }

  /** HINCRBY on a readable counter: the count moves by d and nothing else
      changes. */
  lemma BucketIncr(ks: Keyspace, bucket: string, kp: string, d: int)
    requires Counter(ks, bucket, kp).Some?
    ensures var res := HIncrByCmd(ks, bucket, kp, d);
            res.1 == Int(Counter(ks, bucket, kp).value + d) &&
            Counter(res.0, bucket, kp) == Some(Counter(ks, bucket, kp).value + d) &&
            res.0 - {bucket} == ks - {bucket} &&
            OtherCounters(res.0, bucket, kp) == OtherCounters(ks, bucket, kp)
  {
    var n := Counter(ks, bucket, kp).value;
    ParseIntText(n + d);
    if bucket !in ks {
      var F := map[kp := IntText(d)];
      assert HIncrByCmd(ks, bucket, kp, d) == (ks[bucket := Hash(F)], Int(n + d));
      StoreBucket(ks, bucket, kp, F);
      assert F - {kp} == map[];
    } else {
      var f := ks[bucket].fields;
      var F := f[kp := IntText(n + d)];
      if kp in f {
        assert ParseInt(f[kp]) == Some(n);
      }
      assert HIncrByCmd(ks, bucket, kp, d) == (ks[bucket := Hash(F)], Int(n + d));
      StoreBucket(ks, bucket, kp, F);
      assert F - {kp} == f - {kp};
    }
  }

  /** Writing the bucket hash: the count reads the field, the other counts
      are the other fields, and no other key changes. */
  lemma StoreBucket(ks: Keyspace, bucket: string, kp: string, F: map<string, string>)
    requires kp in F
    ensures var ks' := ks[bucket := Hash(F)];
            Counter(ks', bucket, kp) == ParseInt(F[kp]) &&
            OtherCounters(ks', bucket, kp) == F - {kp} &&
            ks' - {bucket} == ks - {bucket}
  {
  }

  /** HDEL of the field: the count reads 0 and nothing else changes. */
  lemma BucketDelete(ks: Keyspace, bucket: string, kp: string)
    requires Counter(ks, bucket, kp).Some?
    ensures var res := HDelCmd(ks, bucket, kp);
            Counter(res.0, bucket, kp) == Some(0) &&
            res.0 - {bucket} == ks - {bucket} &&
            OtherCounters(res.0, bucket, kp) == OtherCounters(ks, bucket, kp)
  {
  }

  /** The bookkeeping of one counted write: when command c changes only the
      element keys in S and moves the number of element keys by d, the
      pipeline of c and the HINCRBY by d (sent unless d is 0) keeps the
      count equal to the number of element keys, and touches nothing but S
      and the count's field. */
  lemma CountedWrite(ks: Keyspace, c: Command, S: set<string>, bucket: string, kp: string, d: int, send: bool)
    requires !HasPrefix(bucket, kp + ":") && bucket !in S && (send || d == 0)
    requires Counter(ks, bucket, kp) == Some(|ElementKeys(ks, kp)|)
    requires Apply(ks, c).0 - S == ks - S
    requires |ElementKeys(Apply(ks, c).0, kp)| == |ElementKeys(ks, kp)| + d
    ensures Run(ks, WithCount(c, bucket, kp, d, send)).1[0] == Apply(ks, c).1
    ensures var fin := Run(ks, WithCount(c, bucket, kp, d, send)).0;
            Counter(fin, bucket, kp) == Some(|ElementKeys(fin, kp)|)
    ensures ElementKeys(Run(ks, WithCount(c, bucket, kp, d, send)).0, kp) == ElementKeys(Apply(ks, c).0, kp)
    ensures Run(ks, WithCount(c, bucket, kp, d, send)).0 - {bucket} == Apply(ks, c).0 - {bucket}
    ensures Run(ks, WithCount(c, bucket, kp, d, send)).0 - (S + {bucket}) == ks - (S + {bucket})
    ensures OtherCounters(Run(ks, WithCount(c, bucket, kp, d, send)).0, bucket, kp) == OtherCounters(ks, bucket, kp)
  {
    var mid := Apply(ks, c).0;
    if !send {
      RunOne(ks, c);
      CountedWriteSilent(ks, mid, S, bucket, kp);
    } else {
      RunTwo(ks, c, HIncrBy(bucket, kp, d));
      assert Apply(mid, HIncrBy(bucket, kp, d)) == HIncrByCmd(mid, bucket, kp, d);
      CountedWriteSent(ks, mid, S, bucket, kp, d);
    }
  }

  /** CountedWrite without the HINCRBY: the element keys kept their number. */
  lemma CountedWriteSilent(ks: Keyspace, mid: Keyspace, S: set<string>, bucket: string, kp: string)
    requires !HasPrefix(bucket, kp + ":") && bucket !in S
    requires Counter(ks, bucket, kp) == Some(|ElementKeys(ks, kp)|)
    requires mid - S == ks - S && |ElementKeys(mid, kp)| == |ElementKeys(ks, kp)|
    ensures Counter(mid, bucket, kp) == Some(|ElementKeys(mid, kp)|)
    ensures mid - (S + {bucket}) == ks - (S + {bucket})
    ensures OtherCounters(mid, bucket, kp) == OtherCounters(ks, bucket, kp)
  {
    CounterOutside(mid, ks, bucket, kp, S);
    MinusTrans(mid, mid, ks, {bucket}, S);
    assert {bucket} + S == S + {bucket};
  }

  /** CountedWrite with the HINCRBY by d: the count follows the element
      keys, which the HINCRBY does not touch. */
  lemma CountedWriteSent(ks: Keyspace, mid: Keyspace, S: set<string>, bucket: string, kp: string, d: int)
    requires !HasPrefix(bucket, kp + ":") && bucket !in S
    requires Counter(ks, bucket, kp) == Some(|ElementKeys(ks, kp)|)
    requires mid - S == ks - S && |ElementKeys(mid, kp)| == |ElementKeys(ks, kp)| + d
    ensures var fin := HIncrByCmd(mid, bucket, kp, d).0;
            Counter(fin, bucket, kp) == Some(|ElementKeys(fin, kp)|) &&
            ElementKeys(fin, kp) == ElementKeys(mid, kp) &&
            fin - {bucket} == mid - {bucket} &&
            fin - (S + {bucket}) == ks - (S + {bucket}) &&
            OtherCounters(fin, bucket, kp) == OtherCounters(ks, bucket, kp)
  {
    CounterOutside(mid, ks, bucket, kp, S);
    BucketIncr(mid, bucket, kp, d);
    var fin := HIncrByCmd(mid, bucket, kp, d).0;
    ElementKeysOutside(fin, mid, kp, {bucket});
    assert bucket !in ElementKeys(fin, kp) && bucket !in ElementKeys(mid, kp);
    assert ElementKeys(fin, kp) == ElementKeys(mid, kp);
    MinusTrans(fin, mid, ks, {bucket}, S);
    assert {bucket} + S == S + {bucket};
  }

  /** The counted write of one element key ek: a command that leaves ek
      present and changes no other key, paired with +1 on the count exactly
      when the existence check found ek missing. The count stays equal to
      the number of element keys, which gain ek, and nothing but ek and the
      count's field changes. */
  lemma CountedKeyWrite(ks: Keyspace, c: Command, ek: string, bucket: string, kp: string)
    requires HasPrefix(ek, kp + ":") && !HasPrefix(bucket, kp + ":")
    requires Counter(ks, bucket, kp) == Some(|ElementKeys(ks, kp)|)
    requires Apply(ks, c).0 - {ek} == ks - {ek} && ek in Apply(ks, c).0
    ensures var send := Apply(ks, Exists(ek)).1 == Int(0);
            var run := Run(ks, WithCount(c, bucket, kp, if send then 1 else 0, send));
            (send <==> ek !in ks) &&
            run.1[0] == Apply(ks, c).1 &&
            Counter(run.0, bucket, kp) == Some(|ElementKeys(run.0, kp)|) &&
            ElementKeys(run.0, kp) == ElementKeys(ks, kp) + {ek} &&
            ek in run.0 && run.0[ek] == Apply(ks, c).0[ek] &&
            run.0 - {ek, bucket} == ks - {ek, bucket} &&
            OtherCounters(run.0, bucket, kp) == OtherCounters(ks, bucket, kp)
  {
    var send := ek !in ks;
    var d := if send then 1 else 0;
    var mid := Apply(ks, c).0;
    assert Apply(ks, Exists(ek)).1 == Int(if ek in ks then 1 else 0);
    ElementKeysOutside(mid, ks, kp, {ek});
    assert ek in ElementKeys(mid, kp);
    assert ElementKeys(mid, kp) == (ElementKeys(mid, kp) - {ek}) + {ek};
    assert ElementKeys(ks, kp) + {ek} == (ElementKeys(ks, kp) - {ek}) + {ek};
    CountedWrite(ks, c, {ek}, bucket, kp, d, send);
    var fin := Run(ks, WithCount(c, bucket, kp, d, send)).0;
    MinusAgree(fin, mid, {bucket}, ek);
    assert {ek} + {bucket} == {ek, bucket};
  }

  /** SET of an element key, counted. */
  lemma SetStep(ks: Keyspace, ek: string, value: string, bucket: string, kp: string)
    requires HasPrefix(ek, kp + ":") && !HasPrefix(bucket, kp + ":")
    requires Counter(ks, bucket, kp) == Some(|ElementKeys(ks, kp)|)
    ensures var send := Apply(ks, Exists(ek)).1 == Int(0);
            var run := Run(ks, WithCount(Set(ek, value), bucket, kp, if send then 1 else 0, send));
            run.1[0] == Done &&
            Counter(run.0, bucket, kp) == Some(|ElementKeys(run.0, kp)|) &&
            ElementKeys(run.0, kp) == ElementKeys(ks, kp) + {ek} &&
            ek in run.0 && run.0[ek] == Str(value) &&
            run.0 - {ek, bucket} == ks - {ek, bucket} &&
            OtherCounters(run.0, bucket, kp) == OtherCounters(ks, bucket, kp)
  {
    assert Apply(ks, Set(ek, value)) == (ks[ek := Str(value)], Done);
    assert ks[ek := Str(value)] - {ek} == ks - {ek};
    CountedKeyWrite(ks, Set(ek, value), ek, bucket, kp);
  }

  /** INCRBY of an element key, counted: a missing key starts from 0, a
      number moves by delta, anything else is an error and nothing
      changes. */
  lemma IncrStep(ks: Keyspace, ek: string, delta: int, bucket: string, kp: string)
    requires HasPrefix(ek, kp + ":") && !HasPrefix(bucket, kp + ":")
    requires Counter(ks, bucket, kp) == Some(|ElementKeys(ks, kp)|)
    ensures var send := Apply(ks, Exists(ek)).1 == Int(0);
            var run := Run(ks, WithCount(Command.Incr(ek, delta), bucket, kp, if send then 1 else 0, send));
            run.1[0] == IncrCmd(ks, ek, delta).1 &&
            Counter(run.0, bucket, kp) == Some(|ElementKeys(run.0, kp)|) &&
            ElementKeys(run.0, kp) == ElementKeys(ks, kp) + {ek} &&
            ek in run.0 && run.0[ek] == IncrCmd(ks, ek, delta).0[ek] &&
            run.0 - {ek, bucket} == ks - {ek, bucket} &&
            (IncrCmd(ks, ek, delta).1.Error? ==> run.0 == ks) &&
            OtherCounters(run.0, bucket, kp) == OtherCounters(ks, bucket, kp)
  {
    var res := IncrCmd(ks, ek, delta);
    assert Apply(ks, Command.Incr(ek, delta)) == res;
    assert res.0 - {ek} == ks - {ek};
    CountedKeyWrite(ks, Command.Incr(ek, delta), ek, bucket, kp);
    if res.1.Error? {
      var send := Apply(ks, Exists(ek)).1 == Int(0);
      RunOne(ks, Command.Incr(ek, delta));
    }
  }

  /** The HINCRBY after a command touches nothing but the bucket. */
  lemma CountSentFrame(ks: Keyspace, c: Command, bucket: string, kp: string, d: int)
    requires Counter(Apply(ks, c).0, bucket, kp).Some?
    ensures Run(ks, WithCount(c, bucket, kp, d, true)).0 - {bucket} == Apply(ks, c).0 - {bucket}
  {
    RunTwo(ks, c, HIncrBy(bucket, kp, d));
    assert Apply(Apply(ks, c).0, HIncrBy(bucket, kp, d)) == HIncrByCmd(Apply(ks, c).0, bucket, kp, d);
    BucketIncr(Apply(ks, c).0, bucket, kp, d);
  }

  /** Distinct dictionary keys give distinct element keys. */
  lemma WritesDistinct(kp: string, pairs: seq<(string, string)>, writes: seq<(string, string)>)
    requires DistinctKeys(pairs) && |writes| == |pairs|
    requires forall j :: 0 <= j < |pairs| ==> writes[j] == (GetKey(kp, pairs[j].0), pairs[j].1)
    ensures forall a, b :: 0 <= a < b < |writes| ==> writes[a].0 != writes[b].0
  {
    forall a, b | 0 <= a < b < |writes| ensures writes[a].0 != writes[b].0 {
      GetKeyInjective(kp, pairs[a].0, pairs[b].0);
    }
  }

  /** DEL of one key. */
  lemma DelOne(ks: Keyspace, k: string)
    ensures DelCmd(ks, [k]) == (ks - {k}, Int(if k in ks then 1 else 0))
  {
    var gone := set x | x in [k] && x in ks;
    if k in ks {
      assert gone == {k};
    } else {
      assert gone == {};
      assert ks - {} == ks - {k};
    }
  }

  /** The number of given keys whose element key exists. */
  function CountPresent(ks: Keyspace, kp: string, pairs: seq<(string, string)>): nat {
    if pairs == [] then 0
    else CountPresent(ks, kp, pairs[..|pairs| - 1]) +
         if GetKey(kp, pairs[|pairs| - 1].0) in ks then 1 else 0
  }

  /** Python's `list.count(True)` on the existence replies. */
  function CountOnes(rs: seq<Reply>): nat {
    if rs == [] then 0 else CountOnes(rs[..|rs| - 1]) + if rs[|rs| - 1] == Int(1) then 1 else 0
  }

  lemma {:induction false} CountOnesPresent(ks: Keyspace, kp: string, pairs: seq<(string, string)>, rs: seq<Reply>)
    requires |rs| == |pairs|
    requires forall i :: 0 <= i < |rs| ==> rs[i] == Int(if GetKey(kp, pairs[i].0) in ks then 1 else 0)
    ensures CountOnes(rs) == CountPresent(ks, kp, pairs)
  {
    if rs != [] {
      CountOnesPresent(ks, kp, pairs[..|pairs| - 1], rs[..|rs| - 1]);
    }
  }

  /** The first pipeline of `update`: one EXISTS per key changes nothing,
      and the replies that are 1 count the keys that exist. */
  lemma ExistsChecks(ks: Keyspace, kp: string, pairs: seq<(string, string)>, checks: seq<Command>)
    requires |checks| == |pairs|
    requires forall i :: 0 <= i < |pairs| ==> checks[i] == Exists(GetKey(kp, pairs[i].0))
    ensures Run(ks, checks).0 == ks
    ensures CountOnes(Run(ks, checks).1) == CountPresent(ks, kp, pairs)
  {
    RunReadOnly(ks, checks);
    CountOnesPresent(ks, kp, pairs, Run(ks, checks).1);
  }

  predicate DistinctKeys(pairs: seq<(string, string)>) {
    forall i, j :: 0 <= i < j < |pairs| ==> pairs[i].0 != pairs[j].0
  }

  /** Every key of KeysOf comes from one of the pairs. */
  lemma {:induction false} KeysOfIndex(kp: string, pairs: seq<(string, string)>, k: string)
    requires k in KeysOf(kp, pairs)
    ensures exists i :: 0 <= i < |pairs| && k == GetKey(kp, pairs[i].0)
  {
    var n := |pairs| - 1;
    var init := pairs[..n];
    if k == GetKey(kp, pairs[n].0) {
      assert 0 <= n < |pairs| && k == GetKey(kp, pairs[n].0);
    } else {
      assert k in KeysOf(kp, init);
      KeysOfIndex(kp, init, k);
      var i :| 0 <= i < |init| && k == GetKey(kp, init[i].0);
      assert pairs[i] == init[i];
      assert 0 <= i < |pairs| && k == GetKey(kp, pairs[i].0);
    }
  }

  lemma {:induction false} KeysOfContains(kp: string, pairs: seq<(string, string)>, i: nat)
    requires i < |pairs|
    ensures GetKey(kp, pairs[i].0) in KeysOf(kp, pairs)
  {
    if i < |pairs| - 1 {
      var init := pairs[..|pairs| - 1];
      KeysOfContains(kp, init, i);
      assert init[i] == pairs[i];
    }
  }

  /** With distinct keys, the last pair's element key is new. */
  lemma KeysOfFresh(kp: string, pairs: seq<(string, string)>)
    requires pairs != [] && DistinctKeys(pairs)
    ensures GetKey(kp, pairs[|pairs| - 1].0) !in KeysOf(kp, pairs[..|pairs| - 1])
  {
    var init := pairs[..|pairs| - 1];
    var last := pairs[|pairs| - 1].0;
    if GetKey(kp, last) in KeysOf(kp, init) {
      KeysOfIndex(kp, init, GetKey(kp, last));
      var i :| 0 <= i < |init| && GetKey(kp, last) == GetKey(kp, init[i].0);
      assert init[i] == pairs[i];
      GetKeyInjective(kp, init[i].0, last);
      assert false;
    }
  }

  /** Adding n distinct element keys, of which CountPresent already exist,
      grows the element set by n - CountPresent. */
  lemma {:induction false} UnionSize(ks: Keyspace, kp: string, pairs: seq<(string, string)>)
    requires DistinctKeys(pairs)
    ensures |ElementKeys(ks, kp) + KeysOf(kp, pairs)| ==
            |ElementKeys(ks, kp)| + |pairs| - CountPresent(ks, kp, pairs)
  {
    if pairs != [] {
      var init := pairs[..|pairs| - 1];
      var last := pairs[|pairs| - 1].0;
      var k := GetKey(kp, last);
      assert DistinctKeys(init) by {
        forall i, j | 0 <= i < j < |init| ensures init[i].0 != init[j].0 {
          assert init[i] == pairs[i] && init[j] == pairs[j];
        }
      }
      UnionSize(ks, kp, init);
      KeysOfFresh(kp, pairs);
      GetKeyIsElement(kp, last);
      var E := ElementKeys(ks, kp);
      var a := E + KeysOf(kp, init);
      assert E + KeysOf(kp, pairs) == a + {k};
      assert k in E <==> k in ks;
      if k in ks {
        assert a + {k} == a;
      } else {
        assert k !in a;
        assert |a + {k}| == |a| + 1;
      }
    }
  }

  /** MSET of element keys: the dictionary gains exactly those keys and no
      other key changes. */
  lemma {:induction false} MSetElements(ks: Keyspace, kp: string, pairs: seq<(string, string)>, writes: seq<(string, string)>)
    requires |writes| == |pairs|
    requires forall i :: 0 <= i < |pairs| ==> writes[i] == (GetKey(kp, pairs[i].0), pairs[i].1)
    ensures ElementKeys(MSetAll(ks, writes), kp) == ElementKeys(ks, kp) + KeysOf(kp, pairs)
    ensures MSetAll(ks, writes) - KeysOf(kp, pairs) == ks - KeysOf(kp, pairs)
  {
    if pairs != [] {
      var init, winit := pairs[..|pairs| - 1], writes[..|writes| - 1];
      MSetElements(ks, kp, init, winit);
      var k := GetKey(kp, pairs[|pairs| - 1].0);
      GetKeyIsElement(kp, pairs[|pairs| - 1].0);
      var prev := MSetAll(ks, winit);
      var next := MSetAll(ks, writes);
      assert next == prev[k := Str(pairs[|pairs| - 1].1)];
      assert next - {k} == prev - {k};
      assert ElementKeys(next, kp) == ElementKeys(prev, kp) + {k};
      MinusTrans(next, prev, ks, {k}, KeysOf(kp, init));
      assert KeysOf(kp, pairs) == {k} + KeysOf(kp, init);
    }
  }

  /** The (element key, value) pairs `update` sends with MSET. */
  function ElementWrites(kp: string, pairs: seq<(string, string)>): (w: seq<(string, string)>)
    ensures |w| == |pairs|
    ensures forall j :: 0 <= j < |pairs| ==> w[j] == (GetKey(kp, pairs[j].0), pairs[j].1)
  {
    if pairs == [] then []
    else ElementWrites(kp, pairs[..|pairs| - 1]) + [(GetKey(kp, pairs[|pairs| - 1].0), pairs[|pairs| - 1].1)]
  }

  /** MSET gives every written key its own value when the keys are distinct. */
  lemma {:induction false} MSetValues(ks: Keyspace, writes: seq<(string, string)>, i: nat)
    requires i < |writes|
    requires forall a, b :: 0 <= a < b < |writes| ==> writes[a].0 != writes[b].0
    ensures writes[i].0 in MSetAll(ks, writes) && MSetAll(ks, writes)[writes[i].0] == Str(writes[i].1)
  {
    if i < |writes| - 1 {
      MSetValues(ks, writes[..|writes| - 1], i);
    }
  }

  /** Deleting the keys of a full SCAN, page by page. */
  lemma DelPage(ks: Keyspace, gone: set<string>, page: seq<string>)
    requires page != []
    ensures DelCmd(ks - gone, page).0 == ks - (gone + Elems(page))
  {
  }

  /** One more page of `clear`: a DEL of a non-empty page appended to the
      pipeline removes that page's keys as well. */
  lemma ClearPageStep(st: Keyspace, cmds: seq<Command>, pages: seq<seq<string>>, i: nat)
    requires i < |pages| && pages[i] != []
    requires Run(st, cmds).0 == st - PageKeys(pages[..i])
    ensures Run(st, cmds + [Del(pages[i])]).0 == st - PageKeys(pages[..i + 1])
  {
    assert pages[..i + 1][..i] == pages[..i];
    RunSnoc(st, cmds, Del(pages[i]));
    DelPage(st, PageKeys(pages[..i]), pages[i]);
  }

  /** An HDEL appended to a pipeline acts on the keyspace the pipeline left. */
  lemma RunSnocHDel(st: Keyspace, cmds: seq<Command>, b: string, f: string)
    ensures Run(st, cmds + [HDel(b, f)]).0 == HDelCmd(Run(st, cmds).0, b, f).0
  {
    RunSnoc(st, cmds, HDel(b, f));
  }

  class RedisDict {
    const store: Store
    const prefix: string
    const name: string
    const digest: nat
    const sizeMod: nat
    const keyPrefix: string
    const bucket: string

    /** The element keys present in the store. */
    ghost function Elements(): set<string>
      reads store
    {
      ElementKeys(store.state, keyPrefix)
    }

    /** The bucket field counts the element keys. */
    ghost predicate Valid()
      reads store
    {
      keyPrefix == KeyPrefix(prefix, name) &&
      bucket == BucketKey(prefix, digest, sizeMod) &&
      Counter(store.state, bucket, keyPrefix) == Some(|Elements()|)
    }

    /** `RedisDict(name, data, prefix, size_mod)`: a dictionary named
        `name` under `prefix`, updated with `data`; `digest` stands for the
        md5 digest of its key prefix and `sizeMod` is the size_mod setting
        (5 by default). The count already stored for this key prefix must
        match its element keys, as every method of the dictionary keeps
        it. */
    constructor(store: Store, name: string, prefix: string, digest: nat, sizeMod: nat, data: seq<(string, string)>)
      requires DistinctKeys(data)
      requires var kp := KeyPrefix(prefix, name);
               Counter(store.state, BucketKey(prefix, digest, sizeMod), kp) == Some(|ElementKeys(store.state, kp)|)
      modifies store
      ensures this.store == store && this.name == name && this.prefix == prefix
      ensures this.digest == digest && this.sizeMod == sizeMod
      ensures keyPrefix == KeyPrefix(prefix, name) && bucket == BucketKey(prefix, digest, sizeMod)
      ensures Valid()
      ensures Elements() == ElementKeys(old(store.state), keyPrefix) + KeysOf(keyPrefix, data)
      ensures forall i :: 0 <= i < |data| ==>
                GetKey(keyPrefix, data[i].0) in store.state &&
                store.state[GetKey(keyPrefix, data[i].0)] == Str(data[i].1)
      ensures store.state - (KeysOf(keyPrefix, data) + {bucket}) ==
              old(store.state) - (KeysOf(keyPrefix, data) + {bucket})
      ensures OtherCounters(store.state, bucket, keyPrefix) == OtherCounters(old(store.state), bucket, keyPrefix)
    {
      this.store := store;
      this.name := name;
      this.prefix := prefix;
      this.digest := digest;
      this.sizeMod := sizeMod;
      keyPrefix := KeyPrefix(prefix, name);
      bucket := BucketKey(prefix, digest, sizeMod);
      new;
      var _ := Update(data);
    }

    /** `d[key] = value`: SET, plus +1 on the count when the key was absent
        before the pipeline ran. */
    method SetItem(key: string, value: string) returns (r: bool)
      requires Valid()
      modifies store
      ensures Valid()
      ensures r
      ensures var ek := GetKey(keyPrefix, key);
              ek in store.state && store.state[ek] == Str(value) &&
              Elements() == old(Elements()) + {ek} &&
              store.state - {ek, bucket} == old(store.state) - {ek, bucket}
      ensures OtherCounters(store.state, bucket, keyPrefix) == old(OtherCounters(store.state, bucket, keyPrefix))
    {
      var ek := GetKey(keyPrefix, key);
      GetKeyIsElement(keyPrefix, key);
      BucketOutsideElements(prefix, name, digest, sizeMod);
      var present := store.Query(Exists(ek));
      var send := present == Int(0);
      SetStep(store.state, ek, value, bucket, keyPrefix);
      var replies := store.Execute(WithCount(Set(ek, value), bucket, keyPrefix, if send then 1 else 0, send));
      r := replies[0] == Done;
    }

    /** `d[key]`: the stored text; a missing key, and an empty text (which
        Python reads as false), is a KeyError. */
    method GetItem(key: string) returns (r: Result<string>)
      ensures var ek := GetKey(keyPrefix, key);
              (r.Ok? <==> ek in store.state && store.state[ek].Str? && store.state[ek].text != "") &&
              (r.Ok? ==> r.value == store.state[ek].text) &&
              (ek !in store.state ==> r == Err(KeyError)) &&
              (ek in store.state && !store.state[ek].Str? ==> r == Err(WrongType))
    {
      var reply := store.Query(Get(GetKey(keyPrefix, key)));
      match reply
      case Bulk(v) =>
        if v.None? || v.value == "" {
          r := Err(KeyError);
        } else {
          r := Ok(v.value);
        }
      case Error(m) =>
        r := Err(m);
      case _ =>
        r := Err("");
    }

    /** `del d[key]`: DEL, plus -1 on the count when the key was present
        before the pipeline ran; the reply is the number of keys deleted. */
    method DelItem(key: string) returns (r: int)
      requires Valid()
      modifies store
      ensures Valid()
      ensures var ek := GetKey(keyPrefix, key);
              r == (if ek in old(store.state) then 1 else 0) &&
              ek !in store.state &&
              Elements() == old(Elements()) - {ek} &&
              store.state - {ek, bucket} == old(store.state) - {ek, bucket}
      ensures OtherCounters(store.state, bucket, keyPrefix) == old(OtherCounters(store.state, bucket, keyPrefix))
    {
      var ek := GetKey(keyPrefix, key);
      GetKeyIsElement(keyPrefix, key);
      BucketOutsideElements(prefix, name, digest, sizeMod);
      var st := store.state;
      var present := store.Query(Exists(ek));
      var send := present == Int(1);
      var d := if send then -1 else 0;
      var mid := st - {ek};
      DelOne(st, ek);
      assert mid - {ek} == st - {ek};
      assert ElementKeys(mid, keyPrefix) == ElementKeys(st, keyPrefix) - {ek};
      assert ek in ElementKeys(st, keyPrefix) <==> send;
      CountedWrite(st, Del([ek]), {ek}, bucket, keyPrefix, d, send);
      var replies := store.Execute(WithCount(Del([ek]), bucket, keyPrefix, d, send));
      MinusAgree(store.state, mid, {bucket}, ek);
      assert {ek} + {bucket} == {ek, bucket};
      r := replies[0].n;
    }

    /** `d.incr(key, delta)`: INCRBY, plus +1 on the count when the key was
        absent; the reply is the new value, or the store's error when the
        value is not an integer. */
    method Incr(key: string, delta: int) returns (r: Result<int>)
      requires Valid()
      modifies store
      ensures Valid()
      ensures var ek := GetKey(keyPrefix, key);
              var before := old(store.state);
              (ek !in before ==> r == Ok(delta)) &&
              (ek in before && before[ek].Str? && ParseInt(before[ek].text).Some? ==>
                 r == Ok(ParseInt(before[ek].text).value + delta)) &&
              (ek in before && !before[ek].Str? ==> r == Err(WrongType)) &&
              (ek in before && before[ek].Str? && ParseInt(before[ek].text).None? ==> r == Err(NotInteger)) &&
              (r.Ok? ==> ek in store.state && store.state[ek] == Str(IntText(r.value))) &&
              (r.Err? ==> store.state == before) &&
              Elements() == old(Elements()) + {ek} &&
              store.state - {ek, bucket} == before - {ek, bucket}
      ensures OtherCounters(store.state, bucket, keyPrefix) == old(OtherCounters(store.state, bucket, keyPrefix))
    {
      var ek := GetKey(keyPrefix, key);
      GetKeyIsElement(keyPrefix, key);
      BucketOutsideElements(prefix, name, digest, sizeMod);
      var present := store.Query(Exists(ek));
      var send := present == Int(0);
      IncrStep(store.state, ek, delta, bucket, keyPrefix);
      var replies := store.Execute(WithCount(Command.Incr(ek, delta), bucket, keyPrefix, if send then 1 else 0, send));
      match replies[0]
      case Int(n) => r := Ok(n);
      case Error(m) => r := Err(m);
      case _ => r := Err("");
    }

    /** `len(d)`: the bucket field read as an integer, 0 when it is missing
        or empty. The field is read as canonical decimal text, which is what
        HINCRBY writes; Python's `int` would also accept forms such as "+5"
        or " 5", which never occur under `Valid()`. */
    method Size() returns (r: Result<int>)
      ensures Valid() ==> r == Ok(|Elements()|)
    {
      var reply := store.Query(HGet(bucket, keyPrefix));
      match reply
      case Bulk(v) =>
        if v.None? || v.value == "" {
          r := Ok(0);
        } else {
          match ParseInt(v.value)
          case Some(n) => r := Ok(n);
          case None => r := Err("ValueError");
        }
      case Error(m) =>
        r := Err(m);
      case _ =>
        r := Err("");
    }

    /** `d.update(data)`: one pipeline of EXISTS checks, then MSET of all
        pairs and one HINCRBY of len(data) minus the number that existed.
        An empty `data` does nothing and answers None. */
    method Update(pairs: seq<(string, string)>) returns (r: Option<bool>)
      requires Valid() && DistinctKeys(pairs)
      modifies store
      ensures Valid()
      ensures pairs == [] ==> r == None && store.state == old(store.state)
      ensures pairs != [] ==> r == Some(true)
      ensures Elements() == old(Elements()) + KeysOf(keyPrefix, pairs)
      ensures forall i :: 0 <= i < |pairs| ==>
                GetKey(keyPrefix, pairs[i].0) in store.state &&
                store.state[GetKey(keyPrefix, pairs[i].0)] == Str(pairs[i].1)
      ensures store.state - (KeysOf(keyPrefix, pairs) + {bucket}) ==
              old(store.state) - (KeysOf(keyPrefix, pairs) + {bucket})
      ensures OtherCounters(store.state, bucket, keyPrefix) == old(OtherCounters(store.state, bucket, keyPrefix))
    {
      if pairs == [] {
        return None;
      }
      var st := store.state;
      var checks: seq<Command> := [];
      var i := 0;
      while i < |pairs|
        invariant 0 <= i <= |pairs| && store.state == st
        invariant |checks| == i
        invariant forall j :: 0 <= j < i ==> checks[j] == Exists(GetKey(keyPrefix, pairs[j].0))
      {
        checks := checks + [Exists(GetKey(keyPrefix, pairs[i].0))];
        i := i + 1;
      }
      ExistsChecks(st, keyPrefix, pairs, checks);
      var found := store.Execute(checks);
      var present := CountOnes(found);
      var writes := ElementWrites(keyPrefix, pairs);
      var d := |pairs| - present;
      UpdateEffect(st, pairs, writes, d);
      UpdateValues(st, pairs, writes, d);
      var replies := store.Execute(WithCount(MSet(writes), bucket, keyPrefix, d, true));
      r := Some(replies[0] == Done);
    }

    /** The second pipeline of `update` (MSET, then HINCRBY by the number
        of keys that did not exist), on the keyspace before it. */
    lemma UpdateEffect(st: Keyspace, pairs: seq<(string, string)>, writes: seq<(string, string)>, d: int)
      requires keyPrefix == KeyPrefix(prefix, name) && bucket == BucketKey(prefix, digest, sizeMod)
      requires Counter(st, bucket, keyPrefix) == Some(|ElementKeys(st, keyPrefix)|)
      requires pairs != [] && DistinctKeys(pairs) && |writes| == |pairs|
      requires forall j :: 0 <= j < |pairs| ==> writes[j] == (GetKey(keyPrefix, pairs[j].0), pairs[j].1)
      requires d == |pairs| - CountPresent(st, keyPrefix, pairs)
      ensures var fin := Run(st, WithCount(MSet(writes), bucket, keyPrefix, d, true)).0;
              Counter(fin, bucket, keyPrefix) == Some(|ElementKeys(fin, keyPrefix)|) &&
              ElementKeys(fin, keyPrefix) == ElementKeys(st, keyPrefix) + KeysOf(keyPrefix, pairs) &&
              fin - (KeysOf(keyPrefix, pairs) + {bucket}) == st - (KeysOf(keyPrefix, pairs) + {bucket}) &&
              OtherCounters(fin, bucket, keyPrefix) == OtherCounters(st, bucket, keyPrefix)
    {
      var K := KeysOf(keyPrefix, pairs);
      var present := CountPresent(st, keyPrefix, pairs);
      var mid := MSetAll(st, writes);
      BucketOutsideElements(prefix, name, digest, sizeMod);
      MSetElements(st, keyPrefix, pairs, writes);
      UnionSize(st, keyPrefix, pairs);
      BucketNotWritten(pairs);
      assert Apply(st, MSet(writes)) == (mid, Done);
      assert |ElementKeys(mid, keyPrefix)| == |ElementKeys(st, keyPrefix)| + d;
      CountedWrite(st, MSet(writes), K, bucket, keyPrefix, d, true);
    }

    /** After the second pipeline of `update` every given key holds its
        value. */
    lemma UpdateValues(st: Keyspace, pairs: seq<(string, string)>, writes: seq<(string, string)>, d: int)
      requires keyPrefix == KeyPrefix(prefix, name) && bucket == BucketKey(prefix, digest, sizeMod)
      requires Counter(st, bucket, keyPrefix).Some?
      requires pairs != [] && DistinctKeys(pairs) && |writes| == |pairs|
      requires forall j :: 0 <= j < |pairs| ==> writes[j] == (GetKey(keyPrefix, pairs[j].0), pairs[j].1)
      ensures Run(st, WithCount(MSet(writes), bucket, keyPrefix, d, true)).1[0] == Done
      ensures var fin := Run(st, WithCount(MSet(writes), bucket, keyPrefix, d, true)).0;
              forall j :: 0 <= j < |pairs| ==>
                GetKey(keyPrefix, pairs[j].0) in fin && fin[GetKey(keyPrefix, pairs[j].0)] == Str(pairs[j].1)
    {
      var mid := MSetAll(st, writes);
      assert Apply(st, MSet(writes)) == (mid, Done);
      RunTwo(st, MSet(writes), HIncrBy(bucket, keyPrefix, d));
      BucketNotWritten(pairs);
      MSetElements(st, keyPrefix, pairs, writes);
      CounterOutside(mid, st, bucket, keyPrefix, KeysOf(keyPrefix, pairs));
      CountSentFrame(st, MSet(writes), bucket, keyPrefix, d);
      var fin := Run(st, WithCount(MSet(writes), bucket, keyPrefix, d, true)).0;
      BucketOutsideElements(prefix, name, digest, sizeMod);
      WritesDistinct(keyPrefix, pairs, writes);
      forall j | 0 <= j < |pairs|
        ensures GetKey(keyPrefix, pairs[j].0) in fin && fin[GetKey(keyPrefix, pairs[j].0)] == Str(pairs[j].1)
      {
        MSetValues(st, writes, j);
        GetKeyIsElement(keyPrefix, pairs[j].0);
        MinusAgree(fin, mid, {bucket}, writes[j].0);
      }
    }

    lemma BucketNotWritten(pairs: seq<(string, string)>)
      requires keyPrefix == KeyPrefix(prefix, name) && bucket == BucketKey(prefix, digest, sizeMod)
      ensures bucket !in KeysOf(keyPrefix, pairs)
    {
      BucketOutsideElements(prefix, name, digest, sizeMod);
      if bucket in KeysOf(keyPrefix, pairs) {
        KeysOfIndex(keyPrefix, pairs, bucket);
        var j :| 0 <= j < |pairs| && bucket == GetKey(keyPrefix, pairs[j].0);
        GetKeyIsElement(keyPrefix, pairs[j].0);
        assert false;
      }
    }

    /** `d.clear()`: DEL of every page of keys a full SCAN of
        "<key prefix>:*" returned, then HDEL of the count, in one pipeline.
        `pages` stands for the SCAN's pages: together they hold exactly the
        element keys. */
    method Clear(pages: seq<seq<string>>) returns (r: bool)
      requires Valid() && PageKeys(pages) == Elements()
      modifies store
      ensures Valid() && r
      ensures Elements() == {}
      ensures store.state - (old(Elements()) + {bucket}) == old(store.state) - (old(Elements()) + {bucket})
      ensures OtherCounters(store.state, bucket, keyPrefix) == old(OtherCounters(store.state, bucket, keyPrefix))
    {
      var st := store.state;
      var cmds: seq<Command> := [];
      var i := 0;
      while i < |pages|
        invariant 0 <= i <= |pages| && store.state == st
        invariant Run(st, cmds).0 == st - PageKeys(pages[..i])
      {
        if pages[i] != [] {
          ClearPageStep(st, cmds, pages, i);
          cmds := cmds + [Del(pages[i])];
        } else {
          assert pages[..i + 1][..i] == pages[..i];
          assert PageKeys(pages[..i + 1]) == PageKeys(pages[..i]);
        }
        i := i + 1;
      }
      assert pages[..|pages|] == pages;
      ClearEffect(st, cmds, pages);
      var replies := store.Execute(cmds + [HDel(bucket, keyPrefix)]);
      r := true;
    }

    /** The pipeline of `clear`, on the keyspace before it. */
    lemma ClearEffect(st: Keyspace, cmds: seq<Command>, pages: seq<seq<string>>)
      requires keyPrefix == KeyPrefix(prefix, name) && bucket == BucketKey(prefix, digest, sizeMod)
      requires Counter(st, bucket, keyPrefix) == Some(|ElementKeys(st, keyPrefix)|)
      requires PageKeys(pages) == ElementKeys(st, keyPrefix)
      requires Run(st, cmds).0 == st - PageKeys(pages)
      ensures Counter(Run(st, cmds + [HDel(bucket, keyPrefix)]).0, bucket, keyPrefix) == Some(0)
      ensures ElementKeys(Run(st, cmds + [HDel(bucket, keyPrefix)]).0, keyPrefix) == {}
      ensures var E := ElementKeys(st, keyPrefix);
              Run(st, cmds + [HDel(bucket, keyPrefix)]).0 - (E + {bucket}) == st - (E + {bucket})
      ensures OtherCounters(Run(st, cmds + [HDel(bucket, keyPrefix)]).0, bucket, keyPrefix) ==
              OtherCounters(st, bucket, keyPrefix)
    {
      var E := ElementKeys(st, keyPrefix);
      BucketOutsideElements(prefix, name, digest, sizeMod);
      var mid := st - E;
      assert bucket !in E;
      assert mid - E == st - E;
      CounterOutside(mid, st, bucket, keyPrefix, E);
      RunSnocHDel(st, cmds, bucket, keyPrefix);
      BucketDelete(mid, bucket, keyPrefix);
      var fin := Run(st, cmds + [HDel(bucket, keyPrefix)]).0;
      assert ElementKeys(mid, keyPrefix) == {};
      ElementKeysOutside(fin, mid, keyPrefix, {bucket});
      assert bucket !in ElementKeys(fin, keyPrefix);
      MinusTrans(fin, mid, st, {bucket}, E);
      assert {bucket} + E == E + {bucket};
    }
  }
}
