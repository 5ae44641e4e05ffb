/** The key-value store the adapters talk to, as an in-memory keyspace: one
    map from key to a typed value (a string, a hash of fields, a list or a
    sorted set). Commands are data; `Apply` gives the new keyspace and the
    reply of one command, and a pipeline runs its commands one after the
    other. As in the store, a command that fails leaves the keyspace alone
    and does not stop the commands queued after it; a list, hash or sorted
    set that becomes empty is deleted. Integers are unbounded. */
module RedisStore {
  import opened Wrappers
  import opened Numerals
  import LC = ListCommands
  import SE = SortedEntries

  datatype Entry =
    | Str(text: string)
    | Hash(fields: map<string, string>)
    | List(items: seq<string>)
    | ZSet(entries: seq<SE.ZEntry>)

  type Keyspace = map<string, Entry>

  datatype Command =
    | Get(key: string)
    | Set(key: string, value: string)
    | Exists(key: string)
    | Del(keys: seq<string>)
    | Incr(key: string, delta: int)
    | MSet(pairs: seq<(string, string)>)
    | HGet(key: string, field: string)
    | HIncrBy(key: string, field: string, delta: int)
    | HDel(key: string, field: string)
    | LIndex(key: string, index: int)
    | LSet(key: string, index: int, value: string)
    | LInsertBefore(key: string, pivot: string, value: string)
    | LRem(key: string, count: int, value: string)
    | LRange(key: string, start: int, stop: int)
    | RPush(key: string, items: seq<string>)
    | LPop(key: string)
    | RPop(key: string)
    | LLen(key: string)
    | Rename(src: string, dst: string)
    | ZAdd(key: string, scored: seq<(int, string)>)
    | ZScore(key: string, member: string)
    | ZRank(key: string, member: string)
    | ZRevRank(key: string, member: string)
    | ZRange(key: string, start: int, stop: int, desc: bool)
    | ZCard(key: string)

  datatype Reply =
    | Done
    | Int(n: int)
    | Bulk(value: Option<string>)
    | Items(items: seq<string>)
    | Num(num: Option<int>)
    | Error(message: string)

  const WrongType := "WRONGTYPE Operation against a key holding the wrong kind of value"
  const NotInteger := "ERR value is not an integer or out of range"
  const HashNotInteger := "ERR hash value is not an integer"
  const NoSuchKey := "ERR no such key"
  const OutOfRange := "ERR index out of range"
  const WrongArity := "ERR wrong number of arguments"

  /** Commands that only read. */
  predicate ReadOnly(c: Command) {
    c.Get? || c.Exists? || c.HGet? || c.LIndex? || c.LRange? || c.LLen? ||
    c.ZScore? || c.ZRank? || c.ZRevRank? || c.ZRange? || c.ZCard?
  }

  function GetCmd(ks: Keyspace, key: string): Reply {
    if key !in ks then Bulk(None)
    else if ks[key].Str? then Bulk(Some(ks[key].text))
    else Error(WrongType)
  }

  /** DEL: every named key is removed; the reply counts those that existed. */
  function DelCmd(ks: Keyspace, keys: seq<string>): (Keyspace, Reply) {
    if keys == [] then (ks, Error(WrongArity))
    else
      var gone := set k | k in keys && k in ks;
      (ks - gone, Int(|gone|))
  }

  /** INCRBY: a missing key counts as 0; a value that is not a canonical
      decimal is an error. */
  function IncrCmd(ks: Keyspace, key: string, delta: int): (Keyspace, Reply) {
    if key !in ks then (ks[key := Str(IntText(delta))], Int(delta))
    else if !ks[key].Str? then (ks, Error(WrongType))
    else match ParseInt(ks[key].text)
      case None => (ks, Error(NotInteger))
      case Some(n) => (ks[key := Str(IntText(n + delta))], Int(n + delta))
  }

  /** MSET: the pairs are written in order (a later pair wins). */
  function MSetAll(ks: Keyspace, pairs: seq<(string, string)>): Keyspace {
    if pairs == [] then ks
    else MSetAll(ks, pairs[..|pairs| - 1])[pairs[|pairs| - 1].0 := Str(pairs[|pairs| - 1].1)]
  }

  function HGetCmd(ks: Keyspace, key: string, field: string): Reply {
    if key !in ks then Bulk(None)
    else if !ks[key].Hash? then Error(WrongType)
    else if field in ks[key].fields then Bulk(Some(ks[key].fields[field]))
    else Bulk(None)
  }

  /** HINCRBY: a missing hash or field counts as 0. */
  function HIncrByCmd(ks: Keyspace, key: string, field: string, delta: int): (Keyspace, Reply) {
    if key !in ks then (ks[key := Hash(map[field := IntText(delta)])], Int(delta))
    else if !ks[key].Hash? then (ks, Error(WrongType))
    else
      var f := ks[key].fields;
      if field !in f then (ks[key := Hash(f[field := IntText(delta)])], Int(delta))
      else match ParseInt(f[field])
        case None => (ks, Error(HashNotInteger))
        case Some(n) => (ks[key := Hash(f[field := IntText(n + delta)])], Int(n + delta))
  }

  /** HDEL: a hash left without fields is deleted. */
  function HDelCmd(ks: Keyspace, key: string, field: string): (Keyspace, Reply) {
    if key !in ks then (ks, Int(0))
    else if !ks[key].Hash? then (ks, Error(WrongType))
    else if field !in ks[key].fields then (ks, Int(0))
    else
      var f := ks[key].fields - {field};
      (if f == map[] then ks - {key} else ks[key := Hash(f)], Int(1))
  }

  /** Writes a list back, deleting the key when the list became empty. */
  function PutList(ks: Keyspace, key: string, s: seq<string>): Keyspace {
    if s == [] then ks - {key} else ks[key := List(s)]
  }

  function LIndexCmd(ks: Keyspace, key: string, index: int): Reply {
    if key !in ks then Bulk(None)
    else if !ks[key].List? then Error(WrongType)
    else Bulk(LC.LIndex(ks[key].items, index))
  }

  function LSetCmd(ks: Keyspace, key: string, index: int, value: string): (Keyspace, Reply) {
    if key !in ks then (ks, Error(NoSuchKey))
    else if !ks[key].List? then (ks, Error(WrongType))
    else match LC.LSet(ks[key].items, index, value)
      case None => (ks, Error(OutOfRange))
      case Some(s) => (ks[key := List(s)], Done)
  }

  /** LINSERT key BEFORE pivot value: 0 when the key is missing, -1 when the
      pivot is not in the list, otherwise the new length. */
  function LInsertCmd(ks: Keyspace, key: string, pivot: string, value: string): (Keyspace, Reply) {
    if key !in ks then (ks, Int(0))
    else if !ks[key].List? then (ks, Error(WrongType))
    else match LC.LInsertBefore(ks[key].items, pivot, value)
      case None => (ks, Int(-1))
      case Some(s) => (ks[key := List(s)], Int(|s|))
  }

  /** LREM: the reply is the number of elements removed. */
  function LRemCmd(ks: Keyspace, key: string, count: int, value: string): (Keyspace, Reply) {
    if key !in ks then (ks, Int(0))
    else if !ks[key].List? then (ks, Error(WrongType))
    else
      var s := LC.LRem(ks[key].items, count, value);
      (PutList(ks, key, s), Int(|ks[key].items| - |s|))
  }

  function LRangeCmd(ks: Keyspace, key: string, start: int, stop: int): Reply {
    if key !in ks then Items([])
    else if !ks[key].List? then Error(WrongType)
    else Items(LC.LRange(ks[key].items, start, stop))
  }

  /** RPUSH: appends, creating the list; the reply is the new length. */
  function RPushCmd(ks: Keyspace, key: string, items: seq<string>): (Keyspace, Reply) {
    if items == [] then (ks, Error(WrongArity))
    else if key !in ks then (ks[key := List(items)], Int(|items|))
    else if !ks[key].List? then (ks, Error(WrongType))
    else (ks[key := List(ks[key].items + items)], Int(|ks[key].items| + |items|))
  }

  /** LPOP (head) and RPOP (tail): nothing when the key is missing. */
  function PopCmd(ks: Keyspace, key: string, head: bool): (Keyspace, Reply) {
    if key !in ks then (ks, Bulk(None))
    else if !ks[key].List? then (ks, Error(WrongType))
    else
      var s := ks[key].items;
      if s == [] then (ks, Bulk(None))
      else if head then (PutList(ks, key, s[1..]), Bulk(Some(s[0])))
      else (PutList(ks, key, s[..|s| - 1]), Bulk(Some(s[|s| - 1])))
  }

  function LLenCmd(ks: Keyspace, key: string): Reply {
    if key !in ks then Int(0)
    else if !ks[key].List? then Error(WrongType)
    else Int(|ks[key].items|)
  }

  /** RENAME: the value moves to dst, replacing whatever dst held. */
  function RenameCmd(ks: Keyspace, src: string, dst: string): (Keyspace, Reply) {
    if src !in ks then (ks, Error(NoSuchKey))
    else if src == dst then (ks, Done)
    else ((ks - {src})[dst := ks[src]], Done)
  }

  /** ZADD with score/member pairs applied in order; the count is of members
      that were not in the set before. */
  function ZAddAll(es: seq<SE.ZEntry>, pairs: seq<(int, string)>): (seq<SE.ZEntry>, nat) {
    if pairs == [] then (es, 0)
    else
      var prev := ZAddAll(es, pairs[..|pairs| - 1]);
      var p := pairs[|pairs| - 1];
      (SE.ZAdd(prev.0, p.1, p.0), prev.1 + if p.1 in SE.Members(prev.0) then 0 else 1)
  }

  function ZAddCmd(ks: Keyspace, key: string, pairs: seq<(int, string)>): (Keyspace, Reply) {
    if pairs == [] then (ks, Error(WrongArity))
    else if key in ks && !ks[key].ZSet? then (ks, Error(WrongType))
    else
      var es := if key in ks then ks[key].entries else [];
      var r := ZAddAll(es, pairs);
      (ks[key := ZSet(r.0)], Int(r.1))
  }

  function AsInt(o: Option<nat>): Option<int> {
    match o
    case None => None
    case Some(n) => Some(n)
  }

  /** ZSCORE, ZRANK and ZREVRANK (selected by `which`: 0, 1, 2). */
  function ZLookupCmd(ks: Keyspace, key: string, member: string, which: nat): Reply {
    if key !in ks then Num(None)
    else if !ks[key].ZSet? then Error(WrongType)
    else
      var es := ks[key].entries;
      Num(if which == 0 then SE.Score(es, member)
          else if which == 1 then AsInt(SE.Rank(es, member))
          else AsInt(SE.RevRank(es, member)))
  }

  function ZRangeCmd(ks: Keyspace, key: string, start: int, stop: int, desc: bool): Reply {
    if key !in ks then Items([])
    else if !ks[key].ZSet? then Error(WrongType)
    else Items(SE.Range(ks[key].entries, start, stop, desc))
  }

  function ZCardCmd(ks: Keyspace, key: string): Reply {
    if key !in ks then Int(0)
    else if !ks[key].ZSet? then Error(WrongType)
    else Int(|ks[key].entries|)
  }

  /** One command: the new keyspace and the reply. */
  function Apply(ks: Keyspace, c: Command): (Keyspace, Reply) {
    match c
    case Get(key) => (ks, GetCmd(ks, key))
    case Set(key, value) => (ks[key := Str(value)], Done)
    case Exists(key) => (ks, Int(if key in ks then 1 else 0))
    case Del(keys) => DelCmd(ks, keys)
    case Incr(key, delta) => IncrCmd(ks, key, delta)
    case MSet(pairs) => if pairs == [] then (ks, Error(WrongArity)) else (MSetAll(ks, pairs), Done)
    case HGet(key, field) => (ks, HGetCmd(ks, key, field))
    case HIncrBy(key, field, delta) => HIncrByCmd(ks, key, field, delta)
    case HDel(key, field) => HDelCmd(ks, key, field)
    case LIndex(key, index) => (ks, LIndexCmd(ks, key, index))
    case LSet(key, index, value) => LSetCmd(ks, key, index, value)
    case LInsertBefore(key, pivot, value) => LInsertCmd(ks, key, pivot, value)
    case LRem(key, count, value) => LRemCmd(ks, key, count, value)
    case LRange(key, start, stop) => (ks, LRangeCmd(ks, key, start, stop))
    case RPush(key, items) => RPushCmd(ks, key, items)
    case LPop(key) => PopCmd(ks, key, true)
    case RPop(key) => PopCmd(ks, key, false)
    case LLen(key) => (ks, LLenCmd(ks, key))
    case Rename(src, dst) => RenameCmd(ks, src, dst)
    case ZAdd(key, pairs) => ZAddCmd(ks, key, pairs)
    case ZScore(key, member) => (ks, ZLookupCmd(ks, key, member, 0))
    case ZRank(key, member) => (ks, ZLookupCmd(ks, key, member, 1))
    case ZRevRank(key, member) => (ks, ZLookupCmd(ks, key, member, 2))
    case ZRange(key, start, stop, desc) => (ks, ZRangeCmd(ks, key, start, stop, desc))
    case ZCard(key) => (ks, ZCardCmd(ks, key))
  }

  /** A pipeline: the commands in order, each on the keyspace the previous
      one left, with one reply per command. */
  function Run(ks: Keyspace, cmds: seq<Command>): (res: (Keyspace, seq<Reply>))
    ensures |res.1| == |cmds|
  {
    if cmds == [] then (ks, [])
    else
      var prev := Run(ks, cmds[..|cmds| - 1]);
      var last := Apply(prev.0, cmds[|cmds| - 1]);
      (last.0, prev.1 + [last.1])
  }

  lemma RunOne(ks: Keyspace, a: Command)
    ensures Run(ks, [a]) == (Apply(ks, a).0, [Apply(ks, a).1])
  {
    assert [a][..0] == [];
    assert Run(ks, []) == (ks, []);
    assert [] + [Apply(ks, a).1] == [Apply(ks, a).1];
  }

  lemma RunTwo(ks: Keyspace, a: Command, b: Command)
    ensures var first := Apply(ks, a);
            Run(ks, [a, b]) == (Apply(first.0, b).0, [first.1, Apply(first.0, b).1])
  {
    assert [a, b][..1] == [a];
    RunOne(ks, a);
    assert [Apply(ks, a).1] + [Apply(Apply(ks, a).0, b).1] == [Apply(ks, a).1, Apply(Apply(ks, a).0, b).1];
  }

  /** Queuing one more command runs it on what the others left. */
  lemma RunSnoc(ks: Keyspace, cmds: seq<Command>, c: Command)
    ensures var prev := Run(ks, cmds);
            Run(ks, cmds + [c]) == (Apply(prev.0, c).0, prev.1 + [Apply(prev.0, c).1])
  {
    assert (cmds + [c])[..|cmds|] == cmds;
  }

  /** A pipeline of reads leaves the keyspace as it was, and each reply is
      what the command would answer on its own. */
  lemma {:induction false} RunReadOnly(ks: Keyspace, cmds: seq<Command>)
    requires forall i :: 0 <= i < |cmds| ==> ReadOnly(cmds[i])
    ensures Run(ks, cmds).0 == ks
    ensures forall i :: 0 <= i < |cmds| ==> Run(ks, cmds).1[i] == Apply(ks, cmds[i]).1
  {
    if cmds != [] {
      var init := cmds[..|cmds| - 1];
      RunReadOnly(ks, init);
      ReadStep(ks, init, cmds[|cmds| - 1]);
      assert init + [cmds[|cmds| - 1]] == cmds;
      forall i | 0 <= i < |cmds| ensures Run(ks, cmds).1[i] == Apply(ks, cmds[i]).1 {
        if i < |init| {
          assert init[i] == cmds[i];
        }
      }
    }
  }

  /** A read appended to a pipeline that left the keyspace as it was keeps
      it so, and adds the read's own reply. */
  lemma ReadStep(ks: Keyspace, init: seq<Command>, c: Command)
    requires ReadOnly(c) && Run(ks, init).0 == ks
    ensures Run(ks, init + [c]) == (ks, Run(ks, init).1 + [Apply(ks, c).1])
  {
    RunSnoc(ks, init, c);
    ReadOnlyKeeps(ks, c);
  }

  /** A read leaves the keyspace as it was. */
  lemma ReadOnlyKeeps(ks: Keyspace, c: Command)
    requires ReadOnly(c)
    ensures Apply(ks, c).0 == ks
  {
  }

  /** Two keyspaces that agree outside S agree on every key outside S. */
  lemma MinusAgree(a: Keyspace, b: Keyspace, S: set<string>, k: string)
    requires a - S == b - S && k !in S
    ensures (k in a <==> k in b) && (k in a ==> a[k] == b[k])
  {
    assert k in a <==> k in a - S;
    assert k in b <==> k in b - S;
    if k in a {
      assert (a - S)[k] == a[k];
      assert (b - S)[k] == b[k];
    }
  }

  lemma MinusTrans(a: Keyspace, b: Keyspace, c: Keyspace, S: set<string>, T: set<string>)
    requires a - S == b - S && b - T == c - T
    ensures a - (S + T) == c - (S + T)
  {
    forall k | k !in S + T ensures (k in a <==> k in c) && (k in a ==> a[k] == c[k]) {
      MinusAgree(a, b, S, k);
      MinusAgree(b, c, T, k);
    }
  }

  lemma MinusWiden(a: Keyspace, b: Keyspace, S: set<string>, T: set<string>)
    requires a - S == b - S && S <= T
    ensures a - T == b - T
  {
    forall k | k !in T ensures (k in a <==> k in b) && (k in a ==> a[k] == b[k]) {
      MinusAgree(a, b, S, k);
    }
  }

  /** The store itself: the keyspace, changed in place by the commands sent
      to it. */
  class Store {
    var state: Keyspace

    constructor(initial: Keyspace)
      ensures state == initial
    {
      state := initial;
    }

    /** Sends one command. */
    method Do(c: Command) returns (r: Reply)
      modifies this
      ensures (state, r) == Apply(old(state), c)
    {
      var res := Apply(state, c);
      state := res.0;
      r := res.1;
    }

    /** Sends a read-only command: nothing changes. */
    method Query(c: Command) returns (r: Reply)
      requires ReadOnly(c)
      ensures r == Apply(state, c).1
    {
      r := Apply(state, c).1;
    }

    /** Executes a pipeline: the commands run one after the other and the
        replies come back in order. */
    method Execute(cmds: seq<Command>) returns (replies: seq<Reply>)
      modifies this
      ensures (state, replies) == Run(old(state), cmds)
    {
      replies := [];
      var i := 0;
      while i < |cmds|
        invariant 0 <= i <= |cmds|
        invariant (state, replies) == Run(old(state), cmds[..i])
      {
        assert cmds[..i + 1][..i] == cmds[..i];
        var res := Apply(state, cmds[i]);
        state := res.0;
        replies := replies + [res.1];
        i := i + 1;
      }
      assert cmds[..|cmds|] == cmds;
    }
  }
}
