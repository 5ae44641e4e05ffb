# redis_structures, modelled in Dafny

`redis_structures` gives Python container behaviour to data kept in a Redis
server: a counted dictionary (`RedisDict`), a list (`RedisList`) and a
sorted set (`RedisSortedSet`). Each is a thin adapter that turns Python
operations into the store's per-key commands. This project models those
adapters over an abstract, in-memory store, together with the string
helpers and log-level algebra of `redis_structures.debug`.

- **The store** (`store.dfy`, module `RedisStore`) is a keyspace
  `map<string, Entry>`. An entry is a string, a hash, a list or a sorted
  set. The commands the adapters send are modelled with their replies and
  errors:
  - GET, SET, EXISTS, DEL, INCRBY, MSET;
  - HGET, HINCRBY, HDEL;
  - LINDEX, LSET, LINSERT BEFORE, LREM, LRANGE, RPUSH, LPOP, RPOP, LLEN;
  - RENAME;
  - ZADD, ZSCORE, ZRANK, ZREVRANK, ZRANGE, ZCARD.

  Wrong types give WRONGTYPE and leave the state unchanged, and emptied
  lists disappear. A pipeline runs its commands one after the other. The
  `Store` class holds the keyspace and changes it in place.
- **List and sorted-set semantics** (`list_commands.dfy`, `sorted_entries.dfy`):
  - LRANGE with clamped negative indices, LINSERT at the first occurrence
    and LREM with its count;
  - Python slicing;
  - the sentinel tricks that fake index addressing;
  - sorted entries ordered by score then by member name, with ranks.
- **Key addressing** (`keys.dfy`): `key_prefix`, `get_key`, `_hashed_key` and
  `_bucket_key`. The md5 digest of the key prefix is a natural-number
  parameter.
- **Adapters**, one class each, whose methods send the same commands in the
  same order as the Python:
  - `RedisDict` (`redis_dict.dfy`) proves that the shared bucket field
    equals the number of element keys under the dictionary's key prefix,
    and that every operation of the dictionary preserves this, `clear`
    being taken with its default pattern `"*"`. That holds for sequential
    use, provided no other structure writes keys under that prefix and the
    key prefix holds none of the glob characters `*`, `?`, `[` or `\`.
  - `RedisList` (`redis_list.dfy`) proves that `insert`, `pop`, `reverse`
    and the paging loops of `iter` and `reverse_iter` compute Python's list
    semantics.
  - `RedisSortedSet` (`redis_sorted_set.dfy`) proves the dual addressing
    and that the `reversed` flag swaps the two ranks.
- **Debug helpers** (`debug.dfy`): `padd`, `cut` on text without colour
  codes, `table_mapping`, and `Logg`'s `set_level`, `should_log` and `add`.

Choices that differ from a live deployment:
- Serialisation is off, so stored strings are the Python values.
- Integers are unbounded.
- Numbers stored as strings are read and written with `ParseInt` and
  `IntText` (`numerals.dfy`).
- Sorted-set scores are integers.
- Random names (the temporary list of `reverse`, the sentinels of `insert`
  and `pop`) are parameters, with a precondition that they are fresh.
- Reversing an empty list raises the store's "no such key" error, because
  the temporary list is never created before RENAME. The model returns that
  error.

## Model

| member | source | states |
|---|---|---|
| Keys.RStripColons | redis_structures/__init__.py:121 | `prefix.rstrip(":")`: the result is a prefix of the input, does not end in ':', and only colons were removed |
| Keys.KeyPrefixShape | redis_structures/__init__.py:141-151 | for a name that is non-empty and does not end in ':', the key prefix is the stripped prefix, ':' and the name |
| Keys.KeyPrefixStartsWithPrefix | redis_structures/__init__.py:141-151 | every element key starts with the stripped prefix followed by ':' |
| Keys.GetKeyExample | tests/redis_map.py:56-59 | `get_key("views")` of map "json_map" under "rs:unit_tests:" is "rs:unit_tests:json_map:views" |
| Keys.ShardBound | redis_structures/__init__.py:686-690 | the shard (hash mod 10^size_mod, divided by 1000 when above 1000) is at most 1000 or below a thousandth of 10^size_mod |
| Keys.DefaultShardRange | redis_structures/__init__.py:153-159 | with the default size_mod 5 the shard lies in [0, 1000] |
| Keys.BucketKeyIsNoElementKey | redis_structures/__init__.py:686-690 | the bucket key "<prefix>.size.<shard>" is never an element key of a dictionary |
| Numerals.ParseIntText | redis_structures/__init__.py:681-683 | reading back a written integer gives the integer (the count field round-trips) |
| Numerals.TextOfParseInt | redis_structures/__init__.py:681-683 | a text that parses is the canonical writing of its value |
| ListCommands.LIndex | redis_structures/__init__.py:1292-1293 | LINDEX answers exactly when -len <= index < len, with the element at the normalised index |
| ListCommands.LSet | redis_structures/__init__.py:1295-1297 | LSET succeeds exactly in range and overwrites only that position |
| ListCommands.FirstIndex | redis_structures/__init__.py:1404-1413 | the first position holding x, or nothing exactly when x is absent |
| ListCommands.LInsertBefore | redis_structures/__init__.py:1428-1432 | LINSERT BEFORE fails exactly when the pivot is absent |
| ListCommands.RemoveAll | redis_structures/__init__.py:1439-1441 | LREM 0 x leaves no copy of x |
| ListCommands.RemoveAllCounts | redis_structures/__init__.py:1439-1441 | LREM 0 x: x's multiplicity drops to 0 and every other element's multiplicity is kept |
| ListCommands.RemoveFirstCounts | redis_structures/__init__.py:1439-1441 | LREM with a count removes min(count, occurrences) copies and keeps the others |
| ListCommands.ForwardWindow | redis_structures/__init__.py:1488-1493 | an LRANGE window with 0 <= start <= stop is the slice [start, stop] cut at the end |
| ListCommands.BackwardWindow | redis_structures/__init__.py:1345-1350 | an LRANGE window with both ends negative is the suffix-relative slice, empty once stop is before the head |
| ListCommands.ReverseInvolution | redis_structures/__init__.py:1348 | reversing twice gives the list back |
| ListCommands.SliceAsWrittenAgrees | redis_structures/__init__.py:1282-1288 | the slice translation `LRANGE(start or 0, (stop or 0) - 1)` equals Python slicing whenever stop is not 0 |
| ListCommands.SliceAsWrittenZeroStop | redis_structures/__init__.py:1284-1285 | on a one-element list `l[:0]` reads the element, where Python gives [] |
| ListCommands.Slice | redis_structures/__init__.py:1282-1288 | the corrected translation equals Python slicing for every start and stop |
| ListCommands.SentinelInsert | redis_structures/__init__.py:1415-1437 | overwrite with a fresh sentinel, two LINSERTs before it and LREM of it leave v at j and the old occupant at j+1 |
| ListCommands.SentinelDelete | redis_structures/__init__.py:1362-1367 | overwrite with a fresh sentinel and LREM of it removes exactly position j |
| SortedEntries.RankPlusRevRank | redis_structures/__init__.py:2061-2075 | ZRANK + ZREVRANK of a member is size - 1 |
| SortedEntries.RankFollowsScore | redis_structures/__init__.py:2061-2067 | a lower score means a lower ascending rank |
| SortedEntries.ZAddValid | redis_structures/__init__.py:2011-2041 | ZADD of one member keeps the entries sorted with each member once; the entries are the old ones except m's, plus m's new one |
| SortedEntries.ZAddOwnScore | redis_structures/__init__.py:1958-1960 | after ZADD the member has the new score |
| SortedEntries.ZAddOtherScore | redis_structures/__init__.py:1958-1960 | ZADD leaves every other member's score (or absence) unchanged |
| RedisStore.Run | redis_structures/__init__.py:646-653 | a pipeline answers one reply per command |
| RedisStore.RunReadOnly | redis_structures/__init__.py:739-742 | a pipeline of read-only commands leaves the keyspace unchanged |
| RedisStore.Store.Execute | redis_structures/__init__.py:646-653 | a pipeline's commands run in order on the store, replies in order |
| RedisDictModel.BucketIncr | redis_structures/__init__.py:650-651 | HINCRBY on the count moves it by d and changes nothing else, not even the other dictionaries' counts |
| RedisDictModel.CountedWrite | redis_structures/__init__.py:646-671 | a write plus a conditional ±1 keeps "count = number of element keys" when the ±1 matches the change in element keys |
| RedisDictModel.ExistsChecks | redis_structures/__init__.py:738-741 | the EXISTS pipeline changes nothing and its 1-replies count the keys already present |
| RedisDictModel.UnionSize | redis_structures/__init__.py:746 | adding n distinct keys of which p exist grows the element set by n - p |
| RedisDictModel.MSetElements | redis_structures/__init__.py:742-745 | MSET of element keys adds exactly those keys and changes no other key |
| RedisDictModel.RedisDict.SetItem | redis_structures/__init__.py:646-653 | `d[k] = v`: k holds v, the elements gain k, the count stays equal to the elements, nothing else changes |
| RedisDictModel.RedisDict.GetItem | redis_structures/__init__.py:655-662 | `d[k]`: the stored text; KeyError for a missing key and for an empty text |
| RedisDictModel.RedisDict.DelItem | redis_structures/__init__.py:664-671 | `del d[k]`: the reply is 1 exactly when k existed; k gone; the count stays equal to the elements |
| RedisDictModel.RedisDict.Incr | redis_structures/__init__.py:716-723 | `incr(k, by)`: k holds old value + by (or by when absent); error and no change on a non-integer; the count stays exact |
| RedisDictModel.RedisDict.Size | redis_structures/__init__.py:680-683 | `len(d)` is the number of element keys (0 when the field is missing) |
| RedisDictModel.RedisDict.Update | redis_structures/__init__.py:733-749 | `update(data)`: None and no change for empty data; otherwise the MSET reply True, every key holds its value, the elements gain exactly the keys, the count stays exact |
| RedisDictModel.RedisDict.constructor | redis_structures/__init__.py:610-636 | `RedisDict(name, data)`: the key prefix and bucket key are derived from the name, prefix and digest, and `update(data)` runs: the count matches the elements, which gain exactly the keys of data, each holding its value |
| RedisDictModel.RedisDict.UpdateEffect | redis_structures/__init__.py:742-748 | MSET plus HINCRBY by len(data) minus the present count keeps the count exact |
| RedisDictModel.RedisDict.Clear | redis_structures/__init__.py:751-761 | `clear()`: every element key deleted, the count reads 0, other dictionaries' counts unchanged |
| RedisDictModel.RedisDict.ClearEffect | redis_structures/__init__.py:751-761 | DEL of all SCAN pages then HDEL of the field leaves no elements and a 0 count |
| RedisListModel.TempKeyDiffers | redis_structures/__init__.py:1336-1339 | the temporary list of `reverse`, nested under the list's key prefix, never has the list's own key |
| RedisListModel.InsertOutcome | redis_structures/__init__.py:1415-1437 | LINDEX, LSET of the sentinel, the two LINSERTs and LREM, from the starting keyspace: the first LINSERT answers len + 1, the value lands at the normalised index, no other key changes |
| RedisListModel.PopAtOutcome | redis_structures/__init__.py:1362-1367 | LINDEX, LSET of the sentinel and LREM, from the starting keyspace: the item at the normalised index is read and exactly that position removed, no other key changes |
| RedisListModel.InsertPipeline | redis_structures/__init__.py:1428-1435 | the two LINSERTs before the sentinel put the value and the old occupant before it, and answer len + 1 |
| RedisListModel.RenameEffect | redis_structures/__init__.py:1351 | RENAME of the temporary list moves its items to the list's key and removes the temporary key |
| RedisListModel.WindowFromTail | redis_structures/__init__.py:1341-1350 | each 1000-wide window from the tail, reversed, extends the reversed suffix read so far; a window is empty exactly when everything was read |
| RedisListModel.RedisList.constructor | redis_structures/__init__.py:1242-1255 | `RedisList(name, data)`: the list at the key prefix becomes what it held followed by data; no other key changes |
| RedisListModel.RedisList.Extend | redis_structures/__init__.py:1369-1376 | `extend(items)`: the list becomes old + items, nothing else changes |
| RedisListModel.RedisList.Size | redis_structures/__init__.py:1312-1315 | `len(l)` is the number of items |
| RedisListModel.RedisList.GetItem | redis_structures/__init__.py:1276-1293 | `l[i]`: the item at the normalised index, nothing exactly when out of range |
| RedisListModel.RedisList.GetSlice | redis_structures/__init__.py:1276-1293 | `l[a:b]` equals Python slicing (with the zero-stop correction) |
| RedisListModel.RedisList.SetItem | redis_structures/__init__.py:1295-1297 | `l[i] = v`: in range, only position i changes; otherwise the store's error, no change |
| RedisListModel.RedisList.Remove | redis_structures/__init__.py:1439-1441 | `remove(item, count)`: the list becomes LREM of it |
| RedisListModel.RedisList.Clear | redis_structures/__init__.py:161-163 | `clear()`: the key is gone; the reply is 1 exactly when the list was non-empty |
| RedisListModel.RedisList.Pop | redis_structures/__init__.py:1354-1367 | `pop()` / `pop(0)` / `pop(i)`: in range, the item at i is returned and exactly that position removed; otherwise no change |
| RedisListModel.RedisList.Insert | redis_structures/__init__.py:1415-1437 | `insert(i, v)`: in range, v at i, the rest shifted, reply len + 1; otherwise the error and no change |
| RedisListModel.RedisList.Iter | redis_structures/__init__.py:1478-1493 | `iter(start, count)` yields every item from start on, once and in order |
| RedisListModel.RedisList.ReverseIter | redis_structures/__init__.py:1317-1329 | `reverse_iter()` yields the reverse of the list |
| RedisListModel.RedisList.AppendReversed | redis_structures/__init__.py:1340-1350 | the LRANGE loop of `reverse()`: the empty temporary list ends up holding the source reversed, the source and every other key unchanged |
| RedisListModel.RedisList.Reverse | redis_structures/__init__.py:1331-1352 | `reverse()`: a non-empty list becomes its reverse and no other key changes; an empty one raises "no such key" with no change |
| RedisListModel.RedisList.Count | redis_structures/__init__.py:1384-1394 | `count(v)` is the multiplicity of v |
| RedisListModel.RedisList.Index | redis_structures/__init__.py:1404-1413 | `index(x)`: the first position of x, nothing exactly when x is absent |
| RedisSortedSetModel.RankIn | redis_structures/__init__.py:2061-2075 | a member's rank in an order is its position there, nothing exactly when it is not a member |
| RedisSortedSetModel.RankInSum | redis_structures/__init__.py:2061-2075 | rank in one order plus rank in the other is size - 1, whichever order is the default |
| RedisSortedSetModel.ZAddAllValid | redis_structures/__init__.py:2011-2041 | ZADD of pairs keeps the set sorted with each member once, and non-empty after a non-empty add |
| RedisSortedSetModel.ZAddAllScore | redis_structures/__init__.py:2011-2041 | after ZADD of pairs each named member has the score of the last pair naming it; others keep theirs |
| RedisSortedSetModel.ZAddAllCount | redis_structures/__init__.py:2011-2041 | the ZADD reply (new members) is how much the set grew |
| RedisSortedSetModel.RankQuery | redis_structures/__init__.py:2061-2075 | ZREVRANK answers the descending rank, ZRANK the ascending one |
| RedisSortedSetModel.ZAddOutcome | redis_structures/__init__.py:2011-2041 | ZADD of pairs on a well-formed key keeps it well formed, stores the updated entries, answers the number of new members, which is how much the set grew, and changes no other key |
| RedisSortedSetModel.RedisSortedSet.constructor | redis_structures/__init__.py:1926-1948 | `RedisSortedSet(name, data, reversed=...)`: the pairs of data are added with ZADD; the set stays well formed and no other key changes |
| RedisSortedSetModel.RedisSortedSet.Add | redis_structures/__init__.py:2011-2041 | `add(...)`: None and no change without pairs; otherwise the reply is the number of new members, the size grows by exactly that, the entries are the ZADD of the pairs, the invariant holds, no other key changes |
| RedisSortedSetModel.RedisSortedSet.SetItem | redis_structures/__init__.py:1958-1960 | `z[m] = s`: m has score s, other scores unchanged, reply 1 exactly when m was new |
| RedisSortedSetModel.RedisSortedSet.GetScore | redis_structures/__init__.py:1972-1978 | `z[m]`: m's score, KeyError exactly when m is not a member |
| RedisSortedSetModel.RedisSortedSet.Contains | redis_structures/__init__.py:1988-1991 | `m in z` exactly when m is a member |
| RedisSortedSetModel.RedisSortedSet.Size | redis_structures/__init__.py:1998-2000 | `size` is the number of members |
| RedisSortedSetModel.RedisSortedSet.Rank | redis_structures/__init__.py:2061-2067 | `rank(m)`: m's position in the default order (descending when reversed) |
| RedisSortedSetModel.RedisSortedSet.RevRank | redis_structures/__init__.py:2069-2075 | `revrank(m)`: m's position in the opposite order |
| RedisSortedSetModel.RedisSortedSet.Iter | redis_structures/__init__.py:2085-2106 | `iter(start, stop, reverse)`: the inclusive window of the order given by reverse, or by `reversed` when it is None |
| RedisSortedSetModel.RedisSortedSet.GetSlice | redis_structures/__init__.py:1966-1971 | `z[a:b]` equals Python slicing of the members in the default order (with the zero-stop correction) |
| RedisSortedSetModel.RankIsPosition | redis_structures/__init__.py:2061-2075 | the member at position i of the ascending entries has rank i, and reverse rank size - 1 - i |
| RedisSortedSetModel.IterAll | redis_structures/__init__.py:2085 | the default window 0..-1 reads every member once, in order |
| RedisSortedSetModel.SliceAsWrittenZeroStop | redis_structures/__init__.py:1968-1969 | on a one-member set, the window 0..-1 that `z[:0]` translates to reads the member, where Python's slice is empty |
| RedisSortedSetModel.RankTestExample | tests/redis_sorted_set.py:375-392 | on the eleven-member test set, "hello2" has rank 2 ascending and 8 descending, "hello4" 6 and 4 |
| Debug.Padd | redis_structures/debug/__init__.py:153-164 | a missing or empty padding returns the text unchanged |
| Debug.PaddFrame | redis_structures/debug/__init__.py:136-164 | the result is the text framed by exactly `size` newlines on top ('top'/'all') and bottom ('bottom'/'all'), so it strips back to the text |
| Debug.PaddOther | redis_structures/debug/__init__.py:154-163 | any other non-empty padding name returns the text unchanged |
| Debug.PaddCaseInsensitive | redis_structures/debug/__init__.py:154 | the padding name's letter case does not matter |
| Debug.PaddExamples | redis_structures/debug/__init__.py:144-150 | `padd("Hello world")` and `padd(..., size=5, padding="all")` give the documented strings |
| Debug.Cut | redis_structures/debug/__init__.py:228-269 | text that fits is unchanged; longer text becomes its first length - len(marker) characters plus the marker, exactly `length` long; a length shorter than the marker fails |
| Debug.TableMapping | redis_structures/debug/__init__.py:335-340 | an empty mapping gives ""; a non-empty one a non-empty table |
| Debug.TableMappingLines | redis_structures/debug/__init__.py:335-339 | split at its newlines, the table is one line per pair, in order, each the key right-aligned to one more than the longest key plus the padding, in bold, then the separator and the value (when no key, value or separator holds a newline) |
| Debug.TableMappingExample | redis_structures/debug/__init__.py:321-323 | `table_mapping({"key1": "val1", "key2": "val2"})` is the two documented lines: each key right-aligned to width 6 in bold, a space, the value |
| Debug.TableAligned | redis_structures/debug/__init__.py:335-339 | every key is right-aligned in a column one wider than the longest key plus the padding |
| Debug.LevelUnion | redis_structures/debug/__init__.py:1494-1497 | the union of the letters' types exists exactly when every letter is a known level |
| Debug.LevelUnionMembers | redis_structures/debug/__init__.py:1494-1497 | a type is in the union exactly when one of the level's letters admits it |
| Debug.LevelExamples | redis_structures/debug/__init__.py:1396-1415 | level "n" admits exactly notice, warning and error; level "v" every type |
| Debug.Logg.SetLevel | redis_structures/debug/__init__.py:1487-1506 | `set_level("")` returns None and changes nothing; otherwise levelmap is the union and `should_log(t)` holds exactly when a letter admits t; an unknown letter raises, leaving levelmap the union of the letters before the first unknown one and loglevel unchanged |
| Debug.Logg.ShouldLog | redis_structures/debug/__init__.py:1500-1506 | `should_log(t)` holds exactly when t is in levelmap; once a level is recorded with its union as levelmap, exactly when one of the level's letters admits t |
| Debug.ShouldLogLetters | redis_structures/debug/__init__.py:1500-1506 | once a level is recorded with its union as levelmap, `should_log(t)`'s test `t in levelmap` holds exactly when one of the level's letters admits t |
| Debug.Logg.Add | redis_structures/debug/__init__.py:1468-1476 | `add(*msgs)`: messages appended in order, the same logger returned |
| Debug.Logg.constructor | redis_structures/debug/__init__.py:1417-1446 | a new logger holds the messages and the level given, or "v" |

## Left out

- Network, connection pools and pipeline transport: a pipeline is a list of commands run one after the other on the keyspace.
- Concurrency: `RedisDict` checks existence outside its pipeline, so two writers can both count the same new key. Only sequential use is modelled, and the count invariant is proved for it.
- md5 in `_hashed_key`: a foreign hash. The digest is a parameter.
- Serialisers (json, ujson, pickle) and `_loads`/`_dumps`: serialisation is off, so values are stored as they are. `insert` re-inserting the old value without serialising it is therefore not modelled.
- `RedisList.Pop`, `RedisList.Insert`: the random sentinel is a parameter that must not occur in the list (and, for insert, differ from the value).
- `RedisList.Reverse`: the random temporary name is a parameter whose key must be absent.
- `RedisList.Iter`: a negative count is excluded. With count -1 the source's window `start..start+count` never advances, so `iter(0, -1)` yields the whole list again and again without end. Every caller in the module uses the default count of 1000.
- `RedisList.Iter`: the contract covers a non-negative start. A negative start restarts the window arithmetic from the tail, and that case is not stated.
- `RedisList.ReverseIter`: only the default call, without start and stop arguments, is modelled.
- Slice steps: only step 1 is modelled.
- Float scores and `cast=float`: sorted-set scores are integers. `withscores` and score casting are not modelled.
- 64-bit integer overflow of INCRBY and HINCRBY: integers are unbounded.
- TTL and expiry: wall-clock time.
- `RedisDict.Clear`: only the default pattern `match="*"` is modelled. In the source, a narrower pattern such as `"a*"` deletes only the matching element keys but still deletes the count field, so the keys left behind are no longer counted and `len()` reads 0.
- `RedisDict.Clear`: the pages must hold exactly the element keys. In the source, `scan` sends `<key prefix>:<match>` to SCAN as a glob, so a key prefix holding `*`, `?`, `[` or `\` breaks this. For example, for a dictionary named `d[x]`, the pattern `<prefix>:d[x]:*` matches the keys of a dictionary named `dx` and not its own. `clear()` then deletes the other dictionary's elements, leaving that dictionary's count stale, keeps its own keys, and still drops its own count, so `len()` reads 0.
- `RedisDict.Size`: the count field is parsed as canonical decimal text. Python's `int` also accepts "+5", "007", " 5" and "1_0", for which the model answers a ValueError. HINCRBY only writes canonical text, so this cannot arise under `Valid()`.
- SCAN cursors: `RedisDict.Clear` takes the pages of one full scan as a parameter. Together they must hold exactly the element keys.
- `Debug.Cut`: only text without ANSI colour codes is modelled. The colour-span skipping and the trailing reset code are left out.
- `Debug.Lower`: lower-casing is ASCII only, where Python's `lower()` follows Unicode.
- `Logg.constructor`: the level must consist of known letters. In the source, an unknown letter makes `set_level` raise KeyError from `__init__`, after part of the union has been built. A constructor cannot fail here, so that path is modelled only by `Logg.SetLevel`, which returns the error.
- `RedisDict`: the count invariant assumes that no other structure writes keys under the dictionary's key prefix. A dictionary named "a:b" under the same prefix writes `<prefix>:a:b:k`, which is an element key of dictionary "a" that "a"'s count does not include. The source behaves the same way: `len()` then disagrees with what the SCAN-based `clear` deletes.
- `RedisDict.constructor`: the count already stored for the key prefix must match its element keys, as a dictionary created earlier with the same name would have left it.
- `Logg.add_level`: mutates the class-wide level table, so the table is a constant here.
- The rest of the debug module: printing, terminal sizes, introspection, random data, timers and progress bars.
- RedisSet, RedisHash, RedisMap's scanning methods and RedisDefaultDict.

## Findings

| source | as written | input that shows it | evidently intended | confidence | as-written member | corrected member |
|---|---|---|---|---|---|---|
| redis_structures/__init__.py:1284-1285 | `l[a:0]` translates the stop to `(0 or 0) - 1 = -1`, which LRANGE reads as "to the end" | list `[x]`, `l[:0]` returns `[x]` | Python slicing: `l[:0] == []` | not executed | ListCommands.SliceAsWrittenZeroStop | RedisListModel.RedisList.GetSlice |
| redis_structures/__init__.py:1968-1969 | a stop of 0 is falsy, so `z[a:0]` reads up to the last member | one-member set, `z[:0]` returns that member | Python slicing: `z[:0] == []` | not executed | RedisSortedSetModel.SliceAsWrittenZeroStop | RedisSortedSetModel.RedisSortedSet.GetSlice |
