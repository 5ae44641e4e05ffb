/** Key addressing: the key prefix of a structure, the store key of one of
    its elements, and the shard ("bucket") key that holds a counted
    dictionary's size. The md5 digest of the key prefix is supplied by the
    caller as a natural number; the hash itself is not modelled. */
module Keys {
  import opened Numerals

  /** Python's `s.rstrip(":")`. */
  function RStripColons(s: string): (r: string)
    ensures |r| <= |s| && r == s[..|r|]
    ensures r == [] || r[|r| - 1] != ':'
    ensures forall i :: |r| <= i < |s| ==> s[i] == ':'
  {
    if s != [] && s[|s| - 1] == ':' then RStripColons(s[..|s| - 1]) else s
  }

  /** `key_prefix`: the prefix with its trailing colons stripped, a colon,
      the name, and trailing colons stripped again. */
  function KeyPrefix(prefix: string, name: string): string {
    RStripColons(RStripColons(prefix) + ":" + name)
  }

  /** `get_key`: the store key of one element of a map-like structure. */
  function GetKey(keyPrefix: string, key: string): string {
    keyPrefix + ":" + key
  }

  /** A name that is not empty and does not end in a colon is kept whole
      after the stripped prefix and one colon. */
  lemma {:induction false} KeyPrefixShape(prefix: string, name: string)
    requires name != [] && name[|name| - 1] != ':'
    ensures KeyPrefix(prefix, name) == RStripColons(prefix) + ":" + name
  {
  }

  /** A key prefix never ends in a colon and always starts with the stripped
      prefix; right after it comes a colon in every element key. */
  lemma KeyPrefixStartsWithPrefix(prefix: string, name: string, key: string)
    ensures var p, kp := RStripColons(prefix), KeyPrefix(prefix, name);
            |p| < |GetKey(kp, key)| && GetKey(kp, key)[..|p|] == p && GetKey(kp, key)[|p|] == ':'
  {
    var p := RStripColons(prefix);
    var s := p + ":" + name;
    var kp := RStripColons(s);
    assert p == [] || s[|p| - 1] != ':';
    assert |kp| >= |p|;
    assert kp[..|p|] == s[..|p|] == p;
    var g := GetKey(kp, key);
    assert g[..|p|] == kp[..|p|];
    if |kp| > |p| {
      assert g[|p|] == kp[|p|] == s[|p|];
    } else {
      assert g[|p|] == ':';
    }
  }

  function Pow10(e: nat): (r: nat)
    ensures r >= 1
  {
    if e == 0 then 1 else 10 * Pow10(e - 1)
  }

  /** `_hashed_key`: the md5 digest (as a number) reduced modulo 10^size_mod. */
  function HashedKey(digest: nat, sizeMod: nat): nat {
    digest % Pow10(sizeMod)
  }

  /** The shard number of `_bucket_key`: hashed keys above 1000 are divided by
      1000, the others are kept as they are. */
  function Shard(hashed: nat): nat {
    if hashed > 1000 then hashed / 1000 else hashed
  }

  /** `_bucket_key`: "<prefix>.size.<shard>". */
  function BucketKey(prefix: string, digest: nat, sizeMod: nat): string {
    RStripColons(prefix) + ".size." + Digits(Shard(HashedKey(digest, sizeMod)))
  }

  /** The shard never exceeds 1000, nor a thousandth of 10^size_mod. */
  lemma ShardBound(digest: nat, sizeMod: nat)
    ensures var b := Shard(HashedKey(digest, sizeMod));
            b <= 1000 || b * 1000 < Pow10(sizeMod)
  {
    var h := HashedKey(digest, sizeMod);
    assert h < Pow10(sizeMod);
  }

  /** With the default size_mod of 5 there are at most 1001 buckets: the
      shard lies in [0, 1000]. */
  lemma DefaultShardRange(digest: nat)
    ensures 0 <= Shard(HashedKey(digest, 5)) <= 1000
  {
    assert Pow10(5) == 100000;
    ShardBound(digest, 5);
  }

  /** The bucket key of a counted dictionary is never one of its element
      keys: right after the stripped prefix it has a '.', every element key
      a ':'. */
  lemma BucketKeyIsNoElementKey(prefix: string, name: string, digest: nat, sizeMod: nat, key: string)
    ensures BucketKey(prefix, digest, sizeMod) != GetKey(KeyPrefix(prefix, name), key)
  {
    var p := RStripColons(prefix);
    KeyPrefixStartsWithPrefix(prefix, name, key);
    var b := BucketKey(prefix, digest, sizeMod);
    assert b[|p|] == '.';
  }

  /** The example of the test suite: prefix "rs:unit_tests:", name "json_map",
      element "views". */
  lemma GetKeyExample()
    ensures GetKey(KeyPrefix("rs:unit_tests:", "json_map"), "views") == "rs:unit_tests:json_map:views"
  {
    assert RStripColons("rs:unit_tests:") == "rs:unit_tests" by {
      assert "rs:unit_tests:"[..13] == "rs:unit_tests";
    }
    KeyPrefixShape("rs:unit_tests:", "json_map");
  }
}
