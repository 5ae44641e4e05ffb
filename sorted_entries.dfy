/** The store's sorted-set value: entries kept in ascending order of score,
    ties broken by the byte-wise order of the member names. A member's rank
    is its position in that order, so ranks are derived and never stored.
    Scores are integers here. */
module SortedEntries {
  import opened Wrappers
  import opened ListCommands

  datatype ZEntry = ZEntry(member: string, score: int)

  /** Lexicographic order on member names (the store's tie-break). */
  predicate StrLess(a: string, b: string) {
    if a == [] then b != []
    else if b == [] then false
    else if a[0] != b[0] then a[0] < b[0]
    else StrLess(a[1..], b[1..])
  }

  lemma {:induction false} StrLessIrreflexive(a: string)
    ensures !StrLess(a, a)
  {
    if a != [] {
      StrLessIrreflexive(a[1..]);
    }
  }

  lemma {:induction false} StrLessTransitive(a: string, b: string, c: string)
    requires StrLess(a, b) && StrLess(b, c)
    ensures StrLess(a, c)
  {
    if a != [] && b != [] && c != [] && a[0] == b[0] && b[0] == c[0] {
      StrLessTransitive(a[1..], b[1..], c[1..]);
    }
  }

  lemma {:induction false} StrLessTotal(a: string, b: string)
    requires a != b
    ensures StrLess(a, b) || StrLess(b, a)
  {
    if a != [] && b != [] && a[0] == b[0] {
      assert a == [a[0]] + a[1..] && b == [b[0]] + b[1..];
      StrLessTotal(a[1..], b[1..]);
    }
  }

  /** x sorts before y: a lower score, or the same score and a smaller name. */
  predicate Before(x: ZEntry, y: ZEntry) {
    x.score < y.score || (x.score == y.score && StrLess(x.member, y.member))
  }

  lemma BeforeTransitive(x: ZEntry, y: ZEntry, z: ZEntry)
    requires Before(x, y) && Before(y, z)
    ensures Before(x, z)
  {
    if x.score == y.score == z.score {
      StrLessTransitive(x.member, y.member, z.member);
    }
  }

  lemma BeforeTotal(x: ZEntry, y: ZEntry)
    requires x.member != y.member
    ensures Before(x, y) || Before(y, x)
  {
    StrLessTotal(x.member, y.member);
  }

  ghost predicate Sorted(es: seq<ZEntry>) {
    forall i, j :: 0 <= i < j < |es| ==> Before(es[i], es[j])
  }

  ghost predicate DistinctMembers(es: seq<ZEntry>) {
    forall i, j :: 0 <= i < j < |es| ==> es[i].member != es[j].member
  }

  /** What the store keeps for a sorted set: each member once, in order. */
  ghost predicate ValidEntries(es: seq<ZEntry>) {
    Sorted(es) && DistinctMembers(es)
  }

  /** The member names in ascending order. */
  function Members(es: seq<ZEntry>): (r: seq<string>)
    ensures |r| == |es|
    ensures forall i :: 0 <= i < |es| ==> r[i] == es[i].member
  {
    if es == [] then [] else [es[0].member] + Members(es[1..])
  }

  /** The member names in ascending order, or descending when `desc`. */
  function Ordered(es: seq<ZEntry>, desc: bool): seq<string> {
    if desc then Reverse(Members(es)) else Members(es)
  }

  /** ZSCORE: the member's score, or nothing when it is not a member. */
  function Score(es: seq<ZEntry>, m: string): (r: Option<int>)
    ensures r.None? <==> m !in Members(es)
  {
    match FirstIndex(Members(es), m)
    case None => None
    case Some(i) => Some(es[i].score)
  }

  /** ZRANK: the position in ascending order. */
  function Rank(es: seq<ZEntry>, m: string): Option<nat> {
    FirstIndex(Ordered(es, false), m)
  }

  /** ZREVRANK: the position in descending order. */
  function RevRank(es: seq<ZEntry>, m: string): Option<nat> {
    FirstIndex(Ordered(es, true), m)
  }

  /** ZRANGE key start stop [REV]: a window of positions in the chosen order. */
  function Range(es: seq<ZEntry>, start: int, stop: int, desc: bool): seq<string> {
    LRange(Ordered(es, desc), start, stop)
  }

  /** A member's ascending and descending ranks add up to size - 1. */
  lemma RankPlusRevRank(es: seq<ZEntry>, m: string)
    requires DistinctMembers(es) && m in Members(es)
    ensures Rank(es, m).Some? && RevRank(es, m).Some?
    ensures Rank(es, m).value + RevRank(es, m).value == |es| - 1
  {
    var ms := Members(es);
    var i := Rank(es, m).value;
    assert m in Reverse(ms) by {
      ReverseAt(ms, |ms| - 1 - i);
    }
    var j := RevRank(es, m).value;
    ReverseAt(ms, j);
    assert ms[|ms| - 1 - j] == m == ms[i];
  }

  /** Ranks follow scores: a member with a lower score has a lower rank. */
  lemma RankFollowsScore(es: seq<ZEntry>, a: string, b: string)
    requires ValidEntries(es) && a in Members(es) && b in Members(es)
    requires Score(es, a).value < Score(es, b).value
    ensures Rank(es, a).value < Rank(es, b).value
  {
    var i, j := Rank(es, a).value, Rank(es, b).value;
    assert es[i].member == a && es[j].member == b;
    ScoreAt(es, i);
    ScoreAt(es, j);
    assert es[i].score < es[j].score;
    assert !Before(es[j], es[i]);
  }

  /** The score of the entry at a position is the score of its member. */
  lemma ScoreAt(es: seq<ZEntry>, i: nat)
    requires DistinctMembers(es) && i < |es|
    ensures Score(es, es[i].member) == Some(es[i].score)
  {
    assert Members(es)[i] == es[i].member;
    var k := FirstIndex(Members(es), es[i].member).value;
    assert es[k].member == es[i].member;
  }

  /** The first position at which e sorts before the entry already there. */
  function InsertPos(es: seq<ZEntry>, e: ZEntry): (k: nat)
    ensures k <= |es|
    ensures forall i :: 0 <= i < k ==> !Before(e, es[i])
    ensures k < |es| ==> Before(e, es[k])
  {
    if es == [] || Before(e, es[0]) then 0 else 1 + InsertPos(es[1..], e)
  }

  function Insert(es: seq<ZEntry>, e: ZEntry): seq<ZEntry> {
    es[..InsertPos(es, e)] + [e] + es[InsertPos(es, e)..]
  }

  /** The entries without the one for m. */
  function RemoveMember(es: seq<ZEntry>, m: string): seq<ZEntry> {
    match FirstIndex(Members(es), m)
    case None => es
    case Some(i) => es[..i] + es[i + 1..]
  }

  /** ZADD key score m: m's entry is replaced, or created, at its place in
      the order. */
  function ZAdd(es: seq<ZEntry>, m: string, score: int): seq<ZEntry> {
    Insert(RemoveMember(es, m), ZEntry(m, score))
  }

  /** Dropping one position keeps the entries sorted and distinct. */
  lemma DropValid(es: seq<ZEntry>, i: nat)
    requires ValidEntries(es) && i < |es|
    ensures ValidEntries(es[..i] + es[i + 1..])
  {
    var r := es[..i] + es[i + 1..];
    assert forall k :: 0 <= k < |r| ==> r[k] == es[if k < i then k else k + 1];
  }

  lemma RemoveMemberValid(es: seq<ZEntry>, m: string)
    requires ValidEntries(es)
    ensures ValidEntries(RemoveMember(es, m))
    ensures forall k :: 0 <= k < |RemoveMember(es, m)| ==> RemoveMember(es, m)[k].member != m
    ensures forall x :: x in RemoveMember(es, m) ==> x in es
    ensures forall k :: 0 <= k < |es| && es[k].member != m ==> es[k] in RemoveMember(es, m)
  {
    match FirstIndex(Members(es), m)
    case None =>
    case Some(i) =>
      DropValid(es, i);
      RemovedEntries(es, i);
  }

  lemma RemovedEntries(es: seq<ZEntry>, i: nat)
    requires DistinctMembers(es) && i < |es|
    ensures var r := es[..i] + es[i + 1..];
            (forall k :: 0 <= k < |r| ==> r[k].member != es[i].member) &&
            (forall x :: x in r ==> x in es) &&
            (forall k :: 0 <= k < |es| && k != i ==> es[k] in r)
  {
    var r := es[..i] + es[i + 1..];
    assert forall k :: 0 <= k < |r| ==> r[k] == es[if k < i then k else k + 1];
    forall k | 0 <= k < |es| && k != i ensures es[k] in r {
      assert r[if k < i then k else k - 1] == es[k];
    }
  }

  lemma InsertValid(es: seq<ZEntry>, e: ZEntry)
    requires ValidEntries(es)
    requires forall i :: 0 <= i < |es| ==> es[i].member != e.member
    ensures ValidEntries(Insert(es, e))
    ensures forall x :: x in Insert(es, e) <==> x in es || x == e
  {
    var k := InsertPos(es, e);
    var r := Insert(es, e);
    assert |r| == |es| + 1;
    assert forall i :: 0 <= i < |r| ==> r[i] == (if i < k then es[i] else if i == k then e else es[i - 1]);
    forall i | 0 <= i < k ensures Before(es[i], e) {
      BeforeTotal(es[i], e);
    }
    forall i | k <= i < |es| ensures Before(e, es[i]) {
      if i > k {
        BeforeTransitive(e, es[k], es[i]);
      }
    }
    forall i, j | 0 <= i < j < |r| ensures Before(r[i], r[j]) && r[i].member != r[j].member {
    }
    forall x ensures x in r <==> x in es || x == e {
      if x in es {
        var i :| 0 <= i < |es| && es[i] == x;
        assert r[if i < k then i else i + 1] == x;
      }
    }
  }

  /** ZADD keeps the entries sorted with each member once; its entries are
      the old ones other than m's, plus m's new one. */
  lemma ZAddValid(es: seq<ZEntry>, m: string, score: int)
    requires ValidEntries(es)
    ensures ValidEntries(ZAdd(es, m, score))
    ensures forall x :: x in ZAdd(es, m, score) <==> (x in es && x.member != m) || x == ZEntry(m, score)
  {
    var rm := RemoveMember(es, m);
    RemoveMemberValid(es, m);
    InsertValid(rm, ZEntry(m, score));
    forall x | x in es && x.member != m ensures x in rm {
      var k :| 0 <= k < |es| && es[k] == x;
    }
  }

  /** The score of a member is the score of the entry that holds it. */
  lemma ScoreOfEntry(es: seq<ZEntry>, x: ZEntry)
    requires DistinctMembers(es) && x in es
    ensures Score(es, x.member) == Some(x.score)
  {
    var i :| 0 <= i < |es| && es[i] == x;
    ScoreAt(es, i);
  }

  /** ZADD gives m the new score. */
  lemma ZAddOwnScore(es: seq<ZEntry>, m: string, score: int)
    requires ValidEntries(es)
    ensures Score(ZAdd(es, m, score), m) == Some(score)
  {
    ZAddValid(es, m, score);
    ScoreOfEntry(ZAdd(es, m, score), ZEntry(m, score));
  }

  /** ZADD leaves every other member's score as it was, or absent. */
  lemma ZAddOtherScore(es: seq<ZEntry>, m: string, score: int, other: string)
    requires ValidEntries(es) && other != m
    ensures Score(ZAdd(es, m, score), other) == Score(es, other)
  {
    var r := ZAdd(es, m, score);
    ZAddValid(es, m, score);
    if other in Members(es) {
      var i := FirstIndex(Members(es), other).value;
      ScoreAt(es, i);
      ScoreOfEntry(r, es[i]);
    } else {
      forall j | 0 <= j < |r| ensures Members(r)[j] != other {
        if r[j] != ZEntry(m, score) {
          var i :| 0 <= i < |es| && es[i] == r[j];
          assert Members(es)[i] == es[i].member;
        }
      }
    }
  }
}
