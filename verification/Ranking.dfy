/** The order the heuristic sorts a clause's variables by, and the stable sort itself.
    A rank is compared lexicographically; smaller ranks come first. */
module Ranking {

  datatype Rank = Rank(primary: int, secondary: int)

  /** The comparator: x sorts no later than y. */
  predicate RankLe(x: Rank, y: Rank)
  {
    x.primary < y.primary || (x.primary == y.primary && x.secondary <= y.secondary)
  }

  /** A variable with the rank the comparator gives it. */
  datatype Entry = Entry(variable: int, rank: Rank)

  predicate Sorted(s: seq<Entry>)
  {
    forall i, j :: 0 <= i < j < |s| ==> RankLe(s[i].rank, s[j].rank)
  }

  /** Inserts e before the first entry it does not follow, so e precedes entries of equal rank. */
  function Insert(e: Entry, s: seq<Entry>): (r: seq<Entry>)
    ensures |r| == |s| + 1
  {
    if s == [] then [e]
    else if RankLe(e.rank, s[0].rank) then [e] + s
    else [s[0]] + Insert(e, s[1..])
  }

  /** A stable sort (Collections.sort keeps entries of equal rank in their original order). */
  function StableSort(s: seq<Entry>): (r: seq<Entry>)
    ensures |r| == |s|
  {
    if s == [] then [] else Insert(s[0], StableSort(s[1..]))
  }

  /** The position of the earliest entry of minimal rank. */
  function FirstMin(s: seq<Entry>): (i: nat)
    requires |s| > 0
    ensures i < |s|
    ensures forall j :: 0 <= j < |s| ==> RankLe(s[i].rank, s[j].rank)
    ensures forall j :: 0 <= j < i ==> !RankLe(s[j].rank, s[i].rank)
  {
    if |s| == 1 then 0
    else
      var k := 1 + FirstMin(s[1..]);
      if RankLe(s[0].rank, s[k].rank) then 0 else k
  }

  /** s without its entry at position i. */
  function RemoveAt(s: seq<Entry>, i: nat): (r: seq<Entry>)
    requires i < |s|
    ensures |r| == |s| - 1
  {
    s[..i] + s[i + 1..]
  }

  /** The position in s of the first minimum of s without its t-th entry: it ranks no worse
      than every entry but the t-th, and strictly better than every earlier entry but the t-th. */
  lemma NextMin(s: seq<Entry>, t: nat) returns (u: nat)
    requires |s| >= 2 && t < |s|
    ensures var r := RemoveAt(s, t);
      u < |s| && u != t && r[FirstMin(r)] == s[u]
    ensures forall j :: 0 <= j < |s| && j != t ==> RankLe(s[u].rank, s[j].rank)
    ensures forall j :: 0 <= j < u && j != t ==> !RankLe(s[j].rank, s[u].rank)
  {
    var r := RemoveAt(s, t);
    var k := FirstMin(r);
    u := if k < t then k else k + 1;
    assert r[k] == s[u];
    forall j | 0 <= j < |s| && j != t
      ensures RankLe(s[u].rank, s[j].rank)
    {
      assert r[if j < t then j else j - 1] == s[j];
    }
    forall j | 0 <= j < u && j != t
      ensures !RankLe(s[j].rank, s[u].rank)
    {
      assert r[if j < t then j else j - 1] == s[j];
    }
  }

  lemma {:induction false} InsertPermutation(e: Entry, s: seq<Entry>)
    ensures multiset(Insert(e, s)) == multiset(s) + multiset{e}
  {
    if s != [] && !RankLe(e.rank, s[0].rank) {
      InsertPermutation(e, s[1..]);
      assert s == [s[0]] + s[1..];
    }
  }

  /** The sort rearranges its input: the same entries with the same multiplicities. */
  lemma {:induction false} SortPermutation(s: seq<Entry>)
    ensures multiset(StableSort(s)) == multiset(s)
  {
    if s != [] {
      SortPermutation(s[1..]);
      InsertPermutation(s[0], StableSort(s[1..]));
      assert s == [s[0]] + s[1..];
    }
  }

  lemma {:induction false} InsertSorted(e: Entry, s: seq<Entry>)
    requires Sorted(s)
    ensures Sorted(Insert(e, s))
  {
    if s != [] && !RankLe(e.rank, s[0].rank) {
      InsertSorted(e, s[1..]);
      InsertPermutation(e, s[1..]);
      var t := Insert(e, s[1..]);
      forall x: Entry | x in multiset(t)
        ensures RankLe(s[0].rank, x.rank)
      {
        if x != e {
          assert x in multiset(s[1..]);
        }
      }
      forall j | 0 <= j < |t|
        ensures RankLe(s[0].rank, t[j].rank)
      {
        assert t[j] in multiset(t);
      }
    }
  }

  /** The sort orders its output by rank. */
  lemma {:induction false} SortSorted(s: seq<Entry>)
    ensures Sorted(StableSort(s))
  {
    if s != [] {
      SortSorted(s[1..]);
      InsertSorted(s[0], StableSort(s[1..]));
    }
  }

  /** Stability: the sorted sequence starts with the earliest entry of minimal rank and
      continues with the rest sorted the same way. */
  lemma {:induction false} SortHead(s: seq<Entry>)
    requires |s| > 0
    ensures StableSort(s) == [s[FirstMin(s)]] + StableSort(RemoveAt(s, FirstMin(s)))
  {
    var t := s[1..];
    if t == [] {
      assert RemoveAt(s, 0) == [];
    } else {
      var j := FirstMin(t);
      SortHead(t);
      var rest := StableSort(RemoveAt(t, j));
      assert StableSort(t) == [t[j]] + rest;
      if RankLe(s[0].rank, t[j].rank) {
        assert FirstMin(s) == 0;
        assert RemoveAt(s, 0) == t;
      } else {
        assert FirstMin(s) == 1 + j;
        var r := RemoveAt(s, 1 + j);
        assert r == [s[0]] + RemoveAt(t, j);
        assert r[1..] == RemoveAt(t, j);
        assert ([t[j]] + rest)[1..] == rest;
      }
    }
  }

  /** The first two entries of the sort: the earliest minimum, then the earliest minimum of the rest. */
  lemma SortFirstTwo(s: seq<Entry>)
    requires |s| >= 2
    ensures var i := FirstMin(s);
      var r := RemoveAt(s, i);
      |StableSort(s)| == |s| &&
      StableSort(s)[0] == s[i] &&
      StableSort(s)[1] == r[FirstMin(r)]
  {
    var i := FirstMin(s);
    var r := RemoveAt(s, i);
    SortHead(s);
    SortHead(r);
    SortPermutation(s);
    assert |multiset(StableSort(s))| == |multiset(s)|;
  }
}
