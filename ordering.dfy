/** The table of readings seen through `ORDER BY timestamp DESC`. SQL fixes the
    order only up to ties: any ordering in which timestamps never increase is
    admissible (IsDescendingView). SortedView computes one such ordering, and the
    lemmas show that every admissible ordering lists the same timestamps. */
module Ordering {
  import opened Schemas

  /** Every entry is stored under its own id (the primary key). */
  predicate WellKeyed(m: map<int, Reading>) {
    forall k :: k in m ==> m[k].id == k
  }

  /** The order SortedView uses: later timestamp first, ties broken by larger id. */
  predicate ListedNoLater(m: map<int, Reading>, j: int, k: int)
    requires j in m && k in m
  {
    m[j].timestamp > m[k].timestamp || (m[j].timestamp == m[k].timestamp && j >= k)
  }

  /** Key `k` comes first in the table under ListedNoLater. */
  predicate IsFirst(m: map<int, Reading>, k: int) {
    k in m && forall j :: j in m ==> ListedNoLater(m, k, j)
  }

  lemma FirstExists(m: map<int, Reading>)
    requires m != map[]
    ensures exists k :: IsFirst(m, k)
    decreases |m|
  {
    assert !(forall j :: j !in m) by {
      if forall j :: j !in m { assert false; }
    }
    var x :| x in m;
    var rest := m - {x};
    if rest == map[] {
      forall j | j in m ensures ListedNoLater(m, x, j) {
        assert j !in rest;
      }
      assert IsFirst(m, x);
    } else {
      FirstExists(rest);
      var k :| IsFirst(rest, k);
      if ListedNoLater(m, k, x) {
        forall j | j in m ensures ListedNoLater(m, k, j) {
          if j != x { assert ListedNoLater(rest, k, j); }
        }
        assert IsFirst(m, k);
      } else {
        forall j | j in m ensures ListedNoLater(m, x, j) {
          if j != x { assert ListedNoLater(rest, k, j); }
        }
        assert IsFirst(m, x);
      }
    }
  }

  /** The whole table, listed by timestamp descending. */
  function SortedView(m: map<int, Reading>): (v: seq<Reading>)
    ensures |v| == |m|
    decreases |m|
  {
    if m == map[] then []
    else
      FirstExists(m);
      var k :| IsFirst(m, k);
      [m[k]] + SortedView(m - {k})
  }

  ghost predicate NonIncreasing(s: seq<Reading>) {
    forall i, j :: 0 <= i < j < |s| ==> s[i].timestamp >= s[j].timestamp
  }

  ghost predicate DistinctIds(s: seq<Reading>) {
    forall i, j :: 0 <= i < j < |s| ==> s[i].id != s[j].id
  }

  /** Every element of `s` is the entry of `m` stored under its id. */
  ghost predicate EntriesOf(m: map<int, Reading>, s: seq<Reading>) {
    forall i :: 0 <= i < |s| ==> s[i].id in m && m[s[i].id] == s[i]
  }

  /** Every key of `m` is the id of some element of `s`. */
  ghost predicate Covers(m: map<int, Reading>, s: seq<Reading>) {
    forall k :: k in m ==> exists i :: 0 <= i < |s| && s[i].id == k
  }

  /** `s` lists every entry of `m` exactly once, with timestamps never increasing:
      an ordering that `ORDER BY timestamp DESC` may produce. */
  ghost predicate IsDescendingView(m: map<int, Reading>, s: seq<Reading>) {
    && |s| == |m|
    && DistinctIds(s)
    && NonIncreasing(s)
    && EntriesOf(m, s)
    && Covers(m, s)
  }

  /** No two entries share a timestamp. */
  ghost predicate DistinctTimestamps(m: map<int, Reading>) {
    forall j, k :: j in m && k in m && j != k ==> m[j].timestamp != m[k].timestamp
  }

  lemma {:induction false} SortedViewIsDescending(m: map<int, Reading>)
    requires WellKeyed(m)
    ensures IsDescendingView(m, SortedView(m))
    decreases |m|
  {
    if m != map[] {
      FirstExists(m);
      var k :| IsFirst(m, k);
      var rest := m - {k};
      assert SortedView(m) == [m[k]] + SortedView(rest);
      SortedViewIsDescending(rest);
      var w := SortedView(rest);
      forall i | 0 <= i < |w| ensures m[k].timestamp >= w[i].timestamp {
        assert w[i].id in rest && ListedNoLater(m, k, w[i].id);
      }
      PrependEntries(m, k, w);
      PrependOrdered(m, k, w);
      PrependCovers(m, k, w);
    }
  }

  /** Prepending the entry under `k` to a list of the other entries lists entries. */
  lemma PrependEntries(m: map<int, Reading>, k: int, w: seq<Reading>)
    requires k in m && m[k].id == k && EntriesOf(m - {k}, w)
    ensures EntriesOf(m, [m[k]] + w)
  {
    var v := [m[k]] + w;
    forall i | 0 < i < |v|
      ensures v[i].id in m && m[v[i].id] == v[i]
    {
      assert v[i] == w[i - 1] && w[i - 1].id in m - {k};
    }
  }

  /** Prepending an entry at least as late as all others, and not among them,
      keeps the list ordered and free of repeated ids. */
  lemma PrependOrdered(m: map<int, Reading>, k: int, w: seq<Reading>)
    requires k in m && m[k].id == k && EntriesOf(m - {k}, w)
    requires NonIncreasing(w) && DistinctIds(w)
    requires forall i :: 0 <= i < |w| ==> m[k].timestamp >= w[i].timestamp
    ensures NonIncreasing([m[k]] + w) && DistinctIds([m[k]] + w)
  {
    var v := [m[k]] + w;
    forall i, j | 0 <= i < j < |v|
      ensures v[i].timestamp >= v[j].timestamp && v[i].id != v[j].id
    {
      assert v[j] == w[j - 1] && w[j - 1].id in m - {k};
      if i > 0 { assert v[i] == w[i - 1]; }
    }
  }

  lemma PrependCovers(m: map<int, Reading>, k: int, w: seq<Reading>)
    requires k in m && m[k].id == k && Covers(m - {k}, w)
    ensures Covers(m, [m[k]] + w)
  {
    var v := [m[k]] + w;
    forall j | j in m
      ensures exists i :: 0 <= i < |v| && v[i].id == j
    {
      if j == k {
        assert v[0].id == j;
      } else {
        assert j in m - {k};
        var i :| 0 <= i < |w| && w[i].id == j;
        assert v[i + 1] == w[i];
      }
    }
  }

  /** The first entry of an admissible ordering has the latest timestamp. */
  lemma HeadIsLatest(m: map<int, Reading>, s: seq<Reading>, k: int)
    requires IsDescendingView(m, s) && k in m
    ensures |s| > 0 && s[0].timestamp >= m[k].timestamp
  {
    var i :| 0 <= i < |s| && s[i].id == k;
    if i > 0 { assert s[0].timestamp >= s[i].timestamp; }
  }

  /** Any two admissible orderings list the same timestamps position by position:
      the tie order is the only freedom SQL leaves. */
  lemma {:induction false} DescendingViewsAgree(m: map<int, Reading>, v1: seq<Reading>, v2: seq<Reading>)
    requires IsDescendingView(m, v1) && IsDescendingView(m, v2)
    ensures |v1| == |v2|
    ensures forall i :: 0 <= i < |v1| ==> v1[i].timestamp == v2[i].timestamp
    decreases |v1|
  {
    if |v1| > 0 {
      var top := v1[0];
      HeadIsLatest(m, v1, v2[0].id);
      HeadIsLatest(m, v2, top.id);
      var j :| 0 <= j < |v2| && v2[j].id == top.id;
      assert v2[j] == top;
      TailIsView(m, v1, 0);
      TailIsView(m, v2, j);
      DescendingViewsAgree(m - {top.id}, RemoveAt(v1, 0), RemoveAt(v2, j));
      ReinsertAgree(v1, v2, j);
    }
  }

  /** If `v1` and `v2` agree on timestamps once `v1[0]` and `v2[j]` are removed,
      and all three of v1[0], v2[0], v2[j] carry the same timestamp, they agree
      on timestamps everywhere. */
  lemma ReinsertAgree(v1: seq<Reading>, v2: seq<Reading>, j: int)
    requires |v1| == |v2| && 0 <= j < |v2|
    requires NonIncreasing(v2)
    requires v1[0].timestamp == v2[0].timestamp == v2[j].timestamp
    requires forall i :: 0 <= i < |v1| - 1 ==> RemoveAt(v1, 0)[i].timestamp == RemoveAt(v2, j)[i].timestamp
    ensures forall i :: 0 <= i < |v1| ==> v1[i].timestamp == v2[i].timestamp
  {
    var r1, r2 := RemoveAt(v1, 0), RemoveAt(v2, j);
    forall i | 0 < i < |v1|
      ensures v1[i].timestamp == v2[i].timestamp
    {
      assert v1[i] == r1[i - 1];
      if i <= j {
        // v2[i - 1] and v2[i] lie in the run v2[0..j] of equal timestamps
        assert r2[i - 1] == v2[i - 1];
        assert v2[0].timestamp >= v2[i - 1].timestamp >= v2[i].timestamp >= v2[j].timestamp;
      } else {
        assert r2[i - 1] == v2[i];
      }
    }
  }

  /** `s` without its element at position `p`. */
  function RemoveAt(s: seq<Reading>, p: int): (r: seq<Reading>)
    requires 0 <= p < |s|
    ensures |r| == |s| - 1
    ensures forall i :: 0 <= i < p ==> r[i] == s[i]
    ensures forall i :: p <= i < |r| ==> r[i] == s[i + 1]
  {
    s[..p] + s[p + 1..]
  }

  /** Removing one entry from an admissible ordering leaves an admissible
      ordering of the table without that entry. */
  lemma TailIsView(m: map<int, Reading>, s: seq<Reading>, p: int)
    requires IsDescendingView(m, s) && 0 <= p < |s|
    ensures IsDescendingView(m - {s[p].id}, RemoveAt(s, p))
  {
    RemoveEntries(m, s, p);
    RemoveOrdered(s, p);
    RemoveCovers(m, s, p);
  }

  lemma RemoveEntries(m: map<int, Reading>, s: seq<Reading>, p: int)
    requires EntriesOf(m, s) && DistinctIds(s) && 0 <= p < |s|
    ensures EntriesOf(m - {s[p].id}, RemoveAt(s, p))
  {
    var r := RemoveAt(s, p);
    forall i | 0 <= i < |r|
      ensures r[i].id in m - {s[p].id} && (m - {s[p].id})[r[i].id] == r[i]
    {
      if i < p {
        assert r[i] == s[i] && s[i].id != s[p].id;
      } else {
        assert r[i] == s[i + 1] && s[p].id != s[i + 1].id;
      }
    }
  }

  lemma RemoveOrdered(s: seq<Reading>, p: int)
    requires NonIncreasing(s) && DistinctIds(s) && 0 <= p < |s|
    ensures NonIncreasing(RemoveAt(s, p)) && DistinctIds(RemoveAt(s, p))
  {
    var r := RemoveAt(s, p);
    forall i, j | 0 <= i < j < |r|
      ensures r[i].timestamp >= r[j].timestamp && r[i].id != r[j].id
    {
      var a := if i < p then i else i + 1;
      var b := if j < p then j else j + 1;
      assert a < b && r[i] == s[a] && r[j] == s[b];
    }
  }

  lemma RemoveCovers(m: map<int, Reading>, s: seq<Reading>, p: int)
    requires Covers(m, s) && 0 <= p < |s|
    ensures Covers(m - {s[p].id}, RemoveAt(s, p))
  {
    var r := RemoveAt(s, p);
    forall k | k in m - {s[p].id}
      ensures exists i :: 0 <= i < |r| && r[i].id == k
    {
      var q :| 0 <= q < |s| && s[q].id == k;
      if q < p { assert r[q] == s[q]; } else { assert r[q - 1] == s[q]; }
    }
  }

  /** When no two entries share a timestamp, the admissible ordering is unique. */
  lemma DescendingViewUnique(m: map<int, Reading>, v1: seq<Reading>, v2: seq<Reading>)
    requires DistinctTimestamps(m)
    requires IsDescendingView(m, v1) && IsDescendingView(m, v2)
    ensures v1 == v2
  {
    DescendingViewsAgree(m, v1, v2);
    forall i | 0 <= i < |v1|
      ensures v1[i] == v2[i]
    {
      assert m[v1[i].id] == v1[i] && m[v2[i].id] == v2[i];
    }
  }
}
