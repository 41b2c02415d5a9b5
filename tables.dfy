/** The `order: [["createdAt", "DESC"]]` of the list queries: the keys of a
    table listed newest first. A table is seen here through its creation
    times, `id -> createdAt`; creation times are distinct (they come from a
    strictly increasing clock), so the order is fully determined. */
module Tables {

  /** A table seen through its creation times, `id -> createdAt`, for any
      record type with its creation-time column. */
  function CreationTimes<R>(rows: map<int, R>, createdAt: R -> int): (times: map<int, int>)
    ensures times.Keys == rows.Keys && |times| == |rows|
    ensures forall k :: k in rows ==> times[k] == createdAt(rows[k])
  {
    var times := map k | k in rows :: createdAt(rows[k]);
    assert times.Keys == rows.Keys;
    assert |times| == |times.Keys| == |rows.Keys| == |rows|;
    times
  }

  /** No two rows were created at the same time. */
  predicate Distinct(times: map<int, int>)
  {
    forall a, b :: a in times && b in times && a != b ==> times[a] != times[b]
  }

  /** k is the most recently created row. */
  predicate IsNewest(times: map<int, int>, k: int)
  {
    k in times && forall j :: j in times ==> times[j] <= times[k]
  }

  lemma SomeKey(times: map<int, int>)
    requires |times| > 0
    ensures exists k :: k in times
  {
    if forall k :: k !in times {
      assert false;
    }
  }

  lemma {:induction false} NewestExists(times: map<int, int>)
    requires |times| > 0
    ensures exists k :: IsNewest(times, k)
    decreases |times|
  {
    SomeKey(times);
    var a :| a in times;
    var rest := times - {a};
    assert |rest| == |times| - 1;
    if |rest| == 0 {
      forall j | j in times ensures times[j] <= times[a] {
        assert j !in rest;
      }
      assert IsNewest(times, a);
    } else {
      NewestExists(rest);
      var b :| IsNewest(rest, b);
      if times[a] <= times[b] {
        forall j | j in times ensures times[j] <= times[b] {
          if j != a { assert j in rest; }
        }
        assert IsNewest(times, b);
      } else {
        forall j | j in times ensures times[j] <= times[a] {
          if j != a { assert j in rest; }
        }
        assert IsNewest(times, a);
      }
    }
  }

  /** ks lists every row exactly once, newest first. */
  predicate SortedNewestFirst(times: map<int, int>, ks: seq<int>)
  {
    |ks| == |times|
    && (forall i :: 0 <= i < |ks| ==> ks[i] in times)
    && (forall k :: k in times ==> k in ks)
    && (forall i, j :: 0 <= i < j < |ks| ==> times[ks[i]] > times[ks[j]])
  }

  /** The keys of the table, most recently created first. */
  function NewestFirst(times: map<int, int>): (ks: seq<int>)
    requires Distinct(times)
    ensures SortedNewestFirst(times, ks)
    decreases |times|
  {
    if |times| == 0 then []
    else
      NewestExists(times);
      var k :| IsNewest(times, k);
      var rest := times - {k};
      assert |rest| == |times| - 1;
      var tail := NewestFirst(rest);
      ConsNewest(times, k, tail);
      [k] + tail
  }

  /** Every row listed after the newest one is older than it. */
  lemma OthersAreOlder(times: map<int, int>, k: int, tail: seq<int>)
    requires Distinct(times) && IsNewest(times, k)
    requires forall i :: 0 <= i < |tail| ==> tail[i] in times - {k}
    ensures forall i :: 0 <= i < |tail| ==> tail[i] in times && times[tail[i]] < times[k]
  {
    forall i | 0 <= i < |tail| ensures tail[i] in times && times[tail[i]] < times[k] {
      assert tail[i] in times - {k} && tail[i] != k;
      assert times[tail[i]] <= times[k] && times[tail[i]] != times[k];
    }
  }

  /** Putting the newest row in front of a listing of the others lists the
      whole table. */
  lemma ConsNewest(times: map<int, int>, k: int, tail: seq<int>)
    requires Distinct(times) && IsNewest(times, k)
    requires SortedNewestFirst(times - {k}, tail)
    ensures SortedNewestFirst(times, [k] + tail)
  {
    var rest := times - {k};
    var ks := [k] + tail;
    assert |rest| == |times| - 1;
    OthersAreOlder(times, k, tail);
    assert forall j :: j in times && j != k ==> j in rest;
    assert forall i :: 0 < i < |ks| ==> ks[i] == tail[i - 1];
  }

  lemma HeadIsNewest(times: map<int, int>, ks: seq<int>)
    requires SortedNewestFirst(times, ks) && |ks| > 0
    ensures IsNewest(times, ks[0])
  {
    forall j | j in times ensures times[j] <= times[ks[0]] {
      var i :| 0 <= i < |ks| && ks[i] == j;
      assert i == 0 || times[ks[0]] > times[ks[i]];
    }
  }

  lemma TailIsSorted(times: map<int, int>, ks: seq<int>)
    requires SortedNewestFirst(times, ks) && |ks| > 0
    ensures SortedNewestFirst(times - {ks[0]}, ks[1..])
  {
    var rest := times - {ks[0]};
    forall j | j in rest ensures j in ks[1..] {
      var i :| 0 <= i < |ks| && ks[i] == j;
      assert ks[1..][i - 1] == j;
    }
    forall i | 0 <= i < |ks[1..]| ensures ks[1..][i] in rest {
      assert times[ks[0]] > times[ks[i + 1]];
    }
    assert |rest| == |times| - 1;
  }

  /** The most recently created row is listed first. */
  lemma NewestComesFirst(times: map<int, int>, k: int)
    requires Distinct(times) && IsNewest(times, k)
    ensures |NewestFirst(times)| > 0 && NewestFirst(times)[0] == k
  {
    var ks := NewestFirst(times);
    assert k in ks;
    HeadIsNewest(times, ks);
  }

  /** The newest-first listing is the only one: any listing of every row,
      strictly descending by creation time, is NewestFirst. */
  lemma {:induction false} NewestFirstIsUnique(times: map<int, int>, ks: seq<int>)
    requires Distinct(times)
    ensures SortedNewestFirst(times, ks) <==> ks == NewestFirst(times)
    decreases |times|
  {
    if SortedNewestFirst(times, ks) && |times| > 0 {
      var ns := NewestFirst(times);
      HeadIsNewest(times, ks);
      HeadIsNewest(times, ns);
      assert ks[0] == ns[0];
      TailIsSorted(times, ks);
      TailIsSorted(times, ns);
      var rest := times - {ks[0]};
      assert |rest| < |times|;
      NewestFirstIsUnique(rest, ks[1..]);
      NewestFirstIsUnique(rest, ns[1..]);
      assert ks == [ks[0]] + ks[1..];
      assert ns == [ns[0]] + ns[1..];
    }
  }
}
