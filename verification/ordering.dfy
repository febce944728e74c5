/**
 The order in which the read handler returns tweets: most recent first, by
 `createdAt`, and stable, so tweets with the same timestamp keep the order in
 which they were stored.

 The sort is written as an insertion sort. Its result is also characterised
 independently of the algorithm: a newest-first sequence whose tweets of each
 timestamp appear in input order. That characterisation fixes the result
 uniquely (`StableSortIsUnique`), so any stable sort by the same key, whatever
 its algorithm, returns the same sequence.
 */
module Ordering {
  import opened Model

  /** Every tweet is at least as recent as every tweet after it. */
  predicate NewestFirst(s: seq<Tweet>) {
    forall i, j :: 0 <= i < j < |s| ==> s[i].createdAt >= s[j].createdAt
  }

  /** Each tweet is at least as recent as its successor. */
  predicate AdjacentNewestFirst(s: seq<Tweet>) {
    forall i :: 0 < i < |s| ==> s[i - 1].createdAt >= s[i].createdAt
  }

  /** The adjacent-pair and the all-pairs forms of the order agree. */
  lemma {:induction false} AdjacentNewestFirstIffNewestFirst(s: seq<Tweet>)
    ensures AdjacentNewestFirst(s) <==> NewestFirst(s)
  {
    if |s| > 1 && AdjacentNewestFirst(s) {
      var tail := s[1..];
      assert AdjacentNewestFirst(tail) by {
        forall i | 0 < i < |tail|
          ensures tail[i - 1].createdAt >= tail[i].createdAt
        {
          assert tail[i - 1] == s[i] && tail[i] == s[i + 1];
        }
      }
      AdjacentNewestFirstIffNewestFirst(tail);
      forall i, j | 0 <= i < j < |s|
        ensures s[i].createdAt >= s[j].createdAt
      {
        if i > 0 {
          assert s[i] == tail[i - 1] && s[j] == tail[j - 1];
        } else if j > 1 {
          assert s[1] == tail[0] && s[j] == tail[j - 1];
        }
      }
    }
  }

  /** The tweets of `s` stamped exactly `k`, in their order in `s`. */
  function At(s: seq<Tweet>, k: int): (r: seq<Tweet>)
    ensures |r| <= |s|
    ensures forall i :: 0 <= i < |r| ==> r[i].createdAt == k
    ensures forall t :: t in r ==> t in s
  {
    if |s| == 0 then []
    else (if s[0].createdAt == k then [s[0]] else []) + At(s[1..], k)
  }

  /** A suffix of a newest-first sequence is newest first. */
  lemma TailNewestFirst(s: seq<Tweet>)
    requires |s| > 0 && NewestFirst(s)
    ensures NewestFirst(s[1..])
  {
    var tail := s[1..];
    forall i, j | 0 <= i < j < |tail|
      ensures tail[i].createdAt >= tail[j].createdAt
    {
      assert tail[i] == s[i + 1] && tail[j] == s[j + 1];
    }
  }

  /** Places `x` into the newest-first sequence `s` before every tweet that
      is not more recent than it. */
  function Insert(x: Tweet, s: seq<Tweet>): (r: seq<Tweet>)
    ensures multiset(r) == multiset(s) + multiset{x}
  {
    if |s| == 0 || s[0].createdAt <= x.createdAt then [x] + s
    else
      assert s == [s[0]] + s[1..];
      [s[0]] + Insert(x, s[1..])
  }

  /** Inserting into a newest-first sequence keeps it newest first. */
  lemma {:induction false} InsertKeepsNewestFirst(x: Tweet, s: seq<Tweet>)
    requires NewestFirst(s)
    ensures NewestFirst(Insert(x, s))
  {
    if |s| == 0 || s[0].createdAt <= x.createdAt {
      var r := [x] + s;
      forall i, j | 0 <= i < j < |r|
        ensures r[i].createdAt >= r[j].createdAt
      {
        assert r[j] == s[j - 1];
        if i > 0 {
          assert r[i] == s[i - 1];
        } else if j > 1 {
          assert s[0].createdAt >= s[j - 1].createdAt;
        }
      }
    } else {
      var tail := s[1..];
      TailNewestFirst(s);
      InsertKeepsNewestFirst(x, tail);
      var rest := Insert(x, tail);
      var r := [s[0]] + rest;
      forall i, j | 0 <= i < j < |r|
        ensures r[i].createdAt >= r[j].createdAt
      {
        if i == 0 {
          var t := rest[j - 1];
          assert t in multiset(rest);
          if t != x {
            assert t in multiset(tail);
            var m :| 0 <= m < |tail| && tail[m] == t;
            assert s[m + 1] == t;
          }
        } else {
          assert r[i] == rest[i - 1] && r[j] == rest[j - 1];
        }
      }
    }
  }

  /** The tweets of `s` ordered newest first, ties in their order in `s`
      (a stable sort whose comparator puts the later timestamp first). */
  function SortNewestFirst(s: seq<Tweet>): (r: seq<Tweet>)
    ensures multiset(r) == multiset(s)
    ensures NewestFirst(r)
  {
    if |s| == 0 then []
    else
      assert s == [s[0]] + s[1..];
      var sorted := SortNewestFirst(s[1..]);
      InsertKeepsNewestFirst(s[0], sorted);
      Insert(s[0], sorted)
  }

  /** Inserting `x`, into any sequence, places it ahead of the other tweets
      with its timestamp and disturbs no timestamp class it does not belong to. */
  lemma {:induction false} InsertAt(x: Tweet, s: seq<Tweet>, k: int)
    ensures At(Insert(x, s), k) == if x.createdAt == k then [x] + At(s, k) else At(s, k)
  {
    if |s| == 0 || s[0].createdAt <= x.createdAt {
      assert ([x] + s)[1..] == s;
    } else {
      var r := Insert(x, s[1..]);
      InsertAt(x, s[1..], k);
      assert ([s[0]] + r)[1..] == r;
    }
  }

  /** Sorting preserves the order within every timestamp class: the sort is
      stable. */
  lemma {:induction false} SortAt(s: seq<Tweet>, k: int)
    ensures At(SortNewestFirst(s), k) == At(s, k)
  {
    if |s| > 0 {
      SortAt(s[1..], k);
      InsertAt(s[0], SortNewestFirst(s[1..]), k);
    }
  }

  /** The defining property of a stable newest-first sort of `s`. */
  ghost predicate StablySortedFrom(r: seq<Tweet>, s: seq<Tweet>) {
    && NewestFirst(r)
    && forall k :: At(r, k) == At(s, k)
  }

  /** Only the empty sequence has every timestamp class empty. */
  lemma EmptyClassesOnlyIfEmpty(s: seq<Tweet>)
    ensures (forall k :: At(s, k) == []) ==> s == []
  {
    if |s| > 0 {
      assert At(s, s[0].createdAt) == [s[0]] + At(s[1..], s[0].createdAt);
    }
  }

  /** Two non-empty newest-first sequences that agree on every timestamp
      class start with the same tweet. */
  lemma SameFirstTweet(a: seq<Tweet>, b: seq<Tweet>)
    requires |a| > 0 && |b| > 0
    requires NewestFirst(a) && NewestFirst(b)
    requires forall k :: At(a, k) == At(b, k)
    ensures a[0] == b[0]
  {
    var ka, kb := a[0].createdAt, b[0].createdAt;
    assert At(a, ka) == [a[0]] + At(a[1..], ka);
    assert At(b, kb) == [b[0]] + At(b[1..], kb);
    assert a[0] in At(b, ka);
    assert b[0] in At(a, kb);
    var m :| 0 <= m < |b| && b[m] == a[0];
    var n :| 0 <= n < |a| && a[n] == b[0];
    assert kb >= ka by {
      if m > 0 {
        assert b[0].createdAt >= b[m].createdAt;
      }
    }
    assert ka >= kb by {
      if n > 0 {
        assert a[0].createdAt >= a[n].createdAt;
      }
    }
    assert a[0] == At(a, ka)[0] == At(b, ka)[0] == b[0];
  }

  /** Two newest-first sequences with the same tweets in the same order
      within each timestamp class are the same sequence. */
  lemma {:induction false} StableSortIsUnique(a: seq<Tweet>, b: seq<Tweet>)
    requires NewestFirst(a) && NewestFirst(b)
    requires forall k :: At(a, k) == At(b, k)
    ensures a == b
  {
    if |a| == 0 || |b| == 0 {
      forall k
        ensures At(a, k) == [] && At(b, k) == []
      {
      }
      EmptyClassesOnlyIfEmpty(a);
      EmptyClassesOnlyIfEmpty(b);
    } else {
      SameFirstTweet(a, b);
      var a', b' := a[1..], b[1..];
      forall k
        ensures At(a', k) == At(b', k)
      {
        var head := if a[0].createdAt == k then [a[0]] else [];
        assert At(a, k) == head + At(a', k);
        assert At(b, k) == head + At(b', k);
        assert At(a', k) == At(a, k)[|head|..];
      }
      TailNewestFirst(a);
      TailNewestFirst(b);
      StableSortIsUnique(a', b');
      assert a == [a[0]] + a' && b == [b[0]] + b';
    }
  }

  /** `SortNewestFirst(s)` is exactly the stable newest-first sort of `s`:
      it has the defining property, and it is the only sequence that has it. */
  lemma SortNewestFirstIsStableSort(s: seq<Tweet>, r: seq<Tweet>)
    ensures StablySortedFrom(SortNewestFirst(s), s)
    ensures StablySortedFrom(r, s) <==> r == SortNewestFirst(s)
  {
    forall k
      ensures At(SortNewestFirst(s), k) == At(s, k)
    {
      SortAt(s, k);
    }
    if StablySortedFrom(r, s) {
      StableSortIsUnique(r, SortNewestFirst(s));
    }
  }

  /** `s` in reverse. */
  function Reverse(s: seq<Tweet>): (r: seq<Tweet>)
    ensures |r| == |s|
    ensures forall i :: 0 <= i < |s| ==> r[i] == s[|s| - 1 - i]
  {
    if |s| == 0 then [] else Reverse(s[1..]) + [s[0]]
  }

  /** Every tweet is strictly more recent than every tweet before it. */
  predicate StrictlyChronological(s: seq<Tweet>) {
    forall i, j :: 0 <= i < j < |s| ==> s[i].createdAt < s[j].createdAt
  }

  /** Inserting a tweet older than every tweet of `s` appends it. */
  lemma {:induction false} InsertOldest(x: Tweet, s: seq<Tweet>)
    requires forall i :: 0 <= i < |s| ==> s[i].createdAt > x.createdAt
    ensures Insert(x, s) == s + [x]
  {
    if |s| > 0 {
      InsertOldest(x, s[1..]);
      assert [s[0]] + (s[1..] + [x]) == s + [x];
    }
  }

  /** A suffix of a strictly chronological sequence is strictly chronological. */
  lemma TailStrictlyChronological(s: seq<Tweet>)
    requires |s| > 0 && StrictlyChronological(s)
    ensures StrictlyChronological(s[1..])
  {
    var tail := s[1..];
    forall i, j | 0 <= i < j < |tail|
      ensures tail[i].createdAt < tail[j].createdAt
    {
      assert tail[i] == s[i + 1] && tail[j] == s[j + 1];
    }
  }

  /** In a strictly chronological sequence the first tweet is older than
      every tweet of the reversed remainder. */
  lemma HeadOlderThanReversedTail(s: seq<Tweet>)
    requires |s| > 0 && StrictlyChronological(s)
    ensures forall i :: 0 <= i < |s| - 1 ==> Reverse(s[1..])[i].createdAt > s[0].createdAt
  {
    var tail := s[1..];
    var rt := Reverse(tail);
    forall i | 0 <= i < |rt|
      ensures rt[i].createdAt > s[0].createdAt
    {
      assert rt[i] == tail[|tail| - 1 - i] == s[|s| - 1 - i];
    }
  }

  /** When the timestamps strictly increase in storage order, the
      newest-first order is the reverse of the storage order. */
  lemma {:induction false} SortChronologicalIsReverse(s: seq<Tweet>)
    requires StrictlyChronological(s)
    ensures SortNewestFirst(s) == Reverse(s)
  {
    if |s| > 0 {
      TailStrictlyChronological(s);
      SortChronologicalIsReverse(s[1..]);
      HeadOlderThanReversedTail(s);
      InsertOldest(s[0], Reverse(s[1..]));
    }
  }
}
