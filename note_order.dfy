/** The order the popup shows a folder's notes in: `notes.sort((a, b) =>
    a.timestamp - b.timestamp)`, which since ECMAScript 2019 is a stable sort,
    so notes with equal timestamps keep their stored order. */
module NoteOrder {
  import opened NotesStore

  predicate SortedByTime(s: seq<Note>) {
    forall i, j :: 0 <= i < j < |s| ==> s[i].timestamp <= s[j].timestamp
  }

  /** `x` put into `s` just before the first note that is strictly later. */
  function Insert(x: Note, s: seq<Note>): (r: seq<Note>)
    ensures |r| == |s| + 1
    decreases |s|
  {
    if s == [] || x.timestamp < s[0].timestamp then [x] + s
    else [s[0]] + Insert(x, s[1..])
  }

  /** Insertion adds exactly `x`. */
  lemma {:induction false} InsertPermutes(x: Note, s: seq<Note>)
    ensures |Insert(x, s)| == |s| + 1
    ensures multiset(Insert(x, s)) == multiset(s) + multiset{x}
    decreases |s|
  {
    if s != [] && x.timestamp >= s[0].timestamp {
      InsertPermutes(x, s[1..]);
      assert s == [s[0]] + s[1..];
    }
  }

  /** Insertion keeps a sorted list sorted. */
  lemma {:induction false} InsertSorted(x: Note, s: seq<Note>)
    requires SortedByTime(s)
    ensures SortedByTime(Insert(x, s))
    decreases |s|
  {
    if s != [] && x.timestamp >= s[0].timestamp {
      var rest := Insert(x, s[1..]);
      SortedTail(s);
      InsertSorted(x, s[1..]);
      InsertPermutes(x, s[1..]);
      forall k | 0 <= k < |rest| ensures s[0].timestamp <= rest[k].timestamp {
        assert rest[k] in multiset(rest);
        assert rest[k] == x || rest[k] in s[1..];
      }
    }
  }

  /** The stable ascending-by-timestamp sort, as insertion sort of ever longer
      prefixes. */
  function SortByTimestamp(s: seq<Note>): (r: seq<Note>)
    ensures |r| == |s|
    decreases |s|
  {
    if s == [] then []
    else Insert(s[|s| - 1], SortByTimestamp(s[..|s| - 1]))
  }

  /** The sort is a permutation of its input. */
  lemma {:induction false} SortByTimestampPermutes(s: seq<Note>)
    ensures |SortByTimestamp(s)| == |s|
    ensures multiset(SortByTimestamp(s)) == multiset(s)
    decreases |s|
  {
    if s != [] {
      var init, last := s[..|s| - 1], s[|s| - 1];
      SortByTimestampPermutes(init);
      InsertPermutes(last, SortByTimestamp(init));
      assert s == init + [last];
    }
  }

  /** The sort is ascending by timestamp. */
  lemma {:induction false} SortByTimestampSorts(s: seq<Note>)
    ensures SortedByTime(SortByTimestamp(s))
    decreases |s|
  {
    if s != [] {
      var init := s[..|s| - 1];
      SortByTimestampSorts(init);
      InsertSorted(s[|s| - 1], SortByTimestamp(init));
    }
  }

  /** The notes of `s` stamped `t`, in their order in `s`. */
  function WithTimestamp(s: seq<Note>, t: nat): seq<Note>
    decreases |s|
  {
    if s == [] then []
    else (if s[0].timestamp == t then [s[0]] else []) + WithTimestamp(s[1..], t)
  }

  lemma {:induction false} WithTimestampConcat(a: seq<Note>, b: seq<Note>, t: nat)
    ensures WithTimestamp(a + b, t) == WithTimestamp(a, t) + WithTimestamp(b, t)
    decreases |a|
  {
    if a != [] {
      var head := if a[0].timestamp == t then [a[0]] else [];
      assert (a + b)[0] == a[0] && (a + b)[1..] == a[1..] + b;
      WithTimestampConcat(a[1..], b, t);
      calc {
        WithTimestamp(a + b, t);
        head + WithTimestamp(a[1..] + b, t);
        head + (WithTimestamp(a[1..], t) + WithTimestamp(b, t));
        (head + WithTimestamp(a[1..], t)) + WithTimestamp(b, t);
        WithTimestamp(a, t) + WithTimestamp(b, t);
      }
    } else {
      assert a + b == b;
    }
  }

  lemma {:induction false} WithTimestampNone(s: seq<Note>, t: nat)
    requires forall k :: 0 <= k < |s| ==> s[k].timestamp != t
    ensures WithTimestamp(s, t) == []
    decreases |s|
  {
    if s != [] {
      WithTimestampNone(s[1..], t);
    }
  }

  lemma SortedTail(s: seq<Note>)
    requires SortedByTime(s) && s != []
    ensures SortedByTime(s[1..])
  {
    forall i, j | 0 <= i < j < |s| - 1 ensures s[1..][i].timestamp <= s[1..][j].timestamp {
      assert s[1..][i] == s[i + 1] && s[1..][j] == s[j + 1];
    }
  }

  /** Inserting into a sorted list puts `x` after every note with its timestamp. */
  lemma {:induction false} InsertStable(x: Note, s: seq<Note>, t: nat)
    requires SortedByTime(s)
    ensures WithTimestamp(Insert(x, s), t)
         == WithTimestamp(s, t) + (if x.timestamp == t then [x] else [])
    decreases |s|
  {
    if s == [] || x.timestamp < s[0].timestamp {
      assert ([x] + s)[1..] == s;
      if x.timestamp == t {
        forall k | 0 <= k < |s| ensures s[k].timestamp != t {
          assert s[0].timestamp <= s[k].timestamp;
        }
        WithTimestampNone(s, t);
      }
    } else {
      var rest := Insert(x, s[1..]);
      assert ([s[0]] + rest)[1..] == rest;
      SortedTail(s);
      InsertStable(x, s[1..], t);
    }
  }

  /** Stability: for every timestamp, the notes with that timestamp appear in
      the sorted list in the order they had before sorting. */
  lemma {:induction false} SortIsStable(s: seq<Note>)
    ensures forall t :: WithTimestamp(SortByTimestamp(s), t) == WithTimestamp(s, t)
    decreases |s|
  {
    if s != [] {
      var init, last := s[..|s| - 1], s[|s| - 1];
      SortIsStable(init);
      SortByTimestampSorts(init);
      forall t ensures WithTimestamp(SortByTimestamp(s), t) == WithTimestamp(s, t) {
        InsertStable(last, SortByTimestamp(init), t);
        assert s == init + [last];
        WithTimestampConcat(init, [last], t);
      }
    }
  }

  /** A note no earlier than everything in a sorted list goes at its end. */
  lemma {:induction false} InsertAtEnd(x: Note, s: seq<Note>)
    requires forall k :: 0 <= k < |s| ==> s[k].timestamp <= x.timestamp
    ensures Insert(x, s) == s + [x]
    decreases |s|
  {
    if s != [] {
      InsertAtEnd(x, s[1..]);
      assert s == [s[0]] + s[1..];
    }
  }

  /** An already sorted list is left as it is. */
  lemma {:induction false} SortSorted(s: seq<Note>)
    requires SortedByTime(s)
    ensures SortByTimestamp(s) == s
    decreases |s|
  {
    if s != [] {
      var init := s[..|s| - 1];
      SortSorted(init);
      InsertAtEnd(s[|s| - 1], init);
      assert s == init + [s[|s| - 1]];
    }
  }

  /** Where insertion lands in a sorted list: after the first `j` notes when
      the note before position `j` is no later than `x` and all from `j` on are
      strictly later. */
  lemma {:induction false} InsertSplits(x: Note, s: seq<Note>, j: nat)
    requires j <= |s|
    requires forall k :: 0 <= k < j ==> s[k].timestamp <= x.timestamp
    requires forall k :: j <= k < |s| ==> s[k].timestamp > x.timestamp
    ensures Insert(x, s) == s[..j] + [x] + s[j..]
    decreases j
  {
    if j == 0 {
      assert s[..0] == [] && s[0..] == s;
    } else {
      InsertSplits(x, s[1..], j - 1);
      assert s[..j] == [s[0]] + s[1..][..j - 1];
      assert s[j..] == s[1..][j - 1..];
    }
  }

  /** The popup's in-place sort: `a` ends holding the stable sort of what it
      held. (An insertion sort; the browser's own algorithm is not modelled,
      only its result.) */
  method SortNotesInPlace(a: array<Note>)
    modifies a
    ensures a[..] == SortByTimestamp(old(a[..]))
  {
    InsertionSort(a, a[..]);
  }

  /** The insertion sort itself, against the ghost copy `orig` of the array's
      starting contents: after `i` rounds the first `i` notes are the sorted
      first `i` notes of `orig`, and the rest are untouched. */
  method InsertionSort(a: array<Note>, ghost orig: seq<Note>)
    requires a[..] == orig
    modifies a
    ensures a[..] == SortByTimestamp(orig)
  {
    var i := 0;
    while i < a.Length
      invariant 0 <= i <= a.Length
      invariant a[..i] == SortByTimestamp(orig[..i])
      invariant a[i..] == orig[i..]
    {
      SortPrefixStep(orig, i);
      SortByTimestampSorts(orig[..i]);
      assert a[i] == orig[i];
      InsertLast(a, i);
      assert a[i + 1..] == orig[i + 1..];
      i := i + 1;
    }
    assert a[..] == a[..i];
    assert orig == orig[..i];
  }

  /** Sorting one more element of a list is inserting it into the sorted prefix. */
  lemma SortPrefixStep(s: seq<Note>, i: nat)
    requires i < |s|
    ensures SortByTimestamp(s[..i + 1]) == Insert(s[i], SortByTimestamp(s[..i]))
  {
    assert s[..i + 1][..i] == s[..i];
  }

  /** One insertion step: with `a[..i]` sorted, moves `a[i]` back past the
      strictly later notes before it. */
  method InsertLast(a: array<Note>, i: nat)
    requires i < a.Length && SortedByTime(a[..i])
    modifies a
    ensures a[..i + 1] == Insert(old(a[i]), old(a[..i]))
    ensures a[i + 1..] == old(a[i + 1..])
  {
    ghost var p := a[..i];
    var x := a[i];
    var j := i;
    ghost var rest := a[i + 1..];
    while j > 0 && a[j - 1].timestamp > x.timestamp
      invariant 0 <= j <= i
      invariant forall k :: 0 <= k < j ==> a[k] == p[k]
      invariant forall k :: j < k <= i ==> a[k] == p[k - 1]
      invariant forall k :: j <= k < i ==> p[k].timestamp > x.timestamp
      invariant a[i + 1..] == rest
    {
      a[j] := a[j - 1];
      j := j - 1;
    }
    a[j] := x;
    ShiftedIsInsert(a[..i + 1], p, x, j);
  }

  /** What the shifting loop leaves behind is the insertion of `x` into `p`. */
  lemma ShiftedIsInsert(q: seq<Note>, p: seq<Note>, x: Note, j: nat)
    requires SortedByTime(p) && j <= |p| && |q| == |p| + 1
    requires forall k :: 0 <= k < j ==> q[k] == p[k]
    requires q[j] == x
    requires forall k :: j < k < |q| ==> q[k] == p[k - 1]
    requires j > 0 ==> p[j - 1].timestamp <= x.timestamp
    requires forall k :: j <= k < |p| ==> p[k].timestamp > x.timestamp
    ensures q == Insert(x, p)
  {
    InsertSplits(x, p, j);
    assert q == p[..j] + [x] + p[j..];
  }
}
