// The dictionary exercise: merge sort, insertion sort, binary search and linear search over words
// compared with strcmp.
module WordSearch {

  /** The characters of a C string, without the terminator. */
  type Letter = x: int | 0 < x < 0x100 witness 1
  type Word = seq<Letter>

  // ----- strcmp -----

  /** The difference at the first position where the words differ; a word that ends there counts
      as zero. */
  function StrCmp(a: Word, b: Word): int {
    if a == [] then (if b == [] then 0 else -b[0])
    else if b == [] then a[0]
    else if a[0] != b[0] then a[0] - b[0]
    else StrCmp(a[1..], b[1..])
  }

  predicate AtMost(a: Word, b: Word) { StrCmp(a, b) <= 0 }

  lemma {:induction false} StrCmpEqual(a: Word, b: Word)
    ensures StrCmp(a, b) == 0 <==> a == b
    decreases |a|
  {
    if a != [] && b != [] {
      StrCmpEqual(a[1..], b[1..]);
      assert a == [a[0]] + a[1..] && b == [b[0]] + b[1..];
    }
  }

  lemma {:induction false} StrCmpOpposite(a: Word, b: Word)
    ensures StrCmp(b, a) == -StrCmp(a, b)
    decreases |a|
  {
    if a != [] && b != [] {
      StrCmpOpposite(a[1..], b[1..]);
    }
  }

  /** Up to position `k` the words agree, and there `a` ends or has the smaller letter. */
  predicate SmallerAt(a: Word, b: Word, k: nat) {
    k <= |a| && k < |b| && a[..k] == b[..k] && (k == |a| || a[k] < b[k])
  }

  /** The sign: negative exactly if `a` comes first in the dictionary. */
  lemma {:induction false} StrCmpSign(a: Word, b: Word)
    ensures StrCmp(a, b) < 0 <==> exists k: nat :: SmallerAt(a, b, k)
    decreases |a|
  {
    if a == [] || b == [] || a[0] != b[0] {
      if StrCmp(a, b) < 0 {
        assert SmallerAt(a, b, 0);
      }
      forall k: nat | SmallerAt(a, b, k) ensures StrCmp(a, b) < 0 {
        if k > 0 {
          assert a[..k][0] == b[..k][0];
        }
      }
    } else {
      StrCmpSign(a[1..], b[1..]);
      if k: nat :| SmallerAt(a[1..], b[1..], k) {
        assert a[..k + 1] == [a[0]] + a[1..][..k] && b[..k + 1] == [b[0]] + b[1..][..k];
        assert SmallerAt(a, b, k + 1);
      }
      if k: nat :| SmallerAt(a, b, k) {
        assert a[1..][..k - 1] == a[..k][1..] && b[1..][..k - 1] == b[..k][1..];
        assert SmallerAt(a[1..], b[1..], k - 1);
      }
    }
  }

  lemma {:induction false} StrCmpTransitive(a: Word, b: Word, c: Word)
    requires AtMost(a, b) && AtMost(b, c)
    ensures AtMost(a, c)
    decreases |a|
  {
    if a != [] && b != [] && c != [] && a[0] == b[0] == c[0] {
      StrCmpTransitive(a[1..], b[1..], c[1..]);
    }
  }

  /** strcmp is a total order on words. */
  lemma StrCmpTotalOrder(a: Word, b: Word, c: Word)
    ensures AtMost(a, b) || AtMost(b, a)
    ensures AtMost(a, b) && AtMost(b, a) ==> a == b
    ensures AtMost(a, b) && AtMost(b, c) ==> AtMost(a, c)
  {
    StrCmpOpposite(a, b);
    StrCmpEqual(a, b);
    if AtMost(a, b) && AtMost(b, c) {
      StrCmpTransitive(a, b, c);
    }
  }

  // ----- sorted sequences -----

  predicate Sorted(s: seq<Word>) {
    forall i, j | 0 <= i < j < |s| :: AtMost(s[i], s[j])
  }

  /** Sorted means that no word stands behind one it precedes in the dictionary. */
  lemma SortedIff(s: seq<Word>)
    ensures Sorted(s) <==> forall i, j, k: nat | 0 <= i < j < |s| :: !SmallerAt(s[j], s[i], k)
  {
    hide SmallerAt;
    forall i, j | 0 <= i < j < |s| ensures AtMost(s[i], s[j]) <==> !exists k: nat :: SmallerAt(s[j], s[i], k) {
      StrCmpSign(s[j], s[i]);
      StrCmpOpposite(s[i], s[j]);
    }
  }

  lemma LeastIsFirst(s: seq<Word>, t: seq<Word>)
    requires Sorted(s) && Sorted(t) && multiset(s) == multiset(t) && s != [] && t != []
    ensures s[0] == t[0]
  {
    assert s[0] in multiset(t) && t[0] in multiset(s);
    var j :| 0 <= j < |t| && t[j] == s[0];
    var i :| 0 <= i < |s| && s[i] == t[0];
    StrCmpTotalOrder(s[0], t[0], s[0]);
    StrCmpEqual(s[0], s[0]);
    assert AtMost(t[0], s[0]) by { if j == 0 { StrCmpEqual(t[0], t[0]); } }
    assert AtMost(s[0], t[0]) by { if i == 0 { StrCmpEqual(s[0], s[0]); } }
  }

  lemma SameTails(s: seq<Word>, t: seq<Word>)
    requires s != [] && t != [] && s[0] == t[0] && multiset(s) == multiset(t)
    ensures multiset(s[1..]) == multiset(t[1..]) && s == [s[0]] + s[1..] && t == [t[0]] + t[1..]
  {
    assert s == [s[0]] + s[1..] && t == [t[0]] + t[1..];
    assert multiset(s[1..]) == multiset(s) - multiset{s[0]} == multiset(t[1..]);
  }

  /** A sorted arrangement of given words is unique, so any two correct sorts agree. */
  lemma {:induction false} SortedIsUnique(s: seq<Word>, t: seq<Word>)
    requires Sorted(s) && Sorted(t) && multiset(s) == multiset(t)
    ensures s == t
    decreases |s|
  {
    if s == [] {
      assert |multiset(t)| == 0;
    } else {
      assert |multiset(t)| > 0;
      LeastIsFirst(s, t);
      SameTails(s, t);
      SortedIsUnique(s[1..], t[1..]);
    }
  }

  // ----- merge sort -----

  function Merged(xs: seq<Word>, ys: seq<Word>): (r: seq<Word>)
    ensures |r| == |xs| + |ys|
    decreases |xs| + |ys|
  {
    if xs == [] then ys
    else if ys == [] then xs
    else if StrCmp(xs[0], ys[0]) < 0 then [xs[0]] + Merged(xs[1..], ys)
    else [ys[0]] + Merged(xs, ys[1..])
  }

  lemma {:induction false} MergedPermutes(xs: seq<Word>, ys: seq<Word>)
    ensures multiset(Merged(xs, ys)) == multiset(xs) + multiset(ys)
    decreases |xs| + |ys|
  {
    if xs != [] && ys != [] {
      assert xs == [xs[0]] + xs[1..] && ys == [ys[0]] + ys[1..];
      if StrCmp(xs[0], ys[0]) < 0 {
        MergedPermutes(xs[1..], ys);
      } else {
        MergedPermutes(xs, ys[1..]);
      }
    }
  }

  predicate Bounds(x: Word, s: seq<Word>) { forall y <- s :: AtMost(x, y) }

  lemma SortedCons(x: Word, s: seq<Word>)
    requires Sorted(s) && Bounds(x, s)
    ensures Sorted([x] + s)
  {
    assert forall j | 0 <= j < |s| :: s[j] in s;
  }

  lemma HeadBounds(s: seq<Word>)
    requires Sorted(s) && s != []
    ensures Bounds(s[0], s) && Sorted(s[1..])
  {
    StrCmpEqual(s[0], s[0]);
  }

  lemma BoundsMerged(x: Word, xs: seq<Word>, ys: seq<Word>)
    requires Bounds(x, xs) && Bounds(x, ys)
    ensures Bounds(x, Merged(xs, ys))
  {
    MergedPermutes(xs, ys);
    forall y <- Merged(xs, ys) ensures AtMost(x, y) {
      assert y in multiset(Merged(xs, ys));
      assert y in multiset(xs) || y in multiset(ys);
    }
  }

  lemma BoundsTransitive(x: Word, y: Word, s: seq<Word>)
    requires AtMost(x, y) && Bounds(y, s)
    ensures Bounds(x, s)
  {
    forall z <- s ensures AtMost(x, z) {
      StrCmpTransitive(x, y, z);
    }
  }

  lemma {:induction false} MergedSorted(xs: seq<Word>, ys: seq<Word>)
    requires Sorted(xs) && Sorted(ys)
    ensures Sorted(Merged(xs, ys))
    decreases |xs| + |ys|
  {
    if xs != [] && ys != [] {
      HeadBounds(xs);
      HeadBounds(ys);
      StrCmpOpposite(xs[0], ys[0]);
      if StrCmp(xs[0], ys[0]) < 0 {
        MergedSorted(xs[1..], ys);
        BoundsTransitive(xs[0], ys[0], ys);
        BoundsMerged(xs[0], xs[1..], ys);
        SortedCons(xs[0], Merged(xs[1..], ys));
      } else {
        MergedSorted(xs, ys[1..]);
        BoundsTransitive(ys[0], xs[0], xs);
        BoundsMerged(ys[0], xs, ys[1..]);
        SortedCons(ys[0], Merged(xs, ys[1..]));
      }
    }
  }

  lemma MergedTakes(xs: seq<Word>, ys: seq<Word>)
    requires xs != [] && ys != []
    ensures Merged(xs, ys) == if StrCmp(xs[0], ys[0]) < 0 then [xs[0]] + Merged(xs[1..], ys)
                              else [ys[0]] + Merged(xs, ys[1..])
  {
  }

  lemma MergedRest(xs: seq<Word>, ys: seq<Word>)
    requires xs == [] || ys == []
    ensures Merged(xs, ys) == xs + ys
  {
  }

  lemma RestOf(s: seq<Word>, from: nat, to: nat)
    requires from < to <= |s|
    ensures s[from..to][0] == s[from] && s[from..to][1..] == s[from + 1..to]
  {
  }

  /** One comparison: the smaller head word goes to b, the left one only if strictly smaller. */
  method TakeSmaller(a: array<Word>, left0: nat, mid: nat, right0: nat, high: nat, b: array<Word>, bIdx: nat)
    returns (left: nat, right: nat)
    requires left0 <= mid < right0 <= high < a.Length && bIdx < b.Length && a != b
    modifies b
    ensures left0 <= left <= mid + 1 && right0 <= right <= high + 1 && left + right == left0 + right0 + 1
    ensures b[..bIdx + 1] + Merged(a[left..mid + 1], a[right..high + 1]) ==
            old(b[..bIdx]) + Merged(a[left0..mid + 1], a[right0..high + 1])
  {
    hide Merged, StrCmp;
    left, right := left0, right0;
    ghost var xs, ys, before := a[left..mid + 1], a[right..high + 1], b[..bIdx];
    MergedTakes(xs, ys);
    RestOf(a[..], left, mid + 1);
    RestOf(a[..], right, high + 1);
    if StrCmp(a[left], a[right]) < 0 {
      b[bIdx] := a[left];
      left := left + 1;
    } else {
      b[bIdx] := a[right];
      right := right + 1;
    }
    ghost var rest := Merged(a[left..mid + 1], a[right..high + 1]);
    assert b[..bIdx + 1] == before + [b[bIdx]];
    assert before + ([b[bIdx]] + rest) == before + [b[bIdx]] + rest;
  }

  /** The merging loop: runs until one half is used up. */
  method Interleave(a: array<Word>, low: nat, mid: nat, high: nat, b: array<Word>)
    returns (left: nat, right: nat, bIdx: nat)
    requires low <= mid < high < a.Length && b.Length == high - low + 1 && a != b
    modifies b
    ensures low <= left <= mid + 1 <= right <= high + 1 && bIdx == left - low + (right - mid - 1)
    ensures left == mid + 1 || right == high + 1
    ensures b[..bIdx] + a[left..mid + 1] + a[right..high + 1] == Merged(a[low..mid + 1], a[mid + 1..high + 1])
  {
    hide Merged;
    ghost var target := Merged(a[low..mid + 1], a[mid + 1..high + 1]);
    left, right, bIdx := low, mid + 1, 0;
    assert b[..0] + target == target;
    while left <= mid && right <= high
      invariant low <= left <= mid + 1 <= right <= high + 1 && bIdx == left - low + (right - mid - 1)
      invariant b[..bIdx] + Merged(a[left..mid + 1], a[right..high + 1]) == target
      decreases mid + high + 2 - left - right
    {
      left, right := TakeSmaller(a, left, mid, right, high, b, bIdx);
      bIdx := bIdx + 1;
    }
    ghost var xs, ys := a[left..mid + 1], a[right..high + 1];
    MergedRest(xs, ys);
    assert b[..bIdx] + (xs + ys) == b[..bIdx] + xs + ys;
  }

  /** Appends a[from..to] to the first `bIdx` words of b. */
  method Append(a: array<Word>, from: nat, to: nat, b: array<Word>, bIdx0: nat) returns (bIdx: nat)
    requires from <= to <= a.Length && bIdx0 + (to - from) <= b.Length && a != b
    modifies b
    ensures bIdx == bIdx0 + (to - from) && b[..bIdx] == old(b[..bIdx0]) + a[from..to]
  {
    var k := from;
    bIdx := bIdx0;
    while k < to
      invariant from <= k <= to && bIdx == bIdx0 + (k - from)
      invariant b[..bIdx] == old(b[..bIdx0]) + a[from..k]
    {
      b[bIdx] := a[k];
      k, bIdx := k + 1, bIdx + 1;
    }
  }

  /** Merges the halves of a[low..high] through a temporary array. */
  method M(a: array<Word>, low: nat, mid: nat, high: nat)
    requires low <= mid < high < a.Length
    modifies a
    ensures a[..] == old(a[..low]) + Merged(old(a[low..mid + 1]), old(a[mid + 1..high + 1])) + old(a[high + 1..])
  {
    hide Merged;
    var n := high - low + 1;
    var b := new Word[n](_ => []);
    ghost var all, target := a[..], Merged(a[low..mid + 1], a[mid + 1..high + 1]);
    var left, right, bIdx := Interleave(a, low, mid, high, b);
    bIdx := Append(a, left, mid + 1, b, bIdx);
    bIdx := Append(a, right, high + 1, b, bIdx);
    assert b[..] == b[..n] == target;
    CopyBack(a, low, b);
    assert a[..] == all[..low] + target + all[high + 1..];
  }

  method CopyBack(a: array<Word>, low: nat, b: array<Word>)
    requires low + b.Length <= a.Length && a != b
    modifies a
    ensures a[..] == old(a[..low]) + b[..] + old(a[low + b.Length..])
  {
    ghost var all := a[..];
    for k := 0 to b.Length
      invariant b[..] == old(b[..])
      invariant a[..] == all[..low] + b[..k] + all[low + k..]
    {
      a[low + k] := b[k];
    }
  }

  lemma SortedShort(s: seq<Word>)
    requires |s| <= 1
    ensures Sorted(s)
  {
  }

  method MSort(a: array<Word>, low: int, high: int)
    requires 0 <= low && high < a.Length && low <= high + 1
    modifies a
    ensures Sorted(a[low..high + 1])
    ensures multiset(a[low..high + 1]) == multiset(old(a[low..high + 1]))
    ensures a[..low] == old(a[..low]) && a[high + 1..] == old(a[high + 1..])
    decreases high - low
  {
    hide Sorted, Merged;
    if low >= high {
      SortedShort(a[low..high + 1]);
    } else {
      var mid := (low + high) / 2;
      ghost var s := a[..];
      MSort(a, low, mid);
      ghost var s1 := a[..];
      MSort(a, mid + 1, high);
      ghost var s2 := a[..];
      M(a, low, mid, high);
      SortedHalves(s, s1, s2, low, mid, high);
      ghost var left, right := s2[low..mid + 1], s2[mid + 1..high + 1];
      MergedSorted(left, right);
      MergedPermutes(left, right);
      MiddleOf(s2[..low], Merged(left, right), s2[high + 1..]);
      assert a[..] == s2[..low] + Merged(left, right) + s2[high + 1..];
    }
  }

  lemma MiddleOf(x: seq<Word>, y: seq<Word>, z: seq<Word>)
    ensures (x + y + z)[..|x|] == x && (x + y + z)[|x|..|x| + |y|] == y && (x + y + z)[|x| + |y|..] == z
  {
  }

  /** What the two recursive calls leave: each half permuted, the rest as it was. */
  lemma SortedHalves(s: seq<Word>, s1: seq<Word>, s2: seq<Word>, low: nat, mid: nat, high: nat)
    requires low <= mid < high < |s| == |s1| == |s2|
    requires s1[..low] == s[..low] && s1[mid + 1..] == s[mid + 1..]
    requires s2[..mid + 1] == s1[..mid + 1] && s2[high + 1..] == s1[high + 1..]
    requires multiset(s1[low..mid + 1]) == multiset(s[low..mid + 1])
    requires multiset(s2[mid + 1..high + 1]) == multiset(s1[mid + 1..high + 1])
    ensures s2[..low] == s[..low] && s2[high + 1..] == s[high + 1..]
    ensures s2[low..mid + 1] == s1[low..mid + 1]
    ensures multiset(s2[low..mid + 1]) + multiset(s2[mid + 1..high + 1]) == multiset(s[low..high + 1])
  {
    assert s2[..low] == s2[..mid + 1][..low] == s1[..mid + 1][..low] == s1[..low];
    assert s2[low..mid + 1] == s2[..mid + 1][low..] == s1[..mid + 1][low..] == s1[low..mid + 1];
    assert s1[mid + 1..high + 1] == s1[mid + 1..][..high - mid] == s[mid + 1..][..high - mid] == s[mid + 1..high + 1];
    assert s1[high + 1..] == s1[mid + 1..][high - mid..] == s[mid + 1..][high - mid..] == s[high + 1..];
    assert s[low..high + 1] == s[low..mid + 1] + s[mid + 1..high + 1];
  }

  // ----- insertion sort -----

  /** The sorted prefix with a hole at slot `j + 1`, into which `next` will go. */
  predicate HoleAt(s: seq<Word>, j: int, i: int, next: Word) {
    && -1 <= j < i < |s|
    && (forall p, q | 0 <= p < q <= i && p != j + 1 && q != j + 1 :: AtMost(s[p], s[q]))
    && (forall q | j + 1 < q <= i :: AtMost(next, s[q]))
  }

  lemma FillHole(s: seq<Word>, j: int, i: int, next: Word)
    requires HoleAt(s, j, i, next) && (j >= 0 ==> AtMost(s[j], next))
    ensures Sorted(s[j + 1 := next][..i + 1])
  {
    var t := s[j + 1 := next];
    forall p, q | 0 <= p < q <= i ensures AtMost(t[p], t[q]) {
      if q == j + 1 && p < j {
        StrCmpTransitive(s[p], s[j], next);
      }
    }
  }

  method InsertionSort(a: array<Word>)
    modifies a
    ensures Sorted(a[..]) && multiset(a[..]) == multiset(old(a[..]))
  {
    if a.Length == 0 { return; }
    var i := 1;
    while i < a.Length
      invariant 1 <= i <= a.Length
      invariant Sorted(a[..i]) && multiset(a[..]) == multiset(old(a[..]))
    {
      Insert(a, i);
      i := i + 1;
    }
    assert a[..i] == a[..];
  }

  lemma ShiftHole(s: seq<Word>, j: nat, i: int, next: Word)
    requires HoleAt(s, j, i, next) && StrCmp(s[j], next) > 0
    ensures HoleAt(s[j + 1 := s[j]], j - 1, i, next)
  {
    StrCmpOpposite(s[j], next);
  }

  lemma StartHole(s: seq<Word>, i: nat)
    requires 0 < i < |s| && Sorted(s[..i])
    ensures HoleAt(s, i - 1, i, s[i])
  {
    assert forall k | 0 <= k < i :: s[..i][k] == s[k];
  }

  /** Inserts a[i] into the sorted prefix before it. */
  method Insert(a: array<Word>, i: nat)
    requires 0 < i < a.Length && Sorted(a[..i])
    modifies a
    ensures Sorted(a[..i + 1]) && multiset(a[..]) == multiset(old(a[..]))
  {
    hide HoleAt, StrCmp, Sorted;
    var next := a[i];
    var j: int := i - 1;
    StartHole(a[..], i);
    assert a[..][i := next] == a[..];
    while j >= 0 && StrCmp(a[j], next) > 0
      invariant -1 <= j < i && HoleAt(a[..], j, i, next)
      invariant multiset(a[..][j + 1 := next]) == multiset(old(a[..]))
      decreases j
    {
      ghost var s := a[..];
      ShiftHole(s, j, i, next);
      HoleMoves(s, j, next);
      a[j + 1] := a[j];
      assert a[..] == s[j + 1 := s[j]];
      j := j - 1;
    }
    FillHole(a[..], j, i, next);
    ghost var s := a[..];
    a[j + 1] := next;
    assert a[..] == s[j + 1 := next];
    assert a[..i + 1] == s[j + 1 := next][..i + 1];
  }

  lemma HoleMoves(s: seq<Word>, j: nat, next: Word)
    requires j + 1 < |s|
    ensures multiset(s[j + 1 := s[j]][j := next]) == multiset(s[j + 1 := next])
  {
    assert s[j + 1 := next] == s[..j] + [s[j]] + [next] + s[j + 2..];
    assert s[j + 1 := s[j]][j := next] == s[..j] + [next] + [s[j]] + s[j + 2..];
  }

  // ----- searching -----

  /** The index of the word, or -1 if it is not there. */
  method BinarySearch(a: array<Word>, n: nat, w: Word) returns (idxOfX: int)
    requires n <= a.Length && Sorted(a[..n])
    ensures -1 <= idxOfX < n
    ensures idxOfX >= 0 ==> a[idxOfX] == w
    ensures idxOfX == -1 <==> w !in a[..n]
  {
    idxOfX := -1;
    var low, high: int := 0, n - 1;
    while low <= high && idxOfX == -1
      invariant 0 <= low <= high + 1 <= n && -1 <= idxOfX < n
      invariant idxOfX >= 0 ==> a[idxOfX] == w
      invariant idxOfX == -1 ==> forall k | 0 <= k < low || high < k < n :: a[k] != w
      decreases high - low + if idxOfX == -1 then 1 else 0
    {
      var mid := (low + high) / 2;
      var strCmpResult := StrCmp(a[mid], w);
      StrCmpEqual(a[mid], w);
      Excluded(a[..n], mid, w);
      if strCmpResult == 0 {
        idxOfX := mid;
      } else if strCmpResult < 0 {
        low := mid + 1;
      } else {
        high := mid - 1;
      }
    }
    if idxOfX >= 0 {
      assert a[..n][idxOfX] == w;
    }
  }

  /** A probe on one side of the word rules out everything further on that side. */
  lemma Excluded(s: seq<Word>, mid: nat, w: Word)
    requires Sorted(s) && mid < |s|
    ensures StrCmp(s[mid], w) < 0 ==> forall k | 0 <= k <= mid :: s[k] != w
    ensures StrCmp(s[mid], w) > 0 ==> forall k | mid <= k < |s| :: s[k] != w
  {
    StrCmpOpposite(s[mid], w);
    StrCmpEqual(w, w);
  }

  method SearchDictionary(dictionary: array<Word>, size: nat, word: Word) returns (found: bool)
    requires size <= dictionary.Length
    ensures found <==> word in dictionary[..size]
  {
    for i := 0 to size
      invariant word !in dictionary[..i]
    {
      StrCmpEqual(dictionary[i], word);
      if StrCmp(dictionary[i], word) == 0 {
        assert dictionary[..size][i] == word;
        return true;
      }
    }
    return false;
  }

  lemma SameWords(s: seq<Word>, t: seq<Word>, w: Word)
    requires multiset(s) == multiset(t)
    ensures w in s <==> w in t
  {
    assert w in s <==> w in multiset(s);
    assert w in t <==> w in multiset(t);
  }

  method SortByMerging(words: seq<Word>) returns (a: array<Word>)
    ensures fresh(a) && a.Length == |words|
    ensures Sorted(a[..]) && multiset(a[..]) == multiset(words)
  {
    hide *;
    var n := |words|;
    a := new Word[n](i requires 0 <= i < n => words[i]);
    assert a[..] == words == a[0..n - 1 + 1];
    MSort(a, 0, n - 1);
    assert a[..] == a[0..n - 1 + 1];
  }

  method SortByInsertion(words: seq<Word>) returns (a: array<Word>)
    ensures fresh(a) && a.Length == |words|
    ensures Sorted(a[..]) && multiset(a[..]) == multiset(words)
  {
    hide *;
    var n := |words|;
    a := new Word[n](i requires 0 <= i < n => words[i]);
    assert a[..] == words;
    InsertionSort(a);
  }

  /** The three programs of the exercise on one dictionary and one query: the two sorts leave the
      same array, and all three give the same answer. */
  method Compare(words: seq<Word>, query: Word)
    returns (byMerge: bool, byInsertion: bool, byScan: bool, merged: seq<Word>, inserted: seq<Word>)
    ensures merged == inserted && Sorted(merged) && multiset(merged) == multiset(words)
    ensures byMerge == byInsertion == byScan == (query in words)
  {
    hide *;
    var n := |words|;
    var a := SortByMerging(words);
    var b := SortByInsertion(words);
    var c := new Word[n](i requires 0 <= i < n => words[i]);
    assert a[..n] == a[..] && b[..n] == b[..] && c[..n] == words;
    SortedIsUnique(a[..], b[..]);
    SameWords(a[..], words, query);
    var i := BinarySearch(a, n, query);
    var j := BinarySearch(b, n, query);
    byMerge, byInsertion := i != -1, j != -1;
    byScan := SearchDictionary(c, n, query);
    merged, inserted := a[..], b[..];
  }
}
