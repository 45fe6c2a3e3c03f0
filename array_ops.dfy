/** JavaScript array operations the service relies on: `indexOf` and the pair of
    `splice` calls that commit a reorder to the drag-start snapshot. */
module ArrayOps {

  /** No element occurs twice. */
  predicate Distinct<T(==)>(s: seq<T>) {
    forall i, j :: 0 <= i < j < |s| ==> s[i] != s[j]
  }

  /** Dropping the head keeps the elements distinct, and the head does not
      occur again. */
  lemma DistinctTail<T>(s: seq<T>)
    requires 0 < |s| && Distinct(s)
    ensures Distinct(s[1..]) && s[0] !in s[1..]
  {
  }

  /** `Array.prototype.indexOf`: the first position holding `x`, or -1. */
  function IndexOf<T(==)>(s: seq<T>, x: T): (r: int)
    ensures -1 <= r < |s|
    ensures r == -1 <==> x !in s
    ensures 0 <= r ==> s[r] == x && x !in s[..r]
  {
    if |s| == 0 then -1
    else if s[0] == x then 0
    else
      var k := IndexOf(s[1..], x);
      if k == -1 then -1 else k + 1
  }

  /** `indexOf` finds nothing later than any position holding `x`. */
  lemma {:induction false} IndexOfFirst<T>(s: seq<T>, x: T, j: nat)
    requires j < |s| && s[j] == x
    ensures 0 <= IndexOf(s, x) <= j
  {
    if s[0] != x {
      IndexOfFirst(s[1..], x, j - 1);
    }
  }

  /** The start position `splice` actually uses: a negative start counts from the
      end of the array (and stops at 0), a start past the end is the end. */
  function SpliceStart(start: int, len: nat): (k: nat)
    ensures k <= len
    ensures 0 <= start <= len ==> k == start
    ensures -(len as int) <= start < 0 ==> k == len + start
  {
    if start < 0 then (if len + start < 0 then 0 else len + start)
    else if start < len then start else len
  }

  function RemoveAt<T>(s: seq<T>, k: nat): seq<T>
    requires k < |s|
  {
    s[..k] + s[k + 1..]
  }

  function InsertAt<T>(s: seq<T>, k: nat, x: T): seq<T>
    requires k <= |s|
  {
    s[..k] + [x] + s[k..]
  }

  /** `moved = s.splice(from, 1).pop(); s.splice(to, 0, moved)`: the reorder commit.
      `from` and `to` are results of `indexOf`, so each is -1 or a valid position. */
  function Move<T>(s: seq<T>, from: int, to: int): seq<T>
    requires 0 < |s| && -1 <= from < |s| && -1 <= to < |s|
  {
    var k := SpliceStart(from, |s|);
    var rest := RemoveAt(s, k);
    InsertAt(rest, SpliceStart(to, |rest|), s[k])
  }

  /** The commit keeps the length and the elements: it is a permutation. */
  lemma MovePermutes<T>(s: seq<T>, from: int, to: int)
    requires 0 < |s| && -1 <= from < |s| && -1 <= to < |s|
    ensures |Move(s, from, to)| == |s|
    ensures multiset(Move(s, from, to)) == multiset(s)
  {
    var k := SpliceStart(from, |s|);
    var rest := RemoveAt(s, k);
    var j := SpliceStart(to, |rest|);
    assert s == s[..k] + [s[k]] + s[k + 1..];
    assert rest == rest[..j] + rest[j..];
    calc {
      multiset(Move(s, from, to));
      multiset(rest[..j]) + multiset([s[k]]) + multiset(rest[j..]);
      multiset(rest) + multiset([s[k]]);
      multiset(s[..k]) + multiset(s[k + 1..]) + multiset([s[k]]);
      multiset(s);
    }
  }

  /** A permutation of a sequence without repetitions has none either. */
  lemma PermutationKeepsDistinct<T>(s: seq<T>, r: seq<T>)
    requires Distinct(s) && multiset(r) == multiset(s)
    ensures Distinct(r)
  {
    forall i, j | 0 <= i < j < |r| ensures r[i] != r[j] {
      if r[i] == r[j] {
        var x := r[i];
        assert multiset(r)[x] >= 2 by {
          assert r == r[..i] + [x] + r[i + 1..j] + [x] + r[j + 1..];
        }
        DistinctCountsOnce(s, x);
        assert false;
      }
    }
  }

  lemma DistinctCountsOnce<T>(s: seq<T>, x: T)
    requires Distinct(s)
    ensures multiset(s)[x] <= 1
  {
    if s != [] {
      assert s == [s[0]] + s[1..];
      assert Distinct(s[1..]);
      DistinctCountsOnce(s[1..], x);
      if s[0] == x {
        assert x !in s[1..];
      }
    }
  }

  /** With both positions valid, the moved element lands at `to` and the others
      keep their relative order: removing it again gives `s` without it. */
  lemma {:induction false} MovePlaces<T>(s: seq<T>, from: nat, to: nat)
    requires from < |s| && to < |s|
    ensures |Move(s, from, to)| == |s|
    ensures Move(s, from, to)[to] == s[from]
    ensures RemoveAt(Move(s, from, to), to) == RemoveAt(s, from)
  {
    var rest := RemoveAt(s, from);
    var r := Move(s, from, to);
    assert r == rest[..to] + [s[from]] + rest[to..];
    assert r[..to] == rest[..to];
    assert r[to + 1..] == rest[to..];
  }

  /** Moving forward: the elements between the two positions shift one place down. */
  lemma MoveForward<T>(s: seq<T>, from: nat, to: nat)
    requires from <= to < |s|
    ensures Move(s, from, to) == s[..from] + s[from + 1..to + 1] + [s[from]] + s[to + 1..]
  {
    var rest := RemoveAt(s, from);
    assert rest[..to] == s[..from] + s[from + 1..to + 1];
    assert rest[to..] == s[to + 1..];
  }

  /** Moving backward: the elements between the two positions shift one place up. */
  lemma MoveBackward<T>(s: seq<T>, from: nat, to: nat)
    requires to <= from < |s|
    ensures Move(s, from, to) == s[..to] + [s[from]] + s[to..from] + s[from + 1..]
  {
    var rest := RemoveAt(s, from);
    assert rest[..to] == s[..to];
    assert rest[to..] == s[to..from] + s[from + 1..];
  }

  /** Moving back where an element came from restores the sequence. */
  lemma {:induction false} MoveRoundTrip<T>(s: seq<T>, i: nat, f: nat)
    requires i < |s| && f < |s|
    ensures Move(Move(s, i, f), f, i) == s
  {
    var m := Move(s, i, f);
    MovePlaces(s, i, f);
    MovePlaces(m, f, i);
    var r := Move(m, f, i);
    assert RemoveAt(r, i) == RemoveAt(s, i);
    assert r[i] == s[i];
    assert r == RemoveAt(r, i)[..i] + [r[i]] + RemoveAt(r, i)[i..];
    assert s == RemoveAt(s, i)[..i] + [s[i]] + RemoveAt(s, i)[i..];
  }

  /** Two successive commits of the same element amount to one commit from its
      first position to its last. */
  lemma {:induction false} MoveCompose<T>(s: seq<T>, a: nat, b: nat, c: nat)
    requires a < |s| && b < |s| && c < |s|
    ensures Move(Move(s, a, b), b, c) == Move(s, a, c)
  {
    var m := Move(s, a, b);
    MovePlaces(s, a, b);
    MovePlaces(m, b, c);
    MovePlaces(s, a, c);
    var r1 := Move(m, b, c);
    var r2 := Move(s, a, c);
    assert RemoveAt(r1, c) == RemoveAt(r2, c);
    assert r1[c] == r2[c];
    assert r1 == RemoveAt(r1, c)[..c] + [r1[c]] + RemoveAt(r1, c)[c..];
    assert r2 == RemoveAt(r2, c)[..c] + [r2[c]] + RemoveAt(r2, c)[c..];
  }

  /** `splice(-1, 1)` takes the LAST element: an `indexOf` miss (-1) moves the
      last element of the snapshot. */
  lemma MoveFromMissing<T>(s: seq<T>, to: int)
    requires 0 < |s| && -1 <= to < |s|
    ensures Move(s, -1, to) == Move(s, |s| - 1, to)
  {
  }

  /** Inserting at -1 puts the element before the last one. */
  lemma MoveToMissing<T>(s: seq<T>, from: int)
    requires 1 < |s| && -1 <= from < |s|
    ensures Move(s, from, -1) == Move(s, from, |s| - 2)
  {
  }

  /** A worked example: `[A,B,C,D]` with 0 -> 2 gives `[B,C,A,D]`. */
  lemma MoveExample()
    ensures Move(['A', 'B', 'C', 'D'], 0, 2) == ['B', 'C', 'A', 'D']
  {
  }
}
