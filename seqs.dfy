/**
 * Facts about sequences and their multisets, used to say that the tracker
 * does not depend on the order in which the concurrent checks report.
 */
module Seqs {

  predicate NoDuplicates<T(==)>(xs: seq<T>) {
    forall i, j :: 0 <= i < j < |xs| ==> xs[i] != xs[j]
  }

  function MapSeq<A, B>(f: A -> B, xs: seq<A>): (ys: seq<B>)
    ensures |ys| == |xs|
    ensures forall i :: 0 <= i < |xs| ==> ys[i] == f(xs[i])
  {
    seq(|xs|, i requires 0 <= i < |xs| => f(xs[i]))
  }

  /** A sequence has no duplicates exactly when no element occurs twice in its multiset. */
  lemma {:induction false} NoDuplicatesIffCountsAtMostOne<T>(xs: seq<T>)
    ensures NoDuplicates(xs) <==> forall x :: multiset(xs)[x] <= 1
  {
    if |xs| > 0 {
      var init, last := xs[..|xs| - 1], xs[|xs| - 1];
      assert xs == init + [last];
      NoDuplicatesIffCountsAtMostOne(init);
      assert multiset(xs) == multiset(init) + multiset{last};
      if NoDuplicates(xs) {
        assert NoDuplicates(init) by {
          forall i, j | 0 <= i < j < |init| ensures init[i] != init[j] {
            assert init[i] == xs[i] && init[j] == xs[j];
          }
        }
        assert last !in init by {
          forall i | 0 <= i < |init| ensures init[i] != last {
            assert init[i] == xs[i];
          }
        }
        forall x ensures multiset(xs)[x] <= 1 {
          assert multiset(init)[x] <= 1;
        }
      } else {
        var i, j :| 0 <= i < j < |xs| && xs[i] == xs[j];
        if j < |xs| - 1 {
          assert !NoDuplicates(init) by {
            assert init[i] == xs[i] && init[j] == xs[j];
          }
          var y :| multiset(init)[y] > 1;
          assert multiset(xs)[y] > 1;
        } else {
          assert init[i] == last;
          assert last in multiset(init);
          assert multiset(xs)[last] == multiset(init)[last] + 1;
        }
      }
    }
  }

  /** Reordering a duplicate-free sequence leaves it duplicate-free. */
  lemma NoDuplicatesPermutation<T>(xs: seq<T>, ys: seq<T>)
    requires NoDuplicates(xs) && multiset(xs) == multiset(ys)
    ensures NoDuplicates(ys)
  {
    NoDuplicatesIffCountsAtMostOne(xs);
    NoDuplicatesIffCountsAtMostOne(ys);
  }

  lemma ConcatAssoc<T>(x: seq<T>, y: seq<T>, z: seq<T>)
    ensures x + y + z == x + (y + z)
  {
  }

  lemma ConcatIndex<T>(x: seq<T>, y: seq<T>, z: seq<T>, j: nat)
    requires j < |y|
    ensures |x| + j < |x + y + z| && (x + y + z)[|x| + j] == y[j]
  {
  }

  lemma MapSeqAppend<A, B>(f: A -> B, a: seq<A>, b: seq<A>)
    ensures MapSeq(f, a + b) == MapSeq(f, a) + MapSeq(f, b)
  {
  }

  /** The multiset of a mapped join is the union of the mapped parts' multisets. */
  lemma MapMultisetAppend<A, B>(f: A -> B, a: seq<A>, b: seq<A>)
    ensures multiset(MapSeq(f, a + b)) == multiset(MapSeq(f, a)) + multiset(MapSeq(f, b))
  {
    MapSeqAppend(f, a, b);
  }

  /** Taking the same element out of two reorderings of one sequence leaves two reorderings. */
  lemma RemoveOne<T>(x: T, rest: seq<T>, front: seq<T>, back: seq<T>)
    requires multiset([x] + rest) == multiset(front + [x] + back)
    ensures multiset(rest) == multiset(front + back)
  {
    assert multiset([x] + rest) == multiset([x]) + multiset(rest);
    assert multiset(front + [x] + back) == multiset(front) + multiset([x]) + multiset(back);
    assert multiset(front + back) == multiset(front) + multiset(back);
    forall z ensures multiset(rest)[z] == multiset(front + back)[z] {
      assert multiset([x] + rest)[z] == multiset([x])[z] + multiset(rest)[z];
      assert multiset(front + [x] + back)[z] == multiset(front)[z] + multiset([x])[z] + multiset(back)[z];
    }
  }

  /** Mapping a function over two reorderings of one sequence gives two reorderings of one sequence. */
  lemma {:induction false} MapPermutation<A, B>(f: A -> B, xs: seq<A>, ys: seq<A>)
    requires multiset(xs) == multiset(ys)
    ensures multiset(MapSeq(f, xs)) == multiset(MapSeq(f, ys))
  {
    if |xs| == 0 {
      assert |multiset(ys)| == 0;
    } else {
      var x, rest := xs[0], xs[1..];
      assert x in multiset(ys);
      var p :| 0 <= p < |ys| && ys[p] == x;
      var front, back := ys[..p], ys[p + 1..];
      assert ys == front + [x] + back;
      assert xs == [x] + rest;
      RemoveOne(x, rest, front, back);
      MapPermutation(f, rest, front + back);
      var fx, ff, fb := multiset(MapSeq(f, [x])), multiset(MapSeq(f, front)), multiset(MapSeq(f, back));
      MapMultisetAppend(f, [x], rest);
      MapMultisetAppend(f, front, back);
      MapMultisetAppend(f, front + [x], back);
      MapMultisetAppend(f, front, [x]);
      assert multiset(MapSeq(f, xs)) == fx + (ff + fb);
      assert multiset(MapSeq(f, ys)) == ff + fx + fb;
    }
  }
}
