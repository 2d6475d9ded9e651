/** `DataFrame.sample(k)` without replacement, with the random numbers made a
    parameter: a draw is any sequence of choices, each picking one of the
    elements not yet taken. */
module Sampling {

  /** The `k` elements a draw picks from `rows`, in the order it picks them
      (a random number past the end picks the first remaining element). */
  function Draw<T>(rows: seq<T>, k: nat, draw: seq<nat>): (picked: seq<T>)
    ensures |picked| == if k <= |rows| then k else |rows|
    decreases k
  {
    if k == 0 || rows == [] then []
    else
      var i := Pick(|rows|, draw);
      [rows[i]] + Draw(Without(rows, i), k - 1, Later(draw))
  }

  /** The position the next random number picks among `n` remaining elements. */
  function Pick(n: nat, draw: seq<nat>): (i: nat)
    requires n > 0
    ensures i < n
    ensures draw != [] && draw[0] < n ==> i == draw[0]
  {
    if draw != [] && draw[0] < n then draw[0] else 0
  }

  /** The random numbers left after the next pick. */
  function Later(draw: seq<nat>): seq<nat> {
    if draw == [] then [] else draw[1..]
  }

  /** `rows` with the element at `i` taken out. */
  function Without<T>(rows: seq<T>, i: nat): (rest: seq<T>)
    requires i < |rows|
    ensures |rest| == |rows| - 1
  {
    rows[..i] + rows[i + 1..]
  }

  /** Taking out the element at `i` removes one occurrence of it and nothing else. */
  lemma WithoutMultiset<T>(rows: seq<T>, i: nat)
    requires i < |rows|
    ensures multiset(rows) == multiset(Without(rows, i)) + multiset{rows[i]}
  {
    assert rows == rows[..i] + [rows[i]] + rows[i + 1..];
  }

  lemma DrawUnfold<T>(rows: seq<T>, k: nat, i: nat, tail: seq<nat>)
    requires 0 < k && i < |rows|
    ensures Draw(rows, k, [i] + tail) == [rows[i]] + Draw(Without(rows, i), k - 1, tail)
  {
    assert Later([i] + tail) == tail;
  }

  lemma ConsSubMultiset<T>(x: T, picked: seq<T>, rest: seq<T>, rows: seq<T>)
    requires multiset(picked) <= multiset(rest)
    requires multiset(rows) == multiset(rest) + multiset{x}
    ensures multiset([x] + picked) <= multiset(rows)
  {
    assert multiset([x] + picked) == multiset{x} + multiset(picked);
  }

  /** A draw takes each element at most as often as it occurs. */
  lemma {:induction false} DrawSubMultiset<T>(rows: seq<T>, k: nat, draw: seq<nat>)
    ensures multiset(Draw(rows, k, draw)) <= multiset(rows)
    decreases k
  {
    if k != 0 && rows != [] {
      var i := Pick(|rows|, draw);
      var rest := Draw(Without(rows, i), k - 1, Later(draw));
      DrawSubMultiset(Without(rows, i), k - 1, Later(draw));
      WithoutMultiset(rows, i);
      assert Draw(rows, k, draw) == [rows[i]] + rest;
      ConsSubMultiset(rows[i], rest, Without(rows, i), rows);
    }
  }

  /** Position of the first occurrence of `x` in `rows`. */
  function IndexOf<T(==)>(rows: seq<T>, x: T): (i: nat)
    requires x in rows
    ensures i < |rows| && rows[i] == x
  {
    if rows[0] == x then 0 else 1 + IndexOf(rows[1..], x)
  }

  /** Random numbers that make `Draw` pick exactly `picked`. */
  function Choices<T(==)>(rows: seq<T>, picked: seq<T>): seq<nat>
    decreases |picked|
  {
    if picked == [] || picked[0] !in rows then []
    else
      var i := IndexOf(rows, picked[0]);
      [i] + Choices(Without(rows, i), picked[1..])
  }

  lemma ChoicesUnfold<T>(rows: seq<T>, picked: seq<T>)
    requires picked != [] && picked[0] in rows
    ensures var i := IndexOf(rows, picked[0]);
            Choices(rows, picked) == [i] + Choices(Without(rows, i), picked[1..])
  {
  }

  /** Taking out a picked element keeps the rest of the picks available. */
  lemma TakeOne<T>(rows: seq<T>, i: nat, picked: seq<T>)
    requires multiset(picked) <= multiset(rows)
    requires i < |rows| && picked != [] && rows[i] == picked[0]
    ensures multiset(picked[1..]) <= multiset(Without(rows, i))
  {
    var x, rest := rows[i], Without(rows, i);
    WithoutMultiset(rows, i);
    assert picked == [x] + picked[1..];
    assert multiset(picked) == multiset(picked[1..]) + multiset{x};
    forall y ensures multiset(picked[1..])[y] <= multiset(rest)[y] {
      assert multiset(picked)[y] <= multiset(rows)[y];
    }
  }

  /** Every selection without replacement, in any order, is the outcome of
      some draw: the model leaves the random choice unconstrained. */
  lemma {:induction false} DrawCovers<T>(rows: seq<T>, picked: seq<T>)
    requires multiset(picked) <= multiset(rows)
    ensures Draw(rows, |picked|, Choices(rows, picked)) == picked
    decreases |picked|
  {
    if picked != [] {
      assert picked[0] in multiset(picked);
      var i := IndexOf(rows, picked[0]);
      TakeOne(rows, i, picked);
      DrawCovers(Without(rows, i), picked[1..]);
      ChoicesUnfold(rows, picked);
      DrawUnfold(rows, |picked|, i, Choices(Without(rows, i), picked[1..]));
      assert picked == [picked[0]] + picked[1..];
    }
  }
}
