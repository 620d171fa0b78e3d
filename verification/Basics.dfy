/** Types and sequence facts shared by every model in this project. */
module Basics {

  type byte = x: int | 0 <= x < 256

  datatype Option<+T> = None | Some(value: T)

  /** What a poll of an asynchronous source answers. */
  datatype Poll<+T> = Pending | Failed | Ready(value: T)

  const TWO_32: nat := 0x1_0000_0000

  function Min(a: nat, b: nat): (m: nat) {
    if a <= b then a else b
  }

  function Max(a: nat, b: nat): (m: nat) {
    if a >= b then a else b
  }

  /** `n` numbers from `from` on. */
  function Range(from: int, n: nat): (ids: seq<int>) {
    seq(n, i => from + i)
  }

  /** A sequence without its first `n` elements. */
  function Drop<T>(s: seq<T>, n: nat): (r: seq<T>) {
    if n <= |s| then s[n..] else []
  }

  /** Concatenation of a sequence of sequences, defined from the back so that
      appending one more part unfolds in a single step. */
  function Concat<T>(parts: seq<seq<T>>): (r: seq<T>) {
    if parts == [] then [] else Concat(parts[..|parts| - 1]) + parts[|parts| - 1]
  }

  lemma Assoc<T>(a: seq<T>, b: seq<T>, c: seq<T>)
    ensures a + b + c == a + (b + c)
  {
  }

  lemma HeadTail<T>(x: T, rest: seq<T>)
    ensures ([x] + rest)[0] == x && ([x] + rest)[1..] == rest
  {
  }

  lemma ConcatSnoc<T>(parts: seq<seq<T>>, last: seq<T>)
    ensures Concat(parts + [last]) == Concat(parts) + last
  {
    assert (parts + [last])[..|parts|] == parts;
  }

  lemma {:induction false} ConcatAppend<T>(a: seq<seq<T>>, b: seq<seq<T>>)
    ensures Concat(a + b) == Concat(a) + Concat(b)
  {
    if b == [] {
      assert a + b == a;
    } else {
      var init, last := b[..|b| - 1], b[|b| - 1];
      assert a + b == (a + init) + [last] && b == init + [last];
      ConcatSnoc(a + init, last);
      ConcatAppend(a, init);
    }
  }

  lemma ConcatHead<T>(parts: seq<seq<T>>)
    requires parts != []
    ensures Concat(parts) == parts[0] + Concat(parts[1..])
  {
    ConcatAppend([parts[0]], parts[1..]);
    assert [parts[0]] + parts[1..] == parts;
    ConcatSnoc([], parts[0]);
    assert [] + [parts[0]] == [parts[0]];
  }

  lemma {:induction false} ConcatEmptyIff<T>(parts: seq<seq<T>>)
    ensures Concat(parts) == [] <==> forall i :: 0 <= i < |parts| ==> parts[i] == []
  {
    if parts != [] {
      var init := parts[..|parts| - 1];
      ConcatEmptyIff(init);
      assert forall i :: 0 <= i < |init| ==> init[i] == parts[i];
    }
  }

  /** Runs `step` over `input`, defined from the back like `Concat`. */
  function Fold<S, T>(step: (S, T) -> S, s: S, input: seq<T>): (r: S) {
    if input == [] then s
    else step(Fold(step, s, input[..|input| - 1]), input[|input| - 1])
  }

  /** The same over the first `n` elements only. */
  function FoldTo<S, T>(step: (S, T) -> S, s: S, input: seq<T>, n: nat): (r: S)
    requires n <= |input|
  {
    if n == 0 then s else step(FoldTo(step, s, input, n - 1), input[n - 1])
  }

  lemma FoldSnoc<S, T>(step: (S, T) -> S, s: S, input: seq<T>, x: T)
    ensures Fold(step, s, input + [x]) == step(Fold(step, s, input), x)
  {
    assert (input + [x])[..|input|] == input;
  }

  lemma {:induction false} FoldAppend<S, T>(step: (S, T) -> S, s: S, a: seq<T>, b: seq<T>)
    ensures Fold(step, Fold(step, s, a), b) == Fold(step, s, a + b)
  {
    if b == [] {
      assert a + b == a;
    } else {
      var init, x := b[..|b| - 1], b[|b| - 1];
      assert a + b == (a + init) + [x];
      FoldAppend(step, s, a, init);
      FoldSnoc(step, s, a + init, x);
    }
  }

  lemma {:induction false} FoldToIsFold<S, T>(step: (S, T) -> S, s: S, input: seq<T>, n: nat)
    requires n <= |input|
    ensures FoldTo(step, s, input, n) == Fold(step, s, input[..n])
  {
    if n > 0 {
      FoldToIsFold(step, s, input, n - 1);
      assert input[..n][..n - 1] == input[..n - 1];
    }
  }

  lemma FoldAll<S, T>(step: (S, T) -> S, s: S, input: seq<T>)
    ensures FoldTo(step, s, input, |input|) == Fold(step, s, input)
  {
    FoldToIsFold(step, s, input, |input|);
    assert input[..|input|] == input;
  }

  lemma {:induction false} FoldToAdvance<S, T>(step: (S, T) -> S, s: S, input: seq<T>, offset: nat, n: nat)
    requires offset + n <= |input|
    ensures FoldTo(step, FoldTo(step, s, input, offset), input[offset..], n) == FoldTo(step, s, input, offset + n)
  {
    if n > 0 {
      FoldToAdvance(step, s, input, offset, n - 1);
    }
  }
}
