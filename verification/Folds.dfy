/** Folding a sequence of octets into a register, for any register and any update. */
module Folds {
  import opened Octets

  function Iterate<T>(step: T -> T, start: T, n: nat): T {
    if n == 0 then start else step(Iterate(step, start, n - 1))
  }

  lemma IterateOnce<T>(step: T -> T, start: T)
    ensures Iterate(step, start, 1) == step(start)
  {
    assert Iterate(step, start, 0) == start;
  }

  lemma {:induction false} IterateAppend<T>(step: T -> T, start: T, m: nat, n: nat)
    ensures Iterate(step, start, m + n) == Iterate(step, Iterate(step, start, m), n)
  {
    if n > 0 {
      IterateAppend(step, start, m, n - 1);
    }
  }

  function Fold<T>(update: (T, Octet) -> T, start: T, octets: Bytes): T {
    if octets == [] then start else update(Fold(update, start, octets[..|octets| - 1]), octets[|octets| - 1])
  }

  lemma {:induction false} FoldAppend<T>(update: (T, Octet) -> T, start: T, a: Bytes, b: Bytes)
    ensures Fold(update, start, a + b) == Fold(update, Fold(update, start, a), b)
  {
    if b == [] {
      assert a + b == a;
    } else {
      FoldAppend(update, start, a, b[..|b| - 1]);
      assert (a + b)[..|a + b| - 1] == a + b[..|b| - 1];
    }
  }

  lemma FoldOne<T>(update: (T, Octet) -> T, start: T, x: Octet)
    ensures Fold(update, start, [x]) == update(start, x)
  {
    assert [x][..0] == [];
    assert Fold(update, start, []) == start;
  }

  lemma FoldTwo<T>(update: (T, Octet) -> T, start: T, x: Octet, y: Octet)
    ensures Fold(update, start, [x, y]) == update(update(start, x), y)
  {
    FoldOne(update, start, x);
    assert [x, y][..1] == [x];
  }

  ghost predicate Injective<T(!new)>(step: T -> T) {
    forall x, y | x != y :: step(x) != step(y)
  }

  ghost predicate Additive<T(!new)>(step: T -> T, add: (T, T) -> T) {
    forall x, y :: step(add(x, y)) == add(step(x), step(y))
  }

  lemma {:induction false} IterateInjective<T(!new)>(step: T -> T, x: T, y: T, n: nat)
    requires Injective(step) && x != y
    ensures Iterate(step, x, n) != Iterate(step, y, n)
  {
    if n > 0 {
      IterateInjective(step, x, y, n - 1);
    }
  }

  lemma {:induction false} IterateAdditive<T(!new)>(step: T -> T, add: (T, T) -> T, x: T, y: T, n: nat)
    requires Additive(step, add)
    ensures Iterate(step, add(x, y), n) == add(Iterate(step, x, n), Iterate(step, y, n))
  {
    if n > 0 {
      IterateAdditive(step, add, x, y, n - 1);
    }
  }

  ghost predicate InjectiveUpdate<T(!new)>(update: (T, Octet) -> T) {
    forall f, g, o | f != g :: update(f, o) != update(g, o)
  }

  lemma {:induction false} FoldInjective<T(!new)>(update: (T, Octet) -> T, f: T, g: T, octets: Bytes)
    requires InjectiveUpdate(update) && f != g
    ensures Fold(update, f, octets) != Fold(update, g, octets)
  {
    if octets != [] {
      FoldInjective(update, f, g, octets[..|octets| - 1]);
    }
  }

  function Combine(mix: (Octet, Octet) -> Octet, a: Bytes, b: Bytes): Bytes
    requires |a| == |b|
  {
    seq(|a|, k requires 0 <= k < |a| => mix(a[k], b[k]))
  }

  ghost predicate AdditiveUpdate<T(!new)>(update: (T, Octet) -> T, add: (T, T) -> T, mix: (Octet, Octet) -> Octet) {
    forall f, g, a, b :: update(add(f, g), mix(a, b)) == add(update(f, a), update(g, b))
  }

  lemma {:induction false} FoldAdditive<T(!new)>(update: (T, Octet) -> T, add: (T, T) -> T,
                                                 mix: (Octet, Octet) -> Octet, f: T, g: T, a: Bytes, b: Bytes)
    requires AdditiveUpdate(update, add, mix) && |a| == |b|
    ensures Fold(update, add(f, g), Combine(mix, a, b)) == add(Fold(update, f, a), Fold(update, g, b))
  {
    if a != [] {
      var n := |a| - 1;
      var c := Combine(mix, a, b);
      FoldAdditive(update, add, mix, f, g, a[..n], b[..n]);
      assert c[..n] == Combine(mix, a[..n], b[..n]);
      assert c[n] == mix(a[n], b[n]);
    }
  }
}
