/** Folds, and shift registers over any xor: what follows from the laws of one step alone.
    Crc32.dfy instantiates this with 32-bit words. */
module ShiftRegister {

  function Fold<R, S>(step: (R, S) -> R, r: R, s: seq<S>): R {
    if s == [] then r else step(Fold(step, r, s[..|s| - 1]), s[|s| - 1])
  }

  lemma {:induction false} FoldConcat<R, S>(step: (R, S) -> R, r: R, a: seq<S>, b: seq<S>)
    ensures Fold(step, r, a + b) == Fold(step, Fold(step, r, a), b)
  {
    if b == [] {
      assert a + b == a;
    } else {
      FoldConcat(step, r, a, b[..|b| - 1]);
      assert (a + b)[..|a + b| - 1] == a + b[..|b| - 1];
    }
  }

  lemma FoldSnoc<R, S>(step: (R, S) -> R, r: R, s: seq<S>, i: nat)
    requires i < |s|
    ensures Fold(step, r, s[..i + 1]) == step(Fold(step, r, s[..i]), s[i])
  {
    assert s[..i + 1][..i] == s[..i];
  }

  /** A fold between two complements. */
  function Conditioned<R, S>(not: R -> R, step: (R, S) -> R, r: R, s: seq<S>): R {
    not(Fold(step, not(r), s))
  }

  lemma ConditionedConcat<R(!new), S>(not: R -> R, step: (R, S) -> R, r: R, a: seq<S>, b: seq<S>)
    requires forall x :: not(not(x)) == x
    ensures Conditioned(not, step, Conditioned(not, step, r, a), b) == Conditioned(not, step, r, a + b)
  {
    FoldConcat(step, not(r), a, b);
  }

  lemma ConditionedEqual<R(!new), S>(not: R -> R, step: (R, S) -> R, r: R, a: seq<S>, b: seq<S>)
    requires forall x :: not(not(x)) == x
    requires Conditioned(not, step, r, a) == Conditioned(not, step, r, b)
    ensures Fold(step, not(r), a) == Fold(step, not(r), b)
  {
    assert not(not(Fold(step, not(r), a))) == not(not(Fold(step, not(r), b)));
  }

  /** Steps that agree everywhere fold to the same value. */
  lemma {:induction false} FoldCongruent<R(!new), S(!new)>(f: (R, S) -> R, g: (R, S) -> R, r: R, s: seq<S>)
    requires forall x, b :: f(x, b) == g(x, b)
    ensures Fold(f, r, s) == Fold(g, r, s)
  {
    if s != [] {
      FoldCongruent(f, g, r, s[..|s| - 1]);
    }
  }

  /** If no step forgets its start, no fold does. */
  lemma {:induction false} FoldInjective<R(!new), S(!new)>(step: (R, S) -> R, x: R, y: R, s: seq<S>)
    requires forall u, v, b :: step(u, b) == step(v, b) ==> u == v
    requires Fold(step, x, s) == Fold(step, y, s)
    ensures x == y
  {
    if s != [] {
      assert Fold(step, x, s[..|s| - 1]) == Fold(step, y, s[..|s| - 1]);
      FoldInjective(step, x, y, s[..|s| - 1]);
    }
  }

  lemma FoldFour<R, S>(step: (R, S) -> R, r: R, a: S, b: S, c: S, d: S)
    ensures Fold(step, r, [a, b, c, d]) == step(step(step(step(r, a), b), c), d)
  {
    assert [a][..0] == [] && [a, b][..1] == [a] && [a, b, c][..2] == [a, b] && [a, b, c, d][..3] == [a, b, c];
    assert Fold(step, r, [a]) == step(Fold(step, r, []), a);
    assert Fold(step, r, [a, b]) == step(Fold(step, r, [a]), b);
    assert Fold(step, r, [a, b, c]) == step(Fold(step, r, [a, b]), c);
  }

  lemma FoldThree<R, S>(step: (R, S) -> R, r: R, s: seq<S>, p: nat)
    requires p + 4 <= |s|
    ensures Fold(step, r, s) == Fold(step, Fold(step, Fold(step, r, s[..p]), [s[p], s[p + 1], s[p + 2], s[p + 3]]), s[p + 4..])
  {
    assert s[p..p + 4] == [s[p], s[p + 1], s[p + 2], s[p + 3]];
    assert s[..p + 4] == s[..p] + s[p..p + 4];
    assert s == s[..p + 4] + s[p + 4..];
    FoldConcat(step, r, s[..p + 4], s[p + 4..]);
    FoldConcat(step, r, s[..p], s[p..p + 4]);
  }

  datatype Register<!T(!new)> = Register(xor: (T, T) -> T, shift: T -> T)
  {
    ghost predicate Associative() {
      forall a, b, c {:trigger xor(xor(a, b), c)} :: xor(xor(a, b), c) == xor(a, xor(b, c))
    }

    ghost predicate CancelsRight() {
      forall a, b {:trigger xor(a, b)} :: xor(xor(a, b), b) == a
    }

    ghost predicate CancelsLeft() {
      forall a, b {:trigger xor(a, b)} :: xor(a, xor(a, b)) == b
    }

    ghost predicate Linear() {
      forall a, b {:trigger shift(xor(a, b))} :: shift(xor(a, b)) == xor(shift(a), shift(b))
    }

    ghost predicate Injective() {
      forall a, b {:trigger shift(a), shift(b)} :: shift(a) == shift(b) ==> a == b
    }

    ghost function Shifts(r: T, n: nat): T
      decreases n, r  // naming `r` keeps literal counts from being unrolled in every proof
    {
      if n == 0 then r else shift(Shifts(r, n - 1))
    }

    lemma {:induction false} ShiftsXor(x: T, y: T, n: nat)
      requires Linear()
      ensures Shifts(xor(x, y), n) == xor(Shifts(x, n), Shifts(y, n))
    {
      if n > 0 {
        ShiftsXor(x, y, n - 1);
      }
    }

    lemma {:induction false} ShiftsInjective(x: T, y: T, n: nat)
      requires Injective() && Shifts(x, n) == Shifts(y, n)
      ensures x == y
    {
      if n > 0 {
        ShiftsInjective(x, y, n - 1);
      }
    }

    lemma {:induction false} ShiftsCompose(r: T, m: nat, n: nat)
      ensures Shifts(Shifts(r, m), n) == Shifts(r, m + n)
    {
      if n > 0 {
        ShiftsCompose(r, m, n - 1);
      }
    }

    lemma ShiftFirst(r: T, n: nat)
      ensures Shifts(shift(r), n) == Shifts(r, n + 1)
    {
      assert Shifts(r, 1) == shift(Shifts(r, 0));
      ShiftsCompose(r, 1, n);
    }

    lemma EightShifts(r0: T, r1: T, r2: T, r3: T, r4: T, r5: T, r6: T, r7: T, r8: T)
      requires shift(r0) == r1 && shift(r1) == r2 && shift(r2) == r3 && shift(r3) == r4
      requires shift(r4) == r5 && shift(r5) == r6 && shift(r6) == r7 && shift(r7) == r8
      ensures Shifts(r0, 8) == r8
    {
      assert Shifts(r0, 2) == shift(Shifts(r0, 1));
      assert Shifts(r0, 4) == shift(Shifts(r0, 3));
      assert Shifts(r0, 6) == shift(Shifts(r0, 5));
      assert Shifts(r0, 8) == shift(Shifts(r0, 7));
    }

    lemma StepInjective(x: T, y: T, b: T, n: nat)
      requires CancelsRight() && Injective()
      requires Shifts(xor(x, b), n) == Shifts(xor(y, b), n)
      ensures x == y
    {
      ShiftsInjective(xor(x, b), xor(y, b), n);
      assert xor(xor(x, b), b) == x && xor(xor(y, b), b) == y;
    }

    lemma WordInjective(r: T, x: T, y: T, n: nat)
      requires CancelsLeft() && Injective()
      requires Shifts(xor(r, x), n) == Shifts(xor(r, y), n)
      ensures x == y
    {
      ShiftsInjective(xor(r, x), xor(r, y), n);
      assert xor(r, xor(r, x)) == x && xor(r, xor(r, y)) == y;
    }

    /** A part of `x` that eight shifts merely move can be shifted on its own. */
    lemma SplitShifts(x: T, low: T, high: T, entry: T, moved: T)
      requires Linear() && x == xor(low, high)
      requires Shifts(low, 8) == entry && Shifts(high, 8) == moved
      ensures Shifts(x, 8) == xor(entry, moved)
    {
      ShiftsXor(low, high, 8);
    }

    /** A value xored in after eight shifts could have been xored in before them, if `up` is the
        value that eight shifts turn into it. */
    lemma LateXor(r: T, w: T, v: T, up: T)
      requires Associative() && Linear() && Shifts(up, 8) == v
      ensures xor(Shifts(xor(r, w), 8), v) == Shifts(xor(r, xor(w, up)), 8)
    {
      ShiftsXor(xor(r, w), up, 8);
    }

    /** Four symbols are one 32-shift step with the nested value `w0 + up(w1 + up(w2 + up(w3)))`. */
    lemma FourSymbols(r: T, w0: T, w1: T, w2: T, w3: T, up1: T, up2: T, up3: T)
      requires Associative() && Linear()
      requires Shifts(up3, 8) == w3
      requires Shifts(up2, 8) == xor(w2, up3)
      requires Shifts(up1, 8) == xor(w1, up2)
      ensures Shifts(xor(Shifts(xor(Shifts(xor(Shifts(xor(r, w0), 8), w1), 8), w2), 8), w3), 8)
           == Shifts(xor(r, xor(w0, up1)), 32)
    {
      var r1 := Shifts(xor(r, w0), 8);
      var r2 := Shifts(xor(r1, w1), 8);
      var r3 := Shifts(xor(r2, w2), 8);
      var v := xor(r, xor(w0, up1));
      LateXor(r, w0, xor(w1, up2), up1);
      assert xor(r1, xor(w1, up2)) == Shifts(v, 8);
      LateXor(r1, w1, xor(w2, up3), up2);
      assert xor(r2, xor(w2, up3)) == Shifts(Shifts(v, 8), 8);
      LateXor(r2, w2, w3, up3);
      assert xor(r3, w3) == Shifts(Shifts(Shifts(v, 8), 8), 8);
      ShiftsCompose(v, 8, 8);
      ShiftsCompose(v, 16, 8);
      ShiftsCompose(v, 24, 8);
    }
  }
}
