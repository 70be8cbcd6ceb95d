/** Commutative groups and multiples of their elements. */
module Groups {
  datatype Group<!T(!new)> = Group(zero: T, add: (T, T) -> T, neg: T -> T) {
    ghost predicate Lawful() {
      && (forall x, y :: add(x, y) == add(y, x))
      && (forall x, y, z :: add(add(x, y), z) == add(x, add(y, z)))
      && (forall x :: add(x, zero) == x)
      && (forall x :: add(x, neg(x)) == zero)
    }

    lemma Laws(x: T, y: T, z: T)
      requires Lawful()
      ensures add(x, y) == add(y, x) && add(add(x, y), z) == add(x, add(y, z))
      ensures add(x, zero) == x && add(zero, x) == x && add(x, neg(x)) == zero
    {
    }

    /** n times p. */
    ghost function Multiple(n: int, p: T): T
      decreases if n < 0 then -n else n
    {
      if n == 0 then zero else if n > 0 then add(Multiple(n - 1, p), p) else add(Multiple(n + 1, p), neg(p))
    }

    lemma Shuffle(w: T, x: T, y: T, z: T)
      requires Lawful()
      ensures add(add(w, x), add(y, z)) == add(add(w, y), add(x, z))
    {
      hide Lawful;
      Laws(w, x, add(y, z));
      Laws(x, y, z);
      Laws(y, x, z);
      Laws(w, y, add(x, z));
    }

    lemma Cancel(x: T, p: T)
      requires Lawful()
      ensures add(add(x, neg(p)), p) == x && add(add(x, p), neg(p)) == x
    {
      hide Lawful;
      Laws(x, neg(p), p);
      Laws(x, p, neg(p));
      Laws(p, neg(p), x);
    }

    lemma Succ(n: int, p: T)
      requires Lawful()
      ensures Multiple(n + 1, p) == add(Multiple(n, p), p)
    {
      hide Lawful;
      if n < 0 {
        Cancel(Multiple(n + 1, p), p);
      }
    }

    lemma Pred(n: int, p: T)
      requires Lawful()
      ensures Multiple(n - 1, p) == add(Multiple(n, p), neg(p))
    {
      hide Lawful;
      Succ(n - 1, p);
      Cancel(Multiple(n - 1, p), p);
    }

    lemma {:induction false} MultipleAdd(m: int, n: int, p: T)
      requires Lawful()
      ensures Multiple(m + n, p) == add(Multiple(m, p), Multiple(n, p))
      decreases if n < 0 then -n else n
    {
      hide Lawful, Multiple;
      var s := Multiple(m, p);
      if n > 0 {
        MultipleAdd(m, n - 1, p);
        Succ(m + n - 1, p);
        Succ(n - 1, p);
        Laws(s, Multiple(n - 1, p), p);
      } else if n < 0 {
        MultipleAdd(m, n + 1, p);
        Pred(m + n + 1, p);
        Pred(n + 1, p);
        Laws(s, Multiple(n + 1, p), neg(p));
      } else {
        None(p);
        Laws(s, s, s);
      }
    }

    lemma None(p: T)
      ensures Multiple(0, p) == zero
    {
    }

    lemma {:induction false} MultipleMultiple(m: int, n: int, p: T)
      requires Lawful()
      ensures Multiple(m, Multiple(n, p)) == Multiple(m * n, p)
      decreases if m < 0 then -m else m
    {
      hide Lawful, Multiple;
      var q := Multiple(n, p);
      if m > 0 {
        MultipleMultiple(m - 1, n, p);
        Succ(m - 1, q);
        MultipleAdd((m - 1) * n, n, p);
        assert (m - 1) * n + n == m * n;
      } else if m < 0 {
        MultipleMultiple(m + 1, n, p);
        Pred(m + 1, q);
        MultipleNeg(n, p);
        MultipleAdd((m + 1) * n, -n, p);
        assert (m + 1) * n + -n == m * n;
      } else {
        None(q);
        None(p);
      }
    }

    lemma NegUnique(x: T, y: T)
      requires Lawful() && add(x, y) == zero
      ensures y == neg(x)
    {
      hide Lawful;
      Cancel(y, x);
      Laws(x, y, y);
      Laws(neg(x), y, y);
    }

    lemma MultipleNeg(n: int, p: T)
      requires Lawful()
      ensures Multiple(-n, p) == neg(Multiple(n, p))
    {
      hide Lawful, Multiple;
      MultipleAdd(n, -n, p);
      None(p);
      NegUnique(Multiple(n, p), Multiple(-n, p));
    }

    lemma {:induction false} MultipleSum(n: int, p: T, q: T)
      requires Lawful()
      ensures Multiple(n, add(p, q)) == add(Multiple(n, p), Multiple(n, q))
      decreases if n < 0 then -n else n
    {
      hide Lawful, Multiple;
      var s := add(p, q);
      if n > 0 {
        MultipleSum(n - 1, p, q);
        Succ(n - 1, p);
        Succ(n - 1, q);
        Succ(n - 1, s);
        Shuffle(Multiple(n - 1, p), Multiple(n - 1, q), p, q);
      } else if n < 0 {
        MultipleSum(n + 1, p, q);
        Pred(n + 1, p);
        Pred(n + 1, q);
        Pred(n + 1, s);
        NegSum(p, q);
        Shuffle(Multiple(n + 1, p), Multiple(n + 1, q), neg(p), neg(q));
      } else {
        None(p);
        None(q);
        None(s);
        Laws(zero, zero, zero);
      }
    }

    lemma NegSum(p: T, q: T)
      requires Lawful()
      ensures neg(add(p, q)) == add(neg(p), neg(q))
    {
      hide Lawful;
      Shuffle(p, q, neg(p), neg(q));
      Laws(p, p, p);
      Laws(q, q, q);
      Laws(zero, zero, zero);
      NegUnique(add(p, q), add(neg(p), neg(q)));
    }

    lemma Few(p: T)
      requires Lawful()
      ensures Multiple(1, p) == p && Multiple(2, p) == add(p, p) && Multiple(-1, p) == neg(p)
    {
      hide Lawful, Multiple;
      None(p);
      Succ(0, p);
      Succ(1, p);
      Pred(0, p);
      Laws(p, p, p);
      Laws(neg(p), p, p);
    }
  }
}
