/** Agreement between independent sources asked the same question. */
module Consensus {
  /** A call that raised, or its result. */
  datatype Rpc<+T> = Raised | Answered(value: T)

  predicate Unanimous<T(==)>(answers: seq<Rpc<T>>, v: T)
  {
    forall i :: 0 <= i < |answers| ==> answers[i] == Answered(v)
  }

  /** The common answer, if there is one. */
  function Agreed<T(==)>(answers: seq<Rpc<T>>): Rpc<T>
  {
    if answers != [] && answers[0].Answered? && Unanimous(answers, answers[0].value) then answers[0] else Raised
  }

  lemma AgreedExactly<T>(answers: seq<Rpc<T>>, v: T)
    requires answers != []
    ensures Agreed(answers) == Answered(v) <==> Unanimous(answers, v)
  {
    if Unanimous(answers, v) {
      assert answers[0] == Answered(v);
    }
  }

  predicate SameMembers<T(==)>(a: seq<T>, b: seq<T>)
  {
    (forall x :: x in a ==> x in b) && forall x :: x in b ==> x in a
  }

  lemma PermutationSameMembers<T>(a: seq<T>, b: seq<T>)
    requires multiset(a) == multiset(b)
    ensures SameMembers(a, b)
  {
    forall x | x in a
      ensures x in b
    {
      assert x in multiset(b);
    }
    forall x | x in b
      ensures x in a
    {
      assert x in multiset(a);
    }
  }

  lemma UnanimousMembers<T>(a: seq<Rpc<T>>, b: seq<Rpc<T>>, v: T)
    requires SameMembers(a, b) && a != [] && Unanimous(a, v)
    ensures b != [] && Unanimous(b, v)
  {
    assert a[0] in b;
    forall i | 0 <= i < |b|
      ensures b[i] == Answered(v)
    {
      assert b[i] in a;
    }
  }

  /** Neither the order in which sources are asked nor repetitions matter. */
  lemma AgreedMembers<T>(a: seq<Rpc<T>>, b: seq<Rpc<T>>)
    requires SameMembers(a, b)
    ensures Agreed(a) == Agreed(b)
  {
    if Agreed(a).Answered? {
      UnanimousMembers(a, b, Agreed(a).value);
      AgreedExactly(b, Agreed(a).value);
    }
    if Agreed(b).Answered? {
      UnanimousMembers(b, a, Agreed(b).value);
      AgreedExactly(a, Agreed(b).value);
    }
  }

  /** What each source answers. */
  function Asked<S, T>(xs: seq<S>, ask: S -> T): (answers: seq<T>)
    ensures |answers| == |xs|
  {
    seq(|xs|, i requires 0 <= i < |xs| => ask(xs[i]))
  }

  lemma AskedMembers<S, T>(xs: seq<S>, ys: seq<S>, ask: S -> T)
    requires SameMembers(xs, ys)
    ensures SameMembers(Asked(xs, ask), Asked(ys, ask))
  {
    AskedWithin(xs, ys, ask);
    AskedWithin(ys, xs, ask);
  }

  lemma AskedWithin<S, T>(xs: seq<S>, ys: seq<S>, ask: S -> T)
    requires forall x :: x in xs ==> x in ys
    ensures forall a :: a in Asked(xs, ask) ==> a in Asked(ys, ask)
  {
    forall a | a in Asked(xs, ask)
      ensures a in Asked(ys, ask)
    {
      var i :| 0 <= i < |xs| && Asked(xs, ask)[i] == a;
      assert xs[i] in ys;
      var j :| 0 <= j < |ys| && ys[j] == xs[i];
      assert Asked(ys, ask)[j] == a;
    }
  }
}
