/** Type variables, field labels, derived type variables and their variance (src/constraints.rs). */
module Constraints {

  datatype Variance = Covariant | Contravariant {
    /** The sign monoid: equal signs give covariant, different signs contravariant. */
    function Operate(right: Variance): Variance {
      if this == right then Covariant else Contravariant
    }
  }

  /** The name space of type variables. Fresh ids and loop breakers share one counter. */
  datatype Name = Source(s: string) | Tau(id: nat) | LoopBreaker(id: nat)

  datatype CallsiteTag = NoTag | Tag(tid: string)

  datatype TypeVariable = TypeVariable(name: Name, csTag: CallsiteTag, isGlobal: bool) {
    function ToCallee(): TypeVariable {
      this.(csTag := NoTag)
    }
  }

  /** Variables differ for their callees in name or kind only, so a tag makes no difference. */
  lemma SameCallee(v: TypeVariable, w: TypeVariable)
    ensures v.ToCallee() == w.ToCallee() <==> v.name == w.name && v.isGlobal == w.isGlobal
    ensures v.ToCallee().ToCallee() == v.ToCallee() && (v.csTag == NoTag ==> v.ToCallee() == v)
  {
  }

  datatype FieldLabel =
    | Load
    | Store
    | In(index: nat)
    | Out(index: nat)
    | Field(offset: int, size: nat)
    | Add(disp: int)
  {
    function Variance(): Variance {
      match this
      case Load | Out(_) | Field(_, _) | Add(_) => Covariant
      case Store | In(_) => Contravariant
    }

    predicate IsPointerAccess() {
      Load? || Store?
    }
  }

  /** The variance of a path: the product of its labels' variances, folded from the left. */
  function PathVariance(path: seq<FieldLabel>): Variance {
    if path == [] then Covariant
    else PathVariance(path[..|path| - 1]).Operate(path[|path| - 1].Variance())
  }

  datatype Dtv = Dtv(base: TypeVariable, labels: seq<FieldLabel>) {
    function Extend(path: seq<FieldLabel>): Dtv {
      Dtv(base, labels + path)
    }

    /** Same base variable, strictly fewer labels, and all of them agree. */
    predicate IsPrefixOf(other: Dtv) {
      && other.base == base
      && |labels| < |other.labels|
      && labels == other.labels[..|labels|]
    }
  }

  /** A prefix is what is left when at least one label is taken off the end. */
  lemma PrefixExtends(d: Dtv, other: Dtv)
    ensures d.IsPrefixOf(other) <==> exists path :: path != [] && other == d.Extend(path)
  {
    if d.IsPrefixOf(other) {
      assert other == d.Extend(other.labels[|d.labels|..]);
    }
  }

  datatype Subtype = Subtype(lhs: Dtv, rhs: Dtv)

  lemma {:induction false} PathVarianceConcat(u: seq<FieldLabel>, v: seq<FieldLabel>)
    ensures PathVariance(u + v) == PathVariance(u).Operate(PathVariance(v))
    decreases |v|
  {
    if v == [] {
      assert u + v == u;
    } else {
      var front := v[..|v| - 1];
      assert (u + v)[..|u + v| - 1] == u + front;
      PathVarianceConcat(u, front);
    }
  }

  lemma PathVarianceCons(l: FieldLabel, v: seq<FieldLabel>)
    ensures PathVariance([l] + v) == l.Variance().Operate(PathVariance(v))
  {
    PathVarianceConcat([l], v);
    assert [l][..0] == [];
  }

  lemma PathVarianceNothing()
    ensures PathVariance([]) == Covariant
  {
  }

  lemma PathVarianceOne(l: FieldLabel)
    ensures PathVariance([l]) == l.Variance()
  {
    PathVarianceCons(l, []);
    assert [l] + [] == [l];
  }

  function Reversed(s: seq<FieldLabel>): (r: seq<FieldLabel>)
    ensures |r| == |s|
  {
    if s == [] then [] else Reversed(s[1..]) + [s[0]]
  }

  lemma {:induction false} ReversedSnoc(s: seq<FieldLabel>, l: FieldLabel)
    ensures Reversed(s + [l]) == [l] + Reversed(s)
  {
    if s == [] {
      assert s + [l] == [l];
    } else {
      assert (s + [l])[1..] == s[1..] + [l];
      ReversedSnoc(s[1..], l);
    }
  }

  lemma {:induction false} ReversedTwice(s: seq<FieldLabel>)
    ensures Reversed(Reversed(s)) == s
  {
    if s != [] {
      ReversedTwice(s[1..]);
      ReversedSnoc(Reversed(s[1..]), s[0]);
    }
  }

  lemma {:induction false} PathVarianceReversed(s: seq<FieldLabel>)
    ensures PathVariance(Reversed(s)) == PathVariance(s)
    decreases |s|
  {
    if s != [] {
      PathVarianceReversed(s[1..]);
      PathVarianceConcat(Reversed(s[1..]), [s[0]]);
      PathVarianceCons(s[0], s[1..]);
      PathVarianceCons(s[0], []);
      assert s == [s[0]] + s[1..];
      assert [s[0]] + [] == [s[0]];
    }
  }

  /** Hands out ephemeral type variables; one counter names both kinds. */
  class VariableManager {
    var currId: nat
    var lbCount: nat

    constructor ()
      ensures currId == 0 && lbCount == 0
    {
      currId, lbCount := 0, 0;
    }

    method FreshLoopBreaker() returns (tv: TypeVariable)
      modifies this
      ensures tv == TypeVariable(LoopBreaker(old(currId)), NoTag, false)
      ensures currId == old(currId) + 1 && lbCount == old(lbCount) + 1
    {
      tv := TypeVariable(LoopBreaker(currId), NoTag, false);
      currId, lbCount := currId + 1, lbCount + 1;
    }
  }
}
