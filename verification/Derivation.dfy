/**
 * What it means for a set of subtyping constraints to entail another one: the
 * inference rules of the type system, as proof trees.
 */
module Derivation {
  import opened Constraints

  datatype Proof =
    | Given(c: Subtype)
    | Refl(d: Dtv)
    | Trans(first: Proof, second: Proof)
    | Capability(of: Proof, l: FieldLabel)
    | Pointer(d: Dtv)
    | AddIn(d: Dtv, disp: int, access: FieldLabel, offset: int, size: nat)
    | AddOut(d: Dtv, disp: int, access: FieldLabel, offset: int, size: nat)
  {
    function Concl(): Subtype {
      match this
      case Given(c) => c
      case Refl(d) => Subtype(d, d)
      case Trans(p, q) => Subtype(p.Concl().lhs, q.Concl().rhs)
      case Capability(p, l) =>
        // a covariant label keeps the direction, a contravariant one turns it around
        var a, b := p.Concl().lhs.Extend([l]), p.Concl().rhs.Extend([l]);
        if l.Variance() == Covariant then Subtype(a, b) else Subtype(b, a)
      case Pointer(d) => Subtype(d.Extend([Store]), d.Extend([Load]))
      case AddIn(d, k, access, o, n) =>
        Subtype(d.Extend([Add(k), access, Field(o, n)]), d.Extend([access, Field(o + k, n)]))
      case AddOut(d, k, access, o, n) =>
        Subtype(d.Extend([access, Field(o + k, n)]), d.Extend([Add(k), access, Field(o, n)]))
    }

    ghost predicate Checks(C: set<Subtype>) {
      match this
      case Given(c) => c in C
      case Refl(_) => true
      case Trans(p, q) => p.Checks(C) && q.Checks(C) && p.Concl().rhs == q.Concl().lhs
      case Capability(p, _) => p.Checks(C)
      case Pointer(_) => true
      case AddIn(_, _, access, _, _) => access.IsPointerAccess()
      case AddOut(_, _, access, _, _) => access.IsPointerAccess()
    }
  }

  ghost predicate Derivable(C: set<Subtype>, a: Dtv, b: Dtv) {
    exists p: Proof :: p.Checks(C) && p.Concl() == Subtype(a, b)
  }

  /** Inter-derivable: subtypes of each other. */
  ghost predicate Equivalent(C: set<Subtype>, a: Dtv, b: Dtv) {
    Derivable(C, a, b) && Derivable(C, b, a)
  }

  lemma DeriveGiven(C: set<Subtype>, c: Subtype)
    requires c in C
    ensures Derivable(C, c.lhs, c.rhs)
  {
    assert Given(c).Checks(C) && Given(c).Concl() == Subtype(c.lhs, c.rhs);
  }

  lemma DeriveRefl(C: set<Subtype>, a: Dtv)
    ensures Derivable(C, a, a)
  {
    assert Refl(a).Checks(C) && Refl(a).Concl() == Subtype(a, a);
  }

  lemma DeriveTrans(C: set<Subtype>, a: Dtv, b: Dtv, c: Dtv)
    requires Derivable(C, a, b) && Derivable(C, b, c)
    ensures Derivable(C, a, c)
  {
    var p: Proof :| p.Checks(C) && p.Concl() == Subtype(a, b);
    var q: Proof :| q.Checks(C) && q.Concl() == Subtype(b, c);
    assert Trans(p, q).Checks(C) && Trans(p, q).Concl() == Subtype(a, c);
  }

  /** A subtyping survives a common suffix, turned around when the suffix is contravariant. */
  lemma {:induction false} DeriveSuffix(C: set<Subtype>, a: Dtv, b: Dtv, s: seq<FieldLabel>)
    requires Derivable(C, a, b)
    ensures PathVariance(s) == Covariant ==> Derivable(C, a.Extend(s), b.Extend(s))
    ensures PathVariance(s) == Contravariant ==> Derivable(C, b.Extend(s), a.Extend(s))
    decreases |s|
  {
    if s == [] {
      assert a.Extend(s) == a && b.Extend(s) == b;
    } else {
      var front, l := s[..|s| - 1], s[|s| - 1];
      DeriveSuffix(C, a, b, front);
      var lo, hi := a.Extend(front), b.Extend(front);
      if PathVariance(front) == Contravariant {
        lo, hi := hi, lo;
      }
      var p: Proof :| p.Checks(C) && p.Concl() == Subtype(lo, hi);
      var q := Capability(p, l);
      assert q.Checks(C);
      assert s == front + [l];
      assert a.Extend(front).Extend([l]) == a.Extend(s) && b.Extend(front).Extend([l]) == b.Extend(s);
      assert Derivable(C, q.Concl().lhs, q.Concl().rhs) by {
        assert q.Concl() == Subtype(q.Concl().lhs, q.Concl().rhs);
      }
    }
  }

  lemma DeriveLabel(C: set<Subtype>, a: Dtv, b: Dtv, l: FieldLabel)
    requires Derivable(C, a, b)
    ensures l.Variance() == Covariant ==> Derivable(C, a.Extend([l]), b.Extend([l]))
    ensures l.Variance() == Contravariant ==> Derivable(C, b.Extend([l]), a.Extend([l]))
  {
    PathVarianceOne(l);
    DeriveSuffix(C, a, b, [l]);
  }

  /** Parameters and stored values turn a subtyping around, everything else keeps its direction. */
  lemma LabelDirections(C: set<Subtype>, a: Dtv, b: Dtv)
    requires Derivable(C, a, b)
    ensures Derivable(C, a.Extend([Load]), b.Extend([Load])) && Derivable(C, b.Extend([Store]), a.Extend([Store]))
    ensures forall i :: Derivable(C, b.Extend([In(i)]), a.Extend([In(i)]))
    ensures forall i :: Derivable(C, a.Extend([Out(i)]), b.Extend([Out(i)]))
    ensures forall o, n :: Derivable(C, a.Extend([Field(o, n)]), b.Extend([Field(o, n)]))
    ensures forall k :: Derivable(C, a.Extend([Add(k)]), b.Extend([Add(k)]))
  {
    hide Derivable;
    DeriveLabel(C, a, b, Load);
    DeriveLabel(C, a, b, Store);
    forall i ensures Derivable(C, b.Extend([In(i)]), a.Extend([In(i)])) {
      DeriveLabel(C, a, b, In(i));
    }
    forall i ensures Derivable(C, a.Extend([Out(i)]), b.Extend([Out(i)])) {
      DeriveLabel(C, a, b, Out(i));
    }
    forall o, n ensures Derivable(C, a.Extend([Field(o, n)]), b.Extend([Field(o, n)])) {
      DeriveLabel(C, a, b, Field(o, n));
    }
    forall k ensures Derivable(C, a.Extend([Add(k)]), b.Extend([Add(k)])) {
      DeriveLabel(C, a, b, Add(k));
    }
  }

  lemma EquivalentSuffix(C: set<Subtype>, a: Dtv, b: Dtv, s: seq<FieldLabel>)
    requires Equivalent(C, a, b)
    ensures Equivalent(C, a.Extend(s), b.Extend(s))
  {
    DeriveSuffix(C, a, b, s);
    DeriveSuffix(C, b, a, s);
  }

  /** Through a pointer, what is stored flows to what is loaded; under a suffix s of either sign. */
  lemma DeriveStoreLoad(C: set<Subtype>, d: Dtv, s: seq<FieldLabel>)
    ensures PathVariance(s) == Covariant ==> Derivable(C, d.Extend([Store] + s), d.Extend([Load] + s))
    ensures PathVariance(s) == Contravariant ==> Derivable(C, d.Extend([Load] + s), d.Extend([Store] + s))
  {
    var p := Pointer(d);
    assert p.Checks(C) && p.Concl() == Subtype(d.Extend([Store]), d.Extend([Load]));
    DeriveSuffix(C, d.Extend([Store]), d.Extend([Load]), s);
    assert d.Extend([Store]).Extend(s) == d.Extend([Store] + s);
    assert d.Extend([Load]).Extend(s) == d.Extend([Load] + s);
  }

  /** Moving a displacement into the field behind a pointer access changes nothing. */
  lemma EquivalentAdd(C: set<Subtype>, d: Dtv, k: int, access: FieldLabel, o: int, n: nat)
    requires access.IsPointerAccess()
    ensures Equivalent(C, d.Extend([Add(k), access, Field(o, n)]), d.Extend([access, Field(o + k, n)]))
  {
    var a, b := d.Extend([Add(k), access, Field(o, n)]), d.Extend([access, Field(o + k, n)]);
    var p, q := AddIn(d, k, access, o, n), AddOut(d, k, access, o, n);
    assert p.Checks(C) && p.Concl() == Subtype(a, b);
    assert q.Checks(C) && q.Concl() == Subtype(b, a);
  }

  /** What is stored flows to what is loaded, and displacements move into fields behind loads and behind stores. */
  lemma PointerRules(C: set<Subtype>, d: Dtv, k: int, o: int, n: nat)
    ensures Derivable(C, d.Extend([Store]), d.Extend([Load]))
    ensures Equivalent(C, d.Extend([Add(k), Load, Field(o, n)]), d.Extend([Load, Field(o + k, n)]))
    ensures Equivalent(C, d.Extend([Add(k), Store, Field(o, n)]), d.Extend([Store, Field(o + k, n)]))
  {
    hide Derivable;
    DeriveStoreLoad(C, d, []);
    PathVarianceNothing();
    assert [Store] + [] == [Store] && [Load] + [] == [Load];
    EquivalentAdd(C, d, k, Load, o, n);
    EquivalentAdd(C, d, k, Store, o, n);
  }

  /** Every constraint of K follows from C. */
  ghost predicate EntailsAll(C: set<Subtype>, K: set<Subtype>) {
    forall c | c in K :: Derivable(C, c.lhs, c.rhs)
  }

  lemma {:induction false} EntailedProof(C: set<Subtype>, K: set<Subtype>, p: Proof)
    requires EntailsAll(C, K) && p.Checks(K)
    ensures Derivable(C, p.Concl().lhs, p.Concl().rhs)
  {
    match p
    case Given(c) =>
    case Trans(q, r) =>
      EntailedProof(C, K, q);
      EntailedProof(C, K, r);
      DeriveTrans(C, q.Concl().lhs, q.Concl().rhs, r.Concl().rhs);
    case Capability(q, l) =>
      EntailedProof(C, K, q);
      var q': Proof :| q'.Checks(C) && q'.Concl() == q.Concl();
      assert Capability(q', l).Checks(C) && Capability(q', l).Concl() == p.Concl();
    case _ =>
      assert p.Checks(C);
  }

  /** Then whatever follows from K follows from C. */
  lemma EntailedDerivation(C: set<Subtype>, K: set<Subtype>, a: Dtv, b: Dtv)
    requires EntailsAll(C, K) && Derivable(K, a, b)
    ensures Derivable(C, a, b)
  {
    var p: Proof :| p.Checks(K) && p.Concl() == Subtype(a, b);
    EntailedProof(C, K, p);
  }
}
