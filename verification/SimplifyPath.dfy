/**
 * Distribution of pointer displacements into fields (src/constraint_generation/mod.rs,
 * simplify_path): the rule x.+y.load.field(b) ~> x.load.field(b + y), likewise for store,
 * its normal forms, and the one-pass loop that computes them.
 */
module SimplifyPath {
  import opened Graphs
  import opened Constraints
  import opened Derivation

  type Path = seq<FieldLabel>

  // ----- the rewriting rule -----

  predicate RedexAt(p: Path, i: nat) {
    i + 2 < |p| && p[i].Add? && p[i + 1].IsPointerAccess() && p[i + 2].Field?
  }

  function Contract(p: Path, i: nat): Path
    requires RedexAt(p, i)
  {
    p[..i] + [p[i + 1], Field(p[i + 2].offset + p[i].disp, p[i + 2].size)] + p[i + 3..]
  }

  ghost predicate Rewrites1(p: Path, q: Path) {
    exists i: nat :: RedexAt(p, i) && q == Contract(p, i)
  }

  /** q comes from p by finitely many rewriting steps. */
  ghost predicate Rewrites(p: Path, q: Path) {
    exists t: seq<Path> :: IsRewriting(t, p, q)
  }

  ghost predicate IsRewriting(t: seq<Path>, p: Path, q: Path) {
    && t != [] && t[0] == p && t[|t| - 1] == q
    && forall i :: 0 <= i < |t| - 1 ==> Rewrites1(t[i], t[i + 1])
  }

  ghost predicate IsNormal(p: Path) {
    forall i: nat :: !RedexAt(p, i)
  }

  // ----- the normal form, built from the back -----

  function Prepend(l: FieldLabel, q: Path): Path {
    if l.Add? && 2 <= |q| && q[0].IsPointerAccess() && q[1].Field? then
      [q[0], Field(q[1].offset + l.disp, q[1].size)] + q[2..]
    else
      [l] + q
  }

  function Norm(p: Path): Path {
    if p == [] then [] else Prepend(p[0], Norm(p[1..]))
  }

  lemma NormCons(a: FieldLabel, r: Path)
    ensures Norm([a] + r) == Prepend(a, Norm(r))
  {
    assert ([a] + r)[1..] == r;
  }

  function Total(p: Path): int {
    if p == [] then 0
    else (if p[0].Add? then p[0].disp else if p[0].Field? then p[0].offset else 0) + Total(p[1..])
  }

  lemma {:induction false} NormIsNormal(p: Path)
    ensures IsNormal(Norm(p))
  {
    if p != [] {
      var q := Norm(p[1..]);
      NormIsNormal(p[1..]);
      forall i: nat ensures !RedexAt(Norm(p), i) {
        assert !RedexAt(q, i);
        if i > 0 {
          assert !RedexAt(q, i - 1);
        }
      }
    }
  }

  lemma {:induction false} NormalIsFixed(p: Path)
    requires IsNormal(p)
    ensures Norm(p) == p
  {
    if p != [] {
      forall i: nat ensures !RedexAt(p[1..], i) {
        assert !RedexAt(p, i + 1);
      }
      NormalIsFixed(p[1..]);
      assert !RedexAt(p, 0);
    }
  }

  lemma {:induction false} NormSuffix(u: Path, v: Path, v': Path)
    requires Norm(v) == Norm(v')
    ensures Norm(u + v) == Norm(u + v')
  {
    if u == [] {
      assert u + v == v && u + v' == v';
    } else {
      NormSuffix(u[1..], v, v');
      assert (u + v)[1..] == u[1..] + v && (u + v')[1..] == u[1..] + v';
    }
  }

  lemma NormTwo(a: FieldLabel, b: FieldLabel, r: Path)
    requires !a.Add? && !b.Add?
    ensures Norm([a, b] + r) == [a, b] + Norm(r)
  {
    hide Norm;
    NormCons(b, r);
    NormCons(a, [b] + r);
    assert [a, b] + r == [a] + ([b] + r);
    assert [a] + ([b] + Norm(r)) == [a, b] + Norm(r);
  }

  lemma AddAbsorbed(k: int, access: FieldLabel, f: FieldLabel, r: Path)
    requires access.IsPointerAccess() && f.Field?
    ensures Norm([Add(k)] + ([access, f] + r)) == Norm([access, Field(f.offset + k, f.size)] + r)
  {
    hide Norm;
    NormTwo(access, f, r);
    NormTwo(access, Field(f.offset + k, f.size), r);
    NormCons(Add(k), [access, f] + r);
    assert ([access, f] + Norm(r))[2..] == Norm(r);
  }

  lemma StepKeepsNorm(p: Path, i: nat)
    requires RedexAt(p, i)
    ensures Norm(Contract(p, i)) == Norm(p)
  {
    hide Norm;
    var k, access, f, r := p[i], p[i + 1], p[i + 2], p[i + 3..];
    var g := Field(f.offset + k.disp, f.size);
    AddAbsorbed(k.disp, access, f, r);
    NormSuffix(p[..i], [k] + ([access, f] + r), [access, g] + r);
    assert p == p[..i] + ([k] + ([access, f] + r));
    assert Contract(p, i) == p[..i] + ([access, g] + r);
  }

  lemma {:induction false} RewritingKeepsNorm(t: seq<Path>, p: Path, q: Path)
    requires IsRewriting(t, p, q)
    ensures Norm(q) == Norm(p)
    decreases |t|
  {
    if |t| > 1 {
      assert Rewrites1(t[0], t[0 + 1]);
      var i: nat :| RedexAt(p, i) && t[1] == Contract(p, i);
      StepKeepsNorm(p, i);
      forall j | 0 <= j < |t[1..]| - 1 ensures Rewrites1(t[1..][j], t[1..][j + 1]) {
        assert Rewrites1(t[j + 1], t[j + 1 + 1]);
      }
      RewritingKeepsNorm(t[1..], t[1], q);
    }
  }

  lemma ContractBetween(u: Path, k: FieldLabel, access: FieldLabel, f: FieldLabel, v: Path)
    requires k.Add? && access.IsPointerAccess() && f.Field?
    ensures var p := u + ([k, access, f] + v);
            RedexAt(p, |u|) && Contract(p, |u|) == u + ([access, Field(f.offset + k.disp, f.size)] + v)
  {
    var p := u + ([k, access, f] + v);
    assert p[|u|] == k && p[|u| + 1] == access && p[|u| + 2] == f && p[..|u|] == u && p[|u| + 3..] == v;
  }

  lemma RedexSplit(p: Path, i: nat) returns (u: Path, v: Path)
    requires RedexAt(p, i)
    ensures i + 2 < |p| && p[i].Add? && p[i + 1].IsPointerAccess() && p[i + 2].Field?
    ensures p == u + ([p[i], p[i + 1], p[i + 2]] + v)
    ensures Contract(p, i) == u + ([p[i + 1], Field(p[i + 2].offset + p[i].disp, p[i + 2].size)] + v)
  {
    u, v := p[..i], p[i + 3..];
  }

  lemma ConsAssoc(a: FieldLabel, u: Path, r: Path)
    ensures [a] + (u + r) == ([a] + u) + r
  {
  }

  lemma ConsStep(a: FieldLabel, p: Path, q: Path)
    requires Rewrites1(p, q)
    ensures Rewrites1([a] + p, [a] + q)
  {
    hide Contract, RedexAt;
    var i: nat :| RedexAt(p, i) && q == Contract(p, i);
    var u, v := RedexSplit(p, i);
    var k, access, f := p[i], p[i + 1], p[i + 2];
    var g := Field(f.offset + k.disp, f.size);
    ContractBetween([a] + u, k, access, f, v);
    ConsAssoc(a, u, [k, access, f] + v);
    ConsAssoc(a, u, [access, g] + v);
  }

  lemma RewritingCons(a: FieldLabel, t: seq<Path>, p: Path, q: Path)
    requires IsRewriting(t, p, q)
    ensures Rewrites([a] + p, [a] + q)
  {
    var t' := seq(|t|, j requires 0 <= j < |t| => [a] + t[j]);
    forall j | 0 <= j < |t'| - 1 ensures Rewrites1(t'[j], t'[j + 1]) {
      ConsStep(a, t[j], t[j + 1]);
    }
    assert IsRewriting(t', [a] + p, [a] + q);
  }

  lemma RewritingSnoc(p: Path, q: Path, r: Path)
    requires Rewrites(p, q) && Rewrites1(q, r)
    ensures Rewrites(p, r)
  {
    var t :| IsRewriting(t, p, q);
    var t' := t + [r];
    forall j | 0 <= j < |t'| - 1 ensures Rewrites1(t'[j], t'[j + 1]) {
      if j < |t| - 1 {
        assert Rewrites1(t[j], t[j + 1]);
      }
    }
    assert IsRewriting(t', p, r);
  }

  /** The normal form is reached by the rule alone. */
  lemma {:induction false} RewritesToNorm(p: Path)
    ensures Rewrites(p, Norm(p))
  {
    if p == [] {
      assert IsRewriting([p], p, Norm(p));
    } else {
      var a, r := p[0], p[1..];
      RewritesToNorm(r);
      var t :| IsRewriting(t, r, Norm(r));
      RewritingCons(a, t, r, Norm(r));
      assert p == [a] + r;
      var last := [a] + Norm(r);
      if Norm(p) != last {
        assert RedexAt(last, 0) && last[3..] == Norm(r)[2..];
        assert Contract(last, 0) == Norm(p);
        RewritingSnoc(p, last, Norm(p));
      }
    }
  }

  /** However the rule is applied, a path has one normal form, and it is Norm. */
  lemma UniqueNormalForm(p: Path, q: Path)
    ensures Rewrites(p, q) && IsNormal(q) <==> q == Norm(p)
  {
    RewritesToNorm(p);
    NormIsNormal(p);
    if Rewrites(p, q) && IsNormal(q) {
      var t :| IsRewriting(t, p, q);
      RewritingKeepsNorm(t, p, q);
      NormalIsFixed(q);
    }
  }

  /** No normal path has a displacement in front of a load or store and a field. */
  lemma NormHasNoFold(p: Path, u: Path, v: Path, k: int, access: FieldLabel, o: int, n: nat)
    requires access == Load || access == Store
    ensures Norm(p) != u + [Add(k), access, Field(o, n)] + v
  {
    NormIsNormal(p);
    var q := u + [Add(k), access, Field(o, n)] + v;
    assert q[|u|] == Add(k) && q[|u| + 1] == access && q[|u| + 2] == Field(o, n);
    if Norm(p) == q {
      assert RedexAt(q, |u|);
    }
  }

  /** A second pass changes nothing. */
  lemma NormIdempotent(p: Path)
    ensures Norm(Norm(p)) == Norm(p)
  {
    NormIsNormal(p);
    NormalIsFixed(Norm(p));
  }

  lemma PrependVariance(l: FieldLabel, q: Path)
    ensures PathVariance(Prepend(l, q)) == l.Variance().Operate(PathVariance(q))
  {
    hide PathVariance;
    PathVarianceCons(l, q);
    if Prepend(l, q) != [l] + q {
      var g, r := Prepend(l, q)[1], q[2..];
      assert q == [q[0], q[1]] + r && Prepend(l, q) == [q[0], g] + r;
      PathVarianceConcat([q[0], q[1]], r);
      PathVarianceConcat([q[0], g], r);
      assert [q[0], q[1]] == [q[0]] + [q[1]] && [q[0], g] == [q[0]] + [g];
      PathVarianceCons(q[0], [q[1]]);
      PathVarianceCons(q[0], [g]);
      assert [q[1]] == [q[1]] + [] && [g] == [g] + [];
      PathVarianceCons(q[1], []);
      PathVarianceCons(g, []);
    }
  }

  lemma {:induction false} NormKeepsVariance(p: Path)
    ensures PathVariance(Norm(p)) == PathVariance(p)
  {
    if p != [] {
      NormKeepsVariance(p[1..]);
      assert p == [p[0]] + p[1..];
      PathVarianceCons(p[0], p[1..]);
      PrependVariance(p[0], Norm(p[1..]));
    }
  }

  /** The displacements and field offsets of a path add up to the same number before and after. */
  lemma {:induction false} NormKeepsTotal(p: Path)
    ensures Total(Norm(p)) == Total(p)
  {
    if p != [] {
      var q := Norm(p[1..]);
      NormKeepsTotal(p[1..]);
      if Norm(p) == [p[0]] + q {
        assert Norm(p)[1..] == q;
      } else {
        assert q[1..][1..] == q[2..] && Norm(p)[1..][1..] == q[2..];
        assert Norm(p)[1..][0] == Norm(p)[1] && q[1..][0] == q[1];
      }
    }
  }

  lemma PrependEquivalent(C: set<Subtype>, d: Dtv, a: FieldLabel, q: Path)
    ensures Equivalent(C, d.Extend([a] + q), d.Extend(Prepend(a, q)))
  {
    hide Derivable;
    var p := Prepend(a, q);
    if p == [a] + q {
      DeriveRefl(C, d.Extend(p));
    } else {
      var x, y := [a, q[0], q[1]], [q[0], p[1]];
      EquivalentAdd(C, d, a.disp, q[0], q[1].offset, q[1].size);
      EquivalentSuffix(C, d.Extend(x), d.Extend(y), q[2..]);
      assert d.Extend(x).Extend(q[2..]) == d.Extend([a] + q) by { assert [a] + q == x + q[2..]; }
      assert d.Extend(y).Extend(q[2..]) == d.Extend(p) by { assert p == y + q[2..]; }
    }
  }

  /** Soundness: behind any prefix the simplified path denotes an equivalent derived variable. */
  lemma {:induction false} NormEquivalent(C: set<Subtype>, d: Dtv, p: Path)
    ensures Equivalent(C, d.Extend(p), d.Extend(Norm(p)))
    decreases |p|
  {
    if p == [] {
      DeriveRefl(C, d.Extend(p));
    } else {
      hide Derivable;
      var a, q := p[0], Norm(p[1..]);
      NormEquivalent(C, d.Extend([a]), p[1..]);
      assert d.Extend([a]).Extend(p[1..]) == d.Extend(p) by { assert p == [a] + p[1..]; }
      assert d.Extend([a]).Extend(q) == d.Extend([a] + q);
      PrependEquivalent(C, d, a, q);
      DeriveTrans(C, d.Extend(p), d.Extend([a] + q), d.Extend(Norm(p)));
      DeriveTrans(C, d.Extend(Norm(p)), d.Extend([a] + q), d.Extend(p));
    }
  }

  // ----- machine integers -----

  const I64_LIMIT: int := 0x8000_0000_0000_0000
  const I128_LIMIT: int := 0x8000_0000_0000_0000_0000_0000_0000_0000

  predicate FitsI64(x: int) { -I64_LIMIT <= x < I64_LIMIT }

  predicate FitsI128(x: int) { -I128_LIMIT <= x < I128_LIMIT }

  lemma MachineIntegers(x: int)
    ensures FitsI64(x) <==> -9223372036854775808 <= x <= 9223372036854775807
    ensures FitsI128(x)
       <==> -170141183460469231731687303715884105728 <= x <= 170141183460469231731687303715884105727
  {
  }

  function Sum(adds: seq<int>): int {
    if adds == [] then 0 else Sum(adds[..|adds| - 1]) + adds[|adds| - 1]
  }

  /** The displacements that stand directly in front of position i. */
  function Pending(p: Path, i: nat): seq<int>
    requires i <= |p|
  {
    if i > 0 && p[i - 1].Add? then Pending(p, i - 1) + [p[i - 1].disp] else []
  }

  /** Folding adds into a field at the given offset overflows neither the running sum nor the offset. */
  ghost predicate FoldFits(adds: seq<int>, offset: int) {
    && (forall j :: 0 <= j <= |adds| ==> FitsI128(Sum(adds[..j])))
    && FitsI64(Sum(adds))
    && FitsI64(offset + Sum(adds))
  }

  ghost predicate FoldsFitAt(p: Path, i: nat) {
    i + 1 < |p| && p[i].IsPointerAccess() && p[i + 1].Field? ==> FoldFits(Pending(p, i), p[i + 1].offset)
  }

  ghost predicate AllFoldsFit(p: Path) {
    forall i: nat :: FoldsFitAt(p, i)
  }

  // ----- the one-pass loop -----

  function Adds(ks: seq<int>): Path {
    if ks == [] then [] else Adds(ks[..|ks| - 1]) + [Add(ks[|ks| - 1])]
  }

  lemma AddsSnoc(ks: seq<int>, k: int, r: Path)
    ensures Adds(ks + [k]) + r == Adds(ks) + ([Add(k)] + r)
  {
    assert (ks + [k])[..|ks|] == ks;
  }

  lemma NormHead(r: Path)
    requires r == [] || !r[0].Field?
    ensures Norm(r) == [] || !Norm(r)[0].Field?
  {
  }

  /** Adds in front of anything that does not start with access-then-field stay where they are. */
  lemma {:induction false} NormFlush(ks: seq<int>, r: Path)
    requires !(2 <= |Norm(r)| && Norm(r)[0].IsPointerAccess() && Norm(r)[1].Field?)
    ensures Norm(Adds(ks) + r) == Adds(ks) + Norm(r)
    decreases |ks|
  {
    hide Norm;
    if ks == [] {
      assert Adds(ks) + r == r && Adds(ks) + Norm(r) == Norm(r);
    } else {
      var front, k := ks[..|ks| - 1], ks[|ks| - 1];
      assert ks == front + [k];
      NormCons(Add(k), r);
      NormFlush(front, [Add(k)] + r);
      AddsSnoc(front, k, r);
      AddsSnoc(front, k, Norm(r));
    }
  }

  lemma {:induction false} NormFold(ks: seq<int>, access: FieldLabel, f: FieldLabel, r: Path)
    requires access.IsPointerAccess() && f.Field?
    ensures Norm(Adds(ks) + ([access, f] + r)) == [access, Field(f.offset + Sum(ks), f.size)] + Norm(r)
    decreases |ks|
  {
    hide Norm;
    NormTwo(access, f, r);
    if ks == [] {
      assert Adds(ks) + ([access, f] + r) == [access, f] + r;
    } else {
      var front, k := ks[..|ks| - 1], ks[|ks| - 1];
      var g := Field(f.offset + k, f.size);
      assert ks == front + [k];
      AddsSnoc(front, k, [access, f] + r);
      AddAbsorbed(k, access, f, r);
      NormSuffix(Adds(front), [Add(k)] + ([access, f] + r), [access, g] + r);
      NormFold(front, access, g, r);
    }
  }

  /** What the displacements read so far and the labels still to come simplify to. */
  ghost function Ahead(ks: seq<int>, p: Path, i: nat): Path
    requires i <= |p|
  {
    Norm(Adds(ks) + p[i..])
  }

  lemma AheadStart(p: Path)
    ensures Ahead([], p, 0) == Norm(p)
  {
    assert Adds([]) + p[0..] == p;
  }

  lemma AheadAdd(ks: seq<int>, p: Path, i: nat)
    requires i < |p| && p[i].Add?
    ensures Ahead(ks, p, i) == Ahead(ks + [p[i].disp], p, i + 1)
  {
    AddsSnoc(ks, p[i].disp, p[i + 1..]);
    assert p[i..] == [p[i]] + p[i + 1..];
  }

  lemma AheadFold(ks: seq<int>, p: Path, i: nat)
    requires i + 1 < |p| && p[i].IsPointerAccess() && p[i + 1].Field?
    ensures Ahead(ks, p, i) == [p[i], Field(p[i + 1].offset + Sum(ks), p[i + 1].size)] + Ahead([], p, i + 2)
  {
    assert p[i..] == [p[i], p[i + 1]] + p[i + 2..];
    assert Adds([]) + p[i + 2..] == p[i + 2..];
    NormFold(ks, p[i], p[i + 1], p[i + 2..]);
  }

  lemma AheadFlush(ks: seq<int>, p: Path, i: nat)
    requires i < |p| && !p[i].Add? && !(p[i].IsPointerAccess() && i + 1 < |p| && p[i + 1].Field?)
    ensures Ahead(ks, p, i) == Adds(ks) + [p[i]] + Ahead([], p, i + 1)
  {
    var rest := p[i + 1..];
    assert p[i..] == [p[i]] + rest && Adds([]) + rest == rest;
    assert ([p[i]] + rest)[1..] == rest;
    if p[i].IsPointerAccess() {
      NormHead(rest);
    }
    NormFlush(ks, [p[i]] + rest);
    assert Adds(ks) + ([p[i]] + Norm(rest)) == Adds(ks) + [p[i]] + Norm(rest);
  }

  lemma AheadEnd(ks: seq<int>, p: Path)
    ensures Ahead(ks, p, |p|) == Adds(ks)
  {
    assert p[|p|..] == [];
    NormFlush(ks, []);
    assert Adds(ks) + [] == Adds(ks);
  }

  /** The offset of a folded field, computed with a 128-bit accumulator; None is the overflow panic. */
  method FoldChecked(adds: seq<int>, offset: int) returns (r: Option<int>)
    ensures r == if FoldFits(adds, offset) then Some(offset + Sum(adds)) else None
  {
    var total := 0;
    for i := 0 to |adds|
      invariant total == Sum(adds[..i])
      invariant forall j :: 0 <= j <= i ==> FitsI128(Sum(adds[..j]))
    {
      assert adds[..i + 1][..i] == adds[..i];
      total := total + adds[i];
      if !FitsI128(total) {
        return None;
      }
    }
    assert adds[..|adds|] == adds;
    return if FitsI64(total) && FitsI64(offset + total) then Some(offset + total) else None;
  }

  function Append(done: Path, next: Path, ghost rest: Path): (r: Path)
    ensures r + rest == done + (next + rest)
  {
    done + next
  }

  /** None stands for the panic of an overflowing fold; otherwise the labels are the normal form. */
  method Simplify(orig: Dtv) returns (r: Option<Dtv>)
    ensures r == if AllFoldsFit(orig.labels) then Some(Dtv(orig.base, Norm(orig.labels))) else None
  {
    hide Norm, Ahead, Prepend, Sum;
    var pth := orig.labels;
    var newPath: Path := [];
    var delayedAdds: seq<int> := [];
    var ind := 0;
    AheadStart(pth);
    while ind < |pth|
      invariant 0 <= ind <= |pth|
      invariant delayedAdds == Pending(pth, ind)
      invariant Norm(pth) == newPath + Ahead(delayedAdds, pth, ind)
      invariant forall i: nat :: i < ind ==> FoldsFitAt(pth, i)
    {
      if pth[ind].Add? {
        AheadAdd(delayedAdds, pth, ind);
        delayedAdds := delayedAdds + [pth[ind].disp];
      } else if pth[ind].IsPointerAccess() && ind + 1 < |pth| && pth[ind + 1].Field? {
        var fld := pth[ind + 1];
        var offset := FoldChecked(delayedAdds, fld.offset);
        if offset.None? {
          assert !FoldsFitAt(pth, ind);
          return None;
        }
        assert FoldsFitAt(pth, ind);
        AheadFold(delayedAdds, pth, ind);
        newPath := Append(newPath, [pth[ind], Field(offset.value, fld.size)], Ahead([], pth, ind + 2));
        delayedAdds := [];
        ind := ind + 1;
      } else {
        AheadFlush(delayedAdds, pth, ind);
        newPath := Append(newPath, Adds(delayedAdds) + [pth[ind]], Ahead([], pth, ind + 1));
        delayedAdds := [];
      }
      ind := ind + 1;
    }
    assert AllFoldsFit(pth);
    AheadEnd(delayedAdds, pth);
    newPath := newPath + Adds(delayedAdds);
    return Some(Dtv(orig.base, newPath));
  }
}
