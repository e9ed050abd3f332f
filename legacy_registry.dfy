/**
 * The older PocomathInstance.mjs at the root of the repository: the same
 * bookkeeping as src/core/PocomathInstance.mjs, without the name checks,
 * without a typed-function universe of its own, iterating a signature's
 * dependency list without a default (a missing list throws once the
 * signature is stored), and resolving each dependency through
 * `_ensureBundle`, which builds it on demand and throws for a name that
 * is not an operation.
 */
module LegacyRegistry {
  import opened Wrappers
  import opened RegistryState
  import opened Registry

  /** Every new signature of op is accepted: no conflicting definition, and a dependency list for each new one. */
  predicate LegacyAccepted(imps: Imps, op: (string, seq<(string, Imp)>)) {
    forall i :: 0 <= i < |op.1| ==> !Rejects(OpImps(imps, op.0), op.1[i], true)
  }

  /**
   * The signature loop of the older `_installOp`: it throws exactly when
   * some signature is rejected, keeps everything stored before, and when
   * it does not throw every given signature is stored.
   */
  lemma StrictStoreOutcome(opImps: map<string, Imp>, affects: Affects, name: string, impls: seq<(string, Imp)>)
    requires DistinctKeys(impls)
    ensures var st := StoreSignatures(opImps, affects, name, impls, true);
            (st.failure.None? <==> forall i :: 0 <= i < |impls| ==> !Rejects(opImps, impls[i], true)) &&
            (forall s :: s in opImps ==> s in st.opImps && st.opImps[s] == opImps[s]) &&
            (st.failure.None? ==> forall i :: 0 <= i < |impls| ==> impls[i].0 in st.opImps && st.opImps[impls[i].0] == impls[i].1)
  {
    var st := StoreSignatures(opImps, affects, name, impls, true);
    StoreFailure(opImps, affects, name, impls, true);
    StoreKeepsOld(opImps, affects, name, impls, true);
    if st.failure.None? {
      forall i | 0 <= i < |impls| ensures impls[i].0 in st.opImps && st.opImps[impls[i].0] == impls[i].1 {
        StoreNoRollback(opImps, affects, name, impls, true, i);
      }
    }
  }

  /** What one older `_installOp` means for the `install` loop, given its new state. */
  lemma LegacyInstallOpOutcome(imps: Imps, affects: Affects, b: Bindings, ops: seq<(string, seq<(string, Imp)>)>,
                               k: nat, R: set<string>)
    requires k < |ops| && DistinctNames(ops) && DistinctKeys(ops[k].1) && ops[k].0 in R
    ensures var st := StoreSignatures(OpImps(imps, ops[k].0), affects, ops[k].0, ops[k].1, true);
            var imps1 := imps[ops[k].0 := st.opImps];
            var b1 := StaleAt(b, R);
            (st.failure.None? <==> LegacyAccepted(imps, ops[k])) &&
            (forall j :: 0 <= j < |ops| && j != k ==> OpImps(imps1, ops[j].0) == OpImps(imps, ops[j].0)) &&
            Kept(imps, imps1) &&
            (forall n :: n in b1 && b1[n].Built? ==> n in b && b1[n] == b[n]) &&
            (forall op :: Installed(imps, b, op) ==> Installed(imps1, b1, op)) &&
            (st.failure.None? ==> Installed(imps1, b1, ops[k]))
  {
    StrictStoreOutcome(OpImps(imps, ops[k].0), affects, ops[k].0, ops[k].1);
  }

  /**
   * The state of the older `install` loop after k operations: those k were
   * accepted and are installed, nothing else has new signatures, and the
   * stale properties are those the k reach.
   */
  ghost predicate LegacyProgress(imps0: Imps, b0: Bindings, imps: Imps, affects: Affects, b: Bindings,
                                 ops: seq<(string, seq<(string, Imp)>)>, k: nat, rank: string -> nat) {
    k <= |ops| && AffectsRanked(affects, rank) && Kept(imps0, imps) &&
    (forall j :: 0 <= j < k ==> LegacyAccepted(imps0, ops[j]) && Installed(imps, b, ops[j])) &&
    (forall n :: n !in Names(ops, k) ==> OpImps(imps, n) == OpImps(imps0, n)) &&
    (forall j :: 0 <= j < |ops| ==> AddedFrom(imps0, imps, ops[j])) &&
    b == StaleAt(b0, Reached(affects, rank, Names(ops, k)))
  }

  /**
   * What the older `install` promises once it stops after done operations:
   * those are installed, the next one (if any) threw and was not accepted,
   * the later ones and every operation not named in ops keep their
   * signatures, and the stale properties are exactly those the invalidated
   * operations (every one it reached, including the one that threw) reach
   * through the new `_affects`.
   */
  ghost predicate LegacyOutcome(imps0: Imps, b0: Bindings, imps: Imps, affects: Affects, b: Bindings,
                                ops: seq<(string, seq<(string, Imp)>)>, done: nat, failure: Option<JsError>,
                                rank: string -> nat) {
    AffectsRanked(affects, rank) &&
    done <= |ops| && (failure.None? <==> done == |ops|) &&
    (failure.None? <==> forall k :: 0 <= k < |ops| ==> LegacyAccepted(imps0, ops[k])) &&
    (forall j :: 0 <= j < done ==> LegacyAccepted(imps0, ops[j]) && Installed(imps, b, ops[j])) &&
    (done < |ops| ==> !LegacyAccepted(imps0, ops[done])) &&
    (forall j :: done < j < |ops| ==> OpImps(imps, ops[j].0) == OpImps(imps0, ops[j].0)) &&
    (forall n :: n !in Names(ops, |ops|) ==> OpImps(imps, n) == OpImps(imps0, n)) &&
    Kept(imps0, imps) && (forall j :: 0 <= j < |ops| ==> AddedFrom(imps0, imps, ops[j])) &&
    b == StaleAt(b0, Reached(affects, rank, Names(ops, done + 1)))
  }

  lemma LegacyStart(imps: Imps, affects: Affects, b: Bindings, ops: seq<(string, seq<(string, Imp)>)>, rank: string -> nat)
    requires AffectsRanked(affects, rank)
    ensures LegacyProgress(imps, b, imps, affects, b, ops, 0, rank)
  {
    assert Names(ops, 0) == {};
    EmptyStale(b);
  }

  /** An accepted turn of the loop adds ops[k] to the progress. */
  lemma LegacyAdvance(imps0: Imps, b0: Bindings, imps: Imps, affects: Affects, b: Bindings,
                      imps1: Imps, affects1: Affects, b1: Bindings,
                      ops: seq<(string, seq<(string, Imp)>)>, k: nat, rank: string -> nat)
    requires LegacyProgress(imps0, b0, imps, affects, b, ops, k, rank) && k < |ops| && DistinctNames(ops)
    requires AffectsRanked(affects1, rank) && LegacyAccepted(imps, ops[k]) && Kept(imps, imps1)
    requires forall n :: n != ops[k].0 ==> OpImps(imps1, n) == OpImps(imps, n)
    requires b1 == StaleAt(b, Reach(affects, rank, ops[k].0))
    requires AffectsWithin(affects, affects1) && EdgesOnlyInto(affects, affects1, ops[k].0)
    requires forall op :: Installed(imps, b, op) ==> Installed(imps1, b1, op)
    requires Installed(imps1, b1, ops[k]) && AddedFrom(imps, imps1, ops[k])
    ensures LegacyProgress(imps0, b0, imps1, affects1, b1, ops, k + 1, rank)
  {
    NamesStep(ops, k);
    NamesOutside(ops, k);
    assert OpImps(imps, ops[k].0) == OpImps(imps0, ops[k].0);
    AddedFromStep(imps0, imps, imps1, ops, k);
    StaleAfterInstall(b0, b, affects, affects1, rank, Names(ops, k), ops[k].0);
  }

  /** The loop ran through every operation. */
  lemma LegacyCompleted(imps0: Imps, b0: Bindings, imps: Imps, affects: Affects, b: Bindings,
                        ops: seq<(string, seq<(string, Imp)>)>, rank: string -> nat)
    requires LegacyProgress(imps0, b0, imps, affects, b, ops, |ops|, rank)
    ensures LegacyOutcome(imps0, b0, imps, affects, b, ops, |ops|, None, rank)
  {
    assert Names(ops, |ops| + 1) == Names(ops, |ops|);
  }

  /** The turn for ops[k] threw: the loop stops there. */
  lemma LegacyStopped(imps0: Imps, b0: Bindings, imps: Imps, affects: Affects, b: Bindings,
                      imps1: Imps, affects1: Affects, b1: Bindings,
                      ops: seq<(string, seq<(string, Imp)>)>, k: nat, failure: Option<JsError>, rank: string -> nat)
    requires LegacyProgress(imps0, b0, imps, affects, b, ops, k, rank) && k < |ops| && DistinctNames(ops)
    requires AffectsRanked(affects1, rank) && !LegacyAccepted(imps, ops[k]) && failure.Some? && Kept(imps, imps1)
    requires forall n :: n != ops[k].0 ==> OpImps(imps1, n) == OpImps(imps, n)
    requires b1 == StaleAt(b, Reach(affects, rank, ops[k].0))
    requires AffectsWithin(affects, affects1) && EdgesOnlyInto(affects, affects1, ops[k].0)
    requires forall op :: Installed(imps, b, op) ==> Installed(imps1, b1, op)
    requires AddedFrom(imps, imps1, ops[k])
    ensures LegacyOutcome(imps0, b0, imps1, affects1, b1, ops, k, failure, rank)
  {
    NamesStep(ops, k);
    StopFrame(imps0, imps, imps1, ops, k);
    AddedFromStep(imps0, imps, imps1, ops, k);
    KeptTrans(imps0, imps, imps1);
    assert !LegacyAccepted(imps0, ops[k]);
    StaleAfterInstall(b0, b, affects, affects1, rank, Names(ops, k), ops[k].0);
  }

  /** The state one older `_installOp` leaves, seen from the `install` loop. */
  lemma LegacyInstallOpEffect(imps: Imps, affects: Affects, b: Bindings, imps1: Imps, affects1: Affects,
                              ops: seq<(string, seq<(string, Imp)>)>, k: nat, rank: string -> nat)
    requires k < |ops| && DistinctNames(ops) && DistinctKeys(ops[k].1)
    requires Matches(imps, affects) && Matches(imps1, affects1) && AffectsRanked(affects, rank)
    requires var st := StoreSignatures(OpImps(imps, ops[k].0), affects, ops[k].0, ops[k].1, true);
             imps1 == imps[ops[k].0 := st.opImps] && affects1 == st.affects
    ensures var st := StoreSignatures(OpImps(imps, ops[k].0), affects, ops[k].0, ops[k].1, true);
            var b1 := StaleAt(b, Reach(affects, rank, ops[k].0));
            (st.failure.None? <==> LegacyAccepted(imps, ops[k])) &&
            (forall n :: n != ops[k].0 ==> OpImps(imps1, n) == OpImps(imps, n)) &&
            Kept(imps, imps1) &&
            (forall op :: Installed(imps, b, op) ==> Installed(imps1, b1, op)) &&
            (st.failure.None? ==> Installed(imps1, b1, ops[k])) && AddedFrom(imps, imps1, ops[k]) &&
            AffectsWithin(affects, affects1) && EdgesOnlyInto(affects, affects1, ops[k].0)
  {
    ReachRoot(affects, rank, ops[k].0);
    StoreFrom(OpImps(imps, ops[k].0), affects, ops[k].0, ops[k].1, true);
    LegacyInstallOpOutcome(imps, affects, b, ops, k, Reach(affects, rank, ops[k].0));
    StoreEdgeSources(imps, imps1, ops[k].0);
    MatchesGrowth(imps, affects, imps1, affects1, ops[k].0);
  }

  class Instance {
    var imps: Imps
    var affects: Affects
    var bindings: Bindings

    /** Every installed operation has a property, and no built one is out of date. */
    ghost predicate Sound()
      reads this
    {
      bindings.Keys == imps.Keys && CacheSound(imps, bindings)
    }

    /** In addition, `_affects` is exact. */
    ghost predicate Valid()
      reads this
    {
      Matches(imps, affects) && Sound()
    }

    /** A new instance: nothing installed. */
    constructor()
      ensures Valid()
      ensures imps == map[] && affects == map[] && bindings == map[]
    {
      imps := map[];
      affects := map[];
      bindings := map[];
    }

    /**
     * `_invalidate(name)`: the property becomes the stand-in that bundles on
     * call, the operation gets an (empty) implementation map if it had none,
     * and everything that uses it is invalidated recursively, without a
     * visited guard; the ranking witnesses that the recursion ends.
     */
    method Invalidate(name: string, ghost rank: string -> nat)
      requires bindings.Keys == imps.Keys && UsersInstalled(imps, affects) && AffectsRanked(affects, rank)
      modifies this
      ensures bindings.Keys == imps.Keys
      ensures imps == Touch(old(imps), name) && affects == old(affects)
      ensures bindings == StaleAt(old(bindings), Reach(affects, rank, name))
      decreases rank(name), 1
    {
      ReachInImps(imps, affects, rank, name);
      ghost var R := Reach(affects, rank, name);
      bindings := bindings[name := Stale];
      imps := Touch(imps, name);
      assert bindings == StaleAt(old(bindings), {name});
      if name in affects {
        InvalidateUsers(name, rank);
        StaleAtTwice(old(bindings), {name}, Reached(affects, rank, affects[name]));
        assert {name} + Reached(affects, rank, affects[name]) == R;
      } else {
        assert R == {name};
      }
    }

    /** The loop of `_invalidate` over `_affects[name]`. */
    method InvalidateUsers(name: string, ghost rank: string -> nat)
      requires bindings.Keys == imps.Keys && UsersInstalled(imps, affects) && AffectsRanked(affects, rank)
      requires name in affects
      modifies this
      ensures bindings.Keys == imps.Keys
      ensures imps == old(imps) && affects == old(affects)
      ensures bindings == StaleAt(old(bindings), Reached(affects, rank, affects[name]))
      decreases rank(name), 0
    {
      ghost var b0 := bindings;
      var todo := affects[name];
      assert Reached(affects, rank, affects[name] - todo) == {};
      while todo != {}
        invariant name in affects && todo <= affects[name]
        invariant imps == old(imps) && affects == old(affects)
        invariant bindings.Keys == imps.Keys
        invariant bindings == StaleAt(b0, Reached(affects, rank, affects[name] - todo))
        decreases |todo|
      {
        var a :| a in todo;
        MatchedUserInstalled(imps, affects, name, a);
        Invalidate(a, rank);
        InvalidateStep(b0, affects, rank, affects[name] - todo, a, bindings);
        RemoveOne(affects[name], todo, a);
        todo := todo - {a};
      }
      assert affects[name] - todo == affects[name];
    }

    /**
     * `install(ops)`: install each operation in turn; the first throw stops
     * the loop. The ghost `done` counts the operations installed before it;
     * LegacyOutcome states what holds of them, of the one that threw and of
     * the rest.
     */
    method Install(ops: seq<(string, seq<(string, Imp)>)>, ghost rank: string -> nat)
      returns (failure: Option<JsError>, ghost done: nat)
      requires Valid() && Ranked(imps, rank) && OpsRanked(ops, rank) && DistinctNames(ops)
      requires forall k :: 0 <= k < |ops| ==> DistinctKeys(ops[k].1)
      modifies this
      ensures Valid() && Ranked(imps, rank)
      ensures LegacyOutcome(old(imps), old(bindings), imps, affects, bindings, ops, done, failure, rank)
    {
      failure := None;
      var k := 0;
      MatchesRanked(imps, affects, rank);
      LegacyStart(imps, affects, bindings, ops, rank);
      while k < |ops|
        invariant 0 <= k <= |ops| && failure.None?
        invariant Valid() && Ranked(imps, rank)
        invariant LegacyProgress(old(imps), old(bindings), imps, affects, bindings, ops, k, rank)
      {
        ghost var (imps1, affects1, b1) := (imps, affects, bindings);
        failure := InstallStep(ops, k, rank);
        if failure.Some? {
          done := k;
          LegacyStopped(old(imps), old(bindings), imps1, affects1, b1, imps, affects, bindings, ops, k, failure, rank);
          return;
        }
        LegacyAdvance(old(imps), old(bindings), imps1, affects1, b1, imps, affects, bindings, ops, k, rank);
        k := k + 1;
      }
      done := k;
      LegacyCompleted(old(imps), old(bindings), imps, affects, bindings, ops, rank);
    }

    /**
     * One turn of the older `install` loop: only ops[k] gets new signatures,
     * what it reached before becomes stale, and `_affects` gains only edges
     * into it.
     */
    method InstallStep(ops: seq<(string, seq<(string, Imp)>)>, k: nat, ghost rank: string -> nat) returns (failure: Option<JsError>)
      requires k < |ops| && DistinctNames(ops) && DistinctKeys(ops[k].1)
      requires Valid() && Ranked(imps, rank) && OpsRanked(ops, rank)
      modifies this
      ensures Valid() && Ranked(imps, rank) && AffectsRanked(affects, rank)
      ensures failure.None? <==> LegacyAccepted(old(imps), ops[k])
      ensures forall n :: n != ops[k].0 ==> OpImps(imps, n) == OpImps(old(imps), n)
      ensures Kept(old(imps), imps)
      ensures bindings == StaleAt(old(bindings), Reach(old(affects), rank, ops[k].0))
      ensures AffectsWithin(old(affects), affects) && EdgesOnlyInto(old(affects), affects, ops[k].0)
      ensures forall op :: Installed(old(imps), old(bindings), op) ==> Installed(imps, bindings, op)
      ensures failure.None? ==> Installed(imps, bindings, ops[k])
      ensures AddedFrom(old(imps), imps, ops[k])
    {
      var (name, impls) := ops[k];
      OpRanked(ops, k, rank);
      failure := InstallOp(name, impls, rank);
      MatchesRanked(imps, affects, rank);
      LegacyInstallOpEffect(old(imps), old(affects), old(bindings), imps, affects, ops, k, rank);
    }

    /**
     * `_installOp(name, implementations)`: invalidate the operation, then
     * store the signatures in order. A conflicting definition throws before
     * storing its signature; a new signature without a dependency list is
     * stored and then throws. Nothing stored before is rolled back.
     */
    method InstallOp(name: string, impls: seq<(string, Imp)>, ghost rank: string -> nat) returns (failure: Option<JsError>)
      requires Valid() && Ranked(imps, rank)
      requires forall i, d :: 0 <= i < |impls| && d in DepNames(EdgeDeps(impls[i].1)) ==> rank(name) < rank(d)
      modifies this
      ensures Valid() && Ranked(imps, rank)
      ensures var st := StoreSignatures(OpImps(old(imps), name), old(affects), name, impls, true);
              imps == old(imps)[name := st.opImps] && affects == st.affects && failure == st.failure &&
              bindings == StaleAt(old(bindings), Reach(old(affects), rank, name))
    {
      ghost var st := StoreSignatures(Touch(imps, name)[name], affects, name, impls, true);
      ghost var imps2 := Touch(imps, name)[name := st.opImps];
      ghost var b1 := StaleAt(bindings, Reach(affects, rank, name));
      InstallKeepsValid(imps, affects, bindings, name, impls, true, rank);
      assert Touch(imps, name)[name] == OpImps(imps, name);
      assert imps2 == imps[name := st.opImps];
      Invalidate(name, rank);
      failure := StoreAll(name, impls);
      assert imps == imps2 && bindings == b1;
    }

    /** The loop of the older `_installOp` over the given signatures. */
    method StoreAll(name: string, impls: seq<(string, Imp)>) returns (failure: Option<JsError>)
      requires name in imps
      modifies this`imps, this`affects
      ensures var st := StoreSignatures(old(imps)[name], old(affects), name, impls, true);
              imps == old(imps)[name := st.opImps] && affects == st.affects && failure == st.failure
    {
      var i := 0;
      while i < |impls|
        invariant 0 <= i <= |impls|
        invariant name in imps && imps == old(imps)[name := imps[name]]
        invariant StoreSignatures(imps[name], affects, name, impls[i..], true)
               == StoreSignatures(old(imps)[name], old(affects), name, impls, true)
      {
        var (s, imp) := impls[i];
        assert impls[i..][1..] == impls[i + 1..];
        if s in imps[name] {
          if imps[name][s] == imp {
            i := i + 1;
            continue;
          }
          return Some(SyntaxError("Conflicting definitions of " + s + " for " + name));
        }
        imps := imps[name := imps[name][s := imp]];
        if MissingDeps(imp) {
          return Some(TypeError("dependency list is not iterable"));
        }
        affects := AddDependents(affects, name, EdgeDeps(imp));
        i := i + 1;
      }
      return None;
    }

    /**
     * `_ensureBundle(name)`: the built typed-function if this[name] holds
     * one, and otherwise what `_bundle` makes of it; a name that is not an
     * operation has no implementations, so that throws.
     */
    method EnsureBundle(name: string, ghost rank: string -> nat, ghost top: nat) returns (r: Result<Dispatcher>)
      requires Sound() && Ranked(imps, rank) && forall x :: rank(x) <= top
      modifies this
      ensures Sound() && imps == old(imps) && affects == old(affects)
      ensures Grown(old(bindings), bindings, rank, rank(name))
      ensures r.Ok? ==> name in bindings && bindings[name] == Built(r.value) && WellBuilt(name, r.value, imps)
      ensures name in old(bindings) && old(bindings)[name].Built? ==> r == Ok(old(bindings)[name].tf)
      ensures name !in old(bindings) ==> r == Err(SyntaxError("No implementations for " + name))
      decreases top - rank(name), 6
    {
      if name in bindings && bindings[name].Built? {
        return Ok(bindings[name].tf);
      }
      r := Bundle(name, rank, top);
    }

    /**
     * `_bundle(name)`: with no signatures, a SyntaxError; otherwise build the
     * table entry of every signature (bundling each dependency on demand)
     * and store the typed-function as the property.
     */
    method Bundle(name: string, ghost rank: string -> nat, ghost top: nat) returns (r: Result<Dispatcher>)
      requires Sound() && Ranked(imps, rank) && forall x :: rank(x) <= top
      requires name !in bindings || bindings[name] == Stale
      modifies this
      ensures Sound() && imps == old(imps) && affects == old(affects)
      ensures Grown(old(bindings), bindings, rank, rank(name))
      ensures NoImplementations(imps, name) ==> r == Err(SyntaxError("No implementations for " + name)) && bindings == old(bindings)
      ensures r.Ok? ==> name in bindings && bindings[name] == Built(r.value) && WellBuilt(name, r.value, imps)
      ensures r.Err? && name in bindings ==> bindings[name] == Stale
      ensures name in imps && (exists s :: s in imps[name] && !Buildable(imps[name][s])) ==> r.Err?
      decreases top - rank(name), 5
    {
      if NoImplementations(imps, name) {
        return Err(SyntaxError("No implementations for " + name));
      }
      var t := BuildTable(name, rank, top);
      if t.Err? {
        return Err(t.error);
      }
      var tf := Typed(name, t.value);
      FinishBundle(imps, old(bindings), bindings, name, t.value, rank);
      bindings := bindings[name := Built(tf)];
      return Ok(tf);
    }

    /** The loop of `_bundle` over the signatures of name: the table of the typed-function to create. */
    method BuildTable(name: string, ghost rank: string -> nat, ghost top: nat) returns (t: Result<map<string, Entry>>)
      requires Sound() && Ranked(imps, rank) && forall x :: rank(x) <= top
      requires name in imps && name in bindings && bindings[name] == Stale
      modifies this
      ensures Sound() && imps == old(imps) && affects == old(affects)
      ensures Grown(old(bindings), bindings, rank, rank(name) + 1) && bindings[name] == Stale
      ensures t.Ok? ==> t.value.Keys == imps[name].Keys && TablePartial(t.value, imps[name], bindings)
      ensures (exists s :: s in imps[name] && !Buildable(imps[name][s])) ==> t.Err?
      decreases top - rank(name), 4
    {
      var todo := imps[name].Keys;
      var table: map<string, Entry> := map[];
      while todo != {}
        invariant name in imps && todo <= imps[name].Keys && table.Keys == imps[name].Keys - todo
        invariant Sound() && imps == old(imps) && affects == old(affects)
        invariant Grown(old(bindings), bindings, rank, rank(name) + 1) && bindings[name] == Stale
        invariant TablePartial(table, imps[name], bindings)
        decreases |todo|
      {
        var s :| s in todo;
        ghost var b1 := bindings;
        var t1 := AddEntry(name, s, table, rank, top);
        GrownTrans(old(bindings), b1, bindings, rank, rank(name) + 1, rank(name) + 1);
        if t1.Err? {
          return Err(t1.error);
        }
        RemoveOne(imps[name].Keys, todo, s);
        table := t1.value;
        todo := todo - {s};
      }
      return Ok(table);
    }

    /** One pass of the `_bundle` loop: the table with the entry of signature s added. */
    method AddEntry(name: string, s: string, table: map<string, Entry>, ghost rank: string -> nat, ghost top: nat)
      returns (t: Result<map<string, Entry>>)
      requires Sound() && Ranked(imps, rank) && forall x :: rank(x) <= top
      requires name in imps && s in imps[name] && name in bindings && bindings[name] == Stale
      requires TablePartial(table, imps[name], bindings)
      modifies this
      ensures Sound() && imps == old(imps) && affects == old(affects)
      ensures Grown(old(bindings), bindings, rank, rank(name) + 1) && bindings[name] == Stale
      ensures t.Ok? ==> t.value.Keys == table.Keys + {s} && TablePartial(t.value, imps[name], bindings)
      ensures !Buildable(imps[name][s]) ==> t.Err?
      decreases top - rank(name), 3
    {
      ghost var b0 := bindings;
      var e := BuildEntry(name, s, rank, top);
      if e.Err? {
        return Err(e.error);
      }
      TableStep(table, imps[name], s, e.value, b0, bindings, rank, rank(name) + 1);
      return Ok(table[s := e.value]);
    }

    /**
     * The table entry `_bundle` makes for one signature of name: the function
     * itself when the dependency list is empty, and otherwise the function
     * applied to the dependencies it asks for, each bundled on demand.
     */
    method BuildEntry(name: string, s: string, ghost rank: string -> nat, ghost top: nat) returns (e: Result<Entry>)
      requires Sound() && Ranked(imps, rank) && forall x :: rank(x) <= top
      requires name in imps && s in imps[name] && name in bindings && bindings[name] == Stale
      modifies this
      ensures Sound() && imps == old(imps) && affects == old(affects)
      ensures Grown(old(bindings), bindings, rank, rank(name) + 1) && bindings[name] == Stale
      ensures e.Ok? ==> Fits(e.value, imps[name][s]) && (e.value.Resolved? ==> RefsCurrent(e.value.refs, bindings))
      ensures !Buildable(imps[name][s]) ==> e.Err?
      decreases top - rank(name), 2
    {
      var imp := imps[name][s];
      if imp.TypeSpec? {
        return Err(TypeError("stored value is not iterable"));
      }
      if imp.deps.None? {
        return Err(TypeError("Cannot read properties of undefined (reading 'length')"));
      }
      var deps := imp.deps.value;
      if deps == [] {
        return Ok(Plain(imp));
      }
      var rs := ResolveDeps(name, s, rank, top);
      if rs.Err? {
        return Err(rs.error);
      }
      return Ok(Resolved(imp, rs.value.0, rs.value.1));
    }

    /**
     * The dependency loop of `_bundle` for one signature: the reference of
     * every dependency but 'self', and whether 'self' is among them; a
     * signature-specific dependency throws.
     */
    method ResolveDeps(name: string, s: string, ghost rank: string -> nat, ghost top: nat)
      returns (r: Result<(map<string, Ref>, bool)>)
      requires Sound() && Ranked(imps, rank) && forall x :: rank(x) <= top
      requires name in imps && s in imps[name] && name in bindings && bindings[name] == Stale
      requires imps[name][s].Pair? && imps[name][s].deps.Some?
      modifies this
      ensures Sound() && imps == old(imps) && affects == old(affects)
      ensures Grown(old(bindings), bindings, rank, rank(name) + 1) && bindings[name] == Stale
      ensures var deps := imps[name][s].deps.value;
              r.Ok? ==> r.value.0.Keys == NonSelf(deps) && r.value.1 == ("self" in deps) && RefsCurrent(r.value.0, bindings)
      ensures !NoSpecific(imps[name][s].deps.value) ==> r.Err?
      decreases top - rank(name), 1
    {
      var deps := imps[name][s].deps.value;
      var refs: map<string, Ref> := map[];
      var selfRef := false;
      var j := 0;
      while j < |deps|
        invariant 0 <= j <= |deps|
        invariant NoSpecific(deps[..j])
        invariant refs.Keys == NonSelf(deps[..j]) && selfRef == ("self" in deps[..j])
        invariant Sound() && imps == old(imps) && affects == old(affects)
        invariant Grown(old(bindings), bindings, rank, rank(name) + 1) && bindings[name] == Stale
        invariant RefsCurrent(refs, bindings)
      {
        var dep := deps[j];
        NonSelfStep(deps, j);
        if '(' in dep {
          return Err(PlainError("signature specific reference unimplemented"));
        }
        if dep == "self" {
          selfRef := true;
        } else {
          ghost var b1 := bindings;
          var added := AddRef(name, s, dep, refs, rank, top);
          GrownTrans(old(bindings), b1, bindings, rank, rank(name) + 1, rank(name) + 1);
          if added.Err? {
            return Err(added.error);
          }
          refs := added.value;
        }
        j := j + 1;
      }
      assert deps[..j] == deps;
      return Ok((refs, selfRef));
    }

    /** One dependency of the `_bundle` loop: refs[dep] = this._ensureBundle(dep). */
    method AddRef(name: string, s: string, dep: string, refs: map<string, Ref>, ghost rank: string -> nat, ghost top: nat)
      returns (r: Result<map<string, Ref>>)
      requires Sound() && Ranked(imps, rank) && forall x :: rank(x) <= top
      requires name in imps && s in imps[name] && name in bindings && bindings[name] == Stale
      requires EdgeDeps(imps[name][s]) != [] && dep in EdgeDeps(imps[name][s]) && '(' !in dep && dep != "self"
      requires RefsCurrent(refs, bindings)
      modifies this
      ensures Sound() && imps == old(imps) && affects == old(affects)
      ensures Grown(old(bindings), bindings, rank, rank(name) + 1) && bindings[name] == Stale
      ensures r.Ok? ==> r.value.Keys == refs.Keys + {dep} && RefsCurrent(r.value, bindings) && r.value[dep].Bound?
      decreases top - rank(name), 0
    {
      DependencyRanks(imps, rank, name, s, dep);
      ghost var b0 := bindings;
      var v := EnsureBundle(dep, rank, top);
      if v.Err? {
        return Err(v.error);
      }
      RefsStep(refs, dep, Bound(v.value), b0, bindings, rank, rank(dep));
      return Ok(refs[dep := Bound(v.value)]);
    }
  }
}
