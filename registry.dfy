/**
 * src/core/PocomathInstance.mjs: an instance of pocomath, holding the
 * installed implementations of its operations, the `_affects` relation
 * used to invalidate dependent operations, each operation's property
 * (stale or built), and the types and conversions registered with its
 * typed-function universe.
 */
module Registry {
  import opened Wrappers
  import opened RegistryState

  /** PocomathInstance.reserved: operation names that may not be redefined. */
  const Reserved: set<string> := {"install"}

  /** Names `_installOp` refuses: a leading '_' or a reserved name. */
  predicate Refused(name: string) {
    (name != [] && name[0] == '_') || name in Reserved
  }

  /** The message each refusal throws (the leading '_' test comes first). */
  function RefusalMessage(name: string): string {
    if name != [] && name[0] == '_' then "Pocomath: Cannot install " + name + ", initial _ reserved for internal use."
    else "Pocomath: the meaning of function '" + name + "' cannot be modified."
  }

  /** The implementation map of an operation, empty when it has none. */
  function OpImps(imps: Imps, name: string): map<string, Imp> {
    if name in imps then imps[name] else map[]
  }

  /** Every new signature of op either is not yet defined or is defined by the same implementation. */
  predicate Accepted(imps: Imps, op: (string, seq<(string, Imp)>)) {
    !Refused(op.0) &&
    forall i :: 0 <= i < |op.1| ==> !Conflicts(OpImps(imps, op.0), op.1[i])
  }

  /** The dependencies of every signature in ops rank above the operation that declares them. */
  ghost predicate OpsRanked(ops: seq<(string, seq<(string, Imp)>)>, rank: string -> nat) {
    forall k, i, d :: 0 <= k < |ops| && 0 <= i < |ops[k].1| && d in DepNames(EdgeDeps(ops[k].1[i].1))
      ==> rank(ops[k].0) < rank(d)
  }

  lemma OpRanked(ops: seq<(string, seq<(string, Imp)>)>, k: nat, rank: string -> nat)
    requires OpsRanked(ops, rank) && k < |ops|
    ensures forall i, d :: 0 <= i < |ops[k].1| && d in DepNames(EdgeDeps(ops[k].1[i].1)) ==> rank(ops[k].0) < rank(d)
  {
  }

  predicate DistinctNames(ops: seq<(string, seq<(string, Imp)>)>) {
    forall k, l :: 0 <= k < l < |ops| ==> ops[k].0 != ops[l].0
  }

  /** Every signature stored in imps is still stored, unchanged, in imps1. */
  predicate Kept(imps: Imps, imps1: Imps) {
    forall n, s :: n in imps && s in imps[n] ==> n in imps1 && s in imps1[n] && imps1[n][s] == imps[n][s]
  }

  /** Keeping signatures is transitive. */
  lemma KeptTrans(imps: Imps, imps1: Imps, imps2: Imps)
    requires Kept(imps, imps1) && Kept(imps1, imps2)
    ensures Kept(imps, imps2)
  {
  }

  /** Every signature of op is stored, and the operation awaits (re)building. */
  predicate Installed(imps: Imps, b: Bindings, op: (string, seq<(string, Imp)>)) {
    op.0 in imps && op.0 in b && b[op.0] == Stale &&
    forall i :: 0 <= i < |op.1| ==> op.1[i].0 in imps[op.0] && imps[op.0][op.1[i].0] == op.1[i].1
  }

  predicate NoImplementations(imps: Imps, name: string) {
    name !in imps || |imps[name]| == 0
  }

  /** Only operations that were stale have been built since; none was added or removed. */
  predicate Settled(b: Bindings, b1: Bindings) {
    b1.Keys == b.Keys && forall n :: n in b ==> b1[n] == b[n] || (b[n].Stale? && b1[n].Built?)
  }

  /** Settled, and what has been built since ranks at least r. */
  ghost predicate Grown(b: Bindings, b1: Bindings, rank: string -> nat, r: nat) {
    b1.Keys == b.Keys && forall n :: n in b ==> b1[n] == b[n] || (b[n].Stale? && b1[n].Built? && r <= rank(n))
  }

  // ---------------------------------------------------------------------
  // _ensureTypes, over the `Types` entry of `_imps`

  /** The types declared so far: the keys of `_imps.Types`. */
  function KnownTypes(imps: Imps): set<string> {
    if "Types" in imps then imps["Types"].Keys else {}
  }

  /** The own keys for-in visits in a type specification (an array's are its indices). */
  function SpecKeys(imp: Imp): seq<string> {
    match imp
    case TypeSpec(_, keys) => keys
    case Pair(_, _) => ["0", "1"]
  }

  /** The conversions (from, to) the specifications of the types in S list, 'test' excepted. */
  function Listed(typeSpec: map<string, Imp>, S: set<string>): set<(string, string)> {
    set t, f | t in S && t in typeSpec && f in SpecKeys(typeSpec[t]) && f != "test" :: (f, t)
  }

  lemma ListedAdd(typeSpec: map<string, Imp>, S: set<string>, t: string)
    requires t in typeSpec
    ensures Listed(typeSpec, S + {t}) == Listed(typeSpec, S) + set f | f in SpecKeys(typeSpec[t]) && f != "test" :: (f, t)
  {
  }

  /** Every conversion (from, to) a type specification lists, 'test' excepted. */
  function Candidates(imps: Imps): set<(string, string)> {
    if "Types" in imps then Listed(imps["Types"], imps["Types"].Keys) else {}
  }

  /** The conversions `_ensureTypes` adds: both ends declared, and at least one of them new. */
  function NewConversions(imps: Imps, types: set<string>): set<(string, string)> {
    var known := KnownTypes(imps);
    set c | c in Candidates(imps) && (c.0 !in types || c.1 !in types) && c.0 in known && c.1 in known
  }

  /** A conversion is added exactly when a declared type lists it, its source is a declared type, and one end is new. */
  lemma NewConversionsSpec(imps: Imps, types: set<string>, f: string, t: string)
    ensures (f, t) in NewConversions(imps, types) <==>
            "Types" in imps && t in imps["Types"] && f in imps["Types"] && f != "test" &&
            f in SpecKeys(imps["Types"][t]) && (f !in types || t !in types)
  {
    if "Types" in imps && t in imps["Types"] && f in imps["Types"] && f != "test" && f in SpecKeys(imps["Types"][t]) {
      assert (f, t) in Candidates(imps);
    }
  }

  /** The filter at the end of `_ensureTypes` computes NewConversions. */
  lemma NewConversionsFiltered(imps: Imps, types: set<string>, known: set<string>, newTypes: set<string>,
                               listed: set<(string, string)>)
    requires known == KnownTypes(imps) && newTypes == known - types
    requires listed == Candidates(imps)
    ensures (set c | c in listed && (c.0 in newTypes || c.1 in newTypes) && c.0 in known && c.1 in known)
         == NewConversions(imps, types)
  {
  }

  /** Every registered conversion is between types the universe knows. */
  predicate ConversionsTyped(conversions: set<(string, string)>, types: set<string>) {
    forall c :: c in conversions ==> c.0 in types && c.1 in types
  }

  /**
   * `_ensureTypes` never registers a conversion twice (typed-function refuses
   * a second conversion between the same two types), and what it registers
   * is between known types again.
   */
  lemma ConversionsAddedOnce(imps: Imps, types: set<string>, conversions: set<(string, string)>)
    requires ConversionsTyped(conversions, types)
    ensures NewConversions(imps, types) !! conversions
    ensures ConversionsTyped(conversions + NewConversions(imps, types), types + KnownTypes(imps))
  {
  }

  /** Once every declared type is known, `_ensureTypes` adds no conversion. */
  lemma EnsureTypesIdempotent(imps: Imps, types: set<string>)
    requires KnownTypes(imps) <= types
    ensures NewConversions(imps, types) == {}
  {
  }

  /**
   * What one accepted-name `_installOp` means for the `install` loop, given
   * its new state: the signature map of ops[k] replaced by the loop's
   * outcome, and the properties reached by the invalidation made stale.
   */
  lemma InstallOpOutcome(imps: Imps, affects: Affects, b: Bindings, ops: seq<(string, seq<(string, Imp)>)>,
                         k: nat, R: set<string>)
    requires k < |ops| && DistinctNames(ops) && DistinctKeys(ops[k].1) && !Refused(ops[k].0) && ops[k].0 in R
    ensures var st := StoreSignatures(OpImps(imps, ops[k].0), affects, ops[k].0, ops[k].1, false);
            var imps1 := imps[ops[k].0 := st.opImps];
            var b1 := StaleAt(b, R);
            (st.failure.None? <==> Accepted(imps, ops[k])) &&
            (forall j :: 0 <= j < |ops| && j != k ==> OpImps(imps1, ops[j].0) == OpImps(imps, ops[j].0)) &&
            Kept(imps, imps1) &&
            (forall n :: n in b1 && b1[n].Built? ==> n in b && b1[n] == b[n]) &&
            (forall op :: Installed(imps, b, op) ==> Installed(imps1, b1, op)) &&
            (st.failure.None? ==> Installed(imps1, b1, ops[k]))
  {
    StoreOutcome(OpImps(imps, ops[k].0), affects, ops[k].0, ops[k].1);
  }

  /** The names of the first n operations of ops. */
  function Names(ops: seq<(string, seq<(string, Imp)>)>, n: int): set<string> {
    set j | 0 <= j < n && j < |ops| :: ops[j].0
  }

  lemma NamesStep(ops: seq<(string, seq<(string, Imp)>)>, k: nat)
    requires k < |ops|
    ensures Names(ops, k + 1) == Names(ops, k) + {ops[k].0}
  {
  }

  /** With distinct names, an operation after the first n is not among their names. */
  lemma NamesOutside(ops: seq<(string, seq<(string, Imp)>)>, n: nat)
    requires DistinctNames(ops)
    ensures forall j :: n <= j < |ops| ==> ops[j].0 !in Names(ops, n)
  {
  }

  /**
   * When `install` stops at operation k, the operations after k and those it
   * does not name still have the signatures they had before it started.
   */
  lemma StopFrame(imps0: Imps, imps: Imps, imps1: Imps, ops: seq<(string, seq<(string, Imp)>)>, k: nat)
    requires DistinctNames(ops) && k < |ops|
    requires forall n :: n !in Names(ops, k) ==> OpImps(imps, n) == OpImps(imps0, n)
    requires forall n :: n != ops[k].0 ==> OpImps(imps1, n) == OpImps(imps, n)
    ensures OpImps(imps, ops[k].0) == OpImps(imps0, ops[k].0)
    ensures forall j :: k < j < |ops| ==> OpImps(imps1, ops[j].0) == OpImps(imps0, ops[j].0)
    ensures forall n :: n !in Names(ops, |ops|) ==> OpImps(imps1, n) == OpImps(imps0, n)
  {
    NamesOutside(ops, k);
    forall j | k < j < |ops|
      ensures OpImps(imps1, ops[j].0) == OpImps(imps0, ops[j].0)
    {
      NamesOutside(ops, j);
    }
    forall n | n !in Names(ops, |ops|)
      ensures OpImps(imps1, n) == OpImps(imps0, n)
    {
      assert n != ops[k].0;
    }
  }

  /** Invalidating nothing changes nothing. */
  lemma EmptyStale(b: Bindings)
    ensures StaleAt(b, {}) == b
  {
  }

  /** Only operation o gets new signatures, and it keeps its old ones: only o can gain dependencies. */
  lemma StoreEdgeSources(imps: Imps, imps1: Imps, o: string)
    requires Kept(imps, imps1) && forall n :: n != o ==> OpImps(imps1, n) == OpImps(imps, n)
    ensures forall n :: n != o ==> EdgeSources(imps1, n) == EdgeSources(imps, n)
    ensures EdgeSources(imps, o) <= EdgeSources(imps1, o)
  {
    forall n | n != o
      ensures EdgeSources(imps1, n) == EdgeSources(imps, n)
    {
      assert OpImps(imps1, n) == OpImps(imps, n);
    }
  }

  /**
   * Every signature of op that imps1 has and imps did not is one of the
   * signatures given for op, stored with the implementation given for it.
   */
  ghost predicate AddedFrom(imps: Imps, imps1: Imps, op: (string, seq<(string, Imp)>)) {
    forall s :: s in OpImps(imps1, op.0) && s !in OpImps(imps, op.0) ==>
      exists i :: 0 <= i < |op.1| && op.1[i] == (s, OpImps(imps1, op.0)[s])
  }

  /**
   * A turn that changes only ops[k], adding only signatures given for it,
   * keeps every operation's added signatures among its own given ones.
   */
  lemma AddedFromStep(imps0: Imps, imps: Imps, imps1: Imps, ops: seq<(string, seq<(string, Imp)>)>, k: nat)
    requires k < |ops| && DistinctNames(ops)
    requires forall j :: 0 <= j < |ops| ==> AddedFrom(imps0, imps, ops[j])
    requires OpImps(imps, ops[k].0) == OpImps(imps0, ops[k].0)
    requires forall n :: n != ops[k].0 ==> OpImps(imps1, n) == OpImps(imps, n)
    requires AddedFrom(imps, imps1, ops[k])
    ensures forall j :: 0 <= j < |ops| ==> AddedFrom(imps0, imps1, ops[j])
  {
    forall j | 0 <= j < |ops|
      ensures AddedFrom(imps0, imps1, ops[j])
    {
      if j != k {
        assert OpImps(imps1, ops[j].0) == OpImps(imps, ops[j].0);
      }
    }
  }

  /**
   * The state of the `install` loop after k operations, against the state
   * it started from: those k were accepted and are installed, nothing else
   * has new signatures, and the stale properties are those the k reach.
   */
  ghost predicate InstallProgress(imps0: Imps, b0: Bindings, imps: Imps, affects: Affects, b: Bindings,
                                  ops: seq<(string, seq<(string, Imp)>)>, k: nat, rank: string -> nat) {
    k <= |ops| && AffectsRanked(affects, rank) && Kept(imps0, imps) &&
    (forall j :: 0 <= j < k ==> Accepted(imps0, ops[j]) && Installed(imps, b, ops[j])) &&
    (forall n :: n !in Names(ops, k) ==> OpImps(imps, n) == OpImps(imps0, n)) &&
    (forall j :: 0 <= j < |ops| ==> AddedFrom(imps0, imps, ops[j])) &&
    b == StaleAt(b0, Reached(affects, rank, Names(ops, k)))
  }

  /** What `install` promises once it stops after done operations, with failure as its outcome. */
  ghost predicate InstallOutcome(imps0: Imps, b0: Bindings, imps: Imps, affects: Affects, b: Bindings,
                                 ops: seq<(string, seq<(string, Imp)>)>, done: nat, failure: Option<JsError>,
                                 rank: string -> nat) {
    AffectsRanked(affects, rank) &&
    done <= |ops| && (failure.None? <==> done == |ops|) &&
    (failure.None? <==> forall k :: 0 <= k < |ops| ==> Accepted(imps0, ops[k])) &&
    (forall j :: 0 <= j < done ==> Accepted(imps0, ops[j]) && Installed(imps, b, ops[j])) &&
    (done < |ops| ==> !Accepted(imps0, ops[done])) &&
    (done < |ops| && Refused(ops[done].0) ==>
       failure == Some(SyntaxError(RefusalMessage(ops[done].0))) &&
       OpImps(imps, ops[done].0) == OpImps(imps0, ops[done].0)) &&
    (forall j :: done < j < |ops| ==> OpImps(imps, ops[j].0) == OpImps(imps0, ops[j].0)) &&
    (forall n :: n !in Names(ops, |ops|) ==> OpImps(imps, n) == OpImps(imps0, n)) &&
    Kept(imps0, imps) && (forall j :: 0 <= j < |ops| ==> AddedFrom(imps0, imps, ops[j])) &&
    b == StaleAt(b0, Reached(affects, rank, Names(ops, if done < |ops| && !Refused(ops[done].0) then done + 1 else done)))
  }

  /** Nothing installed yet. */
  lemma InstallStart(imps: Imps, affects: Affects, b: Bindings, ops: seq<(string, seq<(string, Imp)>)>, rank: string -> nat)
    requires AffectsRanked(affects, rank)
    ensures InstallProgress(imps, b, imps, affects, b, ops, 0, rank)
  {
    assert Names(ops, 0) == {};
    EmptyStale(b);
  }

  /** An accepted turn of the loop adds ops[k] to the progress. */
  lemma InstallAdvance(imps0: Imps, b0: Bindings, imps: Imps, affects: Affects, b: Bindings,
                       imps1: Imps, affects1: Affects, b1: Bindings,
                       ops: seq<(string, seq<(string, Imp)>)>, k: nat, rank: string -> nat)
    requires InstallProgress(imps0, b0, imps, affects, b, ops, k, rank) && k < |ops| && DistinctNames(ops)
    requires AffectsRanked(affects1, rank) && Accepted(imps, ops[k]) && Kept(imps, imps1)
    requires forall n :: n != ops[k].0 ==> OpImps(imps1, n) == OpImps(imps, n)
    requires b1 == StaleAt(b, Reach(affects, rank, ops[k].0))
    requires AffectsWithin(affects, affects1) && EdgesOnlyInto(affects, affects1, ops[k].0)
    requires forall op :: Installed(imps, b, op) ==> Installed(imps1, b1, op)
    requires Installed(imps1, b1, ops[k]) && AddedFrom(imps, imps1, ops[k])
    ensures InstallProgress(imps0, b0, imps1, affects1, b1, ops, k + 1, rank)
  {
    NamesStep(ops, k);
    NamesOutside(ops, k);
    assert OpImps(imps, ops[k].0) == OpImps(imps0, ops[k].0);
    AddedFromStep(imps0, imps, imps1, ops, k);
    StaleAfterInstall(b0, b, affects, affects1, rank, Names(ops, k), ops[k].0);
  }

  /** The loop ran through every operation. */
  lemma InstallCompleted(imps0: Imps, b0: Bindings, imps: Imps, affects: Affects, b: Bindings,
                         ops: seq<(string, seq<(string, Imp)>)>, rank: string -> nat)
    requires InstallProgress(imps0, b0, imps, affects, b, ops, |ops|, rank)
    ensures InstallOutcome(imps0, b0, imps, affects, b, ops, |ops|, None, rank)
  {
  }

  /** The turn for ops[k] threw: the loop stops there. */
  lemma InstallStopped(imps0: Imps, b0: Bindings, imps: Imps, affects: Affects, b: Bindings,
                       imps1: Imps, affects1: Affects, b1: Bindings,
                       ops: seq<(string, seq<(string, Imp)>)>, k: nat, failure: Option<JsError>, rank: string -> nat)
    requires InstallProgress(imps0, b0, imps, affects, b, ops, k, rank) && k < |ops| && DistinctNames(ops)
    requires AffectsRanked(affects1, rank) && !Accepted(imps, ops[k]) && failure.Some? && Kept(imps, imps1)
    requires forall n :: n != ops[k].0 ==> OpImps(imps1, n) == OpImps(imps, n)
    requires Refused(ops[k].0) ==>
               failure == Some(SyntaxError(RefusalMessage(ops[k].0))) &&
               imps1 == imps && affects1 == affects && b1 == b
    requires !Refused(ops[k].0) ==>
               b1 == StaleAt(b, Reach(affects, rank, ops[k].0)) &&
               AffectsWithin(affects, affects1) && EdgesOnlyInto(affects, affects1, ops[k].0)
    requires forall op :: Installed(imps, b, op) ==> Installed(imps1, b1, op)
    requires AddedFrom(imps, imps1, ops[k])
    ensures InstallOutcome(imps0, b0, imps1, affects1, b1, ops, k, failure, rank)
  {
    NamesStep(ops, k);
    StopFrame(imps0, imps, imps1, ops, k);
    AddedFromStep(imps0, imps, imps1, ops, k);
    KeptTrans(imps0, imps, imps1);
    assert !Accepted(imps0, ops[k]);
    if !Refused(ops[k].0) {
      StaleAfterInstall(b0, b, affects, affects1, rank, Names(ops, k), ops[k].0);
    }
  }

  /**
   * The state one accepted-name `_installOp` leaves, seen from the `install`
   * loop: the outcome of InstallOpOutcome, and `_affects` grown by edges
   * into the operation only.
   */
  lemma InstallOpEffect(imps: Imps, affects: Affects, b: Bindings, imps1: Imps, affects1: Affects,
                        ops: seq<(string, seq<(string, Imp)>)>, k: nat, rank: string -> nat)
    requires k < |ops| && DistinctNames(ops) && DistinctKeys(ops[k].1) && !Refused(ops[k].0)
    requires Matches(imps, affects) && Matches(imps1, affects1) && AffectsRanked(affects, rank)
    requires var st := StoreSignatures(OpImps(imps, ops[k].0), affects, ops[k].0, ops[k].1, false);
             imps1 == imps[ops[k].0 := st.opImps] && affects1 == st.affects
    ensures var st := StoreSignatures(OpImps(imps, ops[k].0), affects, ops[k].0, ops[k].1, false);
            var b1 := StaleAt(b, Reach(affects, rank, ops[k].0));
            (st.failure.None? <==> Accepted(imps, ops[k])) &&
            (forall n :: n != ops[k].0 ==> OpImps(imps1, n) == OpImps(imps, n)) &&
            Kept(imps, imps1) &&
            (forall op :: Installed(imps, b, op) ==> Installed(imps1, b1, op)) &&
            (st.failure.None? ==> Installed(imps1, b1, ops[k])) && AddedFrom(imps, imps1, ops[k]) &&
            AffectsWithin(affects, affects1) && EdgesOnlyInto(affects, affects1, ops[k].0)
  {
    ReachRoot(affects, rank, ops[k].0);
    StoreFrom(OpImps(imps, ops[k].0), affects, ops[k].0, ops[k].1, false);
    InstallOpOutcome(imps, affects, b, ops, k, Reach(affects, rank, ops[k].0));
    StoreEdgeSources(imps, imps1, ops[k].0);
    MatchesGrowth(imps, affects, imps1, affects1, ops[k].0);
  }

  /** Building more operations is transitive. */
  lemma GrownTrans(b0: Bindings, b1: Bindings, b2: Bindings, rank: string -> nat, r: nat, r1: nat)
    requires Grown(b0, b1, rank, r) && Grown(b1, b2, rank, r1) && r <= r1
    ensures Grown(b0, b2, rank, r) && Settled(b0, b2)
  {
  }

  /** A table under construction: each entry fits its signature and its references are current. */
  ghost predicate TablePartial(table: map<string, Entry>, opImps: map<string, Imp>, b: Bindings) {
    table.Keys <= opImps.Keys &&
    (forall s :: s in table ==> Fits(table[s], opImps[s])) &&
    (forall s :: s in table && table[s].Resolved? ==> RefsCurrent(table[s].refs, b))
  }

  /** Adding a built entry keeps the table current while more operations get built. */
  lemma TableStep(table: map<string, Entry>, opImps: map<string, Imp>, s: string, e: Entry, b1: Bindings, b2: Bindings,
                  rank: string -> nat, r: nat)
    requires TablePartial(table, opImps, b1) && Grown(b1, b2, rank, r)
    requires s in opImps && Fits(e, opImps[s]) && (e.Resolved? ==> RefsCurrent(e.refs, b2))
    ensures TablePartial(table[s := e], opImps, b2)
  {
    forall t | t in table && table[t].Resolved? ensures RefsCurrent(table[t].refs, b2) {
      SettledKeepsRefs(table[t].refs, b1, b2);
    }
  }

  /** Storing the typed-function `_bundle` built from a complete table. */
  lemma FinishBundle(imps: Imps, b0: Bindings, b: Bindings, name: string, table: map<string, Entry>, rank: string -> nat)
    requires CacheSound(imps, b) && name in imps && name in b0 && b0[name] == Stale && name in b && b[name] == Stale
    requires table.Keys == imps[name].Keys && TablePartial(table, imps[name], b)
    requires Grown(b0, b, rank, rank(name) + 1)
    ensures var b1 := b[name := Built(Typed(name, table))];
            WellBuilt(name, Typed(name, table), imps) && CacheSound(imps, b1) && Grown(b0, b1, rank, rank(name))
  {
    BuildKeepsSound(imps, b, name, Typed(name, table));
  }

  /** Resolving one more dependency keeps the references current while more operations get built. */
  lemma RefsStep(refs: map<string, Ref>, dep: string, r: Ref, b1: Bindings, b2: Bindings, rank: string -> nat, k: nat)
    requires RefsCurrent(refs, b1) && Grown(b1, b2, rank, k) && RefCurrent(r, dep, b2)
    ensures RefsCurrent(refs[dep := r], b2)
  {
    SettledKeepsRefs(refs, b1, b2);
  }

  /** The dependency names of a list grow by one entry at a time. */
  lemma NonSelfStep(deps: seq<string>, j: nat)
    requires j < |deps|
    ensures NonSelf(deps[..j + 1]) == NonSelf(deps[..j]) + (if deps[j] == "self" then {} else {deps[j]})
    ensures ("self" in deps[..j + 1]) == ("self" in deps[..j] || deps[j] == "self")
    ensures NoSpecific(deps[..j + 1]) == (NoSpecific(deps[..j]) && '(' !in deps[j])
  {
    assert deps[..j + 1] == deps[..j] + [deps[j]];
  }

  /** A plain dependency of one of name's signatures ranks above name, so building it cannot come back to name. */
  lemma DependencyRanks(imps: Imps, rank: string -> nat, name: string, s: string, dep: string)
    requires Ranked(imps, rank) && name in imps && s in imps[name]
    requires EdgeDeps(imps[name][s]) != [] && dep in EdgeDeps(imps[name][s]) && '(' !in dep && dep != "self"
    ensures rank(name) < rank(dep)
  {
    DepNameWhole(dep);
    assert dep in DepNames(EdgeDeps(imps[name][s]));
    assert dep in EdgeSources(imps, name);
  }

  class Instance {
    var imps: Imps
    var affects: Affects
    var bindings: Bindings
    var types: set<string>
    var conversions: set<(string, string)>

    /** Every installed operation has a property, and no built one is out of date. */
    ghost predicate Sound()
      reads this
    {
      bindings.Keys == imps.Keys && CacheSound(imps, bindings)
    }

    /** In addition, `_affects` is exact. */
    ghost predicate Valid()
      reads this
    {
      Matches(imps, affects) && Sound()
    }

    /** A new instance: nothing installed, and only the 'string' type in its typed-function universe. */
    constructor()
      ensures Valid()
      ensures imps == map[] && affects == map[] && bindings == map[]
      ensures types == {"string"} && conversions == {}
    {
      imps := map[];
      affects := map[];
      bindings := map[];
      types := {"string"};
      conversions := {};
    }

    /**
     * `_invalidate(name)`: the property becomes stale, the operation gets an
     * (empty) implementation map if it had none, and everything that uses
     * it is invalidated recursively. There is no guard against visiting an
     * operation twice; the recursion ends because the dependencies are
     * acyclic (the ranking).
     */
    method Invalidate(name: string, ghost rank: string -> nat)
      requires bindings.Keys == imps.Keys && UsersInstalled(imps, affects) && AffectsRanked(affects, rank)
      modifies this
      ensures bindings.Keys == imps.Keys
      ensures imps == Touch(old(imps), name) && affects == old(affects)
      ensures bindings == StaleAt(old(bindings), Reach(affects, rank, name))
      ensures types == old(types) && conversions == old(conversions)
      decreases rank(name), 1
    {
      ReachInImps(imps, affects, rank, name);
      ghost var R := Reach(affects, rank, name);
      bindings := bindings[name := Stale];
      imps := Touch(imps, name);
      assert bindings == StaleAt(old(bindings), {name});
      if name in affects {
        InvalidateUsers(name, rank);
        StaleAtTwice(old(bindings), {name}, Reached(affects, rank, affects[name]));
        assert {name} + Reached(affects, rank, affects[name]) == R;
      } else {
        assert R == {name};
      }
    }

    /** The loop of `_invalidate` over `_affects[name]`: each operation using name is invalidated in turn. */
    method InvalidateUsers(name: string, ghost rank: string -> nat)
      requires bindings.Keys == imps.Keys && UsersInstalled(imps, affects) && AffectsRanked(affects, rank)
      requires name in affects
      modifies this
      ensures bindings.Keys == imps.Keys
      ensures imps == old(imps) && affects == old(affects)
      ensures bindings == StaleAt(old(bindings), Reached(affects, rank, affects[name]))
      ensures types == old(types) && conversions == old(conversions)
      decreases rank(name), 0
    {
      ghost var b0 := bindings;
      var todo := affects[name];
      assert Reached(affects, rank, affects[name] - todo) == {};
      while todo != {}
        invariant name in affects && todo <= affects[name]
        invariant imps == old(imps) && affects == old(affects)
        invariant types == old(types) && conversions == old(conversions)
        invariant bindings.Keys == imps.Keys
        invariant bindings == StaleAt(b0, Reached(affects, rank, affects[name] - todo))
        decreases |todo|
      {
        var a :| a in todo;
        MatchedUserInstalled(imps, affects, name, a);
        Invalidate(a, rank);
        InvalidateStep(b0, affects, rank, affects[name] - todo, a, bindings);
        RemoveOne(affects[name], todo, a);
        todo := todo - {a};
      }
      assert affects[name] - todo == affects[name];
    }

    /**
     * `install(ops)`: install each operation in turn; the first throw stops
     * the loop and propagates. The ghost `done` counts the operations
     * installed before it: those stay installed, the one that threw is not
     * accepted, and the later ones and every operation not named in ops
     * keep their signatures. The stale properties are exactly those the
     * invalidated operations reach through the new `_affects`; a refused
     * name is not invalidated.
     */
    method Install(ops: seq<(string, seq<(string, Imp)>)>, ghost rank: string -> nat)
      returns (failure: Option<JsError>, ghost done: nat)
      requires Valid() && Ranked(imps, rank) && OpsRanked(ops, rank) && DistinctNames(ops)
      requires forall k :: 0 <= k < |ops| ==> DistinctKeys(ops[k].1)
      modifies this
      ensures Valid() && Ranked(imps, rank)
      ensures types == old(types) && conversions == old(conversions)
      ensures InstallOutcome(old(imps), old(bindings), imps, affects, bindings, ops, done, failure, rank)
    {
      failure := None;
      var k := 0;
      MatchesRanked(imps, affects, rank);
      InstallStart(imps, affects, bindings, ops, rank);
      while k < |ops|
        invariant 0 <= k <= |ops| && failure.None?
        invariant Valid() && Ranked(imps, rank) && types == old(types) && conversions == old(conversions)
        invariant InstallProgress(old(imps), old(bindings), imps, affects, bindings, ops, k, rank)
      {
        ghost var (imps1, affects1, b1) := (imps, affects, bindings);
        failure := InstallStep(ops, k, rank);
        if failure.Some? {
          done := k;
          InstallStopped(old(imps), old(bindings), imps1, affects1, b1, imps, affects, bindings, ops, k, failure, rank);
          return;
        }
        InstallAdvance(old(imps), old(bindings), imps1, affects1, b1, imps, affects, bindings, ops, k, rank);
        k := k + 1;
      }
      done := k;
      InstallCompleted(old(imps), old(bindings), imps, affects, bindings, ops, rank);
    }

    /**
     * One turn of the `install` loop: a refused name changes nothing;
     * otherwise only ops[k] gets new signatures, what it reached before
     * becomes stale, and `_affects` gains only edges into it.
     */
    method InstallStep(ops: seq<(string, seq<(string, Imp)>)>, k: nat, ghost rank: string -> nat) returns (failure: Option<JsError>)
      requires k < |ops| && DistinctNames(ops) && DistinctKeys(ops[k].1)
      requires Valid() && Ranked(imps, rank) && OpsRanked(ops, rank)
      modifies this
      ensures Valid() && Ranked(imps, rank) && AffectsRanked(affects, rank)
      ensures types == old(types) && conversions == old(conversions)
      ensures failure.None? <==> Accepted(old(imps), ops[k])
      ensures forall n :: n != ops[k].0 ==> OpImps(imps, n) == OpImps(old(imps), n)
      ensures Kept(old(imps), imps)
      ensures Refused(ops[k].0) ==>
                failure == Some(SyntaxError(RefusalMessage(ops[k].0))) &&
                imps == old(imps) && affects == old(affects) && bindings == old(bindings)
      ensures !Refused(ops[k].0) ==>
                bindings == StaleAt(old(bindings), Reach(old(affects), rank, ops[k].0)) &&
                AffectsWithin(old(affects), affects) && EdgesOnlyInto(old(affects), affects, ops[k].0)
      ensures forall op :: Installed(old(imps), old(bindings), op) ==> Installed(imps, bindings, op)
      ensures failure.None? ==> Installed(imps, bindings, ops[k])
      ensures AddedFrom(old(imps), imps, ops[k])
    {
      var (name, impls) := ops[k];
      OpRanked(ops, k, rank);
      failure := InstallOp(name, impls, rank);
      MatchesRanked(imps, affects, rank);
      if !Refused(name) {
        InstallOpEffect(old(imps), old(affects), old(bindings), imps, affects, ops, k, rank);
      }
    }

    /**
     * `_installOp(name, implementations)`: refuse internal and reserved
     * names; otherwise invalidate the operation and store the signatures in
     * order. A conflicting definition throws midway, and what was stored
     * before it stays stored.
     */
    method InstallOp(name: string, impls: seq<(string, Imp)>, ghost rank: string -> nat) returns (failure: Option<JsError>)
      requires Valid() && Ranked(imps, rank) && DistinctKeys(impls)
      requires forall i, d :: 0 <= i < |impls| && d in DepNames(EdgeDeps(impls[i].1)) ==> rank(name) < rank(d)
      modifies this
      ensures Valid() && Ranked(imps, rank)
      ensures types == old(types) && conversions == old(conversions)
      ensures Refused(name) ==>
                failure == Some(SyntaxError(RefusalMessage(name))) &&
                imps == old(imps) && affects == old(affects) && bindings == old(bindings)
      ensures !Refused(name) ==>
                var st := StoreSignatures(OpImps(old(imps), name), old(affects), name, impls, false);
                imps == old(imps)[name := st.opImps] && affects == st.affects && failure == st.failure &&
                bindings == StaleAt(old(bindings), Reach(old(affects), rank, name))
    {
      if name != [] && name[0] == '_' {
        return Some(SyntaxError(RefusalMessage(name)));
      }
      if name in Reserved {
        return Some(SyntaxError(RefusalMessage(name)));
      }
      failure := Reinstall(name, impls, rank);
    }

    /** The body of `_installOp` past the name checks: invalidate, then store the signatures. */
    method Reinstall(name: string, impls: seq<(string, Imp)>, ghost rank: string -> nat) returns (failure: Option<JsError>)
      requires Valid() && Ranked(imps, rank)
      requires forall i, d :: 0 <= i < |impls| && d in DepNames(EdgeDeps(impls[i].1)) ==> rank(name) < rank(d)
      modifies this
      ensures Valid() && Ranked(imps, rank)
      ensures types == old(types) && conversions == old(conversions)
      ensures var st := StoreSignatures(OpImps(old(imps), name), old(affects), name, impls, false);
              imps == old(imps)[name := st.opImps] && affects == st.affects && failure == st.failure &&
              bindings == StaleAt(old(bindings), Reach(old(affects), rank, name))
    {
      ghost var st := StoreSignatures(Touch(imps, name)[name], affects, name, impls, false);
      ghost var imps2 := Touch(imps, name)[name := st.opImps];
      ghost var b1 := StaleAt(bindings, Reach(affects, rank, name));
      InstallKeepsValid(imps, affects, bindings, name, impls, false, rank);
      assert Touch(imps, name)[name] == OpImps(imps, name);
      assert imps2 == imps[name := st.opImps];
      Invalidate(name, rank);
      failure := StoreAll(name, impls);
      assert imps == imps2 && bindings == b1;
    }

    /** The loop of `_installOp` over the given signatures, writing through to `_imps[name]`. */
    method StoreAll(name: string, impls: seq<(string, Imp)>) returns (failure: Option<JsError>)
      requires name in imps
      modifies this`imps, this`affects
      ensures var st := StoreSignatures(old(imps)[name], old(affects), name, impls, false);
              imps == old(imps)[name := st.opImps] && affects == st.affects && failure == st.failure
    {
      var i := 0;
      while i < |impls|
        invariant 0 <= i <= |impls|
        invariant name in imps && imps == old(imps)[name := imps[name]]
        invariant StoreSignatures(imps[name], affects, name, impls[i..], false)
               == StoreSignatures(old(imps)[name], old(affects), name, impls, false)
      {
        var (s, imp) := impls[i];
        assert impls[i..][1..] == impls[i + 1..];
        if s in imps[name] {
          if imps[name][s] == imp {
            i := i + 1;
            continue;
          }
          return Some(SyntaxError("Conflicting definitions of " + s + " for " + name));
        }
        imps := imps[name := imps[name][s := imp]];
        affects := AddDependents(affects, name, EdgeDeps(imp));
        i := i + 1;
      }
      return None;
    }

    /**
     * `_ensureTypes()`: every type declared under `Types` that the
     * typed-function universe does not know yet is added, then every listed
     * conversion whose two ends are declared and one of them new.
     */
    method EnsureTypes()
      modifies this`types, this`conversions
      ensures types == old(types) + KnownTypes(imps)
      ensures conversions == old(conversions) + NewConversions(imps, old(types))
    {
      var newTypes: set<string> := {};
      var known: set<string> := {};
      var listed: set<(string, string)> := {};
      if "Types" in imps {
        known, newTypes, listed := ScanTypes(imps["Types"], types);
      }
      assert known == KnownTypes(imps) && newTypes == known - types && listed == Candidates(imps);
      NewConversionsFiltered(imps, types, known, newTypes, listed);
      types := types + newTypes;
      conversions := conversions + set c | c in listed && (c.0 in newTypes || c.1 in newTypes) && c.0 in known && c.1 in known;
    }

    /**
     * The loop of `_ensureTypes` over the declared types: the declared
     * names, those the universe does not know, and the conversions listed.
     */
    static method ScanTypes(typeSpec: map<string, Imp>, types: set<string>)
      returns (known: set<string>, newTypes: set<string>, listed: set<(string, string)>)
      ensures known == typeSpec.Keys && newTypes == known - types && listed == Listed(typeSpec, known)
    {
      known, newTypes, listed := {}, {}, {};
      var todo := typeSpec.Keys;
      while todo != {}
        invariant todo <= typeSpec.Keys && known == typeSpec.Keys - todo
        invariant newTypes == known - types
        invariant listed == Listed(typeSpec, known)
        decreases |todo|
      {
        var t :| t in todo;
        RemoveOne(typeSpec.Keys, todo, t);
        ListedAdd(typeSpec, known, t);
        known := known + {t};
        var pairs := ConversionsTo(t, SpecKeys(typeSpec[t]));
        listed := listed + pairs;
        if t !in types {
          newTypes := newTypes + {t};
        }
        todo := todo - {t};
      }
    }

    /** The inner loop of `_ensureTypes`: a conversion to t from each key of its specification but 'test'. */
    static method ConversionsTo(t: string, keys: seq<string>) returns (pairs: set<(string, string)>)
      ensures pairs == set f | f in keys && f != "test" :: (f, t)
    {
      pairs := {};
      var j := 0;
      while j < |keys|
        invariant 0 <= j <= |keys|
        invariant pairs == set f | f in keys[..j] && f != "test" :: (f, t)
      {
        if keys[j] != "test" {
          pairs := pairs + {(keys[j], t)};
        }
        assert keys[..j + 1] == keys[..j] + [keys[j]];
        j := j + 1;
      }
      assert keys[..j] == keys;
    }

    /**
     * Reading the property this[name] (the getter of a stale operation
     * builds it): nothing for a name that is not an operation, the built
     * typed-function, or what `_bundle` makes of a stale one.
     */
    method Lookup(name: string, ghost rank: string -> nat, ghost top: nat) returns (r: Result<Ref>)
      requires Sound() && Ranked(imps, rank) && forall x :: rank(x) <= top
      requires KnownTypes(imps) <= types
      modifies this
      ensures Sound() && imps == old(imps) && affects == old(affects)
      ensures types == old(types) && conversions == old(conversions)
      ensures Grown(old(bindings), bindings, rank, rank(name))
      ensures r.Ok? ==> RefCurrent(r.value, name, bindings)
      ensures name !in old(bindings) ==> r == Ok(Missing)
      ensures name in old(bindings) && old(bindings)[name].Built? ==> r == Ok(Bound(old(bindings)[name].tf))
      decreases top - rank(name), 6
    {
      if name !in bindings {
        return Ok(Missing);
      }
      if bindings[name].Built? {
        return Ok(Bound(bindings[name].tf));
      }
      var t := Bundle(name, rank, top);
      EnsureTypesIdempotent(imps, old(types));
      if t.Err? {
        return Err(t.error);
      }
      return Ok(Bound(t.value));
    }

    /**
     * `_bundle(name)`: with no signatures, a SyntaxError; otherwise make sure
     * the types are registered, build the table entry of every signature
     * (reading this[dep] for each dependency), and store the typed-function
     * as the property.
     */
    method Bundle(name: string, ghost rank: string -> nat, ghost top: nat) returns (r: Result<Dispatcher>)
      requires Sound() && Ranked(imps, rank) && forall x :: rank(x) <= top
      requires name in bindings && bindings[name] == Stale
      modifies this
      ensures Sound() && imps == old(imps) && affects == old(affects)
      ensures Grown(old(bindings), bindings, rank, rank(name))
      ensures NoImplementations(imps, name) ==>
                r == Err(SyntaxError("No implementations for " + name)) &&
                bindings == old(bindings) && types == old(types) && conversions == old(conversions)
      ensures !NoImplementations(imps, name) ==>
                types == old(types) + KnownTypes(imps) &&
                conversions == old(conversions) + NewConversions(imps, old(types))
      ensures r.Ok? ==> bindings[name] == Built(r.value) && WellBuilt(name, r.value, imps)
      ensures r.Err? ==> bindings[name] == Stale
      ensures (exists s :: s in imps[name] && !Buildable(imps[name][s])) ==> r.Err?
      decreases top - rank(name), 5
    {
      if NoImplementations(imps, name) {
        return Err(SyntaxError("No implementations for " + name));
      }
      EnsureTypes();
      var t := BuildTable(name, rank, top);
      if t.Err? {
        return Err(t.error);
      }
      var tf := Typed(name, t.value);
      FinishBundle(imps, old(bindings), bindings, name, t.value, rank);
      bindings := bindings[name := Built(tf)];
      return Ok(tf);
    }

    /** The loop of `_bundle` over the signatures of name: the table of the typed-function to create. */
    method BuildTable(name: string, ghost rank: string -> nat, ghost top: nat) returns (t: Result<map<string, Entry>>)
      requires Sound() && Ranked(imps, rank) && forall x :: rank(x) <= top
      requires name in imps && name in bindings && bindings[name] == Stale
      requires KnownTypes(imps) <= types
      modifies this
      ensures Sound() && imps == old(imps) && affects == old(affects)
      ensures types == old(types) && conversions == old(conversions)
      ensures Grown(old(bindings), bindings, rank, rank(name) + 1) && bindings[name] == Stale
      ensures t.Ok? ==> t.value.Keys == imps[name].Keys && TablePartial(t.value, imps[name], bindings)
      ensures (exists s :: s in imps[name] && !Buildable(imps[name][s])) ==> t.Err?
      decreases top - rank(name), 4
    {
      var todo := imps[name].Keys;
      var table: map<string, Entry> := map[];
      while todo != {}
        invariant name in imps && todo <= imps[name].Keys && table.Keys == imps[name].Keys - todo
        invariant Sound() && imps == old(imps) && affects == old(affects)
        invariant types == old(types) && conversions == old(conversions)
        invariant Grown(old(bindings), bindings, rank, rank(name) + 1) && bindings[name] == Stale
        invariant TablePartial(table, imps[name], bindings)
        decreases |todo|
      {
        var s :| s in todo;
        ghost var b1 := bindings;
        var t1 := AddEntry(name, s, table, rank, top);
        GrownTrans(old(bindings), b1, bindings, rank, rank(name) + 1, rank(name) + 1);
        if t1.Err? {
          return Err(t1.error);
        }
        RemoveOne(imps[name].Keys, todo, s);
        table := t1.value;
        todo := todo - {s};
      }
      return Ok(table);
    }

    /** One pass of the `_bundle` loop: the table with the entry of signature s added. */
    method AddEntry(name: string, s: string, table: map<string, Entry>, ghost rank: string -> nat, ghost top: nat)
      returns (t: Result<map<string, Entry>>)
      requires Sound() && Ranked(imps, rank) && forall x :: rank(x) <= top
      requires name in imps && s in imps[name] && name in bindings && bindings[name] == Stale
      requires KnownTypes(imps) <= types && TablePartial(table, imps[name], bindings)
      modifies this
      ensures Sound() && imps == old(imps) && affects == old(affects)
      ensures types == old(types) && conversions == old(conversions)
      ensures Grown(old(bindings), bindings, rank, rank(name) + 1) && bindings[name] == Stale
      ensures t.Ok? ==> t.value.Keys == table.Keys + {s} && TablePartial(t.value, imps[name], bindings)
      ensures !Buildable(imps[name][s]) ==> t.Err?
      decreases top - rank(name), 3
    {
      ghost var b0 := bindings;
      var e := BuildEntry(name, s, rank, top);
      if e.Err? {
        return Err(e.error);
      }
      TableStep(table, imps[name], s, e.value, b0, bindings, rank, rank(name) + 1);
      return Ok(table[s := e.value]);
    }

    /**
     * The table entry `_bundle` makes for one signature of name: the function
     * itself when the dependency list is empty, and otherwise the function
     * applied to the references it asks for ('self' marks it as referring
     * to itself). A stored value that is not a pair, a missing dependency
     * list and a signature-specific dependency throw.
     */
    method BuildEntry(name: string, s: string, ghost rank: string -> nat, ghost top: nat) returns (e: Result<Entry>)
      requires Sound() && Ranked(imps, rank) && forall x :: rank(x) <= top
      requires name in imps && s in imps[name] && name in bindings && bindings[name] == Stale
      requires KnownTypes(imps) <= types
      modifies this
      ensures Sound() && imps == old(imps) && affects == old(affects)
      ensures types == old(types) && conversions == old(conversions)
      ensures Grown(old(bindings), bindings, rank, rank(name) + 1) && bindings[name] == Stale
      ensures e.Ok? ==> Fits(e.value, imps[name][s]) && (e.value.Resolved? ==> RefsCurrent(e.value.refs, bindings))
      ensures !Buildable(imps[name][s]) ==> e.Err?
      decreases top - rank(name), 2
    {
      var imp := imps[name][s];
      if imp.TypeSpec? {
        return Err(TypeError("stored value is not iterable"));
      }
      if imp.deps.None? {
        return Err(TypeError("Cannot read properties of undefined (reading 'length')"));
      }
      var deps := imp.deps.value;
      if deps == [] {
        return Ok(Plain(imp));
      }
      var rs := ResolveDeps(name, s, rank, top);
      if rs.Err? {
        return Err(rs.error);
      }
      return Ok(Resolved(imp, rs.value.0, rs.value.1));
    }

    /**
     * The dependency loop of `_bundle` for one signature: the reference of
     * every dependency but 'self', and whether 'self' is among them; a
     * signature-specific dependency throws.
     */
    method ResolveDeps(name: string, s: string, ghost rank: string -> nat, ghost top: nat)
      returns (r: Result<(map<string, Ref>, bool)>)
      requires Sound() && Ranked(imps, rank) && forall x :: rank(x) <= top
      requires name in imps && s in imps[name] && name in bindings && bindings[name] == Stale
      requires imps[name][s].Pair? && imps[name][s].deps.Some?
      requires KnownTypes(imps) <= types
      modifies this
      ensures Sound() && imps == old(imps) && affects == old(affects)
      ensures types == old(types) && conversions == old(conversions)
      ensures Grown(old(bindings), bindings, rank, rank(name) + 1) && bindings[name] == Stale
      ensures var deps := imps[name][s].deps.value;
              r.Ok? ==> r.value.0.Keys == NonSelf(deps) && r.value.1 == ("self" in deps) && RefsCurrent(r.value.0, bindings)
      ensures !NoSpecific(imps[name][s].deps.value) ==> r.Err?
      decreases top - rank(name), 1
    {
      var deps := imps[name][s].deps.value;
      var refs: map<string, Ref> := map[];
      var selfRef := false;
      var j := 0;
      while j < |deps|
        invariant 0 <= j <= |deps|
        invariant NoSpecific(deps[..j])
        invariant refs.Keys == NonSelf(deps[..j]) && selfRef == ("self" in deps[..j])
        invariant Sound() && imps == old(imps) && affects == old(affects)
        invariant types == old(types) && conversions == old(conversions)
        invariant Grown(old(bindings), bindings, rank, rank(name) + 1) && bindings[name] == Stale
        invariant RefsCurrent(refs, bindings)
      {
        var dep := deps[j];
        NonSelfStep(deps, j);
        if '(' in dep {
          return Err(PlainError("signature specific reference unimplemented"));
        }
        if dep == "self" {
          selfRef := true;
        } else {
          ghost var b1 := bindings;
          var added := AddRef(name, s, dep, refs, rank, top);
          GrownTrans(old(bindings), b1, bindings, rank, rank(name) + 1, rank(name) + 1);
          if added.Err? {
            return Err(added.error);
          }
          refs := added.value;
        }
        j := j + 1;
      }
      assert deps[..j] == deps;
      return Ok((refs, selfRef));
    }

    /** One dependency of the `_bundle` loop: the references with this[dep] added. */
    method AddRef(name: string, s: string, dep: string, refs: map<string, Ref>, ghost rank: string -> nat, ghost top: nat)
      returns (r: Result<map<string, Ref>>)
      requires Sound() && Ranked(imps, rank) && forall x :: rank(x) <= top
      requires name in imps && s in imps[name] && name in bindings && bindings[name] == Stale
      requires EdgeDeps(imps[name][s]) != [] && dep in EdgeDeps(imps[name][s]) && '(' !in dep && dep != "self"
      requires KnownTypes(imps) <= types && RefsCurrent(refs, bindings)
      modifies this
      ensures Sound() && imps == old(imps) && affects == old(affects)
      ensures types == old(types) && conversions == old(conversions)
      ensures Grown(old(bindings), bindings, rank, rank(name) + 1) && bindings[name] == Stale
      ensures r.Ok? ==> r.value.Keys == refs.Keys + {dep} && RefsCurrent(r.value, bindings)
      decreases top - rank(name), 0
    {
      DependencyRanks(imps, rank, name, s, dep);
      ghost var b0 := bindings;
      var v := Lookup(dep, rank, top);
      if v.Err? {
        return Err(v.error);
      }
      RefsStep(refs, dep, v.value, b0, bindings, rank, rank(dep));
      return Ok(refs[dep := v.value]);
    }
  }
}
