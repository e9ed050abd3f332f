/**
 * The bookkeeping shared by both versions of PocomathInstance
 * (src/core/PocomathInstance.mjs and the older PocomathInstance.mjs):
 *   - `_imps`, operation name -> (signature -> implementation);
 *   - `_affects`, dependency name -> set of operation names;
 *   - the property `this[name]` of each operation, which is either a lazy
 *     stand-in that builds the operation when used ("stale") or the built
 *     typed-function.
 * The typed-function library is not modelled: a built operation is a
 * record of what it was built from.
 */
module RegistryState {
  import opened Wrappers

  /**
   * What `install` stores for one signature. An implementation is the pair
   * [dependency list, function]; the `code` number stands for the identity
   * of that pair object, so two stored values are `===` exactly when they
   * are equal here. The dependency list may be missing (undefined). Under
   * the operation name `Types` the stored objects are type specifications,
   * whose own keys are 'test' and the names of the types that convert to it.
   */
  datatype Imp =
    | Pair(code: nat, deps: Option<seq<string>>)
    | TypeSpec(code: nat, keys: seq<string>)

  /** The value `refs[dep]` an implementation receives: a built operation, or nothing usable. */
  datatype Ref = Bound(tf: Dispatcher) | Missing

  /** One signature of a built typed-function. */
  datatype Entry =
    | Plain(imp: Imp)                                           // no dependencies: the function itself
    | Resolved(imp: Imp, refs: map<string, Ref>, selfRef: bool) // imp(refs), possibly referring to itself

  /** A built typed-function: its name and its table of signatures. */
  datatype Dispatcher = Typed(name: string, table: map<string, Entry>)

  /** The property this[name]: the lazy stand-in, or the built operation. */
  datatype Binding = Stale | Built(tf: Dispatcher)

  type Imps = map<string, map<string, Imp>>
  type Affects = map<string, set<string>>
  type Bindings = map<string, Binding>

  // ---------------------------------------------------------------------
  // Dependency names and the affects relation

  /** dep.split('(', 1)[0]: the text before the first '(' (all of it when there is none). */
  function DepName(dep: string): (r: string)
    ensures r <= dep && '(' !in r
    ensures r == dep || dep[|r|] == '('
  {
    if dep == [] || dep[0] == '(' then [] else [dep[0]] + DepName(dep[1..])
  }

  /** A dependency without '(' names an operation by its whole text. */
  lemma DepNameWhole(dep: string)
    requires '(' !in dep
    ensures DepName(dep) == dep
  {
  }

  /** The dependency list install walks: a missing list (or a type specification) counts as empty. */
  function EdgeDeps(imp: Imp): seq<string> {
    if imp.Pair? && imp.deps.Some? then imp.deps.value else []
  }

  /** The operation names a dependency list makes the installed operation depend on. */
  function DepNames(deps: seq<string>): set<string> {
    set dep | dep in deps && DepName(dep) != "self" :: DepName(dep)
  }

  /** Every name operation n depends on through one of its stored signatures. */
  function EdgeSources(imps: Imps, n: string): set<string> {
    if n in imps then set s, d | s in imps[n] && d in DepNames(EdgeDeps(imps[n][s])) :: d else {}
  }

  /** `_affects` holds exactly the edges d -> n of the stored signatures. */
  ghost predicate Matches(imps: Imps, affects: Affects) {
    EdgesSound(imps, affects) && EdgesComplete(imps, affects)
  }

  /** Every recorded edge d -> n is an edge of a stored signature of n. */
  ghost predicate EdgesSound(imps: Imps, affects: Affects) {
    forall d, n :: d in affects && n in affects[d] ==> n in imps && d in EdgeSources(imps, n)
  }

  /** Every edge of a stored signature is recorded. */
  ghost predicate EdgesComplete(imps: Imps, affects: Affects) {
    forall n, d :: n in imps && d in EdgeSources(imps, n) ==> d in affects && n in affects[d]
  }

  /**
   * The loop over one signature's dependencies: for each dependency name
   * other than 'self', create the set if missing and add the operation.
   */
  function AddEdges(affects: Affects, name: string, deps: seq<string>): Affects
    decreases |deps|
  {
    if deps == [] then affects
    else
      var d := DepName(deps[0]);
      var next := if d == "self" then affects else affects[d := (if d in affects then affects[d] else {}) + {name}];
      AddEdges(next, name, deps[1..])
  }

  /**
   * The loop over one new signature's dependency list, on a copy of
   * `_affects`: record name as a user of each dependency but 'self'.
   */
  method AddDependents(affects: Affects, name: string, deps: seq<string>) returns (r: Affects)
    ensures r == AddEdges(affects, name, deps)
  {
    r := affects;
    var j := 0;
    while j < |deps|
      invariant 0 <= j <= |deps|
      invariant AddEdges(r, name, deps[j..]) == AddEdges(affects, name, deps)
    {
      assert deps[j..][1..] == deps[j + 1..];
      ghost var pre := r;
      var depname := DepName(deps[j]);
      if depname != "self" {
        if depname !in r {
          r := r[depname := {}];
        }
        r := r[depname := r[depname] + {name}];
        assert r == pre[depname := (if depname in pre then pre[depname] else {}) + {name}];
      }
      j := j + 1;
    }
  }

  /** AddEdges adds the edge d -> name for each dependency name d, and nothing else. */
  lemma {:induction false} AddEdgesSpec(affects: Affects, name: string, deps: seq<string>)
    ensures var r := AddEdges(affects, name, deps);
            r.Keys == affects.Keys + DepNames(deps) &&
            forall d :: d in r ==> r[d] == (if d in affects then affects[d] else {}) + (if d in DepNames(deps) then {name} else {})
    decreases |deps|
  {
    if deps != [] {
      var d := DepName(deps[0]);
      var next := if d == "self" then affects else affects[d := (if d in affects then affects[d] else {}) + {name}];
      AddEdgesSpec(next, name, deps[1..]);
      DepNamesCons(deps);
      AddEdgesStep(affects, name, d, DepNames(deps[1..]), AddEdges(affects, name, deps));
    }
  }

  /** One dependency name d added before the edges of the rest: the combined edge map. */
  lemma AddEdgesStep(affects: Affects, name: string, d: string, rest: set<string>, r: Affects)
    requires var next := if d == "self" then affects else affects[d := (if d in affects then affects[d] else {}) + {name}];
             r.Keys == next.Keys + rest &&
             forall x :: x in r ==> r[x] == (if x in next then next[x] else {}) + (if x in rest then {name} else {})
    ensures var all := (if d == "self" then {} else {d}) + rest;
            r.Keys == affects.Keys + all &&
            forall x :: x in r ==> r[x] == (if x in affects then affects[x] else {}) + (if x in all then {name} else {})
  {
  }

  /** The dependency names of a list: the first entry's name (unless 'self') and those of the rest. */
  lemma DepNamesCons(deps: seq<string>)
    requires deps != []
    ensures var d := DepName(deps[0]);
            DepNames(deps) == (if d == "self" then {} else {d}) + DepNames(deps[1..])
  {
    var d := DepName(deps[0]);
    var rest := DepNames(deps[1..]);
    forall x | x in DepNames(deps) ensures x in (if d == "self" then {} else {d}) + rest {
      var dep :| dep in deps && DepName(dep) != "self" && DepName(dep) == x;
      if dep != deps[0] {
        assert dep in deps[1..];
      }
    }
    forall x | x in rest ensures x in DepNames(deps) {
      var dep :| dep in deps[1..] && DepName(dep) != "self" && DepName(dep) == x;
      assert dep in deps;
    }
    if d != "self" {
      assert deps[0] in deps;
    }
  }

  /** A new signature adds exactly its dependency names to the operation's sources, and touches no other operation. */
  lemma EdgeSourcesStore(imps: Imps, name: string, s: string, imp: Imp)
    requires name in imps && s !in imps[name]
    ensures EdgeSources(imps[name := imps[name][s := imp]], name) == EdgeSources(imps, name) + DepNames(EdgeDeps(imp))
    ensures forall n :: n != name ==> EdgeSources(imps[name := imps[name][s := imp]], n) == EdgeSources(imps, n)
  {
    var imps1 := imps[name := imps[name][s := imp]];
    forall d | d in EdgeSources(imps1, name) ensures d in EdgeSources(imps, name) + DepNames(EdgeDeps(imp)) {
      var t :| t in imps1[name] && d in DepNames(EdgeDeps(imps1[name][t]));
      if t != s {
        assert t in imps[name];
      }
    }
    forall d | d in EdgeSources(imps, name) ensures d in EdgeSources(imps1, name) {
      var t :| t in imps[name] && d in DepNames(EdgeDeps(imps[name][t]));
      assert t in imps1[name] && imps1[name][t] == imps[name][t];
    }
    forall d | d in DepNames(EdgeDeps(imp)) ensures d in EdgeSources(imps1, name) {
      assert s in imps1[name] && imps1[name][s] == imp;
    }
  }

  /** Storing signature s (new for operation name) and adding its edges keeps `_affects` exact. */
  lemma StoreStepKeepsMatch(imps: Imps, affects: Affects, name: string, s: string, imp: Imp)
    requires Matches(imps, affects) && name in imps && s !in imps[name]
    ensures Matches(imps[name := imps[name][s := imp]], AddEdges(affects, name, EdgeDeps(imp)))
  {
    var imps1 := imps[name := imps[name][s := imp]];
    var r := AddEdges(affects, name, EdgeDeps(imp));
    AddEdgesSpec(affects, name, EdgeDeps(imp));
    EdgeSourcesStore(imps, name, s, imp);
    StoredEdgesSound(imps, affects, imps1, r, name, DepNames(EdgeDeps(imp)));
    StoredEdgesComplete(imps, affects, imps1, r, name, DepNames(EdgeDeps(imp)));
  }

  /** Each edge of the grown `_affects` is an edge of the grown operations. */
  lemma StoredEdgesSound(imps: Imps, affects: Affects, imps1: Imps, r: Affects, name: string, added: set<string>)
    requires Matches(imps, affects) && name in imps && imps1.Keys == imps.Keys
    requires EdgeSources(imps1, name) == EdgeSources(imps, name) + added
    requires forall n :: n != name ==> EdgeSources(imps1, n) == EdgeSources(imps, n)
    requires r.Keys == affects.Keys + added
    requires forall d :: d in r ==> r[d] == (if d in affects then affects[d] else {}) + (if d in added then {name} else {})
    ensures EdgesSound(imps1, r)
  {
    forall d, n | d in r && n in r[d]
      ensures n in imps1 && d in EdgeSources(imps1, n)
    {
      EdgeFound(imps, affects, r, name, added, d, n);
    }
  }

  /** An edge of the combined map is an old edge or one of name's added edges. */
  lemma EdgeFound(imps: Imps, affects: Affects, r: Affects, name: string, added: set<string>, d: string, n: string)
    requires EdgesSound(imps, affects) && name in imps
    requires r.Keys == affects.Keys + added
    requires forall x :: x in r ==> r[x] == (if x in affects then affects[x] else {}) + (if x in added then {name} else {})
    requires d in r && n in r[d]
    ensures n in imps && d in EdgeSources(imps, n) + (if n == name then added else {})
  {
  }

  /** Each edge of the grown operations is in the grown `_affects`. */
  lemma StoredEdgesComplete(imps: Imps, affects: Affects, imps1: Imps, r: Affects, name: string, added: set<string>)
    requires Matches(imps, affects) && name in imps && imps1.Keys == imps.Keys
    requires EdgeSources(imps1, name) == EdgeSources(imps, name) + added
    requires forall n :: n != name ==> EdgeSources(imps1, n) == EdgeSources(imps, n)
    requires r.Keys == affects.Keys + added
    requires forall d :: d in r ==> r[d] == (if d in affects then affects[d] else {}) + (if d in added then {name} else {})
    ensures EdgesComplete(imps1, r)
  {
    forall n, d | n in imps1 && d in EdgeSources(imps1, n)
      ensures d in r && n in r[d]
    {
      EdgeKept(imps, affects, r, name, added, n, d);
    }
  }

  /** An old edge, or one of name's added edges, is in the combined map. */
  lemma EdgeKept(imps: Imps, affects: Affects, r: Affects, name: string, added: set<string>, n: string, d: string)
    requires EdgesComplete(imps, affects) && n in imps
    requires r.Keys == affects.Keys + added
    requires forall x :: x in r ==> r[x] == (if x in affects then affects[x] else {}) + (if x in added then {name} else {})
    requires d in EdgeSources(imps, n) + (if n == name then added else {})
    ensures d in r && n in r[d]
  {
  }

  // ---------------------------------------------------------------------
  // Storing the signatures of one install call

  /** The outcome of the signature loop of `_installOp`: the operation's map, `_affects`, and what was thrown. */
  datatype Stored = Stored(opImps: map<string, Imp>, affects: Affects, failure: Option<JsError>)

  predicate Conflicts(opImps: map<string, Imp>, e: (string, Imp)) {
    e.0 in opImps && opImps[e.0] != e.1
  }

  predicate MissingDeps(imp: Imp) {
    !(imp.Pair? && imp.deps.Some?)
  }

  /**
   * Entry e makes the loop throw: a different implementation is already
   * stored for its signature, or (when the dependency list is iterated
   * without a default) a new signature has no dependency list.
   */
  predicate Rejects(opImps: map<string, Imp>, e: (string, Imp), strict: bool) {
    Conflicts(opImps, e) || (strict && e.0 !in opImps && MissingDeps(e.1))
  }

  predicate DistinctKeys(impls: seq<(string, Imp)>) {
    forall i, j :: 0 <= i < j < |impls| ==> impls[i].0 != impls[j].0
  }

  /**
   * The loop over the signatures given to `_installOp`, in order: the same
   * implementation again is skipped, a different one throws "Conflicting
   * definitions", a new one is stored and its edges added. `strict` is the
   * older version, where a missing dependency list throws a TypeError once
   * the signature has been stored.
   */
  function StoreSignatures(opImps: map<string, Imp>, affects: Affects, name: string,
                           impls: seq<(string, Imp)>, strict: bool): Stored
    decreases |impls|
  {
    if impls == [] then Stored(opImps, affects, None)
    else
      var s := impls[0].0;
      var imp := impls[0].1;
      if s in opImps then
        if opImps[s] == imp then StoreSignatures(opImps, affects, name, impls[1..], strict)
        else Stored(opImps, affects, Some(SyntaxError("Conflicting definitions of " + s + " for " + name)))
      else if strict && MissingDeps(imp) then
        Stored(opImps[s := imp], affects, Some(TypeError("dependency list is not iterable")))
      else
        StoreSignatures(opImps[s := imp], AddEdges(affects, name, EdgeDeps(imp)), name, impls[1..], strict)
  }

  /** With distinct signatures, the loop throws exactly when some entry is rejected. */
  lemma {:induction false} StoreFailure(opImps: map<string, Imp>, affects: Affects, name: string,
                                       impls: seq<(string, Imp)>, strict: bool)
    requires DistinctKeys(impls)
    ensures StoreSignatures(opImps, affects, name, impls, strict).failure.None? <==>
            forall i :: 0 <= i < |impls| ==> !Rejects(opImps, impls[i], strict)
    decreases |impls|
  {
    if impls != [] {
      var s, imp := impls[0].0, impls[0].1;
      var rest := impls[1..];
      assert DistinctKeys(rest);
      if Rejects(opImps, impls[0], strict) {
      } else if s in opImps {
        StoreFailure(opImps, affects, name, rest, strict);
        SequenceShift(opImps, impls, strict);
      } else {
        var o := opImps[s := imp];
        StoreFailure(o, AddEdges(affects, name, EdgeDeps(imp)), name, rest, strict);
        forall i | 0 <= i < |rest|
          ensures Rejects(o, rest[i], strict) == Rejects(opImps, rest[i], strict)
        {
          assert rest[i] == impls[i + 1];
        }
        SequenceShift(opImps, impls, strict);
      }
    }
  }

  /** A definition already stored is never replaced. */
  lemma {:induction false} StoreKeepsOld(opImps: map<string, Imp>, affects: Affects, name: string,
                                        impls: seq<(string, Imp)>, strict: bool)
    ensures var st := StoreSignatures(opImps, affects, name, impls, strict);
            forall s :: s in opImps ==> s in st.opImps && st.opImps[s] == opImps[s]
    decreases |impls|
  {
    if impls != [] {
      var s, imp := impls[0].0, impls[0].1;
      if s in opImps {
        StoreKeepsOld(opImps, affects, name, impls[1..], strict);
      } else if !(strict && MissingDeps(imp)) {
        StoreKeepsOld(opImps[s := imp], AddEdges(affects, name, EdgeDeps(imp)), name, impls[1..], strict);
      }
    }
  }

  /** Everything stored comes from the old map or from the call. */
  lemma {:induction false} StoreFrom(opImps: map<string, Imp>, affects: Affects, name: string,
                                    impls: seq<(string, Imp)>, strict: bool)
    ensures var st := StoreSignatures(opImps, affects, name, impls, strict);
            forall s :: s in st.opImps && s !in opImps ==> exists i :: 0 <= i < |impls| && impls[i] == (s, st.opImps[s])
    decreases |impls|
  {
    if impls != [] {
      var s, imp := impls[0].0, impls[0].1;
      var st := StoreSignatures(opImps, affects, name, impls, strict);
      if s in opImps {
        StoreFrom(opImps, affects, name, impls[1..], strict);
        forall t | t in st.opImps && t !in opImps
          ensures exists i :: 0 <= i < |impls| && impls[i] == (t, st.opImps[t])
        {
          var i :| 0 <= i < |impls[1..]| && impls[1..][i] == (t, st.opImps[t]);
          assert impls[i + 1] == (t, st.opImps[t]);
        }
      } else if strict && MissingDeps(imp) {
        assert impls[0] == (s, st.opImps[s]);
      } else {
        var o := opImps[s := imp];
        StoreFrom(o, AddEdges(affects, name, EdgeDeps(imp)), name, impls[1..], strict);
        StoreKeepsOld(o, AddEdges(affects, name, EdgeDeps(imp)), name, impls[1..], strict);
        assert st == StoreSignatures(o, AddEdges(affects, name, EdgeDeps(imp)), name, impls[1..], strict);
        assert impls[0] == (s, imp);
        forall t | t in st.opImps && t !in opImps
          ensures exists i :: 0 <= i < |impls| && impls[i] == (t, st.opImps[t])
        {
          if t == s {
            assert impls[0] == (t, st.opImps[t]);
          } else {
            var i :| 0 <= i < |impls[1..]| && impls[1..][i] == (t, st.opImps[t]);
            assert impls[i + 1] == (t, st.opImps[t]);
          }
        }
      }
    }
  }

  /**
   * Nothing is rolled back: with distinct signatures, every entry before
   * the first rejected one stays stored, and so does an entry rejected only
   * for its missing dependency list.
   */
  lemma {:induction false} StoreNoRollback(opImps: map<string, Imp>, affects: Affects, name: string,
                                          impls: seq<(string, Imp)>, strict: bool, i: int)
    requires DistinctKeys(impls)
    requires 0 <= i < |impls| && !Conflicts(opImps, impls[i])
    requires forall j :: 0 <= j < i ==> !Rejects(opImps, impls[j], strict)
    ensures var st := StoreSignatures(opImps, affects, name, impls, strict);
            impls[i].0 in st.opImps && st.opImps[impls[i].0] == impls[i].1
    decreases |impls|
  {
    var s, imp := impls[0].0, impls[0].1;
    if i == 0 {
      if s in opImps {
        StoreKeepsOld(opImps, affects, name, impls[1..], strict);
      } else if !(strict && MissingDeps(imp)) {
        StoreKeepsOld(opImps[s := imp], AddEdges(affects, name, EdgeDeps(imp)), name, impls[1..], strict);
      }
    } else {
      assert !Rejects(opImps, impls[0], strict);
      var rest := impls[1..];
      assert DistinctKeys(rest);
      assert rest[i - 1] == impls[i];
      if s in opImps {
        forall j | 0 <= j < i - 1 ensures !Rejects(opImps, rest[j], strict) {
          assert rest[j] == impls[j + 1];
        }
        StoreNoRollback(opImps, affects, name, rest, strict, i - 1);
      } else {
        var o := opImps[s := imp];
        assert impls[i].0 != s;
        forall j | 0 <= j < i - 1 ensures !Rejects(o, rest[j], strict) {
          assert rest[j] == impls[j + 1];
          assert rest[j].0 != s;
        }
        StoreNoRollback(o, AddEdges(affects, name, EdgeDeps(imp)), name, rest, strict, i - 1);
      }
    }
  }

  /** Quantifying over impls[1..] is quantifying over impls from the second entry on. */
  lemma SequenceShift(opImps: map<string, Imp>, impls: seq<(string, Imp)>, strict: bool)
    requires impls != [] && !Rejects(opImps, impls[0], strict)
    ensures (forall i :: 0 <= i < |impls| ==> !Rejects(opImps, impls[i], strict)) <==>
            (forall i :: 0 <= i < |impls[1..]| ==> !Rejects(opImps, impls[1..][i], strict))
  {
    if forall i :: 0 <= i < |impls[1..]| ==> !Rejects(opImps, impls[1..][i], strict) {
      forall i | 0 < i < |impls| ensures !Rejects(opImps, impls[i], strict) {
        assert impls[i] == impls[1..][i - 1];
      }
    }
  }

  /** The whole signature loop keeps `_affects` exact. */
  lemma {:induction false} StoreKeepsMatch(imps: Imps, affects: Affects, name: string,
                                          impls: seq<(string, Imp)>, strict: bool)
    requires Matches(imps, affects) && name in imps
    ensures var st := StoreSignatures(imps[name], affects, name, impls, strict);
            Matches(imps[name := st.opImps], st.affects)
    decreases |impls|
  {
    if impls == [] {
      assert imps[name := imps[name]] == imps;
    } else {
      var s, imp := impls[0].0, impls[0].1;
      if s in imps[name] {
        if imps[name][s] == imp {
          StoreKeepsMatch(imps, affects, name, impls[1..], strict);
        } else {
          assert imps[name := imps[name]] == imps;
        }
      } else {
        StoreStepKeepsMatch(imps, affects, name, s, imp);
        var imps1 := imps[name := imps[name][s := imp]];
        if !(strict && MissingDeps(imp)) {
          StoreKeepsMatch(imps1, AddEdges(affects, name, EdgeDeps(imp)), name, impls[1..], strict);
          var st := StoreSignatures(imps1[name], AddEdges(affects, name, EdgeDeps(imp)), name, impls[1..], strict);
          assert imps1[name := st.opImps] == imps[name := st.opImps];
        }
      }
    }
  }

  // ---------------------------------------------------------------------
  // Acyclic dependencies

  /**
   * A ranking of the operations in which every operation ranks below each
   * operation it depends on: a witness that the dependencies have no cycle.
   */
  ghost predicate Ranked(imps: Imps, rank: string -> nat) {
    forall n, d :: n in imps && d in EdgeSources(imps, n) ==> rank(n) < rank(d)
  }

  /** Along `_affects`, from a dependency to the operations that use it, the rank decreases. */
  ghost predicate AffectsRanked(affects: Affects, rank: string -> nat) {
    forall d, a :: d in affects && a in affects[d] ==> rank(a) < rank(d)
  }

  /** Every operation `_affects` lists as a user is installed. */
  ghost predicate UsersInstalled(imps: Imps, affects: Affects) {
    forall d, n :: d in affects && n in affects[d] ==> n in imps
  }

  lemma MatchesRanked(imps: Imps, affects: Affects, rank: string -> nat)
    requires Matches(imps, affects) && Ranked(imps, rank)
    ensures AffectsRanked(affects, rank) && UsersInstalled(imps, affects)
  {
  }

  /** Storing signatures whose dependencies all rank above the operation keeps the ranking. */
  lemma StoreKeepsRanked(imps: Imps, affects: Affects, name: string, impls: seq<(string, Imp)>,
                         strict: bool, rank: string -> nat)
    requires Ranked(imps, rank) && name in imps
    requires forall i, d :: 0 <= i < |impls| && d in DepNames(EdgeDeps(impls[i].1)) ==> rank(name) < rank(d)
    ensures Ranked(imps[name := StoreSignatures(imps[name], affects, name, impls, strict).opImps], rank)
  {
    var st := StoreSignatures(imps[name], affects, name, impls, strict);
    var imps1 := imps[name := st.opImps];
    StoreFrom(imps[name], affects, name, impls, strict);
    StoreKeepsOld(imps[name], affects, name, impls, strict);
    forall n, d | n in imps1 && d in EdgeSources(imps1, n)
      ensures rank(n) < rank(d)
    {
      if n == name {
        var t :| t in imps1[n] && d in DepNames(EdgeDeps(imps1[n][t]));
        if t in imps[name] {
          assert d in EdgeSources(imps, n);
        } else {
          var i :| 0 <= i < |impls| && impls[i] == (t, st.opImps[t]);
          assert d in DepNames(EdgeDeps(impls[i].1));
        }
      } else {
        assert EdgeSources(imps1, n) == EdgeSources(imps, n);
      }
    }
  }

  // ---------------------------------------------------------------------
  // Invalidation

  /**
   * The operations `_invalidate(name)` reaches: name itself and, through
   * `_affects`, everything that uses it, directly or not.
   */
  ghost function Reach(affects: Affects, rank: string -> nat, name: string): set<string>
    requires AffectsRanked(affects, rank)
    decreases rank(name)
  {
    {name} + if name in affects then set a, x | a in affects[name] && x in Reach(affects, rank, a) :: x else {}
  }

  /** `_invalidate(name)` always reaches name itself. */
  lemma ReachRoot(affects: Affects, rank: string -> nat, name: string)
    requires AffectsRanked(affects, rank)
    ensures name in Reach(affects, rank, name)
  {
  }

  /** Everything `_invalidate` reaches from the operations of S. */
  ghost function Reached(affects: Affects, rank: string -> nat, S: set<string>): set<string>
    requires AffectsRanked(affects, rank)
  {
    set a, x | a in S && x in Reach(affects, rank, a) :: x
  }

  /** Invalidating one more operation a reaches what a reaches on top. */
  lemma ReachedAdd(affects: Affects, rank: string -> nat, S: set<string>, a: string)
    requires AffectsRanked(affects, rank)
    ensures Reached(affects, rank, S + {a}) == Reached(affects, rank, S) + Reach(affects, rank, a)
  {
    assert a in Reach(affects, rank, a);
  }

  /** Reach is closed under `_affects`: nothing that uses a reached operation is missed. */
  lemma {:induction false} ReachClosed(affects: Affects, rank: string -> nat, name: string, x: string, a: string)
    requires AffectsRanked(affects, rank)
    requires x in Reach(affects, rank, name) && x in affects && a in affects[x]
    ensures a in Reach(affects, rank, name)
    decreases rank(name)
  {
    if x != name {
      var b :| b in affects[name] && x in Reach(affects, rank, b);
      ReachClosed(affects, rank, b, x, a);
    } else {
      assert a in Reach(affects, rank, a);
    }
  }

  /** Everything reached other than name itself is an installed operation. */
  lemma {:induction false} ReachInImps(imps: Imps, affects: Affects, rank: string -> nat, name: string)
    requires UsersInstalled(imps, affects) && AffectsRanked(affects, rank)
    ensures Reach(affects, rank, name) <= imps.Keys + {name}
    decreases rank(name)
  {
    if name in affects {
      forall a | a in affects[name] ensures Reach(affects, rank, a) <= imps.Keys + {name} {
        ReachInImps(imps, affects, rank, a);
      }
    }
  }

  /** The properties after invalidating every operation of S. */
  function StaleAt(b: Bindings, S: set<string>): (r: Bindings)
    ensures r.Keys == b.Keys + S
    ensures forall k :: k in S ==> r[k] == Stale
    ensures forall k :: k in b && k !in S ==> r[k] == b[k]
  {
    map k | k in b.Keys + S :: if k in S then Stale else b[k]
  }

  /** `_invalidate` makes sure the operation has an implementation map. */
  function Touch(imps: Imps, name: string): Imps {
    if name in imps then imps else imps[name := map[]]
  }

  /** Giving an operation an empty implementation map adds no edge. */
  lemma TouchKeepsMatch(imps: Imps, affects: Affects, rank: string -> nat, name: string)
    requires Matches(imps, affects)
    ensures Matches(Touch(imps, name), affects)
    ensures Ranked(imps, rank) ==> Ranked(Touch(imps, name), rank)
    ensures Touch(imps, name).Keys == imps.Keys + {name}
  {
    if name !in imps {
      var imps1 := imps[name := map[]];
      assert EdgeSources(imps1, name) == {};
      forall n | n != name ensures EdgeSources(imps1, n) == EdgeSources(imps, n) {
      }
    }
  }

  /** An operation listed in `_affects` is installed, so invalidating it creates no map. */
  lemma MatchedUserInstalled(imps: Imps, affects: Affects, d: string, a: string)
    requires UsersInstalled(imps, affects) && d in affects && a in affects[d]
    ensures a in imps && Touch(imps, a) == imps
  {
  }

  lemma StaleAtTwice(b: Bindings, S: set<string>, T: set<string>)
    ensures StaleAt(StaleAt(b, S), T) == StaleAt(b, S + T)
  {
  }

  /** Taking a from what is left to visit adds it to what has been visited. */
  lemma RemoveOne(all: set<string>, todo: set<string>, a: string)
    requires a in todo && todo <= all
    ensures all - (todo - {a}) == (all - todo) + {a}
  {
  }

  /** Invalidating one more user a after those of S marks stale what S and a reach together. */
  lemma InvalidateStep(b0: Bindings, affects: Affects, rank: string -> nat, S: set<string>, a: string, b1: Bindings)
    requires AffectsRanked(affects, rank)
    requires b1 == StaleAt(StaleAt(b0, Reached(affects, rank, S)), Reach(affects, rank, a))
    ensures b1 == StaleAt(b0, Reached(affects, rank, S + {a}))
  {
    StaleAtTwice(b0, Reached(affects, rank, S), Reach(affects, rank, a));
    ReachedAdd(affects, rank, S, a);
  }

  // ---------------------------------------------------------------------
  // How `_affects` grows while install runs

  /** Every edge of affects is still an edge of affects1. */
  predicate AffectsWithin(affects: Affects, affects1: Affects) {
    forall d, n :: d in affects && n in affects[d] ==> d in affects1 && n in affects1[d]
  }

  /** Every edge of affects1 that affects lacks leads into o. */
  predicate EdgesOnlyInto(affects: Affects, affects1: Affects, o: string) {
    forall d, n :: d in affects1 && n in affects1[d] ==> n == o || (d in affects && n in affects[d])
  }

  /** What a user a of n reaches, n reaches. */
  lemma ReachUser(affects: Affects, rank: string -> nat, n: string, a: string)
    requires AffectsRanked(affects, rank) && n in affects && a in affects[n]
    ensures Reach(affects, rank, a) <= Reach(affects, rank, n)
  {
  }

  /** With more edges, invalidation reaches more. */
  lemma {:induction false} ReachMono(affects: Affects, affects1: Affects, rank: string -> nat, n: string)
    requires AffectsRanked(affects, rank) && AffectsRanked(affects1, rank) && AffectsWithin(affects, affects1)
    ensures Reach(affects, rank, n) <= Reach(affects1, rank, n)
    decreases rank(n)
  {
    if n in affects {
      forall a | a in affects[n]
        ensures Reach(affects, rank, a) <= Reach(affects1, rank, n)
      {
        ReachMono(affects, affects1, rank, a);
        ReachUser(affects1, rank, n, a);
      }
    }
  }

  /** New edges into o let n reach nothing beyond what n and o reached before. */
  lemma {:induction false} ReachAddInto(affects: Affects, affects1: Affects, rank: string -> nat, o: string, n: string)
    requires AffectsRanked(affects, rank) && AffectsRanked(affects1, rank) && EdgesOnlyInto(affects, affects1, o)
    ensures Reach(affects1, rank, n) <= Reach(affects, rank, n) + Reach(affects, rank, o)
    decreases rank(n)
  {
    if n in affects1 {
      forall a | a in affects1[n]
        ensures Reach(affects1, rank, a) <= Reach(affects, rank, n) + Reach(affects, rank, o)
      {
        ReachAddInto(affects, affects1, rank, o, a);
        if a != o {
          ReachUser(affects, rank, n, a);
        }
      }
    }
  }

  /** Once o is among the roots, the new edges into o add nothing to what the roots reach. */
  lemma ReachedAddInto(affects: Affects, affects1: Affects, rank: string -> nat, o: string, N: set<string>)
    requires AffectsRanked(affects, rank) && AffectsRanked(affects1, rank)
    requires AffectsWithin(affects, affects1) && EdgesOnlyInto(affects, affects1, o)
    ensures Reached(affects1, rank, N + {o}) == Reached(affects, rank, N + {o})
  {
    forall x | x in Reached(affects1, rank, N + {o})
      ensures x in Reached(affects, rank, N + {o})
    {
      var n :| n in N + {o} && x in Reach(affects1, rank, n);
      ReachAddInto(affects, affects1, rank, o, n);
      ReachRoot(affects, rank, o);
    }
    forall x | x in Reached(affects, rank, N + {o})
      ensures x in Reached(affects1, rank, N + {o})
    {
      var n :| n in N + {o} && x in Reach(affects, rank, n);
      ReachMono(affects, affects1, rank, n);
    }
  }

  /**
   * Invalidating o after the roots N and then adding edges into o: the
   * stale properties are those the roots N and o reach in the new `_affects`.
   */
  lemma StaleAfterInstall(b0: Bindings, b: Bindings, affects: Affects, affects1: Affects, rank: string -> nat,
                          N: set<string>, o: string)
    requires AffectsRanked(affects, rank) && AffectsRanked(affects1, rank)
    requires AffectsWithin(affects, affects1) && EdgesOnlyInto(affects, affects1, o)
    requires b == StaleAt(b0, Reached(affects, rank, N))
    ensures StaleAt(b, Reach(affects, rank, o)) == StaleAt(b0, Reached(affects1, rank, N + {o}))
  {
    StaleAtTwice(b0, Reached(affects, rank, N), Reach(affects, rank, o));
    ReachedAdd(affects, rank, N, o);
    ReachedAddInto(affects, affects1, rank, o, N);
  }

  /**
   * Storing signatures of o only: `_affects`, kept exact, loses no edge and
   * gains only edges into o.
   */
  lemma MatchesGrowth(imps: Imps, affects: Affects, imps1: Imps, affects1: Affects, o: string)
    requires Matches(imps, affects) && Matches(imps1, affects1)
    requires forall n :: n != o ==> EdgeSources(imps1, n) == EdgeSources(imps, n)
    requires EdgeSources(imps, o) <= EdgeSources(imps1, o)
    ensures AffectsWithin(affects, affects1) && EdgesOnlyInto(affects, affects1, o)
  {
    forall d, n | d in affects && n in affects[d]
      ensures d in affects1 && n in affects1[d]
    {
      assert d in EdgeSources(imps1, n);
      assert n in imps1;
    }
    forall d, n | d in affects1 && n in affects1[d] && n != o
      ensures d in affects && n in affects[d]
    {
      assert d in EdgeSources(imps, n);
      assert n in imps;
    }
  }

  // ---------------------------------------------------------------------
  // The cache of built operations

  /** The dependencies other than 'self'. */
  function NonSelf(deps: seq<string>): set<string> {
    set dep | dep in deps && dep != "self"
  }

  /** A signature `_bundle` accepts: a pair with a dependency list, none of whose entries is signature-specific. */
  predicate Buildable(imp: Imp) {
    imp.Pair? && imp.deps.Some? && NoSpecific(imp.deps.value)
  }

  /** No entry of the dependency list names a signature-specific reference (contains '('). */
  predicate NoSpecific(deps: seq<string>) {
    forall dep :: dep in deps ==> '(' !in dep
  }

  /** The table entry `_bundle` makes for imp. */
  predicate Fits(e: Entry, imp: Imp) {
    Buildable(imp) &&
    if imp.deps.value == [] then e == Plain(imp)
    else e.Resolved? && e.imp == imp && e.selfRef == ("self" in imp.deps.value) && e.refs.Keys == NonSelf(imp.deps.value)
  }

  /** tf is operation n built from its current signatures. */
  predicate WellBuilt(n: string, tf: Dispatcher, imps: Imps) {
    n in imps && tf.name == n && tf.table.Keys == imps[n].Keys &&
    forall s :: s in tf.table ==> Fits(tf.table[s], imps[n][s])
  }

  /** refs[dep] is what this[dep] currently is: the built operation, or nothing for a name that is not an operation. */
  predicate RefCurrent(r: Ref, dep: string, b: Bindings) {
    if dep in b then b[dep].Built? && r == Bound(b[dep].tf) else r == Missing
  }

  predicate RefsCurrent(refs: map<string, Ref>, b: Bindings) {
    forall dep :: dep in refs ==> RefCurrent(refs[dep], dep, b)
  }

  predicate TableCurrent(tf: Dispatcher, b: Bindings) {
    forall s :: s in tf.table && tf.table[s].Resolved? ==> RefsCurrent(tf.table[s].refs, b)
  }

  /**
   * No built operation is out of date: each was built from its current
   * signatures and from the current builds of its dependencies.
   */
  predicate CacheSound(imps: Imps, b: Bindings) {
    forall n :: n in b && b[n].Built? ==> WellBuilt(n, b[n].tf, imps) && TableCurrent(b[n].tf, b)
  }

  /** A dependency a built operation resolved is one of its `_affects` sources. */
  lemma ResolvedIsSource(imps: Imps, n: string, tf: Dispatcher, s: string, dep: string)
    requires WellBuilt(n, tf, imps) && s in tf.table && tf.table[s].Resolved? && dep in tf.table[s].refs
    ensures dep in EdgeSources(imps, n)
  {
    var imp := imps[n][s];
    assert dep in imp.deps.value && dep != "self" && '(' !in dep;
    DepNameWhole(dep);
    assert dep in DepNames(EdgeDeps(imp));
  }

  /**
   * Invalidation keeps the cache sound: whatever uses an invalidated
   * operation is invalidated with it, since `_affects` is exact.
   */
  lemma InvalidateKeepsSound(imps: Imps, affects: Affects, b: Bindings, rank: string -> nat, name: string)
    requires Matches(imps, affects) && AffectsRanked(affects, rank) && CacheSound(imps, b)
    ensures CacheSound(Touch(imps, name), StaleAt(b, Reach(affects, rank, name)))
  {
    var R := Reach(affects, rank, name);
    var b1 := StaleAt(b, R);
    var imps1 := Touch(imps, name);
    forall n | n in b1 && b1[n].Built?
      ensures WellBuilt(n, b1[n].tf, imps1) && TableCurrent(b1[n].tf, b1)
    {
      var tf := b1[n].tf;
      assert n !in R && b[n] == b1[n];
      forall s | s in tf.table && tf.table[s].Resolved?
        ensures RefsCurrent(tf.table[s].refs, b1)
      {
        forall dep | dep in tf.table[s].refs
          ensures RefCurrent(tf.table[s].refs[dep], dep, b1)
        {
          ResolvedIsSource(imps, n, tf, s, dep);
          if dep in R {
            ReachClosed(affects, rank, name, dep, n);
          }
        }
      }
    }
  }

  /**
   * The signature loop as `src/core/PocomathInstance.mjs` runs it (a missing
   * dependency list counts as empty): it throws exactly when some signature
   * conflicts, keeps everything stored before, and when it does not throw
   * every given signature is stored.
   */
  lemma StoreOutcome(opImps: map<string, Imp>, affects: Affects, name: string, impls: seq<(string, Imp)>)
    requires DistinctKeys(impls)
    ensures var st := StoreSignatures(opImps, affects, name, impls, false);
            (st.failure.None? <==> forall i :: 0 <= i < |impls| ==> !Conflicts(opImps, impls[i])) &&
            (forall s :: s in opImps ==> s in st.opImps && st.opImps[s] == opImps[s]) &&
            (st.failure.None? ==> forall i :: 0 <= i < |impls| ==> impls[i].0 in st.opImps && st.opImps[impls[i].0] == impls[i].1)
  {
    var st := StoreSignatures(opImps, affects, name, impls, false);
    StoreFailure(opImps, affects, name, impls, false);
    StoreKeepsOld(opImps, affects, name, impls, false);
    if st.failure.None? {
      forall i | 0 <= i < |impls| ensures impls[i].0 in st.opImps && st.opImps[impls[i].0] == impls[i].1 {
        StoreNoRollback(opImps, affects, name, impls, false, i);
      }
    }
  }

  /**
   * After the invalidation, storing the signatures of one install call
   * keeps `_affects` exact, the ranking and the cache sound.
   */
  lemma StoreKeepsValid(imps: Imps, affects: Affects, b: Bindings, name: string,
                        impls: seq<(string, Imp)>, strict: bool, rank: string -> nat)
    requires Matches(imps, affects) && Ranked(imps, rank) && CacheSound(imps, b)
    requires b.Keys == imps.Keys && name in b && b[name] == Stale
    requires forall i, d :: 0 <= i < |impls| && d in DepNames(EdgeDeps(impls[i].1)) ==> rank(name) < rank(d)
    ensures var st := StoreSignatures(imps[name], affects, name, impls, strict);
            var imps1 := imps[name := st.opImps];
            Matches(imps1, st.affects) && Ranked(imps1, rank) && CacheSound(imps1, b) && b.Keys == imps1.Keys
  {
    StoreKeepsMatch(imps, affects, name, impls, strict);
    StoreKeepsRanked(imps, affects, name, impls, strict, rank);
    RestoreKeepsSound(imps, b, name, StoreSignatures(imps[name], affects, name, impls, strict).opImps);
  }

  /**
   * One `_installOp`: invalidating name and then storing its signatures
   * keeps `_affects` exact, the ranking, the cache sound and a property
   * for every operation.
   */
  lemma InstallKeepsValid(imps: Imps, affects: Affects, b: Bindings, name: string,
                          impls: seq<(string, Imp)>, strict: bool, rank: string -> nat)
    requires Matches(imps, affects) && Ranked(imps, rank) && CacheSound(imps, b) && b.Keys == imps.Keys
    requires forall i, d :: 0 <= i < |impls| && d in DepNames(EdgeDeps(impls[i].1)) ==> rank(name) < rank(d)
    ensures AffectsRanked(affects, rank) && UsersInstalled(imps, affects)
    ensures var imps1 := Touch(imps, name);
            var b1 := StaleAt(b, Reach(affects, rank, name));
            var st := StoreSignatures(imps1[name], affects, name, impls, strict);
            var imps2 := imps1[name := st.opImps];
            Matches(imps2, st.affects) && Ranked(imps2, rank) && CacheSound(imps2, b1) && b1.Keys == imps2.Keys
  {
    MatchesRanked(imps, affects, rank);
    InvalidateKeepsSound(imps, affects, b, rank, name);
    TouchKeepsMatch(imps, affects, rank, name);
    ReachInImps(imps, affects, rank, name);
    var b1 := StaleAt(b, Reach(affects, rank, name));
    assert name in Reach(affects, rank, name);
    StoreKeepsValid(Touch(imps, name), affects, b1, name, impls, strict, rank);
  }

  /** Building more operations, and nothing else, keeps a reference current. */
  lemma SettledKeepsRefs(refs: map<string, Ref>, b: Bindings, b1: Bindings)
    requires RefsCurrent(refs, b)
    requires b1.Keys == b.Keys && forall n :: n in b ==> b1[n] == b[n] || (b[n].Stale? && b1[n].Built?)
    ensures RefsCurrent(refs, b1)
  {
    forall dep | dep in refs ensures RefCurrent(refs[dep], dep, b1) {
      assert RefCurrent(refs[dep], dep, b);
    }
  }

  /** Building more operations, and nothing else, keeps the cache sound if the new builds are. */
  lemma SettledKeepsSound(imps: Imps, b: Bindings, b1: Bindings)
    requires CacheSound(imps, b)
    requires b1.Keys == b.Keys && forall n :: n in b ==> b1[n] == b[n] || (b[n].Stale? && b1[n].Built?)
    requires forall n :: n in b1 && b1[n].Built? && b[n].Stale? ==> WellBuilt(n, b1[n].tf, imps) && TableCurrent(b1[n].tf, b1)
    ensures CacheSound(imps, b1)
  {
    forall n | n in b1 && b1[n].Built? ensures WellBuilt(n, b1[n].tf, imps) && TableCurrent(b1[n].tf, b1) {
      if b[n].Built? {
        var tf := b[n].tf;
        forall s | s in tf.table && tf.table[s].Resolved? ensures RefsCurrent(tf.table[s].refs, b1) {
          SettledKeepsRefs(tf.table[s].refs, b, b1);
        }
      }
    }
  }

  /**
   * Storing a freshly built operation keeps the cache sound: nothing built
   * refers to it while it is stale.
   */
  lemma BuildKeepsSound(imps: Imps, b: Bindings, name: string, tf: Dispatcher)
    requires CacheSound(imps, b) && name in b && b[name] == Stale
    requires WellBuilt(name, tf, imps) && TableCurrent(tf, b)
    ensures CacheSound(imps, b[name := Built(tf)])
  {
    var b1 := b[name := Built(tf)];
    forall n | n in b1 && b1[n].Built? ensures WellBuilt(n, b1[n].tf, imps) && TableCurrent(b1[n].tf, b1) {
      var t := b1[n].tf;
      assert TableCurrent(t, b);
      forall s | s in t.table && t.table[s].Resolved? ensures RefsCurrent(t.table[s].refs, b1) {
        forall dep | dep in t.table[s].refs ensures RefCurrent(t.table[s].refs[dep], dep, b1) {
          assert RefCurrent(t.table[s].refs[dep], dep, b);
        }
      }
    }
  }

  /** Replacing the signatures of an operation that is not built leaves the cache sound. */
  lemma RestoreKeepsSound(imps: Imps, b: Bindings, name: string, opImps: map<string, Imp>)
    requires CacheSound(imps, b) && name in b && b[name] == Stale
    ensures CacheSound(imps[name := opImps], b)
  {
  }
}
