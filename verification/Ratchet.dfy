/**
 * The compatibility ratchet: a baseline records which public symbols are
 * missing, unexpected, matched or mismatched, and a later candidate may only
 * improve on it.
 */
module Ratchet {
  import opened Sequences
  import opened SymbolReport
  import opened Wrappers

  datatype Mismatch = Mismatch(expected: Abi, actual: Abi)

  /** A comparison of the reference and a candidate; also what a baseline records of it. */
  datatype State = State(
    expected: map<string, Abi>,
    missing: set<string>,
    unexpected: set<string>,
    matched: map<string, Abi>,
    mismatched: map<string, Mismatch>)

  function Abis(manifest: Manifest): map<string, Abi> {
    map name | name in manifest :: manifest[name].abi
  }

  /** The comparison by its meaning: who lacks a name, and whether the two records agree. */
  ghost predicate Compares(state: State, reference: Manifest, candidate: Manifest) {
    && state.expected == Abis(reference)
    && (forall name :: name in state.missing <==> name in reference && name !in candidate)
    && (forall name :: name in state.unexpected <==> name in candidate && name !in reference)
    && (forall name :: name in state.matched <==>
          name in reference && name in candidate && reference[name].abi == candidate[name].abi)
    && (forall name :: name in state.mismatched <==>
          name in reference && name in candidate && reference[name].abi != candidate[name].abi)
    && (forall name :: name in state.matched ==> state.matched[name] == reference[name].abi)
    && (forall name :: name in state.mismatched ==>
          state.mismatched[name] == Mismatch(reference[name].abi, candidate[name].abi))
  }

  /** The state of two manifests; an empty manifest is an error. */
  method CurrentState(reference: Manifest, candidate: Manifest) returns (r: Result<State>)
    ensures r.Ok? <==> reference != map[] && candidate != map[]
    ensures r.Ok? ==> Compares(r.value, reference, candidate)
  {
    if |reference| == 0 || |candidate| == 0 {
      return Err("symbol manifest was empty");
    }
    var expected := Abis(reference);
    var matched: map<string, Abi> := map[];
    var mismatched: map<string, Mismatch> := map[];
    ghost var common := reference.Keys * candidate.Keys;
    var rest := reference.Keys * candidate.Keys;
    while rest != {}
      invariant rest <= common
      invariant matched.Keys + mismatched.Keys == common - rest
      invariant forall name :: name in matched ==>
                  reference[name].abi == candidate[name].abi == matched[name]
      invariant forall name :: name in mismatched ==>
                  && reference[name].abi != candidate[name].abi
                  && mismatched[name] == Mismatch(reference[name].abi, candidate[name].abi)
      decreases rest
    {
      var name :| name in rest;
      var actual := candidate[name].abi;
      if expected[name] == actual {
        matched := matched[name := expected[name]];
      } else {
        mismatched := mismatched[name := Mismatch(expected[name], actual)];
      }
      rest := rest - {name};
    }
    r := Ok(State(expected, reference.Keys - candidate.Keys, candidate.Keys - reference.Keys, matched, mismatched));
  }

  // ----- The check against a baseline

  datatype Violations = Violations(
    newMissing: set<string>,
    newUnexpected: set<string>,
    newMismatches: set<string>,
    regressed: set<string>)

  function Violated(state: State, baseline: State): Violations {
    Violations(
      state.missing - baseline.missing,
      state.unexpected - baseline.unexpected,
      state.mismatched.Keys - baseline.mismatched.Keys,
      set name | name in baseline.matched && !(name in state.matched && state.matched[name] == baseline.matched[name]))
  }

  /** The check against a baseline: an error when the reference has changed. */
  function Check(state: State, baseline: State): Result<Violations> {
    if state.expected != baseline.expected then
      Err("the musl oracle manifest changed; regenerate and review the baseline explicitly")
    else Ok(Violated(state, baseline))
  }

  predicate Passes(state: State, baseline: State) {
    Check(state, baseline) == Ok(Violations({}, {}, {}, {}))
  }

  /** A state some comparison produces. */
  ghost predicate Real(state: State) {
    exists reference: Manifest, candidate: Manifest :: Compares(state, reference, candidate)
  }

  /** Every expected name is missing, matched or mismatched, and only one of them. */
  lemma StateIsPartition(state: State)
    requires Real(state)
    ensures forall name :: name in state.expected <==>
              name in state.missing || name in state.matched || name in state.mismatched
    ensures state.missing !! state.matched.Keys !! state.mismatched.Keys !! state.unexpected
    ensures forall name :: name in state.matched ==>
            name in state.expected && state.matched[name] == state.expected[name]
  {
    var reference: Manifest, candidate: Manifest :| Compares(state, reference, candidate);
  }

  /** A match regresses only by going missing or by a new mismatch: the fourth list is implied. */
  lemma RegressionsAreImplied(state: State, baseline: State)
    requires Real(state) && Real(baseline) && state.expected == baseline.expected
    ensures var v := Violated(state, baseline);
            v.regressed == baseline.matched.Keys * (v.newMissing + v.newMismatches)
  {
    hide Real;
    StateIsPartition(state);
    StateIsPartition(baseline);
    var v := Violated(state, baseline);
    forall name
      ensures name in v.regressed <==> name in baseline.matched && name in v.newMissing + v.newMismatches
    {
      if name in baseline.matched {
        assert name in state.expected;
        assert baseline.matched[name] == state.expected[name];
      }
    }
  }

  /**
   * The check's four lists, in the manifests of the reference, of the candidate
   * that was recorded and of the candidate now: names it lost, names it gained
   * that the reference lacks, names whose record it got wrong anew, and names it
   * had right and has no more.
   */
  lemma ViolationsAreFound(state: State, baseline: State, reference: Manifest, now: Manifest, before: Manifest)
    requires Compares(state, reference, now) && Compares(baseline, reference, before)
    ensures var v := Violated(state, baseline);
            && (forall name :: name in v.newMissing <==> name in reference && name in before && name !in now)
            && (forall name :: name in v.newUnexpected <==> name in now && name !in reference && name !in before)
            && (forall name :: name in v.newMismatches <==>
                  && name in reference && name in now && reference[name].abi != now[name].abi
                  && (name !in before || before[name].abi == reference[name].abi))
            && (forall name :: name in v.regressed <==>
                  && name in reference && name in before && before[name].abi == reference[name].abi
                  && (name !in now || now[name].abi != reference[name].abi))
  {
  }

  /** Both references have the same names, with the same records. */
  ghost predicate SameReference(a: Manifest, b: Manifest) {
    && (forall name :: name in a <==> name in b)
    && forall name :: name in a && name in b ==> a[name].abi == b[name].abi
  }

  lemma SameAbis(a: Manifest, b: Manifest)
    ensures Abis(a) == Abis(b) <==> SameReference(a, b)
  {
    if Abis(a) == Abis(b) {
      assert Abis(a).Keys == a.Keys && Abis(b).Keys == b.Keys;
      assert forall name :: name in a && name in b ==> Abis(a)[name] == Abis(b)[name];
    }
    if SameReference(a, b) {
      assert Abis(a).Keys == Abis(b).Keys;
    }
  }

  /** The four lists of `v`, by what the reference, the candidate now and the recorded candidate hold. */
  ghost predicate Finds(v: Violations, reference: Manifest, now: Manifest, before: Manifest) {
    && (forall name :: name in v.newMissing <==> name in reference && name in before && name !in now)
    && (forall name :: name in v.newUnexpected <==> name in now && name !in reference && name !in before)
    && (forall name :: name in v.newMismatches <==>
          && name in reference && name in now && reference[name].abi != now[name].abi
          && (name !in before || before[name].abi == reference[name].abi))
    && (forall name :: name in v.regressed <==>
          && name in reference && name in before && before[name].abi == reference[name].abi
          && (name !in now || now[name].abi != reference[name].abi))
  }

  /**
   * The check as a whole, in the manifests of today's reference and candidate
   * and of those that were recorded: an error exactly when the references
   * differ, and else the four lists.
   */
  lemma CheckExactly(state: State, baseline: State, reference: Manifest, now: Manifest,
                     recorded: Manifest, before: Manifest)
    requires Compares(state, reference, now) && Compares(baseline, recorded, before)
    ensures Check(state, baseline).Err? <==> !SameReference(reference, recorded)
    ensures Check(state, baseline).Ok? ==> Finds(Check(state, baseline).value, reference, now, before)
  {
    SameAbis(reference, recorded);
    assert Check(state, baseline).Ok? <==> SameReference(reference, recorded);
    if SameReference(reference, recorded) {
      ViolationsAreSame(state, baseline, reference, now, recorded, before);
    }
    hide Compares, SameReference, Finds, Violated, Abis;
  }

  lemma ViolationsAreSame(state: State, baseline: State, reference: Manifest, now: Manifest,
                          recorded: Manifest, before: Manifest)
    requires Compares(state, reference, now) && Compares(baseline, recorded, before)
    requires SameReference(reference, recorded)
    ensures Finds(Violated(state, baseline), reference, now, before)
  {
    hide Abis;
  }

  /** The check passes exactly when the reference is the same and nothing of the four kinds is found. */
  lemma PassesExactly(state: State, baseline: State, reference: Manifest, now: Manifest,
                      recorded: Manifest, before: Manifest)
    requires Compares(state, reference, now) && Compares(baseline, recorded, before)
    ensures Passes(state, baseline) <==>
            && SameReference(reference, recorded)
            && (forall name :: name in reference && name in before ==> name in now)
            && (forall name :: name in now && name !in reference ==> name in before)
            && (forall name :: name in reference && name in now && reference[name].abi != now[name].abi ==>
                  name in before && before[name].abi != reference[name].abi)
  {
    CheckExactly(state, baseline, reference, now, recorded, before);
    hide Compares, SameReference, Check, Finds;
    if Check(state, baseline).Ok? {
      FindsNothing(Check(state, baseline).value, reference, now, before);
    }
  }

  lemma FindsNothing(v: Violations, reference: Manifest, now: Manifest, before: Manifest)
    requires Finds(v, reference, now, before)
    ensures v == Violations({}, {}, {}, {}) <==>
            && (forall name :: name in reference && name in before ==> name in now)
            && (forall name :: name in now && name !in reference ==> name in before)
            && (forall name :: name in reference && name in now && reference[name].abi != now[name].abi ==>
                  name in before && before[name].abi != reference[name].abi)
  {
    NoneListed(v.newMissing);
    NoneListed(v.newUnexpected);
    NoneListed(v.newMismatches);
    NoneListed(v.regressed);
  }

  lemma NoneListed(names: set<string>)
    ensures names == {} <==> forall name :: name !in names
  {
  }

  /** `later` has kept every match and lost only faults. */
  predicate Improves(later: State, earlier: State) {
    && later.missing <= earlier.missing
    && later.unexpected <= earlier.unexpected
    && later.mismatched.Keys <= earlier.mismatched.Keys
    && (forall name :: name in earlier.matched ==>
        name in later.matched && later.matched[name] == earlier.matched[name])
    && (forall name :: name in earlier.missing && name !in later.missing ==> name in later.matched)
  }

  lemma NothingRegressed(state: State, baseline: State)
    ensures Violated(state, baseline).regressed == {} <==>
            forall name :: name in baseline.matched ==>
                name in state.matched && state.matched[name] == baseline.matched[name]
  {
    var regressed := Violated(state, baseline).regressed;
    if regressed == {} {
      forall name | name in baseline.matched
        ensures name in state.matched && state.matched[name] == baseline.matched[name]
      {
        assert name !in regressed;
      }
    }
  }

  /** Passing is improving on the same reference. */
  lemma PassingIsImproving(state: State, baseline: State)
    requires Real(state) && Real(baseline)
    ensures Passes(state, baseline) <==> state.expected == baseline.expected && Improves(state, baseline)
  {
    hide Real;
    StateIsPartition(state);
    StateIsPartition(baseline);
    NoneOutside(state.missing, baseline.missing);
    NoneOutside(state.unexpected, baseline.unexpected);
    NoneOutside(state.mismatched.Keys, baseline.mismatched.Keys);
    NothingRegressed(state, baseline);
  }

  // ----- Histories

  /** States each of which passed against its predecessor and was then recorded. */
  ghost predicate History(states: seq<State>) {
    && (forall i :: 0 <= i < |states| ==> Real(states[i]))
    && (forall i :: 0 < i < |states| ==> Passes(states[i], states[i - 1]))
  }

  /** The ratchet never turns back: every state improves on, and passes against, every earlier baseline. */
  lemma {:induction false} RatchetIsMonotone(states: seq<State>, i: nat, j: nat)
    requires History(states) && i <= j < |states|
    ensures states[j].expected == states[i].expected && Improves(states[j], states[i])
    ensures Passes(states[j], states[i])
    decreases j
  {
    hide Passes, Real;
    if i < j {
      RatchetIsMonotone(states, i, j - 1);
      PassingIsImproving(states[j], states[j - 1]);
      ImprovingIsTransitive(states[j], states[j - 1], states[i]);
    } else {
      StateImprovesOnItself(states[i]);
    }
    PassingIsImproving(states[j], states[i]);
  }

  lemma StateImprovesOnItself(state: State)
    ensures Improves(state, state)
  {
  }

  lemma ImprovingIsTransitive(late: State, middle: State, early: State)
    requires Improves(late, middle) && Improves(middle, early)
    ensures Improves(late, early)
  {
  }

  /** Passing against the latest baseline of a history is passing against all of them. */
  lemma LatestBaselineSuffices(states: seq<State>, state: State, i: nat)
    requires History(states) && i < |states| && Real(state)
    requires Passes(state, states[|states| - 1])
    ensures Passes(state, states[i])
  {
    hide Passes, Real;
    var longer := states + [state];
    assert forall k :: 0 < k < |longer| ==> Passes(longer[k], longer[k - 1]);
    RatchetIsMonotone(longer, i, |states|);
  }

  // ----- The symbol report and the ratchet

  function Names(symbols: set<Symbol>): set<string> {
    set symbol | symbol in symbols :: symbol.name
  }

  predicate Differ(a: Symbol, b: Symbol, name: string) {
    a.name == b.name == name && a.entry.abi != b.entry.abi
  }

  /** The report's own comparison of two sets of records. */
  method Report(reference: set<Symbol>, candidate: set<Symbol>)
    returns (missing: set<string>, unexpected: set<string>, mismatches: set<string>)
    requires Consistent(reference) && Consistent(candidate)
    ensures missing == Names(reference) - Names(candidate)
    ensures unexpected == Names(candidate) - Names(reference)
    ensures forall name :: name in mismatches <==>
              exists a, b :: Differ(a, b, name) && a in reference && b in candidate
  {
    missing, unexpected := Names(reference) - Names(candidate), Names(candidate) - Names(reference);
    mismatches := {};
    ghost var common := Names(reference) * Names(candidate);
    var rest := Names(reference) * Names(candidate);
    while rest != {}
      invariant rest <= common
      invariant forall name :: name in mismatches <==>
                  name in common - rest && exists a, b :: Differ(a, b, name) && a in reference && b in candidate
      decreases rest
    {
      var name :| name in rest;
      var expected :| expected in reference && expected.name == name;
      var actual :| actual in candidate && actual.name == name;
      if expected.entry.abi != actual.entry.abi {
        assert Differ(expected, actual, name);
        mismatches := mismatches + {name};
      }
      rest := rest - {name};
    }
  }

  lemma NamesAreRead(rows: seq<Symbol>)
    requires Consistent(Elements(rows))
    ensures Names(Elements(rows)) == Read(rows).Keys
  {
    hide Consistent, Elements, Read;
    forall name
      ensures name in Names(Elements(rows)) <==> name in Read(rows)
    {
      if name in Names(Elements(rows)) {
        var symbol :| symbol in Elements(rows) && symbol.name == name;
        ReadBack(rows, symbol);
      }
      if name in Read(rows) {
        ReadBack(rows, Symbol(name, Read(rows)[name]));
      }
    }
  }

  /** The report finds nothing exactly when the ratchet's state, read back from the manifests, is clean. */
  lemma ReportAgreesWithState(reference: seq<Symbol>, candidate: seq<Symbol>, state: State)
    requires Consistent(Elements(reference)) && Consistent(Elements(candidate))
    requires Compares(state, Read(reference), Read(candidate))
    ensures state.missing == Names(Elements(reference)) - Names(Elements(candidate))
    ensures state.unexpected == Names(Elements(candidate)) - Names(Elements(reference))
    ensures forall name :: name in state.mismatched <==>
              exists a, b :: Differ(a, b, name) && a in Elements(reference) && b in Elements(candidate)
  {
    hide Consistent, Elements, Read;
    NamesAreRead(reference);
    NamesAreRead(candidate);
    forall name
      ensures name in state.mismatched <==>
              exists a, b :: Differ(a, b, name) && a in Elements(reference) && b in Elements(candidate)
    {
      if name in state.mismatched {
        var a, b := Symbol(name, Read(reference)[name]), Symbol(name, Read(candidate)[name]);
        ReadBack(reference, a);
        ReadBack(candidate, b);
        assert Differ(a, b, name);
      }
      if a, b :| Differ(a, b, name) && a in Elements(reference) && b in Elements(candidate) {
        ReadBack(reference, a);
        ReadBack(candidate, b);
      }
    }
  }
}
