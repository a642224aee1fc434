/** A memoised front end over an artifact selection: the first read visits the
    selection once and keeps the resolved artifacts and the failures; in strict mode
    failures make the result a failure instead. Every accessor forces that single
    resolution; `VisitArtifacts` goes to the selection directly. */
module ArtifactCollections {
  import opened Wrappers

  datatype ResolvedArtifact = ResolvedArtifact(id: string, file: string)
  datatype Failure = Failure(message: string)

  /** What the selection reports for one artifact. */
  datatype Outcome = Visited(artifact: ResolvedArtifact) | Broken(failure: Failure)

  /** The backing file collection, returned as is. */
  datatype FileCollection = FileCollection(name: string)

  /** The memo cell: not yet computed, computed, or computed to a failure that every
      later read raises again. */
  datatype ResultState =
    | Unresolved
    | Resolved(artifacts: set<ResolvedArtifact>, failures: set<Failure>)
    | Failed(failures: set<Failure>)

  /** The artifacts the collecting visitor keeps from `outs`. */
  function Successes(outs: seq<Outcome>): (r: set<ResolvedArtifact>) {
    set k | 0 <= k < |outs| && outs[k].Visited? :: outs[k].artifact
  }

  /** The failures the collecting visitor keeps from `outs`. */
  function Failures(outs: seq<Outcome>): (r: set<Failure>) {
    set k | 0 <= k < |outs| && outs[k].Broken? :: outs[k].failure
  }

  lemma SuccessesSnoc(outs: seq<Outcome>, o: Outcome)
    ensures Successes(outs + [o]) == Successes(outs) + (if o.Visited? then {o.artifact} else {})
    ensures Failures(outs + [o]) == Failures(outs) + (if o.Broken? then {o.failure} else {})
  {
    var s := outs + [o];
    assert forall k :: 0 <= k < |outs| ==> s[k] == outs[k];
    assert s[|outs|] == o;
  }

  /** Every outcome is kept, each in exactly one of the two sets, and nothing else is. */
  lemma CollectedExactly(outs: seq<Outcome>)
    ensures forall a :: a in Successes(outs) <==> Visited(a) in outs
    ensures forall f :: f in Failures(outs) <==> Broken(f) in outs
  {
    forall a | Visited(a) in outs
      ensures a in Successes(outs)
    {
      var k :| 0 <= k < |outs| && outs[k] == Visited(a);
    }
    forall f | Broken(f) in outs
      ensures f in Failures(outs)
    {
      var k :| 0 <= k < |outs| && outs[k] == Broken(f);
    }
  }

  /** The memoised computation over the outcomes of one visit. In strict mode the
      failures go to the host's rethrow, which raises exactly when there are any. */
  function Finalized(lenient: bool, outs: seq<Outcome>): (r: ResultState) {
    var fails := Failures(outs);
    if !lenient && fails != {} then Failed(fails) else Resolved(Successes(outs), fails)
  }

  /** A strict collection with a failure never exposes an artifact set. */
  lemma StrictFailureHidesArtifacts(outs: seq<Outcome>, f: Failure)
    requires Broken(f) in outs
    ensures Finalized(false, outs).Failed? && f in Finalized(false, outs).failures
  {
    CollectedExactly(outs);
  }

  /** A lenient collection always resolves, keeping artifacts and failures side by side. */
  lemma LenientAlwaysResolves(outs: seq<Outcome>)
    ensures var r := Finalized(true, outs);
            && r.Resolved?
            && (forall a :: a in r.artifacts <==> Visited(a) in outs)
            && (forall f :: f in r.failures <==> Broken(f) in outs)
  {
    CollectedExactly(outs);
  }

  /** A strict collection resolves exactly when no outcome is a failure, and then it
      holds every visited artifact and no failure. */
  lemma StrictResolvesIffNoFailure(outs: seq<Outcome>)
    ensures Finalized(false, outs).Resolved? <==> forall k :: 0 <= k < |outs| ==> outs[k].Visited?
    ensures Finalized(false, outs).Resolved? ==> Finalized(false, outs).failures == {}
  {
    CollectedExactly(outs);
    if !forall k :: 0 <= k < |outs| ==> outs[k].Visited? {
      var k :| 0 <= k < |outs| && !outs[k].Visited?;
      assert outs[k] == Broken(outs[k].failure);
    }
  }

  /** The collecting visitor: one pass over the outcomes. */
  method Collect(outs: seq<Outcome>) returns (arts: set<ResolvedArtifact>, fails: set<Failure>)
    ensures arts == Successes(outs) && fails == Failures(outs)
  {
    arts, fails := {}, {};
    var i := 0;
    while i < |outs|
      invariant 0 <= i <= |outs|
      invariant arts == Successes(outs[..i]) && fails == Failures(outs[..i])
    {
      assert outs[..i + 1] == outs[..i] + [outs[i]];
      SuccessesSnoc(outs[..i], outs[i]);
      match outs[i] {
        case Visited(a) => arts := arts + {a};
        case Broken(f) => fails := fails + {f};
      }
      i := i + 1;
    }
    assert outs[..i] == outs;
  }

  class ArtifactCollection {
    const files: FileCollection
    const lenient: bool
    /** The selected artifacts: what a visit with the given leniency reports. */
    const selection: bool -> seq<Outcome>
    var result: ResultState
    /** How many times the memoised computation has run. */
    ghost var passes: nat

    ghost predicate Valid()
      reads this
    {
      && passes <= 1
      && (result.Unresolved? <==> passes == 0)
      && (!result.Unresolved? ==> result == Finalized(lenient, selection(lenient)))
    }

    constructor (files: FileCollection, lenient: bool, selection: bool -> seq<Outcome>)
      ensures Valid() && this.files == files && this.lenient == lenient && this.selection == selection
      ensures result == Unresolved && passes == 0
    {
      this.files, this.lenient, this.selection := files, lenient, selection;
      result, passes := Unresolved, 0;
    }

    /** finalizeIfNotAlready: runs the computation the first time only. */
    method EnsureResolved()
      requires Valid()
      modifies this`result, this`passes
      ensures Valid() && result == Finalized(lenient, selection(lenient)) && passes == 1
      ensures !old(result).Unresolved? ==> result == old(result) && passes == old(passes)
    {
      if result.Unresolved? {
        var outs := selection(lenient);
        var arts, fails := Collect(outs);
        result := if !lenient && fails != {} then Failed(fails) else Resolved(arts, fails);
        passes := passes + 1;
      }
    }

    /** getArtifacts: the resolved artifact set, or the stored failure. */
    method GetArtifacts() returns (r: Result<set<ResolvedArtifact>, set<Failure>>)
      requires Valid()
      modifies this`result, this`passes
      ensures Valid() && passes == 1 && result == Finalized(lenient, selection(lenient))
      ensures !old(result).Unresolved? ==> result == old(result)
      ensures r == if result.Failed? then Err(result.failures) else Ok(result.artifacts)
    {
      EnsureResolved();
      r := if result.Failed? then Err(result.failures) else Ok(result.artifacts);
    }

    /** iterator: the resolved artifacts one by one, each once, in some order. */
    method Iterator() returns (r: Result<seq<ResolvedArtifact>, set<Failure>>)
      requires Valid()
      modifies this`result, this`passes
      ensures Valid() && passes == 1 && result == Finalized(lenient, selection(lenient))
      ensures !old(result).Unresolved? ==> result == old(result)
      ensures result.Failed? ==> r == Err(result.failures)
      ensures result.Resolved? ==> r.Ok? && Enumerates(r.value, result.artifacts)
    {
      EnsureResolved();
      if result.Failed? {
        return Err(result.failures);
      }
      var items := Enumerate(result.artifacts);
      r := Ok(items);
    }

    /** getFailures: the collected failures, or the stored failure. */
    method GetFailures() returns (r: Result<set<Failure>, set<Failure>>)
      requires Valid()
      modifies this`result, this`passes
      ensures Valid() && passes == 1 && result == Finalized(lenient, selection(lenient))
      ensures !old(result).Unresolved? ==> result == old(result)
      ensures r == if result.Failed? then Err(result.failures) else Ok(result.failures)
    {
      EnsureResolved();
      r := if result.Failed? then Err(result.failures) else Ok(result.failures);
    }

    /** visitArtifacts: a fresh visit of the selection with this collection's leniency;
        the memo is neither read nor written. */
    method VisitArtifacts() returns (outs: seq<Outcome>)
      ensures outs == selection(lenient)
    {
      outs := selection(lenient);
    }

    method IsLenient() returns (b: bool)
      ensures b == lenient
    {
      b := lenient;
    }

    method GetArtifactFiles() returns (f: FileCollection)
      ensures f == files
    {
      f := files;
    }
  }

  /** `items` lists each element of `s` exactly once. */
  ghost predicate Enumerates<T(!new)>(items: seq<T>, s: set<T>) {
    && (forall i, j :: 0 <= i < j < |items| ==> items[i] != items[j])
    && (forall x :: x in items <==> x in s)
  }

  /** Lists the elements of `s`, each once, in an order the set does not fix. */
  method Enumerate<T(!new)>(s: set<T>) returns (items: seq<T>)
    ensures Enumerates(items, s) && |items| == |s|
  {
    items := [];
    var rest := s;
    while rest != {}
      invariant rest <= s && Enumerates(items, s - rest)
      invariant |items| + |rest| == |s|
      decreases |rest|
    {
      var x :| x in rest;
      items := items + [x];
      rest := rest - {x};
    }
  }
}
