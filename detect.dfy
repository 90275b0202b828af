/**
 * The entry points of src/js/detect.js: `traverseAST`, which walks the tree and fills a local
 * dictionary in place, and `withFeatures` / `withAllFeatures`, which parse the program, run the
 * traversal and catch any exception into an `error` outcome.
 */
module Detect {
  import opened Wrappers
  import opened Tree
  import opened Aggregation

  /** The full catalog `./features/all.js`; which detectors it holds is not part of this model. */
  const AllFeatures: seq<Detector>

  /** The record `withFeatures` returns: `{type: 'success', features}` or `{type: 'error', errorMsg}`. */
  datatype Outcome = Success(features: FeatureMap) | Error(errorMsg: Exception)

  /** The parser `esprima.parse(program, esprimaOptions)`: a tree, or the exception it throws. */
  type Parser = string -> Result<Node, Exception>

  /**
   * The `enter(node, parent)` callback of `traverseAST`: `features.forEach` calls each detector
   * at the visit, in catalog order, and stores what it reports in `foundFeatures`, creating a
   * missing key's list first. `Err(e)` stands for the exception `e` escaping the callback.
   * `calls` records the calls made, in order.
   */
  method Enter(v: Visit, features: seq<Detector>, foundFeatures: FeatureMap)
    returns (r: Result<FeatureMap, Exception>, ghost calls: seq<Call>)
    ensures r == Run(features, foundFeatures, CallsAt(v, |features|))
    ensures calls <= CallsAt(v, |features|)
    ensures r.Ok? ==> calls == CallsAt(v, |features|)
    ensures r.Err? ==> calls != [] && calls[|calls| - 1].detector < |features|
    ensures r.Err? ==> Answer(features, calls[|calls| - 1]) == Throws(r.error)
    ensures forall j :: 0 <= j < |calls| - 1 ==>
      calls[j].detector < |features| && !Answer(features, calls[j]).Throws?
    ensures r.Ok? ==> NoThrow(features, calls)
  {
    var n := |features|;
    ghost var here := CallsAt(v, n);
    var found := foundFeatures;
    calls := [];
    var i := 0;
    while i < n
      invariant 0 <= i <= n
      invariant calls == here[..i]
      invariant forall j :: 0 <= j < i ==> !features[j](v.node, v.parent).Throws?
      invariant Run(features, foundFeatures, here) == Run(features, found, here[i..])
    {
      var foundFeature := features[i](v.node, v.parent);
      calls := calls + [Call(v.node, v.parent, i)];
      assert here[i..][0] == Call(v.node, v.parent, i);
      assert here[i..][1..] == here[i + 1..];
      assert here[..i + 1] == here[..i] + [here[i]];
      match foundFeature {
        case Absent =>
        case Present(o) =>
          ghost var before := found;
          if o.featureType !in found {
            found := found[o.featureType := []];
          }
          found := found[o.featureType := found[o.featureType] + [o]];
          assert found == Add(before, o);
        case Throws(e) =>
          r := Err(e);
          return;
      }
      i := i + 1;
    }
    assert here[..n] == here;
    r := Ok(found);
  }

  /**
   * `traverseAST(ast, features)`. The loop is the walk: a worklist whose first entry is entered
   * next, with the entered node's children pushed in front of the rest. `Err(e)` stands for the
   * exception `e` escaping the traversal. `calls` records every `feature.func(node, parent)`
   * call in the order it is made.
   */
  method TraverseAST(ast: Node, features: seq<Detector>) returns (r: Result<FeatureMap, Exception>, ghost calls: seq<Call>)
    ensures r == Traverse(ast, features)
    ensures calls <= AllCalls(ast, features)
    ensures r.Ok? ==> calls == AllCalls(ast, features)
    ensures r.Err? ==> calls != [] && calls[|calls| - 1].detector < |features|
    ensures r.Err? ==> Answer(features, calls[|calls| - 1]) == Throws(r.error)
    ensures forall j :: 0 <= j < |calls| - 1 ==>
      calls[j].detector < |features| && !Answer(features, calls[j]).Throws?
  {
    var n := |features|;
    var foundFeatures: FeatureMap := map[];
    var work := [Visit(ast, None)];
    ghost var done: seq<Visit> := [];
    calls := [];
    assert work[1..] == [];
    assert Pending(work) == PreOrder(ast);
    while work != []
      invariant done + Pending(work) == PreOrder(ast)
      invariant calls == Calls(done, n)
      invariant NoThrow(features, calls)
      invariant Traverse(ast, features) == Run(features, foundFeatures, Calls(Pending(work), n))
      decreases |Pending(work)|
    {
      var v := work[0];
      var next := ChildVisits(v.node) + work[1..];
      WalkStep(done, work, n);
      RunAppend(features, foundFeatures, CallsAt(v, n), Calls(Pending(next), n));
      var entered;
      ghost var made;
      entered, made := Enter(v, features, foundFeatures);
      match entered {
        case Err(e) =>
          r := Err(e);
          ThrowLast(features, calls, made);
          CallsAppend(done, Pending(work), n);
          PrefixExtends(calls, made, CallsAt(v, n), Calls(Pending(next), n));
          calls := calls + made;
          return;
        case Ok(found) =>
          foundFeatures := found;
      }
      NoThrowAppend(features, calls, made);
      calls := calls + made;
      done := done + [v];
      work := next;
    }
    assert done == PreOrder(ast);
    r := Ok(foundFeatures);
  }

  /**
   * One step of the walk: entering the first worklist entry `v` and replacing it by its
   * children's entries moves `v` from what is owed to what is done, and its calls with it.
   */
  lemma WalkStep(done: seq<Visit>, work: seq<Visit>, n: nat)
    requires work != []
    ensures var next := ChildVisits(work[0].node) + work[1..];
      && (done + [work[0]]) + Pending(next) == done + Pending(work)
      && Calls(Pending(work), n) == CallsAt(work[0], n) + Calls(Pending(next), n)
      && Calls(done + [work[0]], n) == Calls(done, n) + CallsAt(work[0], n)
  {
    var v := work[0];
    var next := ChildVisits(v.node) + work[1..];
    PendingStep(work);
    CallsAppend([v], Pending(next), n);
    assert Calls([v], n) == CallsAt(v, n);
    CallsAppend(done, [v], n);
  }

  /** A prefix of the current stretch of calls, appended to the calls made so far, is a prefix of all calls. */
  lemma PrefixExtends(past: seq<Call>, made: seq<Call>, here: seq<Call>, tail: seq<Call>)
    requires made <= here
    ensures past + made <= past + (here + tail)
  {
  }

  /** A log that throws nowhere, followed by one whose only throw is its last call. */
  lemma ThrowLast(features: seq<Detector>, past: seq<Call>, made: seq<Call>)
    requires NoThrow(features, past) && made != []
    requires forall j :: 0 <= j < |made| - 1 ==>
      made[j].detector < |features| && !Answer(features, made[j]).Throws?
    ensures forall j :: 0 <= j < |past + made| - 1 ==>
      (past + made)[j].detector < |features| && !Answer(features, (past + made)[j]).Throws?
  {
    forall j | 0 <= j < |past + made| - 1
      ensures (past + made)[j].detector < |features| && !Answer(features, (past + made)[j]).Throws?
    {
      if j < |past| { assert (past + made)[j] == past[j]; } else { assert (past + made)[j] == made[j - |past|]; }
    }
  }

  /** The outcome of `withFeatures` for a parse result and a catalog. */
  function Detection(parsed: Result<Node, Exception>, features: seq<Detector>): Outcome
  {
    match parsed
    case Err(e) => Error(e)
    case Ok(ast) =>
      match Traverse(ast, features)
      case Ok(found) => Success(found)
      case Err(e) => Error(e)
  }

  /**
   * `withFeatures(program, features)`: parse, traverse, and turn any exception of either step
   * into an `error` outcome.
   */
  method WithFeatures(parse: Parser, program: string, features: seq<Detector>) returns (o: Outcome)
    ensures o == Detection(parse(program), features)
  {
    var parsed := parse(program);
    match parsed {
      case Err(e) =>
        o := Error(e);
      case Ok(ast) =>
        var foundFeatures;
        ghost var calls;
        foundFeatures, calls := TraverseAST(ast, features);
        match foundFeatures {
          case Ok(found) => o := Success(found);
          case Err(e) => o := Error(e);
        }
    }
  }

  /** `withAllFeatures(program)`: `withFeatures` over the full catalog. */
  method WithAllFeatures(parse: Parser, program: string) returns (o: Outcome)
    ensures o == Detection(parse(program), AllFeatures)
  {
    o := WithFeatures(parse, program, AllFeatures);
  }

  /**
   * The outcome's two variants. A parse error is returned unchanged as `error`; after a
   * successful parse, the first exception a detector throws is returned unchanged as `error`;
   * otherwise the outcome is `success` with the occurrences grouped by their own type.
   */
  lemma DetectionCharacterized(parsed: Result<Node, Exception>, features: seq<Detector>)
    ensures parsed.Err? ==> Detection(parsed, features) == Error(parsed.error)
    ensures parsed.Ok? && FirstFault(features, AllCalls(parsed.value, features)).Some? ==>
      Detection(parsed, features) == Error(FirstFault(features, AllCalls(parsed.value, features)).value)
    ensures parsed.Ok? && FirstFault(features, AllCalls(parsed.value, features)).None? ==>
      Detection(parsed, features) == Success(ByType(Found(features, AllCalls(parsed.value, features))))
    ensures Detection(parsed, features).Success? <==>
      parsed.Ok? && FirstFault(features, AllCalls(parsed.value, features)).None?
  {
    if parsed.Ok? {
      TraverseCharacterized(parsed.value, features);
    }
  }
}
