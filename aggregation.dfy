/**
 * The pure specification of `traverseAST` (src/js/detect.js:51-72): the detectors are
 * called, in catalog order, at every visit of the pre-order walk; the calls' answers are
 * folded, in call order, into a dictionary from feature type to the list of occurrences of
 * that type; the first detector that throws ends the fold with its exception.
 */
module Aggregation {
  import opened Wrappers
  import opened Tree

  /** A thrown JavaScript value: a parser error or a detector fault. */
  datatype Exception = Exception(message: string)

  /** What a detector reports when it recognises its feature: the `type` key and where. */
  datatype Occurrence = Occurrence(featureType: string, location: Location)

  /** The three ways a call `feature.func(node, parent)` can end. */
  datatype Verdict =
    | Absent                            // the detector returned `undefined`
    | Present(occurrence: Occurrence)   // the detector returned a found feature
    | Throws(exception: Exception)      // the detector threw

  /** A feature detector: a pure function of the entered node and its parent. */
  type Detector = (Node, Option<Node>) -> Verdict

  /** The `foundFeatures` dictionary. */
  type FeatureMap = map<string, seq<Occurrence>>

  /** One call of detector number `detector` of the catalog at `(node, parent)`. */
  datatype Call = Call(node: Node, parent: Option<Node>, detector: nat)

  /** The calls made at one visit: detectors 0 .. count-1, in catalog order. */
  function CallsAt(v: Visit, count: nat): seq<Call>
  {
    seq(count, (i: nat) => Call(v.node, v.parent, i))
  }

  /** The calls made along a sequence of visits. */
  function Calls(vs: seq<Visit>, count: nat): (cs: seq<Call>)
    ensures |cs| == |vs| * count
    ensures forall c :: c in cs ==> c.detector < count
  {
    if vs == [] then [] else CallsAt(vs[0], count) + Calls(vs[1..], count)
  }

  /** What a call answers. */
  function Answer(features: seq<Detector>, c: Call): Verdict
    requires c.detector < |features|
  {
    features[c.detector](c.node, c.parent)
  }

  /** Every call names a detector of the catalog. */
  ghost predicate InCatalog(features: seq<Detector>, cs: seq<Call>)
  {
    forall c :: c in cs ==> c.detector < |features|
  }

  /** No call of `cs` throws. */
  ghost predicate NoThrow(features: seq<Detector>, cs: seq<Call>)
  {
    forall j :: 0 <= j < |cs| ==> cs[j].detector < |features| && !Answer(features, cs[j]).Throws?
  }

  /** Joining two stretches of calls none of which throws. */
  lemma NoThrowAppend(features: seq<Detector>, a: seq<Call>, b: seq<Call>)
    requires NoThrow(features, a) && NoThrow(features, b)
    ensures NoThrow(features, a + b)
  {
    forall j | 0 <= j < |a + b|
      ensures (a + b)[j].detector < |features| && !Answer(features, (a + b)[j]).Throws?
    {
      if j < |a| { assert (a + b)[j] == a[j]; } else { assert (a + b)[j] == b[j - |a|]; }
    }
  }

  /** The list stored under `key`, or the empty list when there is none yet. */
  function Existing(found: FeatureMap, key: string): seq<Occurrence>
  {
    if key in found then found[key] else []
  }

  /** Storing one found occurrence under its own `type`. */
  function Add(found: FeatureMap, o: Occurrence): FeatureMap
  {
    found[o.featureType := Existing(found, o.featureType) + [o]]
  }

  /** The fold of `traverseAST`: the answers of `cs`, in order, applied to `found`. */
  function Run(features: seq<Detector>, found: FeatureMap, cs: seq<Call>): Result<FeatureMap, Exception>
    requires InCatalog(features, cs)
    decreases cs
  {
    if cs == [] then Ok(found)
    else
      match Answer(features, cs[0])
      case Absent => Run(features, found, cs[1..])
      case Present(o) => Run(features, Add(found, o), cs[1..])
      case Throws(e) => Err(e)
  }

  /** Every call the walk of `ast` makes, in order. */
  function AllCalls(ast: Node, features: seq<Detector>): seq<Call>
  {
    Calls(PreOrder(ast), |features|)
  }

  /** `traverseAST(ast, features)` as a value. */
  function Traverse(ast: Node, features: seq<Detector>): Result<FeatureMap, Exception>
  {
    Run(features, map[], AllCalls(ast, features))
  }

  // ----- Reference definitions -----

  /** The occurrences the calls report, in call order. */
  function Found(features: seq<Detector>, cs: seq<Call>): seq<Occurrence>
    requires InCatalog(features, cs)
  {
    if cs == [] then []
    else
      match Answer(features, cs[0])
      case Present(o) => [o] + Found(features, cs[1..])
      case _ => Found(features, cs[1..])
  }

  /** The exception of the first call that throws, if any. */
  function FirstFault(features: seq<Detector>, cs: seq<Call>): Option<Exception>
    requires InCatalog(features, cs)
  {
    if cs == [] then None
    else
      match Answer(features, cs[0])
      case Throws(e) => Some(e)
      case _ => FirstFault(features, cs[1..])
  }

  /** Store every occurrence of `occs`, first to last. */
  function Aggregate(found: FeatureMap, occs: seq<Occurrence>): FeatureMap
    decreases occs
  {
    if occs == [] then found else Aggregate(Add(found, occs[0]), occs[1..])
  }

  /** The occurrences of `occs` whose type is `key`, in their order in `occs`. */
  function Filter(occs: seq<Occurrence>, key: string): seq<Occurrence>
  {
    if occs == [] then []
    else if occs[0].featureType == key then [occs[0]] + Filter(occs[1..], key)
    else Filter(occs[1..], key)
  }

  /** The types that occur in `occs`. */
  function TypesOf(occs: seq<Occurrence>): set<string>
  {
    set o | o in occs :: o.featureType
  }

  /** Group `occs` by type, keeping their relative order. */
  function ByType(occs: seq<Occurrence>): FeatureMap
  {
    map k | k in TypesOf(occs) :: Filter(occs, k)
  }

  /** The number of calls whose answer is an occurrence of type `key`. */
  function MatchCount(features: seq<Detector>, cs: seq<Call>, key: string): nat
    requires InCatalog(features, cs)
  {
    if cs == [] then 0
    else
      var here := if Answer(features, cs[0]).Present? && Answer(features, cs[0]).occurrence.featureType == key
        then 1 else 0;
      here + MatchCount(features, cs[1..], key)
  }

  // ----- The calls -----

  /** The calls along two stretches of the walk are the calls of the first, then of the second. */
  lemma {:induction false} CallsAppend(a: seq<Visit>, b: seq<Visit>, count: nat)
    ensures Calls(a + b, count) == Calls(a, count) + Calls(b, count)
  {
    if a == [] {
      assert a + b == b;
    } else {
      assert (a + b)[0] == a[0];
      assert (a + b)[1..] == a[1..] + b;
      CallsAppend(a[1..], b, count);
    }
  }

  /**
   * Each detector is called exactly once per visit, with that visit's node and parent: the
   * call at position `k * count + i` is detector `i` at visit `k`, and there are no other calls.
   */
  lemma {:induction false} CallsIndex(vs: seq<Visit>, count: nat, k: nat, i: nat)
    requires k < |vs| && i < count
    ensures k * count + i < |Calls(vs, count)|
    ensures Calls(vs, count)[k * count + i] == Call(vs[k].node, vs[k].parent, i)
  {
    var cs := Calls(vs, count);
    assert cs == CallsAt(vs[0], count) + Calls(vs[1..], count);
    if k == 0 {
      assert cs[i] == CallsAt(vs[0], count)[i];
    } else {
      CallsIndex(vs[1..], count, k - 1, i);
      assert (k - 1) * count + i == k * count + i - count;
      assert vs[1..][k - 1] == vs[k];
    }
  }

  // ----- The fold -----

  /** Folding two stretches of calls is folding the first, then the second from its result. */
  lemma {:induction false} RunAppend(features: seq<Detector>, found: FeatureMap, a: seq<Call>, b: seq<Call>)
    requires InCatalog(features, a) && InCatalog(features, b)
    ensures InCatalog(features, a + b)
    ensures Run(features, found, a + b) ==
      match Run(features, found, a)
      case Ok(m) => Run(features, m, b)
      case Err(e) => Err(e)
    decreases a
  {
    if a != [] {
      assert (a + b)[0] == a[0];
      assert (a + b)[1..] == a[1..] + b;
      match Answer(features, a[0])
      case Absent => RunAppend(features, found, a[1..], b);
      case Present(o) => RunAppend(features, Add(found, o), a[1..], b);
      case Throws(e) =>
    } else {
      assert a + b == b;
    }
  }

  /** Calls that all answer `undefined` leave the dictionary as it was. */
  lemma {:induction false} RunIgnoresAbsent(features: seq<Detector>, found: FeatureMap, cs: seq<Call>)
    requires InCatalog(features, cs)
    requires forall c :: c in cs ==> Answer(features, c) == Absent
    ensures Run(features, found, cs) == Ok(found)
    decreases cs
  {
    if cs != [] {
      assert cs[0] in cs;
      RunIgnoresAbsent(features, found, cs[1..]);
    }
  }

  /**
   * The fold ends with the first exception thrown when there is one, and otherwise with every
   * reported occurrence stored, in call order.
   */
  lemma {:induction false} RunCharacterized(features: seq<Detector>, found: FeatureMap, cs: seq<Call>)
    requires InCatalog(features, cs)
    ensures FirstFault(features, cs).Some? ==> Run(features, found, cs) == Err(FirstFault(features, cs).value)
    ensures FirstFault(features, cs).None? ==> Run(features, found, cs) == Ok(Aggregate(found, Found(features, cs)))
    decreases cs
  {
    if cs != [] {
      match Answer(features, cs[0])
      case Absent => RunCharacterized(features, found, cs[1..]);
      case Present(o) =>
        RunCharacterized(features, Add(found, o), cs[1..]);
        var rest := Found(features, cs[1..]);
        assert ([o] + rest)[0] == o && ([o] + rest)[1..] == rest;
      case Throws(e) =>
    }
  }

  // ----- Grouping by type -----

  /** Only occurrences of type `key` are kept by Filter. */
  lemma {:induction false} FilterOwnType(occs: seq<Occurrence>, key: string)
    ensures forall o :: o in Filter(occs, key) ==> o.featureType == key && o in occs
  {
    if occs != [] {
      FilterOwnType(occs[1..], key);
    }
  }

  /** A type that occurs has a non-empty list. */
  lemma {:induction false} FilterNonEmpty(occs: seq<Occurrence>, key: string)
    requires key in TypesOf(occs)
    ensures Filter(occs, key) != []
  {
    var o :| o in occs && o.featureType == key;
    if occs[0].featureType != key {
      assert o in occs[1..];
      FilterNonEmpty(occs[1..], key);
    }
  }

  /** Filter keeps order across a split: earlier occurrences come first. */
  lemma {:induction false} FilterAppend(a: seq<Occurrence>, b: seq<Occurrence>, key: string)
    ensures Filter(a + b, key) == Filter(a, key) + Filter(b, key)
  {
    if a == [] {
      assert a + b == b;
    } else {
      assert (a + b)[0] == a[0];
      assert (a + b)[1..] == a[1..] + b;
      FilterAppend(a[1..], b, key);
    }
  }

  /** The types of a non-empty sequence: the first one's and the rest's. */
  lemma TypesOfCons(occs: seq<Occurrence>)
    requires occs != []
    ensures TypesOf(occs) == {occs[0].featureType} + TypesOf(occs[1..])
  {
  }

  /**
   * Storing one occurrence adds at most its own key, appends it to that key's list (empty when
   * the key was missing) and leaves every other key and list as it was.
   */
  lemma AddExisting(found: FeatureMap, o: Occurrence, k: string)
    ensures Add(found, o).Keys == found.Keys + {o.featureType}
    ensures forall k' :: k' in found && k' != o.featureType ==> Add(found, o)[k'] == found[k']
    ensures Existing(Add(found, o), k) ==
      if k == o.featureType then Existing(found, k) + [o] else Existing(found, k)
  {
  }

  /**
   * Storing occurrences one by one groups them by type: each key's list is what it held before,
   * followed by the new occurrences of that type in order; no other key appears.
   */
  lemma {:induction false} AggregateGroups(found: FeatureMap, occs: seq<Occurrence>)
    ensures Aggregate(found, occs).Keys == found.Keys + TypesOf(occs)
    ensures forall k :: k in Aggregate(found, occs) ==>
      Aggregate(found, occs)[k] == Existing(found, k) + Filter(occs, k)
    decreases occs
  {
    if occs != [] {
      var o := occs[0];
      var rest := occs[1..];
      var found' := Add(found, o);
      var result := Aggregate(found, occs);
      assert result == Aggregate(found', rest);
      AggregateGroups(found', rest);
      TypesOfCons(occs);
      forall k | k in result
        ensures result[k] == Existing(found, k) + Filter(occs, k)
      {
        AddExisting(found, o, k);
        assert result[k] == Existing(found', k) + Filter(rest, k);
      }
    } else {
      assert TypesOf(occs) == {};
    }
  }

  /**
   * From the empty dictionary, storing the occurrences yields exactly ByType: the keys are the
   * types that occur, each list holds the occurrences of its type in order and is non-empty,
   * and holds nothing of another type.
   */
  lemma AggregateFromEmpty(occs: seq<Occurrence>)
    ensures Aggregate(map[], occs) == ByType(occs)
    ensures forall k :: k in ByType(occs) ==> ByType(occs)[k] != []
    ensures forall k, o :: k in ByType(occs) && o in ByType(occs)[k] ==> o.featureType == k && o in occs
  {
    AggregateGroups(map[], occs);
    var agg := Aggregate(map[], occs);
    forall k | k in agg ensures agg[k] == ByType(occs)[k] {
      assert Existing(map[], k) == [];
    }
    forall k | k in ByType(occs) ensures ByType(occs)[k] != [] {
      FilterNonEmpty(occs, k);
    }
    forall k | k in ByType(occs)
      ensures forall o :: o in ByType(occs)[k] ==> o.featureType == k && o in occs
    {
      FilterOwnType(occs, k);
    }
  }

  // ----- Occurrences and counts -----

  /** The occurrences of two stretches of calls are those of the first, then of the second. */
  lemma {:induction false} FoundAppend(features: seq<Detector>, a: seq<Call>, b: seq<Call>)
    requires InCatalog(features, a) && InCatalog(features, b)
    ensures InCatalog(features, a + b)
    ensures Found(features, a + b) == Found(features, a) + Found(features, b)
    decreases a
  {
    if a == [] {
      assert a + b == b;
    } else {
      assert (a + b)[0] == a[0];
      assert (a + b)[1..] == a[1..] + b;
      FoundAppend(features, a[1..], b);
    }
  }

  /** No deduplication: a key's list is as long as the number of calls that reported that type. */
  lemma {:induction false} FilterFoundCount(features: seq<Detector>, cs: seq<Call>, key: string)
    requires InCatalog(features, cs)
    ensures |Filter(Found(features, cs), key)| == MatchCount(features, cs, key)
    decreases cs
  {
    if cs != [] {
      FilterFoundCount(features, cs[1..], key);
      match Answer(features, cs[0])
      case Present(o) =>
        var rest := Found(features, cs[1..]);
        assert ([o] + rest)[0] == o && ([o] + rest)[1..] == rest;
      case _ =>
    }
  }

  // ----- What traverseAST returns -----

  /**
   * `traverseAST` either throws the exception of the first detector call that throws, or
   * returns the reported occurrences grouped by their own type, in call order.
   */
  lemma TraverseCharacterized(ast: Node, features: seq<Detector>)
    ensures FirstFault(features, AllCalls(ast, features)).Some? ==>
      Traverse(ast, features) == Err(FirstFault(features, AllCalls(ast, features)).value)
    ensures FirstFault(features, AllCalls(ast, features)).None? ==>
      Traverse(ast, features) == Ok(ByType(Found(features, AllCalls(ast, features))))
  {
    var cs := AllCalls(ast, features);
    RunCharacterized(features, map[], cs);
    AggregateFromEmpty(Found(features, cs));
  }

  /**
   * Shape of a returned dictionary: every list is non-empty and holds only occurrences of its
   * own key; and for every key, the list (empty when the key is absent) is as long as the number
   * of (visit, detector) calls that reported that type.
   */
  lemma TraverseResultShape(ast: Node, features: seq<Detector>, found: FeatureMap)
    requires Traverse(ast, features) == Ok(found)
    ensures forall k :: k in found ==> found[k] != []
    ensures forall k, o :: k in found && o in found[k] ==> o.featureType == k
    ensures forall k :: |Existing(found, k)| == MatchCount(features, AllCalls(ast, features), k)
  {
    var cs := AllCalls(ast, features);
    TraverseCharacterized(ast, features);
    GroupedShape(features, cs, found);
  }

  /** The same facts about the grouping of the occurrences one sequence of calls reports. */
  lemma GroupedShape(features: seq<Detector>, cs: seq<Call>, found: FeatureMap)
    requires InCatalog(features, cs)
    requires found == ByType(Found(features, cs))
    ensures forall k :: k in found ==> found[k] != []
    ensures forall k, o :: k in found && o in found[k] ==> o.featureType == k
    ensures forall k :: |Existing(found, k)| == MatchCount(features, cs, k)
  {
    var occs := Found(features, cs);
    AggregateFromEmpty(occs);
    forall k ensures |Existing(found, k)| == MatchCount(features, cs, k) {
      FilterFoundCount(features, cs, k);
      ByTypeExisting(occs, k);
    }
  }

  /** A key's list in ByType, empty when the key is absent, is the Filter of that key. */
  lemma ByTypeExisting(occs: seq<Occurrence>, key: string)
    ensures Existing(ByType(occs), key) == Filter(occs, key)
  {
  }

  /** A type that does not occur filters to nothing. */
  lemma {:induction false} FilterEmpty(occs: seq<Occurrence>, key: string)
    requires key !in TypesOf(occs)
    ensures Filter(occs, key) == []
  {
    if occs != [] {
      assert occs[0] in occs;
      assert forall o :: o in occs[1..] ==> o in occs;
      FilterEmpty(occs[1..], key);
    }
  }

  /** When no detector reports anything anywhere, the result is the empty dictionary. */
  lemma TraverseNothingFound(ast: Node, features: seq<Detector>)
    requires forall c :: c in AllCalls(ast, features) ==> Answer(features, c) == Absent
    ensures Traverse(ast, features) == Ok(map[])
  {
    RunIgnoresAbsent(features, map[], AllCalls(ast, features));
  }

  /**
   * Walk order: splitting the calls at any position `p`, a key's list holds the occurrences of
   * the calls before `p` first, then those of the calls from `p` on. With CallsIndex this puts
   * visits in pre-order and, at one visit, detectors in catalog order.
   */
  lemma TraverseWalkOrder(ast: Node, features: seq<Detector>, found: FeatureMap, p: nat, key: string)
    requires Traverse(ast, features) == Ok(found)
    requires p <= |AllCalls(ast, features)|
    ensures Existing(found, key) ==
      Filter(Found(features, AllCalls(ast, features)[..p]), key) + Filter(Found(features, AllCalls(ast, features)[p..]), key)
  {
    var cs := AllCalls(ast, features);
    TraverseCharacterized(ast, features);
    var occs := Found(features, cs);
    AggregateFromEmpty(occs);
    assert cs == cs[..p] + cs[p..];
    FoundAppend(features, cs[..p], cs[p..]);
    FilterAppend(Found(features, cs[..p]), Found(features, cs[p..]), key);
    ByTypeExisting(occs, key);
  }

  /**
   * Lists are created on first use and only appended to: every key present before the fold is
   * still present afterwards, and its old list is a prefix of its new one.
   */
  lemma RunOnlyAppends(features: seq<Detector>, found: FeatureMap, cs: seq<Call>, result: FeatureMap)
    requires InCatalog(features, cs)
    requires Run(features, found, cs) == Ok(result)
    ensures forall k :: k in found ==> k in result && found[k] <= result[k]
  {
    RunCharacterized(features, found, cs);
    AggregateGroups(found, Found(features, cs));
  }

  // ----- Independence of detectors -----

  /** The occurrences the detectors of `c` report at visit `v`, in catalog order. */
  function Reports(c: seq<Detector>, v: Visit): seq<Occurrence>
  {
    if c == [] then []
    else
      (match c[0](v.node, v.parent) case Present(o) => [o] case _ => []) + Reports(c[1..], v)
  }

  /** At one visit, the calls from detector `i` on report what those detectors report. */
  lemma {:induction false} FoundAtVisit(c: seq<Detector>, v: Visit, i: nat)
    requires i <= |c|
    ensures InCatalog(c, CallsAt(v, |c|)[i..])
    ensures Found(c, CallsAt(v, |c|)[i..]) == Reports(c[i..], v)
    decreases |c| - i
  {
    var cs := CallsAt(v, |c|)[i..];
    if i < |c| {
      assert cs[0] == Call(v.node, v.parent, i);
      assert cs[1..] == CallsAt(v, |c|)[i + 1..];
      assert c[i..][0] == c[i];
      assert c[i..][1..] == c[i + 1..];
      FoundAtVisit(c, v, i + 1);
    } else {
      assert cs == [];
      assert c[i..] == [];
    }
  }

  /** The catalog that keeps detector `i` of `c` exactly when `keep[i]` holds, in the same order. */
  function Select(c: seq<Detector>, keep: seq<bool>): seq<Detector>
    requires |keep| == |c|
  {
    if c == [] then [] else (if keep[0] then [c[0]] else []) + Select(c[1..], keep[1..])
  }

  /** Detector `d` reports no occurrence of type `key` at any of the visits `vs`. */
  ghost predicate Silent(d: Detector, vs: seq<Visit>, key: string)
  {
    forall v :: v in vs ==> !(d(v.node, v.parent).Present? && d(v.node, v.parent).occurrence.featureType == key)
  }

  /** Every detector of `c` that `keep` drops is silent about `key` along `vs`. */
  ghost predicate DropsSilent(c: seq<Detector>, keep: seq<bool>, vs: seq<Visit>, key: string)
    requires |keep| == |c|
  {
    forall i :: 0 <= i < |c| && !keep[i] ==> Silent(c[i], vs, key)
  }

  /** At one visit, dropping detectors silent about `key` leaves `key`'s reports unchanged. */
  lemma {:induction false} ReportsSelected(c: seq<Detector>, keep: seq<bool>, v: Visit, key: string)
    requires |keep| == |c|
    requires DropsSilent(c, keep, [v], key)
    ensures Filter(Reports(Select(c, keep), v), key) == Filter(Reports(c, v), key)
  {
    if c != [] {
      var here := match c[0](v.node, v.parent) case Present(o) => [o] case _ => [];
      var rest := Select(c[1..], keep[1..]);
      assert DropsSilent(c[1..], keep[1..], [v], key) by {
        forall i | 0 <= i < |c[1..]| && !keep[1..][i] ensures Silent(c[1..][i], [v], key) {
          assert c[1..][i] == c[i + 1] && keep[1..][i] == keep[i + 1];
        }
      }
      ReportsSelected(c[1..], keep[1..], v, key);
      FilterAppend(here, Reports(c[1..], v), key);
      if keep[0] {
        var s := [c[0]] + rest;
        assert s[0] == c[0] && s[1..] == rest;
        FilterAppend(here, Reports(rest, v), key);
      } else {
        assert Select(c, keep) == rest;
        assert v in [v];
        assert Filter(here, key) == [];
      }
    }
  }

  /** Along visits `vs`, dropping detectors silent about `key` leaves `key`'s list unchanged. */
  lemma {:induction false} VisitsSelected(c: seq<Detector>, keep: seq<bool>, vs: seq<Visit>, key: string)
    requires |keep| == |c|
    requires DropsSilent(c, keep, vs, key)
    ensures Filter(Found(Select(c, keep), Calls(vs, |Select(c, keep)|)), key) == Filter(Found(c, Calls(vs, |c|)), key)
  {
    if vs != [] {
      var v := vs[0];
      var a := Select(c, keep);
      assert DropsSilent(c, keep, [v], key) by {
        forall i | 0 <= i < |c| && !keep[i] ensures Silent(c[i], [v], key) {
          forall w | w in [v] ensures !(c[i](w.node, w.parent).Present? && c[i](w.node, w.parent).occurrence.featureType == key) {
            assert w in vs;
          }
        }
      }
      assert DropsSilent(c, keep, vs[1..], key) by {
        forall i | 0 <= i < |c| && !keep[i] ensures Silent(c[i], vs[1..], key) {
          forall w | w in vs[1..] ensures !(c[i](w.node, w.parent).Present? && c[i](w.node, w.parent).occurrence.featureType == key) {
            assert w in vs;
          }
        }
      }
      ReportsSelected(c, keep, v, key);
      VisitsSelected(c, keep, vs[1..], key);
      FoundAtVisit(c, v, 0);
      FoundAtVisit(a, v, 0);
      assert CallsAt(v, |c|)[0..] == CallsAt(v, |c|) && c[0..] == c;
      assert CallsAt(v, |a|)[0..] == CallsAt(v, |a|) && a[0..] == a;
      FoundAppend(c, CallsAt(v, |c|), Calls(vs[1..], |c|));
      FoundAppend(a, CallsAt(v, |a|), Calls(vs[1..], |a|));
      FilterAppend(Found(c, CallsAt(v, |c|)), Found(c, Calls(vs[1..], |c|)), key);
      FilterAppend(Found(a, CallsAt(v, |a|)), Found(a, Calls(vs[1..], |a|)), key);
    }
  }

  /**
   * Adding detectors never changes another feature's list: dropping from a catalog, at any
   * positions, detectors that report no occurrence of type `key` anywhere in the walk leaves
   * `key`'s list as it was.
   */
  lemma TraverseIsolated(ast: Node, c: seq<Detector>, keep: seq<bool>, key: string,
                         full: FeatureMap, selected: FeatureMap)
    requires |keep| == |c|
    requires Traverse(ast, c) == Ok(full)
    requires Traverse(ast, Select(c, keep)) == Ok(selected)
    requires DropsSilent(c, keep, PreOrder(ast), key)
    ensures Existing(full, key) == Existing(selected, key)
  {
    TraverseCharacterized(ast, c);
    TraverseCharacterized(ast, Select(c, keep));
    ByTypeExisting(Found(c, AllCalls(ast, c)), key);
    ByTypeExisting(Found(Select(c, keep), AllCalls(ast, Select(c, keep))), key);
    VisitsSelected(c, keep, PreOrder(ast), key);
  }
}
