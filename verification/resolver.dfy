/**
 Risk-factor dependency resolution: the factors a collection of positions
 depends on, deduplicated, sorted and numbered from 0.
 */
module Resolver {
  import opened Wrappers
  import opened Enums
  import opened Instruments
  import opened Portfolios
  import opened StringOrder
  import opened Environment
  import Dict

  /** Resolution met an instrument outside the supported types; carries that type's name. */
  datatype ResolveError = UnsupportedInstrumentType(typeName: string)

  /**
   The risk factor an instrument depends on: an equity instrument's underlying
   id, or an FX instrument's base code immediately followed by its quote code.
   */
  function FactorId(inst: Instrument): (r: Result<string, ResolveError>)
    ensures r.Success? <==> inst.Known()
    ensures inst.IsEquity() ==> r == Success(inst.underlyingId)
    ensures inst.IsFX() ==> |r.value| == 6
    ensures inst.IsFX() ==> r.value[..3] == Code(inst.baseCurrency)
    ensures inst.IsFX() ==> r.value[3..] == Code(inst.quoteCurrency)
    ensures inst.Unsupported? ==> r.error == UnsupportedInstrumentType(inst.typeName)
  {
    match inst
    case EquityForward(underlyingId, _, _, _) => Success(underlyingId)
    case EquityOption(underlyingId, _, _, _, _) => Success(underlyingId)
    case FXForward(base, quote, _, _) => Success(Code(base) + Code(quote))
    case FXOption(base, quote, _, _, _) => Success(Code(base) + Code(quote))
    case Unsupported(typeName) => Failure(UnsupportedInstrumentType(typeName))
  }

  /**
   Two FX instruments, forward or option in any combination, share a factor
   exactly when they are on the same currency pair.
   */
  lemma FxFactorIdIsPair(a: Instrument, b: Instrument)
    requires a.IsFX() && b.IsFX()
    ensures FactorId(a) == FactorId(b) <==>
      a.baseCurrency == b.baseCurrency && a.quoteCurrency == b.quoteCurrency
  {
    if FactorId(a) == FactorId(b) {
      CodeInjective(a.baseCurrency, b.baseCurrency);
      CodeInjective(a.quoteCurrency, b.quoteCurrency);
    }
  }

  /** Every position holds a supported instrument. */
  ghost predicate AllKnown(positions: seq<Position>) {
    forall i :: 0 <= i < |positions| ==> positions[i].instrument.Known()
  }

  /** Position `i` holds the first unsupported instrument. */
  ghost predicate FirstUnsupported(positions: seq<Position>, i: int) {
    && 0 <= i < |positions|
    && !positions[i].instrument.Known()
    && forall j :: 0 <= j < i ==> positions[j].instrument.Known()
  }

  /** The factor ids of the positions with supported instruments. */
  ghost function FactorSet(positions: seq<Position>): set<string> {
    set i | 0 <= i < |positions| && positions[i].instrument.Known() ::
      FactorId(positions[i].instrument).value
  }

  lemma FactorSetCons(positions: seq<Position>)
    requires |positions| > 0 && positions[0].instrument.Known()
    ensures FactorSet(positions) ==
      {FactorId(positions[0].instrument).value} + FactorSet(positions[1..])
  {
    var tail := positions[1..];
    forall x | x in FactorSet(positions)
      ensures x in {FactorId(positions[0].instrument).value} + FactorSet(tail)
    {
      var i :| 0 <= i < |positions| && positions[i].instrument.Known() &&
        x == FactorId(positions[i].instrument).value;
      if i > 0 {
        assert tail[i - 1] == positions[i];
      }
    }
    forall x | x in FactorSet(tail) ensures x in FactorSet(positions) {
      var i :| 0 <= i < |tail| && tail[i].instrument.Known() &&
        x == FactorId(tail[i].instrument).value;
      assert positions[i + 1] == tail[i];
    }
  }

  /**
   The loop over the positions: the set of their factor ids, or the error for
   the first unsupported instrument met.
   */
  function CollectFactors(positions: seq<Position>): (r: Result<set<string>, ResolveError>)
    ensures r.Success? <==> AllKnown(positions)
    ensures r.Success? ==> r.value == FactorSet(positions)
    ensures r.Failure? ==> exists i :: (FirstUnsupported(positions, i) &&
                                  r.error == UnsupportedInstrumentType(positions[i].instrument.typeName))
    decreases |positions|
  {
    if |positions| == 0 then
      assert FactorSet(positions) == {};
      Success({})
    else
      var tail := positions[1..];
      assert forall i :: 0 <= i < |tail| ==> tail[i] == positions[i + 1];
      match FactorId(positions[0].instrument)
      case Failure(e) =>
        assert FirstUnsupported(positions, 0);
        Failure(e)
      case Success(id) =>
        match CollectFactors(tail)
        case Failure(e) =>
          assert exists i :: (FirstUnsupported(positions, i) &&
                              e == UnsupportedInstrumentType(positions[i].instrument.typeName)) by {
            var i :| FirstUnsupported(tail, i) &&
              e == UnsupportedInstrumentType(tail[i].instrument.typeName);
            assert FirstUnsupported(positions, i + 1) by {
              forall j | 0 <= j < i + 1 ensures positions[j].instrument.Known() {
                if j > 0 {
                  assert positions[j] == tail[j - 1];
                }
              }
            }
          }
          Failure(e)
        case Success(rest) =>
          FactorSetCons(positions);
          assert AllKnown(positions) by {
            forall j | 0 <= j < |positions| ensures positions[j].instrument.Known() {
              if j > 0 {
                assert positions[j] == tail[j - 1];
              }
            }
          }
          Success({id} + rest)
  }

  /** Each listed name keyed to its position in the list, a later position replacing an earlier one. */
  function Enumerate(xs: seq<string>): (m: map<string, int>)
    ensures forall x :: x in m <==> x in xs
    ensures StrictlySorted(xs) ==> forall i :: 0 <= i < |xs| ==> m[xs[i]] == i
  {
    var pairs := seq(|xs|, i requires 0 <= i < |xs| => (xs[i], i));
    var m := Dict.FromPairs(pairs);
    assert forall x :: x in m <==> x in xs by {
      forall x | x in xs ensures x in m {
        var i :| 0 <= i < |xs| && xs[i] == x;
        assert pairs[i].0 == x;
      }
    }
    assert StrictlySorted(xs) ==> forall i :: 0 <= i < |xs| ==> m[xs[i]] == i by {
      if StrictlySorted(xs) {
        assert Dict.DistinctKeys(pairs) by {
          forall i, j | 0 <= i < j < |pairs| ensures pairs[i].0 != pairs[j].0 {
            StrictlySortedDistinct(xs, i, j);
          }
        }
        forall i | 0 <= i < |xs| ensures m[xs[i]] == i {
          Dict.FromPairsDistinct(pairs, i);
        }
      }
    }
    m
  }

  /** Indices run over exactly 0 .. |m|-1, each used by one name. */
  ghost predicate DenseIndices(m: map<string, int>) {
    && (forall a :: a in m ==> 0 <= m[a] < |m|)
    && (forall i :: 0 <= i < |m| ==> i in m.Values)
    && (forall a, b :: a in m && b in m && a != b ==> m[a] != m[b])
  }

  /** Index order is the names' lexicographic order. */
  ghost predicate OrderedIndices(m: map<string, int>) {
    forall a, b :: a in m && b in m ==> (Less(a, b) <==> m[a] < m[b])
  }

  lemma EnumerateSortedSize(xs: seq<string>)
    requires StrictlySorted(xs)
    ensures |Enumerate(xs)| == |xs|
  {
    var m := Enumerate(xs);
    assert m.Keys == PrefixElements(xs, |xs|) by {
      forall x | x in PrefixElements(xs, |xs|) ensures x in m {
        var i :| 0 <= i < |xs| && xs[i] == x;
        assert x in xs;
      }
    }
    PrefixElementsSize(xs, |xs|);
  }

  /** The index assignment for a sorted, duplicate-free list of names is dense and ordered. */
  lemma EnumerateSorted(xs: seq<string>)
    requires StrictlySorted(xs)
    ensures |Enumerate(xs)| == |xs|
    ensures DenseIndices(Enumerate(xs))
    ensures OrderedIndices(Enumerate(xs))
  {
    var m := Enumerate(xs);
    EnumerateSortedSize(xs);
    forall a | a in m ensures 0 <= m[a] < |m| {
      var i :| 0 <= i < |xs| && xs[i] == a;
    }
    forall v | 0 <= v < |m| ensures v in m.Values {
      assert xs[v] in m && m[xs[v]] == v;
    }
    forall a, b | a in m && b in m ensures (Less(a, b) <==> m[a] < m[b]) && (a != b ==> m[a] != m[b]) {
      var i :| 0 <= i < |xs| && xs[i] == a;
      var j :| 0 <= j < |xs| && xs[j] == b;
      StrictlySortedOrder(xs, i, j);
    }
  }

  /**
   `DependencyResolver().resolve(positions)`: the schema numbering the
   positions' distinct factor ids 0 .. N-1 in lexicographic order, or the error
   for the first unsupported instrument.
   */
  function Resolve(positions: seq<Position>): (r: Result<RiskFactorSchema, ResolveError>)
    ensures r.Success? <==> AllKnown(positions)
    ensures r.Failure? ==> exists i :: (FirstUnsupported(positions, i) &&
                                  r.error == UnsupportedInstrumentType(positions[i].instrument.typeName))
    ensures r.Success? ==> r.value.factorIndices.Keys == FactorSet(positions)
    ensures r.Success? ==> |r.value.factorIndices| == |FactorSet(positions)|
    ensures r.Success? ==> DenseIndices(r.value.factorIndices)
    ensures r.Success? ==> OrderedIndices(r.value.factorIndices)
  {
    match CollectFactors(positions)
    case Failure(e) => Failure(e)
    case Success(factors) =>
      var sortedFactors := Sorted(factors);
      EnumerateSorted(sortedFactors);
      Success(RiskFactorSchema(Enumerate(sortedFactors)))
  }

  /** The index of each factor read off its factor set alone: how many factors sort before it. */
  ghost function RankIndices(factors: set<string>): map<string, int> {
    map a | a in factors :: Rank(a, factors)
  }

  /** Numbering a sorted listing of a set by position numbers each element by its rank in the set. */
  lemma EnumerateIsRank(xs: seq<string>, factors: set<string>)
    requires StrictlySorted(xs)
    requires forall x :: x in xs <==> x in factors
    ensures Enumerate(xs) == RankIndices(factors)
  {
    var m := Enumerate(xs);
    assert m.Keys == RankIndices(factors).Keys;
    forall a | a in m ensures m[a] == Rank(a, factors) {
      var i :| 0 <= i < |xs| && xs[i] == a;
      SortedPositionIsRank(xs, factors, i);
    }
  }

  /** Each resolved index is the number of the positions' factor ids that sort before that id. */
  lemma ResolveIndexIsRank(positions: seq<Position>)
    requires AllKnown(positions)
    ensures Resolve(positions) == Success(RiskFactorSchema(RankIndices(FactorSet(positions))))
  {
    var factors := FactorSet(positions);
    assert Resolve(positions) == Success(RiskFactorSchema(Enumerate(Sorted(factors))));
    EnumerateIsRank(Sorted(factors), factors);
  }

  /** Positions with the same factor ids resolve to the same schema. */
  lemma SameFactorsSameSchema(ps: seq<Position>, qs: seq<Position>)
    requires AllKnown(ps) && AllKnown(qs)
    requires FactorSet(ps) == FactorSet(qs)
    ensures Resolve(ps) == Resolve(qs)
  {
    ResolveIndexIsRank(ps);
    ResolveIndexIsRank(qs);
  }

  /**
   Only which positions occur matters, not their order or how often they
   repeat: success is decided the same way, and a schema is the same schema.
   */
  lemma ResolveDependsOnlyOnPositionSet(ps: seq<Position>, qs: seq<Position>)
    requires forall p :: p in ps <==> p in qs
    ensures Resolve(ps).Success? <==> Resolve(qs).Success?
    ensures Resolve(ps).Success? ==> Resolve(ps) == Resolve(qs)
  {
    if AllKnown(ps) {
      assert AllKnown(qs) by {
        forall j | 0 <= j < |qs| ensures qs[j].instrument.Known() {
          assert qs[j] in ps;
        }
      }
    }
    if AllKnown(qs) {
      assert AllKnown(ps) by {
        forall j | 0 <= j < |ps| ensures ps[j].instrument.Known() {
          assert ps[j] in qs;
        }
      }
    }
    forall x | x in FactorSet(ps) ensures x in FactorSet(qs) {
      var i :| 0 <= i < |ps| && ps[i].instrument.Known() && x == FactorId(ps[i].instrument).value;
      assert ps[i] in qs;
      var j :| 0 <= j < |qs| && qs[j] == ps[i];
    }
    forall x | x in FactorSet(qs) ensures x in FactorSet(ps) {
      var j :| 0 <= j < |qs| && qs[j].instrument.Known() && x == FactorId(qs[j].instrument).value;
      assert qs[j] in ps;
      var i :| 0 <= i < |ps| && ps[i] == qs[j];
    }
    if AllKnown(ps) {
      SameFactorsSameSchema(ps, qs);
    }
  }

  /** Any reordering of the positions gives the same outcome's kind and the same schema. */
  lemma ResolvePermutationInvariant(ps: seq<Position>, qs: seq<Position>)
    requires multiset(ps) == multiset(qs)
    ensures Resolve(ps).Success? <==> Resolve(qs).Success?
    ensures Resolve(ps).Success? ==> Resolve(ps) == Resolve(qs)
  {
    forall p ensures p in ps <==> p in qs {
      assert p in ps <==> p in multiset(ps);
      assert p in qs <==> p in multiset(qs);
    }
    ResolveDependsOnlyOnPositionSet(ps, qs);
  }

  /** Repeating positions already present changes nothing. */
  lemma ResolveIgnoresDuplicates(ps: seq<Position>, extra: seq<Position>)
    requires forall p :: p in extra ==> p in ps
    ensures Resolve(ps + extra) == Resolve(ps)
  {
    ResolveDependsOnlyOnPositionSet(ps + extra, ps);
    if !AllKnown(ps) {
      var i :| 0 <= i < |ps| && !ps[i].instrument.Known();
      assert (ps + extra)[i] == ps[i];
      var k :| FirstUnsupported(ps, k) && Resolve(ps).error == UnsupportedInstrumentType(ps[k].instrument.typeName);
      var k' :| FirstUnsupported(ps + extra, k') &&
        Resolve(ps + extra).error == UnsupportedInstrumentType((ps + extra)[k'].instrument.typeName);
      assert (ps + extra)[k] == ps[k];
      if k' < k {
        assert false;
      }
      assert k == k';
    }
  }

  /**
   A position whose factor is already required, such as an FX option on a pair
   an FX forward already covers, adds no entry.
   */
  lemma SharedFactorAddsNothing(ps: seq<Position>, p: Position)
    requires AllKnown(ps) && p.instrument.Known()
    requires FactorId(p.instrument).value in FactorSet(ps)
    ensures Resolve(ps + [p]) == Resolve(ps)
  {
    var qs := ps + [p];
    assert FactorSet(qs) == FactorSet(ps) by {
      forall x | x in FactorSet(qs) ensures x in FactorSet(ps) {
        var i :| 0 <= i < |qs| && qs[i].instrument.Known() && x == FactorId(qs[i].instrument).value;
        if i < |ps| {
          assert qs[i] == ps[i];
        }
      }
      forall x | x in FactorSet(ps) ensures x in FactorSet(qs) {
        var i :| 0 <= i < |ps| && ps[i].instrument.Known() && x == FactorId(ps[i].instrument).value;
        assert qs[i] == ps[i];
      }
    }
    SameFactorsSameSchema(qs, ps);
  }

  /** No positions, no factors: an empty schema rather than an error. */
  lemma ResolveEmpty()
    ensures Resolve([]) == Success(RiskFactorSchema(map[]))
  {
    assert FactorSet([]) == {};
  }

  /**
   Looking up a name in a resolved schema succeeds exactly for the positions'
   factor ids, giving an index below the number of factors; otherwise the error
   lists all of them.
   */
  lemma LookupResolvedFactor(positions: seq<Position>, factorName: string)
    requires AllKnown(positions)
    ensures GetIndex(Resolve(positions).value, factorName).Success? <==> factorName in FactorSet(positions)
    ensures GetIndex(Resolve(positions).value, factorName).Success? ==>
      GetIndex(Resolve(positions).value, factorName).value == Rank(factorName, FactorSet(positions)) &&
      GetIndex(Resolve(positions).value, factorName).value < |FactorSet(positions)|
    ensures GetIndex(Resolve(positions).value, factorName).Failure? ==>
      GetIndex(Resolve(positions).value, factorName).error.availableFactors == FactorSet(positions)
  {
    ResolveIndexIsRank(positions);
  }

  /** A schema over exactly two names, the first sorting before the second. */
  lemma TwoFactorSchema(m: map<string, int>, a: string, b: string)
    requires m.Keys == {a, b} && Less(a, b)
    requires DenseIndices(m) && OrderedIndices(m)
    ensures m == map[a := 0, b := 1]
  {
    LessIrreflexive(a);
    assert a != b;
    assert |m| == 2;
  }

  const maturity := Date(2025, 1, 1)

  /** Equity option on MSFT then equity forward on AAPL: AAPL gets 0, MSFT 1. */
  lemma ExampleEquityInstruments()
    ensures Resolve([
      Position("P2", EquityOption("MSFT", 300.0, maturity, USD, Call)),
      Position("P1", EquityForward("AAPL", 150.0, maturity, USD))])
      == Success(RiskFactorSchema(map["AAPL" := 0, "MSFT" := 1]))
  {
    var ps := [
      Position("P2", EquityOption("MSFT", 300.0, maturity, USD, Call)),
      Position("P1", EquityForward("AAPL", 150.0, maturity, USD))];
    assert FactorSet(ps) == {"AAPL", "MSFT"} by {
      assert FactorId(ps[0].instrument).value == "MSFT";
      assert FactorId(ps[1].instrument).value == "AAPL";
    }
    assert Less("AAPL", "MSFT");
    TwoFactorSchema(Resolve(ps).value.factorIndices, "AAPL", "MSFT");
  }

  /** FX forward and FX option on ZAR/USD share the single factor "ZARUSD". */
  lemma ExampleFxInstruments()
    ensures Resolve([
      Position("P1", FXForward(ZAR, USD, 1.1, maturity)),
      Position("P2", FXOption(ZAR, USD, 1.15, maturity, Put))])
      == Success(RiskFactorSchema(map["ZARUSD" := 0]))
  {
    var ps := [
      Position("P1", FXForward(ZAR, USD, 1.1, maturity)),
      Position("P2", FXOption(ZAR, USD, 1.15, maturity, Put))];
    assert FactorSet(ps) == {"ZARUSD"} by {
      assert FactorId(ps[0].instrument).value == "ZARUSD";
      assert FactorId(ps[1].instrument).value == "ZARUSD";
    }
    var m := Resolve(ps).value.factorIndices;
    assert |m| == 1;
    assert m["ZARUSD"] == 0;
  }

  /** An equity forward on AAPL and an FX forward on ZAR/USD: AAPL gets 0, ZARUSD 1. */
  lemma ExampleMixedInstruments()
    ensures Resolve([
      Position("P1", EquityForward("AAPL", 150.0, maturity, USD)),
      Position("P2", FXForward(ZAR, USD, 1.3, maturity))])
      == Success(RiskFactorSchema(map["AAPL" := 0, "ZARUSD" := 1]))
  {
    var ps := [
      Position("P1", EquityForward("AAPL", 150.0, maturity, USD)),
      Position("P2", FXForward(ZAR, USD, 1.3, maturity))];
    assert FactorSet(ps) == {"AAPL", "ZARUSD"} by {
      assert FactorId(ps[0].instrument).value == "AAPL";
      assert FactorId(ps[1].instrument).value == "ZARUSD";
    }
    assert Less("AAPL", "ZARUSD");
    TwoFactorSchema(Resolve(ps).value.factorIndices, "AAPL", "ZARUSD");
  }

  /** A position holding some other type of object fails resolution, naming that type. */
  lemma ExampleUnsupportedInstrument(typeName: string)
    ensures Resolve([Position("FAIL", Unsupported(typeName))])
      == Failure(UnsupportedInstrumentType(typeName))
  {
    var ps := [Position("FAIL", Unsupported(typeName))];
    assert !ps[0].instrument.Known();
    var i :| FirstUnsupported(ps, i) &&
      Resolve(ps).error == UnsupportedInstrumentType(ps[i].instrument.typeName);
  }
}
