/** The quality score and rating of update_quality_info in SigmaSight.py: nine yes/no
    criteria over a company's info snapshot and its balance sheet and income statement rows,
    counted, and the count mapped to one of five labels. */
module QualityScore {
  import opened Wrappers

  /** A float64 value as pandas hands it back: a number, an infinity or NaN. Dividing two
      float64 values by zero gives one of the last three instead of raising. */
  datatype Float = Finite(v: real) | PosInf | NegInf | NaN

  /** float64 division a / b, exact on reals; a zero divisor gives an infinity with the
      numerator's sign, or NaN for 0/0. */
  function Divide(a: real, b: real): (r: Float)
    ensures b != 0.0 ==> r == Finite(a / b)
    ensures b == 0.0 ==> !r.Finite?
    ensures b == 0.0 && a > 0.0 ==> r == PosInf
    ensures b == 0.0 && a < 0.0 ==> r == NegInf
    ensures r.NaN? <==> a == 0.0 && b == 0.0
  {
    if b != 0.0 then Finite(a / b)
    else if a > 0.0 then PosInf
    else if a < 0.0 then NegInf
    else NaN
  }

  /** The comparison x < y on float64 values: false whenever either side is NaN. */
  function Less(x: Float, y: Float): (r: bool)
    ensures x.NaN? || y.NaN? ==> !r
    ensures x.Finite? && y.Finite? ==> (r <==> x.v < y.v)
    ensures y.PosInf? ==> (r <==> x.Finite? || x.NegInf?)
    ensures x.NegInf? ==> (r <==> y.Finite? || y.PosInf?)
    ensures x.PosInf? || y.NegInf? ==> !r
  {
    match (x, y)
    case (Finite(a), Finite(b)) => a < b
    case (NegInf, Finite(_)) => true
    case (NegInf, PosInf) => true
    case (Finite(_), PosInf) => true
    case _ => false
  }

  /** The fields read from the info snapshot; None is a missing key. */
  datatype Info = Info(
    netIncome: Option<real>,
    returnOnAssets: Option<real>,
    operatingCashflow: Option<real>,
    currentRatio: Option<real>,
    sharesOutstanding: Option<real>,
    assetTurnover: Option<real>)

  /** The statement rows, in the order the provider's transposed tables list them: the three
      balance-sheet series after dropna, and the income statement's Gross Profit row as is,
      NaN included. A column the provider did not return is an empty series. */
  datatype Statements = Statements(
    totalDebt: seq<real>,
    totalAssets: seq<real>,
    totalLiabilities: seq<real>,
    grossProfit: seq<Float>)

  datatype SeriesName = TotalDebt | TotalAssets | TotalLiabilities | GrossProfit

  /** The IndexError of `iloc[-2]` on a series with fewer than two rows. */
  datatype QualityError = TooFewPeriods(series: SeriesName)

  datatype Rating = Low | Okay | Medium | High | Superb

  datatype Quality = Quality(score: nat, rating: Rating)

  /** `info.get(key, 0)`. */
  function OrZero(field: Option<real>): (r: real)
    ensures field.Some? ==> r == field.value
    ensures field.None? ==> r == 0.0
  {
    if field.Some? then field.value else 0.0
  }

  /** The four profitability criteria. */
  function ProfitabilityCriteria(info: Info): (c: seq<bool>)
    ensures |c| == 4
    ensures c[0] && c[3] ==> c[2]
    ensures info.netIncome.None? && info.returnOnAssets.None? && info.operatingCashflow.None? ==>
              !c[0] && !c[1] && !c[2] && !c[3]
  {
    var netIncome, cashflow := OrZero(info.netIncome), OrZero(info.operatingCashflow);
    [netIncome > 0.0, OrZero(info.returnOnAssets) > 0.0, cashflow > 0.0, cashflow > netIncome]
  }

  /** The three leverage criteria; the third compares shares outstanding with itself. */
  function LeverageCriteria(info: Info, st: Statements): (c: seq<bool>)
    requires |st.totalDebt| >= 2 && |st.totalAssets| >= 2 && |st.totalLiabilities| >= 2
    ensures |c| == 3
    ensures c[2]
  {
    var debt, assets, liabilities := st.totalDebt, st.totalAssets, st.totalLiabilities;
    var ratio := Divide(assets[|assets| - 2], liabilities[|liabilities| - 2]);
    var shares := OrZero(info.sharesOutstanding);
    [debt[|debt| - 1] < debt[|debt| - 2],
     Less(ratio, Finite(OrZero(info.currentRatio))),
     shares <= shares]
  }

  /** The two efficiency criteria; the second compares asset turnover with itself. */
  function EfficiencyCriteria(info: Info, st: Statements): (c: seq<bool>)
    requires |st.grossProfit| >= 2
    ensures |c| == 2
    ensures !c[1]
    ensures c[0] ==> st.grossProfit[|st.grossProfit| - 1] != NaN
  {
    var gross := st.grossProfit;
    var turnover := OrZero(info.assetTurnover);
    [Less(gross[|gross| - 2], gross[|gross| - 1]), turnover > turnover]
  }

  /** The first series, in the order the criteria read them, too short for `iloc[-2]`. */
  function FirstShortSeries(st: Statements): (r: Option<SeriesName>)
    ensures r.None? <==> |st.totalDebt| >= 2 && |st.totalAssets| >= 2 &&
                         |st.totalLiabilities| >= 2 && |st.grossProfit| >= 2
    ensures r == Some(TotalAssets) ==> |st.totalDebt| >= 2
    ensures r == Some(TotalLiabilities) ==> |st.totalDebt| >= 2 && |st.totalAssets| >= 2
    ensures r == Some(GrossProfit) ==> |st.totalDebt| >= 2 && |st.totalAssets| >= 2 && |st.totalLiabilities| >= 2
    ensures r == Some(TotalDebt) ==> |st.totalDebt| < 2
    ensures r == Some(TotalAssets) ==> |st.totalAssets| < 2
    ensures r == Some(TotalLiabilities) ==> |st.totalLiabilities| < 2
    ensures r == Some(GrossProfit) ==> |st.grossProfit| < 2
  {
    if |st.totalDebt| < 2 then Some(TotalDebt)
    else if |st.totalAssets| < 2 then Some(TotalAssets)
    else if |st.totalLiabilities| < 2 then Some(TotalLiabilities)
    else if |st.grossProfit| < 2 then Some(GrossProfit)
    else None
  }

  /** The number of true criteria, `sum(1 for criterion in criteria if criterion)`. */
  function CountTrue(criteria: seq<bool>): (n: nat)
    ensures n <= |criteria|
  {
    if criteria == [] then 0
    else CountTrue(criteria[..|criteria| - 1]) + (if criteria[|criteria| - 1] then 1 else 0)
  }

  /** One criterion known true makes the count positive; one known false keeps it below full. */
  lemma {:induction false} CountTrueBounds(criteria: seq<bool>, k: nat)
    requires k < |criteria|
    ensures criteria[k] ==> CountTrue(criteria) >= 1
    ensures !criteria[k] ==> CountTrue(criteria) <= |criteria| - 1
  {
    var n := |criteria| - 1;
    var init := criteria[..n];
    if k < n {
      CountTrueBounds(init, k);
    } else if n > 0 {
      CountTrueBounds(init, 0);
    }
  }

  /** Every criterion holds exactly when the count reaches the number of criteria. */
  lemma {:induction false} CountTrueAll(criteria: seq<bool>)
    ensures CountTrue(criteria) == |criteria| <==> forall i :: 0 <= i < |criteria| ==> criteria[i]
  {
    if criteria != [] {
      var n := |criteria| - 1;
      var init := criteria[..n];
      CountTrueAll(init);
      if !criteria[n] {
        CountTrueBounds(criteria, n);
      } else {
        assert forall i :: 0 <= i < n ==> init[i] == criteria[i];
      }
      if n > 0 {
        CountTrueBounds(init, 0);
      }
    }
  }

  /** The label chain: Superb from 8, High from 6, Medium from 4, Okay from 2, else Low. */
  function RatingOf(score: int): (r: Rating)
    ensures r == Superb <==> score >= 8
    ensures r == High <==> 6 <= score < 8
    ensures r == Medium <==> 4 <= score < 6
    ensures r == Okay <==> 2 <= score < 4
    ensures r == Low <==> score < 2
    ensures score >= 0 ==> Rank(r) == if score >= 8 then 4 else score / 2
  {
    if score >= 8 then Superb
    else if score >= 6 then High
    else if score >= 4 then Medium
    else if score >= 2 then Okay
    else Low
  }

  /** The labels' order, from worst to best. */
  function Rank(r: Rating): nat {
    match r
    case Low => 0
    case Okay => 1
    case Medium => 2
    case High => 3
    case Superb => 4
  }

  /** A higher score never yields a lower label. */
  lemma RatingMonotone(s1: int, s2: int)
    requires s1 <= s2
    ensures Rank(RatingOf(s1)) <= Rank(RatingOf(s2))
  {
  }

  /** What update_quality_info shows: the score and rating, or the IndexError of the first
      series with fewer than two rows. */
  function QualityOf(info: Info, st: Statements): (r: Result<Quality, QualityError>)
    ensures r.Failure? <==> FirstShortSeries(st).Some?
    ensures r.Failure? ==> FirstShortSeries(st) == Some(r.error.series)
    ensures r.Success? ==> r.value.score <= 9 && r.value.rating == RatingOf(r.value.score)
  {
    match FirstShortSeries(st)
    case Some(name) => Failure(TooFewPeriods(name))
    case None =>
      var score := CountTrue(ProfitabilityCriteria(info)) + CountTrue(LeverageCriteria(info, st))
                   + CountTrue(EfficiencyCriteria(info, st));
      Success(Quality(score, RatingOf(score)))
  }

  /** A score is produced exactly when every series has two rows. Because one leverage
      criterion always holds and one efficiency criterion never does, the score lies in
      1..8, never 0 or 9. */
  lemma ScoreRange(info: Info, st: Statements)
    ensures QualityOf(info, st).Success? <==> FirstShortSeries(st).None?
    ensures QualityOf(info, st).Success? ==> 1 <= QualityOf(info, st).value.score <= 8
  {
    if FirstShortSeries(st).None? {
      CountTrueBounds(ProfitabilityCriteria(info), 0);
      CountTrueBounds(LeverageCriteria(info, st), 2);
      CountTrueBounds(EfficiencyCriteria(info, st), 1);
    }
  }

  /** "Superb" needs every one of the seven criteria that are not constant. */
  lemma SuperbNeedsSevenCriteria(info: Info, st: Statements)
    requires FirstShortSeries(st).None?
    ensures QualityOf(info, st).value.rating == Superb <==>
              (forall i :: 0 <= i < 4 ==> ProfitabilityCriteria(info)[i]) &&
              LeverageCriteria(info, st)[0] && LeverageCriteria(info, st)[1] &&
              EfficiencyCriteria(info, st)[0]
  {
    var p, l, e := ProfitabilityCriteria(info), LeverageCriteria(info, st), EfficiencyCriteria(info, st);
    CountTrueAll(p);
    CountTrueAll(l);
    CountTrueBounds(p, 0);
    CountTrueBounds(l, 2);
    CountTrueBounds(e, 1);
    if !l[0] { CountTrueBounds(l, 0); }
    if !l[1] { CountTrueBounds(l, 1); }
    if !e[0] {
      CountTrueAll(e);
      assert CountTrue(e) == 0 by {
        var first := e[..1];
        assert first[..0] == [] && first[0] == e[0];
        assert CountTrue(first) == 0;
      }
    }
  }

  /** `sum(1 for criterion in criteria if criterion)`. */
  method CountCriteria(criteria: seq<bool>) returns (n: nat)
    ensures n == CountTrue(criteria)
  {
    n := 0;
    var i := 0;
    while i < |criteria|
      invariant 0 <= i <= |criteria|
      invariant n == CountTrue(criteria[..i])
    {
      assert criteria[..i + 1][..i] == criteria[..i];
      if criteria[i] {
        n := n + 1;
      }
      i := i + 1;
    }
    assert criteria[..i] == criteria;
  }

  /** update_quality_info with the provider's tables passed in: the score accumulated over
      the three criterion lists, then the label chain. */
  method UpdateQualityInfo(info: Info, st: Statements) returns (r: Result<Quality, QualityError>)
    ensures r == QualityOf(info, st)
  {
    var score := 0;
    var profitability := ProfitabilityCriteria(info);
    if |st.totalDebt| < 2 {
      return Failure(TooFewPeriods(TotalDebt));
    } else if |st.totalAssets| < 2 {
      return Failure(TooFewPeriods(TotalAssets));
    } else if |st.totalLiabilities| < 2 {
      return Failure(TooFewPeriods(TotalLiabilities));
    }
    var leverage := LeverageCriteria(info, st);
    if |st.grossProfit| < 2 {
      return Failure(TooFewPeriods(GrossProfit));
    }
    var efficiency := EfficiencyCriteria(info, st);

    var count := CountCriteria(profitability);
    score := score + count;
    count := CountCriteria(leverage);
    score := score + count;
    count := CountCriteria(efficiency);
    score := score + count;

    var rating;
    if score >= 8 {
      rating := Superb;
    } else if score >= 6 {
      rating := High;
    } else if score >= 4 {
      rating := Medium;
    } else if score >= 2 {
      rating := Okay;
    } else {
      rating := Low;
    }
    r := Success(Quality(score, rating));
  }
}
