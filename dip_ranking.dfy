/** calculate_dip_data of watchlist.py: for every watchlist ticker, how far its price sits
    above or below its 200-day average, in percent, ranked from the deepest dip up. */
module DipRanking {
  import opened Wrappers

  /** The two fields calculate_dip_data reads from one ticker's info snapshot; None is a
      missing key, which watchlist.py replaces by the string 'N/A'. */
  datatype Quote = Quote(ticker: string, currentPrice: Option<real>, twoHundredDayAverage: Option<real>)

  /** One bar of the dip chart. */
  datatype DipEntry = DipEntry(ticker: string, percent: real)

  /** The exceptions the loop can raise: a TypeError from subtracting the 'N/A' string, and a
      ZeroDivisionError from a zero average. */
  datatype DipError = MissingField(ticker: string) | ZeroAverage(ticker: string)

  /** The deviation of a price from its 200-day average, in percent of the average. */
  function DipPercent(price: real, average: real): (p: real)
    requires average != 0.0
    ensures p < 0.0 <==> (if average > 0.0 then price < average else price > average)
    ensures p == 0.0 <==> price == average
    ensures price == average * (1.0 + p / 100.0)
  {
    ((price - average) / average) * 100.0
  }

  /** One iteration of the loop: the entry for `q`, or the exception it raises. The
      subtraction runs before the division, so a missing field wins over a zero average. */
  function EntryOf(q: Quote): (r: Result<DipEntry, DipError>)
    ensures r.Success? <==> q.currentPrice.Some? && q.twoHundredDayAverage.Some? && q.twoHundredDayAverage.value != 0.0
    ensures r.Success? ==> r.value.ticker == q.ticker
    ensures r.Failure? ==> r.error.ticker == q.ticker
    ensures r.Failure? ==> (r.error.MissingField? <==> q.currentPrice.None? || q.twoHundredDayAverage.None?)
  {
    if q.currentPrice.None? || q.twoHundredDayAverage.None? then Failure(MissingField(q.ticker))
    else if q.twoHundredDayAverage.value == 0.0 then Failure(ZeroAverage(q.ticker))
    else Success(DipEntry(q.ticker, DipPercent(q.currentPrice.value, q.twoHundredDayAverage.value)))
  }

  /** The unsorted `dip_data` list, built in watchlist order; the first quote that raises ends it. */
  function DipPairs(quotes: seq<Quote>): (r: Result<seq<DipEntry>, DipError>)
    ensures r.Success? ==> |r.value| == |quotes|
  {
    if quotes == [] then Success([])
    else
      match DipPairs(quotes[..|quotes| - 1])
      case Failure(e) => Failure(e)
      case Success(pairs) =>
        match EntryOf(quotes[|quotes| - 1])
        case Failure(e) => Failure(e)
        case Success(d) => Success(pairs + [d])
  }

  /** The list calculate_dip_data returns: the pairs sorted by percent, stably. */
  function Ranking(quotes: seq<Quote>): (r: Result<seq<DipEntry>, DipError>)
    ensures r.Success? <==> DipPairs(quotes).Success?
    ensures r.Failure? ==> r.error == DipPairs(quotes).error
    ensures r.Success? ==> SortedByPercent(r.value) && multiset(r.value) == multiset(DipPairs(quotes).value)
  {
    match DipPairs(quotes)
    case Failure(e) => Failure(e)
    case Success(pairs) =>
      SortByPercentSorted(pairs);
      SortByPercentPermutation(pairs);
      Success(SortByPercent(pairs))
  }

  /** Once a prefix of the watchlist raises, the whole computation raises the same exception. */
  lemma {:induction false} DipPairsFailurePersists(quotes: seq<Quote>, n: nat)
    requires n <= |quotes| && DipPairs(quotes[..n]).Failure?
    ensures DipPairs(quotes) == DipPairs(quotes[..n])
    decreases |quotes| - n
  {
    if n < |quotes| {
      assert quotes[..n + 1][..n] == quotes[..n];
      DipPairsFailurePersists(quotes, n + 1);
    } else {
      assert quotes[..n] == quotes;
    }
  }

  /** The pairs exist exactly when every quote has both fields and a non-zero average; then
      there is one pair per watchlist ticker, in watchlist order, with its dip percent. */
  lemma {:induction false} DipPairsSuccess(quotes: seq<Quote>)
    ensures DipPairs(quotes).Success? <==> forall i :: 0 <= i < |quotes| ==> EntryOf(quotes[i]).Success?
    ensures DipPairs(quotes).Success? ==>
              |DipPairs(quotes).value| == |quotes| &&
              forall i :: 0 <= i < |quotes| ==>
                DipPairs(quotes).value[i] ==
                  DipEntry(quotes[i].ticker, DipPercent(quotes[i].currentPrice.value, quotes[i].twoHundredDayAverage.value))
  {
    if quotes != [] {
      var init := quotes[..|quotes| - 1];
      DipPairsSuccess(init);
      assert forall i :: 0 <= i < |init| ==> init[i] == quotes[i];
    }
  }

  /** When the computation raises, it is the exception of the first quote that raises. */
  lemma {:induction false} DipPairsFirstFailure(quotes: seq<Quote>)
    requires DipPairs(quotes).Failure?
    ensures exists k :: 0 <= k < |quotes| && EntryOf(quotes[k]).Failure? &&
                        DipPairs(quotes).error == EntryOf(quotes[k]).error &&
                        forall i :: 0 <= i < k ==> EntryOf(quotes[i]).Success?
  {
    var init := quotes[..|quotes| - 1];
    assert forall i :: 0 <= i < |init| ==> init[i] == quotes[i];
    if DipPairs(init).Failure? {
      DipPairsFirstFailure(init);
      var k :| 0 <= k < |init| && EntryOf(init[k]).Failure? &&
               DipPairs(init).error == EntryOf(init[k]).error &&
               forall i :: 0 <= i < k ==> EntryOf(init[i]).Success?;
      assert EntryOf(quotes[k]).Failure?;
    } else {
      DipPairsSuccess(init);
      var k := |quotes| - 1;
      assert forall i :: 0 <= i < k ==> EntryOf(quotes[i]).Success?;
    }
  }

  // ---------------------------------------------------------------------------------------
  // The in-place `dip_data.sort(key=lambda x: x[1])`: Python's sort is stable, so entries
  // with equal percents keep their watchlist order.

  predicate SortedByPercent(s: seq<DipEntry>) {
    forall i, j :: 0 <= i < j < |s| ==> s[i].percent <= s[j].percent
  }

  /** The entries of `s` whose percent is `p`, in their order in `s`. */
  function WithPercent(s: seq<DipEntry>, p: real): seq<DipEntry> {
    if s == [] then []
    else if s[0].percent == p then [s[0]] + WithPercent(s[1..], p)
    else WithPercent(s[1..], p)
  }

  /** A stable reordering: for every percent, the entries carrying it appear in the same order. */
  ghost predicate StableReorder(input: seq<DipEntry>, output: seq<DipEntry>) {
    forall p :: WithPercent(output, p) == WithPercent(input, p)
  }

  /** `e` placed in front of the first entry of `s` whose percent is not below its own. */
  function Insert(e: DipEntry, s: seq<DipEntry>): (r: seq<DipEntry>)
    ensures |r| == |s| + 1
  {
    if s == [] || e.percent <= s[0].percent then [e] + s
    else [s[0]] + Insert(e, s[1..])
  }

  /** A stable insertion sort by percent; any stable sort gives the same list
      (SortedStableIsUnique). */
  function SortByPercent(s: seq<DipEntry>): (r: seq<DipEntry>)
    ensures |r| == |s|
  {
    if s == [] then [] else Insert(s[0], SortByPercent(s[1..]))
  }

  lemma {:induction false} WithPercentAppend(s: seq<DipEntry>, u: seq<DipEntry>, p: real)
    ensures WithPercent(s + u, p) == WithPercent(s, p) + WithPercent(u, p)
  {
    if s == [] {
      assert s + u == u;
    } else {
      assert (s + u)[0] == s[0];
      assert (s + u)[1..] == s[1..] + u;
      WithPercentAppend(s[1..], u, p);
      if s[0].percent == p {
        assert [s[0]] + WithPercent(s[1..], p) + WithPercent(u, p)
            == [s[0]] + (WithPercent(s[1..], p) + WithPercent(u, p));
      }
    }
  }

  lemma {:induction false} InsertPermutation(e: DipEntry, s: seq<DipEntry>)
    ensures multiset(Insert(e, s)) == multiset(s) + multiset{e}
  {
    if s != [] && e.percent > s[0].percent {
      InsertPermutation(e, s[1..]);
      assert Insert(e, s) == [s[0]] + Insert(e, s[1..]);
      assert s == [s[0]] + s[1..];
    }
  }

  /** Every entry of `Insert(e, s)` is `e` or an entry of `s`. */
  lemma {:induction false} InsertMembers(e: DipEntry, s: seq<DipEntry>)
    ensures forall x :: x in Insert(e, s) ==> x == e || x in s
  {
    if s != [] && e.percent > s[0].percent {
      InsertMembers(e, s[1..]);
      assert forall x :: x in s[1..] ==> x in s;
    }
  }

  lemma {:induction false} InsertSorted(e: DipEntry, s: seq<DipEntry>)
    requires SortedByPercent(s)
    ensures SortedByPercent(Insert(e, s))
  {
    var r := Insert(e, s);
    if s == [] || e.percent <= s[0].percent {
      forall i, j | 0 <= i < j < |r| ensures r[i].percent <= r[j].percent {
        assert r[j] == s[j - 1];
        if i > 0 {
          assert r[i] == s[i - 1];
        }
      }
    } else {
      var t := s[1..];
      assert SortedByPercent(t);
      InsertSorted(e, t);
      InsertMembers(e, t);
      assert r == [s[0]] + Insert(e, t);
      forall j | 0 < j < |r| ensures s[0].percent <= r[j].percent {
        assert r[j] in Insert(e, t);
        if r[j] != e {
          var k :| 0 <= k < |t| && t[k] == r[j];
          assert s[k + 1] == t[k];
        }
      }
      forall i, j | 0 <= i < j < |r| ensures r[i].percent <= r[j].percent {
        if i > 0 {
          assert r[i] == Insert(e, t)[i - 1] && r[j] == Insert(e, t)[j - 1];
        }
      }
    }
  }

  /** The entries of a one-element list that carry percent `p`. */
  lemma WithPercentSingleton(x: DipEntry, p: real)
    ensures WithPercent([x], p) == if x.percent == p then [x] else []
  {
  }

  /** `e` goes in front of every entry of `s` that carries its percent. */
  lemma {:induction false} InsertStable(e: DipEntry, s: seq<DipEntry>, p: real)
    ensures WithPercent(Insert(e, s), p) == WithPercent([e], p) + WithPercent(s, p)
  {
    if s != [] && e.percent > s[0].percent {
      var t := s[1..];
      InsertStable(e, t, p);
      assert Insert(e, s) == [s[0]] + Insert(e, t);
      assert s == [s[0]] + t;
      WithPercentAppend([s[0]], Insert(e, t), p);
      WithPercentAppend([s[0]], t, p);
      WithPercentSingleton(s[0], p);
      WithPercentSingleton(e, p);
    } else {
      WithPercentAppend([e], s, p);
    }
  }

  /** The sorted list is ordered by percent. */
  lemma {:induction false} SortByPercentSorted(s: seq<DipEntry>)
    ensures SortedByPercent(SortByPercent(s))
  {
    if s != [] {
      SortByPercentSorted(s[1..]);
      InsertSorted(s[0], SortByPercent(s[1..]));
    }
  }

  /** The sorted list holds exactly the input's entries. */
  lemma {:induction false} SortByPercentPermutation(s: seq<DipEntry>)
    ensures multiset(SortByPercent(s)) == multiset(s)
  {
    if s != [] {
      SortByPercentPermutation(s[1..]);
      InsertPermutation(s[0], SortByPercent(s[1..]));
      assert s == [s[0]] + s[1..];
    }
  }

  /** The sort is stable: entries with equal percents keep their input order. */
  lemma {:induction false} SortByPercentStable(s: seq<DipEntry>)
    ensures StableReorder(s, SortByPercent(s))
  {
    if s != [] {
      SortByPercentStable(s[1..]);
      forall p ensures WithPercent(SortByPercent(s), p) == WithPercent(s, p) {
        InsertStable(s[0], SortByPercent(s[1..]), p);
        WithPercentAppend([s[0]], s[1..], p);
        assert s == [s[0]] + s[1..];
      }
    }
  }

  /** In a sorted list, the first entry carrying the list's smallest percent is its head. */
  lemma WithPercentHead(s: seq<DipEntry>)
    requires s != []
    ensures WithPercent(s, s[0].percent) == [s[0]] + WithPercent(s[1..], s[0].percent)
  {
  }

  /** A sorted list carries no percent below that of its first entry. */
  lemma {:induction false} SortedHeadIsLeast(s: seq<DipEntry>, p: real)
    requires SortedByPercent(s) && WithPercent(s, p) != []
    ensures s[0].percent <= p
  {
    if s[0].percent != p {
      var t := s[1..];
      assert WithPercent(t, p) != [];
      assert SortedByPercent(t);
      SortedHeadIsLeast(t, p);
      assert t[0] == s[1];
    }
  }

  /** Two non-empty sorted lists with the same entries per percent start with the same entry. */
  lemma SortedStableHeads(a: seq<DipEntry>, b: seq<DipEntry>)
    requires a != [] && b != []
    requires SortedByPercent(a) && SortedByPercent(b)
    requires forall p :: WithPercent(a, p) == WithPercent(b, p)
    ensures a[0] == b[0]
  {
    var p, q := a[0].percent, b[0].percent;
    WithPercentHead(a);
    WithPercentHead(b);
    assert WithPercent(b, p) == WithPercent(a, p) != [];
    assert WithPercent(a, q) == WithPercent(b, q) != [];
    SortedHeadIsLeast(b, p);
    SortedHeadIsLeast(a, q);
    assert WithPercent(a, p)[0] == a[0] && WithPercent(b, p)[0] == b[0];
  }

  /** Dropping the same first entry keeps two lists' per-percent entries equal. */
  lemma SameHeadTails(a: seq<DipEntry>, b: seq<DipEntry>, q: real)
    requires a != [] && b != [] && a[0] == b[0]
    requires WithPercent(a, q) == WithPercent(b, q)
    ensures WithPercent(a[1..], q) == WithPercent(b[1..], q)
  {
    assert a == [a[0]] + a[1..] && b == [b[0]] + b[1..];
    WithPercentAppend([a[0]], a[1..], q);
    WithPercentAppend([b[0]], b[1..], q);
    var head := WithPercent([a[0]], q);
    assert (head + WithPercent(a[1..], q))[|head|..] == WithPercent(a[1..], q);
    assert (head + WithPercent(b[1..], q))[|head|..] == WithPercent(b[1..], q);
  }

  /** Two sorted lists that agree, percent by percent, on their entries and order are equal:
      sortedness and stability together fix the result of any stable sort. */
  lemma {:induction false} SortedStableIsUnique(a: seq<DipEntry>, b: seq<DipEntry>)
    requires SortedByPercent(a) && SortedByPercent(b)
    requires forall p :: WithPercent(a, p) == WithPercent(b, p)
    ensures a == b
  {
    if a == [] && b == [] {
    } else if a == [] || b == [] {
      var c := if a == [] then b else a;
      WithPercentHead(c);
      assert false;
    } else {
      SortedStableHeads(a, b);
      forall q ensures WithPercent(a[1..], q) == WithPercent(b[1..], q) {
        SameHeadTails(a, b, q);
      }
      SortedStableIsUnique(a[1..], b[1..]);
      assert a == [a[0]] + a[1..] && b == [b[0]] + b[1..];
    }
  }

  /** What calculate_dip_data returns, stated without the sort: one entry per quote, ordered
      by percent, with ties in watchlist order; and the exceptions exactly when a quote lacks
      a field or has a zero average. */
  lemma RankingSpec(quotes: seq<Quote>)
    ensures Ranking(quotes).Success? <==> forall i :: 0 <= i < |quotes| ==> EntryOf(quotes[i]).Success?
    ensures Ranking(quotes).Success? ==>
              var ranked := Ranking(quotes).value;
              && |ranked| == |quotes|
              && SortedByPercent(ranked)
              && multiset(ranked) == multiset(DipPairs(quotes).value)
              && StableReorder(DipPairs(quotes).value, ranked)
  {
    DipPairsSuccess(quotes);
    if DipPairs(quotes).Success? {
      SortByPercentSorted(DipPairs(quotes).value);
      SortByPercentStable(DipPairs(quotes).value);
    }
  }

  /** The loop and sort of calculate_dip_data, with the provider's info snapshots passed in. */
  method CalculateDipData(quotes: seq<Quote>) returns (r: Result<seq<DipEntry>, DipError>)
    ensures r == Ranking(quotes)
  {
    var dipData: seq<DipEntry> := [];
    var i := 0;
    while i < |quotes|
      invariant 0 <= i <= |quotes|
      invariant DipPairs(quotes[..i]) == Success(dipData)
    {
      var q := quotes[i];
      assert quotes[..i + 1][..i] == quotes[..i];
      if q.currentPrice.None? || q.twoHundredDayAverage.None? {
        DipPairsFailurePersists(quotes, i + 1);
        return Failure(MissingField(q.ticker));
      }
      var price, average := q.currentPrice.value, q.twoHundredDayAverage.value;
      if average == 0.0 {
        DipPairsFailurePersists(quotes, i + 1);
        return Failure(ZeroAverage(q.ticker));
      }
      dipData := dipData + [DipEntry(q.ticker, ((price - average) / average) * 100.0)];
      i := i + 1;
    }
    assert quotes[..i] == quotes;
    r := Success(SortByPercent(dipData));
  }

  /** Three tickers 5% above, 3% below and 10% below their averages rank C, B, A. */
  lemma ThreeTickerExample()
    ensures Ranking([Quote("A", Some(105.0), Some(100.0)),
                     Quote("B", Some(97.0), Some(100.0)),
                     Quote("C", Some(90.0), Some(100.0))])
            == Success([DipEntry("C", -10.0), DipEntry("B", -3.0), DipEntry("A", 5.0)])
  {
    ThreeTickerPairs();
    ThreeTickerSort();
  }

  lemma ThreeTickerPairs()
    ensures DipPairs([Quote("A", Some(105.0), Some(100.0)),
                      Quote("B", Some(97.0), Some(100.0)),
                      Quote("C", Some(90.0), Some(100.0))])
            == Success([DipEntry("A", 5.0), DipEntry("B", -3.0), DipEntry("C", -10.0)])
  {
    var a, b, c := Quote("A", Some(105.0), Some(100.0)), Quote("B", Some(97.0), Some(100.0)),
                   Quote("C", Some(90.0), Some(100.0));
    var ea, eb, ec := DipEntry("A", 5.0), DipEntry("B", -3.0), DipEntry("C", -10.0);
    assert EntryOf(a) == Success(ea) && EntryOf(b) == Success(eb) && EntryOf(c) == Success(ec);
    assert [a, b, c][..2] == [a, b] && [a, b][..1] == [a] && [a][..0] == [];
    assert [] + [ea] == [ea] && [ea] + [eb] == [ea, eb];
    assert DipPairs([a]) == Success([ea]);
    assert DipPairs([a, b]) == Success([ea, eb]);
    assert [ea, eb] + [ec] == [ea, eb, ec];
  }

  lemma ThreeTickerSort()
    ensures SortByPercent([DipEntry("A", 5.0), DipEntry("B", -3.0), DipEntry("C", -10.0)])
            == [DipEntry("C", -10.0), DipEntry("B", -3.0), DipEntry("A", 5.0)]
  {
    var ea, eb, ec := DipEntry("A", 5.0), DipEntry("B", -3.0), DipEntry("C", -10.0);
    assert [ea, eb, ec][1..] == [eb, ec] && [eb, ec][1..] == [ec] && [ec][1..] == [];
    assert SortByPercent([ec]) == [ec];
    assert SortByPercent([eb, ec]) == Insert(eb, [ec]) == [ec, eb];
    assert Insert(ea, [eb]) == [eb, ea];
    assert Insert(ea, [ec, eb]) == [ec] + Insert(ea, [eb]);
  }
}
