/**
 The dataset read from the graph: history reduced to one snapshot per market and day, and the
 current day filled in from the reserves.
 */
module DefiDataset {
  import opened Wrappers
  import opened Dates

  /** The decimal fields, already parsed. */
  datatype Amounts = Amounts(
    supply: real, variableDebt: real, stableDebt: real, liquidity: real, utilization: real,
    liquidityRate: real, borrowRate: real, price: real)

  datatype GraphReserve = GraphReserve(
    id: string, underlyingAsset: string, symbol: string, name: string, decimals: int, amounts: Amounts)

  datatype HistoryItem = HistoryItem(reserveID: string, decimals: int, amounts: Amounts, timestamp: int)

  /** What both kinds of metric say about a market. */
  datatype Figures = Figures(
    suppliedUSD: real, borrowedUSD: real, availableUSD: real, utilization: real,
    supplyAPY: real, borrowAPY: real, priceUSD: real)

  datatype ReserveMetric = ReserveMetric(
    marketID: string, underlyingAsset: string, symbol: string, name: string, decimals: int,
    figures: Figures, demo: bool, observedAt: int)

  datatype SnapshotMetric = SnapshotMetric(marketID: string, figures: Figures, demo: bool, snapshotAt: int)

  datatype Dataset = Dataset(reserves: seq<ReserveMetric>, snapshots: seq<SnapshotMetric>, source: string)

  /** `Shift`: multiplication by a power of ten. */
  function Shift(x: real, n: int): real
    decreases if n < 0 then -n else n
  {
    if n == 0 then x else if n > 0 then Shift(x * 10.0, n - 1) else Shift(x / 10.0, n + 1)
  }

  const SECONDS_PER_YEAR := 31_536_000

  function Power(x: real, n: nat): real {
    if n == 0 then 1.0 else x * Power(x, n - 1)
  }

  /** What a rate comes to over `periods` periods of a year, each at its share of the rate. */
  function Compound(rate: real, periods: nat): real
    requires periods > 0
  {
    Power(1.0 + rate / periods as real, periods) - 1.0
  }

  /** Rates have 27 decimals and are compounded by the second; one that is not positive yields nothing. */
  function RayToAPY(rate: real): real {
    var apr := Shift(rate, -27);
    if apr <= 0.0 then 0.0 else Compound(apr, SECONDS_PER_YEAR)
  }

  function FiguresOf(a: Amounts, decimals: int): Figures {
    var price := Shift(a.price, -8);
    var supplied := Shift(a.supply, -decimals) * price;
    var borrowed := (Shift(a.variableDebt, -decimals) + Shift(a.stableDebt, -decimals)) * price;
    var utilization := if a.utilization == 0.0 && supplied > 0.0 then borrowed / supplied else a.utilization;
    Figures(supplied, borrowed, Shift(a.liquidity, -decimals) * price, utilization,
            RayToAPY(a.liquidityRate), RayToAPY(a.borrowRate), price)
  }

  lemma {:induction false} ShiftScales(x: real, n: int)
    ensures Shift(x, n) == x * Shift(1.0, n)
    ensures Shift(1.0, n) > 0.0
    decreases if n < 0 then -n else n
  {
    if n > 0 {
      ShiftScales(x * 10.0, n - 1);
      ShiftScales(1.0, n - 1);
      ShiftScales(10.0, n - 1);
    } else if n < 0 {
      ShiftScales(x / 10.0, n + 1);
      ShiftScales(1.0, n + 1);
      ShiftScales(0.1, n + 1);
    }
  }

  function Ten(n: nat): real {
    if n == 0 then 1.0 else 10.0 * Ten(n - 1)
  }

  /** Shifting by `-n` divides by the `n`-th power of ten. */
  lemma {:induction false} ShiftBack(x: real, n: int)
    requires n >= 0
    ensures Shift(x, -n) * Ten(n) == x
    decreases n
  {
    if n > 0 {
      ShiftBack(x / 10.0, n - 1);
      assert Shift(x, -n) == Shift(x / 10.0, -n + 1);
      TenTimes(Shift(x, -n), Ten(n - 1), x);
    }
  }

  lemma TenTimes(shifted: real, ten: real, x: real)
    requires shifted * ten == x / 10.0
    ensures shifted * (10.0 * ten) == x
  {
    assert shifted * (10.0 * ten) == 10.0 * (shifted * ten);
  }

  lemma PriceSays(a: Amounts, decimals: int)
    ensures FiguresOf(a, decimals).priceUSD == Shift(a.price, -8)
    ensures FiguresOf(a, decimals).priceUSD * Ten(8) == a.price
  {
    ShiftBack(a.price, 8);
  }

  lemma SuppliedSays(a: Amounts, decimals: nat)
    ensures FiguresOf(a, decimals).suppliedUSD * Ten(decimals) == a.supply * FiguresOf(a, decimals).priceUSD
  {
    ValueSays(a.supply, Shift(a.price, -8), decimals);
  }

  lemma AvailableSays(a: Amounts, decimals: nat)
    ensures FiguresOf(a, decimals).availableUSD * Ten(decimals) == a.liquidity * FiguresOf(a, decimals).priceUSD
  {
    ValueSays(a.liquidity, Shift(a.price, -8), decimals);
  }

  lemma BorrowedSays(a: Amounts, decimals: nat)
    ensures FiguresOf(a, decimals).borrowedUSD * Ten(decimals)
         == (a.variableDebt + a.stableDebt) * FiguresOf(a, decimals).priceUSD
  {
    DebtSays(a.variableDebt, a.stableDebt, Shift(a.price, -8), decimals);
  }

  /** A utilization that is given is taken as it is; another one is what is borrowed of what is supplied. */
  lemma UtilizationSays(a: Amounts, decimals: int)
    ensures var f := FiguresOf(a, decimals);
            f.utilization ==
              if a.utilization == 0.0 && f.suppliedUSD > 0.0 then f.borrowedUSD / f.suppliedUSD else a.utilization
  {
  }

  /**
   The figures of a market, field by field: prices have 8 decimals and amounts the token's, values are amounts at
   the price, debt is variable and stable debt together, and each yield comes from its own rate.
   */
  lemma FiguresSay(a: Amounts, decimals: nat)
    ensures FiguresOf(a, decimals).priceUSD * Ten(8) == a.price
    ensures FiguresOf(a, decimals).suppliedUSD * Ten(decimals) == a.supply * FiguresOf(a, decimals).priceUSD
    ensures FiguresOf(a, decimals).borrowedUSD * Ten(decimals)
         == (a.variableDebt + a.stableDebt) * FiguresOf(a, decimals).priceUSD
    ensures FiguresOf(a, decimals).availableUSD * Ten(decimals) == a.liquidity * FiguresOf(a, decimals).priceUSD
    ensures FiguresOf(a, decimals).supplyAPY == RayToAPY(a.liquidityRate)
    ensures FiguresOf(a, decimals).borrowAPY == RayToAPY(a.borrowRate)
  {
    PriceSays(a, decimals);
    SuppliedSays(a, decimals);
    BorrowedSays(a, decimals);
    AvailableSays(a, decimals);
  }

  lemma ValueSays(x: real, price: real, decimals: int)
    requires decimals >= 0
    ensures Shift(x, -decimals) * price * Ten(decimals) == x * price
  {
    ShiftBack(x, decimals);
    Swapped(Shift(x, -decimals), price, Ten(decimals));
  }

  lemma DebtSays(variableDebt: real, stableDebt: real, price: real, decimals: int)
    requires decimals >= 0
    ensures (Shift(variableDebt, -decimals) + Shift(stableDebt, -decimals)) * price * Ten(decimals)
         == (variableDebt + stableDebt) * price
  {
    ShiftBack(variableDebt, decimals);
    ShiftBack(stableDebt, decimals);
    var debt, ten := Shift(variableDebt, -decimals) + Shift(stableDebt, -decimals), Ten(decimals);
    Spread(Shift(variableDebt, -decimals), Shift(stableDebt, -decimals), ten);
    Swapped(debt, price, ten);
  }

  lemma Spread(x: real, y: real, ten: real)
    ensures (x + y) * ten == x * ten + y * ten
  {
  }

  lemma QuotientTimes(x: real, y: real)
    requires y > 0.0
    ensures x / y * y == x
  {
  }

  lemma Swapped(x: real, price: real, ten: real)
    ensures x * price * ten == (x * ten) * price
  {
  }

  /** Bernoulli's inequality. */
  lemma {:induction false} PowerAtLeast(y: real, n: nat)
    requires y >= 0.0
    ensures Power(1.0 + y, n) >= 1.0 + n as real * y
  {
    if n > 0 {
      PowerAtLeast(y, n - 1);
      PowerStep(y, n, Power(1.0 + y, n - 1));
    }
  }

  lemma PowerStep(y: real, n: nat, p: real)
    requires y >= 0.0 && n > 0 && p >= 1.0 + (n - 1) as real * y
    ensures (1.0 + y) * p >= 1.0 + n as real * y
  {
    NextStep(y, n);
    Between(1.0 + y, 1.0 + (n - 1) as real * y, p, 1.0 + n as real * y);
  }

  lemma Between(x: real, q: real, p: real, low: real)
    requires x >= 0.0 && q <= p && x * q >= low
    ensures x * p >= low
  {
    Monotone(x, q, p);
  }

  lemma Monotone(x: real, a: real, b: real)
    requires x >= 0.0 && a <= b
    ensures x * a <= x * b
  {
  }

  lemma NextStep(y: real, n: nat)
    requires y >= 0.0 && n > 0
    ensures (1.0 + y) * (1.0 + (n - 1) as real * y) >= 1.0 + n as real * y
  {
    var m := (n - 1) as real;
    assert n as real == m + 1.0;
    assert (1.0 + y) * (1.0 + m * y) == 1.0 + m * y + y + m * (y * y);
    Monotone(m, 0.0, y * y);
  }

  lemma {:induction false} TenIsPositive(n: nat)
    ensures Ten(n) > 0.0
  {
    if n > 0 { TenIsPositive(n - 1); }
  }

  /** The yield of a rate: the rate has 27 decimals and is compounded by the second of a year of 365 days. */
  lemma RaySays(rate: real) returns (apr: real)
    ensures apr * Ten(27) == rate && (apr <= 0.0 <==> rate <= 0.0)
    ensures rate <= 0.0 ==> RayToAPY(rate) == 0.0
    ensures rate > 0.0 ==> RayToAPY(rate) == Power(1.0 + apr / 31536000.0, SECONDS_PER_YEAR) - 1.0 >= apr
    ensures SECONDS_PER_YEAR == 365 * 24 * 60 * 60
  {
    apr := Shift(rate, -27);
    ShiftBack(rate, 27);
    TenIsPositive(27);
    SignOf(apr, Ten(27));
    if apr > 0.0 { YieldAtLeastRate(apr, SECONDS_PER_YEAR); }
  }

  lemma SignOf(x: real, y: real)
    requires y > 0.0
    ensures x * y <= 0.0 <==> x <= 0.0
  {
    if x > 0.0 { Positive(x, y); }
  }

  /** Compounding never yields less than the rate. */
  lemma YieldAtLeastRate(rate: real, periods: nat)
    requires rate > 0.0 && periods > 0
    ensures Compound(rate, periods) >= rate
  {
    var n := periods as real;
    PowerAtLeast(rate / n, periods);
    QuotientTimes(rate, n);
    assert n * (rate / n) == rate;
  }

  lemma CommonFactor(a: real, b: real, f: real)
    requires a > 0.0 && f > 0.0
    ensures (b * f) / (a * f) == b / a
  {
    assert (b / a) * (a * f) == b * f;
  }

  lemma DebtOverSupply(supply: real, variableDebt: real, stableDebt: real, f: real, price: real)
    requires supply > 0.0 && f > 0.0 && price > 0.0
    ensures supply * f * price > 0.0
    ensures (variableDebt * f + stableDebt * f) * price / (supply * f * price) == (variableDebt + stableDebt) / supply
  {
    Positive(f, price);
    Positive(supply, f * price);
    assert supply * f * price == supply * (f * price);
    assert (variableDebt * f + stableDebt * f) * price == (variableDebt + stableDebt) * (f * price);
    CommonFactor(supply, variableDebt + stableDebt, f * price);
  }

  /** A utilization that has to be derived depends neither on the price nor on the token's decimals. */
  lemma DerivedUtilization(a: Amounts, decimals: int)
    requires a.utilization == 0.0 && a.supply > 0.0 && a.price > 0.0
    ensures FiguresOf(a, decimals).utilization == (a.variableDebt + a.stableDebt) / a.supply
  {
    var f, price := Shift(1.0, -decimals), Shift(a.price, -8);
    ShiftScales(a.supply, -decimals);
    ShiftScales(a.variableDebt, -decimals);
    ShiftScales(a.stableDebt, -decimals);
    ShiftScales(a.price, -8);
    Positive(a.price, Shift(1.0, -8));
    DebtOverSupply(a.supply, a.variableDebt, a.stableDebt, f, price);
  }

  lemma Positive(x: real, y: real)
    requires x > 0.0 && y > 0.0
    ensures x * y > 0.0
  {
  }

  // ----- days and their keys -----

  const SECONDS_PER_DAY := 86400

  /** The UTC day that holds the second `at`; the quotient rounds down, also before the epoch. */
  function Day(at: int): int {
    at / SECONDS_PER_DAY
  }

  function Truncate(at: int): int {
    Day(at) * SECONDS_PER_DAY
  }

  lemma TruncateKeepsDay(at: int)
    ensures Day(Truncate(at)) == Day(at) && Truncate(at) <= at < Truncate(at) + SECONDS_PER_DAY
  {
  }

  /** A rendering of days as dates: different days look different, and no date contains a colon. */
  ghost predicate IsDateFormat(format: int -> string) {
    && (forall d, e :: format(d) == format(e) ==> d == e)
    && (forall d :: ':' !in format(d))
  }

  /** The calendar's `2006-01-02` is one. */
  type DateFormat = format: int -> string | IsDateFormat(format) witness DateOfDay()

  function DateOfDay(): (format: int -> string)
    ensures IsDateFormat(format) && forall day :: format(day) == DateString(day)
  {
    forall d, e ensures (DateString(d) == DateString(e) ==> d == e) && ':' !in DateString(d) { DateStringExact(d, e); }
    day => DateString(day)
  }

  function DayKey(marketID: string, at: int, format: DateFormat): string {
    marketID + ":" + format(Day(at))
  }

  lemma AfterLastColon(a: string, b: string, x: string, y: string)
    requires a + ":" + x == b + ":" + y && ':' !in x && ':' !in y
    ensures a == b && x == y
  {
    var s, t := a + ":" + x, b + ":" + y;
    assert s[|a|] == ':' && t[|b|] == ':';
    assert forall i :: |a| < i < |s| ==> s[i] == x[i - |a| - 1];
    assert forall i :: |b| < i < |t| ==> t[i] == y[i - |b| - 1];
    assert |a| == |b|;
    assert a == s[..|a|] && b == t[..|b|];
    assert x == s[|a| + 1..] && y == t[|b| + 1..];
  }

  /** The key tells markets and days apart, whatever characters market ids contain: the last colon is the separator. */
  lemma DayKeyInjective(m1: string, t1: int, m2: string, t2: int, format: DateFormat)
    ensures DayKey(m1, t1, format) == DayKey(m2, t2, format) <==> m1 == m2 && Day(t1) == Day(t2)
  {
    if DayKey(m1, t1, format) == DayKey(m2, t2, format) {
      AfterLastColon(m1, m2, format(Day(t1)), format(Day(t2)));
    }
  }

  /** So the keys that the code builds, market, colon and date, are equal for the same market and day only. */
  lemma DayKeysOfTheCalendar(m1: string, t1: int, m2: string, t2: int)
    ensures m1 + ":" + DateString(Day(t1)) == m2 + ":" + DateString(Day(t2)) <==> m1 == m2 && Day(t1) == Day(t2)
  {
    var d1, d2 := DateString(Day(t1)), DateString(Day(t2));
    DateStringExact(Day(t1), Day(t2));
    DateStringExact(Day(t2), Day(t1));
    if m1 + ":" + d1 == m2 + ":" + d2 { AfterLastColon(m1, m2, d1, d2); }
  }

  // ----- one snapshot per day -----

  function Slot(item: HistoryItem): (string, int) {
    (item.reserveID, Day(item.timestamp))
  }

  function SlotOf(s: SnapshotMetric): (string, int) {
    (s.marketID, Day(s.snapshotAt))
  }

  function SlotOfReserve(r: ReserveMetric): (string, int) {
    (r.marketID, Day(r.observedAt))
  }

  /** The items that are first in the list for their market and day. */
  function FirstPerSlot(items: seq<HistoryItem>, seen: set<(string, int)>): seq<HistoryItem>
    decreases |items|
  {
    if items == [] then []
    else if Slot(items[0]) in seen then FirstPerSlot(items[1..], seen)
    else [items[0]] + FirstPerSlot(items[1..], seen + {Slot(items[0])})
  }

  function SnapshotOf(item: HistoryItem): SnapshotMetric {
    SnapshotMetric(item.reserveID, FiguresOf(item.amounts, item.decimals), false, Truncate(item.timestamp))
  }

  function SnapshotsOf(items: seq<HistoryItem>): (r: seq<SnapshotMetric>)
    ensures |r| == |items| && forall i :: 0 <= i < |items| ==> r[i] == SnapshotOf(items[i])
  {
    if items == [] then [] else [SnapshotOf(items[0])] + SnapshotsOf(items[1..])
  }

  /** A snapshot stands at the start of its item's day and has the figures of the item. */
  lemma SnapshotSays(item: HistoryItem)
    ensures var r := SnapshotOf(item);
            && r.marketID == item.reserveID && r.figures == FiguresOf(item.amounts, item.decimals) && !r.demo
            && r.snapshotAt % 86400 == 0 && r.snapshotAt <= item.timestamp < r.snapshotAt + 86400
  {
    TruncateKeepsDay(item.timestamp);
  }

  function ReserveOf(g: GraphReserve, observedAt: int, upper: string -> string): ReserveMetric {
    ReserveMetric(g.id, g.underlyingAsset, upper(g.symbol), g.name, g.decimals,
                  FiguresOf(g.amounts, g.decimals), false, observedAt)
  }

  /** `seenDays` holds exactly the keys of `seen`. */
  ghost predicate KeysOf(seenDays: set<string>, seen: set<(string, int)>, format: DateFormat) {
    forall m, t :: DayKey(m, t, format) in seenDays <==> (m, Day(t)) in seen
  }

  lemma KeysAdd(seenDays: set<string>, seen: set<(string, int)>, format: DateFormat, marketID: string, at: int)
    requires KeysOf(seenDays, seen, format)
    ensures KeysOf(seenDays + {DayKey(marketID, at, format)}, seen + {(marketID, Day(at))}, format)
  {
    forall m, t
      ensures DayKey(m, t, format) in seenDays + {DayKey(marketID, at, format)}
          <==> (m, Day(t)) in seen + {(marketID, Day(at))}
    {
      DayKeyInjective(m, t, marketID, at, format);
    }
  }

  /** `MapDataset` on the decoded response. */
  method MapDataset(errors: seq<string>, graphReserves: seq<GraphReserve>, history: seq<HistoryItem>, observedAt: int,
                    upper: string -> string, format: DateFormat)
    returns (r: Result<Dataset, string>)
    ensures errors != [] ==> r.Failure? && r.error == errors[0]
    ensures errors == [] ==>
              && r.Success? && r.value.source == "graph"
              && r.value.reserves == seq(|graphReserves|,
                  i requires 0 <= i < |graphReserves| => ReserveOf(graphReserves[i], observedAt, upper))
              && (forall i :: 0 <= i < |graphReserves| ==>
                    var m, g := r.value.reserves[i], graphReserves[i];
                    && m.marketID == g.id && m.underlyingAsset == g.underlyingAsset && m.symbol == upper(g.symbol)
                    && m.name == g.name && m.decimals == g.decimals && m.figures == FiguresOf(g.amounts, g.decimals)
                    && !m.demo && m.observedAt == observedAt)
              && r.value.snapshots == SnapshotsOf(FirstPerSlot(history, {}))
  {
    if |errors| > 0 { return Failure(errors[0]); }
    var reserves: seq<ReserveMetric> := [];
    for i := 0 to |graphReserves|
      invariant |reserves| == i && forall j :: 0 <= j < i ==>
          reserves[j] == ReserveOf(graphReserves[j], observedAt, upper)
    {
      reserves := reserves + [ReserveOf(graphReserves[i], observedAt, upper)];
    }
    var snapshots := DropRepeatedDays(history, format);
    r := Success(Dataset(reserves, snapshots, "graph"));
  }

  method DropRepeatedDays(history: seq<HistoryItem>, format: DateFormat)
    returns (snapshots: seq<SnapshotMetric>)
    ensures snapshots == SnapshotsOf(FirstPerSlot(history, {}))
  {
    snapshots := [];
    var seenDays: set<string> := {};
    ghost var seen: set<(string, int)> := {};
    ghost var kept: seq<HistoryItem> := [];
    for i := 0 to |history|
      invariant KeysOf(seenDays, seen, format)
      invariant kept + FirstPerSlot(history[i..], seen) == FirstPerSlot(history, {})
      invariant snapshots == SnapshotsOf(kept)
    {
      var item := history[i];
      FirstStep(kept, history, i, seen);
      TruncateKeepsDay(item.timestamp);
      var key := DayKey(item.reserveID, Truncate(item.timestamp), format);
      if key in seenDays { continue; }
      KeysAdd(seenDays, seen, format, item.reserveID, Truncate(item.timestamp));
      seenDays := seenDays + {key};
      seen := seen + {Slot(item)};
      SnapshotsSnoc(kept, item);
      snapshots := snapshots + [SnapshotOf(item)];
      kept := kept + [item];
    }
  }

  lemma SnapshotsSnoc(items: seq<HistoryItem>, item: HistoryItem)
    ensures SnapshotsOf(items + [item]) == SnapshotsOf(items) + [SnapshotOf(item)]
  {
  }

  lemma FirstStep(kept: seq<HistoryItem>, items: seq<HistoryItem>, i: nat, seen: set<(string, int)>)
    requires i < |items|
    ensures kept + FirstPerSlot(items[i..], seen) ==
            if Slot(items[i]) in seen then kept + FirstPerSlot(items[i + 1..], seen)
            else kept + [items[i]] + FirstPerSlot(items[i + 1..], seen + {Slot(items[i])})
  {
    assert items[i..][0] == items[i] && items[i..][1..] == items[i + 1..];
  }

  lemma {:induction false} KeptAreNew(items: seq<HistoryItem>, seen: set<(string, int)>)
    ensures forall k :: k in FirstPerSlot(items, seen) ==> k in items && Slot(k) !in seen
    decreases |items|
  {
    if items != [] {
      KeptAreNew(items[1..], if Slot(items[0]) in seen then seen else seen + {Slot(items[0])});
      assert items == [items[0]] + items[1..];
    }
  }

  ghost predicate DistinctSlots(items: seq<HistoryItem>) {
    forall i, j :: 0 <= i < j < |items| ==> Slot(items[i]) != Slot(items[j])
  }

  /** No market and day is kept twice. */
  lemma {:induction false} KeptOnce(items: seq<HistoryItem>, seen: set<(string, int)>)
    ensures DistinctSlots(FirstPerSlot(items, seen))
    decreases |items|
  {
    if items != [] {
      var seen' := if Slot(items[0]) in seen then seen else seen + {Slot(items[0])};
      KeptOnce(items[1..], seen');
      KeptAreNew(items[1..], seen');
      var kept, rest := FirstPerSlot(items, seen), FirstPerSlot(items[1..], seen');
      if Slot(items[0]) !in seen {
        assert kept == [items[0]] + rest;
        forall i, j | 0 <= i < j < |kept| ensures Slot(kept[i]) != Slot(kept[j]) {
          assert kept[j] == rest[j - 1] && rest[j - 1] in rest;
          if i > 0 {
            assert kept[i] == rest[i - 1];
            assert Slot(rest[i - 1]) != Slot(rest[j - 1]);
          } else {
            assert kept[i] == items[0];
            assert Slot(items[0]) in seen';
            assert Slot(kept[j]) !in seen';
          }
        }
      }
    }
  }

  /** Every market and day outside `seen` is kept, by an item that is not listed after it. */
  lemma {:induction false} EarliestKept(items: seq<HistoryItem>, seen: set<(string, int)>, n: nat) returns (p: nat)
    requires n < |items| && Slot(items[n]) !in seen
    ensures p <= n && items[p] in FirstPerSlot(items, seen) && Slot(items[p]) == Slot(items[n])
    ensures forall o :: 0 <= o < |items| && Slot(items[o]) == Slot(items[n]) ==> p <= o
    decreases |items|
  {
    if Slot(items[0]) == Slot(items[n]) {
      p := 0;
    } else {
      var seen' := if Slot(items[0]) in seen then seen else seen + {Slot(items[0])};
      var q := EarliestKept(items[1..], seen', n - 1);
      p := q + 1;
      forall o | 0 <= o < |items| && Slot(items[o]) == Slot(items[n]) ensures p <= o {
        assert items[1..][o - 1] == items[o];
      }
    }
  }

  ghost predicate OnePerDay(snapshots: seq<SnapshotMetric>) {
    forall i, j :: 0 <= i < j < |snapshots| ==> SlotOf(snapshots[i]) != SlotOf(snapshots[j])
  }

  /** The snapshots kept from history: at most one per market and day. */
  lemma HistoryOnePerDay(history: seq<HistoryItem>)
    ensures OnePerDay(SnapshotsOf(FirstPerSlot(history, {})))
  {
    KeptOnce(history, {});
    SlotsKept(FirstPerSlot(history, {}));
  }

  /** With history in descending time order, the one kept for a market and day is its latest. */
  lemma HistoryKeepsLatest(history: seq<HistoryItem>, n: nat) returns (latest: HistoryItem)
    requires forall i, j :: 0 <= i < j < |history| ==> history[i].timestamp >= history[j].timestamp
    requires n < |history|
    ensures latest in history && Slot(latest) == Slot(history[n])
    ensures SnapshotOf(latest) in SnapshotsOf(FirstPerSlot(history, {}))
    ensures forall o :: o in history && Slot(o) == Slot(latest) ==> o.timestamp <= latest.timestamp
  {
    var p := EarliestKept(history, {}, n);
    latest := history[p];
    var kept := FirstPerSlot(history, {});
    var i :| 0 <= i < |kept| && kept[i] == latest;
    assert SnapshotsOf(kept)[i] == SnapshotOf(latest);
    forall o | o in history && Slot(o) == Slot(latest) ensures o.timestamp <= latest.timestamp {
      var q :| 0 <= q < |history| && history[q] == o;
    }
  }

  lemma SlotsKept(items: seq<HistoryItem>)
    ensures forall i :: 0 <= i < |items| ==> SlotOf(SnapshotsOf(items)[i]) == Slot(items[i])
  {
    forall i | 0 <= i < |items| ensures SlotOf(SnapshotsOf(items)[i]) == Slot(items[i]) {
      TruncateKeepsDay(items[i].timestamp);
    }
  }

  // ----- the current day -----

  function SnapshotFromReserve(r: ReserveMetric): SnapshotMetric {
    SnapshotMetric(r.marketID, r.figures, r.demo, r.observedAt)
  }

  function SlotsOf(snapshots: seq<SnapshotMetric>): set<(string, int)> {
    set i | 0 <= i < |snapshots| :: SlotOf(snapshots[i])
  }

  /** The reserves that history has no snapshot for on their day of observation. */
  function Unrecorded(reserves: seq<ReserveMetric>, recorded: set<(string, int)>): seq<ReserveMetric> {
    if reserves == [] then []
    else
      var last := |reserves| - 1;
      Unrecorded(reserves[..last], recorded) +
      if SlotOfReserve(reserves[last]) in recorded then [] else [reserves[last]]
  }

  function FromReserves(reserves: seq<ReserveMetric>): (r: seq<SnapshotMetric>)
    ensures |r| == |reserves| && forall i :: 0 <= i < |reserves| ==> r[i] == SnapshotFromReserve(reserves[i])
  {
    if reserves == [] then []
    else FromReserves(reserves[..|reserves| - 1]) + [SnapshotFromReserve(reserves[|reserves| - 1])]
  }

  function Filled(d: Dataset): Dataset {
    d.(snapshots := d.snapshots + FromReserves(Unrecorded(d.reserves, SlotsOf(d.snapshots))))
  }

  /** `Load`, after the fetch. */
  method Load(fetched: Dataset, format: DateFormat) returns (dataset: Dataset)
    ensures dataset == Filled(fetched)
  {
    var existing := RecordedKeys(fetched.snapshots, format);
    var missing := MissingSnapshots(fetched.reserves, existing, SlotsOf(fetched.snapshots), format);
    dataset := fetched.(snapshots := fetched.snapshots + missing);
  }

  method RecordedKeys(snapshots: seq<SnapshotMetric>, format: DateFormat) returns (existing: set<string>)
    ensures KeysOf(existing, SlotsOf(snapshots), format)
  {
    existing := {};
    for i := 0 to |snapshots|
      invariant KeysOf(existing, SlotsOf(snapshots[..i]), format)
    {
      var s := snapshots[i];
      KeysAdd(existing, SlotsOf(snapshots[..i]), format, s.marketID, s.snapshotAt);
      existing := existing + {DayKey(s.marketID, s.snapshotAt, format)};
      SlotsSnoc(snapshots, i);
    }
    assert snapshots[..|snapshots|] == snapshots;
  }

  method MissingSnapshots(
      reserves: seq<ReserveMetric>, existing: set<string>, ghost recorded: set<(string, int)>, format: DateFormat)
    returns (snapshots: seq<SnapshotMetric>)
    requires KeysOf(existing, recorded, format)
    ensures snapshots == FromReserves(Unrecorded(reserves, recorded))
  {
    snapshots := [];
    for i := 0 to |reserves|
      invariant snapshots == FromReserves(Unrecorded(reserves[..i], recorded))
    {
      var r := reserves[i];
      UnrecordedSnoc(reserves, i, recorded);
      if DayKey(r.marketID, r.observedAt, format) !in existing {
        snapshots := snapshots + [SnapshotFromReserve(r)];
      }
    }
    assert reserves[..|reserves|] == reserves;
  }

  lemma UnrecordedSnoc(reserves: seq<ReserveMetric>, i: nat, recorded: set<(string, int)>)
    requires i < |reserves|
    ensures FromReserves(Unrecorded(reserves[..i + 1], recorded)) == FromReserves(Unrecorded(reserves[..i], recorded))
            + if SlotOfReserve(reserves[i]) in recorded then [] else [SnapshotFromReserve(reserves[i])]
  {
    var before := Unrecorded(reserves[..i], recorded);
    assert reserves[..i + 1][..i] == reserves[..i];
    assert (before + [reserves[i]])[..|before|] == before;
  }

  lemma SlotsSnoc(snapshots: seq<SnapshotMetric>, i: nat)
    requires i < |snapshots|
    ensures SlotsOf(snapshots[..i + 1]) == SlotsOf(snapshots[..i]) + {SlotOf(snapshots[i])}
  {
    var a, b := snapshots[..i + 1], snapshots[..i];
    forall x | x in SlotsOf(a) ensures x in SlotsOf(b) + {SlotOf(snapshots[i])} {
      var j :| 0 <= j < |a| && SlotOf(a[j]) == x;
      if j < i { assert b[j] == a[j]; }
    }
    forall x | x in SlotsOf(b) ensures x in SlotsOf(a) {
      var j :| 0 <= j < |b| && SlotOf(b[j]) == x;
      assert a[j] == b[j];
    }
    assert a[i] == snapshots[i];
  }

  lemma {:induction false} UnrecordedAre(reserves: seq<ReserveMetric>, recorded: set<(string, int)>)
    ensures forall r :: r in Unrecorded(reserves, recorded) <==> r in reserves && SlotOfReserve(r) !in recorded
  {
    if reserves != [] {
      UnrecordedAre(reserves[..|reserves| - 1], recorded);
      assert reserves == reserves[..|reserves| - 1] + [reserves[|reserves| - 1]];
    }
  }

  /** After the fill every reserve has a snapshot on its day of observation, and no recorded one was touched. */
  lemma EveryReserveHasItsDay(d: Dataset)
    ensures d.snapshots <= Filled(d).snapshots
    ensures forall r :: r in d.reserves ==> exists s :: s in Filled(d).snapshots && SlotOf(s) == SlotOfReserve(r)
  {
    var missing := Unrecorded(d.reserves, SlotsOf(d.snapshots));
    UnrecordedAre(d.reserves, SlotsOf(d.snapshots));
    forall r | r in d.reserves ensures exists s :: s in Filled(d).snapshots && SlotOf(s) == SlotOfReserve(r) {
      if r in missing {
        var i :| 0 <= i < |missing| && missing[i] == r;
        assert Filled(d).snapshots[|d.snapshots| + i] == SnapshotFromReserve(r);
        assert SlotOf(Filled(d).snapshots[|d.snapshots| + i]) == SlotOfReserve(r);
      } else {
        var i :| 0 <= i < |d.snapshots| && SlotOf(d.snapshots[i]) == SlotOfReserve(r);
        assert Filled(d).snapshots[i] in Filled(d).snapshots && Filled(d).snapshots[i] == d.snapshots[i];
      }
    }
  }

  /**
   What the fill adds are exactly the unrecorded reserves: their market, figures and demo mark, at their
   observation.
   */
  lemma FillSays(d: Dataset)
    ensures d.snapshots <= Filled(d).snapshots
    ensures forall r :: r in d.reserves && SlotOfReserve(r) !in SlotsOf(d.snapshots) ==>
              SnapshotMetric(r.marketID, r.figures, r.demo, r.observedAt) in Filled(d).snapshots
    ensures forall s :: s in Filled(d).snapshots && s !in d.snapshots ==>
              exists r :: r in d.reserves && s == SnapshotMetric(r.marketID, r.figures, r.demo, r.observedAt)
  {
    var missing := Unrecorded(d.reserves, SlotsOf(d.snapshots));
    UnrecordedAre(d.reserves, SlotsOf(d.snapshots));
    forall r | r in d.reserves && SlotOfReserve(r) !in SlotsOf(d.snapshots)
      ensures SnapshotMetric(r.marketID, r.figures, r.demo, r.observedAt) in Filled(d).snapshots
    {
      var i :| 0 <= i < |missing| && missing[i] == r;
      assert Filled(d).snapshots[|d.snapshots| + i] == SnapshotFromReserve(r);
    }
    forall s | s in Filled(d).snapshots && s !in d.snapshots
      ensures exists r :: r in d.reserves && s == SnapshotMetric(r.marketID, r.figures, r.demo, r.observedAt)
    {
      var i :| 0 <= i < |missing| && FromReserves(missing)[i] == s;
      assert missing[i] in missing;
    }
  }

  ghost predicate DistinctReserveSlots(reserves: seq<ReserveMetric>) {
    forall i, j :: 0 <= i < j < |reserves| ==> SlotOfReserve(reserves[i]) != SlotOfReserve(reserves[j])
  }

  ghost predicate DistinctMarkets(reserves: seq<ReserveMetric>) {
    forall i, j :: 0 <= i < j < |reserves| ==> reserves[i].marketID != reserves[j].marketID
  }

  /**
   One snapshot per market and day survives the fill exactly when no two unrecorded reserves share a
   market and day: the fill does not look at what it has just added.
   */
  lemma FillKeepsOnePerDay(d: Dataset)
    requires OnePerDay(d.snapshots)
    ensures var missing := Unrecorded(d.reserves, SlotsOf(d.snapshots));
            OnePerDay(Filled(d).snapshots) <==> DistinctReserveSlots(missing)
  {
    var missing := Unrecorded(d.reserves, SlotsOf(d.snapshots));
    var filler := FromReserves(missing);
    UnrecordedAre(d.reserves, SlotsOf(d.snapshots));
    assert forall i :: 0 <= i < |missing| ==> missing[i] in missing && SlotOf(filler[i]) == SlotOfReserve(missing[i]);
    OnePerDayConcat(d.snapshots, filler);
    FillerSlots(missing);
  }

  lemma FillerSlots(missing: seq<ReserveMetric>)
    ensures OnePerDay(FromReserves(missing)) <==> DistinctReserveSlots(missing)
  {
    var filler := FromReserves(missing);
    assert forall i :: 0 <= i < |missing| ==> SlotOf(filler[i]) == SlotOfReserve(missing[i]);
    if !OnePerDay(filler) {
      var i, j :| 0 <= i < j < |filler| && SlotOf(filler[i]) == SlotOf(filler[j]);
      assert SlotOfReserve(missing[i]) == SlotOfReserve(missing[j]);
    }
    if !DistinctReserveSlots(missing) {
      var i, j :| 0 <= i < j < |missing| && SlotOfReserve(missing[i]) == SlotOfReserve(missing[j]);
      assert SlotOf(filler[i]) == SlotOf(filler[j]);
    }
  }

  lemma OnePerDayConcat(a: seq<SnapshotMetric>, b: seq<SnapshotMetric>)
    requires OnePerDay(a)
    requires forall j :: 0 <= j < |b| ==> SlotOf(b[j]) !in SlotsOf(a)
    ensures OnePerDay(a + b) <==> OnePerDay(b)
  {
    var all := a + b;
    if OnePerDay(b) {
      forall i, j | 0 <= i < j < |all| ensures SlotOf(all[i]) != SlotOf(all[j]) {
        if i < |a| <= j { assert SlotOf(a[i]) in SlotsOf(a) && all[j] == b[j - |a|]; }
      }
    }
    if OnePerDay(all) {
      forall i, j | 0 <= i < j < |b| ensures SlotOf(b[i]) != SlotOf(b[j]) {
        assert all[|a| + i] == b[i] && all[|a| + j] == b[j];
      }
    }
  }

  /** In particular it survives when the reserves have distinct market ids. */
  lemma DistinctMarketsStayOnePerDay(d: Dataset)
    requires OnePerDay(d.snapshots)
    requires DistinctMarkets(d.reserves)
    ensures OnePerDay(Filled(d).snapshots)
  {
    FillKeepsOnePerDay(d);
    UnrecordedDistinct(d.reserves, SlotsOf(d.snapshots));
  }

  lemma {:induction false} UnrecordedDistinct(reserves: seq<ReserveMetric>, recorded: set<(string, int)>)
    requires DistinctMarkets(reserves)
    ensures DistinctMarkets(Unrecorded(reserves, recorded))
  {
    if reserves != [] {
      var last := |reserves| - 1;
      UnrecordedDistinct(reserves[..last], recorded);
      UnrecordedAre(reserves[..last], recorded);
      var before, missing := Unrecorded(reserves[..last], recorded), Unrecorded(reserves, recorded);
      forall i, j | 0 <= i < j < |missing| ensures missing[i].marketID != missing[j].marketID {
        assert i < |before| && missing[i] == before[i];
        if j == |before| {
          assert before[i] in before;
          var k :| 0 <= k < last && reserves[..last][k] == before[i];
          assert reserves[k] == before[i] && missing[j] == reserves[last];
        } else {
          assert missing[j] == before[j];
        }
      }
    }
  }
}
