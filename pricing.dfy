/** The pricing view model of app.js: catalog rows and the prices derived from
    them, the input clamps, the search filter with its session-cost
    annotation, the table comparator and sort, the sort-header toggle and the
    display rate. Prices and token counts are exact reals. */
module Pricing {
  import opened Text
  import opened Lists
  import opened Sorting

  const TokensPerMillion: real := 1000000.0
  /** Bounds of the two numeric token fields. */
  const MaxTokens: real := 10000000000.0
  /** Bounds of the exchange-rate field. */
  const MinFx: real := 1.0
  const MaxFx: real := 10000.0

  /** One entry of the fetched catalog. */
  datatype CatalogRow = CatalogRow(
    modelName: string,
    provider: string,
    inputPricePer1M: real,
    outputPricePer1M: real)

  /** A catalog row with the fields the fetch handler adds to it. */
  datatype DerivedRow = DerivedRow(
    catalog: CatalogRow,
    inputPricePerToken: real,
    outputPricePerToken: real,
    totalPer1M: real)

  /** A row of the card grid: a derived row with its estimated session cost. */
  datatype DisplayRow = DisplayRow(row: DerivedRow, estCostUsd: real)

  datatype Dir = Asc | Desc
  datatype Currency = USD | EGP

  /** The table's sort column and direction. */
  datatype SortState = SortState(key: string, dir: Dir)

  // ---------------------------------------------------------------------------
  // Clamp

  /** Math.max(lo, Math.min(hi, n)). */
  function Clamp(n: real, lo: real, hi: real): (r: real)
    ensures lo <= hi ==> lo <= r <= hi
    ensures lo <= n <= hi ==> r == n
    ensures n < lo ==> r == lo
    ensures lo <= hi < n ==> r == hi
    ensures hi < lo ==> r == lo
  {
    var m := if hi < n then hi else n;
    if lo > m then lo else m
  }

  /** Clamping a clamped value changes nothing. */
  lemma ClampIdempotent(n: real, lo: real, hi: real)
    ensures Clamp(Clamp(n, lo, hi), lo, hi) == Clamp(n, lo, hi)
  {
  }

  // ---------------------------------------------------------------------------
  // Row derivation

  /** The per-token prices and the total per million tokens agree with the
      catalog prices of the row. */
  predicate WellDerived(d: DerivedRow) {
    && d.inputPricePerToken * TokensPerMillion == d.catalog.inputPricePer1M
    && d.outputPricePerToken * TokensPerMillion == d.catalog.outputPricePer1M
    && d.totalPer1M == d.catalog.inputPricePer1M + d.catalog.outputPricePer1M
  }

  /** The mapping the fetch handler applies to each catalog row. */
  function Derive(c: CatalogRow): (d: DerivedRow)
    ensures d.catalog == c
    ensures WellDerived(d)
  {
    DerivedRow(
      c,
      c.inputPricePer1M / TokensPerMillion,
      c.outputPricePer1M / TokensPerMillion,
      c.inputPricePer1M + c.outputPricePer1M)
  }

  /** A derived row is fixed by its catalog row: it is well derived exactly
      when it is what Derive makes of its catalog fields. */
  lemma WellDerivedIff(d: DerivedRow)
    ensures WellDerived(d) <==> d == Derive(d.catalog)
  {
    if WellDerived(d) {
      assert d.inputPricePerToken == d.catalog.inputPricePer1M / TokensPerMillion;
      assert d.outputPricePerToken == d.catalog.outputPricePer1M / TokensPerMillion;
    }
  }

  /** The catalog rows underneath derived rows. */
  function Catalog(rows: seq<DerivedRow>): seq<CatalogRow> {
    seq(|rows|, i requires 0 <= i < |rows| => rows[i].catalog)
  }

  /** `data.map(...)`: every catalog row, in order, with its derived prices. */
  function DeriveRows(data: seq<CatalogRow>): (rows: seq<DerivedRow>)
    ensures |rows| == |data|
    ensures forall i :: 0 <= i < |data| ==> rows[i].catalog == data[i]
    ensures forall d :: d in rows ==> WellDerived(d)
  {
    seq(|data|, i requires 0 <= i < |data| => Derive(data[i]))
  }

  /** Derivation keeps every original field: the catalog comes back out. */
  lemma DeriveRowsKeepsCatalog(data: seq<CatalogRow>)
    ensures Catalog(DeriveRows(data)) == data
  {
  }

  // ---------------------------------------------------------------------------
  // Search filter and cost annotation

  /** `q.trim().toLowerCase()`. */
  function SearchTerm(q: string): (term: string)
    ensures |term| <= |q|
    ensures term == [] <==> AllWhitespace(q)
    ensures forall i :: 0 <= i < |term| ==> !('A' <= term[i] <= 'Z')
  {
    assert Trim(q) == [] <==> AllWhitespace(q) by { TrimEmptyIff(q); }
    LowerAscii(Trim(q))
  }

  /** The filter's test: no term, or the term occurs in the lower-cased model
      name or provider. */
  predicate Matches(term: string, d: DerivedRow)
    ensures Matches(term, d) <==>
      || term == []
      || (exists i :: OccursAt(LowerAscii(d.catalog.modelName), term, i))
      || (exists i :: OccursAt(LowerAscii(d.catalog.provider), term, i))
  {
    IncludesIff(LowerAscii(d.catalog.modelName), term);
    IncludesIff(LowerAscii(d.catalog.provider), term);
    || term == []
    || Includes(LowerAscii(d.catalog.modelName), term)
    || Includes(LowerAscii(d.catalog.provider), term)
  }

  function MatcherFor(term: string): DerivedRow -> bool {
    d => Matches(term, d)
  }

  /** `rows.filter(...)` for the search box contents `q`. */
  function FilterRows(rows: seq<DerivedRow>, q: string): (kept: seq<DerivedRow>)
    ensures |kept| <= |rows|
    ensures IsSubsequence(kept, rows)
    ensures forall d :: d in kept <==> d in rows && Matches(SearchTerm(q), d)
  {
    var keep := MatcherFor(SearchTerm(q));
    FilterIsSubsequence(rows, keep);
    assert forall d :: d in Filter(rows, keep) <==> d in rows && Matches(SearchTerm(q), d) by {
      forall d ensures d in Filter(rows, keep) <==> d in rows && Matches(SearchTerm(q), d) {
        FilterMembers(rows, keep, d);
      }
    }
    Filter(rows, keep)
  }

  /** `cost` is what `inTokens` and `outTokens` cost at the catalog prices
      per million tokens of `c`. */
  predicate CostsAt(cost: real, c: CatalogRow, inTokens: real, outTokens: real) {
    cost * TokensPerMillion == inTokens * c.inputPricePer1M + outTokens * c.outputPricePer1M
  }

  /** `inTokens * input_price_per_token + outTokens * output_price_per_token`. */
  function EstCost(d: DerivedRow, inTokens: real, outTokens: real): (c: real)
    ensures WellDerived(d) ==> CostsAt(c, d.catalog, inTokens, outTokens)
    ensures (0.0 <= inTokens && 0.0 <= outTokens
             && 0.0 <= d.inputPricePerToken && 0.0 <= d.outputPricePerToken) ==> 0.0 <= c
  {
    inTokens * d.inputPricePerToken + outTokens * d.outputPricePerToken
  }

  /** The `.map(...)` step: the row with its estimated cost. */
  function Annotate(d: DerivedRow, inTokens: real, outTokens: real): (e: DisplayRow)
    ensures e.row == d
    ensures WellDerived(d) ==> CostsAt(e.estCostUsd, d.catalog, inTokens, outTokens)
  {
    DisplayRow(d, EstCost(d, inTokens, outTokens))
  }

  /** The `filtered` memo: filter, then annotate. */
  function Filtered(rows: seq<DerivedRow>, q: string, inTokens: real, outTokens: real): (cards: seq<DisplayRow>)
    ensures Rows(cards) == FilterRows(rows, q)
    ensures forall e :: e in cards ==> e.estCostUsd == EstCost(e.row, inTokens, outTokens)
  {
    var kept := FilterRows(rows, q);
    seq(|kept|, i requires 0 <= i < |kept| => Annotate(kept[i], inTokens, outTokens))
  }

  /** The derived rows underneath display rows. */
  function Rows(cards: seq<DisplayRow>): seq<DerivedRow> {
    seq(|cards|, i requires 0 <= i < |cards| => cards[i].row)
  }

  /** A row is shown exactly when it is in the catalog and matches the term. */
  lemma FilteredKeepsIff(rows: seq<DerivedRow>, q: string, inTokens: real, outTokens: real, d: DerivedRow)
    ensures d in Rows(Filtered(rows, q, inTokens, outTokens))
        <==> d in rows && Matches(SearchTerm(q), d)
  {
    FilterMembers(rows, MatcherFor(SearchTerm(q)), d);
  }

  /** The shown rows keep their catalog order. */
  lemma FilteredInOrder(rows: seq<DerivedRow>, q: string, inTokens: real, outTokens: real)
    ensures IsSubsequence(Rows(Filtered(rows, q, inTokens, outTokens)), rows)
  {
    FilterIsSubsequence(rows, MatcherFor(SearchTerm(q)));
  }

  /** An empty or all-white-space search shows every row, in catalog order. */
  lemma BlankSearchShowsAll(rows: seq<DerivedRow>, q: string, inTokens: real, outTokens: real)
    requires AllWhitespace(q)
    ensures Rows(Filtered(rows, q, inTokens, outTokens)) == rows
  {
    TrimEmptyIff(q);
    FilterAll(rows, MatcherFor(SearchTerm(q)));
  }

  /** A term that no row matches shows nothing. */
  lemma UnmatchedSearchShowsNone(rows: seq<DerivedRow>, q: string, inTokens: real, outTokens: real)
    requires forall d :: d in rows ==> !Matches(SearchTerm(q), d)
    ensures Filtered(rows, q, inTokens, outTokens) == []
  {
    FilterNone(rows, MatcherFor(SearchTerm(q)));
  }

  /** The search ignores the case of the ASCII letters typed. */
  lemma SearchIgnoresCase(rows: seq<DerivedRow>, q: string)
    ensures FilterRows(rows, LowerAscii(q)) == FilterRows(rows, q)
  {
    TrimLower(q);
    LowerAsciiIdempotent(Trim(q));
  }

  /** Every card shows a matching catalog row with the cost of its prices. */
  lemma CardsFromRows(rows: seq<DerivedRow>, q: string, inTokens: real, outTokens: real)
    ensures forall e :: e in Filtered(rows, q, inTokens, outTokens) ==>
      && e.row in rows
      && Matches(SearchTerm(q), e.row)
      && e.estCostUsd == EstCost(e.row, inTokens, outTokens)
  {
    var cards := Filtered(rows, q, inTokens, outTokens);
    forall e | e in cards ensures e.row in rows && Matches(SearchTerm(q), e.row) {
      var i :| 0 <= i < |cards| && cards[i] == e;
      assert e.row == Rows(cards)[i];
      FilteredKeepsIff(rows, q, inTokens, outTokens, e.row);
    }
  }

  /** On rows with consistently derived prices and with token counts that
      the inputs allow, every card's cost is the per-1M prices weighted by
      the token counts, and it is non-negative when the catalog prices are. */
  lemma FilteredCosts(rows: seq<DerivedRow>, q: string, inTokens: real, outTokens: real)
    requires forall d :: d in rows ==> WellDerived(d)
    requires 0.0 <= inTokens && 0.0 <= outTokens
    ensures forall e :: e in Filtered(rows, q, inTokens, outTokens) ==>
      CostsAt(e.estCostUsd, e.row.catalog, inTokens, outTokens)
    ensures (forall d :: d in rows ==> 0.0 <= d.catalog.inputPricePer1M && 0.0 <= d.catalog.outputPricePer1M)
      ==> forall e :: e in Filtered(rows, q, inTokens, outTokens) ==> 0.0 <= e.estCostUsd
  {
    CardsFromRows(rows, q, inTokens, outTokens);
  }

  // ---------------------------------------------------------------------------
  // Display currency

  /** `isEGP ? fx : 1`. */
  function Rate(currency: Currency, fx: real): (r: real)
    ensures currency == USD ==> r == 1.0
    ensures currency == EGP ==> r == fx
  {
    if currency == EGP then fx else 1.0
  }

  /** A US-dollar amount as displayed: `amount * rate`. */
  function Convert(amount: real, currency: Currency, fx: real): (r: real)
    ensures currency == USD ==> r == amount
    ensures currency == EGP ==> r == amount * fx
  {
    amount * Rate(currency, fx)
  }

  /** A positive rate keeps the order of amounts, so converted cards compare
      as their dollar costs do, and conversion can be undone. */
  lemma ConvertMonotone(x: real, y: real, currency: Currency, fx: real)
    requires 0.0 < fx
    ensures x <= y <==> Convert(x, currency, fx) <= Convert(y, currency, fx)
    ensures Convert(x, currency, fx) / Rate(currency, fx) == x
  {
    var rate := Rate(currency, fx);
    assert 0.0 < rate;
    ScaleKeepsOrder(x, y, rate, Convert(x, currency, fx), Convert(y, currency, fx));
  }

  /** Scaling by a positive factor `f` keeps order and can be undone; `a` and
      `b` are `x` and `y` scaled. */
  lemma ScaleKeepsOrder(x: real, y: real, f: real, a: real, b: real)
    requires 0.0 < f && a == x * f && b == y * f
    ensures x <= y <==> a <= b
    ensures a / f == x
  {
    assert (y - x) * f == y * f - x * f;
    if x <= y {
      assert 0.0 <= (y - x) * f;
    } else {
      assert 0.0 < (x - y) * f;
    }
  }

  // ---------------------------------------------------------------------------
  // Table sort

  /** The three column keys the table header offers. */
  predicate IsSortKey(key: string) {
    key == "model_name" || key == "input" || key == "output"
  }

  /** `sortDir === "asc" ? 1 : -1`. */
  function DirSign(dir: Dir): (r: real)
    ensures r == 1.0 || r == -1.0
    ensures 0.0 < r <==> dir == Asc
  {
    if dir == Asc then 1.0 else -1.0
  }

  /** What String.prototype.localeCompare guarantees of its answers: swapping
      the arguments flips the sign, and "not after" is transitive. The locale's
      actual order is left open. */
  ghost predicate IsCollation(collate: (string, string) -> int) {
    && (forall x, y :: collate(x, y) < 0 <==> collate(y, x) > 0)
    && (forall x, y, z :: collate(x, y) <= 0 && collate(y, z) <= 0 ==> collate(x, z) <= 0)
  }

  /** The table comparator's answer for rows `a` and `b`; `collate` stands
      for localeCompare. An unknown key compares every pair as equal. */
  function CompareRows(key: string, dir: Dir, collate: (string, string) -> int, a: DerivedRow, b: DerivedRow): (c: real)
    ensures key == "model_name" ==>
      (c < 0.0 <==> if dir == Asc then collate(a.catalog.modelName, b.catalog.modelName) < 0
                    else collate(a.catalog.modelName, b.catalog.modelName) > 0)
    ensures key == "input" ==>
      (c < 0.0 <==> if dir == Asc then a.catalog.inputPricePer1M < b.catalog.inputPricePer1M
                    else b.catalog.inputPricePer1M < a.catalog.inputPricePer1M)
    ensures key == "output" ==>
      (c < 0.0 <==> if dir == Asc then a.catalog.outputPricePer1M < b.catalog.outputPricePer1M
                    else b.catalog.outputPricePer1M < a.catalog.outputPricePer1M)
    ensures key == "model_name" ==>
      (c == 0.0 <==> collate(a.catalog.modelName, b.catalog.modelName) == 0)
    ensures key == "input" ==> (c == 0.0 <==> a.catalog.inputPricePer1M == b.catalog.inputPricePer1M)
    ensures key == "output" ==> (c == 0.0 <==> a.catalog.outputPricePer1M == b.catalog.outputPricePer1M)
    ensures !IsSortKey(key) ==> c == 0.0
  {
    if key == "model_name" then (collate(a.catalog.modelName, b.catalog.modelName) as real) * DirSign(dir)
    else if key == "input" then (a.catalog.inputPricePer1M - b.catalog.inputPricePer1M) * DirSign(dir)
    else if key == "output" then (a.catalog.outputPricePer1M - b.catalog.outputPricePer1M) * DirSign(dir)
    else 0.0
  }

  /** The comparator function handed to sort. */
  function RowCompare(key: string, dir: Dir, collate: (string, string) -> int): (DerivedRow, DerivedRow) -> real {
    (a, b) => CompareRows(key, dir, collate, a, b)
  }

  /** Every table comparator is one that Array.prototype.sort accepts. */
  lemma RowCompareConsistent(key: string, dir: Dir, collate: (string, string) -> int)
    requires IsCollation(collate)
    ensures IsConsistent(RowCompare(key, dir, collate))
  {
    var cmp := RowCompare(key, dir, collate);
    forall x, y ensures cmp(x, y) < 0.0 <==> cmp(y, x) > 0.0 {
      assert cmp(x, y) == CompareRows(key, dir, collate, x, y);
      assert cmp(y, x) == CompareRows(key, dir, collate, y, x);
    }
    forall x, y, z | cmp(x, y) <= 0.0 && cmp(y, z) <= 0.0 ensures cmp(x, z) <= 0.0 {
      assert cmp(x, y) == CompareRows(key, dir, collate, x, y);
      assert cmp(y, z) == CompareRows(key, dir, collate, y, z);
      assert cmp(x, z) == CompareRows(key, dir, collate, x, z);
      if key == "model_name" && dir == Desc {
        var nx, ny, nz := x.catalog.modelName, y.catalog.modelName, z.catalog.modelName;
        assert collate(ny, nx) <= 0 && collate(nz, ny) <= 0;
      }
    }
  }

  /** The descending comparator is the ascending one negated. */
  lemma DescNegatesAsc(key: string, collate: (string, string) -> int, x: DerivedRow, y: DerivedRow)
    ensures RowCompare(key, Desc, collate)(x, y) == -RowCompare(key, Asc, collate)(x, y)
  {
  }

  /** The rows `SortBy` returns for a column are in that column's order:
      localeCompare order for the name, price order for the prices, reversed
      when descending. */
  lemma SortedByColumn(rows: seq<DerivedRow>, key: string, dir: Dir, collate: (string, string) -> int)
    requires IsCollation(collate)
    ensures var r := SortBy(rows, RowCompare(key, dir, collate));
      key == "model_name" ==> forall i, j :: 0 <= i < j < |r| ==>
        if dir == Asc then collate(r[i].catalog.modelName, r[j].catalog.modelName) <= 0
        else collate(r[i].catalog.modelName, r[j].catalog.modelName) >= 0
    ensures var r := SortBy(rows, RowCompare(key, dir, collate));
      key == "input" ==> forall i, j :: 0 <= i < j < |r| ==>
        if dir == Asc then r[i].catalog.inputPricePer1M <= r[j].catalog.inputPricePer1M
        else r[i].catalog.inputPricePer1M >= r[j].catalog.inputPricePer1M
    ensures var r := SortBy(rows, RowCompare(key, dir, collate));
      key == "output" ==> forall i, j :: 0 <= i < j < |r| ==>
        if dir == Asc then r[i].catalog.outputPricePer1M <= r[j].catalog.outputPricePer1M
        else r[i].catalog.outputPricePer1M >= r[j].catalog.outputPricePer1M
  {
    var cmp := RowCompare(key, dir, collate);
    RowCompareConsistent(key, dir, collate);
    SortBySorted(rows, cmp);
    var r := SortBy(rows, cmp);
    forall i, j | 0 <= i < j < |r| ensures CompareRows(key, dir, collate, r[i], r[j]) <= 0.0 {
      assert cmp(r[i], r[j]) <= 0.0;
    }
  }

  /** `sortedRows`: a sorted copy of the rows. It is a permutation of them,
      ordered by the column and direction, and for an unknown key it is the
      rows unchanged. */
  method SortedRows(rows: seq<DerivedRow>, key: string, dir: Dir, collate: (string, string) -> int)
    returns (r: seq<DerivedRow>)
    requires IsCollation(collate)
    ensures r == SortBy(rows, RowCompare(key, dir, collate))
    ensures multiset(r) == multiset(rows)
    ensures key == "model_name" ==> forall i, j :: 0 <= i < j < |r| ==>
      if dir == Asc then collate(r[i].catalog.modelName, r[j].catalog.modelName) <= 0
      else collate(r[i].catalog.modelName, r[j].catalog.modelName) >= 0
    ensures key == "input" ==> forall i, j :: 0 <= i < j < |r| ==>
      if dir == Asc then r[i].catalog.inputPricePer1M <= r[j].catalog.inputPricePer1M
      else r[i].catalog.inputPricePer1M >= r[j].catalog.inputPricePer1M
    ensures key == "output" ==> forall i, j :: 0 <= i < j < |r| ==>
      if dir == Asc then r[i].catalog.outputPricePer1M <= r[j].catalog.outputPricePer1M
      else r[i].catalog.outputPricePer1M >= r[j].catalog.outputPricePer1M
    ensures !IsSortKey(key) ==> r == rows
  {
    var cmp := RowCompare(key, dir, collate);
    r := SortCopy(rows, cmp);
    SortByPermutes(rows, cmp);
    SortedByColumn(rows, key, dir, collate);
    if !IsSortKey(key) {
      AllTiedKeepsOrder(rows, cmp);
    }
  }

  /** The price a price column shows for a row, in US dollars per million. */
  function ColumnPrice(key: string, d: DerivedRow): real {
    if key == "input" then d.catalog.inputPricePer1M else d.catalog.outputPricePer1M
  }

  /** The table sorts on dollar prices but shows them converted; since the
      rate is positive, the shown column is in order too. */
  lemma DisplayedColumnOrdered(rows: seq<DerivedRow>, key: string, dir: Dir, collate: (string, string) -> int,
                               currency: Currency, fx: real)
    requires IsCollation(collate) && 0.0 < fx
    requires key == "input" || key == "output"
    ensures var s := SortBy(rows, RowCompare(key, dir, collate));
      forall i, j :: 0 <= i < j < |s| ==>
        if dir == Asc then Convert(ColumnPrice(key, s[i]), currency, fx) <= Convert(ColumnPrice(key, s[j]), currency, fx)
        else Convert(ColumnPrice(key, s[i]), currency, fx) >= Convert(ColumnPrice(key, s[j]), currency, fx)
  {
    var cmp := RowCompare(key, dir, collate);
    RowCompareConsistent(key, dir, collate);
    SortBySorted(rows, cmp);
    var s := SortBy(rows, cmp);
    forall i, j | 0 <= i < j < |s|
      ensures if dir == Asc then Convert(ColumnPrice(key, s[i]), currency, fx) <= Convert(ColumnPrice(key, s[j]), currency, fx)
              else Convert(ColumnPrice(key, s[i]), currency, fx) >= Convert(ColumnPrice(key, s[j]), currency, fx)
    {
      assert cmp(s[i], s[j]) == CompareRows(key, dir, collate, s[i], s[j]) <= 0.0;
      var a, b := ColumnPrice(key, s[i]), ColumnPrice(key, s[j]);
      if dir == Asc {
        assert a <= b;
        ConvertMonotone(a, b, currency, fx);
      } else {
        assert b <= a;
        ConvertMonotone(b, a, currency, fx);
      }
    }
  }

  /** Rows that tie on the sort column keep their catalog order. */
  lemma SortedRowsStable(rows: seq<DerivedRow>, key: string, dir: Dir, collate: (string, string) -> int, v: DerivedRow)
    requires IsCollation(collate)
    ensures Filter(SortBy(rows, RowCompare(key, dir, collate)), TiedWith(RowCompare(key, dir, collate), v))
         == Filter(rows, TiedWith(RowCompare(key, dir, collate), v))
  {
    RowCompareConsistent(key, dir, collate);
    SortByStable(rows, RowCompare(key, dir, collate), v);
  }

  /** Sorting the sorted table again changes nothing. */
  lemma SortedRowsIdempotent(rows: seq<DerivedRow>, key: string, dir: Dir, collate: (string, string) -> int)
    requires IsCollation(collate)
    ensures SortBy(SortBy(rows, RowCompare(key, dir, collate)), RowCompare(key, dir, collate))
         == SortBy(rows, RowCompare(key, dir, collate))
  {
    RowCompareConsistent(key, dir, collate);
    SortByIdempotent(rows, RowCompare(key, dir, collate));
  }

  /** When no two distinct rows tie on the column, descending order is
      ascending order reversed. */
  lemma SortedRowsDescReversesAsc(rows: seq<DerivedRow>, key: string, collate: (string, string) -> int)
    requires IsCollation(collate)
    requires NoTies(rows, RowCompare(key, Asc, collate))
    ensures SortBy(rows, RowCompare(key, Desc, collate)) == Reverse(SortBy(rows, RowCompare(key, Asc, collate)))
  {
    var asc, desc := RowCompare(key, Asc, collate), RowCompare(key, Desc, collate);
    RowCompareConsistent(key, Asc, collate);
    forall x, y ensures desc(x, y) == -asc(x, y) {
      DescNegatesAsc(key, collate, x, y);
    }
    SortByNegated(rows, asc, desc);
  }

  // ---------------------------------------------------------------------------
  // Sort-header toggle

  function Flip(dir: Dir): (r: Dir)
    ensures r != dir
  {
    if dir == Asc then Desc else Asc
  }

  /** `sortToggle(key)`: the clicked column becomes the sort column; clicking
      the current column flips the direction, clicking another starts
      ascending. */
  function Toggle(s: SortState, key: string): (r: SortState)
    ensures r.key == key
    ensures key == s.key ==> r.dir != s.dir
    ensures key != s.key ==> r.dir == Asc
  {
    if s.key == key then SortState(s.key, Flip(s.dir))
    else SortState(key, Asc)
  }

  /** Clicking the current column twice restores the state. */
  lemma ToggleSameTwice(s: SortState)
    ensures Toggle(Toggle(s, s.key), s.key) == s
  {
  }

  /** Clicking a new column twice sorts it descending. */
  lemma ToggleOtherTwice(s: SortState, key: string)
    requires key != s.key
    ensures Toggle(Toggle(s, key), key) == SortState(key, Desc)
  {
  }

  // ---------------------------------------------------------------------------
  // A worked example

  /** One catalog row at 10 and 30 dollars per million tokens, 100000 input
      and no output tokens: the card costs 1 dollar, shown as 50 at an
      exchange rate of 50. */
  lemma OneRowExample()
    ensures var cards := Filtered(DeriveRows([CatalogRow("A", "P1", 10.0, 30.0)]), "", 100000.0, 0.0);
      && |cards| == 1
      && cards[0].estCostUsd == 1.0
      && cards[0].row.totalPer1M == 40.0
      && Convert(cards[0].estCostUsd, USD, 50.0) == 1.0
      && Convert(cards[0].estCostUsd, EGP, 50.0) == 50.0
  {
    var catalog := CatalogRow("A", "P1", 10.0, 30.0);
    var row := DerivedRow(catalog, 0.00001, 0.00003, 40.0);
    assert Derive(catalog) == row;
    var rows := DeriveRows([catalog]);
    assert rows == [row];
    assert EstCost(row, 100000.0, 0.0) == 1.0;
    BlankSearchShowsAll(rows, "", 100000.0, 0.0);
    var cards := Filtered(rows, "", 100000.0, 0.0);
    assert Rows(cards)[0] == row;
    assert cards[0] in cards;
  }
}
