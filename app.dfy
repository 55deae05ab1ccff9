/** The `App` component's state: the fields its useState hooks hold, the
    handlers that update them, and the two views computed from them (the card
    grid and the sorted table). */
module ViewModel {
  import opened Sorting
  import opened Pricing

  /** Where the token sliders stop; the range input never reports more. */
  const SliderMax: real := 2000000.0
  const DefaultFx: real := 50.0

  class App {
    var rows: seq<DerivedRow>
    var q: string
    var inTokens: real
    var outTokens: real
    var currency: Currency
    var fx: real
    var sortKey: string
    var sortDir: Dir

    /** Token counts and the exchange rate stay within their fields' bounds,
        and every row carries prices derived from its catalog entry. */
    ghost predicate Valid()
      reads this
    {
      && 0.0 <= inTokens <= MaxTokens
      && 0.0 <= outTokens <= MaxTokens
      && MinFx <= fx <= MaxFx
      && forall d :: d in rows ==> WellDerived(d)
    }

    /** The initial values of the hooks. */
    constructor ()
      ensures Valid()
      ensures rows == [] && q == ""
      ensures inTokens == 100000.0 && outTokens == 0.0
      ensures currency == USD && fx == DefaultFx
      ensures sortKey == "model_name" && sortDir == Asc
    {
      rows := [];
      q := "";
      inTokens := 100000.0;
      outTokens := 0.0;
      currency := USD;
      fx := DefaultFx;
      sortKey := "model_name";
      sortDir := Asc;
    }

    /** The fetch succeeded: `setRows(data.map(...))`. */
    method OnCatalogLoaded(data: seq<CatalogRow>)
      requires Valid()
      modifies this`rows
      ensures Valid()
      ensures rows == DeriveRows(data)
    {
      rows := DeriveRows(data);
    }

    /** Typing in the search box. */
    method SetQuery(text: string)
      requires Valid()
      modifies this`q
      ensures Valid() && q == text
    {
      q := text;
    }

    /** The numeric input-token field, clamped to [0, MaxTokens]. */
    method SetInTokens(value: real)
      requires Valid()
      modifies this`inTokens
      ensures Valid()
      ensures inTokens == Clamp(value, 0.0, MaxTokens)
    {
      inTokens := Clamp(value, 0.0, MaxTokens);
    }

    /** The input-token slider, whose value is already within its range. */
    method SlideInTokens(value: real)
      requires Valid() && 0.0 <= value <= SliderMax
      modifies this`inTokens
      ensures Valid() && inTokens == value
    {
      inTokens := value;
    }

    /** The numeric output-token field, clamped to [0, MaxTokens]. */
    method SetOutTokens(value: real)
      requires Valid()
      modifies this`outTokens
      ensures Valid()
      ensures outTokens == Clamp(value, 0.0, MaxTokens)
    {
      outTokens := Clamp(value, 0.0, MaxTokens);
    }

    /** The output-token slider. */
    method SlideOutTokens(value: real)
      requires Valid() && 0.0 <= value <= SliderMax
      modifies this`outTokens
      ensures Valid() && outTokens == value
    {
      outTokens := value;
    }

    /** The USD and EGP buttons. */
    method SetCurrency(c: Currency)
      requires Valid()
      modifies this`currency
      ensures Valid() && currency == c
    {
      currency := c;
    }

    /** The exchange-rate field, clamped to [1, 10000]. */
    method SetFx(value: real)
      requires Valid()
      modifies this`fx
      ensures Valid()
      ensures fx == Clamp(value, MinFx, MaxFx)
    {
      fx := Clamp(value, MinFx, MaxFx);
    }

    /** The Reset button next to the exchange rate. */
    method ResetFx()
      requires Valid()
      modifies this`fx
      ensures Valid() && fx == DefaultFx
    {
      fx := DefaultFx;
    }

    /** A click on a column header. */
    method SortToggle(key: string)
      requires Valid()
      modifies this`sortKey, this`sortDir
      ensures Valid()
      ensures SortState(sortKey, sortDir) == Toggle(SortState(old(sortKey), old(sortDir)), key)
    {
      if sortKey == key {
        sortDir := if sortDir == Asc then Desc else Asc;
      } else {
        sortKey := key;
        sortDir := Asc;
      }
    }

    /** The factor every displayed amount is multiplied by. */
    function DisplayRate(): (r: real)
      reads this
      requires Valid()
      ensures r >= 1.0
      ensures currency == USD ==> r == 1.0
      ensures currency == EGP ==> r == fx
    {
      Rate(currency, fx)
    }

    /** The card grid: the rows matching the search, each with its cost for
        the current token counts, never negative when the prices are not. */
    function Cards(): (cards: seq<DisplayRow>)
      reads this
      requires Valid()
      ensures Rows(cards) == FilterRows(rows, q)
      ensures forall e :: e in cards ==> e.row in rows && Matches(SearchTerm(q), e.row)
      ensures forall e :: e in cards ==> CostsAt(e.estCostUsd, e.row.catalog, inTokens, outTokens)
      ensures (forall d :: d in rows ==> 0.0 <= d.catalog.inputPricePer1M && 0.0 <= d.catalog.outputPricePer1M)
        ==> forall e :: e in cards ==> 0.0 <= e.estCostUsd
    {
      CardsFromRows(rows, q, inTokens, outTokens);
      FilteredCosts(rows, q, inTokens, outTokens);
      Filtered(rows, q, inTokens, outTokens)
    }

    /** The table: all rows, sorted by the current column and direction. */
    method TableRows(collate: (string, string) -> int) returns (r: seq<DerivedRow>)
      requires Valid() && IsCollation(collate)
      ensures r == SortBy(rows, RowCompare(sortKey, sortDir, collate))
      ensures multiset(r) == multiset(rows)
    {
      r := SortedRows(rows, sortKey, sortDir, collate);
    }
  }
}
