/**
 * `get_stock_data(code)`: one quote page is fetched and four display fields
 * are pulled out of it. The HTTP request and the HTML parser are outside the
 * model; what the extraction code gets back from them is the input here
 * (a `Fetch`), and the field rules, the placeholder `"-"` and the paths that
 * end in `None` are modelled exactly.
 */
module Scraper {
  import opened Wrappers
  import opened PyStr

  /** Shown in place of a field the page did not provide. */
  const Placeholder: string := "-"
  /** The literal searched for in the whole response text ("shareholder benefit"). */
  const BenefitMarker: string := "株主優待"
  /** Benefit flag values: "present" and "absent". */
  const WithBenefit: string := "あり"
  const WithoutBenefit: string := "なし"
  const StatusOk: int := 200

  /** What `find('div', class_='company_block')` and then `find('h3')` on it gave. */
  datatype Company =
    | NoCompanyBlock          // the container is absent
    | HeadingMissing          // the container is there but holds no `h3`
    | Heading(text: string)   // the `h3` text

  /** One `td` of the info block: its text, or a cell whose text cannot be read
      (the error the inner `try` swallows). */
  datatype Cell = Cell(text: string) | Unreadable

  /** What `find('div', id='stockinfo_i3')` and `find_all('td')` gave. */
  datatype InfoBlock = NoInfoBlock | InfoBlock(cells: seq<Cell>)

  /** The request and the parse, as the extraction code sees them. */
  datatype Fetch =
    | Raised   // the request, the re-decoding, the parse, or the name or price lookup threw
    | Response(status: int, text: string, company: Company, price: Option<string>, info: InfoBlock)

  /** One quote: the dictionary `get_stock_data` returns. */
  datatype Record = Record(code: string, name: string, price: string, divYield: string, benefit: string)

  /** The company name: the heading text with every occurrence of the code
      removed, then stripped; `"-"` when there is no container; `None` when
      the container has no heading, since reading its text raises. */
  function NameOf(code: string, company: Company): (name: Option<string>)
    ensures name.None? <==> company.HeadingMissing?
    ensures company.NoCompanyBlock? ==> name == Some(Placeholder)
    ensures company.Heading? ==> IsStripped(name.value) && |name.value| <= |company.text|
    ensures company.Heading? ==> IsStripOf(name.value, RemoveAll(company.text, code))
    ensures company.Heading? && !Contains(company.text, code) ==> IsStripOf(name.value, company.text)
  {
    match company
    case NoCompanyBlock => Some(Placeholder)
    case HeadingMissing => None
    case Heading(text) =>
      StripMiddle(RemoveAll(text, code));
      Some(Strip(RemoveAll(text, code)))
  }

  /** A heading with the name first, then whitespace and the code, gives the
      bare name, provided the code does not also occur earlier. */
  lemma {:induction false} NameFromHeading(code: string, n: string, sp: string)
    requires code != [] && IsStripped(n) && AllSpace(sp)
    requires !MatchBefore(n + sp + code, code, |n + sp|)
    ensures NameOf(code, Heading(n + sp + code)) == Some(n)
  {
    RemoveAllAfter(n + sp, code, code);
    RemoveAllSelf(code);
    assert n + sp + code == (n + sp) + code;
    assert n + sp + [] == n + sp;
    assert [] + n + sp == n + sp;
    StripPadded([], n, sp);
  }

  /** A heading with the code first, then whitespace and the name, gives the
      bare name too, provided the code does not also occur after it. */
  lemma {:induction false} NameFromCodeFirst(code: string, n: string, sp: string)
    requires code != [] && IsStripped(n) && AllSpace(sp)
    requires !Contains(sp + n, code)
    ensures NameOf(code, Heading(code + sp + n)) == Some(n)
  {
    assert code + sp + n == code + (sp + n);
    RemoveAllPrefix(code, sp + n);
    assert sp + n + [] == sp + n;
    StripPadded(sp, n, []);
  }

  /** The price: the stripped text of the price element, or `"-"`. */
  function PriceOf(tag: Option<string>): (price: string)
    ensures tag.None? ==> price == Placeholder
    ensures tag.Some? ==> IsStripOf(price, tag.value)
  {
    match tag
    case None => Placeholder
    case Some(text) => StripMiddle(text); Strip(text)
  }

  /** The benefit flag: "present" exactly when the marker occurs anywhere in
      the raw response text. */
  function BenefitOf(text: string): (flag: string)
    ensures flag == WithBenefit || flag == WithoutBenefit
    ensures flag == WithBenefit <==> Contains(text, BenefitMarker)
  {
    if Contains(text, BenefitMarker) then WithBenefit else WithoutBenefit
  }

  /** The marker is found wherever in the page it stands, inside any element or none. */
  lemma {:induction false} BenefitAnywhere(before: string, after: string)
    ensures BenefitOf(before + BenefitMarker + after) == WithBenefit
  {
    ContainsInfix(before, BenefitMarker, after);
  }

  /** The dividend yield read off the cells in document order: the stripped text
      of the first cell containing `%`, or `"-"` when the cells run out or a cell
      cannot be read first. A found yield always shows its `%`. */
  function FirstPercent(cells: seq<Cell>): (divYield: string)
    ensures divYield == Placeholder || '%' in divYield
  {
    if cells == [] then Placeholder
    else match cells[0]
      case Unreadable => Placeholder
      case Cell(text) =>
        if Contains(text, "%") then
          ContainsChar(text, '%');
          StripKeeps(text, '%');
          Strip(text)
        else FirstPercent(cells[1..])
  }

  /** The yield of a page: `"-"` when there is no info block, otherwise what the
      scan of its cells gives; either way `"-"` or a text showing `%`. */
  function YieldOf(info: InfoBlock): (divYield: string)
    ensures info.NoInfoBlock? ==> divYield == Placeholder
    ensures divYield == Placeholder || '%' in divYield
  {
    match info
    case NoInfoBlock => Placeholder
    case InfoBlock(cells) => FirstPercent(cells)
  }

  /** The first `k` cells are readable and none contains `%`: the scan goes past them. */
  predicate PassedOver(cells: seq<Cell>, k: nat)
    requires k <= |cells|
  {
    forall j :: 0 <= j < k ==> cells[j].Cell? && !Contains(cells[j].text, "%")
  }

  /** The first cell containing `%` gives the yield, trimmed. */
  lemma {:induction false} YieldIsFirstMatch(cells: seq<Cell>, k: nat)
    requires k < |cells| && PassedOver(cells, k)
    requires cells[k].Cell? && Contains(cells[k].text, "%")
    ensures FirstPercent(cells) == Strip(cells[k].text)
    ensures '%' in FirstPercent(cells)
    decreases k
  {
    if k > 0 {
      assert PassedOver(cells[1..], k - 1) by {
        forall j | 0 <= j < k - 1 ensures cells[1..][j] == cells[j + 1] { }
      }
      YieldIsFirstMatch(cells[1..], k - 1);
    } else {
      ContainsChar(cells[0].text, '%');
      StripKeeps(cells[0].text, '%');
    }
  }

  /** No cell contains `%`: the yield stays `"-"`. */
  lemma {:induction false} YieldNoMatch(cells: seq<Cell>)
    requires PassedOver(cells, |cells|)
    ensures FirstPercent(cells) == Placeholder
    decreases |cells|
  {
    if cells != [] {
      YieldNoMatch(cells[1..]);
    }
  }

  /** A cell that cannot be read ends the scan: the error is swallowed, the yield
      is whatever the cells before it gave, and the cells after it never count. */
  lemma {:induction false} YieldStopsAtUnreadable(cells: seq<Cell>, k: nat)
    requires k < |cells| && cells[k].Unreadable?
    ensures FirstPercent(cells) == FirstPercent(cells[..k])
    ensures PassedOver(cells, k) ==> FirstPercent(cells) == Placeholder
    decreases k
  {
    if k > 0 {
      YieldStopsAtUnreadable(cells[1..], k - 1);
      assert cells[1..][..k - 1] == cells[..k][1..];
    }
  }

  /** The scan of lines 36-46: walk the cells in order, stop at the first one
      whose text contains `%` and keep its trimmed text, or stop silently when
      a cell cannot be read. */
  method ScanYield(info: InfoBlock) returns (divYield: string)
    ensures divYield == YieldOf(info)
  {
    divYield := Placeholder;
    if info.InfoBlock? {
      var tds := info.cells;
      var i := 0;
      while i < |tds|
        invariant 0 <= i <= |tds|
        invariant divYield == Placeholder
        invariant FirstPercent(tds[i..]) == FirstPercent(tds)
      {
        var td := tds[i];
        if td.Unreadable? {
          break;  // the exception leaves the loop and is swallowed
        }
        if Contains(td.text, "%") {
          divYield := Strip(td.text);
          break;
        }
        assert tds[i..][1..] == tds[i + 1..];
        i := i + 1;
      }
    }
  }

  /** The whole lookup: `None` when the request or the parse raises, when the
      status is not 200, or when the company block has no heading; otherwise a
      complete record for the code exactly as given. */
  function Lookup(code: string, fetch: Fetch): (data: Option<Record>)
    ensures data.None? <==> fetch.Raised? || fetch.status != StatusOk || fetch.company.HeadingMissing?
    ensures data.Some? ==> data.value.code == code
  {
    if fetch.Raised? || fetch.status != StatusOk then None
    else match NameOf(code, fetch.company)
      case None => None
      case Some(name) =>
        Some(Record(code, name, PriceOf(fetch.price), YieldOf(fetch.info), BenefitOf(fetch.text)))
  }

  /** A page without the price element still gives a record, with price `"-"`;
      the info block, readable or not, never decides whether there is a record. */
  lemma {:induction false} LookupDegradesFields(code: string, status: int, text: string, company: Company,
                             info: InfoBlock, other: InfoBlock)
    requires status == StatusOk && !company.HeadingMissing?
    ensures var data := Lookup(code, Response(status, text, company, None, info));
      && data.Some? && data.value.price == Placeholder
      && Lookup(code, Response(status, text, company, None, other)).Some?
  {
  }

  /** `get_stock_data`, over the outcome of the request and the parse. */
  method GetStockData(code: string, fetch: Fetch) returns (data: Option<Record>)
    ensures data == Lookup(code, fetch)
  {
    if fetch.Raised? || fetch.status != StatusOk {
      return None;
    }
    var name := NameOf(code, fetch.company);
    if name.None? {
      return None;  // `.text` of a missing heading raises; the outer handler returns None
    }
    var price := PriceOf(fetch.price);
    var divYield := ScanYield(fetch.info);
    var benefit := BenefitOf(fetch.text);
    data := Some(Record(code, name.value, price, divYield, benefit));
  }
}
