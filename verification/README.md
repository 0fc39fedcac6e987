# Stock research app: verified model of its string and list logic

`app.py` is a one-page Streamlit application. The user types a comma-separated
list of stock codes and presses the search button. The script then:

- turns the text into a list of codes;
- fetches one quote page per code and pulls four display fields out of it
  (company name, price, dividend yield, shareholder-benefit flag);
- keeps the lookups that produced a record;
- takes the warning branch (no codes), the error branch (no records) or the
  card branch (`if results:`, app.py:83) with the records it collected.

This project models that logic in Dafny:

- `PyStr.dfy`: the Python `str` operations the script relies on.
  - `s.strip()` uses the full `str.isspace` character set.
  - `s.split(c)` splits on a one-character separator.
  - `s.replace(pat, "")` removes occurrences left to right, without overlaps.
  - `sub in s` is the substring test.
- `Scraper.dfy`: `get_stock_data`.
  - The HTTP request and the HTML parser are not modelled. What the extraction code receives from them is an input, a `Fetch` value:
    - the request (or the parse) raised, or
    - a response with a status code, the raw text, the outcome of looking up the company heading, an optional price text, and the `td` cells of the info block.
  - A cell can be `Unreadable`. That stands for the error the inner `try` of the yield scan swallows.
  - The name, price, yield and benefit rules are functions.
  - The yield scan is a method with the loop and the early `break` of the source. It is proved equal to the function `YieldOf`, which gives `"-"` without an info block and otherwise applies `FirstPercent` to the cells.
  - `Lookup` is the whole lookup as a function. The method `GetStockData` is proved equal to it.
- `App.dfy`: the button handler.
  - `Tokenise` is the list comprehension.
  - `Accumulate` is the loop that appends records in place. It is proved to return `Collected`, the specification function for that loop.
  - `Search` decides between the warning, the error and the card branch, and
    gives the card branch the records it would show.
  - The network is a total function `net: string -> Fetch`, giving what a lookup of each code receives; a code looked up again, or served from the cache, gets the same outcome.
- `Wrappers.dfy`: the `Option` type.

## Model

| member | source | states |
|---|---|---|
| PyStr.Strip | app.py:67 | the stripped text has no whitespace at either end; it is empty exactly when the text is all whitespace |
| PyStr.StripMiddle | app.py:67 | what strip keeps is a contiguous run of the input; only whitespace comes before it and only whitespace comes after it |
| PyStr.StripOfStripped | app.py:67 | a text with no whitespace at either end is left unchanged |
| PyStr.StripIdempotent | app.py:67 | stripping twice is the same as stripping once |
| PyStr.StripKeeps | app.py:44 | every non-whitespace character of the text survives stripping |
| PyStr.StripSubset | app.py:67 | stripping adds no character |
| PyStr.StripPadded | app.py:30 | a stripped text surrounded by whitespace strips back to itself |
| PyStr.Split | app.py:67 | there is one more piece than there are separators; no piece holds the separator; the pieces joined with the separator give back the text |
| PyStr.SplitJoin | app.py:67 | splitting a join of separator-free pieces gives back those pieces |
| PyStr.Contains | app.py:43 | `sub in s`: the empty pattern is in every text, and a pattern longer than the text is never in it |
| PyStr.ContainsOccurs | app.py:50 | the substring test holds exactly when the pattern occurs at some position of the text |
| PyStr.ContainsChar | app.py:43 | for a one-character pattern, the substring test is membership |
| PyStr.RemoveAll | app.py:30 | removing a pattern never lengthens the text, and leaves the text unchanged when the pattern does not occur in it |
| PyStr.RemoveAllSubset | app.py:30 | removal adds no character |
| PyStr.RemoveAllSelf | app.py:30 | a text consisting only of the pattern is removed entirely |
| PyStr.RemoveAllPrefix | app.py:30 | an occurrence at the very start is dropped and removal continues after it |
| PyStr.RemoveAllAfter | app.py:30 | when no occurrence starts in a prefix, that prefix is kept and removal continues after it, for every pattern |
| PyStr.ContainsInfix | app.py:50 | a text with the pattern somewhere inside it contains the pattern |
| Scraper.NameOf | app.py:29-30 | no heading in the container gives no record; no container gives `"-"`; otherwise the name is the stripped middle of the heading with every occurrence of the code removed, so it has no whitespace at either end and is no longer than the heading; when the code does not occur, it is the heading's own middle |
| Scraper.NameFromHeading | app.py:29-30 | a heading shaped as name, whitespace, code, where the code does not also occur earlier, gives exactly the name |
| Scraper.NameFromCodeFirst | app.py:29-30 | a heading shaped as code, whitespace, name, where the code does not also occur later, gives exactly the name |
| Scraper.PriceOf | app.py:32-33 | a missing element gives `"-"`; otherwise the price is the stripped middle of the element text |
| Scraper.BenefitOf | app.py:48-51 | the flag is `"あり"` or `"なし"`; it is `"あり"` exactly when `株主優待` occurs in the response text |
| Scraper.BenefitAnywhere | app.py:50-51 | the marker counts wherever in the text it stands |
| Scraper.YieldOf | app.py:36-39 | without an info block the yield is `"-"`; in every case it is `"-"` or a text containing `%` |
| Scraper.FirstPercent | app.py:40-45 | the yield is `"-"` or contains `%` |
| Scraper.YieldIsFirstMatch | app.py:42-45 | the first readable cell with `%` gives the yield, stripped, and that yield contains `%` |
| Scraper.YieldNoMatch | app.py:36-45 | when every cell is readable and none contains `%`, the yield stays `"-"` |
| Scraper.YieldStopsAtUnreadable | app.py:37-46 | an unreadable cell ends the scan: the yield is what the cells before it gave, or `"-"` if none of them matched |
| Scraper.ScanYield | app.py:36-46 | the loop with `break` gives the yield of the specification: `"-"` without an info block, otherwise the first-match rule |
| Scraper.Lookup | app.py:20-58 | no record exactly when the request raises, the status is not 200, or the company container has no heading; a record carries the code unchanged |
| Scraper.LookupDegradesFields | app.py:32-46 | a missing price element gives `"-"` rather than losing the record; the info block, readable or not, never decides whether there is a record |
| Scraper.GetStockData | app.py:13-58 | the statement-by-statement extraction returns what `Lookup` specifies |
| App.Clean | app.py:67 | at most one code per piece; every code is non-empty and has no whitespace at either end |
| App.CleanEmpty | app.py:67 | no code is left exactly when every piece is blank |
| App.Tokenise | app.py:67 | every code is non-empty, has no whitespace at either end and holds no comma; there is at most one more code than there are commas |
| App.TokeniseEmpty | app.py:67-70 | no code exactly when every comma-separated piece is blank; the empty text gives no code |
| App.CleanSource | app.py:67 | every code is the stripped form of one of the pieces |
| App.CleanKeeps | app.py:67 | every non-blank piece gives its stripped text as a code |
| App.CleanAppend | app.py:67 | order is kept: the codes of two runs of pieces are the codes of the first followed by those of the second |
| App.CleanNonBlank | app.py:67 | with no blank piece, the i-th code is the i-th piece stripped |
| App.TokeniseEveryPiece | app.py:67 | a comma-joined list of non-blank, comma-free pieces gives one code per piece, in order, each the piece stripped |
| App.TokeniseJoin | app.py:67 | clean codes joined with commas tokenise back to themselves |
| App.Collected | app.py:72-79 | there are never more results than codes |
| App.CollectedAppend | app.py:72-79 | results come in the order of their codes: two runs of codes give the results of the first followed by those of the second |
| App.CollectedMembers | app.py:72-79 | a record is in the results exactly when the lookup of one of the codes gave it |
| App.CollectedAll | app.py:72-79 | there is one result per code exactly when every lookup succeeds |
| App.CollectedNone | app.py:72-79 | the results are empty exactly when every lookup failed |
| App.CollectedCodes | app.py:72-79 | every result carries one of the codes that were looked up |
| App.Accumulate | app.py:72-79 | the loop calls `get_stock_data` for every code once, in order, and its list is the specified results |
| App.Search | app.py:66-95 | with no codes, only the warning and no call to `get_stock_data`; otherwise `get_stock_data` is called for every code once, in order; the error branch is taken exactly when no lookup gave a record; otherwise the `if results:` branch is taken and is handed exactly the collected records, in order |

## Left out

- The HTTP request, the user-agent header, the one-second `time.sleep` and the `apparent_encoding` re-decoding (app.py:14-23) are not modelled. They are network I/O. Their combined outcome is the `Fetch` input, and any exception they raise is `Raised`.
- BeautifulSoup's `find`, `find_all` and `.text` are library code. What they return is part of `Fetch`.
  - Any failure inside the yield scan's `try` becomes an `Unreadable` cell at the point where the scan stops.
  - A failure of the info block's `find` or `find_all` becomes an `Unreadable` first cell.
  - A raise while looking up the name or the price is `Raised`. That covers `soup.find` for the company block or the price span, and the price element's `.text` (app.py:29-33). These calls are outside the inner `try`, so the outer `except` at app.py:57-58 returns `None`.
- The `st.cache_data` memoisation (app.py:12) is not modelled. It depends on wall-clock time. Because `net` is a function, each code gets one fixed outcome within a search, as the cache gives within its hour.
- Streamlit rendering is not modelled: the progress bar (a float fraction, app.py:73, 79), the DataFrame and card layout (app.py:81-93), the page configuration and the titles (app.py:9, 61-64).
  - `Search` stops at the choice of screen and the list of records shown.
  - The card code reads the key `'铭柄'`, but records are built with the key `'銘柄'` (app.py:54). In the source the `if results:` branch therefore raises `KeyError` at app.py:88, on the first row, so no card appears. This is in the rendering code and is not modelled: `Cards` only records that the branch is taken and which records it is given.
- `str(code)` is taken to be `code`, because the codes are strings produced by tokenisation.
- Scraper.FirstPercent: does not say which cell gave the yield. `YieldIsFirstMatch`, `YieldNoMatch` and `YieldStopsAtUnreadable` state that.
