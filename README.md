# House-listing scraper: a verified model of `scripts/scraper.py`

The scraper fetches listing pages 1..`pages` of a property site, in order. For each page
that answers 200 it walks the listing cards. It reads each card's title, price text and
attribute texts, normalises the price with `clean_price` and the areas with `parse_int`,
and keeps the cards with a positive price. Features it could not read get defaults. Pages
answering 403 or 429 stop the loop for good. Any other status, or a request that raises,
only loses that page. At the end the kept records are numbered `NO` = 1..N and written to
the spreadsheet, or nothing is written when no record was kept. There is no merge with an
earlier file and no deduplication: the output file is overwritten.

The model is made of five modules:

- `Wrappers`: the `Option` type, standing for "a DOM node or nothing" and for "a value or
  a caught exception".
- `Text`: the Python `str` operations the normalisers use, on `seq<char>`. These are
  `lower` (ASCII), `strip` (Python's whitespace within Latin-1), `in`, `replace` (left to
  right, non-overlapping) and `filter(str.isdigit, …)`. `isdigit` accepts the superscripts
  ¹ ² ³, which `int()` then rejects.
- `Normalise`: `clean_price` and `parse_int`. `float()` is modelled as an exact decimal
  reader (optional sign, digits, at most one point, digits), and `int(float(x) * m)` as the
  exact product truncated toward zero. `int()` of a string keeps the limit of 4300 digits
  that Python applies by default since 3.11 (and in the 2022 security releases of 3.7-3.10).
- `Listing`: one card. It holds the attribute loop as a method with its loop invariant
  (`ScanAttributes`), proved against the function `Scan`, and the per-card `try` body
  (`ParseItem`), proved against `Extract`. A `ValueError` from `int(val)` abandons the card.
- `Scraper`: the page loop. `ScrapeData` is the imperative loop, proved against `Run`, the
  state the loop reaches after pages 1..n. The network is the parameter `fetch`: what the
  site answers for each page index. `Output` gives the numbered rows.

Two behaviours of the code are modelled as written, not as the comments suggest:

- Any 'm' in the lower-cased price text selects the billion scale, and every 'm' is then
  deleted (`MultiplierChoice`, `BillionRemainderHasNoM`).
- Area attributes are recognised by "m²", but `parse_int` of such a text always fails on
  '²'. `isdigit` keeps '²', and `int()` then raises. So LT and LB stay 0 and every kept
  record has the default 100 for both (`ScanAreasStayZero`, `Admissible`).

Three facts about the code that the model keeps:

- The records of one run are the whole output. Nothing is merged with an earlier
  spreadsheet and nothing is deduplicated; the Excel file is overwritten.
- A card is read only through its CSS-selected title, price and attribute nodes. There is
  no fallback that searches the card's text with regular expressions.
- The loop pauses after a 200 and after a non-blocking failure status. It does not pause
  after a request that raised, nor after a block.

## Model

| member | source | states |
|---|---|---|
| Text.Lower | scripts/scraper.py:126 | `lower()` keeps the length and lower-cases each ASCII capital in place |
| Text.IsDigitChar | scripts/scraper.py:142 | defined as `c.isdigit()`: '0'..'9' or one of the superscripts ¹ ² ³ |
| Text.IsDigitString | scripts/scraper.py:78 | defined as `val.isdigit()`: non-empty, and every character passes Text.IsDigitChar |
| Text.Strip | scripts/scraper.py:126 | defined as `rstrip` after `lstrip`; characterised by Text.LStrip, Text.RStrip and Text.StripKeeps |
| Text.Contains | scripts/scraper.py:128 | defined as `t in s`: `t` is a prefix of `s` or of one of its suffixes; a one-character `t` reduces to membership (Text.ContainsChar) |
| Text.Replace | scripts/scraper.py:126 | defined as `s.replace(o, n)`, scanning left to right without overlap; characterised by Text.ReplaceKeeps and Text.ReplaceRemoves |
| Text.LStrip | scripts/scraper.py:126 | `lstrip()` is the longest suffix that does not start with whitespace, and everything it drops is whitespace |
| Text.RStrip | scripts/scraper.py:126 | `rstrip()` is the longest prefix that does not end with whitespace, and everything it drops is whitespace |
| Text.ReplaceKeeps | scripts/scraper.py:126 | a `replace` whose old and new strings both lack a character neither creates nor removes that character |
| Text.ReplaceRemoves | scripts/scraper.py:130 | after `replace("m", "")` (or any single-character removal) no such character is left |
| Text.ReplaceChar | scripts/scraper.py:126 | `replace` of one character by another keeps the length and maps each occurrence to the new character, leaving every other character in place |
| Text.StripKeeps | scripts/scraper.py:126 | `strip()` keeps every non-space character and adds none |
| Text.DigitsOfKeeps | scripts/scraper.py:142 | a digit character is in `filter(str.isdigit, s)` if and only if it is in `s` |
| Text.DigitsOf | scripts/scraper.py:142 | everything `filter(str.isdigit, s)` keeps is a digit |
| Text.DigitsOfNumeral | scripts/scraper.py:142 | a string of decimal digits passes the filter unchanged |
| Text.Value | scripts/scraper.py:142 | defined as the number a string of decimal digits spells, most significant first, leading zeros allowed, which is `int()`'s result for at most `MaxIntDigits` (4300) digits (the limit lives in Normalise.ParseInt); characterised by Text.ValueShow and Text.ValueAppend |
| Text.ValueShow | scripts/scraper.py:142 | reading a printed natural back with `Value` gives it back; `parse_int`'s digit limit is stated by Normalise.ParseIntShow |
| Text.ValueAppend | scripts/scraper.py:135 | digits read positionally: the value of `a + b` is value(a)·10^len(b) + value(b) |
| Normalise.ParseFormat | scripts/scraper.py:135 | `float()` reads back exactly the decimal that `Format` spells: sign, whole digits, point and fraction |
| Normalise.ParseNumberAlphabet | scripts/scraper.py:135 | text that `float()` accepts holds only digits, points and a leading sign |
| Normalise.ParseNumberTwoPoints | scripts/scraper.py:135 | a second decimal point makes `float()` fail |
| Normalise.ParseNumber | scripts/scraper.py:135 | `float()` of the remainder, or `None` when it raises; an accepted text is always well formed (digits on at least one side of at most one point, so "5." and ".5" are read, as Normalise.ExampleBarePoint shows), characterised by Normalise.ParseFormat, ParseNumberAlphabet and ParseNumberTwoPoints |
| Normalise.ParseNumberOnePoint | scripts/scraper.py:135 | in an accepted text every point is the one point that splits whole digits from fraction digits |
| Normalise.ExampleBarePoint | scripts/scraper.py:135 | "5." and ".5" are read as 5 and 0.5, and a lone "." is refused, as by `float()` |
| Normalise.Truncate | scripts/scraper.py:135 | `int(float(s) * m)` is the exact product truncated toward zero: its magnitude is the largest whole number not above the magnitude of s·m |
| Normalise.TruncateWhole | scripts/scraper.py:135 | a whole number without a fraction is scaled exactly |
| Normalise.Cleaned | scripts/scraper.py:126 | defined as `price_text.lower().replace("rp", "").replace(",", ".").strip()`; characterised by Normalise.CleanedKeeps and NoCommaLeft |
| Normalise.IsBillionText | scripts/scraper.py:128 | defined as `"miliar" in clean or "m" in clean`; characterised by Normalise.MultiplierChoice |
| Normalise.IsMillionText | scripts/scraper.py:131 | defined as `"juta" in clean or "jt" in clean`; characterised by Normalise.MultiplierChoice |
| Normalise.Multiplier | scripts/scraper.py:127-133 | defined as 10^9 on `"miliar" in clean or "m" in clean`, else 10^6 on `"juta" in clean or "jt" in clean`, else 1; characterised by Normalise.MultiplierChoice |
| Normalise.Remainder | scripts/scraper.py:128-135 | defined as the text `float()` receives: the branch's unit words deleted, then stripped; characterised by Normalise.RemainderKeeps and BillionRemainderHasNoM |
| Normalise.CleanPrice | scripts/scraper.py:123-138 | defined as `int(float(remainder) * multiplier)`, or 0 when `float()` raises; characterised by the CleanPrice lemmas below |
| Normalise.CleanedKeeps | scripts/scraper.py:126 | a character other than 'r', 'p', ',', '.' and whitespace is in the cleaned text if and only if it is in the lower-cased text |
| Normalise.BillionRemainderKeeps | scripts/scraper.py:130 | in the billion branch a character outside "miliar" and whitespace survives the deletions if and only if the cleaned text has it |
| Normalise.MillionRemainderKeeps | scripts/scraper.py:133 | in the million branch a character outside "juta" and whitespace survives the deletions if and only if the cleaned text has it |
| Normalise.RemainderKeeps | scripts/scraper.py:128-135 | whatever the branch, a character outside both unit words and whitespace reaches `float()` if and only if the cleaned text has it |
| Normalise.NoCommaLeft | scripts/scraper.py:126 | every comma became a point in place: the comma step keeps the length, turns each ',' into '.' and keeps every other character, so no comma is left in the cleaned text nor in what `float()` receives |
| Normalise.BillionKeepsMillionWords | scripts/scraper.py:128-138 | a text with both an 'm' and a 'j' (say "1 jt 2 m") takes the billion branch, which keeps the 'j' of "juta"/"jt", so its price is 0 |
| Normalise.MultiplierChoice | scripts/scraper.py:126-133 | the scale is 10^9 if and only if the lower-cased text has an 'm' anywhere; it is 10^6 if and only if there is no 'm' and the cleaned text says "juta" or "jt"; it is 1 otherwise |
| Normalise.BillionRemainderHasNoM | scripts/scraper.py:130 | in the billion branch every 'm' is deleted before `float()` |
| Normalise.CleanPriceRejectsText | scripts/scraper.py:135-138 | a remainder holding any character besides digits, points and a sign makes the price 0 |
| Normalise.CleanPriceStrayLetter | scripts/scraper.py:126-138 | a letter that no unit word removes survives all cleaning, so the price is 0 |
| Normalise.CleanPricePlain | scripts/scraper.py:126-133 | a bare number passes through the cleaning unchanged and is read at scale 1 |
| Normalise.CleanPriceNumeral | scripts/scraper.py:123-138 | the price of a printed whole number is that number |
| Normalise.CleanPriceDottedThousands | scripts/scraper.py:126-138 | dotted thousands ("1.500.000") are no number to `float()`: price 0 |
| Normalise.CleanPriceJuta | scripts/scraper.py:126-135 | "Rp <digits> Juta" is that many millions |
| Normalise.CleanPriceMiliar | scripts/scraper.py:124-135 | "Rp <w>,<f> Miliar" is w.f billions, the comma read as a point, truncated |
| Normalise.ExampleMiliar | scripts/scraper.py:124 | "Rp 3,5 Miliar" is 3 500 000 000 |
| Normalise.ExampleJuta | scripts/scraper.py:131-135 | "Rp 500 Juta" is 500 000 000 |
| Normalise.ExampleNoPrice | scripts/scraper.py:135-138 | "no price here" is 0 |
| Normalise.ExampleThousands | scripts/scraper.py:135-138 | "1.500.000" is 0 |
| Normalise.ParseInt | scripts/scraper.py:140-144 | defined as `int` of the `isdigit` characters, or 0 when `int()` raises: no digits, a superscript, or more than 4300 digits; characterised by Normalise.ParseIntNoDigits, ParseIntSuperscript and ParseIntDigits |
| Normalise.ParseIntNoDigits | scripts/scraper.py:140-144 | text without digits parses to 0 (`int('')` raises) |
| Normalise.ParseIntSuperscript | scripts/scraper.py:140-144 | one superscript digit anywhere, as in "120 m²", makes the parse 0 |
| Normalise.ParseIntDigits | scripts/scraper.py:140-144 | without superscripts the result is the number its decimal digits spell, in order, when there are at most 4300 of them, and 0 when `int()` refuses more |
| Normalise.ParseIntShow | scripts/scraper.py:140-144 | `parse_int` reads back a printed number of at most 4300 digits, and gives 0 for a longer one |
| Normalise.ExampleLeadingZeros | scripts/scraper.py:142 | "007" parses to 7 |
| Normalise.ExampleNoDigits | scripts/scraper.py:140-144 | "" and "abc" parse to 0 |
| Normalise.ExampleArea | scripts/scraper.py:140-144 | "120 m²" parses to 0 |
| Listing.ScanAttributes | scripts/scraper.py:60-81 | the attribute loop yields the counters `Scan` defines, or fails when `int(val)` raises |
| Listing.IsArea | scripts/scraper.py:74 | defined as `"m²" in val`; characterised by Listing.ScanAreasStayZero |
| Listing.IsRoomCount | scripts/scraper.py:78 | defined as `val.isdigit() and len(val) < 3`; characterised by Listing.ScanRooms |
| Listing.Raises | scripts/scraper.py:78-81 | defined as the room-count texts on which `int(val)` raises ValueError: no area, `isdigit`, shorter than 3, yet not all decimal; characterised by Listing.ScanFailsIff |
| Listing.Step | scripts/scraper.py:72-81 | defined as one attribute's effect: "m²" texts fill LT then LB with `parse_int`, short `isdigit` texts fill KT then KM with `int()` (failing when it raises), others change nothing; characterised by Listing.ScanFailsIff and ScanRooms |
| Listing.Scan | scripts/scraper.py:72-81 | defined as the attributes folded through Step in document order, failing once any step fails; characterised by Listing.ScanFailureStays, ScanFailsIff, ScanAreasStayZero, ScanRooms and ScanBounds |
| Listing.ScanFailureStays | scripts/scraper.py:78-81 | once `int(val)` has raised, later attributes cannot undo it |
| Listing.ScanFailsIff | scripts/scraper.py:72-81 | the scan fails if and only if some attribute is a short `isdigit` text that is no decimal numeral |
| Listing.ScanAreasStayZero | scripts/scraper.py:74-77 | every area text contains '²', so LT and LB stay 0 whatever the card says |
| Listing.FirstNonzero | scripts/scraper.py:80-81 | finds the first non-zero count, with every count before it 0 |
| Listing.ScanRooms | scripts/scraper.py:78-81 | KT is the first non-zero room count, and KM the last count after it (0 when absent) |
| Listing.ScanBounds | scripts/scraper.py:72-81 | after a successful scan LT = LB = 0 and both room counts are below 100 |
| Listing.MakeRecord | scripts/scraper.py:83-92 | each unfilled feature gets its default (LB 100, LT 100, KT 2, KM 1, GRS 1), filled ones are kept, and all are positive |
| Listing.ParseItem | scripts/scraper.py:47-96 | the per-card body gives the record `Extract` defines, or none |
| Listing.Extract | scripts/scraper.py:47-96 | defined as the card's record when the scan succeeds and the price is positive, and nothing otherwise; characterised by Listing.ExtractAdmits and ExtractRecord |
| Listing.ExtractAdmits | scripts/scraper.py:83-96 | a card is kept if and only if its price is positive and no attribute made `int()` raise |
| Listing.ExtractRecord | scripts/scraper.py:47-92 | a kept record is admissible, named by the title or "N/A", priced by `clean_price`, with the scanned room counts where non-zero |
| Listing.MissingPriceDropped | scripts/scraper.py:52-55 | a card without a price element reads "0" and is never kept |
| Scraper.CollectPage | scripts/scraper.py:41-96 | one page's cards contribute their kept records in document order |
| Scraper.PageRecords | scripts/scraper.py:41-96 | defined as the Extract results of a page's cards that are present, in document order; characterised by Scraper.PageRecordsAdmissible |
| Scraper.Visit | scripts/scraper.py:20-107 | defined as one page's effect: it is requested; a 200 adds its records and a pause, a 403 or 429 blocks, another status adds a pause, a raised request adds nothing |
| Scraper.IsBlocking | scripts/scraper.py:100 | defined as `status in [403, 429]`; characterised by Scraper.RunBlockedIff and RunStopsAtBlock |
| Scraper.Run | scripts/scraper.py:20-107 | defined as Visit over pages 1..n, stopping at a block; characterised by Scraper.RunFrozen, RunBlockedIff, RunHarvest, RunStopsAtBlock, RunFetched, RunAdmissible and RunPauses |
| Scraper.RunNext | scripts/scraper.py:20-107 | `Run` unfolded by one page: while nothing has blocked, page n is visited on the state after pages 1..n-1 |
| Scraper.ScrapeData | scripts/scraper.py:17-121 | the loop's output, requested pages and pause count are those of `Run` after `pages` pages |
| Scraper.RunFrozen | scripts/scraper.py:99-102 | once blocked, further pages change nothing |
| Scraper.RunBlockedIff | scripts/scraper.py:97-102 | the loop ends blocked if and only if some page it reached answered 403 or 429 |
| Scraper.RunHarvest | scripts/scraper.py:20-96 | with no blocking page, the data is every 200 page's kept records, in page order |
| Scraper.Harvest | scripts/scraper.py:20-96 | defined as the records of every page 1..n that answered 200, in page order; it is the loop's data when nothing blocks (Scraper.RunHarvest) |
| Scraper.RunUnblocked | scripts/scraper.py:97-102 | with no blocking page, the loop is still running after page n |
| Scraper.RunStopsAtBlock | scripts/scraper.py:97-102 | a 403/429 on page b keeps the data of pages 1..b-1, requests exactly pages 1..b, and ignores later pages |
| Scraper.RunFetched | scripts/scraper.py:20 | with no block, pages 1..n are requested, in increasing order |
| Scraper.Pages | scripts/scraper.py:20 | `range(1, n + 1)`: element i is i + 1 |
| Scraper.PageRecordsAdmissible | scripts/scraper.py:83-92 | every record a page contributes is admissible |
| Scraper.RunAdmissible | scripts/scraper.py:83-92 | every record the loop collects has a positive price, areas 100, room counts 1..99 and one garage |
| Scraper.RunPauses | scripts/scraper.py:104-107 | every requested page ends in exactly one of a pause, a raised request or the block |
| Scraper.Numbered | scripts/scraper.py:111-115 | row i gets NO = i + 1 and otherwise is record i |
| Scraper.Output | scripts/scraper.py:110-121 | nothing is written if and only if there is no record; otherwise the rows are the records, in order, numbered 1..N |
| Scraper.BlockedThirdPage | scripts/scraper.py:97-102 | with pages answering 200, 200, 403, the output is the first two pages' records, and no page after 3 is requested |

## Left out

- HTTP: the session, the URL, the random User-Agent and the timeout (lines 11-15, 21, 26-27). A page is an abstract answer given by `fetch`: a request that raised, or a status with the cards found.
- The BeautifulSoup lookups (lines 30-37, 48-53, 59, 63, 71), including the fallback card selector. A card is an optional title, an optional price text and its attribute texts. `features` and `text_content` are computed but never used.
- Exceptions inside the per-page `try` other than the request's own failure, such as a parser failure or one from `time.sleep`. The per-card `try` is modelled only for the `ValueError` of `int(val)`, which is the only exception the modelled code can raise.
- `time.sleep(random.uniform(2, 5))`: only the number of pauses is kept, not their length.
- The pandas DataFrame and the Excel file (lines 111-118): the output is the sequence of numbered rows, or nothing.
- Logging with `print`.
- Normalise.ParseNumber: accepts only an optional sign, digits and one point. It does not model `float()`'s exponents ("1e3") or underscores in numbers ("1_000"), which Python reads and the model reads as 0. "inf" and "nan" read as 0 here, and give 0 in Python too, since `int()` of them raises.
- Normalise.Truncate and Normalise.CleanPriceMiliar: exact decimal arithmetic instead of IEEE doubles, which differs from `int(float(clean) * multiplier)` in three ways. (1) Any fraction that is not exactly representable in binary can come out one unit lower in Python: `float("4.1")` is just below 4.1, so "Rp 4,1 Miliar" is 4 099 999 999 in Python and 4 100 000 000 here ("Rp 4,1 Juta": 4 099 999 against 4 100 000). CleanPriceMiliar's "w.f billions" is the exact value. (2) Whole numbers above 2^53 are rounded by `float()` and by the product; between 2^66 and 2^67 (prices of 20 and 21 digits) the doubles are 16384 apart, so the model's price and Python's can differ by thousands. (3) Past about 1.8·10^308, `float()` or `* multiplier` gives `inf`, `int(inf)` raises OverflowError, the bare `except` (lines 136-138) returns 0, and line 83 then drops the card; the model keeps the card with its exact, positive price.
- Text.Lower: ASCII only. Text.IsSpace: Python's whitespace below U+0100 only. Text.IsDigitChar: '0'-'9' and ¹ ² ³ only. Other Unicode digits and spaces are not modelled.
- The `api/`, `frontend/` and `check_*` scripts are not part of this model.
