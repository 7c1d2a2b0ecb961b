# BGSC NFT price monitor — decision core in Dafny

The monitor drives a marketplace page with a headless browser and sends a
chat alert when an NFT listing of a rarity grade is cheap enough. This project
models the pure logic of three functions in `monitor.js`. The order in which
the program calls them for each grade is in `checkOnce`, which is not part of
this model.

- **Price extraction** (`Extraction`, built on `Decimal`), in
  `checkPricesAndNotify`. Every non-digit character of each price text is
  removed. Texts left empty are dropped. The rest are parsed in base 10, in
  page order.
- **Notification decision** (`Notification`), in `checkPricesAndNotify`. The
  prices are walked in order. The first one that is positive, at most the
  threshold, and different from the price last alerted for the grade
  triggers one alert. That price is then recorded for the grade.
- **Filter button lookup** (`FilterModal`, built on `Whitespace`), in
  `clickRarityFilter`. The first modal button whose trimmed text equals the
  label exactly is clicked. The condition `openFilterModal` waits for is
  modelled too.
- **End to end** (`Monitor`). `checkPricesAndNotify` is extraction followed by
  the decision.

`Search.FindFirst` is the first-match scan shared by `Array.prototype.find`
and the loop that returns on its first qualifying price. The record of alerted
prices (`notified` in the program) is an explicit `map<string, nat>`. The
threshold is a parameter. Sending the alert is represented by the `sent`
price of a `Decision`.

Behaviour of the code worth knowing:

- Dedup compares a price only with the last alerted price of the grade. So
  900000, then 950000, then 900000 all alert
  (`Notification.ReAlertAfterOtherPrice`).
- With two qualifying listings at different prices on the page, consecutive
  checks alternate between them and alert every time
  (`Notification.TwoPricesAlternate`). Two listings at the same price alert
  once (`Notification.EqualPricesAlertOnce`).
- The alert is for the first qualifying price in page order, not the lowest
  one (`Monitor.FirstNotLowest`). Prices above the threshold are passed over
  (`Monitor.FirstQualifyingTextWins`).
- The filter buttons are found by one flat query inside the `wcm-modal`
  element.

## Model

| member | source | states |
|---|---|---|
| Decimal.Digits | monitor.js:58 | the filtered text holds digits only and is no longer than the input; it is empty exactly when the text has no digit, and it keeps the text's full length exactly when the text is all digits |
| Decimal.DigitsAppend | monitor.js:58 | removing non-digits distributes over concatenation, so the kept digits stay in their original order |
| Decimal.DigitsOfDigits | monitor.js:58 | a text made only of digits passes the filter unchanged |
| Decimal.ParseDecimal | monitor.js:60 | the base-10 value of a digit string of length k is below 10^k |
| Decimal.ParseDecimalAppend | monitor.js:60 | appended digits are the low-order places: value(a+b) = value(a)·10^len(b) + value(b) |
| Decimal.ParseDecimalLeadingZero | monitor.js:60 | a leading zero does not change the parsed value |
| Decimal.ParseDecimalZeroIff | monitor.js:60 | the parsed value is 0 exactly when every digit is '0' |
| Decimal.ParseRender | monitor.js:60 | parsing the decimal rendering of any n gives back n |
| Decimal.RenderParse | monitor.js:60 | rendering the parsed value of a digit string without superfluous leading zeros gives back that string |
| Decimal.ParseGrouped | monitor.js:58-60 | stripping the commas from a thousands-grouped rendering of n and parsing gives back n |
| Whitespace.Trim | monitor.js:28 | the trimmed text has no white space at either end, is no longer than the input, and is empty exactly when the text is all white space |
| Whitespace.TrimSplits | monitor.js:28 | every text is its trimmed core with white space only before and after it |
| Whitespace.TrimOfPadded | monitor.js:28 | trimming white space around a core that has no white space at its ends gives exactly that core |
| Whitespace.TrimIdempotent | monitor.js:28 | trimming twice is the same as trimming once |
| Search.FindFirst | monitor.js:27-29 | the result is the first position whose element satisfies the predicate; it is None exactly when no element does |
| Search.FindFirstAppend | monitor.js:64-71 | on a concatenation, a match in the front part wins; otherwise the match in the back part is returned, shifted past the front part |
| Extraction.PriceOf | monitor.js:58-60 | the price of one text is below 10 to the number of its digits, and is 0 exactly when all its digits are '0' |
| Extraction.EarlierSource | monitor.js:56-60 | a text with a digit that stands before the k-th price's source text is the source of an earlier price |
| Extraction.Extract | monitor.js:56-60 | extraction never adds entries; it keeps one entry per text exactly when every text has a digit |
| Extraction.ExtractFollowsSources | monitor.js:56-60 | entry i is the parsed digits of the i-th text that has a digit; source positions increase, so page order is kept and nothing is reordered |
| Extraction.ExtractAppend | monitor.js:56-60 | extraction works text by text: the prices of a+b are the prices of a followed by those of b |
| Extraction.ExtractOne | monitor.js:58-60 | one text yields its parsed digits if it has a digit, and no entry otherwise |
| Extraction.DigitlessDropped | monitor.js:59 | a text without digits contributes no entry, wherever it stands in the list |
| Extraction.ZeroOnlyFromZeros | monitor.js:58-60 | an extracted price is 0 exactly when its source text's digits are all '0'; a missing price never becomes 0 |
| Extraction.PriceOfGrouped | monitor.js:58-60 | a price shown with thousands separators and a digitless unit suffix is read back exactly |
| Notification.Qualifies | monitor.js:65 | a price equal to the grade's record never qualifies; for a grade with no record (`undefined` in the program) exactly the prices in 1..threshold qualify; 0 and prices above the threshold never qualify |
| Notification.Decide | monitor.js:64-72 | an alert fires exactly when some price is positive, at most the threshold and different from the grade's record; it is for the first such price in list order; on an alert the grade's record becomes that price; with no alert the record is unchanged |
| Notification.FiredQualifies | monitor.js:65 | an alert's price is positive, at most the threshold, and differs from the grade's previous record |
| Notification.OtherGradesUnchanged | monitor.js:68 | every grade other than the one checked keeps its entry, or keeps having none |
| Notification.DependsOnOwnEntry | monitor.js:65 | the alert chosen for a grade depends on the record only through that grade's entry |
| Notification.SamePriceDoesNotRefire | monitor.js:65-68 | right after an alert on price p, a check that sees only p does not alert |
| Notification.NextCheckAfterAlert | monitor.js:65-68 | after an alert on p, the next check alerts exactly when it sees a positive price within the threshold other than p |
| Notification.ConsecutiveAlertsDiffer | monitor.js:65-68 | two alerts in a row for the same grade are never for the same price |
| Notification.ThresholdMonotone | monitor.js:65 | if a check alerts under a threshold, it also alerts under any higher threshold |
| Notification.DecideAppend | monitor.js:64-72 | the walk stops at the first qualifying price: on a+b the decision is a's when a alerts, and otherwise b's |
| Notification.ReAlertAfterOtherPrice | monitor.js:65-68 | starting with no record, 900000 then 950000 then 900000 all alert under a threshold of 1000000 |
| Notification.TwoPricesAlternate | monitor.js:64-69 | with prices 500 and 700 under a threshold of 1000, three consecutive checks alert on 500, then 700, then 500 |
| Notification.EqualPricesAlertOnce | monitor.js:64-69 | with two listings both at 500 under a threshold of 1000, the first check alerts on 500 and the next check with the same listings stays silent |
| FilterModal.FindLabel | monitor.js:27-29 | the result is the first button whose trimmed text equals the label exactly; it is None exactly when no button matches |
| FilterModal.ClickRarityFilter | monitor.js:24-31 | a button is clicked exactly when the modal exists and one of its buttons' trimmed text equals the label; it is the first such button |
| FilterModal.ReadyIffGoldClickable | monitor.js:10-14 | the wait condition (the modal exists and `some` button's trimmed text is the gold label) holds exactly when `clickRarityFilter` with the gold label (`find`, lines 27-29) would click a button |
| FilterModal.ExactMatchNotSubstring | monitor.js:27-29 | a button "골드 이상", which only contains the label, is passed over; a later " 골드\n" is taken |
| FilterModal.PaddingIgnored | monitor.js:28 | white space around a button's text never prevents an exact match |
| Monitor.CheckPricesAndNotify | monitor.js:53-72 | an alert fires exactly when some price text has a digit and its parsed price qualifies; the alerted price is that of the first such text in page order, and it qualifies; the grade's record becomes that price on an alert and is unchanged otherwise |
| Monitor.AlertTracesToText | monitor.js:54-72 | deciding on the extracted prices fires exactly when some text's parsed price qualifies, and then on the price of the first qualifying text in page order |
| Monitor.FirstPriceIsFirstText | monitor.js:56-65 | the first qualifying extracted price is the price of the first text with a digit whose price qualifies |
| Monitor.QualifyingTextFires | monitor.js:56-69 | any text with a digit whose parsed price qualifies makes the check alert |
| Monitor.FirstQualifyingTextWins | monitor.js:64-69 | with texts "1,500,000 BGSC" then "800,000 BGSC" and threshold 1000000, the earlier price above the threshold is passed over and the alert is for 800000 |
| Monitor.FirstNotLowest | monitor.js:64-69 | with texts "900,000 BGSC" then "800,000 BGSC" and threshold 1000000, both qualify and the alert is for the earlier 900000, not the lower 800000 |
| Monitor.ExtractsDisplayedPrice | monitor.js:58-60 | the text "1,195,000 BGSC" yields exactly the price 1195000 |
| Monitor.NoDigitsNoPrice | monitor.js:58-59 | the texts "—" and "" yield no prices at all, not zeros |
| Monitor.GoldSilentPlatinumAlerts | monitor.js:53-72 | with threshold 1000000, a gold listing at 1,500,000 stays silent and a platinum listing at 800,000 alerts and is recorded |

## Left out

- Browser control is not modelled: `page.click`, `page.waitForFunction`, `page.evaluate`, `page.$$eval`, the CSS selectors and the 5000 ms wait timeout (monitor.js:4-17, 24, 54-55). Only the data they yield appears, as a sequence of button or price texts, or an absent modal.
- `scrollGridToEnd` (monitor.js:36-50) is left out. It is a DOM polling loop with timers whose end depends on live page state.
- `sendTelegramMessage` and the message built with `toLocaleString` (monitor.js:66-67) are left out. They are a network call and locale formatting. The alert is the `sent` price of a `Decision`.
- Notification.Decide: does not model a failing send. In the code a rejected send throws out of the loop before the record is written. The sender is not part of this model, so its failure modes are unknown.
- Decimal.ParseDecimal: parses into an unbounded natural number. `parseInt` returns a double, so digit strings above 2^53 lose precision in the program but not in the model.
- Notification.Decide: grade keys are plain map keys. The program indexes a JavaScript object, and there special keys such as `__proto__` behave differently. The only label visible in monitor.js is "골드" (line 13). The labels `checkOnce` passes are not shown, so keys such as `__proto__` cannot be ruled out.
- Notification.Decide: treats the test of a price and the write of the record as one step. In the program `await sendTelegramMessage(msg)` (monitor.js:67) sits between the test (line 65) and the write (line 68), and `setInterval` (monitor.js:88-95) starts a new check without waiting for the previous one. Two overlapping checks of one grade can therefore both alert on the same price. The dedup lemmas (`SamePriceDoesNotRefire`, `NextCheckAfterAlert`, `ConsecutiveAlertsDiffer`) hold only for checks that do not overlap.
- Process start-up, `puppeteer.launch` and the `setInterval` scheduler with its error catching (monitor.js:75-99) are left out. They are process lifecycle and timers.
- `checkOnce`, `PRICE_THRESHOLD`, `CHECK_INTERVAL_MS`, `notified`, `page` and `browser` are not part of this model. They are referenced but not defined in monitor.js. The threshold is a parameter and `notified` is an explicit map.
