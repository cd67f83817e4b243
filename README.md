# Market-sizing page chart helpers, in Dafny

The market-sizing page of the deck draws two bar charts with Chart.js. The first
shows market size (TAM, SAM, SOM). The second shows the annual cost to U.S.
businesses. This project models the logic those charts run.

- **`wrapLabels`** breaks a category label longer than 16 characters into an array
  of lines. It packs whole words greedily, in order.
- **The tooltip title callback** joins such an array back with single spaces.
- **Six formatter callbacks** print a value given in billions of US dollars:
  - the market chart's tooltip, data label and axis tick;
  - the cost chart's tooltip, data label and axis tick.

  Every callback uses the same rule. A value of 1000 or more is divided by 1000
  and shown with a trillion unit. A smaller value is shown as it is, in billions.
  The callbacks differ in how the trillion amount is printed:
  - `toFixed(1)` in the market chart;
  - `toFixed(2)` in the cost chart;
  - plain interpolation on the ticks.

  They also differ in the words around the amount: the cost tooltip reads
  "Cost: $… Trillion" or "Cost: $… Billion".
- **The page's hard-coded data.** This includes the figures it writes by hand
  over the bars ($1.5T, $731B, $7.3B, $1.46T, $153B). The callbacks are proved to
  print exactly those figures.

Modules:

- `JsString` (js_string.dfy) holds the string built-ins the helpers call, as
  JavaScript defines them:
  - `split` with a one-character separator;
  - `join`;
  - `trim`, with the ECMAScript white-space and line-terminator code points.
- `Decimal` (decimal.dfy) holds exact decimal numbers and two ways to print them:
  - `ShortestText` is template interpolation: the shortest digits, with no
    trailing zero (JavaScript's form for non-zero amounts from 10^-6 up to 10^21);
  - `FixedText` is `toFixed`: round to the nearest, ties upward, then print
    exactly that many fraction digits (JavaScript's form for amounts below 10^21).

  `Parse` reads such text back. It is the partner both printers are proved against.
- `ValueFormat` (value_format.dfy) holds the billions/trillions rule. A call site
  is described by its lead text, its trillion notation and its unit spelling.
- `LabelWrap` (label_wrap.dfy) has three parts:
  - the loop of `wrapLabels` as a fold (`Step`, `Scan`);
  - the loop itself as a method (`WrapLabels`), proved to compute that fold;
  - an independent greedy line filler over word groups (`GroupStep`, `Greedy`).

  For well-spaced labels the loop equals the greedy filler. The promised
  properties of the wrapped lines are proved from the filler: whole words in
  order, the length bound, maximality, and the join round trip.
- `Charts` (charts.dfy) holds the two charts' data and the six call sites. It
  also holds the concrete facts about them.
- `Wrappers` (wrappers.dfy) holds `Option`.

Numbers are exact: a chart value is a natural number of hundredths of a billion,
so 7.3 billion is 730. Dividing by 1000 only moves the decimal point.

## Model

| member | source | states |
|---|---|---|
| LabelWrap.WrapLabel | src/TenXOpportunityPage.jsx:158-178 | A label that is not a string, or has at most 16 characters, is returned unchanged. A longer string becomes an array of non-empty lines. |
| LabelWrap.WrapLabels | src/TenXOpportunityPage.jsx:158-178 | The loop over the words, which pushes lines and reassigns the current line, returns exactly `WrapLabel`. The invariant is that the loop state after `i` words is the fold `Scan` over those words. |
| LabelWrap.Step | src/TenXOpportunityPage.jsx:167-172 | One pass of the loop body: push the current line and start a new one when the trimmed extended line exceeds 16 characters and the current line is non-empty, otherwise extend it. Its contract is stated by `StepIsGroupStep`. |
| LabelWrap.Flush | src/TenXOpportunityPage.jsx:174-176 | The last line is pushed only when it is non-empty. Its contract is stated by `WrapWordsIsGreedy` and the non-empty-lines clause of `WrapWords`. |
| LabelWrap.WrapWords | src/TenXOpportunityPage.jsx:163-177 | Every returned line is non-empty; on proper words the lines are the greedy groups joined with spaces (`WrapWordsIsGreedy`). |
| LabelWrap.Scan | src/TenXOpportunityPage.jsx:164-173 | The loop never pushes an empty line. |
| LabelWrap.ScanSnoc | src/TenXOpportunityPage.jsx:166-173 | Visiting one more word is one more loop step. |
| LabelWrap.StepIsGroupStep | src/TenXOpportunityPage.jsx:167-172 | For a word with no white space at its ends, one loop step has the same effect as the greedy step. The greedy step appends the word to the open line unless that line is non-empty and its width plus one plus the word's length exceeds 16. Here `trim` changes nothing. |
| LabelWrap.ScanIsGreedy | src/TenXOpportunityPage.jsx:163-176 | On proper words, the loop state is the greedy groups joined with spaces. The open line is empty only before the first word. |
| LabelWrap.WrapWordsIsGreedy | src/TenXOpportunityPage.jsx:163-177 | On proper words, the returned lines are the greedy groups, each joined with single spaces. |
| LabelWrap.GroupStepLayout | src/TenXOpportunityPage.jsx:166-173 | One greedy step keeps the groups a greedy layout of the words seen so far. |
| LabelWrap.GroupScanLayout | src/TenXOpportunityPage.jsx:166-176 | At every point of the scan, the groups are a greedy layout. A greedy layout means: the words in their order, no empty line, a line over 16 characters only when it holds one word, and no line that could have taken the next line's first word. |
| LabelWrap.GreedyIsLayout | src/TenXOpportunityPage.jsx:163-177 | The greedy lines of any word list are a greedy layout of it. They are non-empty when there are words. |
| LabelWrap.JoinedLayout | src/TenXOpportunityPage.jsx:171-177 | Joining greedy groups of space-free words with spaces gives lines that have four properties. Splitting each line at spaces gives back its group. Joining the lines gives the words joined. A line over 16 characters has no space. The next line's first word never fits on the previous line. |
| LabelWrap.WrapLabelGroups | src/TenXOpportunityPage.jsx:158-177 | A long well-spaced label wraps into its greedy groups of words, joined with spaces. |
| LabelWrap.WrapLabelLayout | src/TenXOpportunityPage.jsx:158-178 | A long well-spaced label becomes an array of at least one non-empty line, with these properties: (1) read in order, the lines hold exactly the label's words, so no word is split; (2) joined with single spaces, they give the label back; (3) a line longer than 16 characters is a single word; (4) no line could have taken the next line's first word. |
| LabelWrap.TooltipTitle | src/TenXOpportunityPage.jsx:209-213 | The title callback: an array label is joined with single spaces, anything else is shown as is. Its contract is stated by `TitleOfWrapped`. |
| LabelWrap.TitleOfWrapped | src/TenXOpportunityPage.jsx:209-213 | The tooltip title of a wrapped label is the original label. A short or non-string label is shown as is. A long, well-spaced label is joined back from its lines. |
| LabelWrap.GroupScanFold | src/TenXOpportunityPage.jsx:166-173 | The greedy scan is the left fold of the greedy step: a run of states, each one step from the last, ends where the scan does. |
| JsString.Trim | src/TenXOpportunityPage.jsx:167 | `trim()` removes the leading and then the trailing white space. Its contract is stated by `TrimStart`, `TrimEnd` and `TrimUnchanged`. |
| JsString.TrimStart | src/TenXOpportunityPage.jsx:167 | Leading white space is removed, and only white space: the result is a suffix that does not start with white space. |
| JsString.TrimEnd | src/TenXOpportunityPage.jsx:167 | Trailing white space is removed, and only white space: the result is a prefix that does not end with white space. |
| JsString.TrimUnchanged | src/TenXOpportunityPage.jsx:167 | `trim` leaves a string alone when it neither starts nor ends with white space. |
| JsString.Split | src/TenXOpportunityPage.jsx:163 | `split` returns at least one piece, and no piece contains the separator. |
| JsString.Join | src/TenXOpportunityPage.jsx:212 | `join`: the parts with the separator between each two. Its contract is stated by `JoinSplit`, `SplitJoin` and `JoinFold`. |
| JsString.JoinSplit | src/TenXOpportunityPage.jsx:163 | Joining the pieces of a split with the separator gives back the string. |
| JsString.SplitJoin | src/TenXOpportunityPage.jsx:212 | Splitting the join of separator-free pieces gives back the pieces. |
| JsString.JoinFold | src/TenXOpportunityPage.jsx:212 | Suppose each text is a part, the separator, then the next text, and the last text is the last part. Then joining the parts gives the first text. |
| Decimal.Normalize | src/TenXOpportunityPage.jsx:51 | Interpolation drops trailing zero fraction digits. The number is unchanged, and no trailing zero is left. |
| Decimal.RoundTo | src/TenXOpportunityPage.jsx:49 | `toFixed` keeps exactly `places` fraction digits. With enough digits already, the value is unchanged. Otherwise it lands within half a unit of the last place, with ties rounded up. |
| Decimal.NatDigits | src/TenXOpportunityPage.jsx:51 | The decimal digits of a whole number denote it and have no leading zero. |
| Decimal.FixedDigits | src/TenXOpportunityPage.jsx:49 | The fraction digits that `toFixed` prints, zero-padded to the width, denote the fraction. |
| Decimal.RenderParses | src/TenXOpportunityPage.jsx:49-51 | The printed form of a decimal reads back as exactly that decimal. |
| Decimal.RenderCanonical | src/TenXOpportunityPage.jsx:49-51 | The printed form has digits before any point, and starts with 0 only when the whole part is a lone 0. |
| Decimal.ShortestText | src/TenXOpportunityPage.jsx:51 | `${value}` for an exact decimal. Its contract is stated by `ShortestTextParses`. |
| Decimal.FixedText | src/TenXOpportunityPage.jsx:49 | `x.toFixed(places)` for an exact decimal. Its contract is stated by `FixedTextParses`. |
| Decimal.ShortestTextParses | src/TenXOpportunityPage.jsx:51 | Interpolated text reads back as the same number, with no trailing zero fraction digit and no leading zero before the point other than a lone 0, so it is the one canonical text for the number. |
| Decimal.FixedTextParses | src/TenXOpportunityPage.jsx:49 | `toFixed` text reads back as the rounded number, with exactly `places` fraction digits and no leading zero before the point other than a lone 0, so it is the one canonical text for that number. |
| ValueFormat.Scale | src/TenXOpportunityPage.jsx:46-52 | The trillion unit is chosen exactly when the value is at least 1000 billion, so the threshold is inclusive. The scaled amount times the unit equals the value. Billions are always interpolated; trillions use the site's notation. |
| ValueFormat.Format | src/TenXOpportunityPage.jsx:46-52 | Each formatter callback: lead text, dollar sign, amount, unit. With `Display`, `AmountText` and `UnitText` it covers the six callbacks (lines 46-52, 63-68, 80-85, 214-220, 231-236 and 248-253). Its contract is stated by `Scale` and `AmountReadsBack`. |
| ValueFormat.AmountReadsBack | src/TenXOpportunityPage.jsx:214-220 | A callback returns its lead, a dollar sign, the amount and the unit. The amount reads back as the value in its unit: exactly for interpolation and for `toFixed` with at least as many places as the amount has, and otherwise rounded to the nearest multiple of 10^-places, ties upward. |
| ValueFormat.SitesAgree | src/TenXOpportunityPage.jsx:46-253 | All six call sites pick the same unit for a value and scale it the same way. |
| Charts.MarketTooltip | src/TenXOpportunityPage.jsx:46-52 | The market tooltip prints trillions with `toFixed(1)` and the units "T" and "B". |
| Charts.MarketDataLabel | src/TenXOpportunityPage.jsx:63-68 | The market data label prints trillions with `toFixed(1)` and the units "T" and "B". |
| Charts.MarketTick | src/TenXOpportunityPage.jsx:80-85 | The market axis tick interpolates trillions and uses the units "T" and "B". |
| Charts.CostTooltip | src/TenXOpportunityPage.jsx:214-220 | The cost tooltip leads with "Cost: ", prints trillions with `toFixed(2)` and spells the unit out. |
| Charts.CostDataLabel | src/TenXOpportunityPage.jsx:231-236 | The cost data label prints trillions with `toFixed(2)` and the units "T" and "B". |
| Charts.CostTick | src/TenXOpportunityPage.jsx:248-253 | The cost axis tick interpolates trillions and uses the units "T" and "B". |
| Charts.MarketLabelsMatchOverlay | src/TenXOpportunityPage.jsx:46-136 | The market chart's tooltips (46-52) and data labels (63-68) print $1.5T, $731B and $7.3B for its data (23). These are the figures written over its bars (124-136). |
| Charts.CostLabelsMatchOverlay | src/TenXOpportunityPage.jsx:231-300 | The cost chart's data labels (231-236) print $1.46T and $153B for its data (185). These are the figures written beside its bars (293-300). |
| Charts.CostTooltips | src/TenXOpportunityPage.jsx:214-220 | The cost chart's tooltips read "Cost: $1.46 Trillion" and "Cost: $153 Billion". |
| Charts.ThresholdIsInclusive | src/TenXOpportunityPage.jsx:63-236 | For 1000 billion, the market tick (80-85) reads $1T and the market data label (63-68) reads $1.0T. Just below, 999.99 billion is still printed in billions by the cost data label (231-236), as $999.99B. |
| Charts.CostCategoriesWrap | src/TenXOpportunityPage.jsx:182 | "Direct Costs to Private Insurers" wraps into "Direct Costs to" and "Private Insurers". "Indirect Costs to Employers (Lost Productivity)" wraps into "Indirect Costs", "to Employers", "(Lost" and "Productivity)". |
| Charts.CostTitlesRoundTrip | src/TenXOpportunityPage.jsx:209-213 | The cost chart's tooltip title for each category is the category as written. |

## Left out

- Chart creation, destruction and the React effect lifecycle are not modelled. These are calls into Chart.js and the DOM, with no logic of the page's own. This covers `new Chart`, `destroy`, canvas contexts, the error logging and `Chart.register` of the core components and the data-labels plugin.
- `src/App.jsx` is not part of this model. It is the static pitch-deck page: section components and a literal `navLinks` array (App.jsx:25-34), listed by the `.map` at App.jsx:45. It has no logic and does not render the chart page. The chart page's `onNavigateHome` prop, styling and markup are not modelled either, apart from the figures written over the bars.
- Which values the axis ticks receive is decided by Chart.js. The model formats any value it is given.
- JavaScript numbers are modelled as exact non-negative decimals with two fraction digits in billions. Binary floating-point rounding of `value / 1000` and of `toFixed` is not modelled. Neither are negative values, which none of the charts' data or ticks from zero produce. Nor is the exponent form that Number-to-String and `toFixed` use for amounts of 10^21 and more, nor the exponent form Number-to-String uses for non-zero amounts below 10^-6: the model prints plain digits there. No callback reaches either range: billion amounts are 0 or at least 0.01, trillion amounts at least 1.
- String lengths count Unicode scalar values, not UTF-16 code units. The two match for the page's labels, which are ASCII.
- A chart label that is neither a string nor an array is abstracted as an integer (`Other`). `wrapLabels` returns it unchanged.
- The title callback's lookup of the hovered item's label through Chart.js is not modelled. The model takes the label itself.
- LabelWrap.WrapLabelLayout: proved only for well-spaced labels. Splitting such a label at single spaces gives non-empty words with no white space at either end. For other labels (repeated, leading or trailing spaces, or tabs), only the exact behaviour given by `WrapLabel` and `WrapLabels` is stated, not the layout properties.
- LabelWrap.TitleOfWrapped: stated for labels that are not already arrays, and under the same well-spacing condition for long strings.
