# Earthquake map styling and legend, modelled in Dafny

The page (`Leaflet-Part-1/static/js/logic.js`) fetches a month of earthquakes
as GeoJSON and draws each one as a circle. The circle's radius comes from the
magnitude (`markerSize`). Its fill colour comes from the depth in kilometres
(`chooseColor`). A legend in the bottom-right corner (`legend.onAdd`) lists
the depth bands with colour swatches. This project models those three pieces
of logic and proves what they promise.

- `styling.dfy`, module `Styling`: `MarkerSize` is exact `real` arithmetic
  with the fixed factor 20000 and no clamping. `ChooseColor` is the
  descending ladder of strict `>` tests against 90, 70, 50, 30 and 10.
  Colours are the datatype `Colour`, and `Colour.Hex()` gives the literal
  code. `Colour.Band()` gives the position in the gradient (green 0 … red 5).
  `ChooseColor`'s contract ties the ladder to a reference definition: the
  band is the number of thresholds the depth strictly exceeds. Lemmas prove
  totality, exact boundaries and monotonicity.
- `decimal.dfy`, module `Decimal`: the decimal text of a whole number. String
  concatenation produces this text for the legend's labels (`depth[i] + " km"`).
  A parser reads it back, with a round-trip proof.
- `legend.dfy`, module `Legend`: `BuildLegend` is the `for` loop of
  `legend.onAdd`. It starts `innerHTML` with the heading and appends one row
  per threshold. It is proved equal to `LegendHtml`. That function renders the
  abstract rows given by `Rows`: each row has a swatch colour, a lower label
  and an optional upper label. Two JavaScript behaviours are written out.
  Reading `colors[i]` past the end gives `undefined`, modelled by `At`
  returning `None`. Concatenation renders `undefined` as the word
  "undefined". The upper-label test `depth[i + 1] ? … : "+"` is a truthiness
  test, so both a missing entry and a threshold of 0 print "+".

A depth of exactly 90 is orange-red (`#ea822c`). The test `depth > 90` is
strict and `90 > 70` holds (`ChooseColorBoundaries`).

## Model

| member | source | states |
|---|---|---|
| `Styling.MarkerSize` | Leaflet-Part-1/static/js/logic.js:11-13 | the radius is positive, zero or negative exactly when the magnitude is (no clamping) |
| `Styling.MagnitudeOfRadius` | Leaflet-Part-1/static/js/logic.js:11-13 | inverse of markerSize: the radius of the magnitude it returns is the given radius |
| `Styling.MarkerSizeRoundTrip` | Leaflet-Part-1/static/js/logic.js:11-13 | the radius determines the magnitude (round trip through the inverse) |
| `Styling.MarkerSizeProportional` | Leaflet-Part-1/static/js/logic.js:11-13 | the radius is the magnitude times one fixed factor, 20000, for every real magnitude |
| `Styling.MarkerSizeStrictlyIncreasing` | Leaflet-Part-1/static/js/logic.js:11-13 | a larger magnitude gives a strictly larger radius |
| `Styling.MarkerSizeExamples` | Leaflet-Part-1/static/js/logic.js:11-13 | magnitude 5 gives 100000, magnitude 0 gives 0, magnitude -1 gives -20000 |
| `Styling.BandColour` | Leaflet-Part-1/static/js/logic.js:17-22 | the gradient position of the colour returned is the one asked for |
| `Styling.HexInjective` | Leaflet-Part-1/static/js/logic.js:17-22 | the six colour codes are pairwise distinct |
| `Styling.CountBelowMonotone` | Leaflet-Part-1/static/js/logic.js:16-23 | a deeper depth exceeds at least as many thresholds |
| `Styling.ChooseColor` | Leaflet-Part-1/static/js/logic.js:16-23 | the colour chosen is the band whose index is the number of thresholds 10, 30, 50, 70, 90 the depth strictly exceeds |
| `Styling.ChooseColorTotal` | Leaflet-Part-1/static/js/logic.js:16-23 | every real depth, negative ones included, gets one of exactly six codes |
| `Styling.ChooseColorBands` | Leaflet-Part-1/static/js/logic.js:17-22 | each colour is chosen exactly for one half-open interval (both directions); every depth of at most 10 is green |
| `Styling.ChooseColorBoundaries` | Leaflet-Part-1/static/js/logic.js:17-22 | a depth equal to a threshold falls to the band below it (90 gives `#ea822c`, 10 gives `#98ee00`); 95 gives red; -5 gives green |
| `Styling.ChooseColorMonotone` | Leaflet-Part-1/static/js/logic.js:16-23 | a deeper depth never gets a colour nearer the green end |
| `Decimal.NatToString` | Leaflet-Part-1/static/js/logic.js:99 | the text of a whole number is a non-empty string of digits without a leading zero |
| `Decimal.IntToString` | Leaflet-Part-1/static/js/logic.js:99 | the text of a number starts with a minus sign exactly when the number is negative, every other character is a digit, and the digits have no leading zero (only 0 itself is written "0"; no "-0…"), the canonical decimal text |
| `Decimal.NatToStringRoundTrip` | Leaflet-Part-1/static/js/logic.js:99 | the digits of a whole number read back as that number |
| `Decimal.IntToStringRoundTrip` | Leaflet-Part-1/static/js/logic.js:99 | the label of an integer reads back as that integer |
| `Decimal.IntToStringInjective` | Leaflet-Part-1/static/js/logic.js:99 | different thresholds get different labels |
| `Legend.At` | Leaflet-Part-1/static/js/logic.js:98 | reading `colors[i]` gives the element when `i` is in bounds and undefined exactly when it is not |
| `Legend.UpperBound` | Leaflet-Part-1/static/js/logic.js:99 | the upper label is absent ("+") exactly when `depth[i + 1]` is undefined or 0, the falsy cases of the test; otherwise it is `depth[i + 1]` |
| `Legend.SwatchText` | Leaflet-Part-1/static/js/logic.js:98 | a present colour is written as that colour's own code (`Hex()`, 7 characters starting with `#`); an absent one exactly as "undefined" |
| `Legend.UpperText` | Leaflet-Part-1/static/js/logic.js:99 | the upper label text is "+" exactly when the bound is absent; otherwise it is a canonical decimal text (optional minus sign, digits, no leading zero) that reads back as `depth[i + 1]` |
| `Legend.RenderRowShape` | Leaflet-Part-1/static/js/logic.js:97-99 | a row's markup opens the swatch element, names the row's colour (or "undefined") right after `background:`, then has the element's close `"></i> ` at its place, then the decimal text of `depth[i]`, and after it exactly " km &ndash; ", the upper label's text and " km<br>" |
| `Legend.Rows` | Leaflet-Part-1/static/js/logic.js:96-99 | one row per threshold; row `i` has swatch `colors[i]` (or undefined), lower label `depth[i]` and the upper label of the `depth[i + 1]` test |
| `Legend.BuildLegend` | Leaflet-Part-1/static/js/logic.js:93-100 | the markup the loop appends to `innerHTML` is the heading followed by the rendering of every row, in order |
| `Legend.SourceLegendRows` | Leaflet-Part-1/static/js/logic.js:88-99 | the legend as written has seven rows; rows 0 to 5 have `colors[i]` and labels `depth[i]` – `depth[i + 1]`; the last row has an undefined colour and is the only one with "+" |
| `Legend.SourceLegendAgreesBelow100` | Leaflet-Part-1/static/js/logic.js:88-91 | for rows 0 to 5, every depth in the row's labelled band is coloured by chooseColor with that row's swatch |
| `Legend.SourceLegendLastRowUncoloured` | Leaflet-Part-1/static/js/logic.js:96-99 | a 150 km quake is drawn red but falls in the band of the last row, whose swatch is undefined |
| `Legend.SourceLegendLastRowHtml` | Leaflet-Part-1/static/js/logic.js:97-99 | the last row's HTML is `background:undefined` followed by `100 km &ndash; + km` |
| `Legend.LegendRows` | Leaflet-Part-1/static/js/logic.js:88-99 | with the corrected thresholds there are six rows, each coloured; only the last, 90 and up, ends in "+" |
| `Legend.LegendMatchesColours` | Leaflet-Part-1/static/js/logic.js:88-99 | with the corrected thresholds, every depth above -10 lies in exactly one row's band, the row counted by the thresholds it exceeds, and that row's swatch is chooseColor's colour |
| `Legend.LegendSwatchMatchesMarker` | Leaflet-Part-1/static/js/logic.js:98 | with the corrected thresholds, the swatch code a row's markup shows is the code chooseColor gives every depth in that row's band |
| `Legend.ShallowDepthsUnlabelled` | Leaflet-Part-1/static/js/logic.js:88-99 | a depth of -10 or less is drawn green but lies in no row's band, in the legend as written and in the corrected one |
| `Legend.BuildCorrectedLegend` | Leaflet-Part-1/static/js/logic.js:84-103 | building the corrected legend gives the heading and the six rows, each with a colour |

## Left out

- The GeoJSON fetch (`d3.json`) and its continuation: network I/O through an outside library.
- All Leaflet calls (`L.geoJSON`, `L.circle`, `L.tileLayer`, `L.map`, `L.control`, `L.control.layers`, `L.DomUtil.create`): foreign rendering and DOM code. `BuildLegend` returns the `innerHTML` text instead of writing it into a created element.
- The popup HTML of `onEachFeature`: it relies on `new Date(...)` formatting, which depends on locale and time zone, and on the browser's number-to-text conversion. It reads `title`, `mag`, `time` and the depth without checking that they exist.
- The fixed circle options (opacity 0.7, black stroke, weight 0.5), the map centre, zoom and tile URL, and `console.log`: configuration with no logic.
- `Styling.MarkerSize`: only real magnitudes are modelled. JavaScript also accepts a `null` magnitude, which the feed can carry (`markerSize(null)` is 0), and `undefined` or NaN (the radius is NaN); these coercions are outside the model.
- `Styling.ChooseColor`: only real depths are modelled. For an undefined or NaN depth every `>` test is false and the colour is `#98ee00`; such arguments and their coercions are outside the model.
- `Styling.MarkerSize`: floating-point rounding of the product is not modelled. Magnitudes and radii are exact reals.
- `Legend.BuildLegend`: returns the markup appended to `innerHTML`. A browser reading `innerHTML` back would return the serialised DOM (`&ndash;` as "–"), which is not modelled.
- `Decimal.IntToString`: models the text of whole numbers only, which is all the legend prints. Number-to-text conversion for fractions and exponents is not modelled.

## Findings

| source | as written | input that shows it | evidently intended | confidence | as-written member | corrected member |
|---|---|---|---|---|---|---|
| Leaflet-Part-1/static/js/logic.js:88-99 | seven thresholds `[-10, 10, 30, 50, 70, 90, 100]` over six colours. The loop runs seven times, so the last row reads `colors[6]` (undefined) and prints `100 km – + km` with no colour. The red row is labelled `90 – 100` although chooseColor paints every depth above 90 red | the legend itself, iteration `i = 6`; a 150 km quake is drawn red but falls in the uncoloured row's band | thresholds `[-10, 10, 30, 50, 70, 90]`: six rows, the last `90 km – + km` in red, each band matching chooseColor on the depths it covers, (-10, ∞); depths of -10 or less are green yet lie in no band in either version (`Legend.ShallowDepthsUnlabelled`) | high; not executed | `Legend.SourceLegendLastRowUncoloured` | `Legend.LegendMatchesColours` |
