# wattbar, modelled in Dafny

wattbar draws a thin battery bar along the bottom edge of every Wayland output. Each
output gets a layer-shell surface, wrapped in a `Surface`. A single-slot render event
decides whether the next pass of the main loop closes the surface, redraws it at new
dimensions, or redraws it because the battery changed. A reporter thread keeps a shared
power snapshot up to date from UPower's display device, or from a mock counter. Themes
are gradient tables: per charge state, a list of stops, each with a level, a foreground
colour and a background colour. The colour-space module supplies the Rec.2020 and ProPhoto
transfer curves that the theme parser's CSS colour conversion relies on.

The model has six modules, one `.dfy` file each:

- `Base` (`base.dfy`): `Option`, `Result`, bytes and unsigned 32-bit values.
- `ColorSpace` (`colorspace.dfy`): the four transfer functions of `src/colorspace.rs` over
  reals. The power function is a parameter. The module proves that the curves are odd,
  fix zero, and round-trip exactly on their linear segments. It also proves them non-decreasing
  for any power function that is non-decreasing in its base and meets the linear branch. The exact power
  function meets the linear branch at three of the four breaks, but not at the Rec.2020 decoder's
  (see "## Left out"); there the curve is proved to step down. The full round trip is proved
  for any power function whose two exponents undo each other at the input.
- `Themes` (`themes.dfy`): the data of `src/theme.rs`.
  - The `Totalize` order and the section accessors.
  - The stable sort applied to each section, proved sorted, a permutation, and stable.
  - `colors_at` as a loop proved against a bracketing specification. Lemmas cover the
    end stops, interpolation between the bracketing stops, exact stop levels and the
    midpoint.
- `ThemeParse` (`theme_parse.dfy`): `convert_color`, `parse_stop` and the line loop of
  `Theme::load`.
  - The CSS tokenizer and palette's conversions are uninterpreted functions.
  - `Load` is a loop proved against a recursive specification of the scan.
  - Lemmas state each line rule, the first failing line, and the sorted result.
  - The section-header test is proved to accept exactly the lines of the header regex.
- `UPower` (`upower.dfy`): the battery-state mapping, the snapshot built from UPower's
  properties, the in-place merge of changed properties, and the mock counter.
  - `Reporter` holds the shared status. `Watcher` holds the signal loop's copy of the
    properties.
- `WattBar` (`wattbar.dfy`): `src/main.rs`.
  - The precedence rules of the render-event slot.
  - `resize`, with its early-return test and its requests.
  - `handle_events`.
  - `draw`'s fill over an `array` of bytes, proved to write the bar byte for byte.
  - The main loop's in-place removal of closed surfaces, and the output handler.
  - `Surface` and `App` are classes whose methods update their fields.

Floating-point values are modelled as reals. palette's `mix`, `darken`, the ARGB packing
and the Oklab values of `draw`'s fixed colours are fields of `DrawColors`. Where a lemma
needs one of those behaviours, its requires states it (for example, that mixing with
factor 0 returns the first colour).

Where the code and the design disagree, the model follows the code. Its one departure from the
code is the HSL argument order of `convert_color`, a defect recorded under "## Findings":

- `load` accepts an empty section. `colors_at` therefore requires a non-empty section,
  as `src/theme.rs:163` assumes.
- The section regex matches only lower-case names (`src/theme.rs:16`). An upper-case
  header is therefore parsed as a stop line.
- `RenderEvent::Configure` has no scale (`src/main.rs:56`).
- `resize` never stores the mode. With the stored mode still `None`, every call to
  `resize` requests the size again whenever the output has a current mode
  (`WattBar.ResizeAlwaysRequests`).
- `PowerState` in `src/main.rs:29-36` has `charging: bool`, but `src/upower.rs:65-73`
  builds it with a `state: ChargeState`. The model uses the second shape and reads
  `!state.charging` in `draw` as "the state is not `Charging`".

## Model

| member | source | states |
|---|---|---|
| `ColorSpace.Signum` | src/colorspace.rs:24-25 | the sign is 1 or -1 (1 at zero, as `f32::signum` gives for +0.0), and sign times absolute value gives back the input |
| `ColorSpace.Adobe98Gamma` | src/colorspace.rs:10-13 | the exponent is exactly 256/563: it lies in (0, 1) and its reciprocal is the gamma 2.19921875 |
| `ColorSpace.Rec2020IntoLinear` | src/colorspace.rs:20-31 | the Rec.2020 decode: below 4.5 * beta in magnitude it divides by 4.5, otherwise it is the re-signed power ((abs(x) + alpha - 1) / alpha)^(1/0.45) |
| `ColorSpace.Rec2020FromLinear` | src/colorspace.rs:40-51 | the Rec.2020 encode: below beta in magnitude it multiplies by 4.5, otherwise it is the re-signed alpha * abs(x)^0.45 + 1 - alpha |
| `ColorSpace.ProPhotoIntoLinear` | src/colorspace.rs:59-68 | the ProPhoto decode: below 16/512 in magnitude it divides by 16, otherwise it is the re-signed abs(x)^1.8 |
| `ColorSpace.ProPhotoFromLinear` | src/colorspace.rs:76-85 | the ProPhoto encode: below 1/512 in magnitude it multiplies by 16, otherwise it is the re-signed abs(x)^(1/1.8) |
| `ColorSpace.TransferFunctionsAreOdd` | src/colorspace.rs:20-85 | each of the four curves satisfies f(-x) = -f(x), whatever the power function |
| `ColorSpace.TransferFunctionsFixZero` | src/colorspace.rs:20-85 | each of the four curves maps 0 to 0 |
| `ColorSpace.Rec2020LinearSegmentRoundTrip` | src/colorspace.rs:20-51 | encoding abs(x) < beta lands below the decoder's break 4.5 * beta, and decoding gives back exactly x |
| `ColorSpace.Rec2020DecodeLinearSegmentRoundTrip` | src/colorspace.rs:20-51 | decoding abs(y) < 4.5 * beta lands below beta, and encoding gives back exactly y |
| `ColorSpace.ProPhotoLinearSegmentRoundTrip` | src/colorspace.rs:59-85 | encoding abs(x) < 1/512 lands below 16/512, and decoding gives back exactly x |
| `ColorSpace.ProPhotoDecodeLinearSegmentRoundTrip` | src/colorspace.rs:59-85 | decoding abs(y) < 16/512 lands below 1/512, and encoding gives back exactly y |
| `ColorSpace.Rec2020RoundTrip` | src/colorspace.rs:20-51 | decode(encode(x)) = x for every x, given that at x the power function's exponents 0.45 and 1/0.45 undo each other and the power branch clears the decoder's break |
| `ColorSpace.Rec2020DecodeRoundTrip` | src/colorspace.rs:20-51 | encode(decode(y)) = y under the mirror-image conditions |
| `ColorSpace.ProPhotoRoundTrip` | src/colorspace.rs:59-85 | decode(encode(x)) = x for every x, given that the exponents 1/1.8 and 1.8 undo each other at x and the power branch clears 16/512 |
| `ColorSpace.ProPhotoDecodeRoundTrip` | src/colorspace.rs:59-85 | encode(decode(y)) = y under the mirror-image conditions |
| `ColorSpace.Rec2020FromLinearMonotone` | src/colorspace.rs:40-51 | the Rec.2020 encode is non-decreasing on all reals, given that the power function is non-decreasing in its base for the exponent 0.45 and its branch starts no lower than the linear branch ends |
| `ColorSpace.Rec2020IntoLinearMonotone` | src/colorspace.rs:20-31 | the Rec.2020 decode is non-decreasing on all reals, under the same two conditions for the exponent 1/0.45 |
| `ColorSpace.Rec2020IntoLinearDropsAtBreak` | src/colorspace.rs:20-31 | when the power function at the decoder's break falls below beta, an encoded value just below 4.5·beta decodes to more than 4.5·beta does, so the decoder is not non-decreasing |
| `ColorSpace.ProPhotoFromLinearMonotone` | src/colorspace.rs:76-85 | the ProPhoto encode is non-decreasing on all reals, under the same two conditions for the exponent 1/1.8 |
| `ColorSpace.ProPhotoIntoLinearMonotone` | src/colorspace.rs:59-68 | the ProPhoto decode is non-decreasing on all reals, under the same two conditions for the exponent 1.8 |
| `Themes.TotalCmp` | src/theme.rs:47-56 | `total_cmp` orders Less exactly when x < y and Greater exactly when y < x |
| `Themes.TotalizeEq` | src/theme.rs:41-45 | `Totalize::eq` holds exactly when the two levels are equal |
| `Themes.TotalCmpIsTotalOrder` | src/theme.rs:39-56 | the `Totalize` comparison is antisymmetric, transitive and total |
| `Themes.SectionByName` | src/theme.rs:146-160 | the section of a charge state, as `section_by_name` and `section_by_name_mut` select it |
| `Themes.InsertByLevel` | src/theme.rs:139-141 | one step of the stable sort: a stop goes after every stop of a lower level and ahead of every stop of an equal or higher level |
| `Themes.SortByLevel` | src/theme.rs:139-141 | the stable sort of a section by `Totalize(level)`; its properties are in `SortByLevelIsStableSort` |
| `Themes.WithSection` | src/theme.rs:146-152 | updating the section chosen by `section_by_name_mut` replaces that section and leaves the other two unchanged |
| `Themes.SortByLevelIsStableSort` | src/theme.rs:139-141 | the sort of a section is ordered by level, is a permutation of its stops, and keeps the stops of each level in their original order |
| `Themes.FirstAbove` | src/theme.rs:165-173 | the scan stops at the first stop above the level: every earlier stop is at or below it, and the stop it stops at is above it |
| `Themes.Bracket` | src/theme.rs:165-173 | the two stops the scan ends on (last, next) are always stops of the section |
| `Themes.ColorsAtSpec` | src/theme.rs:162-183 | the bracketing specification: the colours of the last stop when the pair is one stop or has zero span, otherwise fg and bg each mixed at the ratio of the level between the two stops |
| `Themes.ColorsAt` | src/theme.rs:162-183 | the loop returns the colours of the bracketing specification for every non-empty section |
| `Themes.ColorsBelowFirstStop` | src/theme.rs:165-176 | a level below the first stop gives the first stop's (fg, bg) unchanged |
| `Themes.ColorsAtOrAboveLastStop` | src/theme.rs:167-176 | a level at or above every stop gives the last stop's (fg, bg) unchanged |
| `Themes.ColorsInterpolateBetweenBracket` | src/theme.rs:167-181 | when the scan breaks at i > 0, stop i-1 is at or below the level and stop i above it, the ratio lies in [0, 1), fg and bg are each mixed with that ratio, and on a sorted section every later stop is above the level |
| `Themes.ColorsAtStopLevel` | src/theme.rs:167-181 | on a sorted section, a level equal to a stop's level brackets at the last stop of that level, and the ratio towards a following stop is exactly 0 |
| `Themes.ColorsAtStopLevelExact` | src/theme.rs:174-181 | when mixing with factor 0 returns the first colour, a stop's level gives exactly the colours of the last stop at that level |
| `Themes.ColorsAtMidpoint` | src/theme.rs:178-181 | under channel-wise interpolation, halfway between two stops gives the midpoint of both the fg and the bg colours |
| `ThemeParse.BuildPaletteColor` | src/theme.rs:221-331 | the palette colour `convert_color` builds for each CSS form (with the HSL arguments in palette's order, see Findings), None for `currentColor` and for a missing component |
| `ThemeParse.ConvertColor` | src/theme.rs:221-331 | the Oklab arm taken directly, every other form converted to Oklab through palette |
| `ThemeParse.ConvertColorFailsExactly` | src/theme.rs:221-331 | `convert_color` gives None exactly for `currentColor` and for a colour with a missing component |
| `ThemeParse.ConvertColorAlpha` | src/theme.rs:232-296 | the alpha handed to palette is the stated alpha, or 1 when none is stated |
| `ThemeParse.ConvertColorOklabIsDirect` | src/theme.rs:274-279 | an Oklab colour is taken as it is, with its alpha defaulted to 1 |
| `ThemeParse.ConvertColorLegacyKeepsAlpha` | src/theme.rs:225-231 | the legacy rgba form always converts and keeps its own alpha, whatever the conversion does |
| `ThemeParse.ConvertColorAdaptsOnlyD50Spaces` | src/theme.rs:298-327 | exactly the ProPhoto and XYZ-D50 colour functions go through white-point adaptation |
| `ThemeParse.HslComponentsInPaletteOrder` | src/theme.rs:232-245 | corrected HSL arm: CSS saturation and lightness reach palette's saturation and lightness slots |
| `ThemeParse.HslComponentsSwappedAsWritten` | src/theme.rs:232-245 | as written, `hsl(0 0% 100%)` (white) reaches palette with saturation 1 and lightness 0, which is not what the corrected arm builds |
| `ThemeParse.ParseStop` | src/theme.rs:187-218 | `parse_stop`: the level, the converted foreground, and the converted or darkened background, with the parser's errors passed on |
| `ThemeParse.ParseStopDefaultBackground` | src/theme.rs:192-211 | when the second colour hits end of input, the stop's background is the foreground darkened by 0.5 |
| `ThemeParse.ParseStopPropagatesBackgroundError` | src/theme.rs:192-198 | any other error of the second colour is the error of the stop |
| `ThemeParse.ParseStopResult` | src/theme.rs:187-218 | a stop parses exactly when the level and the foreground parse, both colours convert, and a missing background is an end of input; it then carries the parsed level and the converted foreground; an unconvertible foreground gives the Unsupported error at line 1, column 0 |
| `ThemeParse.TrimStart` | src/theme.rs:122 | leading whitespace is removed, and only whitespace |
| `ThemeParse.TrimEnd` | src/theme.rs:122 | trailing whitespace is removed, and only whitespace |
| `ThemeParse.SectionHeader` | src/theme.rs:16 | a header's captured name is a non-empty run of lower-case ASCII letters |
| `ThemeParse.SectionHeaderOfShape` | src/theme.rs:16 | every line of the regex's shape (whitespace, `[`, whitespace, a non-empty lower-case name, whitespace, `]`, whitespace) is a header yielding that name |
| `ThemeParse.SectionHeaderShape` | src/theme.rs:16 | every header line has that shape around the name it yields, so with `SectionHeaderOfShape` a line is a header exactly when it matches the regex |
| `ThemeParse.NonLowerNameIsNotHeader` | src/theme.rs:16 | a bracketed name with a character outside `a-z` is neither a header nor blank |
| `ThemeParse.UpperCaseIsNotHeader` | src/theme.rs:16 | `[Charging]` is neither a header nor blank |
| `ThemeParse.UpperCaseHeaderIsStopLine` | src/theme.rs:114-135 | inside a section, a bracketed name with a character outside `a-z`, such as `[Charging]`, is handed to `parse_stop`, and its stop is appended to the current section or its error relocated to the line |
| `ThemeParse.SectionByTitle` | src/theme.rs:115-121 | each of the three section names, and only it, selects its charge state |
| `ThemeParse.HeaderIsNotBlank` | src/theme.rs:114-123 | a header line is never blank, so the header test and the blank test never compete |
| `ThemeParse.Step` | src/theme.rs:110-136 | one pass of the line loop: a header selects its section or fails, a blank line is skipped, and any other line is a stop of the current section or an error |
| `ThemeParse.Scan` | src/theme.rs:108-137 | the line loop over the document, numbering lines from 1 and stopping at the first error |
| `ThemeParse.LoadSpec` | src/theme.rs:102-143 | the scan followed by the three stable sorts |
| `ThemeParse.ScanNext` | src/theme.rs:110-137 | the loop over the first n lines is one `Step` on line n (numbered n) after the loop over the first n - 1 lines accepted them |
| `ThemeParse.ScanWithErrorPersists` | src/theme.rs:110-137 | for any step function, the `?` early return: once a prefix fails, the whole loop fails with that same error |
| `ThemeParse.ScanWithFirstFailure` | src/theme.rs:110-137 | for any step function, a failing loop has a first failing line k: the k - 1 lines before it are accepted and line k's step returns the error |
| `ThemeParse.ScanErrorPersists` | src/theme.rs:110-137 | once a prefix of the document fails, the whole document fails with that error |
| `ThemeParse.Load` | src/theme.rs:102-143 | the line loop and the final sorts return exactly the specified result, error or theme |
| `ThemeParse.LoadFailsAtLine` | src/theme.rs:108-137 | a failing document fails at a 1-based line k: every earlier line was accepted and line k produced the error |
| `ThemeParse.StepSkipsBlank` | src/theme.rs:122-123 | whitespace-only lines change nothing |
| `ThemeParse.StepHeader` | src/theme.rs:114-121 | a header selects its section without adding a stop (re-selecting an earlier section too); an unknown name is an error citing the line number |
| `ThemeParse.StepStopOutsideSection` | src/theme.rs:125-129 | a stop line before any header is an error citing its line number |
| `ThemeParse.StepStopLine` | src/theme.rs:125-135 | a stop is appended to the current section only, the other sections unchanged; a parse error is moved down by line_no - 1, so an unconvertible colour cites the line itself |
| `ThemeParse.LoadSortsEachSection` | src/theme.rs:139-143 | after a successful load each section is its parsed stops, sorted by level, as a permutation, stably |
| `UPower.BatteryStateFromCode` | src/upower.rs:54-55 | a code names a battery state exactly when it is 0 to 6 |
| `UPower.BatteryCodeRoundTrip` | src/upower.rs:54-55 | every battery state is read back from its own code |
| `UPower.BatteryStateFromCodeRoundTrip` | src/upower.rs:54-55 | a code that names a state is that state's code |
| `UPower.ChargeStateOf` | src/upower.rs:56-64 | the seven-to-three battery-state mapping; its classes are in `ChargeStateClasses` |
| `UPower.ChargeStateClasses` | src/upower.rs:56-64 | Charging maps to Charging, Discharging and PendingDischarge map to Discharging, and the other four states map to NoCharge, each in both directions |
| `UPower.TimeRemaining` | src/upower.rs:68-72 | TimeToFull when charging, TimeToEmpty when discharging, 0 otherwise |
| `UPower.Snapshot` | src/upower.rs:51-73 | the power state built from the properties, or None where the source's unwraps would panic |
| `UPower.SnapshotFields` | src/upower.rs:51-73 | a snapshot exists exactly when the state code is valid, the percentage is present, and the time field that the state selects is present; its level is the percentage over 100 and its time is TimeToFull when charging, TimeToEmpty when discharging, 0 otherwise |
| `UPower.SnapshotIgnoresTimesWhenNotCharging` | src/upower.rs:68-72 | a not-charging snapshot does not depend on either time field |
| `UPower.Overwrite` | src/upower.rs:108-110 | the changed properties applied in order, each only to a key already present |
| `UPower.OverwriteOnlyPresentKeys` | src/upower.rs:108-110 | the merge never adds or removes a key; a present key takes the last value the changes give it, or keeps its own |
| `UPower.Reporter.constructor` | src/upower.rs:13-16 | the reporter starts with no snapshot and no notification sent |
| `UPower.Reporter.Update` | src/upower.rs:51-77 | the status becomes the whole new snapshot in one assignment, then exactly one notification is sent |
| `UPower.Reporter.RunMock` | src/upower.rs:18-37 | after n ticks the status is the discharging snapshot at level (n mod 0x1FF) / 512 and n notifications were sent |
| `UPower.MockStep` | src/upower.rs:30-31 | the counter stays in [0, 0x1FE], so incrementing it never wraps, and the level stays in [0, 1) |
| `UPower.Watcher.constructor` | src/upower.rs:97-101 | the watcher keeps the initial properties and publishes their snapshot with one notification |
| `UPower.Watcher.MergeChanged` | src/upower.rs:108-110 | the local properties become the ordered merge of the changes |
| `UPower.Watcher.OnSignal` | src/upower.rs:102-114 | a signal for another interface changes nothing; one for the device interface merges the changes and publishes their snapshot with one notification |
| `WattBar.AfterLayerEvent` | src/main.rs:92-110 | the slot after the layer-surface callback: Closed always, a configure unless Closed is pending, anything else unchanged |
| `WattBar.AfterPowerUpdate` | src/main.rs:292-296 | the slot after a power update: DataChanged if it was empty, unchanged otherwise |
| `WattBar.ClosedOverwrites` | src/main.rs:94-96 | a close sets the slot to Closed whatever it held |
| `WattBar.ConfigureOverwritesAllButClosed` | src/main.rs:97-108 | a configure replaces an empty slot, a Configure or a DataChanged, and leaves a pending Closed untouched |
| `WattBar.PowerUpdateNeverDisplaces` | src/main.rs:292-296 | a power update installs DataChanged only in an empty slot and never displaces a pending event |
| `WattBar.ClosedIsAbsorbing` | src/main.rs:92-110 | once Closed is pending, no sequence of callbacks removes it |
| `WattBar.CloseAnywhereWins` | src/main.rs:92-110 | a close anywhere in a sequence of callbacks leaves Closed pending |
| `WattBar.LastConfigureWins` | src/main.rs:97-108 | with no close, the last configure is pending at the end, whatever power updates follow it |
| `WattBar.NoCloseNoClosed` | src/main.rs:92-110 | with no close in the sequence, Closed never becomes pending |
| `WattBar.PowerUpdatesOnly` | src/main.rs:290-297 | power updates alone only turn an empty slot into DataChanged |
| `WattBar.Bar` | src/main.rs:208-213 | the canvas `draw` fills: `height` copies of the row |
| `WattBar.Row` | src/main.rs:209-213 | one row of the bar is 4 * width bytes |
| `WattBar.BarIsBar` | src/main.rs:208-213 | the row-by-row canvas holds, at every byte of every pixel of every row, the fg byte before the fill and the bg byte after it |
| `WattBar.IsBarUnique` | src/main.rs:208-213 | two canvases that each hold the bar are byte for byte equal, so the whole canvas is fixed |
| `WattBar.CopyPixel` | src/main.rs:211-212 | `copy_from_slice` writes the four pixel bytes at its chunk and nothing else |
| `WattBar.FillBuffer` | src/main.rs:208-213 | the nested fill loops leave the canvas equal to the bar: every row has `fill` fg pixels, then bg pixels, and every byte is written |
| `WattBar.FillPixels` | src/main.rs:208 | the number of fg pixels, `(width as f32 * pct) as usize` |
| `WattBar.FillPixelsFloor` | src/main.rs:208 | the fill is floor(width * pct) for pct >= 0, and 0 for pct <= 0 (the saturating cast) |
| `WattBar.FillWithinWidth` | src/main.rs:208-211 | a level at most 1 never fills past the width, so the row slice is in bounds |
| `WattBar.FillHalf` | src/main.rs:189-193 | with no snapshot, pct is 0.5 and the bar fills floor(width / 2) pixels |
| `WattBar.BaseColor` | src/main.rs:179-193 | the fg colour: the charging colour while charging or with no snapshot, otherwise palette's mix from the empty to the full colour by the level |
| `WattBar.BaseColorUnderLinearMix` | src/main.rs:179-188 | under linear mixing, a non-charging battery is drawn in the empty colour at level 0, the full colour at level 1 and their midpoint at level 0.5 |
| `WattBar.LevelAtMostOneCanDraw` | src/main.rs:164-213 | every snapshot with level at most 1, and no snapshot, can be drawn at any size |
| `WattBar.DrawnFrames` | src/main.rs:164-218 | one draw commits at most one frame |
| `WattBar.DrawnRows` | src/main.rs:164-213 | a drawn frame on a non-empty surface is the bar of floor(width * pct) fg pixels per row in the base colour, and the rest in the base colour darkened by 0.5 |
| `WattBar.CurrentMode` | src/main.rs:131 | a mode is found exactly when some mode is current, and the one found is current and one of the modes |
| `WattBar.CurrentModeIsFirst` | src/main.rs:131 | the mode found is the first current one |
| `WattBar.TruncDiv` | src/main.rs:137 | i32 division truncates toward zero: the magnitude is the quotient of the magnitudes, and the sign is negative or zero exactly as the operands' signs differ |
| `WattBar.TruncDivTruncates` | src/main.rs:137 | the remainder left by the quotient has the dividend's sign and is smaller than the divisor in magnitude |
| `WattBar.TruncDivSigns` | src/main.rs:137 | 7 / 2 = 3, -7 / 2 = -3, 7 / -2 = -3 and -7 / -2 = 3 |
| `WattBar.ResizeRequests` | src/main.rs:129-143 | the requests `resize` sends: none when it skips or no mode is current, otherwise the scaled width with height 3 and the exclusive zone 3 |
| `WattBar.ResizeAlwaysRequests` | src/main.rs:129-143 | with the mode never stored, `resize` on an output with a current mode always requests the scaled width and height 3, and takes the output's scale |
| `WattBar.ResizeWidth` | src/main.rs:137 | on a positive scale, a mode width w requests w / scale, and w itself at scale 1 |
| `WattBar.AfterHandle` | src/main.rs:145-162 | the surface state `handle_events` leaves: the slot emptied, the resize done, a configure's dimensions taken, and a frame drawn on a data change or new dimensions |
| `WattBar.ConfigureDrawsOnlyOnChange` | src/main.rs:149-155 | a configure takes its dimensions and draws only when they differ from the current ones |
| `WattBar.DataChangedAlwaysDraws` | src/main.rs:156-159 | a data change keeps the dimensions and adds a frame unless the surface is empty |
| `WattBar.ClosedOrEmptyDrawsNothing` | src/main.rs:147-161 | Closed and an empty slot keep the frames and the dimensions |
| `WattBar.Surface.constructor` | src/main.rs:112-126 | a new surface has an empty slot, no mode, scale 1, dimensions (0, 0), then the requests and scale of one `resize` |
| `WattBar.Surface.OnLayerEvent` | src/main.rs:92-110 | the layer callback updates the slot by the close and configure precedence rules |
| `WattBar.Surface.OnPowerUpdate` | src/main.rs:292-296 | the power callback fills an empty slot with DataChanged and nothing else |
| `WattBar.Surface.Resize` | src/main.rs:129-143 | `resize` skips when the mode dimensions and the scale are unchanged, and otherwise, with a current mode, requests the scaled width, height 3 and exclusive zone 3 and takes the output's scale |
| `WattBar.Surface.Draw` | src/main.rs:164-218 | `draw` commits nothing on an empty surface and otherwise one frame, the bar for the current snapshot |
| `WattBar.Surface.HandleEvents` | src/main.rs:145-162 | the slot is emptied, the resize is done, a configure's dimensions are taken, a frame is drawn exactly on a data change or a configure to new dimensions, and the result is true exactly when the taken event was Closed |
| `WattBar.Retain` | src/main.rs:306-315 | the surface list with the flagged entries removed, the rest in order |
| `WattBar.RetainKeepsUnflagged` | src/main.rs:306-315 | the removal keeps exactly the entries not flagged |
| `WattBar.RetainKeepsDistinct` | src/main.rs:306-315 | the removal keeps its entries in order, so no surface appears twice afterwards |
| `WattBar.RemoveOutput` | src/main.rs:258-259 | removing an obsolete output drops every entry of that output id and keeps every other entry |
| `WattBar.App.constructor` | src/main.rs:253 | the surface list starts empty |
| `WattBar.App.OnOutput` | src/main.rs:257-273 | an obsolete output's entries are removed, keeping the order of the rest; a new output appends one fresh surface in its initial state, with the list otherwise unchanged |
| `WattBar.App.NotifyPowerUpdate` | src/main.rs:290-297 | every surface with an empty slot gets DataChanged, and every other slot is unchanged |
| `WattBar.App.DrainSurfaces` | src/main.rs:304-315 | every surface handles its events exactly once, the list keeps exactly those whose taken event was not Closed, in their order, and the shared status is untouched |
| `WattBar.App.HandleOrRemove` | src/main.rs:308-314 | one pass of the removal loop handles the entry at i and removes it exactly when it closed, moving past it otherwise |

## Left out

- `ColorSpace.Rec2020IntoLinearMonotone` does not apply to the exact power function. With the
  decimal alpha and beta of src/colorspace.rs:21-22, ((4.5·beta + alpha − 1)/alpha)^(1/0.45) is
  about 5.5·10⁻¹⁶ below beta, so the lemma's break condition fails. In exact reals the decoder
  steps down by that amount at 4.5·beta, as `ColorSpace.Rec2020IntoLinearDropsAtBreak` proves for any
  power function that falls short there. The step is far below f32 resolution. The other three
  curves meet their breaks: the encoder clears its break, and both ProPhoto breaks meet exactly.
- Wayland protocol I/O is left out: surface creation, `ack_configure`, `attach`, `damage`,
  `commit`, the memory pool and its buffers, `display.flush` and event dispatch. A committed
  frame is recorded as the canvas bytes, and layer-surface requests as a list of requests.
  `with_output_info` becomes an `OutputInfo` parameter.
- D-Bus, the reporter thread, the `RwLock`, both channels and the mock's `sleep` are left
  out, because they are I/O and concurrency. The shared status is a field. Each sent
  notification increments a counter.
- `spawn_upower`'s start handshake and the D-Bus errors of `upower_run` are I/O and are left out.
- `UPower.Reporter.RunMock`: the source loops forever; the model runs a given number of ticks.
- The CSS tokenizer, palette's colour conversions, `mix`, `darken`, the Bradford D50-to-D65
  adaptation and the ARGB packing are external libraries. They are uninterpreted
  parameters, and only the values `convert_color` builds for them are modelled.
- `Themes.Lerp`, the channel-wise mix, is a reference instance for the midpoint lemmas.
  It is not palette's code.
- A CSS colour's `None` components and `Rgba`'s byte channels stand for what cssparser
  produces. Parsing the CSS text itself is left out.
- Floating point: f32 rounding, NaN and signed zero are not modelled. `total_cmp` on
  reals is the ordinary order. The `as f32` and `as usize` casts are exact, except that
  the saturating float-to-usize cast is modelled explicitly as 0 for non-positive
  products.
- The transfer functions' `powf` is a parameter. The full round trips therefore hold only
  under the power-function conditions their requires state.
- The Adobe RGB (1998) primaries and the generated matrices of `colorspace.rs.gen` are not
  part of this model. Neither is `maintainer/gen_colorspaces.py`, a code generator that
  does not run in the program.
- Theme file discovery through the XDG directories, and writing the default theme
  (`src/theme.rs:74-99`), are filesystem I/O. `Load` takes the document's lines.
- `ThemeParse.Load`: a read or UTF-8 error on a line (`let line = line?;`) ends the source's
  `load` with that I/O error. The model's lines are already read, so this error is left out.
- `ThemeParse.ConvertColor` uses the corrected HSL argument order (`BuildPaletteColor`), not the
  order as written (`BuildPaletteColorAsWritten`); see "## Findings".
- `ThemeParse.ParseStop` and `ThemeParse.Load` use `ConvertColor`, so an `hsl(...)` colour in
  the model reaches palette as Hsla(hue, saturation, lightness), not as the source builds it.
- `WattBar.Surface.Resize`: when `with_output_info` gives None, the source's `resize` does
  nothing. The model always passes an `OutputInfo`, so that case is left out.
- `str::trim` and `\s` are modelled on ASCII whitespace only, not Unicode whitespace.
- `WattBar.Surface.Draw`: the source computes the stride `4 * width` as an i32, which
  overflows for widths of 2^29 pixels or more, and it unwraps the buffer pool's result.
  The model computes the stride without bound and assumes the buffer can be allocated.
- `WattBar.Surface.Draw`: the source panics slicing the row when floor(width * pct) exceeds the
  width. The model turns this into a requires (`CanDraw`: `FillPixels(width, Pct(status)) <= width`
  on a non-empty surface). Every level at most 1 meets it (`WattBar.LevelAtMostOneCanDraw`). The
  mock's levels are below 1 (`UPower.MockStep`). That UPower's percentage is at most 100 is
  assumed: `UPower.Snapshot` passes any percentage through.
- `WattBar.Surface.Resize`: a scale factor of 0 makes the source's division panic. The model
  makes the scale a requires (`ResizeDefined`).
- `UPower.Reporter.Update`, `UPower.Watcher.OnSignal` and `UPower.Watcher.constructor`: the source panics (`unwrap`) when the
  properties do not give a snapshot. The model makes the snapshot's existence a requires,
  and `UPower.SnapshotFields` states exactly when it exists.
- `WattBar.App.HandleOrRemove` carries ghost parameters that hold the removal loop's bookkeeping.
  It is the body of the main loop's `while`, split off so that each part is proved on
  its own.
- `Drop for Surface` (destroying the layer surface and the surface) is protocol I/O and
  is left out. A removed surface simply leaves the list.

## Findings

| source | as written | input that shows it | evidently intended | confidence | as-written member | corrected member |
|---|---|---|---|---|---|---|
| src/theme.rs:232-243 | the HSL arm passes `hue?, lightness?, saturation?` to palette's `Hsla::new(hue, saturation, lightness, alpha)`, so the CSS lightness lands in the saturation slot and the CSS saturation in the lightness slot | `hsl(0 0% 100%)` (white) reaches palette with saturation 1 and lightness 0, which is black | pass `hue?, saturation?, lightness?` | not executed | `ThemeParse.HslComponentsSwappedAsWritten` | `ThemeParse.HslComponentsInPaletteOrder` |
