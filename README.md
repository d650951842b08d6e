# arcade-screen-colors: the sequential core, modelled in Dafny

arcade-screen-colors captures the screen, reduces it to one colour and sends
that colour to LIFX smart bulbs. This project models the precise rules under
that goroutine and network layer, and proves properties of them. The model
covers five areas.

- **The light registries.**
  - `LightRegistry` models the map from label to connected light in
    `internal/lights/lifx.go`.
    - Each discovery scan heartbeat-checks known lights, dials new ones and
      then sweeps out every light it did not hear from.
    - Each colour dispatch deletes the lights whose set-colour failed.
  - `LifxClient` models the older client of `lifx/lifx.go`. It upserts each
    device and never sweeps.
  - `GroupLights` and `InternalGroupLights` model the group services.
    `GroupLights` also models the "initial colour" state machine.
- **The colour adjuster** (`LifxColor`). It does three things:
  - converts RGB to a LIFX colour;
  - turns near-black colours into the off colour;
  - clamps brightness into the configured range.
- **RGB to HSB** (`Hsb`). This is the max/min/delta HSV formula, scaled to 16
  bits.
- **The pixel reducers** over a grid-sampled image.
  - The integer versions are in `ScreenColor`.
  - The 16-bit versions are in `UtilColor`.
  - `Pixels` holds the shared image, sampling, sum, sort and median
    definitions.
- **Small helpers.**
  - `Parsing` covers the comma splitter, the list parser, `ParseStringAs`,
    `ParseString`, `ParseInt64` and `RandomString`.
  - `Logging` covers the per-name log-level registry.

Network calls are handed to each scan or dispatch as a sequence of outcomes,
and each scan and each dispatch runs as one sequential loop. The outcomes are
wrap ok/failed, echo ok/failed, dial ok/failed, set-colour ok/failed, group
found or timed out, and the element parsers' results. A discovery deadline
is modelled as the sequence of reports being cut short.

Floats are exact reals. Go's `math.Round(x)` is `floor(x + 1/2)`, and a
float-to-integer conversion truncates toward zero. `uint16(f)` in the
adjuster keeps the low 16 bits of the `int64` conversion.

- A colour is near black only when brightness **and** saturation are both at
  most 983, which is `uint16(0.015 * 0xFFFF)` (`LifxColor.AdjustOffIffNearBlack`).
- The dark blue (0, 0, 2) has saturation 65535, so it is **not** near black:
  it is driven at the configured minimum brightness (`LifxColor.DarkBlueIsNotOff`).
- Only greys with every channel at most 3 are near black
  (`LifxColor.NearBlackIffDimGrey`).
- `lifx/lifx.go` lets an entry outlive its connection in two places, and the
  model keeps both:
  - on a failed heartbeat it deletes the entry without closing its connection;
  - `Stop` closes every connection but keeps the entries.

## Model

| member | source | states |
|---|---|---|
| `Numeric.ToU16` | internal/lights/lifx/lifx.go:165 | a float conversion to uint16 is its floor within the 16-bit range |
| `Numeric.IntSqrt` | internal/screen/color.go:54-57 | the result is the largest integer whose square is at most the input |
| `Hsb.MaxChannel` | internal/util/color.go:15-19 | the maximum channel is max(r, g, b) / 255 |
| `Hsb.MinChannel` | internal/util/color.go:15-20 | the minimum channel is min(r, g, b) / 255 and at most the maximum |
| `Hsb.DeltaTermDifference` | internal/util/color.go:32-34 | the difference of two delta terms is the channel difference over 6·delta, within ±1/6 |
| `Hsb.HueFraction` | internal/util/color.go:36-49 | after the wrap step the hue fraction lies in [0, 1) |
| `Hsb.SaturationFraction` | internal/util/color.go:26-30 | the saturation fraction lies in [0, 1] |
| `Hsb.BrightnessIs257Max` | internal/util/color.go:24 | brightness is round(max/255 · 65535), which is exactly 257·max(r, g, b) |
| `Hsb.GreyHasNoHueOrSaturation` | internal/util/color.go:26-28 | a grey input (r = g = b) gives hue 0 and saturation 0 |
| `Hsb.ChromaticSaturation` | internal/util/color.go:30 | a non-grey input has saturation round((max−min)/max · 65535), at least 257, and 65535 when min = 0 |
| `Hsb.SaturationFractionValue` | internal/util/color.go:30 | for a non-grey input the fraction is (max − min) / max, with max > 0 |
| `Hsb.SaturationZeroIffGrey` | internal/lights/color.go:17-21 | saturation is 0 exactly when r = g = b |
| `Hsb.HueMatchesReference` | internal/util/color.go:32-53 | the hue equals an independent reference (the max channel's sector, (g−b)/6Δ etc., wrapped into [0, 1)), scaled and rounded |
| `Hsb.PureRed` | internal/lights/color.go:23-46 | (255, 0, 0) maps to (0, 65535, 65535) |
| `LifxColor.BlackThresholdValue` | lights/lifx/lifx.go:196-197 | the black threshold `uint16(0.015 * 0xFFFF)` is 983 |
| `LifxColor.NewLifxColorFields` | lights/lifx/lifx.go:183-193 | newLifxColor passes the conversion through unchanged with Kelvin 3500; brightness is 257·max |
| `LifxColor.ClampBounds` | lights/lifx/lifx.go:207 | for 0 ≤ lo ≤ hi ≤ 65535 the clamp lies in [floor lo, floor hi], leaves a value already in [lo, hi] unchanged, and is floor(min(hi, max(lo, b))) |
| `LifxColor.AdjustNearBlack` | lights/lifx/lifx.go:195-205 | brightness ≤ 983 and saturation ≤ 983 give (0, 0, 0, 3500), whatever the hue |
| `LifxColor.AdjustOtherwise` | lights/lifx/lifx.go:207-209 | otherwise hue, saturation and kelvin are kept, and brightness is the clamp, in [floor(Min·65535), floor(Max·65535)] |
| `LifxColor.AdjustOffIffNearBlack` | internal/lights/lifx/lifx.go:153-167 | for 0 ≤ Min ≤ Max ≤ 1, if the maximum keeps brightness ≥ 1, the result is the off colour exactly when the input is near black |
| `LifxColor.DefaultsOffIffNearBlack` | main.go:32-33 | with the default MAX_BRIGHTNESS 0.65 and MIN_BRIGHTNESS 0, the result is the off colour exactly when the input is near black |
| `LifxColor.NearBlackIffDimGrey` | internal/lights/lifx/lifx.go:153-155 | an RGB colour converts to near black exactly when it is a grey with channels ≤ 3 |
| `LifxColor.DimSpread` | internal/util/color.go:30 | a chromatic colour with max ≤ 3 has rounded saturation above 983 |
| `LifxColor.DarkBlueIsNotOff` | lights/lifx/lifx.go:195-209 | (0, 0, 2) is not near black: full saturation, brightness clamped from 514 |
| `LifxColor.MidGrey` | lights/lifx/lifx.go:195-209 | (128, 128, 128) with bounds 0.2..0.65 becomes (0, 0, 32896, 3500) |
| `LifxColor.NormalizeBrightnessBounds` | internal/lights/lifx.go:224-231 | normalizeBrightness puts brightness in [26214, 45874], keeps one already there, and changes no other field |
| `LightRegistry.LifxLight.constructor` | internal/lights/lifx.go:45-48 | a new light holds its device and its open connection |
| `LightRegistry.LifxLight.Disconnect` | internal/lights/lifx.go:32-37 | afterwards the light is not connected; the connection closed is the one it held, none on a second call |
| `LightRegistry.NewLifxLight` | internal/lights/lifx.go:39-49 | a fresh light exists exactly when the dial succeeded, holding the dialled connection |
| `LightRegistry.LoopKeysLocal` | internal/lights/lifx.go:118-146 | a label is registered after the loop exactly when its own trace of reports keeps it |
| `LightRegistry.NamePresentFilter` | internal/lights/lifx.go:115-121 | one label's trace depends only on the reports carrying that label |
| `LightRegistry.UnreportedUntouched` | internal/lights/lifx.go:105-114 | the loop never changes the presence of a label no report carried (wrap failures, devices cut off by the deadline) |
| `LightRegistry.KeptStaysPresent` | internal/lights/lifx.go:123-134 | a known label whose every echo succeeded is still registered after the loop |
| `LightRegistry.ScanKeysMembership` | internal/lights/lifx.go:93-166 | after a scan a label is registered exactly when it was reported and its trace keeps it; a known, unreported label is gone |
| `LightRegistry.ScanKeysReported` | internal/lights/lifx.go:100-166 | every label left after a scan was reported in it |
| `LightRegistry.ScanSingleReport` | internal/lights/lifx.go:121-146 | for a label reported once, a known light stays iff its echo succeeded and a new light is added iff its dial succeeded |
| `LightRegistry.ReportedHasReports` | internal/lights/lifx.go:110-118 | a label was heard exactly when some wrapped report carries it |
| `LightRegistry.UnreportedNoEchoFailure` | internal/lights/lifx.go:123-133 | a label no report carries had no failed echo |
| `LightRegistry.DispatchColor` | internal/lights/lifx.go:181-182 | the dispatch colour has brightness in [26214, 45874], Kelvin 3500, and the converted hue and saturation |
| `LightRegistry.DispatchCount` | internal/lights/lifx.go:185-209 | the registry count drops by the number of attempted labels that fail; when every light was connected, every label is attempted and it drops by the number of failing labels |
| `LightRegistry.LifxLights.constructor` | internal/lights/lifx.go:51-58 | a new registry is empty |
| `LightRegistry.LifxLights.LightCount` | internal/lights/lifx.go:169-174 | the count is the map size, 0 exactly for an empty registry |
| `LightRegistry.LifxLights.HandleReport` | internal/lights/lifx.go:105-146 | keys follow the one-report rule; a known light with a good echo keeps the same entry object; a failed echo disconnects and deletes; a new entry is fresh |
| `LightRegistry.LifxLights.Sweep` | internal/lights/lifx.go:152-166 | exactly the stale labels still registered are disconnected and removed; others untouched |
| `LightRegistry.LifxLights.HandleReports` | internal/lights/lifx.go:100-150 | the collected labels are exactly the reported ones; keys follow the loop rule; lights whose echoes all succeeded are the same objects; every other entry is fresh; dropped lights are disconnected |
| `LightRegistry.LifxLights.StaleNames` | internal/lights/lifx.go:152-155 | a label is stale exactly when it was known before the scan and no wrapped report named it |
| `LightRegistry.ScanPrefix` | internal/lights/lifx.go:102-150 | one more report moves the keys by the one-report rule, adds its label to the reported set, and its failed echo counts against its label |
| `LightRegistry.LifxLights.Discover` | internal/lights/lifx.go:81-167 | keys become the scan rule; kept lights are the same objects; every other entry is fresh; dropped lights are disconnected; the sweep removes exactly the known, unreported labels |
| `LightRegistry.LifxLights.SetColorWithDuration` | internal/lights/lifx.go:176-210 | disconnected lights are skipped; exactly the attempted lights whose set-colour failed are disconnected and deleted; others unchanged; the count drops by the number of failures, and by the number of failing labels when every light was connected |
| `LightRegistry.LifxLights.SendAll` | internal/lights/lifx.go:185-209 | the walk over the copied registry: only connected lights are attempted, exactly the failing attempted ones are disconnected and deleted, the rest keep the same object and connection |
| `LifxClient.Light.Close` | lifx/lifx.go:40 | afterwards the connection is closed |
| `LifxClient.NewLight` | lifx/lifx.go:180-191 | a fresh open light exists exactly when the dial succeeded |
| `LifxClient.ScanKeysBounds` | lifx/lifx.go:93-133 | a scan never removes an unreported label and adds only reported ones |
| `LifxClient.LastReportDecides` | lifx/lifx.go:106-131 | a label's last report decides: a successful dial means present; a failed heartbeat plus a failed redial means absent |
| `LifxClient.LifxClient.constructor` | lifx/lifx.go:29-35 | a new client has no devices |
| `LifxClient.LifxClient.DiscoverDevice` | lifx/lifx.go:95-132 | a wrap failure or a known label with a good heartbeat changes nothing; otherwise the label is redialled and present iff the dial succeeded, others unchanged |
| `LifxClient.LifxClient.DiscoverDevices` | lifx/lifx.go:71-140 | keys follow the per-device rule; every unreported entry is kept as the same object; every entry is old or fresh |
| `LifxClient.LifxClient.SetColor` | lifx/lifx.go:142-173 | the registry is unchanged (no modifies); every label except the failing ones is sent the given colour with the given duration, and no other label is sent anything |
| `LifxClient.LifxClient.Reset` | lifx/lifx.go:45-56 | every non-failing light is sent (0, 0, 32767, 5000) with a 10 ms transition |
| `LifxClient.LifxClient.Stop` | lifx/lifx.go:37-43 | afterwards every registered light's connection is closed and every entry is kept |
| `Golifx.CountLights` | lights/lifx/lifx.go:147-159 | 0 without a group, else the number of the group's lights |
| `GroupLights.LifxLights.constructor` | lights/lifx/lifx.go:48-53 | white is remembered as the initial colour, unsent, with no client and no group |
| `GroupLights.LifxLights.StartClient` | lights/lifx/lifx.go:55-63 | the client is held only once it was created; nothing else changes |
| `GroupLights.LifxLights.Stop` | lights/lifx/lifx.go:89-97 | the client is dropped; group and colour state are kept |
| `GroupLights.LifxLights.SetColorWithDuration` | lights/lifx/lifx.go:161-181 | without a group, nothing is sent and the colour overwrites the initial colour while it is unsent; with a group, the adjusted colour is sent |
| `GroupLights.LifxLights.Discover` | lights/lifx/lifx.go:99-145 | no client, a timeout or no group means no change; a found group replaces the current one, and the first time the initial colour is sent once with duration 0 |
| `GroupLights.LifxLights.LightCount` | lights/lifx/lifx.go:147-159 | 0 while no group is found, else the group's light count |
| `InternalGroupLights.LifxLights.constructor` | internal/lights/lifx/lifx.go:34-46 | a new service has no group and has sent nothing |
| `InternalGroupLights.LifxLights.Discover` | internal/lights/lifx/lifx.go:73-111 | a found group replaces the current one; a timed-out or empty lookup changes nothing |
| `InternalGroupLights.LifxLights.SetColorWithDuration` | internal/lights/lifx/lifx.go:127-139 | needs a found group; sends the adjusted colour |
| `InternalGroupLights.LifxLights.LightCount` | internal/lights/lifx/lifx.go:113-125 | 0 when there is no group, else the group's light count |
| `Pixels.Expand16` | internal/util/color.go:74 | the 16-bit value of a channel is c·257: at most 65535, its high byte is c, and it is 0 only for 0 |
| `Pixels.SamplesCount` | internal/screen/color.go:17-18 | at most width·height pixels are visited, all of them for grid 1, some exactly when the image is not empty |
| `Pixels.SamplesUniform` | internal/screen/color.go:17-19 | every pixel visited in a uniform image has its colour |
| `Pixels.SumBound` | internal/screen/color.go:20-23 | a channel sum is at most the count times the largest weight |
| `Pixels.SumUniform` | internal/screen/color.go:20-23 | the sum over pixels of one colour is the count times its weight |
| `Pixels.ChannelValues` | internal/screen/color.go:71-74 | one value is appended per visited pixel |
| `Pixels.ChannelValuesAt` | internal/screen/color.go:71-74 | the i-th value appended is the i-th visited pixel's channel |
| `Pixels.CollectStep` | internal/screen/color.go:71-74 | appending a pixel's four channels keeps the lists equal to the channels of the visited pixels |
| `Pixels.SumStep` | internal/screen/color.go:20-23 | adding a pixel's weighted channels keeps the sums equal to the sums over the visited pixels |
| `Pixels.TallyStep` | internal/screen/color.go:109-110 | incrementing a colour's count keeps the map equal to the counts of the visited pixels |
| `Pixels.TallyPositive` | internal/screen/color.go:109-110 | every colour in the count map has a positive count |
| `Pixels.UniformMedian` | internal/screen/color.go:83-89 | the median of values that are all x is x |
| `Pixels.Sort` | internal/screen/color.go:78-81 | the result is ascending and a permutation (same multiset) of the input |
| `Pixels.SortedUnique` | internal/screen/color.go:78-81 | two ascending arrangements of the same values are equal |
| `Pixels.MiddleValueBounds` | internal/screen/color.go:83-89 | the middle value lies between the smallest and the largest; odd n gives v[n/2]; even n gives floor((v[n/2−1] + v[n/2]) / 2) |
| `Pixels.MedianRearranged` | internal/screen/color.go:78-89 | any permutation of the values has the same median |
| `Pixels.MedianWithin` | internal/screen/color.go:78-89 | the median lies between two of the values, and is one of them for an odd count |
| `Pixels.ChannelMedianBetween` | internal/screen/color.go:71-89 | the median of a channel of a pixel list is at least one pixel's value of that channel and at most another's |
| `ScreenColor.SampleSumBound` | internal/screen/color.go:17-25 | a channel sum is at most width·height times the largest weight, so each average fits in a byte |
| `ScreenColor.SqrtAtMost` | internal/screen/color.go:54-57 | the integer square root of a value at most m² is at most m |
| `ScreenColor.AverageRow` | internal/screen/color.go:18-24 | one row adds the 8-bit channels of every g-th pixel of the row, and the visit moves on to the next visited row |
| `ScreenColor.SquaredAverageRow` | internal/screen/color.go:44-50 | one row adds the squared 8-bit channels of every g-th pixel of the row |
| `ScreenColor.MedianRow` | internal/screen/color.go:69-75 | one row appends the 8-bit channels of every g-th pixel of the row, in order |
| `ScreenColor.MedianOfCollected` | internal/screen/color.go:78-96 | the median colour is the middle value of each sorted channel list of the visited pixels |
| `ScreenColor.CountRow` | internal/screen/color.go:107-111 | one row counts every g-th pixel of the row, so the map holds exactly the visited colours with their counts |
| `ScreenColor.PickMode` | internal/screen/color.go:114-121 | with positive counts the result has the largest count in the map, and is the zero colour for an empty map |
| `ScreenColor.ModeOfTally` | internal/screen/color.go:100-123 | a colour of largest count in the tally of the visited pixels is their mode |
| `ScreenColor.AverageColor` | internal/screen/color.go:10-33 | equals the sum of visited 8-bit values divided by width·height (as written) |
| `ScreenColor.SquaredAverageColor` | internal/screen/color.go:36-59 | equals the floored root of the sum of squares divided by width·height (as written) |
| `ScreenColor.MedianColor` | internal/screen/color.go:62-97 | equals the per-channel median of the visited values; needs a non-empty image |
| `ScreenColor.ModeColor` | internal/screen/color.go:100-123 | returns a visited colour of maximal count, the zero colour when none is visited; the tie is unspecified |
| `ScreenColor.MeanUniform` | internal/screen/color.go:28-31 | n equal values have floor mean that value |
| `ScreenColor.RootMeanUniform` | internal/screen/color.go:54-57 | n equal squares have integer root mean that value |
| `ScreenColor.UniformSums` | internal/screen/color.go:20-23 | on a uniform image the sums are the count times the value and its square |
| `ScreenColor.AveragesUniform` | internal/screen/color.go:10-59 | with grid 1 a uniform image gives back its colour from both averages |
| `ScreenColor.MedianUniform` | internal/screen/color.go:62-97 | a uniform image has its colour as median for any grid |
| `ScreenColor.MedianBetween` | internal/screen/color.go:71-89 | each median channel lies between the smallest and the largest visited value of that channel |
| `ScreenColor.MedianOrderFree` | internal/screen/color.go:71-89 | any rearrangement of a channel's visited values has the same median, so the visit order does not change it |
| `ScreenColor.MedianChannel` | internal/screen/color.go:83-96 | each channel of the median colour is the median of that channel's visited values |
| `ScreenColor.IntendedAveragesUniform` | internal/screen/color.go:15 | divided by the visited count, both averages of a uniform image give its colour for any grid |
| `ScreenColor.IntendedMatchesWithFullGrid` | internal/screen/color.go:15 | with grid 1 the corrected and the as-written averages agree |
| `ScreenColor.GridTwoUndercounts` | internal/screen/color.go:15 | grid 2 on a 2×2 white image: as written 63 and 127, corrected 255 |
| `UtilColor.GreyishIff` | internal/util/color.go:60-63 | a saturation is greyish exactly when it is at most 13107 |
| `UtilColor.NarrowValue` | internal/util/color.go:83-86 | uint8(w / 0xFFFF · 0xFF) is w / 257 |
| `UtilColor.NarrowExpand` | internal/util/color.go:127-130 | scaling a 16-bit channel back gives the 8-bit channel |
| `UtilColor.WideMean` | internal/util/color.go:83 | the mean of 16-bit values fits in 16 bits |
| `UtilColor.WideRootMean` | internal/util/color.go:110 | the root mean square of 16-bit values fits in 16 bits |
| `UtilColor.AverageRow` | internal/util/color.go:72-79 | one row counts and adds the 16-bit channels of every g-th pixel of the row |
| `UtilColor.SquaredAverageRow` | internal/util/color.go:98-106 | one row counts and adds the squared 16-bit channels of every g-th pixel of the row |
| `UtilColor.MedianRow` | internal/util/color.go:125-131 | one row appends the channels scaled back to 8 bits, which are the pixel's own, of every g-th pixel of the row |
| `UtilColor.AverageColor` | internal/util/color.go:65-88 | counts the visited pixels and divides the 16-bit sums by that count before scaling back |
| `UtilColor.SquaredAverageColor` | internal/util/color.go:91-115 | the root of the mean of squared 16-bit values over the visited count, scaled back |
| `UtilColor.MedianColor` | internal/util/color.go:118-153 | equals the median colour of internal/screen on the same image and grid |
| `UtilColor.WideSums` | internal/util/color.go:75-78 | the 16-bit sums are 257 (and 257²) times the 8-bit ones |
| `UtilColor.ScaledMean` | internal/util/color.go:83-86 | floor(floor(257S/n)/257) = floor(S/n) |
| `UtilColor.AverageIsMean` | internal/util/color.go:65-88 | the average is the floor mean of the visited 8-bit values, the corrected screen average |
| `UtilColor.SquaredUniformChannel` | internal/util/color.go:102-113 | a uniform image's squared average channel is its value |
| `UtilColor.AveragesUniform` | internal/util/color.go:65-115 | a uniform image gives back its colour from both averages for any grid |
| `Parsing.LeadCount` | internal/util/parsing.go:23 | the leading dropped run: all dropped, followed by a kept character or the end |
| `Parsing.TrailStart` | internal/util/parsing.go:23 | the trailing dropped run: all dropped, preceded by a kept character or the start |
| `Parsing.TrimShape` | internal/util/parsing.go:23 | the trim is a contiguous part of the input that neither starts nor ends with a dropped character, with only dropped characters around it |
| `Parsing.TrimUnique` | internal/util/parsing.go:23 | any such middle part is the trim |
| `Parsing.TrimIdempotent` | internal/util/parsing.go:23 | trimming twice is trimming once |
| `Parsing.TrimPadded` | internal/util/parsing.go:44 | a dropped character added at both ends changes nothing |
| `Parsing.PaddedMiddle` | internal/util/parsing.go:44 | inside the padded string the trimmed part shifts by one place and still neither starts nor ends with a dropped character |
| `Parsing.Split` | internal/util/parsing.go:20 | one more part than commas |
| `Parsing.SplitCommaFree` | internal/util/parsing.go:20 | no part holds a comma |
| `Parsing.JoinSplit` | internal/util/parsing.go:20 | joining the parts with commas gives back the string |
| `Parsing.SplitJoin` | internal/util/parsing.go:20 | splitting comma-free parts joined by commas gives back the parts |
| `Parsing.SplitPart` | internal/util/parsing.go:20 | a comma-free prefix joins the first part |
| `Parsing.StringSplitter` | internal/util/parsing.go:19-26 | returns (commas + 1) parts, the i-th the trimmed i-th split part |
| `Parsing.EmptyValueOnePart` | internal/util/parsing.go:19-26 | "" gives [""] |
| `Parsing.PartsTrimmed` | internal/util/parsing.go:20-24 | no part holds a comma or starts or ends with a space |
| `Parsing.ParseParts` | internal/util/parsing.go:28-39 | no more values than parts |
| `Parsing.ParsePartsAllOk` | internal/util/parsing.go:28-39 | when every part parses: one value per part, in order, and no error |
| `Parsing.ParsePartsStops` | internal/util/parsing.go:31-35 | at the first failing part: its error, with exactly the earlier parts' values |
| `Parsing.SliceTypeParser` | internal/util/parsing.go:28-39 | the loop returns the values and error of the recursive list parse of the trimmed parts |
| `Parsing.ParseStringAs` | internal/util/parsing.go:43-97 | panics (None) exactly for the kind without a case |
| `Parsing.ParseFailureGivesDefault` | internal/util/parsing.go:92-95 | a failing parse returns def |
| `Parsing.QuotedLikeBare` | internal/util/parsing.go:44 | a value wrapped in quotes parses like the bare value |
| `Parsing.StringCase` | internal/util/parsing.go:48-49 | the string case returns the value with all surrounding quotes removed, none left at either end |
| `Parsing.StringsCase` | internal/util/parsing.go:50-53 | the string-list case returns the trimmed comma parts of the unquoted value |
| `Parsing.BytesText` | internal/util/parsing.go:106-107 | one character per byte with the same code |
| `Parsing.NatDigits` | internal/util/parsing.go:108-111 | non-empty decimal digits, without leading zero, whose value is n |
| `Parsing.FormatIntShape` | internal/util/parsing.go:108-111 | `%d` text: a minus sign exactly for negatives, then the digits of the magnitude |
| `Parsing.ParseString` | internal/util/parsing.go:99-119 | nil and unsupported types give ""; text is returned as it is |
| `Parsing.ParseStringBool` | internal/util/parsing.go:114-115 | a boolean gives "true" or "false" |
| `Parsing.ParseInt64` | internal/util/parsing.go:132-154 | nil, bool and unsupported types give 0; unparsable bytes give 0 |
| `Parsing.BytesLikeText` | internal/util/parsing.go:138-146 | bytes and text read alike exactly when the parse succeeds or fails with value 0 |
| `Parsing.ParseInt64Float` | internal/util/parsing.go:147-150 | a float within range is truncated toward zero |
| `Parsing.RemoveDashes` | internal/util/parsing.go:123 | no dash remains and nothing is added |
| `Parsing.RemoveDashesAppend` | internal/util/parsing.go:123 | removing dashes distributes over concatenation |
| `Parsing.UuidUndashed` | internal/util/parsing.go:122-123 | a formatted uuid without its dashes is its 32 hex digits |
| `Parsing.Drawn` | internal/util/parsing.go:124-128 | n uuids give 32·n hex digits |
| `Parsing.RandomString` | internal/util/parsing.go:121-130 | l ≥ 0 gives exactly l hex characters, the first l of the uuids drawn; l < 0 panics |
| `Logging.AtomicLevel.SetLevel` | internal/logging/logging.go:80 | the shared level becomes the new one |
| `Logging.LevelSetter.constructor` | internal/logging/logging.go:36-38 | a new registry is empty and every name reads Info |
| `Logging.LevelSetter.GetLevel` | internal/logging/logging.go:61-70 | an unregistered name reads Info |
| `Logging.LevelSetter.SetLevelOf` | internal/logging/logging.go:72-83 | creates an entry only for an absent name, updates an existing one in place (same object), reads back the level, other names unchanged |
| `Logging.LevelSetter.SetLevel` | internal/logging/logging.go:57-59 | GetLevel of the name then reads the level; every other name is unchanged |
| `Logging.LevelSetter.New` | internal/logging/logging.go:85-88 | the name's level is reset to Info; other names unchanged |

## Left out

- Concurrency is not modelled: goroutines, wait groups, locks, channels and timers. Each scan, dispatch and colour send is one sequential loop; a deadline is a sequence of outcomes cut short. The unsynchronised write to the shared map at lifx/lifx.go:144 is therefore not modelled.
- The Start and discover loops on a ticker, contextCancel and the logger construction are left out. Only their effect on state is modelled (StartClient, Stop).
- Foreign libraries appear as parameters or outcomes: lifxlan Discover/Wrap/Dial/Echo/SetColor, golifx GetGroupByLabel, group.SetColor and Lights, strconv, time and decimal parsers, float formatting, and uuid generation. The group's member lights are an abstract list of labels.
- Float rounding is not reproduced bit for bit. Arithmetic is exact real arithmetic, `math.Sqrt` of an integer followed by truncation is the integer square root, and `Min/MaxBrightness·65535` is exact.
- `lights.ColorWhite` is not part of this model; it is taken to be (255, 255, 255).
- The capture loops, screen/service.go, web, cmd wiring and configuration types are not part of this model.
- The reducers require `pixelGridSize > 0`: with 0 the source's loops never end, and a negative size indexes out of range.
- The screen averages require width·height > 0, because that is the divisor.
- The util averages and both medians require a non-empty image: a zero visited count divides by zero, and an empty list indexes position −1.
- `sort.Slice` is modelled by its result, an ascending permutation computed on values (`Pixels.Sort`); the in-place swaps are not modelled.
- The order of Go map iteration is a nondeterministic choice. The mode reducer's choice among tied colours is therefore left open.
- `Pixels.Raster` is an image whose bounds start at (0, 0). The reducers read `bounds.Max.X` and `bounds.Max.Y` as width and height and start both loops at 0. For an image with a non-zero `Min` they would visit a different set of points, some of them outside the image; such images are not modelled.
- `uint64` overflow of the pixel sums is not modelled; it needs images of more than 2³² pixels.
- `ParseStringAs`: the parser of each case is passed in. The model states the quote trimming, the default on error, the panic for `map[string]time.Duration`, and the two string cases. The conversion `val.(T)` cannot fail and is not modelled.
- `ParseString` for `[]uint8` reads each byte as one character and does not decode UTF-8. `float64` formatting is a parameter. `float32` has no case in `ParseString` and falls to "".
- `ParseInt64`: strconv.ParseInt(s, 10, 64) is a parameter, returning its value and whether it failed.
- `ParseTimestamp`, `ParseDecimal` and internal/util/util.go are not part of this model.
- `InternalGroupLights.LifxLights.constructor`: models NewLifx once the client exists; the nil result when client creation fails (internal/lights/lifx/lifx.go:35-38) is not modelled.
- The ModeColor of internal/util/color.go:156-179 is the same code as that of internal/screen/color.go:100-123, and `ScreenColor.ModeColor` models both. The RgbToHsb of internal/lights/color.go is the same as that of internal/util/color.go, and `Hsb` models both.
- `UtilColor.MedianColor` narrows each 16-bit channel exactly (w / 257). In float64, `float64(257c) / 0xFFFF * 0xFF` may fall just below c and truncate to c − 1; this is float rounding, and is not modelled.
- `Logging.LevelSetter.New`: the zap logger that New builds is not modelled, only the entry it uses.

## Findings

| source | as written | input that shows it | evidently intended | confidence | as-written member | corrected member |
|---|---|---|---|---|---|---|
| internal/screen/color.go:15 | AverageColor divides the sums of the visited pixels by width·height, although only one pixel in every pixelGridSize² is visited | pixelGridSize 2 on a 2×2 image of (255, 255, 255, 255) gives (63, 63, 63, 63) | divide by the number of visited pixels, as internal/util/color.go:73,83 does, so that a uniform image gives back its colour | not executed | `ScreenColor.GridTwoUndercounts` | `ScreenColor.IntendedAveragesUniform` |
| internal/screen/color.go:41 | SquaredAverageColor divides the sums of squares by width·height | pixelGridSize 2 on a 2×2 image of (255, 255, 255, 255) gives (127, 127, 127, 127) | divide by the number of visited pixels, as internal/util/color.go:99,110 does | not executed | `ScreenColor.GridTwoUndercounts` | `ScreenColor.IntendedAveragesUniform` |
