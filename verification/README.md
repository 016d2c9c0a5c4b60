# screensplit: monitor discovery and arrangement, in Dafny

This project models `src/screenspliter.rs`, the core of a small X11 tool.
The tool lists the connected monitors and places the first two relative
to each other with `xrandr`. It then sets a wallpaper with `feh`.

The model has four modules:

- `Results` holds the `Option` and `Result` datatypes.
- `Strings` models the parts of Rust's `str` API that the parser uses:
  - `char::is_whitespace`, over the Unicode White_Space set;
  - `str::trim`;
  - `str::split` on a `char`, which keeps empty pieces.
- `Decimal` models `u32::from_str` and the `{}` formatting of a `u32`:
  - the parser takes an optional leading `+`, then at least one ASCII digit;
  - the value must fit in 32 bits.
- `ScreenSpliter` models the tool itself:
  - the `Position` enum;
  - the `Monitor` record;
  - the discovery parser `get_available_monitors`;
  - the outcomes of `list_monitors` and `split_screen`.

The discovery pipeline's output is an input, already split into lines.
What the program prints and the processes it starts are results:

- `list_monitors` gives back the printed lines.
- `split_screen` gives back the `xrandr` and `feh` commands, as program
  names with argument vectors.

The parser can panic in two ways. Both are error results:
`Failure.Panicked(IndexOutOfBounds(..))` and `Failure.Panicked(SliceTooShort(..))`.

- `lines[i + 1]` indexes past the end when the line count is odd.
- The slice `[..2]` fails when a mode line has fewer than two numeric pieces.

Because of the second panic, the `else { None }` branch of the `if let` can
never be reached. The `filter(Option::is_some)` that follows it therefore
never drops anything.

Two behaviours of the code are worth stating plainly:

- A mode line with fewer than two numbers is not skipped: the slice `[..2]`
  panics (lines 96-100).
- With a single monitor, `split_screen` returns `Ok(())` without running
  `feh` (line 137), so no wallpaper is set.

`Monitor::new` is the `Monitor` datatype's constructor, and `Monitor::name`
is its `name` field.

## Model

| member | source | states |
|---|---|---|
| ScreenSpliter.ParseMonitors | src/screenspliter.rs:94-108 | The model of `get_available_monitors` from its line 94 on. Its meaning is given by ParseMonitorsOk, ParseMonitorsAt, ParseMonitorsValue, ParseMonitorsOddLength, ParseMonitorsTooShort and RenderParses. |
| ScreenSpliter.ParseResolution | src/screenspliter.rs:96-100 | The closure body reading a mode line; `None` is the `[..2]` panic. Its meaning is given by ResolutionFirstTwo, ResolutionNone and ResolutionRoundTrip. |
| ScreenSpliter.Numbers | src/screenspliter.rs:97-99 | The `map(u32::from_str)`, `filter(Result::is_ok)`, `map(Result::unwrap)` chain. Its meaning is given by NumbersSingle and NumbersAppend. |
| ScreenSpliter.NumbersSingle | src/screenspliter.rs:97-99 | One piece contributes its `u32` value when `from_str` accepts it, and nothing otherwise. |
| ScreenSpliter.Monitor.ToString | src/screenspliter.rs:73-76 | `Monitor::to_string`. Its meaning is given by ResolutionRoundTrip, ToStringTrimmed and ReportLinePrints. |
| ScreenSpliter.XrandrArgs | src/screenspliter.rs:129-133 | The `xrandr` argument vector. Its meaning is given by ArrangementRoundTrip and SplitScreenArgs. |
| Decimal.ParseU32 | src/screenspliter.rs:97 | `u32::from_str`. Its meaning is given by ParseU32Spec, ParseFormat and FormatParse. |
| Strings.IsWhitespace | src/screenspliter.rs:94 | `char::is_whitespace`, which decides what `str::trim` cuts. WhitespaceListed shows it holds exactly on the 25 Unicode White_Space code points. |
| Strings.WhitespaceListed | src/screenspliter.rs:94 | The characters `trim` cuts are exactly the White_Space code points: tab to carriage return, space, U+0085, U+00A0, U+1680, U+2000 to U+200A, U+2028, U+2029, U+202F, U+205F and U+3000. |
| Strings.Trim | src/screenspliter.rs:94 | `str::trim`. Its meaning is given by TrimSpec, TrimPadded and TrimTrimmed. |
| Strings.Split | src/screenspliter.rs:96 | `str::split` on `'x'`: it always returns at least one piece. Its meaning is given by SplitSpec and SplitJoin. |
| ScreenSpliter.Position.Default | src/screenspliter.rs:30-35 | The default position places the secondary monitor with `--right-of`. |
| ScreenSpliter.Position.Name | src/screenspliter.rs:37-42 | `Display` prints the variant's own name, and that name reads back as the same variant. |
| ScreenSpliter.Position.AsXrandrArg | src/screenspliter.rs:44-52 | Each position's xrandr flag reads back as that position. |
| ScreenSpliter.FlagInjective | src/screenspliter.rs:44-52 | Two positions share a flag exactly when they are the same position. Only `--left-of`, `--same-as` and `--right-of` are ever produced. |
| Strings.TrimSpec | src/screenspliter.rs:94 | A trimmed line starts and ends with a non-whitespace character. It is a slice of the input, and only whitespace was cut away on either side. |
| Strings.TrimPadded | src/screenspliter.rs:94 | Trimming removes exactly the whitespace padding around a trimmed string, whatever that padding is. |
| Strings.TrimTrimmed | src/screenspliter.rs:94 | A string with no whitespace at either end is left unchanged, so trimming twice is the same as trimming once. |
| Strings.SplitSpec | src/screenspliter.rs:96 | No piece of `split('x')` contains `'x'`. Joining the pieces back with `'x'` gives the original line. |
| Strings.SplitJoin | src/screenspliter.rs:96 | Splitting undoes joining pieces that contain no separator. |
| Strings.SplitConcat | src/screenspliter.rs:96 | A separator cuts the pieces in two: the pieces of `a + "x" + b` are those of `a` followed by those of `b`. |
| Decimal.Format | src/screenspliter.rs:75 | `{}` prints a canonical numeral (digits only, no leading zero) whose value is the number. |
| Decimal.ParseU32Spec | src/screenspliter.rs:97 | `u32::from_str` accepts an optional `+`, then one or more digits and nothing else, with value at most 2^32-1. |
| Decimal.ParseFormat | src/screenspliter.rs:97 | Parsing the printed form of `n` gives `n` back when `n` fits in a `u32`, and is an overflow error otherwise. |
| Decimal.FormatParse | src/screenspliter.rs:97 | On canonical numerals, printing is the inverse of parsing. |
| ScreenSpliter.NumbersAppend | src/screenspliter.rs:97-99 | The map/filter/unwrap chain keeps the parsable pieces of a concatenation in order: the numbers of `a + b` are those of `a` followed by those of `b`. |
| ScreenSpliter.ResolutionFirstTwo | src/screenspliter.rs:96-100 | The resolution is the values of the first two numeric pieces. Non-numeric pieces before and between them are dropped, and later pieces are ignored. |
| ScreenSpliter.ResolutionNone | src/screenspliter.rs:96-100 | The slice `[..2]` fails exactly when the line has no two numeric pieces. |
| ScreenSpliter.ResolutionRoundTrip | src/screenspliter.rs:73-76 | Reading `to_string`'s `"{w}x{h}"` back with the resolution parser gives `(w, h)`. |
| ScreenSpliter.ToStringTrimmed | src/screenspliter.rs:73-76 | `to_string` output starts and ends with a digit, so trimming leaves it unchanged. |
| ScreenSpliter.ParseMonitorsOk | src/screenspliter.rs:94-108 | Discovery succeeds exactly when there is an even number of lines and every second line of a pair holds a resolution. Any failure is a panic. |
| ScreenSpliter.ParseMonitorsAt | src/screenspliter.rs:95-101 | Monitor `k` is named by trimmed line `2k`. Its resolution is the one parsed from trimmed line `2k+1`. |
| ScreenSpliter.ParseMonitorsValue | src/screenspliter.rs:94-108 | A successful parse gives one monitor per line pair, in input order, with the pair's name and resolution. No lines give no monitors. |
| ScreenSpliter.ParseMonitorsOddLength | src/screenspliter.rs:95-96 | With an odd number of lines whose pairs all parse, `lines[i + 1]` indexes one past the end and panics. |
| ScreenSpliter.ParseMonitorsTooShort | src/screenspliter.rs:96-100 | At the first mode line with fewer than two numbers, the slice panics. Nothing after that pair is read. |
| ScreenSpliter.RenderParses | src/screenspliter.rs:94-108 | Give the parser lines in the pipeline's format: name lines without surrounding whitespace, then `"{w}x{h}"`. It reads back exactly the monitors that were written. |
| ScreenSpliter.ListMonitors | src/screenspliter.rs:111-123 | With no monitors the result is `NoMonitorFound`, and every non-empty list succeeds. The output is the header line, then one line per monitor in order. Each line is exactly the name, `": "`, and the width and height as canonical numerals joined by `x`. Its `WxH` also parses back to the monitor's resolution. |
| ScreenSpliter.PrintsMonitorUnique | src/screenspliter.rs:117 | The `"{}: {}x{}"` line of a monitor is unique: two lines that both print it are equal. |
| ScreenSpliter.ReportLinePrints | src/screenspliter.rs:117 | `ReportLine`, the model of the `println!` on line 117, prints exactly that line, and it ends in the monitor's `to_string`. |
| ScreenSpliter.Report | src/screenspliter.rs:116-118 | The loop prints one line per monitor, in order, each being `ReportLine` of that monitor. |
| ScreenSpliter.ArrangementRoundTrip | src/screenspliter.rs:129-133 | The xrandr argument vector can be read back as the two monitors with their modes and the requested position. |
| ScreenSpliter.SplitScreen | src/screenspliter.rs:125-139 | No monitor gives `NoMonitorFound`, and one monitor runs nothing. Two or more run `xrandr` with exactly the `XrandrArgs` vector of the first two, which reads back as those monitors and the position, then `feh --bg-scale path`. |
| ScreenSpliter.SplitScreenArgs | src/screenspliter.rs:127-135 | The exact xrandr argument vector is built from the first two monitors only. The flag places the second relative to the primary's name. |
| ScreenSpliter.ListMonitorsRun | src/screenspliter.rs:111-123 | `list_monitors` reports `NoMonitorFound` exactly when the discovery output has no lines. It succeeds exactly when discovery succeeds on non-empty output, and then prints the header followed by one line per pair. A discovery panic is returned unchanged, as the `?` on line 113 does. |
| ScreenSpliter.SplitScreenRun | src/screenspliter.rs:125-139 | `split_screen` runs nothing exactly when discovery finds one pair of lines. It runs both commands exactly when discovery succeeds on four lines or more. A discovery panic is returned unchanged, as the `?` on line 127 does. |
| ScreenSpliter.ListMonitorsRunLine | src/screenspliter.rs:113-118 | Line `k + 1` printed by `list_monitors` is exactly the `"name: WxH"` text for the monitor that pair `k` of the discovery output describes. |
| ScreenSpliter.SplitScreenRunCommands | src/screenspliter.rs:127-135 | With two pairs or more, `split_screen` runs `xrandr` on the monitors of the first two pairs, then `feh --bg-scale path`. |
| ScreenSpliter.TwoMonitorsExample | src/screenspliter.rs:90-108 | Lines `DP-1`, `1920x1080`, `HDMI-1`, `2560x1440` parse to those two monitors. |
| ScreenSpliter.TwoMonitorsSplitExample | src/screenspliter.rs:125-135 | With the default position, those two monitors yield the exact `xrandr` call placing HDMI-1 right of DP-1, then `feh`. |
| ScreenSpliter.NoModeExample | src/screenspliter.rs:96-100 | The lines `HDMI-1`, `DP-2` panic at the slice on line 1. |
| ScreenSpliter.OddLinesExample | src/screenspliter.rs:95-96 | Three lines whose first pair parses panic indexing line 3 of 3. |

## Left out

- `src/argsparser.rs`, the command-line parser, is not part of this model.
  It is built on `clap` and reads the home directory.
- Running the discovery pipeline is not modelled: `sh -c "xrandr | grep … | awk …"`.
  Nor are its spawn failure (`.output()?`) or a `String::from_utf8` error. The
  pipeline's output is an input, already split by `str::lines`.
- Spawning `xrandr` and `feh` is not modelled, and neither are their spawn
  failures. `split_screen` ignores their exit status. The model returns the
  commands it would run.
- `println!` output is returned as a list of lines.
- The derived `Debug` output is modelled only where `Display` uses it, for
  `Position` (`Position.Name`). `Monitor`'s derived `Debug` is never used
  by the core and is not modelled.
- The derived `Clone` and `clap::ValueEnum` implementations are not modelled.
  Neither is the `Error` boxing of `NoMonitorFound` or its `Display` text
  ("No monitor has been found").
- ScreenSpliter.ListMonitorsRun states the outcome, the header and the number
  of printed lines. The text of each monitor line is stated by
  ListMonitorsRunLine.
- ScreenSpliter.SplitScreenRun states which outcome occurs. The commands it
  runs are stated by SplitScreenRunCommands.
