# eir: interval parsing, label resolution and the `replace` extension

eir is a telemetry collector. It polls JSON endpoints, extracts values and
labels from each response and republishes them as Prometheus metrics. This
project models the three sequential, side-effect-free routines in that
pipeline and proves properties about them in Dafny:

- `parse_interval` (src/main.rs) turns an endpoint's polling interval, such
  as `"30s"`, `"5m"` or `"2h"`, into a number of seconds. Module `Interval`
  models it as a total function. Each `unwrap` and `panic!` in the source
  becomes an `IntervalError` value. The Rust `u64` parser it calls
  (`str::parse::<u64>`) is modelled in module `Decimal`. That model follows
  the parser's digit loop: an optional leading `+`, an invalid digit checked
  before overflow, and checked arithmetic.
- `resolve_labels` (src/main.rs) turns a metric's configured labels into
  `(name, value)` pairs. A value that starts with `$` is a JSON-path query,
  and the label gets the query's first match. Any other value is copied
  literally. Module `Labels` models the source loop as the method
  `ResolveLabels`, which is proved equal to the specification function
  `ResolveAll`. Lemmas about `ResolveAll` state what the loop promises.
- `replace` (src/jmes_extensions.rs) is a custom JMESPath function. It is
  registered as variadic: it takes three or more string arguments, and the
  callback reads the first three and applies Rust's `str::replace` to them. Module `JmesExtensions` defines that
  substitution over `seq<char>`, including the empty-pattern case, where the
  replacement is inserted at every character boundary (`ReplaceEmptyIsJoin`).
  For a non-empty pattern, two descriptions pin it down. The first is stated
  against plain occurrences
  (`MatchAt`): the text before the first occurrence is kept, that occurrence
  becomes the replacement, and an input without occurrences is returned
  unchanged. The second is a split-and-join form: split at the matches, then
  join with the replacement. The split scans the same way as the
  substitution, so it is not independent evidence for leftmost matching.

Module `Wrappers` holds the `Option` and `Result` types.

The JSON-path engine and its rendering of a match to text are passed to
`ResolveLabels` as the parameter `query`. `query(path)` is `None` when the
path does not compile. Otherwise it is the list of rendered matches in
document order. The `NoMatch` error, standing for the panic of `val[0]`,
assumes a lookup that returns an empty list when nothing matches. A lookup
that instead returns a placeholder entry is a `query` whose list holds that
entry's rendering (for example `"null"`), and the label then gets that text.

Three behaviours of the code are easy to misread:

- A label value is computed only when it starts with `$`, which marks a
  JSON-path. No other marker, such as a `jmespath:` prefix or `{{ }}`
  delimiters, is recognised.
- A count of zero is accepted: `"0s"` parses to 0.
- A bad interval is a panic inside the polling task on its first tick. It
  is not rejected when the configuration is loaded.

## Model

| member | source | states |
|---|---|---|
| `Decimal.ParseDigitsFrom` | src/main.rs:35 | The digit loop never reports `Empty`, and a value it returns lies between the starting accumulator and `u64::MAX`. Its full meaning is `ParseDigitsFromMeaning`. |
| `Decimal.ParseU64` | src/main.rs:35 | `parse::<u64>` reports `Empty` exactly for the empty string. Its full meaning is `ParseU64Meaning`. |
| `Decimal.ParseDigitsFromMeaning` | src/main.rs:35 | The `u64` digit loop succeeds exactly when every character is a digit and `acc·10^len + value` fits in 64 bits, and it then returns that value. |
| `Decimal.ParseU64Meaning` | src/main.rs:35 | `parse::<u64>` succeeds exactly on a non-empty run of digits, after one optional `+`, whose positional value is at most `u64::MAX`, and it returns that value. |
| `Decimal.ParseU64Bounded` | src/main.rs:35 | A parsed count never exceeds `u64::MAX`. |
| `Decimal.ParseToDecimal` | src/main.rs:35 | Parsing the decimal text of any `n ≤ u64::MAX` yields `n`. |
| `Decimal.ParsePlusDecimal` | src/main.rs:35 | The same digits behind one leading `+` also parse to `n`. |
| `Decimal.ParseTooLarge` | src/main.rs:35 | The decimal text of a number above `u64::MAX` is a `PosOverflow` error and is not wrapped. |
| `Decimal.ParseDigitsOverflow` | src/main.rs:35 | On all-digit text whose value is too large, the error is `PosOverflow` and never `InvalidDigit`. |
| `Decimal.ParseNonDigitStart` | src/main.rs:35 | Text that starts with a character other than a digit or `+` is an `InvalidDigit` error. |
| `Interval.ParseInterval` | src/main.rs:32-42 | The missing-unit error is reported exactly for the empty string. Its full meaning is `ParseIntervalMeaning`. |
| `Interval.ParseIntervalMeaning` | src/main.rs:32-42 | `parse_interval` succeeds exactly on an independently defined valid interval: a `u64` count, a unit in {s, m, h}, and a product that fits. The result is count × (1, 60 or 3600) and is at most `u64::MAX`. |
| `Interval.HoursOverflow` | src/main.rs:39 | Multiplying by 60 twice equals multiplying by 3600, and it overflows exactly when `count·3600` does. |
| `Interval.SecondsInterval` | src/main.rs:33-37 | `"<n>s"` parses to `n` for every `n ≤ u64::MAX`. |
| `Interval.MinutesInterval` | src/main.rs:38 | `"<n>m"` parses to `60·n`, or to a multiplication-overflow error when `60·n` exceeds `u64::MAX`. |
| `Interval.HoursInterval` | src/main.rs:39 | `"<n>h"` parses to `3600·n`, or to a multiplication-overflow error when `3600·n` exceeds `u64::MAX`. |
| `Interval.CountTooLarge` | src/main.rs:35 | A count above `u64::MAX` is a count error whatever the unit. |
| `Interval.UnknownUnit` | src/main.rs:40 | With any count that is `u64` text (a leading `+` or leading zeros included), a unit other than s, m or h is a `BadUnit` error that carries that unit. |
| `Interval.BadCountFirst` | src/main.rs:34-36 | The count is parsed before the unit is inspected. A malformed count is reported as a count error even when the unit is also wrong. |
| `Interval.MalformedIntervals` | src/main.rs:33-40 | `""`, `"s"`, `"+s"`, `"x5m"` and `"-5m"` are errors. `"5x"` is a unit error. `"+30s"` is 30 and `"0s"` is 0. |
| `Labels.ResolveValue` | src/main.rs:19-27 | One label resolves exactly when it is a literal or its path compiles and has a match. A failure carries the offending path. |
| `Labels.ResolveAll` | src/main.rs:16-30 | A successful resolution has one pair per label. The remaining promises of the loop are the lemmas below. |
| `Labels.ResolveLabels` | src/main.rs:16-30 | The loop that pushes one pair per label returns exactly `ResolveAll(labels, query)`. |
| `Labels.PrefixError` | src/main.rs:22-24 | Once a label fails to resolve, the whole call fails with that label's error, and no partial list is returned. |
| `Labels.ResolvedShape` | src/main.rs:17-29 | A successful result has the input's length and order. Every name is passed through. Every literal value is copied exactly. Every `$` value is replaced by the first match of its query. |
| `Labels.ResolveSucceedsIff` | src/main.rs:21-24 | Resolution succeeds exactly when every `$` label's path compiles and has at least one match. |
| `Labels.FirstFailure` | src/main.rs:18-24 | A failure reports the error of the first unresolvable label, and every label before it is resolvable. |
| `Labels.LiteralsIgnoreDocument` | src/main.rs:25-26 | When no value starts with `$`, the result is the labels exactly as written, whatever the response document is. |
| `JmesExtensions.Replace` | src/jmes_extensions.rs:71 | `str::replace`. Its meaning is given by `ReplaceAtFirstMatch` and `ReplaceAbsentPattern` for a non-empty pattern and by `ReplaceEmptyIsJoin` for the empty one. |
| `JmesExtensions.Count` | src/jmes_extensions.rs:71 | The number of substitutions. For a non-empty pattern the matches do not overlap, so they fit in the input: `count · |pattern| ≤ |input|`. |
| `JmesExtensions.ReplaceAtFirstMatch` | src/jmes_extensions.rs:71 | For a non-empty pattern whose first occurrence starts at `i`, `replace` keeps `input[..i]`, writes the replacement, and replaces the text after the occurrence on its own. |
| `JmesExtensions.KeepUnmatched` | src/jmes_extensions.rs:71 | Text at none of whose positions an occurrence starts is copied unchanged, and the text after it is replaced on its own. |
| `JmesExtensions.ReplaceIsSplitJoin` | src/jmes_extensions.rs:71 | For a non-empty pattern, `replace` equals splitting the input at its left-to-right matches and joining the pieces with the replacement. |
| `JmesExtensions.SplitCount` | src/jmes_extensions.rs:71 | The split has exactly one more piece than there are substitutions. |
| `JmesExtensions.SplitPiecesPatternFree` | src/jmes_extensions.rs:71 | No piece that the substitution keeps between matches contains the pattern, so no occurrence lies wholly inside a kept piece. |
| `JmesExtensions.SplitJoinRoundTrip` | src/jmes_extensions.rs:71 | Joining the pieces with the pattern itself gives back the input. |
| `JmesExtensions.ReplaceLength` | src/jmes_extensions.rs:71 | `|replace(s, p, r)| = |s| + k·(|r| − |p|)`, where `k` is the number of substitutions. This also covers the empty pattern, where `k = |s| + 1`. |
| `JmesExtensions.ReplaceWithItself` | src/jmes_extensions.rs:71 | Replacing a pattern with itself returns the input, for every pattern including the empty one. |
| `JmesExtensions.CountZeroIff` | src/jmes_extensions.rs:71 | For a non-empty pattern, there are no substitutions exactly when the pattern does not occur in the input. |
| `JmesExtensions.ReplaceNoMatch` | src/jmes_extensions.rs:71 | With no substitutions to make, the input is returned unchanged. |
| `JmesExtensions.ReplaceAbsentPattern` | src/jmes_extensions.rs:71 | If a non-empty pattern does not occur in the input, `replace` returns the input. |
| `JmesExtensions.SkipNonStarters` | src/jmes_extensions.rs:71 | Text containing no character that could start a match passes through `replace` unchanged, and the text after it is replaced on its own. |
| `JmesExtensions.ReplaceTestVector` | src/jmes_extensions.rs:88-96 | `replace("foo baz foo", "foo", "bar") == "bar baz bar"`. |
| `JmesExtensions.ReplaceLeftToRight` | src/jmes_extensions.rs:71 | Matches are consumed left to right without overlap: `replace("aaa", "aa", "b") == "ba"`. |
| `JmesExtensions.ReplaceEmptyIsJoin` | src/jmes_extensions.rs:71 | An empty pattern matches at every character boundary: the result is the replacement, then each character followed by the replacement (the replacement alone for empty text). |
| `JmesExtensions.ReplaceEmptyPattern` | src/jmes_extensions.rs:71 | An instance of the empty-pattern case: `replace("ab", "", "x") == "xaxbx"`. |
| `JmesExtensions.ReplaceFunction` | src/jmes_extensions.rs:66-74 | Given three or more string arguments, as the registered signature admits, the callback's three `as_string().unwrap()` calls cannot fail. It yields a string whose length follows the substitution count. |
| `JmesExtensions.CallReplace` | src/jmes_extensions.rs:23-36 | A call through the runtime succeeds exactly when the arguments are three or more strings. It is an arity error exactly when fewer than three arguments are given. On success the result is the string `replace(input, pattern, replacement)` of the first three. |
| `JmesExtensions.ExtraArgumentsIgnored` | src/jmes_extensions.rs:26-32 | Because the signature is variadic in strings, any call with more than three strings succeeds and gives the same result as the call with the first three. |
| `JmesExtensions.ExtraArgumentExample` | src/jmes_extensions.rs:26-32 | `replace("foo baz foo", "foo", "bar", "x")` is `"bar baz bar"`: the fourth string is accepted and ignored. |

## Left out

- `fetch_metrics` and `main` (src/main.rs:44-82): the infinite polling loop, task spawning and sleeping are concurrency and timing, not sequential logic.
- `to_timestamp` (src/jmes_extensions.rs:45-64): it delegates to chrono's date parser and returns a floating-point number.
- `CUSTOM_RUNTIME` and `compile` (src/jmes_extensions.rs:10-43): registration in, and compilation by, the external jmespath crate. Only the registered signature of `replace` is modelled.
- JSON-path compilation and evaluation, and the rendering of a match with `to_string` (src/main.rs:22-24): these are external libraries. They are the `query` parameter of `ResolveLabels`.
- The metrics exporter (src/metrics.rs), the HTTP client (src/client/) and configuration loading (src/config/): these are I/O and serde declarations. Only the `Label` record of src/config/metric.rs:4-7 is reused.
- Interval.ParseInterval: a `u64` multiplication that overflows is modelled as an error, which is what a debug build does when it panics. A release build wraps modulo 2^64 instead, and that wrap is not modelled.
- Decimal.ParseU64: Rust parses bytes and this model parses characters. A non-ASCII character is an invalid digit in both, so the outcome is the same.
- JmesExtensions.CallReplace: the argument check belongs to the jmespath crate, and that crate is not part of this model. The model checks arity first (at least three arguments, since the signature is variadic) and then each argument in order. The exact error variants and messages the crate reports are not modelled.
- JmesExtensions.Variable: JMESPath numbers are floating point. Here they are integers, because no floating point is modelled and `replace` never reads a number.
