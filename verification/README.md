# Mandelbrot escape-time core, modelled in Dafny

This project models the two pure pieces of logic in `src/main.rs` of a small
Rust Mandelbrot program:

- **`parse_pair` / `parse_complex`** — split a string such as `"400x600"` or
  `"1.0,0.5"` at the first occurrence of a separator character, trim the
  whitespace around both halves, and convert each half with `T::from_str`. The
  result is a pair only when both conversions succeed. `parse_complex` fixes the
  separator to `','` and turns the pair into a complex number.
- **`escape_time`** — start from `z = 0`. For each iteration index `i` below
  `limit`, first test `|z|² > 4` and answer `Some(i)` if it holds. Otherwise
  update `z := z·z + c`. Answer `None` when the limit is exhausted.

Files and modules:

| file | module | contents |
|---|---|---|
| `wrappers.dfy` | `Wrappers` | `Option`, the program's only failure signal |
| `text.dfy` | `Text` | Rust's `str::trim` and `str::find` for a character |
| `pair_parser.dfy` | `PairParser` | `ParsePair`, `ParseComplex` and their lemmas |
| `complex_plane.dfy` | `ComplexPlane` | complex numbers over exact reals |
| `escape_time.dfy` | `EscapeTime` | iterates `Iter`, reference `FirstEscape`, loop method `EscapeTime` |
| `decimal.dfy` | `Decimal` | small decimal converters used to instantiate the parser |
| `worked_examples.dfy` | `WorkedExamples` | the documented inputs, proved |

The string-to-value conversion `T::from_str` is a parameter,
`conv: string -> Option<T>`: any total function from text to an optional value.
`escape_time` is modelled twice. `FirstEscape` is a reference definition: the
least index below the limit whose test fires, built by raising the limit one
step at a time. `EscapeTime` is the source's `for` loop, proved equal to it.

## Model

| member | source | states |
|---|---|---|
| Text.Find | src/main.rs:13 | `None` exactly when the character does not occur; otherwise the index of an occurrence with none before it |
| Text.FindFirst | src/main.rs:13 | in `left + [c] + right` with `c` not in `left`, the search stops right after `left`, whatever `right` holds |
| Text.TrimStart | src/main.rs:14 | the result is a suffix of the input, everything dropped is whitespace, and it does not start with whitespace |
| Text.TrimEnd | src/main.rs:14 | the result is a prefix of the input, everything dropped is whitespace, and it does not end with whitespace |
| Text.Trim | src/main.rs:14 | the result is a slice of the input with only whitespace cut off either side, and has no whitespace at either end |
| Text.TrimPadded | src/main.rs:14 | trimming `p + a + q`, with whitespace `p`, `q` and `a` already trimmed, gives back exactly `a` |
| Text.TrimTrimmed | src/main.rs:14 | text without surrounding whitespace is unchanged by trimming |
| PairParser.ParsePair | src/main.rs:12-20 | no separator means `None`; a pair comes only from a first separator whose trimmed left and right fields both convert to its two components |
| PairParser.ParsePairAtFirstSeparator | src/main.rs:13-16 | for `left + [sep] + right` with `sep` not in `left`, the result is the conversions of trimmed `left` and trimmed `right` when both succeed, else `None`; later separators stay in the right field and there is never a partial result |
| PairParser.ParsePairTrimmedFields | src/main.rs:13-16 | fields without surrounding whitespace are converted as they stand |
| PairParser.ParsePairSucceeds | src/main.rs:13-18 | the result is a pair exactly when some position holds the first separator and both fields around it convert |
| PairParser.ParsePairRoundTrip | src/main.rs:5-15 | `ws1 + a + ws2 + sep + ws3 + b + ws4` parses back to `(conv(a), conv(b))` for separator-free trimmed fields that convert, under any whitespace padding |
| PairParser.ParseComplex | src/main.rs:22-28 | a complex number exactly when the comma pair parses, with the left value as real part and the right value as imaginary part |
| PairParser.ParseComplexFields | src/main.rs:22-28 | `re + "," + im` reads as `re + im·i` when both trimmed fields convert, and as nothing otherwise |
| ComplexPlane.NormSqr | src/main.rs:40 | the squared magnitude is never negative |
| EscapeTime.FirstEscape | src/main.rs:30-36 | a `Some(i)` answer is the least index below the limit whose iterate lies outside radius 2; `None` means no index below the limit escapes |
| EscapeTime.FirstEscapeIsLeast | src/main.rs:30-45 | the answer is `Some(i)` if and only if `i` is the least escaping index below the limit, and `None` if and only if no index below the limit escapes |
| EscapeTime.EscapeTime | src/main.rs:37-46 | the loop, testing before updating, returns the least escaping index below the limit or `None` when there is none, and agrees with `FirstEscape` |
| EscapeTime.EscapeIndexPositive | src/main.rs:38-41 | a zero limit gives `None`; any answer `Some(i)` has `0 < i < limit`, because the test at index 0 sees `z = 0` |
| EscapeTime.FirstEscapeStable | src/main.rs:39-45 | an escape index found under one limit is the answer under every larger limit |
| EscapeTime.OriginFixed | src/main.rs:38-43 | every iterate of `c = 0` is 0 |
| EscapeTime.OriginNeverEscapes | src/main.rs:37-45 | `c = 0` gives `None` for every limit |
| EscapeTime.EscapeOfTwo | src/main.rs:37-46 | for `c = 2` and limit 10 the answer is `Some(2)`: the iterates are 0, 2, 6 and `|2|² = 4` does not exceed 4 |
| WorkedExamples.SizeExampleWith | src/main.rs:5 | `"400x600"` with separator `'x'` parses to `(400, 600)` under any converter reading `"400"` and `"600"` as those numbers |
| WorkedExamples.SizeExample | src/main.rs:5 | `"400x600"` parses to `(400, 600)` with the decimal converter |
| WorkedExamples.PaddedExampleWith | src/main.rs:14 | `" 3 , 4 "` parses to `(3, 4)`: the padding around both fields is ignored |
| WorkedExamples.PaddedExample | src/main.rs:14 | `" 3 , 4 "` parses to `(3, 4)` with the decimal converter |
| WorkedExamples.ExtraSeparatorExampleWith | src/main.rs:13-16 | `"1,2,3"` is `None` under any converter that rejects `"2,3"`, since only the first comma splits |
| WorkedExamples.ExtraSeparatorExample | src/main.rs:13-16 | `"1,2,3"` is `None` with the decimal converter |
| WorkedExamples.ComplexExampleWith | src/main.rs:5 | `"1.0,0.5"` reads as the complex number `1.0 + 0.5i` |
| WorkedExamples.ComplexExample | src/main.rs:22-28 | `"1.0,0.5"` reads as `1.0 + 0.5i` with the decimal converter |
| WorkedExamples.NegativeComplexExampleWith | src/main.rs:22-28 | `"1.5,-0.3"` reads as `1.5 - 0.3i` |
| WorkedExamples.NegativeComplexExample | src/main.rs:22-28 | `"1.5,-0.3"` reads as `1.5 - 0.3i` with the decimal converter |
| WorkedExamples.GarbageExample | src/main.rs:22-28 | `"garbage"` has no comma and is never a complex number, whatever the converter |

## Left out

- `main` (src/main.rs:48-50) only prints a greeting; it is I/O.
- IEEE-754 `f64` arithmetic is not modelled. Complex numbers are pairs of exact `real`s, so there is no rounding, no overflow to infinity and no NaN. With NaN the source's `norm_sqr() > 4.0` is false and iteration runs to the limit; the model only verifies the loop logic.
- `num::complex::Complex` is replaced by a two-field datatype with the textbook product and sum.
- The real `FromStr` implementations are library code. Conversion is a parameter of the model. The `Decimal` converters accept only digits, an optional point and an optional leading minus, so they are not Rust's `u32`/`f64` parsers (no `+`, exponents, `inf` or `NaN`).
- Byte-offset slicing is not modelled. The source requires an ASCII separator, so `index + 1` skips exactly the separator; the model splits by character index.
- The `usize` width of `limit` and of the answer is not modelled; both are unbounded naturals. The loop never counts past `limit`, so no wrap-around can occur.
- PairParser.ParsePairRoundTrip: also requires the separator not to occur in the left padding `ws1`/`ws2`. When the separator is itself whitespace, padding that contains it would split the string earlier, so the round trip does not hold there.
- Whitespace is the Unicode White_Space set that Rust's `char::is_whitespace` uses. No normalisation or encoding is modelled.

## Notes

- The c = 2 case: `z` takes the values 0, 2 and 6 at indices 0, 1 and 2. `|2|² = 4` is not above 4, so the code answers `Some(2)`, not `Some(1)`. `EscapeTime.EscapeOfTwo` proves the answer the code gives.
