# Glob trimming in buildkite/interpolate

This project models the pattern-removal expansions of the interpolator:
`${v#p}`, `${v##p}`, `${v%p}` and `${v%%p}` (POSIX.1-2017, Shell Command
Language, section 2.6.2 "Parameter Expansion"), as implemented in
`substitutions.go`.

- `Substitutions` (substitutions.dfy) holds the model.
  - The glob matcher `path.Match(pattern, name)` belongs to a library that is not part of this model. Every operation takes it as a parameter `glob: Matcher`, which answers `Ok(matched)` or `BadPattern`. Every property holds for every such matcher.
  - `trimShortest`, `trimLongest` and `reverse` are loops in the source. They are methods here (`TrimShortest`, `TrimLongest`, `Reverse`), each proved equal to a reference function (`ShortestTrim`, `LongestTrim`, `Reversed`).
  - The declarative properties are the ensures of those reference functions: the shortest or longest matching candidate prefix is removed, and matcher errors are handled as the scan order dictates.
  - The four `trim*Prefix`/`trim*Suffix` wrappers are functions built from the reference functions, because a function cannot call a method.
- `StarGlob` (star_glob.dfy) supplies concrete matchers. `Star` treats `*` as any run of non-`/` characters and every other character literally. With it, the four `VERSION=123.55.66` cases of the test suite are proved. A second matcher shows how the two scans treat an error differently.

Behaviour of the code, as modelled:

- Only the non-empty prefixes `s[..k]`, `1 <= k <= |s|`, are offered to the matcher. The empty prefix is never tried.
  - An empty value is therefore returned unchanged.
  - An empty match is ignored, so `#` and `%` remove the shortest NON-EMPTY matching part. For example, `*` on `abc` removes `a`, where POSIX would remove nothing. The code is followed here (`EmptyPrefixNeverTried`).
- `trimShortest` scans every candidate. A matcher error on any candidate returns the value unchanged, even when a match was already found.
- `trimLongest` stops at the first match, trying the longest candidate first. Only errors on longer candidates matter.
- A malformed pattern leaves the value unchanged only when the scan actually meets the matcher's error. `trimShortest` meets every candidate; `trimLongest` meets only the candidates down to its first match.

## Model

| member | source | states |
|---|---|---|
| `Substitutions.LeastMatch` | substitutions.go:46-56 | the result is the smallest matching candidate length at or above `lo`, and `None` exactly when no candidate there matches |
| `Substitutions.GreatestMatch` | substitutions.go:66-76 | the result is the largest matching candidate length at or below `hi`, and `None` exactly when no candidate up to `hi` matches |
| `Substitutions.CleanScan` | substitutions.go:47-53 | when no candidate longer than `lo` is a matcher error, each of them gets the verdict `Ok(MatchAt(...))` |
| `Substitutions.ShortestTrim` | substitutions.go:44-63 | the result is a suffix of `s`. When it differs from `s`: no candidate is an error, the removed part is the shortest matching candidate, and every shorter candidate answers `Ok(false)`. Conversely, with no error and a least match `k`, the result is `s[k..]` |
| `Substitutions.LongestTrim` | substitutions.go:65-79 | the result is a suffix of `s`. When it differs from `s`: the removed part is the longest matching candidate, no longer candidate is an error, and every longer candidate answers `Ok(false)`. Conversely, with a greatest match `k` and no error above it, the result is `s[k..]` |
| `Substitutions.TrimShortest` | substitutions.go:44-63 | the descending scan that keeps the last match seen and gives up on an error returns exactly `ShortestTrim` |
| `Substitutions.TrimLongest` | substitutions.go:65-79 | the descending scan with early return on error or match returns exactly `LongestTrim` |
| `Substitutions.Reversed` | substitutions.go:81-87 | reversal preserves length |
| `Substitutions.ReversedIndex` | substitutions.go:83-85 | position `i` of the reversal holds `s[|s|-1-i]` |
| `Substitutions.ReversedInvolution` | substitutions.go:81-87 | reversing twice gives back the original string |
| `Substitutions.ReversedTake` | substitutions.go:21-23 | the first `k` characters of the reversal are the reversal of the last `k` characters |
| `Substitutions.ReversedDrop` | substitutions.go:21-23 | reversing the reversal with its first `k` characters dropped gives the first `|s|-k` characters |
| `Substitutions.ReversedSuffixTrim` | substitutions.go:21-23 | if `t` is a suffix of the reversal of `s`, reversing `t` gives a prefix of `s`, and it equals `s` exactly when `t` is the whole reversal |
| `Substitutions.ReversedSlices` | substitutions.go:21-23 | for every split point `k`: the suffix `s[k..]` reversed is the first `|s|-k` characters of the reversal, and the reversal with `k` characters dropped, reversed back, is `s[..|s|-k]` |
| `Substitutions.TrimPrefix` | substitutions.go:59 | Go's `strings.TrimPrefix`: when `prefix` starts `s`, `prefix + r == s`; otherwise `r == s` |
| `Substitutions.Reverse` | substitutions.go:81-87 | the two-index in-place swap over a character buffer returns exactly `Reversed(s)` |
| `Substitutions.TrimShortestPrefix` | substitutions.go:12-17 | with no pattern argument `s` is returned. Otherwise the result is a suffix of `s`. If it differs, no candidate prefix was a matcher error, the removed prefix matches `args[0]`, and every shorter non-empty prefix answers `Ok(false)`. Conversely, when no candidate is an error and `k` is the shortest matching length, exactly `s[k..]` is returned |
| `Substitutions.TrimLongestPrefix` | substitutions.go:28-33 | with no pattern argument `s` is returned. Otherwise the result is a suffix of `s`. If it differs, the removed prefix matches `args[0]`, no longer prefix is a matcher error, and every longer prefix answers `Ok(false)`. Conversely, when `k` is the longest matching length and no longer candidate is an error, exactly `s[k..]` is returned |
| `Substitutions.TrimShortestSuffix` | substitutions.go:19-26 | with no pattern argument `s` is returned. Otherwise the result is a prefix of `s`. If it differs, no reversed candidate was a matcher error, the removed suffix, reversed, matches the reversed pattern, and every shorter non-empty suffix, reversed, answers `Ok(false)`. Conversely, when no reversed candidate is an error and `k` is the shortest length whose suffix, reversed, matches, exactly `s[..|s|-k]` is returned |
| `Substitutions.TrimLongestSuffix` | substitutions.go:35-42 | with no pattern argument `s` is returned. Otherwise the result is a prefix of `s`. If it differs, the removed suffix, reversed, matches the reversed pattern, no longer reversed candidate is a matcher error, and every longer suffix, reversed, answers `Ok(false)`. Conversely, when `k` is the longest length whose suffix, reversed, matches and no longer reversed candidate is an error, exactly `s[..|s|-k]` is returned |
| `Substitutions.OnlyFirstPattern` | substitutions.go:13-14 | each of the four expansions gives the same result on `args` as on `args[..1]` |
| `StarGlob.StarDot` | interpolate_test.go:302-305 | under the test matcher, `*.` matches exactly the names that end in `.` and contain no `/` |
| `StarGlob.ShortestSuffixExample` | interpolate_test.go:302 | `${VERSION%.*}` on `123.55.66` gives `123.55` |
| `StarGlob.LongestSuffixExample` | interpolate_test.go:303 | `${VERSION%%.*}` on `123.55.66` gives `123` |
| `StarGlob.ShortestPrefixExample` | interpolate_test.go:304 | `${VERSION#*.}` on `123.55.66` gives `55.66` |
| `StarGlob.LongestPrefixExample` | interpolate_test.go:305 | `${VERSION##*.}` on `123.55.66` gives `66` |
| `StarGlob.EmptyPrefixNeverTried` | substitutions.go:46 | since the loop never offers the empty prefix, an empty match is ignored: `#` with pattern `*` on `abc` gives `bc` |
| `StarGlob.ErrorBelowMatch` | substitutions.go:49-51 | a matcher error on a candidate shorter than the longest match makes `#` return the value unchanged, while `##` still removes the longest match |

## Left out

- The glob matcher `path.Match` is not part of this model. It is a parameter, and only the test double `StarGlob.Star` is defined. That double handles `*` and literal characters only. `?`, character classes and bad-pattern detection are not modelled.
- Bytes versus runes: `trimShortest`/`trimLongest` index the string by bytes, while `reverse` works on runes. The model uses one `seq<char>` for both, so it matches the source only for single-byte (ASCII) text. Reversing a multi-byte value rune by rune and then slicing it by bytes is not captured.
- The wrappers are functions over the reference functions. They do not call the methods, and no member composes the methods `Reverse` and `TrimShortest`/`TrimLongest` the way `trimShortestSuffix`/`trimLongestSuffix` do. The methods are proved equal to the reference functions, which gives the same result.
- The lexer/parser, the evaluator, identifier extraction, substring arithmetic and the environment adapters are not part of this model. Their source is not among the files modelled.
- The command-line front end in cmd/interpolate/main.go only reads lines and writes results. It is I/O and is left out.
