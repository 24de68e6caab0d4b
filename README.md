# opt — a verified model of a Go command-line option parser

The Go package `opt` parses command-line arguments against a table of
option descriptors. Each descriptor (`Desc`) has a short name, a long name,
an argument type and a help text. `Parse` walks the arguments left to right:

- `--` ends option processing;
- a token that starts with `-` is a short cluster (`-abc`, `-ovalue`,
  `-o value`) or a long option (`--name`, `--name=value`, `--name value`);
- every other token is a positional argument.

The occurrences found are then merged by `join`. Each descriptor appears
once, in order of first occurrence, and an argument-taking option collects
the values of all its occurrences. Accessors (`Bool`, `Int`, `Ints`,
`IntOr`, `String`, `Strings`, `StringOr`) look an option up by its short or
long name. `Usage` renders the descriptor table as aligned help lines,
sorted by short name followed by long name.

The Dafny modules follow the Go file `opt.go`:

- `OptTypes` (`opt_types.dfy`): the data model. A descriptor is referred to
  by its index in the table, so equal indices play the part of Go's equal
  `*Desc` pointers. Argument values are `IntV` or `StrV`. Errors are a
  datatype of error kinds that carry the offending name. An accessor that
  would panic returns `Panic`.
- `Strconv` (`strconv.dfy`): the decimal syntax `strconv.Atoi` accepts,
  with its value, and `Itoa` as its inverse.
- `OptParse` (`opt_parse.dfy`):
  - `Parse`, `ParseDashed` and `DashesNum` are the loops of the source;
    each is proved equal to a recursive specification (`ParseSpec`/`Scan`,
    `Dashed`/`Cluster`/`Long`, `DashCount`);
  - `FindDesc` and `ParseArg` are functions.
- `OptJoin` (`opt_join.dfy`): `Join`, the nested loop of `join`, is proved
  equal to `JoinSpec`. `JoinCorrect` proves what `JoinSpec` promises:
  distinct descriptors, exactly the ones that occur, first-seen order, and
  every value of every occurrence in input order.
- `ParseProperties` (`parse_properties.dfy`): what the parser promises,
  stated for all inputs:
  - the shape of the short and long forms and their errors;
  - scanning is compositional: any prefix that scans on its own, options
    and positionals interleaved, contributes its results in front of the
    rest's; from this follow positional order, `--` and aborts;
  - the equivalence `--name=v` ≡ `--name v` and `-cv` ≡ `-c v`;
  - the merged result.
- `OptAccess` (`opt_access.dfy`): the accessors. `Ints` and `Strings` keep
  the source's loop that fills a fresh array.
- `AccessProperties` (`access_properties.dfy`): the accessors applied to a
  parse result, related back to the occurrences on the command line.
- `OptUsage` (`opt_usage.dfy`):
  - `Usage` copies the table, sorts the copy in place, measures the flag
    column, then writes the rows;
  - `SortByKey` and `SortedCopy` are proved to yield a sorted permutation;
    the two loops that follow are proved against `Render`.
- `UsageProperties` (`usage_properties.dfy`):
  - two sorted permutations of a table with distinct keys are equal, so the
    output does not depend on the sort algorithm;
  - the line-by-line layout of `Render`;
  - the `TestUsage` example.
- `ParseExamples` (`parse_examples.dfy`): the `TestDoubleDash`,
  `TestTypeInt` and `TestString` examples of `opt_test.go`.

Two behaviours of the code are kept as written:

- `IntOr` and `StringOr` return the default whenever the option has no
  value. That covers an absent option, and also a present no-argument
  option, because both go through `arg`, which returns nil for an empty
  value list.
- A token such as `--=v` looks up the empty name. The empty name matches
  the first descriptor whose short or long name is empty.

## Model

| member | source | states |
|---|---|---|
| OptParse.Parse | opt.go:357-382 | the loop over the arguments returns exactly `ParseSpec`: the scan's occurrences merged by join, and its positionals, or the first error |
| OptParse.ParseDashed | opt.go:387-483 | the switch on the dash count returns exactly `Dashed` for the dashed token and what follows it |
| OptParse.Dashed | opt.go:387-483 | a successful dashed token consumes one or two tokens, never more than are present, and yields occurrences of table descriptors, each with one value exactly when the descriptor takes an argument |
| OptParse.Cluster | opt.go:397-437 | a successful short cluster consumes the next token only when that token exists, and its occurrences are well shaped |
| OptParse.SplitEq | opt.go:442-443 | strings.SplitN at '=': the name holds no '='; without a value the name is the whole text, otherwise text == name + "=" + value |
| OptParse.Long | opt.go:439-476 | a successful long option yields one well-shaped occurrence of the descriptor the name before "=" selects, consuming one or two tokens that are present; a failure is one of the four long-form errors for that name |
| OptParse.FindDesc | opt.go:535-543 | the result names a descriptor whose short or long name is `name` and no earlier descriptor does; None means no descriptor has that name |
| OptParse.DashCount | opt.go:547-559 | the count is a prefix of dashes followed by a non-dash character or the end of the string |
| OptParse.DashesNum | opt.go:547-559 | the loop returns exactly `DashCount` |
| OptParse.ParseArg | opt.go:487-508 | ArgNone gives no value; ArgString gives the text itself; ArgInt succeeds exactly on a decimal literal, with Atoi's value, and otherwise fails with an invalid-argument error for that name |
| OptParse.ScanShaped | opt.go:357-382 | every occurrence the scan collects refers to the table and carries one value exactly when its descriptor takes an argument |
| Strconv.Atoi | opt.go:497-501 | succeeds exactly on an optional sign followed by one or more decimal digits, with the signed value of those digits |
| Strconv.AtoiItoa | opt.go:497-501 | every integer's decimal spelling is accepted and read back as the same integer |
| OptJoin.LastIndexOf | opt.go:515-521 | the inner loop's result: the last merged entry with that descriptor, or None when there is none |
| OptJoin.MergeEffect | opt.go:514-529 | an occurrence of a descriptor not yet merged is appended; otherwise the last entry with that descriptor gains the occurrence's values when it takes an argument, and every other entry is unchanged |
| OptJoin.Join | opt.go:511-532 | the nested loops return exactly `JoinSpec` |
| OptJoin.JoinCorrect | opt.go:511-532 | the merged list has each descriptor once, exactly those that occur, in order of first occurrence, and each entry carries the values of all occurrences of an argument-taking descriptor in input order, or the first occurrence's values for a no-argument one |
| ParseProperties.ParseMerges | opt.go:381 | Parse's positionals are the scan's; its options are the scan's occurrences joined, with all values of an argument-taking option and none for a no-argument one |
| ParseProperties.ScanPrefix | opt.go:357-379 | for any prefix that scans on its own (options and positionals in any order, no "--", no option reaching past its end), the scan of prefix + rest is the prefix's options and positionals, in order, in front of the rest's, errors of the rest included |
| ParseProperties.ScanEndMarker | opt.go:364-367 | after any prefix that scans on its own, "--" ends option processing: the result is the prefix's options, and its positionals followed by every later token verbatim |
| ParseProperties.ParseAborts | opt.go:368-372 | after any prefix that scans on its own, a failing dashed token makes the whole parse fail with its error and no partial result |
| ParseProperties.ClusterShape | opt.go:397-437 | a successful cluster resolves each character in turn, all but the last to no-argument options without values; the last either ends the cluster or takes the rest of the cluster, or the next token when it is last |
| ParseProperties.ShortForm | opt.go:396-437 | the same shape for a single-dash token |
| ParseProperties.SplitEqAt | opt.go:442-443 | a name without '=' followed by "=v" splits into that name and v |
| ParseProperties.SplitEqNone | opt.go:442-443 | a text without '=' splits into itself and no value |
| ParseProperties.LongForm | opt.go:439-476 | a successful long option yields one occurrence of the descriptor its name selects; it consumes a second token exactly when the option takes an argument and has no "="; a no-argument option has no value; an argument-taking one has the converted attached or following value |
| ParseProperties.LongEqualsOrSpace | opt.go:454-463 | for an argument-taking option, "--name=v" and "--name v" parse identically, whatever follows |
| ParseProperties.ShortAttachedOrSpace | opt.go:418-426 | for an argument-taking short option c, "-cv" and "-c v" parse identically, whatever follows |
| ParseProperties.MalformedTokens | opt.go:392-480 | a bare "-" (no cluster after the dash, lines 400-402) and a token with three or more leading dashes (the default case, lines 477-479) are invalid-format errors |
| ParseProperties.LongErrors | opt.go:446-471 | long-form errors: an unknown name, a missing value at the end of the input, a value given to a no-argument option, a value that does not convert to an integer |
| ParseProperties.ClusterFailsAt | opt.go:403-438 | a cluster that fails at a character after a run of no-argument characters fails as a whole with that error |
| ParseProperties.ClusterErrors | opt.go:407-430 | cluster errors: an unknown character, an argument-taking last character with no next token, a value that does not convert to an integer |
| OptAccess.FindOption | opt.go:266-274 | the first parsed option whose descriptor has `name` as its short or long name; None when there is none |
| OptAccess.ArgsFirst | opt.go:277-285 | the values of the first option answering to the name; none when no option answers to it |
| OptAccess.Arg | opt.go:288-296 | None exactly when the option has no values, otherwise its last value |
| OptAccess.Bool | opt.go:136-138 | true exactly when some parsed option answers to `name` |
| OptAccess.Int | opt.go:142-153 | (0, false) without values; otherwise the last value with true, or a panic when that value is not an integer |
| OptAccess.Ints | opt.go:155-169 | succeeds exactly when every value is an integer, and then returns those integers in order |
| OptAccess.IntOr | opt.go:172-179 | the default without values; otherwise the last value, or a panic when it is not an integer |
| OptAccess.String | opt.go:225-236 | ("", false) without values; otherwise the last value with true, or a panic when it is not a string |
| OptAccess.Strings | opt.go:239-253 | succeeds exactly when every value is a string, and then returns those strings in order |
| OptAccess.StringOr | opt.go:256-263 | the default without values; otherwise the last value, or a panic when it is not a string |
| AccessProperties.BoolJoined | opt.go:136-138 | on a joined list, Bool holds exactly when some occurrence answers to the name |
| AccessProperties.FoundJoined | opt.go:266-274 | on a joined list, the option found for a name is the descriptor of the first occurrence answering to it |
| AccessProperties.BoolAfterParse | opt.go:136-138 | after a successful parse, Bool(name) holds exactly when some occurrence on the command line answers to the name |
| AccessProperties.ArgsAfterParse | opt.go:277-285 | after a successful parse, the values found for a name are all values given to the first descriptor answering to it, in command-line order, or none for a no-argument option |
| AccessProperties.AbsentAfterParse | opt.go:277-285 | after a successful parse, a name no occurrence answers to has no values |
| OptUsage.LessTransitive | opt.go:120-122 | Go's string order is transitive |
| OptUsage.LessTotal | opt.go:120-122 | of two different strings, one is less than the other |
| OptUsage.SortByKey | opt.go:307 | the array ends sorted by short+long name and is a permutation of its old contents |
| OptUsage.SortedCopy | opt.go:304-307 | a sorted permutation of the caller's table; the caller's table is not changed |
| OptUsage.FlagShape | opt.go:313-331 | the flag text starts with two blanks, then the short part; " <argName>" is appended exactly when the option takes an argument |
| OptUsage.MaxLen | opt.go:335-337 | the width is at least every flag length and equals one of them, or 0 for an empty table |
| OptUsage.Row | opt.go:343-348 | a row is the flag text, blanks up to column w + 2, then the description and a newline |
| OptUsage.MeasureFlags | opt.go:312-338 | the first loop returns every flag text in order and the widest length |
| OptUsage.WriteRows | opt.go:340-351 | the second loop returns exactly `Render` of the sorted table |
| OptUsage.Usage | opt.go:303-352 | the output is `Render` of a permutation of the table sorted by short+long name |
| UsageProperties.SortedUnique | opt.go:120-122 | two sorted permutations of a table with distinct keys are equal: the order Usage prints in is determined |
| UsageProperties.RenderLayout | opt.go:309-351 | the output is its lines concatenated; no flag text is wider than the column, and one is exactly as wide |
| UsageProperties.LineLayout | opt.go:342-349 | line k is the k-th flag text, blanks up to two past the widest flag, then the k-th description and a newline |
| UsageProperties.UsageExample | opt_test.go:259-280 | any sorted permutation of the TestUsage table renders to the four expected lines |
| ParseExamples.DoubleDashExample | opt_test.go:25-39 | ["-a","A","--","-b","C"] parses to one option "a" and the positionals ["A","-b","C"] |
| ParseExamples.TypeIntExample | opt_test.go:185-205 | ["-a","1","--aaa","2","-b","3"] parses to a with [1,2] and b with [3], with no positionals |
| ParseExamples.TypeIntAccessors | opt_test.go:207-220 | on that result, Int("a") is (2, true), the values of "a" are [1, 2], IntOr("a", -1) is 2 and IntOr("c", -1) is -1 |
| ParseExamples.TypeIntInts | opt_test.go:207-211 | on that result, Ints("a") returns [1, 2] |
| ParseExamples.StringExample | opt_test.go:154-183 | ["--a-opt","A","-bB"] parses, and String gives "A" for "a" and "a-opt", and "B" for "b" and "b-opt" |

## Left out

- ArgFloat, `parseArg`'s float branch and the accessors `Float`, `Floats` and `FloatOr` (opt.go:183-221, 491-496): floating point is not modelled.
- Strconv.Atoi: does not model the range check of Go's `int`; every decimal literal converts, where Go rejects a value beyond 64 bits with a range error.
- Go's `int` width is not modelled anywhere else either; integers are unbounded.
- `strings.Split(a[1:], "")` splits a cluster into UTF-8 runes; the model splits a `string` into characters.
- `len(s)` in `Usage` counts UTF-8 bytes; the model counts characters. The two agree on ASCII tables.
- OptUsage.SortByKey: an insertion sort stands in for `sort.Sort`. Only a sorted permutation is promised, which is all `sort.Sort` promises. For keys that are not distinct, the order of equal keys is unspecified, as in Go.
- The `bytes.Buffer` writes in `Usage` are string concatenation, and each flag text is built by the `Flag` function rather than by successive `+=`.
- `join` merges in place through shared `*Option` pointers. The model works on values, so aliasing between the input and the output list is not captured; the resulting values are the same.
- Descriptors are compared by index. A table that holds the same `*Desc` pointer twice, where two indices would stand for one descriptor, is not modelled.
- `ArgType` is a closed datatype of the three declared kinds. In Go it is an `int`, and a descriptor with any other value takes an argument in `parseDashed`, shows " <ArgName>" in `Usage`, and fails in `parseArg`'s default branch (opt.go:505-506) with "argument not allowed"; such descriptors are not modelled.
- Error messages are not modelled, only the error kinds and the names they carry.
- The unreachable `case 0` of `parseDashed` (opt.go:393-395) is kept as the `NotAnOption` error; `Parse` never reaches it.
- The redundant nil check (opt.go:450-452) and the dead assignment `name = a[2:]` (opt.go:473) have no effect and are not modelled.
- OptAccess.Ints and OptAccess.Strings: for an absent option Go returns an empty non-nil slice and the model an empty sequence. A panic is the `Panic` outcome, not an unwinding.
- The package documentation example and the program around it (opt.go:1-68) do I/O and are not modelled.
- `TestShort`, `TestShortArgument`, `TestLong`, `TestLongArgument`, `TestBool` and `TestTypeFloat` are not restated as example lemmas. The general lemmas about clusters, long options and `Bool` cover the first five; floats are not modelled.
