# ArgMatcher: the match accumulator of a command-line parser

This project models `ArgMatcher`, the accumulator that the clap command-line
parser drives while it walks its tokens, and proves properties of it.
For each recognised argument it keeps a match record: how many times the
argument occurred and which raw values were attached to it. It also answers
`needs_more_vals`: should the parser keep taking tokens as values of the
current argument?

Modules:

- `Matches` (`matches.dfy`) holds the values. `MatchedArg` is a record with
  `occurs` and `vals`. `ArgMatches` is the result set of one level: the
  record table `args`, an optional `usage` string and an optional
  `SubCommand`. A `SubCommand` is a name plus its own `ArgMatches`.
  The source keys values 1, 2, 3, … in a `VecMap`, and the only insert is at
  `len + 1`. So `vals` is a sequence, and the value with key `k` is
  `vals[k - 1]`; `Val` looks a value up by its 1-based key.
- `Records` (`records.dfy`) holds the in-place updates of the record table,
  written as functions from the old table to the new one.
  The helper `Entry(m, a, d)` is the record that `entry(a).or_insert(d)`
  returns: the existing record, or `d`. The insertion is `AddVal`'s own map
  update.
  `AddVals` and `IncOccurrences` are the repeated forms of the updates.
- `Policy` (`policy.dfy`) holds the value-consumption policy
  `NeedsMoreVals`. It is a function of the record table, because that table
  is all that `needs_more_vals` reads from the matcher. It also holds the
  argument specification `ArgSpec`: name, `numVals`, `maxVals`, `minVals`
  and the `multiple` flag.
- `ArgMatchers` (`arg_matcher.dfy`) holds the class `ArgMatcher`. Its one
  field `matches: ArgMatches` mirrors the source's `ArgMatcher(pub ArgMatches)`.
  Each mutating method is proved to set `matches` to the old value with one
  field replaced. `Remove`, `RemoveAll` and `Insert` replace the record table
  by a plain map expression (the old table minus keys, or with one key set).
  `IncOccurrenceOf`, `IncOccurrencesOf` and `AddValTo` replace it by the
  matching `Records` function. The queries are functions that read the
  object.

The occurrence count of a freshly constructed record (`MatchedArg::new()`)
comes from a file that is not part of this model. It is the constant
`FreshOccurs`, which has no definition, so every proof holds whatever its
value is. `add_val_to` does not use that constructor: it creates a missing
record with 0 occurrences itself (src/args/arg_matcher.rs:73-76).
`FirstSightingOrder` shows the consequence. On an argument's first sighting,
counting first and then attaching a value leaves `FreshOccurs` occurrences.
Attaching first and then counting leaves 1.

Two behaviours of the code that are easy to misread:

- `insert` replaces an existing record with a fresh one. It does not only
  create a record when none exists (src/args/arg_matcher.rs:37).
- With an exact count and multiple occurrences, a record that exists but
  holds no values answers "no more values", because 0 mod n is 0. The answer
  at zero values is "yes" only while no record exists. A first occurrence
  creates the record, so it switches that answer off
  (`GroupsOfTwoAfterOccurrence`).

## Model

| member | source | states |
|---|---|---|
| `Records.IncOccurrence` | src/args/arg_matcher.rs:55-63 | a recorded argument gains exactly one occurrence and keeps its values; an unrecorded one gets the fresh record, with no increment; the key set gains only `a`, and every other record is unchanged |
| `Records.IncOccurrences` | src/args/arg_matcher.rs:65-70 | applying the single update to each name in order gives the following. The key set is the old keys plus the listed names. A recorded argument gains one occurrence per listing. A new argument listed k times ends with `FreshOccurs + k - 1` occurrences and no values |
| `Records.AddVal` | src/args/arg_matcher.rs:72-79 | the record of `a` gets one value more, and `v` is stored under key `old_len + 1`. Every other key of that record, and its `occurs`, are unchanged. A missing record is first created with 0 occurrences and no values. All other records are untouched |
| `Records.AddVals` | src/args/arg_matcher.rs:72-79 | after repeated calls, the record's values are the earlier values followed by the new ones in call order. Its `occurs` is the old count, or 0 for a new record. Other records are untouched |
| `Records.ValuesInCallOrder` | src/args/arg_matcher.rs:77-78 | the i-th value attached by repeated calls is found under key `old_len + i + 1` |
| `Records.FirstSightingOrder` | src/args/arg_matcher.rs:55-79 | on a first sighting, counting then attaching leaves `FreshOccurs` occurrences; attaching then counting leaves 1 |
| `Policy.NeedsMoreVals` | src/args/arg_matcher.rs:81-103 | the answer is "yes" whenever the argument has no record, whatever its specification says |
| `Policy.GroupsOfNumVals` | src/args/arg_matcher.rs:86-90 | with an exact count `n` and multiple occurrences, and `q * n + j` values held (`j < n`), more values are needed if and only if `j != 0` |
| `Policy.GroupsOfTwoAfterOccurrence` | src/args/arg_matcher.rs:86-90 | with `n = 2`, multiple occurrences and a fresh occurrence record, the answers for 0 to 4 values are no, yes, no, yes, no |
| `Policy.ExactCountFromScratch` | src/args/arg_matcher.rs:90-92 | with an exact count `n` and a single occurrence, starting from no record: more values are needed if and only if none are attached yet or their number differs from `n`. So the answer is "yes" again past `n` |
| `Policy.MaxValsFromScratch` | src/args/arg_matcher.rs:93-95 | with a maximum `m` and no exact count, starting from no record: more values are needed if and only if at most `m` are attached. The cap is inclusive, so the parser is asked once more at `m` |
| `Policy.MinValsOnlyNeverStops` | src/args/arg_matcher.rs:96-99 | with only a minimum set, the answer is "yes" whatever is recorded |
| `Policy.UnconstrainedFromScratch` | src/args/arg_matcher.rs:100 | with no count set, starting from no record: more values are needed if and only if none are attached yet or the argument allows multiple occurrences |
| `Policy.ExactCountAfterOccurrence` | src/args/arg_matcher.rs:90-92 | with an exact count `n` and a single occurrence, after a first occurrence created an empty record: more values are needed if and only if the number attached differs from `n` |
| `Policy.MaxValsAfterOccurrence` | src/args/arg_matcher.rs:93-95 | with a maximum `m` and no exact count, after a first occurrence created an empty record: more values are needed if and only if at most `m` are attached |
| `Policy.UnconstrainedAfterOccurrence` | src/args/arg_matcher.rs:100 | with no count set, after a first occurrence created an empty record: more values are needed if and only if the argument allows multiple occurrences, whatever is attached |
| `Policy.ZeroCountDependsOnPath` | src/args/arg_matcher.rs:55-102 | with an exact count of 0 and a single occurrence, the parser is never told to stop when values create the record, and is told to stop at once when a first occurrence creates it |
| `Policy.NumValsTakesPrecedence` | src/args/arg_matcher.rs:86-99 | when an exact count is set, changing the maximum or minimum does not change the answer |
| `Policy.MaxValsTakesPrecedence` | src/args/arg_matcher.rs:93-99 | when a maximum and no exact count are set, changing the minimum does not change the answer |
| `Policy.OnlyValueCountMatters` | src/args/arg_matcher.rs:85-100 | the answer depends only on whether the argument has a record and, if so, how many values it holds. Occurrence counts and other records do not matter |
| `ArgMatchers.ArgMatcher.constructor` | src/args/arg_matcher.rs:18-23 | a new matcher has no records, no usage and no subcommand |
| `ArgMatchers.ArgMatcher.Get` | src/args/arg_matcher.rs:27 | finds a record exactly when `a` is a key, and then returns that key's record |
| `ArgMatchers.ArgMatcher.Contains` | src/args/arg_matcher.rs:39 | holds exactly when `Get` finds a record |
| `ArgMatchers.ArgMatcher.IsEmpty` | src/args/arg_matcher.rs:41 | holds exactly when `Contains` is false for every name |
| `ArgMatchers.ArgMatcher.Remove` | src/args/arg_matcher.rs:29 | deletes exactly key `a`, after which `Contains(a)` is false. It changes nothing if `a` was absent. Usage and subcommand are unchanged |
| `ArgMatchers.ArgMatcher.RemoveAll` | src/args/arg_matcher.rs:31-35 | the table becomes the old table minus every listed name: the listed keys go, and the other records survive unchanged. Nothing else changes |
| `ArgMatchers.ArgMatcher.Insert` | src/args/arg_matcher.rs:37 | `a` is mapped to the fresh record, overwriting any record it had, after which `Contains(a)` holds. Nothing else changes |
| `ArgMatchers.ArgMatcher.Usage` | src/args/arg_matcher.rs:43 | the usage string is overwritten; records and subcommand are unchanged |
| `ArgMatchers.ArgMatcher.Iter` | src/args/arg_matcher.rs:53 | returns each (name, record) pair of the table exactly once, in no particular order |
| `ArgMatchers.ArgMatcher.ArgNames` | src/args/arg_matcher.rs:45 | returns every recorded name exactly once and nothing else, in no particular order |
| `ArgMatchers.ArgMatcher.Subcommand` | src/args/arg_matcher.rs:49 | the subcommand is overwritten, after which `SubcommandName` is exactly its name. Records and usage are unchanged |
| `ArgMatchers.ArgMatcher.SubcommandName` | src/args/arg_matcher.rs:51 | returns a name exactly when a subcommand is recorded, and then that subcommand's name |
| `ArgMatchers.ArgMatcher.IncOccurrenceOf` | src/args/arg_matcher.rs:55-63 | performs exactly `Records.IncOccurrence` on the table, and nothing else changes |
| `ArgMatchers.ArgMatcher.IncOccurrencesOf` | src/args/arg_matcher.rs:65-70 | the loop performs exactly `Records.IncOccurrences`, which applies the single update to each name in order. Nothing else changes |
| `ArgMatchers.ArgMatcher.AddValTo` | src/args/arg_matcher.rs:72-79 | performs exactly `Records.AddVal` on the table (get-or-insert, then append at `len + 1`), and nothing else changes |

## Left out

- The `debugln!` tracing calls: diagnostic output, with no effect on behaviour.
- Rust lifetimes and borrowing. `get_mut` hands out a mutable reference. The model has only `Get`; the one change made through that reference, `occurs += 1`, is part of `IncOccurrenceOf`.
- The `Entry` handle returned by `entry`. It is used only as `entry(…).or_insert(…)`, which is modelled inside `AddVal` and `AddValTo`: the helper `Records.Entry` gives the record `or_insert` returns, and the map update that follows performs the insertion.
- `OsStr`/`OsString` encoding: values are opaque `string`s.
- The `VecMap` representation: values are a sequence, as described above. This is exact because the only insert is at `len + 1`.
- The `u64` casts of the value count: counts are unbounded `nat`s. A length can never reach 2^64, so nothing is lost.
- `HashMap` iteration order: `Iter` and `ArgNames` return the entries in an arbitrary order. Only "each exactly once, covering the key set" is stated.
- `MatchedArg::new()` is in a file that is not part of this model. Its occurrence count is the undefined constant `FreshOccurs`, and its value container is assumed empty.
- `ArgMatches::default()` and `ArgMatches::subcommand_name()` are in files that are not part of this model. They are taken to build an empty result set and to return the recorded subcommand's name.
- The `AnyArg` trait and `ArgSettings`: replaced by the plain datatype `ArgSpec`.
- Policy.NeedsMoreVals: requires `NoZeroRemainder`, i.e. no exact count of 0 together with multiple occurrences when a record exists. The source panics on that remainder by zero, and the panic is not modelled.
- `needs_more_vals` is not a member of the class. It reads only the record table, so it is `Policy.NeedsMoreVals(matcher.matches.args, o)`.
- The `Into<ArgMatches>` conversion: it only unwraps; the finished result is the `matches` field.
