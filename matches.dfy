/**
 * The values the argument accumulator works on: one match record per
 * recognised argument, and the result set of one command-line level
 * (top level or one subcommand) that holds those records.
 */
module Matches {

  datatype Option<+T> = None | Some(value: T)

  /**
   * Everything learned about one argument during a parse: how often it
   * occurred and the raw values attached to it. The source keeps the values
   * in a map keyed 1, 2, 3, ... that only ever grows at key `len + 1`; here
   * the value with key `k` is `vals[k - 1]` (see `Val`).
   */
  datatype MatchedArg = MatchedArg(occurs: nat, vals: seq<string>)

  /**
   * The occurrence count that a freshly constructed record starts with.
   * Its constructor is not part of this model, so the value is left open:
   * every property below holds whatever it is.
   */
  const FreshOccurs: nat

  /** The record built by the record constructor: the open count, no values. */
  const Fresh: MatchedArg := MatchedArg(FreshOccurs, [])

  /** The record `add_val_to` creates for an argument not seen before. */
  const Empty: MatchedArg := MatchedArg(0, [])

  /** The value stored under the 1-based key `key`, if any. */
  function Val(ma: MatchedArg, key: int): Option<string>
  {
    if 1 <= key <= |ma.vals| then Some(ma.vals[key - 1]) else None
  }

  /** The records of one level, keyed by argument name. */
  type Args = map<string, MatchedArg>

  /** The outcome of matching one level of the command line. */
  datatype ArgMatches = ArgMatches(
    args: Args,
    usage: Option<string>,
    subcommand: Option<SubCommand>)

  /** An invoked subcommand: its name and the matches of its own level. */
  datatype SubCommand = SubCommand(name: string, matches: ArgMatches)

  /** The result set every parse starts from: no records, no usage, no subcommand. */
  const Default: ArgMatches := ArgMatches(map[], None, None)
}
