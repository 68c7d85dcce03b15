/**
 * The value-consumption policy: after a value has been attached to an
 * argument, should the parser keep reading tokens as values of it?
 */
module Policy {
  import opened Matches
  import opened Records

  /**
   * What the policy reads from an argument's specification: its name, the
   * exact, maximum and minimum value counts (each optional) and whether it
   * may occur several times.
   */
  datatype ArgSpec = ArgSpec(
    name: string,
    numVals: Option<nat>,
    maxVals: Option<nat>,
    minVals: Option<nat>,
    multiple: bool)

  /**
   * The source divides by the exact count when the argument is recorded,
   * has an exact count and may occur several times; a count of zero there
   * would abort, so that combination is excluded.
   */
  predicate NoZeroRemainder(args: Args, o: ArgSpec)
  {
    o.name in args && o.numVals.Some? && o.multiple ==> o.numVals.value != 0
  }

  /**
   * `needs_more_vals`, over the records of the current level. The branches
   * are tried in this order: no record, exact count, maximum, minimum, and
   * otherwise the multiple-occurrences flag.
   */
  function NeedsMoreVals(args: Args, o: ArgSpec): (r: bool)
    requires NoZeroRemainder(args, o)
    ensures o.name !in args ==> r
  {
    if o.name !in args then true
    else
      var len := |args[o.name].vals|;
      match o.numVals
      case Some(num) =>
        if o.multiple then len % num != 0 else num != len
      case None =>
        match o.maxVals
        case Some(max) => !(len > max)
        case None => if o.minVals.Some? then true else o.multiple
  }

  /** Euclidean remainder of `q * n + j` for a digit `j` below `n`. */
  lemma ModOfMultiplePlus(q: nat, n: nat, j: nat)
    requires j < n
    ensures (q * n + j) % n == j
  {
    var y := q * n + j;
    var d := q - y / n;
    assert d * n == y % n - j by {
      assert y == (y / n) * n + y % n;
      assert d * n == q * n - (y / n) * n;
    }
  }

  /**
   * With an exact count `n` and multiple occurrences, values come in groups
   * of `n`: more are needed exactly while the last group is incomplete.
   */
  lemma GroupsOfNumVals(args: Args, o: ArgSpec, q: nat, j: nat)
    requires o.name in args && o.multiple
    requires o.numVals.Some? && j < o.numVals.value
    requires |args[o.name].vals| == q * o.numVals.value + j
    ensures NeedsMoreVals(args, o) <==> j != 0
  {
    ModOfMultiplePlus(q, o.numVals.value, j);
  }

  /**
   * Groups of two after a first occurrence: the fresh record holds no value
   * yet, so lengths 0, 1, 2, 3, 4 answer no, yes, no, yes, no.
   */
  lemma GroupsOfTwoAfterOccurrence(m: Args, o: ArgSpec, vs: seq<string>)
    requires o.name !in m && o.numVals == Some(2) && o.multiple && |vs| == 4
    ensures !NeedsMoreVals(IncOccurrence(m, o.name), o)
    ensures NeedsMoreVals(AddVals(IncOccurrence(m, o.name), o.name, vs[..1]), o)
    ensures !NeedsMoreVals(AddVals(IncOccurrence(m, o.name), o.name, vs[..2]), o)
    ensures NeedsMoreVals(AddVals(IncOccurrence(m, o.name), o.name, vs[..3]), o)
    ensures !NeedsMoreVals(AddVals(IncOccurrence(m, o.name), o.name, vs[..4]), o)
  {
  }

  /**
   * Without multiple occurrences an exact count `n` is asked for until
   * exactly `n` values are attached, and asked for again past `n`.
   */
  lemma ExactCountFromScratch(args: Args, o: ArgSpec, vs: seq<string>)
    requires o.name !in args && !o.multiple && o.numVals.Some?
    ensures NeedsMoreVals(AddVals(args, o.name, vs), o) <==> vs == [] || |vs| != o.numVals.value
  {
  }

  /**
   * Under a maximum `m` (and no exact count) the cap is inclusive: the
   * parser is asked for one more value even with `m` attached, and stops
   * only once `m + 1` are attached.
   */
  lemma MaxValsFromScratch(args: Args, o: ArgSpec, vs: seq<string>)
    requires o.name !in args && o.numVals.None? && o.maxVals.Some?
    ensures NeedsMoreVals(AddVals(args, o.name, vs), o) <==> |vs| <= o.maxVals.value
  {
  }

  /** A minimum alone never stops the consumption, whatever is attached. */
  lemma MinValsOnlyNeverStops(args: Args, o: ArgSpec)
    requires o.numVals.None? && o.maxVals.None? && o.minVals.Some?
    ensures NeedsMoreVals(args, o)
  {
  }

  /**
   * With no count at all, a single-occurrence argument stops after its first
   * value and a multiple-occurrence one never stops.
   */
  lemma UnconstrainedFromScratch(args: Args, o: ArgSpec, vs: seq<string>)
    requires o.name !in args && o.numVals.None? && o.maxVals.None? && o.minVals.None?
    ensures NeedsMoreVals(AddVals(args, o.name, vs), o) <==> vs == [] || o.multiple
  {
  }

  /**
   * The same three branches when the record already exists with no values,
   * as after a first occurrence: the answer is then decided by the count
   * alone, with no special case for "nothing attached yet".
   */
  lemma ExactCountAfterOccurrence(m: Args, o: ArgSpec, vs: seq<string>)
    requires o.name !in m && !o.multiple && o.numVals.Some?
    ensures NeedsMoreVals(AddVals(IncOccurrence(m, o.name), o.name, vs), o) <==> |vs| != o.numVals.value
  {
  }

  /** After a first occurrence the inclusive cap applies from zero values on. */
  lemma MaxValsAfterOccurrence(m: Args, o: ArgSpec, vs: seq<string>)
    requires o.name !in m && o.numVals.None? && o.maxVals.Some?
    ensures NeedsMoreVals(AddVals(IncOccurrence(m, o.name), o.name, vs), o) <==> |vs| <= o.maxVals.value
  {
  }

  /** After a first occurrence, with no count, only the multiple flag answers. */
  lemma UnconstrainedAfterOccurrence(m: Args, o: ArgSpec, vs: seq<string>)
    requires o.name !in m && o.numVals.None? && o.maxVals.None? && o.minVals.None?
    ensures NeedsMoreVals(AddVals(IncOccurrence(m, o.name), o.name, vs), o) <==> o.multiple
  {
  }

  /**
   * An exact count of 0 without multiple occurrences: when the first value
   * creates the record, the parser is never told to stop; when a first
   * occurrence created it, the parser is told to stop at once.
   */
  lemma ZeroCountDependsOnPath(m: Args, o: ArgSpec, vs: seq<string>)
    requires o.name !in m && !o.multiple && o.numVals == Some(0)
    ensures NeedsMoreVals(AddVals(m, o.name, vs), o)
    ensures !NeedsMoreVals(IncOccurrence(m, o.name), o)
  {
  }

  /** An exact count overrides any maximum and minimum. */
  lemma NumValsTakesPrecedence(args: Args, o: ArgSpec, max: Option<nat>, min: Option<nat>)
    requires NoZeroRemainder(args, o) && o.numVals.Some?
    ensures NeedsMoreVals(args, o) == NeedsMoreVals(args, o.(maxVals := max, minVals := min))
  {
  }

  /** Without an exact count, a maximum overrides any minimum. */
  lemma MaxValsTakesPrecedence(args: Args, o: ArgSpec, min: Option<nat>)
    requires o.numVals.None? && o.maxVals.Some?
    ensures NeedsMoreVals(args, o) == NeedsMoreVals(args, o.(minVals := min))
  {
  }

  /**
   * The answer depends only on whether the argument is recorded and on how
   * many values it holds: not on its occurrence count, not on other records.
   */
  lemma OnlyValueCountMatters(args: Args, args': Args, o: ArgSpec)
    requires NoZeroRemainder(args, o)
    requires o.name in args <==> o.name in args'
    requires o.name in args ==> |args[o.name].vals| == |args'[o.name].vals|
    ensures NoZeroRemainder(args', o)
    ensures NeedsMoreVals(args, o) == NeedsMoreVals(args', o)
  {
  }
}
