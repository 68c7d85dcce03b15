/**
 * The in-place updates the accumulator makes to its table of match records,
 * stated as functions from the old table to the new one. The methods
 * `IncOccurrenceOf`, `IncOccurrencesOf` and `AddValTo` of
 * `ArgMatchers.ArgMatcher` are proved to perform exactly these updates.
 */
module Records {
  import opened Matches

  /**
   * `inc_occurrence_of`: one more occurrence of a recorded argument; an
   * argument not recorded yet gets a fresh record and no increment.
   */
  function IncOccurrence(m: Args, a: string): (r: Args)
    ensures r.Keys == m.Keys + {a}
    ensures a in m ==> r[a].occurs == m[a].occurs + 1 && r[a].vals == m[a].vals
    ensures a !in m ==> r[a] == Fresh
    ensures forall k :: k in m && k != a ==> r[k] == m[k]
  {
    if a in m then m[a := m[a].(occurs := m[a].occurs + 1)] else m[a := Fresh]
  }

  /**
   * `inc_occurrences_of`: `IncOccurrence` for each name, first to last.
   * The result says, per name, how the counts come out: a recorded argument
   * gains one per listing; one first seen here starts at the fresh count and
   * gains one for every listing after the first.
   */
  function IncOccurrences(m: Args, names: seq<string>): (r: Args)
    ensures r.Keys == m.Keys + set n | n in names
    ensures forall k :: k in m ==>
      r[k].occurs == m[k].occurs + multiset(names)[k] && r[k].vals == m[k].vals
    ensures forall k :: k in r && k !in m ==>
      r[k].occurs + 1 == FreshOccurs + multiset(names)[k] && r[k].vals == []
    decreases |names|
  {
    if names == [] then m
    else
      var init, last := names[..|names| - 1], names[|names| - 1];
      assert names == init + [last];
      IncOccurrence(IncOccurrences(m, init), last)
  }

  /**
   * A helper of `AddVal`: the record that `entry(a).or_insert(default)`
   * returns. The insertion itself is `AddVal`'s map update.
   */
  function Entry(m: Args, a: string, default: MatchedArg): MatchedArg
  {
    if a in m then m[a] else default
  }

  /**
   * `add_val_to`: the record of `a` (created with no occurrences and no
   * values if absent) gets `v` under the next key, `len + 1`; no other key of
   * it and no other record changes.
   */
  function AddVal(m: Args, a: string, v: string): (r: Args)
    ensures r.Keys == m.Keys + {a}
    ensures r[a].occurs == Entry(m, a, Empty).occurs
    ensures |r[a].vals| == |Entry(m, a, Empty).vals| + 1
    ensures Val(r[a], |Entry(m, a, Empty).vals| + 1) == Some(v)
    ensures forall key :: key != |Entry(m, a, Empty).vals| + 1 ==>
      Val(r[a], key) == Val(Entry(m, a, Empty), key)
    ensures forall k :: k in m && k != a ==> r[k] == m[k]
  {
    var ma := Entry(m, a, Empty);
    m[a := ma.(vals := ma.vals + [v])]
  }

  /**
   * Repeated `add_val_to` on one argument, values taken first to last: they
   * follow the values already recorded, in call order.
   */
  function AddVals(m: Args, a: string, vs: seq<string>): (r: Args)
    ensures vs == [] ==> r == m
    ensures vs != [] ==> r.Keys == m.Keys + {a}
    ensures vs != [] ==> r[a] == MatchedArg(Entry(m, a, Empty).occurs, Entry(m, a, Empty).vals + vs)
    ensures forall k :: k in m && k != a ==> r[k] == m[k]
    decreases |vs|
  {
    if vs == [] then m
    else
      var init, last := vs[..|vs| - 1], vs[|vs| - 1];
      assert vs == init + [last];
      AddVal(AddVals(m, a, init), a, last)
  }

  /** Values attached one by one are found under keys `len + 1`, `len + 2`, ... in call order. */
  lemma ValuesInCallOrder(m: Args, a: string, vs: seq<string>, i: nat)
    requires i < |vs|
    ensures a in AddVals(m, a, vs)
    ensures Val(AddVals(m, a, vs)[a], |Entry(m, a, Empty).vals| + i + 1) == Some(vs[i])
  {
  }

  /**
   * On an argument's first sighting the order of the two mutators matters:
   * counting first stores the fresh count, attaching a value first creates
   * the record with 0 occurrences and the count then becomes 1.
   */
  lemma FirstSightingOrder(m: Args, a: string, v: string)
    requires a !in m
    ensures AddVal(IncOccurrence(m, a), a, v)[a] == MatchedArg(FreshOccurs, [v])
    ensures IncOccurrence(AddVal(m, a, v), a)[a] == MatchedArg(1, [v])
  {
  }
}
