/**
 * The argument accumulator a command-line parser drives while it walks its
 * tokens. It owns the result set of one level and performs every update the
 * parser asks for. Each update is proved to state its whole new result set;
 * `IncOccurrenceOf`, `IncOccurrencesOf` and `AddValTo` are proved to perform
 * the matching function of `Records`. Each query is proved to say what it
 * finds.
 */
module ArgMatchers {
  import opened Matches
  import opened Records

  /** `names` lists every key of `keys` exactly once, in some order. */
  ghost predicate ListsEachOnce(names: seq<string>, keys: set<string>)
  {
    && (forall i :: 0 <= i < |names| ==> names[i] in keys)
    && (forall k :: k in keys ==> k in names)
    && (forall i, j :: 0 <= i < j < |names| ==> names[i] != names[j])
  }

  class ArgMatcher {
    /** The result set being built. */
    var matches: ArgMatches

    /** A matcher for a new parse: no records, no usage, no subcommand. */
    constructor ()
      ensures matches == Default
    {
      matches := Default;
    }

    /** The record of `a`, if there is one. */
    function Get(a: string): (r: Option<MatchedArg>)
      reads this
      ensures r.Some? <==> a in matches.args
      ensures r.Some? ==> r.value == matches.args[a]
    {
      if a in matches.args then Some(matches.args[a]) else None
    }

    /** Whether `a` has a record; the same as `Get` finding one. */
    function Contains(a: string): (r: bool)
      reads this
      ensures r <==> Get(a).Some?
    {
      a in matches.args
    }

    /** Whether no argument has a record. */
    function IsEmpty(): (r: bool)
      reads this
      ensures r <==> forall a :: !Contains(a)
    {
      if |matches.args| == 0 then true
      else
        var a :| a in matches.args;
        assert Contains(a);
        false
    }

    /** Deletes the record of `a`; nothing happens if there is none. */
    method Remove(a: string)
      modifies this
      ensures matches == old(matches).(args := old(matches.args) - {a})
      ensures !Contains(a)
      ensures !old(Contains(a)) ==> matches == old(matches)
    {
      matches := matches.(args := matches.args - {a});
    }

    /**
     * Deletes the records of all of `names`, one after the other; names
     * without a record are skipped and every other record stays as it was.
     */
    method RemoveAll(names: seq<string>)
      modifies this
      ensures matches == old(matches).(args := old(matches.args) - set n | n in names)
    {
      for i := 0 to |names|
        invariant matches == old(matches).(args := old(matches.args) - set n | n in names[..i])
      {
        assert names[..i + 1] == names[..i] + [names[i]];
        matches := matches.(args := matches.args - {names[i]});
      }
      assert names[..|names|] == names;
    }

    /** Gives `a` a fresh record, replacing any record it had. */
    method Insert(a: string)
      modifies this
      ensures matches == old(matches).(args := old(matches.args)[a := Fresh])
      ensures Contains(a) && Get(a) == Some(Fresh)
    {
      matches := matches.(args := matches.args[a := Fresh]);
    }

    /** Records the rendered usage string, replacing any earlier one. */
    method Usage(usage: string)
      modifies this
      ensures matches == old(matches).(usage := Some(usage))
    {
      matches := matches.(usage := Some(usage));
    }

    /** The recorded (name, record) pairs, each once, in no particular order. */
    method Iter() returns (ps: seq<(string, MatchedArg)>)
      ensures |ps| == |matches.args|
      ensures forall i :: 0 <= i < |ps| ==> ps[i].0 in matches.args && ps[i].1 == matches.args[ps[i].0]
      ensures forall i, j :: 0 <= i < j < |ps| ==> ps[i].0 != ps[j].0
      ensures forall k :: k in matches.args ==> exists i :: 0 <= i < |ps| && ps[i].0 == k
    {
      ps := [];
      var rest := matches.args.Keys;
      while rest != {}
        invariant rest <= matches.args.Keys
        invariant |ps| + |rest| == |matches.args|
        invariant forall i :: 0 <= i < |ps| ==>
          ps[i].0 in matches.args && ps[i].0 !in rest && ps[i].1 == matches.args[ps[i].0]
        invariant forall i, j :: 0 <= i < j < |ps| ==> ps[i].0 != ps[j].0
        invariant forall k :: k in matches.args && k !in rest ==> exists i :: 0 <= i < |ps| && ps[i].0 == k
        decreases rest
      {
        var k :| k in rest;
        ghost var before := ps;
        ps := ps + [(k, matches.args[k])];
        rest := rest - {k};
        forall k' | k' in matches.args && k' !in rest
          ensures exists i :: 0 <= i < |ps| && ps[i].0 == k'
        {
          if k' == k {
            assert ps[|ps| - 1].0 == k';
          } else {
            var i :| 0 <= i < |before| && before[i].0 == k';
            assert ps[i].0 == k';
          }
        }
      }
    }

    /** The recorded argument names, each once, in no particular order. */
    method ArgNames() returns (names: seq<string>)
      ensures |names| == |matches.args|
      ensures ListsEachOnce(names, matches.args.Keys)
    {
      var ps := Iter();
      names := seq(|ps|, i requires 0 <= i < |ps| => ps[i].0);
      forall k | k in matches.args
        ensures k in names
      {
        var i :| 0 <= i < |ps| && ps[i].0 == k;
        assert names[i] == k;
      }
    }

    /** Records the invoked subcommand, replacing any earlier one. */
    method Subcommand(sc: SubCommand)
      modifies this
      ensures matches == old(matches).(subcommand := Some(sc))
      ensures SubcommandName() == Some(sc.name)
    {
      matches := matches.(subcommand := Some(sc));
    }

    /** The name of the recorded subcommand, if one was recorded. */
    function SubcommandName(): (r: Option<string>)
      reads this
      ensures r.Some? <==> matches.subcommand.Some?
      ensures r.Some? ==> r.value == matches.subcommand.value.name
    {
      match matches.subcommand
      case None => None
      case Some(sc) => Some(sc.name)
    }

    /** Counts one more occurrence of `a`, or gives it a fresh record. */
    method IncOccurrenceOf(a: string)
      modifies this
      ensures matches == old(matches).(args := IncOccurrence(old(matches.args), a))
    {
      if a in matches.args {
        var ma := matches.args[a];
        matches := matches.(args := matches.args[a := ma.(occurs := ma.occurs + 1)]);
        return;
      }
      Insert(a);
    }

    /** `IncOccurrenceOf` for each of `names`, first to last. */
    method IncOccurrencesOf(names: seq<string>)
      modifies this
      ensures matches == old(matches).(args := IncOccurrences(old(matches.args), names))
    {
      for i := 0 to |names|
        invariant matches == old(matches).(args := IncOccurrences(old(matches.args), names[..i]))
      {
        assert names[..i + 1][..i] == names[..i];
        IncOccurrenceOf(names[i]);
      }
      assert names[..|names|] == names;
    }

    /**
     * Attaches `v` to `a` under the next key; an argument without a record
     * first gets one with no occurrences and no values.
     */
    method AddValTo(a: string, v: string)
      modifies this
      ensures matches == old(matches).(args := AddVal(old(matches.args), a, v))
    {
      var ma := Entry(matches.args, a, Empty);
      matches := matches.(args := matches.args[a := ma.(vals := ma.vals + [v])]);
    }
  }
}
