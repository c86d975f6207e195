/**
  The command registry of src/utils/registry.ts.

  A name-keyed table of commands: registering overwrites an existing entry
  under the same name, dispatch looks a name up and either reports it as
  unknown (and lists the commands) or runs the command, turning a failure
  into process exit status 1; the listing follows the order in which names
  were first registered, as a JavaScript `Map` does.

  What a command does is outside the registry: each command carries its
  behaviour as a function from its arguments to a `CommandOutcome`, and the
  registry's console output is an abstract list of events.
 */
module Registry {

  /** How a command's own `execute` ends: it completes, it throws (its
      promise rejects), or it terminates the process itself, as the usage
      checks of the commands do, which bypasses the registry's `catch`. */
  datatype CommandOutcome = Completed | Threw(error: string) | Exited(code: int)

  /** The `Command` interface: a name, a description and the operation. */
  datatype Command = Command(name: string, description: string, run: seq<string> -> CommandOutcome)

  /** One line of the command listing. */
  datatype Line = Line(name: string, description: string)

  /** What the registry reports, in order. `Invoked` stands for everything the
      invoked command itself does. */
  datatype Event =
    | NotFound(name: string)
    | Listed(lines: seq<Line>)
    | Invoked(name: string, args: seq<string>)
    | Failed(name: string, error: string)

  /** How `execute` ends: it returns normally, or the process exits. */
  datatype Ending = Returned | Exit(code: int)

  /** The exit status used when a command fails (registry.ts:26). */
  const FailureStatus: int := 1

  /** The names of a sequence of registrations. */
  ghost function NamesOf(history: seq<Command>): (names: seq<string>)
    ensures |names| == |history|
    ensures forall k :: 0 <= k < |history| ==> names[k] == history[k].name
  {
    seq(|history|, k requires 0 <= k < |history| => history[k].name)
  }

  /** The table that a sequence of registrations builds: the last
      registration of a name wins. */
  ghost function TableOf(history: seq<Command>): map<string, Command>
  {
    if history == [] then map[]
    else TableOf(history[..|history| - 1])[history[|history| - 1].name := history[|history| - 1]]
  }

  /** The names in the order of their first occurrence: the element at each
      index is kept when it does not occur earlier. */
  ghost function FirstOccurrences(names: seq<string>): seq<string>
  {
    if names == [] then []
    else
      var init := names[..|names| - 1];
      FirstOccurrences(init) + (if names[|names| - 1] in init then [] else [names[|names| - 1]])
  }

  predicate Distinct(s: seq<string>) {
    forall i, j :: 0 <= i < j < |s| ==> s[i] != s[j]
  }

  lemma {:induction false} FirstOccurrencesAreDistinct(names: seq<string>)
    ensures Distinct(FirstOccurrences(names))
    ensures forall n :: n in FirstOccurrences(names) <==> n in names
    decreases |names|
  {
    if names != [] {
      var init := names[..|names| - 1];
      FirstOccurrencesAreDistinct(init);
      assert names == init + [names[|names| - 1]];
    }
  }

  lemma {:induction false} TableOfKeys(history: seq<Command>)
    ensures forall n :: n in TableOf(history) <==> n in NamesOf(history)
    ensures forall n :: n in TableOf(history) ==> TableOf(history)[n].name == n
    decreases |history|
  {
    if history != [] {
      var init := history[..|history| - 1];
      TableOfKeys(init);
      assert NamesOf(history) == NamesOf(init) + [history[|history| - 1].name];
    }
  }

  /** A registration history whose names are `names`, followed by one more. */
  lemma HistoryStep(history: seq<Command>, c: Command)
    ensures (history + [c])[..|history|] == history
    ensures NamesOf(history + [c]) == NamesOf(history) + [c.name]
    ensures NamesOf(history + [c])[..|history|] == NamesOf(history)
  {
  }

  lemma {:induction false} DistinctLength(s: seq<string>)
    requires Distinct(s)
    ensures |set n | n in s| == |s|
    decreases |s|
  {
    if s != [] {
      var init := s[..|s| - 1];
      DistinctLength(init);
      var last := s[|s| - 1];
      assert s == init + [last];
      assert (set n | n in s) == (set n | n in init) + {last};
      assert last !in init;
    }
  }

  class CommandRegistry {
    /** The `commands` Map of registry.ts:8. */
    var commands: map<string, Command>
    /** The Map's iteration order: each name once, at its first insertion. */
    var order: seq<string>
    /** Every command ever registered, in order. */
    ghost var history: seq<Command>

    ghost predicate Valid()
      reads this
    {
      && commands == TableOf(history)
      && order == FirstOccurrences(NamesOf(history))
      && Distinct(order)
      && (forall n :: n in commands <==> n in order)
      && (forall n :: n in commands ==> commands[n].name == n)
    }

    constructor ()
      ensures Valid()
      ensures commands == map[] && order == [] && history == []
    {
      commands := map[];
      order := [];
      history := [];
    }

    /** `register` (registry.ts:10-12): the name now maps to `c`, every other
        entry is kept, and a new name is listed last while an existing name
        keeps its place. */
    method Register(c: Command)
      requires Valid()
      modifies this
      ensures Valid()
      ensures history == old(history) + [c]
      ensures commands == old(commands)[c.name := c]
      ensures order == if c.name in old(commands) then old(order) else old(order) + [c.name]
      ensures old(commands).Keys <= commands.Keys
      ensures |order| == |old(order)| + (if c.name in old(commands) then 0 else 1)
    {
      HistoryStep(history, c);
      TableOfKeys(history);
      if c.name !in commands {
        order := order + [c.name];
      }
      commands := commands[c.name := c];
      history := history + [c];
      FirstOccurrencesAreDistinct(NamesOf(history));
    }

    /** The listing that `listCommands` prints, one line per entry, in the
        Map's order. */
    ghost function Listing(): (lines: seq<Line>)
      reads this
      requires Valid()
    {
      seq(|order|, k requires 0 <= k < |order| && order[k] in commands reads this =>
        Line(commands[order[k]].name, commands[order[k]].description))
    }

    /** `listCommands` (registry.ts:30-36): one line per registered name, in
        the order of first registration, each showing the name's current
        description. */
    method ListCommands() returns (lines: seq<Line>)
      requires Valid()
      ensures lines == Listing()
      ensures |lines| == |commands|
      ensures var firsts := FirstOccurrences(NamesOf(history));
              |lines| == |firsts| && forall k :: 0 <= k < |lines| ==> lines[k].name == firsts[k]
      ensures forall k :: 0 <= k < |lines| ==>
                lines[k].name in commands && lines[k].description == commands[lines[k].name].description
      ensures forall n :: n in commands ==> exists k :: 0 <= k < |lines| && lines[k].name == n
      ensures forall i, j :: 0 <= i < j < |lines| ==> lines[i].name != lines[j].name
    {
      lines := [];
      var i := 0;
      while i < |order|
        invariant 0 <= i <= |order|
        invariant lines == Listing()[..i]
      {
        var name := order[i];
        lines := lines + [Line(commands[name].name, commands[name].description)];
        i := i + 1;
      }
      assert Listing()[..|order|] == Listing();
      ListingCovers();
    }

    /** The listing has exactly one line per registered name. */
    lemma ListingCovers()
      requires Valid()
      ensures |Listing()| == |commands|
      ensures forall k :: 0 <= k < |Listing()| ==> Listing()[k].name == order[k]
      ensures forall n :: n in commands ==> exists k :: 0 <= k < |Listing()| && Listing()[k].name == n
    {
      DistinctLength(order);
      assert commands.Keys == set n | n in order;
      forall n | n in commands
        ensures exists k :: 0 <= k < |Listing()| && Listing()[k].name == n
      {
        var k :| 0 <= k < |order| && order[k] == n;
        assert Listing()[k].name == n;
      }
    }

    /** `execute` (registry.ts:14-28). */
    method Execute(name: string, args: seq<string>) returns (events: seq<Event>, ending: Ending)
      requires Valid()
      ensures name !in commands ==> events == [NotFound(name), Listed(Listing())] && ending == Returned
      ensures name in commands ==>
                match commands[name].run(args)
                case Completed => events == [Invoked(name, args)] && ending == Returned
                case Threw(e) => events == [Invoked(name, args), Failed(name, e)] && ending == Exit(FailureStatus)
                case Exited(code) => events == [Invoked(name, args)] && ending == Exit(code)
      ensures (exists k :: 0 <= k < |events| && events[k].Invoked?) <==> name in commands
      ensures forall k :: 0 <= k < |events| && events[k].Invoked? ==> events[k] == Invoked(name, args)
      ensures ending.Exit? <==> name in commands && !commands[name].run(args).Completed?
    {
      if name !in commands {
        var lines := ListCommands();
        events := [NotFound(name), Listed(lines)];
        ending := Returned;
        return;
      }
      var command := commands[name];
      events := [Invoked(name, args)];
      var outcome := command.run(args);
      match outcome {
        case Completed =>
          ending := Returned;
        case Threw(e) =>
          events := events + [Failed(name, e)];
          ending := Exit(FailureStatus);
        case Exited(code) =>
          ending := Exit(code);
      }
      assert events[0].Invoked?;
    }
  }

  /** Registering under an existing name keeps only the second command, and
      the name keeps its place in the listing. */
  method RegisterTwice(first: Command, second: Command) returns (registry: CommandRegistry)
    requires first.name == second.name
    ensures registry.Valid()
    ensures registry.commands == map[second.name := second]
    ensures registry.order == [second.name]
  {
    registry := new CommandRegistry();
    registry.Register(first);
    registry.Register(second);
  }
}
