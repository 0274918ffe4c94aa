/** The PERMUTE mode of the argument parser in
    software/usb_ir/win32/argp-standalone-1.3/argp-parse.c. Options are delivered as they
    are met; the non-option arguments skipped so far are kept as one block of argv that is
    moved past the options with exchange. Callbacks accept and do not move next. */
module Argp {
  import opened ArgpSpec
  import opened ArgpGrammar
  import opened Exchange

  datatype Status = Running | Finished | Rejected

  /** The parsed part of argv: arguments that options took, the block of skipped arguments,
      and arguments that options took after it. */
  datatype Parsed = Parsed(before: seq<string>, skipped: seq<string>, between: seq<string>) {
    ghost function Taken(): seq<string> {
      before + between
    }

    ghost function All(): seq<string> {
      before + skipped + between
    }
  }

  /** argv is an untouched head, the parsed part, and an untouched rest; first and last
      delimit the skipped block, or are equal when there is none. */
  ghost predicate LaidOut(argv: seq<string>, original: seq<string>, base: nat,
                          first: nat, last: nat, next: nat, p: Parsed)
  {
    && base + |p.All()| == next <= |original|
    && argv == original[..base] + p.All() + original[next..]
    && first <= last <= next
    && (if p.skipped == [] then first == last
        else first == base + |p.before| && last == first + |p.skipped|)
  }

  /** exchange moves the skipped block up to next. */
  lemma MovedLayout(argv: seq<string>, original: seq<string>, base: nat,
                    first: nat, last: nat, next: nat, p: Parsed)
    requires LaidOut(argv, original, base, first, last, next, p) && first < last
    ensures LaidOut(Exchanged(argv, first, last, next), original, base, first + (next - last), next, next,
                    Parsed(p.Taken(), p.skipped, []))
  {
    var head, rest := original[..base], original[next..];
    assert argv[..first] == head + p.before;
    assert argv[first..last] == p.skipped;
    assert argv[last..next] == p.between;
    assert argv[next..] == rest;
    assert p.Taken() + p.skipped + [] == p.before + p.between + p.skipped;
  }

  /** One more argument joins the skipped block. */
  lemma SkippedLayout(argv: seq<string>, original: seq<string>, base: nat, first: nat, next: nat, p: Parsed)
    requires LaidOut(argv, original, base, first, next, next, p) && next < |original|
    requires p.between == [] && first == base + |p.before|
    ensures LaidOut(argv, original, base, first, next + 1, next + 1, p.(skipped := p.skipped + [original[next]]))
  {
    var q := p.(skipped := p.skipped + [original[next]]);
    assert original[next..] == [original[next]] + original[next + 1..];
    assert q.All() == p.All() + [original[next]];
    assert original[..base] + p.All() + ([original[next]] + original[next + 1..])
        == original[..base] + (p.All() + [original[next]]) + original[next + 1..];
  }

  /** An option takes the next argument. */
  lemma TakenLayout(argv: seq<string>, original: seq<string>, base: nat,
                    first: nat, last: nat, next: nat, p: Parsed)
    requires LaidOut(argv, original, base, first, last, next, p) && next < |original|
    ensures var q := p.(between := p.between + [original[next]]);
      LaidOut(argv, original, base, first, last, next + 1, q) && q.Taken() == p.Taken() + [original[next]]
  {
    var q := p.(between := p.between + [original[next]]);
    assert original[next..] == [original[next]] + original[next + 1..];
    assert q.All() == p.All() + [original[next]];
    assert original[..base] + p.All() + ([original[next]] + original[next + 1..])
        == original[..base] + (p.All() + [original[next]]) + original[next + 1..];
  }

  class Parser {
    const argv: array<string>
    const table: Table
    var next: nat
    var firstNonopt: nat
    var lastNonopt: nat
    var argsOnly: bool
    var quoted: nat
    var nextchar: string
    var delivered: seq<Event>

    // The contents of argv, its contents at the start, the first parsed index, the
    // reference result for the whole vector, and the parsed part.
    ghost var view: seq<string>
    ghost const original: seq<string>
    ghost const base: nat
    ghost const goal: Scan
    ghost var parsed: Parsed

    /** Still looking for options. */
    ghost predicate Scanning()
      reads this, argv
    {
      && argv[..] == view
      && LaidOut(view, original, base, firstNonopt, lastNonopt, next, parsed)
      && !argsOnly && quoted == 0
      && goal == After(delivered, parsed.Taken(), parsed.skipped, ScanFrom(table, nextchar, original[next..]))
    }

    /** Delivering the non-option arguments, which are now the end of argv. */
    ghost predicate Delivering()
      reads this, argv
    {
      && argsOnly && nextchar == "" && quoted <= next && firstNonopt <= lastNonopt <= next && goal.ok
      && base <= |original| && argv[..] == view == original[..base] + goal.taken + goal.rest
      && base + |goal.taken| <= next <= argv.Length
      && delivered == goal.options + Arguments(goal.rest[..next - base - |goal.taken|])
    }

    ghost predicate Valid()
      reads this, argv
    {
      && (if argsOnly then Delivering() else Scanning())
      && multiset(view) == multiset(original)
    }

    /** The end of a successful run. */
    ghost predicate Complete()
      reads this, argv
    {
      && goal.ok
      && base <= |original| && argv[..] == view == original[..base] + goal.taken + goal.rest
      && delivered == goal.options + Arguments(goal.rest)
    }

    /** parser_init: argv[0] is the program name, if there is one. */
    constructor (argv: array<string>, table: Table)
      ensures Valid() && this.argv == argv && this.table == table
      ensures original == argv[..] && base == (if argv.Length == 0 then 0 else 1)
      ensures goal == ScanFrom(table, "", original[base..])
      ensures !argsOnly && delivered == []
    {
      this.argv := argv;
      this.table := table;
      next := if argv.Length == 0 then 0 else 1;
      firstNonopt, lastNonopt, argsOnly, quoted, nextchar, delivered := 0, 0, false, 0, "", [];
      original, base := argv[..], if argv.Length == 0 then 0 else 1;
      view, parsed := argv[..], Parsed([], [], []);
      goal := ScanFrom(table, "", argv[if argv.Length == 0 then 0 else 1..]);
      new;
      assert original[next..] == argv[next..];
      assert After([], [], [], goal) == goal;
      assert view == original[..next] + [] + original[next..];
    }

    /** exchange, on the parser's own indices. */
    method MoveSkipped()
      requires argv[..] == view && firstNonopt < lastNonopt
      requires LaidOut(view, original, base, firstNonopt, lastNonopt, next, parsed)
      modifies `firstNonopt, `lastNonopt, `view, `parsed, argv
      ensures argv[..] == view && multiset(view) == multiset(old(view))
      ensures firstNonopt < lastNonopt == next
      ensures parsed == Parsed(old(parsed.Taken()), old(parsed.skipped), [])
      ensures LaidOut(view, original, base, firstNonopt, lastNonopt, next, parsed)
    {
      MovedLayout(view, original, base, firstNonopt, lastNonopt, next, parsed);
      ExchangedIsPermutation(view, firstNonopt, lastNonopt, next);
      view := Exchanged(view, firstNonopt, lastNonopt, next);
      parsed := Parsed(parsed.Taken(), parsed.skipped, []);
      ExchangeSegments(argv, firstNonopt, lastNonopt, next);
      firstNonopt := firstNonopt + (next - lastNonopt);
      lastNonopt := next;
    }

    /** Brings the skipped block to next, or starts one there. */
    method AlignSkipped()
      requires argv[..] == view
      requires LaidOut(view, original, base, firstNonopt, lastNonopt, next, parsed)
      modifies `firstNonopt, `lastNonopt, `view, `parsed, argv
      ensures argv[..] == view && multiset(view) == multiset(old(view))
      ensures lastNonopt == next && firstNonopt == base + |parsed.before| && parsed.between == []
      ensures parsed.Taken() == old(parsed.Taken()) && parsed.skipped == old(parsed.skipped)
      ensures LaidOut(view, original, base, firstNonopt, lastNonopt, next, parsed)
    {
      if firstNonopt == lastNonopt {
        firstNonopt := next;
        lastNonopt := next;
        parsed := Parsed(parsed.Taken(), [], []);
      } else if lastNonopt != next {
        MoveSkipped();
      }
    }

    /** Adds the argument at next to the skipped block, which ends there. */
    method GrowSkipped()
      requires argv[..] == view && lastNonopt == next < |original|
      requires parsed.between == [] && firstNonopt == base + |parsed.before|
      requires LaidOut(view, original, base, firstNonopt, lastNonopt, next, parsed)
      modifies `next, `lastNonopt, `parsed
      ensures next == old(next) + 1
      ensures parsed.skipped == old(parsed.skipped) + [original[old(next)]] && parsed.Taken() == old(parsed.Taken())
      ensures LaidOut(view, original, base, firstNonopt, lastNonopt, next, parsed)
    {
      SkippedLayout(view, original, base, firstNonopt, next, parsed);
      parsed := parsed.(skipped := parsed.skipped + [original[next]]);
      next := next + 1;
      lastNonopt := next;
    }

    /** The PERMUTE case for a non-option argument, as seen on argv. */
    method SkipNext()
      requires argv[..] == view && next < |original|
      requires LaidOut(view, original, base, firstNonopt, lastNonopt, next, parsed)
      modifies `firstNonopt, `lastNonopt, `next, `view, `parsed, argv
      ensures argv[..] == view && multiset(view) == multiset(old(view)) && next == old(next) + 1
      ensures parsed.skipped == old(parsed.skipped) + [original[old(next)]] && parsed.Taken() == old(parsed.Taken())
      ensures LaidOut(view, original, base, firstNonopt, lastNonopt, next, parsed)
    {
      AlignSkipped();
      GrowSkipped();
    }

    /** A non-option argument is skipped for now. */
    method SkipArgument()
      requires Scanning() && nextchar == "" && next < |original| && Classify(original[next]) == Plain
      modifies this, argv
      ensures Scanning() && next == old(next) + 1 && nextchar == ""
      ensures multiset(view) == multiset(old(view))
    {
      SkipGoal(table, delivered, parsed.Taken(), parsed.skipped, original, next);
      SkipNext();
    }

    /** The argument at next is used up by an option (or is the quote). */
    method TakeNext() returns (arg: string)
      requires argv[..] == view && next < |original|
      requires LaidOut(view, original, base, firstNonopt, lastNonopt, next, parsed)
      modifies `next, `parsed
      ensures arg == original[old(next)] && next == old(next) + 1 <= argv.Length == |original|
      ensures parsed.skipped == old(parsed.skipped) && parsed.Taken() == old(parsed.Taken()) + [arg]
      ensures LaidOut(view, original, base, firstNonopt, lastNonopt, next, parsed)
    {
      TakenLayout(view, original, base, firstNonopt, lastNonopt, next, parsed);
      UnreadArgument(view, original, base, firstNonopt, lastNonopt, next, parsed);
      arg := argv[next];
      parsed := parsed.(between := parsed.between + [original[next]]);
      next := next + 1;
    }

    /** The skipped block goes to the end of the parsed part, and next to its start. */
    method PermuteSkipped()
      requires argv[..] == view
      requires LaidOut(view, original, base, firstNonopt, lastNonopt, next, parsed)
      modifies `firstNonopt, `lastNonopt, `next, `view, `parsed, argv
      ensures argv[..] == view == original[..base] + old(parsed.Taken()) + (old(parsed.skipped) + original[old(next)..])
      ensures firstNonopt <= lastNonopt <= next == base + |old(parsed.Taken())|
      ensures multiset(view) == multiset(old(view))
    {
      if firstNonopt != lastNonopt {
        MoveSkipped();
        BlockAtEnd(view, original, base, firstNonopt, lastNonopt, next, parsed);
        next := firstNonopt;
        firstNonopt, lastNonopt := 0, 0;
      } else {
        BlockAtEnd(
          view, original, base, firstNonopt, lastNonopt, next, parsed.(before := parsed.Taken(), between := []));
      }
    }

    /** All options are done: what follows next is delivered. */
    method StartDelivering(quoting: bool)
      requires argv[..] == view && !argsOnly && quoted == 0 && nextchar == ""
      requires LaidOut(view, original, base, firstNonopt, lastNonopt, next, parsed)
      requires goal == Scan(delivered, parsed.Taken(), parsed.skipped + original[next..], true)
      modifies this, argv
      ensures Delivering() && multiset(view) == multiset(old(view))
    {
      ghost var rest := parsed.skipped + original[next..];
      PermuteSkipped();
      if quoting {
        quoted := next;
      }
      argsOnly := true;
      assert Arguments(rest[..0]) == [] && delivered + [] == delivered;
    }

    /** The "--" argument: everything after it is a non-option argument. */
    method ParseQuote()
      requires Scanning() && nextchar == "" && next < |original| && Classify(original[next]) == Quote
      modifies this, argv
      ensures Delivering() && multiset(view) == multiset(old(view))
    {
      QuoteGoal(table, delivered, parsed.Taken(), parsed.skipped, original, next);
      var arg := TakeNext();
      StartDelivering(true);
    }

    /** The end of argv: the skipped arguments are next, if there are any. */
    method ParseEnd() returns (status: Status)
      requires Scanning() && nextchar == "" && next == |original|
      modifies this, argv
      ensures multiset(view) == multiset(old(view)) && status != Rejected
      ensures if status == Running then Delivering() else Complete()
    {
      EndGoal(table, delivered, parsed.Taken(), parsed.skipped, original);
      if firstNonopt != lastNonopt {
        StartDelivering(false);
        status := Running;
      } else {
        BlockAtEnd(
          view, original, base, firstNonopt, lastNonopt, next, parsed.(before := parsed.Taken(), between := []));
        assert delivered + Arguments([]) == delivered;
        status := Finished;
      }
    }

    /** parser_parse_arg, with a parser that accepts the argument. */
    method ParseArgument() returns (status: Status)
      requires Delivering()
      modifies this
      ensures view == old(view) && status != Rejected
      ensures if status == Finished then Complete() else Delivering() && next == old(next) + 1
    {
      if next >= argv.Length {
        ghost var k := next - base - |goal.taken|;
        assert goal.rest[..k] == goal.rest;
        status := Finished;
      } else {
        ArgumentStep(view, original[..base], goal, next - base - |goal.taken|);
        delivered := delivered + [Argument(argv[next])];
        next := next + 1;
        status := Running;
      }
    }

    /** A call of the option's parser, which accepts. */
    method DeliverOption(key: int, value: Value)
      modifies `delivered
      ensures delivered == old(delivered) + [Option(key, value)]
    {
      delivered := delivered + [Option(key, value)];
    }

    /** The run stops here, and the pass over the original order stops at the same place. */
    ghost predicate Stopped()
      reads this, argv
    {
      argv[..] == view && !goal.ok && delivered == goal.options
    }

    /** An argument that starts with "--". */
    method ParseLong() returns (status: Status)
      requires Scanning() && nextchar == "" && next < |original| && Classify(original[next]) == LongOption
      modifies `next, `parsed, `delivered
      ensures view == old(view) && status != Finished && nextchar == "" && next > old(next)
      ensures if status == Running then Scanning() else Stopped()
    {
      LongGoal(table, delivered, parsed.Taken(), parsed.skipped, original, next);
      var arg := TakeNext();
      var optstart := arg[2..];
      var option, value := table.long(optstart), ValueAfterEquals(optstart);
      status := Rejected;
      if option.Missing? || (value.Text? && option.kind.NoArg?) {
        // unrecognized option, or a value that it does not allow
      } else if value.Text? || !option.kind.RequiredArg? {
        DeliverOption(option.key, value);
        status := Running;
      } else if next != argv.Length {
        var text := TakeNext();
        DeliverOption(option.key, Text(text));
        status := Running;
      }
    }

    /** A group of short options: the characters are handled one by one afterwards. */
    method StartShort()
      requires Scanning() && nextchar == "" && next < |original| && Classify(original[next]) == ShortOptions
      modifies `next, `parsed, `nextchar
      ensures Scanning() && next == old(next) + 1
    {
      ShortGoal(table, delivered, parsed.Taken(), parsed.skipped, original, next);
      var arg := TakeNext();
      nextchar := arg[1..];
    }

    /** One character of a group of short options. */
    method ParseShort() returns (status: Status)
      requires Scanning() && nextchar != ""
      modifies `next, `parsed, `nextchar, `delivered
      ensures view == old(view) && status != Finished && next >= old(next) && |nextchar| < |old(nextchar)|
      ensures if status == Running then Scanning() else Stopped()
    {
      ClusterGoal(table, delivered, parsed.Taken(), parsed.skipped, nextchar, original, next);
      var option := table.short(nextchar[0]);
      nextchar := nextchar[1..];
      status := Rejected;
      if option.Missing? {
        // invalid option
      } else if option.kind.NoArg? {
        DeliverOption(option.key, None);
        status := Running;
      } else {
        var value := if nextchar != "" then Text(nextchar) else None;
        nextchar := "";
        if value.Text? || option.kind.OptionalArg? {
          DeliverOption(option.key, value);
          status := Running;
        } else if next != argv.Length {
          var text := TakeNext();
          DeliverOption(option.key, Text(text));
          status := Running;
        }
      }
    }

    /** Progress of a step that goes on: args_only is set, or next moves up, or the group
        of short options gets shorter. */
    twostate predicate Advanced()
      reads this
    {
      || (argsOnly && !old(argsOnly))
      || (argsOnly == old(argsOnly) && (next > old(next) || (next == old(next) && |nextchar| < |old(nextchar)|)))
    }

    /** The "look for options" part of parser_parse_next. */
    method ParseOptions() returns (status: Status)
      requires Scanning()
      modifies this, argv
      ensures multiset(view) == multiset(old(view))
      ensures match status
        case Running => (if argsOnly then Delivering() else Scanning()) && Advanced()
        case Finished => Complete()
        case Rejected => Stopped()
    {
      if nextchar != "" {
        status := ParseShort();
      } else if next >= argv.Length {
        status := ParseEnd();
      } else {
        UnreadArgument(view, original, base, firstNonopt, lastNonopt, next, parsed);
        match Classify(argv[next])
        case Plain =>
          SkipArgument();
          status := Running;
        case Quote =>
          ParseQuote();
          status := Running;
        case ShortOptions =>
          StartShort();
          status := Running;
        case LongOption =>
          status := ParseLong();
      }
    }

    /** parser_parse_next. Callbacks never move next back, so the corrections for that case
        at its start have nothing to do. */
    method ParseNext() returns (status: Status)
      requires Valid()
      modifies this, argv
      ensures multiset(view) == multiset(original)
      ensures match status
        case Running => Valid() && Advanced()
        case Finished => Complete()
        case Rejected => Stopped()
    {
      assert quoted <= next && firstNonopt <= lastNonopt <= next;
      if argsOnly {
        status := ParseArgument();
      } else {
        status := ParseOptions();
      }
    }
  }

  /** The end of a run over an argument vector, as the reference pass says it. */
  ghost predicate EndsAs(goal: Scan, head: seq<string>, argv: seq<string>, status: Status, delivered: seq<Event>) {
    && status == (if goal.ok then Finished else Rejected)
    && (goal.ok ==> argv == head + goal.taken + goal.rest)
    && delivered == goal.options + (if goal.ok then Arguments(goal.rest) else [])
  }

  /** argp_parse in PERMUTE mode, over any argument vector: it terminates; argv stays a
      permutation of the input; an accepted vector ends up as the words of options before the
      operands, each in original order; and the deliveries are the options in original order,
      then the operands in original order. The accepted vectors are those that are put
      together from items that the table allows, and what is delivered is what was put in. */
  method Parse(argv: array<string>, table: Table) returns (status: Status, delivered: seq<Event>)
    modifies argv
    ensures multiset(argv[..]) == multiset(old(argv[..]))
    ensures var base := if argv.Length == 0 then 0 else 1;
      var head, words := old(argv[..])[..base], old(argv[..])[base..];
      && EndsAs(ScanFrom(table, "", words), head, argv[..], status, delivered)
      && (status == Finished <==> exists items, e :: Describes(table, items, e, words))
      && forall items, e | Describes(table, items, e, words) ::
        EndsAs(Reading(table, items, e), head, argv[..], status, delivered)
  {
    ghost var base := if argv.Length == 0 then 0 else 1;
    ghost var words := argv[..][base..];
    status, delivered := Run(argv, table);
    AcceptedExactly(table, words);
    forall items, e | Describes(table, items, e, words)
      ensures ScanFrom(table, "", words) == Reading(table, items, e)
    {
      ReadsBack(table, items, e);
    }
  }

  /** The loop of argp_parse. */
  method Run(argv: array<string>, table: Table) returns (status: Status, delivered: seq<Event>)
    modifies argv
    ensures multiset(argv[..]) == multiset(old(argv[..]))
    ensures var base := if argv.Length == 0 then 0 else 1;
      var head, words := old(argv[..])[..base], old(argv[..])[base..];
      EndsAs(ScanFrom(table, "", words), head, argv[..], status, delivered)
  {
    var parser := new Parser(argv, table);
    status := Running;
    while status == Running
      invariant parser.argv == argv && fresh(parser)
      invariant parser.argv[..] == parser.view && multiset(parser.view) == multiset(parser.original)
      invariant match status
        case Running => parser.Valid()
        case Finished => parser.Complete()
        case Rejected => parser.Stopped()
      decreases if status == Running then 1 else 0, if parser.argsOnly then 0 else 1,
                argv.Length - parser.next, |parser.nextchar|
    {
      status := parser.ParseNext();
    }
    delivered := parser.delivered;
    assert status == Rejected ==> delivered == delivered + [];
  }

  /** What the pass does at a long option. */
  lemma LongGoal(t: Table, delivered: seq<Event>, taken: seq<string>, skipped: seq<string>,
                 original: seq<string>, next: nat)
    requires next < |original| && Classify(original[next]) == LongOption
    ensures var goal := After(delivered, taken, skipped, ScanFrom(t, "", original[next..]));
      var arg := original[next];
      var option, value := t.long(arg[2..]), ValueAfterEquals(arg[2..]);
      if option.Missing? || (value.Text? && option.kind.NoArg?) then !goal.ok && goal.options == delivered
      else if value.Text? || !option.kind.RequiredArg? then
        goal == After(delivered + [Option(option.key, value)], taken + [arg], skipped,
                      ScanFrom(t, "", original[next + 1..]))
      else if next + 1 == |original| then !goal.ok && goal.options == delivered
      else
        goal == After(delivered + [Option(option.key, Text(original[next + 1]))],
                      taken + [arg] + [original[next + 1]], skipped, ScanFrom(t, "", original[next + 2..]))
  {
    var arg := original[next];
    var option, value := t.long(arg[2..]), ValueAfterEquals(arg[2..]);
    assert original[next..][0] == arg && original[next..][1..] == original[next + 1..];
    assert delivered + [] == delivered && skipped + [] == skipped;
    if option.Missing? || (value.Text? && option.kind.NoArg?) {
    } else if value.Text? || !option.kind.RequiredArg? {
      AfterAfter(
        delivered, taken, skipped, [Option(option.key, value)], [arg], [], ScanFrom(t, "", original[next + 1..]));
    } else if next + 1 < |original| {
      var text := original[next + 1];
      assert original[next + 1..][0] == text && original[next + 1..][1..] == original[next + 2..];
      AfterAfter(delivered, taken, skipped, [Option(option.key, Text(text))], [arg, text], [],
                 ScanFrom(t, "", original[next + 2..]));
      assert taken + [arg, text] == taken + [arg] + [text];
    }
  }

  lemma ShortGoal(t: Table, delivered: seq<Event>, taken: seq<string>, skipped: seq<string>,
                  original: seq<string>, next: nat)
    requires next < |original| && Classify(original[next]) == ShortOptions
    ensures After(delivered, taken, skipped, ScanFrom(t, "", original[next..]))
         == After(delivered, taken + [original[next]], skipped, ScanFrom(t, original[next][1..], original[next + 1..]))
  {
    var arg := original[next];
    assert original[next..][0] == arg && original[next..][1..] == original[next + 1..];
    AfterAfter(delivered, taken, skipped, [], [arg], [], ScanFrom(t, arg[1..], original[next + 1..]));
    assert delivered + [] == delivered && skipped + [] == skipped;
  }

  /** What the pass does at one character of a group. */
  lemma ClusterGoal(t: Table, delivered: seq<Event>, taken: seq<string>, skipped: seq<string>,
                    cluster: string, original: seq<string>, next: nat)
    requires next <= |original| && cluster != ""
    ensures var goal := After(delivered, taken, skipped, ScanFrom(t, cluster, original[next..]));
      var option, more := t.short(cluster[0]), cluster[1..];
      if option.Missing? then !goal.ok && goal.options == delivered
      else if option.kind.NoArg? then
        goal == After(delivered + [Option(option.key, None)], taken, skipped, ScanFrom(t, more, original[next..]))
      else if more != "" || option.kind.OptionalArg? then
        goal == After(delivered + [Option(option.key, if more != "" then Text(more) else None)], taken, skipped,
                      ScanFrom(t, "", original[next..]))
      else if next == |original| then !goal.ok && goal.options == delivered
      else
        goal == After(delivered + [Option(option.key, Text(original[next]))], taken + [original[next]], skipped,
                      ScanFrom(t, "", original[next + 1..]))
  {
    var option, more := t.short(cluster[0]), cluster[1..];
    assert delivered + [] == delivered && taken + [] == taken && skipped + [] == skipped;
    if option.Missing? {
    } else if option.kind.NoArg? {
      AfterAfter(delivered, taken, skipped, [Option(option.key, None)], [], [], ScanFrom(t, more, original[next..]));
    } else if more != "" || option.kind.OptionalArg? {
      var value := if more != "" then Text(more) else None;
      AfterAfter(delivered, taken, skipped, [Option(option.key, value)], [], [], ScanFrom(t, "", original[next..]));
    } else if next < |original| {
      assert original[next..][0] == original[next] && original[next..][1..] == original[next + 1..];
      AfterAfter(delivered, taken, skipped, [Option(option.key, Text(original[next]))], [original[next]], [],
                 ScanFrom(t, "", original[next + 1..]));
    }
  }

  lemma QuoteGoal(t: Table, delivered: seq<Event>, taken: seq<string>, skipped: seq<string>,
                  original: seq<string>, next: nat)
    requires next < |original| && Classify(original[next]) == Quote
    ensures After(delivered, taken, skipped, ScanFrom(t, "", original[next..]))
         == Scan(delivered, taken + [original[next]], skipped + original[next + 1..], true)
  {
    assert original[next..][1..] == original[next + 1..];
    assert delivered + [] == delivered;
  }

  lemma EndGoal(t: Table, delivered: seq<Event>, taken: seq<string>, skipped: seq<string>, original: seq<string>)
    ensures After(delivered, taken, skipped, ScanFrom(t, "", original[|original|..]))
         == Scan(delivered, taken, skipped + original[|original|..], true)
    ensures skipped + original[|original|..] == skipped
  {
    assert delivered + [] == delivered && taken + [] == taken && skipped + [] == skipped;
  }

  /** The next argument to deliver, and the deliveries with it. */
  lemma ArgumentStep(argv: seq<string>, head: seq<string>, goal: Scan, k: nat)
    requires argv == head + goal.taken + goal.rest && k < |goal.rest|
    ensures argv[|head| + |goal.taken| + k] == goal.rest[k]
    ensures goal.options + Arguments(goal.rest[..k]) + [Argument(goal.rest[k])]
         == goal.options + Arguments(goal.rest[..k + 1])
  {
    assert goal.rest[..k + 1][..k] == goal.rest[..k];
  }

  lemma UnreadArgument(argv: seq<string>, original: seq<string>, base: nat,
                       first: nat, last: nat, next: nat, p: Parsed)
    requires LaidOut(argv, original, base, first, last, next, p) && next < |original|
    ensures |argv| == |original| && argv[next] == original[next]
  {
  }

  /** With the skipped block at the end of the parsed part, argv is permuted. */
  lemma BlockAtEnd(argv: seq<string>, original: seq<string>, base: nat,
                   first: nat, last: nat, next: nat, p: Parsed)
    requires LaidOut(argv, original, base, first, last, next, p) && p.between == []
    ensures argv == original[..base] + p.Taken() + (p.skipped + original[next..])
    ensures first < last ==> first == base + |p.Taken()|
    ensures first == last ==> next == base + |p.Taken()|
  {
    assert p.Taken() == p.before && p.All() == p.before + p.skipped;
    assert original[..base] + (p.before + p.skipped) + original[next..]
        == original[..base] + p.before + (p.skipped + original[next..]);
  }

  lemma SkipGoal(t: Table, delivered: seq<Event>, taken: seq<string>, skipped: seq<string>,
                 original: seq<string>, next: nat)
    requires next < |original| && Classify(original[next]) == Plain
    ensures After(delivered, taken, skipped, ScanFrom(t, "", original[next..]))
         == After(delivered, taken, skipped + [original[next]], ScanFrom(t, "", original[next + 1..]))
  {
    assert original[next..][1..] == original[next + 1..];
    AfterAfter(delivered, taken, skipped, [], [], [original[next]], ScanFrom(t, "", original[next + 1..]));
    assert delivered + [] == delivered && taken + [] == taken;
  }
}
