/** What argp delivers for an argument vector, as one pass over the arguments in their
    original order: the reference for the permuting parser. */
module ArgpSpec {
  datatype ArgKind = NoArg | OptionalArg | RequiredArg
  datatype Lookup = Missing | Found(key: int, kind: ArgKind)

  /** The option tables of all groups, as the two lookups that the parser performs. */
  datatype Table = Table(short: char -> Lookup, long: string -> Lookup)

  datatype Value = None | Text(text: string)

  /** A call of the user's parser: an option with its value, or a non-option argument. */
  datatype Event = Option(key: int, value: Value) | Argument(text: string)

  datatype Kind = Plain | Quote | LongOption | ShortOptions

  /** classify_arg, without ARGP_LONG_ONLY. */
  function Classify(arg: string): Kind {
    if |arg| < 2 || arg[0] != '-' then Plain
    else if arg[1] != '-' then ShortOptions
    else if |arg| == 2 then Quote
    else LongOption
  }

  /** The part of a long option after its first '='. */
  function ValueAfterEquals(s: string): Value {
    if s == "" then None else if s[0] == '=' then Text(s[1..]) else ValueAfterEquals(s[1..])
  }

  /** The result of a pass: delivered options, arguments they used up, the non-option
      arguments, and whether every option was understood. */
  datatype Scan = Scan(options: seq<Event>, taken: seq<string>, rest: seq<string>, ok: bool)

  const FAILED := Scan([], [], [], false)

  /** A pass that starts with what has been collected already. */
  function After(options: seq<Event>, taken: seq<string>, rest: seq<string>, s: Scan): Scan {
    Scan(options + s.options, taken + s.taken, rest + s.rest, s.ok)
  }

  lemma AfterAfter(o1: seq<Event>, t1: seq<string>, r1: seq<string>,
                   o2: seq<Event>, t2: seq<string>, r2: seq<string>, s: Scan)
    ensures After(o1, t1, r1, After(o2, t2, r2, s)) == After(o1 + o2, t1 + t2, r1 + r2, s)
  {
    assert o1 + (o2 + s.options) == o1 + o2 + s.options;
    assert t1 + (t2 + s.taken) == t1 + t2 + s.taken;
    assert r1 + (r2 + s.rest) == r1 + r2 + s.rest;
  }

  /** The pass over the remaining characters of a short option cluster and the remaining
      arguments. */
  function ScanFrom(t: Table, cluster: string, args: seq<string>): Scan
    decreases |args|, |cluster|, 0
  {
    if cluster != "" then
      match t.short(cluster[0])
      case Missing => FAILED
      case Found(key, kind) => ScanShort(t, key, kind, cluster[1..], args)
    else if args == [] then Scan([], [], [], true)
    else
      var arg, others := args[0], args[1..];
      match Classify(arg)
      case Plain => After([], [], [arg], ScanFrom(t, "", others))
      case Quote => Scan([], [arg], others, true)
      case ShortOptions => After([], [arg], [], ScanFrom(t, arg[1..], others))
      case LongOption =>
        match t.long(arg[2..])
        case Missing => FAILED
        case Found(key, kind) =>
          var value := ValueAfterEquals(arg[2..]);
          if value.Text? && kind.NoArg? then FAILED
          else if value.Text? || !kind.RequiredArg? then
            After([Option(key, value)], [arg], [], ScanFrom(t, "", others))
          else if others == [] then FAILED
          else After([Option(key, Text(others[0]))], [arg, others[0]], [], ScanFrom(t, "", others[1..]))
  }

  function ScanShort(t: Table, key: int, kind: ArgKind, more: string, args: seq<string>): Scan
    decreases |args|, |more|, 1
  {
    if kind.NoArg? then After([Option(key, None)], [], [], ScanFrom(t, more, args))
    else if more != "" then After([Option(key, Text(more))], [], [], ScanFrom(t, "", args))
    else if kind.OptionalArg? then After([Option(key, None)], [], [], ScanFrom(t, "", args))
    else if args == [] then FAILED
    else After([Option(key, Text(args[0]))], [args[0]], [], ScanFrom(t, "", args[1..]))
  }

  function Arguments(rest: seq<string>): (es: seq<Event>)
    ensures |es| == |rest|
  {
    if rest == [] then [] else Arguments(rest[..|rest| - 1]) + [Argument(rest[|rest| - 1])]
  }

  lemma {:induction false} ArgumentsAt(rest: seq<string>, i: nat)
    requires i < |rest|
    ensures Arguments(rest)[i] == Argument(rest[i])
  {
    if i < |rest| - 1 {
      ArgumentsAt(rest[..|rest| - 1], i);
    }
  }

  /** args is a merge of a and b that keeps the order of each. */
  ghost predicate Merges(args: seq<string>, a: seq<string>, b: seq<string>) {
    if args == [] then a == [] && b == []
    else
      || (a != [] && a[0] == args[0] && Merges(args[1..], a[1..], b))
      || (b != [] && b[0] == args[0] && Merges(args[1..], a, b[1..]))
  }

  lemma {:induction false} MergesAll(args: seq<string>)
    ensures Merges(args, [], args)
  {
    if args != [] {
      MergesAll(args[1..]);
    }
  }

  lemma MergesTaken(arg: string, args: seq<string>, a: seq<string>, b: seq<string>)
    requires Merges(args, a, b)
    ensures Merges([arg] + args, [arg] + a, b)
  {
    assert ([arg] + args)[1..] == args && ([arg] + a)[1..] == a;
  }

  lemma MergesRest(arg: string, args: seq<string>, a: seq<string>, b: seq<string>)
    requires Merges(args, a, b)
    ensures Merges([arg] + args, a, [arg] + b)
  {
    assert ([arg] + args)[1..] == args && ([arg] + b)[1..] == b;
  }

  /** A successful pass splits the arguments into two lists without losing, inventing or
      reordering any of them. */
  lemma {:induction false} ScanMerges(t: Table, cluster: string, args: seq<string>)
    requires ScanFrom(t, cluster, args).ok
    ensures Merges(args, ScanFrom(t, cluster, args).taken, ScanFrom(t, cluster, args).rest)
    decreases |args|, |cluster|
  {
    if cluster != "" {
      ScanMergesCluster(t, cluster, args);
    } else if args != [] {
      var arg, others := args[0], args[1..];
      assert args == [arg] + others;
      match Classify(arg)
      case Plain =>
        var s := ScanFrom(t, "", others);
        ScanMerges(t, "", others);
        MergesRest(arg, others, s.taken, s.rest);
        assert [] + s.taken == s.taken;
      case Quote =>
        MergesAll(others);
        MergesTaken(arg, others, [], others);
      case ShortOptions =>
        var s := ScanFrom(t, arg[1..], others);
        ScanMerges(t, arg[1..], others);
        MergesTaken(arg, others, s.taken, s.rest);
        assert [] + s.rest == s.rest;
      case LongOption =>
        ScanMergesLong(t, arg, others);
    }
  }

  lemma {:induction false} ScanMergesLong(t: Table, arg: string, others: seq<string>)
    requires Classify(arg) == LongOption && ScanFrom(t, "", [arg] + others).ok
    ensures var s := ScanFrom(t, "", [arg] + others); Merges([arg] + others, s.taken, s.rest)
    decreases |others|, 1
  {
    var args := [arg] + others;
    assert args[0] == arg && args[1..] == others;
    var value, kind := ValueAfterEquals(arg[2..]), t.long(arg[2..]).kind;
    if value.Text? || !kind.RequiredArg? {
      var s := ScanFrom(t, "", others);
      ScanMerges(t, "", others);
      MergesTaken(arg, others, s.taken, s.rest);
      assert [] + s.rest == s.rest;
    } else {
      var s := ScanFrom(t, "", others[1..]);
      ScanMerges(t, "", others[1..]);
      MergesTaken(others[0], others[1..], s.taken, s.rest);
      assert [others[0]] + others[1..] == others;
      MergesTaken(arg, others, [others[0]] + s.taken, s.rest);
      assert [arg] + ([others[0]] + s.taken) == [arg, others[0]] + s.taken;
      assert [] + s.rest == s.rest;
    }
  }

  lemma {:induction false} ScanMergesCluster(t: Table, cluster: string, args: seq<string>)
    requires cluster != "" && ScanFrom(t, cluster, args).ok
    ensures Merges(args, ScanFrom(t, cluster, args).taken, ScanFrom(t, cluster, args).rest)
    decreases |args|, |cluster|, 0
  {
    var kind, more := t.short(cluster[0]).kind, cluster[1..];
    if kind.NoArg? || more != "" || kind.OptionalArg? {
      var next := if kind.NoArg? then more else "";
      var s := ScanFrom(t, next, args);
      ScanMerges(t, next, args);
      assert [] + s.taken == s.taken && [] + s.rest == s.rest;
    } else {
      var s := ScanFrom(t, "", args[1..]);
      ScanMerges(t, "", args[1..]);
      MergesTaken(args[0], args[1..], s.taken, s.rest);
      assert [args[0]] + args[1..] == args;
      assert [] + s.rest == s.rest;
    }
  }
}
