/** The command lines that argp accepts, built from their parts, and what each part means.
    This is the inverse of the pass in ArgpSpec: words are put together here, not taken apart. */
module ArgpGrammar {
  import opened ArgpSpec
  import Runs

  /** The end of a group of short options: nothing, an option with its value in the same word
      or without one, or an option whose value is the next word. */
  datatype Tail =
    | NoTail
    | Attached(option: char, value: string)
    | Lone(option: char)
    | Detached(option: char, value: string)

  /** One part of a command line. */
  datatype Item =
    | Operand(text: string)
    | Assigned(name: string, value: string) // --name=value
    | Bare(name: string)                    // --name
    | Separate(name: string, value: string) // --name value
    | Flags(flags: string, tail: Tail)      // -flags, then the tail

  /** What follows the items: nothing, or "--" and operands of any form. */
  datatype Ending = End | Quoted(operands: seq<string>)

  function TailText(tail: Tail): string {
    match tail
    case NoTail => ""
    case Attached(c, v) => [c] + v
    case Lone(c) => [c]
    case Detached(c, _) => [c]
  }

  function TailWords(tail: Tail): seq<string> {
    if tail.Detached? then [tail.value] else []
  }

  function Words(item: Item): seq<string> {
    match item
    case Operand(text) => [text]
    case Assigned(name, value) => ["--" + name + "=" + value]
    case Bare(name) => ["--" + name]
    case Separate(name, value) => ["--" + name, value]
    case Flags(flags, tail) => ["-" + flags + TailText(tail)] + TailWords(tail)
  }

  function EndingWords(e: Ending): seq<string> {
    if e.End? then [] else ["--"] + e.operands
  }

  function AllWords(items: seq<Item>): seq<string> {
    if items == [] then [] else Words(items[0]) + AllWords(items[1..])
  }

  predicate Takes(found: Lookup, kinds: set<ArgKind>) {
    found.Found? && found.kind in kinds
  }

  predicate TailAllowed(t: Table, tail: Tail) {
    match tail
    case NoTail => true
    case Attached(c, v) => v != "" && Takes(t.short(c), {OptionalArg, RequiredArg})
    case Lone(c) => Takes(t.short(c), {OptionalArg})
    case Detached(c, _) => Takes(t.short(c), {RequiredArg})
  }

  ghost predicate FlagsAllowed(t: Table, flags: string) {
    forall i | 0 <= i < |flags| :: Takes(t.short(flags[i]), {NoArg})
  }

  /** The items that a table allows: every option is known and has a value as it wants one,
      and a word can be told for what it is. */
  ghost predicate Allowed(t: Table, item: Item) {
    match item
    case Operand(text) => text == "" || text == "-" || text[0] != '-'
    case Assigned(name, value) => '=' !in name && Takes(t.long(name + "=" + value), {OptionalArg, RequiredArg})
    case Bare(name) => name != "" && '=' !in name && Takes(t.long(name), {NoArg, OptionalArg})
    case Separate(name, _) => name != "" && '=' !in name && Takes(t.long(name), {RequiredArg})
    case Flags(flags, tail) =>
      var text := flags + TailText(tail);
      text != "" && text[0] != '-' && FlagsAllowed(t, flags) && TailAllowed(t, tail)
  }

  /** The key of an option that the table knows. */
  function Key(found: Lookup): int {
    if found.Found? then found.key else 0
  }

  function FlagEvents(t: Table, flags: string): seq<Event> {
    if flags == "" then [] else [Option(Key(t.short(flags[0])), None)] + FlagEvents(t, flags[1..])
  }

  function TailEvents(t: Table, tail: Tail): seq<Event> {
    match tail
    case NoTail => []
    case Attached(c, v) => [Option(Key(t.short(c)), Text(v))]
    case Lone(c) => [Option(Key(t.short(c)), None)]
    case Detached(c, v) => [Option(Key(t.short(c)), Text(v))]
  }

  /** The options that an item delivers. */
  function Events(t: Table, item: Item): seq<Event> {
    match item
    case Operand(_) => []
    case Assigned(name, value) => [Option(Key(t.long(name + "=" + value)), Text(value))]
    case Bare(name) => [Option(Key(t.long(name)), None)]
    case Separate(name, value) => [Option(Key(t.long(name)), Text(value))]
    case Flags(flags, tail) => FlagEvents(t, flags) + TailEvents(t, tail)
  }

  function AllEvents(t: Table, items: seq<Item>): seq<Event> {
    if items == [] then [] else Events(t, items[0]) + AllEvents(t, items[1..])
  }

  /** The words of options, and the operands, in order. */
  function OptionWords(items: seq<Item>): seq<string> {
    if items == [] then []
    else (if items[0].Operand? then [] else Words(items[0])) + OptionWords(items[1..])
  }

  function Operands(items: seq<Item>): seq<string> {
    if items == [] then []
    else (if items[0].Operand? then [items[0].text] else []) + Operands(items[1..])
  }

  /** What a whole command line means. */
  function Reading(t: Table, items: seq<Item>, e: Ending): Scan {
    match e
    case End => Scan(AllEvents(t, items), OptionWords(items), Operands(items), true)
    case Quoted(rest) => Scan(AllEvents(t, items), OptionWords(items) + ["--"], Operands(items) + rest, true)
  }

  /** The words are the items and the ending, and the table allows them. */
  ghost predicate Describes(t: Table, items: seq<Item>, e: Ending, words: seq<string>) {
    words == AllWords(items) + EndingWords(e) && forall i | 0 <= i < |items| :: Allowed(t, items[i])
  }

  /** The value of a long option starts behind its first '='. */
  lemma {:induction false} ValueOfAssigned(name: string, value: string)
    requires '=' !in name
    ensures ValueAfterEquals(name + "=" + value) == Text(value)
  {
    var s := name + "=" + value;
    if name == "" {
      assert s == "=" + value && s[1..] == value;
    } else {
      assert name[0] in name && s[0] == name[0];
      ValueOfAssigned(name[1..], value);
      assert s[1..] == name[1..] + "=" + value;
    }
  }

  lemma {:induction false} NoValue(s: string)
    ensures ValueAfterEquals(s) == None <==> '=' !in s
  {
    if s != "" && s[0] != '=' {
      NoValue(s[1..]);
      assert s == [s[0]] + s[1..];
    }
  }

  /** A word with an '=' is a name and a value. */
  lemma {:induction false} NameOfAssigned(s: string) returns (name: string)
    requires ValueAfterEquals(s).Text?
    ensures '=' !in name && s == name + "=" + ValueAfterEquals(s).text
  {
    if s[0] == '=' {
      name := "";
      assert s == "" + "=" + s[1..];
    } else {
      var later := NameOfAssigned(s[1..]);
      name := [s[0]] + later;
      Longer(s[0], later, "=", ValueAfterEquals(s).text);
    }
  }

  lemma Longer(c: char, a: string, b: string, d: string)
    ensures [c] + a + b + d == [c] + (a + b + d)
  {
  }

  /** The four kinds of words, from their parts. */
  lemma KindsOfWords(s: string)
    ensures Classify(s) == Plain <==> s == "" || s == "-" || s[0] != '-'
    ensures Classify("--") == Quote
    ensures s != "" ==> Classify("--" + s) == LongOption
    ensures s != "" && s[0] != '-' ==> Classify("-" + s) == ShortOptions
  {
  }

  lemma AfterNothing(s: Scan)
    ensures After([], [], [], s) == s
  {
    assert [] + s.options == s.options && [] + s.taken == s.taken && [] + s.rest == s.rest;
  }

  lemma ScanTail(t: Table, tail: Tail, args: seq<string>)
    requires TailAllowed(t, tail)
    ensures ScanFrom(t, TailText(tail), TailWords(tail) + args)
         == After(TailEvents(t, tail), TailWords(tail), [], ScanFrom(t, "", args))
  {
    match tail
    case NoTail =>
      assert TailWords(tail) + args == args;
      AfterNothing(ScanFrom(t, "", args));
    case Attached(c, v) =>
      assert ([c] + v)[1..] == v && TailWords(tail) + args == args;
    case Lone(c) =>
      assert [c][1..] == "" && TailWords(tail) + args == args;
    case Detached(c, v) =>
      assert [c][1..] == "" && ([v] + args)[0] == v && ([v] + args)[1..] == args;
  }

  lemma {:induction false} ScanFlags(t: Table, flags: string, tail: Tail, args: seq<string>)
    requires FlagsAllowed(t, flags) && TailAllowed(t, tail)
    ensures ScanFrom(t, flags + TailText(tail), TailWords(tail) + args)
         == After(FlagEvents(t, flags) + TailEvents(t, tail), TailWords(tail), [], ScanFrom(t, "", args))
  {
    if flags == "" {
      ScanTail(t, tail, args);
      assert "" + TailText(tail) == TailText(tail) && [] + TailEvents(t, tail) == TailEvents(t, tail);
    } else {
      var c, more := flags[0], flags[1..];
      ScanFlags(t, more, tail, args);
      assert flags + TailText(tail) == [c] + (more + TailText(tail));
      ScanFlag(t, c, more + TailText(tail), TailWords(tail) + args);
      FirstFlag(t, flags, TailEvents(t, tail), TailWords(tail), ScanFrom(t, "", args));
    }
  }

  lemma FirstFlag(t: Table, flags: string, later: seq<Event>, words: seq<string>, s: Scan)
    requires flags != ""
    ensures var head, others := [Option(Key(t.short(flags[0])), None)], FlagEvents(t, flags[1..]);
      After(head, [], [], After(others + later, words, [], s)) == After(FlagEvents(t, flags) + later, words, [], s)
  {
    var head := [Option(Key(t.short(flags[0])), None)];
    AfterOptions(head, FlagEvents(t, flags[1..]) + later, words, s);
    Runs.Assoc(head, FlagEvents(t, flags[1..]), later);
  }

  lemma AfterOptions(head: seq<Event>, later: seq<Event>, words: seq<string>, s: Scan)
    ensures After(head, [], [], After(later, words, [], s)) == After(head + later, words, [], s)
  {
    AfterAfter(head, [], [], later, words, [], s);
  }

  lemma ScanFlag(t: Table, c: char, more: string, args: seq<string>)
    requires Takes(t.short(c), {NoArg})
    ensures ScanFrom(t, [c] + more, args) == After([Option(Key(t.short(c)), None)], [], [], ScanFrom(t, more, args))
  {
    assert ([c] + more)[0] == c && ([c] + more)[1..] == more;
  }

  /** One item in front of other words. */
  lemma ScanItem(t: Table, item: Item, args: seq<string>)
    requires Allowed(t, item)
    ensures ScanFrom(t, "", Words(item) + args)
         == After(Events(t, item), if item.Operand? then [] else Words(item),
                  if item.Operand? then [item.text] else [], ScanFrom(t, "", args))
  {
    match item
    case Operand(text) =>
      KindsOfWords(text);
      assert ([text] + args)[0] == text && ([text] + args)[1..] == args;
    case Assigned(name, value) =>
      assert "--" + name + "=" + value == "--" + (name + "=" + value);
      ValueOfAssigned(name, value);
      ScanLong(t, name + "=" + value, args);
    case Bare(name) =>
      NoValue(name);
      ScanLong(t, name, args);
    case Separate(name, value) =>
      NoValue(name);
      ScanLong(t, name, [value] + args);
      Runs.Assoc(["--" + name], [value], args);
      assert ([value] + args)[1..] == args;
    case Flags(flags, tail) =>
      ScanGroup(t, flags, tail, args);
  }

  /** A long option in front of other words. */
  lemma ScanLong(t: Table, s: string, args: seq<string>)
    requires s != "" && t.long(s).Found? && !(ValueAfterEquals(s).Text? && t.long(s).kind == NoArg)
    ensures var key, value := t.long(s).key, ValueAfterEquals(s);
      if value.Text? || t.long(s).kind != RequiredArg then
        ScanFrom(t, "", ["--" + s] + args) == After([Option(key, value)], ["--" + s], [], ScanFrom(t, "", args))
      else args != [] ==>
        ScanFrom(t, "", ["--" + s] + args)
          == After([Option(key, Text(args[0]))], ["--" + s, args[0]], [], ScanFrom(t, "", args[1..]))
  {
    var words := ["--" + s] + args;
    assert words[0] == "--" + s && words[1..] == args && ("--" + s)[2..] == s;
    KindsOfWords(s);
  }

  lemma ScanGroup(t: Table, flags: string, tail: Tail, args: seq<string>)
    requires Allowed(t, Flags(flags, tail))
    ensures ScanFrom(t, "", Words(Flags(flags, tail)) + args)
         == After(FlagEvents(t, flags) + TailEvents(t, tail), Words(Flags(flags, tail)), [], ScanFrom(t, "", args))
  {
    var text := flags + TailText(tail);
    var word, words := "-" + flags + TailText(tail), Words(Flags(flags, tail)) + args;
    assert word == "-" + text && word[1..] == text;
    assert words[0] == word && words[1..] == TailWords(tail) + args;
    KindsOfWords(text);
    ScanFlags(t, flags, tail, args);
    var events := FlagEvents(t, flags) + TailEvents(t, tail);
    AfterAfter([], [word], [], events, TailWords(tail), [], ScanFrom(t, "", args));
    assert [] + events == events;
  }

  lemma ScanEnding(t: Table, e: Ending)
    ensures ScanFrom(t, "", EndingWords(e)) == Reading(t, [], e)
  {
    if e.Quoted? {
      KindsOfWords("");
      var words := EndingWords(e);
      assert words[0] == "--" && words[1..] == e.operands;
      assert [] + e.operands == e.operands && [] + ["--"] == ["--"];
    }
  }

  /** The pass over words that are put together gives back what was put in. */
  lemma {:induction false} ReadsBack(t: Table, items: seq<Item>, e: Ending)
    requires forall i | 0 <= i < |items| :: Allowed(t, items[i])
    ensures ScanFrom(t, "", AllWords(items) + EndingWords(e)) == Reading(t, items, e)
    decreases |items|
  {
    if items == [] {
      assert AllWords(items) + EndingWords(e) == EndingWords(e);
      ScanEnding(t, e);
    } else {
      var item, others := items[0], items[1..];
      ReadsBack(t, others, e);
      ScanItem(t, item, AllWords(others) + EndingWords(e));
      Runs.Assoc(Words(item), AllWords(others), EndingWords(e));
      ReadingFirst(t, item, others, e);
      assert items == [item] + others;
    }
  }

  lemma ReadingFirst(t: Table, item: Item, others: seq<Item>, e: Ending)
    ensures Reading(t, [item] + others, e) == After(Events(t, item), if item.Operand? then [] else Words(item),
                                                    if item.Operand? then [item.text] else [], Reading(t, others, e))
  {
    assert ([item] + others)[1..] == others;
    if e.Quoted? {
      var w, o := if item.Operand? then [] else Words(item), if item.Operand? then [item.text] else [];
      Runs.Assoc(w, OptionWords(others), ["--"]);
      Runs.Assoc(o, Operands(others), e.operands);
    }
  }

  /** A group of short options that is accepted has flags and a tail. */
  lemma {:induction false} GroupParts(t: Table, group: string, args: seq<string>)
    returns (flags: string, tail: Tail, others: seq<string>)
    requires ScanFrom(t, group, args).ok
    ensures group == flags + TailText(tail) && args == TailWords(tail) + others
    ensures FlagsAllowed(t, flags) && TailAllowed(t, tail) && ScanFrom(t, "", others).ok
    decreases |group|
  {
    if group == "" {
      flags, tail, others := "", NoTail, args;
    } else {
      var c, more := group[0], group[1..];
      assert group == [c] + more;
      match t.short(c).kind
      case NoArg =>
        flags, tail, others := GroupParts(t, more, args);
        flags := [c] + flags;
        assert group == flags + TailText(tail);
      case OptionalArg =>
        flags, tail, others := "", if more == "" then Lone(c) else Attached(c, more), args;
      case RequiredArg =>
        if more == "" {
          flags, tail, others := "", Detached(c, args[0]), args[1..];
        } else {
          flags, tail, others := "", Attached(c, more), args;
        }
    }
  }

  /** The first word that is accepted, with the value it takes, is an item. */
  lemma FirstItem(t: Table, args: seq<string>) returns (item: Item, others: seq<string>)
    requires args != [] && Classify(args[0]) != Quote && ScanFrom(t, "", args).ok
    ensures args == Words(item) + others && Allowed(t, item) && ScanFrom(t, "", others).ok
  {
    var word, later := args[0], args[1..];
    assert args == [word] + later;
    match Classify(word)
    case Plain =>
      item, others := Operand(word), later;
      KindsOfWords(word);
    case ShortOptions =>
      item, others := GroupItem(t, word, later);
    case LongOption =>
      item, others := LongItem(t, word[2..], later);
      assert word == "--" + word[2..];
  }

  lemma GroupItem(t: Table, word: string, args: seq<string>) returns (item: Item, others: seq<string>)
    requires Classify(word) == ShortOptions && ScanFrom(t, word[1..], args).ok
    ensures [word] + args == Words(item) + others && Allowed(t, item) && ScanFrom(t, "", others).ok
  {
    var flags, tail;
    flags, tail, others := GroupParts(t, word[1..], args);
    item := Flags(flags, tail);
    assert (flags + TailText(tail))[0] == word[1];
    assert word == ['-'] + word[1..];
    Runs.Assoc("-", flags, TailText(tail));
    Runs.Assoc([word], TailWords(tail), others);
  }

  lemma LongItem(t: Table, s: string, args: seq<string>) returns (item: Item, others: seq<string>)
    requires s != "" && ScanFrom(t, "", ["--" + s] + args).ok
    ensures ["--" + s] + args == Words(item) + others && Allowed(t, item) && ScanFrom(t, "", others).ok
  {
    var words := ["--" + s] + args;
    assert words[0] == "--" + s && words[1..] == args && ("--" + s)[2..] == s;
    KindsOfWords(s);
    NoValue(s);
    others := args;
    if ValueAfterEquals(s).Text? {
      item := AssignedItem(t, s);
    } else if t.long(s).kind == RequiredArg {
      item, others := Separate(s, args[0]), args[1..];
    } else {
      item := Bare(s);
    }
  }

  lemma AssignedItem(t: Table, s: string) returns (item: Item)
    requires ValueAfterEquals(s).Text? && Takes(t.long(s), {OptionalArg, RequiredArg})
    ensures Words(item) == ["--" + s] && Allowed(t, item)
  {
    var name := NameOfAssigned(s);
    var value := ValueAfterEquals(s).text;
    item := Assigned(name, value);
    assert "--" + name + "=" + value == "--" + (name + "=" + value);
  }

  /** Every accepted list of words is put together from allowed items. */
  lemma {:induction false} AcceptedIsDescribed(t: Table, words: seq<string>) returns (items: seq<Item>, e: Ending)
    requires ScanFrom(t, "", words).ok
    ensures Describes(t, items, e, words)
    decreases |words|
  {
    if words == [] {
      items, e := [], End;
    } else if Classify(words[0]) == Quote {
      items, e := [], Quoted(words[1..]);
      assert words[0] == "--" && words == ["--"] + words[1..];
    } else {
      var item, others := FirstItem(t, words);
      var later;
      later, e := AcceptedIsDescribed(t, others);
      items := [item] + later;
      assert items[1..] == later;
      Runs.Assoc(Words(item), AllWords(later), EndingWords(e));
    }
  }

  /** The words are accepted exactly when they can be put together from allowed items. */
  lemma AcceptedExactly(t: Table, words: seq<string>)
    ensures ScanFrom(t, "", words).ok <==> exists items, e :: Describes(t, items, e, words)
  {
    if ScanFrom(t, "", words).ok {
      var items, e := AcceptedIsDescribed(t, words);
    } else if exists items, e :: Describes(t, items, e, words) {
      var items, e :| Describes(t, items, e, words);
      ReadsBack(t, items, e);
    }
  }
}
