/** The device summary: printed by software/usb_ir/server.c, parsed by list_devices in
    software/lirc-drv-iguanair/iguanair.c. */
module Summary {
  datatype Alias = NoAlias | Alias(name: string)

  /** A device as the summary shows it: its index, its location and its user's name. */
  datatype Device = Device(id: nat, location: Alias, user: Alias)

  function Digits(n: nat): (s: string)
    ensures s != "" && forall i | 0 <= i < |s| :: '0' <= s[i] <= '9'
  {
    var last := ['0' + (n % 10) as char];
    if n < 10 then last else Digits(n / 10) + last
  }

  function Shown(tag: string, a: Alias): string {
    if a.NoAlias? then "" else tag + a.name
  }

  function AliasText(d: Device): string {
    "i:" + Digits(d.id) + Shown(",l:", d.location) + Shown(",u:", d.user)
  }

  function SummaryText(devices: seq<Device>): string {
    if devices == [] then ""
    else if |devices| == 1 then AliasText(devices[0])
    else SummaryText(devices[..|devices| - 1]) + "|" + AliasText(devices[|devices| - 1])
  }

  /** aliasSummary: the computed buffer size fits the text and its terminator exactly. */
  method AliasSummary(d: Device) returns (len: nat, buf: string)
    ensures buf == AliasText(d) && len == |buf| + 1
  {
    len := 1;
    var name := Digits(d.id);
    len := len + 2 + |name|;
    if d.location.Alias? {
      len := len + 3 + |d.location.name|;
    }
    if d.user.Alias? {
      len := len + 3 + |d.user.name|;
    }
    buf := "i:" + name;
    if d.location.Alias? {
      buf := buf + ",l:" + d.location.name;
    }
    if d.user.Alias? {
      buf := buf + ",u:" + d.user.name;
    }
  }

  /** deviceSummary: summarize for every device; no text at all without devices. The last
      allocation fits the text exactly, or has one byte to spare for a single device. */
  method DeviceSummary(devices: seq<Device>) returns (buf: string, size: nat)
    ensures buf == SummaryText(devices)
    ensures devices != [] ==> size == |buf| + if |devices| == 1 then 2 else 1
  {
    buf, size := "", 0;
    for n := 0 to |devices|
      invariant buf == SummaryText(devices[..n])
      invariant n > 0 ==> size == |buf| + if n == 1 then 2 else 1
    {
      var _, sum := AliasSummary(devices[n]);
      assert devices[..n + 1][..n] == devices[..n];
      if n == 0 {
        size := 1 + |sum| + 1;
        buf := sum;
      } else {
        size := |buf| + 1 + |sum| + 1;
        buf := buf + "|" + sum;
      }
    }
    assert devices[..|devices|] == devices;
  }

  /** One device path offered to LIRC: the kind and text of a token, and the index of the
      device it is paired with. */
  datatype Path = Path(kind: char, name: string, index: string)

  datatype Parsed = Malformed | Paths(paths: seq<Path>)

  function Prepend(ps: seq<Path>, r: Parsed): Parsed {
    if r.Malformed? then r else Paths(ps + r.paths)
  }

  const MAX_NAME := 12

  predicate Stops(kind: char, c: char) {
    c == '|' || ((kind == 'i' || kind == 'l') && c == ',')
  }

  /** The length of the token at the start of s. */
  function Span(kind: char, s: string): (n: nat)
    ensures n <= |s|
  {
    if s == "" || Stops(kind, s[0]) then 0 else 1 + Span(kind, s[1..])
  }

  function AfterSeparator(s: string): string {
    if s == "" then "" else s[1..]
  }

  function PathOf(kind: char, name: string, index: string): seq<Path> {
    if name == "" then [] else [Path(kind, name, index)]
  }

  /** A location or a user name needs the index of its device. */
  predicate Stray(kind: char, name: string, index: string) {
    (kind == 'l' || kind == 'u') && name != "" && index == ""
  }

  /** The paths for the rest of a summary, with the index seen last, or "" before the first.
      A rest of one character, a name that does not fit the buffer, and an alias before any
      index are malformed. */
  function Parse(s: string, index: string): Parsed
    decreases |s|
  {
    if s == "" then Paths([])
    else if |s| < 2 then Malformed
    else
      var kind, body := s[0], s[2..];
      var n := Span(kind, body);
      var name := body[..n];
      var index' := if kind == 'i' && n > 0 then name else index;
      if n > MAX_NAME || Stray(kind, name, index') then Malformed
      else Prepend(PathOf(kind, name, index'), Parse(AfterSeparator(body[n..]), index'))
  }

  lemma PrependTwice(a: seq<Path>, b: seq<Path>, r: Parsed)
    ensures Prepend(a, Prepend(b, r)) == Prepend(a + b, r)
  {
    if r.Paths? {
      assert a + (b + r.paths) == a + b + r.paths;
    }
  }

  /** list_devices. The pointer into the text is the rest of the text from there on. */
  method ListDevices(text: string) returns (result: Parsed)
    ensures result == Parse(text, "")
  {
    var pos := text;
    var paths: seq<Path> := [];
    var index := "";
    PrependNothing(Parse(text, ""));
    while pos != ""
      invariant Parse(text, "") == Prepend(paths, Parse(pos, index))
      decreases |pos|
    {
      if |pos| < 2 {
        return Malformed;
      }
      var kind, start := pos[0], pos[2..];
      var n := TokenLength(kind, start);
      if n > MAX_NAME {
        return Malformed;
      }
      var name := start[..n];
      if kind == 'i' && n > 0 {
        index := name;
      }
      if Stray(kind, name, index) {
        return Malformed;
      }
      pos := AfterSeparator(start[n..]);
      PrependTwice(paths, PathOf(kind, name, index), Parse(pos, index));
      paths := paths + PathOf(kind, name, index);
    }
    assert paths + [] == paths;
    result := Paths(paths);
  }

  /** The inner loop of list_devices. */
  method TokenLength(kind: char, start: string) returns (n: nat)
    ensures n == Span(kind, start)
  {
    n := 0;
    while n < |start| && !Stops(kind, start[n])
      invariant n <= |start|
      invariant Span(kind, start) == n + Span(kind, start[n..])
    {
      assert start[n..][1..] == start[n + 1..];
      n := n + 1;
    }
  }

  /** No character of the name ends a token of this kind. */
  ghost predicate Plain(kind: char, name: string) {
    forall i | 0 <= i < |name| :: !Stops(kind, name[i])
  }

  lemma {:induction false} SpanOfName(kind: char, name: string, rest: string)
    requires Plain(kind, name) && (rest == "" || Stops(kind, rest[0]))
    ensures Span(kind, name + rest) == |name|
  {
    if name == "" {
      assert name + rest == rest;
    } else {
      SpanOfName(kind, name[1..], rest);
      assert (name + rest)[1..] == name[1..] + rest;
    }
  }

  /** One printed token parses to its path, and the rest follows after the separator. */
  lemma ParseToken(kind: char, name: string, rest: string, index: string)
    requires Plain(kind, name) && |name| <= MAX_NAME && (rest == "" || Stops(kind, rest[0]))
    requires kind == 'i' || index != ""
    ensures var index' := if kind == 'i' && name != "" then name else index;
      Parse([kind, ':'] + name + rest, index) ==
        Prepend(PathOf(kind, name, index'), Parse(AfterSeparator(rest), index'))
  {
    var s := [kind, ':'] + name + rest;
    SpanOfName(kind, name, rest);
    assert s[2..] == name + rest;
    assert (name + rest)[..|name|] == name && (name + rest)[|name|..] == rest;
  }

  /** What the daemon guarantees of a device it lists: the index fits its buffer, names have
      at most twelve bytes, locations have no separators, user names no bar. */
  ghost predicate Printable(d: Device) {
    && d.id < 10000000
    && (d.location.Alias? ==> Plain('l', d.location.name) && |d.location.name| <= 12)
    && (d.user.Alias? ==> Plain('u', d.user.name) && |d.user.name| <= 12)
  }

  function NameOf(a: Alias): string {
    if a.NoAlias? then "" else a.name
  }

  /** The paths of one device, each with the index of that device; an empty name counts as
      no name. */
  function PathsOf(d: Device): seq<Path> {
    var index := Digits(d.id);
    [Path('i', index, index)] + PathOf('l', NameOf(d.location), index) + PathOf('u', NameOf(d.user), index)
  }

  function AllPaths(devices: seq<Device>): seq<Path> {
    if devices == [] then [] else PathsOf(devices[0]) + AllPaths(devices[1..])
  }

  lemma {:induction false} DigitsFit(n: nat, k: nat)
    requires k > 0 && n < Power10(k)
    ensures |Digits(n)| <= k
  {
    if n >= 10 {
      DigitsFit(n / 10, k - 1);
    }
  }

  /** The number that a text of digits stands for. */
  function NumberOf(s: string): int {
    if s == "" then 0 else 10 * NumberOf(s[..|s| - 1]) + (s[|s| - 1] as int - '0' as int)
  }

  /** The digits of a number read back as the number, and have no leading zero. */
  lemma {:induction false} DigitsReadBack(n: nat)
    ensures NumberOf(Digits(n)) == n && (n > 0 ==> Digits(n)[0] != '0')
  {
    var last := ['0' + (n % 10) as char];
    if n < 10 {
      assert last[..0] == "";
    } else {
      DigitsReadBack(n / 10);
      assert (Digits(n / 10) + last)[..|Digits(n / 10)|] == Digits(n / 10);
    }
  }

  /** For example: */
  lemma SummaryExample()
    ensures SummaryText([Device(12, Alias("0-1"), Alias("tv")), Device(3, NoAlias, Alias("hifi"))])
         == "i:12,l:0-1,u:tv|i:3,u:hifi"
  {
    var a, b := Device(12, Alias("0-1"), Alias("tv")), Device(3, NoAlias, Alias("hifi"));
    assert [a, b][..1] == [a];
    assert Digits(12) == "12" && Digits(3) == "3";
    assert AliasText(a) == "i:12,l:0-1,u:tv" && AliasText(b) == "i:3,u:hifi";
  }

  /** A name of more than twelve characters does not fit the buffer of the parser. */
  lemma LongNameMalformed(kind: char, name: string, rest: string, index: string)
    requires Plain(kind, name) && |name| > 12 && (rest == "" || Stops(kind, rest[0]))
    ensures Parse([kind, ':'] + name + rest, index) == Malformed
  {
    SpanOfName(kind, name, rest);
    assert ([kind, ':'] + name + rest)[2..] == name + rest;
  }

  function Power10(k: nat): nat {
    if k == 0 then 1 else 10 * Power10(k - 1)
  }

  /** Behind its separator, a shown alias is a token. */
  lemma ShownToken(tag: string, a: Alias, rest: string)
    requires |tag| == 3 && a.Alias?
    ensures AfterSeparator(Shown(tag, a) + rest) == tag[1..] + a.name + rest
  {
    assert Shown(tag, a) + rest == tag + a.name + rest;
    assert (tag + a.name + rest)[1..] == tag[1..] + a.name + rest;
  }

  lemma PrependNothing(r: Parsed)
    ensures Prepend([], r) == r
  {
  }

  /** An alias in front of what follows it: its path, or nothing. */
  lemma ParseAlias(kind: char, a: Alias, rest: string, index: string)
    requires kind != 'i' && index != "" && (a.Alias? ==> Plain(kind, a.name) && |a.name| <= MAX_NAME)
    requires rest == "" || Stops(kind, rest[0])
    ensures Parse(AfterSeparator(Shown([',', kind, ':'], a) + rest), index) ==
      Prepend(PathOf(kind, NameOf(a), index), Parse(AfterSeparator(rest), index))
  {
    if a.Alias? {
      ShownToken([',', kind, ':'], a, rest);
      assert [',', kind, ':'][1..] == [kind, ':'];
      ParseToken(kind, a.name, rest, index);
    } else {
      assert Shown([',', kind, ':'], a) + rest == rest;
      PrependNothing(Parse(AfterSeparator(rest), index));
    }
  }

  /** The text of a device, as its index followed by its aliases. */
  lemma DeviceParts(d: Device, more: string)
    ensures AliasText(d) + more
         == ['i', ':'] + Digits(d.id) + (Shown([',', 'l', ':'], d.location) + (Shown([',', 'u', ':'], d.user) + more))
  {
    var i, l, u := "i:" + Digits(d.id), Shown(",l:", d.location), Shown(",u:", d.user);
    assert i + l + u + more == i + (l + (u + more));
  }

  lemma PathsParts(d: Device, r: Parsed)
    ensures var id := Digits(d.id);
      Prepend(PathOf('i', id, id),
        Prepend(PathOf('l', NameOf(d.location), id), Prepend(PathOf('u', NameOf(d.user), id), r)))
        == Prepend(PathsOf(d), r)
  {
    var id := Digits(d.id);
    var l, u := PathOf('l', NameOf(d.location), id), PathOf('u', NameOf(d.user), id);
    PrependTwice(l, u, r);
    PrependTwice([Path('i', id, id)], l + u, r);
    assert [Path('i', id, id)] + (l + u) == PathsOf(d);
  }

  /** One device's text in front of the next device or the end. */
  lemma ParseDevice(d: Device, more: string, index: string)
    requires Printable(d) && (more == "" || more[0] == '|')
    ensures Parse(AliasText(d) + more, index) == Prepend(PathsOf(d), Parse(AfterSeparator(more), Digits(d.id)))
  {
    var id := Digits(d.id);
    var tail := Shown([',', 'u', ':'], d.user) + more;
    var middle := Shown([',', 'l', ':'], d.location) + tail;
    assert Power10(7) == 10000000;
    DigitsFit(d.id, 7);
    DeviceParts(d, more);
    ParseToken('i', id, middle, index);
    ParseAlias('l', d.location, tail, id);
    ParseAlias('u', d.user, more, id);
    PathsParts(d, Parse(AfterSeparator(more), id));
  }

  /** The text of several devices, read from the front. */
  lemma {:induction false} SummaryFront(devices: seq<Device>)
    requires |devices| > 1
    ensures SummaryText(devices) == AliasText(devices[0]) + ("|" + SummaryText(devices[1..]))
  {
    var init, last := devices[..|devices| - 1], devices[|devices| - 1];
    if |devices| > 2 {
      SummaryFront(init);
      assert devices[1..][..|devices| - 2] == init[1..];
      JoinText(AliasText(devices[0]), SummaryText(init[1..]), AliasText(last));
    } else {
      assert init == [devices[0]] && devices[1..] == [last];
      JoinTwo(AliasText(devices[0]), AliasText(last));
    }
  }

  lemma JoinText(a: string, b: string, c: string)
    ensures a + ("|" + b) + "|" + c == a + ("|" + (b + "|" + c))
  {
  }

  lemma JoinTwo(a: string, b: string)
    ensures a + "|" + b == a + ("|" + b)
  {
  }

  /** The round trip: parsing the summary of any list of devices gives the index, location
      and user name of each device, in order, each with its own device's index. */
  lemma {:induction false} SummaryRoundTrip(devices: seq<Device>, index: string)
    requires forall i | 0 <= i < |devices| :: Printable(devices[i])
    ensures Parse(SummaryText(devices), index) == Paths(AllPaths(devices))
    decreases |devices|
  {
    if |devices| > 0 {
      var first, others := devices[0], devices[1..];
      var more := if others == [] then "" else "|" + SummaryText(others);
      if others != [] {
        SummaryFront(devices);
        assert AfterSeparator(more) == SummaryText(others);
      } else {
        assert AliasText(first) + "" == AliasText(first);
      }
      ParseDevice(first, more, index);
      SummaryRoundTrip(others, Digits(first.id));
    }
  }
}
