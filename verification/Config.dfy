/**
 The configuration as lists of items: what recording an item does to the list, and what the
 daemon then reads. include/conf.h and src/conf.c.
 */
module ConfigItems {
  import opened Chains
  import opened Options

  /** A parsed line of the configuration file; params are the values after the semicolons. */
  datatype Line = Line(name: string, value: string, params: seq<string>)

  datatype Item = Item(name: string, value: string, params: seq<string>, isDefault: bool)

  const MULTIVALUES: seq<string> := ["dnsbl", "rhsbl", "dnswl", "check", "stat_type", "protocol", "log_method"]

  predicate Multivalued(name: string) {
    name in MULTIVALUES
  }

  const DEFAULTS: seq<(string, string)> := [
    ("update", "grey"),
    ("host", "127.0.0.1"),
    ("port", "5525"),
    ("sync_port", "5524"),
    ("status_port", "5522"),
    ("rotate_interval", "3600"),
    ("filter_bits", "24"),
    ("number_buffers", "8"),
    ("stat_interval", "300"),
    ("postfix_response_grey", "action=defer_if_permit %reason%"),
    ("postfix_response_block", "action=reject %reason%"),
    ("sjsms_response_grey", "$X4.4.3|$N%reason%"),
    ("sjsms_response_match", "$Y"),
    ("sjsms_response_trust", "$Y"),
    ("sjsms_response_block", "$N%reason%"),
    ("log_method", "syslog"),
    ("log_level", "info"),
    ("stat_type", "delay"),
    ("stat_type", "status"),
    ("grey_mask", "24"),
    ("grey_mask6", "64"),
    ("grey_delay", "10"),
    ("grey_tuple", "user"),
    ("syslog_facility", "mail"),
    ("blocker_port", "4466"),
    ("blocker_weight", "1"),
    ("block_threshold", "0"),
    ("grey_threshold", "1"),
    ("grey_reason", "Please try again later"),
    ("block_reason", "Bad reputation"),
    ("query_timelimit", "5000"),
    ("pool_maxthreads", "100")]

  /** Items are added at the front, so the list is in reverse order of the table. */
  function DefaultItems(pairs: seq<(string, string)>): seq<Item> {
    if pairs == [] then [] else
    var last := pairs[|pairs| - 1];
    [Item(last.0, last.1, [], true)] + DefaultItems(pairs[..|pairs| - 1])
  }

  predicate Deletable(item: Item, name: string) {
    item.isDefault && item.name == name
  }

  /** The items that the removal loop deletes. */
  function Deletes(name: string): Item -> bool {
    item => Deletable(item, name)
  }

  function Replaced(items: seq<Item>, name: string, value: string): seq<Item> {
    if items == [] then []
    else if items[0].name == name then [items[0].(value := value)] + items[1..]
    else [items[0]] + Replaced(items[1..], name, value)
  }

  predicate Named(items: seq<Item>, name: string) {
    exists i :: 0 <= i < |items| && items[i].name == name
  }

  function Added(line: Line): Item {
    Item(line.name, line.value, line.params, false)
  }

  /** record_config_item. */
  function Recorded(items: seq<Item>, line: Line): seq<Item> {
    if Multivalued(line.name) then [Added(line)] + Purged(items, Deletes(line.name))
    else if Named(items, line.name) then Replaced(items, line.name, line.value)
    else [Added(line)] + items
  }

  function Load(items: seq<Item>, lines: seq<Line>): seq<Item> {
    if lines == [] then items
    else Recorded(Load(items, lines[..|lines| - 1]), lines[|lines| - 1])
  }

  /** gconf. */
  function Value(items: seq<Item>, name: string): Option<string> {
    if items == [] then None
    else if items[0].name == name then Some(items[0].value)
    else Value(items[1..], name)
  }

  // What a reader of the list sees for one name.

  /** The items of a name, in list order. */
  function Of(items: seq<Item>, name: string): seq<Item> {
    if items == [] then []
    else (if items[0].name == name then [items[0]] else []) + Of(items[1..], name)
  }

  /** The lines of a name, in file order. */
  function Given(lines: seq<Line>, name: string): seq<Line> {
    if lines == [] then []
    else
      var last := lines[|lines| - 1];
      Given(lines[..|lines| - 1], name) + (if last.name == name then [last] else [])
  }

  /** The items the lines add, the last line first. */
  function NewestFirst(lines: seq<Line>): seq<Item> {
    if lines == [] then []
    else [Added(lines[|lines| - 1])] + NewestFirst(lines[..|lines| - 1])
  }

  /** No default of a multivalued name stands at the front. */
  ghost predicate FrontSafe(items: seq<Item>) {
    items != [] ==> !(items[0].isDefault && Multivalued(items[0].name))
  }

  ghost predicate AllDefault(items: seq<Item>) {
    forall i :: 0 <= i < |items| ==> items[i].isDefault
  }

  /** What the items of a name are after the lines: the specification. */
  function Expected(defaults: seq<Item>, given: seq<Line>): seq<Item> {
    if given == [] then defaults
    else
      var first, last := given[0], given[|given| - 1];
      if Multivalued(last.name) then NewestFirst(given)
      else if defaults == [] then [Added(first).(value := last.value)]
      else defaults[0 := defaults[0].(value := last.value)]
  }

  /**
   Every sequence of lines: a multivalued name has its own values, newest first, and its defaults
   only if it was never given; any other name has one value, the last one given.
   */
  lemma {:induction false} LoadExpected(defaults: seq<Item>, lines: seq<Line>, name: string)
    requires FrontSafe(defaults) && AllDefault(defaults)
    ensures FrontSafe(Load(defaults, lines))
    ensures Of(Load(defaults, lines), name) == Expected(Of(defaults, name), Given(lines, name))
  {
    if lines != [] {
      var line := lines[|lines| - 1];
      var before := lines[..|lines| - 1];
      LoadExpected(defaults, before, name);
      var items := Load(defaults, before);
      RecordedFront(items, line);
      RecordedOf(items, line, name);
      GivenNamed(before, name);
      if line.name == name {
        OfDefault(defaults, name);
        NamedOf(defaults, name);
        ExpectedStep(Of(defaults, name), Given(before, name), line);
      } else {
        assert Given(lines, name) == Given(before, name);
      }
    }
  }

  lemma RecordedFront(items: seq<Item>, line: Line)
    requires FrontSafe(items)
    ensures FrontSafe(Recorded(items, line))
  {
  }

  /** How one line changes what is seen for one name. */
  lemma RecordedOf(items: seq<Item>, line: Line, name: string)
    requires FrontSafe(items)
    ensures var was, now := Of(items, name), Of(Recorded(items, line), name);
      if name != line.name then now == was
      else if Multivalued(name) then now == [Added(line)] + Kept(was, Deletes(name))
      else if was == [] then now == [Added(line)]
      else now == was[0 := was[0].(value := line.value)]
  {
    NamedOf(items, name);
    if Multivalued(line.name) {
      assert Purged(items, Deletes(line.name)) == Kept(items, Deletes(line.name));
      KeptOf(items, line.name, name);
      OfPrepended(Added(line), Kept(items, Deletes(line.name)), name);
    } else if Named(items, line.name) {
      ReplacedOf(items, line.name, line.value, name);
    } else {
      OfPrepended(Added(line), items, name);
    }
  }

  lemma OfPrepended(item: Item, items: seq<Item>, name: string)
    ensures Of([item] + items, name) == (if item.name == name then [item] else []) + Of(items, name)
  {
    assert ([item] + items)[1..] == items;
  }

  lemma {:induction false} NamedOf(items: seq<Item>, name: string)
    ensures Named(items, name) <==> Of(items, name) != []
    ensures forall i :: 0 <= i < |Of(items, name)| ==> Of(items, name)[i].name == name
  {
    if items != [] {
      NamedOf(items[1..], name);
      if i :| 0 <= i < |items| && items[i].name == name {
        if i > 0 {
          assert items[1..][i - 1].name == name;
        }
      }
    }
  }

  lemma {:induction false} KeptOf(items: seq<Item>, deleted: string, name: string)
    ensures Of(Kept(items, Deletes(deleted)), name) ==
      if name == deleted then Kept(Of(items, name), Deletes(name)) else Of(items, name)
  {
    if items != [] {
      var rest := items[1..];
      KeptOf(rest, deleted, name);
      OfPrepended(items[0], Kept(rest, Deletes(deleted)), name);
      assert ([items[0]] + Of(rest, name))[1..] == Of(rest, name);
      if Deletable(items[0], deleted) {
        assert Kept(items, Deletes(deleted)) == Kept(rest, Deletes(deleted));
      }
      if items[0].name != name {
        assert Of(items, name) == Of(rest, name);
      }
    }
  }

  lemma {:induction false} ReplacedOf(items: seq<Item>, replaced: string, value: string, name: string)
    requires Named(items, replaced)
    ensures Of(items, replaced) != []
    ensures var was := Of(items, name);
      Of(Replaced(items, replaced, value), name) ==
        if name == replaced then was[0 := was[0].(value := value)] else was
  {
    NamedOf(items, replaced);
    var rest := items[1..];
    if items[0].name == replaced {
      OfPrepended(items[0].(value := value), rest, name);
    } else {
      var i :| 0 <= i < |items| && items[i].name == replaced;
      assert rest[i - 1].name == replaced;
      ReplacedOf(rest, replaced, value, name);
      OfPrepended(items[0], Replaced(rest, replaced, value), name);
    }
  }

  lemma {:induction false} ReplacedAt(items: seq<Item>, name: string, value: string, i: nat)
    requires i < |items| && items[i].name == name && forall k :: 0 <= k < i ==> items[k].name != name
    ensures Replaced(items, name, value) == items[i := items[i].(value := value)]
  {
    if i > 0 {
      ReplacedAt(items[1..], name, value, i - 1);
    }
  }

  lemma {:induction false} GivenNamed(lines: seq<Line>, name: string)
    ensures forall i :: 0 <= i < |Given(lines, name)| ==> Given(lines, name)[i].name == name
  {
    if lines != [] {
      GivenNamed(lines[..|lines| - 1], name);
    }
  }

  lemma {:induction false} OfDefault(items: seq<Item>, name: string)
    requires AllDefault(items)
    ensures AllDefault(Of(items, name))
  {
    if items != [] {
      OfDefault(items[1..], name);
    }
  }

  /** All values of a multivalued name are dropped while they are defaults, and none later. */
  lemma {:induction false} KeptNone(items: seq<Item>, name: string)
    requires AllDefault(items) && forall i :: 0 <= i < |items| ==> items[i].name == name
    ensures Kept(items, Deletes(name)) == []
  {
    if items != [] {
      KeptNone(items[1..], name);
    }
  }

  lemma {:induction false} KeptAll(lines: seq<Line>, name: string)
    ensures Kept(NewestFirst(lines), Deletes(name)) == NewestFirst(lines)
  {
    if lines != [] {
      var before := lines[..|lines| - 1];
      KeptAll(before, name);
      assert NewestFirst(lines)[1..] == NewestFirst(before);
    }
  }

  lemma ExpectedStep(defaults: seq<Item>, given: seq<Line>, line: Line)
    requires AllDefault(defaults) && forall i :: 0 <= i < |defaults| ==> defaults[i].name == line.name
    requires forall i :: 0 <= i < |given| ==> given[i].name == line.name
    ensures var was, now := Expected(defaults, given), Expected(defaults, given + [line]);
      if Multivalued(line.name) then now == [Added(line)] + Kept(was, Deletes(line.name))
      else if was == [] then now == [Added(line)]
      else now == was[0 := was[0].(value := line.value)]
  {
    assert (given + [line])[..|given|] == given;
    KeptNone(defaults, line.name);
    KeptAll(given, line.name);
  }

  lemma {:induction false} ValueIsFirst(items: seq<Item>, name: string)
    ensures Value(items, name) == if Of(items, name) == [] then None else Some(Of(items, name)[0].value)
  {
    if items != [] {
      ValueIsFirst(items[1..], name);
    }
  }

  lemma DefaultsSafe()
    ensures FrontSafe(DefaultItems(DEFAULTS)) && AllDefault(DefaultItems(DEFAULTS))
  {
    assert DEFAULTS[|DEFAULTS| - 1] == ("pool_maxthreads", "100");
    forall m | m in MULTIVALUES
      ensures |m| < |"pool_maxthreads"|
    {
    }
    DefaultsDefault(DEFAULTS);
  }

  /**
   It is the order of the table that makes them safe: were stat_type its last entry, as it is of
   the first 19, the first stat_type line would leave a freed node at the front of the list.
   */
  lemma TableOrderMatters(line: Line)
    requires line.name == "stat_type"
    ensures
      var items := DefaultItems(DEFAULTS[..19]);
      && items[0] == Item("stat_type", "status", [], true)
      && Deletable(items[0], line.name)
      && |Recorded(items, line)| > 1 && Recorded(items, line)[1] == items[0]
  {
    var items := DefaultItems(DEFAULTS[..19]);
    assert DEFAULTS[..19][18] == ("stat_type", "status");
    assert Multivalued("stat_type") by {
      assert MULTIVALUES[4] == "stat_type";
    }
    assert Purged(items, Deletes("stat_type"))[0] == items[0];
  }

  lemma {:induction false} DefaultsDefault(pairs: seq<(string, string)>)
    ensures AllDefault(DefaultItems(pairs))
  {
    if pairs != [] {
      DefaultsDefault(pairs[..|pairs| - 1]);
    }
  }

  /** Starting from the built-in defaults, every name reads as its last line says, else as its default. */
  lemma {:induction false} ReadsLastGiven(lines: seq<Line>, name: string)
    ensures var items, given := DefaultItems(DEFAULTS), Given(lines, name);
      Value(Load(items, lines), name) ==
        if given == [] then Value(items, name) else Some(given[|given| - 1].value)
  {
    DefaultsSafe();
    ReadsLast(DefaultItems(DEFAULTS), lines, name);
  }

  lemma {:induction false} ReadsLast(items: seq<Item>, lines: seq<Line>, name: string)
    requires FrontSafe(items) && AllDefault(items)
    ensures var given := Given(lines, name);
      Value(Load(items, lines), name) ==
        if given == [] then Value(items, name) else Some(given[|given| - 1].value)
  {
    LoadExpected(items, lines, name);
    ValueIsFirst(items, name);
    ValueIsFirst(Load(items, lines), name);
  }
}

/** The linked list that holds the items. src/conf.c. */
module ConfigLists {
  import opened Chains
  import opened ConfigItems
  import opened Options

  /** multivalue. */
  method Multivalue(name: string) returns (r: bool)
    ensures r <==> Multivalued(name)
  {
    var i := 0;
    while i < |MULTIVALUES|
      invariant 0 <= i <= |MULTIVALUES|
      invariant forall j :: 0 <= j < i ==> MULTIVALUES[j] != name
    {
      if name == MULTIVALUES[i] {
        return true;
      }
      i := i + 1;
    }
    return false;
  }

  /** default_config. */
  method DefaultConfig() returns (config: Chain<Item>)
    ensures config.Valid() && fresh(config) && fresh(config.repr) && config.items == DefaultItems(DEFAULTS)
  {
    config := new Chain<Item>();
    var i := 0;
    while i < |DEFAULTS|
      invariant 0 <= i <= |DEFAULTS|
      invariant config.Valid() && fresh(config) && fresh(config.repr)
      invariant config.items == DefaultItems(DEFAULTS[..i])
    {
      config.Prepend(Item(DEFAULTS[i].0, DEFAULTS[i].1, [], true));
      assert DEFAULTS[..i + 1][..i] == DEFAULTS[..i];
      i := i + 1;
    }
    assert DEFAULTS[..i] == DEFAULTS;
  }

  /** gconf. */
  method Gconf(config: Chain<Item>, name: string) returns (value: Option<string>)
    requires config.Valid()
    ensures value == Value(config.items, name)
  {
    var cp := config.head;
    ghost var i := 0;
    while cp != null
      invariant i <= |config.nodes| && cp == At(config.nodes, i)
      invariant Value(config.items, name) == Value(config.items[i..], name)
      decreases |config.nodes| - i
    {
      assert config.items[i..][1..] == config.items[i + 1..];
      if cp.item.name == name {
        return Some(cp.item.value);
      }
      cp := cp.next;
      i := i + 1;
    }
    return None;
  }

  /** The second loop of record_config_item: gives a single-valued name its new value. */
  method Replace(config: Chain<Item>, name: string, value: string) returns (found: bool)
    requires config.Valid()
    modifies config`items, config.repr
    ensures config.Valid()
    ensures found <==> Named(old(config.items), name)
    ensures config.items == if found then Replaced(old(config.items), name, value) else old(config.items)
  {
    var cp := config.head;
    ghost var i := 0;
    while cp != null
      invariant i <= |config.nodes| && cp == At(config.nodes, i)
      invariant forall k :: 0 <= k < i ==> config.items[k].name != name
      decreases |config.nodes| - i
    {
      if cp.item.name == name {
        config.Set(cp, cp.item.(value := value), i);
        ReplacedAt(old(config.items), name, value, i);
        return true;
      }
      cp := cp.next;
      i := i + 1;
    }
    return false;
  }

  /**
   record_config_item. Freed says of every node that is still linked whether its memory was given
   back: none was, exactly when no default value of a multivalued name stood at the front.
   */
  method RecordItem(config: Chain<Item>, name: string, value: string, params: seq<string>)
    returns (ghost freed: seq<bool>)
    requires config.Valid()
    modifies config, config.repr
    ensures config.Valid() && fresh(config.repr - old(config.repr))
    ensures config.items == Recorded(old(config.items), Line(name, value, params))
    ensures |freed| == |config.items|
    ensures true !in freed <==>
      (Multivalued(name) && old(config.items) != [] ==> !Deletable(old(config.items)[0], name))
  {
    var multi := Multivalue(name);
    var item := Item(name, value, params, false);
    if multi {
      freed := config.Remove(Deletes(name));
      config.Prepend(item);
      freed := [false] + freed;
    } else {
      var found := Replace(config, name, value);
      if !found {
        config.Prepend(item);
      }
      freed := NoneFreed(|config.items|);
    }
  }

  /** One line of the file, in a list whose front is safe. */
  method RecordLine(config: Chain<Item>, line: Line) returns (ghost safe: bool)
    requires config.Valid() && FrontSafe(config.items)
    modifies config, config.repr
    ensures config.Valid() && fresh(config.repr - old(config.repr)) && config.items == Recorded(old(config.items), line)
    ensures safe && FrontSafe(config.items)
  {
    RecordedFront(config.items, line);
    ghost var freed := RecordItem(config, line.name, line.value, line.params);
    safe := true !in freed;
  }

  method RecordLines(config: Chain<Item>, lines: seq<Line>) returns (ghost safe: bool)
    requires config.Valid() && FrontSafe(config.items)
    modifies config, config.repr
    ensures config.Valid() && fresh(config.repr - old(config.repr)) && config.items == Load(old(config.items), lines)
    ensures safe
  {
    safe := true;
    var i := 0;
    while i < |lines|
      invariant 0 <= i <= |lines| && config.Valid() && fresh(config.repr - old(config.repr))
      invariant config.items == Load(old(config.items), lines[..i]) && FrontSafe(config.items) && safe
    {
      ghost var one := RecordLine(config, lines[i]);
      safe := safe && one;
      assert lines[..i + 1][..i] == lines[..i];
      i := i + 1;
    }
    assert lines[..i] == lines;
  }

  /**
   The daemon's start: the defaults, then every line of the configuration file. Whatever the lines,
   no node that has been freed is ever reachable again.
   */
  method LoadConfig(lines: seq<Line>) returns (config: Chain<Item>, ghost safe: bool)
    ensures config.Valid() && config.items == Load(DefaultItems(DEFAULTS), lines)
    ensures safe
  {
    config := DefaultConfig();
    DefaultsSafe();
    safe := RecordLines(config, lines);
  }
}
