/** The environment: command-line options and the help list. */
module Envs {
  import opened Bytes

  type Options = map<string, string>

  /** One option as written: `-key`, or `-key value`. */
  datatype Item = Flag(key: string) | Pair(key: string, value: string)

  datatype Help = Help(key: string, desc: string)

  // ------------------------------------------------------------- the grammar

  predicate Dashed(arg: string) {
    arg != "" && arg[0] == '-'
  }

  function Value(item: Item): string {
    if item.Pair? then item.value else ""
  }

  /** Items that the command line can express: a key is not empty and a value does not start with a dash. */
  ghost predicate Expressible(items: seq<Item>) {
    forall i :: 0 <= i < |items| ==> items[i].key != "" && !Dashed(Value(items[i]))
  }

  function RenderItem(item: Item): seq<string> {
    match item
    case Flag(key) => ["-" + key]
    case Pair(key, value) => ["-" + key, value]
  }

  function Render(items: seq<Item>): seq<string> {
    if items == [] then [] else RenderItem(items[0]) + Render(items[1..])
  }

  // ------------------------------------------------- what the parser computes

  function Completed(key: Option<string>): seq<Item> {
    if key.Some? then [Flag(key.value)] else []
  }

  /** The items completed while reading, and whether all arguments were accepted; `key` still waits for a value. */
  function Parse(key: Option<string>, args: seq<string>): (seq<Item>, bool)
    decreases args
  {
    if args == [] then (Completed(key), true)
    else if Dashed(args[0]) then
      if |args[0]| > 1 then
        var (items, ok) := Parse(Some(args[0][1..]), args[1..]);
        (Completed(key) + items, ok)
      else ([], false)
    else if key.Some? then
      var (items, ok) := Parse(None, args[1..]);
      ([Pair(key.value, args[0])] + items, ok)
    else ([], false)
  }

  function Assign(options: Options, items: seq<Item>): Options
    decreases items
  {
    if items == [] then options
    else Assign(options[items[0].key := Value(items[0])], items[1..])
  }

  /** A waiting key is an argument that has been read but not yet rendered. */
  function Waiting(key: Option<string>): seq<string> {
    if key.Some? then ["-" + key.value] else []
  }

  /** Where parsing must stop: at a lone dash, or at a value that no key waits for. */
  ghost predicate Stuck(key: Option<string>, args: seq<string>) {
    args != [] && (args[0] == "-" || (key.None? && !Dashed(args[0])))
  }

  /**
   * How a failed command line splits: the completed items, a key that still waits, and the argument it stops at.
   * A key right before that argument waits: it is not a completed item.
   */
  ghost predicate FailsAfter(args: seq<string>, items: seq<Item>, key: Option<string>, rest: seq<string>) {
    && args == Render(items) + Waiting(key) + rest && Stuck(key, rest)
    && (key.Some? ==> key.value != "")
    && (key.None? && items != [] ==> items[|items| - 1].Pair?)
  }

  lemma {:induction false} RenderJoin(head: seq<Item>, more: seq<Item>)
    ensures Render(head + more) == Render(head) + Render(more)
  {
    if head == [] {
      assert head + more == more;
    } else {
      RenderJoin(head[1..], more);
      assert (head + more)[1..] == head[1..] + more;
      assert (RenderItem(head[0]) + Render(head[1..])) + Render(more) ==
             RenderItem(head[0]) + (Render(head[1..]) + Render(more));
    }
  }

  lemma JoinFour(h: seq<string>, m: seq<string>, w: seq<string>, r: seq<string>)
    ensures h + (m + w + r) == (h + m) + w + r
  {
  }

  lemma LastOfJoin(a: seq<Item>, b: seq<Item>)
    ensures b == [] ==> a + b == a
    ensures b != [] ==> |a + b| > 0 && (a + b)[|a + b| - 1] == b[|b| - 1]
  {
  }

  /** A key is not where parsing stops, so what stops there lies behind an item or a waiting key. */
  lemma KeyIsNoStop(args: seq<string>, k: Option<string>, rest: seq<string>)
    requires FailsAfter(args, [], k, rest) && args != [] && Dashed(args[0]) && |args[0]| > 1
    ensures k.Some?
  {
    assert Render([]) + Waiting(k) + rest == Waiting(k) + rest;
    assert Waiting(None) + rest == rest;
  }

  lemma FailsPrepended(head: seq<Item>, args: seq<string>, more: seq<Item>, k: Option<string>, rest: seq<string>)
    requires FailsAfter(args, more, k, rest)
    requires head != [] && head[|head| - 1].Flag? ==> args != [] && Dashed(args[0]) && |args[0]| > 1
    ensures FailsAfter(Render(head) + args, head + more, k, rest)
  {
    hide Render, Stuck, Waiting, Dashed;
    RenderJoin(head, more);
    JoinFour(Render(head), Render(more), Waiting(k), rest);
    LastOfJoin(head, more);
    if head != [] && head[|head| - 1].Flag? && more == [] {
      KeyIsNoStop(args, k, rest);
    }
  }

  lemma FailsLater(head: seq<Item>, args: seq<string>, more: seq<Item>)
    requires exists k, rest :: FailsAfter(args, more, k, rest)
    requires head != [] && head[|head| - 1].Flag? ==> args != [] && Dashed(args[0]) && |args[0]| > 1
    ensures exists k, rest :: FailsAfter(Render(head) + args, head + more, k, rest)
  {
    hide *;
    var k, rest :| FailsAfter(args, more, k, rest);
    FailsPrepended(head, args, more, k, rest);
  }

  lemma FailsHere(key: Option<string>, args: seq<string>)
    requires Stuck(key, args) && (key.Some? ==> key.value != "")
    ensures exists k, rest :: FailsAfter(Waiting(key) + args, [], k, rest)
  {
    assert FailsAfter(Waiting(key) + args, [], key, args);
  }

  lemma RenderCompleted(key: Option<string>)
    ensures Render(Completed(key)) == Waiting(key)
  {
  }

  lemma RenderPair(key: string, args: seq<string>)
    requires args != []
    ensures Render([Pair(key, args[0])]) + args[1..] == Waiting(Some(key)) + args
  {
    assert [Pair(key, args[0])][1..] == [];
  }

  /** Reading forwards: what was accepted is the rendering of the items, and a failure stops exactly after them. */
  lemma {:induction false} ParseReads(key: Option<string>, args: seq<string>)
    requires key.Some? ==> key.value != ""
    ensures var (items, ok) := Parse(key, args);
            && Expressible(items)
            && (ok ==> Waiting(key) + args == Render(items))
            && (!ok ==> exists k, rest :: FailsAfter(Waiting(key) + args, items, k, rest))
    decreases args
  {
    hide FailsAfter, Render, Stuck;
    RenderCompleted(key);
    if args == [] {
      assert Waiting(key) + args == Waiting(key);
    } else if Dashed(args[0]) && |args[0]| > 1 {
      var next := Some(args[0][1..]);
      ParseReads(next, args[1..]);
      WaitingIsRead(args);
      var (more, ok) := Parse(next, args[1..]);
      RenderJoin(Completed(key), more);
      if !ok {
        FailsLater(Completed(key), args, more);
      }
    } else if !Dashed(args[0]) && key.Some? {
      ParseReads(None, args[1..]);
      var (more, ok) := Parse(None, args[1..]);
      assert Waiting(None) + args[1..] == args[1..];
      RenderPair(key.value, args);
      RenderJoin([Pair(key.value, args[0])], more);
      if !ok {
        FailsLater([Pair(key.value, args[0])], args[1..], more);
      }
    } else {
      assert Stuck(key, args) by {
        StuckHere(key, args);
      }
      FailsHere(key, args);
    }
  }

  lemma WaitingIsRead(args: seq<string>)
    requires args != [] && Dashed(args[0])
    ensures Waiting(Some(args[0][1..])) + args[1..] == args
  {
    assert "-" + args[0][1..] == args[0];
  }

  lemma StuckHere(key: Option<string>, args: seq<string>)
    requires args != [] && (!Dashed(args[0]) || |args[0]| <= 1) && (Dashed(args[0]) || key.None?)
    ensures Stuck(key, args)
  {
  }

  /** Writing and reading back: every rendering is accepted, and gives the same items again. */
  lemma {:induction false} ParseOfRendering(items: seq<Item>)
    requires Expressible(items)
    ensures Parse(None, Render(items)) == (items, true)
  {
    if items != [] {
      var more := items[1..];
      assert items == [items[0]] + more;
      assert Expressible(more);
      ParseOfRendering(more);
      assert items[0].key != "" && !Dashed(Value(items[0]));
      match items[0]
      case Pair(key, value) =>
        ParsePair(key, value, Render(more));
      case Flag(key) =>
        ParseFlag(key, Render(more));
        FlagThenRendering(key, more);
    }
  }

  lemma ParseFlag(key: string, rest: seq<string>)
    requires key != ""
    ensures Parse(None, ["-" + key] + rest) == Parse(Some(key), rest)
  {
    var args := ["-" + key] + rest;
    assert args[0][1..] == key && args[1..] == rest;
    var (items, ok) := Parse(Some(key), rest);
    assert Completed(None) + items == items;
    hide Completed;
  }

  lemma ParsePair(key: string, value: string, rest: seq<string>)
    requires key != "" && !Dashed(value)
    ensures var (items, ok) := Parse(None, rest);
            Parse(None, ["-" + key, value] + rest) == ([Pair(key, value)] + items, ok)
  {
    var args := ["-" + key, value] + rest;
    assert args == ["-" + key] + ([value] + rest);
    ParseFlag(key, [value] + rest);
    assert ([value] + rest)[1..] == rest;
  }

  /** A waiting key is completed without a value when another key follows. */
  lemma KeyThenKey(key: string, args: seq<string>)
    requires args != [] && Dashed(args[0]) && |args[0]| > 1
    ensures Parse(Some(key), args) == ([Flag(key)] + Parse(None, args).0, Parse(None, args).1)
  {
    var (more, ok) := Parse(Some(args[0][1..]), args[1..]);
    assert Completed(None) + more == more;
  }

  lemma FlagThenRendering(key: string, items: seq<Item>)
    requires Expressible(items) && Parse(None, Render(items)) == (items, true)
    ensures Parse(Some(key), Render(items)) == ([Flag(key)] + items, true)
  {
    if items != [] {
      assert items[0].key != "";
      assert Render(items)[0] == "-" + items[0].key;
      KeyThenKey(key, Render(items));
    } else {
      assert [Flag(key)] + items == [Flag(key)];
    }
  }

  /** A command line that splits as a failed one fails after exactly those items. */
  lemma {:induction false} ParseOfFailing(items: seq<Item>, key: Option<string>, rest: seq<string>)
    requires Expressible(items) && Stuck(key, rest) && (key.Some? ==> key.value != "")
    requires key.None? && items != [] ==> items[|items| - 1].Pair?
    ensures Parse(None, Render(items) + Waiting(key) + rest) == (items, false)
  {
    if items == [] {
      NothingThenStuck(key, rest);
    } else {
      var more := items[1..];
      assert items == [items[0]] + more;
      assert Expressible(more);
      assert items[0].key != "" && !Dashed(Value(items[0]));
      ParseOfFailing(more, key, rest);
      var tail := Render(more) + Waiting(key) + rest;
      RenderThen(items, Waiting(key), rest);
      match items[0]
      case Pair(k, value) =>
        ParsePair(k, value, tail);
      case Flag(k) =>
        ParseFlag(k, tail);
        KeyComesNext(more, key, rest);
        KeyThenKey(k, tail);
    }
  }

  lemma RenderThen(items: seq<Item>, waiting: seq<string>, rest: seq<string>)
    requires items != []
    ensures Render(items) + waiting + rest == RenderItem(items[0]) + (Render(items[1..]) + waiting + rest)
  {
  }

  lemma NothingThenStuck(key: Option<string>, rest: seq<string>)
    requires Stuck(key, rest) && (key.Some? ==> key.value != "")
    ensures Parse(None, Render([]) + Waiting(key) + rest) == ([], false)
  {
    assert Render([]) + Waiting(key) + rest == Waiting(key) + rest;
    if key.Some? {
      ParseFlag(key.value, rest);
    } else {
      assert Waiting(key) + rest == rest;
    }
  }

  lemma KeyComesNext(items: seq<Item>, key: Option<string>, rest: seq<string>)
    requires Expressible(items) && (items == [] ==> key.Some?) && (key.Some? ==> key.value != "")
    ensures var args := Render(items) + Waiting(key) + rest; args != [] && Dashed(args[0]) && |args[0]| > 1
  {
    if items != [] {
      assert items[0].key != "" && Render(items)[0] == "-" + items[0].key;
    }
  }

  /** The parser accepts exactly the renderings of expressible items, and only one list of items renders so. */
  lemma AcceptsTheGrammar(args: seq<string>)
    ensures Parse(None, args).1 <==> exists items :: Expressible(items) && args == Render(items)
    ensures forall items :: Expressible(items) && args == Render(items) ==> items == Parse(None, args).0
    ensures !Parse(None, args).1 ==> exists k, rest :: FailsAfter(args, Parse(None, args).0, k, rest)
    ensures forall items, k, rest :: Expressible(items) && FailsAfter(args, items, k, rest) ==>
      Parse(None, args) == (items, false)
  {
    hide Render, Parse, Stuck, Expressible;
    ParseReads(None, args);
    assert Waiting(None) + args == args;
    forall items, k, rest | Expressible(items) && FailsAfter(args, items, k, rest)
      ensures Parse(None, args) == (items, false)
    {
      ParseOfFailing(items, k, rest);
    }
    forall items | Expressible(items) && args == Render(items)
      ensures Parse(None, args) == (items, true)
    {
      ParseOfRendering(items);
    }
  }

  ghost predicate LastOf(items: seq<Item>, key: string, i: int) {
    0 <= i < |items| && items[i].key == key && forall j :: i < j < |items| ==> items[j].key != key
  }

  /** A key without an item keeps what it had. */
  lemma {:induction false} NoItemKeeps(options: Options, items: seq<Item>, key: string)
    requires forall i :: 0 <= i < |items| ==> items[i].key != key
    ensures key in Assign(options, items) <==> key in options
    ensures key in options ==> Assign(options, items)[key] == options[key]
    decreases items
  {
    hide Value;
    if items != [] {
      NoItemKeeps(options[items[0].key := Value(items[0])], items[1..], key);
    }
  }

  /** The last item of a key decides its value. */
  lemma {:induction false} LastItemWins(options: Options, items: seq<Item>, key: string, i: int)
    requires LastOf(items, key, i)
    ensures key in Assign(options, items) && Assign(options, items)[key] == Value(items[i])
    decreases items
  {
    hide Value;
    var next := options[items[0].key := Value(items[0])];
    if i == 0 {
      NoItemKeeps(next, items[1..], key);
    } else {
      LastItemWins(next, items[1..], key, i - 1);
    }
  }

  /** The items write out a map: one at least for each key, each with the value the map gives. */
  ghost predicate WritesOut(items: seq<Item>, options: Options) {
    && (forall i :: 0 <= i < |items| ==> items[i].key in options && Value(items[i]) == options[items[i].key])
    && (forall key :: key in options ==> exists i :: 0 <= i < |items| && items[i].key == key)
  }

  /** Any rendering of a map, parsed from an empty environment, gives the map back. */
  lemma OptionsRoundTrip(items: seq<Item>, options: Options)
    requires WritesOut(items, options)
    requires forall key :: key in options ==> key != "" && !Dashed(options[key])
    ensures Parse(None, Render(items)) == (items, true)
    ensures Assign(map[], items) == options
  {
    ParseOfRendering(items);
    forall key
      ensures key in Assign(map[], items) <==> key in options
      ensures key in options ==> key in Assign(map[], items) && Assign(map[], items)[key] == options[key]
    {
      if key in options {
        LastOccurrence(items, key);
        var i :| LastOf(items, key, i);
        LastItemWins(map[], items, key, i);
      } else {
        NoItemKeeps(map[], items, key);
      }
    }
  }

  lemma {:induction false} LastOccurrence(items: seq<Item>, key: string)
    requires exists i :: 0 <= i < |items| && items[i].key == key
    ensures exists i :: LastOf(items, key, i)
  {
    var n := |items| - 1;
    if items[n].key == key {
      assert LastOf(items, key, n);
    } else {
      LastOccurrence(items[..n], key);
      var i :| LastOf(items[..n], key, i);
      assert LastOf(items, key, i);
    }
  }

  // --------------------------------------------------------------- help list

  datatype HelpOp = AddHelp(key: string, desc: string) | RemoveHelp(key: string)

  /** The help list without a key, in the same order. */
  function Without(helps: seq<Help>, key: string): seq<Help> {
    if helps == [] then []
    else Without(helps[..|helps| - 1], key) + if helps[|helps| - 1].key == key then [] else [helps[|helps| - 1]]
  }

  function AfterOps(ops: seq<HelpOp>): seq<Help> {
    if ops == [] then []
    else
      var op := ops[|ops| - 1];
      Without(AfterOps(ops[..|ops| - 1]), op.key) + if op.AddHelp? then [Help(op.key, op.desc)] else []
  }

  function Surviving(op: HelpOp, later: seq<HelpOp>): seq<Help> {
    if op.AddHelp? && (forall j :: 0 <= j < |later| ==> later[j].key != op.key) then [Help(op.key, op.desc)] else []
  }

  /** The additions that no later operation on the same key undoes, in order. */
  function Survivors(ops: seq<HelpOp>): seq<Help> {
    if ops == [] then []
    else Surviving(ops[0], ops[1..]) + Survivors(ops[1..])
  }

  lemma {:induction false} WithoutJoin(a: seq<Help>, b: seq<Help>, key: string)
    ensures Without(a + b, key) == Without(a, key) + Without(b, key)
  {
    if b == [] {
      assert a + b == a;
    } else {
      WithoutJoin(a, b[..|b| - 1], key);
      assert (a + b)[..|a + b| - 1] == a + b[..|b| - 1];
    }
  }

  lemma {:induction false} SurvivorsOneMore(ops: seq<HelpOp>, op: HelpOp)
    ensures Survivors(ops + [op]) ==
            Without(Survivors(ops), op.key) + if op.AddHelp? then [Help(op.key, op.desc)] else []
  {
    hide Surviving, Without;
    if ops == [] {
      SurvivorsOfOne(op);
    } else {
      SurvivorsOneMore(ops[1..], op);
      SurvivingOneMore(ops[0], ops[1..], op);
      WithoutJoin(Surviving(ops[0], ops[1..]), Survivors(ops[1..]), op.key);
      assert (ops + [op])[1..] == ops[1..] + [op];
    }
  }

  lemma SurvivorsOfOne(op: HelpOp)
    ensures Survivors([] + [op]) == Without(Survivors([]), op.key) + if op.AddHelp? then [Help(op.key, op.desc)] else []
  {
    assert [] + [op] == [op] && [op][1..] == [];
  }

  lemma SurvivingOneMore(first: HelpOp, later: seq<HelpOp>, op: HelpOp)
    ensures Surviving(first, later + [op]) == Without(Surviving(first, later), op.key)
  {
    var more := later + [op];
    assert more[|later|] == op;
    assert forall j :: 0 <= j < |later| ==> more[j] == later[j];
    if Surviving(first, later) != [] {
      assert Surviving(first, later)[..0] == [];
    }
  }

  /** After any run, the list holds exactly the surviving additions, in the order of their last addition. */
  lemma {:induction false} HelpListIsSurvivors(ops: seq<HelpOp>)
    ensures AfterOps(ops) == Survivors(ops)
  {
    if ops != [] {
      HelpListIsSurvivors(ops[..|ops| - 1]);
      SurvivorsOneMore(ops[..|ops| - 1], ops[|ops| - 1]);
      assert ops == ops[..|ops| - 1] + [ops[|ops| - 1]];
    }
  }

  lemma {:induction false} SurvivorIsLast(ops: seq<HelpOp>, h: Help)
    requires h in Survivors(ops)
    ensures exists i :: 0 <= i < |ops| && ops[i] == AddHelp(h.key, h.desc) &&
                        (forall j :: i < j < |ops| ==> ops[j].key != h.key)
  {
    if h in Surviving(ops[0], ops[1..]) {
      assert ops[0] == AddHelp(h.key, h.desc);
      assert forall j :: 0 < j < |ops| ==> ops[j] == ops[1..][j - 1];
    } else {
      SurvivorIsLast(ops[1..], h);
      var i :| 0 <= i < |ops[1..]| && ops[1..][i] == AddHelp(h.key, h.desc) &&
               (forall j :: i < j < |ops[1..]| ==> ops[1..][j].key != h.key);
      assert ops[i + 1] == AddHelp(h.key, h.desc);
      assert forall j :: i + 1 < j < |ops| ==> ops[j] == ops[1..][j - 1];
    }
  }

  /** The list never holds a key twice. */
  lemma {:induction false} HelpKeysAreUnique(ops: seq<HelpOp>)
    ensures forall i, j :: 0 <= i < j < |Survivors(ops)| ==> Survivors(ops)[i].key != Survivors(ops)[j].key
  {
    if ops != [] {
      HelpKeysAreUnique(ops[1..]);
      var head, rest := Surviving(ops[0], ops[1..]), Survivors(ops[1..]);
      forall h | h in rest && head != []
        ensures h.key != head[0].key
      {
        SurvivorIsLast(ops[1..], h);
      }
      assert Survivors(ops) == head + rest;
    }
  }

  // -------------------------------------------------------- the environment

  class Env {
    var program: string
    var options: Options
    var helps: seq<Help>

    constructor ()
      ensures options == map[] && helps == []
    {
      program, options, helps := "", map[], [];
    }

    method Add(key: string, val: string)
      modifies `options
      ensures options == old(options)[key := val]
    {
      options := options[key := val];
    }

    method Has(key: string) returns (found: bool)
      ensures found <==> key in options
    {
      found := key in options;
    }

    method Del(key: string)
      modifies `options
      ensures options == old(options) - {key}
    {
      options := options - {key};
    }

    method Get(key: string, defaultValue: string) returns (val: string)
      ensures val == if key in options then options[key] else defaultValue
    {
      val := if key in options then options[key] else defaultValue;
    }

    /** Reads the command line; on failure the options completed before the bad argument stay. */
    method Init(argv: seq<string>) returns (ok: bool)
      requires argv != []
      modifies `program, `options
      ensures program == argv[0]
      ensures ok == Parse(None, argv[1..]).1
      ensures options == Assign(old(options), Parse(None, argv[1..]).0)
    {
      program := argv[0];
      var nowKey: Option<string> := None;
      ghost var all := Assign(options, Parse(None, argv[1..]).0);
      ghost var accepted := Parse(None, argv[1..]).1;
      for i := 1 to |argv|
        invariant program == argv[0]
        invariant Parse(nowKey, argv[i..]).1 == accepted
        invariant Assign(options, Parse(nowKey, argv[i..]).0) == all
      {
        ParseOne(options, nowKey, argv, i);
        if argv[i] != "" && argv[i][0] == '-' {
          if |argv[i]| > 1 {
            if nowKey.Some? {
              Add(nowKey.value, "");
            }
            nowKey := Some(argv[i][1..]);
          } else {
            return false;
          }
        } else {
          if nowKey.Some? {
            Add(nowKey.value, argv[i]);
            nowKey := None;
          } else {
            return false;
          }
        }
      }
      assert argv[|argv|..] == [];
      ParseNone(options, nowKey);
      if nowKey.Some? {
        Add(nowKey.value, "");
      }
      ok := true;
    }

    /** Erases the entries of a key while walking over the list. */
    method RemoveHelp(key: string)
      modifies `helps
      ensures helps == Without(old(helps), key)
    {
      hide Without;
      var i := 0;
      ghost var done := 0;
      WithoutNothing(helps, key);
      while i != |helps|
        invariant 0 <= i <= |helps| && 0 <= done <= |old(helps)|
        invariant helps == Without(old(helps)[..done], key) + old(helps)[done..]
        invariant i == |Without(old(helps)[..done], key)|
        invariant |helps| == i + |old(helps)| - done
        decreases |helps| - i
      {
        WithoutOneMore(old(helps), done, key);
        WalkOne(helps, Without(old(helps)[..done], key), old(helps)[done], old(helps)[done + 1..]);
        if helps[i].key == key {
          helps := helps[..i] + helps[i + 1..];
        } else {
          i := i + 1;
        }
        done := done + 1;
      }
      WithoutDone(old(helps), done, key);
    }

    method AddHelp(key: string, desc: string)
      modifies `helps
      ensures helps == Without(old(helps), key) + [Help(key, desc)]
    {
      RemoveHelp(key);
      helps := helps + [Help(key, desc)];
    }

    /** One operation of a run. */
    method Perform(op: HelpOp, ghost before: seq<HelpOp>)
      requires helps == Survivors(before)
      modifies `helps
      ensures helps == Survivors(before + [op])
    {
      SurvivorsOneMore(before, op);
      match op
      case AddHelp(key, desc) =>
        AddHelp(key, desc);
      case RemoveHelp(key) =>
        RemoveHelp(key);
    }
  }

  lemma ParseNone(options: Options, key: Option<string>)
    ensures Parse(key, []) == (Completed(key), true)
    ensures Assign(options, Completed(key)) == if key.Some? then options[key.value := ""] else options
  {
  }

  /** What one argument does, as the loop of `Init` sees it. */
  lemma ParseOne(options: Options, key: Option<string>, argv: seq<string>, i: nat)
    requires i < |argv|
    ensures var (items, ok) := Parse(key, argv[i..]);
            if Dashed(argv[i]) && |argv[i]| > 1 then
              var (more, accepted) := Parse(Some(argv[i][1..]), argv[i + 1..]);
              ok == accepted &&
              Assign(options, items) == Assign(if key.Some? then options[key.value := ""] else options, more)
            else if !Dashed(argv[i]) && key.Some? then
              var (more, accepted) := Parse(None, argv[i + 1..]);
              ok == accepted && Assign(options, items) == Assign(options[key.value := argv[i]], more)
            else
              !ok && Assign(options, items) == options
  {
    assert argv[i..][0] == argv[i] && argv[i..][1..] == argv[i + 1..];
    if Dashed(argv[i]) && |argv[i]| > 1 {
      var more := Parse(Some(argv[i][1..]), argv[i + 1..]).0;
      if key.Some? {
        assert ([Flag(key.value)] + more)[1..] == more;
      } else {
        assert [] + more == more;
      }
    } else if !Dashed(argv[i]) && key.Some? {
      var more := Parse(None, argv[i + 1..]).0;
      assert ([Pair(key.value, argv[i])] + more)[1..] == more;
    }
  }

  lemma WithoutNothing(helps: seq<Help>, key: string)
    ensures Without(helps[..0], key) == [] && helps == [] + helps[0..]
  {
  }

  lemma WithoutDone(helps: seq<Help>, done: nat, key: string)
    requires done == |helps|
    ensures Without(helps[..done], key) + helps[done..] == Without(helps, key)
  {
    assert helps[..done] == helps;
  }

  /** The list while walking: what is kept so far, the entry under the iterator, and the rest. */
  lemma WalkOne(helps: seq<Help>, kept: seq<Help>, entry: Help, rest: seq<Help>)
    requires helps == kept + ([entry] + rest)
    ensures helps[|kept|] == entry
    ensures helps[..|kept|] + helps[|kept| + 1..] == kept + rest
    ensures helps == (kept + [entry]) + rest
  {
  }

  lemma WithoutOneMore(helps: seq<Help>, done: nat, key: string)
    requires done < |helps|
    ensures helps[..done + 1] == helps[..done] + [helps[done]]
    ensures Without(helps[..done + 1], key) ==
            if helps[done].key == key then Without(helps[..done], key) else Without(helps[..done], key) + [helps[done]]
    ensures helps[done..] == [helps[done]] + helps[done + 1..]
  {
    assert helps[..done + 1][..done] == helps[..done];
  }
}
