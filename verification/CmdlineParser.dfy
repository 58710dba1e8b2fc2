// The option parser of the ogrt command line on top of the scanner: update_arg and
// cmdline_parser_internal of client/src/ogrt-cmdline.c.
module CmdlineParser {
  import opened Wrappers
  import opened LongOptions
  import opened Reference
  import opened Getopt
  import opened Usage

  const CODE_HELP := 'h' as int
  const CODE_VERSION := 'V' as int

  // Positions in the option table.
  const GENERATE := 2
  const SHOW := 3

  const TABLE := [
    LongOption("help", NO_ARGUMENT, None, CODE_HELP),
    LongOption("version", NO_ARGUMENT, None, CODE_VERSION),
    LongOption("generate-signature", NO_ARGUMENT, None, 0),
    LongOption("show-signature", REQUIRED_ARGUMENT, None, 0)]

  const GRAMMAR := Grammar("hV", Some(TABLE))

  datatype ArgType = ArgNo | ArgString

  // struct cmdline_parser_params, without the members that only affect printing and
  // without check_required, which is never consulted.
  datatype Params = Params(override: bool, initialize: bool, checkAmbiguity: bool)

  // How a parse ends: by returning, or by leaving the program.
  datatype Outcome = Success | Failure | ExitHelp | ExitVersion | Abort

  // ---- update_arg ----------------------------------------------------------------------

  const UINT_RANGE := 0x1_0000_0000

  function Increment(n: nat): nat {
    (n + 1) % UINT_RANGE
  }

  // The fields gengetopt_args_info keeps for one option.
  datatype Slot = Slot(given: nat, arg: Option<string>, orig: Option<string>)

  const UNSET := Slot(0, None, None)

  datatype Update = Repeated | Unchanged | Stored(slot: Slot, prev: nat)

  // The value to store: the first of the possible values, if the option has such a list.
  function ValueToStore(value: Option<string>, possible: Option<seq<string>>): Option<string> {
    if possible.None? then value else if possible.value == [] then None else Some(possible.value[0])
  }

  // prev counts the occurrences in this parse, slot.given those in the caller's structure.
  function Updated(slot: Slot, prev: nat, value: Option<string>, possible: Option<seq<string>>, argType: ArgType,
                   checkAmbiguity: bool, override: bool, multiple: bool): Update
  {
    if !multiple && (prev > 0 || (checkAmbiguity && slot.given > 0)) then Repeated
    else if slot.given > 0 && !override then Unchanged
    else
      var val := ValueToStore(value, possible);
      Stored(Slot(Increment(slot.given),
                  if argType == ArgString && val.Some? then val else slot.arg,
                  if argType == ArgString && value.Some? then value else slot.orig),
             Increment(prev))
  }

  class OptionSlot {
    var given: nat
    var arg: Option<string>
    var orig: Option<string>

    constructor ()
      ensures View() == UNSET
    {
      given, arg, orig := 0, None, None;
    }

    function View(): Slot
      reads this
    {
      Slot(given, arg, orig)
    }

    method Clear()
      modifies this
      ensures View() == UNSET
    {
      given, arg, orig := 0, None, None;
    }
  }

  // update_arg; none of its pointers to counts is null in ogrt's parser, and an option
  // without argument has no fields to store one in.
  method UpdateArg(field: OptionSlot, prev: OptionSlot, value: Option<string>, possible: Option<seq<string>>,
                   argType: ArgType, checkAmbiguity: bool, override: bool, multiple: bool)
    returns (failed: bool)
    requires field != prev
    modifies field, prev`given
    ensures var u := Updated(old(field.View()), old(prev.given), value, possible, argType,
                             checkAmbiguity, override, multiple);
            && failed == u.Repeated?
            && field.View() == (if u.Stored? then u.slot else old(field.View()))
            && prev.given == (if u.Stored? then u.prev else old(prev.given))
    ensures failed <==> !multiple && (old(prev.given) > 0 || (checkAmbiguity && old(field.given) > 0))
    ensures failed || (old(field.given) > 0 && !override) ==>
              field.View() == old(field.View()) && prev.given == old(prev.given)
    ensures !failed && (old(field.given) == 0 || override) ==>
              && field.given == (old(field.given) + 1) % 0x1_0000_0000
              && prev.given == (old(prev.given) + 1) % 0x1_0000_0000
              && (argType == ArgNo ==> field.arg == old(field.arg) && field.orig == old(field.orig))
              && (argType == ArgString && value == None ==> field.orig == old(field.orig))
              && (argType == ArgString && value.Some? ==> field.orig == value)
              && (argType == ArgString && possible == None ==>
                    field.arg == if value == None then old(field.arg) else value)
              && (argType == ArgString && possible.Some? ==>
                    field.arg == if possible.value == [] then old(field.arg) else Some(possible.value[0]))
  {
    var val := value;
    if !multiple && (prev.given > 0 || (checkAmbiguity && field.given > 0)) {
      return true;
    }
    if field.given > 0 && !override {
      return false;
    }
    prev.given := Increment(prev.given);
    field.given := Increment(field.given);
    if possible.Some? {
      val := if possible.value == [] then None else Some(possible.value[0]);
    }
    match argType {
      case ArgString =>
        if val.Some? {
          field.arg := val;
        }
      case ArgNo =>
    }
    match argType {
      case ArgNo =>
      case ArgString =>
        if value.Some? {
          field.orig := value;
        }
    }
    return false;
  }

  // ---- struct gengetopt_args_info ------------------------------------------------------

  datatype Info = Info(generate: Slot, show: Slot, modeCounter: int)

  const CLEARED := Info(UNSET, UNSET, 0)

  class ArgsInfo {
    const generate: OptionSlot
    const show: OptionSlot
    var modeCounter: int

    constructor ()
      ensures Valid() && fresh(generate) && fresh(show) && View() == CLEARED
    {
      generate := new OptionSlot();
      show := new OptionSlot();
      modeCounter := 0;
    }

    predicate Valid() {
      generate != show
    }

    function View(): Info
      reads this, generate, show
    {
      Info(generate.View(), show.View(), modeCounter)
    }

    method Init()
      requires Valid()
      modifies this, generate, show
      ensures View() == CLEARED
    {
      generate.Clear();
      show.Clear();
      modeCounter := 0;
    }
  }

  // ---- Reacting to events ------------------------------------------------------------------

  // The caller's structure, and the occurrences of the mode options seen in this parse.
  datatype Progress = Progress(info: Info, prevGenerate: nat, prevShow: nat)

  datatype Reaction = Continue(next: Progress) | Stop(outcome: Outcome, last: Progress)

  // The two mode options count themselves before they are stored or refused.
  function StoreGenerate(p: Params, st: Progress, arg: Option<string>): Reaction {
    var counted := st.(info := st.info.(modeCounter := st.info.modeCounter + 1));
    match Updated(st.info.generate, st.prevGenerate, arg, None, ArgNo, p.checkAmbiguity, p.override, false)
    case Repeated => Stop(Failure, counted)
    case Unchanged => Continue(counted)
    case Stored(slot, prev) => Continue(Progress(counted.info.(generate := slot), prev, st.prevShow))
  }

  function StoreShow(p: Params, st: Progress, arg: Option<string>): Reaction {
    var counted := st.(info := st.info.(modeCounter := st.info.modeCounter + 1));
    match Updated(st.info.show, st.prevShow, arg, None, ArgString, p.checkAmbiguity, p.override, false)
    case Repeated => Stop(Failure, counted)
    case Unchanged => Continue(counted)
    case Stored(slot, prev) => Continue(Progress(counted.info.(show := slot), st.prevGenerate, prev))
  }

  function NameAt(longind: Option<nat>): string {
    var i := if longind.Some? then longind.value else 0;
    if i < |TABLE| then TABLE[i].name else ""
  }

  function React(p: Params, st: Progress, e: Event): Reaction {
    if e.code == CODE_HELP then Stop(ExitHelp, st)
    else if e.code == CODE_VERSION then Stop(ExitVersion, st)
    else if e.code == QUESTION then Stop(Failure, st)
    else if e.code != 0 then Stop(Abort, st)
    else if NameAt(e.longind) == "generate-signature" then StoreGenerate(p, st, e.arg)
    else if NameAt(e.longind) == "show-signature" then StoreShow(p, st, e.arg)
    else Continue(st)
  }

  // Reacting to the events of a reading one after the other.
  function Drive(p: Params, st: Progress, es: seq<Event>): (Outcome, Info)
    decreases |es|
  {
    if es == [] then (Success, st.info)
    else
      match React(p, st, es[0])
      case Continue(next) => Drive(p, next, es[1..])
      case Stop(outcome, last) => (outcome, last.info)
  }

  // ---- What the table lets through -----------------------------------------------------

  // One of the two mode options, with the argument its declaration calls for.
  predicate IsMode(e: Event) {
    && e.code == 0 && e.longind.Some?
    && (e.longind.value == GENERATE || e.longind.value == SHOW)
    && (e.arg.Some? <==> e.longind.value == SHOW)
  }

  predicate Expected(e: Event) {
    e.code == CODE_HELP || e.code == CODE_VERSION || e.code == QUESTION || IsMode(e)
  }

  lemma TokenIsExpected(off: nat, ws: seq<string>)
    requires Place(off, ws) && ws != []
    requires off == 0 ==> !IsOperand(ws[0])
    ensures Expected(NextToken(GRAMMAR, off, ws).event)
  {
  }

  lemma {:induction false} EventsAreExpected(off: nat, ws: seq<string>)
    requires Place(off, ws)
    ensures forall i :: 0 <= i < |Read(GRAMMAR, off, ws).events| ==> Expected(Read(GRAMMAR, off, ws).events[i])
    decreases |ws|, if ws == [] then 0 else |ws[0]| - off
  {
    if ws == [] {
    } else if off == 0 && IsOperand(ws[0]) {
      EventsAreExpected(0, ws[1..]);
    } else if off == 0 && IsDelimiter(ws[0]) {
    } else {
      hide Expected, NextToken;
      var t := NextToken(GRAMMAR, off, ws);
      EventsAreExpected(t.off, ws[t.words..]);
      TokenIsExpected(off, ws);
    }
  }

  // ---- cmdline_parser_internal ---------------------------------------------------------

  lemma UnexpectedEnd(es: seq<Event>)
    requires forall i :: 0 <= i < |es| ==> Expected(es[i])
    ensures es != [] ==> es[0].code != -1
  {
    if es != [] {
      assert Expected(es[0]);
    }
  }

  lemma DriveStep(p: Params, st: Progress, es: seq<Event>)
    ensures es == [] ==> Drive(p, st, es) == (Success, st.info)
    ensures es != [] ==>
              var r := React(p, st, es[0]);
              Drive(p, st, es) == if r.Continue? then Drive(p, r.next, es[1..]) else (r.outcome, r.last.info)
  {
  }

  lemma ExpectedIndex(e: Event)
    requires Expected(e)
    ensures e.code == 0 ==> e.longind.Some? && e.longind.value < |TABLE|
  {
  }

  function Begin(p: Params, info: Info): Progress {
    Progress(if p.initialize then CLEARED else info, 0, 0)
  }

  function View(info: ArgsInfo, local: ArgsInfo): Progress
    reads info, info.generate, info.show, local.generate, local.show
  {
    Progress(info.View(), local.generate.given, local.show.given)
  }

  // The switch on the code of one option.
  method HandleOption(c: int, optionIndex: int, optarg: Option<string>, info: ArgsInfo, local: ArgsInfo, p: Params,
                      ghost e: Event)
    returns (stop: Option<Outcome>)
    requires info.Valid() && local.Valid() && {info.generate, info.show} !! {local.generate, local.show}
    requires c == e.code && optarg == e.arg
    requires optionIndex == if e.longind.Some? then e.longind.value else 0
    requires c == 0 ==> 0 <= optionIndex < |TABLE|
    modifies info`modeCounter, info.generate, info.show, local.generate`given, local.show`given
    ensures match React(p, old(View(info, local)), e)
            case Continue(next) => stop == None && View(info, local) == next
            case Stop(outcome, last) => stop == Some(outcome) && info.View() == last.info
  {
    if c == CODE_HELP {
      return Some(ExitHelp);
    } else if c == CODE_VERSION {
      return Some(ExitVersion);
    } else if c == 0 {
      if TABLE[optionIndex].name == "generate-signature" {
        info.modeCounter := info.modeCounter + 1;
        var failed := UpdateArg(info.generate, local.generate, optarg, None, ArgNo,
                                p.checkAmbiguity, p.override, false);
        if failed {
          return Some(Failure);
        }
      } else if TABLE[optionIndex].name == "show-signature" {
        info.modeCounter := info.modeCounter + 1;
        var failed := UpdateArg(info.show, local.show, optarg, None, ArgString,
                                p.checkAmbiguity, p.override, false);
        if failed {
          return Some(Failure);
        }
      }
    } else if c == QUESTION {
      return Some(Failure);
    } else {
      return Some(Abort);
    }
    return None;
  }

  // The parser reacts to the events of the reference reading of argv, whatever earlier
  // scans have left in d.  Its optind and the scanner's are copied into each other around
  // every call, so they are one here.
  method CmdlineParserInternal(argv: array<string>, info: ArgsInfo, p: Params, d: GetoptData)
    returns (outcome: Outcome)
    requires info.Valid()
    modifies info, info.generate, info.show, d, argv
    ensures argv.Length == 0 ==> outcome == Success && info.View() == Begin(p, old(info.View())).info
    ensures argv.Length > 0 ==>
              (outcome, info.View()) ==
              Drive(p, Begin(p, old(info.View())), Read(GRAMMAR, 0, old(argv[..])[1..]).events)
  {
    hide Read, GetoptData.Callable, GetoptData.Pending, GetoptData.PendingChars, GetoptData.Boundary;
    hide Partitioned, Expected, React, Drive;
    if p.initialize {
      info.Init();
    }
    var local := new ArgsInfo();
    d.optind := 0;
    d.StartIsCallable(argv, GRAMMAR);
    ghost var orig := argv[..];
    ghost var todo: seq<Event>, left := [], 0;
    if argv.Length > 0 {
      EventsAreExpected(0, orig[1..]);
      todo, left := d.Pending(argv, GRAMMAR, orig, 1).events, d.PendingChars(argv, GRAMMAR, orig, 1);
    }
    ghost var result := Drive(p, View(info, local), todo);
    DriveStep(p, View(info, local), todo);
    while true
      invariant d.Callable(argv, GRAMMAR, orig, 1)
      invariant argv.Length == 0 ==> todo == []
      invariant argv.Length > 0 ==>
                  && todo == d.Pending(argv, GRAMMAR, orig, 1).events
                  && left == d.PendingChars(argv, GRAMMAR, orig, 1)
      invariant forall i :: 0 <= i < |todo| ==> Expected(todo[i])
      invariant Drive(p, View(info, local), todo) == result
      decreases left
    {
      var c, optionIndex; ghost var ev;
      c, optionIndex, ev := d.GetoptInternalR(argv, GRAMMAR, 0, orig, 1);
      UnexpectedEnd(todo);
      DriveStep(p, View(info, local), todo);
      if c == -1 {
        return Success;
      }
      ExpectedIndex(todo[0]);
      assert todo[1..] == d.Pending(argv, GRAMMAR, orig, 1).events;
      var stop := HandleOption(c, optionIndex, d.optarg, info, local, p, ev.value);
      if stop.Some? {
        return stop.value;
      }
      todo, left := todo[1..], d.PendingChars(argv, GRAMMAR, orig, 1);
    }
  }

  // ---- What a parse with the usual parameters amounts to -------------------------------

  // The parameters cmdline_parser uses.
  const USUAL := Params(false, true, false)

  predicate AllExpected(es: seq<Event>) {
    forall i :: 0 <= i < |es| ==> Expected(es[i])
  }

  predicate SameMode(a: Event, b: Event) {
    a.code == 0 && b.code == 0 && a.longind == b.longind
  }

  // The i-th event ends the parse: help, version, an error, or a mode option seen before.
  predicate Stops(es: seq<Event>, i: nat)
    requires i < |es|
  {
    es[i].code != 0 || exists j :: 0 <= j < i && SameMode(es[j], es[i])
  }

  predicate NeverStops(es: seq<Event>) {
    forall i :: 0 <= i < |es| ==> !Stops(es, i)
  }

  function StopOutcome(e: Event): Outcome {
    if e.code == CODE_HELP then ExitHelp else if e.code == CODE_VERSION then ExitVersion else Failure
  }

  predicate Given(es: seq<Event>, k: nat) {
    exists i :: 0 <= i < |es| && es[i].code == 0 && es[i].longind == Some(k)
  }

  // The structure that records exactly the mode options among es.
  ghost predicate Records(info: Info, es: seq<Event>) {
    && info.generate == (if Given(es, GENERATE) then Slot(1, None, None) else UNSET)
    && (if Given(es, SHOW) then info.show.given == 1 && info.show.arg.Some? else info.show == UNSET)
    && info.show.arg == info.show.orig
    && (forall i :: 0 <= i < |es| && es[i].code == 0 && es[i].longind == Some(SHOW) ==> info.show.arg == es[i].arg)
    && info.modeCounter == info.generate.given + info.show.given
  }

  ghost predicate InStep(st: Progress, es: seq<Event>) {
    Records(st.info, es) && st.prevGenerate == st.info.generate.given && st.prevShow == st.info.show.given
  }

  // One reaction keeps the record in step or stops just where it should.
  lemma ReactKeepsStep(st: Progress, done: seq<Event>, e: Event)
    requires InStep(st, done) && Expected(e) && NeverStops(done)
    ensures var es := done + [e];
            match React(USUAL, st, e)
            case Continue(next) => InStep(next, es) && NeverStops(es)
            case Stop(outcome, _) => Stops(es, |done|) && outcome == StopOutcome(e)
  {
    var es := done + [e];
    assert es[|done|] == e;
    assert forall i :: 0 <= i < |done| ==> es[i] == done[i];
    forall i | 0 <= i < |done| ensures !Stops(es, i) {
      assert !Stops(done, i);
    }
    if e.code == 0 {
      var k := e.longind.value;
      assert Given(es, k);
      assert forall j: nat :: j != k ==> Given(es, j) == Given(done, j);
      if Given(done, k) {
        var j :| 0 <= j < |done| && done[j].code == 0 && done[j].longind == Some(k);
        assert SameMode(es[j], es[|done|]);
      } else {
        assert !Stops(es, |done|);
      }
    }
  }

  lemma StopsInPrefix(a: seq<Event>, b: seq<Event>, i: nat)
    requires i < |a|
    ensures Stops(a + b, i) == Stops(a, i)
  {
    assert forall j :: 0 <= j < |a| ==> (a + b)[j] == a[j];
  }

  // r is how the parse of es ends.
  ghost predicate EndsRight(es: seq<Event>, r: (Outcome, Info)) {
    && (r.0 == Success <==> NeverStops(es))
    && (NeverStops(es) ==> Records(r.1, es))
    && (forall i :: 0 <= i < |es| && Stops(es, i) && NeverStops(es[..i]) ==> r.0 == StopOutcome(es[i]))
  }

  lemma FirstStop(done: seq<Event>, e: Event, rest: seq<Event>, r: (Outcome, Info))
    requires NeverStops(done) && Stops(done + [e], |done|) && r.0 == StopOutcome(e)
    ensures EndsRight(done + [e] + rest, r)
  {
    var es := done + [e] + rest;
    StopsInPrefix(done + [e], rest, |done|);
    assert Stops(es, |done|);
    forall i | 0 <= i < |es| && Stops(es, i) && NeverStops(es[..i]) ensures i == |done| {
      if i < |done| {
        assert es == done + ([e] + rest);
        StopsInPrefix(done, [e] + rest, i);
      } else if i > |done| {
        assert es == es[..i] + es[i..];
        StopsInPrefix(es[..i], es[i..], |done|);
      }
    }
    assert es[|done|] == e;
  }

  lemma {:induction false} DriveFrom(st: Progress, done: seq<Event>, rest: seq<Event>)
    requires InStep(st, done) && NeverStops(done) && AllExpected(rest)
    ensures EndsRight(done + rest, Drive(USUAL, st, rest))
    decreases |rest|
  {
    if rest == [] {
      assert done + rest == done;
      assert forall i :: 0 <= i < |done| ==> !Stops(done, i);
    } else {
      var e := rest[0];
      assert Expected(e);
      assert forall i :: 0 <= i < |rest[1..]| ==> rest[1..][i] == rest[i + 1];
      assert done + rest == done + [e] + rest[1..];
      ReactKeepsStep(st, done, e);
      hide React, InStep, Records, Stops, NeverStops, Expected, EndsRight;
      match React(USUAL, st, e) {
        case Continue(next) => DriveFrom(next, done + [e], rest[1..]);
        case Stop(outcome, last) => FirstStop(done, e, rest[1..], (outcome, last.info));
      }
    }
  }

  // A parse with the usual parameters succeeds exactly if its events are mode options given
  // at most once each, and then the structure records just these.  Otherwise the first
  // event that is help, version, an error or a repetition decides how it ends.
  lemma ParserBookkeeping(info: Info, ws: seq<string>)
    ensures var es := Read(GRAMMAR, 0, ws).events;
            EndsRight(es, Drive(USUAL, Begin(USUAL, info), es))
  {
    hide Read;
    var es := Read(GRAMMAR, 0, ws).events;
    EventsAreExpected(0, ws);
    assert [] + es == es;
    DriveFrom(Begin(USUAL, info), [], es);
  }

  // Deleting the operands changes neither the outcome of a parse nor the structure it
  // leaves, whatever the parameters.
  lemma ParseIgnoresOperands(p: Params, info: Info, ws: seq<string>)
    ensures Drive(p, Begin(p, info), Read(GRAMMAR, 0, Read(GRAMMAR, 0, ws).options).events)
            == Drive(p, Begin(p, info), Read(GRAMMAR, 0, ws).events)
  {
    OperandIrrelevance(GRAMMAR, ws);
  }

  // ---- A scan that a second scan does not repeat ---------------------------------------

  lemma ShowSignatureResolves()
    ensures Resolve(TABLE, "show-signature") == Found(SHOW)
  {
    assert Exact(TABLE, "show-signature", SHOW);
    assert !Exact(TABLE, "show-signature", 0) && !Exact(TABLE, "show-signature", 1);
    assert !Exact(TABLE, "show-signature", 2);
  }

  const SHOW_NAME := "show-signature"
  const SHOW_WORD := "--show-signature"

  lemma OperandFirst()
    ensures Read(GRAMMAR, 0, ["x", SHOW_WORD]) == Reading([Rejected(QUESTION, 0)], [SHOW_WORD], ["x"])
  {
    ShowSignatureResolves();
    hide Read, Resolve;
    var us, e := [Operand("x")], PlainLacks(SHOW_NAME, SHOW);
    assert "--" + SHOW_NAME == SHOW_WORD && us[1..] == [];
    WrittenIsRead(GRAMMAR, us, e);
    assert AllWords(us) + EndWords(e) == ["x", SHOW_WORD];
  }

  lemma OptionFirst()
    ensures Read(GRAMMAR, 0, [SHOW_WORD, "x"])
            == Reading([Accepted(TABLE[SHOW], SHOW, Some("x"))], [SHOW_WORD, "x"], [])
  {
    ShowSignatureResolves();
    hide Read, Resolve;
    var u := PlainWith(SHOW_NAME, SHOW, "x", Separate);
    var us := [u];
    assert "--" + SHOW_NAME == SHOW_WORD && us[1..] == [] && Words(u) == [SHOW_WORD, "x"];
    WrittenIsRead(GRAMMAR, us, Nothing);
    assert AllWords(us) + EndWords(Nothing) == [SHOW_WORD, "x"];
  }

  // ogrt x --show-signature is refused for lack of an argument; the argv this leaves,
  // ogrt --show-signature x, is accepted.
  lemma RescanCanDiffer()
    ensures var ws := ["x", SHOW_WORD];
            && Starved(GRAMMAR, 0, ws) && Read(GRAMMAR, 0, ws).operands == ["x"]
            && Permuted(GRAMMAR, ws) == [SHOW_WORD, "x"]
            && Read(GRAMMAR, 0, ws).events == [Rejected(QUESTION, 0)]
            && Read(GRAMMAR, 0, Permuted(GRAMMAR, ws)).events == [Accepted(TABLE[SHOW], SHOW, Some("x"))]
  {
    hide Read, Starved;
    OperandFirst();
    OptionFirst();
    Idempotence(GRAMMAR, ["x", SHOW_WORD]);
  }
}
