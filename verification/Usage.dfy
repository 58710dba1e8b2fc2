// Command lines as a user writes them, and what the reference reading makes of them: the
// round trip that says what client/src/ogrt-cmdline.c promises in its comments.
module Usage {
  import opened Wrappers
  import opened LongOptions
  import opened Reference
  import opened Getopt
  import opened Scan

  // How an argument is written: attached to its option, or as the next word.
  datatype Style = Attached | Separate

  // One thing a user may write, right or wrong: a word of short options that take nothing
  // (characters that are no options at all among them); such a word ending in an option
  // with an argument, or in one whose optional argument is not given; a long option,
  // possibly abbreviated, without or with an argument; a long option with an argument that
  // it does not allow; a name that stands for no option or for several; or an operand.
  datatype Use =
    | Flags(cs: string)
    | FlagsWith(cs: string, c: char, arg: string, style: Style)
    | FlagsWithout(cs: string, c: char)
    | Plain(name: string, i: nat)
    | PlainWith(name: string, i: nat, arg: string, style: Style)
    | Superfluous(name: string, i: nat, arg: string)
    | BadName(name: string, attached: Option<string>)
    | Operand(word: string)

  // How it all ends: with the words; with a delimiter and anything behind it; or with an
  // option that lacks its argument because there are no more words.
  datatype Ending =
    | Nothing
    | Delimiter(behind: seq<string>)
    | FlagsLack(cs: string, c: char)
    | PlainLacks(name: string, i: nat)

  predicate TakesNothing(g: Grammar, c: char) {
    Declared(g.optstring, c) in {NoArgument, NotAnOption}
  }

  predicate AllFlags(g: Grammar, cs: string) {
    forall k :: 0 <= k < |cs| ==> TakesNothing(g, cs[k])
  }

  // A word made of a dash and cs is a cluster of short options.
  predicate StartsCluster(g: Grammar, cs: string) {
    && cs != "" && cs[0] != '\0' && cs != "-"
    && (g.longopts.Some? ==> cs[0] != '-')
  }

  predicate IsName(g: Grammar, name: string) {
    g.longopts.Some? && forall k :: 0 <= k < |name| ==> name[k] != '='
  }

  predicate Names(g: Grammar, name: string, i: nat) {
    IsName(g, name) && Resolve(g.longopts.value, name) == Found(i)
  }

  // What a user may write under a grammar.
  predicate Proper(g: Grammar, u: Use) {
    match u
    case Flags(cs) => StartsCluster(g, cs) && AllFlags(g, cs)
    case FlagsWith(cs, c, arg, Attached) =>
      && StartsCluster(g, cs + [c] + arg) && AllFlags(g, cs) && arg != ""
      && Declared(g.optstring, c) in {RequiredArgument, OptionalArgument}
    case FlagsWith(cs, c, arg, Separate) =>
      StartsCluster(g, cs + [c]) && AllFlags(g, cs) && Declared(g.optstring, c) == RequiredArgument
    case FlagsWithout(cs, c) =>
      StartsCluster(g, cs + [c]) && AllFlags(g, cs) && Declared(g.optstring, c) == OptionalArgument
    case Plain(name, i) =>
      name != "" && Names(g, name, i) && g.longopts.value[i].hasArg != REQUIRED_ARGUMENT
    case PlainWith(name, i, arg, Attached) =>
      Names(g, name, i) && g.longopts.value[i].hasArg != NO_ARGUMENT
    case PlainWith(name, i, arg, Separate) =>
      name != "" && Names(g, name, i) && g.longopts.value[i].hasArg == REQUIRED_ARGUMENT
    case Superfluous(name, i, arg) =>
      Names(g, name, i) && g.longopts.value[i].hasArg == NO_ARGUMENT
    case BadName(name, arg) =>
      IsName(g, name) && !Resolve(g.longopts.value, name).Found? && (name != "" || arg.Some?)
    case Operand(word) => IsOperand(word)
  }

  predicate ProperEnd(g: Grammar, e: Ending) {
    match e
    case Nothing => true
    case Delimiter(_) => true
    case FlagsLack(cs, c) =>
      StartsCluster(g, cs + [c]) && AllFlags(g, cs) && Declared(g.optstring, c) == RequiredArgument
    case PlainLacks(name, i) =>
      name != "" && Names(g, name, i) && g.longopts.value[i].hasArg == REQUIRED_ARGUMENT
  }

  function Words(u: Use): (ws: seq<string>)
    ensures ws != []
  {
    match u
    case Flags(cs) => ["-" + cs]
    case FlagsWith(cs, c, arg, Attached) => ["-" + (cs + [c] + arg)]
    case FlagsWith(cs, c, arg, Separate) => ["-" + (cs + [c]), arg]
    case FlagsWithout(cs, c) => ["-" + (cs + [c])]
    case Plain(name, _) => ["--" + name]
    case PlainWith(name, _, arg, Attached) => ["--" + (name + "=" + arg)]
    case PlainWith(name, _, arg, Separate) => ["--" + name, arg]
    case Superfluous(name, _, arg) => ["--" + (name + "=" + arg)]
    case BadName(name, arg) => ["--" + if arg.Some? then name + "=" + arg.value else name]
    case Operand(word) => [word]
  }

  function EndWords(e: Ending): seq<string> {
    match e
    case Nothing => []
    case Delimiter(behind) => ["--"] + behind
    case FlagsLack(cs, c) => ["-" + (cs + [c])]
    case PlainLacks(name, _) => ["--" + name]
  }

  function Short(c: char, arg: Option<string>): Event {
    Event(c as int, arg, None, None, None)
  }

  // A character that takes nothing: the option, or an error that names the character.
  function FlagEvent(g: Grammar, c: char): Event {
    if Declared(g.optstring, c) == NotAnOption then Rejected(QUESTION, c as int) else Short(c, None)
  }

  function FlagEvents(g: Grammar, cs: string): (es: seq<Event>)
    ensures |es| == |cs|
  {
    if cs == "" then [] else [FlagEvent(g, cs[0])] + FlagEvents(g, cs[1..])
  }

  // What the user means by it, or the error it is to get.
  function Meant(g: Grammar, u: Use): seq<Event>
    requires Proper(g, u)
  {
    match u
    case Flags(cs) => FlagEvents(g, cs)
    case FlagsWith(cs, c, arg, _) => FlagEvents(g, cs) + [Short(c, Some(arg))]
    case FlagsWithout(cs, c) => FlagEvents(g, cs) + [Short(c, None)]
    case Plain(_, i) => [Accepted(g.longopts.value[i], i, None)]
    case PlainWith(_, i, arg, _) => [Accepted(g.longopts.value[i], i, Some(arg))]
    case Superfluous(_, i, _) => [Rejected(QUESTION, g.longopts.value[i].val)]
    case BadName(_, _) => [Rejected(QUESTION, 0)]
    case Operand(_) => []
  }

  function EndMeant(g: Grammar, e: Ending): seq<Event>
    requires ProperEnd(g, e)
  {
    match e
    case Nothing => []
    case Delimiter(_) => []
    case FlagsLack(cs, c) => FlagEvents(g, cs) + [Rejected(Missing(g), c as int)]
    case PlainLacks(_, i) => [Rejected(Missing(g), g.longopts.value[i].val)]
  }

  predicate AllProper(g: Grammar, us: seq<Use>) {
    forall k :: 0 <= k < |us| ==> Proper(g, us[k])
  }

  function AllWords(us: seq<Use>): seq<string> {
    if us == [] then [] else Words(us[0]) + AllWords(us[1..])
  }

  function AllMeant(g: Grammar, us: seq<Use>): seq<Event>
    requires AllProper(g, us)
  {
    if us == [] then [] else Meant(g, us[0]) + AllMeant(g, us[1..])
  }

  function OptionWords(us: seq<Use>): seq<string> {
    if us == [] then []
    else (if us[0].Operand? then [] else Words(us[0])) + OptionWords(us[1..])
  }

  function OperandWords(us: seq<Use>): seq<string> {
    if us == [] then []
    else (if us[0].Operand? then Words(us[0]) else []) + OperandWords(us[1..])
  }

  // What the ending adds to the option words and to the operands.
  function EndOptions(e: Ending): seq<string> {
    if e.Delimiter? then ["--"] else EndWords(e)
  }

  function EndOperands(e: Ending): seq<string> {
    if e.Delimiter? then e.behind else []
  }

  // r with what u contributes in front.
  function Behind(es: seq<Event>, words: seq<string>, r: Reading): Reading {
    Reading(es + r.events, words + r.options, r.operands)
  }

  // ---- Clusters ------------------------------------------------------------------------

  // A character inside a cluster, not its last, that takes nothing.
  lemma FlagInside(g: Grammar, off: nat, w: string, ws: seq<string>)
    requires 1 <= off && off + 1 < |w| && TakesNothing(g, w[off])
    ensures Read(g, off, [w] + ws) == Behind([FlagEvent(g, w[off])], [], Read(g, off + 1, [w] + ws))
  {
    var vs := [w] + ws;
    var t := NextToken(g, off, vs);
    assert vs[0] == w;
    assert t == Token(FlagEvent(g, w[off]), 0, off + 1, false);
    assert vs[0..] == vs && vs[..0] == [];
  }

  lemma BehindTwice(es: seq<Event>, more: seq<Event>, words: seq<string>, r: Reading)
    ensures Behind(es, [], Behind(more, words, r)) == Behind(es + more, words, r)
  {
    assert es + (more + r.events) == es + more + r.events;
    assert [] + (words + r.options) == words + r.options;
  }

  // The characters before position stop of a cluster that goes on.
  lemma {:induction false} FlagsBefore(g: Grammar, off: nat, stop: nat, w: string, ws: seq<string>)
    requires 1 <= off <= stop < |w| && AllFlags(g, w[off..stop])
    ensures Read(g, off, [w] + ws) == Behind(FlagEvents(g, w[off..stop]), [], Read(g, stop, [w] + ws))
    decreases stop - off
  {
    hide Read, Declared, TakesNothing, FlagEvent;
    var cs := w[off..stop];
    if off < stop {
      var rest := w[off + 1..stop];
      assert cs[0] == w[off] && cs[1..] == rest;
      assert AllFlags(g, rest) by {
        assert forall k :: 0 <= k < |rest| ==> rest[k] == cs[k + 1];
      }
      FlagInside(g, off, w, ws);
      FlagsBefore(g, off + 1, stop, w, ws);
      BehindTwice([FlagEvent(g, w[off])], FlagEvents(g, rest), [], Read(g, stop, [w] + ws));
    } else {
      var r := Read(g, stop, [w] + ws);
      assert [] + r.events == r.events && [] + r.options == r.options;
    }
  }

  // What may end a cluster whose last option character is c: rest is what is left of the
  // word behind it, n the number of following words it takes.
  predicate EndsCluster(g: Grammar, c: char, rest: string, ws: seq<string>, e: Event, n: nat) {
    && n <= |ws|
    && if TakesNothing(g, c) then rest == "" && n == 0 && e == FlagEvent(g, c)
       else if rest != "" then n == 0 && e == Short(c, Some(rest))
       else if Declared(g.optstring, c) == OptionalArgument then n == 0 && e == Short(c, None)
       else if ws == [] then e == Rejected(Missing(g), c as int)
       else n == 1 && e == Short(c, Some(ws[0]))
  }

  // The end of a cluster, with what it takes.
  lemma LastOfCluster(g: Grammar, off: nat, w: string, ws: seq<string>, e: Event, n: nat)
    requires 1 <= off < |w| && EndsCluster(g, w[off], w[off + 1..], ws, e, n)
    ensures n <= |ws| && Read(g, off, [w] + ws) == Behind([e], [w] + ws[..n], Read(g, 0, ws[n..]))
  {
    var vs := [w] + ws;
    var t := NextToken(g, off, vs);
    assert vs[0] == w && (n == 1 ==> vs[1] == ws[0]);
    assert t.event == e && t.words == n + 1 && t.off == 0;
    assert vs[n + 1..] == ws[n..] && vs[..n + 1] == [w] + ws[..n];
  }

  // A cluster is entered behind its dash.
  lemma EnterCluster(g: Grammar, cs: string, ws: seq<string>)
    requires StartsCluster(g, cs)
    ensures Read(g, 0, ["-" + cs] + ws) == Read(g, 1, ["-" + cs] + ws)
  {
    var w := "-" + cs;
    var vs := [w] + ws;
    assert vs[0] == w && w[0] == '-' && w[1] == cs[0];
    assert w[1..] == cs && "--"[1..] == "-";
    assert NextToken(g, 0, vs) == NextToken(g, 1, vs);
  }

  // A whole cluster: characters that take nothing, and its end.
  lemma ReadCluster(g: Grammar, cs: string, c: char, rest: string, ws: seq<string>, e: Event, n: nat)
    requires StartsCluster(g, cs + [c] + rest) && AllFlags(g, cs) && EndsCluster(g, c, rest, ws, e, n)
    ensures var w := "-" + (cs + [c] + rest);
            Read(g, 0, [w] + ws) == Behind(FlagEvents(g, cs) + [e], [w] + ws[..n], Read(g, 0, ws[n..]))
  {
    hide Read, Declared, AllFlags, EndsCluster, FlagEvents, StartsCluster;
    var body, stop := cs + [c] + rest, |cs| + 1;
    var w := "-" + body;
    EnterCluster(g, body, ws);
    assert w[1..stop] == cs && w[stop] == c && w[stop + 1..] == rest;
    FlagsBefore(g, 1, stop, w, ws);
    LastOfCluster(g, stop, w, ws, e, n);
    BehindTwice(FlagEvents(g, cs), [e], [w] + ws[..n], Read(g, 0, ws[n..]));
  }

  lemma {:induction false} FlagEventsAppend(g: Grammar, cs: string, c: char)
    ensures FlagEvents(g, cs + [c]) == FlagEvents(g, cs) + [FlagEvent(g, c)]
  {
    if cs == "" {
      assert cs + [c] == [c];
      assert FlagEvents(g, [c]) == [FlagEvent(g, c)] + FlagEvents(g, "");
    } else {
      assert (cs + [c])[1..] == cs[1..] + [c];
      FlagEventsAppend(g, cs[1..], c);
    }
  }

  lemma ReadFlags(g: Grammar, cs: string, ws: seq<string>)
    requires Proper(g, Flags(cs))
    ensures Read(g, 0, ["-" + cs] + ws) == Behind(FlagEvents(g, cs), ["-" + cs], Read(g, 0, ws))
  {
    hide Read, Declared;
    var most, c := cs[..|cs| - 1], cs[|cs| - 1];
    assert cs == most + [c] + "" && most + [c] == cs;
    ReadCluster(g, most, c, "", ws, FlagEvent(g, c), 0);
    FlagEventsAppend(g, most, c);
    assert ws[0..] == ws && ["-" + cs] + ws[..0] == ["-" + cs];
  }

  lemma ReadFlagsWith(g: Grammar, u: Use, ws: seq<string>)
    requires (u.FlagsWith? || u.FlagsWithout?) && Proper(g, u)
    ensures Read(g, 0, Words(u) + ws) == Behind(Meant(g, u), Words(u), Read(g, 0, ws))
  {
    hide Read, Declared;
    var rest := if u.FlagsWith? && u.style == Attached then u.arg else "";
    var tail := if u.FlagsWith? && u.style == Separate then [u.arg] + ws else ws;
    var n := if u.FlagsWith? && u.style == Separate then 1 else 0;
    var body := u.cs + [u.c] + rest;
    assert rest == "" ==> body == u.cs + [u.c];
    assert Words(u) + ws == ["-" + body] + tail;
    ReadCluster(g, u.cs, u.c, rest, tail, Short(u.c, if u.FlagsWith? then Some(u.arg) else None), n);
    assert tail[n..] == ws && ["-" + body] + tail[..n] == Words(u);
  }

  // ---- Long options --------------------------------------------------------------------

  lemma FindEquals(name: string, after: string)
    requires forall k :: 0 <= k < |name| ==> name[k] != '='
    ensures Find(name, '=', 0) == |name|
    ensures Find(name + "=" + after, '=', 0) == |name|
  {
    var s := name + "=" + after;
    assert s[|name|] == '=' && forall k :: 0 <= k < |name| ==> s[k] == name[k];
  }

  // The word of a long option, with its argument if it has one attached.
  function LongBody(name: string, arg: Option<string>): string {
    if arg.Some? then name + "=" + arg.value else name
  }

  // What a long option with this name and attached argument reports and takes.
  predicate IsLongUse(g: Grammar, name: string, arg: Option<string>, ws: seq<string>, e: Event, n: nat)
    requires g.longopts.Some?
  {
    && n <= |ws|
    && match Resolve(g.longopts.value, name)
       case Ambiguous => n == 0 && e == Rejected(QUESTION, 0)
       case Unknown => n == 0 && e == Rejected(QUESTION, 0)
       case Found(i) =>
         var p := g.longopts.value[i];
         if arg.Some? then
           n == 0 && e == if p.hasArg == NO_ARGUMENT then Rejected(QUESTION, p.val) else Accepted(p, i, arg)
         else if p.hasArg != REQUIRED_ARGUMENT then n == 0 && e == Accepted(p, i, None)
         else if ws == [] then e == Rejected(Missing(g), p.val)
         else n == 1 && e == Accepted(p, i, Some(ws[0]))
  }

  lemma LongTokenOf(g: Grammar, name: string, arg: Option<string>, ws: seq<string>, e: Event, n: nat)
    requires IsName(g, name) && (name != "" || arg.Some?) && IsLongUse(g, name, arg, ws, e, n)
    ensures var w := "--" + LongBody(name, arg);
            var t := LongToken(g, [w] + ws);
            t.event == e && t.words == n + 1 && t.off == 0
  {
    hide Resolve, Find;
    var body := LongBody(name, arg);
    var w := "--" + body;
    assert ([w] + ws)[0] == w && w[2..] == body;
    FindEquals(name, if arg.Some? then arg.value else "");
    assert body[..|name|] == name;
    assert arg.Some? ==> body[|name| + 1..] == arg.value;
  }

  lemma ReadLong(g: Grammar, name: string, arg: Option<string>, ws: seq<string>, e: Event, n: nat)
    requires IsName(g, name) && (name != "" || arg.Some?) && IsLongUse(g, name, arg, ws, e, n)
    ensures var w := "--" + LongBody(name, arg);
            Read(g, 0, [w] + ws) == Behind([e], [w] + ws[..n], Read(g, 0, ws[n..]))
  {
    LongTokenOf(g, name, arg, ws, e, n);
    hide LongToken, Resolve, IsLongUse;
    var w := "--" + LongBody(name, arg);
    var vs := [w] + ws;
    assert vs[0] == w && w[0] == '-' && w[1] == '-' && |w| >= 3;
    assert NextToken(g, 0, vs) == LongToken(g, vs);
    assert vs[n + 1..] == ws[n..] && vs[..n + 1] == [w] + ws[..n];
  }

  lemma ReadLongUse(g: Grammar, u: Use, ws: seq<string>)
    requires (u.Plain? || u.PlainWith? || u.Superfluous? || u.BadName?) && Proper(g, u)
    ensures Read(g, 0, Words(u) + ws) == Behind(Meant(g, u), Words(u), Read(g, 0, ws))
  {
    hide Read, Resolve;
    var separate := u.PlainWith? && u.style == Separate;
    var arg: Option<string> :=
      if u.Plain? || separate then None else if u.BadName? then u.attached else Some(u.arg);
    var tail, n := if separate then [u.arg] + ws else ws, if separate then 1 else 0;
    var w := "--" + LongBody(u.name, arg);
    assert Words(u) + ws == [w] + tail;
    ReadLong(g, u.name, arg, tail, Meant(g, u)[0], n);
    assert tail[n..] == ws && [w] + tail[..n] == Words(u);
  }

  // ---- The round trip ------------------------------------------------------------------

  lemma ReadUse(g: Grammar, u: Use, ws: seq<string>)
    requires Proper(g, u)
    ensures u.Operand? ==>
              Read(g, 0, Words(u) + ws) == Read(g, 0, ws).(operands := [u.word] + Read(g, 0, ws).operands)
    ensures !u.Operand? ==>
              Read(g, 0, Words(u) + ws) == Behind(Meant(g, u), Words(u), Read(g, 0, ws))
  {
    if u.Operand? {
      assert (Words(u) + ws)[1..] == ws;
    } else {
      hide Read, Proper, Meant, Words;
      if u.Flags? {
        ReadFlagsUse(g, u, ws);
      } else if u.FlagsWith? || u.FlagsWithout? {
        ReadFlagsWith(g, u, ws);
      } else {
        ReadLongUse(g, u, ws);
      }
    }
  }

  lemma ReadFlagsUse(g: Grammar, u: Use, ws: seq<string>)
    requires u.Flags? && Proper(g, u)
    ensures Read(g, 0, Words(u) + ws) == Behind(Meant(g, u), Words(u), Read(g, 0, ws))
  {
    hide Read;
    ReadFlags(g, u.cs, ws);
  }

  lemma ReadEnding(g: Grammar, e: Ending)
    requires ProperEnd(g, e)
    ensures Read(g, 0, EndWords(e)) == Reading(EndMeant(g, e), EndOptions(e), EndOperands(e))
  {
    match e
    case Nothing =>
    case Delimiter(behind) =>
      assert (["--"] + behind)[1..] == behind;
    case FlagsLack(cs, c) =>
      assert Read(g, 0, []) == Reading([], [], []);
      hide Read, Declared;
      var none: seq<string> := [];
      assert cs + [c] + "" == cs + [c];
      ReadCluster(g, cs, c, "", none, Rejected(Missing(g), c as int), 0);
      assert EndWords(e) + none == EndWords(e) && none[..0] == none;
    case PlainLacks(name, i) =>
      assert Read(g, 0, []) == Reading([], [], []);
      hide Read, Resolve;
      var none: seq<string> := [];
      ReadLong(g, name, None, none, Rejected(Missing(g), g.longopts.value[i].val), 0);
      assert EndWords(e) + none == EndWords(e) && none[..0] == none;
  }

  lemma Glue(es: seq<Event>, words: seq<string>, r: Reading,
             es': seq<Event>, e: seq<Event>, o: seq<string>, d: seq<string>)
    requires r.events == es' + e && r.options == o + d
    ensures Behind(es, words, r) == Reading(es + es' + e, words + o + d, r.operands)
  {
    Associative(words, o, d);
    assert es + (es' + e) == es + es' + e;
  }

  // Whatever is written, in whatever order, with operands anywhere in between and any
  // ending, is read as meant.
  lemma {:induction false} WrittenIsRead(g: Grammar, us: seq<Use>, e: Ending)
    requires AllProper(g, us) && ProperEnd(g, e)
    ensures Read(g, 0, AllWords(us) + EndWords(e))
            == Reading(AllMeant(g, us) + EndMeant(g, e), OptionWords(us) + EndOptions(e),
                       OperandWords(us) + EndOperands(e))
    decreases |us|
  {
    hide Read, Proper, Meant, Words, ProperEnd, EndMeant, EndWords, EndOptions, EndOperands;
    var last := EndWords(e);
    if us == [] {
      ReadEnding(g, e);
      assert [] + last == last && [] + EndMeant(g, e) == EndMeant(g, e);
      assert [] + EndOptions(e) == EndOptions(e) && [] + EndOperands(e) == EndOperands(e);
    } else {
      var u, later := us[0], us[1..];
      assert forall k :: 0 <= k < |later| ==> later[k] == us[k + 1];
      var ws := AllWords(later) + last;
      Associative(Words(u), AllWords(later), last);
      ReadUse(g, u, ws);
      WrittenIsRead(g, later, e);
      WrittenInFront(g, u, us, EndMeant(g, e), EndOptions(e), EndOperands(e), Read(g, 0, ws),
                     Read(g, 0, AllWords(us) + last));
    }
  }

  lemma WrittenInFront(g: Grammar, u: Use, us: seq<Use>, e: seq<Event>, d: seq<string>, n: seq<string>,
                       r: Reading, v: Reading)
    requires us != [] && u == us[0] && AllProper(g, us) && AllProper(g, us[1..])
    requires r == Reading(AllMeant(g, us[1..]) + e, OptionWords(us[1..]) + d, OperandWords(us[1..]) + n)
    requires if u.Operand? then v == r.(operands := [u.word] + r.operands) else v == Behind(Meant(g, u), Words(u), r)
    ensures v == Reading(AllMeant(g, us) + e, OptionWords(us) + d, OperandWords(us) + n)
  {
    var later := us[1..];
    if u.Operand? {
      Associative([u.word], OperandWords(later), n);
      assert [] + AllMeant(g, later) == AllMeant(g, later) && [] + OptionWords(later) == OptionWords(later);
    } else {
      hide Meant, Words;
      Glue(Meant(g, u), Words(u), r, AllMeant(g, later), e, OptionWords(later), d);
      assert [] + OperandWords(later) == OperandWords(later);
    }
  }

  // ---- Nothing else can be written -----------------------------------------------------

  // The characters that take nothing, and what is left of a cluster.
  lemma {:induction false} SplitCluster(g: Grammar, body: string) returns (cs: string, tail: string)
    ensures body == cs + tail && AllFlags(g, cs)
    ensures tail != "" ==> !TakesNothing(g, tail[0])
  {
    if body == "" || !TakesNothing(g, body[0]) {
      return "", body;
    }
    var more;
    more, tail := SplitCluster(g, body[1..]);
    cs := [body[0]] + more;
    assert body == [body[0]] + body[1..];
  }

  // What stands first in words that start with a cluster.
  lemma FirstOfCluster(g: Grammar, ws: seq<string>) returns (u: Option<Use>, e: Ending)
    requires ws != [] && !IsOperand(ws[0]) && !IsDelimiter(ws[0]) && !IsLong(g, ws[0])
    ensures if u.Some? then Proper(g, u.value) && Words(u.value) <= ws else ProperEnd(g, e) && ws == EndWords(e)
  {
    e := Nothing;
    var body := ws[0][1..];
    assert ws[0] == "-" + body && StartsCluster(g, body);
    var cs, tail := SplitCluster(g, body);
    if tail == "" {
      assert body == cs;
      return Some(Flags(body)), e;
    }
    var c, rest := tail[0], tail[1..];
    assert body == cs + [c] + rest;
    hide AllFlags;
    if rest != "" {
      u := Some(FlagsWith(cs, c, rest, Attached));
    } else {
      assert body == cs + [c];
      if Declared(g.optstring, c) == OptionalArgument {
        u := Some(FlagsWithout(cs, c));
      } else if |ws| == 1 {
        u, e := None, FlagsLack(cs, c);
      } else {
        u := Some(FlagsWith(cs, c, ws[1], Separate));
      }
    }
  }

  // What stands first in words that start with a long option.
  lemma FirstLong(g: Grammar, ws: seq<string>) returns (u: Option<Use>, e: Ending)
    requires ws != [] && !IsOperand(ws[0]) && !IsDelimiter(ws[0]) && IsLong(g, ws[0])
    ensures if u.Some? then Proper(g, u.value) && Words(u.value) <= ws else ProperEnd(g, e) && ws == EndWords(e)
  {
    e := Nothing;
    var body := ws[0][2..];
    var n := Find(body, '=', 0);
    hide Find, Resolve;
    var name := body[..n];
    assert ws[0] == "--" + body && body != "";
    var m := Resolve(g.longopts.value, name);
    if n < |body| {
      var arg := body[n + 1..];
      assert body == name + "=" + arg;
      u := Some(if !m.Found? then BadName(name, Some(arg))
                else if g.longopts.value[m.index].hasArg == NO_ARGUMENT then Superfluous(name, m.index, arg)
                else PlainWith(name, m.index, arg, Attached));
    } else {
      assert body == name;
      if !m.Found? {
        u := Some(BadName(name, None));
      } else if g.longopts.value[m.index].hasArg != REQUIRED_ARGUMENT {
        u := Some(Plain(name, m.index));
      } else if |ws| == 1 {
        u, e := None, PlainLacks(name, m.index);
      } else {
        u := Some(PlainWith(name, m.index, ws[1], Separate));
      }
    }
  }

  // Every argument vector is something that can be written, so WrittenIsRead says what is
  // reported, errors included, on all of them.
  lemma {:induction false} EverythingIsWritten(g: Grammar, ws: seq<string>) returns (us: seq<Use>, e: Ending)
    ensures AllProper(g, us) && ProperEnd(g, e) && ws == AllWords(us) + EndWords(e)
    decreases |ws|
  {
    if ws == [] {
      return [], Nothing;
    } else if !IsOperand(ws[0]) && IsDelimiter(ws[0]) {
      assert ws == [ws[0]] + ws[1..];
      return [], Delimiter(ws[1..]);
    }
    var u: Option<Use>;
    if IsOperand(ws[0]) {
      u, e := Some(Operand(ws[0])), Nothing;
    } else if IsLong(g, ws[0]) {
      u, e := FirstLong(g, ws);
    } else {
      u, e := FirstOfCluster(g, ws);
    }
    hide Proper, Words, ProperEnd, EndWords;
    if u == None {
      assert [] + EndWords(e) == EndWords(e);
      return [], e;
    }
    var rest := ws[|Words(u.value)|..];
    var later;
    later, e := EverythingIsWritten(g, rest);
    us := [u.value] + later;
    assert us[1..] == later;
    Associative(Words(u.value), AllWords(later), EndWords(e));
  }

  // The permuting scanner in place: it reports what was meant, and afterwards argv lists the
  // program, the options as written, the delimiter if there is one, and then the operands.
  method ScanWritten(argv: array<string>, g: Grammar, d: GetoptData, ghost us: seq<Use>, ghost e: Ending)
    returns (seen: seq<Report>)
    requires argv.Length > 0 && d.optind == 0 && KeepsEndValue(g)
    requires AllProper(g, us) && ProperEnd(g, e)
    requires argv[..][1..] == AllWords(us) + EndWords(e)
    modifies d, argv
    ensures seen == Reports(AllMeant(g, us) + EndMeant(g, e))
    ensures argv[..] == old(argv[..1]) + (OptionWords(us) + EndOptions(e)) + (OperandWords(us) + EndOperands(e))
    ensures d.optind == 1 + |OptionWords(us) + EndOptions(e)|
  {
    hide Read, Reports, AllMeant, OptionWords, OperandWords, AllProper, AllWords;
    hide ProperEnd, EndMeant, EndOptions, EndOperands, EndWords;
    ghost var ws := argv[..][1..];
    WrittenIsRead(g, us, e);
    EndIsUnmistakable(g, 0, ws);
    var calls;
    seen, calls := ScanAll(argv, g, d);
  }
}
