// How parses of the ogrt command line end, in terms of the words a user types: the options
// that client/src/ogrt-cmdline.c declares.
module CommandLines {
  import opened Wrappers
  import opened LongOptions
  import opened Reference
  import opened Conventions
  import opened CmdlineParser

  // The parse of the words behind the program's name.
  function Parse(p: Params, info: Info, ws: seq<string>): (Outcome, Info) {
    Drive(p, Begin(p, info), Read(GRAMMAR, 0, ws).events)
  }

  // Two dashes and a name or a non-empty abbreviation of it.
  predicate Spells(w: string, name: string) {
    exists n :: 1 <= n <= |name| && w == "--" + name[..n]
  }

  // Words that are neither options nor delimiters.
  predicate Plainly(os: seq<string>) {
    forall i :: 0 <= i < |os| ==> '\0' !in os[i] && (os[i] == "" || os[i][0] != '-' || os[i] == "-")
  }

  lemma EntryOf(name: string, i: nat, n: nat)
    requires i < 4 && 1 <= n <= |name|
    requires name == ["help", "version", "generate-signature", "show-signature"][i]
    ensures i < |TABLE| && StandsFor(TABLE, name[..n], i) && '=' !in name[..n] && name[..n] != ""
    ensures TABLE[i].flag == None && TABLE[i].hasArg == (if i == 3 then 1 else 0)
    ensures TABLE[i].val == (if i == 0 then 'h' as int else if i == 1 then 'V' as int else 0)
  {
    hide StandsFor;
    NoEquals(i);
    FirstLetters(i);
    StandsAlone(TABLE, name, i, n);
  }

  lemma NoEquals(i: nat)
    requires i < 4
    ensures '=' !in ["help", "version", "generate-signature", "show-signature"][i]
  {
    assert '=' !in "help" && '=' !in "version" && '=' !in "generate-signature" && '=' !in "show-signature";
  }

  lemma FirstLetters(i: nat)
    requires i < 4
    ensures |TABLE| == 4 && TABLE[i].name == ["help", "version", "generate-signature", "show-signature"][i]
    ensures forall j :: 0 <= j < |TABLE| && j != i ==> TABLE[j].name != "" && TABLE[j].name[0] != TABLE[i].name[0]
  {
    assert TABLE[0].name[0] == 'h' && TABLE[1].name[0] == 'v' && TABLE[2].name[0] == 'g' && TABLE[3].name[0] == 's';
  }

  // No other entry starts like this one.
  lemma StandsAlone(table: seq<LongOption>, name: string, i: nat, n: nat)
    requires i < |table| && table[i].name == name && 1 <= n <= |name|
    requires forall j :: 0 <= j < |table| && j != i ==> table[j].name != "" && table[j].name[0] != name[0]
    ensures StandsFor(table, name[..n], i)
  {
    var abbreviation := name[..n];
    assert abbreviation[0] == name[0];
    assert n < |name| ==> |abbreviation| != |name|;
    assert n == |name| ==> abbreviation == name;
  }

  // ---- Help and version ----------------------------------------------------------------

  lemma FirstEventDecides(p: Params, info: Info, ws: seq<string>, e: Event, more: seq<Event>)
    requires Read(GRAMMAR, 0, ws).events == [e] + more
    ensures e.code == 'h' as int ==> Parse(p, info, ws).0 == ExitHelp
    ensures e.code == 'V' as int ==> Parse(p, info, ws).0 == ExitVersion
    ensures e.code == '?' as int ==> Parse(p, info, ws).0 == Failure
  {
    hide Read;
  }

  lemma ShortFirst(os: seq<string>, w: string, c: char, rest: seq<string>) returns (more: seq<Event>)
    requires Plainly(os) && |w| >= 2 && w[0] == '-' && w[1] == c && (c == 'h' || c == 'V')
    ensures Read(GRAMMAR, 0, os + [w] + rest).events == [Event(c as int, None, None, None, None)] + more
  {
    assert "hV" == "" + ['h'] + "V" && "hV" == "h" + ['V'] + "";
    hide Read;
    Associative(os, [w], rest);
    OperandsInFront(GRAMMAR, os, [w] + rest);
    PlainCharacter(GRAMMAR, if c == 'h' then "" else "h", c, if c == 'h' then "V" else "", w, 0, 1, rest);
    more := Onwards(GRAMMAR, w, 1, rest).events;
  }

  lemma LongFirst(os: seq<string>, w: string, i: nat, rest: seq<string>) returns (more: seq<Event>)
    requires Plainly(os) && i < 3
    requires Spells(w, ["help", "version", "generate-signature"][i])
    ensures more == Read(GRAMMAR, 0, rest).events
    ensures Read(GRAMMAR, 0, os + [w] + rest).events
            == [Event([('h' as int), 'V' as int, 0][i], None, Some(i), None, None)] + more
  {
    var name := ["help", "version", "generate-signature"][i];
    var n :| 1 <= n <= |name| && w == "--" + name[..n];
    EntryOf(name, i, n);
    hide Read, StandsFor;
    Associative(os, [w], rest);
    OperandsInFront(GRAMMAR, os, [w] + rest);
    LongAlone(GRAMMAR, name[..n], i, rest);
    more := Read(GRAMMAR, 0, rest).events;
  }

  // If the first option is --help, however abbreviated, or a cluster that starts with h,
  // the parse ends in help, whatever follows and whatever operands stand in front.
  lemma HelpFirst(p: Params, info: Info, os: seq<string>, w: string, rest: seq<string>)
    requires Plainly(os) && (Spells(w, "help") || (|w| >= 2 && w[0] == '-' && w[1] == 'h'))
    ensures Parse(p, info, os + [w] + rest).0 == ExitHelp
  {
    hide Read, Plainly, Spells;
    var more;
    if Spells(w, "help") {
      more := LongFirst(os, w, 0, rest);
      FirstEventDecides(p, info, os + [w] + rest, Event('h' as int, None, Some(0), None, None), more);
    } else {
      more := ShortFirst(os, w, 'h', rest);
      FirstEventDecides(p, info, os + [w] + rest, Event('h' as int, None, None, None, None), more);
    }
  }

  lemma VersionFirst(p: Params, info: Info, os: seq<string>, w: string, rest: seq<string>)
    requires Plainly(os) && (Spells(w, "version") || (|w| >= 2 && w[0] == '-' && w[1] == 'V'))
    ensures Parse(p, info, os + [w] + rest).0 == ExitVersion
  {
    hide Read, Plainly, Spells;
    var more;
    if Spells(w, "version") {
      more := LongFirst(os, w, 1, rest);
      FirstEventDecides(p, info, os + [w] + rest, Event('V' as int, None, Some(1), None, None), more);
    } else {
      more := ShortFirst(os, w, 'V', rest);
      FirstEventDecides(p, info, os + [w] + rest, Event('V' as int, None, None, None, None), more);
    }
  }

  // ---- The mode options ----------------------------------------------------------------

  // The words of --show-signature f, however abbreviated, with the file attached or apart.
  predicate ShowWords(ws: seq<string>, f: string) {
    exists n {:trigger "show-signature"[..n]} :: 1 <= n <= 14 &&
      (ws == ["--" + "show-signature"[..n], f] || ws == ["--" + "show-signature"[..n] + "=" + f])
  }

  lemma ShowNext(ws: seq<string>, f: string, rest: seq<string>)
    requires ShowWords(ws, f)
    ensures Read(GRAMMAR, 0, ws + rest).events
            == [Event(0, Some(f), Some(3), None, None)] + Read(GRAMMAR, 0, rest).events
  {
    var n {:trigger "show-signature"[..n]} :| 1 <= n <= 14 &&
      (ws == ["--" + "show-signature"[..n], f] || ws == ["--" + "show-signature"[..n] + "=" + f]);
    var name := "show-signature"[..n];
    EntryOf("show-signature", 3, n);
    hide Read, StandsFor;
    if ws == ["--" + name, f] {
      assert ws + rest == ["--" + name] + ([f] + rest);
      LongAlone(GRAMMAR, name, 3, [f] + rest);
      assert ([f] + rest)[1..] == rest;
    } else {
      LongAttached(GRAMMAR, name, 3, f, rest);
    }
  }

  lemma Deserted(os: seq<string>)
    requires Plainly(os)
    ensures Read(GRAMMAR, 0, os).events == []
  {
    OperandsInFront(GRAMMAR, os, []);
    assert os + [] == os;
  }

  lemma GenerateEvents(os: seq<string>, w: string, rest: seq<string>)
    requires Plainly(os) && Spells(w, "generate-signature") && Plainly(rest)
    ensures Read(GRAMMAR, 0, os + [w] + rest).events == [Event(0, None, Some(2), None, None)]
  {
    hide Read, Spells, Plainly;
    var more := LongFirst(os, w, 2, rest);
    Deserted(rest);
  }

  lemma ShowEvents(os: seq<string>, ws: seq<string>, f: string, rest: seq<string>)
    requires Plainly(os) && ShowWords(ws, f) && Plainly(rest)
    ensures Read(GRAMMAR, 0, os + ws + rest).events == [Event(0, Some(f), Some(3), None, None)]
  {
    hide Read, ShowWords;
    Associative(os, ws, rest);
    OperandsInFront(GRAMMAR, os, ws + rest);
    ShowNext(ws, f, rest);
    hide Plainly;
    Deserted(rest);
  }

  // Where a parse begins: from an empty structure if it is to initialize it.
  function Initial(p: Params, info: Info): Info {
    if p.initialize then Info(Slot(0, None, None), Slot(0, None, None), 0) else info
  }

  // --generate-signature among operands, for all parameters: refused, ignored or recorded,
  // and counted as a mode in any case.
  lemma GenerateAlone(p: Params, info: Info, os: seq<string>, w: string, rest: seq<string>)
    requires Plainly(os) && Spells(w, "generate-signature") && Plainly(rest)
    ensures var before := Initial(p, info);
            var counted := before.(modeCounter := before.modeCounter + 1);
            var slot := before.generate;
            Parse(p, info, os + [w] + rest) ==
            if p.checkAmbiguity && slot.given > 0 then (Failure, counted)
            else if slot.given > 0 && !p.override then (Success, counted)
            else (Success, counted.(generate := Slot((slot.given + 1) % 0x1_0000_0000, slot.arg, slot.orig)))
  {
    GenerateEvents(os, w, rest);
    hide Read, Spells, Plainly;
    DriveStep(p, Begin(p, info), [Event(0, None, Some(2), None, None)]);
  }

  // --show-signature f among operands, likewise.
  lemma ShowAlone(p: Params, info: Info, os: seq<string>, ws: seq<string>, f: string, rest: seq<string>)
    requires Plainly(os) && ShowWords(ws, f) && Plainly(rest)
    ensures var before := Initial(p, info);
            var counted := before.(modeCounter := before.modeCounter + 1);
            var slot := before.show;
            Parse(p, info, os + ws + rest) ==
            if p.checkAmbiguity && slot.given > 0 then (Failure, counted)
            else if slot.given > 0 && !p.override then (Success, counted)
            else (Success, counted.(show := Slot((slot.given + 1) % 0x1_0000_0000, Some(f), Some(f))))
  {
    ShowEvents(os, ws, f, rest);
    hide Read, ShowWords, Plainly;
    DriveStep(p, Begin(p, info), [Event(0, Some(f), Some(3), None, None)]);
  }

  // With the parameters the program uses: either option fills exactly its own slot.
  lemma ModeAlone(info: Info, os: seq<string>, w: string, ws: seq<string>, f: string, rest: seq<string>)
    requires Plainly(os) && Spells(w, "generate-signature") && ShowWords(ws, f) && Plainly(rest)
    ensures Parse(Params(false, true, false), info, os + [w] + rest)
            == (Success, Info(Slot(1, None, None), Slot(0, None, None), 1))
    ensures Parse(Params(false, true, false), info, os + ws + rest)
            == (Success, Info(Slot(0, None, None), Slot(1, Some(f), Some(f)), 1))
  {
    hide Parse, Spells, ShowWords, Plainly;
    GenerateAlone(Params(false, true, false), info, os, w, rest);
    ShowAlone(Params(false, true, false), info, os, ws, f, rest);
  }

  lemma ShowAmong(os: seq<string>, ws: seq<string>, f: string, rest: seq<string>)
    requires Plainly(os) && ShowWords(ws, f)
    ensures Read(GRAMMAR, 0, os + ws + rest).events
            == [Event(0, Some(f), Some(3), None, None)] + Read(GRAMMAR, 0, rest).events
  {
    hide Read, ShowWords;
    Associative(os, ws, rest);
    OperandsInFront(GRAMMAR, os, ws + rest);
    ShowNext(ws, f, rest);
  }

  lemma DriveTwo(p: Params, st: Progress, x: Event, y: Event)
    ensures var r := React(p, st, x);
            Drive(p, st, [x] + [y]) ==
            if r.Stop? then (r.outcome, r.last.info)
            else
              match React(p, r.next, y)
              case Continue(next) => (Success, next.info)
              case Stop(outcome, last) => (outcome, last.info)
  {
    hide React;
    assert ([x] + [y])[1..] == [y] && [y][1..] == [];
    DriveStep(p, st, [x] + [y]);
    var r := React(p, st, x);
    if r.Continue? {
      DriveStep(p, r.next, [y]);
    }
  }

  // One mode after the other, in either order, among operands: both slots are filled.
  lemma BothModes(info: Info, os: seq<string>, w: string, mid: seq<string>, ws: seq<string>, f: string,
                  rest: seq<string>)
    requires Plainly(os) && Plainly(mid) && Plainly(rest) && Spells(w, "generate-signature") && ShowWords(ws, f)
    ensures var both := Info(Slot(1, None, None), Slot(1, Some(f), Some(f)), 2);
            && Parse(Params(false, true, false), info, os + [w] + (mid + ws + rest)) == (Success, both)
            && Parse(Params(false, true, false), info, os + ws + (mid + [w] + rest)) == (Success, both)
  {
    var p := Params(false, true, false);
    var x, y := Event(0, None, Some(2), None, None), Event(0, Some(f), Some(3), None, None);
    ShowEvents(mid, ws, f, rest);
    GenerateEvents(mid, w, rest);
    ShowAmong(os, ws, f, mid + [w] + rest);
    var more := LongFirst(os, w, 2, mid + ws + rest);
    hide Read, Spells, ShowWords, Plainly;
    DriveTwo(p, Begin(p, info), x, y);
    DriveTwo(p, Begin(p, info), y, x);
  }

  // A mode option given twice makes the parse fail.
  lemma RepeatedMode(p: Params, info: Info, os: seq<string>, w: string, mid: seq<string>, v: string,
                     ws: seq<string>, f: string, us: seq<string>, h: string, rest: seq<string>)
    requires p.initialize && Plainly(os) && Plainly(mid) && Plainly(rest)
    requires Spells(w, "generate-signature") && Spells(v, "generate-signature")
    requires ShowWords(ws, f) && ShowWords(us, h)
    ensures Parse(p, info, os + [w] + (mid + [v] + rest)).0 == Failure
    ensures Parse(p, info, os + ws + (mid + us + rest)).0 == Failure
  {
    var x := Event(0, None, Some(2), None, None);
    GenerateEvents(mid, v, rest);
    ShowEvents(mid, us, h, rest);
    ShowAmong(os, ws, f, mid + us + rest);
    var more := LongFirst(os, w, 2, mid + [v] + rest);
    hide Read, Spells, ShowWords, Plainly;
    DriveTwo(p, Begin(p, info), x, x);
    DriveTwo(p, Begin(p, info), Event(0, Some(f), Some(3), None, None), Event(0, Some(h), Some(3), None, None));
  }

  // No options at all, or a delimiter in front of everything: nothing is changed beyond the
  // initialization.
  lemma NoOptions(p: Params, info: Info, os: seq<string>, behind: seq<string>)
    requires Plainly(os)
    ensures Parse(p, info, os) == (Success, Initial(p, info))
    ensures Parse(p, info, os + ["--"] + behind) == (Success, Initial(p, info))
  {
    Deserted(os);
    Associative(os, ["--"], behind);
    OperandsInFront(GRAMMAR, os, ["--"] + behind);
    DelimiterWord(GRAMMAR, behind);
    hide Read, Plainly;
  }

  // ---- Mistakes ------------------------------------------------------------------------

  // Not a name of ogrt's options, nor an abbreviation of one.
  predicate Foreign(name: string) {
    && name != "" && '=' !in name
    && !(name <= "help") && !(name <= "version") && !(name <= "generate-signature") && !(name <= "show-signature")
  }

  // One of the first three names, abbreviated or not: these take no argument.
  predicate TakesNone(name: string) {
    && name != "" && '=' !in name
    && (name <= "help" || name <= "version" || name <= "generate-signature")
  }

  lemma ShortMistake(os: seq<string>, w: string, rest: seq<string>) returns (e: Event, more: seq<Event>)
    requires Plainly(os) && |w| >= 2 && w[0] == '-' && w[1] !in {'h', 'V', '-', '\0'}
    ensures Read(GRAMMAR, 0, os + [w] + rest).events == [e] + more && e.code == '?' as int
  {
    hide Read;
    Associative(os, [w], rest);
    OperandsInFront(GRAMMAR, os, [w] + rest);
    StrayCharacter(GRAMMAR, w[1], w, 0, 1, rest);
    e, more := Event('?' as int, None, None, Some(w[1] as int), None), Onwards(GRAMMAR, w, 1, rest).events;
  }

  lemma ForeignMistake(os: seq<string>, name: string, attached: Option<string>, rest: seq<string>)
    returns (e: Event, more: seq<Event>)
    requires Plainly(os) && Foreign(name)
    ensures Read(GRAMMAR, 0, os + [LongWord(name, attached)] + rest).events == [e] + more && e.code == '?' as int
  {
    hide Read;
    var w := LongWord(name, attached);
    Associative(os, [w], rest);
    OperandsInFront(GRAMMAR, os, [w] + rest);
    LongUnresolved(GRAMMAR, name, attached, rest);
    e, more := Event('?' as int, None, None, Some(0), None), Read(GRAMMAR, 0, rest).events;
  }

  lemma SuperfluousMistake(os: seq<string>, name: string, arg: string, rest: seq<string>)
    returns (e: Event, more: seq<Event>)
    requires Plainly(os) && TakesNone(name)
    ensures Read(GRAMMAR, 0, os + ["--" + name + "=" + arg] + rest).events == [e] + more && e.code == '?' as int
  {
    var w := "--" + name + "=" + arg;
    var i := if name <= "help" then 0 else if name <= "version" then 1 else 2;
    var full := ["help", "version", "generate-signature"][i];
    assert name == full[..|name|];
    EntryOf(full, i, |name|);
    hide Read, StandsFor;
    Associative(os, [w], rest);
    OperandsInFront(GRAMMAR, os, [w] + rest);
    LongAttached(GRAMMAR, name, i, arg, rest);
    e, more := Event('?' as int, None, None, Some(TABLE[i].val), None), Read(GRAMMAR, 0, rest).events;
  }

  lemma LackMistake(os: seq<string>, w: string) returns (e: Event, more: seq<Event>)
    requires Plainly(os) && Spells(w, "show-signature")
    ensures Read(GRAMMAR, 0, os + [w]).events == [e] + more && e.code == '?' as int
  {
    var n :| 1 <= n <= 14 && w == "--" + "show-signature"[..n];
    EntryOf("show-signature", 3, n);
    hide Read, StandsFor;
    OperandsInFront(GRAMMAR, os, [w]);
    LongAlone(GRAMMAR, "show-signature"[..n], 3, []);
    assert [w] + [] == [w];
    e, more := Event('?' as int, None, None, Some(0), None), [];
  }

  // A first option makes the parse fail if it is none of ogrt's, or has an argument that it
  // must not have.
  lemma MistakeFirst(p: Params, info: Info, os: seq<string>, w: string, name: string, arg: string, rest: seq<string>)
    requires Plainly(os)
    requires || (|w| >= 2 && w[0] == '-' && w[1] !in {'h', 'V', '-', '\0'})
             || (Foreign(name) && (w == "--" + name || w == "--" + name + "=" + arg))
             || (TakesNone(name) && w == "--" + name + "=" + arg)
    ensures Parse(p, info, os + [w] + rest).0 == Failure
  {
    hide Read, Plainly, Foreign, TakesNone;
    var e, more;
    if |w| >= 2 && w[0] == '-' && w[1] !in {'h', 'V', '-', '\0'} {
      e, more := ShortMistake(os, w, rest);
    } else if Foreign(name) {
      e, more := ForeignMistake(os, name, if w == "--" + name then None else Some(arg), rest);
    } else {
      e, more := SuperfluousMistake(os, name, arg, rest);
    }
    FirstEventDecides(p, info, os + [w] + rest, e, more);
  }

  // So does --show-signature without a file behind it.
  lemma FileMissing(p: Params, info: Info, os: seq<string>, w: string)
    requires Plainly(os) && Spells(w, "show-signature")
    ensures Parse(p, info, os + [w]).0 == Failure
  {
    hide Read, Plainly, Spells;
    var e, more := LackMistake(os, w);
    FirstEventDecides(p, info, os + [w], e, more);
  }
}
