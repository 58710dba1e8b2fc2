// What the reading of a command line makes of single words, in terms of their characters
// and of the entries of the option string and the option table alone: the conventions of
// client/src/ogrt-cmdline.c.
module Conventions {
  import opened Wrappers
  import opened LongOptions
  import opened Reference
  import opened Usage

  // ---- Operands and the delimiter ------------------------------------------------------

  // The empty word, a lone dash and what does not start with a dash are operands.
  lemma OperandWord(g: Grammar, w: string, ws: seq<string>)
    requires '\0' !in w && (w == "" || w[0] != '-' || w == "-")
    ensures var r := Read(g, 0, ws);
            Read(g, 0, [w] + ws) == Reading(r.events, r.options, [w] + r.operands)
  {
    assert ([w] + ws)[1..] == ws;
  }

  lemma {:induction false} OperandsInFront(g: Grammar, os: seq<string>, ws: seq<string>)
    requires forall i :: 0 <= i < |os| ==> '\0' !in os[i] && (os[i] == "" || os[i][0] != '-' || os[i] == "-")
    ensures var r := Read(g, 0, ws);
            Read(g, 0, os + ws) == Reading(r.events, r.options, os + r.operands)
    decreases |os|
  {
    hide Read;
    if os == [] {
      assert os + ws == ws && os + Read(g, 0, ws).operands == Read(g, 0, ws).operands;
    } else {
      var later := os[1..];
      assert forall i :: 0 <= i < |later| ==> later[i] == os[i + 1];
      OperandsInFront(g, later, ws);
      OperandWord(g, os[0], later + ws);
      assert os + ws == [os[0]] + (later + ws);
      assert os == [os[0]] + later;
      Associative([os[0]], later, Read(g, 0, ws).operands);
    }
  }

  // Two dashes end the options; whatever follows is an operand.
  lemma DelimiterWord(g: Grammar, ws: seq<string>)
    ensures Read(g, 0, ["--"] + ws) == Reading([], ["--"], ws)
  {
    assert (["--"] + ws)[1..] == ws;
  }

  // ---- Short options -------------------------------------------------------------------

  // Reading at position at of the word w comes to its character at position off: it is
  // there already, or w is a dash with a cluster behind it that begins at off.
  predicate ComesTo(g: Grammar, w: string, at: nat, off: nat) {
    && 1 <= off < |w|
    && (|| at == off
        || (&& at == 0 && off == 1 && w[0] == '-' && w[1] != '\0' && w != "--"
            && (w[1] == '-' ==> g.longopts == None)))
  }

  lemma SkipDash(g: Grammar, w: string, at: nat, off: nat, ws: seq<string>)
    requires ComesTo(g, w, at, off)
    ensures Read(g, at, [w] + ws) == Read(g, off, [w] + ws)
  {
    if at != off {
      assert w == "-" + w[1..];
      EnterCluster(g, w[1..], ws);
    }
  }

  // What is left when the characters of w up to off have been read.
  function Onwards(g: Grammar, w: string, off: nat, ws: seq<string>): Reading
    requires off < |w|
  {
    if off + 1 < |w| then Read(g, off + 1, [w] + ws)
    else var r := Read(g, 0, ws); Reading(r.events, [w] + r.options, r.operands)
  }

  // A character that no colon follows in the option string is an option by itself.
  lemma PlainCharacter(g: Grammar, a: string, c: char, b: string, w: string, at: nat, off: nat, ws: seq<string>)
    requires g.optstring == a + [c] + b && c !in a && c != ':' && (b == "" || b[0] != ':')
    requires ComesTo(g, w, at, off) && w[off] == c
    ensures var r := Onwards(g, w, off, ws);
            Read(g, at, [w] + ws)
            == Reading([Event(c as int, None, None, None, None)] + r.events, r.options, r.operands)
  {
    DeclaredAs(a, c, b, NoArgument);
    Single(g, w, at, off, ws);
  }

  lemma DeclaredAs(a: string, c: char, b: string, t: Takes)
    requires c !in a && c != ':'
    requires t == (if b == "" || b[0] != ':' then NoArgument
                   else if |b| == 1 || b[1] != ':' then RequiredArgument else OptionalArgument)
    ensures Declared(a + [c] + b, c) == t
  {
    var s := a + [c] + b;
    assert s[|a|] == c && forall j :: 0 <= j < |a| ==> s[j] == a[j];
    assert Find(s, c, 0) == |a|;
    assert forall j :: |a| < j < |s| ==> s[j] == b[j - |a| - 1];
  }

  lemma Single(g: Grammar, w: string, at: nat, off: nat, ws: seq<string>)
    requires ComesTo(g, w, at, off) && TakesNothing(g, w[off])
    ensures var r := Onwards(g, w, off, ws);
            Read(g, at, [w] + ws) == Reading([FlagEvent(g, w[off])] + r.events, r.options, r.operands)
  {
    assert 1 <= off < |w|;
    hide Read, Declared, ComesTo;
    SkipDash(g, w, at, off, ws);
    if off + 1 < |w| {
      FlagInside(g, off, w, ws);
      assert [] + Read(g, off + 1, [w] + ws).options == Read(g, off + 1, [w] + ws).options;
    } else {
      LastOfCluster(g, off, w, ws, FlagEvent(g, w[off]), 0);
      assert ws[0..] == ws && [w] + ws[..0] == [w];
    }
  }

  // A character that the option string does not list, or a colon, is an error.
  lemma StrayCharacter(g: Grammar, c: char, w: string, at: nat, off: nat, ws: seq<string>)
    requires c !in g.optstring || c == ':'
    requires ComesTo(g, w, at, off) && w[off] == c
    ensures var r := Onwards(g, w, off, ws);
            Read(g, at, [w] + ws)
            == Reading([Event('?' as int, None, None, Some(c as int), None)] + r.events, r.options, r.operands)
  {
    assert Declared(g.optstring, c) == NotAnOption;
    Single(g, w, at, off, ws);
  }

  // A character that one colon follows takes the rest of its word, or else the next word;
  // if there is none, what is reported depends on a colon in front of the option string.
  lemma ArgumentCharacter(g: Grammar, a: string, c: char, b: string, w: string, at: nat, off: nat, ws: seq<string>)
    requires g.optstring == a + [c] + b && c !in a && c != ':'
    requires b != "" && b[0] == ':' && (|b| == 1 || b[1] != ':')
    requires ComesTo(g, w, at, off) && w[off] == c
    ensures var r := Read(g, at, [w] + ws);
            if off + 1 < |w| then
              var more := Read(g, 0, ws);
              r == Reading([Event(c as int, Some(w[off + 1..]), None, None, None)] + more.events,
                           [w] + more.options, more.operands)
            else if ws != [] then
              var more := Read(g, 0, ws[1..]);
              r == Reading([Event(c as int, Some(ws[0]), None, None, None)] + more.events,
                           [w, ws[0]] + more.options, more.operands)
            else
              var code := if g.optstring[0] == ':' then ':' else '?';
              r == Reading([Event(code as int, None, None, Some(c as int), None)], [w], [])
  {
    DeclaredAs(a, c, b, RequiredArgument);
    assert ws == [] ==> Read(g, 0, ws) == Reading([], [], []);
    assert 1 <= off < |w|;
    hide Read, Declared, ComesTo;
    SkipDash(g, w, at, off, ws);
    var rest := w[off + 1..];
    if rest != "" {
      LastOfCluster(g, off, w, ws, Short(c, Some(rest)), 0);
      assert ws[0..] == ws && [w] + ws[..0] == [w];
    } else if ws != [] {
      LastOfCluster(g, off, w, ws, Short(c, Some(ws[0])), 1);
      assert [w] + ws[..1] == [w, ws[0]];
    } else {
      LastOfCluster(g, off, w, ws, Rejected(Missing(g), c as int), 0);
      assert ws[0..] == ws && [w] + ws[..0] == [w];
    }
  }

  // A character that two colons follow takes the rest of its word and nothing else.
  lemma OptionalCharacter(g: Grammar, a: string, c: char, b: string, w: string, at: nat, off: nat, ws: seq<string>)
    requires g.optstring == a + [c] + b && c !in a && c != ':' && |b| >= 2 && b[0] == b[1] == ':'
    requires ComesTo(g, w, at, off) && w[off] == c
    ensures var arg := if off + 1 < |w| then Some(w[off + 1..]) else None;
            var more := Read(g, 0, ws);
            Read(g, at, [w] + ws)
            == Reading([Event(c as int, arg, None, None, None)] + more.events, [w] + more.options, more.operands)
  {
    DeclaredAs(a, c, b, OptionalArgument);
    assert 1 <= off < |w|;
    hide Read, Declared, ComesTo;
    SkipDash(g, w, at, off, ws);
    var rest := w[off + 1..];
    LastOfCluster(g, off, w, ws, Short(c, if rest != "" then Some(rest) else None), 0);
    assert ws[0..] == ws && [w] + ws[..0] == [w];
  }

  // ---- Long options --------------------------------------------------------------------

  // name stands for entry i: it is the first entry of this name; or no entry has this name,
  // i is the first that it abbreviates, and all it abbreviates agree in the other fields.
  predicate StandsFor(table: seq<LongOption>, name: string, i: nat) {
    && i < |table|
    && (|| (table[i].name == name && forall j :: 0 <= j < i ==> table[j].name != name)
        || (&& name <= table[i].name && (forall j :: 0 <= j < |table| ==> table[j].name != name)
            && forall j :: 0 <= j < |table| && name <= table[j].name ==>
                 && i <= j && table[j].hasArg == table[i].hasArg
                 && table[j].flag == table[i].flag && table[j].val == table[i].val))
  }

  lemma StandsForResolves(table: seq<LongOption>, name: string, i: nat)
    requires StandsFor(table, name, i)
    ensures Resolve(table, name) == Found(i)
  {
    ResolutionIsUnique(table, name, Found(i));
  }

  // The word: two dashes, the name, and an argument behind an equals sign if attached.
  function LongWord(name: string, attached: Option<string>): string {
    if attached.Some? then "--" + name + "=" + attached.value else "--" + name
  }

  // A long option hands back its value, or stores it in its flag and hands back 0.
  function Handed(p: LongOption, i: nat, arg: Option<string>): Event {
    if p.flag.Some? then Event(0, arg, Some(i), None, Some((p.flag.value, p.val)))
    else Event(p.val, arg, Some(i), None, None)
  }

  // Reading of a word that ends with ws[n..] still to come.
  lemma LongRead(g: Grammar, name: string, attached: Option<string>, ws: seq<string>, e: Event, n: nat)
    requires IsName(g, name) && (name != "" || attached.Some?) && IsLongUse(g, name, attached, ws, e, n)
    ensures var w, more := LongWord(name, attached), Read(g, 0, ws[n..]);
            Read(g, 0, [w] + ws) == Reading([e] + more.events, [w] + ws[..n] + more.options, more.operands)
  {
    assert n <= |ws|;
    hide Read, IsLongUse;
    assert "--" + LongBody(name, attached) == LongWord(name, attached);
    ReadLong(g, name, attached, ws, e, n);
  }

  // An option with an attached argument that it may have.
  lemma LongAttached(g: Grammar, name: string, i: nat, arg: string, ws: seq<string>)
    requires g.longopts.Some? && '=' !in name && StandsFor(g.longopts.value, name, i)
    ensures var p, w, more := g.longopts.value[i], "--" + name + "=" + arg, Read(g, 0, ws);
            Read(g, 0, [w] + ws)
            == Reading([if p.hasArg == 0 then Event('?' as int, None, None, Some(p.val), None)
                        else Handed(p, i, Some(arg))] + more.events, [w] + more.options, more.operands)
  {
    StandsForResolves(g.longopts.value, name, i);
    hide Read, Resolve;
    var p := g.longopts.value[i];
    LongRead(g, name, Some(arg), ws,
             if p.hasArg == NO_ARGUMENT then Rejected(QUESTION, p.val) else Accepted(p, i, Some(arg)), 0);
    assert ws[0..] == ws && ["--" + name + "=" + arg] + ws[..0] == ["--" + name + "=" + arg];
  }

  // An option by itself: if it requires an argument, that is the next word.
  lemma LongAlone(g: Grammar, name: string, i: nat, ws: seq<string>)
    requires g.longopts.Some? && '=' !in name && name != "" && StandsFor(g.longopts.value, name, i)
    ensures var p, w, r := g.longopts.value[i], "--" + name, Read(g, 0, ["--" + name] + ws);
            if p.hasArg != 1 then
              var more := Read(g, 0, ws);
              r == Reading([Handed(p, i, None)] + more.events, [w] + more.options, more.operands)
            else if ws != [] then
              var more := Read(g, 0, ws[1..]);
              r == Reading([Handed(p, i, Some(ws[0]))] + more.events, [w, ws[0]] + more.options, more.operands)
            else
              var code := if g.optstring != "" && g.optstring[0] == ':' then ':' else '?';
              r == Reading([Event(code as int, None, None, Some(p.val), None)], [w], [])
  {
    StandsForResolves(g.longopts.value, name, i);
    assert ws == [] ==> Read(g, 0, ws) == Reading([], [], []);
    hide Read, Resolve;
    var p, w := g.longopts.value[i], "--" + name;
    if p.hasArg != 1 {
      LongRead(g, name, None, ws, Accepted(p, i, None), 0);
      assert ws[0..] == ws && [w] + ws[..0] == [w];
    } else if ws != [] {
      LongRead(g, name, None, ws, Accepted(p, i, Some(ws[0])), 1);
      assert [w] + ws[..1] == [w, ws[0]];
    } else {
      LongRead(g, name, None, ws, Rejected(Missing(g), p.val), 0);
      assert ws[0..] == ws && [w] + ws[..0] == [w] && [w] + Read(g, 0, ws).options == [w];
    }
  }

  // A name that no entry has, and that abbreviates none or some that differ, is an error.
  lemma LongUnresolved(g: Grammar, name: string, attached: Option<string>, ws: seq<string>)
    requires g.longopts.Some? && '=' !in name && (name != "" || attached.Some?)
    requires var table := g.longopts.value;
             && (forall j :: 0 <= j < |table| ==> table[j].name != name)
             && (|| (forall j :: 0 <= j < |table| ==> !(name <= table[j].name))
                 || (exists i, j :: 0 <= i < j < |table| && name <= table[i].name && name <= table[j].name
                      && !(&& table[i].hasArg == table[j].hasArg
                           && table[i].flag == table[j].flag && table[i].val == table[j].val)))
    ensures var w, more := LongWord(name, attached), Read(g, 0, ws);
            Read(g, 0, [w] + ws)
            == Reading([Event('?' as int, None, None, Some(0), None)] + more.events, [w] + more.options, more.operands)
  {
    Unresolved(g.longopts.value, name);
    hide Read, Resolve;
    LongRead(g, name, attached, ws, Rejected(QUESTION, 0), 0);
    var w := LongWord(name, attached);
    assert ws[0..] == ws && [w] + ws[..0] == [w];
  }

  lemma Unresolved(table: seq<LongOption>, name: string)
    requires forall j :: 0 <= j < |table| ==> table[j].name != name
    requires || (forall j :: 0 <= j < |table| ==> !(name <= table[j].name))
             || (exists i, j :: 0 <= i < j < |table| && name <= table[i].name && name <= table[j].name
                  && !(&& table[i].hasArg == table[j].hasArg
                       && table[i].flag == table[j].flag && table[i].val == table[j].val))
    ensures !Resolve(table, name).Found?
  {
    if forall j :: 0 <= j < |table| ==> !(name <= table[j].name) {
      ResolutionIsUnique(table, name, Unknown);
    } else {
      var i, j :| 0 <= i < j < |table| && name <= table[i].name && name <= table[j].name
                  && !(&& table[i].hasArg == table[j].hasArg
                       && table[i].flag == table[j].flag && table[i].val == table[j].val);
      assert Abbreviates(table, name, i) && Abbreviates(table, name, j);
      ResolutionIsUnique(table, name, Ambiguous);
    }
  }
}
