// The reference reading of an argument vector: one left-to-right pass over the words that
// never moves any of them.  It fixes what the permuting scanner of
// client/src/ogrt-cmdline.c has to report and which words count as options and operands.
module Reference {
  import opened Wrappers
  import opened LongOptions

  // optstring and longopts; no long options at all is a null table.
  datatype Grammar = Grammar(optstring: string, longopts: Option<seq<LongOption>>)

  // What one call of the scanner tells its caller: the returned code, and what it leaves
  // in custom_optarg, *longind, custom_optopt and *flag (None where it writes nothing).
  datatype Event = Event(code: int, arg: Option<string>, longind: Option<nat>,
                         optopt: Option<int>, flag: Option<(nat, int)>)

  const QUESTION := '?' as int
  const COLON := ':' as int

  // The character of a C string at i, whose end reads as NUL.
  function CharAt(s: string, i: nat): char {
    if i < |s| then s[i] else '\0'
  }

  predicate IsOperand(w: string) {
    CharAt(w, 0) != '-' || CharAt(w, 1) == '\0'
  }

  predicate IsDelimiter(w: string) {
    w == "--"
  }

  // strchr: the first position of c at or after i, or |s|.
  function Find(s: string, c: char, i: nat): (k: nat)
    requires i <= |s|
    ensures i <= k <= |s|
    ensures k < |s| ==> s[k] == c
    ensures forall j :: i <= j < k ==> s[j] != c
    decreases |s| - i
  {
    if i == |s| || s[i] == c then i else Find(s, c, i + 1)
  }

  datatype Takes = NotAnOption | NoArgument | RequiredArgument | OptionalArgument

  // What optstring says about the option character c.
  function Declared(optstring: string, c: char): Takes {
    var k := Find(optstring, c, 0);
    if k == |optstring| || c == ':' then NotAnOption
    else if CharAt(optstring, k + 1) != ':' then NoArgument
    else if CharAt(optstring, k + 2) != ':' then RequiredArgument
    else OptionalArgument
  }

  // One option occurrence: what is reported, how many whole words it finishes, and at
  // which character of the next unfinished word (0: at its start) reading resumes.
  // starved says that a required argument was missing because the words had run out.
  datatype Token = Token(event: Event, words: nat, off: nat, starved: bool)

  function Missing(g: Grammar): int {
    if CharAt(g.optstring, 0) == ':' then COLON else QUESTION
  }

  function ShortToken(g: Grammar, off: nat, ws: seq<string>): (t: Token)
    requires ws != [] && 1 <= off < |ws[0]|
    ensures t.words <= |ws|
    ensures t.words == 0 ==> t.off == off + 1 < |ws[0]|
    ensures t.words > 0 ==> t.off == 0
    ensures t.starved ==> t.words == |ws| == 1
  {
    var c := ws[0][off];
    var last := off + 1 == |ws[0]|;
    var tail := ws[0][off + 1..];
    var plain := Event(c as int, None, None, None, None);
    match Declared(g.optstring, c)
    case NotAnOption =>
      Token(Event(QUESTION, None, None, Some(c as int), None),
            if last then 1 else 0, if last then 0 else off + 1, false)
    case NoArgument =>
      Token(plain, if last then 1 else 0, if last then 0 else off + 1, false)
    case OptionalArgument =>
      Token(if last then plain else plain.(arg := Some(tail)), 1, 0, false)
    case RequiredArgument =>
      if !last then Token(plain.(arg := Some(tail)), 1, 0, false)
      else if |ws| == 1 then Token(Event(Missing(g), None, None, Some(c as int), None), 1, 0, true)
      else Token(plain.(arg := Some(ws[1])), 2, 0, false)
  }

  function Accepted(p: LongOption, i: nat, arg: Option<string>): Event {
    if p.flag.Some? then Event(0, arg, Some(i), None, Some((p.flag.value, p.val)))
    else Event(p.val, arg, Some(i), None, None)
  }

  function Rejected(code: int, optopt: int): Event {
    Event(code, None, None, Some(optopt), None)
  }

  function LongToken(g: Grammar, ws: seq<string>): (t: Token)
    requires g.longopts.Some? && ws != [] && |ws[0]| >= 2
    ensures 1 <= t.words <= |ws| && t.off == 0
    ensures t.starved ==> t.words == |ws| == 1
  {
    var table := g.longopts.value;
    var body := ws[0][2..];
    var n := Find(body, '=', 0);
    match Resolve(table, body[..n])
    case Ambiguous => Token(Rejected(QUESTION, 0), 1, 0, false)
    case Unknown => Token(Rejected(QUESTION, 0), 1, 0, false)
    case Found(i) => FoundToken(g, ws, i, n)
  }

  // The long option i of the table, its name being n characters long.
  function FoundToken(g: Grammar, ws: seq<string>, i: nat, n: nat): (t: Token)
    requires g.longopts.Some? && i < |g.longopts.value| && ws != [] && n + 2 <= |ws[0]|
    ensures 1 <= t.words <= |ws| && t.off == 0
    ensures t.starved ==> t.words == |ws| == 1
  {
    var p, body := g.longopts.value[i], ws[0][2..];
    if n < |body| then
      Token(if p.hasArg != NO_ARGUMENT then Accepted(p, i, Some(body[n + 1..])) else Rejected(QUESTION, p.val),
            1, 0, false)
    else if p.hasArg != REQUIRED_ARGUMENT then Token(Accepted(p, i, None), 1, 0, false)
    else if |ws| == 1 then Token(Rejected(Missing(g), p.val), 1, 0, true)
    else Token(Accepted(p, i, Some(ws[1])), 2, 0, false)
  }

  predicate IsLong(g: Grammar, w: string) {
    g.longopts.Some? && CharAt(w, 1) == '-'
  }

  // A place in the words not yet read: at the start of the first one, or inside a cluster
  // of short options with at least one character left.
  predicate Place(off: nat, ws: seq<string>) {
    off > 0 ==> ws != [] && off < |ws[0]|
  }

  function NextToken(g: Grammar, off: nat, ws: seq<string>): (t: Token)
    requires Place(off, ws) && ws != []
    requires off == 0 ==> !IsOperand(ws[0])
    ensures t.words <= |ws| && Place(t.off, ws[t.words..])
    ensures t.words == 0 ==> off < t.off
    ensures t.starved ==> t.words == |ws| == 1
  {
    if off == 0 && IsLong(g, ws[0]) then LongToken(g, ws)
    else ShortToken(g, if off == 0 then 1 else off, ws)
  }

  // The result of reading: what is reported, and the words sorted into option words
  // (option elements, their separate arguments and the delimiter) and operands.
  datatype Reading = Reading(events: seq<Event>, options: seq<string>, operands: seq<string>)

  function CharsLeft(off: nat, ws: seq<string>): nat
    requires Place(off, ws)
  {
    Chars(ws) - off
  }

  function Chars(ws: seq<string>): (n: nat)
    ensures ws != [] ==> n >= |ws[0]|
  {
    if ws == [] then 0 else |ws[0]| + Chars(ws[1..])
  }

  function Read(g: Grammar, off: nat, ws: seq<string>): Reading
    requires Place(off, ws)
    decreases |ws|, if ws == [] then 0 else |ws[0]| - off
  {
    if ws == [] then Reading([], [], [])
    else if off == 0 && IsOperand(ws[0]) then
      var r := Read(g, 0, ws[1..]);
      r.(operands := [ws[0]] + r.operands)
    else if off == 0 && IsDelimiter(ws[0]) then Reading([], [ws[0]], ws[1..])
    else
      var t := NextToken(g, off, ws);
      var r := Read(g, t.off, ws[t.words..]);
      Reading([t.event] + r.events, ws[..t.words] + r.options, r.operands)
  }

  // An option at the very end lacks its required argument.
  predicate Starved(g: Grammar, off: nat, ws: seq<string>)
    requires Place(off, ws)
    decreases |ws|, if ws == [] then 0 else |ws[0]| - off
  {
    if ws == [] then false
    else if off == 0 && IsOperand(ws[0]) then Starved(g, 0, ws[1..])
    else if off == 0 && IsDelimiter(ws[0]) then false
    else
      var t := NextToken(g, off, ws);
      t.starved || Starved(g, t.off, ws[t.words..])
  }

  // Reading comes upon the delimiter.
  predicate Delimited(g: Grammar, off: nat, ws: seq<string>)
    requires Place(off, ws)
    decreases |ws|, if ws == [] then 0 else |ws[0]| - off
  {
    if ws == [] then false
    else if off == 0 && IsOperand(ws[0]) then Delimited(g, 0, ws[1..])
    else if off == 0 && IsDelimiter(ws[0]) then true
    else
      var t := NextToken(g, off, ws);
      Delimited(g, t.off, ws[t.words..])
  }

  // ---- Which words are options: a stable partition -------------------------------------

  // One mark per word: true for an option word, false for an operand.
  function Marks(g: Grammar, off: nat, ws: seq<string>): (ks: seq<bool>)
    requires Place(off, ws)
    ensures |ks| == |ws|
    decreases |ws|, if ws == [] then 0 else |ws[0]| - off
  {
    if ws == [] then []
    else if off == 0 && IsOperand(ws[0]) then [false] + Marks(g, 0, ws[1..])
    else if off == 0 && IsDelimiter(ws[0]) then [true] + seq(|ws| - 1, _ => false)
    else
      var t := NextToken(g, off, ws);
      seq(t.words, _ => true) + Marks(g, t.off, ws[t.words..])
  }

  // The words carrying the mark k, in their order.
  function Select(ws: seq<string>, ks: seq<bool>, k: bool): seq<string>
    requires |ks| == |ws|
  {
    if ws == [] then []
    else (if ks[0] == k then [ws[0]] else []) + Select(ws[1..], ks[1..], k)
  }

  lemma {:induction false} SelectAppends(a: seq<string>, b: seq<string>, p: seq<bool>, q: seq<bool>, k: bool)
    requires |a| == |p| && |b| == |q|
    ensures Select(a + b, p + q, k) == Select(a, p, k) + Select(b, q, k)
  {
    if a == [] {
      assert a + b == b && p + q == q;
    } else {
      assert (a + b)[1..] == a[1..] + b && (p + q)[1..] == p[1..] + q;
      SelectAppends(a[1..], b, p[1..], q, k);
      Associative(if p[0] == k then [a[0]] else [], Select(a[1..], p[1..], k), Select(b, q, k));
    }
  }

  lemma {:induction false} SelectUniform(ws: seq<string>, k: bool)
    ensures Select(ws, seq(|ws|, _ => k), k) == ws
    ensures Select(ws, seq(|ws|, _ => k), !k) == []
  {
    if ws != [] {
      assert seq(|ws|, _ => k)[1..] == seq(|ws[1..]|, _ => k);
      SelectUniform(ws[1..], k);
    }
  }

  // The option words and the operands are the two sides of one marking of the words, each
  // in its original order.
  lemma {:induction false} ReadingIsStablePartition(g: Grammar, off: nat, ws: seq<string>)
    requires Place(off, ws)
    ensures Read(g, off, ws).options == Select(ws, Marks(g, off, ws), true)
    ensures Read(g, off, ws).operands == Select(ws, Marks(g, off, ws), false)
    decreases |ws|, if ws == [] then 0 else |ws[0]| - off
  {
    hide NextToken;
    if ws == [] {
    } else if off == 0 && IsOperand(ws[0]) {
      ReadingIsStablePartition(g, 0, ws[1..]);
    } else if off == 0 && IsDelimiter(ws[0]) {
      SelectUniform(ws[1..], false);
      assert Marks(g, off, ws)[1..] == seq(|ws[1..]|, _ => false);
    } else {
      var t := NextToken(g, off, ws);
      ReadingIsStablePartition(g, t.off, ws[t.words..]);
      SelectUniform(ws[..t.words], true);
      assert ws == ws[..t.words] + ws[t.words..];
      forall k: bool {
        SelectAppends(ws[..t.words], ws[t.words..], seq(t.words, _ => true), Marks(g, t.off, ws[t.words..]), k);
      }
    }
  }

  lemma {:induction false} SelectIsPermutation(ws: seq<string>, ks: seq<bool>)
    requires |ks| == |ws|
    ensures multiset(Select(ws, ks, true)) + multiset(Select(ws, ks, false)) == multiset(ws)
  {
    if ws != [] {
      assert ws == [ws[0]] + ws[1..];
      SelectIsPermutation(ws[1..], ks[1..]);
    }
  }

  lemma ReadingIsPermutation(g: Grammar, off: nat, ws: seq<string>)
    requires Place(off, ws)
    ensures multiset(Read(g, off, ws).options + Read(g, off, ws).operands) == multiset(ws)
  {
    ReadingIsStablePartition(g, off, ws);
    SelectIsPermutation(ws, Marks(g, off, ws));
  }

  // ---- Length of a reading -------------------------------------------------------------

  lemma {:induction false} CharsAppend(a: seq<string>, b: seq<string>)
    ensures Chars(a + b) == Chars(a) + Chars(b)
    ensures |a| == 1 ==> Chars(a) == |a[0]|
  {
    if a == [] {
      assert a + b == b;
    } else {
      assert (a + b)[1..] == a[1..] + b;
      CharsAppend(a[1..], b);
    }
  }

  lemma TokenConsumes(g: Grammar, off: nat, ws: seq<string>)
    requires Place(off, ws) && ws != []
    requires off == 0 ==> !IsOperand(ws[0])
    ensures var t := NextToken(g, off, ws);
            CharsLeft(t.off, ws[t.words..]) < CharsLeft(off, ws)
  {
    var t := NextToken(g, off, ws);
    assert ws == ws[..t.words] + ws[t.words..];
    CharsAppend(ws[..t.words], ws[t.words..]);
    if t.words > 0 {
      assert ws[..t.words][0] == ws[0];
    }
  }

  // There are no more events than characters, so no more than one call per character is
  // needed to come to the end.
  lemma {:induction false} EventsAreBounded(g: Grammar, off: nat, ws: seq<string>)
    requires Place(off, ws)
    ensures |Read(g, off, ws).events| <= CharsLeft(off, ws)
    decreases |ws|, if ws == [] then 0 else |ws[0]| - off
  {
    if ws == [] {
    } else if off == 0 && IsOperand(ws[0]) {
      EventsAreBounded(g, 0, ws[1..]);
    } else if off == 0 && IsDelimiter(ws[0]) {
    } else {
      var t := NextToken(g, off, ws);
      EventsAreBounded(g, t.off, ws[t.words..]);
      TokenConsumes(g, off, ws);
    }
  }

  // ---- Reading the option words again, followed by other words -------------------------

  predicate AllOperands(ws: seq<string>) {
    forall i :: 0 <= i < |ws| ==> IsOperand(ws[i])
  }

  lemma {:induction false} ReadOperands(g: Grammar, ws: seq<string>)
    requires AllOperands(ws)
    ensures Read(g, 0, ws) == Reading([], [], ws)
  {
    if ws != [] {
      ReadOperands(g, ws[1..]);
    }
  }

  lemma {:induction false} UndelimitedOperands(g: Grammar, off: nat, ws: seq<string>)
    requires Place(off, ws) && !Delimited(g, off, ws)
    ensures AllOperands(Read(g, off, ws).operands)
    decreases |ws|, if ws == [] then 0 else |ws[0]| - off
  {
    if ws == [] {
    } else if off == 0 && IsOperand(ws[0]) {
      UndelimitedOperands(g, 0, ws[1..]);
    } else {
      var t := NextToken(g, off, ws);
      UndelimitedOperands(g, t.off, ws[t.words..]);
    }
  }

  lemma {:induction false} OptionsKeepPlace(g: Grammar, off: nat, ws: seq<string>, tail: seq<string>)
    requires Place(off, ws)
    ensures Place(off, Read(g, off, ws).options + tail)
    ensures off > 0 ==> Read(g, off, ws).options != [] && Read(g, off, ws).options[0] == ws[0]
    decreases |ws|, if ws == [] then 0 else |ws[0]| - off
  {
    if off > 0 {
      var t := NextToken(g, off, ws);
      if t.words == 0 {
        assert ws[t.words..] == ws;
        OptionsKeepPlace(g, t.off, ws, tail);
      }
    }
  }

  // A token only looks at the words it consumes, and at whether there are more.
  lemma TokenIsLocal(g: Grammar, off: nat, ws: seq<string>, vs: seq<string>)
    requires Place(off, ws) && ws != [] && Place(off, vs) && vs != []
    requires off == 0 ==> !IsOperand(ws[0])
    requires vs[0] == ws[0]
    requires var t := NextToken(g, off, ws);
             && t.words <= |vs| && ws[..t.words] == vs[..t.words]
             && (t.starved ==> |vs| == 1)
    ensures NextToken(g, off, ws) == NextToken(g, off, vs)
  {
    var t := NextToken(g, off, ws);
    if t.words == 2 {
      assert ws[1] == ws[..t.words][1] == vs[..t.words][1] == vs[1];
    }
  }

  lemma Associative(a: seq<string>, b: seq<string>, c: seq<string>)
    ensures a + b + c == a + (b + c)
  {
  }

  // A token in front of any words us reads like the token in front of the original rest.
  lemma TokenInFront(g: Grammar, off: nat, ws: seq<string>, us: seq<string>)
    requires Place(off, ws) && ws != []
    requires off == 0 ==> !IsOperand(ws[0]) && !IsDelimiter(ws[0])
    requires var t := NextToken(g, off, ws);
             && Place(t.off, us)
             && (t.words == 0 ==> us != [] && us[0] == ws[0])
             && (t.starved ==> us == [])
    ensures var t := NextToken(g, off, ws);
            var vs, u := ws[..t.words] + us, Read(g, t.off, us);
            && Place(off, vs)
            && Read(g, off, vs) == InFront(t.event, ws[..t.words], u)
  {
    var t := NextToken(g, off, ws);
    var vs := ws[..t.words] + us;
    assert vs[..t.words] == ws[..t.words] && vs[t.words..] == us;
    assert vs[0] == ws[0];
    TokenIsLocal(g, off, ws, vs);
  }

  // The option words, followed by any words at all if they contain the delimiter and by
  // operands otherwise, read like the original words: same events, same option words.
  // The only exception is a starved last option with something to take after it.
  lemma {:induction false} OptionsThenTail(g: Grammar, off: nat, ws: seq<string>, tail: seq<string>)
    requires Place(off, ws)
    requires Delimited(g, off, ws) || AllOperands(tail)
    requires !Starved(g, off, ws) || tail == []
    ensures var r := Read(g, off, ws);
            && Place(off, r.options + tail)
            && Read(g, off, r.options + tail) == Reading(r.events, r.options, tail)
    decreases |ws|, if ws == [] then 0 else |ws[0]| - off
  {
    hide NextToken, IsOperand;
    var r := Read(g, off, ws);
    if ws == [] {
      assert r.options + tail == tail;
      ReadOperands(g, tail);
    } else if off == 0 && IsOperand(ws[0]) {
      OptionsThenTail(g, 0, ws[1..], tail);
    } else if off == 0 && IsDelimiter(ws[0]) {
      assert (r.options + tail)[1..] == tail;
    } else {
      var t := NextToken(g, off, ws);
      var rest := Read(g, t.off, ws[t.words..]).options;
      Associative(ws[..t.words], rest, tail);
      OptionsThenTail(g, t.off, ws[t.words..], tail);
      OptionsKeepPlace(g, t.off, ws[t.words..], tail);
      TokenInFront(g, off, ws, rest + tail);
      assert r == InFront(t.event, ws[..t.words], Read(g, t.off, ws[t.words..]));
    }
  }

  // Deleting every operand, wherever it stands, changes neither what is reported nor
  // which words are options.
  lemma OperandIrrelevance(g: Grammar, ws: seq<string>)
    ensures Read(g, 0, Read(g, 0, ws).options) == Read(g, 0, ws).(operands := [])
  {
    OptionsThenTail(g, 0, ws, []);
    assert Read(g, 0, ws).options + [] == Read(g, 0, ws).options;
  }

  // Two argument vectors with the same option words, however operands are spread among
  // them, are reported alike.
  lemma EventsDependOnOptionsOnly(g: Grammar, ws: seq<string>, vs: seq<string>)
    requires Read(g, 0, ws).options == Read(g, 0, vs).options
    ensures Read(g, 0, ws).events == Read(g, 0, vs).events
  {
    OperandIrrelevance(g, ws);
    OperandIrrelevance(g, vs);
  }

  // What the scanner leaves behind.
  function Permuted(g: Grammar, ws: seq<string>): seq<string> {
    Read(g, 0, ws).options + Read(g, 0, ws).operands
  }

  lemma StarvedTokenTakes(g: Grammar, off: nat, ws: seq<string>, tail: seq<string>)
    requires Place(off, ws) && ws != []
    requires off == 0 ==> !IsOperand(ws[0]) && !IsDelimiter(ws[0])
    requires NextToken(g, off, ws).starved
    requires tail != [] && AllOperands(tail)
    ensures |ws| == 1 && NextToken(g, off, ws).words == 1 && NextToken(g, off, ws).event.arg == None
    ensures var v := Read(g, off, ws + tail);
            && |v.events| == 1 && v.events[0].arg == Some(tail[0])
            && v.options == ws + tail[..1] && v.operands == tail[1..]
  {
    var vs := ws + tail;
    assert vs[0] == ws[0] && vs[1] == tail[0];
    var u := NextToken(g, off, vs);
    assert u.words == 2 && u.off == 0 && u.event.arg == Some(tail[0]);
    assert vs[2..] == tail[1..] && vs[..2] == ws + tail[..1];
    ReadOperands(g, tail[1..]);
  }

  // v is the reading r except that its last option, which had no argument in r, took the
  // first word of tail.
  ghost predicate Swallows(r: Reading, v: Reading, tail: seq<string>)
    requires tail != []
  {
    && |v.events| == |r.events| > 0
    && r.events[|r.events| - 1].arg == None
    && v.events[|v.events| - 1].arg == Some(tail[0])
    && v.options == r.options + tail[..1]
    && v.operands == tail[1..]
  }

  function InFront(e: Event, words: seq<string>, r: Reading): Reading {
    Reading([e] + r.events, words + r.options, r.operands)
  }

  lemma SwallowsInFront(e: Event, words: seq<string>, r: Reading, v: Reading, tail: seq<string>)
    requires tail != [] && Swallows(r, v, tail)
    ensures Swallows(InFront(e, words, r), InFront(e, words, v), tail)
  {
    Associative(words, r.options, tail[..1]);
  }

  // A starved last option followed by operands takes the first of them instead of
  // reporting that its argument is missing.
  lemma {:induction false} StarvedTakesTail(g: Grammar, off: nat, ws: seq<string>, tail: seq<string>)
    requires Place(off, ws) && Starved(g, off, ws)
    requires tail != [] && AllOperands(tail)
    ensures var r := Read(g, off, ws);
            && Place(off, r.options + tail)
            && Swallows(r, Read(g, off, r.options + tail), tail)
    decreases |ws|, if ws == [] then 0 else |ws[0]| - off
  {
    var r := Read(g, off, ws);
    if off == 0 && IsOperand(ws[0]) {
      StarvedTakesTail(g, 0, ws[1..], tail);
    } else {
      var t := NextToken(g, off, ws);
      var rest := Read(g, t.off, ws[t.words..]);
      if t.starved {
        StarvedTokenTakes(g, off, ws, tail);
        assert ws[..1] == ws && ws[1..] == [];
        assert r == Reading([t.event], ws, []);
      } else {
        OptionsKeepPlace(g, t.off, ws[t.words..], tail);
        StarvedTakesTail(g, t.off, ws[t.words..], tail);
        TokenInFront(g, off, ws, rest.options + tail);
        Associative(ws[..t.words], rest.options, tail);
        SwallowsInFront(t.event, ws[..t.words], rest, Read(g, t.off, rest.options + tail), tail);
      }
    }
  }

  lemma {:induction false} StarvedMeansUndelimited(g: Grammar, off: nat, ws: seq<string>)
    requires Place(off, ws) && Starved(g, off, ws)
    ensures !Delimited(g, off, ws)
    decreases |ws|, if ws == [] then 0 else |ws[0]| - off
  {
    if off == 0 && IsOperand(ws[0]) {
      StarvedMeansUndelimited(g, 0, ws[1..]);
    } else {
      var t := NextToken(g, off, ws);
      if t.starved {
        assert ws[t.words..] == [];
      } else {
        StarvedMeansUndelimited(g, t.off, ws[t.words..]);
      }
    }
  }

  // Reading the permuted words again never moves a word; and it reports the same events
  // exactly unless a starved last option meets an operand.
  lemma Idempotence(g: Grammar, ws: seq<string>)
    ensures Permuted(g, Permuted(g, ws)) == Permuted(g, ws)
    ensures Read(g, 0, Permuted(g, ws)).events == Read(g, 0, ws).events
            <==> !(Starved(g, 0, ws) && Read(g, 0, ws).operands != [])
  {
    hide Read, Starved, Delimited;
    var r := Read(g, 0, ws);
    if !Delimited(g, 0, ws) {
      UndelimitedOperands(g, 0, ws);
    }
    if Starved(g, 0, ws) {
      StarvedMeansUndelimited(g, 0, ws);
    }
    if Starved(g, 0, ws) && r.operands != [] {
      StarvedTakesTail(g, 0, ws, r.operands);
    } else {
      OptionsThenTail(g, 0, ws, r.operands);
    }
  }
}
