// The permuting scanner of client/src/ogrt-cmdline.c: struct custom_getopt_data and the
// functions that update it while they rearrange argv.
module Getopt {
  import opened Wrappers
  import opened LongOptions
  import opened Reference
  import opened Rotation

  // The char pointer nextchar: null, or a position in a string.
  datatype Cursor = Null | At(text: string, pos: nat) {
    // NULL, or pointing at the terminating NUL.
    predicate AtEnd() { Null? || pos == |text| }
  }

  // ---- How far a scan has come ---------------------------------------------------------

  // v is the current argv of a scan that started at index start of orig.  Operands skipped
  // so far sit in [first, last), options seen since in [last, pos), earlier options in
  // [start, first).  Together with what reading the rest will find, they are what reading
  // the whole finds.
  ghost predicate Sorted(v: seq<string>, g: Grammar, orig: seq<string>, start: int,
                         first: int, last: int, pos: int, off: nat)
  {
    && |v| == |orig|
    && 1 <= start <= first <= last <= pos <= |v|
    && v[..start] == orig[..start]
    && v[pos..] == orig[pos..]
    && Place(off, v[pos..])
    && var whole, rest := Read(g, 0, orig[start..]), Read(g, off, v[pos..]);
    && whole.options == v[start..first] + v[last..pos] + rest.options
    && whole.operands == v[first..last] + rest.operands
  }

  // The words before start, then the option words, then the operands.
  ghost predicate Partitioned(v: seq<string>, g: Grammar, orig: seq<string>, start: int, optind: int) {
    && 1 <= start <= |orig|
    && var whole := Read(g, 0, orig[start..]);
    && v == orig[..start] + whole.options + whole.operands
    && optind == start + |whole.options|
  }

  lemma SortedBounds(v: seq<string>, g: Grammar, orig: seq<string>, start: int,
                     first: int, last: int, pos: int, off: nat)
    requires Sorted(v, g, orig, start, first, last, pos, off)
    ensures 1 <= start <= first <= last <= pos <= |v| == |orig| && Place(off, v[pos..])
  {
  }

  lemma StartsSorted(v: seq<string>, g: Grammar, start: int)
    requires 1 <= start <= |v|
    ensures Sorted(v, g, v, start, start, start, start, 0)
  {
  }

  // Moving the options seen since behind the earlier ones keeps the state of the scan.
  lemma ExchangeKeepsSorted(v: seq<string>, g: Grammar, orig: seq<string>, start: int,
                            first: int, last: int, pos: int)
    requires Sorted(v, g, orig, start, first, last, pos, 0)
    ensures Sorted(Exchanged(v, first, last, pos), g, orig, start, first + (pos - last), pos, pos, 0)
    ensures Exchanged(v, first, last, pos)[pos..] == v[pos..]
  {
    var u := Exchanged(v, first, last, pos);
    assert u[..start] == v[..start];
    assert u[pos..] == v[pos..];
    assert u[start..first + (pos - last)] == v[start..first] + v[last..pos];
    assert u[first + (pos - last)..pos] == v[first..last];
  }

  lemma NoOperandsYet(v: seq<string>, g: Grammar, orig: seq<string>, start: int, first: int, pos: int)
    requires Sorted(v, g, orig, start, first, first, pos, 0)
    ensures Sorted(v, g, orig, start, pos, pos, pos, 0)
  {
    assert v[start..pos] == v[start..first] + v[first..pos];
  }

  lemma SkipOperand(v: seq<string>, g: Grammar, orig: seq<string>, start: int, first: int, pos: int)
    requires Sorted(v, g, orig, start, first, pos, pos, 0)
    requires pos < |v| && IsOperand(v[pos])
    ensures Sorted(v, g, orig, start, first, pos + 1, pos + 1, 0)
    ensures Read(g, 0, v[pos + 1..]).events == Read(g, 0, v[pos..]).events
    ensures CharsLeft(0, v[pos + 1..]) <= CharsLeft(0, v[pos..])
  {
    assert v[pos..][1..] == v[pos + 1..];
    assert orig[pos..][1..] == orig[pos + 1..];
    assert v[first..pos + 1] == v[first..pos] + [v[pos]];
    Associative(v[first..pos], [v[pos]], Read(g, 0, v[pos + 1..]).operands);
  }

  lemma TakeToken(v: seq<string>, g: Grammar, orig: seq<string>, start: int,
                  first: int, last: int, pos: int, off: nat)
    requires Sorted(v, g, orig, start, first, last, pos, off)
    requires pos < |v| && (off == 0 ==> !IsOperand(v[pos]) && !IsDelimiter(v[pos]))
    ensures var t := NextToken(g, off, v[pos..]);
            && Sorted(v, g, orig, start, first, last, pos + t.words, t.off)
            && v[pos..][t.words..] == v[pos + t.words..]
            && Read(g, off, v[pos..]).events == [t.event] + Read(g, t.off, v[pos + t.words..]).events
            && CharsLeft(t.off, v[pos + t.words..]) < CharsLeft(off, v[pos..])
  {
    hide NextToken, CharsLeft;
    var t := NextToken(g, off, v[pos..]);
    TokenConsumes(g, off, v[pos..]);
    assert v[pos..][t.words..] == v[pos + t.words..];
    assert orig[pos..][t.words..] == orig[pos + t.words..];
    assert v[last..pos + t.words] == v[last..pos] + v[pos..][..t.words];
    var rest := Read(g, t.off, v[pos + t.words..]).options;
    Associative(v[start..first], v[last..pos], v[pos..][..t.words]);
    Associative(v[start..first] + v[last..pos], v[pos..][..t.words], rest);
  }

  lemma EndOfWords(v: seq<string>, g: Grammar, orig: seq<string>, start: int, first: int)
    requires Sorted(v, g, orig, start, first, |v|, |v|, 0)
    ensures Partitioned(v, g, orig, start, first)
    ensures Read(g, 0, v[|v|..]).events == []
  {
    assert v == v[..start] + v[start..first] + v[first..];
  }

  lemma DelimiterFound(v: seq<string>, g: Grammar, orig: seq<string>, start: int, first: int, pos: int)
    requires Sorted(v, g, orig, start, first, pos, pos, 0)
    requires pos < |v| && IsDelimiter(v[pos])
    ensures |v| == |orig| && 1 <= start <= first <= pos && v[..start] == orig[..start]
    ensures Read(g, 0, orig[start..]).options == v[start..first] + [v[pos]]
    ensures Read(g, 0, orig[start..]).operands == v[first..pos] + v[pos + 1..]
    ensures Read(g, 0, v[pos..]).events == []
  {
    assert Read(g, 0, v[pos..]) == Reading([], [v[pos]], v[pos + 1..]);
    assert v[start..first] + v[pos..pos] == v[start..first];
  }

  lemma Regroup(a: seq<string>, b: seq<string>, c: seq<string>, d: seq<string>, e: seq<string>)
    ensures a + b + c + d + e == a + (b + c) + (d + e)
  {
  }

  lemma EndAtDelimiter(v: seq<string>, g: Grammar, orig: seq<string>, start: int, first: int, pos: int)
    requires Sorted(v, g, orig, start, first, pos, pos, 0)
    requires pos < |v| && IsDelimiter(v[pos])
    ensures Partitioned(Exchanged(v, first, pos, pos + 1), g, orig, start, first + 1)
    ensures first == pos ==> Exchanged(v, first, pos, pos + 1) == v
    ensures Read(g, 0, v[pos..]).events == []
  {
    DelimiterFound(v, g, orig, start, first, pos);
    hide Read, Sorted;
    assert v[..first] == v[..start] + v[start..first];
    assert v[pos..pos + 1] == [v[pos]];
    Regroup(v[..start], v[start..first], [v[pos]], v[first..pos], v[pos + 1..]);
    if first == pos {
      ExchangedTrivially(v, first, pos, pos + 1);
    }
  }

  lemma Interleaved(a: seq<string>, n: seq<string>, b: seq<string>, ws: seq<string>, rest: Reading, whole: Reading)
    requires whole.options == a + b + rest.options && whole.operands == n + rest.operands
    requires multiset(rest.options + rest.operands) == multiset(ws)
    ensures multiset(a) + multiset(n) + multiset(b) + multiset(ws) == multiset(whole.options + whole.operands)
  {
  }

  // At every moment of a scan argv is a permutation of the original.
  lemma SortedIsPermutation(v: seq<string>, g: Grammar, orig: seq<string>, start: int,
                            first: int, last: int, pos: int, off: nat)
    requires Sorted(v, g, orig, start, first, last, pos, off)
    ensures multiset(v) == multiset(orig)
  {
    hide Read;
    ReadingIsPermutation(g, 0, orig[start..]);
    ReadingIsPermutation(g, off, v[pos..]);
    assert orig == orig[..start] + orig[start..];
    assert v == v[..start] + v[start..first] + v[first..last] + v[last..pos] + v[pos..];
    Interleaved(v[start..first], v[first..last], v[last..pos], v[pos..],
                Read(g, off, v[pos..]), Read(g, 0, orig[start..]));
  }

  // Swaps the n slots from p on with the n slots from q on.
  method SwapBlocks(argv: array<string>, p: nat, q: nat, n: nat)
    requires p + n <= q && q + n <= argv.Length
    modifies argv
    ensures argv[..] == Swapped(old(argv[..]), p, q, n)
  {
    for i := 0 to n
      invariant forall k :: 0 <= k < argv.Length ==> argv[k] == old(argv[..])[SwappedFrom(p, q, i, k)]
    {
      var tem := argv[p + i];
      argv[p + i] := argv[q + i];
      argv[q + i] := tem;
    }
    hide Swapped;
    forall k | 0 <= k < argv.Length ensures argv[..][k] == Swapped(old(argv[..]), p, q, n)[k] {
      SwappedAt(old(argv[..]), p, q, n, k);
    }
  }

  // struct custom_getopt_data.  flags stands for the caller's int variables that the flag
  // pointers of the option table refer to.
  class GetoptData {
    var optind: int
    var optarg: Option<string>
    var optopt: int
    var initialized: bool
    var nextchar: Cursor
    var firstNonopt: int
    var lastNonopt: int
    var flags: map<nat, int>

    constructor () {
      optind, optarg, optopt, initialized := 1, None, 0, false;
      nextchar, firstNonopt, lastNonopt, flags := Null, 0, 0, map[];
    }

    // Turns the adjacent segments A = [firstNonopt, lastNonopt) and B = [lastNonopt, optind)
    // of argv into B A, and moves the two indices along with A.
    method Exchange(argv: array<string>) returns (ghost swaps: nat)
      requires 0 <= firstNonopt <= lastNonopt <= optind <= argv.Length
      modifies this`firstNonopt, this`lastNonopt, argv
      ensures argv[..] == Exchanged(old(argv[..]), old(firstNonopt), old(lastNonopt), optind)
      ensures firstNonopt == old(firstNonopt) + (optind - old(lastNonopt))
      ensures lastNonopt == optind
      ensures var a, b := old(lastNonopt - firstNonopt), optind - old(lastNonopt);
              swaps == a + b - Gcd(a, b)
    {
      hide Exchanged, Swapped;
      var bottom, middle, top := firstNonopt, lastNonopt, optind;
      swaps := 0;
      while top > middle && middle > bottom
        invariant 0 <= bottom <= middle <= top <= argv.Length
        invariant firstNonopt == old(firstNonopt) && lastNonopt == old(lastNonopt)
        invariant Exchanged(argv[..], bottom, middle, top) == Exchanged(old(argv[..]), firstNonopt, lastNonopt, optind)
        invariant var x, y, a, b := middle - bottom, top - middle, lastNonopt - firstNonopt, optind - lastNonopt;
                  swaps + (x + y - Gcd(x, y)) == a + b - Gcd(a, b)
        decreases top - bottom
      {
        if top - middle > middle - bottom {
          // The bottom segment is the short one.
          var len := middle - bottom;
          ShortBottom(argv[..], bottom, middle, top);
          SwapBlocks(argv, bottom, top - len, len);
          top := top - len;
          swaps := swaps + len;
        } else {
          // The top segment is the short one.
          var len := top - middle;
          ShortTop(argv[..], bottom, middle, top);
          SwapBlocks(argv, bottom, middle, len);
          bottom := bottom + len;
          swaps := swaps + len;
        }
      }
      ExchangedTrivially(argv[..], bottom, middle, top);
      firstNonopt := firstNonopt + (optind - lastNonopt);
      lastNonopt := optind;
    }

    // The first call on an argv: nothing has been skipped yet.
    method Initialize()
      modifies this`firstNonopt, this`lastNonopt, this`nextchar, this`initialized
      ensures firstNonopt == lastNonopt == optind && nextchar == Null && initialized
    {
      firstNonopt, lastNonopt := optind, optind;
      nextchar := Null;
      initialized := true;
    }

    // The offset of nextchar in the word being read, 0 between words.
    ghost function Offset(): nat
      reads this
    {
      if nextchar.AtEnd() then 0 else nextchar.pos
    }

    // The non-option range as shuffle_argv corrects it when its caller has moved optind back.
    function Corrected(index: int): int
      reads this
    {
      if index > optind then optind else index
    }

    // Between two words of a scan that began at start on orig.
    ghost predicate Between(argv: array<string>, g: Grammar, orig: seq<string>, start: int)
      reads this, argv
    {
      Sorted(argv[..], g, orig, start, Corrected(firstNonopt), Corrected(lastNonopt), optind, 0)
    }

    // The words not yet finished.
    ghost function Unread(argv: array<string>): seq<string>
      requires 0 <= optind <= argv.Length
      reads this, argv
    {
      argv[..][optind..]
    }

    // The state between two calls: what is sorted so far, and nextchar either at an end or
    // a non-empty proper suffix of a cluster of short options at argv[optind].
    ghost predicate Boundary(argv: array<string>, g: Grammar, orig: seq<string>, start: int)
      reads this, argv
    {
      && initialized
      && (nextchar.At? ==> nextchar.pos <= |nextchar.text|)
      && (!nextchar.AtEnd() ==>
            && 0 <= optind < argv.Length && nextchar.text == argv[optind]
            && 1 <= nextchar.pos && !IsOperand(nextchar.text) && !IsLong(g, nextchar.text))
      && Sorted(argv[..], g, orig, start, firstNonopt, lastNonopt, optind, Offset())
    }

    // Moves the options seen since the last operands in front of them.
    method SettleOptions(argv: array<string>, g: Grammar, ghost orig: seq<string>, ghost start: int)
      requires Between(argv, g, orig, start)
      modifies this`firstNonopt, this`lastNonopt, argv
      ensures Sorted(argv[..], g, orig, start, firstNonopt, optind, optind, 0)
      ensures Unread(argv) == old(Unread(argv))
    {
      hide Read, Exchanged, Sorted;
      SortedBounds(argv[..], g, orig, start, Corrected(firstNonopt), Corrected(lastNonopt), optind, 0);
      if lastNonopt > optind {
        lastNonopt := optind;
      }
      if firstNonopt > optind {
        firstNonopt := optind;
      }
      if firstNonopt != lastNonopt && lastNonopt != optind {
        ExchangeKeepsSorted(argv[..], g, orig, start, firstNonopt, lastNonopt, optind);
        var _ := Exchange(argv);
      } else if lastNonopt != optind {
        NoOperandsYet(argv[..], g, orig, start, firstNonopt, optind);
        firstNonopt := optind;
      }
    }

    // Leaves nextchar at the next option character, moving options before the operands
    // skipped so far; or ends the scan with argv partitioned.  It never comes to return an
    // operand to its caller (value 1).
    method ShuffleArgv(argv: array<string>, g: Grammar, ghost orig: seq<string>, ghost start: int)
      returns (ret: int)
      requires Between(argv, g, orig, start)
      modifies this`optind, this`firstNonopt, this`lastNonopt, this`nextchar, argv
      ensures ret == 0 || ret == -1
      ensures ret == 0 ==>
                && Sorted(argv[..], g, orig, start, firstNonopt, lastNonopt, optind, 0)
                && optind < argv.Length && !IsOperand(argv[optind]) && !IsDelimiter(argv[optind])
                && nextchar == At(argv[optind], if IsLong(g, argv[optind]) then 2 else 1)
                && Read(g, 0, Unread(argv)).events == old(Read(g, 0, Unread(argv)).events)
                && CharsLeft(0, Unread(argv)) <= old(CharsLeft(0, Unread(argv)))
      ensures ret == -1 ==>
                && Partitioned(argv[..], g, orig, start, optind)
                && old(Read(g, 0, Unread(argv)).events) == []
    {
      hide Read, CharsLeft, Exchanged, IsLong, Sorted, Partitioned;
      SortedBounds(argv[..], g, orig, start, Corrected(firstNonopt), Corrected(lastNonopt), optind, 0);
      SettleOptions(argv, g, orig, start);
      SortedBounds(argv[..], g, orig, start, firstNonopt, optind, optind, 0);
      while optind < argv.Length && IsOperand(argv[optind])
        invariant Sorted(argv[..], g, orig, start, firstNonopt, optind, optind, 0)
        invariant 0 <= firstNonopt <= optind <= argv.Length
        invariant Read(g, 0, Unread(argv)).events == old(Read(g, 0, Unread(argv)).events)
        invariant CharsLeft(0, Unread(argv)) <= old(CharsLeft(0, Unread(argv)))
      {
        SkipOperand(argv[..], g, orig, start, firstNonopt, optind);
        optind := optind + 1;
      }
      lastNonopt := optind;
      if optind != argv.Length && IsDelimiter(argv[optind]) {
        EndAtDelimiter(argv[..], g, orig, start, firstNonopt, optind);
        optind := optind + 1;
        if firstNonopt != lastNonopt && lastNonopt != optind {
          var _ := Exchange(argv);
        } else if firstNonopt == lastNonopt {
          firstNonopt := optind;
        }
        lastNonopt := argv.Length;
        optind := argv.Length;
      } else if optind == argv.Length {
        EndOfWords(argv[..], g, orig, start, firstNonopt);
      }
      if optind == argv.Length {
        if firstNonopt != lastNonopt {
          optind := firstNonopt;
        }
        return -1;
      }
      if IsOperand(argv[optind]) {
        // optarg is the operand, optind moves past it, and 1 is returned
        assert false;
      }
      nextchar := At(argv[optind], if IsLong(g, argv[optind]) then 2 else 1);
      return 0;
    }

    // What a call that reports e leaves behind, given what optopt, *longind and the flag
    // variables were before.
    ghost predicate Reported(e: Event, ret: int, ind: int, optoptWas: int, indWas: int, flagsWere: map<nat, int>)
      reads this
    {
      && ret == e.code
      && optarg == e.arg
      && optopt == (if e.optopt.Some? then e.optopt.value else optoptWas)
      && ind == (if e.longind.Some? then e.longind.value else indWas)
      && flags == (if e.flag.Some? then flagsWere[e.flag.value.0 := e.flag.value.1] else flagsWere)
    }

    // Takes the option found for the name that ends at nameend.
    method TakeFound(argv: array<string>, g: Grammar, longind: int, i: nat, nameend: nat)
      returns (ret: int, ind: int)
      requires g.longopts.Some? && i < |g.longopts.value| && 0 <= optind < argv.Length && |argv[optind]| >= 2
      requires nextchar == At(argv[optind], 2) && optarg == None
      requires 2 <= nameend <= |argv[optind]|
      modifies this`optind, this`optarg, this`optopt, this`nextchar, this`flags
      ensures var t := FoundToken(g, old(Unread(argv)), i, nameend - 2);
              && Reported(t.event, ret, ind, old(optopt), longind, old(flags))
              && optind == old(optind) + t.words
      ensures nextchar.At? && nextchar.AtEnd()
    {
      ind := longind;
      var text := nextchar.text;
      var p := g.longopts.value[i];
      hide CharAt;
      optind := optind + 1;
      if nameend < |text| {
        if p.hasArg != NO_ARGUMENT {
          optarg := Some(text[nameend + 1..]);
          assert text[nameend + 1..] == text[2..][nameend - 2 + 1..];
        } else {
          nextchar := At(text, |text|);
          optopt := p.val;
          return QUESTION, ind;
        }
      } else if p.hasArg == REQUIRED_ARGUMENT {
        if optind < argv.Length {
          optarg := Some(argv[optind]);
          optind := optind + 1;
        } else {
          nextchar := At(text, |text|);
          optopt := p.val;
          return (if CharAt(g.optstring, 0) == ':' then COLON else QUESTION), ind;
        }
      }
      nextchar := At(text, |text|);
      ind := i;
      if p.flag.Some? {
        flags := flags[p.flag.value := p.val];
        return 0, ind;
      }
      return p.val, ind;
    }

    // Takes one long option; nextchar is behind its two dashes.
    method CheckLongOpt(argv: array<string>, g: Grammar, longind: int) returns (ret: int, ind: int)
      requires g.longopts.Some? && 0 <= optind < argv.Length && |argv[optind]| >= 2
      requires nextchar == At(argv[optind], 2) && optarg == None
      modifies this`optind, this`optarg, this`optopt, this`nextchar, this`flags
      ensures var t := LongToken(g, old(Unread(argv)));
              && Reported(t.event, ret, ind, old(optopt), longind, old(flags))
              && optind == old(optind) + t.words
      ensures nextchar.At? && nextchar.AtEnd()
    {
      hide FoundToken;
      var text := nextchar.text;
      var nameend := nextchar.pos;
      while nameend < |text| && text[nameend] != '='
        invariant 2 <= nameend <= |text|
        invariant forall k :: 0 <= k < nameend - 2 ==> text[2..][k] != '='
      {
        nameend := nameend + 1;
      }
      ghost var body := text[2..];
      assert Find(body, '=', 0) == nameend - 2;
      assert body[..nameend - 2] == text[nextchar.pos..nameend];
      var found, ambig, exact := LookUp(g.longopts.value, text[nextchar.pos..nameend]);
      hide Resolve, Find;
      if ambig && !exact {
        nextchar := At(text, |text|);
        optind := optind + 1;
        optopt := 0;
        return QUESTION, longind;
      }
      if found.Some? {
        ret, ind := TakeFound(argv, g, longind, found.value, nameend);
        return;
      }
      nextchar := At("", 0);
      optind := optind + 1;
      optopt := 0;
      return QUESTION, longind;
    }

    // Takes one option character of a cluster, and its argument if it has one.
    method CheckShortOpt(argv: array<string>, g: Grammar, ghost ind: int) returns (ret: int)
      requires 0 <= optind < argv.Length && optarg == None
      requires nextchar.At? && nextchar.text == argv[optind] && 1 <= nextchar.pos < |nextchar.text|
      modifies this`optind, this`optarg, this`optopt, this`nextchar
      ensures var t := ShortToken(g, old(nextchar.pos), old(Unread(argv)));
              && Reported(t.event, ret, ind, old(optopt), ind, old(flags))
              && optind == old(optind) + t.words
              && if t.off == 0 then nextchar.AtEnd() else nextchar == At(old(nextchar.text), t.off)
      ensures nextchar.At? ==> nextchar.pos <= |nextchar.text|
    {
      var text := nextchar.text;
      var c := text[nextchar.pos];
      nextchar := At(text, nextchar.pos + 1);
      var temp := Find(g.optstring, c, 0);
      if nextchar.pos == |text| {
        optind := optind + 1;
      }
      if temp == |g.optstring| || c == ':' {
        optopt := c as int;
        return QUESTION;
      }
      ret := c as int;
      if CharAt(g.optstring, temp + 1) == ':' {
        if CharAt(g.optstring, temp + 2) == ':' {
          if nextchar.pos != |text| {
            optarg := Some(text[nextchar.pos..]);
            optind := optind + 1;
          } else {
            optarg := None;
          }
          nextchar := Null;
        } else {
          if nextchar.pos != |text| {
            optarg := Some(text[nextchar.pos..]);
            optind := optind + 1;
          } else if optind == argv.Length {
            optopt := c as int;
            ret := if CharAt(g.optstring, 0) == ':' then COLON else QUESTION;
          } else {
            optarg := Some(argv[optind]);
            optind := optind + 1;
          }
          nextchar := Null;
        }
      }
    }

    // Takes the option at nextchar, long or short.
    method CheckOpt(argv: array<string>, g: Grammar, longind: int,
                    ghost orig: seq<string>, ghost start: int, ghost off: nat)
      returns (ret: int, ind: int, ghost ev: Option<Event>)
      requires Sorted(argv[..], g, orig, start, firstNonopt, lastNonopt, optind, off)
      requires initialized && optind < argv.Length && optarg == None
      requires !IsOperand(argv[optind]) && (off == 0 ==> !IsDelimiter(argv[optind]))
      requires nextchar.At? && nextchar.text == argv[optind] && nextchar.pos < |nextchar.text|
      requires |argv[optind]| >= 2
      requires if off > 0 then nextchar.pos == off && !IsLong(g, argv[optind])
               else nextchar.pos == if IsLong(g, argv[optind]) then 2 else 1
      modifies this`optind, this`optarg, this`optopt, this`nextchar, this`flags
      ensures ev.Some? && Reported(ev.value, ret, ind, old(optopt), longind, old(flags))
      ensures Boundary(argv, g, orig, start)
      ensures 1 <= optind <= argv.Length && Place(Offset(), Unread(argv))
      ensures old(Read(g, off, Unread(argv)).events) == [ev.value] + Read(g, Offset(), Unread(argv)).events
      ensures CharsLeft(Offset(), Unread(argv)) < old(CharsLeft(off, Unread(argv)))
    {
      hide Sorted, Read, CharsLeft, LongToken, ShortToken, Reported, IsOperand, IsDelimiter;
      ghost var v, pos := argv[..], optind;
      SortedBounds(v, g, orig, start, firstNonopt, lastNonopt, pos, off);
      ghost var t := NextToken(g, off, v[pos..]);
      TakeToken(v, g, orig, start, firstNonopt, lastNonopt, pos, off);
      SortedBounds(v, g, orig, start, firstNonopt, lastNonopt, pos + t.words, t.off);
      if g.longopts.Some? && CharAt(argv[optind], 1) == '-' {
        ret, ind := CheckLongOpt(argv, g, longind);
      } else {
        ind := longind;
        ret := CheckShortOpt(argv, g, ind);
      }
      assert argv[..] == v && optind == pos + t.words && Offset() == t.off;
      ev := Some(t.event);
    }

    // The next call starts a new scan.
    predicate Fresh()
      reads this
    {
      optind == 0 || !initialized
    }

    // Where the next call goes on reading.
    function EntryIndex(): int
      reads this
    {
      if optind == 0 then 1 else optind
    }

    ghost function EntryOffset(): nat
      reads this
    {
      if Fresh() then 0 else Offset()
    }

    // What a caller has to respect: a new scan starts inside argv and fixes the original;
    // otherwise the state is that of an earlier call, with optind moved back at most to a
    // word boundary the words from which on are still sorted.
    ghost predicate Callable(argv: array<string>, g: Grammar, orig: seq<string>, start: int)
      reads this, argv
    {
      argv.Length > 0 ==>
        if Fresh() then orig == argv[..] && start == EntryIndex() && 1 <= start <= argv.Length
        else if nextchar.AtEnd() then
          (nextchar.At? ==> nextchar.pos <= |nextchar.text|) && Between(argv, g, orig, start)
        else Boundary(argv, g, orig, start)
    }

    // The reference reading of what is still to come.
    ghost function Pending(argv: array<string>, g: Grammar, orig: seq<string>, start: int): Reading
      requires argv.Length > 0 && Callable(argv, g, orig, start)
      reads this, argv
    {
      Read(g, EntryOffset(), argv[..][EntryIndex()..])
    }

    // The characters a scan still has to read.
    ghost function PendingChars(argv: array<string>, g: Grammar, orig: seq<string>, start: int): nat
      requires argv.Length > 0 && Callable(argv, g, orig, start)
      reads this, argv
    {
      CharsLeft(EntryOffset(), argv[..][EntryIndex()..])
    }

    lemma StartIsCallable(argv: array<string>, g: Grammar)
      requires optind == 0
      ensures Callable(argv, g, argv[..], 1)
      ensures argv.Length > 0 ==>
                && Pending(argv, g, argv[..], 1) == Read(g, 0, argv[..][1..])
                && PendingChars(argv, g, argv[..], 1) == Chars(argv[..][1..])
    {
    }

    lemma BoundaryIsCallable(argv: array<string>, g: Grammar, orig: seq<string>, start: int)
      requires Boundary(argv, g, orig, start) && optind > 0
      ensures Callable(argv, g, orig, start)
    {
    }

    // One call of the scanner.  It reports the first event of the reference reading of the
    // words still to come and leaves the rest of that reading to come; with no event left it
    // returns -1 on a partitioned argv.
    method GetoptInternalR(argv: array<string>, g: Grammar, longind: int, ghost orig: seq<string>, ghost start: int)
      returns (ret: int, ind: int, ghost ev: Option<Event>)
      requires Callable(argv, g, orig, start)
      modifies this, argv
      ensures argv.Length == 0 ==> ret == -1 && ind == longind && ev == None && unchanged(this)
      ensures argv.Length > 0 && ev == None ==>
                && old(Pending(argv, g, orig, start).events) == []
                && ret == -1 && ind == longind && optarg == None
                && optopt == old(optopt) && flags == old(flags)
                && Partitioned(argv[..], g, orig, start, optind)
      ensures argv.Length > 0 && ev.Some? ==>
                && Boundary(argv, g, orig, start)
                && Reported(ev.value, ret, ind, old(optopt), longind, old(flags))
                && ret == ev.value.code && optarg == ev.value.arg
                && ind == (if ev.value.longind.Some? then ev.value.longind.value else longind)
                && optopt == (if ev.value.optopt.Some? then ev.value.optopt.value else old(optopt))
                && flags == (if ev.value.flag.Some?
                             then old(flags)[ev.value.flag.value.0 := ev.value.flag.value.1] else old(flags))
                && Callable(argv, g, orig, start)
                && old(Pending(argv, g, orig, start).events)
                   == [ev.value] + Pending(argv, g, orig, start).events
                && PendingChars(argv, g, orig, start) < old(PendingChars(argv, g, orig, start))
    {
      hide Sorted, Read, CharsLeft, Partitioned;
      ind, ev := longind, None;
      if argv.Length < 1 {
        return -1, ind, ev;
      }
      optarg := None;
      if optind == 0 || !initialized {
        if optind == 0 {
          optind := 1;
        }
        Initialize();
        StartsSorted(argv[..], g, start);
      }
      ghost var off := Offset();
      if nextchar.AtEnd() {
        ret := ShuffleArgv(argv, g, orig, start);
        if ret != 0 {
          return ret, ind, ev;
        }
      }
      ret, ind, ev := CheckOpt(argv, g, longind, orig, start, off);
      BoundaryIsCallable(argv, g, orig, start);
    }
  }
}
