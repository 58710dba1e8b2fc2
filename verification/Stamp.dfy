// Note segments as the ELF specification lays them out (System V gABI, chapter 5, "Note
// Section"), the stamp that ogrt --generate-signature writes, and when the walk of
// client/src/ogrt-readso.c comes to it.
module Stamp {
  import opened Wrappers
  import opened Bytes
  import opened ReadSo

  // A note; its fields are padded to multiples of four bytes, its sizes are not.
  datatype Note = Note(name: seq<byte>, desc: seq<byte>, kind: int)

  predicate Fits(n: Note) {
    |n.name| + |n.desc| < 0x7fff_0000 && -0x8000_0000 <= n.kind < 0x8000_0000
  }

  function Int32Bytes(v: int): (b: seq<byte>)
    requires -0x8000_0000 <= v < 0x8000_0000
    ensures |b| == 4
  {
    var u := if v < 0 then v + 0x1_0000_0000 else v;
    [u % 0x100, u / 0x100 % 0x100, u / 0x100 / 0x100 % 0x100, u / 0x100 / 0x100 / 0x100]
  }

  function Padded(s: seq<byte>): (p: seq<byte>)
    ensures |s| <= |p| < |s| + 4 && |p| % 4 == 0
    ensures p[..|s|] == s
  {
    s + seq((4 - |s| % 4) % 4, _ => 0)
  }

  function Encode(n: Note): (b: seq<byte>)
    requires Fits(n)
    ensures |b| >= HEADER
  {
    Int32Bytes(|n.name|) + Int32Bytes(|n.desc|) + Int32Bytes(n.kind) + Padded(n.name) + Padded(n.desc)
  }

  predicate AllFit(ns: seq<Note>) {
    forall i :: 0 <= i < |ns| ==> Fits(ns[i])
  }

  function EncodeAll(ns: seq<Note>): seq<byte>
    requires AllFit(ns)
  {
    if ns == [] then [] else Encode(ns[0]) + EncodeAll(ns[1..])
  }

  // Both sizes are multiples of four.
  predicate Aligned(n: Note) {
    |n.name| % 4 == 0 && |n.desc| % 4 == 0
  }

  lemma Int32RoundTrip(v: int, before: seq<byte>, after: seq<byte>)
    requires -0x8000_0000 <= v < 0x8000_0000
    ensures Int32At(before + Int32Bytes(v) + after, |before|) == v
  {
    var u := if v < 0 then v + 0x1_0000_0000 else v;
    var mem := before + Int32Bytes(v) + after;
    var o := |before|;
    assert mem[o] == u % 0x100 && mem[o + 1] == u / 0x100 % 0x100;
    assert mem[o + 2] == u / 0x100 / 0x100 % 0x100 && mem[o + 3] == u / 0x100 / 0x100 / 0x100;
  }

  // The note n lies at offset o of mem.
  predicate LiesAt(mem: seq<byte>, o: nat, n: Note)
    requires Fits(n)
  {
    o + |Encode(n)| <= |mem| && mem[o..o + |Encode(n)|] == Encode(n)
  }

  lemma EncodedHeader(n: Note)
    requires Fits(n)
    ensures var b := Encode(n);
            Int32At(b, 0) == |n.name| && Int32At(b, 4) == |n.desc| && Int32At(b, 8) == n.kind
  {
    hide Int32At, Int32Bytes;
    var x, y, z := Int32Bytes(|n.name|), Int32Bytes(|n.desc|), Int32Bytes(n.kind);
    var body := Padded(n.name) + Padded(n.desc);
    Int32RoundTrip(|n.name|, [], y + z + body);
    Int32RoundTrip(|n.desc|, x, z + body);
    Int32RoundTrip(n.kind, x + y, body);
    assert Encode(n) == [] + x + (y + z + body);
    assert Encode(n) == x + y + (z + body);
    assert Encode(n) == (x + y) + z + body;
  }

  lemma HeaderOf(mem: seq<byte>, o: nat, n: Note)
    requires Fits(n) && LiesAt(mem, o, n)
    ensures Int32At(mem, o) == |n.name| && Int32At(mem, o + 4) == |n.desc| && Int32At(mem, o + 8) == n.kind
  {
    EncodedHeader(n);
    hide Encode;
    var b := Encode(n);
    assert forall k :: 0 <= k < |b| ==> mem[o..o + |b|][k] == b[k];
    assert forall k :: o <= k < o + HEADER ==> mem[k] == mem[o..o + |b|][k - o];
  }

  // The stride is never longer than the note, and as long exactly if both sizes are
  // multiples of four.
  lemma StrideIsPaddedLengthIffAligned(mem: seq<byte>, o: nat, n: Note)
    requires Fits(n) && LiesAt(mem, o, n) && Visitable(mem, o)
    ensures HEADER <= Stride(mem, o) <= |Encode(n)|
    ensures Stride(mem, o) == |Encode(n)| <==> Aligned(n)
  {
    HeaderOf(mem, o, n);
  }

  // ---- A segment of notes --------------------------------------------------------------

  lemma SuffixSplits(mem: seq<byte>, o: nat, e: seq<byte>, tail: seq<byte>)
    requires o <= |mem| && mem[o..] == e + tail
    ensures o + |e| <= |mem| && mem[o..o + |e|] == e && mem[o + |e|..] == tail
  {
    assert mem[o..o + |e|] == mem[o..][..|e|];
    assert mem[o + |e|..] == mem[o..][|e|..];
  }

  lemma NotesLieAt(pre: seq<Note>, n: Note, rest: seq<byte>, mem: seq<byte>, o: nat)
    requires AllFit(pre) && Fits(n)
    requires o <= |mem| && mem[o..] == EncodeAll(pre) + Encode(n) + rest
    ensures pre == [] ==> LiesAt(mem, o, n)
    ensures pre != [] ==>
              && LiesAt(mem, o, pre[0])
              && mem[o + |Encode(pre[0])|..] == EncodeAll(pre[1..]) + Encode(n) + rest
  {
    hide Encode;
    if pre == [] {
      assert mem[o..] == Encode(n) + rest;
      SuffixSplits(mem, o, Encode(n), rest);
    } else {
      var e, later := Encode(pre[0]), EncodeAll(pre[1..]);
      assert e + later + Encode(n) + rest == e + (later + Encode(n) + rest);
      SuffixSplits(mem, o, e, later + Encode(n) + rest);
    }
  }

  predicate AllAligned(ns: seq<Note>) {
    forall i :: 0 <= i < |ns| ==> Aligned(ns[i])
  }

  lemma AlignedHeadAndTail(ns: seq<Note>)
    requires ns != []
    ensures AllAligned(ns) <==> Aligned(ns[0]) && AllAligned(ns[1..])
  {
    assert forall i :: 0 <= i < |ns[1..]| ==> ns[1..][i] == ns[i + 1];
    assert forall i :: 0 < i < |ns| ==> ns[i] == ns[1..][i - 1];
  }

  // The visits vs begin with the starts of the notes pre, the first of which starts at o,
  // and of the note behind them.
  ghost predicate InStep(pre: seq<Note>, o: nat, vs: seq<nat>)
    requires AllFit(pre)
  {
    && vs != [] && vs[0] == o
    && (pre == [] || InStep(pre[1..], o + |Encode(pre[0])|, vs[1..]))
  }

  // The walk lands on every note and on the one behind them exactly if all sizes before
  // that one are multiples of four.
  lemma {:induction false} InStepIffAligned(pre: seq<Note>, n: Note, rest: seq<byte>, mem: seq<byte>,
                                            memsz: nat, o: nat)
    requires AllFit(pre) && Fits(n) && |Encode(n)| >= HEADER + OGRT_NAME + 1
    requires o <= |mem| && mem[o..] == EncodeAll(pre) + Encode(n) + rest
    requires o + |EncodeAll(pre)| < memsz
    ensures InStep(pre, o, Visits(mem, memsz, o)) <==> AllAligned(pre)
    decreases |pre|
  {
    hide Encode, Stride, AllAligned, Aligned, Visits, LiesAt, Visitable;
    NotesLieAt(pre, n, rest, mem, o);
    RoomForHeader(mem, o, EncodeAll(pre), Encode(n), rest);
    if pre == [] {
      FirstVisit(mem, memsz, o);
      assert AllAligned(pre) by { NoNotesAligned(); }
    } else {
      var e := |Encode(pre[0])|;
      StrideIsPaddedLengthIffAligned(mem, o, pre[0]);
      AlignedHeadAndTail(pre);
      FirstVisit(mem, memsz, o);
      if Aligned(pre[0]) {
        InStepIffAligned(pre[1..], n, rest, mem, memsz, o + e);
      } else {
        FirstVisit(mem, memsz, o + Stride(mem, o));
      }
    }
  }

  lemma NoNotesAligned()
    ensures AllAligned([])
  {
  }

  lemma RoomForHeader(mem: seq<byte>, o: nat, pre: seq<byte>, e: seq<byte>, rest: seq<byte>)
    requires o <= |mem| && mem[o..] == pre + e + rest && |e| >= HEADER + OGRT_NAME + 1
    ensures Visitable(mem, o)
  {
    assert |mem[o..]| >= |e|;
  }

  lemma FirstVisit(mem: seq<byte>, memsz: nat, o: nat)
    ensures var vs := Visits(mem, memsz, o); vs != [] ==> vs[0] == o
    ensures o < memsz && Visitable(mem, o) && Stride(mem, o) > 0 ==>
              && Visits(mem, memsz, o) != [] && Visits(mem, memsz, o)[0] == o
              && Visits(mem, memsz, o)[1..] == Visits(mem, memsz, o + Stride(mem, o))
    ensures o < memsz && Visitable(mem, o) ==> Visits(mem, memsz, o) != []
  {
  }

  // ---- The stamp -----------------------------------------------------------------------

  // The note in template_signature, from its offset 0x40 on: sizes and type, the name
  // "OGRT", the version, a placeholder uuid with its NUL, and padding.
  const TEMPLATE_HEAD: seq<byte> := [
    0x05, 0x00, 0x00, 0x00, 0x26, 0x00, 0x00, 0x00, 0x54, 0x52, 0x47, 0x4f,
    0x4f, 0x47, 0x52, 0x54, 0x00, 0x00, 0x00, 0x00, 0x01]

  const TEMPLATE_UUID: seq<byte> := [
    0x41, 0x41, 0x41, 0x41, 0x41, 0x41, 0x41, 0x41, 0x2d, 0x41, 0x41, 0x41, 0x41, 0x2d, 0x41, 0x41, 0x41, 0x41,
    0x2d, 0x41, 0x41, 0x41, 0x41, 0x2d, 0x41, 0x41, 0x41, 0x41, 0x41, 0x41, 0x41, 0x41, 0x41, 0x41, 0x41, 0x41,
    0x00]

  const TEMPLATE_NOTE: seq<byte> := TEMPLATE_HEAD + TEMPLATE_UUID + [0x00, 0x00]

  const UUID_AT := 0x55 - 0x40

  // The textual form of a uuid: 36 characters, none of them NUL.
  predicate IsUuidText(u: seq<byte>) {
    |u| == 36 && forall i :: 0 <= i < |u| ==> u[i] != 0
  }

  // uuid_unparse_lower into the template: the text and its terminating NUL.
  function GeneratedNote(u: seq<byte>): (b: seq<byte>)
    requires IsUuidText(u)
    ensures |b| == 60
  {
    TEMPLATE_NOTE[..UUID_AT] + u + [0] + TEMPLATE_NOTE[UUID_AT + 37..]
  }

  function StampNote(u: seq<byte>): (n: Note)
    requires IsUuidText(u)
    ensures Fits(n)
  {
    Note([0x4f, 0x47, 0x52, 0x54, 0x00], [OGRT_STAMP_SUPPORTED_VERSION] + u + [0], OGRT_ELF_NOTE_TYPE)
  }

  // What --generate-signature writes is the stamp's note, padded as the standard asks.
  lemma GeneratedNoteIsStamp(u: seq<byte>)
    requires IsUuidText(u)
    ensures GeneratedNote(u) == Encode(StampNote(u))
  {
    var n := StampNote(u);
    assert Int32Bytes(|n.name|) == [0x05, 0, 0, 0];
    assert Int32Bytes(|n.desc|) == [0x26, 0, 0, 0];
    assert Int32Bytes(n.kind) == [0x54, 0x52, 0x47, 0x4f];
    hide Int32Bytes;
    assert Padded(n.name) == [0x4f, 0x47, 0x52, 0x54, 0, 0, 0, 0];
    assert Padded(n.desc) == [0x01] + u + [0, 0, 0];
    hide Padded;
    assert TEMPLATE_NOTE[..UUID_AT] == TEMPLATE_HEAD;
    assert TEMPLATE_HEAD == [0x05, 0, 0, 0] + [0x26, 0, 0, 0] + [0x54, 0x52, 0x47, 0x4f]
                            + [0x4f, 0x47, 0x52, 0x54, 0, 0, 0, 0] + [0x01];
    assert TEMPLATE_NOTE[UUID_AT + 37..] == [0, 0];
  }

  lemma {:induction false} StringIsText(mem: seq<byte>, o: nat, u: seq<byte>)
    requires forall i :: 0 <= i < |u| ==> u[i] != 0
    requires o + |u| < |mem| && mem[o..o + |u|] == u && mem[o + |u|] == 0
    ensures StringAt(mem, o) == u
    decreases |u|
  {
    if u != [] {
      assert mem[o] == mem[o..o + |u|][0] == u[0];
      assert mem[o + 1..o + |u|] == mem[o..o + |u|][1..];
      StringIsText(mem, o + 1, u[1..]);
    }
  }

  // At a generated stamp the walk takes exactly its uuid, and leaves it five bytes early.
  lemma StampIsRead(mem: seq<byte>, o: nat, u: seq<byte>)
    requires IsUuidText(u) && LiesAt(mem, o, StampNote(u))
    ensures Visitable(mem, o) && IsStamp(mem, o) && Uuid(mem, o) == u
    ensures Stride(mem, o) == 55 && |Encode(StampNote(u))| == 60
  {
    HeaderOf(mem, o, StampNote(u));
    GeneratedNoteIsStamp(u);
    hide Encode;
    var b := GeneratedNote(u);
    assert mem[o..o + 60] == b;
    assert forall k :: o <= k < o + 60 ==> mem[k] == mem[o..o + 60][k - o];
    assert b[20] == 0x01 && b[21..57] == u && b[57] == 0;
    assert mem[o + 20] == b[20] && mem[o + 57] == b[57];
    assert mem[o + 21..o + 57] == mem[o..o + 60][21..57];
    StringIsText(mem, o + 21, u);
  }

  // In a segment of notes followed by a generated stamp, if the sizes of all notes before
  // the stamp are multiples of four, the walk visits each of them and the stamp, and after
  // the stamp's iteration it holds precisely the uuid that was generated.
  lemma {:induction false} WalkFindsStamp(pre: seq<Note>, u: seq<byte>, rest: seq<byte>, mem: seq<byte>, memsz: nat,
                                          o: nat, before: Option<seq<byte>>)
    requires AllFit(pre) && AllAligned(pre) && IsUuidText(u)
    requires o <= |mem| && mem[o..] == EncodeAll(pre) + GeneratedNote(u) + rest
    requires o + |EncodeAll(pre)| < memsz
    ensures var vs := Visits(mem, memsz, o);
            && InStep(pre, o, vs)
            && |vs| > |pre| && vs[|pre|] == o + |EncodeAll(pre)|
            && LastStamp(mem, vs[..|pre| + 1], before) == Some(u)
    decreases |pre|
  {
    hide Encode, Stride, LastStamp, Uuid;
    GeneratedNoteIsStamp(u);
    InStepIffAligned(pre, StampNote(u), rest, mem, memsz, o);
    StampVisited(pre, u, rest, mem, memsz, o);
    var vs := Visits(mem, memsz, o);
    StampIsLast(mem, vs[..|pre| + 1], u, before);
  }

  lemma StampIsLast(mem: seq<byte>, vs: seq<nat>, u: seq<byte>, before: Option<seq<byte>>)
    requires vs != [] && IsUuidText(u) && LiesAt(mem, vs[|vs| - 1], StampNote(u))
    requires forall i :: 0 <= i < |vs| ==> Visitable(mem, vs[i])
    ensures LastStamp(mem, vs, before) == Some(u)
  {
    StampIsRead(mem, vs[|vs| - 1], u);
  }

  lemma {:induction false} StampVisited(pre: seq<Note>, u: seq<byte>, rest: seq<byte>, mem: seq<byte>,
                                        memsz: nat, o: nat)
    requires AllFit(pre) && AllAligned(pre) && IsUuidText(u)
    requires o <= |mem| && mem[o..] == EncodeAll(pre) + Encode(StampNote(u)) + rest
    requires o + |EncodeAll(pre)| < memsz
    requires |Encode(StampNote(u))| == 60
    ensures var vs := Visits(mem, memsz, o);
            && |vs| > |pre| && vs[|pre|] == o + |EncodeAll(pre)|
            && LiesAt(mem, vs[|pre|], StampNote(u))
    decreases |pre|
  {
    hide Encode, Stride, AllAligned, Aligned, StampNote, LiesAt, IsUuidText, Visits, Visitable;
    var n := StampNote(u);
    NotesLieAt(pre, n, rest, mem, o);
    RoomForHeader(mem, o, EncodeAll(pre), Encode(n), rest);
    if pre == [] {
      FirstVisit(mem, memsz, o);
    } else {
      AlignedHeadAndTail(pre);
      StrideIsPaddedLengthIffAligned(mem, o, pre[0]);
      FirstVisit(mem, memsz, o);
      StampVisited(pre[1..], u, rest, mem, memsz, o + |Encode(pre[0])|);
      var vs := Visits(mem, memsz, o);
      assert vs[|pre|] == vs[1..][|pre| - 1];
    }
  }

  // ---- A segment that ends in a stamp --------------------------------------------------

  lemma {:induction false} VisitsBehindStamp(pre: seq<Note>, u: seq<byte>, rest: seq<byte>, mem: seq<byte>,
                                             memsz: nat, o: nat)
    requires AllFit(pre) && AllAligned(pre) && IsUuidText(u)
    requires o <= |mem| && mem[o..] == EncodeAll(pre) + Encode(StampNote(u)) + rest
    requires o + |EncodeAll(pre)| < memsz
    requires |Encode(StampNote(u))| == 60
    ensures var vs := Visits(mem, memsz, o);
            && |vs| > |pre|
            && vs[|pre| + 1..] == Visits(mem, memsz, o + |EncodeAll(pre)| + 55)
    decreases |pre|
  {
    hide Encode, Stride, AllAligned, Aligned, StampNote, LiesAt, IsUuidText, Visits, Visitable;
    NotesLieAt(pre, StampNote(u), rest, mem, o);
    RoomForHeader(mem, o, EncodeAll(pre), Encode(StampNote(u)), rest);
    FirstVisit(mem, memsz, o);
    var vs := Visits(mem, memsz, o);
    if pre == [] {
      StampIsRead(mem, o, u);
    } else {
      AlignedHeadAndTail(pre);
      StrideIsPaddedLengthIffAligned(mem, o, pre[0]);
      VisitsBehindStamp(pre[1..], u, rest, mem, memsz, o + |Encode(pre[0])|);
      assert vs[|pre| + 1..] == vs[1..][|pre|..];
    }
  }

  // Behind the stamp's iteration the walk reads the last five bytes of the stamp and the
  // bytes behind the segment as a header.  What it would take for a stamp there:
  predicate LooksLikeStamp(rest: seq<byte>)
    requires |rest| >= 16
  {
    Int32At(rest, 3) == OGRT_ELF_NOTE_TYPE && rest[15] == OGRT_STAMP_SUPPORTED_VERSION
  }

  lemma {:induction false} StringInSuffix(mem: seq<byte>, from: nat, o: nat)
    requires from <= |mem| && o <= |mem[from..]|
    ensures StringAt(mem, from + o) == StringAt(mem[from..], o)
    decreases |mem| - o
  {
    if from + o < |mem| && mem[from + o] != 0 {
      StringInSuffix(mem, from, o + 1);
    }
  }

  lemma StampTail(u: seq<byte>)
    requires IsUuidText(u)
    ensures var g := GeneratedNote(u);
            g[55] == u[34] && g[56] == u[35] && g[57] == 0 && g[58] == 0 && g[59] == 0
  {
  }

  // How far that takes the walk, the last two characters of the uuid being read as sizes.
  function StrideBehindStamp(u: seq<byte>, rest: seq<byte>): int
    requires IsUuidText(u) && |rest| >= 16
  {
    u[34] + 0x100 * u[35] + 0x100 * rest[0] + 0x1_0000 * rest[1] + 0x100_0000 * rest[2] + HEADER
  }

  lemma HeaderBehindStamp(mem: seq<byte>, o: nat, u: seq<byte>, rest: seq<byte>)
    requires IsUuidText(u) && |rest| >= 16 && rest[2] < 0x80
    requires o <= |mem| && mem[o..] == GeneratedNote(u) + rest
    ensures Visitable(mem, o + 55) && Stride(mem, o + 55) == StrideBehindStamp(u, rest) > 5
    ensures IsStamp(mem, o + 55) <==> LooksLikeStamp(rest)
    ensures IsStamp(mem, o + 55) ==> Uuid(mem, o + 55) == StringAt(rest, 16)
  {
    StampTail(u);
    hide GeneratedNote, StringAt;
    var g := GeneratedNote(u);
    SuffixSplits(mem, o, g, rest);
    assert forall k :: o <= k < o + 60 ==> mem[k] == mem[o..o + 60][k - o];
    assert forall k :: o + 60 <= k < |mem| ==> mem[k] == mem[o + 60..][k - (o + 60)];
    assert mem[o + 63] == rest[3] && mem[o + 64] == rest[4] && mem[o + 65] == rest[5] && mem[o + 66] == rest[6];
    assert mem[o + 75] == rest[15];
    assert mem[o + 60] == rest[0] && mem[o + 61] == rest[1] && mem[o + 62] == rest[2];
    StringInSuffix(mem, o + 60, 16);
  }

  lemma VisitsBehindGenerated(pre: seq<Note>, u: seq<byte>, rest: seq<byte>, mem: seq<byte>, memsz: nat)
    requires AllFit(pre) && AllAligned(pre) && IsUuidText(u) && |EncodeAll(pre)| < memsz
    requires mem == EncodeAll(pre) + GeneratedNote(u) + rest
    ensures var vs := Visits(mem, memsz, 0);
            && |vs| > |pre|
            && vs[|pre| + 1..] == Visits(mem, memsz, |EncodeAll(pre)| + 55)
            && LastStamp(mem, vs[..|pre| + 1], None) == Some(u)
  {
    hide Encode, EncodeAll, GeneratedNote, Visits, LastStamp, StampNote, IsUuidText, AllAligned, AllFit;
    assert mem[0..] == mem;
    GeneratedNoteIsStamp(u);
    VisitsBehindStamp(pre, u, rest, mem, memsz, 0);
    WalkFindsStamp(pre, u, rest, mem, memsz, 0, None);
  }

  lemma LastTwoVisits(pre: seq<Note>, u: seq<byte>, rest: seq<byte>, mem: seq<byte>, memsz: nat, o: nat)
    requires AllFit(pre) && AllAligned(pre) && IsUuidText(u) && o == |EncodeAll(pre)|
    requires mem == EncodeAll(pre) + GeneratedNote(u) + rest && |rest| >= 16 && rest[2] < 0x80
    requires o + 55 < memsz <= o + 55 + StrideBehindStamp(u, rest)
    ensures var vs := Visits(mem, memsz, 0);
            && |vs| > |pre| && vs[|pre| + 1..] == [o + 55]
            && LastStamp(mem, vs[..|pre| + 1], None) == Some(u)
  {
    hide EncodeAll, GeneratedNote, Visits, Stride, StrideBehindStamp, LastStamp, IsUuidText, AllAligned;
    hide LooksLikeStamp, AllFit;
    VisitsBehindGenerated(pre, u, rest, mem, memsz);
    assert mem[o..] == GeneratedNote(u) + rest;
    HeaderBehindStamp(mem, o, u, rest);
    OneLastVisit(mem, memsz, o + 55);
  }

  // What a walk over a segment of notes with a generated stamp behind them records, in
  // terms of the bytes behind the stamp, if the segment ends before the second next visit:
  // the stamp's uuid, unless those bytes happen to look like a stamp themselves.
  lemma SegmentWithStamp(pre: seq<Note>, u: seq<byte>, rest: seq<byte>, mem: seq<byte>, memsz: nat)
    requires AllFit(pre) && AllAligned(pre) && IsUuidText(u)
    requires mem == EncodeAll(pre) + GeneratedNote(u) + rest && |rest| >= 16 && rest[2] < 0x80
    requires |EncodeAll(pre)| + 55 < memsz <= |EncodeAll(pre)| + 55 + StrideBehindStamp(u, rest)
    ensures SegmentSignature(mem, memsz) == Some(if LooksLikeStamp(rest) then StringAt(rest, 16) else u)
  {
    hide EncodeAll, GeneratedNote, Visits, Stride, StrideBehindStamp, IsStamp, LastStamp, Uuid, IsUuidText;
    hide AllAligned, LooksLikeStamp, StringAt, AllFit, Visitable;
    var o := |EncodeAll(pre)|;
    LastTwoVisits(pre, u, rest, mem, memsz, o);
    assert mem[o..] == GeneratedNote(u) + rest;
    HeaderBehindStamp(mem, o, u, rest);
    var vs := Visits(mem, memsz, 0);
    var first := vs[..|pre| + 1];
    assert vs == first + vs[|pre| + 1..];
    OneMoreVisit(mem, first, o + 55);
  }

  // In particular if the stamp is the last note of the segment.
  lemma SegmentEndingInStamp(pre: seq<Note>, u: seq<byte>, rest: seq<byte>, mem: seq<byte>)
    requires AllFit(pre) && AllAligned(pre) && IsUuidText(u)
    requires mem == EncodeAll(pre) + GeneratedNote(u) + rest && |rest| >= 16 && rest[2] < 0x80
    ensures SegmentSignature(mem, |EncodeAll(pre)| + 60)
            == Some(if LooksLikeStamp(rest) then StringAt(rest, 16) else u)
    ensures |EncodeAll(pre)| + 60 < 0x8000_0000 ==>
              (Walkable(mem, |EncodeAll(pre)| + 60, 0) <==> StrideBehindStamp(u, rest) < 0x8000_0000)
    ensures rest[2] < 0x7f ==> StrideBehindStamp(u, rest) < 0x8000_0000
  {
    hide EncodeAll, GeneratedNote, SegmentSignature, StringAt, LooksLikeStamp, Walkable, AllAligned, AllFit;
    SegmentWithStamp(pre, u, rest, mem, |EncodeAll(pre)| + 60);
    if |EncodeAll(pre)| + 60 < 0x8000_0000 {
      SegmentWithStampWalkable(pre, u, rest, mem, |EncodeAll(pre)| + 60);
    }
  }

  lemma {:induction false} WalkableBehindStamp(pre: seq<Note>, u: seq<byte>, rest: seq<byte>, mem: seq<byte>,
                                               memsz: nat, o: nat)
    requires AllFit(pre) && AllAligned(pre) && IsUuidText(u)
    requires o <= |mem| && mem[o..] == EncodeAll(pre) + Encode(StampNote(u)) + rest
    requires o + |EncodeAll(pre)| < memsz && o + |EncodeAll(pre)| + 60 < 0x8000_0000
    requires |Encode(StampNote(u))| == 60
    ensures Walkable(mem, memsz, o) <==> Walkable(mem, memsz, o + |EncodeAll(pre)| + 55)
    decreases |pre|
  {
    hide Encode, Stride, AllAligned, Aligned, StampNote, LiesAt, IsUuidText, Visitable, Walkable;
    NotesLieAt(pre, StampNote(u), rest, mem, o);
    RoomForHeader(mem, o, EncodeAll(pre), Encode(StampNote(u)), rest);
    if pre == [] {
      StampIsRead(mem, o, u);
      WalkableStep(mem, memsz, o);
    } else {
      AlignedHeadAndTail(pre);
      StrideIsPaddedLengthIffAligned(mem, o, pre[0]);
      WalkableStep(mem, memsz, o);
      WalkableBehindStamp(pre[1..], u, rest, mem, memsz, o + |Encode(pre[0])|);
    }
  }

  lemma WalkableStep(mem: seq<byte>, memsz: nat, o: nat)
    requires o < memsz && Visitable(mem, o) && Stride(mem, o) > 0
    ensures Walkable(mem, memsz, o) <==>
              && Stride(mem, o) < 0x8000_0000 && o + Stride(mem, o) < 0x1_0000_0000
              && Walkable(mem, memsz, o + Stride(mem, o))
    ensures o + Stride(mem, o) >= memsz ==> Walkable(mem, memsz, o + Stride(mem, o))
  {
  }

  // Such a walk is defined exactly if the two sizes it reads last do not overflow.
  lemma SegmentWithStampWalkable(pre: seq<Note>, u: seq<byte>, rest: seq<byte>, mem: seq<byte>, memsz: nat)
    requires AllFit(pre) && AllAligned(pre) && IsUuidText(u)
    requires mem == EncodeAll(pre) + GeneratedNote(u) + rest && |rest| >= 16 && rest[2] < 0x80
    requires |EncodeAll(pre)| + 55 < memsz <= |EncodeAll(pre)| + 55 + StrideBehindStamp(u, rest)
    requires |EncodeAll(pre)| + 60 < 0x8000_0000
    ensures Walkable(mem, memsz, 0) <==> StrideBehindStamp(u, rest) < 0x8000_0000
  {
    hide Encode, EncodeAll, GeneratedNote, Stride, StrideBehindStamp, StampNote, IsUuidText, AllAligned, AllFit;
    hide Visitable, IsStamp, Uuid, LooksLikeStamp, StringAt, Walkable;
    var o := |EncodeAll(pre)|;
    assert mem[0..] == mem && mem[o..] == GeneratedNote(u) + rest;
    GeneratedNoteIsStamp(u);
    WalkableBehindStamp(pre, u, rest, mem, memsz, 0);
    HeaderBehindStamp(mem, o, u, rest);
    WalkableStep(mem, memsz, o + 55);
  }

  lemma OneLastVisit(mem: seq<byte>, memsz: nat, o: nat)
    requires o < memsz && Visitable(mem, o) && o + Stride(mem, o) >= memsz
    ensures Visits(mem, memsz, o) == [o]
  {
    hide Stride, Visits, Visitable;
    FirstVisit(mem, memsz, o);
    NoVisitBeyond(mem, memsz, o + Stride(mem, o));
    var vs := Visits(mem, memsz, o);
    assert vs == [vs[0]] + vs[1..];
  }

  lemma OneMoreVisit(mem: seq<byte>, vs: seq<nat>, o: nat)
    requires Visitable(mem, o) && forall i :: 0 <= i < |vs| ==> Visitable(mem, vs[i])
    ensures forall i :: 0 <= i < |vs + [o]| ==> Visitable(mem, (vs + [o])[i])
    ensures LastStamp(mem, vs + [o], None)
            == if IsStamp(mem, o) then Some(Uuid(mem, o)) else LastStamp(mem, vs, None)
  {
    assert (vs + [o])[..|vs|] == vs;
  }

  // If the last segment of an object that is walked at all has aligned notes, a generated
  // stamp and no second next visit behind it, that uuid is what is recorded for the object,
  // whatever the other segments contain, unless the bytes behind the stamp look like
  // another one.  All of the walks are defined exactly if those of the other segments are
  // and the last two sizes do not overflow.
  lemma ObjectWithStamp(info: Info, i: nat, pre: seq<Note>, u: seq<byte>, rest: seq<byte>)
    requires i < |info.segments| && StampedSegment(info.segments[i], pre, u, rest)
    requires forall j :: i < j < |info.segments| ==> !IsNotes(info.segments[j]) || info.segments[j].memsz == 0
    ensures Recorded(info.segments) == Some(if LooksLikeStamp(rest) then StringAt(rest, 16) else u)
    ensures |EncodeAll(pre)| + 60 < 0x8000_0000 ==>
              (Readable(info) <==> OthersReadable(info, i) && StrideBehindStamp(u, rest) < 0x8000_0000)
  {
    hide SegmentSignature, GeneratedNote, EncodeAll, Recorded, Walkable, AllFit, AllAligned, IsUuidText;
    hide LooksLikeStamp, StringAt, StrideBehindStamp;
    var s := info.segments[i];
    SegmentWithStamp(pre, u, rest, s.mem, s.memsz);
    LastWalkDecides(info.segments, i + 1);
    if |EncodeAll(pre)| + 60 < 0x8000_0000 {
      SegmentWithStampWalkable(pre, u, rest, s.mem, s.memsz);
    }
  }

  predicate StampedSegment(s: Segment, pre: seq<Note>, u: seq<byte>, rest: seq<byte>) {
    && IsNotes(s) && AllFit(pre) && AllAligned(pre) && IsUuidText(u) && |rest| >= 16 && rest[2] < 0x80
    && s.mem == EncodeAll(pre) + GeneratedNote(u) + rest
    && |EncodeAll(pre)| + 55 < s.memsz <= |EncodeAll(pre)| + 55 + StrideBehindStamp(u, rest)
  }

  predicate OthersReadable(info: Info, i: nat) {
    forall j :: 0 <= j < |info.segments| && j != i && IsNotes(info.segments[j]) ==>
                  Walkable(info.segments[j].mem, info.segments[j].memsz, 0)
  }

  // The entry that is filled in for such an object.
  method HandleStampedObject(infos: SoInfos, info: Info, path: string,
                             ghost i: nat, ghost pre: seq<Note>, ghost u: seq<byte>, ghost rest: seq<byte>)
    requires infos.index < infos.sharedObjects.Length
    requires i < |info.segments| && StampedSegment(info.segments[i], pre, u, rest) && !LooksLikeStamp(rest)
    requires forall j :: i < j < |info.segments| ==> !IsNotes(info.segments[j]) || info.segments[j].memsz == 0
    requires |EncodeAll(pre)| + 60 < 0x8000_0000 && StrideBehindStamp(u, rest) < 0x8000_0000
    requires OthersReadable(info, i)
    modifies infos`index, infos.sharedObjects
    ensures infos.index == old(infos.index) + 1
    ensures infos.sharedObjects[..] ==
            old(infos.sharedObjects[..])[old(infos.index) := SharedObject(path, Some(u))]
  {
    hide StampedSegment, StrideBehindStamp, EncodeAll, Readable, OthersReadable, LooksLikeStamp, Recorded;
    ObjectWithStamp(info, i, pre, u, rest) by { assert StampedSegment(info.segments[i], pre, u, rest); }
    infos.HandleProgramHeader(info, path);
  }

  // ---- Several stamps ------------------------------------------------------------------

  function AllGenerated(us: seq<seq<byte>>): seq<byte>
    requires forall i :: 0 <= i < |us| ==> IsUuidText(us[i])
  {
    if us == [] then [] else GeneratedNote(us[0]) + AllGenerated(us[1..])
  }

  lemma {:induction false} AllGeneratedLength(us: seq<seq<byte>>)
    requires forall i :: 0 <= i < |us| ==> IsUuidText(us[i])
    ensures |AllGenerated(us)| == 60 * |us|
    decreases |us|
  {
    if us != [] {
      AllGeneratedLength(us[1..]);
    }
  }

  // What the walk makes of a stamp that it enters five bytes early.
  lemma StampBehindStamp(u: seq<byte>, v: seq<byte>, rest: seq<byte>)
    requires IsUuidText(u) && IsUuidText(v) && |rest| >= 60 && rest[..60] == GeneratedNote(v)
    ensures rest[2] == 0 && !LooksLikeStamp(rest)
    ensures StrideBehindStamp(u, rest) == u[34] as int + 0x100 * u[35] as int + 0x500 + HEADER
  {
    StampHead(v);
    hide GeneratedNote, IsUuidText;
    assert forall k :: 0 <= k < 60 ==> rest[k] == rest[..60][k];
    assert rest[3] == 0 && rest[4] == 0x26 && rest[5] == 0 && rest[6] == 0;
  }

  lemma FirstOfGenerated(us: seq<seq<byte>>, rest: seq<byte>)
    requires us != [] && forall i :: 0 <= i < |us| ==> IsUuidText(us[i])
    ensures |AllGenerated(us) + rest| >= 60 && (AllGenerated(us) + rest)[..60] == GeneratedNote(us[0])
  {
    hide GeneratedNote;
  }

  lemma SecondStampPassed(pre: seq<Note>, u: seq<byte>, v: seq<byte>, behind: seq<byte>, mem: seq<byte>, memsz: nat)
    requires AllFit(pre) && AllAligned(pre) && IsUuidText(u) && IsUuidText(v)
    requires |behind| >= 60 && behind[..60] == GeneratedNote(v)
    requires mem == EncodeAll(pre) + GeneratedNote(u) + behind
    requires |EncodeAll(pre)| + 55 < memsz
             <= |EncodeAll(pre)| + 55 + u[34] as int + 0x100 * u[35] as int + 0x500 + HEADER
    ensures SegmentSignature(mem, memsz) == Some(u)
    ensures |EncodeAll(pre)| + 60 < 0x8000_0000 ==> Walkable(mem, memsz, 0)
  {
    hide EncodeAll, GeneratedNote, SegmentSignature, Walkable, AllAligned, AllFit, StringAt, Int32At;
    StampBehindStamp(u, v, behind);
    hide StrideBehindStamp, LooksLikeStamp, IsUuidText;
    SegmentWithStamp(pre, u, behind, mem, memsz);
    if |EncodeAll(pre)| + 60 < 0x8000_0000 {
      SegmentWithStampWalkable(pre, u, behind, mem, memsz);
    }
  }

  // Objects that were linked with several stamps, the first of them u, a text that ends in
  // hexadecimal digits: the header read five bytes before the second stamp is not a stamp's,
  // and takes the walk past all the others, as long as there are no more than 228 in all.
  // The first stamp is recorded.
  lemma FirstStampWins(pre: seq<Note>, u: seq<byte>, us: seq<seq<byte>>, rest: seq<byte>, mem: seq<byte>)
    requires AllFit(pre) && AllAligned(pre) && IsUuidText(u) && u[34] >= 0x30 && u[35] >= 0x30
    requires forall i :: 0 <= i < |us| ==> IsUuidText(us[i])
    requires 1 <= |us| <= 227
    requires mem == EncodeAll(pre) + GeneratedNote(u) + (AllGenerated(us) + rest)
    ensures SegmentSignature(mem, |EncodeAll(pre)| + 60 + 60 * |us|) == Some(u)
    ensures |EncodeAll(pre)| + 60 < 0x8000_0000 ==> Walkable(mem, |EncodeAll(pre)| + 60 + 60 * |us|, 0)
  {
    hide EncodeAll, GeneratedNote, SegmentSignature, Walkable, AllAligned, AllFit, AllGenerated;
    AllGeneratedLength(us);
    FirstOfGenerated(us, rest);
    SecondStampPassed(pre, u, us[0], AllGenerated(us) + rest, mem, |EncodeAll(pre)| + 60 + 60 * |us|);
  }

  // ---- Out of step ---------------------------------------------------------------------

  lemma TwoNotes(a: Note, b: Note)
    requires Fits(a) && Fits(b)
    ensures EncodeAll([a, b]) == Encode(a) + Encode(b)
  {
    hide Encode;
    assert [a, b][1..] == [b] && [b][1..] == [];
    assert EncodeAll([b]) == Encode(b) + EncodeAll([]);
    assert Encode(b) + [] == Encode(b);
  }

  lemma OneNote(a: Note)
    requires Fits(a)
    ensures EncodeAll([a]) == Encode(a)
  {
    hide Encode;
    assert [a][1..] == [] && Encode(a) + [] == Encode(a);
  }

  // Where the padded fields of a note lie.
  lemma EncodedBody(n: Note)
    requires Fits(n)
    ensures var b, k := Encode(n), HEADER + |Padded(n.name)|;
            b[HEADER..k] == Padded(n.name) && b[k..] == Padded(n.desc)
  {
    hide Int32Bytes, Padded;
    var head := Int32Bytes(|n.name|) + Int32Bytes(|n.desc|) + Int32Bytes(n.kind);
    assert Encode(n) == head + Padded(n.name) + Padded(n.desc);
  }

  lemma BytesAt(mem: seq<byte>, o: nat, n: Note, from: nat, to: nat)
    requires Fits(n) && LiesAt(mem, o, n) && from <= to <= |Encode(n)|
    ensures o + to <= |mem| && mem[o + from..o + to] == Encode(n)[from..to]
  {
    hide Encode;
    var b := mem[o..o + |Encode(n)|];
    forall k | 0 <= k < to - from ensures mem[o + from..o + to][k] == b[from..to][k] {
      assert b[from + k] == mem[o + (from + k)];
    }
  }

  lemma SmallInt32(mem: seq<byte>, o: nat, low: byte, high: byte)
    requires o + 4 <= |mem| && mem[o] == low && mem[o + 1] == 0 && mem[o + 2] == 0 && mem[o + 3] == high && high < 0x80
    ensures Int32At(mem, o) == low as int + 0x100_0000 * high as int
  {
  }

  // Alignment is not needed to find the stamp: behind a first note with sizes 5 and 3 the
  // walk comes four bytes early, reads the note's last bytes and the next note's sizes as a
  // header, and meets the stamp again.
  const LUCKY_NOTE := Note([1, 1, 1, 1, 0], [12, 0, 0], 7)
  const CARRIER_NOTE := Note([1, 1, 1, 0], [9, 9, 9, 9, 9, 9, 9, 9], 7)

  lemma EarlyHeader(mem: seq<byte>)
    requires Fits(LUCKY_NOTE) && Fits(CARRIER_NOTE)
    requires LiesAt(mem, 0, LUCKY_NOTE) && LiesAt(mem, 24, CARRIER_NOTE)
    ensures |Encode(LUCKY_NOTE)| == |Encode(CARRIER_NOTE)| == 24 && 48 <= |mem|
    ensures Visitable(mem, 0) && Stride(mem, 0) == 20 && !IsStamp(mem, 0)
    ensures Visitable(mem, 20) && Stride(mem, 20) == 28 && !IsStamp(mem, 20)
  {
    hide Encode, Padded, Int32At;
    LuckyLength();
    LuckyEnd();
    HeaderOf(mem, 0, LUCKY_NOTE);
    HeaderOf(mem, 24, CARRIER_NOTE);
    BytesAt(mem, 0, LUCKY_NOTE, 20, 24);
    assert forall k :: 20 <= k < 24 ==> mem[k] == mem[20..24][k - 20];
    SmallInt32(mem, 20, 12, 0);
  }

  lemma LuckyEnd()
    requires Fits(LUCKY_NOTE) && |Encode(LUCKY_NOTE)| == 24
    ensures Encode(LUCKY_NOTE)[20..24] == [12, 0, 0, 0]
  {
    hide Encode;
    EncodedBody(LUCKY_NOTE);
    assert Padded(LUCKY_NOTE.desc) == [12, 0, 0, 0] && |Padded(LUCKY_NOTE.name)| == 8;
  }

  lemma LuckyLength()
    ensures Fits(LUCKY_NOTE) && Fits(CARRIER_NOTE) && !Aligned(LUCKY_NOTE)
    ensures |Encode(LUCKY_NOTE)| == |Encode(CARRIER_NOTE)| == 24
  {
    hide Int32Bytes;
    assert |Padded(LUCKY_NOTE.name)| == 8 && |Padded(LUCKY_NOTE.desc)| == 4;
    assert |Padded(CARRIER_NOTE.name)| == 4 && |Padded(CARRIER_NOTE.desc)| == 8;
  }

  lemma JoinedAgain(x: seq<byte>, y: seq<byte>, z: seq<byte>, r: seq<byte>)
    ensures x + y + z + r == x + (y + z + r)
    ensures y + z + r == y + (z + r)
  {
  }

  // Two notes and a stamp, one behind the other.
  lemma ThreeLie(a: Note, b: Note, n: Note, rest: seq<byte>, mem: seq<byte>)
    requires Fits(a) && Fits(b) && Fits(n) && mem == EncodeAll([a, b]) + Encode(n) + rest
    ensures |EncodeAll([a, b])| == |Encode(a)| + |Encode(b)|
    ensures LiesAt(mem, 0, a) && LiesAt(mem, |Encode(a)|, b) && LiesAt(mem, |Encode(a)| + |Encode(b)|, n)
  {
    TwoNotes(a, b);
    hide Encode, EncodeAll, Fits;
    var x, y, z := Encode(a), Encode(b), Encode(n);
    JoinedAgain(x, y, z, rest);
    assert mem[0..] == mem;
    SuffixSplits(mem, 0, x, y + z + rest);
    SuffixSplits(mem, |x|, y, z + rest);
    SuffixSplits(mem, |x| + |y|, z, rest);
  }

  lemma UnalignedMayFind(u: seq<byte>, rest: seq<byte>, memsz: nat)
    requires IsUuidText(u) && memsz > 48
    ensures Fits(LUCKY_NOTE) && Fits(CARRIER_NOTE) && !Aligned(LUCKY_NOTE)
    ensures var mem := EncodeAll([LUCKY_NOTE, CARRIER_NOTE]) + GeneratedNote(u) + rest;
            var vs := Visits(mem, memsz, 0);
            && |EncodeAll([LUCKY_NOTE, CARRIER_NOTE])| == 48
            && |vs| >= 3 && vs[..3] == [0, 20, 48]
            && LastStamp(mem, vs[..3], None) == Some(u)
  {
    hide Encode, GeneratedNote, Visits, Stride, IsStamp, Visitable, Int32At, LastStamp, EncodeAll, Fits, Aligned;
    hide LiesAt, StampNote, IsUuidText;
    GeneratedNoteIsStamp(u);
    LuckyLength();
    var mem := EncodeAll([LUCKY_NOTE, CARRIER_NOTE]) + GeneratedNote(u) + rest;
    ThreeLie(LUCKY_NOTE, CARRIER_NOTE, StampNote(u), rest, mem);
    EarlyHeader(mem);
    StampIsRead(mem, 48, u);
    ThreeVisits(mem, memsz, 20, 48);
    StampIsLast(mem, Visits(mem, memsz, 0)[..3], u, None);
  }

  lemma ThreeVisits(mem: seq<byte>, memsz: nat, second: nat, third: nat)
    requires 0 < second < third < memsz && Visitable(mem, 0) && Visitable(mem, second) && Visitable(mem, third)
    requires Stride(mem, 0) == second && Stride(mem, second) == third - second
    ensures |Visits(mem, memsz, 0)| >= 3 && Visits(mem, memsz, 0)[..3] == [0, second, third]
  {
    hide Stride, Visits;
    FirstVisit(mem, memsz, 0);
    FirstVisit(mem, memsz, second);
    FirstVisit(mem, memsz, third);
    var vs := Visits(mem, memsz, 0);
    assert vs[1..][1..][0] == vs[2] && vs[1..][0] == vs[1];
  }

  // Without alignment the stamp can be missed: behind a note with sizes 5 and 0 the walk
  // comes three bytes early and takes the stamp's sizes for sizes beyond the segment.
  const UNLUCKY_NOTE := Note([1, 1, 1, 1, 0], [], 7)

  lemma UnluckyPadding()
    requires Fits(UNLUCKY_NOTE) && |Encode(UNLUCKY_NOTE)| == 20
    ensures forall k :: 17 <= k < 20 ==> Encode(UNLUCKY_NOTE)[k] == 0
  {
    EncodedBody(UNLUCKY_NOTE);
    assert Padded(UNLUCKY_NOTE.name) == [1, 1, 1, 1, 0, 0, 0, 0];
    hide Encode, Padded;
    var a := Encode(UNLUCKY_NOTE);
    assert forall k :: 12 <= k < 20 ==> a[k] == a[12..20][k - 12];
  }

  lemma StampHead(u: seq<byte>)
    requires IsUuidText(u)
    ensures var g := GeneratedNote(u);
            && g[0] == 0x05 && g[1] == 0 && g[2] == 0 && g[3] == 0
            && g[4] == 0x26 && g[5] == 0 && g[6] == 0 && g[7] == 0 && g[8] == 0x54
  {
  }

  lemma BeyondTheSegment(mem: seq<byte>, u: seq<byte>)
    requires IsUuidText(u) && Fits(UNLUCKY_NOTE) && |Encode(UNLUCKY_NOTE)| == 20
    requires mem == Encode(UNLUCKY_NOTE) + GeneratedNote(u)
    ensures Visitable(mem, 17) && Stride(mem, 17) > 80 && !IsStamp(mem, 17)
  {
    UnluckyPadding();
    StampHead(u);
    hide Encode, GeneratedNote, Int32At, IsUuidText;
    SmallInt32(mem, 17, 0, 0x05);
    SmallInt32(mem, 21, 0, 0x26);
    SmallInt32(mem, 25, 0, 0x54);
  }

  lemma UnluckyLength()
    ensures Fits(UNLUCKY_NOTE) && !Aligned(UNLUCKY_NOTE) && |Encode(UNLUCKY_NOTE)| == 20
  {
    hide Int32Bytes;
    assert |Padded(UNLUCKY_NOTE.name)| == 8 && |Padded(UNLUCKY_NOTE.desc)| == 0;
  }

  lemma UnluckyVisits(mem: seq<byte>, u: seq<byte>)
    requires IsUuidText(u) && Fits(UNLUCKY_NOTE) && |Encode(UNLUCKY_NOTE)| == 20
    requires mem == Encode(UNLUCKY_NOTE) + GeneratedNote(u)
    ensures LiesAt(mem, 20, StampNote(u))
    ensures Visits(mem, 80, 0) == [0, 17] && SegmentSignature(mem, 80) == None
  {
    hide Encode, Visits, LastStamp, GeneratedNote, Int32At, IsUuidText, StampNote;
    var a, g := Encode(UNLUCKY_NOTE), GeneratedNote(u);
    GeneratedNoteIsStamp(u);
    assert mem[0..] == mem == a + g;
    SuffixSplits(mem, 0, a, g);
    assert mem[20..] == g + [];
    SuffixSplits(mem, 20, g, []);
    HeaderOf(mem, 0, UNLUCKY_NOTE);
    BeyondTheSegment(mem, u);
    TwoVisits(mem, 80, 17);
    LastStampIsLast(mem, Visits(mem, 80, 0), None, 0);
  }

  lemma TwoVisits(mem: seq<byte>, memsz: nat, second: nat)
    requires 0 < second < memsz && Visitable(mem, 0) && Visitable(mem, second)
    requires Stride(mem, 0) == second && second + Stride(mem, second) >= memsz
    ensures Visits(mem, memsz, 0) == [0, second]
  {
    hide Stride, Visits, Visitable;
    FirstVisit(mem, memsz, 0);
    FirstVisit(mem, memsz, second);
    NoVisitBeyond(mem, memsz, second + Stride(mem, second));
    var vs := Visits(mem, memsz, 0);
    assert vs == [vs[0]] + vs[1..] && vs[1..] == [vs[1..][0]] + vs[1..][1..];
  }

  lemma UnalignedMayMiss(u: seq<byte>)
    requires IsUuidText(u)
    ensures Fits(UNLUCKY_NOTE) && !Aligned(UNLUCKY_NOTE)
    ensures var mem := EncodeAll([UNLUCKY_NOTE]) + GeneratedNote(u);
            && |mem| == 80 && LiesAt(mem, 20, StampNote(u))
            && Visits(mem, 80, 0) == [0, 17]
            && SegmentSignature(mem, 80) == None
  {
    hide Encode, EncodeAll, GeneratedNote, Visits, SegmentSignature, Fits, Aligned, LiesAt, IsUuidText;
    UnluckyLength();
    OneNote(UNLUCKY_NOTE);
    UnluckyVisits(EncodeAll([UNLUCKY_NOTE]) + GeneratedNote(u), u);
  }

  lemma NoVisitBeyond(mem: seq<byte>, memsz: nat, o: nat)
    requires o >= memsz
    ensures Visits(mem, memsz, o) == []
  {
  }
}
