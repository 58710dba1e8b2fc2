// Finding the OGRT stamp of a shared object in its note segments:
// client/src/ogrt-readso.c.
module ReadSo {
  import opened Wrappers
  import opened Bytes

  const OGRT_ELF_NOTE_TYPE := 0x4f475254
  const OGRT_STAMP_SUPPORTED_VERSION: byte := 0x01
  const PT_NOTE := 4

  const HEADER := 12      // name_size, desc_size, type
  const OGRT_NAME := 8    // "OGRT", its NUL and padding

  // ---- Reading bytes -------------------------------------------------------------------

  // The little-endian int32 at offset o.
  function Int32At(mem: seq<byte>, o: nat): int
    requires o + 4 <= |mem|
  {
    var u := mem[o] as int + 0x100 * mem[o + 1] as int + 0x1_0000 * mem[o + 2] as int + 0x100_0000 * mem[o + 3] as int;
    if u < 0x8000_0000 then u else u - 0x1_0000_0000
  }

  // The C string at offset o.
  function StringAt(mem: seq<byte>, o: nat): seq<byte>
    requires o <= |mem|
    decreases |mem| - o
  {
    if o == |mem| || mem[o] == 0 then [] else [mem[o]] + StringAt(mem, o + 1)
  }

  // ---- One note ------------------------------------------------------------------------

  // A segment is read as the mapped bytes from its start on.  At a visited offset the
  // header and, in a note of the OGRT type, the version byte have to be among them.
  predicate Visitable(mem: seq<byte>, o: nat) {
    && o + HEADER <= |mem|
    && (Int32At(mem, o + 8) == OGRT_ELF_NOTE_TYPE ==> o + HEADER + OGRT_NAME + 1 <= |mem|)
  }

  // What the code adds to the offset; the sizes are stored without padding.
  function Stride(mem: seq<byte>, o: nat): int
    requires Visitable(mem, o)
  {
    Int32At(mem, o) + Int32At(mem, o + 4) + HEADER
  }

  predicate IsStamp(mem: seq<byte>, o: nat)
    requires Visitable(mem, o)
  {
    && Int32At(mem, o + 8) == OGRT_ELF_NOTE_TYPE
    && mem[o + HEADER + OGRT_NAME] == OGRT_STAMP_SUPPORTED_VERSION
  }

  function Uuid(mem: seq<byte>, o: nat): seq<byte>
    requires Visitable(mem, o) && IsStamp(mem, o)
  {
    StringAt(mem, o + HEADER + OGRT_NAME + 1)
  }

  method ReadSignature(mem: seq<byte>, o: nat, version: byte, signature: Option<seq<byte>>)
    returns (stride: int, newVersion: byte, newSignature: Option<seq<byte>>)
    requires Visitable(mem, o)
    ensures stride == Stride(mem, o)
    ensures newSignature == if IsStamp(mem, o) then Some(Uuid(mem, o)) else signature
    ensures newVersion == if IsStamp(mem, o) then OGRT_STAMP_SUPPORTED_VERSION else version
  {
    newVersion, newSignature := version, signature;
    if Int32At(mem, o + 8) == OGRT_ELF_NOTE_TYPE {
      var noteVersion := mem[o + HEADER + OGRT_NAME];
      if noteVersion == OGRT_STAMP_SUPPORTED_VERSION {
        newVersion := noteVersion;
        newSignature := Some(StringAt(mem, o + HEADER + OGRT_NAME + 1));
      }
    }
    stride := Int32At(mem, o + 4) + Int32At(mem, o) + HEADER;
  }

  // ---- The walk through a segment ------------------------------------------------------

  // The offsets the walk visits from o on, as long as it moves forward over visitable notes.
  function Visits(mem: seq<byte>, memsz: nat, o: nat): (vs: seq<nat>)
    ensures forall i :: 0 <= i < |vs| ==> Visitable(mem, vs[i]) && o <= vs[i] < memsz
    decreases memsz - o
  {
    if o >= memsz || !Visitable(mem, o) then []
    else if Stride(mem, o) <= 0 then [o]
    else [o] + Visits(mem, memsz, o + Stride(mem, o))
  }

  // The walk only reads mapped bytes, always moves forward, and its uint32 offset and the
  // int it adds do not overflow.
  predicate Walkable(mem: seq<byte>, memsz: nat, o: nat)
    decreases memsz - o
  {
    o < memsz ==>
      && Visitable(mem, o)
      && 0 < Stride(mem, o) < 0x8000_0000 && o + Stride(mem, o) < 0x1_0000_0000
      && Walkable(mem, memsz, o + Stride(mem, o))
  }

  // The uuid of the last stamp among the visited notes, or what there was before.
  function LastStamp(mem: seq<byte>, vs: seq<nat>, before: Option<seq<byte>>): Option<seq<byte>>
    requires forall i :: 0 <= i < |vs| ==> Visitable(mem, vs[i])
  {
    if vs == [] then before
    else
      var o := vs[|vs| - 1];
      if IsStamp(mem, o) then Some(Uuid(mem, o)) else LastStamp(mem, vs[..|vs| - 1], before)
  }

  // The stamp that counts is the last one visited; without any, what there was remains.
  lemma {:induction false} LastStampIsLast(mem: seq<byte>, vs: seq<nat>, before: Option<seq<byte>>, i: nat)
    requires forall j :: 0 <= j < |vs| ==> Visitable(mem, vs[j])
    requires i <= |vs|
    requires i > 0 ==> IsStamp(mem, vs[i - 1])
    requires forall j :: i <= j < |vs| ==> !IsStamp(mem, vs[j])
    ensures LastStamp(mem, vs, before) == if i == 0 then before else Some(Uuid(mem, vs[i - 1]))
    decreases |vs|
  {
    if i < |vs| {
      var shorter := vs[..|vs| - 1];
      assert forall j :: 0 <= j < |shorter| ==> shorter[j] == vs[j];
      LastStampIsLast(mem, shorter, before, i);
    }
  }

  // What a walk over a whole segment finds.
  function SegmentSignature(mem: seq<byte>, memsz: nat): Option<seq<byte>> {
    LastStamp(mem, Visits(mem, memsz, 0), None)
  }

  // ---- Program headers -----------------------------------------------------------------

  // A program header with the mapped bytes from its segment's address on; atNull says that
  // this address is the null pointer.
  datatype Segment = Segment(kind: int, atNull: bool, memsz: nat, mem: seq<byte>)

  predicate IsNotes(s: Segment) {
    s.kind == PT_NOTE && !s.atNull
  }

  // What dl_iterate_phdr hands over for one object.
  datatype Info = Info(name: string, segments: seq<Segment>)

  predicate Readable(info: Info) {
    forall i :: 0 <= i < |info.segments| && IsNotes(info.segments[i]) ==>
                  Walkable(info.segments[i].mem, info.segments[i].memsz, 0)
  }

  datatype SharedObject = SharedObject(path: string, signature: Option<seq<byte>>)

  // The result of the last segment that is walked at all.
  function Recorded(segments: seq<Segment>): Option<seq<byte>> {
    if segments == [] then None
    else
      var s := segments[|segments| - 1];
      if IsNotes(s) && s.memsz > 0 then SegmentSignature(s.mem, s.memsz) else Recorded(segments[..|segments| - 1])
  }

  // The last segment that is walked at all decides, whatever earlier ones contain.
  lemma {:induction false} LastWalkDecides(segments: seq<Segment>, i: nat)
    requires i <= |segments|
    requires i > 0 ==> IsNotes(segments[i - 1]) && segments[i - 1].memsz > 0
    requires forall j :: i <= j < |segments| ==> !IsNotes(segments[j]) || segments[j].memsz == 0
    ensures Recorded(segments) ==
            if i == 0 then None else SegmentSignature(segments[i - 1].mem, segments[i - 1].memsz)
    decreases |segments|
  {
    if i < |segments| {
      var shorter := segments[..|segments| - 1];
      assert forall j :: 0 <= j < |shorter| ==> shorter[j] == segments[j];
      LastWalkDecides(shorter, i);
    }
  }

  // A signature is what the last non-null, non-empty note segment yields, and none if there
  // is no such segment.
  predicate SignatureIsLast(segments: seq<Segment>, signature: Option<seq<byte>>) {
    || (&& signature == None
        && forall j :: 0 <= j < |segments| ==>
             segments[j].kind != 4 || segments[j].atNull || segments[j].memsz == 0)
    || (exists i :: 0 <= i < |segments| && LastWalked(segments, i)
                    && signature == SegmentSignature(segments[i].mem, segments[i].memsz))
  }

  predicate LastWalked(segments: seq<Segment>, i: nat)
    requires i < |segments|
  {
    && segments[i].kind == 4 && !segments[i].atNull && segments[i].memsz > 0
    && forall j :: i < j < |segments| ==> segments[j].kind != 4 || segments[j].atNull || segments[j].memsz == 0
  }

  lemma {:induction false} RecordedIsLast(segments: seq<Segment>, n: nat)
    requires n <= |segments|
    requires forall j :: n <= j < |segments| ==> !IsNotes(segments[j]) || segments[j].memsz == 0
    ensures SignatureIsLast(segments, Recorded(segments))
    decreases n
  {
    if n == 0 {
      LastWalkDecides(segments, 0);
    } else if IsNotes(segments[n - 1]) && segments[n - 1].memsz > 0 {
      LastWalkDecides(segments, n);
      assert LastWalked(segments, n - 1);
    } else {
      RecordedIsLast(segments, n - 1);
    }
  }

  lemma OnlyRecordedIsLast(segments: seq<Segment>, signature: Option<seq<byte>>)
    requires SignatureIsLast(segments, signature)
    ensures signature == Recorded(segments)
  {
    if i :| 0 <= i < |segments| && LastWalked(segments, i)
            && signature == SegmentSignature(segments[i].mem, segments[i].memsz) {
      LastWalkDecides(segments, i + 1);
    } else {
      LastWalkDecides(segments, 0);
    }
  }

  lemma NothingSeen(mem: seq<byte>)
    ensures LastStamp(mem, [], None) == None
  {
  }

  lemma WalkStep(mem: seq<byte>, memsz: nat, seen: seq<nat>, o: nat)
    requires o < memsz && Walkable(mem, memsz, o)
    requires forall i :: 0 <= i < |seen| ==> Visitable(mem, seen[i])
    ensures Visitable(mem, o) && Stride(mem, o) > 0 && Walkable(mem, memsz, o + Stride(mem, o))
    ensures seen + Visits(mem, memsz, o) == seen + [o] + Visits(mem, memsz, o + Stride(mem, o))
    ensures LastStamp(mem, seen + [o], None)
            == if IsStamp(mem, o) then Some(Uuid(mem, o)) else LastStamp(mem, seen, None)
  {
    assert (seen + [o])[..|seen|] == seen;
  }

  class SoInfos {
    var index: nat
    const sharedObjects: array<SharedObject>

    constructor (size: nat)
      ensures index == 0 && sharedObjects.Length == size && fresh(sharedObjects)
    {
      index := 0;
      sharedObjects := new SharedObject[size](_ => SharedObject("", None));
    }

    // The walk through one note segment.  Every iteration records the signature found so
    // far, so an earlier segment's signature does not survive.
    method WalkNotes(segment: Segment)
      requires index < sharedObjects.Length && Walkable(segment.mem, segment.memsz, 0)
      modifies sharedObjects
      ensures sharedObjects[..] ==
              if segment.memsz == 0 then old(sharedObjects[..])
              else old(sharedObjects[..])[index := old(sharedObjects[index])
                         .(signature := SegmentSignature(segment.mem, segment.memsz))]
    {
      hide Walkable, Stride, IsStamp, LastStamp;
      var mem, memsz := segment.mem, segment.memsz;
      ghost var before := sharedObjects[..];
      var offset: nat := 0;
      var version: byte := 0;
      var signature: Option<seq<byte>> := None;
      ghost var seen: seq<nat> := [];
      NothingSeen(mem);
      while offset < memsz
        invariant Walkable(mem, memsz, offset)
        invariant seen + Visits(mem, memsz, offset) == Visits(mem, memsz, 0)
        invariant forall i :: 0 <= i < |seen| ==> Visitable(mem, seen[i])
        invariant signature == LastStamp(mem, seen, None)
        invariant offset > 0 ==> memsz > 0
        invariant offset == 0 ==> sharedObjects[..] == before
        invariant offset > 0 ==> sharedObjects[..] == before[index := before[index].(signature := signature)]
        decreases memsz - offset
      {
        WalkStep(mem, memsz, seen, offset);
        var stride;
        stride, version, signature := ReadSignature(mem, offset, version, signature);
        seen := seen + [offset];
        offset := offset + stride;
        sharedObjects[index] := sharedObjects[index].(signature := signature);
        assert sharedObjects[..] == before[index := before[index].(signature := signature)];
      }
      assert Visits(mem, memsz, offset) == [];
      assert seen == Visits(mem, memsz, 0);
    }

    // Walks every note segment of one object; only the last segment that is walked at all
    // counts.  path is the normalised name.
    method HandleProgramHeader(info: Info, path: string)
      requires index < sharedObjects.Length && Readable(info)
      modifies this`index, sharedObjects
      ensures index == old(index) + 1
      ensures sharedObjects[..] ==
              old(sharedObjects[..])[old(index) := SharedObject(path, Recorded(info.segments))]
    {
      hide Walkable, SegmentSignature;
      ghost var before := sharedObjects[..];
      sharedObjects[index] := SharedObject(path, None);
      for j := 0 to |info.segments|
        invariant index == old(index)
        invariant sharedObjects[..] == before[index := SharedObject(path, Recorded(info.segments[..j]))]
      {
        var segment := info.segments[j];
        assert info.segments[..j + 1][..j] == info.segments[..j];
        if segment.kind == PT_NOTE {
          if !segment.atNull {
            WalkNotes(segment);
          }
        }
      }
      assert info.segments[..|info.segments|] == info.segments;
      index := index + 1;
    }
  }

  function Objects(infos: seq<Info>, normalised: string -> string): seq<SharedObject> {
    seq(|infos|, i requires 0 <= i < |infos| =>
      SharedObject(if infos[i].name == "" then infos[i].name else normalised(infos[i].name),
                   Recorded(infos[i].segments)))
  }

  // Both passes over the loaded objects: the first counts them, the second fills exactly
  // the entries the first made room for.
  method GetLoadedSo(infos: seq<Info>, normalised: string -> string) returns (r: SoInfos)
    requires forall i :: 0 <= i < |infos| ==> Readable(infos[i])
    ensures r.sharedObjects[..] == Objects(infos, normalised)
    ensures r.index == r.sharedObjects.Length == |infos|
    ensures forall i :: 0 <= i < |infos| ==>
              r.sharedObjects[i].path == (if infos[i].name == "" then "" else normalised(infos[i].name))
    ensures forall i :: 0 <= i < |infos| ==> SignatureIsLast(infos[i].segments, r.sharedObjects[i].signature)
  {
    var count := 0;
    for i := 0 to |infos|
      invariant count == i
    {
      count := count + 1;
    }
    r := new SoInfos(count);
    for i := 0 to |infos|
      invariant r.index == i && r.sharedObjects.Length == |infos| && fresh(r) && fresh(r.sharedObjects)
      invariant forall k :: 0 <= k < i ==> r.sharedObjects[k] == Objects(infos, normalised)[k]
    {
      var path := if |infos[i].name| > 0 then normalised(infos[i].name) else infos[i].name;
      ghost var before := r.sharedObjects[..];
      r.HandleProgramHeader(infos[i], path);
      assert forall k :: 0 <= k < |infos| ==> r.sharedObjects[..][k] == r.sharedObjects[k];
    }
    forall i | 0 <= i < |infos| ensures SignatureIsLast(infos[i].segments, r.sharedObjects[i].signature) {
      RecordedIsLast(infos[i].segments, |infos[i].segments|);
    }
  }
}
