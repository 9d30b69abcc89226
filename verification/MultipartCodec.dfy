/**
 The multipart codec: parts laid end to end, each behind its size. A size below 255 takes one byte;
 any size up to 2^32 - 1 may take five, a 255 and the size in network order.
 */
module MultipartCodec {
  import opened Types
  import opened Seqs

  const MAX_U8: nat := 255
  const MAX_U32: nat := 0xFFFF_FFFF

  /** Most significant byte first. */
  function WriteU32(v: nat): (b: Bytes)
    requires v <= MAX_U32
    ensures |b| == 4
  {
    [v / 0x100_0000, v / 0x1_0000 % 256, v / 0x100 % 256, v % 256]
  }

  function ReadU32(b: Bytes): nat
    requires |b| >= 4
  {
    (b[0] as int) * 0x100_0000 + (b[1] as int) * 0x1_0000 + (b[2] as int) * 0x100 + b[3]
  }

  lemma U32RoundTrip(v: nat)
    requires v <= MAX_U32
    ensures ReadU32(WriteU32(v)) == v
  {
    assert v == v / 0x100 * 0x100 + v % 0x100;
    assert v / 0x100 == v / 0x1_0000 * 0x100 + v / 0x100 % 0x100;
    assert v / 0x1_0000 == v / 0x100_0000 * 0x100 + v / 0x1_0000 % 0x100;
  }

  lemma Digits256(q: nat, d: Byte)
    ensures (q * 256 + d) / 256 == q && (q * 256 + d) % 256 == d
  {
  }

  lemma U32Canonical(b: Bytes)
    requires |b| == 4
    ensures ReadU32(b) <= MAX_U32 && WriteU32(ReadU32(b)) == b
  {
    var v, high: nat := ReadU32(b), b[0];
    var mid: nat, low: nat := high * 256 + b[1], (high * 256 + b[1]) * 256 + b[2];
    assert v == low * 256 + b[3];
    Digits256(low, b[3]);
    Digits256(mid, b[2]);
    Digits256(high, b[1]);
    assert v / 0x100 == low && v / 0x1_0000 == mid && v / 0x100_0000 == high;
  }

  /** Two byte strings of one length differ first at i, where a has the smaller byte. */
  ghost predicate SmallerAt(a: Bytes, b: Bytes, i: nat) {
    i < |a| == |b| && a[..i] == b[..i] && a[i] < b[i]
  }

  lemma QuotientOrder(v: nat, w: nat)
    requires v < w
    ensures v / 256 < w / 256 || (v / 256 == w / 256 && v % 256 < w % 256)
  {
  }

  lemma QuotientTwice(v: nat)
    ensures v / 0x100 / 256 == v / 0x1_0000 && v / 0x1_0000 / 256 == v / 0x100_0000
  {
  }

  /** Network order: sizes compare as their bytes do from the first on. */
  lemma NetworkOrder(v: nat, w: nat)
    requires v < w <= MAX_U32
    ensures exists i: nat :: SmallerAt(WriteU32(v), WriteU32(w), i)
  {
    QuotientTwice(v);
    QuotientTwice(w);
    QuotientOrder(v, w);
    var i: nat :=
      if v / 0x100_0000 < w / 0x100_0000 then 0
      else if v / 0x1_0000 < w / 0x1_0000 then 1
      else if v / 0x100 < w / 0x100 then 2
      else 3;
    assert SmallerAt(WriteU32(v), WriteU32(w), i);
  }

  /** One part on the wire, behind a five-byte header if it is long. */
  datatype Frame = Frame(long: bool, data: Bytes)

  predicate ValidFrame(f: Frame) {
    if f.long then |f.data| <= MAX_U32 else |f.data| < MAX_U8
  }

  function Header(f: Frame): (h: Bytes)
    requires ValidFrame(f)
    ensures |h| == if f.long then 5 else 1
  {
    if f.long then [MAX_U8] + WriteU32(|f.data|) else [|f.data|]
  }

  function FrameBytes(f: Frame): (b: Bytes)
    requires ValidFrame(f)
    ensures |b| == |Header(f)| + |f.data| > 0
  {
    Header(f) + f.data
  }

  ghost predicate AllValid(frames: seq<Frame>) {
    forall f :: f in frames ==> ValidFrame(f)
  }

  ghost function Wire(frames: seq<Frame>): Bytes
    requires AllValid(frames)
  {
    if frames == [] then [] else FrameBytes(frames[0]) + Wire(frames[1..])
  }

  function Parts(frames: seq<Frame>): (parts: seq<Bytes>)
    ensures |parts| == |frames|
  {
    seq(|frames|, k requires 0 <= k < |frames| => frames[k].data)
  }

  /** The frame a byte string starts with, if all of it is there. */
  function FirstFrame(b: Bytes): (r: Option<Frame>)
    requires b != []
    ensures r.Some? ==> ValidFrame(r.value) && |FrameBytes(r.value)| <= |b|
  {
    if b[0] != MAX_U8 then
      if |b| - 1 < b[0] then None else Some(Frame(false, b[1..1 + b[0]]))
    else if |b| - 1 < 4 then None
    else
      var size := ReadU32(b[1..5]);
      U32Canonical(b[1..5]);
      if |b| - 5 < size then None else Some(Frame(true, b[5..5 + size]))
  }

  /** The frames from the start of a byte string up to where none fits, and the rest. */
  function Split(b: Bytes): (seq<Frame>, Bytes)
    decreases |b|
  {
    if b == [] || FirstFrame(b).None? then ([], b)
    else
      var f := FirstFrame(b).value;
      var (frames, rest) := Split(b[|FrameBytes(f)|..]);
      ([f] + frames, rest)
  }

  lemma FirstFrameBytes(b: Bytes)
    requires b != [] && FirstFrame(b).Some?
    ensures var f := FirstFrame(b).value; FrameBytes(f) + b[|FrameBytes(f)|..] == b
  {
    var f := FirstFrame(b).value;
    if f.long {
      U32Canonical(b[1..5]);
      assert Header(f) == b[..5];
    } else {
      assert Header(f) == b[..1];
    }
    assert FrameBytes(f) == b[..|FrameBytes(f)|];
  }

  lemma FirstFrameOf(f: Frame, rest: Bytes)
    requires ValidFrame(f)
    ensures FirstFrame(FrameBytes(f) + rest) == Some(f)
  {
    var b := FrameBytes(f) + rest;
    assert b == Header(f) + (f.data + rest);
    if f.long {
      U32RoundTrip(|f.data|);
      assert b[1..5] == WriteU32(|f.data|);
      assert b[5..5 + |f.data|] == f.data;
    } else {
      assert b[1..1 + |f.data|] == f.data;
    }
  }

  /** Splitting loses nothing, and stops only where no frame fits. */
  lemma {:induction false} SplitSound(b: Bytes)
    ensures var (frames, rest) := Split(b);
            && AllValid(frames) && Wire(frames) + rest == b
            && (rest == [] || FirstFrame(rest).None?)
    decreases |b|
  {
    if b == [] || FirstFrame(b).None? {
      JoinEmpty(b);
    } else {
      var f := FirstFrame(b).value;
      var tail := b[|FrameBytes(f)|..];
      var (frames, rest) := Split(tail);
      SplitSound(tail);
      FirstFrameBytes(b);
      assert ([f] + frames)[1..] == frames;
      JoinAssociates(FrameBytes(f), Wire(frames), rest);
    }
  }

  lemma SplitFrame(f: Frame, rest: Bytes)
    requires ValidFrame(f)
    ensures Split(FrameBytes(f) + rest) == ([f] + Split(rest).0, Split(rest).1)
  {
    FirstFrameOf(f, rest);
    DropOfJoin(FrameBytes(f), rest, |FrameBytes(f)|);
    JoinEmpty(rest);
  }

  /** Splitting finds any frames at the start, whatever follows them. */
  lemma {:induction false} SplitWire(frames: seq<Frame>, b: Bytes)
    requires AllValid(frames)
    ensures Split(Wire(frames) + b) == (frames + Split(b).0, Split(b).1)
    decreases |frames|
  {
    if frames == [] {
      JoinEmpty(b);
      JoinEmpty(Split(b).0);
    } else {
      var f, tail := frames[0], frames[1..];
      SplitWire(tail, b);
      JoinAssociates(FrameBytes(f), Wire(tail), b);
      SplitFrame(f, Wire(tail) + b);
      JoinAssociates([f], tail, Split(b).0);
      assert [f] + tail == frames;
    }
  }

  datatype DecodeError = SizeOverflow | PartOverflow

  /** What decoding reports about the bytes it could not split. */
  function ErrorAt(rest: Bytes): Option<DecodeError> {
    if rest == [] then None
    else if rest[0] == MAX_U8 && |rest| < 5 then Some(SizeOverflow)
    else Some(PartOverflow)
  }

  ghost predicate Decodes(b: Bytes) {
    Split(b).1 == []
  }

  ghost function Decoded(b: Bytes): seq<Bytes> {
    Parts(Split(b).0)
  }

  /** A byte string decodes to given parts exactly when it is frames that carry them. */
  lemma DecodesIff(b: Bytes, parts: seq<Bytes>)
    ensures Decodes(b) && Decoded(b) == parts <==>
            exists frames: seq<Frame> :: AllValid(frames) && Wire(frames) == b && Parts(frames) == parts
  {
    if Decodes(b) && Decoded(b) == parts {
      SplitSound(b);
      JoinEmpty(Wire(Split(b).0));
      assert Wire(Split(b).0) == b;
    }
    forall frames: seq<Frame> | AllValid(frames) && Wire(frames) == b && Parts(frames) == parts
      ensures Decodes(b) && Decoded(b) == parts
    {
      SplitWire(frames, []);
      JoinEmpty(b);
      JoinEmpty(frames);
    }
  }

  lemma PartsOfJoin(a: seq<Frame>, b: seq<Frame>)
    ensures Parts(a + b) == Parts(a) + Parts(b)
  {
  }

  /** After a byte string that decodes, decoding goes on with what follows it. */
  lemma DecodeJoined(a: Bytes, b: Bytes)
    requires Decodes(a)
    ensures Decodes(a + b) <==> Decodes(b)
    ensures Decoded(a + b) == Decoded(a) + Decoded(b)
  {
    var frames := Split(a).0;
    SplitSound(a);
    JoinEmpty(Wire(frames));
    SplitWire(frames, b);
    PartsOfJoin(frames, Split(b).0);
  }

  /** The parts decoded before an error are those of the longest prefix that decodes. */
  lemma LongestPrefix(b: Bytes, k: nat)
    requires k <= |b|
    ensures var good := |b| - |Split(b).1|;
            && 0 <= good <= |b|
            && Decodes(b[..good]) && Decoded(b[..good]) == Decoded(b)
            && (Decodes(b[..k]) ==> k <= good)
  {
    var (frames, rest) := Split(b);
    SplitSound(b);
    var good := |b| - |rest|;
    assert b[..good] == Wire(frames);
    DecodesIff(b[..good], Parts(frames));
    TakeDrop(b, k);
    if Decodes(b[..k]) {
      var front, tail := Split(b[..k]).0, b[k..];
      SplitSound(b[..k]);
      JoinEmpty(Wire(front));
      SplitWire(front, tail);
      SplitSound(tail);
      assert Split(b) == (front + Split(tail).0, Split(tail).1);
    }
  }

  /** The frame that encoding picks: the short form wherever it fits. */
  function CanonicalFrame(part: Bytes): Frame {
    Frame(|part| >= MAX_U8, part)
  }

  predicate Encodable(parts: seq<Bytes>) {
    forall p :: p in parts ==> |p| <= MAX_U32
  }

  function CanonicalFrames(parts: seq<Bytes>): (frames: seq<Frame>)
    ensures |frames| == |parts|
    ensures Encodable(parts) ==> AllValid(frames)
  {
    seq(|parts|, k requires 0 <= k < |parts| => CanonicalFrame(parts[k]))
  }

  ghost function Encoding(parts: seq<Bytes>): Bytes
    requires Encodable(parts)
  {
    Wire(CanonicalFrames(parts))
  }

  /** What one part is encoded as. */
  lemma EncodingOfOne(p: Bytes)
    ensures Encodable([p]) <==> |p| <= 0xFFFF_FFFF
    ensures |p| < 255 ==> Encoding([p]) == [|p|] + p
    ensures 255 <= |p| <= 0xFFFF_FFFF ==>
              && |Encoding([p])| == 5 + |p| && Encoding([p])[5..] == p
              && Encoding([p])[0] == 255 && Encoding([p])[1..5] == WriteU32(|p|)
  {
    assert p in [p];
    if |p| <= 0xFFFF_FFFF {
      var f := CanonicalFrame(p);
      assert CanonicalFrames([p]) == [f] && [f][1..] == [];
      assert Wire([f][1..]) == [];
      JoinEmpty(FrameBytes(f));
      assert Encoding([p]) == FrameBytes(f) == Header(f) + p;
    }
  }

  /** So the sizes of long parts stand in network order on the wire. */
  lemma SizesInNetworkOrder(p: Bytes, q: Bytes)
    requires 255 <= |p| < |q| <= 0xFFFF_FFFF
    ensures Encodable([p]) && Encodable([q])
    ensures exists i: nat :: SmallerAt(Encoding([p])[..5], Encoding([q])[..5], i)
  {
    EncodingOfOne(p);
    EncodingOfOne(q);
    NetworkOrder(|p|, |q|);
    var i: nat :| SmallerAt(WriteU32(|p|), WriteU32(|q|), i);
    HeaderSmaller(Encoding([p])[..5], Encoding([q])[..5], i);
  }

  lemma HeaderSmaller(a: Bytes, b: Bytes, i: nat)
    requires |a| == |b| == 5 && a[0] == b[0] && SmallerAt(a[1..], b[1..], i)
    ensures SmallerAt(a, b, i + 1)
  {
    assert a[..i + 1] == [a[0]] + a[1..][..i] && b[..i + 1] == [b[0]] + b[1..][..i];
  }

  /** Decoding an encoding gives back its parts, all of them and nothing else. */
  lemma RoundTrip(parts: seq<Bytes>)
    requires Encodable(parts)
    ensures Decodes(Encoding(parts)) && Decoded(Encoding(parts)) == parts
  {
    var frames := CanonicalFrames(parts);
    assert Parts(frames) == parts;
    DecodesIff(Encoding(parts), parts);
  }

  /** Five-byte headers around sizes that one byte would hold. */
  ghost function Wasteful(frames: seq<Frame>): nat {
    if frames == [] then 0
    else (if IsWasteful(frames[0]) then 1 else 0) + Wasteful(frames[1..])
  }

  lemma PartsEncodable(frames: seq<Frame>)
    requires AllValid(frames)
    ensures Encodable(Parts(frames))
  {
    forall p | p in Parts(frames)
      ensures |p| <= MAX_U32
    {
      var k :| 0 <= k < |frames| && p == Parts(frames)[k];
      assert ValidFrame(frames[k]);
    }
  }

  lemma EncodingOfFirst(frames: seq<Frame>)
    requires AllValid(frames) && frames != []
    ensures Encodable(Parts(frames)) && Encodable(Parts(frames[1..]))
    ensures ValidFrame(CanonicalFrame(frames[0].data))
    ensures CanonicalFrames(Parts(frames)) == [CanonicalFrame(frames[0].data)] + CanonicalFrames(Parts(frames[1..]))
    ensures Encoding(Parts(frames)) == FrameBytes(CanonicalFrame(frames[0].data)) + Encoding(Parts(frames[1..]))
  {
    var parts := Parts(frames);
    PartsEncodable(frames);
    PartsEncodable(frames[1..]);
    assert Parts(frames[1..]) == parts[1..];
    assert CanonicalFrames(parts)[1..] == CanonicalFrames(parts[1..]);
    assert parts[0] in parts;
  }

  predicate IsWasteful(f: Frame) {
    f.long && |f.data| < MAX_U8
  }

  /** The canonical frame of a part saves four bytes on a wasteful one, and is any other itself. */
  lemma CanonicalSaves(f: Frame)
    requires ValidFrame(f)
    ensures ValidFrame(CanonicalFrame(f.data))
    ensures |FrameBytes(f)| == |FrameBytes(CanonicalFrame(f.data))| + if IsWasteful(f) then 4 else 0
    ensures !IsWasteful(f) ==> CanonicalFrame(f.data) == f
  {
  }

  lemma {:induction false} WasteAddsUp(frames: seq<Frame>)
    requires AllValid(frames)
    ensures Encodable(Parts(frames))
    ensures |Wire(frames)| == |Encoding(Parts(frames))| + 4 * Wasteful(frames)
    decreases |frames|
  {
    PartsEncodable(frames);
    if frames == [] {
      assert CanonicalFrames(Parts(frames)) == [];
    } else {
      WasteAddsUp(frames[1..]);
      EncodingOfFirst(frames);
      CanonicalSaves(frames[0]);
    }
  }

  lemma {:induction false} NoWasteIsCanonical(frames: seq<Frame>)
    requires AllValid(frames) && Wasteful(frames) == 0
    ensures CanonicalFrames(Parts(frames)) == frames
    decreases |frames|
  {
    if frames == [] {
    } else {
      NoWasteIsCanonical(frames[1..]);
      EncodingOfFirst(frames);
      CanonicalSaves(frames[0]);
      assert frames == [frames[0]] + frames[1..];
    }
  }

  /**
   Re-encoding what decodes: the same parts, in bytes fewer by exactly four for each wasteful
   header, and the same bytes exactly when there is none. So an encoding is the shortest of all
   byte strings that decode to its parts.
   */
  lemma Reencode(b: Bytes)
    requires Decodes(b)
    ensures Encodable(Decoded(b))
    ensures Decodes(Encoding(Decoded(b))) && Decoded(Encoding(Decoded(b))) == Decoded(b)
    ensures |b| == |Encoding(Decoded(b))| + 4 * Wasteful(Split(b).0)
    ensures Encoding(Decoded(b)) == b <==> Wasteful(Split(b).0) == 0
  {
    SplitSound(b);
    JoinEmpty(Wire(Split(b).0));
    WasteAddsUp(Split(b).0);
    if Wasteful(Split(b).0) == 0 {
      NoWasteIsCanonical(Split(b).0);
    }
    RoundTrip(Decoded(b));
  }

  datatype EncodeResult = RangeError | Message(bytes: Bytes)

  lemma EncodingStep(parts: seq<Bytes>, k: nat)
    requires Encodable(parts) && k < |parts|
    ensures Encodable(parts[..k]) && Encodable(parts[..k + 1])
    ensures Encoding(parts[..k + 1]) == Encoding(parts[..k]) + FrameBytes(CanonicalFrame(parts[k]))
  {
    var f := CanonicalFrame(parts[k]);
    assert CanonicalFrames(parts[..k + 1]) == CanonicalFrames(parts[..k]) + [f];
    WireSnoc(CanonicalFrames(parts[..k]), f);
  }

  lemma {:induction false} WireSnoc(frames: seq<Frame>, f: Frame)
    requires AllValid(frames) && ValidFrame(f)
    ensures Wire(frames + [f]) == Wire(frames) + FrameBytes(f)
    decreases |frames|
  {
    if frames == [] {
      assert frames + [f] == [f];
      JoinEmpty(FrameBytes(f));
    } else {
      var g, tail := frames[0], frames[1..];
      WireSnoc(tail, f);
      assert (frames + [f])[1..] == tail + [f];
      JoinAssociates(FrameBytes(g), Wire(tail), FrameBytes(f));
    }
  }

  /** First pass: the size of the message, unless a part is too large. */
  method EncodedSize(parts: seq<Bytes>) returns (size: Option<nat>)
    ensures size.None? <==> !Encodable(parts)
    ensures size.Some? ==> size.value == |Encoding(parts)|
  {
    var total := 0;
    assert parts[..0] == [];
    for k := 0 to |parts|
      invariant Encodable(parts[..k]) && total == |Encoding(parts[..k])|
    {
      var partSize := |parts[k]|;
      if partSize > MAX_U32 {
        assert parts[k] in parts;
        return None;
      }
      assert parts[..k + 1] == parts[..k] + [parts[k]];
      assert parts[..k + 1][..k] == parts[..k] && parts[..k + 1][..k + 1] == parts[..k + 1];
      EncodingStep(parts[..k + 1], k);
      var countSize := if partSize < MAX_U8 then 1 else 5;
      total := total + (partSize + countSize);
    }
    assert parts[..|parts|] == parts;
    return Some(total);
  }

  /** Copies bytes into the buffer from position `at` on. */
  method Put(buffer: array<Byte>, at: nat, bytes: Bytes)
    requires at + |bytes| <= buffer.Length
    modifies buffer
    ensures buffer[..at + |bytes|] == old(buffer[..at]) + bytes
  {
    for k := 0 to |bytes|
      invariant buffer[..at + k] == old(buffer[..at]) + bytes[..k]
    {
      buffer[at + k] := bytes[k];
      assert buffer[..at + k + 1] == buffer[..at + k] + [bytes[k]];
      assert bytes[..k + 1] == bytes[..k] + [bytes[k]];
    }
    assert bytes[..|bytes|] == bytes;
  }

  /** Second pass: one part behind its size; the position after it. */
  method PutPart(buffer: array<Byte>, at: nat, part: Bytes) returns (next: nat)
    requires |part| <= MAX_U32
    requires at + |FrameBytes(CanonicalFrame(part))| <= buffer.Length
    modifies buffer
    ensures next == at + |FrameBytes(CanonicalFrame(part))|
    ensures buffer[..next] == old(buffer[..at]) + FrameBytes(CanonicalFrame(part))
  {
    next := at;
    if |part| < MAX_U8 {
      Put(buffer, next, [|part|]);
      next := next + 1;
    } else {
      Put(buffer, next, [MAX_U8]);
      next := next + 1;
      Put(buffer, next, WriteU32(|part|));
      next := next + 4;
    }
    Put(buffer, next, part);
    next := next + |part|;
  }

  /** Fails exactly when a part is too large; otherwise fills the message to its last byte. */
  method Encode(parts: seq<Bytes>) returns (r: EncodeResult)
    ensures r.RangeError? <==> !Encodable(parts)
    ensures r.Message? ==> r.bytes == Encoding(parts)
  {
    var size := EncodedSize(parts);
    if size.None? {
      return RangeError;
    }
    var encoded := new Byte[size.value];
    var at := 0;
    assert parts[..0] == [] && parts[..|parts|] == parts;
    for k := 0 to |parts|
      invariant Encodable(parts[..k]) && at == |Encoding(parts[..k])| <= encoded.Length
      invariant encoded[..at] == Encoding(parts[..k])
    {
      EncodingStep(parts, k);
      PrefixFits(parts, k + 1);
      at := PutPart(encoded, at, parts[k]);
    }
    assert at == size.value;
    return Message(encoded[..]);
  }

  lemma {:induction false} PrefixFits(parts: seq<Bytes>, k: nat)
    requires Encodable(parts) && k <= |parts|
    ensures Encodable(parts[..k]) && |Encoding(parts[..k])| <= |Encoding(parts)|
    decreases |parts| - k
  {
    if k == |parts| {
      assert parts[..k] == parts;
    } else {
      EncodingStep(parts, k);
      PrefixFits(parts, k + 1);
    }
  }

  /** Where the first frame at `at` ends, decoding goes on. */
  lemma DecodeStep(b: Bytes, at: nat, f: Frame)
    requires at < |b| && FirstFrame(b[at..]) == Some(f)
    ensures var next := at + |FrameBytes(f)|;
            && next <= |b|
            && Decoded(b[at..]) == [f.data] + Decoded(b[next..])
            && Split(b[at..]).1 == Split(b[next..]).1
  {
    var next := at + |FrameBytes(f)|;
    DropDrop(b, at, |FrameBytes(f)|);
    PartsOfJoin([f], Split(b[next..]).0);
  }

  /** Reads the part that starts at `start`; `next` is the position after it. */
  method ReadPart(encoded: Bytes, start: nat) returns (part: Bytes, next: nat, error: Option<DecodeError>)
    requires start < |encoded|
    ensures error.Some? ==> FirstFrame(encoded[start..]).None? && error == ErrorAt(encoded[start..])
    ensures error.None? ==> FirstFrame(encoded[start..]).Some?
                            && part == FirstFrame(encoded[start..]).value.data
                            && next == start + |FrameBytes(FirstFrame(encoded[start..]).value)|
  {
    ghost var here := encoded[start..];
    var source := start;
    var partSize: nat := encoded[source];
    source := source + 1;
    if partSize == MAX_U8 {
      if |encoded| - source < 4 {
        return [], source, Some(SizeOverflow);
      }
      assert here[1..5] == encoded[source..source + 4];
      partSize := ReadU32(encoded[source..source + 4]);
      source := source + 4;
    }
    if |encoded| - source < partSize {
      return [], source, Some(PartOverflow);
    }
    assert here[source - start..source - start + partSize] == encoded[source..source + partSize];
    return encoded[source..source + partSize], source + partSize, None;
  }

  /** The same, as a step of decoding the bytes from `start` on. */
  method DecodePart(encoded: Bytes, start: nat) returns (part: Bytes, next: nat, error: Option<DecodeError>)
    requires start < |encoded|
    ensures error.Some? ==> Decoded(encoded[start..]) == [] && error == ErrorAt(Split(encoded[start..]).1)
    ensures error.None? ==> start < next <= |encoded|
                            && Decoded(encoded[start..]) == [part] + Decoded(encoded[next..])
                            && Split(encoded[start..]).1 == Split(encoded[next..]).1
  {
    part, next, error := ReadPart(encoded, start);
    if error.None? {
      DecodeStep(encoded, start, FirstFrame(encoded[start..]).value);
    }
  }

  /** Writes the parts one by one; on malformed bytes those before the error have been written. */
  method Decode(encoded: Bytes) returns (out: seq<Bytes>, error: Option<DecodeError>)
    ensures out == Decoded(encoded)
    ensures error == ErrorAt(Split(encoded).1)
  {
    var source := 0;
    out := [];
    ghost var all, rest := Decoded(encoded), Split(encoded).1;
    assert encoded[0..] == encoded;
    JoinEmpty(all);
    while source < |encoded|
      invariant source <= |encoded|
      invariant all == out + Decoded(encoded[source..])
      invariant rest == Split(encoded[source..]).1
    {
      var part, next, failure := DecodePart(encoded, source);
      if failure.Some? {
        JoinEmpty(out);
        return out, failure;
      }
      JoinAssociates(out, [part], Decoded(encoded[next..]));
      out, source := out + [part], next;
    }
    JoinEmpty(out);
    return out, None;
  }
}
