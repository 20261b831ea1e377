/**
 * `PacketReader`: the length-prefix decoder, the framing loop of `EnumerateAsync`, the
 * packet-type table its constructor builds, and `Read`. The stream is the finite sequence
 * of bytes the peer sends before it ends; a read that finds no byte left is the end of the
 * stream. Deserialization of envelopes and payloads is foreign code and is passed in.
 */
module PacketReader {
  import opened Wrappers
  import opened Packets
  import opened Varint

  /** How `ReadVarintAsync` completes: a size and the number of prefix bytes, or its exception. */
  datatype VarintResult =
    | Varint(packetSize: int, offset: nat)
    | EndOfStream      // EndOfStreamException, an IOException
    | BufferOverflow   // InvalidOperationException

  /**
   * What reading a prefix from `stream` into a buffer of `bufferLength` bytes yields. The
   * loop stops at the first index that is past the buffer, past the stream, or holds a
   * final byte, checked in that order.
   */
  function ReadVarintSpec(stream: seq<byte>, bufferLength: nat): (r: VarintResult)
    ensures r.Varint? ==> 1 <= r.offset <= |stream| && r.offset <= bufferLength
  {
    var k := FirstFinal(stream);
    if bufferLength <= k && bufferLength <= |stream| then BufferOverflow
    else if k == |stream| then EndOfStream
    else
      Acc32Bound(stream[..k + 1]);
      Varint(ToInt32(Acc32(stream[..k + 1])), k + 1)
  }

  /** `ReadVarintAsync`: reads the prefix one byte at a time into `buffer`, never past its last byte. */
  method ReadVarintAsync(stream: seq<byte>, buffer: array<byte>) returns (r: VarintResult)
    modifies buffer
    ensures r == ReadVarintSpec(stream, buffer.Length)
    ensures r.Varint? ==> buffer[..r.offset] == stream[..r.offset]
  {
    var packetSize := 0;
    var shift := 0;
    var index := 0;
    while true
      invariant 0 <= index <= buffer.Length && index <= |stream|
      invariant shift == 7 * index
      invariant forall i :: 0 <= i < index ==> Continues(stream[i])
      invariant packetSize == Acc32(stream[..index])
      invariant buffer[..index] == stream[..index]
      decreases buffer.Length - index
    {
      if index >= buffer.Length {
        return BufferOverflow;
      }
      if index >= |stream| {
        return EndOfStream;
      }
      buffer[index] := stream[index];
      var currentByte := buffer[index];
      assert stream[..index + 1][..index] == stream[..index];
      // `shift % 32` is C#'s `shift & 31`; wrapping of `shift` would not change its low five bits
      packetSize := BitOr(packetSize, Shl32(Low7(currentByte), shift));
      assert buffer[..index + 1] == stream[..index + 1];
      if !Continues(currentByte) {
        Acc32Bound(stream[..index + 1]);
        return Varint(ToInt32(packetSize), index + 1);
      }
      shift := shift + 7;
      index := index + 1;
    }
  }

  /**
   * A size comes from a complete prefix that fits the buffer and is the 32-bit value of
   * its groups; for at most four bytes (at most five, below 2^31) it is the plain
   * arithmetic value of the groups.
   */
  lemma ReadVarintValue(stream: seq<byte>, bufferLength: nat)
    requires ReadVarintSpec(stream, bufferLength).Varint?
    ensures var r := ReadVarintSpec(stream, bufferLength); var p := stream[..r.offset];
      && (forall i :: 0 <= i < r.offset - 1 ==> Continues(stream[i]))
      && !Continues(stream[r.offset - 1])
      && r.packetSize == ToInt32(Acc32(p))
      && (r.offset <= 4 ==> r.packetSize == LebSum(p))
      && (r.offset <= 5 && LebSum(p) < 0x8000_0000 ==> r.packetSize == LebSum(p))
  {
    var k := FirstFinal(stream);
    var p := stream[..k + 1];
    Acc32Bound(p);
    assert ReadVarintSpec(stream, bufferLength) == Varint(ToInt32(Acc32(p)), k + 1);
    if k < 5 {
      PrefixAccumulator(p);
    }
  }

  /** The accumulator after at most five bytes, against the arithmetic value of the groups. */
  lemma PrefixAccumulator(p: seq<byte>)
    requires |p| <= 5
    ensures Acc32(p) == LebSum(p) % Two32
    ensures |p| <= 4 ==> LebSum(p) < 0x1000_0000 && Acc32(p) == LebSum(p)
    ensures LebSum(p) < 0x8000_0000 ==> Acc32(p) == LebSum(p)
  {
    Acc32IsLebSum(p);
    var v := LebSum(p);
    if v < 0x8000_0000 {
      assert v % Two32 == v;
    }
    if |p| <= 4 {
      ShortPrefixBound(p);
    }
  }

  /**
   * The end of the stream is met exactly when no final byte arrived before it and the
   * buffer still had room; the overflow exactly when the buffer filled with continuation bytes.
   */
  lemma ReadVarintFailures(stream: seq<byte>, bufferLength: nat)
    ensures var r := ReadVarintSpec(stream, bufferLength);
      && (r == EndOfStream <==> |stream| < bufferLength && forall i :: 0 <= i < |stream| ==> Continues(stream[i]))
      && (r == BufferOverflow <==> bufferLength <= |stream| && forall i :: 0 <= i < bufferLength ==> Continues(stream[i]))
  {
  }

  /** Round trip with the reference encoder: an encoded size below 2^31 whose prefix fits is read back with its length. */
  lemma ReadEncoded(n: nat, rest: seq<byte>, bufferLength: nat)
    requires n < 0x8000_0000 && |Encode(n)| <= bufferLength
    ensures ReadVarintSpec(Encode(n) + rest, bufferLength) == Varint(n, |Encode(n)|)
  {
    var e := Encode(n);
    var stream := e + rest;
    EncodeFinal(n, rest);
    assert stream[..|e|] == e;
    EncodedAccumulator(n);
  }

  /** The accumulator after an encoded size below 2^31 holds that size. */
  lemma EncodedAccumulator(n: nat)
    requires n < 0x8000_0000
    ensures Acc32(Encode(n)) == n
  {
    EncodeFitsFive(n);
    EncodeValue(n);
    PrefixAccumulator(Encode(n));
  }

  // ---------------------------------------------------------------- framing

  /** Why `EnumerateAsync` stopped. */
  datatype StopReason =
    | StreamEnded        // an IOException while reading the prefix or the body: a quiet break
    | Oversized(size: int)  // size above the buffer size: logged, a quiet break
    | PrefixTooLong      // InvalidOperationException from the prefix reader: propagates
    | SliceOutOfRange    // ArgumentOutOfRangeException from `buffer.AsMemory(offset, size)`: propagates
    | RentRejected       // ArgumentOutOfRangeException from `ArrayPool.Rent` for a negative size: propagates

  /** The stop reasons that leave `EnumerateAsync` as an exception rather than as the end of the sequence. */
  predicate Propagates(s: StopReason) {
    s == PrefixTooLong || s == SliceOutOfRange || s == RentRejected
  }

  /** The bodies the enumeration yields, in order, and why it stopped. */
  datatype FrameRun = FrameRun(frames: seq<seq<byte>>, stop: StopReason)

  /** One turn of the framing loop: it stops, or it yields a body and goes on after `consumed` bytes. */
  datatype Step = Stop(reason: StopReason) | Yield(body: seq<byte>, consumed: nat)

  /**
   * One turn as written: a size above `bufferSize` stops the loop; any other size is read
   * into the buffer right after the prefix, which fails when it does not fit there.
   */
  function FrameStep(stream: seq<byte>, bufferSize: int, bufferLength: nat): (s: Step)
    ensures s.Yield? ==> |s.body| < s.consumed <= |stream| && s.body == stream[s.consumed - |s.body|..s.consumed]
    ensures s.Yield? ==> |s.body| <= bufferSize
  {
    match ReadVarintSpec(stream, bufferLength)
    case BufferOverflow => Stop(PrefixTooLong)
    case EndOfStream => Stop(StreamEnded)
    case Varint(size, offset) =>
      if size > bufferSize then Stop(Oversized(size))
      else if size < 0 || offset + size > bufferLength then Stop(SliceOutOfRange)
      else if offset + size > |stream| then Stop(StreamEnded)
      else Yield(stream[offset..offset + size], offset + size)
  }

  /** The whole loop: the turns repeated until one stops. */
  function Frames(stream: seq<byte>, bufferSize: int, bufferLength: nat): FrameRun
    decreases |stream|
  {
    match FrameStep(stream, bufferSize, bufferLength)
    case Stop(reason) => FrameRun([], reason)
    case Yield(body, consumed) =>
      var rest := Frames(stream[consumed..], bufferSize, bufferLength);
      FrameRun([body] + rest.frames, rest.stop)
  }

  /** A turn that yields moves its body from the rest of the run to what has been yielded. */
  lemma FramesAdvance(run: FrameRun, yielded: seq<seq<byte>>, stream: seq<byte>, bufferSize: int, bufferLength: nat,
                      body: seq<byte>, consumed: nat)
    requires FrameStep(stream, bufferSize, bufferLength) == Yield(body, consumed)
    requires run.frames == yielded + Frames(stream, bufferSize, bufferLength).frames
    requires run.stop == Frames(stream, bufferSize, bufferLength).stop
    ensures run.frames == (yielded + [body]) + Frames(stream[consumed..], bufferSize, bufferLength).frames
    ensures run.stop == Frames(stream[consumed..], bufferSize, bufferLength).stop
  {
    var next := Frames(stream[consumed..], bufferSize, bufferLength);
    assert Frames(stream, bufferSize, bufferLength) == FrameRun([body] + next.frames, next.stop);
    assert yielded + ([body] + next.frames) == (yielded + [body]) + next.frames;
  }

  /** `ReadExactlyAsync` into `buffer.AsMemory(offset, size)`: copies the stream's bytes at `offset` onwards. */
  method ReadExactly(stream: seq<byte>, buffer: array<byte>, offset: nat, size: nat)
    requires offset + size <= |stream| && offset + size <= buffer.Length
    modifies buffer
    ensures buffer[offset..offset + size] == stream[offset..offset + size]
  {
    forall i | 0 <= i < size {
      buffer[offset + i] := stream[offset + i];
    }
  }

  /**
   * One turn of `EnumerateAsync`'s loop: the prefix, the two size checks, the body read
   * into `buffer` after the prefix, and the slice handed to the deserializer.
   */
  method NextFrame(rest: seq<byte>, bufferSize: int, buffer: array<byte>) returns (step: Step)
    modifies buffer
    ensures step == FrameStep(rest, bufferSize, buffer.Length)
  {
    var prefix := ReadVarintAsync(rest, buffer);
    if prefix == EndOfStream {
      return Stop(StreamEnded);
    } else if prefix == BufferOverflow {
      return Stop(PrefixTooLong);
    }
    var packetSize, offset := prefix.packetSize, prefix.offset;
    if packetSize > bufferSize {
      return Stop(Oversized(packetSize));
    }
    if packetSize < 0 || offset + packetSize > buffer.Length {
      return Stop(SliceOutOfRange);
    }
    if offset + packetSize > |rest| {
      return Stop(StreamEnded);
    }
    ReadExactly(rest, buffer, offset, packetSize);
    return Yield(buffer[offset..offset + packetSize], offset + packetSize);
  }

  /**
   * `EnumerateAsync` over a rented `buffer`: a negative buffer size makes the rent throw
   * before anything is read; otherwise it yields the envelope deserialized from exactly
   * each body slice, until the loop stops.
   */
  method EnumerateAsync(stream: seq<byte>, bufferSize: int, buffer: array<byte>, deserialize: seq<byte> -> NetworkPacket)
    returns (packets: seq<NetworkPacket>, stop: StopReason)
    requires bufferSize <= buffer.Length   // what ArrayPool.Rent(bufferSize) guarantees when it succeeds
    modifies buffer
    ensures bufferSize < 0 ==> packets == [] && stop == RentRejected
    ensures bufferSize >= 0 ==> var run := Frames(stream, bufferSize, buffer.Length);
      && stop == run.stop
      && |packets| == |run.frames|
      && forall i :: 0 <= i < |packets| ==> packets[i] == deserialize(run.frames[i])
  {
    if bufferSize < 0 {
      return [], RentRejected;
    }
    ghost var frames: seq<seq<byte>> := [];
    ghost var whole := Frames(stream, bufferSize, buffer.Length);
    packets := [];
    var rest := stream;
    assert whole.frames == frames + Frames(rest, bufferSize, buffer.Length).frames;
    while true
      invariant |packets| == |frames|
      invariant forall i :: 0 <= i < |packets| ==> packets[i] == deserialize(frames[i])
      invariant whole.frames == frames + Frames(rest, bufferSize, buffer.Length).frames
      invariant whole.stop == Frames(rest, bufferSize, buffer.Length).stop
      decreases |rest|
    {
      var step := NextFrame(rest, bufferSize, buffer);
      if step.Stop? {
        return packets, step.reason;
      }
      FramesAdvance(whole, frames, rest, bufferSize, buffer.Length, step.body, step.consumed);
      packets := packets + [deserialize(step.body)];
      frames := frames + [step.body];
      rest := rest[step.consumed..];
    }
  }

  /**
   * One turn as evidently intended: every size from 0 to `bufferSize` is read, into the
   * start of the buffer, and a negative size is refused like an oversized one.
   */
  function FrameStepCorrected(stream: seq<byte>, bufferSize: int, bufferLength: nat): (s: Step)
    ensures s.Yield? ==> 0 < s.consumed <= |stream|
  {
    match ReadVarintSpec(stream, bufferLength)
    case BufferOverflow => Stop(PrefixTooLong)
    case EndOfStream => Stop(StreamEnded)
    case Varint(size, offset) =>
      if size < 0 || size > bufferSize then Stop(Oversized(size))
      else if offset + size > |stream| then Stop(StreamEnded)
      else Yield(stream[offset..offset + size], offset + size)
  }

  /** The intended loop: its turns repeated until one stops. */
  function FramesCorrected(stream: seq<byte>, bufferSize: int, bufferLength: nat): FrameRun
    decreases |stream|
  {
    match FrameStepCorrected(stream, bufferSize, bufferLength)
    case Stop(reason) => FrameRun([], reason)
    case Yield(body, consumed) =>
      var rest := FramesCorrected(stream[consumed..], bufferSize, bufferLength);
      FrameRun([body] + rest.frames, rest.stop)
  }

  /** One frame on the wire: the encoded body length, then the body. */
  function Frame(body: seq<byte>): seq<byte> {
    Encode(|body|) + body
  }

  /** A sequence of frames back to back. */
  function Wire(bodies: seq<seq<byte>>): seq<byte> {
    if bodies == [] then [] else Frame(bodies[0]) + Wire(bodies[1..])
  }

  /** Splitting the first frame off a wire. */
  lemma WireSplit(bodies: seq<seq<byte>>)
    requires bodies != []
    ensures var w := Wire(bodies); var e := Encode(|bodies[0]|);
      && w == e + (bodies[0] + Wire(bodies[1..]))
      && w[|e|..|e| + |bodies[0]|] == bodies[0]
      && w[|e| + |bodies[0]|..] == Wire(bodies[1..])
  {
    var e := Encode(|bodies[0]|);
    var w := Wire(bodies);
    assert w == e + bodies[0] + Wire(bodies[1..]);
    assert w[|e|..|e| + |bodies[0]|] == bodies[0];
  }

  /**
   * Frame round trip for the intended loop: back-to-back frames with bodies up to the
   * buffer size come out as exactly those bodies, and the loop stops at the end of the stream.
   */
  lemma {:induction false} FramesCorrectedRoundTrip(bodies: seq<seq<byte>>, bufferSize: int, bufferLength: nat)
    requires 0 < bufferSize <= bufferLength && bufferSize < 0x8000_0000
    requires forall i :: 0 <= i < |bodies| ==> |bodies[i]| <= bufferSize
    ensures FramesCorrected(Wire(bodies), bufferSize, bufferLength) == FrameRun(bodies, StreamEnded)
    decreases |bodies|
  {
    if bodies == [] {
      assert ReadVarintSpec([], bufferLength) == EndOfStream;
    } else {
      var n := |bodies[0]|;
      WireSplit(bodies);
      assert Pow128(5) == 0x8_0000_0000;
      EncodeLength(n, 5);
      ReadEncoded(n, bodies[0] + Wire(bodies[1..]), bufferLength);
      FramesCorrectedRoundTrip(bodies[1..], bufferSize, bufferLength);
      assert [bodies[0]] + bodies[1..] == bodies;
    }
  }

  /**
   * The loop as written frames correctly only while every whole frame, prefix included,
   * fits the buffer.
   */
  lemma {:induction false} FramesRoundTrip(bodies: seq<seq<byte>>, bufferSize: int, bufferLength: nat)
    requires 0 <= bufferSize <= bufferLength && 0 < bufferLength && bufferSize < 0x8000_0000
    requires forall i :: 0 <= i < |bodies| ==> |bodies[i]| <= bufferSize && |Frame(bodies[i])| <= bufferLength
    ensures Frames(Wire(bodies), bufferSize, bufferLength) == FrameRun(bodies, StreamEnded)
    decreases |bodies|
  {
    if bodies == [] {
      assert ReadVarintSpec([], bufferLength) == EndOfStream;
    } else {
      var n := |bodies[0]|;
      WireSplit(bodies);
      ReadEncoded(n, bodies[0] + Wire(bodies[1..]), bufferLength);
      FramesRoundTrip(bodies[1..], bufferSize, bufferLength);
      assert [bodies[0]] + bodies[1..] == bodies;
    }
  }

  /**
   * With the default buffer size of 4096 and a rented array of exactly that length, a
   * frame of 4096 bytes passes the size check but its body cannot be sliced after its
   * two-byte prefix: the enumeration throws instead of yielding it. The intended loop yields it.
   */
  lemma FullSizeFrameRejected()
    ensures |Encode(4096)| == 2
    ensures Frames(Frame(seq(4096, _ => 0 as byte)), 4096, 4096) == FrameRun([], SliceOutOfRange)
    ensures FramesCorrected(Frame(seq(4096, _ => 0 as byte)), 4096, 4096).frames == [seq(4096, _ => 0 as byte)]
  {
    var body := seq(4096, _ => 0 as byte);
    assert Encode(4096) == [128 as byte, 32 as byte];
    ReadEncoded(4096, body, 4096);
    assert Frame(body) == Wire([body]);
    FramesCorrectedRoundTrip([body], 4096, 4096);
  }

  /** Nothing past an oversized or malformed size is ever yielded: such a stop comes with no body. */
  lemma {:induction false} StopsYieldNothingAfter(stream: seq<byte>, bufferSize: int, bufferLength: nat)
    requires ReadVarintSpec(stream, bufferLength).Varint?
    requires ReadVarintSpec(stream, bufferLength).packetSize > bufferSize
    ensures Frames(stream, bufferSize, bufferLength) == FrameRun([], Oversized(ReadVarintSpec(stream, bufferLength).packetSize))
  {
  }

  /** Every body the loop yields fits the configured buffer size, and the yielded bytes never exceed the stream. */
  lemma {:induction false} FramesBounded(stream: seq<byte>, bufferSize: int, bufferLength: nat)
    ensures forall i :: 0 <= i < |Frames(stream, bufferSize, bufferLength).frames| ==>
              |Frames(stream, bufferSize, bufferLength).frames[i]| <= bufferSize
    ensures |Frames(stream, bufferSize, bufferLength).frames| <= |stream|
    decreases |stream|
  {
    match FrameStep(stream, bufferSize, bufferLength)
    case Stop(_) =>
    case Yield(body, consumed) =>
      FramesBounded(stream[consumed..], bufferSize, bufferLength);
      var next := Frames(stream[consumed..], bufferSize, bufferLength);
      assert Frames(stream, bufferSize, bufferLength).frames == [body] + next.frames;
  }

  // ---------------------------------------------------------------- packet-type table and Read

  /** A packet class handed to the constructor: its name and its static `NetworkPacketType` field, if any. */
  datatype PacketTypeDecl = PacketTypeDecl(name: string, typeField: Option<u16>)

  /** The constructor's exceptions. */
  datatype TableError =
    | MissingTypeField(name: string)   // logged, then a NullReferenceException
    | DuplicateType(id: u16)           // ArgumentException from Dictionary.Add

  /** The reader once built: its buffer size and `_packetTypes`, type id to packet class. */
  datatype Reader = Reader(bufferSize: int, packetTypes: map<u16, string>)

  /** The table the constructor's loop builds from `decls`, or the exception it stops with. */
  function ReaderTable(decls: seq<PacketTypeDecl>): Result<map<u16, string>, TableError>
    decreases |decls|
  {
    if decls == [] then Success(map[])
    else
      var last := decls[|decls| - 1];
      match ReaderTable(decls[..|decls| - 1])
      case Failure(e) => Failure(e)
      case Success(m) =>
        if last.typeField.None? then Failure(MissingTypeField(last.name))
        else if last.typeField.value in m then Failure(DuplicateType(last.typeField.value))
        else Success(m[last.typeField.value := last.name])
  }

  /** Once the constructor has thrown on a prefix of the classes, the remaining ones change nothing. */
  lemma {:induction false} ReaderTableFailureStays(decls: seq<PacketTypeDecl>, i: nat)
    requires i <= |decls| && ReaderTable(decls[..i]).Failure?
    ensures ReaderTable(decls) == ReaderTable(decls[..i])
    decreases |decls| - i
  {
    if i < |decls| {
      assert decls[..i + 1][..i] == decls[..i];
      ReaderTableFailureStays(decls, i + 1);
    } else {
      assert decls[..i] == decls;
    }
  }

  /** The constructor: one `Dictionary.Add` per packet class, in order. */
  method NewReader(bufferSize: int, decls: seq<PacketTypeDecl>) returns (r: Result<Reader, TableError>)
    ensures ReaderTable(decls).Failure? ==> r == Failure(ReaderTable(decls).error)
    ensures ReaderTable(decls).Success? ==> r == Success(Reader(bufferSize, ReaderTable(decls).value))
  {
    var table: map<u16, string> := map[];
    for i := 0 to |decls|
      invariant ReaderTable(decls[..i]) == Success(table)
    {
      assert decls[..i + 1][..i] == decls[..i];
      var d := decls[i];
      if d.typeField.None? {
        ReaderTableFailureStays(decls, i + 1);
        return Failure(MissingTypeField(d.name));
      }
      if d.typeField.value in table {
        ReaderTableFailureStays(decls, i + 1);
        return Failure(DuplicateType(d.typeField.value));
      }
      table := table[d.typeField.value := d.name];
    }
    assert decls[..|decls|] == decls;
    return Success(Reader(bufferSize, table));
  }

  /** Every class declares a `NetworkPacketType` field. */
  ghost predicate AllTyped(decls: seq<PacketTypeDecl>) {
    forall i :: 0 <= i < |decls| ==> decls[i].typeField.Some?
  }

  /** No two classes declare the same type id. */
  ghost predicate DistinctIds(decls: seq<PacketTypeDecl>) {
    forall i, j :: 0 <= i < j < |decls| && decls[i].typeField.Some? ==> decls[i].typeField != decls[j].typeField
  }

  /** A built table maps exactly the declared ids. */
  lemma {:induction false} ReaderTableKeys(decls: seq<PacketTypeDecl>)
    requires ReaderTable(decls).Success?
    ensures forall id :: id in ReaderTable(decls).value <==> exists i :: 0 <= i < |decls| && decls[i].typeField == Some(id)
    decreases |decls|
  {
    if decls != [] {
      var n := |decls| - 1;
      var init := decls[..n];
      ReaderTableKeys(init);
      var m := ReaderTable(init).value;
      var last := decls[n];
      assert ReaderTable(decls).value == m[last.typeField.value := last.name];
      forall id | id in ReaderTable(decls).value
        ensures exists i :: 0 <= i < |decls| && decls[i].typeField == Some(id)
      {
        if id != last.typeField.value {
          var i :| 0 <= i < n && init[i].typeField == Some(id);
          assert decls[i] == init[i];
        }
      }
      forall id | exists i :: 0 <= i < |decls| && decls[i].typeField == Some(id)
        ensures id in ReaderTable(decls).value
      {
        var i :| 0 <= i < |decls| && decls[i].typeField == Some(id);
        if i < n {
          assert init[i] == decls[i];
        }
      }
    }
  }

  /** A built table maps each declared id to the class that declares it. */
  lemma {:induction false} ReaderTableValues(decls: seq<PacketTypeDecl>)
    requires ReaderTable(decls).Success?
    ensures forall i :: 0 <= i < |decls| ==>
      && decls[i].typeField.Some?
      && decls[i].typeField.value in ReaderTable(decls).value
      && ReaderTable(decls).value[decls[i].typeField.value] == decls[i].name
    decreases |decls|
  {
    if decls != [] {
      var n := |decls| - 1;
      var init := decls[..n];
      ReaderTableValues(init);
      var m := ReaderTable(init).value;
      var last := decls[n];
      assert ReaderTable(decls).value == m[last.typeField.value := last.name];
      forall i | 0 <= i < n
        ensures && decls[i].typeField.Some?
                && decls[i].typeField.value in ReaderTable(decls).value
                && ReaderTable(decls).value[decls[i].typeField.value] == decls[i].name
      {
        assert init[i] == decls[i];
      }
    }
  }

  /** Both halves of what a built table holds. */
  lemma ReaderTableContents(decls: seq<PacketTypeDecl>)
    requires ReaderTable(decls).Success?
    ensures forall id :: id in ReaderTable(decls).value <==> exists i :: 0 <= i < |decls| && decls[i].typeField == Some(id)
    ensures forall i :: 0 <= i < |decls| ==>
      && decls[i].typeField.Some?
      && decls[i].typeField.value in ReaderTable(decls).value
      && ReaderTable(decls).value[decls[i].typeField.value] == decls[i].name
  {
    ReaderTableKeys(decls);
    ReaderTableValues(decls);
  }

  /** The constructor succeeds exactly when every class has a type field and no id repeats. */
  lemma {:induction false} ReaderTableSucceeds(decls: seq<PacketTypeDecl>)
    ensures ReaderTable(decls).Success? <==> AllTyped(decls) && DistinctIds(decls)
    decreases |decls|
  {
    if decls != [] {
      var n := |decls| - 1;
      var init := decls[..n];
      var last := decls[n];
      ReaderTableSucceeds(init);
      assert forall i :: 0 <= i < n ==> init[i] == decls[i];
      if ReaderTable(init).Success? {
        ReaderTableKeys(init);
        if last.typeField.Some? && last.typeField.value in ReaderTable(init).value {
          var i :| 0 <= i < n && init[i].typeField == last.typeField;
          assert decls[i].typeField == decls[n].typeField;
        }
      } else if AllTyped(init) {
        assert !DistinctIds(init);
      }
    }
  }

  /** The payload bytes `Read` hands to the decoder; a null array is read as empty memory. */
  function PayloadBytes(p: NetworkPacket): seq<byte> {
    if p.payload.Some? then p.payload.value else []
  }

  /** `Read`: null for a type id not in the table, otherwise that class's decoder applied to the payload. */
  function Read<P>(reader: Reader, packet: NetworkPacket, deserialize: (string, seq<byte>) -> P): (r: Option<P>)
    ensures r.None? <==> packet.header.packetType !in reader.packetTypes
    ensures r.Some? ==> r.value == deserialize(reader.packetTypes[packet.header.packetType], PayloadBytes(packet))
  {
    if packet.header.packetType in reader.packetTypes then
      Some(deserialize(reader.packetTypes[packet.header.packetType], PayloadBytes(packet)))
    else None
  }

  /** On a reader built from `decls`, `Read` returns null exactly for the ids no class declared. */
  lemma ReadOnBuiltReader<P>(bufferSize: int, decls: seq<PacketTypeDecl>, packet: NetworkPacket, deserialize: (string, seq<byte>) -> P)
    requires ReaderTable(decls).Success?
    ensures var r := Read(Reader(bufferSize, ReaderTable(decls).value), packet, deserialize);
      && (r.None? <==> forall i :: 0 <= i < |decls| ==> decls[i].typeField != Some(packet.header.packetType))
      && (forall i :: 0 <= i < |decls| && decls[i].typeField == Some(packet.header.packetType) ==>
            r == Some(deserialize(decls[i].name, PayloadBytes(packet))))
  {
    ReaderTableContents(decls);
  }
}
