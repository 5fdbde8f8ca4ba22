/**
 The INSTREAM session of `ClamAvScanner.scan`: the bytes go out in chunks of at most 64 KiB,
 each behind its length in four bytes, and a zero length ends them. Whatever the length,
 the scanner reads back exactly the bytes of the document.
 */
module ClamAvFraming {
  import opened Prelude

  const CHUNK := 65_536

  function UInt32BE(n: nat): seq<Byte>
    requires n < 0x1_0000_0000
  {
    [(n / 0x100_0000) as Byte, (n / 0x1_0000 % 256) as Byte, (n / 256 % 256) as Byte, (n % 256) as Byte]
  }

  function ReadUInt32BE(b: seq<Byte>): nat
    requires |b| >= 4
  {
    ((b[0] as nat * 256 + b[1] as nat) * 256 + b[2] as nat) * 256 + b[3] as nat
  }

  lemma LengthReadsBack(n: nat, rest: seq<Byte>)
    requires n < 0x1_0000_0000
    ensures ReadUInt32BE(UInt32BE(n) + rest) == n
  {
    assert n / 0x1_0000 == n / 256 / 256 && n / 0x100_0000 == n / 256 / 256 / 256;
  }

  const COMMAND: seq<Byte> := [122, 73, 78, 83, 84, 82, 69, 65, 77, 0]   // zINSTREAM and a zero

  /** The scanner's side: chunks up to a zero length, or nothing when the stream breaks off. */
  function Received(stream: seq<Byte>): Option<seq<Byte>>
    decreases |stream|
  {
    if |stream| < 4 then None
    else
      var length, rest := ReadUInt32BE(stream), stream[4..];
      if length == 0 then (if rest == [] then Some([]) else None)
      else if |rest| < length then None
      else match Received(rest[length..])
        case None => None
        case Some(more) => Some(rest[..length] + more)
  }

  function Frame(chunk: seq<Byte>): seq<Byte>
    requires |chunk| < 0x1_0000_0000
  {
    UInt32BE(|chunk|) + chunk
  }

  lemma {:induction false} FrameIsReceived(chunk: seq<Byte>, rest: seq<Byte>)
    requires 0 < |chunk| < 0x1_0000_0000
    ensures Received(Frame(chunk) + rest)
         == match Received(rest) case None => None case Some(more) => Some(chunk + more)
  {
    var stream := Frame(chunk) + rest;
    assert stream == UInt32BE(|chunk|) + (chunk + rest);
    LengthReadsBack(|chunk|, chunk + rest);
    assert stream[4..] == chunk + rest;
    assert (chunk + rest)[..|chunk|] == chunk && (chunk + rest)[|chunk|..] == rest;
  }

  /** The frames of a document, without the command and the end. */
  function Frames(bytes: seq<Byte>): seq<Byte> {
    if bytes == [] then []
    else if |bytes| <= CHUNK then Frame(bytes)
    else Frame(bytes[..CHUNK]) + Frames(bytes[CHUNK..])
  }

  const END: seq<Byte> := [0, 0, 0, 0]

  lemma {:induction false} DocumentIsReceived(bytes: seq<Byte>)
    ensures Received(Frames(bytes) + END) == Some(bytes)
    decreases |bytes|
  {
    if bytes == [] {
      assert Frames(bytes) + END == END && END[4..] == [];
    } else if |bytes| <= CHUNK {
      FrameIsReceived(bytes, END);
      assert END[4..] == [];
      assert bytes + [] == bytes;
    } else {
      var more := Frames(bytes[CHUNK..]) + END;
      DocumentIsReceived(bytes[CHUNK..]);
      FrameIsReceived(bytes[..CHUNK], more);
      assert Frames(bytes) + END == Frame(bytes[..CHUNK]) + more;
      assert bytes[..CHUNK] + bytes[CHUNK..] == bytes;
    }
  }

  lemma {:induction false} FramesOfMultiple(bytes: seq<Byte>, offset: nat)
    requires offset <= |bytes| && offset % CHUNK == 0
    ensures Frames(bytes) == Frames(bytes[..offset]) + Frames(bytes[offset..])
    decreases offset
  {
    if offset == 0 {
      assert bytes[0..] == bytes && bytes[..0] == [];
    } else if offset == |bytes| {
      assert bytes[..offset] == bytes && bytes[offset..] == [];
      assert Frames(bytes) + [] == Frames(bytes);
    } else {
      FramesOfMultiple(bytes[CHUNK..], offset - CHUNK);
      SlicesOfTail(bytes, offset);
      if offset == CHUNK {
        assert bytes[..offset] == bytes[..CHUNK] && bytes[CHUNK..offset] == [];
      }
    }
  }

  lemma SlicesOfTail(bytes: seq<Byte>, offset: nat)
    requires CHUNK <= offset <= |bytes|
    ensures bytes[CHUNK..][..offset - CHUNK] == bytes[CHUNK..offset] && bytes[CHUNK..][offset - CHUNK..] == bytes[offset..]
    ensures bytes[..offset][..CHUNK] == bytes[..CHUNK] && bytes[..offset][CHUNK..] == bytes[CHUNK..offset]
  {
  }

  /** Where a `subarray` up to `offset` ends. */
  function Clamp(offset: nat, size: nat): nat {
    if offset <= size then offset else size
  }

  lemma NextFrame(bytes: seq<Byte>, offset: nat)
    requires offset < |bytes| && offset % CHUNK == 0
    ensures var end := Clamp(offset + CHUNK, |bytes|);
      && offset < end <= offset + CHUNK && (offset + CHUNK) % CHUNK == 0
      && COMMAND + Frames(bytes[..end])
         == COMMAND + Frames(bytes[..offset]) + UInt32BE(end - offset) + bytes[offset..end]
  {
    var end := Clamp(offset + CHUNK, |bytes|);
    FramesOfMultiple(bytes[..end], offset);
    assert bytes[..end][..offset] == bytes[..offset] && bytes[..end][offset..] == bytes[offset..end];
    NextOffset(offset);
    Regroup(COMMAND, Frames(bytes[..offset]), UInt32BE(end - offset), bytes[offset..end]);
  }

  lemma NextOffset(offset: nat)
    requires offset % CHUNK == 0
    ensures (offset + CHUNK) % CHUNK == 0
  {
  }

  lemma Regroup(a: seq<Byte>, b: seq<Byte>, c: seq<Byte>, d: seq<Byte>)
    ensures a + (b + (c + d)) == a + b + c + d
  {
  }

  lemma {:induction false} SessionIsReceived(bytes: seq<Byte>, session: seq<Byte>)
    requires session == COMMAND + Frames(bytes) + END
    ensures COMMAND <= session && Received(session[|COMMAND|..]) == Some(bytes)
  {
    DocumentIsReceived(bytes);
    assert session == COMMAND + (Frames(bytes) + END);
    assert session[|COMMAND|..] == Frames(bytes) + END;
  }

  /** What is written on the socket; an empty document is refused before it is opened. */
  method Scan(bytes: seq<Byte>) returns (written: Result<seq<Byte>>)
    ensures written.Ok? <==> bytes != []
    ensures written.Ok? ==> COMMAND <= written.value && Received(written.value[|COMMAND|..]) == Some(bytes)
  {
    if |bytes| == 0 {
      return Err("document is empty");
    }
    var socket, offset: nat := COMMAND, 0;
    assert bytes[..0] == [];
    while offset < |bytes|
      invariant offset % CHUNK == 0
      invariant socket == COMMAND + Frames(bytes[..Clamp(offset, |bytes|)])
    {
      var chunk := bytes[offset..Clamp(offset + CHUNK, |bytes|)];
      NextFrame(bytes, offset);
      socket := socket + UInt32BE(|chunk|);
      socket := socket + chunk;
      offset := offset + CHUNK;
    }
    socket := socket + END;
    assert bytes[..|bytes|] == bytes;
    SessionIsReceived(bytes, socket);
    written := Ok(socket);
  }

  // ----- the form of the stream -----

  /** Network byte order: the most significant byte first. */
  lemma LengthsAreBigEndian(n: nat)
    requires n < 0x1_0000_0000
    ensures var b := UInt32BE(n);
      |b| == 4 && n == b[0] as nat * 0x100_0000 + b[1] as nat * 0x1_0000 + b[2] as nat * 256 + b[3] as nat
  {
    assert n / 0x1_0000 == n / 256 / 256 && n / 0x100_0000 == n / 256 / 256 / 256;
  }

  lemma FullFrame(chunk: seq<Byte>, rest: seq<Byte>)
    requires |chunk| <= CHUNK
    ensures |Frame(chunk) + rest| == |chunk| + 4 + |rest| && ReadUInt32BE(Frame(chunk) + rest) == |chunk|
  {
    LengthReadsBack(|chunk|, chunk + rest);
    assert Frame(chunk) + rest == UInt32BE(|chunk|) + (chunk + rest);
  }

  lemma FrameCount(n: nat)
    ensures 0 < n <= 65_536 ==> (n + 65_535) / 65_536 == 1
    ensures n > 65_536 ==> (n + 65_535) / 65_536 == (n - 65_536 + 65_535) / 65_536 + 1
  {
  }

  /** A document takes four bytes more for each 64 KiB begun, and the first frame is as full as it can be. */
  lemma {:induction false} FramesAreFull(bytes: seq<Byte>)
    ensures |Frames(bytes)| == |bytes| + 4 * ((|bytes| + 65_535) / 65_536)
    ensures bytes != [] ==>
      |Frames(bytes)| >= 4 && ReadUInt32BE(Frames(bytes)) == (if |bytes| < 65_536 then |bytes| else 65_536)
    decreases |bytes|
  {
    FrameCount(|bytes|);
    if 0 < |bytes| <= CHUNK {
      FullFrame(bytes, []);
      assert Frames(bytes) == Frame(bytes) + [];
    } else if bytes != [] {
      FramesAreFull(bytes[CHUNK..]);
      FullFrame(bytes[..CHUNK], Frames(bytes[CHUNK..]));
    }
  }
}
