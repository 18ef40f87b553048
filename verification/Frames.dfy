/** Length-prefixed frames over a byte stream that arrives in arbitrary pieces. */
module Frames {
  import opened Wrappers
  import opened Arith
  import opened Octets
  import opened Residues
  import opened Scalars

  predicate Sendable(body: seq<uint8>) {
    |body| < WORD
  }

  predicate AllSendable(bodies: seq<seq<uint8>>) {
    forall i :: 0 <= i < |bodies| ==> Sendable(bodies[i])
  }

  /** Four big-endian bytes of length, then the body. */
  function Frame(body: seq<uint8>): seq<uint8> {
    BytesOf(|body|, 4) + body
  }

  function Stream(bodies: seq<seq<uint8>>): seq<uint8> {
    if |bodies| == 0 then [] else Frame(bodies[0]) + Stream(bodies[1..])
  }

  lemma HeaderReads(n: nat)
    requires n < WORD
    ensures |BytesOf(n, 4)| == 4 && IntOf(BytesOf(n, 4)) == n
  {
    assert Pow(256, 1) == 256 && Pow(256, 2) == 65536;
    PowAdd(256, 2, 2);
    IntOfBytesOf(n, 4);
  }

  lemma {:induction false} StreamSnoc(bodies: seq<seq<uint8>>, body: seq<uint8>)
    ensures Stream(bodies + [body]) == Stream(bodies) + Frame(body)
  {
    hide Frame;
    if |bodies| == 0 {
      assert (bodies + [body])[1..] == [] && Stream([]) == [];
      assert Frame(body) + [] == Frame(body) && [] + Frame(body) == Frame(body);
    } else {
      assert (bodies + [body])[1..] == bodies[1..] + [body];
      StreamSnoc(bodies[1..], body);
      assert Frame(bodies[0]) + (Stream(bodies[1..]) + Frame(body)) == Stream(bodies) + Frame(body);
    }
  }

  /** The first frame of a stream can be read off in only one way. */
  lemma SameFirst(f: seq<uint8>, tail: seq<uint8>, b: seq<uint8>, rest: seq<uint8>)
    requires Sendable(f) && Sendable(b) && Frame(f) + tail <= Frame(b) + rest
    ensures f == b && tail <= rest
  {
    hide BytesOf;
    HeaderReads(|f|);
    HeaderReads(|b|);
    var s, t := Frame(f) + tail, Frame(b) + rest;
    assert s[..4] == BytesOf(|f|, 4) && t[..4] == BytesOf(|b|, 4) && s[..4] == t[..4];
    assert f == s[4..4 + |f|] && b == t[4..4 + |b|];
    assert tail == s[4 + |f|..] && rest == t[4 + |b|..];
  }

  /** A stream that starts like frames of `front` consists of frames that start with `front`. */
  lemma {:induction false} FramesDetermined(front: seq<seq<uint8>>, rest: seq<uint8>, bodies: seq<seq<uint8>>)
    requires AllSendable(front) && AllSendable(bodies) && Stream(front) + rest <= Stream(bodies)
    ensures front <= bodies
    ensures rest <= Stream(bodies[|front|..])
    decreases |front|
  {
    hide Frame, Sendable;
    if |front| == 0 {
      assert bodies[0..] == bodies;
      assert Stream(front) + rest == rest;
    } else {
      var tail := Stream(front[1..]) + rest;
      assert Stream(front) + rest == Frame(front[0]) + tail;
      FrameLength(front[0]);
      var b := FirstBody(bodies);
      SameFirst(front[0], tail, b, Stream(bodies[1..]));
      FramesDetermined(front[1..], rest, bodies[1..]);
      assert bodies[1..][|front| - 1..] == bodies[|front|..];
      assert front == [b] + front[1..] && bodies == [b] + bodies[1..];
    }
  }

  lemma FrameLength(f: seq<uint8>)
    ensures |Frame(f)| == 4 + |f|
  {
    hide BytesOf;
  }

  lemma FirstBody(bodies: seq<seq<uint8>>) returns (b: seq<uint8>)
    requires |Stream(bodies)| > 0
    ensures |bodies| > 0 && b == bodies[0] && Stream(bodies) == Frame(b) + Stream(bodies[1..])
  {
    b := bodies[0];
  }

  function Flat(chunks: seq<seq<uint8>>): seq<uint8> {
    if |chunks| == 0 then [] else chunks[0] + Flat(chunks[1..])
  }

  lemma {:induction false} FlatSnoc(chunks: seq<seq<uint8>>, c: seq<uint8>)
    ensures Flat(chunks + [c]) == Flat(chunks) + c
  {
    if |chunks| == 0 {
      assert (chunks + [c])[1..] == [] && Flat([]) == [];
      assert c + [] == c && [] + c == c;
    } else {
      assert (chunks + [c])[1..] == chunks[1..] + [c];
      FlatSnoc(chunks[1..], c);
      assert chunks[0] + (Flat(chunks[1..]) + c) == Flat(chunks) + c;
    }
  }

  /** A prefix of the first chunk, and what is left. */
  lemma FlatSplit(chunks: seq<seq<uint8>>, take: nat)
    requires |chunks| > 0 && take <= |chunks[0]|
    ensures Flat(chunks) == chunks[0][..take] + Flat([chunks[0][take..]] + chunks[1..])
    ensures take == |chunks[0]| ==> Flat(chunks) == chunks[0][..take] + Flat(chunks[1..])
  {
    var c := chunks[0];
    assert ([c[take..]] + chunks[1..])[1..] == chunks[1..];
    assert c == c[..take] + c[take..];
  }

  lemma FlatNonempty(chunks: seq<seq<uint8>>)
    ensures |Flat(chunks)| > 0 ==> |chunks| > 0
  {}

  // ---- the client ----------------------------------------------------------------------------

  /** Where a read stands: not begun, waiting for bytes to arrive, released but not yet resumed, or failed. The bytes
      required belong to the header or to the body. */
  datatype Phase = Idle | Waiting(required: nat, body: bool) | Ready(required: nat, body: bool) | Rejected

  class FramedSocket {
    var chunks: seq<seq<uint8>>
    var bufferedLength: nat
    var ended: bool
    var phase: Phase
    ghost var received: seq<uint8>
    ghost var delivered: seq<seq<uint8>>
    ghost var header: seq<uint8>

    ghost function Contents(): seq<uint8>
      reads this
    {
      Flat(chunks)
    }

    /** What arrived is what was delivered, the header of the body now read, and what is buffered. */
    ghost predicate Valid()
      reads this
    {
      && bufferedLength == |Contents()| && AllSendable(delivered)
      && received == Stream(delivered) + header + Contents()
      && match phase
         case Idle => header == []
         case Waiting(required, body) => required > bufferedLength && HeaderFits(required, body)
         case Ready(required, body) => required <= bufferedLength && HeaderFits(required, body)
         case Rejected => true
    }

    ghost predicate HeaderFits(required: nat, body: bool)
      reads this
    {
      if body then required < WORD && header == BytesOf(required, 4) else required == 4 && header == []
    }

    constructor ()
      ensures Valid() && phase == Idle && !ended && received == [] && delivered == []
    {
      chunks, bufferedLength, ended, phase := [], 0, false, Idle;
      received, delivered, header := [], [], [];
      new;
      assert [] == Stream(delivered) + header + Contents();
    }

    /** The 'data' event; it releases a read that waits for no more than is now there. */
    method OnData(chunk: seq<uint8>)
      requires Valid() && !ended
      modifies this
      ensures Valid() && ended == old(ended)
      ensures received == old(received) + chunk && delivered == old(delivered) && Contents() == old(Contents()) + chunk
      ensures phase == match old(phase)
                       case Waiting(n, body) => if |Contents()| >= n then Ready(n, body) else old(phase)
                       case _ => old(phase)
    {
      FlatSnoc(chunks, chunk);
      assert received + chunk == Stream(delivered) + header + (Contents() + chunk);
      chunks := chunks + [chunk];
      bufferedLength := bufferedLength + |chunk|;
      received := received + chunk;
      if phase.Waiting? && bufferedLength >= phase.required {
        phase := Ready(phase.required, phase.body);
      }
    }

    /** The 'end' event; it fails a read that waits. */
    method OnEnd()
      requires Valid()
      modifies this`ended, this`phase
      ensures Valid() && ended && phase == if old(phase).Waiting? then Rejected else old(phase)
    {
      ended := true;
      if phase.Waiting? { phase := Rejected; }
    }

    /** waitForBytes: a promise that only later events can settle, unless the bytes are there. */
    method WaitForBytes(required: nat, body: bool)
      modifies this`phase
      ensures phase == if bufferedLength >= required then Ready(required, body) else Waiting(required, body)
    {
      phase := if bufferedLength >= required then Ready(required, body) else Waiting(required, body);
    }

    /** consume: takes bytes off the front, splitting the last chunk it needs. */
    method Consume(size: nat) returns (out: seq<uint8>)
      requires bufferedLength == |Contents()| && size <= bufferedLength
      modifies this`chunks, this`bufferedLength
      ensures bufferedLength == |Contents()| && old(Contents()) == out + Contents() && |out| == size
    {
      hide Flat;
      var remaining := size;
      out := [];
      while remaining > 0
        invariant 0 <= remaining <= bufferedLength == |Contents()| && |out| + remaining == size
        invariant old(Contents()) == out + Contents()
        decreases remaining, |chunks|
      {
        FlatNonempty(chunks);
        var chunk := chunks[0];
        var take := if remaining <= |chunk| then remaining else |chunk|;
        FlatSplit(chunks, take);
        ghost var rest := if take == |chunk| then chunks[1..] else [chunk[take..]] + chunks[1..];
        assert out + Flat(chunks) == (out + chunk[..take]) + Flat(rest);
        out := out + chunk[..take];
        if take == |chunk| {
          chunks := chunks[1..];
        } else {
          chunks := [chunk[take..]] + chunks[1..];
        }
        remaining := remaining - take;
        bufferedLength := bufferedLength - take;
      }
    }

    /** read, up to its first suspension. After the peer has closed it hangs unless the header is buffered. */
    method Read()
      requires Valid() && phase == Idle
      modifies this`phase
      ensures Valid() && !phase.Idle? && !phase.Rejected?
      ensures Hung() <==> ended && bufferedLength < 4
    {
      WaitForBytes(4, false);
    }

    /** read, from one suspension to the next: takes the header and waits for the body, or takes the body. */
    method Resume() returns (body: Option<seq<uint8>>)
      requires Valid() && phase.Ready?
      modifies this
      ensures Valid() && received == old(received) && ended == old(ended)
      ensures old(phase.body) ==> body.Some? && delivered == old(delivered) + [body.value] && phase == Idle
      ensures old(phase.body) ==> TakeFrame(old(header) + old(Contents())) == Some((body.value, Contents()))
      ensures !old(phase.body) ==> body.None? && delivered == old(delivered) && (phase.Waiting? || phase.Ready?)
      ensures !old(phase.body) ==> |old(Contents())| >= 4
      ensures Hung() <==>
        ended && !old(phase.body) && |old(Contents())| < 4 + IntOf(old(Contents())[..4])
    {
      hide BytesOf, Frame, IntOf, Stream, Flat, TakeFrame;
      var out := Consume(phase.required);
      if phase.body {
        FrameTaken(header, out, Contents());
        FrameParts(out, header);
        StreamSnoc(delivered, out);
        assert received == Stream(delivered + [out]) + [] + Contents();
        delivered := delivered + [out];
        header := [];
        phase := Idle;
        return Some(out);
      }
      HeaderOf(out);
      assert received == Stream(delivered) + out + Contents();
      assert out == old(Contents())[..4];
      header := out;
      WaitForBytes(IntOf(out), true);
      return None;
    }

    /** A read that waits after the last event: nothing settles it any more. */
    ghost predicate Hung()
      reads this
    {
      phase.Waiting? && ended
    }

    /** Whatever the pieces: as long as what arrived is a part of a stream of frames, their bodies are delivered in
        order, and nothing behind them is lost. */
    lemma InOrder(bodies: seq<seq<uint8>>)
      requires Valid() && AllSendable(bodies) && received <= Stream(bodies)
      ensures delivered <= bodies
      ensures phase == Idle && received == Stream(bodies) ==> Contents() == Stream(bodies[|delivered|..])
    {
      assert received == Stream(delivered) + (header + Contents());
      FramesDetermined(delivered, header + Contents(), bodies);
      if phase == Idle && received == Stream(bodies) {
        assert header + Contents() == Contents();
        Remainder(delivered, Contents(), bodies);
      }
    }
  }

  lemma FrameTaken(header: seq<uint8>, body: seq<uint8>, rest: seq<uint8>)
    requires Sendable(body) && header == BytesOf(|body|, 4)
    ensures TakeFrame(header + (body + rest)) == Some((body, rest))
  {
    hide BytesOf, IntOf;
    FramedReadBack(body, rest);
    assert body[..|body|] == body && header + (body + rest) == Frame(body) + rest;
  }

  lemma FrameParts(body: seq<uint8>, header: seq<uint8>)
    requires header == BytesOf(|body|, 4)
    ensures Frame(body) == header + body
  {}

  lemma HeaderOf(s: seq<uint8>)
    requires |s| == 4
    ensures 0 <= IntOf(s) < WORD && s == BytesOf(IntOf(s), 4)
  {
    assert Pow(256, 1) == 256 && Pow(256, 2) == 65536;
    PowAdd(256, 2, 2);
    BytesOfIntOf(s);
  }

  lemma {:induction false} Remainder(front: seq<seq<uint8>>, rest: seq<uint8>, bodies: seq<seq<uint8>>)
    requires front <= bodies && Stream(front) + rest == Stream(bodies)
    ensures rest == Stream(bodies[|front|..])
    decreases |front|
  {
    hide Frame;
    if |front| == 0 {
      assert bodies[0..] == bodies && [] + rest == rest;
    } else {
      var tail := Stream(front[1..]) + rest;
      assert Stream(front) + rest == Frame(front[0]) + tail;
      assert Stream(bodies)[|Frame(front[0])|..] == Stream(bodies[1..]);
      assert (Frame(front[0]) + tail)[|Frame(front[0])|..] == tail;
      Remainder(front[1..], rest, bodies[1..]);
      assert bodies[1..][|front| - 1..] == bodies[|front|..];
    }
  }

  /** A read begun after the peer closed: it neither returns nor fails. */
  method HangingRead() returns (s: FramedSocket)
    ensures fresh(s) && s.Valid() && s.Hung()
  {
    s := new FramedSocket();
    s.OnEnd();
    s.Read();
  }

  /** write: the payload handed to the socket; fails for a length that does not fit the header. */
  method ClientWrite(body: seq<uint8>) returns (payload: Option<seq<uint8>>)
    ensures payload == if Sendable(body) then Some(Frame(body)) else None
  {
    if |body| > 0xFFFF_FFFF { return None; }
    var header := FourBigEndian(|body|);
    return Some(header + body);
  }

  method FourBigEndian(size: uint32) returns (header: seq<uint8>)
    ensures header == BytesOf(size, 4)
  {
    header := [size / 0x100_0000 % 0x100, size / 0x10000 % 0x100, size / 0x100 % 0x100, size % 0x100];
    FourBytesOf(size);
  }

  /** A frame starts with four bytes of length, the most significant first. */
  lemma FrameBytes(body: seq<uint8>)
    requires Sendable(body)
    ensures var n := |body|;
      Frame(body) == [n / 0x100_0000, n / 0x10000 % 0x100, n / 0x100 % 0x100, n % 0x100] + body
  {
    hide BytesOf;
    FourBytesOf(|body|);
    DivBounds(|body|, 0x100_0000, 0x100);
    ModOnce(|body| / 0x100_0000, 0x100);
  }

  // ---- the server ----------------------------------------------------------------------------

  /** The first frame of what is still to arrive, if all of it arrives. */
  function TakeFrame(s: seq<uint8>): Option<(seq<uint8>, seq<uint8>)> {
    if |s| < 4 then None
    else
      var size := IntOf(s[..4]);
      if |s| - 4 < size then None else Some((s[4..4 + size], s[4 + size..]))
  }

  /** A connection: what the peer sends before it closes, and what was sent to it. */
  class Connection {
    var incoming: seq<uint8>
    var outgoing: seq<uint8>

    constructor (incoming: seq<uint8>)
      ensures this.incoming == incoming && outgoing == []
    {
      this.incoming, outgoing := incoming, [];
    }

    /** receive: the system call delivers any positive number of bytes, and none once the peer has closed. */
    method Receive(size: nat) returns (data: Option<seq<uint8>>)
      modifies this`incoming
      ensures data == if |old(incoming)| < size then None else Some(old(incoming)[..size])
      ensures data.Some? ==> incoming == old(incoming)[size..]
    {
      var got: seq<uint8> := [];
      while |got| < size
        invariant |got| <= size && got + incoming == old(incoming)
        decreases size - |got|
      {
        if |incoming| == 0 { return None; }
        var n :| 1 <= n <= size - |got| && n <= |incoming|;
        assert got + incoming == (got + incoming[..n]) + incoming[n..];
        got, incoming := got + incoming[..n], incoming[n..];
      }
      return Some(got);
    }

    /** send: the system call accepts any positive number of bytes. */
    method Send(data: seq<uint8>)
      modifies this`outgoing
      ensures outgoing == old(outgoing) + data
    {
      var sent := 0;
      while sent < |data|
        invariant 0 <= sent <= |data| && outgoing == old(outgoing) + data[..sent]
      {
        var n :| 1 <= n <= |data| - sent;
        assert data[..sent + n] == data[..sent] + data[sent..sent + n];
        outgoing, sent := outgoing + data[sent..sent + n], sent + n;
      }
      assert data[..sent] == data;
    }

    /** read_framed */
    method ReadFramed() returns (body: Option<seq<uint8>>)
      modifies this`incoming
      ensures body.Some? <==> TakeFrame(old(incoming)).Some?
      ensures body.Some? ==> TakeFrame(old(incoming)) == Some((body.value, incoming))
    {
      hide IntOf;
      var header := Receive(4);
      if header.None? { return None; }
      HeaderOf(header.value);
      FourToSize(header.value);
      var h := header.value;
      var size: nat := h[0] as int * 0x100_0000 + h[1] as int * 0x10000 + h[2] as int * 0x100 + h[3] as int;
      ghost var s := old(incoming);
      assert s[..4] == h && incoming == s[4..];
      body := Receive(size);
      assert |s| - 4 >= size ==> s[4..][..size] == s[4..4 + size] && s[4..][size..] == s[4 + size..];
    }

    /** write_framed: the length is cut to 32 bits, and only so many bytes follow. */
    method WriteFramed(body: seq<uint8>)
      modifies this`outgoing
      ensures outgoing == old(outgoing) + Frame(body[..|body| % WORD])
    {
      var size := |body| % 0x1_0000_0000;
      var header := FourBigEndian(size);
      Send(header);
      if size > 0 {
        Send(body[..size]);
      }
      assert old(outgoing) + header + body[..size] == old(outgoing) + (header + body[..size]);
    }
  }

  lemma FourToSize(h: seq<uint8>)
    requires |h| == 4
    ensures IntOf(h) == h[0] as int * 0x100_0000 + h[1] as int * 0x10000 + h[2] as int * 0x100 + h[3] as int
  {
    FourBytes(h);
  }

  /** What the server writes is read as one frame with that body, whatever follows, if and only if it is shorter
      than 2^32 bytes. */
  lemma FramedReadBack(body: seq<uint8>, rest: seq<uint8>)
    ensures TakeFrame(Frame(body[..|body| % WORD]) + rest) == Some((body, rest)) <==> Sendable(body)
  {
    hide IntOf, BytesOf;
    var cut := body[..|body| % WORD];
    HeaderReads(|cut|);
    var s := Frame(cut) + rest;
    assert s[..4] == BytesOf(|cut|, 4) && s[4..4 + |cut|] == cut && s[4 + |cut|..] == rest;
    if Sendable(body) { assert cut == body; }
  }

  /** The server takes the frames of a stream one by one, in order. */
  lemma TakesInOrder(bodies: seq<seq<uint8>>)
    requires AllSendable(bodies) && |bodies| > 0
    ensures TakeFrame(Stream(bodies)) == Some((bodies[0], Stream(bodies[1..])))
  {
    hide IntOf, BytesOf;
    FramedReadBack(bodies[0], Stream(bodies[1..]));
    assert bodies[0][..|bodies[0]|] == bodies[0];
  }
}
