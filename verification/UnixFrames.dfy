/** Messages over a unix stream socket: a four-byte big-endian header whose high bit says that a
    file descriptor comes along, then the payload; read back from arbitrary fragments. */
module UnixFrames {
  import opened Text
  import opened Words

  const HIGH_BIT := 0x8000_0000
  const TWO_32 := 0x1_0000_0000

  /** A message: its payload and at most one descriptor. */
  datatype Frame = Frame(data: seq<Octet>, fd: Option<nat>)

  // ---------- header ----------

  /** makeHeader: the length is first converted to uint32, and then compared. */
  function MakeHeader(len: nat, hasFd: bool): Option<seq<Octet>> {
    var length := len % TWO_32;
    if length > 0x7fff_ffff then None
    else Some(BigEndian(if hasFd then length + HIGH_BIT else length))
  }

  function ParseHeader(h: seq<Octet>): (int, bool)
    requires |h| == 4
  {
    var v := Value(h);
    if v >= HIGH_BIT then (v - HIGH_BIT, true) else (v, false)
  }

  /** The length, most significant octet first, with the highest bit of the first octet for a descriptor. */
  lemma HeaderOctets(len: nat, hasFd: bool)
    requires len <= 0x7fff_ffff
    ensures MakeHeader(len, hasFd).Some?
    ensures var h := MakeHeader(len, hasFd).value;
      |h| == 4 && h[0] as int == len / 0x100_0000 + (if hasFd then 0x80 else 0)
      && h[1] as int == len / 0x1_0000 % 0x100 && h[2] as int == len / 0x100 % 0x100 && h[3] as int == len % 0x100
  {
    var q := BigEndian(len);
    HighBit(len);
    assert q == [len / 0x100_0000, len / 0x1_0000 % 0x100, len / 0x100 % 0x100, len % 0x100];
    assert len % TWO_32 == len;
    hide BigEndian;
    assert MakeHeader(len, hasFd) == Some(if hasFd then [q[0] + 128] + q[1..] else q);
  }

  /** Parsing inverts making exactly for payloads below 2^31 bytes: a header is refused when the
      length modulo 2^32 needs the high bit, and carries a shorter length from 2^32 on. */
  lemma HeaderFaithfulIff(len: nat, hasFd: bool)
    ensures MakeHeader(len, hasFd) == None <==> len % TWO_32 > 0x7fff_ffff
    ensures MakeHeader(len, hasFd).Some? ==> |MakeHeader(len, hasFd).value| == 4
    ensures MakeHeader(len, hasFd).Some? ==> ParseHeader(MakeHeader(len, hasFd).value) == (len % TWO_32, hasFd)
    ensures len <= 0x7fff_ffff
      <==> MakeHeader(len, hasFd).Some? && ParseHeader(MakeHeader(len, hasFd).value) == (len, hasFd)
  {
    var length := len % TWO_32;
    assert len <= 0x7fff_ffff ==> length == len;
    if length <= 0x7fff_ffff {
      BigEndianRoundTrip(if hasFd then length + HIGH_BIT else length, [0, 0, 0, 0]);
      hide Value, BigEndian;
    }
  }

  // ---------- the wire ----------

  /** A byte in flight, and the descriptor the kernel delivers with it. */
  datatype Cell = Cell(b: Octet, fd: Option<nat>)

  function Plain(bs: seq<Octet>): seq<Cell> {
    seq(|bs|, i requires 0 <= i < |bs| => Cell(bs[i], None))
  }

  /** What sending a frame puts on the wire: the descriptor goes with the first header byte. */
  function FrameCells(f: Frame): seq<Cell>
    requires |f.data| <= 0x7fff_ffff
  {
    var h := MakeHeader(|f.data|, f.fd.Some?).value;
    [Cell(h[0], f.fd)] + Plain(h[1..]) + Plain(f.data)
  }

  ghost predicate Sendable(queue: seq<Frame>) {
    forall i :: 0 <= i < |queue| ==> |queue[i].data| <= 0x7fff_ffff
  }

  function Cells(queue: seq<Frame>): seq<Cell>
    requires Sendable(queue)
  {
    if queue == [] then [] else FrameCells(queue[0]) + Cells(queue[1..])
  }

  lemma {:induction false} CellsAppend(queue: seq<Frame>, f: Frame)
    requires Sendable(queue) && |f.data| <= 0x7fff_ffff
    ensures Cells(queue + [f]) == Cells(queue) + FrameCells(f)
  {
    hide FrameCells;
    if queue == [] {
      assert queue + [f] == [f] && [f][1..] == [];
      assert FrameCells(f) + Cells([]) == FrameCells(f);
    } else {
      CellsAppend(queue[1..], f);
      assert (queue + [f])[1..] == queue[1..] + [f] && (queue + [f])[0] == queue[0];
    }
  }

  function FdList(fd: Option<nat>): seq<nat> {
    if fd.Some? then [fd.value] else []
  }

  /** The first descriptor among the cells of one read; extractFd closes any other. */
  function FirstFd(cells: seq<Cell>): Option<nat> {
    if cells == [] then None else if cells[0].fd.Some? then cells[0].fd else FirstFd(cells[1..])
  }

  lemma {:induction false} NoFd(cells: seq<Cell>)
    requires forall i :: 0 <= i < |cells| ==> cells[i].fd == None
    ensures FirstFd(cells) == None
  {
    if cells != [] { NoFd(cells[1..]); }
  }

  /** The cells of the frame in front: its header, its payload, and its only descriptor. */
  lemma FrontFrame(f: Frame, rest: seq<Cell>)
    requires |f.data| <= 0x7fff_ffff
    ensures var all, n := FrameCells(f) + rest, |f.data|;
      && |all| >= 4 + n
      && ParseHeader([all[0].b, all[1].b, all[2].b, all[3].b]) == (n, f.fd.Some?)
      && all[0].fd == f.fd
      && (forall i :: 1 <= i < 4 + n ==> all[i].fd == None)
      && (forall i :: 0 <= i < n ==> all[4 + i].b == f.data[i])
      && all[4 + n..] == rest
  {
    HeaderFaithfulIff(|f.data|, f.fd.Some?);
    var h := MakeHeader(|f.data|, f.fd.Some?).value;
    assert [h[0], h[1], h[2], h[3]] == h;
  }

  datatype Outcome = Message(f: Frame) | NoDescriptor | Closed

  class UnixConn {
    /** What the peer has written and this side has not read, the received descriptors not yet
        given to a message, and the messages in flight. */
    var wire: seq<Cell>
    var fds: seq<nat>
    ghost var queue: seq<Frame>

    ghost predicate Valid()
      reads this
    {
      Sendable(queue) && wire == Cells(queue) && fds == []
    }

    constructor ()
      ensures Valid() && queue == []
    {
      wire, fds, queue := [], [], [];
    }

    /** net.Conn.Write: some nonempty part of what is offered. */
    method Write(bs: seq<Octet>) returns (wrote: nat)
      requires bs != []
      modifies this`wire
      ensures 1 <= wrote <= |bs| && wire == old(wire) + Plain(bs[..wrote])
    {
      wrote :| 1 <= wrote <= |bs|;
      wire := wire + Plain(bs[..wrote]);
    }

    method WriteAll(bs: seq<Octet>, from: nat)
      requires from <= |bs|
      modifies this`wire
      ensures wire == old(wire) + Plain(bs[from..])
    {
      var written := from;
      assert bs[from..from] == [];
      while written < |bs|
        invariant from <= written <= |bs| && wire == old(wire) + Plain(bs[from..written])
        decreases |bs| - written
      {
        var wrote := Write(bs[written..]);
        assert bs[from..written] + bs[written..][..wrote] == bs[from..written + wrote];
        PlainConcat(bs[from..written], bs[written..][..wrote]);
        written := written + wrote;
      }
      assert bs[from..written] == bs[from..];
    }

    /** The peer's sendUnix.  Below 2^31 bytes a message joins the queue; above, either nothing
        is sent or a header that does not fit the payload. */
    method Send(f: Frame) returns (ok: bool)
      requires Valid()
      modifies this
      ensures ok <==> |f.data| % TWO_32 <= 0x7fff_ffff
      ensures |f.data| <= 0x7fff_ffff ==> Valid() && queue == old(queue) + [f]
      ensures !ok ==> Valid() && queue == old(queue)
    {
      hide MakeHeader, FrameCells, Cells, Plain, ParseHeader;
      HeaderFaithfulIff(|f.data|, f.fd.Some?);
      var h := MakeHeader(|f.data|, f.fd.Some?);
      if h.None? {
        return false;
      }
      var header, written := h.value, 0;
      if f.fd.Some? {
        wire := wire + [Cell(header[0], f.fd)];
        written := 1;
      }
      WriteAll(header, written);
      WriteAll(f.data, 0);
      assert f.data[0..] == f.data;
      HeaderCells(old(wire), header, f.fd, f.data);
      if |f.data| <= 0x7fff_ffff {
        SentCells(f);
        queue := queue + [f];
        CellsAppend(old(queue), f);
      }
      return true;
    }

    /** receiveUnix: some nonempty part of what is there and fits, with its descriptor. */
    method ReceiveUnix(buf: array<Octet>, at: nat) returns (n: nat)
      requires at < buf.Length && wire != []
      requires forall i, j :: 0 <= i < j < |wire| && j < buf.Length - at ==> wire[i].fd == None || wire[j].fd == None
      requires fds == [] || forall i :: 0 <= i < |wire| && i < buf.Length - at ==> wire[i].fd == None
      requires |fds| <= 1
      modifies this`wire, this`fds, buf
      ensures 1 <= n <= buf.Length - at && n <= |old(wire)| && wire == old(wire)[n..]
      ensures forall i :: 0 <= i < buf.Length ==>
        buf[i] == if at <= i < at + n then old(wire)[i - at].b else old(buf[i])
      ensures fds == old(fds) + FdList(FirstFd(old(wire)[..n]))
      ensures |fds| <= 1
    {
      n :| 1 <= n <= buf.Length - at && n <= |wire|;
      var got := wire[..n];
      forall i | 0 <= i < n {
        buf[at + i] := got[i].b;
      }
      if fds != [] { NoFd(got); }
      fds := fds + FdList(FirstFd(got));
      wire := wire[n..];
    }

    /** Fill buf from the socket. */
    method Fill(buf: array<Octet>)
      requires |wire| >= buf.Length && |fds| <= 1
      requires forall i :: 1 <= i < buf.Length ==> wire[i].fd == None
      requires buf.Length > 0 && wire[0].fd.Some? ==> fds == []
      modifies this`wire, this`fds, buf
      ensures wire == old(wire)[buf.Length..] && |fds| <= 1
      ensures forall i :: 0 <= i < buf.Length ==> buf[i] == old(wire)[i].b
      ensures fds == old(fds) + (if buf.Length > 0 then FdList(old(wire)[0].fd) else [])
    {
      ghost var all := wire;
      var nRead := 0;
      while nRead < buf.Length
        invariant nRead <= buf.Length && wire == all[nRead..] && |fds| <= 1
        invariant forall i :: 0 <= i < nRead ==> buf[i] == all[i].b
        invariant fds == old(fds) + (if nRead > 0 then FdList(all[0].fd) else [])
        decreases buf.Length - nRead
      {
        var n := ReceiveUnix(buf, nRead);
        if nRead > 0 { NoFd(all[nRead..][..n]); } else { HeadFd(all, n); }
        assert all[nRead..][n..] == all[nRead + n..];
        nRead := nRead + n;
      }
    }

    /** The next message, however the bytes arrive. */
    method Receive() returns (r: Outcome)
      requires Valid()
      modifies this
      ensures Valid()
      ensures old(queue) == [] ==> r == Closed && queue == []
      ensures old(queue) != [] ==> r == Message(old(queue)[0]) && queue == old(queue)[1..]
    {
      if wire == [] {
        EmptyWire(queue);
        return Closed;
      }
      ghost var front, rest := queue[0], Cells(queue[1..]);
      assert wire == FrameCells(front) + rest;
      hide FrameCells, Cells, MakeHeader, ParseHeader;
      FrontFrame(front, rest);
      ghost var all := wire;
      var header := new Octet[4];
      Fill(header);
      assert header[..] == [all[0].b, all[1].b, all[2].b, all[3].b];
      var (length, hasFd) := ParseHeader(header[..]);
      var f: Option<nat> := None;
      if hasFd {
        if fds == [] {
          return NoDescriptor;
        }
        f := Some(fds[0]);
        fds := fds[1..];
      }
      var data := new Octet[length];
      assert forall i :: 0 <= i < length ==> wire[i] == all[4 + i];
      Fill(data);
      queue := queue[1..];
      assert wire == all[4 + length..];
      assert data[..] == front.data;
      return Message(Frame(data[..], f));
    }
  }

  lemma SentCells(f: Frame)
    requires |f.data| <= 0x7fff_ffff
    ensures MakeHeader(|f.data|, f.fd.Some?).Some?
    ensures var h := MakeHeader(|f.data|, f.fd.Some?).value;
      FrameCells(f) == [Cell(h[0], f.fd)] + Plain(h[1..]) + Plain(f.data)
  {
  }

  /** With a descriptor the first header byte is written apart from the rest. */
  lemma HeaderCells(before: seq<Cell>, h: seq<Octet>, fd: Option<nat>, data: seq<Octet>)
    requires |h| == 4
    ensures (if fd.Some? then before + [Cell(h[0], fd)] + Plain(h[1..]) else before + Plain(h[0..])) + Plain(data)
         == before + ([Cell(h[0], fd)] + Plain(h[1..]) + Plain(data))
  {
    if fd.None? {
      assert h[0..] == [h[0]] + h[1..];
      assert Plain(h[0..]) == [Cell(h[0], None)] + Plain(h[1..]);
    }
  }

  lemma HeadFd(all: seq<Cell>, n: nat)
    requires 1 <= n <= |all| && forall i :: 1 <= i < n ==> all[i].fd == None
    ensures FirstFd(all[0..][..n]) == all[0].fd
  {
    var got := all[0..][..n];
    NoFd(got[1..]);
  }

  lemma EmptyWire(queue: seq<Frame>)
    requires Sendable(queue) && Cells(queue) == []
    ensures queue == []
  {
  }

  /** Any messages sent one after the other arrive as they were sent, descriptors included. */
  method Exchange(messages: seq<Frame>) returns (received: seq<Frame>)
    requires Sendable(messages)
    ensures received == messages
  {
    var conn := new UnixConn();
    for i := 0 to |messages|
      invariant conn.Valid() && conn.queue == messages[..i]
    {
      var ok := conn.Send(messages[i]);
    }
    received := [];
    for i := 0 to |messages|
      invariant conn.Valid() && conn.queue == messages[i..] && received == messages[..i]
    {
      var r := conn.Receive();
      received := received + [r.f];
    }
  }

  lemma PlainConcat(a: seq<Octet>, b: seq<Octet>)
    ensures Plain(a + b) == Plain(a) + Plain(b)
  {
  }
}
