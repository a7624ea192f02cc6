/**
 IPMB packets: the two checksums, how requests and responses are framed, and the
 receiver that repairs a wrong or missing first byte.  `addr` is the byte the
 BMC is addressed by, its slave address shifted left by one; it is not zero.
 */
module IpmbPacket {
  import opened Wrappers

  const PKT_MIN_SIZE := 6
  const DATA_OFFSET := 3
  const MAX_BYTES := 300
  const LEN_MAX := 255   // lengths are 8 bits wide

  function Sum(bs: seq<byte>): nat {
    if bs == [] then 0 else Sum(bs[..|bs| - 1]) + bs[|bs| - 1]
  }

  /** The byte that makes the sum of all bytes zero modulo 256. */
  function Cksum(bs: seq<byte>): byte {
    (256 - Sum(bs) % 256) % 256
  }

  method CalcCksum(buf: array<byte>, from: nat, to: nat) returns (c: byte)
    requires from <= to <= buf.Length
    ensures c == Cksum(buf[from..to])
  {
    var sum: byte := 0;
    for i := from to to
      invariant sum == Sum(buf[from..i]) % 256
    {
      assert buf[from..i + 1] == buf[from..i] + [buf[i]];
      assert buf[from..i + 1][..i - from] == buf[from..i];
      sum := (sum + buf[i]) % 256;
    }
    return (256 - sum) % 256;
  }

  // ----- Receiving -----

  predicate HeaderOk(p: seq<byte>)
    requires |p| >= 3
  {
    p[2] == Cksum(p[..2])
  }

  predicate DataOk(p: seq<byte>)
    requires |p| >= 4
  {
    p[|p| - 1] == Cksum(p[DATA_OFFSET..|p| - 1])
  }

  /** The packet with its first byte put right, if the header can be repaired. */
  function Repair(q: seq<byte>, addr: byte): (r: Option<seq<byte>>)
    requires |q| >= PKT_MIN_SIZE
    ensures r.Some? ==> |r.value| >= |q|
  {
    if HeaderOk(q) then Some(q)
    else if q[0] == addr then None
    else if HeaderOk(q[0 := addr]) then Some(q[0 := addr])
    else if HeaderOk([addr] + q) then Some([addr] + q)
    else None
  }

  /** What the receiver is meant to pass on for the bytes read from the bus. */
  function Intended(q: seq<byte>, addr: byte): Option<seq<byte>> {
    if |q| < PKT_MIN_SIZE then None
    else
      match Repair(q, addr)
      case None => None
      case Some(p) => if DataOk(p) then Some(p) else None
  }

  /** The first byte is put in front of the longest packet there is. */
  predicate Wraps(q: seq<byte>, addr: byte) {
    |q| == LEN_MAX && !HeaderOk(q) && q[0] != addr && !HeaderOk(q[0 := addr]) && HeaderOk([addr] + q)
  }

  /** What it does pass on.  Adding a byte to the longest packet wraps the 8-bit
      length to 0: the data check then sums the 252 bytes that (uint8_t)(0 - 4) says
      and compares with `front`, the byte that happens to lie in front of the
      buffer, and what is passed on is empty. */
  function Receive(q: seq<byte>, addr: byte, front: byte): Option<seq<byte>>
    requires |q| <= LEN_MAX
  {
    if Wraps(q, addr) then if front == Cksum(([addr] + q)[DATA_OFFSET..LEN_MAX]) then Some([]) else None
    else Intended(q, addr)
  }

  /** Fewer than 6 bytes are dropped; a packet whose two parts add up to 0 passes as it is. */
  lemma ReceivesIntact(q: seq<byte>, addr: byte, front: byte)
    requires |q| <= 255
    ensures |q| < 6 ==> Receive(q, addr, front) == None
    ensures |q| >= 6 && (q[0] as int + q[1] as int + q[2] as int) % 256 == 0 && Sum(q[3..]) % 256 == 0 ==>
              Receive(q, addr, front) == Some(q)
  {
    if |q| >= 6 {
      ChecksMean(q);
    }
  }

  /** The receiver does what it is meant to, whatever lies in front of its buffer,
      exactly if it need not lengthen the longest packet. */
  lemma ReceivesAsIntendedIff(q: seq<byte>, addr: byte)
    requires |q| <= LEN_MAX
    ensures (forall front :: Receive(q, addr, front) == Intended(q, addr)) <==>
            |q| < LEN_MAX || HeaderOk(q) || q[0] == addr || HeaderOk(q[0 := addr]) || !HeaderOk([addr] + q)
  {
    if Wraps(q, addr) {
      var front := Cksum(([addr] + q)[DATA_OFFSET..LEN_MAX]);
      assert Receive(q, addr, front) == Some([]) != Intended(q, addr);
    }
  }

  /** A packet of 256 bytes: from requester 2, all else but the checksums zero. */
  function Longest(addr: byte): seq<byte> {
    [addr, 0, Cksum([addr, 0]), 2] + seq(251, _ => 0) + [254]
  }

  /** A packet for the BMC as the sender framed it: header, requester address,
      sequence number, command, and both checksums right. */
  predicate Framed(p: seq<byte>, addr: byte) {
    |p| >= 7 && p[0] == addr && HeaderOk(p) && DataOk(p)
  }

  lemma SumTwo(a: byte, b: byte)
    ensures Sum([a, b]) == a as int + b as int
  {
    assert [a, b][..1] == [a] && [a][..0] == [];
    assert Sum([a]) == a;
  }

  /** Two bytes that complete the same sum to zero are the same. */
  lemma SameComplement(s: nat, x: byte, y: byte)
    requires (s + x) % 256 == 0
    ensures (s + y) % 256 == 0 <==> x == y
  {
  }

  lemma {:induction false} SumSplit(a: seq<byte>, b: seq<byte>)
    ensures Sum(a + b) == Sum(a) + Sum(b)
    decreases |b|
  {
    if b == [] {
      assert a + b == a;
    } else {
      assert (a + b)[..|a + b| - 1] == a + b[..|b| - 1];
      SumSplit(a, b[..|b| - 1]);
    }
  }

  lemma SumFirst(bs: seq<byte>)
    requires bs != []
    ensures Sum(bs) == bs[0] + Sum(bs[1..])
  {
    assert bs == [bs[0]] + bs[1..] && [bs[0]][..0] == [];
    SumSplit([bs[0]], bs[1..]);
  }

  lemma CksumCompletes(bs: seq<byte>, c: byte)
    ensures c == Cksum(bs) <==> (Sum(bs) + c) % 256 == 0
  {
    Complement(Sum(bs), c);
  }

  lemma Complement(s: nat, c: byte)
    ensures c == (256 - s % 256) % 256 <==> (s + c) % 256 == 0
  {
  }

  /** The header check as arithmetic on its three bytes. */
  lemma HeaderMeans(p: seq<byte>)
    requires |p| >= 3
    ensures HeaderOk(p) <==> (p[0] as int + p[1] as int + p[2] as int) % 256 == 0
  {
    assert p[..2] == [p[0], p[1]];
    SumTwo(p[0], p[1]);
    CksumCompletes([p[0], p[1]], p[2]);
  }

  /** Whatever the first byte was turned into, it is put right. */
  lemma ChangedByteIsRestored(p: seq<byte>, addr: byte, c: byte, front: byte)
    requires Framed(p, addr) && |p| <= LEN_MAX
    ensures Receive(p[0 := c], addr, front) == Some(p)
  {
    var q := p[0 := c];
    HeaderMeans(p);
    HeaderMeans(q);
    SameComplement(p[1] as int + p[2] as int, addr, c);
    assert q[0 := addr] == p;
    assert c == addr ==> q == p;
  }

  /** The header checks the receiver tries on a packet without its first byte. */
  lemma HeaderShifted(p: seq<byte>, q: seq<byte>, addr: byte)
    requires Framed(p, addr) && q == p[1..]
    ensures HeaderOk(q) <==> p[3] == addr
    ensures HeaderOk(q[0 := addr]) <==> p[3] == p[1]
  {
    HeaderMeans(p);
    HeaderMeans(q);
    HeaderMeans(q[0 := addr]);
    SameComplement(p[1] as int + p[2] as int, addr, p[3]);
    SameComplement(addr as int + p[2] as int, p[1], p[3]);
  }

  /** The data check of a packet with one data byte in front left out. */
  lemma DataCheckShifted(p: seq<byte>, q: seq<byte>)
    requires |p| >= 7 && |q| == |p| - 1 && DataOk(p)
    requires forall i :: 3 <= i < |q| ==> q[i] == p[i + 1]
    ensures DataOk(q) <==> p[3] == 0
  {
    var body := p[3..|p| - 1];
    SumFirst(body);
    assert body[1..] == q[3..|q| - 1];
    CksumCompletes(body, p[|p| - 1]);
    CksumCompletes(q[3..|q| - 1], q[|q| - 1]);
    SameComplement(Sum(body[1..]) + p[|p| - 1], p[3], 0);
  }

  /** With the first byte lost, the packet is restored exactly when the requester
      address differs from the BMC's and from the NetFn byte, the NetFn byte differs
      from the BMC's address, and the length of the whole still fits its 8 bits.
      Otherwise a checksum drops it, except when requester address and NetFn byte
      are both zero: then it is passed on with the NetFn byte overwritten; and except
      when only the length does not fit: then a byte that is none of the packet's
      decides whether it is dropped or something empty is passed on. */
  lemma LostByteIsRestoredIff(p: seq<byte>, addr: byte, front: byte)
    requires Framed(p, addr) && addr != 0 && |p| <= LEN_MAX + 1
    ensures var repairable := p[3] != addr && p[3] != p[1] && p[1] != addr;
            var r := Receive(p[1..], addr, front);
            && (r == Some(p) <==> repairable && |p| <= LEN_MAX)
            && (repairable && |p| > LEN_MAX ==> r == if front == Cksum(p[DATA_OFFSET..LEN_MAX]) then Some([]) else None)
            && (!repairable && (p[3] != 0 || p[1] != 0) ==> r == None)
            && (p[3] == 0 && p[1] == 0 ==> r == Some(p[1..][0 := addr]))
  {
    var q := p[1..];
    HeaderShifted(p, q, addr);
    assert [addr] + q == p;
    DataCheckShifted(p, q);
    DataCheckShifted(p, q[0 := addr]);
  }

  /** So neither corruption ever gets a wrong packet delivered if the requester has
      an address and the packet as sent fits the 8-bit length. */
  lemma NeverDeliversWrong(p: seq<byte>, addr: byte, q: seq<byte>, front: byte)
    requires Framed(p, addr) && addr != 0 && p[3] != 0 && |q| <= LEN_MAX
    requires q == p[1..] || (|q| == |p| && q[1..] == p[1..])
    ensures var r := Receive(q, addr, front);
            r == Some(p) || r == None || (|p| == LEN_MAX + 1 && r == Some([]))
  {
    if |q| == |p| {
      assert q == [q[0]] + q[1..] && p[0 := q[0]] == [q[0]] + p[1..];
      ChangedByteIsRestored(p, addr, q[0], front);
    } else {
      LostByteIsRestoredIff(p, addr, front);
    }
  }

  lemma {:induction false} SumZeros(n: nat)
    ensures Sum(seq(n, _ => 0)) == 0
  {
    if n > 0 {
      assert seq(n, _ => 0 as byte)[..n - 1] == seq(n - 1, _ => 0 as byte);
      SumZeros(n - 1);
    }
  }

  /** At 255 received bytes, the longest packet without its first byte: it is meant to
      be restored, and for one value of the byte in front of the buffer an empty
      message is passed on instead. */
  lemma WrappedLengthLosesPacket(addr: byte)
    requires addr != 0 && addr != 2
    ensures var p := Longest(addr);
            && Framed(p, addr) && |p[1..]| == LEN_MAX && Intended(p[1..], addr) == Some(p)
            && Receive(p[1..], addr, 254) == Some([])
            && forall front: byte :: front != 254 ==> Receive(p[1..], addr, front) == None
  {
    var p := Longest(addr);
    var zeros: seq<byte> := seq(251, _ => 0);
    SumZeros(251);
    SumSplit([2], zeros);
    assert Sum([2]) == 2 by { assert [2 as byte][..0] == []; }
    assert p[DATA_OFFSET..|p| - 1] == [2] + zeros && p[DATA_OFFSET..LEN_MAX] == [2] + zeros;
    assert p[..2] == [addr, 0];
    HeaderShifted(p, p[1..], addr);
    assert [addr] + p[1..] == p;
  }

  /** ipmb_rx_handler on its own buffers, for any 8-bit length; `front` is the byte in
      front of `buf`. */
  method HandleReceived(buf: array<byte>, tbuf: array<byte>, len0: byte, addr: byte, front: byte)
    returns (ok: bool, len: byte)
    requires buf != tbuf && buf.Length == tbuf.Length == MAX_BYTES
    modifies buf, tbuf
    ensures ok <==> Receive(old(buf[..len0]), addr, front).Some?
    ensures ok ==> Receive(old(buf[..len0]), addr, front) == Some(buf[..len])
  {
    if len0 < PKT_MIN_SIZE {
      return false, len0;
    }
    ok, len := RepairHeader(buf, tbuf, len0, addr);
    if ok {
      var count: byte := (len as int - 4) % 256;
      var c := CalcCksum(buf, DATA_OFFSET, DATA_OFFSET + count);
      if len == 0 {
        assert buf[DATA_OFFSET..LEN_MAX] == buf[..LEN_MAX + 1][DATA_OFFSET..LEN_MAX];
        ok := front == c;
      } else {
        assert buf[DATA_OFFSET..len - 1] == buf[..len][DATA_OFFSET..len - 1];
        ok := buf[len - 1] == c;
      }
    }
  }

  method CheckHeader(buf: array<byte>, ghost p: seq<byte>) returns (ok: bool)
    requires 3 <= |p| <= buf.Length && buf[..|p|] == p
    ensures ok <==> HeaderOk(p)
  {
    var c := CalcCksum(buf, 0, 2);
    assert buf[0..2] == buf[..|p|][..2] && buf[2] == buf[..|p|][2];
    ok := buf[2] == c;
  }

  method RepairHeader(buf: array<byte>, tbuf: array<byte>, len0: byte, addr: byte) returns (ok: bool, len: byte)
    requires buf != tbuf && buf.Length == tbuf.Length == MAX_BYTES && PKT_MIN_SIZE <= len0
    modifies buf, tbuf
    ensures ok <==> Repair(old(buf[..len0]), addr).Some?
    ensures ok && len == 0 <==> Wraps(old(buf[..len0]), addr)
    ensures ok ==> Repair(old(buf[..len0]), addr) == Some(buf[..if len == 0 then LEN_MAX + 1 else len as int])
  {
    ghost var q := buf[..len0];
    len := len0;
    ok := CheckHeader(buf, q);
    if !ok && buf[0] != addr {
      // a wrong first byte
      var fbyte := buf[0];
      buf[0] := addr;
      assert buf[..len] == q[0 := addr];
      ok := CheckHeader(buf, q[0 := addr]);
      if !ok {
        // a missing first byte
        buf[0] := fbyte;
        assert buf[..len] == q;
        PutInFront(buf, tbuf, len, addr);
        len := (len as int + 1) % 256;
        ok := CheckHeader(buf, [addr] + q);
      }
    }
  }

  method PutInFront(buf: array<byte>, tbuf: array<byte>, len: nat, addr: byte)
    requires buf != tbuf && buf.Length == tbuf.Length == MAX_BYTES && 0 < len <= LEN_MAX
    modifies buf, tbuf
    ensures buf[..len + 1] == [addr] + old(buf[..len])
  {
    CopyInto(tbuf, buf, 0, len);
    buf[0] := addr;
    CopyInto(buf, tbuf, 1, len);
    assert buf[..len + 1] == [buf[0]] + buf[1..1 + len];
  }

  /** memcpy(&dst[at], src, len) */
  method CopyInto(dst: array<byte>, src: array<byte>, at: nat, len: nat)
    requires dst != src && at + len <= dst.Length && len <= src.Length
    modifies dst
    ensures dst[at..at + len] == src[..len]
    ensures forall i :: 0 <= i < dst.Length && !(at <= i < at + len) ==> dst[i] == old(dst[i])
  {
    forall i | 0 <= i < len {
      dst[at + i] := src[i];
    }
  }

  // ----- Framing -----

  /** The sequence number in the byte it shares with the LUN, and back. */
  function SeqLun(index: nat): byte
    requires index < 64
  {
    index * 4
  }

  function SeqOf(seqLun: byte): nat {
    seqLun / 4
  }

  /** ipmb_handle on the caller's request: number, requester address, checksums. */
  method FrameRequest(req: array<byte>, index: nat, addr: byte)
    requires req.Length >= 7 && index < 64
    modifies req
    ensures HeaderOk(req[..]) && DataOk(req[..])
    ensures req[3] == addr && req[4] as int == 4 * index && SeqOf(req[4]) == index
    ensures forall i :: 0 <= i < req.Length - 1 && !(2 <= i <= 4) ==> req[i] == old(req[i])
  {
    req[4] := SeqLun(index);
    req[3] := addr;
    req[2] := (256 - (req[0] as int + req[1] as int) % 256) % 256;
    HeaderCompleted(req[..]);
    FillDataCksum(req);
    assert forall i :: 0 <= i < req.Length - 1 ==> req[i] == req[..req.Length - 1][i];
    HeaderMeans(req[..]);
  }

  lemma HeaderCompleted(p: seq<byte>)
    requires |p| >= 3 && p[2] == (256 - (p[0] as int + p[1] as int) % 256) % 256
    ensures (p[0] as int + p[1] as int + p[2] as int) % 256 == 0
  {
  }

  /** The data checksum of a request, in its last byte. */
  method FillDataCksum(req: array<byte>)
    requires req.Length >= 7
    modifies req
    ensures DataOk(req[..])
    ensures req[..req.Length - 1] == old(req[..req.Length - 1])
  {
    var n := req.Length;
    CompleteSum(req, DATA_OFFSET, n - 1, 0);
    var body := req[DATA_OFFSET..n - 1];
    assert req[..][DATA_OFFSET..n - 1] == body;
    CksumCompletes(body, req[n - 1]);
  }

  /** Adds up a range in the byte behind it, from a given sum on, and turns that into
      what completes it to 0. */
  method CompleteSum(buf: array<byte>, from: nat, to: nat, start: byte)
    requires from <= to < buf.Length
    modifies buf
    ensures buf[..to] == old(buf[..to]) && buf[to + 1..] == old(buf[to + 1..])
    ensures (start as int + Sum(buf[from..to]) + buf[to] as int) % 256 == 0
  {
    ghost var body := buf[from..to];
    buf[to] := start;
    ghost var total: nat := start;
    for i := from to to
      invariant buf[..to] == old(buf[..to]) && buf[to + 1..] == old(buf[to + 1..])
      invariant total == start as int + Sum(body[..i - from]) && buf[to] == total % 256
    {
      assert body[..i + 1 - from] == body[..i - from] + [body[i - from]];
      assert buf[i] == buf[..to][i] == body[i - from];
      SumAdds(body[..i - from], body[i - from]);
      buf[to] := (buf[to] as int + buf[i] as int) % 256;
      total := total + body[i - from];
    }
    assert body[..to - from] == body;
    buf[to] := (256 - buf[to] as int) % 256;
    assert buf[from..to] == buf[..to][from..] == body;
    SumCompleted(total, buf[to]);
  }

  lemma SumCompleted(sum: nat, last: byte)
    requires last as int == (256 - sum % 256) % 256
    ensures (sum + last as int) % 256 == 0
  {
  }

  /** The answer to a request, byte by byte: addressed to the requester, from the
      responder, with the request's number and command and the IPMI stack's NetFn,
      completion code and data, and two checksums that complete their parts to 0. */
  predicate Answers(p: seq<byte>, req: seq<byte>, netfn: byte, cc: byte, data: seq<byte>)
    requires |req| >= 7
  {
    && |p| == 8 + |data|
    && p[0] == req[3] && p[1] == netfn && (p[0] as int + p[1] as int + p[2] as int) % 256 == 0
    && p[3] == req[0] && p[4] == req[4] && p[5] == req[5] && p[6] == cc && p[7..7 + |data|] == data
    && (p[3] as int + p[4] as int + p[5] as int + p[6] as int + Sum(data) + p[7 + |data|] as int) % 256 == 0
  }

  /** ipmb_req_handler's transmit buffer, from the request and what the IPMI stack
      returned. */
  method BuildResponse(tx: array<byte>, req: array<byte>, netfn: byte, cc: byte, data: array<byte>, n: nat)
    requires tx != req && tx != data && req.Length >= 7 && n <= data.Length && 8 + n <= tx.Length
    modifies tx
    ensures Answers(tx[..8 + n], req[..], netfn, cc, data[..n])
    ensures tx[8 + n..] == old(tx[8 + n..])
  {
    tx[0], tx[3], tx[5], tx[4] := req[3], req[0], req[5], req[4];
    tx[1], tx[6] := netfn, cc;
    CopyInto(tx, data, 7, n);
    tx[2] := (tx[0] as int + tx[1] as int) % 256;
    tx[2] := (256 - tx[2] as int) % 256;
    HeaderCompleted(tx[..3]);
    assert tx[7..7 + n] == data[..n] && tx[8 + n..] == old(tx[8 + n..]);
    var first := (tx[3] as int + tx[4] as int + tx[5] as int + tx[6] as int) % 256;
    CompleteSum(tx, 7, 7 + n, first);
    assert forall k :: 0 <= k < 7 ==> tx[k] == tx[..7 + n][k];
    assert tx[7..7 + n] == tx[..7 + n][7..] == data[..n];
    FirstFour(tx[3], tx[4], tx[5], tx[6], first, Sum(data[..n]), tx[7 + n]);
  }

  lemma FirstFour(a: byte, b: byte, c: byte, d: byte, first: byte, sum: nat, last: byte)
    requires first as int == (a as int + b as int + c as int + d as int) % 256
    requires (first as int + sum + last as int) % 256 == 0
    ensures (a as int + b as int + c as int + d as int + sum + last as int) % 256 == 0
  {
  }

  lemma SumAdds(bs: seq<byte>, b: byte)
    ensures Sum(bs + [b]) == Sum(bs) + b as int && Sum([]) == 0
  {
    assert (bs + [b])[..|bs|] == bs;
  }

  /** What the two checks amount to: the first three bytes, and the rest, add up to 0. */
  lemma ChecksMean(p: seq<byte>)
    requires |p| >= 4
    ensures HeaderOk(p) <==> (p[0] as int + p[1] as int + p[2] as int) % 256 == 0
    ensures DataOk(p) <==> Sum(p[3..]) % 256 == 0
  {
    HeaderMeans(p);
    var body := p[3..|p| - 1];
    assert p[3..] == body + [p[|p| - 1]];
    SumAdds(body, p[|p| - 1]);
    CksumCompletes(body, p[|p| - 1]);
  }

  /** Routed to the responses: an odd NetFn; an even one is a request. */
  predicate IsResponse(p: seq<byte>)
    requires |p| > 1
  {
    (p[1] / 4) % 2 == 1
  }

  /** A response finds its way back: if its length fits 8 bits the requester's receiver
      takes it unchanged, with the number the request went out under, and as a
      response if the stack answered with an odd NetFn. */
  lemma ResponseReturns(p: seq<byte>, req: seq<byte>, index: nat, addr: byte, netfn: byte, cc: byte, data: seq<byte>,
                        front: byte)
    requires |req| >= 7 && index < 64 && req[3] == addr && req[4] == SeqLun(index)
    requires Answers(p, req, netfn, cc, data)
    ensures Intended(p, addr) == Some(p) && (|p| <= LEN_MAX ==> Receive(p, addr, front) == Some(p))
    ensures SeqOf(p[4]) == index && ((netfn / 4) % 2 == 1 ==> IsResponse(p))
  {
    ChecksMean(p);
    var head, tail := [p[3], p[4], p[5], p[6]], data + [p[7 + |data|]];
    assert p[3..] == head + tail;
    SumSplit(head, tail);
    SumAdds(data, p[7 + |data|]);
    SumFour(p[3], p[4], p[5], p[6]);
  }

  lemma SumFour(a: byte, b: byte, c: byte, d: byte)
    ensures Sum([a, b, c, d]) == a as int + b as int + c as int + d as int
  {
    assert [a, b, c, d] == [a, b] + [c, d];
    SumSplit([a, b], [c, d]);
    SumTwo(a, b);
    SumTwo(c, d);
  }
}
