/** The buffered socket reader of pserv/src/bufio.c. */
module Bufio {
  import opened Buffers
  import opened Ints
  import opened Powers

  const BUFSIZE := 8192
  const READSIZE := 2048
  const TRUNCATE_THRESHOLD := 10000
  const NEWLINE: byte := 10

  // ----- the socket -----

  // What the connection still has in store, in any division into pieces.  After the last piece the other side
  // has closed the connection.
  datatype Event = Data(bytes: seq<byte>) | Error

  ghost predicate Nonempty(events: seq<Event>) {
    forall i :: 0 <= i < |events| && events[i].Data? ==> events[i].bytes != []
  }

  ghost function Bytes(events: seq<Event>): seq<byte> {
    if events == [] then []
    else (if events[0].Data? then events[0].bytes else []) + Bytes(events[1..])
  }

  ghost function Errors(events: seq<Event>): nat {
    if events == [] then 0
    else (if events[0].Error? then 1 else 0) + Errors(events[1..])
  }

  // The stream arrives a byte at a time.
  ghost predicate Dribbles(events: seq<Event>) {
    forall i :: 0 <= i < |events| ==> events[i].Data? && |events[i].bytes| == 1
  }

  class Socket {
    var events: seq<Event>

    constructor (events: seq<Event>)
      ensures this.events == events
    {
      this.events := events;
    }

    // recv of up to max bytes
    method Recv(into: array<byte>, at: int, max: int) returns (n: int)
      requires Nonempty(events) && 0 <= at && 0 < max && at + max <= into.Length
      modifies this, into
      ensures Nonempty(events) && n <= max
      ensures forall i :: 0 <= i < into.Length && !(at <= i < at + n) ==> into[i] == old(into[i])
      ensures n > 0 ==> Bytes(old(events)) == into[at..at + n] + Bytes(events) && Errors(events) == Errors(old(events))
      ensures n == 0 ==> events == old(events) == [] && Bytes(events) == []
      ensures n < 0 ==> Bytes(events) == Bytes(old(events)) && Errors(events) == Errors(old(events)) - 1
      ensures Dribbles(old(events)) ==> Dribbles(events) && 0 <= n <= 1
    {
      if events == [] {
        return 0;
      }
      if events[0].Error? {
        events := events[1..];
        return -1;
      }
      var bytes := events[0].bytes;
      n := if |bytes| <= max then |bytes| else max;
      forall i | 0 <= i < n {
        into[at + i] := bytes[i];
      }
      assert into[at..at + n] == bytes[..n];
      if n == |bytes| {
        events := events[1..];
      } else {
        Halved(bytes, n, events[1..]);
        events := [Data(bytes[n..])] + events[1..];
      }
    }
  }

  lemma Halved(bytes: seq<byte>, n: nat, rest: seq<Event>)
    requires n <= |bytes|
    ensures Bytes([Data(bytes)] + rest) == bytes[..n] + Bytes([Data(bytes[n..])] + rest)
    ensures Errors([Data(bytes[n..])] + rest) == Errors([Data(bytes)] + rest)
  {
    assert bytes == bytes[..n] + bytes[n..];
    assert ([Data(bytes)] + rest)[1..] == rest == ([Data(bytes[n..])] + rest)[1..];
  }

  // ----- the stream as its reader sees it -----

  // The first line with its newline, or everything when there is none.
  function Line(s: seq<byte>): seq<byte> {
    if s == [] || s[0] == NEWLINE then s[..if s == [] then 0 else 1]
    else [s[0]] + Line(s[1..])
  }

  function Prefix(s: seq<byte>, n: nat): seq<byte> { if n <= |s| then s[..n] else s }

  lemma {:induction false} LineIsPrefix(s: seq<byte>)
    ensures Line(s) <= s && (s != [] ==> Line(s) != [])
    ensures forall i :: 0 <= i < |Line(s)| - 1 ==> s[i] != NEWLINE
    ensures |Line(s)| < |s| ==> s[|Line(s)| - 1] == NEWLINE
  {
    if s != [] && s[0] != NEWLINE {
      LineIsPrefix(s[1..]);
      forall i | 0 <= i < |Line(s)| - 1 ensures s[i] != NEWLINE {
        if i > 0 { assert s[i] == s[1..][i - 1]; }
      }
    }
  }

  // The line of a stream of which the first bytes are known and are not newlines.
  lemma {:induction false} LineAfter(p: seq<byte>, s: seq<byte>)
    requires forall i :: 0 <= i < |p| ==> p[i] != NEWLINE
    ensures Line(p + s) == p + Line(s)
  {
    if p == [] {
      assert p + s == s;
    } else {
      LineAfter(p[1..], s);
      FirstOff(p, s);
      FirstOff(p, Line(s));
    }
  }

  lemma FirstOff(p: seq<byte>, s: seq<byte>)
    requires p != []
    ensures (p + s)[0] == p[0] && (p + s)[1..] == p[1..] + s && [p[0]] + (p[1..] + s) == p + s
  {
  }

  // Part of the stream was read by the byte, p last, and the reading is not past the line.
  ghost predicate LineSoFar(stream: seq<byte>, piece: seq<byte>, unread: seq<byte>, p: byte) {
    stream == piece + unread && if p == NEWLINE then piece == Line(stream) else NEWLINE !in piece
  }

  lemma LineGrows(stream: seq<byte>, piece: seq<byte>, p: byte, unread: seq<byte>)
    requires stream == piece + ([p] + unread) && NEWLINE !in piece
    ensures LineSoFar(stream, piece + [p], unread, p)
  {
    LineAfter(piece, [p] + unread);
    assert stream == piece + [p] + unread;
  }

  lemma LineEnds(stream: seq<byte>, piece: seq<byte>)
    requires stream == piece + [] && NEWLINE !in piece
    ensures piece == Line(stream)
  {
    LineAfter(piece, []);
    assert piece + [] == piece;
  }

  lemma TakeByte(before: seq<byte>, after: seq<byte>, from: nat, to: nat, p: byte)
    requires before <= after && from <= to <= |before| && to < |after| && after[to] == p
    ensures after[from..to + 1] == before[from..to] + [p]
  {
  }

  lemma KeepPiece(before: seq<byte>, after: seq<byte>, from: nat, to: nat)
    requires before <= after && from <= to <= |before|
    ensures after[from..to] == before[from..to]
  {
  }

  lemma TakePiece(contents: seq<byte>, from: nat, n: nat, rest: seq<byte>)
    requires from + n <= |contents|
    ensures contents[from..from + n] == (contents[from..] + rest)[..n]
    ensures contents[from + n..] + rest == (contents[from..] + rest)[n..]
  {
  }

  // An offset as a size_t: none is too large, but it wraps around below 0.
  function ToSize(n: int): int { if n < 0 then n + SIZE_VALUES else n }

  function Min(a: int, b: int): int { if a < b then a else b }

  // The capacity of the buffer, from cap, once there is room to receive more after the first len bytes.
  function Reach(cap: nat, len: nat): nat
    decreases len + READSIZE - cap
  {
    if len + READSIZE < cap then cap else Reach(2 * cap + READSIZE, len)
  }

  lemma {:induction false} ReachBounds(cap: nat, len: nat)
    ensures cap <= Reach(cap, len)
    ensures Reach(cap, len) <= cap || Reach(cap, len) <= 2 * (len + READSIZE) + READSIZE
    decreases len + READSIZE - cap
  {
    if len + READSIZE >= cap {
      ReachBounds(2 * cap + READSIZE, len);
    }
  }

  // What Reach means for one more piece of the stream, at len or later.
  lemma ReachFits(cap: nat, len: nat, last: nat)
    requires len <= last && Reach(cap, last) <= INT_MAX
    ensures GrowthFits(len, cap, READSIZE)
    ensures Reach(if len + READSIZE < cap then cap else 2 * cap + READSIZE, last) == Reach(cap, last)
  {
    ReachBounds(2 * cap + READSIZE, last);
  }

  lemma ReachLater(cap: nat, len: nat, last: nat)
    requires len <= last && GrowthFits(len, cap, READSIZE)
    ensures Reach(if len + READSIZE < cap then cap else 2 * cap + READSIZE, last) == Reach(cap, last)
  {
  }

  // From the capacity of a new buffer, doubled again and again, the largest that an int holds is 1342175232.
  lemma {:induction false} NewBufferFits(len: nat, k: nat, cap: nat)
    requires k <= 17 && cap == 10240 * Pow2(k) - 2048
    ensures Reach(cap, len) <= INT_MAX <==> len + READSIZE < 1342175232
    decreases 17 - k
  {
    Pow2Seventeen();
    if k == 17 {
      ReachBounds(2 * cap + READSIZE, len);
    } else {
      Pow2Monotone(k + 1, 17);
      NewBufferFits(len, k + 1, 2 * cap + READSIZE);
    }
  }

  lemma Pow2Seventeen()
    ensures Pow2(17) == 131072 && Pow2(0) == 1
  {
    assert Pow2(4) == 16;
    Pow2Sum(4, 4);
    Pow2Sum(8, 8);
  }

  // Where bufio_readline looks for more bytes last: before the newline of the line, or after all of it.
  function LastLook(line: seq<byte>): nat { if NEWLINE in line then |line| - 1 else |line| }

  class Bufio {
    const socket: Socket
    var bufpos: int
    const buf: Buffer

    ghost predicate Valid()
      reads this, socket, buf
    {
      buf.Valid() && 0 <= bufpos <= buf.len && buf.cap <= 2 * buf.len + 2 * BUFSIZE && Nonempty(socket.events)
    }

    // The bytes that were not read yet, received or not.
    ghost function Unread(): seq<byte>
      requires Valid()
      reads this, socket, buf, buf.storage
    {
      buf.Contents()[bufpos..] + Bytes(socket.events)
    }

    // bufio_create
    constructor (socket: Socket)
      requires Nonempty(socket.events)
      ensures Valid() && fresh(buf) && fresh(buf.storage) && this.socket == socket
      ensures bufpos == buf.len == 0 && buf.cap == BUFSIZE
      ensures Unread() == Bytes(socket.events)
    {
      this.socket := socket;
      bufpos := 0;
      buf := new Buffer(BUFSIZE);
    }

    function BytesBuffered(): int
      reads this, buf
    {
      buf.len - bufpos
    }

    // However the stream is divided, the buffer can take what it gets of these bytes before the last is received.
    ghost predicate Takes(bytes: nat)
      requires Valid()
      reads this, socket, buf
    {
      Reach(buf.cap, bufpos + bytes) <= INT_MAX
    }

    // So for a read of count bytes, the last of which may not be there.
    ghost predicate ReadFits(count: nat)
      requires Valid()
      reads this, socket, buf, buf.storage
    {
      BytesBuffered() >= count || Takes(Min(count - 1, |Unread()|))
    }

    ghost predicate LineFits()
      requires Valid()
      reads this, socket, buf, buf.storage
    {
      NEWLINE in buf.Contents()[bufpos..] || Takes(LastLook(Line(Unread())))
    }

    // For a new reader it is so just up to this many bytes.
    lemma NewReaderFits(count: nat)
      requires Valid() && bufpos == buf.len == 0 && buf.cap == BUFSIZE
      ensures ReadFits(count) <==> Min(count - 1, |Unread()|) + READSIZE < 1342175232
    {
      if count > 0 {
        Pow2Seventeen();
        NewBufferFits(Min(count - 1, |Unread()|), 0, buf.cap);
      }
    }

    // The bytes of a stream of less than a gigabyte fit in any case.
    lemma ShortFits(total: nat, bytes: nat)
      requires Valid() && buf.len <= total && bufpos + bytes <= total && 2 * total + 2 * BUFSIZE <= INT_MAX
      ensures Takes(bytes)
    {
      ReachBounds(buf.cap, bufpos + bytes);
    }

    lemma CallFits(call: Call)
      requires Valid() && 2 * (buf.len + |Bytes(socket.events)|) + 2 * BUFSIZE <= INT_MAX
      ensures match call
        case TruncateCall => GrowthFits(0, BUFSIZE, BytesBuffered())
        case ReadLineCall => LineFits()
        case ReadCall(count) => ReadFits(count)
    {
      var total := buf.len + |Bytes(socket.events)|;
      match call
      case TruncateCall =>
      case ReadLineCall =>
        LineIsPrefix(Unread());
        ShortFits(total, LastLook(Line(Unread())));
      case ReadCall(count) =>
        if BytesBuffered() < count {
          ShortFits(total, Min(count - 1, |Unread()|));
        }
    }

    // bufio_truncate
    method Truncate()
      requires Valid() && (buf.len > TRUNCATE_THRESHOLD ==> GrowthFits(0, BUFSIZE, BytesBuffered()))
      modifies this`bufpos, buf, buf.storage
      ensures Valid() && Unread() == old(Unread()) && BytesBuffered() == old(BytesBuffered())
      ensures buf.storage == old(buf.storage) || fresh(buf.storage)
      ensures bufpos == if old(buf.len) > TRUNCATE_THRESHOLD then 0 else old(bufpos)
      ensures buf.len <= old(buf.len)
    {
      hide Bytes, Nonempty, GrowthFits, Buffer.Contents;
      if buf.len > TRUNCATE_THRESHOLD {
        var unread := BytesBuffered();
        ghost var contents := buf.Contents();
        if unread == 0 {
          buf.Reset(BUFSIZE);
        } else {
          var oldbuf := buf.storage;
          buf.Slice(bufpos, buf.len);
          buf.Init(BUFSIZE);
          buf.Append(oldbuf, bufpos, unread);
        }
        Shifted(contents, buf.Contents(), bufpos);
        bufpos := 0;
      }
    }

    lemma Shifted(before: seq<byte>, after: seq<byte>, from: nat)
      requires from <= |before| && (after == before[from..|before|] || after == [] + before[from..|before|])
      ensures after[0..] == before[from..]
    {
    }

    // read_more
    method ReadMore() returns (bread: int)
      requires Valid() && GrowthFits(buf.len, buf.cap, READSIZE)
      modifies buf, buf.storage, socket
      ensures Valid() && Unread() == old(Unread()) && old(buf.Contents()) <= buf.Contents()
      ensures buf.storage == old(buf.storage) || fresh(buf.storage)
      ensures buf.len == old(buf.len) + if bread > 0 then bread else 0
      ensures buf.len - old(buf.len) == |Bytes(old(socket.events))| - |Bytes(socket.events)|
      ensures bread == 0 ==> socket.events == [] && Bytes(socket.events) == []
      ensures Errors(socket.events) == Errors(old(socket.events)) - if bread < 0 then 1 else 0
      ensures buf.cap == if old(buf.len) + READSIZE < old(buf.cap) then old(buf.cap) else 2 * old(buf.cap) + READSIZE
      ensures Dribbles(old(socket.events)) ==> Dribbles(socket.events) && 0 <= bread <= 1
    {
      hide Bytes, Errors, Nonempty, Dribbles, GrowthFits;
      var at := buf.EnsureCapacity(READSIZE);
      ghost var was, rest := buf.Contents(), Bytes(socket.events);
      bread := socket.Recv(buf.storage, at, READSIZE);
      assert buf.storage[..at] == was;
      if bread < 1 {
        return;
      }
      buf.len := buf.len + bread;
      MoreReceived(was, buf.storage[..buf.len], bufpos, buf.storage[at..at + bread], rest, Bytes(socket.events));
    }

    lemma MoreReceived(was: seq<byte>, now: seq<byte>, from: nat, got: seq<byte>, rest: seq<byte>, rest': seq<byte>)
      requires from <= |was| && |now| == |was| + |got| && was == now[..|was|] && got == now[|was|..]
      requires rest == got + rest'
      ensures was <= now && was[from..] + rest == now[from..] + rest'
    {
      assert now[from..] == was[from..] + got;
    }

    // bufio_readbyte
    method ReadByte() returns (rc: int, out: byte)
      requires Valid() && (BytesBuffered() == 0 ==> GrowthFits(buf.len, buf.cap, READSIZE))
      modifies this`bufpos, buf, buf.storage, socket
      ensures Valid() && old(buf.Contents()) <= buf.Contents()
      ensures buf.storage == old(buf.storage) || fresh(buf.storage)
      ensures buf.len - old(buf.len) == |Bytes(old(socket.events))| - |Bytes(socket.events)|
      ensures rc <= 1 && Errors(socket.events) == Errors(old(socket.events)) - if rc < 0 then 1 else 0
      ensures rc == 1 ==> bufpos == old(bufpos) + 1 && buf.Contents()[bufpos - 1] == out
      ensures rc == 1 ==> old(Unread()) == [out] + Unread()
      ensures rc < 1 ==> bufpos == old(bufpos) && old(Unread()) == Unread()
      ensures rc == 0 ==> Unread() == []
      ensures buf.cap == if old(BytesBuffered() > 0 || buf.len + READSIZE < buf.cap) then old(buf.cap)
        else 2 * old(buf.cap) + READSIZE
      ensures old(BytesBuffered()) > 0 ==> rc == 1 && buf.len == old(buf.len)
      ensures Dribbles(old(socket.events)) ==> Dribbles(socket.events) && 0 <= rc && buf.len <= old(buf.len) + 1
    {
      hide Bytes, Errors, Nonempty, Dribbles;
      out := 0;
      if BytesBuffered() == 0 {
        rc := ReadMore();
        if rc <= 0 {
          return;
        }
      }
      out := buf.storage[bufpos];
      bufpos := bufpos + 1;
      assert buf.Contents()[bufpos - 1..] == [out] + buf.Contents()[bufpos..];
      rc := 1;
    }

    // Only when all that was buffered is part of the line does it look for more, and not after the last look.
    lemma StillLooking(contents: seq<byte>, buffered: seq<byte>, from: nat, to: nat,
                       stream: seq<byte>, piece: seq<byte>, unread: seq<byte>)
      requires from <= to <= |contents| && piece == contents[from..to] && NEWLINE !in piece && stream == piece + unread
      requires buffered <= contents[from..]
      ensures to == |contents| ==> NEWLINE !in buffered
      ensures from <= to <= from + LastLook(Line(stream))
    {
      LineAfter(piece, unread);
      if to == |contents| {
        assert contents[from..] == piece;
      }
    }

    // One byte more of a line, of which piece has been read.
    method LineByte(ghost from: nat, ghost stream: seq<byte>, ghost piece: seq<byte>, ghost buffered: seq<byte>)
      returns (rc: int, p: byte)
      requires Valid() && from <= bufpos && piece == buf.Contents()[from..bufpos] && NEWLINE !in piece
      requires stream == piece + Unread() && buffered <= buf.Contents()[from..]
      requires NEWLINE in buffered || Reach(buf.cap, from + LastLook(Line(stream))) <= INT_MAX
      modifies this`bufpos, buf, buf.storage, socket
      ensures Valid() && old(buf.Contents()) <= buf.Contents()
      ensures buf.storage == old(buf.storage) || fresh(buf.storage)
      ensures buf.len - old(buf.len) == |Bytes(old(socket.events))| - |Bytes(socket.events)|
      ensures rc <= 1 && Errors(socket.events) == Errors(old(socket.events)) - if rc < 0 then 1 else 0
      ensures rc == 1 ==> bufpos == old(bufpos) + 1 && piece + [p] == buf.Contents()[from..bufpos]
      ensures rc == 1 ==> LineSoFar(stream, piece + [p], Unread(), p) && |Unread()| < |old(Unread())|
      ensures rc < 1 ==> bufpos == old(bufpos) && old(Unread()) == Unread() && piece == buf.Contents()[from..bufpos]
      ensures rc == 0 ==> piece == Line(stream)
      ensures NEWLINE in buffered || Reach(buf.cap, from + LastLook(Line(stream))) <= INT_MAX
    {
      hide Line, Bytes, Errors, Unread, Nonempty, Buffer.Contents, GrowthFits, Reach, LastLook, LineSoFar;
      ghost var contents, last := buf.Contents(), from + LastLook(Line(stream));
      StillLooking(contents, buffered, from, bufpos, stream, piece, Unread());
      if BytesBuffered() == 0 {
        ReachFits(buf.cap, buf.len, last);
      }
      rc, p := ReadByte();
      KeepPiece(contents, buf.Contents(), from, bufpos - if rc == 1 then 1 else 0);
      if rc == 0 {
        LineEnds(stream, piece);
      } else if rc == 1 {
        TakeByte(contents, buf.Contents(), from, bufpos - 1, p);
        LineGrows(stream, piece, p, Unread());
      }
    }

    // bufio_readline
    method ReadLine() returns (rc: int, lineOffset: int)
      requires Valid() && LineFits()
      modifies this`bufpos, buf, buf.storage, socket
      ensures Valid() && old(buf.Contents()) <= buf.Contents()
      ensures buf.storage == old(buf.storage) || fresh(buf.storage)
      ensures buf.len - old(buf.len) == |Bytes(old(socket.events))| - |Bytes(socket.events)|
      ensures Errors(socket.events) == Errors(old(socket.events)) - if rc < 0 then 1 else 0
      ensures lineOffset == old(bufpos) <= bufpos
      ensures old(Unread()) == buf.Contents()[lineOffset..bufpos] + Unread()
      ensures rc >= 0 ==> rc == bufpos - lineOffset && buf.Contents()[lineOffset..bufpos] == Line(old(Unread()))
      ensures rc < 0 ==> NEWLINE !in buf.Contents()[lineOffset..bufpos]
    {
      hide Line, Bytes, Errors, Unread, Nonempty, Buffer.Contents, Reach, LastLook;
      lineOffset := bufpos;
      ghost var was, first := Unread(), buf.Contents();
      ghost var piece, buffered := [], first[bufpos..];
      var p: byte := 0;
      while p != NEWLINE
        invariant Valid() && first <= buf.Contents()
        invariant buf.storage == old(buf.storage) || fresh(buf.storage)
        invariant buf.len - old(buf.len) == |Bytes(old(socket.events))| - |Bytes(socket.events)|
        invariant Errors(socket.events) == Errors(old(socket.events))
        invariant lineOffset == old(bufpos) <= bufpos && piece == buf.Contents()[lineOffset..bufpos]
        invariant LineSoFar(was, piece, Unread(), p)
        invariant NEWLINE in buffered || Reach(buf.cap, lineOffset + LastLook(Line(was))) <= INT_MAX
        decreases |Unread()|
      {
        StillBuffered(first, buf.Contents(), lineOffset);
        rc, p := LineByte(lineOffset, was, piece, buffered);
        if rc < 0 {
          return;
        }
        if rc == 0 {
          break;
        }
        piece := piece + [p];
      }
      rc := bufpos - lineOffset;
    }

    // Any other line, when the stream arrives a byte at a time, comes to where the buffer would have to grow beyond
    // what an int holds, before its newline.
    method LineOverflows()
      requires Valid() && !LineFits() && Dribbles(socket.events)
      modifies this`bufpos, buf, buf.storage, socket
      ensures Valid() && BytesBuffered() == 0 && !GrowthFits(buf.len, buf.cap, READSIZE) && old(bufpos) <= bufpos
      ensures old(Unread()) == buf.Contents()[old(bufpos)..bufpos] + Unread()
      ensures NEWLINE !in buf.Contents()[old(bufpos)..bufpos]
    {
      hide Line, Bytes, Errors, Unread, Nonempty, Dribbles, Buffer.Contents, GrowthFits, Reach, LastLook;
      ghost var from, was, first := bufpos, Unread(), buf.Contents();
      ghost var piece := [];
      while BytesBuffered() > 0 || GrowthFits(buf.len, buf.cap, READSIZE)
        invariant Valid() && Dribbles(socket.events) && from <= bufpos && first <= buf.Contents()
        invariant buf.storage == old(buf.storage) || fresh(buf.storage)
        invariant piece == buf.Contents()[from..bufpos] && was == piece + Unread() && NEWLINE !in piece
        invariant BytesBuffered() > 0 ==> buf.len == |first|
        invariant Reach(buf.cap, from + LastLook(Line(was))) > INT_MAX
        decreases from + LastLook(Line(was)) - bufpos
      {
        var p := NotLastByte(from, was, piece, first);
        piece := piece + [p];
      }
    }

    // One byte more of such a line.
    method NotLastByte(ghost from: nat, ghost stream: seq<byte>, ghost piece: seq<byte>, ghost first: seq<byte>)
      returns (p: byte)
      requires Valid() && Dribbles(socket.events) && from <= bufpos && first <= buf.Contents()
      requires piece == buf.Contents()[from..bufpos] && stream == piece + Unread() && NEWLINE !in piece
      requires from <= |first| && NEWLINE !in first[from..] && (BytesBuffered() > 0 ==> buf.len == |first|)
      requires Reach(buf.cap, from + LastLook(Line(stream))) > INT_MAX
      requires BytesBuffered() > 0 || GrowthFits(buf.len, buf.cap, READSIZE)
      modifies this`bufpos, buf, buf.storage, socket
      ensures Valid() && Dribbles(socket.events) && bufpos == old(bufpos) + 1 && first <= buf.Contents()
      ensures buf.storage == old(buf.storage) || fresh(buf.storage)
      ensures piece + [p] == buf.Contents()[from..bufpos] && stream == piece + [p] + Unread() && p != NEWLINE
      ensures BytesBuffered() > 0 ==> buf.len == |first|
      ensures Reach(buf.cap, from + LastLook(Line(stream))) > INT_MAX && bufpos <= from + LastLook(Line(stream))
    {
      hide Line, Bytes, Errors, Unread, Nonempty, Dribbles, Buffer.Contents, GrowthFits, Reach, LastLook;
      ghost var contents, cap, last := buf.Contents(), buf.cap, from + LastLook(Line(stream));
      StillLooking(contents, first[from..from], from, bufpos, stream, piece, Unread());
      if BytesBuffered() == 0 {
        NotYetLast(cap, bufpos, last);
        ReachLater(cap, bufpos, last);
      }
      var rc;
      rc, p := ReadByte();
      NotItsEnd(first, contents, buf.Contents(), from, bufpos - rc, stream, piece, rc, p, Unread());
    }

    // A byte of a line is not its newline if it was there when no newline was, or if a look before the last got it.
    lemma NotItsEnd(first: seq<byte>, contents: seq<byte>, contents': seq<byte>, from: nat, at: nat,
                    stream: seq<byte>, piece: seq<byte>, rc: int, p: byte, unread: seq<byte>)
      requires first <= contents <= contents' && from <= at <= |contents| && from <= |first|
      requires NEWLINE !in first[from..]
      requires piece == contents[from..at] && NEWLINE !in piece && 0 <= rc <= 1
      requires if rc == 1 then at < |contents'| && contents'[at] == p && stream == piece + ([p] + unread)
               else stream == piece + unread && unread == []
      requires at < |first| || at < from + LastLook(Line(stream))
      requires at < |first| ==> rc == 1
      ensures rc == 1 && p != NEWLINE && piece + [p] == contents'[from..at + 1] && stream == piece + [p] + unread
      ensures at + 1 <= from + LastLook(Line(stream))
    {
      if rc == 0 {
        LineEnds(stream, piece);
      } else {
        TakeByte(contents, contents', from, at, p);
        assert at < |first| ==> first[from..][at - from] == p;
        if p == NEWLINE {
          LineGrows(stream, piece, p, unread);
        } else {
          LineAfter(piece + [p], unread);
          assert stream == piece + [p] + unread;
        }
      }
    }

    lemma StillBuffered(before: seq<byte>, after: seq<byte>, from: nat)
      requires before <= after && from <= |before|
      ensures before[from..] <= after[from..]
    {
    }

    // bufio_read
    method Read(count: nat) returns (rc: int, bufOffset: int)
      requires Valid() && ReadFits(count)
      modifies this`bufpos, buf, buf.storage, socket
      ensures buf.Valid() && Nonempty(socket.events) && old(buf.Contents()) <= buf.Contents()
      ensures buf.storage == old(buf.storage) || fresh(buf.storage)
      ensures buf.len - old(buf.len) == |Bytes(old(socket.events))| - |Bytes(socket.events)|
      ensures bufOffset == old(bufpos)
      ensures Errors(socket.events) in {Errors(old(socket.events)), Errors(old(socket.events)) - 1}
      ensures Errors(socket.events) < Errors(old(socket.events)) ==> rc < 0 && Valid() && Unread() == old(Unread())
      ensures Errors(socket.events) == Errors(old(socket.events)) ==>
        rc == Min(|old(Unread())|, ToInt(count)) && bufpos == ToSize(old(bufpos) + rc)
      ensures Errors(socket.events) == Errors(old(socket.events)) ==>
        && (rc == |Prefix(old(Unread()), count)| <==> count <= INT_MAX || |old(Unread())| <= ToInt(count))
        && (rc < 0 <==> count % (2 * (INT_MAX + 1)) > INT_MAX)
      ensures rc >= 0 ==> Valid() && bufpos == bufOffset + rc
      ensures rc >= 0 ==> buf.Contents()[bufOffset..bufpos] == old(Unread())[..rc] && Unread() == old(Unread())[rc..]
    {
      hide Bytes, Errors, Nonempty, Unread, Buffer.Contents, GrowthFits, Reach, ToInt;
      bufOffset := bufpos;
      ghost var all, last := |Unread()|, bufpos + Min(count - 1, |Unread()|);
      while BytesBuffered() < count
        invariant Valid() && bufpos == bufOffset && Unread() == old(Unread())
        invariant old(buf.Contents()) <= buf.Contents()
        invariant buf.storage == old(buf.storage) || fresh(buf.storage)
        invariant buf.len - old(buf.len) == |Bytes(old(socket.events))| - |Bytes(socket.events)|
        invariant Errors(socket.events) == Errors(old(socket.events))
        invariant BytesBuffered() < count ==> Reach(buf.cap, last) <= INT_MAX
        decreases |Bytes(socket.events)|
      {
        BufferedUnread();
        ReachFits(buf.cap, buf.len, last);
        rc := ReadMore();
        if rc < 0 {
          return;
        }
        if rc == 0 {
          break;
        }
      }
      rc := Take(count);
      ReadsWhole(all, count);
    }

    lemma BufferedUnread()
      requires Valid()
      ensures BytesBuffered() <= |Unread()|
    {
    }

    // Any other read, when the stream arrives a byte at a time, comes to where the buffer would have to grow beyond
    // what an int holds.
    method ReadOverflows(count: nat)
      requires Valid() && !ReadFits(count) && Dribbles(socket.events)
      modifies buf, buf.storage, socket
      ensures Valid() && BytesBuffered() < count && !GrowthFits(buf.len, buf.cap, READSIZE)
    {
      hide Bytes, Errors, Nonempty, Dribbles, Buffer.Contents;
      ghost var all, last := |Unread()|, bufpos + Min(count - 1, |Unread()|);
      while GrowthFits(buf.len, buf.cap, READSIZE)
        invariant Valid() && bufpos == old(bufpos) && |Unread()| == all && Dribbles(socket.events)
        invariant buf.storage == old(buf.storage) || fresh(buf.storage)
        invariant buf.len <= last && Reach(buf.cap, last) > INT_MAX
        decreases last - buf.len
      {
        ghost var len, cap := buf.len, buf.cap;
        NotYetLast(cap, len, last);
        ReachLater(cap, len, last);
        var rc := ReadMore();
      }
    }

    lemma NotYetLast(cap: nat, len: nat, last: nat)
      requires len <= last && len <= cap <= INT_MAX && Reach(cap, last) > INT_MAX && GrowthFits(len, cap, READSIZE)
      ensures len < last
    {
    }

    // What bufio_read does once enough is buffered, or all there is.
    method Take(count: nat) returns (bytesRead: int)
      requires Valid() && (BytesBuffered() >= count || socket.events == [])
      modifies this`bufpos
      ensures bytesRead == Min(|old(Unread())|, ToInt(count)) && bufpos == ToSize(old(bufpos) + bytesRead)
      ensures bytesRead >= 0 ==> Valid() && bufpos == old(bufpos) + bytesRead
      ensures bytesRead >= 0 ==>
        buf.Contents()[old(bufpos)..bufpos] == old(Unread())[..bytesRead] && Unread() == old(Unread())[bytesRead..]
    {
      hide Errors, Nonempty, Bytes, ToInt;
      ghost var rest := Bytes(socket.events);
      EnoughToTake(BytesBuffered(), count, socket.events);
      bytesRead := Min(BytesBuffered(), ToInt(count));
      bufpos := ToSize(bufpos + bytesRead);
      if bytesRead >= 0 {
        TakePiece(buf.Contents(), old(bufpos), bytesRead, rest);
      }
    }

    // Bytes that are not buffered do not matter.
    lemma EnoughToTake(buffered: nat, count: nat, events: seq<Event>)
      requires buffered >= count || events == []
      ensures Min(buffered + |Bytes(events)|, ToInt(count)) == Min(buffered, ToInt(count))
      ensures -INT_MAX - 1 <= ToInt(count)
    {
    }
  }

  // ----- any run of calls -----

  datatype Call = ReadLineCall | ReadCall(count: nat) | TruncateCall

  // What a call returns of a stream that is read directly.
  function Direct(stream: seq<byte>, call: Call): seq<byte> {
    match call
    case ReadLineCall => Line(stream)
    case ReadCall(count) => Prefix(stream, count)
    case TruncateCall => []
  }

  // A read of this many bytes at most is not cut short by the conversion of its count.
  predicate Whole(call: Call, available: nat) {
    call.ReadCall? ==> call.count <= INT_MAX || available <= ToInt(call.count)
  }

  ghost predicate Reads(stream: seq<byte>, calls: seq<Call>, pieces: seq<seq<byte>>, rest: seq<byte>)
    decreases |calls|
  {
    if calls == [] then pieces == [] && rest == stream
    else
      pieces != [] && pieces[0] == Direct(stream, calls[0]) <= stream &&
      Reads(stream[|pieces[0]|..], calls[1..], pieces[1..], rest)
  }

  function Concat(pieces: seq<seq<byte>>): seq<byte> {
    if pieces == [] then [] else pieces[0] + Concat(pieces[1..])
  }

  // The pieces are consecutive: with what is left they are the stream.
  lemma {:induction false} PiecesAreConsecutive(stream: seq<byte>, calls: seq<Call>, pieces: seq<seq<byte>>,
                                                rest: seq<byte>)
    requires Reads(stream, calls, pieces, rest)
    ensures Concat(pieces) + rest == stream && |pieces| == |calls|
    decreases |calls|
  {
    hide Direct;
    if calls != [] {
      var first, later := pieces[0], stream[|pieces[0]|..];
      PiecesAreConsecutive(later, calls[1..], pieces[1..], rest);
      assert stream == first + later;
      Associative(first, Concat(pieces[1..]), rest);
    }
  }

  lemma Associative(a: seq<byte>, b: seq<byte>, c: seq<byte>)
    ensures (a + b) + c == a + (b + c)
  {
  }

  // A call more.
  lemma {:induction false} ReadsOneMore(stream: seq<byte>, calls: seq<Call>, pieces: seq<seq<byte>>, unread: seq<byte>,
                                        call: Call, piece: seq<byte>, rest: seq<byte>)
    requires Reads(stream, calls, pieces, unread)
    requires piece == Direct(unread, call) && unread == piece + rest
    ensures Reads(stream, calls + [call], pieces + [piece], rest)
    decreases |calls|
  {
    hide Direct;
    if calls == [] {
      assert (calls + [call])[1..] == [] && (pieces + [piece])[1..] == [];
      assert unread[|piece|..] == rest;
    } else {
      ReadsOneMore(stream[|pieces[0]|..], calls[1..], pieces[1..], unread, call, piece, rest);
      assert (calls + [call])[1..] == calls[1..] + [call];
      assert (pieces + [piece])[1..] == pieces[1..] + [piece];
    }
  }

  // Any calls in any order: the pieces are those of the stream itself, however it arrives and whenever the
  // buffer is truncated.
  method Run(self: Bufio, calls: seq<Call>) returns (pieces: seq<seq<byte>>)
    requires self.Valid() && Errors(self.socket.events) == 0
    requires 2 * (self.buf.len + |Bytes(self.socket.events)|) + 2 * BUFSIZE <= INT_MAX
    requires forall i :: 0 <= i < |calls| ==> Whole(calls[i], |self.Unread()|)
    modifies self`bufpos, self.buf, self.buf.storage, self.socket
    ensures self.Valid() && Reads(old(self.Unread()), calls, pieces, self.Unread())
    ensures self.buf.cap <= 2 * old(self.buf.len + |Bytes(self.socket.events)|) + 2 * BUFSIZE
  {
    hide Bytes, Errors, Nonempty, Line, Direct, Reads;
    pieces := [];
    ghost var stream := self.Unread();
    ReadsNothing(stream);
    ghost var all := |stream|;
    var i := 0;
    while i < |calls|
      invariant 0 <= i <= |calls| && self.Valid() && |self.Unread()| <= all && Errors(self.socket.events) == 0
      invariant self.buf.storage == old(self.buf.storage) || fresh(self.buf.storage)
      invariant self.buf.len + |Bytes(self.socket.events)| <= old(self.buf.len + |Bytes(self.socket.events)|)
      invariant Reads(stream, calls[..i], pieces, self.Unread())
    {
      ghost var unread := self.Unread();
      var piece := CallOnce(self, calls[i]);
      ReadsOneMore(stream, calls[..i], pieces, unread, calls[i], piece, self.Unread());
      assert calls[..i + 1] == calls[..i] + [calls[i]];
      pieces := pieces + [piece];
      i := i + 1;
    }
    assert calls[..i] == calls;
  }

  lemma ReadsNothing(stream: seq<byte>)
    ensures Reads(stream, [], [], stream)
  {
  }

  method CallOnce(self: Bufio, call: Call) returns (piece: seq<byte>)
    requires self.Valid() && Errors(self.socket.events) == 0 && Whole(call, |self.Unread()|)
    requires 2 * (self.buf.len + |Bytes(self.socket.events)|) + 2 * BUFSIZE <= INT_MAX
    modifies self`bufpos, self.buf, self.buf.storage, self.socket
    ensures self.Valid() && Errors(self.socket.events) == 0
    ensures self.buf.storage == old(self.buf.storage) || fresh(self.buf.storage)
    ensures self.buf.len + |Bytes(self.socket.events)| <= old(self.buf.len + |Bytes(self.socket.events)|)
    ensures piece == Direct(old(self.Unread()), call) && old(self.Unread()) == piece + self.Unread()
  {
    hide Bytes, Errors, Nonempty, Line, Buffer.Contents;
    self.CallFits(call);
    hide Bufio.Unread, Bufio.ReadFits, Bufio.LineFits;
    match call
    case TruncateCall =>
      self.Truncate();
      piece := [];
      assert piece + self.Unread() == self.Unread();
    case ReadLineCall =>
      piece := LineOnce(self);
    case ReadCall(count) =>
      piece := ReadOnce(self, count);
  }

  method LineOnce(self: Bufio) returns (piece: seq<byte>)
    requires self.Valid() && Errors(self.socket.events) == 0 && self.LineFits()
    modifies self`bufpos, self.buf, self.buf.storage, self.socket
    ensures self.Valid() && Errors(self.socket.events) == 0
    ensures self.buf.storage == old(self.buf.storage) || fresh(self.buf.storage)
    ensures self.buf.len + |Bytes(self.socket.events)| == old(self.buf.len + |Bytes(self.socket.events)|)
    ensures piece == Line(old(self.Unread())) && old(self.Unread()) == piece + self.Unread()
  {
    hide Bytes, Errors, Nonempty, Line, Buffer.Contents, Bufio.Unread, Bufio.LineFits;
    var rc, offset := self.ReadLine();
    piece := self.buf.storage[offset..offset + rc];
    self.buf.Slice(offset, offset + rc);
  }

  method ReadOnce(self: Bufio, count: nat) returns (piece: seq<byte>)
    requires self.Valid() && Errors(self.socket.events) == 0 && self.ReadFits(count)
    requires Whole(ReadCall(count), |self.Unread()|)
    modifies self`bufpos, self.buf, self.buf.storage, self.socket
    ensures self.Valid() && Errors(self.socket.events) == 0
    ensures self.buf.storage == old(self.buf.storage) || fresh(self.buf.storage)
    ensures self.buf.len + |Bytes(self.socket.events)| == old(self.buf.len + |Bytes(self.socket.events)|)
    ensures piece == Prefix(old(self.Unread()), count) && old(self.Unread()) == piece + self.Unread()
  {
    hide Bytes, Errors, Nonempty, Buffer.Contents, Bufio.Unread, Bufio.ReadFits, ToInt;
    ghost var unread := self.Unread();
    var rc, offset := self.Read(count);
    piece := self.buf.storage[offset..offset + rc];
    self.buf.Slice(offset, offset + rc);
    assert unread == unread[..rc] + unread[rc..];
  }

  // bufio_read returns all it should for every count that an int holds, and for a larger one just when the
  // stream ends before the count as an int does.
  lemma ReadsWhole(available: nat, count: nat)
    ensures Min(available, ToInt(count)) == Min(available, count) <==> count <= INT_MAX || available <= ToInt(count)
    ensures Min(available, ToInt(count)) < 0 <==> count % (2 * (INT_MAX + 1)) > INT_MAX
  {
  }
}
