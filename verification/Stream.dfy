/** A socket with its read-ahead buffer, and the line reader on top of it. */
module Stream {
  import opened Text

  const READ_BUFF_SIZE: nat := 4096

  lemma Shift(d: string, x: string, y: string, z: string)
    ensures d + (x + y + z) == d + x + (y + z) && x + y + z == x + (y + z)
    ensures y == "" ==> x + z == x + (y + z)
    ensures d + (x + y) == d + x + y
  {
  }

  /** One direction of a connection. `all` is everything the peer sends before it closes, of which
      `incoming` has not been returned by recv yet; `delivered` is what Read has returned. */
  class SocketStream {
    ghost const all: string
    var incoming: string
    ghost var delivered: string
    ghost var failures: nat
    const readBuff: array<char>
    var off: nat
    var contentSize: nat

    ghost predicate Valid()
      reads this, readBuff
    {
      readBuff.Length == READ_BUFF_SIZE && contentSize <= READ_BUFF_SIZE && delivered + Pending() == all
    }

    /** Bytes received from the socket and not yet delivered. */
    ghost function Buffered(): string
      reads this, readBuff
      requires contentSize <= readBuff.Length
    {
      if off < contentSize then readBuff[off..contentSize] else ""
    }

    ghost function Pending(): string
      reads this, readBuff
      requires contentSize <= readBuff.Length
    {
      Buffered() + incoming
    }

    constructor (bytes: string)
      ensures Valid() && fresh(readBuff) && all == bytes && delivered == "" && failures == 0
      ensures Pending() == bytes
    {
      all, incoming, delivered, failures := bytes, bytes, "", 0;
      readBuff := new char[READ_BUFF_SIZE](_ => '\0');
      off, contentSize := 0, 0;
    }

    /** recv: any positive number of the bytes that are coming, 0 at the end, or an error. */
    method ReadSocket(size: nat) returns (n: int, bytes: string)
      modifies this`incoming
      ensures -1 <= n <= size && (n >= 0 ==> |bytes| == n && old(incoming) == bytes + incoming)
      ensures n < 0 ==> incoming == old(incoming)
      ensures n == 0 && size > 0 ==> old(incoming) == ""
    {
      if * { return -1, ""; }
      var most := if size <= |incoming| then size else |incoming|;
      n :| (if most > 0 then 1 else 0) <= n <= most;
      bytes := incoming[..n];
      incoming := incoming[n..];
    }

    method IsReadable() returns (r: bool) { r :| true; }

    /** Serves a read from the read-ahead buffer. */
    method ReadBuffered(size: nat) returns (data: string)
      requires Valid() && off < contentSize
      modifies this`delivered, this`off
      ensures Valid() && |data| <= size && (size > 0 ==> data != "")
      ensures delivered == old(delivered) + data && old(Pending()) == data + Pending()
    {
      var remaining := contentSize - off;
      var take := if size <= remaining then size else remaining;
      ghost var was := Buffered();
      data := readBuff[off..off + take];
      off := off + take;
      assert was == data + Buffered();
      Shift(delivered, data, Buffered(), incoming);
      delivered := delivered + data;
    }

    /** Serves a read from the socket, filling the buffer first when the read is a short one. */
    method ReadFresh(size: nat) returns (n: int, data: string)
      requires Valid() && off >= contentSize
      modifies this`incoming, this`delivered, this`off, this`contentSize, readBuff
      ensures Valid() && -1 <= n <= size && |data| == (if n < 0 then 0 else n)
      ensures delivered == old(delivered) + data && old(Pending()) == data + Pending()
      ensures n == 0 && size > 0 ==> old(Pending()) == ""
    {
      off, contentSize := 0, 0;
      assert Buffered() == "" && "" + incoming == incoming;
      var bytes;
      n, bytes := ReadSocket(if size < READ_BUFF_SIZE then READ_BUFF_SIZE else size);
      if n <= 0 { return n, ""; }
      if n <= size {
        Shift(delivered, bytes, "", incoming);
        delivered := delivered + bytes;
        return n, bytes;
      }
      forall i | 0 <= i < n { readBuff[i] := bytes[i]; }
      assert readBuff[..n] == bytes;
      data := bytes[..size];
      off, contentSize := size, n;
      assert bytes == data + Buffered();
      Shift(delivered, data, Buffered(), incoming);
      delivered := delivered + data;
      return size, data;
    }

    /** The bytes that were delivered before the call, those of the call and those still pending
        are always all the bytes of the connection, in order. */
    method Read(size: nat) returns (n: int, data: string)
      requires Valid()
      modifies this`incoming, this`delivered, this`failures, this`off, this`contentSize, readBuff
      ensures Valid() && -1 <= n <= size && |data| == (if n < 0 then 0 else n)
      ensures delivered == old(delivered) + data && old(Pending()) == data + Pending()
      ensures failures == old(failures) + (if n < 0 then 1 else 0)
      ensures n == 0 && size > 0 ==> old(Pending()) == ""
    {
      if off < contentSize {
        data := ReadBuffered(size);
        return |data|, data;
      }
      var readable := IsReadable();
      if readable {
        n, data := ReadFresh(size);
      } else {
        n, data := -1, "";
      }
      if n < 0 { failures := failures + 1; }
    }
  }

  /** Length of the first line of `p` with its newline, or of all of `p` when it has none. */
  function LineLen(p: string): (k: nat)
    ensures k <= |p|
  {
    var i := Find(p, "\n");
    if i < |p| then i + 1 else |p|
  }

  /** Reads lines into a fixed buffer that overflows into a growing one. */
  class LineReader {
    const strm: SocketStream
    const fixed: array<char>
    var used: nat
    var growable: string

    ghost predicate Valid()
      reads this, fixed, strm, strm.readBuff
    {
      && fixed.Length >= 2 && used < fixed.Length && strm.Valid() && fixed != strm.readBuff
      && (used > 0 ==> fixed[used] == '\0')
      && (growable != "" ==> used == fixed.Length - 1)
    }

    constructor (strm: SocketStream, fixed: array<char>)
      requires fixed.Length >= 2 && strm.Valid() && fixed != strm.readBuff
      ensures Valid() && this.strm == strm && this.fixed == fixed && Line() == ""
    {
      this.strm, this.fixed := strm, fixed;
      used, growable := 0, "";
    }

    /** The `size` bytes at `ptr`. */
    function Line(): string
      reads this, fixed
      requires used < fixed.Length
    {
      if growable == "" then fixed[..used] else growable
    }

    method Append(c: char)
      requires Valid()
      modifies this`used, this`growable, fixed
      ensures Valid() && Line() == old(Line()) + [c]
      ensures strm.Pending() == old(strm.Pending())
    {
      if used < fixed.Length - 1 {
        fixed[used] := c;
        used := used + 1;
        fixed[used] := '\0';
        assert fixed[..used] == old(fixed[..used]) + [c];
      } else {
        if growable == "" {
          assert fixed[used] == '\0';
          growable := fixed[..used];
        }
        growable := growable + [c];
      }
    }

    /** One turn of getline: a byte moves from the stream to the line. */
    method TakeByte() returns (n: int, byte: char)
      requires Valid()
      modifies this`used, this`growable, fixed
      modifies strm`incoming, strm`delivered, strm`failures, strm`off, strm`contentSize, strm.readBuff
      ensures Valid() && -1 <= n <= 1
      ensures strm.failures == old(strm.failures) + (if n < 0 then 1 else 0)
      ensures var took := if n == 1 then [byte] else "";
              && Line() == old(Line()) + took && strm.delivered == old(strm.delivered) + took
              && old(strm.Pending()) == took + strm.Pending()
      ensures n == 0 ==> old(strm.Pending()) == ""
    {
      var data;
      byte := '\0';
      n, data := strm.Read(1);
      if n == 1 {
        byte := data[0];
        Append(byte);
        assert data == [byte];
      }
    }

    /** One call takes exactly the next line off the stream, unless a read fails. */
    method GetLine() returns (ok: bool)
      requires Valid()
      modifies this`used, this`growable, fixed
      modifies strm`incoming, strm`delivered, strm`failures, strm`off, strm`contentSize, strm.readBuff
      ensures Valid() && strm.failures >= old(strm.failures)
      ensures strm.delivered == old(strm.delivered) + Line() && old(strm.Pending()) == Line() + strm.Pending()
      ensures strm.failures != old(strm.failures) ==> !ok
      ensures var p := old(strm.Pending());
              strm.failures == old(strm.failures) ==> ok == (p != "") && Line() == p[..LineLen(p)]
    {
      used := 0;
      growable := "";
      ghost var p := strm.Pending();
      var i := 0;
      while true
        invariant Valid() && i == |Line()| && strm.failures == old(strm.failures)
        invariant strm.delivered == old(strm.delivered) + Line() && p == Line() + strm.Pending()
        invariant forall k | 0 <= k < i :: Line()[k] != '\n'
        decreases |strm.Pending()|
      {
        ghost var line := Line();
        var n, byte := TakeByte();
        Moved(old(strm.delivered), p, line, if n == 1 then [byte] else "", strm.Pending());
        if n < 0 { return false; }
        if n == 0 {
          ok := i != 0;
          break;
        }
        if byte == '\n' {
          ok := true;
          break;
        }
        i := i + 1;
      }
      LineEnds(p, Line(), strm.Pending());
    }
  }

  /** `line` is the first line of what it was taken from. */
  ghost predicate IsLine(line: string, rest: string) {
    && (forall k | 0 <= k < |line| - 1 :: line[k] != '\n')
    && (rest == "" || (line != "" && line[|line| - 1] == '\n'))
  }

  lemma Moved(d: string, p: string, line: string, took: string, rest: string)
    requires p == line + (took + rest)
    ensures d + line + took == d + (line + took) && p == line + took + rest
  {
  }

  lemma LineEnds(p: string, line: string, rest: string)
    requires p == line + rest && IsLine(line, rest)
    ensures p[..LineLen(p)] == line
  {
    FindFirst(p, "\n");
    forall i | 0 <= i < |line| ensures At(p, i, "\n") <==> line[i] == '\n' {
      assert p[i..i + 1] == [line[i]];
    }
    if line != "" && line[|line| - 1] == '\n' { FindIs(p, "\n", |line| - 1); }
  }
}
