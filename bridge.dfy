/**
 * The host-side driver of the APB serial bridge (class `SerialBridge`). Each
 * operation checks its arguments, builds one request frame, hands it to the
 * transport in a single write, and then reads a fixed pattern of status and
 * data bytes back, stopping at the first status that reports SLVERR.
 */
module Bridge {
  import opened Wrappers
  import opened Wire
  import opened Replies

  /** The exceptions the driver raises: failed argument checks, and SLVERR. */
  datatype Error =
    | ConfigError(addrByteCount: int)
    | AddrOverrange(addr: int, max: int)
    | CountOutOfRange(count: int)
    | DataOverrange
    | MaskOverrange
      /** The completer rejected a transfer: operation name, byte address, and the data for writes. */
    | Slverr(op: string, addr: int, data: Option<int>)

  /**
   * The duplex byte stream handed to the bridge: the frames written so far,
   * and the bytes the peripheral sends, consumed from a read cursor.
   */
  class Iface {
    var written: seq<seq<byte>>
    const input: seq<byte>
    var pos: nat

    constructor (input: seq<byte>)
      ensures written == [] && this.input == input && pos == 0
    {
      written := [];
      this.input := input;
      pos := 0;
    }

    /** `write(bytes)`: the whole frame is sent at once. */
    method Write(frame: seq<byte>)
      modifies this
      ensures written == old(written) + [frame] && pos == old(pos)
    {
      written := written + [frame];
    }

    /** `read(n)`: exactly the next n bytes of the stream. */
    method Read(n: nat) returns (r: seq<byte>)
      requires pos + n <= |input|
      modifies this
      ensures r == input[old(pos)..old(pos) + n]
      ensures pos == old(pos) + n && written == old(written)
    {
      r := input[pos..pos + n];
      pos := pos + n;
    }
  }

  /**
   * `buf` followed by the `width` low bytes of `v`, most significant first:
   * the loop `for i in reversed(range(width)): buf.append((v >> i * 8) & 0xFF)`.
   */
  method AppendBigEndian(buf: seq<byte>, width: nat, v: int) returns (r: seq<byte>)
    ensures r == buf + BeBytes(width, v)
  {
    r := buf;
    var i := width;
    while i > 0
      invariant 0 <= i <= width
      invariant r == buf + BeBytes(width, v)[..width - i]
    {
      i := i - 1;
      BeBytesAt(width, v, width - 1 - i);
      assert BeBytes(width, v)[..width - i] == BeBytes(width, v)[..width - i - 1] + [Shr8(v, i) % 256];
      r := r + [Shr8(v, i) % 256];
    }
    assert BeBytes(width, v)[..width] == BeBytes(width, v);
  }

  /**
   * `buf` followed by every value as four big-endian bytes, in list order,
   * provided every value fits in 32 bits; otherwise "data overrange".
   */
  method AppendWords(buf: seq<byte>, values: seq<int>) returns (r: Result<seq<byte>, Error>)
    ensures r.Ok? <==> forall i :: 0 <= i < |values| ==> IsWord(values[i])
    ensures r.Ok? ==> r.value == buf + Words(values)
    ensures r.Err? ==> r.error.DataOverrange?
  {
    var tx := buf;
    var j := 0;
    while j < |values|
      invariant j <= |values|
      invariant forall i :: 0 <= i < j ==> IsWord(values[i])
      invariant tx == buf + Words(values[..j])
    {
      if !IsWord(values[j]) {
        return Err(DataOverrange);
      }
      assert values[..j + 1][..j] == values[..j];
      tx := AppendBigEndian(tx, 4, values[j]);
      j := j + 1;
    }
    assert values[..j] == values;
    r := Ok(tx);
  }

  class SerialBridge {
    const addrByteCount: nat
    const iface: Iface

    /** The address width the hardware generic allows. */
    ghost predicate Valid()
    {
      1 <= addrByteCount <= 4
    }

    constructor (addrByteCount: nat, iface: Iface)
      requires 1 <= addrByteCount <= 4
      ensures Valid() && this.addrByteCount == addrByteCount && this.iface == iface
    {
      this.addrByteCount := addrByteCount;
      this.iface := iface;
    }

    /** `SerialBridge(addr_byte_count, iface)`: refuses an address width outside 1..4. */
    static method New(addrByteCount: int, iface: Iface) returns (r: Result<SerialBridge, Error>)
      ensures r.Err? <==> !(1 <= addrByteCount <= 4)
      ensures r.Err? ==> r.error == ConfigError(addrByteCount)
      ensures r.Ok? ==> && fresh(r.value) && r.value.Valid()
                        && r.value.addrByteCount == addrByteCount && r.value.iface == iface
    {
      if !(1 <= addrByteCount <= 4) {
        return Err(ConfigError(addrByteCount));
      }
      var b := new SerialBridge(addrByteCount, iface);
      r := Ok(b);
    }

    /** The largest byte address the configured width can carry, 2^(8 * addrByteCount) - 1. */
    function MaxAddr(): (m: int)
      ensures m == Pow256(addrByteCount) - 1
    {
      Pow2Bytes(addrByteCount);
      Pow2(8 * addrByteCount) - 1
    }

    /**
     * `_check_addr_range`: the byte address lies in [0, MaxAddr()], which is
     * exactly when it survives the trip through its address bytes.
     */
    function AddrInRange(addr: int): (ok: bool)
      ensures ok <==> BeValue(BeBytes(addrByteCount, addr)) == addr
    {
      BeFits(addrByteCount, addr);
      0 <= addr <= MaxAddr()
    }

    /** `_build_addr_bytes`: the address in exactly addrByteCount bytes, most significant first. */
    method BuildAddrBytes(addr: int) returns (r: seq<byte>)
      requires Valid()
      ensures |r| == addrByteCount
      ensures AddrInRange(addr) ==> BeValue(r) == addr
      ensures r == BeBytes(addrByteCount, addr)
    {
      r := AppendBigEndian([], addrByteCount, addr);
      assert r == BeBytes(addrByteCount, addr);
    }

    /**
     * The response loop of `block_read` and `cyclic_read`: per element one
     * status byte, then four data bytes; SLVERR at the first failing status,
     * always with the start address.
     */
    method ReadElements(op: string, byteAddr: int, count: nat) returns (r: Result<seq<nat>, Error>)
      requires iface.pos + 5 * count <= |iface.input|
      modifies iface
      ensures iface.written == old(iface.written)
      ensures var reply := ReadReplies(iface.input[old(iface.pos)..], count);
        && iface.pos == old(iface.pos) + ReadConsumed(reply)
        && r == match reply
                case Values(vs) => Ok(vs)
                case Rejected(_) => Err(Slverr(op, byteAddr, None))
    {
      ghost var start := iface.pos;
      ghost var s := iface.input[start..];
      ReadRepliesSpec(s, count);
      var results: seq<nat> := [];
      var i := 0;
      while i < count
        invariant i <= count
        invariant iface.pos == start + 5 * i
        invariant iface.written == old(iface.written)
        invariant |results| == i
        invariant forall j :: 0 <= j < i ==> !IsSlvErr(ReadStatus(s, j)) && results[j] == ReadWord(s, j)
      {
        var status := iface.Read(1);
        assert status[0] == ReadStatus(s, i);
        if IsSlvErr(status[0]) {
          var reply := ReadReplies(s, count);
          assert reply.Rejected? && reply.index == i;
          return Err(Slverr(op, byteAddr, None));
        }
        var rx := iface.Read(4);
        assert rx == s[5 * i + 1..5 * i + 5];
        results := results + [BeValue(rx)];
        i := i + 1;
      }
      assert ReadReplies(s, count).values == results;
      r := Ok(results);
    }

    /**
     * The status loop of `block_write` and `cyclic_write`: one status byte per
     * value; SLVERR at the first failing status, with that value and the
     * address `byteAddr + idx * step`.
     */
    method ReadWriteStatuses(op: string, byteAddr: int, step: int, values: seq<int>) returns (r: Result<(), Error>)
      requires iface.pos + |values| <= |iface.input|
      modifies iface
      ensures iface.written == old(iface.written)
      ensures var k := FirstRejected(iface.input[old(iface.pos)..], |values|);
        && iface.pos == old(iface.pos) + WriteConsumed(k, |values|)
        && r == match k
                case None => Ok(())
                case Some(idx) => Err(Slverr(op, byteAddr + idx * step, Some(values[idx])))
    {
      ghost var start := iface.pos;
      ghost var s := iface.input[start..];
      FirstRejectedSpec(s, |values|);
      var idx := 0;
      while idx < |values|
        invariant idx <= |values|
        invariant iface.pos == start + idx
        invariant iface.written == old(iface.written)
        invariant forall j :: 0 <= j < idx ==> !IsSlvErr(s[j])
      {
        var status := iface.Read(1);
        assert status[0] == s[idx];
        if IsSlvErr(status[0]) {
          var k := FirstRejected(s, |values|);
          assert k == Some(idx);
          return Err(Slverr(op, byteAddr + idx * step, Some(values[idx])));
        }
        idx := idx + 1;
      }
      r := Ok(());
    }

    /** `read(addr)`: one register; the result is the word after a good status. */
    method Read(addr: int) returns (r: Result<nat, Error>)
      requires Valid()
      requires AddrInRange(addr * 4) ==> iface.pos + 5 <= |iface.input|
      modifies iface
      ensures !AddrInRange(addr * 4) ==>
        r == Err(AddrOverrange(addr * 4, MaxAddr())) && unchanged(iface)
      ensures AddrInRange(addr * 4) ==>
        && iface.written == old(iface.written) + [Frame(Kind.Read, 0, addrByteCount, addr * 4, [])]
        && var s := iface.input[old(iface.pos)..];
           if IsSlvErr(s[0]) then
             r == Err(Slverr("read", addr * 4, None)) && iface.pos == old(iface.pos) + 1
           else
             r == Ok(BeValue(s[1..5])) && iface.pos == old(iface.pos) + 5
    {
      var a := addr * 4;
      if !AddrInRange(a) {
        return Err(AddrOverrange(a, MaxAddr()));
      }
      var tx := [Header(Kind.Read, 0)];
      var addrBytes := BuildAddrBytes(a);
      tx := tx + addrBytes;
      assert tx == Frame(Kind.Read, 0, addrByteCount, a, []);
      iface.Write(tx);
      var status := iface.Read(1);
      if IsSlvErr(status[0]) {
        return Err(Slverr("read", a, None));
      }
      var rx := iface.Read(4);
      assert rx == iface.input[old(iface.pos)..][1..5];
      r := Ok(BeValue(rx));
    }

    /** `write(addr, data)`: one register, one status byte. */
    method Write(addr: int, data: int) returns (r: Result<(), Error>)
      requires Valid()
      requires AddrInRange(addr * 4) && IsWord(data) ==> iface.pos + 1 <= |iface.input|
      modifies iface
      ensures !AddrInRange(addr * 4) ==>
        r == Err(AddrOverrange(addr * 4, MaxAddr())) && unchanged(iface)
      ensures AddrInRange(addr * 4) && !IsWord(data) ==>
        r == Err(DataOverrange) && unchanged(iface)
      ensures AddrInRange(addr * 4) && IsWord(data) ==>
        && iface.written == old(iface.written) + [Frame(Kind.Write, 0, addrByteCount, addr * 4, [data])]
        && iface.pos == old(iface.pos) + 1
        && r == if IsSlvErr(iface.input[old(iface.pos)])
                then Err(Slverr("write", addr * 4, Some(data)))
                else Ok(())
    {
      var a := addr * 4;
      if !AddrInRange(a) {
        return Err(AddrOverrange(a, MaxAddr()));
      }
      if !IsWord(data) {
        return Err(DataOverrange);
      }
      var tx := [Header(Kind.Write, 0)];
      var addrBytes := BuildAddrBytes(a);
      tx := tx + addrBytes;
      tx := AppendBigEndian(tx, 4, data);
      assert Words([data]) == BeBytes(4, data);
      assert tx == Frame(Kind.Write, 0, addrByteCount, a, [data]);
      iface.Write(tx);
      var status := iface.Read(1);
      if IsSlvErr(status[0]) {
        return Err(Slverr("write", a, Some(data)));
      }
      r := Ok(());
    }

    /** The argument checks shared by `block_read` and `cyclic_read`, in the driver's order. */
    function ReadArgsError(addr: int, count: int): (e: Option<Error>)
      ensures e.None? <==> AddrInRange(addr * 4) && 1 <= count <= 256
    {
      if !AddrInRange(addr * 4) then Some(AddrOverrange(addr * 4, MaxAddr()))
      else if !(1 <= count <= 256) then Some(CountOutOfRange(count))
      else None
    }

    /** `block_read(addr, count)`: `count` consecutive registers from one frame. */
    method BlockRead(addr: int, count: int) returns (r: Result<seq<nat>, Error>)
      requires Valid()
      requires ReadArgsError(addr, count).None? ==> iface.pos + 5 * count <= |iface.input|
      modifies iface
      ensures ReadArgsError(addr, count).Some? ==>
        r == Err(ReadArgsError(addr, count).value) && unchanged(iface)
      ensures ReadArgsError(addr, count).None? ==>
        && iface.written == old(iface.written) + [Frame(Kind.BlockRead, count - 1, addrByteCount, addr * 4, [])]
        && var reply := ReadReplies(iface.input[old(iface.pos)..], count);
           && iface.pos == old(iface.pos) + ReadConsumed(reply)
           && r == match reply
                   case Values(vs) => Ok(vs)
                   case Rejected(_) => Err(Slverr("block_read", addr * 4, None))
    {
      var a := addr * 4;
      if !AddrInRange(a) {
        return Err(AddrOverrange(a, MaxAddr()));
      }
      if !(1 <= count <= 256) {
        return Err(CountOutOfRange(count));
      }
      var tx := [Header(Kind.BlockRead, count - 1)];
      var addrBytes := BuildAddrBytes(a);
      tx := tx + addrBytes;
      assert tx == Frame(Kind.BlockRead, count - 1, addrByteCount, a, []);
      iface.Write(tx);
      r := ReadElements("block_read", a, count);
    }

    /** `cyclic_read(addr, count)`: `count` reads of the same register (a FIFO). */
    method CyclicRead(addr: int, count: int) returns (r: Result<seq<nat>, Error>)
      requires Valid()
      requires ReadArgsError(addr, count).None? ==> iface.pos + 5 * count <= |iface.input|
      modifies iface
      ensures ReadArgsError(addr, count).Some? ==>
        r == Err(ReadArgsError(addr, count).value) && unchanged(iface)
      ensures ReadArgsError(addr, count).None? ==>
        && iface.written == old(iface.written) + [Frame(Kind.CyclicRead, count - 1, addrByteCount, addr * 4, [])]
        && var reply := ReadReplies(iface.input[old(iface.pos)..], count);
           && iface.pos == old(iface.pos) + ReadConsumed(reply)
           && r == match reply
                   case Values(vs) => Ok(vs)
                   case Rejected(_) => Err(Slverr("cyclic_read", addr * 4, None))
    {
      var a := addr * 4;
      if !AddrInRange(a) {
        return Err(AddrOverrange(a, MaxAddr()));
      }
      if !(1 <= count <= 256) {
        return Err(CountOutOfRange(count));
      }
      var tx := [Header(Kind.CyclicRead, count - 1)];
      var addrBytes := BuildAddrBytes(a);
      tx := tx + addrBytes;
      assert tx == Frame(Kind.CyclicRead, count - 1, addrByteCount, a, []);
      iface.Write(tx);
      r := ReadElements("cyclic_read", a, count);
    }

    /**
     * The argument checks shared by `block_write` and `cyclic_write`, in the
     * driver's order: address, list length, then each value.
     */
    function WriteArgsError(addr: int, values: seq<int>): (e: Option<Error>)
      ensures e.None? <==>
        && AddrInRange(addr * 4) && 1 <= |values| <= 256
        && forall i :: 0 <= i < |values| ==> IsWord(values[i])
    {
      if !AddrInRange(addr * 4) then Some(AddrOverrange(addr * 4, MaxAddr()))
      else if !(1 <= |values| <= 256) then Some(CountOutOfRange(|values|))
      else if exists i :: 0 <= i < |values| && !IsWord(values[i]) then Some(DataOverrange)
      else None
    }

    /** `block_write(addr, data_list)`: consecutive registers, the failing one's address reported. */
    method BlockWrite(addr: int, values: seq<int>) returns (r: Result<(), Error>)
      requires Valid()
      requires WriteArgsError(addr, values).None? ==> iface.pos + |values| <= |iface.input|
      modifies iface
      ensures WriteArgsError(addr, values).Some? ==>
        r == Err(WriteArgsError(addr, values).value) && unchanged(iface)
      ensures WriteArgsError(addr, values).None? ==>
        && iface.written == old(iface.written) + [Frame(Kind.BlockWrite, |values| - 1, addrByteCount, addr * 4, values)]
        && var k := FirstRejected(iface.input[old(iface.pos)..], |values|);
           && iface.pos == old(iface.pos) + WriteConsumed(k, |values|)
           && r == match k
                   case None => Ok(())
                   case Some(idx) => Err(Slverr("block_write", addr * 4 + idx * 4, Some(values[idx])))
    {
      var a := addr * 4;
      if !AddrInRange(a) {
        return Err(AddrOverrange(a, MaxAddr()));
      }
      if !(1 <= |values| <= 256) {
        return Err(CountOutOfRange(|values|));
      }
      var tx := [Header(Kind.BlockWrite, |values| - 1)];
      var addrBytes := BuildAddrBytes(a);
      tx := tx + addrBytes;
      var framed := AppendWords(tx, values);
      if framed.Err? {
        return Err(framed.error);
      }
      iface.Write(framed.value);
      r := ReadWriteStatuses("block_write", a, 4, values);
    }

    /** `cyclic_write(addr, data_list)`: the same register every time, the start address reported. */
    method CyclicWrite(addr: int, values: seq<int>) returns (r: Result<(), Error>)
      requires Valid()
      requires WriteArgsError(addr, values).None? ==> iface.pos + |values| <= |iface.input|
      modifies iface
      ensures WriteArgsError(addr, values).Some? ==>
        r == Err(WriteArgsError(addr, values).value) && unchanged(iface)
      ensures WriteArgsError(addr, values).None? ==>
        && iface.written == old(iface.written) + [Frame(Kind.CyclicWrite, |values| - 1, addrByteCount, addr * 4, values)]
        && var k := FirstRejected(iface.input[old(iface.pos)..], |values|);
           && iface.pos == old(iface.pos) + WriteConsumed(k, |values|)
           && r == match k
                   case None => Ok(())
                   case Some(idx) => Err(Slverr("cyclic_write", addr * 4, Some(values[idx])))
    {
      var a := addr * 4;
      if !AddrInRange(a) {
        return Err(AddrOverrange(a, MaxAddr()));
      }
      if !(1 <= |values| <= 256) {
        return Err(CountOutOfRange(|values|));
      }
      var tx := [Header(Kind.CyclicWrite, |values| - 1)];
      var addrBytes := BuildAddrBytes(a);
      tx := tx + addrBytes;
      var framed := AppendWords(tx, values);
      if framed.Err? {
        return Err(framed.error);
      }
      iface.Write(framed.value);
      r := ReadWriteStatuses("cyclic_write", a, 0, values);
    }

    /** The argument checks of `rmw`, in the driver's order. */
    function RmwArgsError(addr: int, data: int, mask: int): (e: Option<Error>)
      ensures e.None? <==> AddrInRange(addr * 4) && IsWord(data) && IsWord(mask)
    {
      if !AddrInRange(addr * 4) then Some(AddrOverrange(addr * 4, MaxAddr()))
      else if !IsWord(data) then Some(DataOverrange)
      else if !IsWord(mask) then Some(MaskOverrange)
      else None
    }

    /**
     * `rmw(addr, data, mask)`: data and mask in one frame; a read-phase status,
     * then, only if that one is good, a write-phase status.
     */
    method Rmw(addr: int, data: int, mask: int) returns (r: Result<(), Error>)
      requires Valid()
      requires RmwArgsError(addr, data, mask).None? ==> iface.pos + 2 <= |iface.input|
      modifies iface
      ensures RmwArgsError(addr, data, mask).Some? ==>
        r == Err(RmwArgsError(addr, data, mask).value) && unchanged(iface)
      ensures RmwArgsError(addr, data, mask).None? ==>
        && iface.written == old(iface.written) + [Frame(Kind.Rmw, 0, addrByteCount, addr * 4, [data, mask])]
        && var s := iface.input[old(iface.pos)..];
           if IsSlvErr(s[0]) then
             r == Err(Slverr("rmw read phase", addr * 4, None)) && iface.pos == old(iface.pos) + 1
           else if IsSlvErr(s[1]) then
             r == Err(Slverr("rmw write phase", addr * 4, None)) && iface.pos == old(iface.pos) + 2
           else
             r == Ok(()) && iface.pos == old(iface.pos) + 2
    {
      var a := addr * 4;
      if !AddrInRange(a) {
        return Err(AddrOverrange(a, MaxAddr()));
      }
      if !IsWord(data) {
        return Err(DataOverrange);
      }
      if !IsWord(mask) {
        return Err(MaskOverrange);
      }
      var tx := [Header(Kind.Rmw, 0)];
      var addrBytes := BuildAddrBytes(a);
      tx := tx + addrBytes;
      tx := AppendBigEndian(tx, 4, data);
      tx := AppendBigEndian(tx, 4, mask);
      assert Words([data, mask]) == BeBytes(4, data) + BeBytes(4, mask) by {
        assert [data, mask][..1] == [data];
      }
      assert tx == Frame(Kind.Rmw, 0, addrByteCount, a, [data, mask]);
      iface.Write(tx);
      var status := iface.Read(1);
      if IsSlvErr(status[0]) {
        return Err(Slverr("rmw read phase", a, None));
      }
      status := iface.Read(1);
      if IsSlvErr(status[0]) {
        return Err(Slverr("rmw write phase", a, None));
      }
      r := Ok(());
    }
  }
}
