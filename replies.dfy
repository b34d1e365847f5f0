/**
 * What the bridge reads back after a request frame. Read-family transfers
 * answer each element with a status byte followed, on success, by a
 * big-endian 32-bit word; write-family transfers answer each element with a
 * status byte alone. The driver stops at the first status whose bit 7
 * (SLVERR) is set. These functions describe that outcome on the stream of
 * bytes the peripheral sends.
 */
module Replies {
  import opened Wrappers
  import opened Wire

  /** `(status & 0x80) != 0`: the completer answered SLVERR. Bits 6:0 are ignored. */
  predicate IsSlvErr(status: byte): (err: bool)
    ensures err <==> status >= 0x80
  {
    (status as bv8) & 0x80 != 0
  }

  /** The status byte of element i of a read-family response. */
  function ReadStatus(s: seq<byte>, i: nat): byte
    requires 5 * i < |s|
  {
    s[5 * i]
  }

  /** The data word of element i of a read-family response. */
  function ReadWord(s: seq<byte>, i: nat): nat
    requires 5 * i + 5 <= |s|
  {
    BeValue(s[5 * i + 1..5 * i + 5])
  }

  /** All words read, or the index of the first element answered with SLVERR. */
  datatype ReadReply = Values(values: seq<nat>) | Rejected(index: nat)

  /** Element-by-element reading of `count` read replies, stopping at the first SLVERR. */
  function ReadReplies(s: seq<byte>, count: nat): (r: ReadReply)
    requires 5 * count <= |s|
    ensures r.Values? ==> |r.values| == count
    ensures r.Rejected? ==> r.index < count
    decreases count
  {
    if count == 0 then Values([])
    else if IsSlvErr(s[0]) then Rejected(0)
    else match ReadReplies(s[5..], count - 1)
      case Values(vs) => Values([BeValue(s[1..5])] + vs)
      case Rejected(k) => Rejected(k + 1)
  }

  /** Bytes taken from the stream: five per good element, one for the failing status. */
  function ReadConsumed(r: ReadReply): (c: nat)
    ensures c % 5 == (if r.Rejected? then 1 else 0)
  {
    match r
    case Values(vs) => 5 * |vs|
    case Rejected(k) => 5 * k + 1
  }

  /**
   * The reading succeeds exactly when no status among the `count` elements has
   * bit 7 set; it then yields `count` words, word i decoded from the four bytes
   * after status i, having consumed 5 * count bytes. Otherwise it names the
   * first failing element k, and has consumed 5 * k + 1 bytes: the words of
   * the failing element and the elements after it are not read.
   */
  lemma {:induction false} ReadRepliesSpec(s: seq<byte>, count: nat)
    requires 5 * count <= |s|
    ensures var r := ReadReplies(s, count);
      && (r.Values? <==> forall i :: 0 <= i < count ==> !IsSlvErr(ReadStatus(s, i)))
      && (r.Values? ==>
            && |r.values| == count
            && (forall i :: 0 <= i < count ==> r.values[i] == ReadWord(s, i))
            && ReadConsumed(r) == 5 * count)
      && (r.Rejected? ==>
            && r.index < count
            && IsSlvErr(ReadStatus(s, r.index))
            && (forall i :: 0 <= i < r.index ==> !IsSlvErr(ReadStatus(s, i)))
            && ReadConsumed(r) == 5 * r.index + 1)
    decreases count
  {
    if count > 0 && !IsSlvErr(s[0]) {
      var t := s[5..];
      ReadRepliesSpec(t, count - 1);
      forall i | 0 <= i < count - 1
        ensures ReadStatus(t, i) == ReadStatus(s, i + 1)
        ensures ReadWord(t, i) == ReadWord(s, i + 1)
      {
        assert t[5 * i + 1..5 * i + 5] == s[5 * (i + 1) + 1..5 * (i + 1) + 5];
      }
      assert ReadStatus(s, 0) == s[0];
      assert ReadWord(s, 0) == BeValue(s[1..5]);
      var r := ReadReplies(s, count);
      if r.Rejected? {
        assert forall i :: 0 <= i < r.index ==> !IsSlvErr(ReadStatus(s, i)) by {
          forall i | 0 <= i < r.index ensures !IsSlvErr(ReadStatus(s, i)) {
            if i > 0 { assert ReadStatus(s, i) == ReadStatus(t, i - 1); }
          }
        }
      } else {
        forall i | 0 <= i < count
          ensures r.values[i] == ReadWord(s, i) && !IsSlvErr(ReadStatus(s, i))
        {
          if i > 0 {
            assert ReadWord(s, i) == ReadWord(t, i - 1);
            assert ReadStatus(s, i) == ReadStatus(t, i - 1);
          }
        }
      }
      if forall i :: 0 <= i < count ==> !IsSlvErr(ReadStatus(s, i)) {
        assert forall i :: 0 <= i < count - 1 ==> !IsSlvErr(ReadStatus(t, i)) by {
          forall i | 0 <= i < count - 1 ensures !IsSlvErr(ReadStatus(t, i)) {
            assert ReadStatus(t, i) == ReadStatus(s, i + 1);
          }
        }
      }
    } else if count > 0 {
      assert ReadStatus(s, 0) == s[0];
    }
  }

  /** The index of the first of `count` write statuses with bit 7 set, if any. */
  function FirstRejected(s: seq<byte>, count: nat): (r: Option<nat>)
    requires count <= |s|
    ensures r.Some? ==> r.value < count
    decreases count
  {
    if count == 0 then None
    else if IsSlvErr(s[0]) then Some(0)
    else match FirstRejected(s[1..], count - 1)
      case None => None
      case Some(k) => Some(k + 1)
  }

  /** Status bytes taken from the stream: all of them, or up to and including the failing one. */
  function WriteConsumed(r: Option<nat>, count: nat): (c: nat)
    ensures (r.None? || r.value < count) ==> c <= count
  {
    match r
    case None => count
    case Some(k) => k + 1
  }

  /**
   * No index is reported exactly when none of the `count` statuses has bit 7
   * set; an index reported is the first such status.
   */
  lemma {:induction false} FirstRejectedSpec(s: seq<byte>, count: nat)
    requires count <= |s|
    ensures var r := FirstRejected(s, count);
      && (r.None? <==> forall i :: 0 <= i < count ==> !IsSlvErr(s[i]))
      && (r.Some? ==> IsSlvErr(s[r.value]) && forall i :: 0 <= i < r.value ==> !IsSlvErr(s[i]))
      && WriteConsumed(r, count) <= count
    decreases count
  {
    if count > 0 && !IsSlvErr(s[0]) {
      FirstRejectedSpec(s[1..], count - 1);
      assert forall i :: 1 <= i < count ==> s[i] == s[1..][i - 1];
    }
  }

  /** What a peripheral sends when every element of a read succeeds with the given words. */
  function GoodReadStream(vs: seq<nat>): (s: seq<byte>)
    ensures |s| == 5 * |vs|
  {
    if vs == [] then [] else [0] + BeBytes(4, vs[0]) + GoodReadStream(vs[1..])
  }

  /**
   * 32-bit words sent back as successful read replies are read back as the
   * same list, in the same order.
   */
  lemma {:induction false} EchoRoundTrip(vs: seq<nat>)
    requires forall i :: 0 <= i < |vs| ==> IsWord(vs[i])
    ensures ReadReplies(GoodReadStream(vs), |vs|) == Values(vs)
  {
    if vs != [] {
      var s := GoodReadStream(vs);
      EchoRoundTrip(vs[1..]);
      assert s[1..5] == BeBytes(4, vs[0]);
      assert s[5..] == GoodReadStream(vs[1..]);
      assert !IsSlvErr(s[0]);
      WordRoundTrip(vs[0]);
      assert [vs[0]] + vs[1..] == vs;
    }
  }

  /**
   * A block write followed by a block read of a peripheral that stores the
   * words it received: the words the read returns are the words the write
   * carried, in the same order.
   */
  lemma BlockWriteThenRead(width: nat, addr: int, vs: seq<nat>)
    requires 0 <= addr < Pow256(width)
    requires forall i :: 0 <= i < |vs| ==> IsWord(vs[i])
    ensures var f := Frame(Kind.BlockWrite, |vs| - 1, width, addr, vs);
      ReadReplies(GoodReadStream(PayloadWords(f, width, |vs|)), |vs|) == Values(vs)
  {
    PayloadRoundTrip(Kind.BlockWrite, |vs| - 1, width, addr, vs);
    EchoRoundTrip(vs);
  }

  /**
   * What the completer does with an RMW request (it is not computed by the
   * driver): the bits selected by `mask` come from `data`, the rest from the
   * old register value.
   */
  function RmwUpdate(previous: bv32, data: bv32, mask: bv32): (r: bv32)
    ensures r & mask == data & mask
    ensures r & !mask == previous & !mask
  {
    (previous & !mask) | (data & mask)
  }

  /** Setting the low nibble of 0xAB to 0xF gives 0xAF. */
  lemma RmwLowNibble()
    ensures RmwUpdate(0xAB, 0xF, 0xF) == 0xAF
  {
  }
}
