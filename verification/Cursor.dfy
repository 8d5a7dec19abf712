/** The splitting write cursor (shared/cursor/src/lib.rs) and the packet cursor that tracks the
    length of a packet (kernel/src/net/packet.rs).

    All cursors over one buffer share it; a cursor sees the part from `lo` on. */
module Cursors {
  import opened Machine

  /** `Option<usize>` of the source, plus the overflow of its unchecked sum. */
  datatype MoveResult = Moved(total: nat) | Beyond | MoveOverflow

  /** `Option<(usize, usize)>` of the source, plus its panics: the overflow above, and the slice index behind
      an unchecked buffer end. */
  datatype WriteResult = Wrote(from: nat, to: nat) | Full | WritePanicked

  /** `s` with `d` written over it from position `at` on. */
  function Overlay<T>(s: seq<T>, at: nat, d: seq<T>): (r: seq<T>)
    requires at + |d| <= |s|
    ensures |r| == |s|
    ensures forall i :: 0 <= i < |s| ==> r[i] == if at <= i < at + |d| then d[i - at] else s[i]
  {
    s[..at] + d + s[at + |d|..]
  }

  class Cursor {
    const buf: array<byte>
    const limit: nat
    var lo: nat    // summed length of everything split off so far
    var pos: nat
    var total: nat

    /** The overall position is the absolute one, and it never passes the limit. */
    ghost predicate Valid()
      reads this
    {
      lo <= buf.Length <= U64_MAX && total == lo + pos <= limit <= U64_MAX
    }

    constructor (buf: array<byte>, limit: nat)
      requires buf.Length <= U64_MAX && limit <= U64_MAX
      ensures Valid() && this.buf == buf && this.limit == limit && lo == pos == total == 0
    {
      this.buf, this.limit, lo, pos, total := buf, limit, 0, 0, 0;
    }

    /** The length of the buffer is not checked, only the limit. */
    method TrySetPosition(p: u64) returns (r: MoveResult)
      requires Valid()
      modifies this
      ensures Valid() && lo == old(lo)
      ensures r.Moved? <==> lo + p <= limit
      ensures r.MoveOverflow? <==> lo + p > U64_MAX
      ensures r.Moved? ==> pos == p && r.total == total
      ensures !r.Moved? ==> pos == old(pos) && total == old(total)
    {
      if p == pos {
        return Moved(total);
      } else if p > pos {
        var sum := total + (p - pos);
        if sum > U64_MAX {
          return MoveOverflow;
        }
        if sum > limit {
          return Beyond;
        }
        total, pos := sum, p;
        return Moved(total);
      } else {
        var delta := pos - p;
        total, pos := total - delta, p;
        return Moved(total);
      }
    }

    /** Writes at the absolute position; a refused write changes nothing. */
    method Write(data: seq<byte>) returns (r: WriteResult)
      requires Valid() && |data| <= U64_MAX
      modifies this, buf
      ensures Valid() && lo == old(lo)
      ensures r.Full? <==> old(pos) + |data| > U64_MAX || limit < old(total) + |data| <= U64_MAX
      ensures r.Full? ==> pos == old(pos) && total == old(total) && buf[..] == old(buf[..])
      ensures r.Wrote? <==> old(total) + |data| <= limit && old(total) + |data| <= buf.Length
      ensures r.Wrote? ==> r == Wrote(old(pos), old(pos) + |data|) && total == old(total) + |data|
                           && buf[..] == Overlay(old(buf[..]), old(total), data)
    {
      var from := pos;
      var to := from + |data|;
      if to > U64_MAX {
        return Full;
      }
      var moved := TrySetPosition(to);
      if moved.Beyond? {
        return Full;
      }
      if moved.MoveOverflow? || lo + to > buf.Length {
        return WritePanicked;
      }
      forall i | lo + from <= i < lo + to {
        buf[i] := data[i - (lo + from)];
      }
      assert buf[..] == Overlay(old(buf[..]), lo + from, data);
      r := Wrote(from, to);
    }

    /** Splits off the first `idx` bytes, which count as written; returns where they lie. */
    method SplitAt(idx: nat) returns (left: Option<(nat, nat)>)
      requires Valid()
      modifies this
      ensures Valid()
      ensures left.Some? <==> old(lo) + idx <= buf.Length && Max(old(total), old(lo) + idx) <= limit
      ensures left.Some? ==> left.value == (old(lo), old(lo) + idx) && lo == old(lo) + idx
                             && total == Max(old(total), lo)
      ensures left.None? ==> lo == old(lo) && pos == old(pos) && total == old(total)
    {
      if idx > buf.Length - lo {
        return None;
      }
      var newTotal, newPos := total, pos - idx;
      if idx > pos {
        newTotal, newPos := total + (idx - pos), 0;
      }
      if newTotal > limit {
        return None;
      }
      left := Some((lo, lo + idx));
      lo, total, pos := lo + idx, newTotal, newPos;
    }
  }

  /* ---- Packets ------------------------------------------------------------------------------------ */

  const PACKET_BUFFER := 4096
  const MAX_PACKET_LEN := 1514
  const MAX_SLICE := 0x7FFF_FFFF_FFFF_FFFF  // no slice is longer

  class Packet {
    const raw: array<byte>
    var length: nat

    ghost predicate Valid()
      reads this
    {
      raw.Length == PACKET_BUFFER && length <= raw.Length
    }

    constructor ()
      ensures Valid() && fresh(raw) && length == 0
    {
      raw, length := new byte[PACKET_BUFFER](_ => 0), 0;
    }

    function Bytes(): (b: seq<byte>)
      requires Valid()
      reads this, raw
      ensures |b| == length
    {
      raw[..length]
    }

    /** A late change of header bytes through a slice that was split off. */
    method Patch(at: nat, data: seq<byte>)
      requires Valid() && at + |data| <= length
      modifies raw
      ensures Valid() && Bytes() == Overlay(old(Bytes()), at, data)
    {
      forall i | at <= i < at + |data| {
        raw[i] := data[i - at];
      }
      assert raw[..length] == Overlay(old(Bytes()), at, data);
    }
  }

  /** A cursor over the buffer of a packet: the packet length is always the overall position. */
  class PacketCursor {
    const packet: Packet
    const inner: Cursor

    ghost predicate Valid()
      reads this, packet, inner
    {
      && packet.Valid() && inner.Valid()
      && inner.buf == packet.raw && inner.limit == MAX_PACKET_LEN
      && packet.length == inner.total
    }

    /** Starts at the end of what the packet holds; longer packets make the source panic. */
    constructor (packet: Packet)
      requires packet.Valid() && packet.length <= MAX_PACKET_LEN
      ensures Valid() && this.packet == packet && fresh(inner)
      ensures inner.lo == 0 && packet.length == old(packet.length) && packet.Bytes() == old(packet.Bytes())
    {
      this.packet := packet;
      inner := new Cursor(packet.raw, MAX_PACKET_LEN);
      new;
      var _ := inner.TrySetPosition(packet.length);
    }

    /** Appends to the packet, or changes nothing if the frame would become too long. The result tells
        the position of the data in the current part. */
    method Write(data: seq<byte>) returns (at: Option<nat>)
      requires Valid() && |data| <= MAX_SLICE
      modifies packet, packet.raw, inner
      ensures Valid() && inner.lo == old(inner.lo)
      ensures at.Some? <==> old(packet.length) + |data| <= MAX_PACKET_LEN
      ensures at.Some? ==> at.value == old(inner.pos) && packet.Bytes() == old(packet.Bytes()) + data
                           && packet.length == old(packet.length) + |data| && inner.pos == old(inner.pos) + |data|
      ensures at.None? ==> packet.Bytes() == old(packet.Bytes()) && packet.length == old(packet.length) && inner.pos == old(inner.pos)
    {
      var r := inner.Write(data);
      if r.Wrote? {
        packet.length := inner.total;
        assert packet.Bytes() == old(packet.Bytes()) + data;
        at := Some(r.from);
      } else {
        assert packet.raw[..packet.length] == packet.raw[..][..packet.length];
        at := None;
      }
    }

    /** Splits at the current position: what has been written becomes a slice of its own. */
    method SplitAtCurrent() returns (start: nat)
      requires Valid()
      modifies inner
      ensures Valid() && start == old(inner.lo) == packet.length - old(inner.pos)
      ensures inner.lo == packet.length && inner.pos == 0
      ensures packet.Bytes() == old(packet.Bytes())
    {
      var left := inner.SplitAt(inner.pos);
      start := left.value.0;
    }

    /** Splits further on; the bytes skipped count as part of the packet. */
    method SplitAt(idx: nat) returns (left: Option<(nat, nat)>)
      requires Valid()
      modifies inner, packet
      ensures Valid()
      ensures left.Some? <==> Max(old(packet.length), old(inner.lo) + idx) <= MAX_PACKET_LEN
      ensures left.Some? ==> left.value == (old(inner.lo), old(inner.lo) + idx) && inner.lo == old(inner.lo) + idx
                             && packet.length == Max(old(packet.length), inner.lo)
      ensures left.None? ==> packet.length == old(packet.length) && inner.lo == old(inner.lo)
    {
      left := inner.SplitAt(idx);
      if left.Some? {
        packet.length := inner.total;
      }
    }
  }
}
