/**
 Areas: a cursor over a block of bytes, with the numbers of bytes used and still available. An assembly area is written
 front to back, a disassembly area read front to back. A failing operation stands for an exception.
 */
module Area {
  import opened Bytes
  import opened BpTransmissible
  import opened Wrappers

  // v with the bytes from index at on replaced with bs
  function Overlay(v: seq<Byte>, at: nat, bs: seq<Byte>): (r: seq<Byte>)
    requires at + |bs| <= |v|
    ensures |r| == |v|
  {
    v[..at] + bs + v[at + |bs|..]
  }

  lemma OverlayTwice(v: seq<Byte>, at: nat, a: seq<Byte>, b: seq<Byte>)
    requires at + |a| + |b| <= |v|
    ensures Overlay(Overlay(v, at, a), at + |a|, b) == Overlay(v, at, a + b)
  {
  }

  lemma OverlayNothing(v: seq<Byte>, at: nat)
    requires at <= |v|
    ensures Overlay(v, at, []) == v
  {
  }

  class ByteVectorAssemblyArea {
    const vector: array<Byte>
    var bytesAvailable: nat
    var bytesUsed: nat

    ghost predicate Valid()
      reads this
    {
      bytesUsed + bytesAvailable <= vector.Length
    }

    // An area of the given size at the start of the vector
    constructor (size: nat, vector: array<Byte>)
      requires 0 < size <= vector.Length
      ensures Valid() && bytesUsed == 0 && bytesAvailable == size && this.vector == vector
    {
      this.vector, bytesAvailable, bytesUsed := vector, size, 0;
    }

    method Incr(step: nat) returns (ok: bool)
      requires Valid()
      modifies this
      ensures Valid() && (ok <==> step <= old(bytesAvailable))
      ensures bytesUsed == old(bytesUsed) + (if ok then step else 0)
      ensures bytesUsed + bytesAvailable == old(bytesUsed + bytesAvailable)
    {
      if bytesAvailable < step {
        return false;
      }
      bytesUsed := bytesUsed + step;
      bytesAvailable := bytesAvailable - step;
      ok := true;
    }

    method SerializeByte(b: Byte) returns (ok: bool)
      requires Valid()
      modifies this, vector
      ensures Valid() && (ok <==> old(bytesAvailable) > 0)
      ensures bytesUsed == old(bytesUsed) + (if ok then 1 else 0)
      ensures bytesUsed + bytesAvailable == old(bytesUsed + bytesAvailable)
      ensures vector[..] == if ok then Overlay(old(vector[..]), old(bytesUsed), [b]) else old(vector[..])
    {
      if bytesAvailable == 0 {
        return false;
      }
      vector[bytesUsed] := b;
      ok := Incr(1);
    }

    method SerializeUint16(n: Uint16) returns (ok: bool)
      requires Valid()
      modifies this, vector
      ensures Valid() && (ok <==> old(bytesAvailable) >= 2)
      ensures bytesUsed == old(bytesUsed) + (if ok then 2 else 0)
      ensures bytesUsed + bytesAvailable == old(bytesUsed + bytesAvailable)
      ensures vector[..] == if ok then Overlay(old(vector[..]), old(bytesUsed), U16(n)) else old(vector[..])
    {
      hide Overlay;
      if bytesAvailable < 2 {
        return false;
      }
      OverlayTwice(vector[..], bytesUsed, [n / 0x100], [n % 0x100]);
      var ok0 := SerializeByte(n / 0x100);
      var ok1 := SerializeByte(n % 0x100);
      ok := true;
      assert [n / 0x100] + [n % 0x100] == U16(n);
    }

    method SerializeUint32(n: Uint32) returns (ok: bool)
      requires Valid()
      modifies this, vector
      ensures Valid() && (ok <==> old(bytesAvailable) >= 4)
      ensures bytesUsed == old(bytesUsed) + (if ok then 4 else 0)
      ensures bytesUsed + bytesAvailable == old(bytesUsed + bytesAvailable)
      ensures vector[..] == if ok then Overlay(old(vector[..]), old(bytesUsed), U32(n)) else old(vector[..])
    {
      hide Overlay;
      if bytesAvailable < 4 {
        return false;
      }
      ghost var v, at, hi, lo := vector[..], bytesUsed, n / 0x1_0000, n % 0x1_0000;
      SplitWord(n);
      OverlayTwice(v, at, [hi / 0x100], [hi % 0x100]);
      OverlayTwice(v, at, [hi / 0x100] + [hi % 0x100], [lo / 0x100]);
      OverlayTwice(v, at, [hi / 0x100] + [hi % 0x100] + [lo / 0x100], [lo % 0x100]);
      var ok0 := SerializeByte(n / 0x100_0000);
      var ok1 := SerializeByte(n / 0x1_0000 % 0x100);
      var ok2 := SerializeByte(n / 0x100 % 0x100);
      var ok3 := SerializeByte(n % 0x100);
      ok := true;
      assert [hi / 0x100] + [hi % 0x100] + [lo / 0x100] + [lo % 0x100] == U32(n);
    }

    // An empty block is refused
    method SerializeByteBlock(bs: seq<Byte>) returns (ok: bool)
      requires Valid()
      modifies this, vector
      ensures Valid() && (ok <==> 0 < |bs| <= old(bytesAvailable))
      ensures bytesUsed == old(bytesUsed) + (if ok then |bs| else 0)
      ensures bytesUsed + bytesAvailable == old(bytesUsed + bytesAvailable)
      ensures vector[..] == if ok then Overlay(old(vector[..]), old(bytesUsed), bs) else old(vector[..])
    {
      if |bs| == 0 || bytesAvailable < |bs| {
        return false;
      }
      forall i | 0 <= i < |bs| {
        vector[bytesUsed + i] := bs[i];
      }
      ok := Incr(|bs|);
    }
  }

  lemma SplitWord(n: Uint32)
    ensures n / 0x1_0000 / 0x100 == n / 0x100_0000 && n / 0x1_0000 % 0x100 == n / 0x1_0000 % 0x100
    ensures n % 0x1_0000 / 0x100 == n / 0x100 % 0x100 && n % 0x1_0000 % 0x100 == n % 0x100
  {
    var hi, lo := n / 0x1_0000, n % 0x1_0000;
    assert n == 0x1_0000 * hi + lo;
    assert lo == 0x100 * (lo / 0x100) + lo % 0x100 && hi == 0x100 * (hi / 0x100) + hi % 0x100;
    assert n == 0x100 * (0x100 * hi + lo / 0x100) + lo % 0x100;
    assert n == 0x100_0000 * (hi / 0x100) + (0x1_0000 * (hi % 0x100) + lo);
  }

  class ByteVectorDisassemblyArea {
    const vector: seq<Byte>
    var bytesAvailable: nat
    var bytesUsed: nat

    ghost predicate Valid()
      reads this
    {
      bytesUsed + bytesAvailable <= |vector|
    }

    // The bytes that are still to be read
    ghost function Rest(): (s: seq<Byte>)
      requires Valid()
      reads this
      ensures |s| == bytesAvailable
    {
      vector[bytesUsed..bytesUsed + bytesAvailable]
    }

    constructor (vector: seq<Byte>)
      ensures Valid() && Rest() == vector && bytesUsed == 0
    {
      this.vector, bytesAvailable, bytesUsed := vector, |vector|, 0;
    }

    method Incr(step: nat) returns (ok: bool)
      requires Valid()
      modifies this
      ensures Valid() && (ok <==> step <= |old(Rest())|)
      ensures Rest() == if ok then old(Rest())[step..] else old(Rest())
      ensures ok ==> bytesUsed == old(bytesUsed) + step
    {
      if bytesAvailable < step {
        return false;
      }
      bytesUsed := bytesUsed + step;
      bytesAvailable := bytesAvailable - step;
      ok := true;
    }

    // Another end for the area; what has been read stays read. Nothing stops the new end from lying beyond the vector,
    // and the area is good for reading exactly if it does not
    method Resize(newInitial: nat) returns (ok: bool)
      modifies `bytesAvailable
      ensures ok <==> newInitial > 0 && bytesUsed <= newInitial
      ensures ok ==> bytesUsed + bytesAvailable == newInitial && (Valid() <==> newInitial <= |vector|)
      ensures ok && Valid() ==> Rest() == vector[bytesUsed..newInitial]
      ensures !ok ==> bytesAvailable == old(bytesAvailable)
    {
      if newInitial == 0 || bytesUsed > newInitial {
        return false;
      }
      bytesAvailable := newInitial - bytesUsed;
      ok := true;
    }

    method DeserializeByte() returns (r: Option<Byte>)
      requires Valid()
      modifies this
      ensures Valid() && (r.Some? <==> |old(Rest())| > 0)
      ensures r.Some? ==> r.value == old(Rest())[0] && Rest() == old(Rest())[1..] && bytesUsed == old(bytesUsed) + 1
      ensures r.None? ==> Rest() == old(Rest())
    {
      if bytesAvailable == 0 {
        return None;
      }
      r := Some(vector[bytesUsed]);
      var ok := Incr(1);
    }

    method DeserializeUint16() returns (r: Option<Uint16>)
      requires Valid()
      modifies this
      ensures Valid() && (r.Some? <==> |old(Rest())| >= 2)
      ensures r.Some? ==> r.value == ReadU16(old(Rest())) && Rest() == old(Rest())[2..] && bytesUsed == old(bytesUsed) + 2
      ensures r.None? ==> Rest() == old(Rest())
    {
      if bytesAvailable < 2 {
        return None;
      }
      var b1 := DeserializeByte();
      var b2 := DeserializeByte();
      r := Some(b1.value as int * 0x100 + b2.value as int);
    }

    // The test before the first byte asks for two bytes only; a third or fourth that is missing is then noticed when
    // it is read
    method DeserializeUint32() returns (r: Option<Uint32>)
      requires Valid()
      modifies this
      ensures Valid() && (r.Some? <==> |old(Rest())| >= 4)
      ensures r.Some? ==> r.value == ReadU32(old(Rest())) && Rest() == old(Rest())[4..] && bytesUsed == old(bytesUsed) + 4
      ensures r.None? ==> Rest() == if |old(Rest())| < 2 then old(Rest()) else []
    {
      if bytesAvailable < 2 {
        return None;
      }
      ghost var s := Rest();
      var b1 := DeserializeByte();
      var b2 := DeserializeByte();
      var b3 := DeserializeByte();
      if b3.None? {
        return None;
      }
      var b4 := DeserializeByte();
      if b4.None? {
        return None;
      }
      r := Some(b1.value as int * 0x100_0000 + b2.value as int * 0x1_0000 + b3.value as int * 0x100 + b4.value as int);
      assert s[2..][0] == b3.value && s[2..][1] == b4.value;
    }

    method DeserializeByteBlock(size: nat) returns (r: Option<seq<Byte>>)
      requires Valid()
      modifies this
      ensures Valid() && (r.Some? <==> 0 < size <= |old(Rest())|)
      ensures r.Some? ==> r.value == old(Rest())[..size] && Rest() == old(Rest())[size..] && bytesUsed == old(bytesUsed) + size
      ensures r.None? ==> Rest() == old(Rest())
    {
      if size == 0 || bytesAvailable < size {
        return None;
      }
      r := Some(vector[bytesUsed..bytesUsed + size]);
      var ok := Incr(size);
    }
  }
}
