/**
 The scoreboard's shadow RAM: bytes and a bitmap of the bytes that were ever written, addressed
 modulo its size.
 */
module Ram {
  import opened Words

  datatype Cell = Unknown | Known(value: Byte)

  /** The cells after `buf` was written at `off` under the enables `be`. */
  function Overlay(cells: seq<Cell>, off: nat, buf: seq<Byte>, be: seq<bool>): (r: seq<Cell>)
    requires off + |buf| <= |cells| && |be| == |buf|
    ensures |r| == |cells|
  {
    seq(|cells|, k requires 0 <= k < |cells| =>
      if off <= k < off + |buf| && be[k - off] then Known(buf[k - off]) else cells[k])
  }

  /** A byte of the bitmap, as its bits. */
  type BitByte = b: seq<bool> | |b| == 8 witness seq(8, _ => false)

  function CellAt(mem: seq<Byte>, bmap: seq<BitByte>, k: nat): Cell
    requires k < |mem| && |bmap| * 8 == |mem|
  {
    if bmap[k / 8][k % 8] then Known(mem[k]) else Unknown
  }

  function CellsOf(mem: seq<Byte>, bmap: seq<BitByte>): (r: seq<Cell>)
    requires |bmap| * 8 == |mem|
    ensures |r| == |mem|
    ensures forall k :: 0 <= k < |mem| ==> r[k] == CellAt(mem, bmap, k)
  {
    seq(|mem|, k requires 0 <= k < |mem| => CellAt(mem, bmap, k))
  }

  lemma SetByte(mem: seq<Byte>, bmap: seq<BitByte>, k: nat, x: Byte)
    requires k < |mem| && |bmap| * 8 == |mem|
    ensures CellsOf(mem[k := x], bmap[k / 8 := bmap[k / 8][k % 8 := true]])
         == CellsOf(mem, bmap)[k := Known(x)]
  {
  }

  class RamModel {
    const mem: array<Byte>
    const bmap: array<BitByte>

    ghost predicate Valid() {
      mem.Length > 0 && bmap.Length * 8 == mem.Length
    }

    ghost function Cells(): (c: seq<Cell>)
      requires Valid()
      reads mem, bmap
      ensures |c| == mem.Length
    {
      CellsOf(mem[..], bmap[..])
    }

    /** `blocks` groups of eight bytes, none of them known. */
    constructor (blocks: nat)
      requires blocks > 0
      ensures Valid() && mem.Length == 8 * blocks && fresh(mem) && fresh(bmap)
      ensures forall k :: 0 <= k < mem.Length ==> Cells()[k] == Unknown
    {
      mem := new Byte[8 * blocks];
      bmap := new BitByte[blocks](_ => seq(8, _ => false));
    }

    method Write(buf: seq<Byte>, be: seq<bool>, addr: nat)
      requires Valid() && |be| == |buf| && addr % mem.Length + |buf| <= mem.Length
      modifies mem, bmap
      ensures Cells() == Overlay(old(Cells()), addr % mem.Length, buf, be)
    {
      var off := addr % mem.Length;
      ghost var before := Cells();
      for i := 0 to |buf|
        invariant Cells() == Overlay(before, off, buf[..i], be[..i])
      {
        if be[i] {
          var k := off + i;
          SetByte(mem[..], bmap[..], k, buf[i]);
          ghost var m, b := mem[..], bmap[..];
          mem[k] := buf[i];
          bmap[k / 8] := bmap[k / 8][k % 8 := true];
          assert mem[..] == m[k := buf[i]] && bmap[..] == b[k / 8 := b[k / 8][k % 8 := true]];
        }
        assert Cells() == Overlay(before, off, buf[..i + 1], be[..i + 1]);
      }
      assert buf[..|buf|] == buf && be[..|buf|] == be;
    }

    /** Reads bytes together with their valid bits; the byte of an unknown cell is arbitrary. */
    method Read(n: nat, addr: nat) returns (buf: seq<Byte>, valid: seq<bool>)
      requires Valid() && addr % mem.Length + n <= mem.Length
      ensures |buf| == |valid| == n
      ensures forall i :: 0 <= i < n ==>
        var c := Cells()[addr % mem.Length + i];
        (valid[i] <==> c.Known?) && (c.Known? ==> buf[i] == c.value)
    {
      var off := addr % mem.Length;
      buf, valid := [], [];
      for i := 0 to n
        invariant |buf| == |valid| == i
        invariant forall j :: 0 <= j < i ==>
          var c := Cells()[off + j];
          (valid[j] <==> c.Known?) && (c.Known? ==> buf[j] == c.value)
      {
        var k := off + i;
        assert Cells()[k] == CellAt(mem[..], bmap[..], k);
        valid := valid + [bmap[k / 8][k % 8]];
        buf := buf + [mem[k]];
      }
    }

    method GetBmap(addr: nat) returns (b: bool)
      requires Valid()
      ensures b <==> Cells()[addr % mem.Length].Known?
    {
      var k := addr % mem.Length;
      assert Cells()[k] == CellAt(mem[..], bmap[..], k);
      b := bmap[k / 8][k % 8];
    }
  }
}
