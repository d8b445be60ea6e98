/**
 Loading the PT_LOAD segments of an ELF file into the simulator's memory, as described by the
 Program Header section of chapter 5 of the System V gABI: file bytes first, then zeros up to the
 memory size, later segments winning.
 */
module ElfLoader {
  import opened Words
  import opened SparseMemory

  /** A program header; `loaded` stands for type PT_LOAD. */
  datatype Segment = Segment(loaded: bool, paddr: nat, offset: nat, filesz: nat, memsz: nat)

  predicate Occupies(s: Segment) {
    s.loaded && s.memsz != 0
  }

  /** The loader goes on only if the file holds the bytes it needs, and the padding is not
      negative. */
  predicate Loadable(file: seq<Byte>, s: Segment) {
    Occupies(s) ==> (s.filesz != 0 ==> s.offset + s.filesz <= |file|) && s.filesz <= s.memsz
  }

  /** Bytes of the file from `at` on; what lies around the file is unspecified. */
  function FileBytes(file: seq<Byte>, at: int, outside: int -> Byte): int -> Byte {
    (i: int) => if 0 <= at + i < |file| then file[at + i] else outside(at + i)
  }

  function ZeroBytes(n: nat, outside: int -> Byte): int -> Byte {
    (i: int) => if 0 <= i < n then 0 else outside(i)
  }

  /** What lies around the file and around the padding buffer of one segment: the buffer is
      reallocated for every segment. */
  datatype Around = Around(file: int -> Byte, zeros: int -> Byte)

  // ---------------------------------------------------------------------------------------------
  // What the loader leaves, and what it should leave
  // ---------------------------------------------------------------------------------------------

  ghost predicate AllLoadable(file: seq<Byte>, segs: seq<Segment>) {
    forall k :: 0 <= k < |segs| ==> Loadable(file, segs[k])
  }

  /** Byte `a` after the block write of the file bytes; addresses and sizes are cut to 32 bits. */
  function AfterFile(file: seq<Byte>, s: Segment, was: Byte, outside: int -> Byte, a: nat): Byte
    requires a < SPACE
  {
    var start, n := s.paddr % SPACE, s.filesz % SPACE;
    if s.filesz == 0 then was
    else Blitted(was, 0, start, Reach(start, n), FileBytes(file, s.offset, outside), a)
  }

  /** Byte `a` after the block write of the padding. */
  function AfterZeros(s: Segment, was: Byte, outside: int -> Byte, a: nat): Byte
    requires a < SPACE && s.filesz <= s.memsz
  {
    var rest, n := (s.paddr + s.filesz) % SPACE, (s.memsz - s.filesz) % SPACE;
    if s.memsz == s.filesz then was
    else Blitted(was, 0, rest, Reach(rest, n), ZeroBytes(s.memsz - s.filesz, outside), a)
  }

  function AfterSegment(file: seq<Byte>, s: Segment, was: Byte, around: Around, a: nat): Byte
    requires a < SPACE && Loadable(file, s) && Occupies(s)
  {
    AfterZeros(s, AfterFile(file, s, was, around.file, a), around.zeros, a)
  }

  /** Byte `a` as the segment prescribes it. */
  function SegmentByte(file: seq<Byte>, s: Segment, was: Byte, a: nat): Byte
    requires a < SPACE && Loadable(file, s) && Occupies(s)
  {
    var d := Distance(s.paddr % SPACE, a);
    if d >= s.memsz then was else if d < s.filesz then file[s.offset + d] else 0
  }

  /** Byte `a` after all block writes; `around` gives the surroundings for each segment. */
  ghost function Loaded(file: seq<Byte>, segs: seq<Segment>, around: nat -> Around, a: nat): Byte
    requires a < SPACE && AllLoadable(file, segs)
  {
    if |segs| == 0 then 0
    else
      var s := segs[|segs| - 1];
      var was := Loaded(file, segs[..|segs| - 1], around, a);
      if Occupies(s) then AfterSegment(file, s, was, around(|segs| - 1), a) else was
  }

  /** Byte `a` of the process image. */
  ghost function Image(file: seq<Byte>, segs: seq<Segment>, a: nat): Byte
    requires a < SPACE && AllLoadable(file, segs)
  {
    if |segs| == 0 then 0
    else
      var s := segs[|segs| - 1];
      var was := Image(file, segs[..|segs| - 1], a);
      if Occupies(s) then SegmentByte(file, s, was, a) else was
  }

  /** What the block write of the file bytes reaches is part of the segment, and the block write of
      the padding does not reach beyond its end. */
  predicate WellPlaced(s: Segment) {
    && (s.filesz != 0 ==> Reach(s.paddr, s.filesz) <= s.memsz)
    && (s.filesz < s.memsz ==> Exact(s.paddr + s.filesz, s.memsz - s.filesz))
  }

  lemma AddressParts(paddr: nat, filesz: nat, a: nat)
    requires filesz < SPACE && a < SPACE
    ensures (paddr + filesz) % SPACE == Wrap(paddr % SPACE + filesz)
    ensures Distance((paddr + filesz) % SPACE, a)
         == var d := Distance(paddr % SPACE, a); if d >= filesz then d - filesz else d + SPACE - filesz
  {
  }

  /** Cutting to 32 bits changes neither a small size nor the reach. */
  lemma ReachCut(addr: nat, size: nat)
    requires size < SPACE
    ensures size % SPACE == size && Reach(addr % SPACE, size) == Reach(addr, size)
  {
    assert addr % SPACE % 4 == addr % 4;
  }

  /** The block write of the file bytes, by distance from the start of the segment. */
  lemma FilePiece(file: seq<Byte>, s: Segment, was: Byte, outside: int -> Byte, a: nat)
    requires a < SPACE && s.filesz < SPACE
    ensures var d := Distance(s.paddr % SPACE, a);
      AfterFile(file, s, was, outside, a)
        == if s.filesz != 0 && d < Reach(s.paddr, s.filesz) then FileBytes(file, s.offset, outside)(d) else was
  {
    ReachCut(s.paddr, s.filesz);
  }

  /** The block write of the padding, by distance from its own start. */
  lemma ZeroReach(s: Segment, was: Byte, outside: int -> Byte, a: nat)
    requires a < SPACE && s.filesz < s.memsz < SPACE
    ensures var n := s.memsz - s.filesz;
      var e := Distance((s.paddr + s.filesz) % SPACE, a);
      AfterZeros(s, was, outside, a)
        == if e < Reach(s.paddr + s.filesz, n) then if e < n then 0 else outside(e) else was
  {
    ReachCut(s.paddr + s.filesz, s.memsz - s.filesz);
  }

  lemma ReachBound(addr: nat, size: nat)
    ensures Reach(addr, size) <= size + 3
    ensures Reach(addr, size) == size <==> Exact(addr, size)
  {
  }

  /** Padding that is exact zeroes the bytes between the file size and the memory size. */
  lemma ZeroPiece(s: Segment, was: Byte, outside: int -> Byte, a: nat)
    requires a < SPACE && s.filesz <= s.memsz < SPACE
    requires s.filesz < s.memsz ==> Exact(s.paddr + s.filesz, s.memsz - s.filesz)
    ensures AfterZeros(s, was, outside, a)
         == if s.filesz <= Distance(s.paddr % SPACE, a) < s.memsz then 0 else was
  {
    if s.filesz < s.memsz {
      ZeroReach(s, was, outside, a);
      ReachBound(s.paddr + s.filesz, s.memsz - s.filesz);
      AddressParts(s.paddr, s.filesz, a);
    }
  }

  /** A well-placed segment leaves exactly its own bytes. */
  lemma WellPlacedSegment(file: seq<Byte>, s: Segment, was: Byte, around: Around, a: nat)
    requires a < SPACE && Occupies(s) && Loadable(file, s) && s.memsz < SPACE && WellPlaced(s)
    ensures AfterSegment(file, s, was, around, a) == SegmentByte(file, s, was, a)
  {
    FilePiece(file, s, was, around.file, a);
    ZeroPiece(s, AfterFile(file, s, was, around.file, a), around.zeros, a);
  }

  /** The address at distance `d` from the start of the segment. */
  lemma AtDistance(s: Segment, d: nat) returns (a: nat)
    requires d < SPACE
    ensures a < SPACE && Distance(s.paddr % SPACE, a) == d
  {
    a := Wrap(s.paddr % SPACE + d);
  }

  /** Padding that is not exact stores a byte from beyond the padding buffer behind the segment. */
  lemma SpilledPadding(s: Segment, was: Byte, outside: int -> Byte, a: nat)
    requires a < SPACE && s.filesz < s.memsz < SPACE && Distance(s.paddr % SPACE, a) == s.memsz
    requires !Exact(s.paddr + s.filesz, s.memsz - s.filesz)
    ensures AfterZeros(s, was, outside, a) == outside(s.memsz - s.filesz)
  {
    ZeroReach(s, was, outside, a);
    ReachBound(s.paddr + s.filesz, s.memsz - s.filesz);
    AddressParts(s.paddr, s.filesz, a);
  }

  /** Any other segment damages a byte beyond its end. */
  lemma MisplacedSegment(file: seq<Byte>, s: Segment) returns (was: Byte, around: Around, a: nat)
    requires Occupies(s) && Loadable(file, s) && s.memsz < SPACE && !WellPlaced(s)
    ensures a < SPACE && AfterSegment(file, s, was, around, a) != SegmentByte(file, s, was, a)
  {
    around := Around(_ => 1, _ => 1);
    if s.filesz < s.memsz && !Exact(s.paddr + s.filesz, s.memsz - s.filesz) {
      was := 0;
      a := AtDistance(s, s.memsz);
      SpilledPadding(s, AfterFile(file, s, was, around.file, a), around.zeros, a);
    } else {
      ReachBound(s.paddr, s.filesz);
      var d := Reach(s.paddr, s.filesz) - 1;
      was := (FileBytes(file, s.offset, around.file)(d) + 1) % 256;
      a := AtDistance(s, d);
      FilePiece(file, s, was, around.file, a);
      ZeroPiece(s, AfterFile(file, s, was, around.file, a), around.zeros, a);
    }
  }

  /** With well-placed segments the loader leaves the process image, whatever surrounds its buffers. */
  lemma {:induction false} LoadedIsImage(file: seq<Byte>, segs: seq<Segment>, around: nat -> Around, a: nat)
    requires a < SPACE && AllLoadable(file, segs)
    requires forall k :: 0 <= k < |segs| && Occupies(segs[k]) ==> segs[k].memsz < SPACE && WellPlaced(segs[k])
    ensures Loaded(file, segs, around, a) == Image(file, segs, a)
  {
    if |segs| > 0 {
      var m := |segs| - 1;
      LoadedIsImage(file, segs[..m], around, a);
      if Occupies(segs[m]) {
        WellPlacedSegment(file, segs[m], Loaded(file, segs[..m], around, a), around(m), a);
      }
    }
  }

  // ---------------------------------------------------------------------------------------------
  // The process image, by the fields of the program headers
  // ---------------------------------------------------------------------------------------------

  /** Address `a` is `d` bytes into the segment, around the end of the 32-bit address space. */
  predicate InSegment(s: Segment, a: nat, d: nat) {
    s.loaded && d < s.memsz && d < SPACE && (s.paddr + d) % SPACE == a
  }

  lemma DistanceMeaning(paddr: nat, a: nat, d: nat)
    requires a < SPACE && d < SPACE
    ensures Distance(paddr % SPACE, a) == d <==> (paddr + d) % SPACE == a
  {
  }

  /** A byte that no segment holds is zero. */
  lemma {:induction false} ImageOutside(file: seq<Byte>, segs: seq<Segment>, a: nat)
    requires a < SPACE && AllLoadable(file, segs)
    requires forall k, d :: 0 <= k < |segs| ==> !InSegment(segs[k], a, d)
    ensures Image(file, segs, a) == 0
  {
    if |segs| > 0 {
      var s := segs[|segs| - 1];
      var d := Distance(s.paddr % SPACE, a);
      ImageOutside(file, segs[..|segs| - 1], a);
      DistanceMeaning(s.paddr, a, d);
      assert !InSegment(s, a, d);
    }
  }

  /** The last segment that holds a byte decides it: its file byte, or zero beyond the file size. */
  lemma {:induction false} ImageInside(file: seq<Byte>, segs: seq<Segment>, a: nat, k: nat, d: nat)
    requires a < SPACE && AllLoadable(file, segs) && k < |segs| && InSegment(segs[k], a, d)
    requires forall j, e :: k < j < |segs| ==> !InSegment(segs[j], a, e)
    ensures segs[k].offset + d < |file| || d >= segs[k].filesz
    ensures Image(file, segs, a) == if d < segs[k].filesz then file[segs[k].offset + d] else 0
  {
    var m := |segs| - 1;
    var s := segs[m];
    var e := Distance(s.paddr % SPACE, a);
    DistanceMeaning(s.paddr, a, e);
    if k < m {
      ImageInside(file, segs[..m], a, k, d);
      assert !InSegment(s, a, e);
    } else {
      DistanceMeaning(s.paddr, a, d);
    }
  }

  /** The loader accepts exactly the files that hold the file bytes of every segment to load, with no
      segment smaller in memory than in the file. */
  lemma LoadableMeaning(file: seq<Byte>, segs: seq<Segment>)
    ensures AllLoadable(file, segs)
       <==> forall k :: 0 <= k < |segs| && segs[k].loaded && segs[k].memsz > 0 ==>
              segs[k].filesz <= segs[k].memsz && (segs[k].filesz > 0 ==> segs[k].offset + segs[k].filesz <= |file|)
  {
  }

  // ---------------------------------------------------------------------------------------------
  // The loader
  // ---------------------------------------------------------------------------------------------

  method LoadSegment(mem: Memory, file: seq<Byte>, s: Segment, around: Around)
    requires mem.limit == 0 && Occupies(s) && Loadable(file, s)
    modifies mem
    ensures forall a: nat :: a < SPACE ==> mem.At(a) == AfterSegment(file, s, old(mem.At(a)), around, a)
  {
    if s.filesz != 0 {
      mem.WriteBlock(s.paddr % SPACE, s.filesz % SPACE, FileBytes(file, s.offset, around.file));
    }
    if s.memsz - s.filesz > 0 {
      mem.WriteBlock((s.paddr + s.filesz) % SPACE, (s.memsz - s.filesz) % SPACE,
                     ZeroBytes(s.memsz - s.filesz, around.zeros));
    }
  }

  /** The program header loop, on a fresh memory. It gives up at the first segment that is not
      loadable. */
  method Load(mem: Memory, file: seq<Byte>, segs: seq<Segment>, around: nat -> Around) returns (ok: bool)
    requires mem.limit == 0 && forall a: nat :: a < SPACE ==> mem.At(a) == 0
    modifies mem
    ensures ok <==> AllLoadable(file, segs)
    ensures ok ==> forall a: nat :: a < SPACE ==> mem.At(a) == Loaded(file, segs, around, a)
  {
    for i := 0 to |segs|
      invariant AllLoadable(file, segs[..i])
      invariant forall a: nat :: a < SPACE ==> mem.At(a) == Loaded(file, segs[..i], around, a)
    {
      if !Loadable(file, segs[i]) {
        return false;
      }
      assert segs[..i + 1][..i] == segs[..i];
      if Occupies(segs[i]) {
        LoadSegment(mem, file, segs[i], around(i));
      }
    }
    assert segs[..|segs|] == segs;
    ok := true;
  }
}
