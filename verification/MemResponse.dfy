/**
 The memory response model: read bursts, masked writes, atomic operations, and the exclusive
 reservation of each transaction ID, on a bus of one or more 64-bit words.
 */
module MemResponse {
  import opened Arith
  import opened Words
  import opened Amo
  import opened Requests
  import opened MemModel
  import opened AmoMeaning

  datatype Exclusive = Exclusive(valid: bool, base: nat, end: nat)

  datatype WriteKind = Plain | AtomicOp(op: MemOp) | StoreExclusive

  predicate AnyEnabled(be: ByteEnable) {
    exists i :: 0 <= i < 8 && be[i]
  }

  const NO_BYTES: ByteEnable := [false, false, false, false, false, false, false, false]

  /** A masked write, skipped when no byte is enabled. */
  function Stored(m: Store, w: nat, data: Word, be: ByteEnable, rnd: Word): Store {
    if AnyEnabled(be) then m[w := Select(Materialise(m, w, rnd)[w], data, be)] else m
  }

  /** With any byte enabled the word exists afterwards, with the enabled bytes of `data` and its old
      bytes elsewhere; no other word changes, and nothing does with no byte enabled. */
  lemma StoredBytes(m: Store, w: nat, data: Word, be: ByteEnable, rnd: Word, i: nat)
    requires i < 8
    ensures var r := Stored(m, w, data, be, rnd);
      && (be[i] ==> w in r && r[w][i] == data[i])
      && (!be[i] && w in m ==> w in r && r[w][i] == m[w][i])
      && (!be[i] && w !in m && w in r ==> r[w][i] == rnd[i])
      && (w in r <==> w in m || exists k :: 0 <= k < 8 && be[k])
      && forall v :: v != w ==> (v in r <==> v in m) && (v in m ==> r[v] == m[v])
  {
  }

  /** The result of an atomic operation, at its place in the word. */
  function AtomicResult(op: MemOp, was: Word, operand: Word, off: Offset, word: bool): Word {
    ShiftUp(MemCompute(op, Extract(was, off, word), Extract(operand, off, word), word), off)
  }

  /** The accessed bytes of that word hold the result of the operation on those of the two operands. */
  lemma AtomicResultMeaning(op: MemOp, was: Word, operand: Word, off: nat, word: bool)
    requires off == 0 || (off == 4 && word)
    ensures MemMeans(op, Field(was, off, word), Field(operand, off, word),
                     Field(AtomicResult(op, was, operand, off, word), off, word), 8 * Size(word))
  {
    MemFieldMeaning(op, was, operand, off, word);
  }

  /** Words moved by a beat of `bytes` bytes. */
  function WordsOf(bytes: nat): nat {
    if bytes / 8 == 0 then 1 else bytes / 8
  }

  /** The words of a read burst exist afterwards, with the values drawn for them if they did not
      before. */
  function MaterialiseAll(m: Store, start: nat, n: nat, rnd: nat -> Word): Store {
    if n == 0 then m
    else Materialise(MaterialiseAll(m, start, n - 1, rnd), start + n - 1, rnd(start + n - 1))
  }

  /** A masked write of `n` words, taken from the bus words from `slot` on. */
  function StoredAll(
    m: Store, start: nat, slot: nat, n: nat, data: seq<Word>, be: seq<ByteEnable>, rnd: nat -> Word): Store
    requires slot + n <= |data| == |be|
  {
    if n == 0 then m
    else
      var w := n - 1;
      Stored(StoredAll(m, start, slot, w, data, be, rnd), start + w, data[slot + w], be[slot + w], rnd(start + w))
  }

  /** It gives each word of its range the enabled bytes of its own bus word, and leaves every other
      word alone. */
  lemma {:induction false} StoredWord(
    m: Store, start: nat, slot: nat, n: nat, data: seq<Word>, be: seq<ByteEnable>, rnd: nat -> Word, v: nat)
    requires slot + n <= |data| == |be|
    ensures var r := StoredAll(m, start, slot, n, data, be, rnd);
      var k := slot + v - start;
      var one := if start <= v < start + n then Stored(m, v, data[k], be[k], rnd(v)) else m;
      (v in r <==> v in one) && (v in one ==> r[v] == one[v])
  {
    if n > 0 {
      StoredWord(m, start, slot, n - 1, data, be, rnd, v);
    }
  }

  /** A read brings every word of its range into existence, and changes none that exists. */
  lemma {:induction false} MaterialisedWord(m: Store, start: nat, n: nat, rnd: nat -> Word, v: nat)
    ensures var r := MaterialiseAll(m, start, n, rnd);
      var one := if start <= v < start + n then Materialise(m, v, rnd(v)) else m;
      (v in r <==> v in one) && (v in one ==> r[v] == one[v])
  {
    if n > 0 {
      MaterialisedWord(m, start, n - 1, rnd, v);
    }
  }

  lemma {:induction false} MaterialiseMore(m: Store, start: nat, k: nat, n: nat, rnd: nat -> Word)
    ensures MaterialiseAll(MaterialiseAll(m, start, k, rnd), start + k, n, rnd) == MaterialiseAll(m, start, k + n, rnd)
  {
    if n > 0 {
      MaterialiseMore(m, start, k, n - 1, rnd);
      assert start + k + (n - 1) == start + (k + n) - 1;
    }
  }

  /** Fewer than `lanes` words apart, two words have different places on the bus. */
  lemma SlotsDiffer(v: nat, w: nat, lanes: nat)
    requires v < w < v + lanes
    ensures v % lanes != w % lanes
  {
    var q, r := v / lanes, v % lanes;
    Division(v, lanes);
    if r + (w - v) < lanes {
      QuotientUnique(w, lanes, q, r + (w - v));
    } else {
      assert (q + 1) * lanes == q * lanes + lanes;
      QuotientUnique(w, lanes, q + 1, r + (w - v) - lanes);
    }
  }

  /** Words moved by `i` beats of `n` words. */
  function Moved(n: nat, i: nat): nat {
    if i == 0 then 0 else Moved(n, i - 1) + n
  }

  lemma {:induction false} MovedIs(n: nat, i: nat)
    ensures Moved(n, i) == i * n
  {
    if i > 0 {
      MovedIs(n, i - 1);
    }
  }

  datatype Beat = Beat(error: bool, id: nat, last: bool, data: seq<Word>)

  /** Every word of `m` is in `m'`, unchanged. */
  ghost predicate Extends(m: Store, m': Store) {
    forall v :: v in m ==> v in m' && m'[v] == m[v]
  }

  /** The bus words carry the memory words `start`..`start + n - 1`, each at its place, if there are
      enough of them. */
  ghost predicate Carries(m: Store, data: seq<Word>, start: nat, n: nat)
    requires |data| > 0
  {
    n <= |data| ==> forall v :: start <= v < start + n ==> v in m && data[v % |data|] == m[v]
  }

  /** One more word on the bus. */
  lemma CarriesOne(m: Store, data: seq<Word>, start: nat, n: nat, rnd: Word)
    requires |data| > 0 && Carries(m, data, start, n)
    ensures var m' := Materialise(m, start + n, rnd);
      Carries(m', data[(start + n) % |data| := m'[start + n]], start, n + 1)
  {
    var m' := Materialise(m, start + n, rnd);
    var data' := data[(start + n) % |data| := m'[start + n]];
    if n + 1 <= |data| {
      forall v | start <= v < start + n
        ensures v in m' && data'[v % |data|] == m'[v]
      {
        SlotsDiffer(v, start + n, |data|);
      }
    }
  }

  /** Beat `i` of a burst without error: its ID, its last flag and its words. */
  ghost predicate GoodBeat(m: Store, b: Beat, id: nat, last: bool, lanes: nat, start: nat, n: nat) {
    !b.error && b.id == id && (b.last <==> last) && |b.data| == lanes > 0 && Carries(m, b.data, start, n)
  }

  /** The first beats of a burst of `len + 1`. */
  ghost predicate GoodBeats(m: Store, beats: seq<Beat>, id: nat, len: nat, lanes: nat, start: nat, n: nat) {
    forall i :: 0 <= i < |beats| ==> GoodBeat(m, beats[i], id, i == len, lanes, start + Moved(n, i), n)
  }

  lemma GoodBeatsMore(
    m: Store, m': Store, beats: seq<Beat>, b: Beat, id: nat, len: nat, lanes: nat, start: nat, n: nat)
    requires GoodBeats(m, beats, id, len, lanes, start, n) && Extends(m, m')
    requires GoodBeat(m', b, id, |beats| == len, lanes, start + Moved(n, |beats|), n)
    ensures GoodBeats(m', beats + [b], id, len, lanes, start, n)
  {
    var more := beats + [b];
    forall i | 0 <= i < |beats|
      ensures GoodBeat(m', more[i], id, i == len, lanes, start + Moved(n, i), n)
    {
      assert GoodBeat(m, beats[i], id, i == len, lanes, start + Moved(n, i), n);
      GoodBeatStays(m, m', beats[i], id, i == len, lanes, start + Moved(n, i), n);
    }
  }

  lemma GoodBeatStays(m: Store, m': Store, b: Beat, id: nat, last: bool, lanes: nat, start: nat, n: nat)
    requires GoodBeat(m, b, id, last, lanes, start, n) && Extends(m, m')
    ensures GoodBeat(m', b, id, last, lanes, start, n)
  {
  }

  // ---------------------------------------------------------------------------------------------
  // Bursts and writes, byte by byte
  // ---------------------------------------------------------------------------------------------

  /** A beat of at least a word moves its bytes in whole words; a smaller one lies in a single word. */
  lemma WordsMeaning(bytes: nat)
    ensures bytes >= 8 && bytes % 8 == 0 ==> 8 * WordsOf(bytes) == bytes
    ensures bytes < 8 ==> WordsOf(bytes) == 1
  {
  }

  /** Byte `a` of memory, at its place on a bus of `|data|` words. */
  ghost predicate OnBus(m: Store, data: seq<Word>, a: nat)
    requires |data| > 0
  {
    a / 8 in m && data[a / 8 % |data|][a % 8] == m[a / 8][a % 8]
  }

  lemma WordRange(a: nat, base: nat, n: nat)
    requires base % 8 == 0 && base <= a < base + 8 * n
    ensures base / 8 <= a / 8 < base / 8 + n
  {
  }

  lemma BeatBase(addr: nat, bytes: nat, i: nat)
    requires addr % 8 == 0 && bytes >= 8 && bytes % 8 == 0
    ensures (addr + i * bytes) % 8 == 0
    ensures (addr + i * bytes) / 8 == addr / 8 + Moved(WordsOf(bytes), i)
  {
    var n := WordsOf(bytes);
    MovedIs(n, i);
    MulAssociative(i, n, 8);
    assert bytes == n * 8;
    assert addr + i * bytes == 8 * (addr / 8 + i * n);
  }

  /** Every byte of an aligned burst is in its beat, at its place on the bus. */
  lemma BurstCovers(
    m: Store, beats: seq<Beat>, id: nat, len: nat, lanes: nat, addr: nat, bytes: nat, i: nat, a: nat)
    requires addr % 8 == 0 && bytes >= 8 && bytes % 8 == 0 && bytes <= 8 * lanes
    requires GoodBeats(m, beats, id, len, lanes, addr / 8, WordsOf(bytes)) && i < |beats|
    requires addr + i * bytes <= a < addr + i * bytes + bytes
    ensures !beats[i].error && |beats[i].data| == lanes && OnBus(m, beats[i].data, a)
    ensures beats[i].id == id && (beats[i].last <==> i == len)
  {
    BeatBase(addr, bytes, i);
    WordRange(a, addr + i * bytes, WordsOf(bytes));
    assert GoodBeat(m, beats[i], id, i == len, lanes, addr / 8 + Moved(WordsOf(bytes), i), WordsOf(bytes));
  }

  /** A read of less than a word has its whole word in its beat. */
  lemma SmallReadCovers(m: Store, beats: seq<Beat>, id: nat, lanes: nat, addr: nat, bytes: nat, a: nat)
    requires bytes < 8 && GoodBeats(m, beats, id, 0, lanes, addr / 8, WordsOf(bytes)) && |beats| == 1
    requires a / 8 == addr / 8
    ensures !beats[0].error && |beats[0].data| == lanes > 0 && OnBus(m, beats[0].data, a)
  {
    assert GoodBeat(m, beats[0], id, true, lanes, addr / 8 + Moved(1, 0), 1);
  }

  /** Every byte after an aligned write that stays within the bus: the enabled bytes of its range are
      stored, every other byte that exists stays. */
  lemma WriteCovers(
    m: Store, addr: nat, bytes: nat, data: seq<Word>, be: seq<ByteEnable>, rnd: nat -> Word, a: nat)
    requires addr % 8 == 0 && bytes >= 8 && bytes % 8 == 0
    requires |data| == |be| > 0 && addr / 8 % |data| + WordsOf(bytes) <= |data|
    ensures var r := StoredAll(m, addr / 8, addr / 8 % |data|, WordsOf(bytes), data, be, rnd);
      var w, lane := a / 8, a / 8 % |data|;
      if addr <= a < addr + bytes && be[lane][a % 8]
      then w in r && r[w][a % 8] == data[lane][a % 8]
      else w in m ==> w in r && r[w][a % 8] == m[w][a % 8]
  {
    var n, slot := WordsOf(bytes), addr / 8 % |data|;
    StoredWord(m, addr / 8, slot, n, data, be, rnd, a / 8);
    if addr <= a < addr + bytes {
      WordRange(a, addr, n);
      LaneOf(addr / 8, a / 8, |data|);
      StoredBytes(m, a / 8, data[a / 8 % |data|], be[a / 8 % |data|], rnd(a / 8), a % 8);
    } else {
      assert !(addr / 8 <= a / 8 < addr / 8 + n);
    }
  }

  /** Within the bus, the lane of a later word is counted from that of the first. */
  lemma LaneOf(v: nat, w: nat, lanes: nat)
    requires lanes > 0 && v <= w && v % lanes + (w - v) < lanes
    ensures w % lanes == v % lanes + (w - v)
  {
    Division(v, lanes);
    QuotientUnique(w, lanes, v / lanes, v % lanes + (w - v));
  }

  class Model {
    const regions: seq<Region>
    const memory: Memory
    const lanes: nat                        // 64-bit words on the bus
    const undefined: nat -> Exclusive       // what the reservation records hold before their first use
    var reservations: map<nat, Exclusive>   // the records written so far

    constructor (regions: seq<Region>, lanes: nat, undefined: nat -> Exclusive)
      ensures this.regions == regions && this.lanes == lanes && reservations == map[]
      ensures fresh(memory) && memory.words == map[]
    {
      this.regions := regions;
      this.lanes := lanes;
      this.undefined := undefined;
      memory := new Memory();
      reservations := map[];
    }

    /** The reservation record of an ID. */
    function Reservation(id: nat): Exclusive
      reads this
    {
      if id in reservations then reservations[id] else undefined(id)
    }

    /** The word loop of one beat; bus words that it does not set keep what they held. */
    method ReadBeat(start: nat, n: nat, rnd: nat -> Word, was: seq<Word>, ghost m: Store) returns (data: seq<Word>)
      requires |was| == lanes > 0 && m == memory.words
      modifies memory
      ensures memory.words == MaterialiseAll(m, start, n, rnd)
      ensures |data| == lanes && Carries(memory.words, data, start, n)
    {
      data := was;
      for w := 0 to n
        invariant |data| == lanes && Carries(memory.words, data, start, w)
        invariant memory.words == MaterialiseAll(m, start, w, rnd)
      {
        CarriesOne(memory.words, data, start, w, rnd(start + w));
        var word := memory.ReadMemory(start + w, rnd(start + w));
        data := data[(start + w) % lanes := word];
      }
    }

    /** One beat of a burst that has moved `k` words since memory was `m0`. */
    method NextRead(start: nat, k: nat, n: nat, rnd: nat -> Word, was: seq<Word>, ghost m0: Store)
      returns (data: seq<Word>)
      requires |was| == lanes > 0 && memory.words == MaterialiseAll(m0, start, k, rnd)
      modifies memory
      ensures memory.words == MaterialiseAll(m0, start, k + n, rnd) && Extends(old(memory.words), memory.words)
      ensures |data| == lanes && Carries(memory.words, data, start + k, n)
    {
      NextBeat(m0, memory.words, start, k, n, rnd);
      data := ReadBeat(start + k, n, rnd, was, memory.words);
    }

    /** The beat loop of a read burst. */
    method ReadBeats(start: nat, n: nat, len: nat, id: nat, rnd: nat -> Word, junk: seq<Word>, ghost m0: Store)
      returns (beats: seq<Beat>)
      requires |junk| == lanes > 0 && m0 == memory.words
      modifies memory
      ensures memory.words == MaterialiseAll(m0, start, Moved(n, len + 1), rnd)
      ensures |beats| == len + 1 && GoodBeats(memory.words, beats, id, len, lanes, start, n)
    {
      beats := [];
      var data, k := junk, 0;
      for i := 0 to len + 1
        invariant |beats| == i && |data| == lanes && k == Moved(n, i)
        invariant memory.words == MaterialiseAll(m0, start, k, rnd)
        invariant GoodBeats(memory.words, beats, id, len, lanes, start, n)
      {
        ghost var m := memory.words;
        data := NextRead(start, k, n, rnd, data, m0);
        var beat := Beat(false, id, i == len, data);
        assert GoodBeat(memory.words, beat, id, i == len, lanes, start + k, n);
        GoodBeatsMore(m, memory.words, beats, beat, id, len, lanes, start, n);
        beats := beats + [beat];
        k := k + n;
      }
    }

    /** A read burst of `len + 1` beats; `junk` is what the bus words hold before they are set. */
    method ReadOperation(
      addr: nat, bytes: nat, len: nat, exclusive: bool, id: nat, rnd: nat -> Word, junk: seq<Word>)
      returns (beats: seq<Beat>)
      requires |junk| == lanes > 0
      modifies this, memory
      ensures |beats| == len + 1
      ensures var n := WordsOf(bytes);
        if InError(regions, addr, addr + bytes) then
          && memory.words == old(memory.words) && reservations == old(reservations)
          && forall i :: 0 <= i <= len ==>
            beats[i].error && beats[i].id == id && (beats[i].last <==> i == len) && |beats[i].data| == lanes
        else
          && memory.words == MaterialiseAll(old(memory.words), addr / 8, Moved(n, len + 1), rnd)
          && GoodBeats(memory.words, beats, id, len, lanes, addr / 8, n)
          && reservations == (if exclusive then old(reservations)[id := Exclusive(true, addr, addr + bytes)]
                              else old(reservations))
    {
      var error := WithinErrorRegion(regions, addr, addr + bytes);
      if error {
        beats := seq(len + 1, i => Beat(true, id, i == len, junk));
        return;
      }
      if exclusive {
        reservations := reservations[id := Exclusive(true, addr, addr + bytes)];
      }
      beats := ReadBeats(addr / 8, WordsOf(bytes), len, id, rnd, junk, memory.words);
    }

    /** A read of at most one word, as core requests are. */
    method ReadWord(addr: nat, bytes: nat, exclusive: bool, id: nat, rnd: Word, junk: Word)
      returns (error: bool, data: Word)
      requires lanes > 0 && bytes <= 8
      modifies this, memory
      ensures error == InError(regions, addr, addr + bytes)
      ensures error ==> memory.words == old(memory.words) && reservations == old(reservations)
      ensures !error ==>
        && memory.words == Materialise(old(memory.words), addr / 8, rnd)
        && data == memory.words[addr / 8]
        && reservations == if exclusive then old(reservations)[id := Exclusive(true, addr, addr + bytes)]
                           else old(reservations)
    {
      var beats := ReadOperation(addr, bytes, 0, exclusive, id, _ => rnd, seq(lanes, _ => junk));
      error := beats[0].error;
      data := beats[0].data[addr / 8 % lanes];
      MaterialiseOne(old(memory.words), addr / 8, _ => rnd);
      assert Moved(1, 0) == 0 && Moved(1, 1) == 1;
      assert !error ==> GoodBeat(memory.words, beats[0], id, true, lanes, addr / 8, 1);
    }

    /** Masked update of one word. */
    method StoreWord(w: nat, data: Word, be: ByteEnable, rnd: Word)
      modifies memory
      ensures memory.words == Stored(old(memory.words), w, data, be, rnd)
    {
      if !AnyEnabled(be) {
        return;
      }
      var mask := BeToMask(be);
      MergeIsSelect(Materialise(memory.words, w, rnd)[w], data, be);
      memory.WriteMemory(w, data, mask, rnd);
    }

    /** The word loop of a write. */
    method StoreWords(start: nat, slot: nat, n: nat, data: seq<Word>, be: seq<ByteEnable>, rnd: nat -> Word)
      requires slot + n <= |data| == |be|
      modifies memory
      ensures memory.words == StoredAll(old(memory.words), start, slot, n, data, be, rnd)
    {
      for w := 0 to n
        invariant memory.words == StoredAll(old(memory.words), start, slot, w, data, be, rnd)
      {
        StoreWord(start + w, data[slot + w], be[slot + w], rnd(start + w));
      }
    }

    /** An atomic operation: every word of the transfer gets the same result. */
    method StoreAtomic(
      op: MemOp, addr: nat, n: nat, word: bool, data: Word, be: seq<ByteEnable>, rnd: nat -> Word)
      returns (loaded: Word)
      requires |be| == lanes > 0 && addr / 8 % lanes + n <= lanes
      modifies memory
      ensures var start, slot := addr / 8, addr / 8 % lanes;
        var m := Materialise(old(memory.words), start, rnd(start));
        var result: Word := AtomicResult(op, m[start], data, addr % 8, word);
        && loaded == ShiftUp(Extract(m[start], addr % 8, word), addr % 8)
        && memory.words == StoredAll(m, start, slot, n, seq(lanes, _ => result), be, rnd)
    {
      var off: Offset := addr % 8;
      var was := memory.ReadMemory(addr / 8, rnd(addr / 8));
      var result := MemCompute(op, Extract(was, off, word), Extract(data, off, word), word);
      loaded := ShiftUp(Extract(was, off, word), off);
      var results: seq<Word> := seq(lanes, _ => ShiftUp(result, off));
      assert results == seq(lanes, _ => AtomicResult(op, was, data, off, word));
      StoreWords(addr / 8, addr / 8 % lanes, n, results, be, rnd);
    }

    /** The reservation part of a store-exclusive: the record of its ID is consumed, and it must
        overlap the access. */
    method Consume(id: nat, base: nat, end: nat) returns (ok: bool)
      modifies `reservations
      ensures var e := old(Reservation(id));
        && ok == (e.valid && Overlaps(base, end, e.base, e.end))
        && reservations == (if e.valid then old(reservations)[id := e.(valid := false)] else old(reservations))
    {
      var e := Reservation(id);
      ok := false;
      if e.valid {
        reservations := reservations[id := e.(valid := false)];
        ok := Overlaps(base, end, e.base, e.end);
      }
    }

    /** A write that is aligned to its size and no wider than the bus. A store-exclusive consumes the
        reservation of its ID and is dropped when it does not overlap it; an error response touches
        nothing. */
    method WriteOperation(
      addr: nat, bytes: nat, id: nat, kind: WriteKind, data: seq<Word>, be: seq<ByteEnable>, rnd: nat -> Word)
      returns (error: bool, isAtomic: bool, loaded: Word)
      requires |data| == |be| == lanes > 0 && addr / 8 % lanes + WordsOf(bytes) <= lanes
      modifies this, memory
      ensures error == InError(regions, addr, addr + bytes)
      ensures error ==>
        !isAtomic && loaded == ZERO && memory.words == old(memory.words) && reservations == old(reservations)
      ensures !error && !kind.StoreExclusive? ==> !isAtomic && reservations == old(reservations)
      ensures var start, slot, n := addr / 8, addr / 8 % lanes, WordsOf(bytes);
        !error ==> match kind
          case Plain => memory.words == StoredAll(old(memory.words), start, slot, n, data, be, rnd)
          case AtomicOp(op) =>
            var m := Materialise(old(memory.words), start, rnd(start));
            var result: Word := AtomicResult(op, m[start], data[slot], addr % 8, bytes == 4);
            && loaded == ShiftUp(Extract(m[start], addr % 8, bytes == 4), addr % 8)
            && memory.words == StoredAll(m, start, slot, n, seq(lanes, _ => result), be, rnd)
          case StoreExclusive =>
            var e := old(Reservation(id));
            && isAtomic == (e.valid && Overlaps(addr, addr + bytes, e.base, e.end))
            && reservations == (if e.valid then old(reservations)[id := e.(valid := false)] else old(reservations))
            && memory.words == (if isAtomic then StoredAll(old(memory.words), start, slot, n, data, be, rnd)
                                else old(memory.words))
    {
      isAtomic, loaded := false, ZERO;
      error := WithinErrorRegion(regions, addr, addr + bytes);
      if error {
        return;
      }
      var start, slot := addr / 8, addr / 8 % lanes;
      match kind {
        case Plain =>
          StoreWords(start, slot, WordsOf(bytes), data, be, rnd);
        case AtomicOp(op) =>
          loaded := StoreAtomic(op, addr, WordsOf(bytes), bytes == 4, data[slot], be, rnd);
        case StoreExclusive =>
          isAtomic := Consume(id, addr, addr + bytes);
          if isAtomic {
            StoreWords(start, slot, WordsOf(bytes), data, be, rnd);
          }
      }
    }

    /** A write of at most one word, as core requests are: `data` is on every word of the bus, and the
        enables only on the one addressed. */
    method WriteWord(addr: nat, bytes: nat, id: nat, kind: WriteKind, data: Word, be: ByteEnable, rnd: Word)
      returns (error: bool, isAtomic: bool, loaded: Word)
      requires lanes > 0 && bytes <= 8
      modifies this, memory
      ensures error == InError(regions, addr, addr + bytes)
      ensures error ==> !isAtomic && memory.words == old(memory.words) && reservations == old(reservations)
      ensures !error && !kind.StoreExclusive? ==> !isAtomic && reservations == old(reservations)
      ensures !error && kind.Plain? ==> memory.words == Stored(old(memory.words), addr / 8, data, be, rnd)
      ensures !error && kind.AtomicOp? ==>
        var m := Materialise(old(memory.words), addr / 8, rnd);
        && loaded == ShiftUp(Extract(m[addr / 8], addr % 8, bytes == 4), addr % 8)
        && memory.words
           == Stored(m, addr / 8, AtomicResult(kind.op, m[addr / 8], data, addr % 8, bytes == 4), be, rnd)
      ensures !error && kind.StoreExclusive? ==>
        var e := old(Reservation(id));
        && isAtomic == (e.valid && Overlaps(addr, addr + bytes, e.base, e.end))
        && reservations == (if e.valid then old(reservations)[id := e.(valid := false)] else old(reservations))
        && memory.words
           == (if isAtomic then Stored(old(memory.words), addr / 8, data, be, rnd) else old(memory.words))
    {
      var slot := addr / 8 % lanes;
      var line: seq<Word> := seq(lanes, _ => data);
      var enables: seq<ByteEnable> := seq(lanes, _ => NO_BYTES)[slot := be];
      StoredOne(memory.words, addr / 8, slot, line, enables, _ => rnd);
      ghost var m := Materialise(memory.words, addr / 8, rnd);
      if kind.AtomicOp? {
        var result: Word := AtomicResult(kind.op, m[addr / 8], data, addr % 8, bytes == 4);
        StoredOne(m, addr / 8, slot, seq(lanes, _ => result), enables, _ => rnd);
      }
      error, isAtomic, loaded := WriteOperation(addr, bytes, id, kind, line, enables, _ => rnd);
    }
  }

  lemma MaterialiseOne(m: Store, w: nat, rnd: nat -> Word)
    ensures MaterialiseAll(m, w, 1, rnd) == Materialise(m, w, rnd(w))
  {
    assert MaterialiseAll(m, w, 0, rnd) == m;
  }

  lemma StoredOne(m: Store, w: nat, slot: nat, data: seq<Word>, be: seq<ByteEnable>, rnd: nat -> Word)
    requires slot < |data| == |be|
    ensures StoredAll(m, w, slot, 1, data, be, rnd) == Stored(m, w, data[slot], be[slot], rnd(w))
  {
    assert StoredAll(m, w, slot, 0, data, be, rnd) == m;
  }

  /** One more beat of a burst: the words read so far stay, the next ones are added. */
  lemma NextBeat(m0: Store, m: Store, start: nat, k: nat, n: nat, rnd: nat -> Word)
    requires m == MaterialiseAll(m0, start, k, rnd)
    ensures MaterialiseAll(m, start + k, n, rnd) == MaterialiseAll(m0, start, k + n, rnd)
    ensures Extends(m, MaterialiseAll(m, start + k, n, rnd))
  {
    MaterialiseMore(m0, start, k, n, rnd);
    var m' := MaterialiseAll(m, start + k, n, rnd);
    forall v | v in m
      ensures v in m' && m'[v] == m[v]
    {
      MaterialisedWord(m, start + k, n, rnd, v);
    }
  }
}
