/**
 The reservation register in the cache's handler of uncached and atomic requests: the copy of the
 load-reserved / store-conditional reservation that decides which store-conditionals reach memory.
 It compares addresses by cache line and word in the line, and snoops stores.
 */
module Uncached {
  import opened Arith
  import opened Words
  import opened Requests

  /** Bytes of a cache line. */
  type LineBytes = n: nat | n > 0 && n % 8 == 0 witness 64

  function Nline(addr: nat, line: LineBytes): nat {
    QuotientNatural(addr, line);
    addr / line
  }

  function WordInLine(addr: nat, line: LineBytes): nat {
    addr % line / 8
  }

  /** Words that a store covers, at least one. */
  function StoreWords(bytes: nat): nat {
    if bytes < 8 then 1 else bytes / 8
  }

  /** An atomic request hits the reserved word. */
  predicate AtomicHit(line: LineBytes, r: Reservation, addr: nat) {
    r.valid && Nline(r.base, line) == Nline(addr, line) && WordInLine(r.base, line) == WordInLine(addr, line)
  }

  /** A snooped store covers the reserved word. */
  predicate SnoopHit(line: LineBytes, r: Reservation, addr: nat, bytes: nat) {
    var base := WordInLine(addr, line);
    && r.valid && Nline(r.base, line) == Nline(addr, line)
    && base <= WordInLine(r.base, line) < base + StoreWords(bytes)
  }

  /** The register after a request; `error` is the error flag that memory answers a load-reserved
      with. */
  function NextRegister(line: LineBytes, r: Reservation, q: Req, error: bool): Reservation {
    match q.kind
    case Load => r
    case Store => if SnoopHit(line, r, q.addr, q.bytes) then r.(valid := false) else r
    case Atomic(_) => if AtomicHit(line, r, q.addr) then r.(valid := false) else r
    case StoreConditional => r.(valid := false)
    case LoadReserved => if error then r.(valid := false) else Reservation(true, q.addr)
  }

  class Register {
    const line: LineBytes
    var valid: bool
    var addr: nat

    ghost function View(): Reservation
      reads this
    {
      Reservation(valid, addr)
    }

    /** Reset. */
    constructor (line: LineBytes)
      ensures this.line == line && View() == NONE
    {
      this.line := line;
      valid, addr := false, 0;
    }

    /** The valid bit is set when clear, and cleared when set. */
    method Clock(set': bool, reset: bool, next: nat)
      requires !(set' && reset)
      modifies this
      ensures View() == if set' then Reservation(true, next)
                        else if reset then Reservation(false, next) else Reservation(old(valid), next)
    {
      valid := (!valid && set') || (valid && !reset);
      addr := next;
    }

    predicate Hits(a: nat)
      reads this
      ensures Hits(a) == AtomicHit(line, View(), a)
    {
      valid && addr / line == a / line && addr % line / 8 == a % line / 8
    }

    /** The snoop port sees a store. */
    method Snoop(q: Req)
      requires q.kind.Store?
      modifies this
      ensures View() == NextRegister(line, old(View()), q, false)
    {
      var base := q.addr % line / 8;
      var word := addr % line / 8;
      var hit := valid && addr / line == q.addr / line && base <= word < base + StoreWords(q.bytes);
      Clock(false, hit, addr);
    }

    /** An atomic operation is accepted. */
    method Operate(q: Req)
      requires q.kind.Atomic?
      modifies this
      ensures View() == NextRegister(line, old(View()), q, false)
    {
      Clock(false, Hits(q.addr), addr);
    }

    /** A store-conditional is accepted; it is forwarded to memory or fails at once. */
    method Conditional(q: Req) returns (forwarded: bool)
      requires q.kind.StoreConditional?
      modifies this
      ensures View() == NextRegister(line, old(View()), q, false)
      ensures forwarded == AtomicHit(line, old(View()), q.addr)
    {
      forwarded := Hits(q.addr);
      Clock(false, true, addr);
    }

    /** Memory answers a load-reserved. */
    method Reserve(q: Req, error: bool)
      requires q.kind.LoadReserved?
      modifies this
      ensures View() == NextRegister(line, old(View()), q, error)
    {
      Clock(!error, error, if error then addr else q.addr);
    }
  }

  // ---------------------------------------------------------------------------------------------
  // The register is the scoreboard's reservation
  // ---------------------------------------------------------------------------------------------

  /** The word address by line and word in the line. */
  lemma WordParts(addr: nat, line: LineBytes)
    ensures addr / 8 == Nline(addr, line) * (line / 8) + WordInLine(addr, line)
    ensures WordInLine(addr, line) < line / 8
  {
    var k := line / 8;
    var q, r := addr / line, addr % line;
    Division(addr, line);
    Division(line, 8);
    Division(r, 8);
    assert q * line == 8 * (q * k) by {
      MulAssociative(q, k, 8);
    }
    QuotientUnique(addr, 8, q * k + r / 8, r % 8);
  }

  /** Same line and same word in the line is same word. */
  lemma SameWord(a: nat, b: nat, line: LineBytes)
    ensures Nline(a, line) == Nline(b, line) && WordInLine(a, line) == WordInLine(b, line) <==> a / 8 == b / 8
  {
    WordParts(a, line);
    WordParts(b, line);
    QuotientUnique(a / 8, line / 8, Nline(a, line), WordInLine(a, line));
    QuotientUnique(b / 8, line / 8, Nline(b, line), WordInLine(b, line));
  }

  /** A store that stays in its line resets the reservation exactly when the reserved word is among
      the words that its bytes lie in. */
  lemma SnoopMeaning(line: LineBytes, r: Reservation, addr: nat, bytes: nat)
    requires (bytes < 8 && addr % 8 + bytes <= 8) || (addr % 8 == 0 && bytes % 8 == 0 && addr % line + bytes <= line)
    requires bytes > 0
    ensures SnoopHit(line, r, addr, bytes)
       <==> r.valid && exists a :: addr <= a < addr + bytes && a / 8 == r.base / 8
  {
    var n := StoreWords(bytes);
    WordParts(addr, line);
    WordParts(r.base, line);
    var k, w, v := line / 8, WordInLine(addr, line), WordInLine(r.base, line);
    assert w + n <= k by {
      if bytes >= 8 {
        LineRoom(addr % line, bytes, line);
      }
    }
    SameLine(r.base / 8, addr / 8, k, Nline(r.base, line), v, Nline(addr, line), w, n);
    WordsCovered(addr, bytes, r.base / 8);
  }

  lemma LineRoom(r: nat, bytes: nat, line: LineBytes)
    requires bytes % 8 == 0 && r + bytes <= line
    ensures r / 8 + bytes / 8 <= line / 8
  {
  }

  /** Word addresses in the same block of `k` and close together. */
  lemma SameLine(x: nat, y: nat, k: nat, p: nat, v: nat, q: nat, w: nat, n: nat)
    requires x == p * k + v && y == q * k + w && v < k && w < k && w + n <= k
    ensures p == q && w <= v < w + n <==> y <= x < y + n
  {
    if y <= x < y + n && p != q {
      if p < q {
        MulMonotone(p + 1, q, k);
      } else {
        MulMonotone(q + 1, p, k);
      }
    }
  }

  /** The words that the bytes of a store lie in. */
  lemma WordsCovered(addr: nat, bytes: nat, word: nat)
    requires bytes > 0 && ((bytes < 8 && addr % 8 + bytes <= 8) || (addr % 8 == 0 && bytes % 8 == 0))
    ensures addr / 8 <= word < addr / 8 + StoreWords(bytes)
       <==> exists a :: addr <= a < addr + bytes && a / 8 == word
  {
    if addr / 8 <= word < addr / 8 + StoreWords(bytes) {
      var a := if word == addr / 8 then addr else 8 * word;
      assert addr <= a < addr + bytes && a / 8 == word;
    }
  }

  lemma HitIsMatch(line: LineBytes, r: Reservation, q: Req)
    ensures AtomicHit(line, r, q.addr) <==> Matches(r, q)
  {
    SameWord(r.base, q.addr, line);
  }

  /** On accesses of at most one word both do the same with every request. */
  lemma RegisterStep(line: LineBytes, regions: seq<Region>, r: Reservation, q: Req)
    requires q.bytes <= 8
    ensures NextRegister(line, r, q, Faults(regions, q)) == Reserve(regions, r, q)
  {
    HitIsMatch(line, r, q);
    assert StoreWords(q.bytes) == 1;
  }

  function RegisterAfter(line: LineBytes, regions: seq<Region>, trace: seq<Req>): Reservation {
    if |trace| == 0 then NONE
    else
      var m := |trace| - 1;
      NextRegister(line, RegisterAfter(line, regions, trace[..m]), trace[m], Faults(regions, trace[m]))
  }

  /** Over every trace, whatever the line size, a store-conditional is forwarded to memory exactly
      when the scoreboard holds it possibly atomic. */
  lemma {:induction false} RegistersAgree(line: LineBytes, regions: seq<Region>, trace: seq<Req>, sc: Req)
    requires forall k :: 0 <= k < |trace| ==> trace[k].bytes <= 8
    ensures RegisterAfter(line, regions, trace) == ReservationAfter(regions, trace)
    ensures AtomicHit(line, RegisterAfter(line, regions, trace), sc.addr)
       <==> HoldsReservation(regions, trace, sc.Word())
  {
    if |trace| > 0 {
      var m := |trace| - 1;
      RegistersAgree(line, regions, trace[..m], sc);
      RegisterStep(line, regions, ReservationAfter(regions, trace[..m]), trace[m]);
    }
    HitIsMatch(line, ReservationAfter(regions, trace), sc);
    ReservationMeaning(regions, trace, sc);
  }

  // ---------------------------------------------------------------------------------------------
  // The status of a store-conditional
  // ---------------------------------------------------------------------------------------------

  /** The status word: the code once, or in both halves for a four-byte access. */
  function StatusWord(bytes: nat, success: bool): Word {
    var code := if success then 0 else 1;
    if bytes == 8 then [code, 0, 0, 0, 0, 0, 0, 0] else [code, 0, 0, 0, code, 0, 0, 0]
  }

  /** The accessed bytes hold the number 0 for success and 1 for failure, wherever they are. */
  lemma StatusMeaning(off: nat, bytes: nat, success: bool)
    requires (bytes == 8 && off == 0) || (bytes == 4 && (off == 0 || off == 4))
    ensures Number(StatusWord(bytes, success)[off..off + bytes]) == if success then 0 else 1
  {
    var code: Byte := if success then 0 else 1;
    var w := StatusWord(bytes, success)[off..off + bytes];
    if bytes == 8 {
      assert w == [code] + [0, 0, 0, 0, 0, 0, 0];
      ZerosNumber([0, 0, 0, 0, 0, 0, 0]);
      NumberCons(code, [0, 0, 0, 0, 0, 0, 0]);
    } else {
      assert w == [code] + [0, 0, 0];
      ZerosNumber([0, 0, 0]);
      NumberCons(code, [0, 0, 0]);
    }
  }

  lemma {:induction false} ZerosNumber(bs: seq<Byte>)
    requires forall i :: 0 <= i < |bs| ==> bs[i] == 0
    ensures Number(bs) == 0
  {
    if |bs| > 0 {
      ZerosNumber(bs[1..]);
    }
  }
}
