/** The pool's work manager: the jobs it keeps, and the search for an interpretation of a submitted share that
    its job accepts.  Fields are the bytes that their hex texts stand for. */
module ShareSearch {

  import opened Options
  import opened Powers

  type Bytes = seq<nat>

  // ---------- compact sizes ----------

  /** The low n bytes of a number, least significant first. */
  function LittleEndian(v: nat, n: nat): (b: Bytes)
    ensures |b| == n
  {
    if n == 0 then [] else [v % 256] + LittleEndian(v / 256, n - 1)
  }

  function FromLittleEndian(b: Bytes): nat
  {
    if b == [] then 0 else b[0] + 256 * FromLittleEndian(b[1..])
  }

  lemma {:induction false} LittleEndianInverts(v: nat, n: nat)
    requires v < Pow(256, n)
    ensures FromLittleEndian(LittleEndian(v, n)) == v
  {
    if n > 0 {
      LittleEndianInverts(v / 256, n - 1);
      assert LittleEndian(v, n)[1..] == LittleEndian(v / 256, n - 1);
    }
  }

  const SAFE := 0x20_0000_0000_0000

  function CompactSize(v: nat): Bytes
  {
    if v < 253 then [v]
    else if v <= 0xffff then [0xfd] + LittleEndian(v, 2)
    else if v <= 0xffff_ffff then [0xfe] + LittleEndian(v, 4)
    else [0xff] + LittleEndian(v, 8)
  }

  datatype Size = Size(value: nat, bytes: nat)

  /** Reads a compact size; an eight-byte one has to be a safe integer. */
  function ParseCompactSize(b: Bytes): Option<Size>
  {
    if b == [] then None
    else if b[0] < 0xfd then Some(Size(b[0], 1))
    else if b[0] == 0xfd then
      if |b| < 3 then None else Some(Size(FromLittleEndian(b[1..3]), 3))
    else if b[0] == 0xfe then
      if |b| < 5 then None else Some(Size(FromLittleEndian(b[1..5]), 5))
    else
      if |b| < 9 || FromLittleEndian(b[1..9]) >= SAFE then None else Some(Size(FromLittleEndian(b[1..9]), 9))
  }

  lemma CompactSizeInverts(v: nat, rest: Bytes)
    requires v < SAFE
    ensures ParseCompactSize(CompactSize(v) + rest) == Some(Size(v, |CompactSize(v)|))
  {
    var b := CompactSize(v) + rest;
    Powers256();
    if v < 253 {
    } else if v <= 0xffff {
      assert b[1..3] == LittleEndian(v, 2);
      LittleEndianInverts(v, 2);
    } else if v <= 0xffff_ffff {
      assert b[1..5] == LittleEndian(v, 4);
      LittleEndianInverts(v, 4);
    } else {
      assert b[1..9] == LittleEndian(v, 8);
      LittleEndianInverts(v, 8);
    }
  }

  lemma {:induction false} LittleEndianAt(v: nat, n: nat, i: nat)
    requires i < n
    ensures 0 < Pow(256, i) && LittleEndian(v, n)[i] == v / Pow(256, i) % 256
  {
    PowPositive(256, i);
    if i > 0 {
      LittleEndianAt(v / 256, n - 1, i - 1);
      Dividing(v, Pow(256, i - 1));
    }
  }

  lemma Dividing(v: nat, p: nat)
    requires 0 < p
    ensures v / 256 / p == v / (256 * p)
  {
    var q, r := v / 256, v % 256;
    DivModEquation(q, p);
    Associate(q / p, 256, p);
    DivModUnique(v, 256 * p, q / p, 256 * (q % p) + r);
  }

  /** The four forms, byte by byte. */
  lemma CompactSizeIs(v: nat)
    ensures v < 253 ==> CompactSize(v) == [v]
    ensures 253 <= v < 0x1_0000 ==> CompactSize(v) == [0xfd, v % 256, v / 256]
    ensures 0x1_0000 <= v < 0x1_0000_0000 ==>
      CompactSize(v) == [0xfe, v % 256, v / 256 % 256, v / 256 / 256 % 256, v / 256 / 256 / 256]
    ensures 0x1_0000_0000 <= v ==>
      && |CompactSize(v)| == 9 && CompactSize(v)[0] == 0xff
      && forall i :: 0 <= i < 8 ==> 0 < Pow(256, i) && CompactSize(v)[1 + i] == v / Pow(256, i) % 256
  {
    if 253 <= v < 0x1_0000 {
      LittleEndianTwo(v);
    } else if 0x1_0000 <= v < 0x1_0000_0000 {
      LittleEndianTwo(v);
      LittleEndianTwo(v / 256 / 256);
    } else if 0x1_0000_0000 <= v {
      forall i | 0 <= i < 8
        ensures 0 < Pow(256, i) && CompactSize(v)[1 + i] == v / Pow(256, i) % 256
      {
        LittleEndianAt(v, 8, i);
      }
    }
  }

  lemma LittleEndianTwo(v: nat)
    ensures LittleEndian(v, 2) == [v % 256, v / 256 % 256]
    ensures LittleEndian(v, 4) == LittleEndian(v, 2) + LittleEndian(v / 256 / 256, 2)
  {
    assert LittleEndian(v, 2) == [v % 256] + LittleEndian(v / 256, 1);
    assert LittleEndian(v, 4) == [v % 256] + ([v / 256 % 256] + LittleEndian(v / 256 / 256, 2));
  }

  lemma Powers256()
    ensures Pow(256, 2) == 0x1_0000 && Pow(256, 4) == 0x1_0000_0000 && Pow(256, 8) == 0x1_0000_0000_0000_0000
  {
    assert Pow(256, 4) == 256 * Pow(256, 3) && Pow(256, 3) == 256 * Pow(256, 2);
    assert Pow(256, 8) == 256 * Pow(256, 7) && Pow(256, 7) == 256 * Pow(256, 6) && Pow(256, 6) == 256 * Pow(256, 5);
    assert Pow(256, 5) == 256 * Pow(256, 4);
  }

  // ---------- candidates ----------

  function Reverse(b: Bytes): (r: Bytes)
    ensures |r| == |b|
  {
    if b == [] then [] else Reverse(b[1..]) + [b[0]]
  }

  lemma {:induction false} ReverseSnoc(b: Bytes, x: nat)
    ensures Reverse(b + [x]) == [x] + Reverse(b)
  {
    if b != [] {
      ReverseSnoc(b[1..], x);
      assert (b + [x])[1..] == b[1..] + [x];
    }
  }

  lemma {:induction false} ReverseAt(b: Bytes, i: nat)
    requires i < |b|
    ensures Reverse(b)[i] == b[|b| - 1 - i]
  {
    if i < |b| - 1 {
      ReverseAt(b[1..], i);
    }
  }

  lemma ReverseFour(b: Bytes)
    requires |b| == 4
    ensures Reverse(b) == [b[3], b[2], b[1], b[0]]
  {
    ReverseAt(b, 0);
    ReverseAt(b, 1);
    ReverseAt(b, 2);
    ReverseAt(b, 3);
  }

  lemma {:induction false} ReverseReverse(b: Bytes)
    ensures Reverse(Reverse(b)) == b
  {
    if b != [] {
      ReverseReverse(b[1..]);
      ReverseSnoc(Reverse(b[1..]), b[0]);
    }
  }

  /** Adds a candidate that is not there yet. */
  function Push(out: seq<Bytes>, b: Bytes): (r: seq<Bytes>)
    ensures b in r && out <= r && |r| <= |out| + 1
    ensures forall x :: x in r ==> x in out || x == b
    ensures b in out ==> r == out
  {
    if b in out then out else out + [b]
  }

  /** The same header time in the byte orders that firmware uses. */
  function TimeCandidates(submitted: Bytes, jobTime: Bytes): (out: seq<Bytes>)
    requires |submitted| == 4 && |jobTime| == 4
    ensures 1 <= |out| <= 4 && out[0] == submitted && forall x :: x in out ==> |x| == 4
  {
    var a := Push(Push([], submitted), Reverse(submitted));
    var b := Push(Push(a, Reverse(jobTime)), jobTime);
    Push(b, Reverse(jobTime))
  }

  /** The times tried: the submitted one and the job's, each in both byte orders, and nothing else. */
  lemma TimeReadings(t: Bytes, j: Bytes, x: Bytes)
    requires |t| == 4 && |j| == 4
    ensures x in TimeCandidates(t, j) <==>
      x == t || x == [t[3], t[2], t[1], t[0]] || x == j || x == [j[3], j[2], j[1], j[0]]
  {
    ReverseFour(t);
    ReverseFour(j);
  }

  function NormalizeCompactBits(bits: Bytes): (r: Bytes)
    requires |bits| == 4
    ensures r == bits || r == Reverse(bits)
  {
    if 3 <= bits[0] <= 32 && !(3 <= bits[3] <= 32) then Reverse(bits) else bits
  }

  function BitsCandidates(bits: Bytes): (out: seq<Bytes>)
    ensures |out| <= 2 && (out == [] <==> |bits| != 4) && forall x :: x in out ==> |x| == 4
  {
    if |bits| != 4 then []
    else
      ReverseReverse(bits);
      var two := Push(Push([], bits), Reverse(bits));
      Push(Push(two, NormalizeCompactBits(bits)), Reverse(NormalizeCompactBits(bits)))
  }

  /** The compact targets tried: both byte orders of a four-byte field, and nothing else. */
  lemma BitsReadings(b: Bytes, x: Bytes)
    ensures x in BitsCandidates(b) <==> |b| == 4 && (x == b || x == [b[3], b[2], b[1], b[0]])
  {
    if |b| == 4 {
      ReverseFour(b);
      ReverseReverse(b);
    }
  }

  function Blank(n: nat): (b: Bytes)
    ensures |b| == n
  {
    seq(n, i => 0)
  }

  /** The extra nonce inserted at each of the first n byte positions. */
  function Inserted(nonce: Bytes, extra: Bytes, n: nat): (out: seq<Bytes>)
    requires n <= |nonce| + 1
    ensures |out| <= n && forall x :: x in out ==> |x| == |nonce| + |extra|
  {
    if n == 0 then [] else Push(Inserted(nonce, extra, n - 1), nonce[..n - 1] + extra + nonce[n - 1..])
  }

  /** The 32-byte nonces that a submitted nonce can mean. */
  function NonceCandidates(nonce: Bytes, extra: Option<Bytes>): (out: seq<Bytes>)
    ensures |out| <= 10 && forall x :: x in out ==> |x| == 32
  {
    if |nonce| > 32 then []
    else if |nonce| == 32 then [nonce]
    else
      var inserted :=
        if extra.Some? && |extra.value| == 4 && |nonce| == 28 then Inserted(nonce, extra.value, 8) else [];
      if |nonce| >= 4 then Push(Push(inserted, Blank(32 - |nonce|) + nonce), nonce + Blank(32 - |nonce|)) else inserted
  }

  /** The nonces tried: a whole one as it is; a shorter one with zeros in front and behind, from four bytes on;
      one of 28 bytes also with an extra nonce of four inserted before its byte i, for i below 8. */
  lemma NonceReadings(nonce: Bytes, extra: Option<Bytes>, x: Bytes)
    ensures x in NonceCandidates(nonce, extra) <==>
      || (|nonce| == 32 && x == nonce)
      || (4 <= |nonce| < 32 && x == seq(32 - |nonce|, i => 0) + nonce)
      || (4 <= |nonce| < 32 && x == nonce + seq(32 - |nonce|, i => 0))
      || (|nonce| == 28 && extra.Some? && |extra.value| == 4
          && exists i :: 0 <= i < 8 && x == nonce[..i] + extra.value + nonce[i..])
  {
    if |nonce| == 28 && extra.Some? && |extra.value| == 4 {
      InsertedHas(nonce, extra.value, 8, x);
    }
  }

  lemma {:induction false} InsertedHas(nonce: Bytes, extra: Bytes, n: nat, x: Bytes)
    requires n <= |nonce| + 1
    ensures x in Inserted(nonce, extra, n) <==> exists i :: 0 <= i < n && x == nonce[..i] + extra + nonce[i..]
  {
    if n > 0 {
      InsertedHas(nonce, extra, n - 1, x);
    }
  }

  datatype Solution = Solution(field: Bytes, raw: Bytes)

  function Extract(field: Bytes): Option<Bytes>
  {
    match ParseCompactSize(field)
    case None => None
    case Some(size) =>
      if size.bytes <= |field| && |field| - size.bytes == size.value then Some(field[size.bytes..]) else None
  }

  /** The solution fields that a submitted solution can mean: with its length in front already, or without. */
  function SolutionFields(solution: Bytes): (out: seq<Bytes>)
    ensures 1 <= |out| <= 2
  {
    match Extract(solution)
    case Some(body) => Push([solution], CompactSize(|body|) + body)
    case None => [CompactSize(|solution|) + solution]
  }

  /** The solution fields tried: if the bytes are a compact size and as many bytes as it says, they themselves and the
      same with the shortest size; otherwise the size of all of them in front. */
  lemma SolutionReadings(solution: Bytes, x: Bytes)
    ensures var size := ParseCompactSize(solution);
      var whole := size.Some? && size.value.bytes + size.value.value == |solution|;
      && (whole ==>
            (x in SolutionFields(solution) <==>
               x == solution || x == CompactSize(size.value.value) + solution[|solution| - size.value.value..]))
      && (!whole ==> (x in SolutionFields(solution) <==> x == CompactSize(|solution|) + solution))
  {
    hide CompactSize, ParseCompactSize;
  }

  /** Every solution field is well formed, so that none is dropped afterwards. */
  lemma FieldsExtract(solution: Bytes, field: Bytes)
    requires field in SolutionFields(solution) && |solution| < SAFE
    ensures Extract(field).Some?
  {
    match Extract(solution) {
      case Some(body) =>
        CompactSizeInverts(|body|, body);
      case None =>
        CompactSizeInverts(|solution|, solution);
    }
  }

  // ---------- the search ----------

  /** The Equihash verifier and the double hash, as a number. */
  datatype Crypto = Crypto(equihash: (Bytes, Bytes) -> bool, hash: Bytes -> nat) {
    /** The verifier refuses headers and solutions of the wrong size. */
    predicate Verifies(header: Bytes, raw: Bytes)
    {
      |header| == 140 && |raw| == 1344 && equihash(header, raw)
    }
  }

  datatype Targets = Targets(net: nat, client: nat, grace: Option<nat>) {
    /** The hash reaches the largest of the targets that apply. */
    predicate Met(hash: nat)
    {
      hash <= net || hash <= client || (grace.Some? && hash <= grace.value)
    }
  }

  /** One way to read a share. */
  datatype Reading = Reading(nonce: Bytes, time: Bytes, bits: Bytes, solution: Solution)

  function Header(fixed: Bytes, r: Reading): Bytes
  {
    fixed + r.time + r.bits + r.nonce
  }

  predicate Verified(c: Crypto, fixed: Bytes, r: Reading)
  {
    c.Verifies(Header(fixed, r), r.solution.raw)
  }

  function HashOf(c: Crypto, fixed: Bytes, r: Reading): nat
  {
    c.hash(Header(fixed, r) + r.solution.field)
  }

  predicate Good(c: Crypto, t: Targets, fixed: Bytes, r: Reading)
  {
    Verified(c, fixed, r) && t.Met(HashOf(c, fixed, r))
  }

  /** The lists of candidates. */
  datatype Candidates = Candidates(nonces: seq<Bytes>, times: seq<Bytes>, bits: seq<Bytes>, solutions: seq<Solution>) {
    ghost predicate Ok()
    {
      && (forall x :: x in nonces ==> |x| == 32)
      && (forall x :: x in times ==> |x| == 4)
      && (forall x :: x in bits ==> |x| == 4)
    }

    predicate Has(r: Reading)
    {
      r.nonce in nonces && r.time in times && r.bits in bits && r.solution in solutions
    }
  }

  /** What a search over some candidates may report. */
  ghost predicate Right(c: Crypto, t: Targets, fixed: Bytes, cs: Candidates, found: Option<Reading>, verified: bool)
  {
    && (found.Some? ==> cs.Has(found.value) && Good(c, t, fixed, found.value) && verified)
    && (found.None? ==> forall r :: cs.Has(r) ==> !Good(c, t, fixed, r))
    && (verified ==> exists r :: cs.Has(r) && Verified(c, fixed, r))
    && (!verified ==> forall r :: cs.Has(r) ==> !Verified(c, fixed, r))
  }

  /** Copies bytes into a buffer. */
  method CopyTo(buffer: array<nat>, at: nat, b: Bytes)
    requires at + |b| <= buffer.Length
    modifies buffer
    ensures buffer[..] == old(buffer[..at]) + b + old(buffer[at + |b|..])
  {
    for i := 0 to |b|
      invariant buffer[..at] == old(buffer[..at]) && buffer[at + |b|..] == old(buffer[at + |b|..])
      invariant buffer[at..at + i] == b[..i]
    {
      buffer[at + i] := b[i];
      assert buffer[at..at + i + 1] == buffer[at..at + i] + [b[i]];
    }
    assert buffer[..] == buffer[..at] + buffer[at..at + |b|] + buffer[at + |b|..];
  }

  /** The innermost loop: the header is complete, the solutions are tried on it. */
  method TrySolutions(c: Crypto, t: Targets, headerBuf: array<nat>, solutions: seq<Solution>, ghost fixed: Bytes,
                      ghost n: Bytes, ghost time: Bytes, ghost b: Bytes)
    returns (found: Option<Reading>, verified: bool, ghost calls: nat)
    requires headerBuf.Length == 140 && |fixed| == 100 && |time| == 4 && |b| == 4 && |n| == 32
    requires headerBuf[..] == fixed + time + b + n
    ensures Right(c, t, fixed, Candidates([n], [time], [b], solutions), found, verified)
    ensures found.Some? ==> headerBuf[..] == Header(fixed, found.value)
    ensures calls <= |solutions|
  {
    hide Right;
    found, verified, calls := None, false, 0;
    RightNothing(c, t, fixed, Candidates([n], [time], [b], []));
    for i := 0 to |solutions|
      invariant found.None? && calls <= i
      invariant Right(c, t, fixed, Candidates([n], [time], [b], solutions[..i]), found, verified)
    {
      var solution := solutions[i];
      ghost var r := Reading(n, time, b, solution);
      calls := calls + 1;
      var header := headerBuf[..];
      assert header == Header(fixed, r);
      var ok := c.Verifies(header, solution.raw);
      var met := ok && t.Met(c.hash(header + solution.field));
      ghost var before := Candidates([n], [time], [b], solutions[..i]);
      RightOneMore(c, t, fixed, before, r, verified);
      assert solutions[..i + 1] == solutions[..i] + [solution];
      verified := verified || ok;
      if met {
        found := Some(Reading(header[108..], header[100..104], header[104..108], solution));
        assert header[108..] == n && header[100..104] == time && header[104..108] == b;
        RightWider(c, t, fixed, Candidates([n], [time], [b], solutions[..i + 1]),
          Candidates([n], [time], [b], solutions), found);
        return;
      }
    }
    assert solutions[..|solutions|] == solutions;
  }

  lemma RightNothing(c: Crypto, t: Targets, fixed: Bytes, cs: Candidates)
    requires cs.nonces == [] || cs.times == [] || cs.bits == [] || cs.solutions == []
    ensures Right(c, t, fixed, cs, None, false)
  {
  }

  /** A find among fewer candidates is a find among more. */
  lemma RightWider(c: Crypto, t: Targets, fixed: Bytes, cs: Candidates, wide: Candidates, found: Option<Reading>)
    requires found.Some? && Right(c, t, fixed, cs, found, true)
    requires forall r :: cs.Has(r) ==> wide.Has(r)
    ensures Right(c, t, fixed, wide, found, true)
  {
    assert wide.Has(found.value);
  }

  lemma RightOneMore(c: Crypto, t: Targets, fixed: Bytes, cs: Candidates, r: Reading, verified: bool)
    requires Right(c, t, fixed, cs, None, verified)
    requires cs.nonces == [r.nonce] && cs.times == [r.time] && cs.bits == [r.bits]
    ensures var more := cs.(solutions := cs.solutions + [r.solution]);
            Right(c, t, fixed, more, if Good(c, t, fixed, r) then Some(r) else None, verified || Verified(c, fixed, r))
  {
    var more := cs.(solutions := cs.solutions + [r.solution]);
    assert more.Has(r);
    forall x | more.Has(x)
      ensures cs.Has(x) || x == r
    {
    }
    if verified {
      var x :| cs.Has(x) && Verified(c, fixed, x);
      assert more.Has(x);
    }
  }

  /** Adding one nonce, time or bits to the candidates searched so far. */
  lemma RightUnion(c: Crypto, t: Targets, fixed: Bytes, a: Candidates, b: Candidates, both: Candidates,
                   found: Option<Reading>, va: bool, vb: bool)
    requires Right(c, t, fixed, a, None, va) && Right(c, t, fixed, b, found, vb)
    requires forall r :: both.Has(r) <==> a.Has(r) || b.Has(r)
    ensures Right(c, t, fixed, both, found, va || vb)
  {
    if va {
      var x :| a.Has(x) && Verified(c, fixed, x);
      assert both.Has(x);
    }
    if vb {
      var x :| b.Has(x) && Verified(c, fixed, x);
      assert both.Has(x);
    }
    if found.Some? {
      assert both.Has(found.value);
    }
  }

  /** The loop over the compact targets: each is written into the header in place. */
  method TryBits(c: Crypto, t: Targets, headerBuf: array<nat>, bits: seq<Bytes>, solutions: seq<Solution>,
                 ghost fixed: Bytes, ghost n: Bytes, ghost time: Bytes)
    returns (found: Option<Reading>, verified: bool, ghost calls: nat)
    requires headerBuf.Length == 140 && |fixed| == 100 && |time| == 4 && |n| == 32
    requires headerBuf[..104] == fixed + time && headerBuf[108..] == n
    requires forall x :: x in bits ==> |x| == 4
    modifies headerBuf
    ensures headerBuf[..104] == fixed + time && headerBuf[108..] == n
    ensures found.Some? ==> headerBuf[..] == Header(fixed, found.value)
    ensures Right(c, t, fixed, Candidates([n], [time], bits, solutions), found, verified)
    ensures calls <= |bits| * |solutions|
  {
    hide Right;
    found, verified, calls := None, false, 0;
    RightNothing(c, t, fixed, Candidates([n], [time], [], solutions));
    for i := 0 to |bits|
      invariant found.None? && calls <= i * |solutions|
      invariant headerBuf[..104] == fixed + time && headerBuf[108..] == n
      invariant Right(c, t, fixed, Candidates([n], [time], bits[..i], solutions), None, verified)
    {
      ghost var b := bits[i];
      CopyTo(headerBuf, 104, bits[i]);
      HeaderBuilt(headerBuf[..], fixed + time, b, n);
      assert headerBuf[..] == fixed + time + b + n;
      ghost var more: nat;
      var v: bool;
      found, v, more := TrySolutions(c, t, headerBuf, solutions, fixed, n, time, b);
      RightUnion(c, t, fixed, Candidates([n], [time], bits[..i], solutions), Candidates([n], [time], [b], solutions),
                 Candidates([n], [time], bits[..i + 1], solutions), found, verified, v);
      verified := verified || v;
      calls := calls + more;
      Distribute(i, |solutions|);
      if found.Some? {
        FoundHere(c, t, fixed, Candidates([n], [time], bits[..i + 1], solutions), found, verified);
        RightWider(c, t, fixed, Candidates([n], [time], bits[..i + 1], solutions),
          Candidates([n], [time], bits, solutions), found);
        MulMonotone(i + 1, |bits|, |solutions|);
        return;
      }
    }
    assert bits[..|bits|] == bits;
  }

  lemma HeaderBuilt(h: Bytes, front: Bytes, b: Bytes, n: Bytes)
    requires h == front + b + n && |front| == 104 && |b| == 4
    ensures h[..104] == front && h[104..108] == b && h[108..] == n
  {
  }

  lemma FoundHere(c: Crypto, t: Targets, fixed: Bytes, cs: Candidates, found: Option<Reading>, verified: bool)
    requires found.Some? && Right(c, t, fixed, cs, found, verified)
    ensures verified && cs.Has(found.value)
  {
  }

  lemma Distribute(i: nat, m: nat)
    ensures (i + 1) * m == i * m + m
  {
  }

  /** The loop over the header times. */
  method TryTimes(c: Crypto, t: Targets, headerBuf: array<nat>, times: seq<Bytes>, bits: seq<Bytes>,
                  solutions: seq<Solution>, ghost fixed: Bytes, ghost n: Bytes)
    returns (found: Option<Reading>, verified: bool, ghost calls: nat)
    requires headerBuf.Length == 140 && |fixed| == 100 && |n| == 32
    requires headerBuf[..100] == fixed && headerBuf[108..] == n
    requires (forall x :: x in times ==> |x| == 4) && (forall x :: x in bits ==> |x| == 4)
    modifies headerBuf
    ensures headerBuf[..100] == fixed && headerBuf[108..] == n
    ensures found.Some? ==> headerBuf[..] == Header(fixed, found.value)
    ensures Right(c, t, fixed, Candidates([n], times, bits, solutions), found, verified)
    ensures calls <= |times| * (|bits| * |solutions|)
  {
    hide Right;
    found, verified, calls := None, false, 0;
    RightNothing(c, t, fixed, Candidates([n], [], bits, solutions));
    for i := 0 to |times|
      invariant found.None? && calls <= i * (|bits| * |solutions|)
      invariant headerBuf[..100] == fixed && headerBuf[108..] == n
      invariant Right(c, t, fixed, Candidates([n], times[..i], bits, solutions), None, verified)
    {
      ghost var time := times[i];
      CopyTo(headerBuf, 100, times[i]);
      assert headerBuf[..104] == fixed + time;
      assert headerBuf[108..] == n;
      ghost var more: nat;
      var v: bool;
      found, v, more := TryBits(c, t, headerBuf, bits, solutions, fixed, n, time);
      assert headerBuf[..100] == headerBuf[..104][..100] == fixed;
      RightUnion(c, t, fixed, Candidates([n], times[..i], bits, solutions), Candidates([n], [time], bits, solutions),
                 Candidates([n], times[..i + 1], bits, solutions), found, verified, v);
      verified := verified || v;
      calls := calls + more;
      Distribute(i, |bits| * |solutions|);
      if found.Some? {
        FoundHere(c, t, fixed, Candidates([n], times[..i + 1], bits, solutions), found, verified);
        RightWider(c, t, fixed, Candidates([n], times[..i + 1], bits, solutions),
          Candidates([n], times, bits, solutions), found);
        MulMonotone(i + 1, |times|, |bits| * |solutions|);
        return;
      }
    }
    assert times[..|times|] == times;
  }

  /** The outermost loop, over the nonces. */
  method TryNonces(c: Crypto, t: Targets, headerBuf: array<nat>, cs: Candidates, ghost fixed: Bytes)
    returns (found: Option<Reading>, verified: bool, ghost calls: nat)
    requires headerBuf.Length == 140 && |fixed| == 100 && headerBuf[..100] == fixed && cs.Ok()
    modifies headerBuf
    ensures headerBuf[..100] == fixed
    ensures found.Some? ==> headerBuf[..] == Header(fixed, found.value)
    ensures Right(c, t, fixed, cs, found, verified)
    ensures calls <= |cs.nonces| * (|cs.times| * (|cs.bits| * |cs.solutions|))
  {
    hide Right;
    found, verified, calls := None, false, 0;
    RightNothing(c, t, fixed, cs.(nonces := []));
    for i := 0 to |cs.nonces|
      invariant found.None? && calls <= i * (|cs.times| * (|cs.bits| * |cs.solutions|))
      invariant headerBuf[..100] == fixed
      invariant Right(c, t, fixed, cs.(nonces := cs.nonces[..i]), None, verified)
    {
      ghost var n := cs.nonces[i];
      CopyTo(headerBuf, 108, cs.nonces[i]);
      assert headerBuf[..100] == headerBuf[..108][..100];
      assert headerBuf[108..] == n;
      ghost var more: nat;
      var v: bool;
      found, v, more := TryTimes(c, t, headerBuf, cs.times, cs.bits, cs.solutions, fixed, n);
      RightUnion(c, t, fixed, cs.(nonces := cs.nonces[..i]), cs.(nonces := [n]), cs.(nonces := cs.nonces[..i + 1]),
        found, verified, v);
      verified := verified || v;
      calls := calls + more;
      Distribute(i, |cs.times| * (|cs.bits| * |cs.solutions|));
      if found.Some? {
        FoundHere(c, t, fixed, cs.(nonces := cs.nonces[..i + 1]), found, verified);
        RightWider(c, t, fixed, cs.(nonces := cs.nonces[..i + 1]), cs, found);
        MulMonotone(i + 1, |cs.nonces|, |cs.times| * (|cs.bits| * |cs.solutions|));
        return;
      }
    }
    assert cs.nonces[..|cs.nonces|] == cs.nonces;
  }

  // ---------- the work manager ----------

  /** A job: its identity, the first 100 bytes of its header, and what a block needs besides. */
  datatype Job = Job(id: nat, height: nat, fixed: Bytes, ntime: Bytes, nbits: Bytes, target: nat,
                     coinbase: Bytes, transactions: seq<Bytes>)

  /** The fields of a submitted share; None where the text is not hex of an acceptable length. */
  datatype Submission = Submission(jobId: nat, nTime: Option<Bytes>, nonce: Option<Bytes>, solution: Option<Bytes>,
                                   extranonce: Option<Bytes>, shareTarget: Option<nat>, previousTarget: Option<nat>)

  datatype Verdict =
    | Accepted(isBlock: bool, hash: nat, block: Option<Bytes>, height: nat)
    | JobExpired | StaleJob | InvalidTime | InvalidNonce | InvalidSolutionText | InvalidLayout | InvalidSolution
    | LowDiff

  function Concat(parts: seq<Bytes>): Bytes
  {
    if parts == [] then [] else Concat(parts[..|parts| - 1]) + parts[|parts| - 1]
  }

  /** A block: header, solution, and the transactions with the coinbase first. */
  function Assemble(job: Job, header: Bytes, field: Bytes): Bytes
  {
    header + field + CompactSize(1 + |job.transactions|) + job.coinbase + Concat(job.transactions)
  }

  /** Where a part begins when parts stand one after the other. */
  function Offset(parts: seq<Bytes>, i: nat): nat
    requires i <= |parts|
  {
    if i == 0 then 0 else Offset(parts, i - 1) + |parts[i - 1]|
  }

  predicate StandsAt(part: Bytes, b: Bytes, at: nat)
  {
    at + |part| <= |b| && b[at..at + |part|] == part
  }

  /** The bytes are the parts, one after the other, and nothing else. */
  ghost predicate Laid(parts: seq<Bytes>, b: Bytes)
  {
    |b| == Offset(parts, |parts|) && forall i :: 0 <= i < |parts| ==> StandsAt(parts[i], b, Offset(parts, i))
  }

  lemma {:induction false} OffsetOfPrefix(parts: seq<Bytes>, n: nat, i: nat)
    requires i <= n <= |parts|
    ensures Offset(parts[..n], i) == Offset(parts, i)
  {
    if i > 0 {
      OffsetOfPrefix(parts, n, i - 1);
    }
  }

  lemma {:induction false} ConcatLaid(parts: seq<Bytes>)
    ensures Laid(parts, Concat(parts))
  {
    hide StandsAt;
    if parts != [] {
      var n := |parts| - 1;
      ConcatLaid(parts[..n]);
      LaidSnoc(parts, Concat(parts[..n]));
    }
  }

  lemma LaidSnoc(parts: seq<Bytes>, b: Bytes)
    requires parts != [] && Laid(parts[..|parts| - 1], b)
    ensures Laid(parts, b + parts[|parts| - 1])
  {
    hide StandsAt;
    var n := |parts| - 1;
    var front := parts[..n];
    OffsetOfPrefix(parts, n, n);
    Appended(b, parts[n]);
    forall i | 0 <= i < |parts|
      ensures StandsAt(parts[i], b + parts[n], Offset(parts, i))
    {
      if i < n {
        OffsetOfPrefix(parts, n, i);
        assert StandsAt(front[i], b, Offset(front, i));
        StandsLonger(parts[i], b, parts[n], Offset(parts, i));
      }
    }
  }

  lemma Appended(b: Bytes, last: Bytes)
    ensures StandsAt(last, b + last, |b|)
  {
  }

  lemma StandsLonger(part: Bytes, b: Bytes, last: Bytes, at: nat)
    requires StandsAt(part, b, at)
    ensures StandsAt(part, b + last, at)
  {
    assert (b + last)[at..at + |part|] == b[at..at + |part|];
  }

  lemma {:induction false} ConcatCons(first: Bytes, parts: seq<Bytes>)
    ensures Concat([first] + parts) == first + Concat(parts)
  {
    if parts != [] {
      var n := |parts| - 1;
      ConcatCons(first, parts[..n]);
      assert ([first] + parts)[..n + 1] == [first] + parts[..n];
    } else {
      assert [first] + parts == [first] && [first][..0] == [];
    }
  }

  /** What a node reads in a block: the 140 bytes of the header, the solution, the number of transactions, and then
      the coinbase and the transactions of the job. */
  ghost predicate IsBlockOf(job: Job, r: Reading, block: Bytes)
  {
    var start := 140 + |r.solution.field|;
    && |block| >= start
    && block[..100] == job.fixed && block[100..104] == r.time && block[104..108] == r.bits
    && block[108..140] == r.nonce && block[140..start] == r.solution.field
    && (1 + |job.transactions| < SAFE ==>
          var count := ParseCompactSize(block[start..]);
          && count.Some? && count.value.value == 1 + |job.transactions| && start + count.value.bytes <= |block|
          && Laid([job.coinbase] + job.transactions, block[start + count.value.bytes..]))
  }

  /** A proof of work, byte for byte: a header of 140 bytes with a raw solution of 1344 that the verifier takes, and
      the hash of the header and the solution field. */
  ghost predicate IsProof(c: Crypto, job: Job, r: Reading, hash: nat)
  {
    var header := job.fixed + r.time + r.bits + r.nonce;
    && |header| == 140 && |r.solution.raw| == 1344 && c.equihash(header, r.solution.raw)
    && hash == c.hash(header + r.solution.field)
  }

  lemma AssembledReads(job: Job, r: Reading)
    requires |job.fixed| == 100 && |r.time| == 4 && |r.bits| == 4 && |r.nonce| == 32
    ensures IsBlockOf(job, r, Assemble(job, Header(job.fixed, r), r.solution.field))
  {
    hide ParseCompactSize, CompactSize, Laid, Concat;
    var header, field := Header(job.fixed, r), r.solution.field;
    var size, parts := CompactSize(1 + |job.transactions|), [job.coinbase] + job.transactions;
    var block := Assemble(job, header, field);
    ConcatCons(job.coinbase, job.transactions);
    ConcatLaid(parts);
    if |parts| < SAFE {
      CompactSizeInverts(|parts|, Concat(parts));
    }
    assert block == header + field + (size + Concat(parts));
    assert block[140 + |field|..] == size + Concat(parts);
    assert block[140 + |field| + |size|..] == Concat(parts);
  }

  function AllExtracted(fields: seq<Bytes>): (out: seq<Solution>)
    requires forall f :: f in fields ==> Extract(f).Some?
    ensures |out| == |fields| && forall i :: 0 <= i < |out| ==>
      out[i].field == fields[i] && Extract(fields[i]) == Some(out[i].raw)
  {
    seq(|fields|, i requires 0 <= i < |fields| => Solution(fields[i], Extract(fields[i]).value))
  }

  ghost predicate DistinctIds(jobs: seq<Job>)
  {
    forall i, k :: 0 <= i < k < |jobs| ==> jobs[i].id != jobs[k].id
  }

  /** Keeps the jobs of a height, in their order. */
  function AtHeight(jobs: seq<Job>, height: nat): (r: seq<Job>)
    ensures |r| <= |jobs| && forall j :: j in r <==> j in jobs && j.height == height
    ensures DistinctIds(jobs) ==> DistinctIds(r)
  {
    if jobs == [] then []
    else AtHeight(jobs[..|jobs| - 1], height) + if jobs[|jobs| - 1].height == height then [jobs[|jobs| - 1]] else []
  }

  /** What is said of each job that is kept for a height. */
  predicate JobOk(j: Job, height: nat, counter: nat)
  {
    j.height == height && j.id <= counter && |j.fixed| == 100 && |j.ntime| == 4
  }

  ghost predicate JobsOk(jobs: seq<Job>, height: nat, counter: nat)
  {
    DistinctIds(jobs) && forall i :: 0 <= i < |jobs| ==> JobOk(jobs[i], height, counter)
  }

  lemma NoJobs(height: nat, counter: nat)
    ensures JobsOk([], height, counter)
  {
  }

  lemma JobsAppended(others: seq<Job>, job: Job, counter: nat)
    requires JobsOk(others, job.height, counter) && JobOk(job, job.height, job.id) && counter < job.id
    ensures JobsOk(others + [job], job.height, job.id) && JobsOk((others + [job])[1..], job.height, job.id)
  {
    var all := others + [job];
    forall i | 0 <= i < |all|
      ensures JobOk(all[i], job.height, job.id) && (i < |others| ==> all[i].id < job.id)
    {
      if i < |others| {
        assert JobOk(others[i], job.height, counter);
      }
    }
  }

  /** Filtering keeps what is said of each job, and gives them the height. */
  lemma JobsFiltered(jobs: seq<Job>, was: nat, height: nat, counter: nat)
    requires JobsOk(jobs, was, counter)
    ensures JobsOk(AtHeight(jobs, height), height, counter)
  {
    var r := AtHeight(jobs, height);
    forall i | 0 <= i < |r|
      ensures JobOk(r[i], height, counter)
    {
      assert r[i] in r && r[i] in jobs;
      var k :| 0 <= k < |jobs| && jobs[k] == r[i];
      assert JobOk(jobs[k], was, counter);
    }
  }

  /** All ways to read a submission for a job. */
  function CandidatesOf(job: Job, s: Submission): (cs: Candidates)
    requires |job.ntime| == 4 && Readable(s) && |s.solution.value| < SAFE
    ensures cs.Ok() && |cs.nonces| <= 10 && |cs.times| <= 4 && |cs.bits| <= 2 && |cs.solutions| <= 2
    ensures cs.times != [] && cs.solutions != []
  {
    var fields := SolutionFields(s.solution.value);
    AllFieldsExtract(s.solution.value);
    Candidates(NonceCandidates(s.nonce.value, s.extranonce), TimeCandidates(s.nTime.value, job.ntime),
               BitsCandidates(job.nbits), AllExtracted(fields))
  }

  lemma AllFieldsExtract(solution: Bytes)
    requires |solution| < SAFE
    ensures forall f :: f in SolutionFields(solution) ==> Extract(f).Some?
  {
    forall f | f in SolutionFields(solution)
      ensures Extract(f).Some?
    {
      FieldsExtract(solution, f);
    }
  }

  class WorkManager {
    const crypto: Crypto
    const poolTarget: nat
    var jobs: seq<Job>
    var currentJob: Option<Job>
    var jobCounter: nat

    /** The jobs kept, in the order they came, have different ids and are all for the current height, and the
        current one is last. */
    ghost predicate Valid()
      reads this
    {
      && |jobs| <= 64
      && (currentJob.None? ==> jobs == [])
      && (currentJob.Some? ==>
            && jobs != [] && jobs[|jobs| - 1] == currentJob.value
            && JobsOk(jobs, currentJob.value.height, jobCounter))
    }

    constructor (crypto: Crypto, poolTarget: nat)
      ensures Valid() && jobs == []
    {
      this.crypto, this.poolTarget := crypto, poolTarget;
      jobs, currentJob, jobCounter := [], None, 0;
    }

    /** The end of generateJob: the new job becomes the current one, and jobs for other heights go, or all
        others if the work is to start afresh.  Of more than 64 jobs only the oldest goes. */
    method AddJob(template: Job, cleanJobs: bool)
      requires Valid() && |template.fixed| == 100 && |template.ntime| == 4
      modifies this
      ensures Valid() && jobCounter == old(jobCounter) + 1
      ensures currentJob == Some(template.(id := jobCounter)) && currentJob.value in jobs
      ensures var all := AtHeight(if cleanJobs then [] else old(jobs), template.height) + [currentJob.value];
        jobs == if |all| > 64 then all[1..] else all
    {
      hide AtHeight, JobsOk;
      var id := jobCounter + 1;
      var job := template.(id := id);
      var others := if cleanJobs then [] else jobs;
      ghost var height := if currentJob.Some? then currentJob.value.height else 0;
      NoJobs(height, jobCounter);
      JobsFiltered(others, height, job.height, jobCounter);
      var all := AtHeight(others, job.height) + [job];
      JobsAppended(AtHeight(others, job.height), job, jobCounter);
      if |all| > 64 {
        all := all[1..];
      }
      jobCounter, currentJob, jobs := id, Some(job), all;
    }

    /** The job with an id. */
    method FindJob(id: nat) returns (r: Option<Job>)
      ensures r.Some? ==> r.value in jobs && r.value.id == id
      ensures r.None? ==> forall j :: j in jobs ==> j.id != id
    {
      for i := 0 to |jobs|
        invariant forall k :: 0 <= k < i ==> jobs[k].id != id
      {
        if jobs[i].id == id {
          return Some(jobs[i]);
        }
      }
      return None;
    }

    /** The targets that a share has to reach one of: the previous one only if it is easier. */
    function TargetsFor(job: Job, s: Submission): Targets
      reads this
    {
      var client := if s.shareTarget.Some? then s.shareTarget.value else poolTarget;
      Targets(job.target, client,
              if s.previousTarget.Some? && s.previousTarget.value > client then s.previousTarget else None)
    }

    /** Checks a share.  The first check that fails decides the rejection; a share that passes them all is
        searched, and then it is accepted exactly when some reading of it passes the verifier and reaches one
        of the targets.  A found block reads back as the header and the solution of that reading and the
        transactions of the job.  The verifier is called 160 times at most, and a job that is kept is never
        stale. */
    method ValidateShare(s: Submission)
      returns (verdict: Verdict, ghost job: Option<Job>, ghost reading: Option<Reading>, ghost calls: nat)
      requires Valid() && (s.solution.Some? ==> |s.solution.value| < SAFE)
      ensures verdict != StaleJob && calls <= 160
      ensures verdict.JobExpired? <==> forall j :: j in jobs ==> j.id != s.jobId
      ensures !verdict.JobExpired? ==>
        job.Some? && job.value in jobs && job.value.id == s.jobId && |job.value.ntime| == 4
      ensures !verdict.JobExpired? ==> (verdict.InvalidTime? <==> !TimeReadable(s))
      ensures !verdict.JobExpired? ==> (verdict.InvalidNonce? <==> TimeReadable(s) && s.nonce.None?)
      ensures !verdict.JobExpired? ==>
        (verdict.InvalidSolutionText? <==> TimeReadable(s) && s.nonce.Some? && s.solution.None?)
      ensures !verdict.JobExpired? && Readable(s) ==>
        var cs := CandidatesOf(job.value, s);
        && (verdict.InvalidLayout? <==> cs.nonces == [] || cs.bits == [])
        && (Searched(verdict) <==> cs.nonces != [] && cs.bits != [])
        && (Searched(verdict) ==> Judged(crypto, TargetsFor(job.value, s), job.value, cs, reading, verdict))
      ensures verdict.Accepted? ==>
        var net, client := job.value.target, if s.shareTarget.Some? then s.shareTarget.value else poolTarget;
        && reading.Some? && IsProof(crypto, job.value, reading.value, verdict.hash)
        && (verdict.isBlock <==> verdict.hash <= net) && (verdict.block.Some? <==> verdict.isBlock)
        && (verdict.isBlock || verdict.hash <= client
            || (s.previousTarget.Some? && client < s.previousTarget.value && verdict.hash <= s.previousTarget.value))
      ensures verdict.Accepted? && verdict.isBlock ==>
        reading.Some? && IsBlockOf(job.value, reading.value, verdict.block.value)
    {
      hide CandidatesOf, Judged, IsBlockOf, IsProof;
      job, reading, calls := None, None, 0;
      var found := FindJob(s.jobId);
      if found.None? {
        return JobExpired, job, reading, calls;
      }
      var j := found.value;
      job := found;
      if currentJob.Some? && j.height != currentJob.value.height {
        return StaleJob, job, reading, calls;
      }
      if s.nTime.None? || |s.nTime.value| != 4 {
        return InvalidTime, job, reading, calls;
      }
      if s.nonce.None? {
        return InvalidNonce, job, reading, calls;
      }
      if s.solution.None? {
        return InvalidSolutionText, job, reading, calls;
      }
      var cs := CandidatesOf(j, s);
      if cs.nonces == [] || cs.times == [] || cs.bits == [] || cs.solutions == [] {
        return InvalidLayout, job, reading, calls;
      }
      verdict, reading, calls := Search(j, TargetsFor(j, s), cs);
      BlockBegins(crypto, TargetsFor(j, s), j, cs, reading, verdict);
      return verdict, job, reading, calls;
    }

    /** The search proper, in one header buffer that is overwritten in place. */
    method Search(j: Job, targets: Targets, cs: Candidates)
      returns (verdict: Verdict, ghost reading: Option<Reading>, ghost calls: nat)
      requires |j.fixed| == 100 && cs.Ok()
      requires |cs.nonces| <= 10 && |cs.times| <= 4 && |cs.bits| <= 2 && |cs.solutions| <= 2
      ensures calls <= 160 && Searched(verdict) && Judged(crypto, targets, j, cs, reading, verdict)
      ensures verdict.Accepted? ==> reading.Some? && IsProof(crypto, j, reading.value, verdict.hash)
      ensures verdict.Accepted? ==>
        (verdict.isBlock <==> verdict.hash <= targets.net) && (verdict.block.Some? <==> verdict.isBlock)
      ensures verdict.Accepted? && verdict.isBlock ==>
        reading.Some? && IsBlockOf(j, reading.value, verdict.block.value)
    {
      hide IsBlockOf, IsProof;
      var headerBuf := new nat[140](i => 0);
      CopyTo(headerBuf, 0, j.fixed);
      assert headerBuf[..100] == j.fixed;
      var r, verified;
      r, verified, calls := TryNonces(crypto, targets, headerBuf, cs, j.fixed);
      reading := r;
      CallsBound(|cs.nonces|, |cs.times|, |cs.bits|, |cs.solutions|);
      if r.None? {
        return if verified then LowDiff else InvalidSolution, reading, calls;
      }
      var header := headerBuf[..];
      var hash := crypto.hash(header + r.value.solution.field);
      var isBlock := hash <= targets.net;
      var block := if isBlock then Some(Assemble(j, header, r.value.solution.field)) else None;
      verdict := Accepted(isBlock, hash, block, j.height);
      BlockBegins(crypto, targets, j, cs, reading, verdict);
    }
  }

  predicate Searched(v: Verdict)
  {
    v.Accepted? || v.InvalidSolution? || v.LowDiff?
  }

  predicate TimeReadable(s: Submission)
  {
    s.nTime.Some? && |s.nTime.value| == 4
  }

  /** The fields of a submission are hex of the right length. */
  predicate Readable(s: Submission)
  {
    TimeReadable(s) && s.nonce.Some? && s.solution.Some?
  }

  /** What the verdict of a completed search says about the candidates. */
  ghost predicate Judged(c: Crypto, t: Targets, job: Job, cs: Candidates, reading: Option<Reading>, verdict: Verdict)
  {
    && (verdict.Accepted? <==> exists r :: cs.Has(r) && Good(c, t, job.fixed, r))
    && (verdict.LowDiff? ==> exists r :: cs.Has(r) && Verified(c, job.fixed, r))
    && (verdict.InvalidSolution? ==> forall r :: cs.Has(r) ==> !Verified(c, job.fixed, r))
    && (verdict.Accepted? ==>
          && reading.Some? && cs.Has(reading.value) && Good(c, t, job.fixed, reading.value)
          && verdict.hash == HashOf(c, job.fixed, reading.value) && verdict.height == job.height
          && verdict.isBlock == (verdict.hash <= t.net)
          && verdict.block ==
             if verdict.isBlock then Some(Assemble(job, Header(job.fixed, reading.value), reading.value.solution.field))
             else None)
  }

  lemma CallsBound(n: nat, t: nat, b: nat, s: nat)
    requires n <= 10 && t <= 4 && b <= 2 && s <= 2
    ensures n * (t * (b * s)) <= 160
  {
    MulMonotone(b, 2, s);
    MulMonotone(t, 4, b * s);
    MulMonotone(n, 10, t * (b * s));
  }

  /** An accepted share reaches one of the targets, and a found block begins with the header and the solution that
      were verified, and reads back as these and the transactions of the job. */
  lemma BlockBegins(c: Crypto, t: Targets, job: Job, cs: Candidates, reading: Option<Reading>, verdict: Verdict)
    requires Judged(c, t, job, cs, reading, verdict) && cs.Ok() && |job.fixed| == 100
    ensures verdict.Accepted? ==>
      && reading.Some? && IsProof(c, job, reading.value, verdict.hash)
      && t.Met(verdict.hash) && (verdict.isBlock <==> verdict.hash <= t.net)
      && (verdict.block.Some? <==> verdict.isBlock)
    ensures verdict.Accepted? && verdict.isBlock ==>
      && reading.Some? && verdict.block.Some?
      && Header(job.fixed, reading.value) + reading.value.solution.field <= verdict.block.value
      && IsBlockOf(job, reading.value, verdict.block.value)
  {
    hide IsBlockOf;
    if verdict.Accepted? && verdict.isBlock {
      AssembledReads(job, reading.value);
    }
  }
}
