/** Generation of the death report in memory, and what its stored checksum is worth afterwards.
  *
  * Memory is one byte array indexed by address, so the report area and the stack it copies from
  * may be any two parts of it. `reserved` is DEATH_REPORT_RESERVED_BYTES.
  */
module DeathReport {
  import opened Gf2
  import opened BitString
  import opened Crc
  import opened CrcDetection
  import opened CrcOrder

  const CHECKSUM_SIZE := 2
  const WAS_SEEN_OFFSET := 2
  const PADDING_OFFSET := 3
  const STACK_POINTER_OFFSET := 112
  const STACK_LENGTH_OFFSET := 116
  const STACK_TRACE_OFFSET := 120
  const MAX_STACK_BYTES := 512
  const ADDRESS_SPACE := 0x1_0000_0000

  /** sizeof the packed report, rounded up to its four-byte alignment. */
  function ReportSize(reserved: nat): (n: nat)
    ensures n % 4 == 0 && STACK_TRACE_OFFSET + MAX_STACK_BYTES + reserved <= n
    ensures n < STACK_TRACE_OFFSET + MAX_STACK_BYTES + reserved + 4
  {
    (STACK_TRACE_OFFSET + MAX_STACK_BYTES + reserved + 3) / 4 * 4
  }

  /** The little-endian 32-bit word at an address. */
  function WordAt(memory: seq<Byte>, at: nat): (w: nat)
    requires at + 4 <= |memory|
    ensures w < ADDRESS_SPACE
  {
    var b1: nat, b2: nat, b3: nat := memory[at + 1], memory[at + 2], memory[at + 3];
    memory[at] + 0x100 * b1 + 0x1_0000 * b2 + 0x100_0000 * b3
  }

  /** The little-endian checksum field of a report. */
  function StoredChecksum(report: seq<Byte>): Word
    requires |report| >= CHECKSUM_SIZE
  {
    var high: nat := report[1];
    report[0] + 0x100 * high
  }

  /** The field holds a checksum low byte first. */
  lemma StoredLowByteFirst(report: seq<Byte>, crc: Word)
    requires |report| >= CHECKSUM_SIZE
    ensures StoredChecksum(report) == crc <==> report[0] == crc % 0x100 && report[1] == crc / 0x100
  {
  }

  /** The boot software's test of a report image. */
  predicate Verifies(report: seq<Byte>)
    requires |report| >= CHECKSUM_SIZE
  {
    Accepted(report[CHECKSUM_SIZE..], StoredChecksum(report))
  }

  /** The number of stack bytes saved for a given stack end and stack pointer. */
  function SavedLength(stackEnd: nat, pointer: nat): nat {
    var available := (stackEnd - pointer) % ADDRESS_SPACE;
    if available < MAX_STACK_BYTES then available else MAX_STACK_BYTES
  }

  /** A saved length in terms of addresses: at most 512 bytes, never past the stack's end, and up to it unless
    * 512 or more bytes lie between. */
  predicate LengthFits(length: nat, stackEnd: nat, pointer: nat) {
    && length <= 512
    && (pointer <= stackEnd < 0x1_0000_0000 ==> pointer + length <= stackEnd)
    && (length < 512 ==> (pointer + length) % 0x1_0000_0000 == stackEnd % 0x1_0000_0000)
    && (length == 512 ==> (stackEnd - pointer) % 0x1_0000_0000 >= 512)
  }

  lemma SavedLengthFits(stackEnd: nat, pointer: nat)
    requires pointer < ADDRESS_SPACE
    ensures LengthFits(SavedLength(stackEnd, pointer), stackEnd, pointer)
  {
    var available := (stackEnd - pointer) % ADDRESS_SPACE;
    UpToEnd(stackEnd, pointer);
    if pointer <= stackEnd < ADDRESS_SPACE { assert available == stackEnd - pointer; }
  }

  /** There is only one such length. */
  lemma LengthDetermined(length: nat, stackEnd: nat, pointer: nat)
    requires pointer < ADDRESS_SPACE && LengthFits(length, stackEnd, pointer)
    ensures length == SavedLength(stackEnd, pointer)
  {
    var available := (stackEnd - pointer) % ADDRESS_SPACE;
    UpToEnd(stackEnd, pointer);
    if length < MAX_STACK_BYTES { SameDistance(pointer, length, available); }
  }

  lemma SameDistance(p: nat, a: nat, b: nat)
    requires a < ADDRESS_SPACE && b < ADDRESS_SPACE && (p + a) % ADDRESS_SPACE == (p + b) % ADDRESS_SPACE
    ensures a == b
  {
  }

  lemma UpToEnd(stackEnd: nat, pointer: nat)
    ensures (pointer + (stackEnd - pointer) % ADDRESS_SPACE) % ADDRESS_SPACE == stackEnd % ADDRESS_SPACE
  {
  }

  predicate Disjoint(a: nat, m: nat, b: nat, n: nat) {
    a + m <= b || b + n <= a
  }

  /** Memory after the first i of the bytes from pointer on were copied, forwards, into the report at base. */
  ghost predicate Copied(before: seq<Byte>, after: seq<Byte>, base: nat, size: nat, pointer: nat, length: nat, i: nat)
    requires base + STACK_TRACE_OFFSET + i <= |before| == |after| && i <= length
  {
    var trace := base + STACK_TRACE_OFFSET;
    && WordAt(after, base + STACK_LENGTH_OFFSET) == length
    && (pointer + length <= |before| && Disjoint(pointer, length, base, size) ==>
          after[trace..trace + i] == before[pointer..pointer + i])
    && after[..base + STACK_LENGTH_OFFSET] == before[..base + STACK_LENGTH_OFFSET]
    && after[trace + i..] == before[trace + i..]
  }

  /** What saving the stack leaves: the length, the copied bytes, and everything else as it was. */
  ghost predicate StackSaved(before: seq<Byte>, after: seq<Byte>, base: nat, reserved: nat, stackEnd: nat)
    requires base + ReportSize(reserved) <= |before| == |after|
  {
    var pointer := WordAt(before, base + STACK_POINTER_OFFSET);
    var length := SavedLength(stackEnd, pointer);
    Copied(before, after, base, ReportSize(reserved), pointer, length, length)
  }

  /** A finished report: the stored length, the trace, and every byte that is not header, length or trace as it was. */
  ghost predicate ReportSaved(before: seq<Byte>, after: seq<Byte>, base: nat, reserved: nat, stackEnd: nat)
    requires base + ReportSize(reserved) <= |before| == |after|
  {
    var pointer, length := WordAt(before, base + 112), WordAt(after, base + 116);
    && LengthFits(length, stackEnd, pointer) && pointer + length <= |before|
    && (pointer + length <= base || base + ReportSize(reserved) <= pointer ==>
          after[base + 120..base + 120 + length] == before[pointer..pointer + length])
    && after[..base] == before[..base]
    && after[base + 4..base + 116] == before[base + 4..base + 116]
    && after[base + 120 + length..] == before[base + 120 + length..]
  }

  /** A word in memory is little-endian: byte k holds bits 8k to 8k + 7. */
  lemma LittleEndian(memory: seq<Byte>, at: nat, w: nat)
    requires at + 4 <= |memory| && w < ADDRESS_SPACE
    ensures WordAt(memory, at) == w <==>
            && memory[at] == w % 0x100 && memory[at + 1] == w / 0x100 % 0x100
            && memory[at + 2] == w / 0x1_0000 % 0x100 && memory[at + 3] == w / 0x100_0000 % 0x100
  {
    WordBytes(w);
    if WordAt(memory, at) == w { BytesUnique(memory[at], memory[at + 1], memory[at + 2], memory[at + 3], w); }
  }

  lemma BytesUnique(b0: Byte, b1: Byte, b2: Byte, b3: Byte, w: nat)
    requires w == (b0 as int) + 0x100 * (b1 as int) + 0x1_0000 * (b2 as int) + 0x100_0000 * (b3 as int)
    ensures b0 == w % 0x100 && b1 == w / 0x100 % 0x100 && b2 == w / 0x1_0000 % 0x100 && b3 == w / 0x100_0000 % 0x100
  {
    var u: nat := (b2 as int) + 0x100 * (b3 as int);
    var v: nat := (b1 as int) + 0x100 * u;
    LowestByte(b0, v, w);
    LowestByte(b1, u, v);
    LowestByte(b2, b3, u);
    assert w / 0x1_0000 == w / 0x100 / 0x100 && w / 0x100_0000 == w / 0x100 / 0x100 / 0x100;
  }

  lemma LowestByte(b: Byte, rest: nat, w: nat)
    requires w == b + 0x100 * rest
    ensures w % 0x100 == b && w / 0x100 == rest
  {
  }

  lemma WordBytes(value: nat)
    requires value < ADDRESS_SPACE
    ensures value / 0x100_0000 < 0x100
    ensures value % 0x100 + 0x100 * (value / 0x100 % 0x100) + 0x1_0000 * (value / 0x1_0000 % 0x100) +
            0x100_0000 * (value / 0x100_0000) == value
  {
    var a := value / 0x100;
    var b := a / 0x100;
    assert value / 0x1_0000 == b && value / 0x100_0000 == b / 0x100;
  }

  method WriteWord(memory: array<Byte>, at: nat, value: nat)
    requires at + 4 <= memory.Length && value < ADDRESS_SPACE
    modifies memory
    ensures WordAt(memory[..], at) == value
    ensures memory[..at] == old(memory[..at]) && memory[at + 4..] == old(memory[at + 4..])
  {
    WordBytes(value);
    memory[at] := value % 0x100;
    memory[at + 1] := value / 0x100 % 0x100;
    memory[at + 2] := value / 0x1_0000 % 0x100;
    memory[at + 3] := value / 0x100_0000;
  }

  /** Stores how many bytes are to be saved. */
  method SaveLength(memory: array<Byte>, base: nat, ghost size: nat, stackEnd: nat, pointer: nat)
    requires base + STACK_TRACE_OFFSET <= memory.Length
    modifies memory
    ensures Copied(old(memory[..]), memory[..], base, size, pointer, SavedLength(stackEnd, pointer), 0)
  {
    ghost var before := memory[..];
    var available := (stackEnd - pointer) % ADDRESS_SPACE;
    if available < MAX_STACK_BYTES {
      WriteWord(memory, base + STACK_LENGTH_OFFSET, available);
    } else {
      WriteWord(memory, base + STACK_LENGTH_OFFSET, MAX_STACK_BYTES);
    }
    LengthWritten(before, memory[..], base, size, pointer, SavedLength(stackEnd, pointer));
  }

  method SaveStack(memory: array<Byte>, base: nat, ghost reserved: nat, stackEnd: nat)
    requires base + ReportSize(reserved) <= memory.Length
    requires var pointer := WordAt(memory[..], base + STACK_POINTER_OFFSET);
             pointer + SavedLength(stackEnd, pointer) <= memory.Length
    modifies memory
    ensures StackSaved(old(memory[..]), memory[..], base, reserved, stackEnd)
    ensures LengthFits(WordAt(memory[..], base + STACK_LENGTH_OFFSET), stackEnd,
                       WordAt(old(memory[..]), base + STACK_POINTER_OFFSET))
  {
    ghost var before := memory[..];
    var pointer := WordAt(memory[..], base + STACK_POINTER_OFFSET);
    ghost var length, size := SavedLength(stackEnd, pointer), ReportSize(reserved);
    SaveLength(memory, base, size, stackEnd, pointer);
    var i := 0;
    while i < WordAt(memory[..], base + STACK_LENGTH_OFFSET)
      invariant 0 <= i <= length && Copied(before, memory[..], base, size, pointer, length, i)
      decreases length - i
    {
      ghost var now := memory[..];
      memory[base + STACK_TRACE_OFFSET + i] := memory[pointer + i];
      CopyStep(before, now, memory[..], base, size, pointer, length, i);
      i := i + 1;
    }
    AllCopied(before, memory[..], base, reserved, stackEnd, pointer, length);
  }

  lemma AllCopied(before: seq<Byte>, after: seq<Byte>, base: nat, reserved: nat, stackEnd: nat, pointer: nat, length: nat)
    requires base + ReportSize(reserved) <= |before| == |after|
    requires pointer == WordAt(before, base + STACK_POINTER_OFFSET) && length == SavedLength(stackEnd, pointer)
    requires Copied(before, after, base, ReportSize(reserved), pointer, length, length)
    ensures StackSaved(before, after, base, reserved, stackEnd)
    ensures LengthFits(WordAt(after, base + STACK_LENGTH_OFFSET), stackEnd, WordAt(before, base + STACK_POINTER_OFFSET))
  {
    SavedLengthFits(stackEnd, pointer);
  }

  lemma LengthWritten(before: seq<Byte>, after: seq<Byte>, base: nat, size: nat, pointer: nat, length: nat)
    requires base + STACK_TRACE_OFFSET <= |before| == |after|
    requires WordAt(after, base + STACK_LENGTH_OFFSET) == length
    requires after[..base + STACK_LENGTH_OFFSET] == before[..base + STACK_LENGTH_OFFSET]
    requires after[base + STACK_LENGTH_OFFSET + 4..] == before[base + STACK_LENGTH_OFFSET + 4..]
    ensures Copied(before, after, base, size, pointer, length, 0)
  {
  }

  /** A byte outside the rewritten part of memory is read as it was. */
  lemma KeptByte(before: seq<Byte>, after: seq<Byte>, lo: nat, hi: nat, k: nat)
    requires lo <= hi <= |before| == |after| && k < |before| && (k < lo || hi <= k)
    requires after[..lo] == before[..lo] && after[hi..] == before[hi..]
    ensures after[k] == before[k]
  {
  }

  lemma CopyStep(before: seq<Byte>, now: seq<Byte>, next: seq<Byte>,
                 base: nat, size: nat, pointer: nat, length: nat, i: nat)
    requires base + STACK_TRACE_OFFSET + length <= base + size <= |before| == |now| && i < length
    requires pointer + length <= |before|
    requires Copied(before, now, base, size, pointer, length, i)
    requires next == now[base + STACK_TRACE_OFFSET + i := now[pointer + i]]
    ensures Copied(before, next, base, size, pointer, length, i + 1)
  {
    var trace, field := base + STACK_TRACE_OFFSET, base + STACK_LENGTH_OFFSET;
    assert next[..field] == now[..field];
    assert next[trace + i + 1..] == now[trace + i..][1..] == before[trace + i..][1..];
    if Disjoint(pointer, length, base, size) {
      KeptByte(before, now, field, trace + i, pointer + i);
      assert next[trace..trace + i + 1] == now[trace..trace + i] + [before[pointer + i]];
      assert before[pointer..pointer + i + 1] == before[pointer..pointer + i] + [before[pointer + i]];
    }
  }

  method CalculateReportCrc(memory: array<Byte>, report: nat, totalSize: nat) returns (crc: Word)
    requires totalSize >= CHECKSUM_SIZE && report + totalSize <= memory.Length
    ensures crc == Checksum(memory[report + CHECKSUM_SIZE..report + totalSize])
  {
    crc := CalculateCrc(memory, report + CHECKSUM_SIZE, totalSize - CHECKSUM_SIZE);
  }

  /** Clears the padding and the was_seen flag, and stores the checksum. */
  method StampReport(memory: array<Byte>, base: nat, size: nat)
    requires STACK_POINTER_OFFSET <= size && base + size <= memory.Length
    modifies memory
    ensures Verifies(memory[base..base + size])
    ensures memory[base + WAS_SEEN_OFFSET] == 0 && memory[base + PADDING_OFFSET] == 0
    ensures memory[..base] == old(memory[..base]) && memory[base + 4..] == old(memory[base + 4..])
  {
    memory[base + PADDING_OFFSET] := 0;
    memory[base + WAS_SEEN_OFFSET] := 0;
    var crc := CalculateReportCrc(memory, base, size);
    ghost var covered := memory[base + CHECKSUM_SIZE..base + size];
    memory[base] := crc % 0x100;
    memory[base + 1] := crc / 0x100;
    ghost var report := memory[base..base + size];
    Stamped(report, covered, crc);
  }

  method GenerateDeathReport(memory: array<Byte>, base: nat, reserved: nat, stackEnd: nat) returns (ok: bool)
    requires base + ReportSize(reserved) <= memory.Length
    requires var pointer := WordAt(memory[..], base + STACK_POINTER_OFFSET);
             pointer + SavedLength(stackEnd, pointer) <= memory.Length
    modifies memory
    ensures ok && Verifies(memory[base..base + ReportSize(reserved)])
    ensures memory[base + WAS_SEEN_OFFSET] == 0 && memory[base + PADDING_OFFSET] == 0
    ensures ReportSaved(old(memory[..]), memory[..], base, reserved, stackEnd)
  {
    ghost var before := memory[..];
    SaveStack(memory, base, reserved, stackEnd);
    ghost var saved := memory[..];
    StampReport(memory, base, ReportSize(reserved));
    ok := true;
    Finished(before, saved, memory[..], base, reserved, stackEnd);
  }

  /** What is left of a saved stack once the first four bytes of the report are rewritten. */
  lemma Finished(before: seq<Byte>, saved: seq<Byte>, after: seq<Byte>, base: nat, reserved: nat, stackEnd: nat)
    requires base + ReportSize(reserved) <= |before| == |saved| == |after|
    requires StackSaved(before, saved, base, reserved, stackEnd)
    requires var pointer := WordAt(before, base + STACK_POINTER_OFFSET);
             pointer + SavedLength(stackEnd, pointer) <= |before|
    requires after[..base] == saved[..base] && after[base + 4..] == saved[base + 4..]
    ensures ReportSaved(before, after, base, reserved, stackEnd)
  {
    var pointer := WordAt(before, base + STACK_POINTER_OFFSET);
    var length := SavedLength(stackEnd, pointer);
    SavedLengthFits(stackEnd, pointer);
    SameWord(saved, after, base, base + STACK_LENGTH_OFFSET);
    TraceKept(before, saved, after, base, ReportSize(reserved), pointer, length);
    RestKept(before, saved, after, base);
  }

  lemma TraceKept(before: seq<Byte>, saved: seq<Byte>, after: seq<Byte>, base: nat, size: nat, pointer: nat, length: nat)
    requires base + 120 + length <= |before| == |saved| == |after| && pointer + length <= |before|
    requires Copied(before, saved, base, size, pointer, length, length) && after[base + 4..] == saved[base + 4..]
    ensures Disjoint(pointer, length, base, size) ==> after[base + 120..base + 120 + length] == before[pointer..pointer + length]
    ensures after[base + 120 + length..] == before[base + 120 + length..]
  {
    Tail(saved, after, base + 4, base + 120, base + 120 + length);
    Tail(saved, after, base + 4, base + 120 + length, |after|);
  }

  lemma RestKept(before: seq<Byte>, saved: seq<Byte>, after: seq<Byte>, base: nat)
    requires base + 116 <= |before| == |saved| == |after| && saved[..base + 116] == before[..base + 116]
    requires after[..base] == saved[..base] && after[base + 4..] == saved[base + 4..]
    ensures after[..base] == before[..base] && after[base + 4..base + 116] == before[base + 4..base + 116]
  {
    Tail(saved, after, base + 4, base + 4, base + 116);
    Front(before, saved, base + 116, 0, base);
    Front(before, saved, base + 116, base + 4, base + 116);
  }

  lemma SameWord(a: seq<Byte>, b: seq<Byte>, base: nat, at: nat)
    requires base + 4 <= at && at + 4 <= |a| == |b| && a[base + 4..] == b[base + 4..]
    ensures WordAt(a, at) == WordAt(b, at)
  {
    assert forall k :: at <= k < at + 4 ==> a[k] == a[base + 4..][k - base - 4] && b[k] == b[base + 4..][k - base - 4];
  }

  lemma Tail(a: seq<Byte>, b: seq<Byte>, k: nat, lo: nat, hi: nat)
    requires k <= lo <= hi <= |a| == |b| && a[k..] == b[k..]
    ensures a[lo..hi] == b[lo..hi]
  {
    forall i | lo <= i < hi ensures a[i] == b[i] {
      assert a[i] == a[k..][i - k] && b[i] == b[k..][i - k];
    }
  }

  lemma Front(a: seq<Byte>, b: seq<Byte>, k: nat, lo: nat, hi: nat)
    requires lo <= hi <= k <= |a| == |b| && a[..k] == b[..k]
    ensures a[lo..hi] == b[lo..hi]
  {
    assert a[lo..hi] == a[..k][lo..hi] && b[lo..hi] == b[..k][lo..hi];
  }

  lemma Stamped(report: seq<Byte>, covered: seq<Byte>, crc: Word)
    requires CHECKSUM_SIZE <= |report| && report[CHECKSUM_SIZE..] == covered && crc == Checksum(covered)
    requires report[0] == crc % 0x100 && report[1] == crc / 0x100
    ensures Verifies(report)
  {
  }

  // ----- What a verified report is worth -----

  /** The bits at which two report images differ, counted over the whole image. */
  function FlippedBits(report: seq<Byte>, report': seq<Byte>): Bits
    requires |report| == |report'|
  {
    Xor(MessageBits(report), MessageBits(report'))
  }

  /** Damage to the covered bytes within 16 consecutive bits makes the report fail its check. */
  lemma DamagedBurstFails(report: seq<Byte>, report': seq<Byte>, s: nat)
    requires CHECKSUM_SIZE <= |report| == |report'| && report' != report
    requires Verifies(report) && report'[..CHECKSUM_SIZE] == report[..CHECKSUM_SIZE]
    requires var covered, covered' := report[CHECKSUM_SIZE..], report'[CHECKSUM_SIZE..];
             forall i :: 0 <= i < 8 * |covered| && !(s <= i < s + 16) ==>
               MessageBits(covered)[i] == MessageBits(covered')[i]
    ensures !Verifies(report')
  {
    assert report == report[..CHECKSUM_SIZE] + report[CHECKSUM_SIZE..];
    assert report' == report'[..CHECKSUM_SIZE] + report'[CHECKSUM_SIZE..];
    assert report[0] == report[..CHECKSUM_SIZE][0] && report[1] == report[..CHECKSUM_SIZE][1];
    assert report'[0] == report'[..CHECKSUM_SIZE][0] && report'[1] == report'[..CHECKSUM_SIZE][1];
    PayloadBurst(report[CHECKSUM_SIZE..], report'[CHECKSUM_SIZE..], s);
  }

  lemma {:induction false} MessageBitsConcat(a: seq<Byte>, b: seq<Byte>)
    ensures MessageBits(a + b) == MessageBits(a) + MessageBits(b)
  {
    if b == [] {
      assert a + b == a;
    } else {
      var front := b[..|b| - 1];
      assert (a + b)[..|a + b| - 1] == a + front;
      MessageBitsConcat(a, front);
    }
  }

  lemma {:induction false} BitsOfSum(high: nat, low: nat, m: nat, k: nat, sum: nat)
    requires low < Pow2(k) && sum == Shift(high, k) + low
    ensures BitsOf(sum, m + k) == BitsOf(high, m) + BitsOf(low, k)
    decreases k
  {
    if k != 0 {
      BitsOfSum(high, low / 2, m, k - 1, sum / 2);
    }
  }

  /** The check word in codeword order is the stored field with its two bytes exchanged. */
  lemma CheckBits(report: seq<Byte>)
    requires CHECKSUM_SIZE <= |report|
    ensures BitsOf(StoredChecksum(report), 16) == BitsOf(report[1], 8) + BitsOf(report[0], 8)
  {
    PowersNearGenerator();
    ShiftByte(report[1]);
    BitsOfSum(report[1], report[0], 8, 8, StoredChecksum(report));
  }

  lemma ByteMessage(b: Byte)
    ensures MessageBits([b]) == BitsOf(b, 8)
  {
  }

  /** Flipped bits of an image, counted in codeword order instead. */
  lemma FlippedIsError(report: seq<Byte>, report': seq<Byte>)
    requires CHECKSUM_SIZE <= |report| == |report'|
    ensures Weight(FlippedBits(report, report')) ==
            Weight(ErrorBits(report[CHECKSUM_SIZE..], StoredChecksum(report),
                             report'[CHECKSUM_SIZE..], StoredChecksum(report')))
  {
    SplitImage(report);
    SplitImage(report');
    CheckBits(report);
    CheckBits(report');
    Reordered(BitsOf(report[0], 8), BitsOf(report[1], 8), MessageBits(report[CHECKSUM_SIZE..]),
              BitsOf(report'[0], 8), BitsOf(report'[1], 8), MessageBits(report'[CHECKSUM_SIZE..]));
  }

  lemma Reordered(l: Bits, h: Bits, p: Bits, l': Bits, h': Bits, p': Bits)
    requires |l| == |l'| && |h| == |h'| && |p| == |p'|
    ensures Weight(Xor(l + h + p, l' + h' + p')) == Weight(Xor(p + (h + l), p' + (h' + l')))
  {
    XorWeight(l + h, p, l' + h', p');
    XorWeight(l, h, l', h');
    XorWeight(p, h + l, p', h' + l');
    XorWeight(h, l, h', l');
  }

  lemma SplitImage(report: seq<Byte>)
    requires CHECKSUM_SIZE <= |report|
    ensures MessageBits(report) == BitsOf(report[0], 8) + BitsOf(report[1], 8) + MessageBits(report[CHECKSUM_SIZE..])
  {
    assert report == [report[0]] + [report[1]] + report[CHECKSUM_SIZE..];
    MessageBitsConcat([report[0]] + [report[1]], report[CHECKSUM_SIZE..]);
    MessageBitsConcat([report[0]], [report[1]]);
    ByteMessage(report[0]);
    ByteMessage(report[1]);
  }

  lemma XorWeight(s: Bits, t: Bits, u: Bits, v: Bits)
    requires |s| == |u| && |t| == |v|
    ensures Weight(Xor(s + t, u + v)) == Weight(Xor(s, u)) + Weight(Xor(t, v))
  {
    XorConcat(s, t, u, v);
    WeightConcat(Xor(s, u), Xor(t, v));
  }

  /** An odd number of flipped bits anywhere in the image, checksum field included, makes it fail. */
  lemma OddDamageFails(report: seq<Byte>, report': seq<Byte>)
    requires CHECKSUM_SIZE <= |report| == |report'| && Verifies(report)
    requires Weight(FlippedBits(report, report')) % 2 == 1
    ensures !Verifies(report')
  {
    FlippedIsError(report, report');
    OddDetected(report[CHECKSUM_SIZE..], report'[CHECKSUM_SIZE..], StoredChecksum(report'));
  }

  /** One to three flipped bits anywhere in an image of up to 32767 bits make it fail. */
  lemma SmallDamageFails(report: seq<Byte>, report': seq<Byte>)
    requires CHECKSUM_SIZE <= |report| == |report'| && 8 * |report| <= ORDER && Verifies(report)
    requires 1 <= Weight(FlippedBits(report, report')) <= 3
    ensures !Verifies(report')
  {
    FlippedIsError(report, report');
    FewBitsDetected(report[CHECKSUM_SIZE..], report'[CHECKSUM_SIZE..], StoredChecksum(report'));
  }
}
