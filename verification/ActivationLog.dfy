/** The activation log: a cyclic buffer that must agree with an unbounded history. */
module ActivationLog {
  import opened MachineIntegers

  datatype EntryType = Activation | Deactivation

  datatype Entry = Entry(interface: nat, entryType: EntryType, timestamp: Uint64)

  function Min(a: nat, b: nat): nat { if a < b then a else b }

  /** Buffer position i mod N holds entry i of the history, for each of the last min(c, N) entries. */
  ghost predicate Agrees(buffer: seq<Entry>, history: seq<Entry>) {
    forall i :: |history| - Min(|history|, |buffer|) <= i < |history| ==> SlotHolds(buffer, history, i)
  }

  ghost predicate SlotHolds(buffer: seq<Entry>, history: seq<Entry>, i: int) {
    |buffer| > 0 && 0 <= i < |history| && buffer[i % |buffer|] == history[i]
  }

  /** What the log query reports for a count of c entries in a buffer of n: newest index and size. */
  function Reported(c: nat, n: nat): (nat, nat)
    requires c > 0 ==> n > 0
  {
    if c == 0 then (0, 0) else ((c % n - 1) % TWO_64 % TWO_32, Min(c, n) % TWO_32)
  }

  class Log {
    const buffer: array<Entry>
    var counter: Uint64
    var isFrozen: bool
    /** The entries accepted since the last clear. */
    ghost var history: seq<Entry>

    ghost predicate Valid()
      reads this, buffer
    {
      && buffer.Length < TWO_32
      && (buffer.Length == 0 ==> isFrozen && history == [])
      && counter == |history| % TWO_64
      && (|history| < TWO_64 ==> Agrees(buffer[..], history))
    }

    constructor (size: nat)
      requires size < TWO_32
      ensures Valid() && isFrozen && history == [] && buffer.Length == size && fresh(buffer)
    {
      buffer := new Entry[size](_ => Entry(0, Activation, 0));
      counter, isFrozen, history := 0, true, [];
    }

    /** `now` is the reading of the elapsed-time clock. */
    method Indicate(interface: nat, entryType: EntryType, now: Uint64) returns (logged: bool)
      requires Valid()
      modifies this`counter, this`history, buffer
      ensures Valid() && logged == !isFrozen
      ensures history == if isFrozen then old(history) else old(history) + [Entry(interface, entryType, now)]
      ensures isFrozen ==> counter == old(counter) && buffer[..] == old(buffer[..])
    {
      if isFrozen { return false; }
      ghost var before := buffer[..];
      ghost var entry := Entry(interface, entryType, now);
      var slot := counter % buffer.Length;
      buffer[slot] := buffer[slot].(interface := interface);
      buffer[slot] := buffer[slot].(entryType := entryType);
      buffer[slot] := buffer[slot].(timestamp := now);
      assert buffer[..] == before[slot := entry];
      if |history| + 1 < TWO_64 {
        NotWrapped(|history|);
        AppendAgrees(before, history, entry);
      }
      NextCount(|history|);
      counter := (counter + 1) % TWO_64;
      history := history + [entry];
      return true;
    }

    method GetEntryLog() returns (latestIndex: nat, size: nat)
      requires Valid()
      ensures |history| < TWO_64 ==> size == Min(|history|, buffer.Length)
      ensures 0 < |history| < TWO_64 ==>
                if |history| % buffer.Length == 0 then latestIndex == 0xFFFF_FFFF
                else latestIndex < buffer.Length && buffer[latestIndex] == history[|history| - 1]
      ensures (latestIndex, size) == Reported(counter, buffer.Length)
    {
      if |history| < TWO_64 { ReportMeans(buffer[..], history); }
      if counter == 0 {
        latestIndex, size := 0, 0;
      } else {
        latestIndex := (counter % buffer.Length - 1) % TWO_64 % TWO_32;
        if counter > buffer.Length {
          size := buffer.Length % TWO_32;
        } else {
          size := counter % TWO_32;
        }
      }
    }

    method Freeze() returns (ok: bool)
      requires Valid()
      modifies this`isFrozen
      ensures Valid() && ok == (buffer.Length > 0) && isFrozen
    {
      if buffer.Length <= 0 { return false; }
      isFrozen := true;
      return true;
    }

    method Unfreeze() returns (ok: bool)
      requires Valid()
      modifies this`isFrozen
      ensures Valid() && ok == (buffer.Length > 0) && isFrozen == (buffer.Length == 0)
    {
      if buffer.Length <= 0 { return false; }
      isFrozen := false;
      return true;
    }

    method Clear() returns (ok: bool)
      requires Valid()
      modifies this`counter, this`history
      ensures Valid() && ok == (buffer.Length > 0) && history == []
    {
      if buffer.Length <= 0 { return false; }
      counter := 0;
      history := [];
      return true;
    }
  }

  lemma NotWrapped(c: nat)
    requires c < TWO_64
    ensures c % TWO_64 == c
  {
  }

  lemma NextCount(c: nat)
    ensures (c % TWO_64 + 1) % TWO_64 == (c + 1) % TWO_64
  {
    WrapSum(c, 1);
  }

  /** Writing the next entry at its slot keeps the agreement. */
  lemma AppendAgrees(buffer: seq<Entry>, history: seq<Entry>, entry: Entry)
    requires |buffer| > 0 && Agrees(buffer, history)
    ensures Agrees(buffer[|history| % |buffer| := entry], history + [entry])
  {
    var n, c := |buffer|, |history|;
    var buffer', history' := buffer[c % n := entry], history + [entry];
    forall i | c + 1 - Min(c + 1, n) <= i < c + 1 ensures SlotHolds(buffer', history', i) {
      if i < c {
        SlotsDiffer(i, c, n);
        assert SlotHolds(buffer, history, i);
      }
    }
  }

  /** Positions less than n apart fall on different slots. */
  lemma SlotsDiffer(i: nat, c: nat, n: nat)
    requires n > 0 && i < c < i + n
    ensures i % n != c % n
  {
    Multiples(n, c / n, i / n);
    Multiples(n, i / n, c / n);
  }

  /** The reported size is min(c, N). */
  lemma SizeReported(c: nat, n: nat)
    requires (c > 0 ==> n > 0) && n < TWO_32
    ensures Reported(c, n).1 == Min(c, n)
  {
  }

  lemma IndexReported(c: nat, n: nat)
    requires 0 < c < TWO_64 && 0 < n < TWO_32
    ensures Reported(c, n).0 == if c % n == 0 then 0xFFFF_FFFF else c % n - 1
  {
    IndexWraps(c % n);
  }

  lemma IndexWraps(slot: nat)
    requires slot < TWO_32
    ensures (slot - 1) % TWO_64 % TWO_32 == if slot == 0 then 0xFFFF_FFFF else slot - 1
  {
  }

  /** The reported index names the newest entry exactly when c is not a multiple of N; for a positive multiple it is
    * 0 - 1 in 32 bits, outside the buffer. */
  lemma IndexReportedIff(buffer: seq<Entry>, history: seq<Entry>)
    requires 0 < |history| < TWO_64 && 0 < |buffer| < TWO_32 && Agrees(buffer, history)
    ensures var index := Reported(|history|, |buffer|).0;
            && (|history| % |buffer| != 0 <==> index == (|history| - 1) % |buffer|)
            && (|history| % |buffer| != 0 ==> index < |buffer| && buffer[index] == history[|history| - 1])
            && (|history| % |buffer| == 0 ==> index == 0xFFFF_FFFF && index >= |buffer|)
  {
    var c, n := |history|, |buffer|;
    IndexReported(c, n);
    PreviousSlot(c, n);
    assert SlotHolds(buffer, history, c - 1);
  }

  lemma PreviousSlot(c: nat, n: nat)
    requires c > 0 && n > 0
    ensures (c - 1) % n == if c % n == 0 then n - 1 else c % n - 1
  {
    var q, r := c / n, c % n;
    assert c == n * q + r;
    if r == 0 {
      assert c - 1 == n * (q - 1) + (n - 1);
      ModUnique(c - 1, n, q - 1, n - 1);
    } else {
      ModUnique(c - 1, n, q, r - 1);
    }
  }

  lemma ModUnique(x: nat, n: nat, q: nat, r: nat)
    requires n > 0 && r < n && x == n * q + r
    ensures x % n == r
  {
    var p := x / n;
    Multiples(n, p, q);
    Multiples(n, q, p);
  }

  /** The two numbers of a log query, as they follow from the history. */
  lemma ReportMeans(buffer: seq<Entry>, history: seq<Entry>)
    requires |history| < TWO_64 && |buffer| < TWO_32 && Agrees(buffer, history) && (history == [] || |buffer| > 0)
    ensures |history| % TWO_64 == |history|
    ensures var (index, size) := Reported(|history|, |buffer|);
            && size == Min(|history|, |buffer|)
            && (history != [] ==> if |history| % |buffer| == 0 then index == 0xFFFF_FFFF
                                  else index < |buffer| && buffer[index] == history[|history| - 1])
  {
    SizeReported(|history|, |buffer|);
    if history != [] { IndexReportedIff(buffer, history); }
  }

  /** Reading backwards from the reported index recovers the last entries of the history, newest first. */
  lemma ReadBack(buffer: seq<Entry>, history: seq<Entry>, j: nat)
    requires 0 < |history| < TWO_64 && 0 < |buffer| < TWO_32 && Agrees(buffer, history)
    requires |history| % |buffer| != 0 && j < Reported(|history|, |buffer|).1
    ensures var index := Reported(|history|, |buffer|).0;
            buffer[(index + |buffer| - j) % |buffer|] == history[|history| - 1 - j]
  {
    var c, n := |history|, |buffer|;
    SizeReported(c, n);
    IndexReportedIff(buffer, history);
    assert SlotHolds(buffer, history, c - 1 - j);
    BackSlot(c - 1, n, j);
  }

  lemma BackSlot(x: nat, n: nat, j: nat)
    requires n > 0 && j <= x && j < n
    ensures (x % n + n - j) % n == (x - j) % n
  {
    var q, r := x / n, x % n;
    assert x == n * q + r;
    if r >= j {
      ModUnique(x - j, n, q, r - j);
      ModUnique(r + n - j, n, 1, r - j);
    } else {
      assert x - j == n * (q - 1) + (n + r - j);
      ModUnique(x - j, n, q - 1, n + r - j);
      ModUnique(r + n - j, n, 0, r + n - j);
    }
  }
}
