/** The stack high-water mark: a scan for the first word that lost its fill pattern.
  *
  * Stacks grow downward. A stack is its start address, its size in bytes, and the memory words from
  * its start on; a size that is not a multiple of four makes the scan read one word across the end.
  */
module StackScan {
  import opened MachineIntegers

  const STACK_BYTE_PATTERN: nat := 0xA5A5_A5A5
  const WORD_SIZE: nat := 4

  /** The number of words the scan may read. */
  function ScannedWords(size: nat): nat {
    (size + WORD_SIZE - 1) / WORD_SIZE
  }

  /** The words scanned lie in 32-bit memory, neither at the null address nor at its very end. */
  predicate InAddressSpace(start: nat, size: nat) {
    0 < start && start + WORD_SIZE * ScannedWords(size) < TWO_32
  }

  datatype Mark = NoMark | Mark(address: nat)

  /** The length of the longest prefix of the first n words that still holds the pattern. */
  function Untouched(words: seq<nat>, n: nat): (k: nat)
    requires n <= |words|
    ensures k <= n
    decreases n
  {
    if n == 0 || words[0] != STACK_BYTE_PATTERN then 0 else 1 + Untouched(words[1..], n - 1)
  }

  /** Bytes used: the stack less its untouched prefix, or none if the whole scan found the pattern. */
  function Usage(words: seq<nat>, size: nat): (u: nat)
    requires ScannedWords(size) <= |words|
    ensures u <= size
  {
    var k := Untouched(words, ScannedWords(size));
    if k == ScannedWords(size) then 0 else size - WORD_SIZE * k
  }

  /** The word at this offset is the first one without the fill pattern. */
  predicate FirstChanged(words: seq<nat>, offset: nat) {
    && offset % 4 == 0 && offset / 4 < |words| && words[offset / 4] != 0xA5A5_A5A5
    && forall j :: 0 <= j < offset / 4 ==> words[j] == 0xA5A5_A5A5
  }

  /** Usage 0 means every word scanned keeps the pattern, any other leads to the first word that lost it. */
  predicate InWords(words: seq<nat>, size: nat, usage: nat)
    requires (size + 3) / 4 <= |words| && usage <= size
  {
    && (usage == 0 <==> forall j :: 0 <= j < (size + 3) / 4 ==> words[j] == 0xA5A5_A5A5)
    && (usage > 0 ==> FirstChanged(words, size - usage))
  }

  method FindHighWaterMark(words: array<nat>, start: nat, size: nat) returns (mark: Mark)
    requires ScannedWords(size) <= words.Length && InAddressSpace(start, size)
    ensures var k := Untouched(words[..], ScannedWords(size));
            mark == if k == ScannedWords(size) then NoMark else Mark(start + WORD_SIZE * k)
    ensures mark.NoMark? ==> forall j :: 0 <= j < (size + 3) / 4 ==> words[j] == 0xA5A5_A5A5
    ensures mark.Mark? ==> start <= mark.address < start + size && FirstChanged(words[..], mark.address - start)
  {
    var pointer := start;
    ghost var i := 0;
    while pointer < start + size
      invariant pointer == start + WORD_SIZE * i && i <= ScannedWords(size)
      invariant forall j :: 0 <= j < i ==> words[j] == STACK_BYTE_PATTERN
    {
      assert i < ScannedWords(size);
      if words[(pointer - start) / WORD_SIZE] != STACK_BYTE_PATTERN {
        UntouchedIs(words[..], ScannedWords(size), i);
        return Mark(pointer);
      }
      pointer := pointer + WORD_SIZE;
      i := i + 1;
    }
    UntouchedIs(words[..], ScannedWords(size), i);
    return NoMark;
  }

  /** The subtraction of addresses, in 32 bits. */
  function CalculateUsedStack(start: nat, size: nat, mark: nat): nat {
    (start + size - mark) % TWO_32
  }

  /** A task as the iteration over all tasks sees it; `area` is null when the stack checker is off. */
  datatype Task = Task(id: nat, stack: Stack)
  datatype Stack = NoArea | Area(start: nat, size: nat, words: array<nat>)

  predicate Mapped(s: Stack) {
    s.Area? ==> ScannedWords(s.size) <= s.words.Length && InAddressSpace(s.start, s.size)
  }

  /** The usage of a stack, or -1 without an area. */
  function UsageOf(s: Stack): int
    requires Mapped(s)
    reads if s.Area? then {s.words} else {}
  {
    if s.NoArea? then -1 else Signed(Usage(s.words[..], s.size))
  }

  /** What a reported usage says about the stack: -1 without an area, and for less than 2^31 bytes its words. */
  ghost predicate InStack(s: Stack, usage: int)
    requires Mapped(s)
    reads if s.Area? then {s.words} else {}
  {
    && (s.NoArea? ==> usage == -1)
    && (s.Area? && s.size < 0x8000_0000 ==> 0 <= usage <= s.size && InWords(s.words[..], s.size, usage))
  }

  /** int32_t of a uint32_t. */
  function Signed(n: nat): (r: int)
    requires n < TWO_32
    ensures -0x8000_0000 <= r < 0x8000_0000 && (r == n || r == n - 0x1_0000_0000)
  {
    if n < TWO_32 / 2 then n else n - TWO_32
  }

  /** Position of the first task with the identifier, or the number of tasks. */
  function FirstTask(tasks: seq<Task>, id: nat): (i: nat)
    ensures i <= |tasks|
    ensures i < |tasks| ==> tasks[i].id == id
    ensures forall j :: 0 <= j < i ==> tasks[j].id != id
  {
    if tasks == [] || tasks[0].id == id then 0 else 1 + FirstTask(tasks[1..], id)
  }

  /** Monitor_GetMaximumStackUsage, with the visitor's iteration written as the loop it is. */
  method GetMaximumStackUsage(tasks: seq<Task>, id: nat) returns (usage: int)
    requires forall j :: 0 <= j < |tasks| ==> Mapped(tasks[j].stack)
    ensures var i := FirstTask(tasks, id);
            usage == if i == |tasks| then -1 else UsageOf(tasks[i].stack)
  {
    var maximumUsage: nat, found, i := 0, false, 0;
    var done := false;
    while !done && i < |tasks|
      invariant i <= |tasks| && (done ==> i < |tasks| && tasks[i].id == id)
      invariant forall j :: 0 <= j < i ==> tasks[j].id != id
      invariant maximumUsage < TWO_32
      invariant done ==> UsageOf(tasks[i].stack) == if found then Signed(maximumUsage) else -1
      invariant !done ==> !found && maximumUsage == 0
      decreases |tasks| - i, !done
    {
      if tasks[i].id != id {
        i := i + 1;
      } else if tasks[i].stack.NoArea? {
        done := true;
      } else {
        var s := tasks[i].stack;
        assert Mapped(s);
        var mark := FindHighWaterMark(s.words, s.start, s.size);
        if mark.Mark? {
          maximumUsage := CalculateUsedStack(s.start, s.size, mark.address);
        }
        found, done := true, true;
      }
    }
    if found { return Signed(maximumUsage); }
    return -1;
  }

  // ----- What the mark means -----

  /** The prefix is characterized by its words and by the first word after it. */
  lemma {:induction false} UntouchedIs(words: seq<nat>, n: nat, k: nat)
    requires k <= n <= |words|
    requires forall j :: 0 <= j < k ==> words[j] == STACK_BYTE_PATTERN
    requires k < n ==> words[k] != STACK_BYTE_PATTERN
    ensures Untouched(words, n) == k
    decreases n
  {
    if k > 0 {
      assert words[0] == STACK_BYTE_PATTERN;
      assert forall j :: 0 <= j < k - 1 ==> words[1..][j] == words[j + 1];
      UntouchedIs(words[1..], n - 1, k - 1);
    }
  }

  lemma {:induction false} UntouchedProperties(words: seq<nat>, n: nat)
    requires n <= |words|
    ensures var k := Untouched(words, n);
            && (forall j :: 0 <= j < k ==> words[j] == STACK_BYTE_PATTERN)
            && (k < n ==> words[k] != STACK_BYTE_PATTERN)
    decreases n
  {
    if n != 0 && words[0] == STACK_BYTE_PATTERN {
      UntouchedProperties(words[1..], n - 1);
      var k := Untouched(words[1..], n - 1);
      forall j | 0 <= j < k + 1 ensures words[j] == STACK_BYTE_PATTERN {
        if j > 0 { assert words[1..][j - 1] == words[j]; }
      }
    }
  }

  /** Tight: usage of u bytes means the word u bytes below the stack's end lost the pattern and every word before it
    * kept it; usage 0 of a non-empty stack means every word kept it. */
  lemma UsageTight(words: seq<nat>, size: nat)
    requires ScannedWords(size) <= |words|
    ensures var u := Usage(words, size);
            && u <= size
            && (u == 0 <==> forall j :: 0 <= j < ScannedWords(size) ==> words[j] == STACK_BYTE_PATTERN)
            && (u > 0 ==> (size - u) % WORD_SIZE == 0 && words[(size - u) / WORD_SIZE] != STACK_BYTE_PATTERN
                          && forall j :: 0 <= j < (size - u) / WORD_SIZE ==> words[j] == STACK_BYTE_PATTERN)
  {
    UntouchedProperties(words, ScannedWords(size));
  }

  /** A reported usage, in the words of the stack. */
  lemma UsageInStack(s: Stack)
    requires Mapped(s)
    ensures InStack(s, UsageOf(s))
  {
    if s.Area? { UsageInWords(s.words[..], s.size); }
  }

  lemma UsageInWords(words: seq<nat>, size: nat)
    requires ScannedWords(size) <= |words|
    ensures InWords(words, size, Usage(words, size))
  {
    UsageTight(words, size);
  }

  /** Usage never decreases while words lose the pattern and none regain it. */
  lemma UsageMonotone(words: seq<nat>, words': seq<nat>, size: nat)
    requires ScannedWords(size) <= |words| && ScannedWords(size) <= |words'|
    requires forall j :: 0 <= j < ScannedWords(size) && words'[j] == STACK_BYTE_PATTERN ==> words[j] == STACK_BYTE_PATTERN
    ensures Usage(words, size) <= Usage(words', size)
  {
    var n := ScannedWords(size);
    UntouchedProperties(words, n);
    UntouchedProperties(words', n);
  }
}
