/** The DMA handshake table and the two loops that search it.
  *
  * The numeric peripheral identifiers come from the board support package, so everything here holds
  * for any assignment `pid` of identifiers to peripherals.
  */
module HandshakeTable {

  datatype Peripheral =
    | Hsmci | Spi0 | Spi1 | Qspi | Usart0 | Usart1 | Usart2 | Pwm0 | Twihs0
    | Twihs1 | Twihs2 | Uart0 | Uart1 | Uart2 | Uart3 | Uart4 | Dacc | Ssc
    | PioA | Afec0 | Afec1 | Aes | Pwm1 | Tc0Ch0 | Tc0Ch1 | Tc0Ch2 | Tc1Ch0

  /** One row: peripheral, transfer direction (0 transmit, 1 receive), handshake interface. */
  datatype Entry = Entry(peripheral: Peripheral, transfer: nat, interface: nat)

  const NO_INTERFACE: nat := 0xFF
  const MEMORY: nat := 0xFF
  const TABLE_SIZE: nat := 45

  /** The rows of the table, by index. */
  function Row(i: nat): Entry
    requires i < TABLE_SIZE
  {
    match i
    case 0 => Entry(Hsmci, 0, 0)
    case 1 => Entry(Hsmci, 1, 0)
    case 2 => Entry(Spi0, 0, 1)
    case 3 => Entry(Spi0, 1, 2)
    case 4 => Entry(Spi1, 0, 3)
    case 5 => Entry(Spi1, 1, 4)
    case 6 => Entry(Qspi, 0, 5)
    case 7 => Entry(Qspi, 1, 6)
    case 8 => Entry(Usart0, 0, 7)
    case 9 => Entry(Usart0, 1, 8)
    case 10 => Entry(Usart1, 0, 9)
    case 11 => Entry(Usart1, 1, 10)
    case 12 => Entry(Usart2, 0, 11)
    case 13 => Entry(Usart2, 1, 12)
    case 14 => Entry(Pwm0, 0, 13)
    case 15 => Entry(Twihs0, 0, 14)
    case 16 => Entry(Twihs0, 1, 15)
    case 17 => Entry(Twihs1, 0, 16)
    case 18 => Entry(Twihs1, 1, 17)
    case 19 => Entry(Twihs2, 0, 18)
    case 20 => Entry(Twihs2, 1, 19)
    case 21 => Entry(Uart0, 0, 20)
    case 22 => Entry(Uart0, 1, 21)
    case 23 => Entry(Uart1, 0, 22)
    case 24 => Entry(Uart1, 1, 23)
    case 25 => Entry(Uart2, 0, 24)
    case 26 => Entry(Uart2, 1, 25)
    case 27 => Entry(Uart3, 0, 26)
    case 28 => Entry(Uart3, 1, 27)
    case 29 => Entry(Uart4, 0, 28)
    case 30 => Entry(Uart4, 1, 29)
    case 31 => Entry(Dacc, 0, 30)
    case 32 => Entry(Dacc, 0, 31)
    case 33 => Entry(Ssc, 0, 32)
    case 34 => Entry(Ssc, 1, 33)
    case 35 => Entry(PioA, 1, 34)
    case 36 => Entry(Afec0, 1, 35)
    case 37 => Entry(Afec1, 1, 36)
    case 38 => Entry(Aes, 0, 37)
    case 39 => Entry(Aes, 1, 38)
    case 40 => Entry(Pwm1, 0, 39)
    case 41 => Entry(Tc0Ch0, 1, 40)
    case 42 => Entry(Tc0Ch1, 1, 41)
    case 43 => Entry(Tc0Ch2, 1, 42)
    case _ => Entry(Tc1Ch0, 1, 43)
  }

  type Ids = Peripheral -> nat

  predicate Matches(pid: Ids, id: nat, transfer: nat, i: nat)
    requires i < TABLE_SIZE
  {
    pid(Row(i).peripheral) == id && Row(i).transfer == transfer
  }

  /** The interface of the first row from i to last that matches. */
  function Lookup(pid: Ids, id: nat, transfer: nat, last: nat, i: nat := 0): nat
    requires last < TABLE_SIZE
    decreases TABLE_SIZE - i
  {
    if i > last then NO_INTERFACE
    else if Matches(pid, id, transfer, i) then Row(i).interface
    else Lookup(pid, id, transfer, last, i + 1)
  }

  predicate Validated(pid: Ids, id: nat, last: nat)
    requires last < TABLE_SIZE
  {
    id == MEMORY || exists i :: 0 <= i <= last && pid(Row(i).peripheral) == id
  }

  method GetChannelNumber(pid: Ids, id: nat, transfer: nat, numOfPeripheral: nat) returns (interface: nat)
    requires numOfPeripheral < TABLE_SIZE
    ensures interface == Lookup(pid, id, transfer, numOfPeripheral)
  {
    var i := 0;
    while i <= numOfPeripheral
      invariant i <= numOfPeripheral + 1
      invariant Lookup(pid, id, transfer, numOfPeripheral) == Lookup(pid, id, transfer, numOfPeripheral, i)
    {
      if pid(Row(i).peripheral) == id && Row(i).transfer == transfer {
        return Row(i).interface;
      }
      i := i + 1;
    }
    return NO_INTERFACE;
  }

  method IsValidatedPeripheral(pid: Ids, id: nat, numOfPeripheral: nat) returns (valid: bool)
    requires numOfPeripheral < TABLE_SIZE
    ensures valid <==> Validated(pid, id, numOfPeripheral)
  {
    if id == MEMORY { return true; }
    var i := 0;
    while i <= numOfPeripheral
      invariant i <= numOfPeripheral + 1
      invariant forall k :: 0 <= k < i ==> pid(Row(k).peripheral) != id
    {
      if pid(Row(i).peripheral) == id { return true; }
      i := i + 1;
    }
    return false;
  }

  /** Row i carries interface i - 1, except that row 0 shares interface 0 with row 1. */
  lemma RowInterface(i: nat)
    requires i < TABLE_SIZE
    ensures Row(i).transfer <= 1 && Row(i).interface == if i == 0 then 0 else i - 1
  {
  }

  /** The first row from i on that matches, or the end of the range. */
  lemma {:induction false} FirstRow(pid: Ids, id: nat, transfer: nat, last: nat, i: nat) returns (k: nat)
    requires i <= last + 1 <= TABLE_SIZE
    ensures i <= k <= last + 1 && (k <= last ==> Matches(pid, id, transfer, k))
    ensures forall j :: i <= j < k ==> !Matches(pid, id, transfer, j)
    ensures Lookup(pid, id, transfer, last, i) == if k <= last then Row(k).interface else NO_INTERFACE
    decreases TABLE_SIZE - i
  {
    k := i;
    if i <= last && !Matches(pid, id, transfer, i) { k := FirstRow(pid, id, transfer, last, i + 1); }
  }

  /** What a lookup returns: the interface of the first matching row, or none if no row matches. */
  lemma LookupFirst(pid: Ids, id: nat, transfer: nat, last: nat) returns (k: nat)
    requires last < TABLE_SIZE
    ensures var r := Lookup(pid, id, transfer, last);
            if r == NO_INTERFACE then forall j :: 0 <= j <= last ==> !Matches(pid, id, transfer, j)
            else k <= last && Matches(pid, id, transfer, k) && r == Row(k).interface &&
                 forall j :: 0 <= j < k ==> !Matches(pid, id, transfer, j)
  {
    k := FirstRow(pid, id, transfer, last, 0);
    if k <= last { InterfaceGiven(k); }
  }

  lemma InterfaceGiven(i: nat)
    requires i < TABLE_SIZE
    ensures Row(i).interface != NO_INTERFACE
  {
    RowInterface(i);
  }

  /** r is the interface of the first row in range that matches, or none if no row does. */
  ghost predicate FirstMatch(pid: Ids, id: nat, transfer: nat, last: nat, r: nat)
    requires last < TABLE_SIZE
  {
    if r == NO_INTERFACE then forall j :: 0 <= j <= last ==> !Matches(pid, id, transfer, j)
    else exists k :: 0 <= k <= last && Matches(pid, id, transfer, k) && r == Row(k).interface &&
                     forall j :: 0 <= j < k ==> !Matches(pid, id, transfer, j)
  }

  lemma LookupMatches(pid: Ids, id: nat, transfer: nat, last: nat)
    requires last < TABLE_SIZE
    ensures FirstMatch(pid, id, transfer, last, Lookup(pid, id, transfer, last))
  {
    var k := LookupFirst(pid, id, transfer, last);
  }

  /** A lookup succeeds exactly when some row in range has the peripheral and the direction. */
  lemma LookupIff(pid: Ids, id: nat, transfer: nat, last: nat)
    requires last < TABLE_SIZE
    ensures Lookup(pid, id, transfer, last) != 0xFF <==>
            exists i :: 0 <= i <= last && pid(Row(i).peripheral) == id && Row(i).transfer == transfer
  {
    var k := LookupFirst(pid, id, transfer, last);
    if i :| 0 <= i <= last && pid(Row(i).peripheral) == id && Row(i).transfer == transfer {
      assert Matches(pid, id, transfer, i);
    }
  }

  /** Validation agrees with lookup: accepted are memory and the peripherals with an interface in some direction. */
  lemma ValidatedIff(pid: Ids, id: nat, last: nat)
    requires last < TABLE_SIZE
    ensures Validated(pid, id, last) <==>
            id == MEMORY || Lookup(pid, id, 0, last) != NO_INTERFACE || Lookup(pid, id, 1, last) != NO_INTERFACE
  {
    LookupIff(pid, id, 0, last);
    LookupIff(pid, id, 1, last);
    if i :| 0 <= i <= last && pid(Row(i).peripheral) == id {
      RowInterface(i);
      assert Matches(pid, id, 0, i) || Matches(pid, id, 1, i);
    }
  }

  /** No two peripheral directions are given the same interface, apart from interface 0. */
  lemma InterfacesDistinct(pid: Ids, id: nat, transfer: nat, id': nat, transfer': nat, last: nat)
    requires last < TABLE_SIZE
    requires Lookup(pid, id, transfer, last) == Lookup(pid, id', transfer', last)
    ensures Lookup(pid, id, transfer, last) in {0, NO_INTERFACE} || (id == id' && transfer == transfer')
  {
    var k := LookupFirst(pid, id, transfer, last);
    var k' := LookupFirst(pid, id', transfer', last);
    if Lookup(pid, id, transfer, last) != NO_INTERFACE {
      RowInterface(k);
      RowInterface(k');
    }
  }

  lemma DaccTwice(pid: Ids, id: nat, transfer: nat)
    ensures Matches(pid, id, transfer, 31) <==> Matches(pid, id, transfer, 32)
  {
  }

  /** The second Dacc row is shadowed by the first: interface 31 is never given out. */
  lemma Interface31Unreachable(pid: Ids, id: nat, transfer: nat, last: nat)
    requires last < TABLE_SIZE
    ensures Lookup(pid, id, transfer, last) != 31
  {
    var k := LookupFirst(pid, id, transfer, last);
    if Lookup(pid, id, transfer, last) == 31 {
      RowInterface(k);
      DaccTwice(pid, id, transfer);
    }
  }

  /** Validation does not look at the direction: with distinct identifiers, Pwm0 passes as a source
    * although it has no receive interface. */
  lemma DirectionNotValidated(pid: Ids, last: nat)
    requires 14 <= last < TABLE_SIZE
    requires forall p, p' :: pid(p) == pid(p') ==> p == p'
    ensures Validated(pid, pid(Pwm0), last) && Lookup(pid, pid(Pwm0), 1, last) == NO_INTERFACE
  {
    assert Row(14).peripheral == Pwm0;
    var k := LookupFirst(pid, pid(Pwm0), 1, last);
    if Lookup(pid, pid(Pwm0), 1, last) != NO_INTERFACE { OnlyPwm0Row(k); }
  }

  lemma OnlyPwm0Row(i: nat)
    requires i < TABLE_SIZE && Row(i).peripheral == Pwm0
    ensures Row(i).transfer == 0
  {
  }
}
