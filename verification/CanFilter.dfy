/**
 CAN acceptance filters: the two 32-bit words the driver puts into a filter bank for
 each item of a filter configuration, the identifier word it puts into a transmit
 mailbox, and which frames a bank then accepts.  A 32-bit word is represented by the
 set of its one bits: `+` is or, `*` is and.
 */
module CanFilter {
  type Bits = set<nat>

  predicate InWord(b: nat) {
    b < 32
  }

  function Shl(x: Bits, k: nat): Bits {
    set b: nat | b < 32 && InWord(b) && k <= b && b - k in x
  }

  function Shr(x: Bits, k: nat): Bits {
    set b: nat | b < 32 && InWord(b) && b + k in x
  }

  /** x & 0xFFFF. */
  function Low16(x: Bits): Bits {
    set b | b in x && b < 16
  }

  datatype Mode = IdMask | IdList

  /** A frame's identifier; ide: extended, rtr: remote. */
  datatype Ident = Ident(id: Bits, ide: bool, rtr: bool)

  /** One filter item; `mask` is the second identifier in list mode. */
  datatype Item = Item(ident: Ident, mode: Mode, mask: Bits, hdr: int)

  datatype Bank = Bank(fr1: Bits, fr2: Bits, mode: Mode)

  /** Standard identifiers have 11 bits and extended ones 29. */
  function Width(ide: bool): nat {
    if ide then 29 else 11
  }

  predicate ValidIdent(m: Ident) {
    forall b :: b in m.id ==> b < Width(m.ide)
  }

  function Flag(b: bool, bit: nat): Bits {
    if b then {bit} else {}
  }

  /** (ide << 2) | (rtr << 1). */
  function Kind(m: Ident): Bits {
    Flag(m.ide, 2) + Flag(m.rtr, 1)
  }

  // ---------------------------------------------------------- the two words

  function MaskTail(it: Item): Bits {
    match it.mode
    case IdMask => {1, 2}
    case IdList => Kind(it.ident)
  }

  /** RT_CAN_CMD_SET_FILTER for one item: the four half words and, as the HAL joins
      them, the two bank registers. */
  function FilterBank(it: Item): Bank {
    var id := it.ident.id;
    var (idHigh, idLow, maskHigh, maskLow) :=
      if !it.ident.ide then
        (Low16(Shr(Shl(id, 18), 13)),
         Low16(Shl(id, 18) + Kind(it.ident)),
         Low16(Shr(Shl(it.mask, 21), 16)),
         Low16(Shl(it.mask, 21) + MaskTail(it)))
      else
        (Low16(Shr(id, 13)),
         Low16(Shl(id, 3) + Kind(it.ident)),
         Low16(Shr(Shl(it.mask, 3), 16)),
         Low16(Shl(it.mask, 3) + MaskTail(it)));
    Bank(Shl(idHigh, 16) + idLow, Shl(maskHigh, 16) + maskLow, it.mode)
  }

  /** The identifier bits _can_sendmsg writes to the mailbox, TXRQ aside. */
  function MailboxWord(m: Ident): Bits {
    if !m.ide then Shl(m.id, 21) + Flag(m.rtr, 1)
    else Shl(m.id, 3) + {2} + Flag(m.rtr, 1)
  }

  /** What the hardware compares with the word of an arriving frame. */
  predicate Accepts(b: Bank, word: Bits) {
    match b.mode
    case IdMask => word * b.fr2 == b.fr1 * b.fr2
    case IdList => word == b.fr1 || word == b.fr2
  }

  /** Bit b of a mailbox word: identifiers end at bit 31 or begin at bit 3, the kind is
      in bits 1 and 2. */
  lemma MailboxBits(m: Ident, b: nat)
    requires ValidIdent(m)
    ensures var k := if m.ide then 3 else 21;
      b in MailboxWord(m) <==>
        (k <= b && b - k in m.id) || (b == 2 && m.ide) || (b == 1 && m.rtr)
  {
  }

  /** The lowest bit of the register is for the transmit request. */
  lemma NoTransmitBit(m: Ident)
    requires ValidIdent(m)
    ensures 0 !in MailboxWord(m)
  {
    MailboxBits(m, 0);
  }

  lemma ModeKept(it: Item)
    ensures FilterBank(it).mode == it.mode
  {
  }

  /** The identifier the id field stands for: its bits that fit. */
  function FirstIdent(it: Item): (m: Ident)
    ensures ValidIdent(it.ident) ==> m == it.ident
  {
    var m := it.ident.(id := set b | b in it.ident.id && b < Width(it.ident.ide));
    assert ValidIdent(it.ident) ==> m.id == it.ident.id;
    m
  }

  /** Both ends pack an identifier into the same word; bits too many are cut off. */
  lemma FilterWordIsMailboxWord(it: Item)
    ensures ValidIdent(FirstIdent(it))
    ensures FilterBank(it).fr1 == MailboxWord(FirstIdent(it))
  {
    forall b: nat
      ensures b in FilterBank(it).fr1 <==> b in MailboxWord(FirstIdent(it))
    {
    }
  }

  /** The identifier the mask field stands for in list mode: its bits that fit. */
  function SecondIdent(it: Item): Ident {
    it.ident.(id := set b | b in it.mask && b < Width(it.ident.ide))
  }

  /** The second word in list mode is the mailbox word of the second identifier. */
  lemma SecondWordIsIdent(it: Item)
    requires it.mode == IdList
    ensures ValidIdent(SecondIdent(it))
    ensures FilterBank(it).fr2 == MailboxWord(SecondIdent(it))
  {
    forall b: nat
      ensures b in FilterBank(it).fr2 <==> b in MailboxWord(SecondIdent(it))
    {
    }
  }

  /** In mask mode it is the mask, aligned, and both bits of the kind. */
  lemma SecondWordBits(it: Item, b: nat)
    requires it.mode == IdMask
    ensures var k := if it.ident.ide then 3 else 21;
      b in FilterBank(it).fr2 <==> (k <= b < 32 && b - k in it.mask) || b == 1 || b == 2
  {
  }

  // ------------------------------------------------------------- acceptance

  /** Different identifiers have different words. */
  lemma MailboxWordInjective(a: Ident, b: Ident)
    requires ValidIdent(a) && ValidIdent(b)
    ensures MailboxWord(a) == MailboxWord(b) <==> a == b
  {
    if MailboxWord(a) == MailboxWord(b) {
      forall i: nat
        ensures i in a.id <==> i in b.id
      {
        MailboxBits(a, 1);
        MailboxBits(b, 1);
        MailboxBits(a, 2);
        MailboxBits(b, 2);
        MailboxBits(a, i + (if a.ide then 3 else 21));
        MailboxBits(b, i + (if b.ide then 3 else 21));
      }
    }
  }

  /** Mask mode accepts exactly the frames of the same kind whose identifier agrees
      with the item's on the masked bits. */
  lemma MaskAcceptsIff(it: Item, m: Ident)
    requires it.mode == IdMask && ValidIdent(m)
    ensures var own := FirstIdent(it);
      Accepts(FilterBank(it), MailboxWord(m)) <==>
        m.ide == it.ident.ide && m.rtr == it.ident.rtr && m.id * it.mask == own.id * it.mask
  {
    FilterWordIsMailboxWord(it);
    var ident := FirstIdent(it);
    var word, own, mask := MailboxWord(m), MailboxWord(ident), FilterBank(it).fr2;
    var k := if it.ident.ide then 3 else 21;
    forall b: nat
      ensures b in word * mask <==>
        ((if m.ide then 3 else 21) <= b && b - (if m.ide then 3 else 21) in m.id && k <= b && b - k in it.mask)
        || (b == 2 && m.ide) || (b == 1 && m.rtr)
      ensures b in own * mask <==>
        (k <= b && b - k in ident.id * it.mask) || (b == 2 && it.ident.ide) || (b == 1 && it.ident.rtr)
    {
      MailboxBits(m, b);
      MailboxBits(ident, b);
      SecondWordBits(it, b);
    }
    if word * mask == own * mask {
      assert 1 in word * mask <==> m.rtr;
      assert 2 in word * mask <==> m.ide;
      forall i: nat
        ensures i in m.id * it.mask <==> i in ident.id * it.mask
      {
        assert i + k in word * mask <==> i in m.id * it.mask;
      }
    }
  }

  /** List mode accepts exactly the item's identifier and the second one, of the same
      kind. */
  lemma ListAcceptsIff(it: Item, m: Ident)
    requires it.mode == IdList && ValidIdent(m)
    ensures Accepts(FilterBank(it), MailboxWord(m)) <==> m == FirstIdent(it) || m == SecondIdent(it)
  {
    FilterWordIsMailboxWord(it);
    SecondWordIsIdent(it);
    MailboxWordInjective(m, FirstIdent(it));
    MailboxWordInjective(m, SecondIdent(it));
  }

  // ------------------------------------------------------ the configuration

  /** Item i goes to this bank: to the one it asks for, or to its own index. */
  predicate GoesTo(items: seq<Item>, i: int, bank: int) {
    0 <= i < |items| && bank == if items[i].hdr == -1 then i else items[i].hdr
  }

  /** Of the first n items the last that goes to a bank has configured it; the others are
      as they were. */
  ghost predicate Configured(items: seq<Item>, n: nat, was: map<int, Bank>, now: map<int, Bank>) {
    && (forall i, bank ::
          0 <= i < n && GoesTo(items, i, bank) && (forall j :: i < j < n ==> !GoesTo(items, j, bank)) ==>
            bank in now && now[bank] == FilterBank(items[i]))
    && (forall bank :: (forall i :: 0 <= i < n ==> !GoesTo(items, i, bank)) ==> SameBank(was, now, bank))
  }

  ghost predicate SameBank(was: map<int, Bank>, now: map<int, Bank>, bank: int) {
    (bank in now <==> bank in was) && (bank in now ==> now[bank] == was[bank])
  }

  lemma NoneConfigured(items: seq<Item>, was: map<int, Bank>)
    ensures Configured(items, 0, was, was)
  {
  }

  lemma OneMoreConfigured(items: seq<Item>, n: nat, was: map<int, Bank>, now: map<int, Bank>, bank: int)
    requires n < |items| && Configured(items, n, was, now) && GoesTo(items, n, bank)
    ensures Configured(items, n + 1, was, now[bank := FilterBank(items[n])])
  {
    hide FilterBank;
    assert forall b :: GoesTo(items, n, b) ==> b == bank;
    hide GoesTo;
    var later := now[bank := FilterBank(items[n])];
    forall i, b | 0 <= i < n + 1 && GoesTo(items, i, b) && (forall j :: i < j < n + 1 ==> !GoesTo(items, j, b))
      ensures b in later && later[b] == FilterBank(items[i])
    {
      assert b == bank ==> i == n;
    }
    forall b | forall i :: 0 <= i < n + 1 ==> !GoesTo(items, i, b)
      ensures SameBank(was, later, b)
    {
      assert b != bank && SameBank(was, now, b);
    }
  }

  /** Item i asks for this bank. */
  predicate Asks(items: seq<Item>, i: int, bank: int) {
    0 <= i < |items| && items[i].hdr == bank && bank != -1
  }

  /** Item i asks for no bank. */
  predicate AsksNone(items: seq<Item>, i: int) {
    0 <= i < |items| && items[i].hdr == -1
  }

  /** An item that asks for a bank has configured that bank, and one that asks for none
      the bank of its index, unless a later item took it; banks that no item asks for, or
      has the index of without asking, are as they were. */
  ghost predicate FiltersSet(items: seq<Item>, was: map<int, Bank>, now: map<int, Bank>) {
    && (forall i, bank :: Asks(items, i, bank) && !TakenLater(items, i, bank) ==>
          bank in now && now[bank] == FilterBank(items[i]))
    && (forall i :: AsksNone(items, i) && !TakenLater(items, i, i) ==> i in now && now[i] == FilterBank(items[i]))
    && (forall bank :: !TakenLater(items, -1, bank) ==> SameBank(was, now, bank))
  }

  ghost predicate TakenLater(items: seq<Item>, i: int, bank: int) {
    || (exists j :: j > i && Asks(items, j, bank))
    || (bank > i && AsksNone(items, bank))
  }

  /** Going to a bank is asking for it, or asking for none and having its index. */
  lemma GoesToIff(items: seq<Item>, i: int, bank: int)
    ensures GoesTo(items, i, bank) <==> Asks(items, i, bank) || (AsksNone(items, i) && i == bank)
  {
  }

  lemma TakenLaterIff(items: seq<Item>, i: int, bank: int)
    requires i >= -1
    ensures TakenLater(items, i, bank) <==> exists j :: i < j < |items| && GoesTo(items, j, bank)
  {
    if AsksNone(items, bank) && bank > i {
      assert GoesTo(items, bank, bank);
    }
    if j :| j > i && Asks(items, j, bank) {
      assert GoesTo(items, j, bank);
    }
    if j :| i < j < |items| && GoesTo(items, j, bank) {
      assert Asks(items, j, bank) || AsksNone(items, bank);
    }
  }

  lemma ConfiguredMeans(items: seq<Item>, was: map<int, Bank>, now: map<int, Bank>)
    requires Configured(items, |items|, was, now)
    ensures FiltersSet(items, was, now)
  {
    hide FilterBank, SameBank, TakenLater;
    forall i, bank | (Asks(items, i, bank) || (AsksNone(items, i) && i == bank)) && !TakenLater(items, i, bank)
      ensures bank in now && now[bank] == FilterBank(items[i])
    {
      GoesToIff(items, i, bank);
      TakenLaterIff(items, i, bank);
    }
    forall bank | !TakenLater(items, -1, bank)
      ensures SameBank(was, now, bank)
    {
      TakenLaterIff(items, -1, bank);
    }
  }

  class CanDriver {
    var banks: map<int, Bank>
    var tir: Bits // the identifier register of the transmit mailbox

    constructor ()
      ensures banks == map[] && tir == {}
    {
      banks := map[];
      tir := {};
    }

    /** The loop of RT_CAN_CMD_SET_FILTER.  An item with a bank of its own ends up in
        that bank, and one without in the bank of its index, unless a later item takes
        it; banks that no item asks for, or has the index of, do not change. */
    method SetFilter(items: seq<Item>)
      modifies `banks
      ensures FiltersSet(items, old(banks), banks)
    {
      var i := 0;
      NoneConfigured(items, banks);
      hide Configured, FilterBank, FiltersSet;
      while i < |items|
        invariant 0 <= i <= |items| && Configured(items, i, old(banks), banks)
      {
        var bank := if items[i].hdr == -1 then i else items[i].hdr;
        OneMoreConfigured(items, i, old(banks), banks, bank);
        banks := banks[bank := FilterBank(items[i])];
        i := i + 1;
      }
      ConfiguredMeans(items, old(banks), banks);
    }

    /** The identifier part of _can_sendmsg. */
    method SendIdent(m: Ident)
      requires ValidIdent(m)
      modifies `tir
      ensures tir == MailboxWord(m) + {0}
    {
      tir := tir * {0};
      if !m.ide {
        tir := tir + (Shl(m.id, 21) + Flag(m.rtr, 1));
      } else {
        tir := tir + (Shl(m.id, 3) + {2} + Flag(m.rtr, 1));
      }
      tir := tir + {0};
    }

    /** A filter set and a message sent: the bank takes the message if and only if the
        item that configured it means it. */
    method SetAndSend(items: seq<Item>, i: nat, m: Ident) returns (accepted: bool)
      requires i < |items| && ValidIdent(m)
      requires !TakenLater(items, i, if items[i].hdr == -1 then i else items[i].hdr)
      modifies this
      ensures var it := items[i];
        accepted <==>
          match it.mode
          case IdMask =>
            m.ide == it.ident.ide && m.rtr == it.ident.rtr && m.id * it.mask == FirstIdent(it).id * it.mask
          case IdList => m == FirstIdent(it) || m == SecondIdent(it)
    {
      hide FilterBank, MailboxWord, FirstIdent, SecondIdent;
      SetFilter(items);
      SendIdent(m);
      NoTransmitBit(m);
      assert tir - {0} == MailboxWord(m);
      accepted := Accepts(banks[if items[i].hdr == -1 then i else items[i].hdr], tir - {0});
      ModeKept(items[i]);
      if items[i].mode == IdMask {
        MaskAcceptsIff(items[i], m);
      } else {
        ListAcceptsIff(items[i], m);
      }
    }
  }
}
