/**
 Paying with coins: the smallest stacks go first, and the last one is broken and change given.
 */
module Money {
  import opened Arithmetic

  const GOLD := 1
  const PLATINUM := 100
  const CRYSTAL := 10000
  const STACK_MAX := 100

  /**
   A stack of coins of one kind, and whether it lies in a bag that the player is offering in a trade; a count of
   zero is a place from which the stack has been taken.
   */
  datatype Stack = Stack(unit: nat, count: nat, offered: bool)

  function GetWorth(s: Stack): nat {
    s.unit * s.count
  }

  ghost predicate Coin(unit: nat) {
    unit == GOLD || unit == PLATINUM || unit == CRYSTAL
  }

  ghost predicate Sound(s: Stack) {
    Coin(s.unit) && s.count <= STACK_MAX
  }

  ghost function Total(stacks: seq<Stack>): nat {
    if stacks == [] then 0 else GetWorth(stacks[0]) + Total(stacks[1..])
  }

  lemma {:induction false} TotalUpdate(stacks: seq<Stack>, i: nat, s: Stack)
    requires i < |stacks|
    ensures Total(stacks[i := s]) == Total(stacks) - GetWorth(stacks[i]) + GetWorth(s)
    decreases i
  {
    if i == 0 {
      assert stacks[i := s][1..] == stacks[1..];
    } else {
      assert stacks[i := s][1..] == stacks[1..][i - 1 := s];
      TotalUpdate(stacks[1..], i - 1, s);
    }
  }

  lemma {:induction false} TotalAppend(stacks: seq<Stack>, s: Stack)
    ensures Total(stacks + [s]) == Total(stacks) + GetWorth(s)
    decreases |stacks|
  {
    if stacks == [] {
      assert (stacks + [s])[1..] == [];
    } else {
      assert (stacks + [s])[1..] == stacks[1..] + [s];
      TotalAppend(stacks[1..], s);
    }
  }

  predicate HasRoom(s: Stack, unit: nat, offered: bool) {
    s.unit == unit && 0 < s.count < STACK_MAX && s.offered == offered
  }

  /** The room in stacks of a kind, either in the bag that is offered or elsewhere. */
  ghost function RoomIn(stacks: seq<Stack>, unit: nat, offered: bool): nat {
    if stacks == [] then 0
    else
      (if HasRoom(stacks[0], unit, offered) then STACK_MAX - stacks[0].count else 0)
      + RoomIn(stacks[1..], unit, offered)
  }

  lemma {:induction false} RoomAppend(stacks: seq<Stack>, s: Stack, unit: nat, offered: bool)
    ensures RoomIn(stacks + [s], unit, offered)
            == RoomIn(stacks, unit, offered) + if HasRoom(s, unit, offered) then STACK_MAX - s.count else 0
    decreases |stacks|
  {
    if stacks == [] {
      assert (stacks + [s])[1..] == [];
    } else {
      assert (stacks + [s])[1..] == stacks[1..] + [s];
      RoomAppend(stacks[1..], s, unit, offered);
    }
  }

  /** Coins of another kind do not matter. */
  lemma {:induction false} RoomSame(before: seq<Stack>, after: seq<Stack>, unit: nat, offered: bool)
    requires |before| <= |after|
    requires forall i :: 0 <= i < |before| ==>
             after[i] == before[i] || (before[i].unit != unit && after[i].unit != unit)
    requires forall i :: |before| <= i < |after| ==> after[i].unit != unit
    ensures RoomIn(after, unit, offered) == RoomIn(before, unit, offered)
    decreases |after|
  {
    if after != [] {
      RoomSame(if before == [] then [] else before[1..], after[1..], unit, offered);
    }
  }

  lemma {:induction false} NoneHidden(stacks: seq<Stack>, unit: nat)
    requires forall s :: s in stacks ==> !s.offered
    ensures RoomIn(stacks, unit, true) == 0
    decreases |stacks|
  {
    if stacks != [] {
      NoneHidden(stacks[1..], unit);
    }
  }

  /** Some of the coins have a place, and room is counted for all of them. */
  predicate Accepted(visible: nat, hidden: nat, room: nat, offeredRoom: nat, count: nat) {
    (visible > 0 || room > 0) && count <= visible + hidden + (room + offeredRoom) * STACK_MAX
  }

  /** How many of the coins are lost: those for which only the offered bag has room, once others have been taken. */
  function LostOf(visible: nat, hidden: nat, room: nat, offeredRoom: nat, count: nat): nat {
    if Accepted(visible, hidden, room, offeredRoom, count) && room == 0 && count > visible then count - visible else 0
  }

  /** A coin stack found in the traversal: what it is worth and where it is. */
  datatype Entry = Entry(worth: nat, item: nat)

  ghost function TotalEntries(entries: seq<Entry>): nat {
    if entries == [] then 0 else entries[0].worth + TotalEntries(entries[1..])
  }

  lemma {:induction false} TotalEntriesInsert(entries: seq<Entry>, k: nat, e: Entry)
    requires k <= |entries|
    ensures TotalEntries(entries[..k] + [e] + entries[k..]) == TotalEntries(entries) + e.worth
    decreases k
  {
    var more := entries[..k] + [e] + entries[k..];
    if k == 0 {
      assert more[1..] == entries;
    } else {
      assert more[0] == entries[0] && more[1..] == entries[1..][..k - 1] + [e] + entries[1..][k - 1..];
      TotalEntriesInsert(entries[1..], k - 1, e);
    }
  }

  /** Entries name different stacks with their worth, cheapest first. */
  ghost predicate Entered(entries: seq<Entry>, stacks: seq<Stack>) {
    && (forall k :: 0 <= k < |entries| ==>
          entries[k].item < |stacks| && entries[k].worth == GetWorth(stacks[entries[k].item]) > 0)
    && (forall j, k :: 0 <= j < k < |entries| ==>
          entries[j].item != entries[k].item && entries[j].worth <= entries[k].worth)
  }

  lemma {:induction false} Inserted(entries: seq<Entry>, k: nat, e: Entry, stacks: seq<Stack>)
    requires Entered(entries, stacks) && e.item < |stacks| && e.worth == GetWorth(stacks[e.item]) > 0
    requires forall j :: 0 <= j < |entries| ==> entries[j].item < e.item
    requires k <= |entries| && (k > 0 ==> entries[k - 1].worth <= e.worth)
    requires forall j :: k <= j < |entries| ==> entries[j].worth > e.worth
    ensures var more := entries[..k] + [e] + entries[k..];
            Entered(more, stacks) && forall j :: 0 <= j < |more| ==> more[j].item <= e.item
  {
    var more := entries[..k] + [e] + entries[k..];
    forall j | 0 <= j < |more|
      ensures more[j] == if j < k then entries[j] else if j == k then e else entries[j - 1]
    {
    }
    forall j | 0 <= j < k ensures entries[j].worth <= e.worth {
      assert j < k - 1 ==> entries[j].worth <= entries[k - 1].worth;
    }
    forall i, j | 0 <= i < j < |more|
      ensures more[i].item != more[j].item && more[i].worth <= more[j].worth
    {
    }
  }

  lemma {:induction false} InsertedElements(entries: seq<Entry>, k: nat, e: Entry)
    requires k <= |entries|
    ensures forall d :: d in entries[..k] + [e] + entries[k..] <==> d == e || d in entries
  {
    assert entries == entries[..k] + entries[k..];
  }

  // ----- the widths of the numbers in addMoney

  const WRAP32 := 0x1_0000_0000
  const WRAP16 := 0x1_0000
  const WRAP8 := 0x100
  // the first amount whose crystal coins are worth more than 32 bits can hold
  const EXACT_BELOW := 4294970000

  /** The count of a new stack: 16 bits to create it, 8 bits to keep it. */
  function ItemCount(n: nat): nat {
    if n % WRAP16 == 0 then 1 else n % WRAP16 % WRAP8
  }

  function CrystalCoins(money: nat): nat {
    money / CRYSTAL % WRAP32
  }

  /** What is left after the crystal coins, whose worth is computed with 32 bits. */
  function AfterCrystals(money: nat): nat {
    money - CrystalCoins(money) * CRYSTAL % WRAP32
  }

  function PlatinumCoins(left: nat): nat {
    left / PLATINUM % WRAP16
  }

  /** The worth of the platinum and gold coins made for what is left. */
  function SmallCoins(left: nat): nat {
    var rest := left - PlatinumCoins(left) * PLATINUM;
    PLATINUM * (PlatinumCoins(left) % WRAP8) + if rest == 0 then 0 else ItemCount(rest)
  }

  /** The worth of the coins that addMoney makes. */
  function Created(money: nat): nat {
    CRYSTAL * CrystalCoins(money) + SmallCoins(AfterCrystals(money))
  }

  lemma {:induction false} SmallCoinsAreExact(left: nat)
    requires left < CRYSTAL
    ensures SmallCoins(left) == left && PlatinumCoins(left) < STACK_MAX
            && left - PlatinumCoins(left) * PLATINUM < STACK_MAX
  {
  }

  lemma {:induction false} SmallCountsFit(left: nat)
    requires left < CRYSTAL
    ensures PlatinumCoins(left) % WRAP8 <= STACK_MAX && 0 <= left - PlatinumCoins(left) * PLATINUM
    ensures ItemCount(left - PlatinumCoins(left) * PLATINUM) <= STACK_MAX
  {
    SmallCoinsAreExact(left);
  }

  lemma {:induction false} NoCrystals(money: nat)
    requires money < CRYSTAL
    ensures CrystalCoins(money) == 0 && AfterCrystals(money) == money
  {
  }

  /** Any smaller amount is paid out exactly. */
  lemma {:induction false} CreatedIsExact(money: nat)
    requires money < EXACT_BELOW
    ensures Created(money) == money && AfterCrystals(money) < CRYSTAL && PaidExactly(money)
  {
    assert CrystalCoins(money) == money / CRYSTAL && money / CRYSTAL * CRYSTAL < WRAP32;
    SmallCoinsAreExact(AfterCrystals(money));
  }

  /**
   From there on only a few amounts are exact: those whose crystal coins overflow by a multiple of 25,
   unless no single gold coin is owed, for then the platinum coins' overflow makes one.
   */
  predicate PaidExactly(money: nat) {
    var worth := money / CRYSTAL * CRYSTAL;
    money < CRYSTAL * WRAP32 && (worth < WRAP32 || (worth / WRAP32 % 25 == 0 && money % PLATINUM != 0))
  }

  lemma {:induction false} CreatedIsExactIff(money: nat)
    ensures Created(money) == money <==> PaidExactly(money)
  {
    if money >= CRYSTAL * WRAP32 {
      TooManyCrystals(money);
    } else if money < EXACT_BELOW {
      CreatedIsExact(money);
    } else {
      var q, r := money / CRYSTAL, money % CRYSTAL;
      var k, low := CRYSTAL * q / WRAP32, CRYSTAL * q % WRAP32;
      assert money == CRYSTAL * q + r && CRYSTAL * q == WRAP32 * k + low && k >= 1;
      Overflow(money, q, r, k, low);
    }
  }

  lemma {:induction false} Overflow(money: nat, q: nat, r: nat, k: nat, low: nat)
    requires q < WRAP32 && money == CRYSTAL * q + r && r < CRYSTAL
    requires CRYSTAL * q == WRAP32 * k + low && low < WRAP32 && k >= 1
    ensures Created(money) == money <==> PaidExactly(money)
  {
    assert money / CRYSTAL == q && CRYSTAL * q / WRAP32 == k && CRYSTAL * q % WRAP32 == low;
    assert AfterCrystals(money) == WRAP32 * k + r;
    SmallCoinsAfterOverflow(k, r);
    Remainder(money, PLATINUM, PLATINUM * q + r / PLATINUM, r % PLATINUM);
  }

  lemma {:induction false} TooManyCrystals(money: nat)
    requires money >= CRYSTAL * WRAP32
    ensures Created(money) < money
  {
    var q := money / CRYSTAL;
    var c := CrystalCoins(money);
    assert c < WRAP32 && (q < WRAP32 + 3 ==> c < 3);
    assert SmallCoins(AfterCrystals(money)) <= PLATINUM * (WRAP8 - 1) + WRAP8;
  }

  /** More than the platinum coins can hold: their number and that of the gold coins wrap. */
  lemma {:induction false} SmallCoinsOfMuch(left: nat)
    requires left >= PLATINUM * WRAP16
    ensures SmallCoins(left)
            == PLATINUM * (left / PLATINUM % WRAP8) + if left % PLATINUM == 0 then 1 else left % PLATINUM
  {
    var n, g := left / PLATINUM, left % PLATINUM;
    var t, p := n / WRAP16, n % WRAP16;
    assert left == PLATINUM * n + g && n == WRAP16 * t + p && t >= 1 && PlatinumCoins(left) == p;
    Remainder(n, WRAP8, WRAP8 * t + p / WRAP8, p % WRAP8);
    var rest := left - p * PLATINUM;
    assert rest == WRAP16 * (PLATINUM * t) + g;
    Remainder(rest, WRAP16, PLATINUM * t, g);
    assert ItemCount(rest) == if g == 0 then 1 else g;
  }

  lemma {:induction false} SmallCoinsAfterOverflow(k: nat, r: nat)
    requires k >= 1 && r < CRYSTAL
    ensures SmallCoins(WRAP32 * k + r) == r <==> k % 25 == 0 && r % PLATINUM != 0
  {
    var left := WRAP32 * k + r;
    SmallCoinsOfMuch(left);
    if k % 25 == 0 {
      // 25 times 2^32 is a multiple of 100 * 2^16
      var n := 0x4000_0000 * (k / 25) + r / PLATINUM;
      Remainder(left, PLATINUM, n, r % PLATINUM);
      Remainder(n, WRAP8, 0x40_0000 * (k / 25), r / PLATINUM);
    } else {
      // 2^32 is 96 modulo 100
      GoldDiffers(k, r);
    }
  }

  lemma {:induction false} GoldDiffers(k: nat, r: nat)
    requires k % 25 != 0
    ensures var g := (WRAP32 * k + r) % PLATINUM;
            r % PLATINUM != if g == 0 then 1 else g
  {
    var j, m := k / 25, k % 25;
    // 96 times m is 100 - 4 * m modulo 100
    var z, y := PLATINUM - 4 * m, r % PLATINUM;
    var n := 42949672 * k + 24 * j + (m - 1) + r / PLATINUM;
    assert k == 25 * j + m && r == PLATINUM * (r / PLATINUM) + y;
    assert WRAP32 * k + r == PLATINUM * n + (z + y);
    if z + y < PLATINUM {
      Remainder(WRAP32 * k + r, PLATINUM, n, z + y);
    } else {
      Remainder(WRAP32 * k + r, PLATINUM, n + 1, z + y - PLATINUM);
    }
  }

  /** The first amount that is not exact is paid out with too many coins. */
  lemma {:induction false} CreatedTooMuch()
    ensures Created(EXACT_BELOW) == EXACT_BELOW + 4096 && !PaidExactly(EXACT_BELOW)
  {
    assert AfterCrystals(EXACT_BELOW) == WRAP32;
    SmallCoinsOfMuch(WRAP32);
  }

  // ----- coins that are lost

  /** The worth that addMoney loses of less than a crystal coin; platinum coins come first, and may take a place. */
  ghost function LostChange(stacks: seq<Stack>, room: nat, offeredRoom: nat, amount: nat): nat {
    var p, rest := PlatinumCoins(amount) % WRAP8, amount - PlatinumCoins(amount) * PLATINUM;
    var g := if rest == 0 then 0 else ItemCount(rest);
    var visible, hidden := RoomIn(stacks, PLATINUM, false), RoomIn(stacks, PLATINUM, true);
    var takesPlace := Accepted(visible, hidden, room, offeredRoom, p) && visible < p && room > 0;
    PLATINUM * LostOf(visible, hidden, room, offeredRoom, p)
    + LostOf(RoomIn(stacks, GOLD, false), RoomIn(stacks, GOLD, true),
             if takesPlace then room - 1 else room, offeredRoom, g)
  }

  ghost predicate NoneCheaper(stacks: seq<Stack>, worth: nat) {
    forall s :: s in stacks && GetWorth(s) > 0 ==> GetWorth(s) >= worth
  }

  /** Some stacks have been taken, and nothing else has changed. */
  ghost predicate OnlyEmptied(before: seq<Stack>, after: seq<Stack>) {
    |after| == |before| && forall i :: 0 <= i < |before| ==> after[i] == before[i] || after[i].count == 0
  }

  /** When an entry's turn comes, all that was worth less is gone. */
  lemma {:induction false} CheaperGone(entries: seq<Entry>, k: nat, before: seq<Stack>, now: seq<Stack>)
    requires k < |entries| && Entered(entries, before) && OnlyEmptied(before, now)
    requires forall i :: 0 <= i < |before| && GetWorth(before[i]) > 0 ==> Entry(GetWorth(before[i]), i) in entries
    requires forall m :: 0 <= m < k ==> now[entries[m].item].count == 0
    ensures NoneCheaper(now, entries[k].worth)
  {
    forall s | s in now && GetWorth(s) > 0 ensures GetWorth(s) >= entries[k].worth {
      var i :| 0 <= i < |now| && now[i] == s;
      var n :| 0 <= n < |entries| && entries[n] == Entry(GetWorth(before[i]), i);
      assert n >= k;
    }
  }

  /** A stack with room is worth less than one coin of the next kind. */
  lemma {:induction false} NoRoomLeft(stacks: seq<Stack>, unit: nat, worth: nat)
    requires NoneCheaper(stacks, worth) && unit > 0 && unit * STACK_MAX <= worth
    ensures RoomIn(stacks, unit, false) == 0
    decreases |stacks|
  {
    if stacks != [] {
      assert stacks[0] in stacks && forall s :: s in stacks[1..] ==> s in stacks;
      if HasRoom(stacks[0], unit, false) {
        TimesAtMost(unit, stacks[0].count, STACK_MAX - 1);
      }
      NoRoomLeft(stacks[1..], unit, worth);
    }
  }

  /**
   Change of a broken stack is never lost: whatever could have taken up the first of it is worth less than the
   stack, and so it has been paid with before.
   */
  lemma {:induction false} NoChangeLost(stacks: seq<Stack>, i: nat, change: nat, room: nat, offeredRoom: nat)
    requires i < |stacks| && Sound(stacks[i]) && GetWorth(stacks[i]) > 0 && NoneCheaper(stacks, GetWorth(stacks[i]))
    requires change < stacks[i].unit
    ensures LostChange(stacks, room, offeredRoom, change) == 0
  {
    var unit, worth := stacks[i].unit, GetWorth(stacks[i]);
    assert worth >= unit;
    if unit >= PLATINUM {
      NoRoomLeft(stacks, GOLD, worth);
    }
    if unit == CRYSTAL {
      NoRoomLeft(stacks, PLATINUM, worth);
    } else {
      assert change < PLATINUM && PlatinumCoins(change) == 0;
    }
  }

  class Purse {
    // the coin stacks anywhere below the cylinder, in the order in which the traversal meets them
    var stacks: seq<Stack>
    // the coins dropped on the tile
    var ground: seq<Stack>
    // how many more stacks fit, and how many into a bag that is offered, where none will be put
    var room: nat
    var offeredRoom: nat
    // the worth of the coins that were taken and put nowhere
    ghost var lost: nat

    constructor (stacks: seq<Stack>, room: nat, offeredRoom: nat)
      ensures this.stacks == stacks && ground == [] && this.room == room && this.offeredRoom == offeredRoom && lost == 0
    {
      this.stacks, ground, this.room, this.offeredRoom, lost := stacks, [], room, offeredRoom, 0;
    }

    ghost predicate Valid()
      reads this
    {
      forall s :: s in stacks ==> Sound(s)
    }

    ghost function Worth(): nat
      reads this
    {
      Total(stacks) + Total(ground)
    }

    /** A bag with coins or free places in it is being offered. */
    ghost predicate Offering()
      reads this
    {
      offeredRoom > 0 || exists s :: s in stacks && s.offered
    }

    /** internalAddItem finds a place for some of the coins, and counts room for all of them. */
    ghost predicate Accepts(unit: nat, count: nat)
      reads this
    {
      Accepted(RoomIn(stacks, unit, false), RoomIn(stacks, unit, true), room, offeredRoom, count)
    }

    /** The coins that AddCoins loses. */
    ghost function Lost(unit: nat, count: nat): nat
      reads this
    {
      LostOf(RoomIn(stacks, unit, false), RoomIn(stacks, unit, true), room, offeredRoom, count)
    }

    /** The multimap of removeMoney: after all entries that are worth as much. */
    static method Emplace(entries: seq<Entry>, e: Entry, ghost stacks: seq<Stack>) returns (more: seq<Entry>)
      requires Entered(entries, stacks) && e.item < |stacks| && e.worth == GetWorth(stacks[e.item]) > 0
      requires forall k :: 0 <= k < |entries| ==> entries[k].item < e.item
      ensures Entered(more, stacks) && TotalEntries(more) == TotalEntries(entries) + e.worth
      ensures forall k :: 0 <= k < |more| ==> more[k].item <= e.item
      ensures forall d :: d in more <==> d == e || d in entries
    {
      var k := |entries|;
      while k > 0 && entries[k - 1].worth > e.worth
        invariant 0 <= k <= |entries|
        invariant forall j :: k <= j < |entries| ==> entries[j].worth > e.worth
      {
        k := k - 1;
      }
      TotalEntriesInsert(entries, k, e);
      Inserted(entries, k, e, stacks);
      InsertedElements(entries, k, e);
      more := entries[..k] + [e] + entries[k..];
    }

    /** The scan for money; the worth of everything found is the worth of the purse. */
    method Scan() returns (moneyMap: seq<Entry>, moneyCount: nat)
      requires Valid()
      ensures Entered(moneyMap, stacks) && TotalEntries(moneyMap) == moneyCount == Total(stacks)
      ensures forall i :: 0 <= i < |stacks| && GetWorth(stacks[i]) > 0 ==> Entry(GetWorth(stacks[i]), i) in moneyMap
    {
      moneyMap, moneyCount := [], 0;
      for i := 0 to |stacks|
        invariant Scanned(moneyMap, moneyCount, i)
      {
        moneyMap, moneyCount := ScanOne(moneyMap, moneyCount, i);
      }
      assert stacks[..|stacks|] == stacks;
    }

    /** The first n stacks have been entered. */
    ghost predicate Scanned(moneyMap: seq<Entry>, moneyCount: nat, n: nat)
      requires n <= |stacks|
      reads this`stacks
    {
      && Entered(moneyMap, stacks) && TotalEntries(moneyMap) == moneyCount == Total(stacks[..n])
      && (forall k :: 0 <= k < |moneyMap| ==> moneyMap[k].item < n)
      && forall j :: 0 <= j < n && GetWorth(stacks[j]) > 0 ==> Entry(GetWorth(stacks[j]), j) in moneyMap
    }

    method ScanOne(moneyMap: seq<Entry>, moneyCount: nat, i: nat) returns (moneyMap': seq<Entry>, moneyCount': nat)
      requires i < |stacks| && Scanned(moneyMap, moneyCount, i)
      ensures Scanned(moneyMap', moneyCount', i + 1)
    {
      moneyMap', moneyCount' := moneyMap, moneyCount;
      var worth := GetWorth(stacks[i]);
      assert stacks[..i + 1] == stacks[..i] + [stacks[i]];
      TotalAppend(stacks[..i], stacks[i]);
      if worth != 0 {
        moneyCount' := moneyCount + worth;
        moneyMap' := Emplace(moneyMap, Entry(worth, i), stacks);
      }
    }

    /** Game::internalRemoveItem for some or all coins of a stack; where a whole stack was, there is room again. */
    method RemoveCoins(i: nat, count: nat)
      requires Valid() && i < |stacks| && count <= stacks[i].count
      modifies this`stacks, this`room, this`offeredRoom
      ensures room == old(room) + if 0 < count == old(stacks)[i].count && !old(stacks)[i].offered then 1 else 0
      ensures offeredRoom == old(offeredRoom) +
              if 0 < count == old(stacks)[i].count && old(stacks)[i].offered then 1 else 0
      ensures Valid() && stacks == old(stacks)[i := old(stacks)[i].(count := old(stacks)[i].count - count)]
      ensures Total(stacks) == old(Total(stacks)) - old(stacks)[i].unit * count
      ensures !old(Offering()) ==> !Offering()
    {
      var s := stacks[i];
      assert s in stacks;
      TotalUpdate(stacks, i, s.(count := s.count - count));
      assert s.unit * (s.count - count) == s.unit * s.count - s.unit * count;
      stacks := stacks[i := s.(count := s.count - count)];
      if 0 < count == s.count {
        if s.offered {
          offeredRoom := offeredRoom + 1;
        } else {
          room := room + 1;
        }
      }
    }

    /** Coins of other kinds are left alone, and no stack moves or shrinks. */
    twostate predicate OnlyAdds(unit: nat)
      reads this
    {
      && |old(stacks)| <= |stacks|
      && forall i :: 0 <= i < |old(stacks)| ==>
           stacks[i].unit == old(stacks)[i].unit && stacks[i].count >= old(stacks)[i].count
           && (old(stacks)[i].unit > unit || old(stacks)[i].count == 0 ==> stacks[i] == old(stacks)[i])
    }

    /**
      Game::internalAddItem into the cylinder, or onto the tile if not all of the coins fit. The room in a bag that
      is offered is counted, but nothing is put there.
      */
    method AddCoins(unit: nat, count: nat)
      requires Coin(unit)
      modifies this
      ensures Worth() + lost == old(Worth() + lost) + unit * count && lost == old(lost) + unit * old(Lost(unit, count))
      ensures OnlyAdds(unit) && (!old(Offering()) ==> !Offering() && lost == old(lost))
      ensures if old(Accepts(unit, count)) then ground == old(ground)
              else stacks == old(stacks) && ground == old(ground) + [Stack(unit, count, false)]
      ensures room == old(room) - (if old(Accepts(unit, count) && RoomIn(stacks, unit, false) < count && room > 0)
                                   then 1 else 0)
      ensures offeredRoom == old(offeredRoom) && OnlyUnit(unit)
      ensures old(Valid()) && count <= STACK_MAX ==> Valid()
    {
      var visible := StackRoom(unit, false);
      var hidden := StackRoom(unit, true);
      if !Offering() {
        NoneHidden(stacks, unit);
      }
      if (visible == 0 && room == 0) || visible + hidden + (room + offeredRoom) * STACK_MAX < count {
        TotalAppend(ground, Stack(unit, count, false));
        ground := ground + [Stack(unit, count, false)];
      } else {
        AddToStacks(unit, count);
      }
    }

    /** Stacks of other kinds are as they were, and the new ones are of this kind and not offered. */
    twostate predicate OnlyUnit(unit: nat)
      reads this
    {
      && |old(stacks)| <= |stacks|
      && (forall i :: 0 <= i < |old(stacks)| ==>
            && stacks[i].unit == old(stacks)[i].unit && stacks[i].offered == old(stacks)[i].offered
            && (stacks[i].unit != unit ==> stacks[i] == old(stacks)[i]))
      && forall i :: |old(stacks)| <= i < |stacks| ==> stacks[i].unit == unit && !stacks[i].offered
    }

    /** Stacks outside the bag are filled, and what is left gets a place of its own or is released. */
    method AddToStacks(unit: nat, count: nat)
      requires Coin(unit)
      modifies this`stacks, this`room, this`lost
      ensures Worth() + lost == old(Worth() + lost) + unit * count && OnlyAdds(unit) && OnlyUnit(unit)
      ensures var over := count - old(RoomIn(stacks, unit, false));
              if over <= 0 then room == old(room) && lost == old(lost)
              else if old(room) > 0 then room == old(room) - 1 && lost == old(lost)
              else room == 0 && lost == old(lost) + unit * over
      ensures old(Valid()) && count <= STACK_MAX ==> Valid()
    {
      var left := FillStacks(unit, count);
      if left > 0 {
        if room > 0 {
          TotalAppend(stacks, Stack(unit, left, false));
          stacks := stacks + [Stack(unit, left, false)];
          room := room - 1;
        } else {
          lost := lost + unit * left;
        }
      }
    }

    method StackRoom(unit: nat, offered: bool) returns (n: nat)
      ensures n == RoomIn(stacks, unit, offered)
    {
      n := 0;
      for i := 0 to |stacks|
        invariant n + RoomIn(stacks[i..], unit, offered) == RoomIn(stacks, unit, offered)
      {
        assert stacks[i..][1..] == stacks[i + 1..];
        if HasRoom(stacks[i], unit, offered) {
          n := n + (STACK_MAX - stacks[i].count);
        }
      }
    }

    /** Tops up the stacks of the same kind one after the other, but for those in the offered bag. */
    method FillStacks(unit: nat, count: nat) returns (left: nat)
      modifies this`stacks
      ensures left <= count && Total(stacks) == old(Total(stacks)) + unit * (count - left)
      ensures left == if count > old(RoomIn(stacks, unit, false)) then count - old(RoomIn(stacks, unit, false)) else 0
      ensures OnlyAdds(unit) && OnlyUnit(unit) && |stacks| == |old(stacks)| && (old(Valid()) ==> Valid())
    {
      left := count;
      ghost var before := stacks;
      for i := 0 to |stacks|
        invariant left <= count && Total(stacks) == old(Total(stacks)) + unit * (count - left)
        invariant var r := RoomIn(before[..i], unit, false); left == if count > r then count - r else 0
        invariant OnlyAdds(unit) && OnlyUnit(unit) && |stacks| == |before| && (old(Valid()) ==> Valid())
        invariant forall j :: i <= j < |stacks| ==> stacks[j] == before[j]
      {
        var s := stacks[i];
        assert before[..i + 1] == before[..i] + [s];
        RoomAppend(before[..i], s, unit, false);
        if HasRoom(s, unit, false) && left > 0 {
          left := TopUp(i, unit, left);
          Distribute(unit, count - (left + (stacks[i].count - s.count)), stacks[i].count - s.count);
        }
      }
      assert before[..|before|] == before;
    }

    method TopUp(i: nat, unit: nat, left: nat) returns (rest: nat)
      requires i < |stacks| && HasRoom(stacks[i], unit, false)
      modifies this`stacks
      ensures rest == if left > STACK_MAX - old(stacks)[i].count then left - (STACK_MAX - old(stacks)[i].count) else 0
      ensures stacks == old(stacks)[i := old(stacks)[i].(count := old(stacks)[i].count + (left - rest))]
      ensures Total(stacks) == old(Total(stacks)) + unit * (left - rest)
      ensures old(Valid()) ==> Valid()
    {
      var s := stacks[i];
      var n := if left < STACK_MAX - s.count then left else STACK_MAX - s.count;
      TotalUpdate(stacks, i, s.(count := s.count + n));
      Distribute(unit, s.count, n);
      assert s in stacks;
      stacks := stacks[i := s.(count := s.count + n)];
      rest := left - n;
    }

    /** The worth that is lost of an amount below one crystal coin. */
    ghost function ChangeLost(amount: nat): nat
      reads this
    {
      LostChange(stacks, room, offeredRoom, amount)
    }

    /** Game::addMoney. */
    method AddMoney(money: nat)
      modifies this
      ensures Worth() + lost == old(Worth() + lost) + Created(money)
      ensures money < CRYSTAL ==> lost == old(lost) + old(ChangeLost(money))
      ensures OnlyAdds(money) && lost >= old(lost) && (!old(Offering()) ==> !Offering() && lost == old(lost))
      ensures old(Valid()) && money < EXACT_BELOW ==> Valid()
    {
      if money == 0 {
        return;
      }
      if money < EXACT_BELOW {
        CreatedIsExact(money);
      }
      if money < CRYSTAL {
        NoCrystals(money);
      }
      AddCrystals(CrystalCoins(money), money);
      AddSmallCoins(AfterCrystals(money), money);
    }

    method AddSmallCoins(amount: nat, ghost money: nat)
      requires 0 < amount <= money || amount == 0
      modifies this
      ensures Worth() + lost == old(Worth() + lost) + SmallCoins(amount)
      ensures lost == old(lost) + old(ChangeLost(amount))
      ensures OnlyAdds(money) && (!old(Offering()) ==> !Offering() && lost == old(lost))
      ensures old(Valid()) && amount < CRYSTAL ==> Valid()
    {
      if amount < CRYSTAL {
        SmallCountsFit(amount);
      }
      var left := AddPlatinum(amount);
      if left != 0 {
        AddCoins(GOLD, ItemCount(left));
      }
    }

    method AddPlatinum(amount: nat) returns (left: nat)
      modifies this
      ensures left == amount - PlatinumCoins(amount) * PLATINUM
      ensures var p := PlatinumCoins(amount) % WRAP8;
              && Worth() + lost == old(Worth() + lost) + PLATINUM * p
              && lost == old(lost) + PLATINUM * old(Lost(PLATINUM, p))
              && room == old(room) - (if old(Accepts(PLATINUM, p) && RoomIn(stacks, PLATINUM, false) < p && room > 0)
                                      then 1 else 0)
      ensures offeredRoom == old(offeredRoom)
      ensures RoomIn(stacks, GOLD, false) == old(RoomIn(stacks, GOLD, false))
              && RoomIn(stacks, GOLD, true) == old(RoomIn(stacks, GOLD, true))
      ensures OnlyAdds(PLATINUM) && (amount < PLATINUM ==> OnlyAdds(0))
              && (!old(Offering()) ==> !Offering() && lost == old(lost))
      ensures old(Valid()) && PlatinumCoins(amount) % WRAP8 <= STACK_MAX ==> Valid()
    {
      left := amount;
      var platinumCoins := PlatinumCoins(left);
      if platinumCoins != 0 {
        AddCoins(PLATINUM, platinumCoins % WRAP8);
        RoomSame(old(stacks), stacks, GOLD, false);
        RoomSame(old(stacks), stacks, GOLD, true);
        left := left - platinumCoins * PLATINUM;
      }
    }

    /** The loop of addMoney: stacks of a hundred, and one with the rest. */
    method AddCrystals(crystals: nat, ghost money: nat)
      requires crystals > 0 ==> money >= CRYSTAL
      modifies this
      ensures Worth() + lost == old(Worth() + lost) + CRYSTAL * crystals
      ensures crystals == 0 ==> unchanged(this)
      ensures OnlyAdds(money) && (old(Valid()) ==> Valid()) && lost >= old(lost)
      ensures !old(Offering()) ==> !Offering() && lost == old(lost)
    {
      var crystalCoins: nat := crystals;
      while crystalCoins > 0
        invariant crystalCoins <= crystals
        invariant Worth() + lost == old(Worth() + lost) + CRYSTAL * (crystals - crystalCoins)
        invariant crystals == 0 ==> unchanged(this)
        invariant OnlyAdds(money) && (old(Valid()) ==> Valid()) && lost >= old(lost)
        invariant !old(Offering()) ==> !Offering() && lost == old(lost)
      {
        var count := if crystalCoins < 100 then crystalCoins else 100;
        AddCoins(CRYSTAL, count);
        crystalCoins := crystalCoins - count;
      }
    }

    /** No stack but the one given shrinks, and empty places stay empty. */
    twostate predicate NoneSmaller(but: nat)
      reads this
    {
      && |old(stacks)| <= |stacks|
      && forall i :: 0 <= i < |old(stacks)| && i != but ==>
           stacks[i].count >= old(stacks)[i].count && (old(stacks)[i].count == 0 ==> stacks[i].count == 0)
    }

    /** Pays with part of a stack that is worth more, and gives change first. */
    method BreakStack(i: nat, money: nat) returns (removeCount: nat, ghost change: nat)
      requires Valid() && i < |stacks| && 0 < money < GetWorth(stacks[i])
      modifies this
      ensures Valid() && Worth() + lost == old(Worth() + lost) - money
      ensures 0 < removeCount <= old(stacks)[i].count && i < |stacks|
      ensures stacks[i] == old(stacks)[i].(count := old(stacks)[i].count - removeCount)
      ensures change == old(stacks)[i].unit * removeCount - money && change < old(stacks)[i].unit
      ensures lost == old(lost) + old(ChangeLost(change))
      ensures NoneSmaller(i) && (!old(Offering()) ==> !Offering() && lost == old(lost))
    {
      var s := stacks[i];
      assert s in stacks;
      var worth := GetWorth(s) / s.count;
      UnitOf(s.unit, s.count);
      removeCount := (money + worth - 1) / worth;
      Ceiling(money, worth, s.count);
      change := worth * removeCount - money;
      AddMoney(worth * removeCount - money);
      CreatedIsExact(worth * removeCount - money);
      RemoveCoins(i, removeCount);
    }

    /** Game::removeMoney. */
    method RemoveMoney(money: nat) returns (paid: bool)
      requires Valid()
      modifies this
      ensures Valid()
      ensures paid <==> money <= old(Total(stacks))
      ensures Worth() == old(Worth()) - (if paid then money else 0) && lost == old(lost)
      ensures !paid ==> stacks == old(stacks) && ground == old(ground)
      ensures paid ==> SmallestFirst(old(stacks), stacks)
    {
      if money == 0 {
        return true;
      }
      var moneyMap, moneyCount := Scan();
      if moneyCount < money {
        return false;
      }
      ghost var k := PayAll(moneyMap, money);
      TakenInOrder(moneyMap, k, old(stacks), stacks, true);
      return true;
    }

    /** The loop of removeMoney. */
    method PayAll(moneyMap: seq<Entry>, money: nat) returns (ghost used: nat)
      requires Valid() && Entered(moneyMap, stacks) && TotalEntries(moneyMap) >= money
      requires forall i :: 0 <= i < |stacks| && GetWorth(stacks[i]) > 0 ==> Entry(GetWorth(stacks[i]), i) in moneyMap
      modifies this
      ensures Valid() && Worth() == old(Worth()) - money && lost == old(lost)
      ensures used <= |moneyMap| && TakenUpTo(moneyMap, used, old(stacks), stacks, true)
    {
      var left: nat, k: nat := money, 0;
      assert moneyMap[0..] == moneyMap;
      while k < |moneyMap| && left > 0
        invariant k <= |moneyMap| && Valid()
        invariant left > 0 ==> Entered(moneyMap[k..], stacks) && TotalEntries(moneyMap[k..]) >= left
        invariant Worth() == old(Worth()) - (money - left) && lost == old(lost)
        invariant left > 0 ==> OnlyEmptied(old(stacks), stacks)
        invariant TakenUpTo(moneyMap, k, old(stacks), stacks, left == 0)
      {
        left := PayNext(moneyMap, k, left, old(stacks));
        k := k + 1;
      }
      used := k;
    }

    /** One entry more, seen from the start of the loop. */
    method PayNext(moneyMap: seq<Entry>, k: nat, money: nat, ghost before: seq<Stack>) returns (left: nat)
      requires Valid() && k < |moneyMap| && Entered(moneyMap[k..], stacks) && TotalEntries(moneyMap[k..]) >= money > 0
      requires Entered(moneyMap, before) && OnlyEmptied(before, stacks) && TakenUpTo(moneyMap, k, before, stacks, false)
      requires forall i :: 0 <= i < |before| && GetWorth(before[i]) > 0 ==> Entry(GetWorth(before[i]), i) in moneyMap
      modifies this
      ensures Valid() && left <= money && Worth() == old(Worth()) - (money - left) && lost == old(lost)
      ensures left > 0 ==> Entered(moneyMap[k + 1..], stacks) && TotalEntries(moneyMap[k + 1..]) >= left
      ensures left > 0 ==> OnlyEmptied(before, stacks)
      ensures TakenUpTo(moneyMap, k + 1, before, stacks, left == 0)
    {
      ghost var mid := stacks;
      assert moneyMap[k..][0] == moneyMap[k];
      CheaperGone(moneyMap, k, before, stacks);
      left := Pay(moneyMap, k, money);
      TakenNext(moneyMap, k, before, mid, stacks, left == 0);
    }

    /** The loop body of removeMoney; nothing left to pay ends the loop. */
    method Pay(moneyMap: seq<Entry>, k: nat, money: nat) returns (left: nat)
      requires Valid() && k < |moneyMap| && Entered(moneyMap[k..], stacks) && TotalEntries(moneyMap[k..]) >= money > 0
      requires NoneCheaper(stacks, moneyMap[k].worth)
      modifies this
      ensures Valid() && left <= money && Worth() == old(Worth()) - (money - left) && lost == old(lost)
      ensures left > 0 ==> OnlyEmptied(old(stacks), stacks)
      ensures left > 0 ==> Entered(moneyMap[k + 1..], stacks) && TotalEntries(moneyMap[k + 1..]) >= left
      ensures moneyMap[k].item < |old(stacks)| && NoneSmaller(moneyMap[k].item)
      ensures left > 0 ==> stacks[moneyMap[k].item].count == 0
    {
      var entry := moneyMap[k];
      Next(moneyMap, k, stacks);
      left := 0;
      if entry.worth < money {
        RemoveCoins(entry.item, stacks[entry.item].count);
        left := money - entry.worth;
      } else if entry.worth > money {
        var removeCount;
        ghost var change;
        removeCount, change := BreakStack(entry.item, money);
        NoChangeLost(old(stacks), entry.item, change, old(room), old(offeredRoom));
      } else {
        RemoveCoins(entry.item, stacks[entry.item].count);
      }
    }
  }

  /** A stack loses coins only after every stack that is worth less is gone. */
  ghost predicate SmallestFirst(before: seq<Stack>, after: seq<Stack>) {
    && |before| <= |after|
    && forall i, j ::
         0 <= i < |before| && 0 <= j < |before| && 0 < GetWorth(before[i]) < GetWorth(before[j])
         && after[j].count < before[j].count
         ==> after[i].count == 0
  }

  /** Only the first k entries have lost coins, and all of them are gone but perhaps the last. */
  ghost predicate TakenUpTo(entries: seq<Entry>, k: nat, before: seq<Stack>, after: seq<Stack>, done: bool)
    requires k <= |entries|
  {
    && |before| <= |after|
    && (forall i :: 0 <= i < |entries| ==> entries[i].item < |before|)
    && (forall i :: 0 <= i < |before| && after[i].count < before[i].count ==>
          exists m :: 0 <= m < k && entries[m].item == i)
    && forall m :: 0 <= m < k && (m < k - 1 || !done) ==> after[entries[m].item].count == 0
  }

  lemma {:induction false} TakenNext(entries: seq<Entry>, k: nat, before: seq<Stack>, mid: seq<Stack>,
                                     after: seq<Stack>, done: bool)
    requires k < |entries| && TakenUpTo(entries, k, before, mid, false)
    requires |mid| <= |after|
    requires forall i :: 0 <= i < |mid| && i != entries[k].item ==>
               after[i].count >= mid[i].count && (mid[i].count == 0 ==> after[i].count == 0)
    requires done || after[entries[k].item].count == 0
    requires forall m :: 0 <= m < k ==> entries[m].item != entries[k].item
    ensures TakenUpTo(entries, k + 1, before, after, done)
  {
    forall i | 0 <= i < |before| && after[i].count < before[i].count
      ensures exists m :: 0 <= m < k + 1 && entries[m].item == i
    {
      if i != entries[k].item {
        assert mid[i].count < before[i].count;
      }
    }
  }

  lemma {:induction false} TakenInOrder(entries: seq<Entry>, k: nat, before: seq<Stack>, after: seq<Stack>, done: bool)
    requires k <= |entries| && TakenUpTo(entries, k, before, after, done) && Entered(entries, before)
    requires forall i :: 0 <= i < |before| && GetWorth(before[i]) > 0 ==> Entry(GetWorth(before[i]), i) in entries
    ensures SmallestFirst(before, after)
  {
    forall i, j | 0 <= i < |before| && 0 <= j < |before| && 0 < GetWorth(before[i]) < GetWorth(before[j])
                  && after[j].count < before[j].count
      ensures after[i].count == 0
    {
      var m :| 0 <= m < k && entries[m].item == j;
      var n :| 0 <= n < |entries| && entries[n] == Entry(GetWorth(before[i]), i);
      assert m < n ==> entries[m].worth <= entries[n].worth;
    }
  }

  /** The first entry names a stack that none of the others names. */
  lemma {:induction false} Next(entries: seq<Entry>, k: nat, stacks: seq<Stack>)
    requires k < |entries| && Entered(entries[k..], stacks)
    ensures TotalEntries(entries[k..]) == entries[k].worth + TotalEntries(entries[k + 1..])
    ensures entries[k].item < |stacks| && entries[k].worth == GetWorth(stacks[entries[k].item])
    ensures Entered(entries[k + 1..], stacks[entries[k].item := stacks[entries[k].item].(count := 0)])
  {
    var item, rest := entries[k].item, entries[k + 1..];
    assert entries[k..][0] == entries[k] && entries[k..][1..] == rest;
    forall j | 0 <= j < |rest| ensures rest[j] == entries[k..][j + 1] {
    }
  }

  lemma {:induction false} UnitOf(unit: nat, count: nat)
    requires count > 0
    ensures unit * count / count == unit
  {
    var q, r := unit * count / count, unit * count % count;
    assert count * (unit - q) == r;
    NoMultipleBetween(count, unit - q);
  }

  /** Enough coins to pay, none too many: the change is worth less than one of them. */
  lemma {:induction false} Ceiling(money: nat, worth: nat, count: nat)
    requires worth > 0 && 0 < money < worth * count
    ensures var n := (money + worth - 1) / worth; n <= count && money <= worth * n < money + worth
  {
    var n := (money + worth - 1) / worth;
    assert money + worth - 1 == worth * n + (money + worth - 1) % worth;
    assert n > count ==> worth * n >= worth * (count + 1);
  }

  /**
   A player who is offering a bag with a free place gets thirty gold: ten go onto a stack of ninety, and the
   rest is lost.
   */
  method TwentyLost() returns (purse: Purse)
    ensures purse.Worth() == 100 && purse.lost == 20
  {
    var stacks := [Stack(GOLD, 90, false)];
    purse := new Purse(stacks, 0, 1);
    assert stacks[1..] == [];
    assert RoomIn(stacks, GOLD, false) == 10 && RoomIn(stacks, GOLD, true) == 0 && RoomIn(stacks, PLATINUM, false) == 0;
    assert LostChange(stacks, 0, 1, 30) == 20;
    assert purse.Worth() == 90;
    CreatedIsExact(30);
    purse.AddMoney(30);
  }
}
