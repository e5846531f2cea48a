/**
 The trade handshake between two players: offers, acceptance, exchange and cancelling.
 */
module Trade {
  import opened Forest
  import ItemMoves
  import Linked = ItemTree
  import opened TradeMoves

  type ItemId = nat

  /** An item with what is inside it. */
  type ItemTree = t: Tree<ItemId> | WellFormed(t) witness Node(0, false, [])

  const MAX_ITEMS := 100

  datatype TradeState = NoTrade | Initiated | Accepted | Acknowledged | Transferring

  datatype Offer = Nothing | Offered(item: ItemId)

  class Player {
    var tradeState: TradeState
    var tradePartner: Player?
    var tradeItem: Offer
    // the partner's offer when this player last accepted
    ghost var seen: Offer

    constructor ()
      ensures tradeState == NoTrade && tradePartner == null && tradeItem == Nothing
    {
      tradeState, tradePartner, tradeItem := NoTrade, null, Nothing;
    }
  }

  /** The partner, if there is one. */
  function PartnerOf(player: Player): set<Player>
    reads player`tradePartner
  {
    if player.tradePartner == null then {} else {player.tradePartner}
  }

  class Game {
    // what is inside each item; this does not change while offers stand
    const contents: ItemId -> ItemTree
    var tradeItems: map<ItemId, Player>
    var toRelease: seq<ItemId>
    ghost var players: set<Player>
    // references taken when offers were made
    ghost var taken: multiset<ItemId>

    constructor (contents: ItemId -> ItemTree)
      ensures Valid() && players == {} && tradeItems == map[] && this.contents == contents
    {
      this.contents := contents;
      tradeItems, toRelease, players, taken := map[], [], {}, multiset{};
    }

    ghost predicate Holds(i: ItemId, j: ItemId) {
      Contains(contents(i).kids, j)
    }

    /** Partners are partners of each other, and between them is an offer. */
    ghost predicate Paired()
      reads this`players, players`tradeState, players`tradePartner, players`tradeItem
    {
      forall p :: p in players ==>
        && (p.tradeState == NoTrade <==> p.tradePartner == null) && p.tradeState != Transferring
        && (p.tradeState == NoTrade || p.tradeState == Acknowledged ==> p.tradeItem == Nothing)
        && (p.tradeState == Initiated ==> p.tradeItem != Nothing)
        && (p.tradePartner != null ==>
              var q := p.tradePartner;
              q in players && q != p && q.tradePartner == p && (p.tradeItem != Nothing || q.tradeItem != Nothing))
    }

    /** An offer that was there when the partner accepted is still there. */
    ghost predicate Recorded()
      reads this`players, players`tradeState, players`tradePartner, players`tradeItem, players`seen
    {
      forall p :: p in players && p.tradeState == Accepted && p.tradePartner in players && p.seen != Nothing ==>
                    p.seen == p.tradePartner.tradeItem
    }

    /** The map holds exactly the offered items with those who offer them. */
    ghost predicate Registered()
      reads this`tradeItems, this`players, players`tradeItem
    {
      RegisteredIn(tradeItems)
    }

    ghost predicate RegisteredIn(offers: map<ItemId, Player>)
      reads this`players, players`tradeItem
    {
      && (forall i :: i in offers ==> offers[i] in players && offers[i].tradeItem == Offered(i))
      && forall p :: p in players && p.tradeItem != Nothing ==>
        p.tradeItem.item in offers && offers[p.tradeItem.item] == p
    }

    /** No offered item is inside another. */
    ghost predicate Apart()
      reads this`tradeItems
    {
      forall i, j :: i in tradeItems && j in tradeItems ==> i == j || !Holds(i, j)
    }

    /** Each reference taken for an offer has been given back once, or the offer still stands. */
    ghost predicate Balanced()
      reads this`tradeItems, this`taken, this`toRelease
    {
      forall i :: taken[i] == multiset(toRelease)[i] + if i in tradeItems then 1 else 0
    }

    ghost predicate Valid()
      reads this`tradeItems, this`toRelease, this`taken, this`players
      reads players`tradeState, players`tradePartner, players`tradeItem, players`seen
    {
      Paired() && Recorded() && Registered() && Apart() && Balanced()
    }

    method AddPlayer() returns (p: Player)
      requires Valid()
      modifies this`players
      ensures Valid() && fresh(p) && players == old(players) + {p} && p.tradeState == NoTrade
    {
      p := new Player();
      players := players + {p};
    }

    /** The item is not in any offer, and none is inside it. */
    ghost predicate Unrelated(item: ItemId)
      reads this`tradeItems
    {
      forall i :: i in tradeItems ==> i != item && !Holds(item, i) && !Holds(i, item)
    }

    /** The tests of playerRequestTrade against what is already being traded. */
    method CanOffer(item: ItemId) returns (ok: bool)
      requires Valid()
      ensures ok <==> Unrelated(item)
    {
      var left := tradeItems.Keys;
      while left != {}
        invariant left <= tradeItems.Keys
        invariant forall i :: i in tradeItems && i !in left ==> i != item && !Holds(item, i) && !Holds(i, item)
        decreases left
      {
        var i :| i in left;
        left := left - {i};
        if i == item {
          return false;
        }
        if contents(item).isContainer {
          var inside := IsHoldingItem(contents(item), i);
          if inside { return false; }
        }
        if contents(i).isContainer {
          var inside := IsHoldingItem(contents(i), item);
          if inside { return false; }
        }
        NothingInside(contents(item), i);
        NothingInside(contents(i), item);
      }
      return true;
    }

    /** Game::playerRequestTrade, given that the partner and the item can be reached and the item can be traded. */
    method RequestTrade(player: Player, tradePartner: Player, item: ItemId) returns (ok: bool)
      requires Valid() && player in players && tradePartner in players
      modifies this`tradeItems, this`taken, player, tradePartner
      ensures Valid()
      ensures ok <==>
                player != tradePartner && old(Free(player, tradePartner)) && old(Unrelated(item))
                && (contents(item).isContainer ==> Size(contents(item).kids) + 1 <= MAX_ITEMS)
      ensures old(player.tradeItem) != Nothing ==> !ok
      ensures ok ==> StartedBy(player, tradePartner, item)
      ensures !ok ==> tradeItems == old(tradeItems) && unchanged(player) && unchanged(tradePartner)
    {
      if tradePartner == player {
        return false;
      }
      ok := CanOffer(item);
      if !ok {
        return;
      }
      if contents(item).isContainer {
        var count := GetItemHoldingCount(contents(item));
        if count + 1 > MAX_ITEMS {
          return false;
        }
      }
      ok := InternalStartTrade(player, tradePartner, item);
    }

    /** Neither is busy with somebody else, and the player has not made an offer yet. */
    ghost predicate Free(player: Player, tradePartner: Player)
      reads player, tradePartner
    {
      && (player.tradeState == NoTrade || (player.tradeState == Acknowledged && player.tradePartner == tradePartner))
      && (tradePartner.tradeState == NoTrade || tradePartner.tradePartner == player)
    }

    twostate predicate StartedBy(player: Player, tradePartner: Player, item: ItemId)
      reads this, player, tradePartner
    {
      tradeItems == old(tradeItems)[item := player] && item !in old(tradeItems)
        && EngagedWith(player, tradePartner, item)
    }

    method InternalStartTrade(player: Player, tradePartner: Player, item: ItemId) returns (ok: bool)
      requires Valid() && player in players && tradePartner in players && player != tradePartner && Unrelated(item)
      modifies this`tradeItems, this`taken, player, tradePartner
      ensures Valid() && (ok <==> old(Free(player, tradePartner)))
      ensures ok ==> StartedBy(player, tradePartner, item)
      ensures !ok ==> tradeItems == old(tradeItems) && unchanged(player) && unchanged(tradePartner)
    {
      if player.tradeState != NoTrade && !(player.tradeState == Acknowledged && player.tradePartner == tradePartner) {
        return false;
      } else if tradePartner.tradeState != NoTrade && tradePartner.tradePartner != player {
        return false;
      }
      Engage(player, tradePartner, item, tradeItems);
      Register(player, item);
      return true;
    }

    /** Takes a reference for a new offer. */
    method Register(player: Player, item: ItemId)
      requires Apart() && Balanced() && Unrelated(item)
      modifies this`tradeItems, this`taken
      ensures Apart() && Balanced() && tradeItems == old(tradeItems)[item := player]
    {
      taken := taken[item := taken[item] + 1];
      tradeItems := tradeItems[item := player];
    }

    /** The player has made an offer, and the partner knows of it. */
    method Engage(player: Player, tradePartner: Player, item: ItemId, ghost offered: map<ItemId, Player>)
      requires Paired() && Recorded() && RegisteredIn(offered) && item !in offered
      requires player in players && tradePartner in players && player != tradePartner && Free(player, tradePartner)
      modifies player, tradePartner
      ensures Paired() && Recorded() && RegisteredIn(offered[item := player]) && EngagedWith(player, tradePartner, item)
    {
      Pair(player, tradePartner, item);
    }

    twostate predicate EngagedWith(player: Player, tradePartner: Player, item: ItemId)
      reads player, tradePartner
    {
      && player.tradeState == Initiated && player.tradePartner == tradePartner && player.tradeItem == Offered(item)
      && tradePartner.tradePartner == player && tradePartner.tradeItem == old(tradePartner.tradeItem)
      && tradePartner.seen == old(tradePartner.seen)
      && tradePartner.tradeState == if old(tradePartner.tradeState) == NoTrade then Acknowledged
        else old(tradePartner.tradeState)
    }

    method Pair(player: Player, tradePartner: Player, item: ItemId)
      requires Paired() && Recorded()
      requires player in players && tradePartner in players && player != tradePartner && Free(player, tradePartner)
      modifies player, tradePartner
      ensures Paired() && Recorded() && EngagedWith(player, tradePartner, item)
    {
      player.tradePartner, player.tradeItem, player.tradeState := tradePartner, Offered(item), Initiated;
      if tradePartner.tradeState == NoTrade {
        tradePartner.tradeState, tradePartner.tradePartner := Acknowledged, player;
      }
    }

    ghost function ItemsOf(o: Offer): set<ItemId> {
      if o.Offered? then {o.item} else {}
    }

    /** Both are free again, and their offers, and no others, are gone and given back. */
    twostate predicate EndedFor(player: Player, tradePartner: Player)
      reads this, player, tradePartner
    {
      && tradeItems == old(tradeItems) - (ItemsOf(old(player.tradeItem)) + ItemsOf(old(tradePartner.tradeItem)))
      && player.tradeState == NoTrade && tradePartner.tradeState == NoTrade
    }

    /** Gives back the reference of an offer; the player is still to forget it. */
    method ReleaseOffer(o: Offer)
      requires Balanced() && (o.Offered? ==> o.item in tradeItems)
      modifies this`tradeItems, this`toRelease
      ensures Balanced() && tradeItems == old(tradeItems) - ItemsOf(o)
    {
      if o.Offered? {
        toRelease := toRelease + [o.item];
        tradeItems := tradeItems - {o.item};
      }
    }

    /** Gives back the references of both offers. */
    method ReleaseBoth(o: Offer, o': Offer)
      requires Balanced() && (o.Offered? ==> o.item in tradeItems) && (o'.Offered? ==> o'.item in tradeItems)
      requires o.Offered? && o'.Offered? ==> o != o'
      modifies this`tradeItems, this`toRelease
      ensures Balanced() && tradeItems == old(tradeItems) - (ItemsOf(o) + ItemsOf(o'))
    {
      ReleaseOffer(o);
      ReleaseOffer(o');
    }

    /** Two partners whose offers have been given back are free again. */
    method Part(player: Player, tradePartner: Player, ghost offered: map<ItemId, Player>)
      requires Paired() && Recorded() && Apart() && Balanced()
      requires player in players && tradePartner in players && player.tradePartner == tradePartner
      requires RegisteredIn(offered)
      requires tradeItems == offered - (ItemsOf(player.tradeItem) + ItemsOf(tradePartner.tradeItem))
      modifies player, tradePartner
      ensures Valid() && player.tradeState == NoTrade && tradePartner.tradeState == NoTrade
    {
      Separate(player, tradePartner);
    }

    method Separate(player: Player, tradePartner: Player)
      requires Paired() && Recorded() && player in players && tradePartner in players
               && player.tradePartner == tradePartner
      modifies player, tradePartner
      ensures Paired() && Recorded() && player.tradeState == NoTrade && tradePartner.tradeState == NoTrade
    {
      player.tradeItem, player.tradeState, player.tradePartner := Nothing, NoTrade, null;
      tradePartner.tradeItem, tradePartner.tradeState, tradePartner.tradePartner := Nothing, NoTrade, null;
    }

    /** Game::internalCloseTrade. */
    method CloseTrade(player: Player)
      requires Valid() && player in players
      modifies this`tradeItems, this`toRelease, player, PartnerOf(player)
      ensures Valid() && player.tradeState == NoTrade
      ensures old(player.tradePartner) == null ==> tradeItems == old(tradeItems)
      ensures old(player.tradePartner) != null ==> EndedFor(player, old(player.tradePartner))
    {
      var tradePartner := player.tradePartner;
      if tradePartner == null {
        ReleaseOffer(player.tradeItem);
      } else {
        ReleaseBoth(player.tradeItem, tradePartner.tradeItem);
        Part(player, tradePartner, old(tradeItems));
      }
    }

    /**
      Game::playerAcceptTrade; whether the partner can be reached, whether the event agrees, and which of the two
      items can be moved are parameters. The first to accept gains what the partner offered at that time exactly if
      the partner had made an offer at all. The last to accept may get nothing for what they give.
      */
    method AcceptTrade(player: Player, canReach: bool, eventAgrees: bool, moved: Moved) returns (outcome: Outcome)
      requires Valid() && player in players
      modifies this`tradeItems, this`toRelease, player, PartnerOf(player)
      ensures Valid()
      ensures outcome == OutcomeOf(old(ViewOf(player)), canReach, eventAgrees, moved)
      ensures outcome == Refused ==> tradeItems == old(tradeItems) && unchanged(player)
      ensures outcome == Agreed ==>
                tradeItems == old(tradeItems) && player.tradeState == Accepted
                && player.tradePartner == old(player.tradePartner) && player.tradeItem == old(player.tradeItem)
                && player.seen == old(player.tradePartner.tradeItem)
      ensures outcome.Given? ==>
                var partner := old(player.tradePartner);
                && Offered(outcome.owed) == old(partner.tradeItem) && old(partner.tradeState) == Accepted
                && (old(partner.seen) == Offered(outcome.given) <==> old(partner.seen) != Nothing)
      ensures (outcome == Refused || outcome == Agreed) && old(player.tradePartner) != null ==>
                unchanged(old(player.tradePartner))
      ensures outcome != Refused && outcome != Agreed ==> EndedFor(player, old(player.tradePartner))
    {
      if !(player.tradeState == Acknowledged || player.tradeState == Initiated) {
        return Refused;
      }
      var tradePartner := player.tradePartner;
      if !canReach {
        return Refused;
      }
      Agree(player);
      if tradePartner.tradeState != Accepted {
        return Agreed;
      }
      if !eventAgrees {
        CloseTrade(player);
        return Cancelled;
      }
      outcome := Exchange(player, tradePartner, moved);
    }

    /** Both have accepted: the offers are given back, and the items are moved if there are two and they can be. */
    method Exchange(player: Player, tradePartner: Player, moved: Moved) returns (outcome: Outcome)
      requires Valid() && player in players && player.tradePartner == tradePartner
      modifies this`tradeItems, this`toRelease, player, tradePartner
      ensures Valid() && EndedFor(player, tradePartner)
      ensures outcome == if old(player.tradeItem) == Nothing || old(tradePartner.tradeItem) == Nothing
              || moved == Neither then Failed
                         else Given(old(player.tradeItem).item, old(tradePartner.tradeItem).item, moved == Both)
    {
      var tradeItem1, tradeItem2 := player.tradeItem, tradePartner.tradeItem;
      ReleaseBoth(tradeItem1, tradeItem2);
      if tradeItem1 == Nothing || tradeItem2 == Nothing || moved == Neither {
        outcome := Failed;
      } else {
        outcome := Given(tradeItem1.item, tradeItem2.item, moved == Both);
      }
      Part(player, tradePartner, old(tradeItems));
    }

    method Agree(player: Player)
      requires Valid() && player in players && (player.tradeState == Acknowledged || player.tradeState == Initiated)
      modifies player`tradeState, player`seen
      ensures Valid() && player.tradeState == Accepted && player.seen == player.tradePartner.tradeItem
    {
      player.tradeState, player.seen := Accepted, player.tradePartner.tradeItem;
    }

    /** The reference of every offered item is still held, once, and none other. */
    lemma {:induction false} HeldWhileOffered(i: ItemId)
      requires Valid()
      ensures taken[i] - multiset(toRelease)[i] ==
              if exists p :: p in players && p.tradeItem == Offered(i) then 1 else 0
    {
      if i in tradeItems {
        assert tradeItems[i] in players && tradeItems[i].tradeItem == Offered(i);
      }
    }
  }

  /** What came of accepting: what the last to accept has given, what they were to get for it, and whether they did. */
  datatype Outcome = Refused | Agreed | Cancelled | Failed | Given(given: ItemId, owed: ItemId, gained: bool)

  /** Where two partners stand: their states and their offers. */
  datatype View = View(mine: TradeState, theirs: TradeState, offer: Offer, counterOffer: Offer)

  function ViewOf(player: Player): View
    reads player`tradeState, player`tradePartner, player`tradeItem
    reads PartnerOf(player)`tradeState, PartnerOf(player)`tradeItem
  {
    if player.tradePartner == null then View(player.tradeState, NoTrade, player.tradeItem, Nothing)
    else View(player.tradeState, player.tradePartner.tradeState, player.tradeItem, player.tradePartner.tradeItem)
  }

  /** Both have accepted, and nothing but the items themselves speaks against their exchange. */
  predicate Attempted(v: View, canReach: bool, eventAgrees: bool) {
    && (v.mine == Acknowledged || v.mine == Initiated) && canReach && v.theirs == Accepted && eventAgrees
    && v.offer != Nothing && v.counterOffer != Nothing
  }

  /** What comes of accepting. */
  function OutcomeOf(v: View, canReach: bool, eventAgrees: bool, moved: Moved): Outcome {
    if !(v.mine == Acknowledged || v.mine == Initiated) || !canReach then Refused
    else if v.theirs != Accepted then Agreed
    else if !eventAgrees then Cancelled
    else if v.offer == Nothing || v.counterOffer == Nothing || moved == Neither then Failed
    else Given(v.offer.item, v.counterOffer.item, moved == Both)
  }

  function MovedIn(outcome: Outcome): Moved {
    if !outcome.Given? then Neither else if outcome.gained then Both else OnlyFirst
  }

  /**
   playerAcceptTrade over linked items: item1 is the player's offer, which to1 is to get, and item2 the partner's,
   which to2 is to get. The moves neither look at the handshake nor change it.
   */
  method AcceptAndMove(game: Game, player: Player, canReach: bool, eventAgrees: bool,
                       w: Linked.World, item1: Linked.Item, to1: Linked.Item, item2: Linked.Item, to2: Linked.Item)
    returns (outcome: Outcome)
    requires game.Valid() && player in game.players && Deal(w, item1, to1, item2, to2)
    modifies game`tradeItems, game`toRelease, player, PartnerOf(player), w, w.items
    ensures game.Valid() && w.Valid() && ItemMoves.StacksOk(w)
    ensures outcome == OutcomeOf(old(ViewOf(player)), canReach, eventAgrees, old(MovesOf(w, item1, to1, item2, to2)))
    ensures Swapped(old(Tally(w)), Tally(w), MovedIn(outcome), old(LotOf(item1)), to1, old(LotOf(item2)), to2)
  {
    var attempted := Attempted(ViewOf(player), canReach, eventAgrees);
    ghost var m := MovesOf(w, item1, to1, item2, to2);
    Concluded(ViewOf(player), canReach, eventAgrees, m);
    var moved := Move({game} + game.players, attempted, w, item1, to1, item2, to2);
    Undisturbed(game);
    SameView(player);
    outcome := Answer(game, player, canReach, eventAgrees, moved, w);
  }

  /** The handshake, which does not look at the items. */
  method Answer(game: Game, player: Player, canReach: bool, eventAgrees: bool, moved: Moved, ghost w: Linked.World)
    returns (outcome: Outcome)
    requires game.Valid() && player in game.players && w.Valid() && ItemMoves.StacksOk(w)
    modifies game`tradeItems, game`toRelease, player, PartnerOf(player)
    ensures game.Valid() && w.Valid() && ItemMoves.StacksOk(w)
    ensures outcome == OutcomeOf(old(ViewOf(player)), canReach, eventAgrees, moved) && Tally(w) == old(Tally(w))
  {
    outcome := game.AcceptTrade(player, canReach, eventAgrees, moved);
    Untouched(w);
  }

  twostate lemma {:induction false} Undisturbed(game: Game)
    requires old(game.Valid()) && unchanged(game) && unchanged(game.players)
    ensures game.Valid()
  {
  }

  twostate lemma {:induction false} SameView(player: Player)
    requires unchanged(player) && (player.tradePartner != null ==> unchanged(player.tradePartner))
    ensures ViewOf(player) == old(ViewOf(player))
  {
  }

  /** Which items were moved does not matter if they were not to be, and shows in the outcome if they were. */
  lemma {:induction false} Concluded(v: View, canReach: bool, eventAgrees: bool, moved: Moved)
    ensures var outcome := OutcomeOf(v, canReach, eventAgrees, moved);
            if Attempted(v, canReach, eventAgrees) then MovedIn(outcome) == moved
            else MovedIn(outcome) == Neither && outcome == OutcomeOf(v, canReach, eventAgrees, Neither)
  {
  }

  /** The moves, if they are attempted, which change none of the others. */
  method Move(ghost others: set<object>, attempted: bool,
              w: Linked.World, item1: Linked.Item, to1: Linked.Item, item2: Linked.Item, to2: Linked.Item)
    returns (moved: Moved)
    requires Deal(w, item1, to1, item2, to2) && w !in others && w.items !! others
    modifies w, w.items
    ensures w.Valid() && ItemMoves.StacksOk(w)
    ensures moved == if attempted then old(MovesOf(w, item1, to1, item2, to2)) else Neither
    ensures Swapped(old(Tally(w)), Tally(w), moved, old(LotOf(item1)), to1, old(LotOf(item2)), to2)
    ensures unchanged(others)
  {
    if attempted {
      var isSuccess;
      isSuccess, moved := TransferTallied(w, item1, to1, item2, to2);
    } else {
      moved := Neither;
      NoneSwapped(w, LotOf(item1), to1, LotOf(item2), to2);
    }
  }

  /**
   A player may accept before the other has offered anything, and that acceptance still counts when the
   other then offers and accepts: the items change hands without the first having seen the second.
   */
  method AcceptedUnseen(contents: ItemId -> ItemTree, mine: ItemId, yours: ItemId) returns (outcome: Outcome)
    requires mine != yours && !contents(mine).isContainer && !contents(yours).isContainer
    ensures outcome == Given(yours, mine, true)
  {
    var game, me, you := AcceptFirst(contents, mine);
    NothingInside(contents(mine), yours);
    NothingInside(contents(yours), mine);
    assert game.Unrelated(yours);
    var ok := game.RequestTrade(you, me, yours);
    outcome := game.AcceptTrade(you, true, true, Both);
  }

  method Meet(contents: ItemId -> ItemTree) returns (game: Game, me: Player, you: Player)
    ensures fresh(game) && fresh(me) && fresh(you) && me != you && {me, you} <= game.players
    ensures game.Valid() && game.contents == contents && game.tradeItems == map[]
    ensures me.tradeState == NoTrade && you.tradeState == NoTrade
  {
    game := new Game(contents);
    me := game.AddPlayer();
    you := game.AddPlayer();
  }

  /** One player makes an offer and accepts at once, having seen nothing. */
  method AcceptFirst(contents: ItemId -> ItemTree, mine: ItemId) returns (game: Game, me: Player, you: Player)
    requires !contents(mine).isContainer
    ensures fresh(game) && fresh(me) && fresh(you) && me != you && {me, you} <= game.players
    ensures game.Valid() && game.contents == contents && game.tradeItems == map[mine := me]
    ensures me.tradeState == Accepted && me.tradePartner == you && me.tradeItem == Offered(mine) && me.seen == Nothing
    ensures you.tradeState == Acknowledged && you.tradePartner == me && you.tradeItem == Nothing
  {
    game, me, you := Meet(contents);
    var ok := game.RequestTrade(me, you, mine);
    assert ok && you.tradeState == Acknowledged;
    var outcome := game.AcceptTrade(me, true, true, Neither);
    assert outcome == Agreed && you.tradeState == Acknowledged;
  }

  lemma {:induction false} NothingInside(t: Tree<ItemId>, i: ItemId)
    requires WellFormed(t)
    ensures !t.isContainer ==> !Contains(t.kids, i)
  {
  }
}
