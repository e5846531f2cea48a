# The Forgotten Server: verified models

Models in Dafny 4.11 of the algorithms of The Forgotten Server that need neither Lua nor a database
nor sockets, with proofs of what they are for. `dafny verify dfyconfig.toml` checks everything. Each
file is one module:

- `ItemTree`, `ItemMoves`: containers and items as linked objects with parent pointers, item lists
  and a cached weight that every change repairs by climbing the parents; moving, splitting, merging
  and adding stacks.
- `Forest`: item trees as values and the breadth-first iterator behind counting and searching.
- `ItemRows`: a player's items as numbered database rows, saved breadth first and rebuilt from the
  highest number down into the linked objects of `ItemTree`, for every table whose parent numbers do not
  lead back to where they started.
- `MapItems`: the tagged byte format of items on house tiles.
- `Otb`, `OtbLoader`: the parser of OTB files, proved against a grammar, and the loader as it works on
  memory, with pointers into vectors that may move when they grow.
- `WalkCache`: the window of passable tiles around a creature, shifted in place at every step.
- `DecayWheel`: the four buckets of decaying items.
- `Money`: paying with coins and giving change.
- `Trade`, `TradeMoves`: the trade handshake, and the tests and moves among linked items that end it.
- `Stock`, `Market`: the items a player can sell, collected, removed and delivered one by one, and the
  market as an escrow over them.
- `DbTasks`: the database task queue under every interleaving of its threads.
- `DamageList`, `CombatArea`, `Base32`: damage over time, areas of effect, login secrets.
- `Basics`, `Arithmetic`: types, sequence facts, quotients and products for the others.

Objects whose methods change fields are classes, and their methods are proved against functions and
invariants about which the lemmas speak. Threads are modelled as a state machine over atomic steps.

## What the proofs found

Where the code does not do what its name or its documentation promises, the exact condition is proved:

- `getDistanceY` is an absolute value, so the arms of `onCreatureMove` for a southward row difference
  are chosen wrongly in part: a step to the south-east or south-west corrupts the walk cache, and no
  other step does (`StepIsSafeIffNotSouthDiagonal`). With the signed difference every step would keep
  the cache right (`SignedStepKeepsCoherent`).
- Expired market offers are paid back as they were when the query ran. An offer accepted in part in
  between gives back more than it holds; money and items are conserved exactly when there is no such
  offer (`ProcessExpiredOffers`, `PaidBackTwice`).
- The mirrored and flipped copies of an area use the other dimension for their centre and are right
  exactly for square or empty areas (`SetupExtArea`).
- The wakeup at the end of `DatabaseTasks::shutdown` can be lost; it ends the worker exactly when the
  worker is not between its test and the lock, or a producer still owes a notification
  (`ShutdownEndsWorkerIff`).
- `addMoney` multiplies crystal coins in 32 bits and counts the rest in 16 and 8: 4294970000 gold are
  paid out with 4096 too many. Every smaller amount is exact, and of the larger ones exactly those whose
  crystal coins overflow by a multiple of 25 while single gold coins are owed (`CreatedTooMuch`,
  `CreatedIsExactIff`).
- A player may accept a trade before the other has offered anything, and that acceptance counts. Whenever
  items change hands, the player who accepted first gains what they saw then exactly if the partner had made
  an offer (`AcceptTrade`, `AcceptedUnseen`).
- The last to accept a trade may give their item and get nothing, and the trade is a success: the tests count
  the room in stacks and the items move to slots of their own, and what comes of the second move is not looked
  at. Once the tests are passed and the first item is moved, this happens exactly if the item they are owed
  stacks and no slot is free for it, or if it cannot be moved, which the test of its removal does not ask
  (`EmptyHandedIff`, `EmptyHanded`, `AcceptAndMove`).
- An area whose values do not fill whole rows is written outside its matrix exactly if a 1 or 3 lies behind
  the last whole row, or anywhere if there is no column; otherwise its centre lies outside exactly if the last
  2 or 3 does (`CreateArea`, `Ragged`).
- `addMoney` can lose coins of a player who is offering a bag: the room in the bag is counted, but nothing is
  put there. How much of an amount below a crystal coin is lost is exact (`AddMoney`, `TwentyLost`). The change
  that `removeMoney` gives is never lost, because the stacks it could go to have been paid with before
  (`RemoveMoney`, `NoChangeLost`).
- The OTB loader refuses a file whose root has neither property bytes nor children nor anything behind
  it, ignores property bytes behind a child, and accepts loose bytes behind the root (`DocRoundTrip`,
  `ParseIffGrammar`).
- A blank custom attribute is written to the map, but the loader refuses it, and with it the item and all
  that holds it; tables, values and counts otherwise come back under an exact condition (`BlankFails`,
  `RoundTripIffStorable`).
- Items come back from the rows of `saveItems` exactly when every slot is used once and depot numbers
  are below 100 (`RoundTripIffLegal`).
- `internalMoveItem` loses what it has taken exactly when a stack is asked with FLAG_NOLIMIT into an
  overfull container that would take it, and the first stack of its kind with room lies beyond the capacity
  and cannot take all of it; the rest is then gone (`InternalMoveItem`, `LosesIff`, `FiftyLost`).
- `internalAddItem` counts room in all stacks of a container. Asked with FLAG_IGNOREAUTOSTACK for a slot of a
  full one, it loses the rest of a stack if the item there takes up a part only, and goes beyond the capacity if
  that takes up nothing; it does neither otherwise (`InternalAddItem`, `RestLost`, `OneTooMany`).
- What a player has for sale falls by just the amount that an offer takes exactly if no container of that
  ware is emptied by it: a bag out of which a bag has been sold can be sold itself from then on. What the
  player has of the ware always falls by just the amount (`LeftForSale`, `EmptiedBag`).
- A list of damage has just the sum that was asked for exactly if one hit of every strength is not already
  more (`GenerateDamageList`).

## Model

| member | source | states |
|---|---|---|
| ItemTree.World.CacheIsFullWeight | src/container.cpp:144-155 | in every reachable world the cached weight of an item equals the weight of all it holds at every depth, modulo 2^32 |
| ItemTree.World.CacheIsContentsWeight | src/container.cpp:144-155 | the same for the first items of a container, from which the former follows by mutual induction |
| ItemTree.World.UpdateItemWeight | src/container.cpp:144-150 | the climb ends, because parents have smaller ranks, and repairs every cache above when just one was off by the difference |
| ItemTree.World.Adjust | src/container.cpp:144-150 | one step of the climb moves the error from a container to its parent |
| ItemTree.World.RanksUnderDecrease | src/container.cpp:287-323 | putting an item under a container it does not hold leaves a rank order, so no cycle of parents can arise |
| ItemTree.World.AddThing | src/container.cpp:475-494 | the item is put in front and gets its parent, caches and acyclicity are kept; an index beyond the capacity changes nothing |
| ItemTree.World.AddItemBack | src/container.cpp:496-505 | the item is put at the back, caches and acyclicity are kept |
| ItemTree.World.InternalAddThing | src/container.cpp:670-680 | the item is put in front whatever the capacity, caches and acyclicity are kept |
| ItemTree.World.UpdateThing | src/container.cpp:507-528 | an item that is there gets its new type and count (8 bits), and every cache above follows |
| ItemTree.World.RemoveThing | src/container.cpp:554-587 | part of a stack is taken, or the first occurrence unlinked; another item's removal changes nothing; caches are kept |
| ItemTree.World.ReplaceThing | src/container.cpp:530-552 | the new item takes the place and the parent of the old one, caches and acyclicity are kept |
| ItemTree.World.GetThingIndex | src/container.cpp:589-599 | the first index of the item, or -1 exactly when it is absent |
| ItemTree.World.QueryAdd | src/container.cpp:264-324 | refuses exactly a locked container, an item that may not be picked up, an item put into itself or into what it holds, and a full container, in this order |
| ItemTree.World.CreateItem | src/item.cpp:40-90 | a new loose item leaves all caches right |
| ItemTree.Item.GetWeight | src/item.cpp:811-818 | the weight of one item fits 32 bits |
| ItemMoves.InternalMoveItem | src/game.cpp:1040-1213 | for every kind and container the count changes by exactly what was taken or arrived, also from a container into itself; stacks stay within 100, the destination within its capacity; an item moved whole arrives in front and leaves the rest as it was; all of an item for a slot of its own is moved if and only if it may be, a slot is free and the destination is not inside what is traded, and nothing changes otherwise; what is taken and answered is exact; something is lost if and only if the first stack with room is out of reach and too full, and then just the rest; a plain request with a free slot succeeds |
| ItemMoves.LosesIff | src/game.cpp:1040-1213 | once everything is planned, something will be lost exactly if the request was one of those that lose, which can be seen before the call |
| ItemMoves.FiftyLost | src/game.cpp:1151-1179 | a hundred moved without limits to a stack of fifty beyond the capacity: fifty are gone and the answer is success |
| ItemMoves.PlanMove | src/game.cpp:1051-1144 | every check made before anything changes: what is to be moved, where, how much, and the answer to the caller |
| ItemMoves.PlanAt | src/game.cpp:1071-1144 | the checks at the destination that was found, in their order |
| ItemMoves.Transfer | src/game.cpp:1146-1213 | the changing half conserves counts over source and destination but for the rest of a stack that is to go beyond the capacity, and loses exactly that |
| ItemMoves.TransferStack | src/game.cpp:1151-1179 | splitting and merging of stacks conserves counts but for that rest, and keeps stacks within 100 |
| ItemMoves.FindDestination | src/game.cpp:1051-1064 | following queryDestination ends at a container that keeps the item, and without an index at the one asked |
| ItemMoves.InternalAddItem | src/game.cpp:1222-1297 | for any slot asked for, the codes for up and anywhere included: accepts exactly when the container it is sent to allows it and, unless limits are off, has a place for it and all of the item fits where it was asked; the count of its kind there rises by exactly the item's count and no other changes, except that the rest of a stack is lost if and only if a slot of a full container is asked without auto-stacking and its stack takes up a part only; stacks stay within 100, and with limits a container grows beyond its capacity if and only if that slot holds something that takes up nothing |
| ItemMoves.OntoOrBeside | src/game.cpp:1229-1296 | once the item is accepted, these two cases follow from the stack that queryDestination has found |
| ItemMoves.RestLost | src/game.cpp:1254-1272 | sixty coins for the slot of a stack of ninety in a full bag with another stack of fifty: fifty are released and the answer is success |
| ItemMoves.OneTooMany | src/game.cpp:1287-1296 | fifty coins for the slot of something else in a full bag with a stack of fifty: a third item in two slots |
| ItemMoves.TestAddItem | src/game.cpp:1222-1252 | the test for adding an item, wherever it lies, agrees exactly if the container takes it and all of it fits into stacks and slots, and, without auto-stacking or if it lies there already, a slot is free |
| ItemMoves.AddOnto | src/game.cpp:1254-1286 | filling one stack and adding the rest recursively ends, and what is left over is exact: nothing with auto-stacking or a free slot |
| ItemMoves.RoomMerged | src/game.cpp:1263-1285 | merging into one stack takes that much of the room the query counted |
| ItemMoves.QueryMaxCount | src/container.cpp:326-377 | how much fits: free slots times 100 and the room in stacks of the same kind |
| ItemMoves.QueryRemove | src/container.cpp:379-399 | allows removal exactly of an item that is there, in a count it has, and moveable unless that is ignored |
| ItemMoves.QueryDestination | src/container.cpp:401-468 | which cylinder, index and stack an add is sent to; it is sent to the first stack of its kind with room if there is one |
| Forest.ContainerIterator.Advance | src/container.cpp:704-722 | the visited item leaves the front of what is pending and its contents join the back; the queue never holds an empty container and the place is always inside its first |
| Forest.QueuedIsLevelOrder | src/container.cpp:689-722 | the iterator's order is level by level |
| Forest.LevelOrderIsComplete | src/container.cpp:689-722 | level order lists every item at every depth exactly as often as the recursive listing |
| Forest.LevelOrderUnique | src/container.cpp:704-722 | a listing that names its starting items and then the contents of everything it names is the level order |
| Forest.GetItemHoldingCount | src/container.cpp:197-204 | the count is the recursive size of the contents |
| Forest.IsHoldingItem | src/container.cpp:206-214 | true exactly if the item is inside at some depth |
| Forest.PreorderContains | src/container.cpp:206-214 | recursive membership is membership in the recursive listing |
| Forest.ItemsToName | src/container.cpp:163-187 | the description names everything but containers with something inside, level by level |
| ItemRows.SaveItems | src/iologindata.cpp:567-624 | the rows list the forest level by level, numbered from 101, each naming its container's number, which is smaller |
| ItemRows.LoadItems | src/iologindata.cpp:929-953 | one loose item for every row number, as the last row with that number says |
| ItemRows.LoadStore | src/iologindata.cpp:453-541 | for any rows whose parent numbers never lead back to where they started: each container holds the items naming it in the order of their numbers, each slot, depot or inbox its own, a slot only the last; rows naming nothing are dropped; weights and parents are right |
| ItemRows.RebuiltIsOrdered | src/iologindata.cpp:461-478 | only such rows can be rebuilt: whatever has been rebuilt into a forest has an order that falls from every row to its container's |
| ItemRows.PutAway | src/iologindata.cpp:461-478 | one step of the rebuild |
| ItemRows.HolderIsLower | src/iologindata.cpp:461-478 | while the items are put away, an item is only inside those of lower order, so that none is put into what it holds |
| ItemRows.RoundTripIffLegal | src/iologindata.cpp:453-624 | saved and loaded in any order of rows, every slot, depot and the inbox hold the same trees in the same order, exactly if the numbers of the roots are legal |
| ItemRows.SaveAndLoad | src/iologindata.cpp:453-624 | saving, reading the rows in any order and loading, one after the other: the trees are back at their places |
| ItemRows.AnyOrder | src/iologindata.cpp:929-953 | rows in any order lead to the same items by number |
| ItemRows.NodeRestored | src/iologindata.cpp:453-624 | each saved item comes back as the tree it was, by induction from the last row |
| ItemRows.PickKids | src/iologindata.cpp:594-622 | the rows that name a container are its contents in order |
| ItemRows.SavedRowsCanBeLoaded | src/iologindata.cpp:567-624 | saved rows meet what loading asks for |
| ItemRows.NotRestored | src/player.cpp:3070-3086 | roots with other numbers never come back, and of two in one slot only one |
| MapItems.SaveItem | src/iomapserialize.cpp:217-235 | writes exactly the recursive encoding of the item behind what the stream holds |
| MapItems.SerializeAttr | src/item.cpp:670-789 | writes count, charges and attributes in their order with their widths |
| MapItems.LoadItem | src/iomapserialize.cpp:134-215 | reads exactly what the recursive reader reads, and leaves the stream behind it |
| MapItems.LoadContainer | src/iomapserialize.cpp:116-132 | reads as many items as the count says, pushing each to the front, and the end mark |
| MapItems.UnserializeAttr | src/item.cpp:651-663 | reads attributes up to the end mark or the contents of a container |
| MapItems.ReadAttrFrom | src/item.cpp:366-649 | each tag is read with its width, skipped or refused |
| MapItems.SkipItem | src/iomapserialize.cpp:134-215 | reading past an item that is gone from the map consumes exactly as many bytes as loading it |
| MapItems.LoadOfSave | src/iomapserialize.cpp:116-235 | loading a saved item without blank custom attributes, with anything behind it, gives its loaded form, children in order, and leaves exactly what was behind |
| MapItems.BlankFails | src/item.h:286-337 | an item with a blank custom attribute at any depth is never loaded again |
| MapItems.RoundTripIffStorable | src/iomapserialize.cpp:116-235 | the item comes back unchanged exactly if all its values fit the format, whatever custom attributes it has |
| MapItems.LoadedIsStorable | src/iomapserialize.cpp:116-235 | whatever has been loaded fits the format |
| MapItems.SecondTrip | src/iomapserialize.cpp:116-235 | what has been loaded once comes back unchanged from every later save and load, and leaves exactly what was behind it |
| MapItems.LoadedIffStorable | src/item.cpp:366-789 | the loaded form is the item itself exactly if it is storable |
| MapItems.SerializeCustoms | src/item.cpp:777-788 | writes the number of custom attributes and then every key and value |
| MapItems.ReadEntriesFrom | src/item.cpp:620-642 | reads that many keys and values into the table, or fails at the first that cannot be read |
| MapItems.EntriesRoundTrip | src/item.h:447-465 | written entries are set one after the other in the table, and reading fails exactly if one is blank |
| MapItems.CustomComesBack | src/item.h:447-465 | a table with distinct lower case keys comes back exactly if it is not empty and its keys and texts are at most 65535 long |
| MapItems.CustomRoundTrip | src/item.h:263-337 | every value but a blank one is read back as written |
| MapItems.ValueRoundTrip | src/item.cpp:366-789 | each kind of value is read back as written, cut to its width |
| MapItems.NumRoundTrip | src/fileloader.h:71-164 | a number written in some bytes is read back modulo their range |
| MapItems.StringRoundTrip | src/fileloader.h:71-164 | a string comes back, or an empty one if it is too long for its 16 bit length |
| MapItems.PropStream.Read | src/fileloader.h:71-126 | reads the number at the front or fails without moving |
| MapItems.PropWriteStream.Write | src/fileloader.h:128-164 | appends the bytes of a number |
| OtbLoader.Load | src/fileloader.cpp:30-43 | size and identifier checks before the parse; what is accepted, and the node that the memory then holds, are those of the functional loader |
| OtbLoader.Loader.ParseTree | src/fileloader.cpp:53-105 | the loop over nodes in vectors that may move at every growth uses live pointers only and builds the tree of the functional parser |
| OtbLoader.Loader.OpenNode | src/fileloader.cpp:66-80 | the new node is the last child of the current one and the stack points to it, whether the vector has moved or not |
| OtbLoader.Loader.CloseNode | src/fileloader.cpp:81-88 | the closed node is complete, and the stack of open nodes below it is intact |
| OtbLoader.OpenKeeps | src/fileloader.cpp:66-80 | growing the vector of the top node, in place or not, moves no open node and no closed one below it |
| OtbLoader.CloseKeeps | src/fileloader.cpp:81-88 | the memory of a closed node says what the node is, and it joins the closed children of its parent |
| OtbLoader.ChainIsLastChildren | src/fileloader.cpp:53-105 | every node of the stack is alive and is the last child of the one below it |
| OtbLoader.Loader.GetProps | src/fileloader.cpp:107-122 | the property bytes without their escapes, or failure for none |
| Otb.ParseIffGrammar | src/fileloader.cpp:53-105 | a file is accepted exactly if it is in the grammar, and the result is the tree written there |
| Otb.ParseAccepts | src/fileloader.cpp:53-105 | every file of the grammar loads as its tree |
| Otb.FindBody | src/fileloader.cpp:53-105 | whatever the loop accepts is a well-formed body up to the closing byte |
| Otb.OpenNodeRejected | src/fileloader.cpp:94-104 | a file that ends with a node open is rejected |
| Otb.SecondRootRejected | src/fileloader.cpp:53-105 | a file that opens or closes a node after the root is rejected |
| Otb.DocRoundTrip | src/fileloader.cpp:30-122 | a written document loads back with all types, properties and children, except a root with neither properties nor children, which is refused |
| Otb.UnescapeWritten | src/fileloader.cpp:107-122 | escaping and unescaping properties gives them back |
| WalkCache.Creature.OnCreatureMoveSelf | src/creature.cpp:451-583 | shifting rows and columns in place and refreshing the edge gives the functional step, or a full refresh after a teleport or change of floor |
| WalkCache.Creature.OnCreatureMoveOther | src/creature.cpp:559-569 | another creature's move looks again at the two tiles it concerns |
| WalkCache.Creature.UpdateMapCache | src/creature.cpp:294-308 | every cell of the window is looked at again |
| WalkCache.Creature.UpdateTileCache | src/creature.cpp:310-325 | one cell is looked at again if it is on this floor and in the window |
| WalkCache.Creature.GetWalkCache | src/creature.cpp:327-356 | with a coherent cache the answer inside the window is the tile's passability; 2 exactly outside the window or without a cache, 0 on other floors, 1 for the own position |
| WalkCache.StepGridIsStepped | src/creature.cpp:451-583 | the value of every cell after a step in terms of the cells before and the tiles |
| WalkCache.StepIsSafeIffNotSouthDiagonal | src/position.h:54-72 | a step keeps every coherent cache coherent on all ground exactly if it is not to the south-east or south-west |
| WalkCache.StepKeepsCoherent | src/creature.cpp:489-569 | if the row difference is the true one, or no column is shifted, every cell but the centre is right after the step, the one that was the centre included |
| WalkCache.SignedStepKeepsCoherent | src/creature.cpp:520-557 | going by the signed row difference instead of the absolute one, every step in all eight directions keeps the cache coherent |
| WalkCache.SouthDiagonalCells | src/creature.cpp:489-569 | which tile each cell shows after a south diagonal |
| WalkCache.SouthDiagonalBreaks | src/creature.cpp:489-569 | on striped ground every south diagonal leaves a wrong cell |
| WalkCache.EventKeepsCoherent | src/creature.cpp:451-583 | moves of any creature, teleports and tile changes keep the cache coherent |
| WalkCache.RunIsCoherent | src/creature.cpp:451-583 | after any run with no south diagonal since the last full refresh the cache is coherent |
| DecayWheel.Game.CheckDecay | src/game.cpp:4410-4452 | what one call does to every item: it waits on with its deadline, ends exactly at its deadline, goes on to its next type, is dropped because it cannot decay, or is put into its first bucket |
| DecayWheel.Game.Run | src/game.cpp:4376-4452 | over any number of calls an item is over exactly at the call fixed when it got its first bucket, through all changes of type |
| DecayWheel.RestIsTick | src/game.cpp:4427-4447 | the repeated visits to a bucket take four times the whole seconds, and one more from 875 milliseconds on |
| DecayWheel.TickBound | src/game.h:74-75 | an item ends less than 250 milliseconds late and less than 875 early |
| DecayWheel.FirstDeadline | src/game.cpp:4546-4554 | the bucket chosen for a new item and the visits to it end it after its closed-form number of visits |
| DecayWheel.OneVisitLess | src/game.cpp:4427-4447 | a visit leaves exactly one visit less to come, in the same bucket or another |
| DecayWheel.Game.Visit | src/game.cpp:4417-4448 | the loop body does to its item what its deadline says, and keeps references, marks and schedule |
| DecayWheel.Game.Cleanup | src/game.cpp:4533-4555 | pending references are given back and every started item gets its bucket and deadline |
| DecayWheel.Game.StartDecay | src/game.cpp:4376-4394 | an item that can decay and is not decaying is queued once with one reference, or ended at once if it has no time |
| DecayWheel.Game.InternalDecayItem | src/game.cpp:4396-4408 | the item goes on to its next type and is queued again, or is over |
| DecayWheel.Game.ReferencesAreOccurrences | src/game.h:523-531 | the references the wheel holds for an item are its occurrences in all its lists, at most one but for releases |
| Money.Purse.RemoveMoney | src/game.cpp:1412-1489 | pays exactly if the coins are worth enough; then the worth with dropped change falls by exactly the amount, no change is lost even while a bag is offered, and a stack loses coins only after all stacks worth less are gone |
| Money.Purse.RemoveCoins | src/game.cpp:1472-1487 | the stack loses just those coins, and where a whole stack was there is room for change again |
| Money.Purse.BreakStack | src/game.cpp:1473-1483 | takes at least one coin and no more than the stack has; the change is what they are worth beyond the amount, is less than one of them and does not touch the stack; what is lost of it is exact |
| Money.NoChangeLost | src/game.cpp:1471-1487 | change of a stack before which all cheaper stacks have been used up is never lost |
| Money.Purse.Scan | src/game.cpp:1422-1466 | the sorted list of stacks holds every coin stack once and is worth all coins |
| Money.Purse.AddMoney | src/game.cpp:1491-1532 | coins worth the computed amount are added, dropped or lost, nothing is lost while no bag is offered, and of less than a crystal coin just what the room says before; stacks of dearer coins are left alone, and stacks stay within 100 for exact amounts |
| Money.TwentyLost | src/game.cpp:1254-1272 | thirty gold for a player offering a bag with a free place: ten go onto a stack of ninety and twenty are gone |
| Money.CreatedIsExact | src/game.cpp:1491-1532 | every amount below 4294970000 is paid out exactly |
| Money.CreatedIsExactIff | src/game.cpp:1491-1532 | an amount is paid out exactly if and only if its crystal coins do not overflow 32 bits, or do so by a multiple of 25 while single gold coins are owed |
| Money.TooManyCrystals | src/game.cpp:1497-1498 | more crystal coins than 32 bits can count pay out too little |
| Money.CreatedTooMuch | src/game.cpp:1497-1498 | 4294970000 is paid out with 4096 too many |
| Money.Purse.AddCoins | src/game.cpp:1502-1507 | all coins are dropped exactly if no place is found for some or room is counted for too few; otherwise they fill stacks and one free place, and what is left is lost exactly if there is no place but in an offered bag |
| Money.Ceiling | src/game.cpp:1477-1480 | rounding up gives enough coins, none too many and change below one coin |
| Money.TakenInOrder | src/game.cpp:1472-1487 | taking entries in ascending order uses up every cheaper stack first |
| Market.Market.CreateOffer | src/game.cpp:5074-5171 | accepted exactly under the limits and with the money, or with as many items for sale as are offered; the escrow and the fee are taken, from the listed items only, and money and items in all are conserved |
| Market.Market.Give | src/game.cpp:5138-5158 | succeeds exactly if enough is for sale; then the player has just so many less of the ware, and nothing the list does not name has changed |
| Market.Market.Receive | src/game.cpp:5204-5231 | the player has just so many more of the ware, and nothing else has changed |
| Market.Market.CancelOffer | src/game.cpp:5179-5239 | only the owner's offer is cancelled, which pays or delivers what it holds; money and items are conserved |
| Market.Market.AcceptOffer | src/game.cpp:5241-5409 | accepted exactly in an amount the offer has and the player can afford or has for sale; balances, the two players' items and the offer change by exactly that, also for one's own offer; money and items are conserved |
| Market.Market.ProcessExpiredOffers | src/iomarket.cpp:120-192 | pays and delivers back what the rows said; the excess over what the offers held is exact, and money and items are conserved exactly if no row is stale |
| Market.ConservedIffNoneStale | src/iomarket.cpp:120-192 | no excess exactly if no offer has been accepted in part since its row was read |
| Market.Market.PaidBackTwice | src/iomarket.cpp:120-208 | a run of the other operations after which processing makes 30 gold from nothing |
| Market.Market.CheckExpiredOffers | src/iomarket.cpp:194-208 | the rows are the offers created up to the date, as they are now |
| Market.HistoryTotals | src/iomarket.cpp:283-305 | with a deleted offer goes what it held, and the row is paid back in full |
| Market.Market.GetOfferByCounter | src/iomarket.cpp:222-251 | the first offer with the time and the counter |
| Market.Market.Reduce | src/game.cpp:5398-5404 | an offer loses the amount, and is deleted when nothing is left |
| Market.Fee | src/game.cpp:5121-5126 | the fee lies between 20 and 1000 |
| Stock.GetMarketItemList | src/game.cpp:5423-5462 | the shortest part of the sellable items, level by level, that suffices, or nothing if they do not suffice; the 16 bit count never overflows |
| Stock.ListSuffices | src/game.cpp:5423-5462 | a list is found exactly if there are enough items, and it holds enough |
| Stock.TakeStacks | src/game.cpp:5143-5153 | the loop over the list takes exactly the amount out of the trees, and nothing the list does not name has changed |
| Stock.TakeSingles | src/game.cpp:5154-5158 | the same for items that do not stack, of which all are taken |
| Stock.Collect | src/game.cpp:5138-5158 | list and removal together: as many as are wanted, or nothing if there are too few |
| Stock.TakeOutOwned | src/game.cpp:5143-5158 | taking some of one item out takes just so many of its ware and none of another |
| Stock.LeftForSale | src/game.cpp:5423-5462 | what is for sale falls by just the amount if and only if no container of the ware has been emptied |
| Stock.EmptiedBag | src/game.cpp:5433-5452 | a bag inside a bag is sold, and just as many bags are for sale as before |
| Stock.AddItem | src/game.cpp:1222-1297 | a new item in the inbox fills stacks of its kind first; just so many of its kind have come, stacks stay within 100, and no other item has changed |
| Stock.Deliver | src/game.cpp:5204-5231 | the loop over stacks of a hundred, or single items, delivers exactly the amount and changes no item of another kind |
| Stock.UnstackedExactly | src/game.cpp:5154-5158 | of items that do not stack the list has exactly as many as are wanted, so all of it is to be removed |
| Trade.Game.RequestTrade | src/game.cpp:2472-2579 | succeeds exactly if both players are free for it, the item neither equals, contains nor lies in an offered one, and it holds fewer than a hundred items; never for a player with an offer; partners stay symmetric and offers registered |
| Trade.Game.InternalStartTrade | src/game.cpp:2581-2612 | the offer is registered with one reference and both players know their partner |
| Trade.Game.AcceptTrade | src/game.cpp:2614-2713 | the outcome for every state, the one in which only the last accepter's item changes hands included; the first to accept gains what they saw when they accepted if and only if there was an offer to see; a finished trade removes exactly the two offers, gives back their references and frees both players |
| Trade.AcceptAndMove | src/game.cpp:2614-2713 | handshake and moves together: the outcome follows from where both players stand and how the items and containers lie before the call, and for every container and kind the count changes by exactly the items the outcome says have changed hands |
| TradeMoves.TransferItems | src/game.cpp:2661-2685 | tests and moves: neither item, only the first or both change hands, as can be seen before the call; it is a success exactly if the tests are passed and the first can go, and then only the first goes if and only if the second stacks and has no slot of its own, or cannot be moved; without success nothing has changed; counts change by exactly what moved |
| TradeMoves.TestAll | src/game.cpp:2663-2668 | the tests are passed exactly if both items can be added, stacks taking up what they can, and both lie somewhere; whether they can be moved is not asked |
| TradeMoves.MoveFirst | src/game.cpp:2675 | after the tests the first move succeeds exactly if the item can be moved and a slot of its own is free that is not inside what is given for it; it changes nothing of the second item but a slot that becomes free |
| TradeMoves.EmptyHandedIff | src/game.cpp:2661-2685 | after the tests and the first move the last to accept goes empty-handed if and only if the item owed stacks and no slot will be free, or cannot be moved |
| TradeMoves.EmptyHanded | src/game.cpp:2661-2685 | a sword for thirty coins, for a full bag with fifty: only the sword changes hands, and the trade is a success |
| Trade.Game.CloseTrade | src/game.cpp:2812-2854 | both offers are removed and given back once, and both players are free |
| Trade.Game.CanOffer | src/game.cpp:2528-2563 | the loop over the offered items finds exactly an equal, containing or contained item |
| Trade.Game.HeldWhileOffered | src/game.cpp:2581-2612 | the reference of an item is held exactly while somebody offers it |
| Trade.AcceptedUnseen | src/game.cpp:2581-2713 | a run in which items change hands although one player accepted before the other had offered |
| DbTasks.EveryTaskOnce | src/databasetasks.cpp:34-105 | in every interleaving tasks are taken in the order accepted and none twice, and after shutdown's flush each has been run once but the one the worker has in hand |
| DbTasks.NextKeepsInv | src/databasetasks.cpp:34-105 | every atomic step keeps the queue invariants, the owed notification of a waiting worker included |
| DbTasks.RunKeepsInv | src/databasetasks.cpp:34-105 | so does every run |
| DbTasks.QuietMeansDone | src/databasetasks.cpp:34-67 | when neither worker nor notifications can go on before shutdown, every accepted task is done but one being flushed |
| DbTasks.OwnStepsEnd | src/databasetasks.cpp:34-51 | without new tasks the worker comes to rest in a bounded number of steps |
| DbTasks.ShutdownEndsWorkerIff | src/databasetasks.cpp:99-105 | the last notification lets the worker end exactly if it is not between its test and the lock, or a notification is still owed |
| DbTasks.ShutdownCanMissWorker | src/databasetasks.cpp:34-105 | a run after which the worker waits for ever |
| DamageList.GenerateDamageList | src/condition.cpp:1286-1304 | hits fall from start to 1 with every value between; after each strength the sum is within half a hit of the target line; the sum lies between the amount and the amount plus start*(start+1)/2, and equals it if and only if start*(start+1)/2 is not more than the amount |
| DamageList.AddHits | src/condition.cpp:1293-1303 | the hits of one strength: at least one, and as many as bring the sum nearest to the target; the loop ends |
| DamageList.NearerIff | src/condition.cpp:1300-1302 | the comparison of quotients as a comparison of integers |
| DamageList.InitDamage | src/condition.cpp:1046-1073 | damage that is already there is left alone; otherwise the list is filled exactly if the amount drawn is not zero, and the first hit is the strongest and within the maximum |
| CombatArea.CopyRotated | src/combat.cpp:1149-1193 | the copy stays inside the square, and its hits are those of the original turned around the centre |
| CombatArea.CopyArea | src/combat.cpp:1114-1194 | every operation brings each hit to the offset the operation says, and no other |
| CombatArea.SameCount | src/combat.cpp:1114-1194 | no copy loses or adds a hit |
| CombatArea.QuarterTurns | src/combat.cpp:1149-1193 | two quarter turns make the half turn and three the turn back |
| CombatArea.SetupArea | src/combat.cpp:1229-1252 | south, east and west are the turned north, and west is the half turn of east |
| CombatArea.SetupExtArea | src/combat.cpp:1324-1352 | each of the other diagonals is the reflection of the north-west exactly if that is square or empty |
| CombatArea.BothIffSquare | src/combat.cpp:1121-1148 | mirroring after flipping is the half turn exactly then |
| CombatArea.CreateArea | src/combat.cpp:1196-1227 | for any list and any number of rows: a value is written outside the matrix if and only if a 1 or 3 lies behind the last whole row; otherwise the values fill the matrix row by row, the centre is the last 2 or 3, and it lies inside exactly if that is not behind the last whole row |
| CombatArea.Ragged | src/combat.cpp:1205-1225 | of three lists with one value too many, one does no harm, one is written outside, and one has its centre outside |
| Base32.DecodeSecret | src/iologindata.cpp:55-82 | nothing for a character outside the alphabet; otherwise the whole bytes of the number the text is, in spite of the 32 bit buffer |
| Base32.RoundTrip | src/iologindata.cpp:55-82 | decoding the unpadded encoding of any bytes (section 6 of RFC 4648) gives them back |
| Base32.EncodedValue | src/iologindata.cpp:55-82 | the length and value of an encoding |

## Left out

- SQL, Lua callbacks, client messages, spectators, events, sockets, houses, chat and combat damage: not modelled; the steps assume that callbacks accept.
- Tiles, players and DepotChest, DepotLocker, Inbox, StoreInbox as cylinders: the item tree has plain containers only; slots, depots and the inbox of `ItemRows` are lists of root items, whose own weights and parent overrides are not modelled.
- ItemMoves.PlanMove: the exchange of items (need-exchange), which only a player's slots ask for and no container does, hangables and browse fields are not modelled.
- ItemMoves.PlanAt: the same.
- ItemMoves.InternalMoveItem: the same.
- ItemTree.World.QueryAdd: the query of the top parent, which for a container agrees to everything its own containers allow, and the refusal inside an inbox are not modelled.
- ItemTree.World.CreateItem: the defaults of an item type, such as one for a stack made with count 0, are left to the caller.
- Forest.GetItemHoldingCount: the 32 bit width of the counter is not modelled, and the iterator walks item trees as values, so changes of a container during a walk are not captured.
- ItemRows.LoadStore: rows whose parent numbers lead back to where they started, which saving never writes and which the loader would link into a cycle, are outside the theorem; no forest represents them (`RebuiltIsOrdered`).
- ItemRows.PutAway: the same.
- ItemRows.SaveItems: item payloads are opaque values, failing inserts and the 32 bit width of the running number are not modelled.
- MapItems.ReadAttrFrom: the unique id is skipped without its registry; attributes of doors, beds, depots and teleports are not modelled; numbers are little-endian.
- MapItems.LoadItem: the branch for stationary items that are already on the tile is not modelled.
- MapItems.SerializeCustoms: the order in which the hash table of custom attributes is traversed is the order of its entries. Doubles are bit patterns.
- MapItems.CustomComesBack: new entries of the table come last; the hash order after loading is not modelled.
- MapItems.SaveItem: items of a deprecated type are outside the round trip, because loading skips them.
- DecayWheel.Game.CheckDecay: the type chain of an item is finite, types decay in place, and the change of type by others while an item waits is not modelled; durations do not exceed 32 bits.
- DecayWheel.Game.InternalDecayItem: an item becomes its next type in place, and its removal always succeeds.
- Money.Purse.RemoveMoney: the coins below the cylinder are one flat list with two numbers of free places, in an offered bag and elsewhere, which grow when a stack is used up; a number for each container, coins that may not be removed, and the end of a trade when coins of an offered bag are taken are not modelled.
- Money.Purse.AddCoins: the same; on a tile there is always room.
- Market.Market.CreateOffer: the checks of the player, premium time and item type are not modelled. Whether items stack is a property of the ware they are traded under, and charges count as one.
- Market.Fee: the hundredth is an integer quotient; its rounding in floating point is not modelled.
- Stock.AddItem: delivered items lie in the inbox itself, which has room without limit; splitting and merging of linked items is proved in `ItemMoves`.
- Market.Market.CancelOffer: items always fit the inbox, and a sale is of a known item type.
- Market.Market.ProcessExpiredOffers: players always load, and rows are of known item types.
- Trade.Game.RequestTrade: the range of the players, whether the item can be picked up, its unique id and the event are taken to agree.
- Trade.Game.AcceptTrade: whether the partner can be reached and the event agrees are parameters, and which items move is one that `Trade.AcceptAndMove` computes. Moving an offered item, which closes the trade, is not modelled.
- Trade.AcceptAndMove: each player takes the item into one container; the search through slots and the containers inside containers is not modelled.
- TradeMoves.TransferItems: the same.
- TradeMoves.TestAll: the few kinds of items that can never be removed, beds, depots and inboxes, are not modelled.
- DbTasks.EveryTaskOnce: the queries themselves and the callbacks given to the dispatcher are not modelled; fairness of the scheduler is not assumed.
- DamageList.GenerateDamageList: quotients are exact rationals, and the 32 bit width of the products is not modelled.
- DamageList.InitDamage: the amount is a parameter; how it is drawn is not modelled.
- CombatArea.CopyRotated: sines and cosines of quarter turns are the integers they stand for.
- CombatArea.CreateArea: what happens after a value has been written outside the matrix is not modelled, nor are the lists made from a length and spread or a radius.
- OtbLoader.Load: memory mapping and file errors are not modelled.
- WalkCache.Creature.GetWalkCache: which tiles a creature may step on is a function; looking it up on the map is not modelled.
- Item attributes beyond what the byte format carries, descriptions, charges in play and `equals` beyond kind equality: not modelled.
