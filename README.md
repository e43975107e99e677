# Arturo's round table, modelled in Dafny

`Arturo<T>` (arturo.h) is a round table: a circular doubly linked ring of distinct knights.
One seat belongs to Arturo, who always sits first. The cursor `hablando` points at the
knight holding the floor, and the flag `interrupted` says that Arturo has cut in. The
counter `size` holds the number of seats. The operations are:

- `sentarArturo`: seat Arturo.
- `incorporarCaballero`: seat a knight to Arturo's right.
- `expulsarCaballero`: expel a knight, handing the floor on.
- `proximoCaballero` and `caballeroAnterior`: move the floor right or left.
- `hablaArturo`: Arturo interrupts.
- `cambioDeLugar`: Arturo moves to sit right of a knight.
- The copy constructor.
- `operator==` and `operator!=`.
- `mostrarArturo`: an ordered rendering.
- The destructor's drain loop.
- The queries `caballeroActual`, `arturoPresente`, `esVacia`, `tamanio` and `get_node`.

The project has three layers.

- `round_table.dfy`, module `RoundTable`:
  - A table as a value: `Table(knights, speaking, interrupted)`.
    - `knights` lists the knights rightward from Arturo's seat.
    - `speaking` is the position `hablando` points at.
  - `Valid` says the knights are distinct and `speaking` is a seat, or 0 on an empty table.
    An empty table is never interrupted.
  - Every operation of the class is a function on tables. Its `…Spec` lemma, or its own
    `ensures`, states what the header's comments promise.
- `links.dfy` and `arena.dfy`, modules `Links` and `Arena`:
  - The heap of `Nodo`s becomes an arena of handles: maps `val`, `izq` and `der`, plus the
    next fresh handle.
  - A ghost sequence `ring` lists the handles rightward from Arturo's seat.
  - `Linked(ring, izq, der)` states that right links go to the next handle of the ring and left
    links to the previous one, wrapping around.
  - `Inv` adds that the values are distinct, every handle is below the next fresh one, and the
    cursors point at ring positions 0 and `spk`.
- `seating.dfy` and `arturo.dfy`, modules `Seating` and `ArturoTable`:
  - The class `Arturo<T>` has the source's fields: `seats` (the arena), `arturo`, `hablando`,
    `interrupted` and `size`, plus ghost `ring` and `spk`.
  - Every mutating method rewrites the links and cursors with `modifies this`. Where arturo.h has a
    defect recorded under Findings, the class follows the behaviour the header's comments
    promise, and a separate member states what the code as written does:
    - `Unseat` clears `interrupted` when the table empties. `expulsarCaballero` as written keeps
      it: `RoundTable.ExpelKnightAsWritten` and `RoundTable.ExpelKnightAsWrittenKeepsFlag`.
    - `MoveArturo` also points the left link of Arturo's new right neighbour back at Arturo.
      `cambioDeLugar` as written does not: `Links.ChangePlaceLinksAsWritten` and
      `Links.ChangePlaceAsWrittenBreaksLeftLink`.
    - `Equals` compares the tables' values. `operator==` as written compares node pointers:
      `ArturoTable.Arturo.EqualsAsWritten`.
    - `ArturoPresent` is true when Arturo is seated. `arturoPresente` as written is true when
      he is not: `ArturoTable.Arturo.ArturoPresentAsWritten`.
    - `NotEquals` negates `Equals`. `operator!=` as written negates the pointer compare:
      `ArturoTable.Arturo.NotEqualsAsWritten`.
    - `Clear` drains the table with the corrected expulsion, so it ends with a new table. The
      source's last turn at an interrupted table leaves the flag set:
      `RoundTable.DrainLastTurnAsWritten`.
    - Every other method follows the code.
  - Every mutating method is proved to keep `Valid()`. Its new `Abstract()` is proved to be the table
    the matching `RoundTable` function gives.
  - The loops of `get_node`, the copy constructor, `operator==`, `mostrarArturo` and the
    destructor are `while` loops with invariants.
  - The `Seating` lemmas state what each group of link updates does to the ring.

Preconditions follow the header's `PRE` lines where the code relies on them. Without them the
code dereferences `NULL`, corrupts the ring, or reaches a state the invariant refuses:

- `caballeroActual`, `proximoCaballero` and `caballeroAnterior` need a knight seated. On an
  empty table they dereference the null `hablando` or `arturo`.
- `incorporarCaballero` needs Arturo seated. On an empty table it dereferences the null
  `arturo`.
- `hablaArturo` needs a knight seated in the class. The code itself only sets the flag, so on an
  empty table it gives an empty but interrupted table, which `Valid` refuses. That call is
  modelled as written by `RoundTable.ArturoSpeaksAsWritten`.
- `sentarArturo` needs an empty table. On an occupied one it abandons the old ring while `size`
  still counts its seats.
- `expulsarCaballero` needs `c` seated. Otherwise it dereferences the null result of `get_node`.
- `cambioDeLugar` needs three knights and `c` seated and not Arturo. With `c` absent or the
  table empty it dereferences `NULL`. With `c` equal to Arturo it cuts Arturo's seat out of the
  ring. With two knights the other knight's `izq` ends up pointing at its own seat.

Where the code handles a case its comment forbids, the model does not exclude it:

- `incorporarCaballero` of a seated knight is a no-op.
- Arturo may interrupt himself.

Where the code departs from what the header's comments promise, Findings records the
difference. The as-written member models the code, and the class follows the promise.

## Model

| member | source | states |
|---|---|---|
| RoundTable.Empty | arturo.h:189-195 | a new table has no knights and is not interrupted, and it is a valid table |
| RoundTable.CurrentKnight | arturo.h:331-335 | the current knight is seated: Arturo's value when interrupted, else the value at `hablando`'s seat |
| RoundTable.SeatArturo | arturo.h:233-239 | on an empty table Arturo becomes the only knight and the current one |
| RoundTable.AddKnight | arturo.h:242-254 | adding a knight keeps the table valid: knights distinct, floor on a seat |
| RoundTable.AddKnightSpec | arturo.h:242-254 | `c` is seated afterwards; if absent it sits immediately right of Arturo and the others keep their order, size + 1; if present nothing changes; interruption and the floor holder never change |
| RoundTable.AddKnightIdempotent | arturo.h:242-254 | seating the same knight twice equals seating it once |
| RoundTable.ExpelKnight | arturo.h:256-279 | expelling keeps the table valid; this is the corrected version that also clears the interruption of an emptied table |
| RoundTable.ExpelKnightAsWritten | arturo.h:256-279 | as written: Arturo stays while others remain and then nothing changes; otherwise `c` leaves, one seat fewer, and the floor stays on a seat; the flag is kept, even when the table empties |
| RoundTable.ExpelKnightSpec | arturo.h:256-279 | expelling Arturo while others are seated changes nothing; otherwise exactly `c` leaves, size - 1, the others keep their order, Arturo keeps the first seat and the flag is kept; an emptied table equals a new one |
| RoundTable.ExpelKnightFloor | arturo.h:263-266 | the floor stays with its holder; if the holder is expelled it passes to Arturo when interrupted, else to the holder's right neighbour |
| RoundTable.NextKnight | arturo.h:337-342 | the same knights, not interrupted, and the current knight is the right neighbour of `hablando`'s seat, even after an interruption |
| RoundTable.PreviousKnight | arturo.h:344-349 | the same knights, not interrupted, and the current knight is the left neighbour of `hablando`'s seat |
| RoundTable.ArturoSpeaks | arturo.h:351-355 | at a table with a knight seated: the same knights and `hablando`, interrupted, and the current knight is Arturo |
| RoundTable.ArturoSpeaksAsWritten | arturo.h:352-355 | as written: the same knights, interrupted; with a knight seated the table stays valid and Arturo holds the floor; on an empty table the result is not a valid table |
| RoundTable.ArturoSpeaksAsWrittenSpec | arturo.h:352-355 | `hablaArturo` as written equals `ArturoSpeaks` when a knight is seated; on an empty table it gives the empty interrupted table, and exactly then the result is not a valid table |
| RoundTable.NextThenPrevious | arturo.h:73-90 | without an interruption, next then previous (and previous then next) restores the table and the current knight |
| RoundTable.InterruptionKeepsTurn | arturo.h:73-99 | after `hablaArturo` the current knight is Arturo; the next and previous moves go from the interrupted seat, not from Arturo's |
| RoundTable.ChangePlace | arturo.h:281-291 | moving Arturo right of a seated knight other than himself, at a table of three or more, keeps the table valid |
| RoundTable.ChangePlaceSpec | arturo.h:106-118 | Arturo keeps the first seat and `c` is last, so Arturo sits right of `c`; the others keep their cyclic order; same size, same floor holder, same flag; if `c` is already left of Arturo nothing changes |
| RoundTable.ChangePlaceIdempotent | arturo.h:106-118 | moving right of the same knight a second time changes nothing |
| RoundTable.ChangePlaceExample | arturo.h:111-112 | the header's first two examples: `[A(0),1,2]` becomes `[A(0),2,1]`, and seen from speaker 1 `[1,2,A(0)]` becomes `[1,A(0),2]` |
| RoundTable.ChangePlaceExampleUnchanged | arturo.h:113 | the header's third example: moving right of the knight already on Arturo's left leaves the table as it was |
| RoundTable.Render | arturo.h:390-411 | the rendering has one entry per knight, and the first is the current knight |
| RoundTable.RenderShape | arturo.h:390-411 | the entries are the knights rotated to start at the floor holder; only Arturo's entry is tagged as Arturo, and only the interrupted speaker is starred |
| RoundTable.RenderExamples | arturo.h:139-146 | the header's renderings of an empty table, Arturo alone, Arturo speaking, knight 1 speaking and knight 1 interrupted |
| RoundTable.DrainStep | arturo.h:200-205 | one turn of the destructor's loop keeps the table valid and either removes a knight or clears an interruption |
| RoundTable.DrainStepExpelsNobody | arturo.h:200-205 | a turn expels nobody exactly when Arturo had interrupted the knight in the last seat, on his left, at a table of two or more; that turn only clears the flag and leaves the floor with Arturo |
| RoundTable.DrainLastTurnAsWritten | arturo.h:200-205 | the last turn at an interrupted table of one: as written the expulsion leaves an empty but interrupted table; the corrected turn leaves a new table |
| RoundTable.Drain | arturo.h:197-206 | the destructor's loop terminates on every valid table, with the table empty |
| RoundTable.CopyStep | arturo.h:224-228 | one turn of the copy loop keeps the copy valid and seats the copied knight |
| RoundTable.CopyStepNext | arturo.h:221-229 | each turn before the last appends the next knight leftward of the original's Arturo right after Arturo; it takes the floor if it held the original's floor |
| RoundTable.CopyEnds | arturo.h:221-229 | the copy starts as Arturo alone, and the last turn meets Arturo's own seat and changes nothing |
| RoundTable.CopyLoop | arturo.h:221-229 | after any number of turns of the copy loop the copy is a valid table with Arturo seated |
| RoundTable.CopyLoopCopied | arturo.h:222-229 | after `m` turns the copy holds Arturo followed by the `m` knights left of him, in their original order |
| RoundTable.CopyLoopComplete | arturo.h:209-230 | the loop ends with the original's knights and floor holder |
| RoundTable.ExpelKnightAsWrittenKeepsFlag | arturo.h:275-277 | as written, for `[A(0),1]`: interrupt, expel 1, expel Arturo leaves an empty but interrupted table; the corrected expulsion gives a new table |
| Links.LinksAt | arturo.h:164-173 | on a linked ring, `der` of every seat is the next seat and `izq` the previous, wrapping around |
| Links.LinkedInverse | arturo.h:164-173 | on a linked ring, `izq` and `der` are mutual inverses |
| Links.OneCycle | arturo.h:164-178 | the right links form one cycle of exactly `size` seats: no shorter positive walk returns to its start |
| Links.SpliceIn | arturo.h:247-251 | the four link updates of `incorporarCaballero` insert the fresh seat right of the given one, and the ring stays linked and distinct |
| Links.SpliceOut | arturo.h:269-270 | the two link updates of `expulsarCaballero` remove the seat, and the ring stays linked and distinct |
| Links.ChangePlaceLinksAsWritten | arturo.h:285-290 | the five link writes keep the set of seats, and leave `c`'s seat linked rightward to Arturo and Arturo leftward to it |
| Links.ChangePlaceLinks | arturo.h:285-290 | the corrected writes also leave `c`'s seat right-linked to Arturo, and the seat right of Arturo left-linked back to him |
| Links.ChangePlaceLinksSplice | arturo.h:284-290 | the corrected link updates of `cambioDeLugar` are an unlink of Arturo's seat followed by a splice right of `c`'s seat |
| Links.ChangePlaceRing | arturo.h:284-290 | the corrected updates give a linked ring of distinct seats: Arturo's seat, then the others rotated so that `c`'s seat comes last |
| Links.ChangePlaceAsWrittenBreaksLeftLink | arturo.h:284-290 | as written, the left link of Arturo's new right neighbour does not point back at Arturo, so no ring through Arturo is linked afterwards |
| Seating.SeatArturoLinks | arturo.h:233-239 | a fresh seat linked to itself is a ring of one; the table read off it is `RoundTable.SeatArturo` |
| Seating.AddKnightLinks | arturo.h:245-252 | splicing the fresh seat right of Arturo keeps the invariant, and the table read off the seats is `RoundTable.AddKnight` |
| Seating.RemoveSeatLinks | arturo.h:269-270 | unlinking the seat at position `i` leaves a ring without it |
| Seating.ExpelSpeaker | arturo.h:264-265 | the seat `hablando` moves to (Arturo's when interrupted, else the right neighbour of the expelled seat) is a seat of the shortened ring |
| Seating.ExpelLastLinks | arturo.h:269-277 | expelling the only knight leaves an empty ring and, with cursors and flag cleared, the new table |
| Seating.ExpelKnightLinks | arturo.h:259-278 | expelling a knight other than Arturo keeps the invariant, and the table read off the seats is `RoundTable.ExpelKnight` |
| Seating.ExpelLinks | arturo.h:256-279 | every expulsion that removes a seat keeps the invariant and yields `RoundTable.ExpelKnight` |
| Seating.ChangePlaceTable | arturo.h:281-291 | the table `RoundTable.ChangePlace` gives is the one read off the rotated ring, with the floor on the same seat |
| Seating.ChangePlaceSeats | arturo.h:281-291 | the corrected link updates keep the invariant, and the table read off the seats is `RoundTable.ChangePlace` |
| Seating.ReseatArturo | arturo.h:284-290 | the same, for the two seat handles the method holds: Arturo's and `c`'s |
| Seating.CopyWalk | arturo.h:222-223 | turn `i` of the copy loop reads the knight `i + 1` seats left of Arturo, and `izq` leads one seat further left |
| Seating.ShowSeat | arturo.h:396-406 | the entry the rendering loop writes at a seat is that seat's entry, and `der` leads to the next seat |
| ArturoTable.Arturo.constructor | arturo.h:189-195 | a new object is valid and holds the new table: no knights, both cursors null, size 0, not interrupted |
| ArturoTable.Arturo.Copy | arturo.h:209-230 | the copy holds the same table as the original |
| ArturoTable.Arturo.CopyFrom | arturo.h:215-230 | from an empty table, the copy constructor's body rebuilds the original's table |
| ArturoTable.Arturo.CopyKnights | arturo.h:222-229 | the copy loop walks the original leftward `size` times and ends with the table `RoundTable.CopyLoop` describes after `size` turns |
| ArturoTable.Arturo.CopyTurn | arturo.h:223-229 | one turn copies the knight at the walked seat and moves the walk one seat left |
| ArturoTable.Arturo.CopyKnight | arturo.h:224-228 | copying one knight takes the copy from turn `i` to turn `i + 1` of `RoundTable.CopyLoop` |
| ArturoTable.Arturo.HandFloorTo | arturo.h:226-228 | `hablando = get_node(c)` gives the floor to `c` and changes nothing else |
| ArturoTable.Arturo.IsEmpty | arturo.h:363-367 | true exactly when no knight is seated |
| ArturoTable.Arturo.Size | arturo.h:369-373 | the number of knights seated |
| ArturoTable.Arturo.ArturoPresent | arturo.h:101-104 | true exactly when Arturo (any knight) is seated: the corrected `arturoPresente` |
| ArturoTable.Arturo.ArturoPresentAsWritten | arturo.h:357-361 | as written: true exactly when the table is empty, the negation of `ArturoPresent` |
| ArturoTable.Arturo.CurrentKnight | arturo.h:331-335 | the value `RoundTable.CurrentKnight` gives for the object's table |
| ArturoTable.Arturo.FindSeat | arturo.h:375-388 | the linear search returns null when `c` is not seated, and otherwise the handle of `c`'s seat |
| ArturoTable.Arturo.SeatArturo | arturo.h:233-239 | the table becomes `RoundTable.SeatArturo`: Arturo alone, speaking, his seat linked to itself both ways, size 1 |
| ArturoTable.Arturo.AddKnight | arturo.h:242-254 | the table becomes `RoundTable.AddKnight`; both cursors keep their seats |
| ArturoTable.Arturo.SeatRightOfArturo | arturo.h:245-252 | a knight not yet seated is spliced in right of Arturo; the table becomes `RoundTable.AddKnight` |
| ArturoTable.Arturo.ExpelKnight | arturo.h:256-279 | the table becomes `RoundTable.ExpelKnight` |
| ArturoTable.Arturo.Unseat | arturo.h:259-278 | the seat of `c` is unlinked and the cursors handed on; the table becomes `RoundTable.ExpelKnight` |
| ArturoTable.Arturo.ChangePlace | arturo.h:281-291 | the table becomes `RoundTable.ChangePlace`; both cursors keep their seats |
| ArturoTable.Arturo.MoveArturo | arturo.h:284-290 | the corrected relinking, given the seat of `c`, yields `RoundTable.ChangePlace`, with the invariant restored |
| ArturoTable.Arturo.NextKnight | arturo.h:337-342 | the table becomes `RoundTable.NextKnight` |
| ArturoTable.Arturo.PreviousKnight | arturo.h:344-349 | the table becomes `RoundTable.PreviousKnight` |
| ArturoTable.Arturo.ArturoSpeaks | arturo.h:351-355 | the table becomes `RoundTable.ArturoSpeaks` |
| ArturoTable.Arturo.Equals | arturo.h:130-135 | true exactly when both objects hold the same table: same knights in the same seats from Arturo, same floor holder, same flag |
| ArturoTable.Arturo.NotEquals | arturo.h:293-297 | true exactly when the tables differ |
| ArturoTable.Arturo.EqualsAsWritten | arturo.h:299-329 | as written: two distinct objects are equal exactly when both are empty, and an object equals itself exactly when it has at most two knights |
| ArturoTable.Arturo.NotEqualsAsWritten | arturo.h:293-297 | as written: two distinct objects differ unless both are empty, and an object differs from itself exactly when it has three or more knights |
| ArturoTable.Arturo.Show | arturo.h:390-411 | the entries written are `RoundTable.Render` of the object's table |
| ArturoTable.Arturo.Clear | arturo.h:197-206 | the destructor's loop terminates with the table empty |

## Left out

- The text of `mostrarArturo` and `operator<<` (arturo.h:183-186, 394-408) is not modelled: brackets, commas, `endl` and `T`'s `operator<<`. The rendering is the sequence of tagged entries it would print.
- Memory management is not modelled: `new` and `delete` (arturo.h:236, 246, 272). Seats are handles into an arena that only grows. An expelled seat's handle is never reused, and the destructor's memory release is reduced to its drain loop (`ArturoTable.Arturo.Clear`).
- The private `operator=` (arturo.h:155-159) is not modelled; it only asserts false.
- tests.cpp is not part of this model. Its framework, mini_test.h, is not available.
- ArturoTable.Arturo.Size: `size` is a C++ `int`; the model uses an unbounded integer, so overflow past 2^31 - 1 knights is not modelled.
- ArturoTable.Arturo.Copy: the source assigns `interrupted` before it seats anyone (arturo.h:215); the model assigns it last. For a valid original the result is the same. The only original where the order shows is an empty but interrupted table. The source reaches it through the as-written `expulsarCaballero` of the last knight after an interruption, or through `hablaArturo` on an empty table; the model's invariant refuses it.
- RoundTable.ArturoSpeaks: requires a knight seated, although `hablaArturo` (arturo.h:352-355) also sets the flag on an empty table. That call gives an empty but interrupted table, which `Valid` refuses; `RoundTable.ArturoSpeaksAsWritten` models it and `RoundTable.ArturoSpeaksAsWrittenSpec` shows the state it reaches.
- ArturoTable.Arturo.ArturoSpeaks: requires a knight seated, for the same reason: the class keeps `Valid()`, and an empty but interrupted table breaks it. The method does not model `hablaArturo` on an empty table.
- ArturoTable.Arturo.ChangePlace: `c` must be seated and not be Arturo. With `c` absent the source dereferences the null result of `get_node`. With `c` equal to Arturo it cuts Arturo's seat out of the ring and links it to itself.
- ArturoTable.Arturo.ExpelKnight: `c` must be seated. Otherwise the source dereferences the null result of `get_node` (arturo.h:269).
- ArturoTable.Arturo.MoveArturo: the link updates of `cambioDeLugar` are modelled as one update of the arena field, not as five pointer writes in sequence; the five writes are modelled in order by `Links.ChangePlaceLinksAsWritten`.
- Pointer identity between two objects is not modelled beyond `EqualsAsWritten`. Each object owns its own arena, so the nodes of two tables never alias.

## Findings

| source | as written | input that shows it | evidently intended | confidence | as-written member | corrected member |
|---|---|---|---|---|---|---|
| arturo.h:284-290 | `cambioDeLugar` relinks Arturo's seat but never sets `izq` of Arturo's new right neighbour | `[A(0),1,2]`, `cambioDeLugar(1)`: Arturo's new right neighbour 2 keeps 1 as its left neighbour | the new right neighbour's `izq` is Arturo, so the ring stays doubly linked (the header's examples at arturo.h:111-113) | not executed | Links.ChangePlaceAsWrittenBreaksLeftLink | Links.ChangePlaceRing |
| arturo.h:310-321 | `operator==` compares the `arturo` and `hablando` node pointers, and walks this table rightward and the other leftward; `operator!=` (arturo.h:296) negates it and inherits the defect | two separately built tables each holding Arturo 0 alone compare unequal, and `!=` calls them different; a table `[A(0),1,2]` compared with itself compares unequal | value equality as described at arturo.h:130-135 | not executed | ArturoTable.Arturo.EqualsAsWritten | ArturoTable.Arturo.Equals |
| arturo.h:360 | `arturoPresente` returns `arturo == NULL` | on a new table it returns true, and with Arturo seated it returns false | true exactly when Arturo is seated (arturo.h:101-104) | not executed | ArturoTable.Arturo.ArturoPresentAsWritten | ArturoTable.Arturo.ArturoPresent |
| arturo.h:275-277 | `expulsarCaballero` clears both cursors of an emptied table but keeps `interrupted` | `[A(0),1]` with 1 speaking: `hablaArturo`, expel 1, expel 0 leaves an empty interrupted table, which `operator==` (arturo.h:306) tells apart from a new one. `hablaArturo` on a new table reaches the same state (arturo.h:352-355; `RoundTable.ArturoSpeaksAsWrittenSpec`) | an emptied table is a new table, not interrupted | not executed | RoundTable.ExpelKnightAsWrittenKeepsFlag | RoundTable.ExpelKnightSpec |
