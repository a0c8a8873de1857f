# Arturo's round table, in Dafny

A model of the generic class `Arturo<T>` from `arturo.h`. It is a round table of distinct knights, seated in a ring that
is linked both ways. Three roles sit on top of the ring:

- **Arturo**: he always sits down first and may only leave when he is alone.
- **The speaker**: the knight who is speaking now.
- **The interrupted knight**: recorded when Arturo takes the floor from the speaker (`hablaArturo`).

The project has three modules:

- `mesas.dfy`, module `Mesas`: the abstract table and every public operation as a function on it. The abstract table
  is `Mesa<T>`: the knights read clockwise from Arturo's seat (seat 0), the speaker's seat and the interrupted knight's
  seat, if any. Because Arturo is always at seat 0 while anybody is seated, this description is unique. So the
  structural equality of `operator==` is equality of `Mesa` values.
- `propiedades.dfy`, module `Propiedades`: what the doc comments of `arturo.h` promise about each operation, proved
  as lemmas about those functions. This covers:
  - neighbours after seating and expelling;
  - turn changes and interruptions;
  - Arturo's change of seat and its worked examples;
  - the listing of `mostrarArturo`, including that it can be read back;
  - `operator==`.
- `arturo.dfy`, module `MesaRedonda`: the class itself, over heap nodes. Each `Nodo` holds a knight, `sig` (the seat to
  the right) and `ant` (the seat to the left), and a mark for Arturo's seat. The object keeps:
  - `len`;
  - pointers to Arturo's seat, the speaker's seat and the interrupted knight's seat;
  - ghost fields `Nodos` (the seats clockwise from Arturo), `Modelo` (the `Mesa` it stands for) and `Repr`.

  `Valid()` says that the seats form one ring (`Anillo`), hold the knights of `Modelo` in order, and that the three
  pointers hold the roles. Every mutator that changes the seating re-links the ring in place. The turn changes and
  `hablaArturo` only move the role pointers. Every mutator is proved to leave `Modelo` equal to the matching function of
  `Mesas` applied to the old `Modelo`. Every query is proved to return what that function
  says.

Two behaviours come from the doc comments of arturo.h:

- The listing of `mostrarArturo` starts at the speaker, not at Arturo (arturo.h:142: `[c1, c2, ARTURO(c0)]` while c1
  speaks).
- A new knight sits immediately right of Arturo (arturo.h:42-46), so seating c2 and then c1 gives c0, c1, c2 clockwise.

## Model

| member | source | states |
|---|---|---|
| Mesas.Vacia | arturo.h:17-20 | the table of a new object has nobody seated and nobody interrupted |
| Mesas.Hablante | arturo.h:64-69 | the knight `caballeroActual` returns is seated, and while an interruption is recorded it is Arturo |
| Mesas.ConArturo | arturo.h:33-39 | after `sentarArturo(a)` the table is valid, a is the only knight, he is speaking, nobody is interrupted and he is his own right and left neighbour |
| Mesas.Incorporado | arturo.h:41-48 | seating a new knight right of Arturo keeps the table invariant (no repeated knight, speaker seated, interruption only while Arturo speaks) |
| Mesas.Eliminado | arturo.h:221-241 | removing the knight at a seat (Arturo only when alone) keeps the table invariant |
| Mesas.Expulsado | arturo.h:50-62 | expelling a seated knight (Arturo only when alone) keeps the table invariant |
| Mesas.Avanzado | arturo.h:71-78 | the next turn keeps the table invariant |
| Mesas.Retrocedido | arturo.h:80-88 | the previous turn keeps the table invariant |
| Mesas.Interrumpida | arturo.h:90-97 | Arturo's interruption keeps the table invariant |
| Mesas.Reubicado | arturo.h:104-116 | Arturo's change of seat keeps the table invariant |
| Propiedades.IncorporadoSienta | arturo.h:41-48 | the table grows by one; the new knight sits immediately right of Arturo; Arturo, the speaker and the interrupted knight are unchanged; the seated knights are the old ones plus the new one |
| Propiedades.IncorporadoVecinos | arturo.h:41-48 | every knight keeps his right-hand neighbour except Arturo, whose new neighbour is the new knight; the new knight's right-hand neighbour is Arturo's former one |
| Propiedades.ExpulsadoQuita | arturo.h:50-62 | the expelled knight is no longer seated, everybody else still is, the table shrinks by one and Arturo keeps seat 0 |
| Propiedades.ExpulsadoRoles | arturo.h:50-55 | an expelled speaker hands the turn to the knight on his right, otherwise the speaker stays; expelling the interrupted knight clears the interruption, otherwise it stays |
| Propiedades.ExpulsadoVecinos | arturo.h:50-62 | every remaining knight keeps his right-hand neighbour, except the expelled knight's left neighbour, who now has the expelled knight's right neighbour |
| Propiedades.ExpulsadoInterrumpido | arturo.h:53-55 | after the interrupted knight is expelled, Arturo speaks with no interruption; the next turn goes to Arturo's right neighbour and the previous turn to his left neighbour |
| Propiedades.CambioDeTurno | arturo.h:71-88 | next and previous move the floor one seat right or left of the speaker, or of the interrupted knight if there is one; neither leaves an interruption; the knights are unchanged |
| Propiedades.AvanzarRetroceder | arturo.h:71-88 | without an interruption, previous undoes next and next undoes previous |
| Propiedades.InterrumpidaRoles | arturo.h:90-97 | after `hablaArturo` Arturo speaks and the former speaker, who was not Arturo, is the interrupted knight |
| Propiedades.InterrupcionTransparente | arturo.h:90-93 | the interruption ends at the next turn change, which goes exactly where it would have gone without the interruption |
| Propiedades.AvanzadoVeces | arturo.h:71-78 | any number of next turns keeps the table invariant and the knights |
| Propiedades.RetrocedidoVeces | arturo.h:80-88 | any number of previous turns keeps the table invariant and the knights |
| Propiedades.AvanzadoVecesHablante | arturo.h:71-83 | k next turns in a row (at most one round) move the speaker exactly k seats to the right, wrapping past the last seat, with no interruption |
| Propiedades.VueltaCompleta | arturo.h:71-78 | one full round of next turns gives the floor back to the first speaker |
| Propiedades.AvanzadoVecesInterrumpido | arturo.h:71-78 | one or more next turns in a row never leave an interruption, even when Arturo had interrupted before the first |
| Propiedades.IdaYVuelta | arturo.h:80-88 | k previous turns undo k next turns, for every k |
| Propiedades.ReubicadoSienta | arturo.h:104-116 | after `cambioDeLugar(c)` Arturo sits immediately right of c; the same number of knights are seated; the others keep their cyclic order; the speaker and the interrupted knight are the same knights |
| Propiedades.ReubicadoVecino | arturo.h:113-114 | Arturo keeps seat 0, the table keeps its size and c's right-hand neighbour is Arturo |
| Propiedades.ReubicadoOrden | arturo.h:104-107 | the knights other than Arturo are a rotation of their former order |
| Propiedades.ReubicadoRoles | arturo.h:107 | the speaker and the interrupted knight are the same knights as before the move |
| Propiedades.ReubicadoQuieto | arturo.h:111 | if Arturo already sits right of c, the move changes nothing |
| Propiedades.ReubicadoIdempotente | arturo.h:104-116 | moving Arturo next to the same knight twice is the same as once |
| Mesas.Mostrada | arturo.h:136-145 | the listing of `mostrarArturo` has one entry per seated knight; the Mostrada* lemmas below state what the entries are |
| Propiedades.MostradaEn | arturo.h:136-145 | entry k of the listing is the entry of the seat k places right of the speaker |
| Propiedades.MostradaFormato | arturo.h:136-143 | the listing has one entry per knight, is `[]` exactly for the empty table, starts with the speaker and names only seated knights |
| Propiedades.MostradaVecinos | arturo.h:140-143 | each entry names the right-hand neighbour of the knight named before it, so the listing goes clockwise |
| Propiedades.MostradaMarcas | arturo.h:139-143 | exactly Arturo's entry is written as `ARTURO(..)` and exactly the interrupted knight's as `*..` |
| Propiedades.ArturoEnMostrada | arturo.h:142 | Arturo's entry comes right after the knights from the speaker to the last seat |
| Propiedades.FichasLeidas | arturo.h:136-145 | the entries read from Arturo's seat give back the knights and the interrupted seat |
| Propiedades.LeidaMostrada | arturo.h:136-145 | the table can be read back from its listing, so the listing loses nothing |
| Propiedades.IgualesSiiMismaMostrada | arturo.h:128-134 | two tables are equal if and only if their listings are equal |
| Propiedades.EjemploCambioDeLugarUno | arturo.h:109 | first example: with c1 at Arturo's right, moving Arturo next to c1 gives [ARTURO(c0), c2, c1] |
| Propiedades.EjemploCambioDeLugarDos | arturo.h:110 | second example: with c1 speaking, moving Arturo next to c1 gives [c1, ARTURO(c0), c2] |
| Propiedades.EjemploCambioDeLugarTres | arturo.h:111 | third example: Arturo already sits right of c2, so the table is unchanged |
| Propiedades.EjemplosMostrarArturo | arturo.h:138-140 | the listings of the empty table, of Arturo alone and of a two-knight table |
| Propiedades.EjemploTresCaballeros | arturo.h:141-143 | seating c2 and then c1 gives [c0, c1, c2] from Arturo; the next turn goes to c1; Arturo then interrupts c1 |
| Propiedades.EjemplosMostrarArturoTres | arturo.h:141-143 | the three-knight listings: [ARTURO(c0), c1, c2], [c1, c2, ARTURO(c0)] and [ARTURO(c0), *c1, c2] |
| MesaRedonda.Nodo.constructor | arturo.h:160-163 | a new seat holds its knight, has no links and is not Arturo's |
| MesaRedonda.Nodo.DeArturo | arturo.h:160-169 | Arturo's seat holds his knight, has no links and carries the `esArturo` mark |
| MesaRedonda.Enlazar | arturo.h:272-279 | linking a new node between two neighbouring seats of a ring gives a ring with the new node at that place |
| MesaRedonda.Desenlazar | arturo.h:233-237 | unlinking a seat from a ring of at least two seats closes the ring around it |
| MesaRedonda.Trasladar | arturo.h:104-116 | moving Arturo's node to sit right of another seat gives a ring read from Arturo's new place |
| MesaRedonda.Arturo.FichaDeNodo | arturo.h:136-145 | the entry for a seat can be read off its node (Arturo's mark, whether it is the interrupted seat), and the node's `sig` is the next seat |
| MesaRedonda.Arturo.constructor | arturo.h:17-20 | a new table is valid and has nobody seated |
| MesaRedonda.Arturo.Copia | arturo.h:22-26 | the copy is valid, is made only of new nodes and stands for the same table as the original |
| MesaRedonda.Arturo.SentarCopia | arturo.h:188-194 | seating the original's knights one by one through `iesimo` and `incorporarCaballero` gives its knights in order, with Arturo speaking |
| MesaRedonda.Arturo.FijarRoles | arturo.h:22-26 | handing over the roles of the original gives the copy the original's speaker and interrupted knight |
| MesaRedonda.Arturo.SentarArturo | arturo.h:33-39 | on an empty table, the object afterwards stands for `ConArturo(a)`, using one new node |
| MesaRedonda.Arturo.IncorporarCaballero | arturo.h:41-48 | for a knight not yet seated at a table with Arturo, the object afterwards stands for `Incorporado(old, c)` and the ring stays valid |
| MesaRedonda.Arturo.NodoIesimo | arturo.h:196-206 | walking i steps right from Arturo reaches seat i, which holds knight i |
| MesaRedonda.Arturo.Iesimo | arturo.h:196-206 | `iesimo(i)` returns the knight i seats right of Arturo |
| MesaRedonda.Arturo.Eliminar | arturo.h:221-241 | `eliminar(i)` leaves the object standing for `Eliminado(old, i)`: the ring is closed around the seat, the speaker's role passes right and an interruption of that seat lapses |
| MesaRedonda.Arturo.ExpulsarCaballero | arturo.h:50-62 | `expulsarCaballero(c)` leaves the object standing for `Expulsado(old, c)`, with Arturo only when alone |
| MesaRedonda.Arturo.CaballeroActual | arturo.h:64-69 | on a non-empty table, returns the speaker |
| MesaRedonda.Arturo.ProximoCaballero | arturo.h:71-78 | on a non-empty table, the object afterwards stands for `Avanzado(old)` |
| MesaRedonda.Arturo.CaballeroAnterior | arturo.h:80-88 | on a non-empty table, the object afterwards stands for `Retrocedido(old)` |
| MesaRedonda.Arturo.HablaArturo | arturo.h:90-97 | when Arturo is not already speaking, the object afterwards stands for `Interrumpida(old)` |
| MesaRedonda.Arturo.ArturoPresente | arturo.h:254-269 | walking the ring in search of the marked seat finds Arturo exactly when the table is not empty |
| MesaRedonda.Arturo.CambioDeLugar | arturo.h:104-116 | on a table of at least three seats, for a knight c other than Arturo, the object afterwards stands for `Reubicado(old, c)` |
| MesaRedonda.Arturo.EsVacia | arturo.h:118-121 | true exactly when nobody is seated |
| MesaRedonda.Arturo.Tamanio | arturo.h:208-211 | the number of seated knights |
| MesaRedonda.Arturo.Iguales | arturo.h:128-134 | `operator==` is true exactly when both objects stand for the same table: the same knights in the same seats from Arturo, the same speaker and the same interrupted knight |
| MesaRedonda.Arturo.MostrarArturo | arturo.h:136-145 | walking the ring from the speaker gives exactly the listing `Mostrada` of the table |

## Left out

- The destructor and manual memory (arturo.h:213-218, `new`/`delete`): Dafny is garbage-collected, so leak-freedom has no counterpart.
- The private `operator=` (arturo.h:152-155) only asserts false. `operator<<` and the `ostream` plumbing (arturo.h:145, 176-179) are not modelled.
- `mostrarArturo` is modelled as the sequence of entries it writes (`Ficha`: plain, `ARTURO(c)` or `*c`), not as characters.
- The fields `prim` and `fin` are replaced by pointers to Arturo's seat, the speaker's seat and the interrupted knight's seat. The doc comments need exactly these roles.
- The implementation bodies in arturo.h:183-279 are an unfinished draft. The model follows the doc comments instead, and does not reproduce these defects:
  - `iesimo` returns a field `dato` that does not exist.
  - `arturoPresente` uses an undeclared `esta`, its loop never runs, and it compares where it should assign.
  - `ASSERT` is not defined in arturo.h.
  - `incorporarCaballero` never links its node.
  - `eliminar` treats the ring as a singly linked list that is not circular.
  - `sentarArturo` never marks Arturo's seat.
- MesaRedonda.Arturo.SentarCopia: the draft copy loop (arturo.h:188-194) calls `incorporarCaballero` on an empty table for every seat from 0. The model instead:
  - seats knight 0 with `sentarArturo`;
  - then seats the others from the last to the first, because each new knight sits right of Arturo;
  - then hands over the speaker's and the interrupted knight's roles, which the draft loop drops.
- MesaRedonda.Arturo.Copia: independence of the copy (arturo.h:22-26) is stated only as "made of new nodes" (`fresh(Repr)`).
- MesaRedonda.Arturo.HablaArturo: also requires a non-empty table. On an empty table there is no Arturo to take the floor.
- MesaRedonda.Arturo.ExpulsarCaballero: requires c to be seated. The doc comment only speaks of seated knights.
- MesaRedonda.Arturo.CambioDeLugar: also requires c to be seated and not to be Arturo; arturo.h:113 asks only for at least three knights. Arturo cannot sit right of himself or of an absent knight.
- Mesas.Reubicado: the same restriction as MesaRedonda.Arturo.CambioDeLugar.
- MesaRedonda.Arturo.Eliminar: excludes `eliminar(0)` on a table with more than one knight, as Mesas.Eliminado does, because Arturo may only leave when alone (arturo.h:57). The destructor's teardown calls `eliminar(0)` repeatedly (arturo.h:216), and the destructor is not modelled.
- Mesas.Eliminado: the same restriction as MesaRedonda.Arturo.Eliminar.
- `tamanio` returns an unbounded `nat` instead of a C++ `int`. No table is large enough for the difference to matter.
- The knights' type needs only equality (`T(==)`), matching the assumptions stated at arturo.h:7-11.
