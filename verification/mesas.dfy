/**
 * The abstract round table that an `Arturo<T>` object (arturo.h) stands for,
 * and every public operation of that class as a function on it.
 *
 * A table is the list of its knights read clockwise ("to the right")
 * starting at Arturo's seat, the seat of the knight who is speaking and the
 * seat of the knight Arturo interrupted, if any. Arturo can only leave the
 * table when he is alone, so a non-empty table always has him at seat 0 and
 * this description of a table is unique: two tables are equal exactly when
 * their descriptions are.
 */
module Mesas {

  datatype Option<T> = None | Some(value: T)

  /** Knights clockwise from Arturo's seat (seat 0), the seat of the knight
      who is speaking, and the seat of the knight Arturo interrupted. */
  datatype Mesa<T> = Mesa(caballeros: seq<T>, actual: nat, interrumpido: Option<nat>)

  /** One entry of the listing written by `mostrarArturo`: a plain knight,
      Arturo (written `ARTURO(c)`) or the interrupted knight (written `*c`). */
  datatype Ficha<T> = Simple(valor: T) | DeArturo(valor: T) | Interrumpido(valor: T)

  // ---------------------------------------------------------------------------
  // Seats of a ring of n seats

  /** The seat to the right (clockwise) of seat i. */
  function Derecha(n: nat, i: nat): (d: nat)
    requires i < n
    ensures d < n
  {
    if i + 1 == n then 0 else i + 1
  }

  /** The seat to the left (counter-clockwise) of seat i. */
  function Izquierda(n: nat, i: nat): (z: nat)
    requires i < n
    ensures z < n
  {
    if i == 0 then n - 1 else i - 1
  }

  /** Position of knight c, who must be seated. */
  function Posicion<T(==)>(s: seq<T>, c: T): (k: nat)
    requires c in s
    ensures k < |s| && s[k] == c
    ensures forall j :: 0 <= j < k ==> s[j] != c
  {
    if s[0] == c then 0 else 1 + Posicion(s[1..], c)
  }

  /** The knight sitting immediately to the right of knight x. */
  function DerechaDe<T(==)>(s: seq<T>, x: T): T
    requires x in s
  {
    s[Derecha(|s|, Posicion(s, x))]
  }

  /** The knight sitting immediately to the left of knight x. */
  function IzquierdaDe<T(==)>(s: seq<T>, x: T): T
    requires x in s
  {
    s[Izquierda(|s|, Posicion(s, x))]
  }

  /** The seats read clockwise starting at seat k instead of seat 0. */
  function Rotacion<X>(s: seq<X>, k: nat): seq<X>
    requires k <= |s|
  {
    s[k..] + s[..k]
  }

  // ---------------------------------------------------------------------------
  // Well-formed tables

  /** No knight is seated twice. */
  predicate SinRepetidos<T(==)>(s: seq<T>)
  {
    forall i, j :: 0 <= i < j < |s| ==> s[i] != s[j]
  }

  /** The invariant every table keeps: distinct knights, a speaker whenever
      somebody is seated, and an interrupted knight only while Arturo speaks
      and never Arturo himself. */
  predicate Valida<T(==)>(m: Mesa<T>)
  {
    && SinRepetidos(m.caballeros)
    && (if m.caballeros == [] then m.actual == 0 && m.interrumpido == None
        else
          && m.actual < |m.caballeros|
          && (m.interrumpido.Some? ==>
                m.actual == 0 && 0 < m.interrumpido.value < |m.caballeros|))
  }

  /** The knight who is speaking (`caballeroActual`). */
  function Hablante<T(==)>(m: Mesa<T>): (h: T)
    requires Valida(m) && m.caballeros != []
    ensures h in m.caballeros
    ensures m.interrumpido.Some? ==> h == m.caballeros[0]
  {
    m.caballeros[m.actual]
  }

  /** The knight Arturo interrupted, if any. */
  function Interrupcion<T(==)>(m: Mesa<T>): Option<T>
    requires Valida(m)
  {
    if m.interrumpido.Some? then Some(m.caballeros[m.interrumpido.value]) else None
  }

  /** The seat from which the next turn change counts: the interrupted
      knight's if Arturo interrupted, otherwise the speaker's. */
  function Base<T(==)>(m: Mesa<T>): nat
    requires Valida(m)
  {
    if m.interrumpido.Some? then m.interrumpido.value else m.actual
  }

  // ---------------------------------------------------------------------------
  // The operations of Arturo<T>

  /** The table with nobody seated (the default constructor). */
  function Vacia<T>(): (r: Mesa<T>)
    ensures r.caballeros == [] && r.interrumpido == None
  {
    Mesa([], 0, None)
  }

  /** `sentarArturo(a)` on the empty table: Arturo alone, speaking, his own
      neighbour on both sides. */
  function ConArturo<T(==)>(a: T): (r: Mesa<T>)
    ensures Valida(r) && |r.caballeros| == 1 && r.caballeros[0] == a
    ensures Hablante(r) == a && Interrupcion(r) == None
    ensures DerechaDe(r.caballeros, a) == a && IzquierdaDe(r.caballeros, a) == a
  {
    Mesa([a], 0, None)
  }

  /** Seat number of a knight once somebody new sits at seat 1. */
  function Corrido(i: nat): nat
  {
    if i == 0 then 0 else i + 1
  }

  /** `incorporarCaballero(c)`: c sits immediately to Arturo's right. */
  function Incorporado<T(==)>(m: Mesa<T>, c: T): (r: Mesa<T>)
    requires Valida(m) && m.caballeros != [] && c !in m.caballeros
    ensures Valida(r)
  {
    var cs := m.caballeros;
    Mesa([cs[0], c] + cs[1..], Corrido(m.actual),
         match m.interrumpido
         case None => None
         case Some(i) => Some(Corrido(i)))
  }

  /** Seat number of a knight once the knight at seat k has left. */
  function Quitado(i: nat, k: nat): nat
    requires i != k
  {
    if i < k then i else i - 1
  }

  /** `eliminar(k)`: the knight at seat k leaves. Arturo (seat 0) may only
      leave when he is alone. A speaker who leaves hands the turn to the
      knight on his right; if the interrupted knight leaves, Arturo goes on
      speaking uninterrupted. */
  function Eliminado<T(==)>(m: Mesa<T>, k: nat): (r: Mesa<T>)
    requires Valida(m) && k < |m.caballeros|
    requires k == 0 ==> |m.caballeros| == 1
    ensures Valida(r)
  {
    var cs := m.caballeros;
    if k == 0 then Vacia()
    else
      var habla := if m.actual == k then Derecha(|cs|, k) else m.actual;
      Mesa(cs[..k] + cs[k + 1..], Quitado(habla, k),
           match m.interrumpido
           case None => None
           case Some(i) => if i == k then None else Some(Quitado(i, k)))
  }

  /** `expulsarCaballero(c)`: knight c leaves the table. */
  function Expulsado<T(==)>(m: Mesa<T>, c: T): (r: Mesa<T>)
    requires Valida(m) && c in m.caballeros
    requires c == m.caballeros[0] ==> |m.caballeros| == 1
    ensures Valida(r)
  {
    Eliminado(m, Posicion(m.caballeros, c))
  }

  /** `proximoCaballero()`: the turn passes one seat to the right of the
      speaker, or of the interrupted knight if Arturo interrupted. */
  function Avanzado<T(==)>(m: Mesa<T>): (r: Mesa<T>)
    requires Valida(m) && m.caballeros != []
    ensures Valida(r)
  {
    Mesa(m.caballeros, Derecha(|m.caballeros|, Base(m)), None)
  }

  /** `caballeroAnterior()`: the turn passes one seat to the left of the
      speaker, or of the interrupted knight if Arturo interrupted. */
  function Retrocedido<T(==)>(m: Mesa<T>): (r: Mesa<T>)
    requires Valida(m) && m.caballeros != []
    ensures Valida(r)
  {
    Mesa(m.caballeros, Izquierda(|m.caballeros|, Base(m)), None)
  }

  /** `hablaArturo()`: Arturo takes the floor and the speaker he cut off is
      recorded. He cannot interrupt himself. */
  function Interrumpida<T(==)>(m: Mesa<T>): (r: Mesa<T>)
    requires Valida(m) && m.caballeros != [] && m.actual != 0
    ensures Valida(r)
  {
    Mesa(m.caballeros, 0, Some(m.actual))
  }

  /** Seat number of a knight once Arturo has moved to sit right of the
      knight at seat j of an n-seat table (seats are counted from Arturo). */
  function Rotado(i: nat, j: nat, n: nat): nat
    requires j < n
  {
    if i == 0 then 0 else if i > j then i - j else i + n - 1 - j
  }

  /** Inverse of Rotado: the old seat of the knight now at seat p. */
  function Desrotado(p: nat, j: nat, n: nat): nat
  {
    if p == 0 then 0 else if p + j <= n - 1 then p + j else p + j + 1 - n
  }

  /** `cambioDeLugar(c)`: Arturo leaves his seat and sits immediately right of
      c; everybody else keeps the cyclic order, and the speaker and the
      interrupted knight stay the same knights. */
  function Reubicado<T(==)>(m: Mesa<T>, c: T): (r: Mesa<T>)
    requires Valida(m) && |m.caballeros| >= 3 && c in m.caballeros && c != m.caballeros[0]
    ensures Valida(r)
  {
    var cs, j := m.caballeros, Posicion(m.caballeros, c);
    var n := |cs|;
    var r := Mesa([cs[0]] + cs[j + 1..] + cs[1..j + 1], Rotado(m.actual, j, n),
                  match m.interrumpido
                  case None => None
                  case Some(i) => Some(Rotado(i, j, n)));
    assert forall p :: 0 <= p < n ==> Desrotado(p, j, n) < n && r.caballeros[p] == cs[Desrotado(p, j, n)];
    assert forall p, q :: 0 <= p < q < n ==> Desrotado(p, j, n) != Desrotado(q, j, n);
    r
  }

  /** The entry `mostrarArturo` writes for the knight at seat i. */
  function FichaEn<T(==)>(m: Mesa<T>, i: nat): Ficha<T>
    requires Valida(m) && i < |m.caballeros|
  {
    if i == 0 then DeArturo(m.caballeros[i])
    else if m.interrumpido == Some(i) then Interrumpido(m.caballeros[i])
    else Simple(m.caballeros[i])
  }

  /** The entries of all seats, clockwise from Arturo. */
  function Fichas<T(==)>(m: Mesa<T>): (fs: seq<Ficha<T>>)
    requires Valida(m)
    ensures |fs| == |m.caballeros|
  {
    seq(|m.caballeros|, i requires 0 <= i < |m.caballeros| => FichaEn(m, i))
  }

  /** `mostrarArturo`: the entries clockwise starting at the speaker; the
      empty table is listed as `[]`. */
  function Mostrada<T(==)>(m: Mesa<T>): (ts: seq<Ficha<T>>)
    requires Valida(m)
    ensures |ts| == |m.caballeros|
  {
    Rotacion(Fichas(m), m.actual)
  }

  /** Position of the first `ARTURO(..)` entry, or |ts| if there is none. */
  function PosicionArturo<T>(ts: seq<Ficha<T>>): (k: nat)
    ensures k <= |ts| && (k < |ts| ==> ts[k].DeArturo?)
    ensures forall j :: 0 <= j < k ==> !ts[j].DeArturo?
  {
    if ts == [] then 0
    else if ts[0].DeArturo? then 0
    else 1 + PosicionArturo(ts[1..])
  }

  /** Position of the first `*c` entry, or |ts| if there is none. */
  function PosicionInterrumpido<T>(ts: seq<Ficha<T>>): (k: nat)
    ensures k <= |ts| && (k < |ts| ==> ts[k].Interrumpido?)
    ensures forall j :: 0 <= j < k ==> !ts[j].Interrumpido?
  {
    if ts == [] then 0
    else if ts[0].Interrumpido? then 0
    else 1 + PosicionInterrumpido(ts[1..])
  }

  /** Reads a table back from its listing: the inverse of Mostrada. */
  function Leida<T>(ts: seq<Ficha<T>>): Mesa<T>
  {
    var a := PosicionArturo(ts);
    var fs := Rotacion(ts, a);
    var p := PosicionInterrumpido(fs);
    Mesa(seq(|fs|, i requires 0 <= i < |fs| => fs[i].valor),
         if a == 0 then 0 else |ts| - a,
         if p < |fs| then Some(p) else None)
  }
}
