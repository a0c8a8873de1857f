/**
 * The class `Arturo<T>` of arturo.h: a ring of `Nodo` seats linked both
 * ways by `sig` (right, clockwise) and `ant` (left), with pointers to
 * Arturo's seat, the speaker's seat and the interrupted knight's seat.
 * Every operation is proved to turn the table the object stands for
 * (`Modelo`) into the one the matching function of module Mesas gives.
 */
module MesaRedonda {
  import opened Mesas
  import Propiedades

  /** One seat of the ring. */
  class Nodo<T> {
    const caballero: T
    var sig: Nodo?<T>
    var ant: Nodo?<T>
    /** Whether this is Arturo's seat; a seat keeps its mark for life. */
    const esArturo: bool

    /** The seat of an ordinary knight. */
    constructor (c: T)
      ensures caballero == c && sig == null && ant == null && !esArturo
    {
      caballero, esArturo := c, false;
      sig, ant := null, null;
    }

    /** Arturo's seat. */
    constructor DeArturo(a: T)
      ensures caballero == a && sig == null && ant == null && esArturo
    {
      caballero, esArturo := a, true;
      sig, ant := null, null;
    }
  }

  /** Seat i of ns holds knight i of cs, and only seat 0 is Arturo's. */
  ghost predicate Sentados<T>(ns: seq<Nodo<T>>, cs: seq<T>)
  {
    && |ns| == |cs|
    && (forall i {:trigger ns[i].caballero} :: 0 <= i < |ns| ==> ns[i].caballero == cs[i])
    && (forall i {:trigger ns[i].esArturo} :: 0 <= i < |ns| ==> ns[i].esArturo == (i == 0))
  }

  /** Seats holding distinct knights are distinct seats. */
  lemma SentadosDistintos<T>(ns: seq<Nodo<T>>, cs: seq<T>)
    requires Sentados(ns, cs) && SinRepetidos(cs)
    ensures SinRepetidos(ns)
  {
    forall i, j | 0 <= i < j < |ns| ensures ns[i] != ns[j] {
      assert ns[i].caballero == cs[i] != cs[j] == ns[j].caballero;
    }
  }

  /** In the ring ns standing for table m, a is Arturo's seat, h the
      speaker's and x the interrupted knight's (null if none). */
  ghost predicate Roles<T>(ns: seq<Nodo<T>>, m: Mesa<T>, a: Nodo?<T>, h: Nodo?<T>, x: Nodo?<T>)
  {
    if ns == [] then a == null && h == null && x == null
    else
      && m.actual < |ns|
      && (m.interrumpido.Some? ==> m.interrumpido.value < |ns|)
      && a == ns[0]
      && h == ns[m.actual]
      && x == (if m.interrumpido.Some? then ns[m.interrumpido.value] else null)
  }

  /** A new ordinary seat right of Arturo's. */
  lemma SentadosIncorporado<T>(ns: seq<Nodo<T>>, cs: seq<T>, x: Nodo<T>)
    requires Sentados(ns, cs) && ns != [] && !x.esArturo
    ensures Sentados(ns[..1] + [x] + ns[1..], [cs[0], x.caballero] + cs[1..])
  {
    var ns', cs' := ns[..1] + [x] + ns[1..], [cs[0], x.caballero] + cs[1..];
    forall i | 2 <= i < |ns'| ensures ns'[i] == ns[i - 1] && cs'[i] == cs[i - 1] {}
  }

  /** Roles keep their seats when a new seat appears right of Arturo's. */
  lemma RolesIncorporado<T>(ns: seq<Nodo<T>>, m: Mesa<T>, a: Nodo?<T>, h: Nodo?<T>, x: Nodo?<T>,
                                nuevo: Nodo<T>, c: T)
    requires Roles(ns, m, a, h, x) && Valida(m) && |ns| == |m.caballeros|
    requires m.caballeros != [] && c !in m.caballeros
    ensures Roles(ns[..1] + [nuevo] + ns[1..], Incorporado(m, c), a, h, x)
  {
    var ns' := ns[..1] + [nuevo] + ns[1..];
    assert forall i :: 0 <= i < |ns| ==> ns'[Corrido(i)] == ns[i];
  }

  /** Roles after seat k, not Arturo's, is taken away: the speaker's role
      passes to the seat on its right, the interrupted knight's lapses. */
  lemma RolesQuitado<T>(ns: seq<Nodo<T>>, m: Mesa<T>, a: Nodo?<T>, h: Nodo?<T>, x: Nodo?<T>, k: nat)
    requires Roles(ns, m, a, h, x) && Valida(m) && |ns| == |m.caballeros|
    requires SinRepetidos(ns) && 0 < k < |ns|
    ensures Roles(ns[..k] + ns[k + 1..], Eliminado(m, k), a,
                  if h == ns[k] then ns[Derecha(|ns|, k)] else h,
                  if x == ns[k] then null else x)
  {
    var ns' := ns[..k] + ns[k + 1..];
    assert forall j :: 0 <= j < |ns| && j != k ==> ns'[Quitado(j, k)] == ns[j];
  }

  /** Arturo's seat moved to sit right of seat j: the seats are read from
      Arturo's new place. */
  lemma SentadosReubicado<T>(ns: seq<Nodo<T>>, cs: seq<T>, j: nat)
    requires Sentados(ns, cs) && 0 < j < |ns|
    ensures Sentados([ns[0]] + ns[j + 1..] + ns[1..j + 1], [cs[0]] + cs[j + 1..] + cs[1..j + 1])
  {
    var n := |ns|;
    var ns', cs' := [ns[0]] + ns[j + 1..] + ns[1..j + 1], [cs[0]] + cs[j + 1..] + cs[1..j + 1];
    forall p | 0 <= p < n
      ensures ns'[p].caballero == cs'[p] && ns'[p].esArturo == (p == 0)
    {
      var o := Desrotado(p, j, n);
      assert ns'[p] == ns[o] && cs'[p] == cs[o];
      assert ns[o].caballero == cs[o] && ns[o].esArturo == (o == 0);
    }
  }

  /** Roles keep their seats when Arturo moves to sit right of knight c. */
  lemma RolesReubicado<T>(ns: seq<Nodo<T>>, m: Mesa<T>, a: Nodo?<T>, h: Nodo?<T>, x: Nodo?<T>, c: T, j: nat)
    requires Roles(ns, m, a, h, x) && Valida(m) && |ns| == |m.caballeros| >= 3
    requires 0 < j < |ns| && m.caballeros[j] == c
    ensures Reubicado(m, c).caballeros == [m.caballeros[0]] + m.caballeros[j + 1..] + m.caballeros[1..j + 1]
    ensures Roles([ns[0]] + ns[j + 1..] + ns[1..j + 1], Reubicado(m, c), a, h, x)
  {
    Propiedades.PosicionDe(m.caballeros, j);
    var n, ns' := |ns|, [ns[0]] + ns[j + 1..] + ns[1..j + 1];
    assert forall i :: 0 <= i < n ==> Rotado(i, j, n) < n && ns'[Rotado(i, j, n)] == ns[i];
  }

  /** The seats of ns after seat 0 (x) is taken out. */
  lemma SinPrimero<X>(ns: seq<X>, j: nat, x: X)
    requires SinRepetidos(ns) && 0 < j < |ns| && x == ns[0]
    ensures ns[..0] + ns[0 + 1..] == ns[1..] && ns[1..][j - 1] == ns[j]
    ensures SinRepetidos(ns[1..]) && x !in ns[1..]
  {
    assert ns[..0] + ns[1..] == ns[1..];
  }

  /** Putting seat 0 (x) of ns back right of seat j gives ns read from x's
      new place, and no seat other than those of ns. */
  lemma Girado<X>(ns: seq<X>, j: nat, x: X)
    requires 0 < j < |ns| && x == ns[0]
    ensures Rotacion(ns[1..][..j] + [x] + ns[1..][j..], j) == [ns[0]] + ns[j + 1..] + ns[1..j + 1]
    ensures forall o :: o in [ns[0]] + ns[j + 1..] + ns[1..j + 1] ==> o in ns
  {
    var s := ns[1..];
    assert (s[..j] + [x] + s[j..])[j..] == [ns[0]] + ns[j + 1..];
    assert (s[..j] + [x] + s[j..])[..j] == ns[1..j + 1];
    assert ns == [ns[0]] + ns[1..j + 1] + ns[j + 1..];
  }

  /** Seating knight i right of Arturo at a table holding Arturo and the
      knights after i gives Arturo and the knights from i on. */
  lemma Anteponer<T>(cs: seq<T>, i: nat)
    requires SinRepetidos(cs) && 0 < i < |cs|
    ensures cs[i] !in [cs[0]] + cs[i + 1..]
    ensures [cs[0], cs[i]] + ([cs[0]] + cs[i + 1..])[1..] == [cs[0]] + cs[i..]
  {
    assert ([cs[0]] + cs[i + 1..])[1..] == cs[i + 1..];
    assert cs[i..] == [cs[i]] + cs[i + 1..];
  }

  /** Seat k, not Arturo's, taken away. */
  lemma SentadosQuitado<T>(ns: seq<Nodo<T>>, cs: seq<T>, k: nat)
    requires Sentados(ns, cs) && 0 < k < |ns|
    ensures Sentados(ns[..k] + ns[k + 1..], cs[..k] + cs[k + 1..])
  {
    var ns', cs' := ns[..k] + ns[k + 1..], cs[..k] + cs[k + 1..];
    forall i | k <= i < |ns'| ensures ns'[i] == ns[i + 1] && cs'[i] == cs[i + 1] {}
  }

  /** The seats s form one ring in this order: every seat's `sig` is the seat
      to its right and its `ant` the seat to its left. */
  ghost predicate Anillo<T>(s: seq<Nodo<T>>)
    reads s
  {
    && (forall i {:trigger s[i].sig} :: 0 <= i < |s| ==> s[i].sig == s[Derecha(|s|, i)])
    && (forall i {:trigger s[i].ant} :: 0 <= i < |s| ==> s[i].ant == s[Izquierda(|s|, i)])
  }

  /** A ring read from another seat is still a ring. */
  lemma AnilloRotado<T>(t: seq<Nodo<T>>, j: nat)
    requires Anillo(t) && j <= |t|
    ensures Anillo(Rotacion(t, j))
  {
    var n, r := |t|, Rotacion(t, j);
    forall i | 0 <= i < n
      ensures r[i].sig == r[Derecha(n, i)] && r[i].ant == r[Izquierda(n, i)]
    {
      assert r[i] == t[if i + j < n then i + j else i + j - n];
    }
  }

  /** Neighbours in a ring of n + 1 seats whose seat k is new are neighbours
      in the ring of n seats without it, except around seat k. */
  lemma VecinosInsertado(n: nat, k: nat, i: nat)
    requires 0 < k <= n && i < n + 1
    ensures Derecha(n + 1, k) != k && Quitado(Derecha(n + 1, k), k) == Derecha(n, k - 1)
    ensures Izquierda(n + 1, k) == k - 1
    ensures i != k ==> Quitado(i, k) < n
    ensures i != k && i != k - 1 ==>
              && Derecha(n + 1, i) != k && Quitado(i, k) != k - 1
              && Quitado(Derecha(n + 1, i), k) == Derecha(n, Quitado(i, k))
    ensures i == k - 1 ==> Derecha(n + 1, i) == k && Quitado(i, k) == k - 1
    ensures i != k && i != Derecha(n + 1, k) ==>
              && Izquierda(n + 1, i) != k && Quitado(i, k) != Derecha(n, k - 1)
              && Quitado(Izquierda(n + 1, i), k) == Izquierda(n, Quitado(i, k))
    ensures i == Derecha(n + 1, k) ==> Izquierda(n + 1, i) == k
  {
  }

  /** The seats s, with a new seat x linked in between seats k - 1 and k and
      every other link as in the ring s, form a ring with x as seat k. */
  lemma AnilloInsertado<T>(s: seq<Nodo<T>>, k: nat, x: Nodo<T>)
    requires 0 < k <= |s|
    requires forall o {:trigger s[o].sig} :: 0 <= o < |s| && o != k - 1 ==> s[o].sig == s[Derecha(|s|, o)]
    requires forall o {:trigger s[o].ant} :: 0 <= o < |s| && o != Derecha(|s|, k - 1) ==> s[o].ant == s[Izquierda(|s|, o)]
    requires s[k - 1].sig == x && x.ant == s[k - 1]
    requires x.sig == s[Derecha(|s|, k - 1)] && s[Derecha(|s|, k - 1)].ant == x
    ensures Anillo(s[..k] + [x] + s[k..])
  {
    var n := |s|;
    var t: seq<Nodo<T>> := s[..k] + [x] + s[k..];
    assert |t| == n + 1 && t[k] == x;
    assert forall j :: 0 <= j < n + 1 && j != k ==> t[j] == s[Quitado(j, k)];
    forall i {:trigger t[i].sig} | 0 <= i < |t|
      ensures t[i].sig == t[Derecha(|t|, i)]
    {
      VecinosInsertado(n, k, i);
    }
    forall i {:trigger t[i].ant} | 0 <= i < |t|
      ensures t[i].ant == t[Izquierda(|t|, i)]
    {
      VecinosInsertado(n, k, i);
    }
  }

  /** Links the new seat x into the ring s so that it becomes seat k,
      immediately right of seat k - 1. */
  method Enlazar<T>(ghost s: seq<Nodo<T>>, ghost k: nat, izq: Nodo<T>, x: Nodo<T>)
    requires Anillo(s) && SinRepetidos(s) && 0 < k <= |s| && izq == s[k - 1] && x !in s
    modifies s, x
    ensures Anillo(s[..k] + [x] + s[k..])
  {
    ghost var n := |s|;
    ghost var d := Derecha(n, k - 1);
    var der := izq.sig;
    assert der == s[d];
    x.ant := izq;
    x.sig := der;
    izq.sig := x;
    der.ant := x;
    assert forall o {:trigger s[o].sig} :: 0 <= o < n && o != k - 1 ==> s[o].sig == old(s[o].sig);
    assert forall o {:trigger s[o].ant} :: 0 <= o < n && o != d ==> s[o].ant == old(s[o].ant);
    AnilloInsertado(s, k, x);
  }

  /** Seat i of a ring from which seat k was taken out, numbered as in the
      whole ring. */
  function Saltado(i: nat, k: nat): nat
  {
    if i < k then i else i + 1
  }

  /** Neighbours in a ring of n seats from which seat k was taken out are
      neighbours in the whole ring, except that k's two neighbours now face
      each other. */
  lemma VecinosSaltado(n: nat, k: nat, i: nat)
    requires 2 <= n && k < n && i < n - 1
    ensures Saltado(i, k) < n && Saltado(i, k) != k
    ensures Saltado(Derecha(n - 1, i), k) ==
              if Saltado(i, k) == Izquierda(n, k) then Derecha(n, k) else Derecha(n, Saltado(i, k))
    ensures Saltado(Izquierda(n - 1, i), k) ==
              if Saltado(i, k) == Derecha(n, k) then Izquierda(n, k) else Izquierda(n, Saltado(i, k))
  {
  }

  /** The seats s without seat k, with k's neighbours linked to each other
      and every other link as in the ring s, form a ring. */
  lemma AnilloQuitado<T>(s: seq<Nodo<T>>, k: nat)
    requires 2 <= |s| && k < |s|
    requires forall o {:trigger s[o].sig} :: 0 <= o < |s| && o != Izquierda(|s|, k) ==> s[o].sig == s[Derecha(|s|, o)]
    requires forall o {:trigger s[o].ant} :: 0 <= o < |s| && o != Derecha(|s|, k) ==> s[o].ant == s[Izquierda(|s|, o)]
    requires s[Izquierda(|s|, k)].sig == s[Derecha(|s|, k)] && s[Derecha(|s|, k)].ant == s[Izquierda(|s|, k)]
    ensures Anillo(s[..k] + s[k + 1..])
  {
    var n, t := |s|, s[..k] + s[k + 1..];
    assert forall j :: 0 <= j < n - 1 ==> t[j] == s[Saltado(j, k)];
    forall i {:trigger t[i].sig} | 0 <= i < |t|
      ensures t[i].sig == t[Derecha(|t|, i)]
    {
      VecinosSaltado(n, k, i);
    }
    forall i {:trigger t[i].ant} | 0 <= i < |t|
      ensures t[i].ant == t[Izquierda(|t|, i)]
    {
      VecinosSaltado(n, k, i);
    }
  }

  /** Unlinks seat k from the ring s, closing the ring around it. */
  method Desenlazar<T>(ghost s: seq<Nodo<T>>, ghost k: nat, p: Nodo<T>)
    requires Anillo(s) && SinRepetidos(s) && 2 <= |s| && k < |s| && p == s[k]
    modifies p.ant`sig, p.sig`ant
    ensures Anillo(s[..k] + s[k + 1..])
  {
    ghost var n := |s|;
    ghost var z, d := Izquierda(n, k), Derecha(n, k);
    var izq, der := p.ant, p.sig;
    assert izq == s[z] && der == s[d];
    izq.sig := der;
    der.ant := izq;
    assert forall o {:trigger s[o].sig} :: 0 <= o < n && o != z ==> s[o].sig == old(s[o].sig);
    assert forall o {:trigger s[o].ant} :: 0 <= o < n && o != d ==> s[o].ant == old(s[o].ant);
    AnilloQuitado(s, k);
  }

  /** Moves seat 0 of the ring ns (a) to sit immediately right of seat j (q);
      the ring then reads clockwise from a's new place. */
  method Trasladar<T>(ghost ns: seq<Nodo<T>>, ghost j: nat, a: Nodo<T>, q: Nodo<T>)
    requires Anillo(ns) && SinRepetidos(ns) && 0 < j < |ns| && a == ns[0] && q == ns[j]
    modifies ns
    ensures Anillo([ns[0]] + ns[j + 1..] + ns[1..j + 1])
  {
    Desenlazar(ns, 0, a);
    SinPrimero(ns, j, a);
    ghost var s := ns[1..];
    Enlazar(s, j, q, a);
    AnilloRotado(s[..j] + [a] + s[j..], j);
    Girado(ns, j, a);
  }

  /** A round table whose knights have type T. */
  class Arturo<T(==)> {
    var len: nat
    var arturo: Nodo?<T>
    var actual: Nodo?<T>
    var interrumpido: Nodo?<T>

    /** The seats clockwise from Arturo's. */
    ghost var Nodos: seq<Nodo<T>>
    /** The table this object stands for. */
    ghost var Modelo: Mesa<T>
    ghost var Repr: set<object>

    ghost predicate Valid()
      reads this, Repr
    {
      && this in Repr
      && (forall o :: o in Nodos ==> o in Repr)
      && Valida(Modelo)
      && len == |Nodos| == |Modelo.caballeros|
      && Anillo(Nodos)
      && Sentados(Nodos, Modelo.caballeros)
      && Roles(Nodos, Modelo, arturo, actual, interrumpido)
    }

    /** Seats hold distinct knights, so they are distinct seats. */
    lemma NodosDistintos()
      requires Valid()
      ensures SinRepetidos(Nodos)
    {
      SentadosDistintos(Nodos, Modelo.caballeros);
    }

    /** The entry `mostrarArturo` writes for seat i, read off its node, and
        the node it goes on to. */
    lemma FichaDeNodo(i: nat)
      requires Valid() && i < len
      ensures Nodos[i].sig == Nodos[Derecha(len, i)]
      ensures FichaEn(Modelo, i) ==
                if Nodos[i].esArturo then DeArturo(Nodos[i].caballero)
                else if Nodos[i] == interrumpido then Interrumpido(Nodos[i].caballero)
                else Simple(Nodos[i].caballero)
    {
      NodosDistintos();
    }

    /** A new table with nobody seated. */
    constructor ()
      ensures Valid() && fresh(Repr) && Modelo == Vacia()
    {
      len, arturo, actual, interrumpido := 0, null, null, null;
      Nodos, Modelo := [], Vacia();
      Repr := {this};
    }

    /** A copy of otra made of new seats of its own. */
    constructor Copia(otra: Arturo<T>)
      requires otra.Valid()
      ensures Valid() && fresh(Repr) && Modelo == otra.Modelo
    {
      len, arturo, actual, interrumpido := 0, null, null, null;
      Nodos, Modelo := [], Vacia();
      Repr := {this};
      new;
      if otra.len > 0 {
        SentarCopia(otra);
        var x := if otra.interrumpido != null then Some(otra.interrumpido.caballero) else None;
        FijarRoles(otra.Modelo, otra.actual.caballero, x);
      }
    }

    /** Seats otra's knights, seat by seat, at this empty table, with
        Arturo speaking. */
    method SentarCopia(otra: Arturo<T>)
      requires Valid() && Modelo == Vacia() && otra.Valid() && otra.len > 0
      requires Repr !! otra.Repr
      modifies Repr
      ensures Valid() && fresh(Repr - old(Repr)) && Modelo == Mesa(otra.Modelo.caballeros, 0, None)
    {
      ghost var cs := otra.Modelo.caballeros;
      var a := otra.Iesimo(0);
      SentarArturo(a);
      var i := otra.len;
      while i > 1
        invariant 1 <= i <= |cs|
        invariant Valid() && fresh(Repr - old(Repr))
        invariant Modelo == Mesa([cs[0]] + cs[i..], 0, None)
      {
        i := i - 1;
        var c := otra.Iesimo(i);
        Anteponer(cs, i);
        IncorporarCaballero(c);
      }
      assert Modelo.caballeros == cs;
    }

    /** Hands the speaker's role to knight h's seat and the interrupted
        knight's role to x's seat, if any, so that the object stands for m. */
    method FijarRoles(ghost m: Mesa<T>, h: T, x: Option<T>)
      requires Valid() && Valida(m) && m.caballeros != [] && Modelo == Mesa(m.caballeros, 0, None)
      requires h == Hablante(m) && x == Interrupcion(m)
      modifies this
      ensures Valid() && Repr == old(Repr) && Modelo == m
    {
      var cs := m.caballeros;
      var ka, pa := Buscar(h);
      Propiedades.PosicionDe(cs, ka);
      Propiedades.PosicionDe(cs, m.actual);
      if x.Some? {
        var ki, pi := Buscar(x.value);
        Propiedades.PosicionDe(cs, ki);
        Propiedades.PosicionDe(cs, m.interrumpido.value);
        interrumpido := pi;
      }
      actual := pa;
      Modelo := m;
    }

    /** `sentarArturo(a)`: Arturo sits down first, alone, and speaks. */
    method SentarArturo(a: T)
      requires Valid() && Modelo.caballeros == []
      modifies Repr
      ensures Valid() && fresh(Repr - old(Repr))
      ensures Modelo == ConArturo(a)
    {
      var nuevo := new Nodo.DeArturo(a);
      nuevo.sig, nuevo.ant := nuevo, nuevo;
      len := 1;
      arturo, actual, interrumpido := nuevo, nuevo, null;
      Nodos, Modelo := [nuevo], ConArturo(a);
      Repr := Repr + {nuevo};
    }

    /** `incorporarCaballero(c)`: c sits immediately right of Arturo. */
    method IncorporarCaballero(c: T)
      requires Valid() && Modelo.caballeros != [] && c !in Modelo.caballeros
      modifies Repr
      ensures Valid() && fresh(Repr - old(Repr))
      ensures Modelo == Incorporado(old(Modelo), c)
    {
      NodosDistintos();
      ghost var viejos, m := Nodos, Modelo;
      var nuevo := new Nodo(c);
      Enlazar(Nodos, 1, arturo, nuevo);
      len := len + 1;
      Nodos := Nodos[..1] + [nuevo] + Nodos[1..];
      Modelo := Incorporado(Modelo, c);
      Repr := Repr + {nuevo};
      SentadosIncorporado(viejos, m.caballeros, nuevo);
      RolesIncorporado(viejos, m, arturo, actual, interrumpido, nuevo, c);
    }

    /** The seat of the knight c, walking right from Arturo. */
    method Buscar(c: T) returns (k: nat, p: Nodo<T>)
      requires Valid() && c in Modelo.caballeros
      ensures k < |Modelo.caballeros| && Modelo.caballeros[k] == c && p == Nodos[k]
      ensures p.caballero == c
    {
      k, p := 0, arturo;
      while p.caballero != c
        invariant k < len && p == Nodos[k]
        invariant forall j :: 0 <= j < k ==> Modelo.caballeros[j] != c
        decreases len - k
      {
        k, p := k + 1, p.sig;
      }
    }

    /** The seat i places right of Arturo's (`iesimo` walks the same way). */
    method NodoIesimo(i: nat) returns (p: Nodo<T>)
      requires Valid() && i < len
      ensures p == Nodos[i] && p.caballero == Modelo.caballeros[i]
    {
      p := arturo;
      var k := 0;
      while k < i
        invariant k <= i && p == Nodos[k]
      {
        p := p.sig;
        k := k + 1;
      }
    }

    /** `iesimo(i)`: the knight i places right of Arturo. */
    method Iesimo(i: nat) returns (c: T)
      requires Valid() && i < len
      ensures c == Modelo.caballeros[i]
    {
      var p := NodoIesimo(i);
      c := p.caballero;
    }

    /** `eliminar(i)`: removes the knight i places right of Arturo, re-linking
        the ring and handing over the roles of the removed seat. */
    method Eliminar(i: nat)
      requires Valid() && i < len && (i == 0 ==> len == 1)
      modifies Repr
      ensures Valid() && Repr == old(Repr)
      ensures Modelo == Eliminado(old(Modelo), i)
    {
      if len == 1 {
        len := 0;
        arturo, actual, interrumpido := null, null, null;
        Nodos, Modelo := [], Vacia();
        return;
      }
      NodosDistintos();
      ghost var m, viejos := Modelo, Nodos;
      RolesQuitado(Nodos, Modelo, arturo, actual, interrumpido, i);
      SentadosQuitado(Nodos, Modelo.caballeros, i);
      ghost var nuevo := Eliminado(m, i);
      assert nuevo.caballeros == m.caballeros[..i] + m.caballeros[i + 1..];
      var p := NodoIesimo(i);
      var der := p.sig;
      assert der == viejos[Derecha(|viejos|, i)];
      Desenlazar(Nodos, i, p);
      actual, interrumpido := if actual == p then der else actual, if interrumpido == p then null else interrumpido;
      len, Nodos, Modelo := len - 1, viejos[..i] + viejos[i + 1..], nuevo;
    }

    /** `expulsarCaballero(c)`: c leaves the table. */
    method ExpulsarCaballero(c: T)
      requires Valid() && c in Modelo.caballeros
      requires c == Modelo.caballeros[0] ==> |Modelo.caballeros| == 1
      modifies Repr
      ensures Valid() && Repr == old(Repr)
      ensures Modelo == Expulsado(old(Modelo), c)
    {
      var k, p := Buscar(c);
      NodosDistintos();
      Propiedades.PosicionDe(Modelo.caballeros, k);
      Eliminar(k);
    }

    /** `caballeroActual()`: the knight who is speaking. */
    method CaballeroActual() returns (c: T)
      requires Valid() && Modelo.caballeros != []
      ensures c == Hablante(Modelo)
    {
      c := actual.caballero;
    }

    /** `proximoCaballero()`: the turn passes to the right. */
    method ProximoCaballero()
      requires Valid() && Modelo.caballeros != []
      modifies this
      ensures Valid() && Repr == old(Repr)
      ensures Modelo == Avanzado(old(Modelo))
    {
      if interrumpido != null {
        actual := interrumpido.sig;
        interrumpido := null;
      } else {
        actual := actual.sig;
      }
      Modelo := Avanzado(Modelo);
    }

    /** `caballeroAnterior()`: the turn passes to the left. */
    method CaballeroAnterior()
      requires Valid() && Modelo.caballeros != []
      modifies this
      ensures Valid() && Repr == old(Repr)
      ensures Modelo == Retrocedido(old(Modelo))
    {
      if interrumpido != null {
        actual := interrumpido.ant;
        interrumpido := null;
      } else {
        actual := actual.ant;
      }
      Modelo := Retrocedido(Modelo);
    }

    /** `hablaArturo()`: Arturo interrupts whoever is speaking. */
    method HablaArturo()
      requires Valid() && Modelo.caballeros != [] && Modelo.actual != 0
      modifies this
      ensures Valid() && Repr == old(Repr)
      ensures Modelo == Interrumpida(old(Modelo))
    {
      interrumpido := actual;
      actual := arturo;
      Modelo := Interrumpida(Modelo);
    }

    /** `arturoPresente()`: walks the ring from the speaker looking for the
        seat marked as Arturo's. */
    method ArturoPresente() returns (esta: bool)
      requires Valid()
      ensures esta <==> Modelo.caballeros != []
    {
      esta := false;
      var p := actual;
      var i := 0;
      ghost var idx: nat := Modelo.actual;
      while i < len && !esta
        invariant 0 <= i <= len && len == |Nodos|
        invariant len > 0 ==> idx < |Nodos| && p == Nodos[idx]
        invariant esta ==> len > 0
        invariant !esta ==> Modelo.actual + i <= len && (Modelo.actual == 0 ==> i == 0)
        invariant !esta && len > 0 ==>
          idx == (if Modelo.actual + i == len then 0 else Modelo.actual + i)
        decreases len - i, if esta then 0 else 1
      {
        if p.esArturo {
          esta := true;
        } else {
          p := p.sig;
          idx := Derecha(len, idx);
          i := i + 1;
        }
      }
    }

    /** `cambioDeLugar(c)`: Arturo moves to sit immediately right of c. */
    method CambioDeLugar(c: T)
      requires Valid() && |Modelo.caballeros| >= 3 && c in Modelo.caballeros
      requires c != Modelo.caballeros[0]
      modifies Repr
      ensures Valid() && Repr == old(Repr)
      ensures Modelo == Reubicado(old(Modelo), c)
    {
      NodosDistintos();
      var j, q := Buscar(c);
      ghost var ns := Nodos;
      Trasladar(Nodos, j, arturo, q);
      RolesReubicado(ns, Modelo, arturo, actual, interrumpido, c, j);
      SentadosReubicado(ns, Modelo.caballeros, j);
      Nodos := [ns[0]] + ns[j + 1..] + ns[1..j + 1];
      Modelo := Reubicado(Modelo, c);
    }

    /** `esVacia()`. */
    method EsVacia() returns (r: bool)
      requires Valid()
      ensures r <==> Modelo.caballeros == []
    {
      r := len == 0;
    }

    /** `tamanio()`. */
    method Tamanio() returns (r: nat)
      requires Valid()
      ensures r == |Modelo.caballeros|
    {
      r := len;
    }

    /** `operator==`: the same knights in the same seats, the same Arturo,
        the same speaker and the same interrupted knight. */
    method Iguales(otra: Arturo<T>) returns (r: bool)
      requires Valid() && otra.Valid()
      ensures r <==> Modelo == otra.Modelo
    {
      if len != otra.len {
        return false;
      }
      if len == 0 {
        return true;
      }
      var p, q := arturo, otra.arturo;
      var i := 0;
      while i < len
        invariant 0 <= i <= len
        invariant i < len ==> p == Nodos[i] && q == otra.Nodos[i]
        invariant Modelo.caballeros[..i] == otra.Modelo.caballeros[..i]
      {
        if p.caballero != q.caballero {
          assert Modelo.caballeros[i] != otra.Modelo.caballeros[i];
          return false;
        }
        p, q := p.sig, q.sig;
        i := i + 1;
      }
      var cs := Modelo.caballeros;
      assert cs == otra.Modelo.caballeros;
      Propiedades.PosicionDe(cs, Modelo.actual);
      Propiedades.PosicionDe(cs, otra.Modelo.actual);
      r := actual.caballero == otra.actual.caballero;
      if interrumpido == null || otra.interrumpido == null {
        r := r && interrumpido == null && otra.interrumpido == null;
      } else {
        Propiedades.PosicionDe(cs, Modelo.interrumpido.value);
        Propiedades.PosicionDe(cs, otra.Modelo.interrumpido.value);
        r := r && interrumpido.caballero == otra.interrumpido.caballero;
      }
    }

    /** `mostrarArturo`: the listing clockwise from the speaker. */
    method MostrarArturo() returns (ts: seq<Ficha<T>>)
      requires Valid()
      ensures ts == Mostrada(Modelo)
    {
      ts := [];
      if len == 0 {
        return;
      }
      var p := actual;
      var i := 0;
      ghost var idx: nat := Modelo.actual;
      ghost var ms := Mostrada(Modelo);
      assert |ms| == len;
      while i < len
        invariant 0 <= i <= len && len == |Nodos| && idx < |Nodos| && p == Nodos[idx]
        invariant idx == if Modelo.actual + i < len then Modelo.actual + i else Modelo.actual + i - len
        invariant ts == ms[..i]
      {
        var f := if p.esArturo then DeArturo(p.caballero)
                 else if p == interrumpido then Interrumpido(p.caballero)
                 else Simple(p.caballero);
        FichaDeNodo(idx);
        Propiedades.MostradaEn(Modelo, i);
        assert ms[..i + 1] == ms[..i] + [f];
        ts := ts + [f];
        p := p.sig;
        idx := Derecha(len, idx);
        i := i + 1;
      }
    }
  }
}
