/**
 * What arturo.h promises about each operation, proved about the abstract
 * table of module Mesas.
 */
module Propiedades {
  import opened Mesas

  // ---------------------------------------------------------------------------
  // Seats and positions

  /** Right and left are inverse moves around the ring. */
  lemma DerechaIzquierda(n: nat, i: nat)
    requires i < n
    ensures Izquierda(n, Derecha(n, i)) == i && Derecha(n, Izquierda(n, i)) == i
  {
  }

  /** In a table without repeated knights, the knight at seat i is found at seat i. */
  lemma PosicionDe<T>(s: seq<T>, i: nat)
    requires SinRepetidos(s) && i < |s|
    ensures Posicion(s, s[i]) == i
  {
  }

  lemma DerechaDeEn<T>(s: seq<T>, i: nat)
    requires SinRepetidos(s) && i < |s|
    ensures DerechaDe(s, s[i]) == s[Derecha(|s|, i)]
    ensures IzquierdaDe(s, s[i]) == s[Izquierda(|s|, i)]
  {
    PosicionDe(s, i);
  }

  // ---------------------------------------------------------------------------
  // incorporarCaballero

  /** The new knight sits immediately right of Arturo, the table grows by
      one, and the speaker and the interrupted knight are unchanged. */
  lemma IncorporadoSienta<T>(m: Mesa<T>, c: T)
    requires Valida(m) && m.caballeros != [] && c !in m.caballeros
    ensures var r := Incorporado(m, c);
      && |r.caballeros| == |m.caballeros| + 1
      && r.caballeros[0] == m.caballeros[0]
      && DerechaDe(r.caballeros, m.caballeros[0]) == c
      && Hablante(r) == Hablante(m)
      && Interrupcion(r) == Interrupcion(m)
      && (forall x :: x in r.caballeros <==> x == c || x in m.caballeros)
  {
    var r := Incorporado(m, c);
    DerechaDeEn(r.caballeros, 0);
    forall x ensures x in r.caballeros <==> x == c || x in m.caballeros {
      if x in m.caballeros {
        var i := Posicion(m.caballeros, x);
        assert x == r.caballeros[Corrido(i)];
      }
    }
  }

  /** Every knight keeps his right-hand neighbour, except Arturo, whose new
      neighbour is c; c's right-hand neighbour is Arturo's former one. */
  lemma IncorporadoVecinos<T>(m: Mesa<T>, c: T)
    requires Valida(m) && m.caballeros != [] && c !in m.caballeros
    ensures var r := Incorporado(m, c);
      && c in r.caballeros
      && DerechaDe(r.caballeros, c) == DerechaDe(m.caballeros, m.caballeros[0])
      && forall x :: x in m.caballeros ==>
           && x in r.caballeros
           && DerechaDe(r.caballeros, x) ==
                (if x == m.caballeros[0] then c else DerechaDe(m.caballeros, x))
  {
    var r := Incorporado(m, c);
    var cs, n := m.caballeros, |m.caballeros|;
    DerechaDeEn(r.caballeros, 1);
    DerechaDeEn(cs, 0);
    forall x | x in cs
      ensures x in r.caballeros &&
              DerechaDe(r.caballeros, x) == (if x == cs[0] then c else DerechaDe(cs, x))
    {
      var i := Posicion(cs, x);
      assert r.caballeros[Corrido(i)] == x;
      DerechaDeEn(r.caballeros, Corrido(i));
      DerechaDeEn(cs, i);
    }
  }

  // ---------------------------------------------------------------------------
  // expulsarCaballero

  /** The expelled knight is gone, everybody else stays, the table shrinks by
      one and Arturo keeps his seat unless he was the one expelled. */
  lemma ExpulsadoQuita<T>(m: Mesa<T>, c: T)
    requires Valida(m) && c in m.caballeros
    requires c == m.caballeros[0] ==> |m.caballeros| == 1
    ensures var r := Expulsado(m, c);
      && |r.caballeros| == |m.caballeros| - 1
      && (forall x :: x in r.caballeros <==> x in m.caballeros && x != c)
      && (r.caballeros != [] ==> r.caballeros[0] == m.caballeros[0])
  {
    var r := Expulsado(m, c);
    var cs, k := m.caballeros, Posicion(m.caballeros, c);
    if k != 0 {
      assert r.caballeros == cs[..k] + cs[k + 1..];
      forall x ensures x in r.caballeros <==> x in cs && x != c {
        if x in cs && x != c {
          var i := Posicion(cs, x);
          if i < k {
            assert r.caballeros[i] == x;
          } else {
            assert r.caballeros[i - 1] == x;
          }
        }
        if x in r.caballeros {
          var p :| 0 <= p < |r.caballeros| && r.caballeros[p] == x;
          if p < k {
            assert x == cs[p] && p != k;
          } else {
            assert x == cs[p + 1] && p + 1 != k;
          }
        }
      }
    }
  }

  /** An expelled speaker hands the turn to the knight who sat on his right;
      otherwise the speaker is unchanged. An expelled interrupted knight
      clears the interruption; otherwise it is unchanged. */
  lemma ExpulsadoRoles<T>(m: Mesa<T>, c: T)
    requires Valida(m) && c in m.caballeros && c != m.caballeros[0]
    ensures var r := Expulsado(m, c);
      && r.caballeros != []
      && Hablante(r) == (if Hablante(m) == c then DerechaDe(m.caballeros, c) else Hablante(m))
      && Interrupcion(r) == (if Interrupcion(m) == Some(c) then None else Interrupcion(m))
  {
    var r := Expulsado(m, c);
    var cs, k := m.caballeros, Posicion(m.caballeros, c);
    DerechaDeEn(cs, k);
    assert forall i :: 0 <= i < |cs| && i != k ==> r.caballeros[Quitado(i, k)] == cs[i];
    if m.interrumpido.Some? {
      assert Interrupcion(m) == Some(c) <==> m.interrumpido.value == k;
    }
  }

  /** Seat arithmetic behind ExpulsadoVecinos: once seat k of n is emptied,
      the seat right of i is the old one, or k's old right if that was k. */
  lemma DerechaQuitado(n: nat, k: nat, i: nat)
    requires 2 <= n && k < n && i < n && i != k
    ensures Derecha(n, k) != k && Quitado(i, k) < n - 1
    ensures Derecha(n - 1, Quitado(i, k)) ==
              if Derecha(n, i) == k then Quitado(Derecha(n, k), k) else Quitado(Derecha(n, i), k)
  {
  }

  /** Every remaining knight keeps his right-hand neighbour, except the one
      who sat left of c, who now has c's former right-hand neighbour. */
  lemma ExpulsadoVecinos<T>(m: Mesa<T>, c: T)
    requires Valida(m) && c in m.caballeros && c != m.caballeros[0]
    ensures var r := Expulsado(m, c);
      forall x :: x in m.caballeros && x != c ==>
        && x in r.caballeros
        && DerechaDe(r.caballeros, x) ==
             (if DerechaDe(m.caballeros, x) == c then DerechaDe(m.caballeros, c)
              else DerechaDe(m.caballeros, x))
  {
    var r := Expulsado(m, c);
    var cs, k, n := m.caballeros, Posicion(m.caballeros, c), |m.caballeros|;
    var rs := cs[..k] + cs[k + 1..];
    assert r.caballeros == rs;
    assert forall j :: 0 <= j < n && j != k ==> rs[Quitado(j, k)] == cs[j];
    forall x | x in cs && x != c
      ensures x in rs && DerechaDe(rs, x) == (if DerechaDe(cs, x) == c then DerechaDe(cs, c) else DerechaDe(cs, x))
    {
      var i := Posicion(cs, x);
      DerechaQuitado(n, k, i);
      DerechaDeEn(rs, Quitado(i, k));
      DerechaDeEn(cs, i);
      DerechaDeEn(cs, k);
    }
  }

  /** Expelling the knight Arturo interrupted leaves Arturo speaking as if he
      had never interrupted: the next turn goes to Arturo's right-hand
      neighbour and the previous one to his left-hand neighbour. */
  lemma ExpulsadoInterrumpido<T>(m: Mesa<T>, c: T)
    requires Valida(m) && c in m.caballeros && Interrupcion(m) == Some(c)
    ensures var r := Expulsado(m, c);
      && r.caballeros != [] && Hablante(r) == m.caballeros[0] && Interrupcion(r) == None
      && Hablante(Avanzado(r)) == DerechaDe(r.caballeros, m.caballeros[0])
      && Hablante(Retrocedido(r)) == IzquierdaDe(r.caballeros, m.caballeros[0])
  {
    var r := Expulsado(m, c);
    assert c != m.caballeros[0] by {
      assert m.caballeros[m.interrumpido.value] == c;
    }
    ExpulsadoRoles(m, c);
    ExpulsadoQuita(m, c);
    DerechaDeEn(r.caballeros, 0);
  }

  // ---------------------------------------------------------------------------
  // proximoCaballero, caballeroAnterior, hablaArturo

  /** A turn change moves the floor one seat right (left) of the speaker, or
      of the interrupted knight if Arturo interrupted, and leaves no
      interruption behind. */
  lemma CambioDeTurno<T>(m: Mesa<T>)
    requires Valida(m) && m.caballeros != []
    ensures var desde := if Interrupcion(m).Some? then Interrupcion(m).value else Hablante(m);
      && Avanzado(m).caballeros == m.caballeros && Retrocedido(m).caballeros == m.caballeros
      && Hablante(Avanzado(m)) == DerechaDe(m.caballeros, desde)
      && Hablante(Retrocedido(m)) == IzquierdaDe(m.caballeros, desde)
      && Interrupcion(Avanzado(m)) == None && Interrupcion(Retrocedido(m)) == None
  {
    DerechaDeEn(m.caballeros, Base(m));
  }

  /** Without an interruption, the previous turn undoes the next and vice versa. */
  lemma AvanzarRetroceder<T>(m: Mesa<T>)
    requires Valida(m) && m.caballeros != [] && m.interrumpido == None
    ensures Retrocedido(Avanzado(m)) == m && Avanzado(Retrocedido(m)) == m
  {
    DerechaIzquierda(|m.caballeros|, m.actual);
  }

  /** Arturo speaks and the knight who was speaking is recorded as interrupted. */
  lemma InterrumpidaRoles<T>(m: Mesa<T>)
    requires Valida(m) && m.caballeros != [] && m.actual != 0
    ensures var r := Interrumpida(m);
      && r.caballeros == m.caballeros
      && Hablante(r) == m.caballeros[0] && Hablante(m) != m.caballeros[0]
      && Interrupcion(r) == Some(Hablante(m))
  {
    assert m.caballeros[0] != m.caballeros[m.actual];
  }

  /** Arturo's interruption ends at the next turn change, which then goes on
      exactly as if he had not interrupted. */
  lemma InterrupcionTransparente<T>(m: Mesa<T>)
    requires Valida(m) && m.caballeros != [] && m.actual != 0
    ensures Avanzado(Interrumpida(m)) == Avanzado(m)
    ensures Retrocedido(Interrumpida(m)) == Retrocedido(m)
  {
  }

  /** `proximoCaballero()` called k times in a row. */
  function AvanzadoVeces<T(==)>(m: Mesa<T>, k: nat): (r: Mesa<T>)
    requires Valida(m) && m.caballeros != []
    ensures Valida(r) && r.caballeros == m.caballeros
  {
    if k == 0 then m else Avanzado(AvanzadoVeces(m, k - 1))
  }

  /** `caballeroAnterior()` called k times in a row. */
  function RetrocedidoVeces<T(==)>(m: Mesa<T>, k: nat): (r: Mesa<T>)
    requires Valida(m) && m.caballeros != []
    ensures Valida(r) && r.caballeros == m.caballeros
    decreases k
  {
    if k == 0 then m else RetrocedidoVeces(Retrocedido(m), k - 1)
  }

  /** Repeated turn changes keep moving one seat at a time: after k calls of
      `proximoCaballero()` (at most one full round) the speaker sits k seats
      right of the first one, wrapping past the last seat. */
  lemma {:induction false} AvanzadoVecesHablante<T>(m: Mesa<T>, k: nat)
    requires Valida(m) && m.caballeros != [] && m.interrumpido == None
    requires k <= |m.caballeros|
    ensures AvanzadoVeces(m, k).actual ==
      (if m.actual + k < |m.caballeros| then m.actual + k else m.actual + k - |m.caballeros|)
    ensures AvanzadoVeces(m, k).interrumpido == None
  {
    if k > 0 {
      AvanzadoVecesHablante(m, k - 1);
    }
  }

  /** Ring closure: going once around the table returns the floor to the
      first speaker. */
  lemma VueltaCompleta<T>(m: Mesa<T>)
    requires Valida(m) && m.caballeros != [] && m.interrumpido == None
    ensures AvanzadoVeces(m, |m.caballeros|) == m
  {
    AvanzadoVecesHablante(m, |m.caballeros|);
  }

  /** Repeated turn changes never leave an interruption, whether or not
      Arturo had interrupted before the first one. */
  lemma AvanzadoVecesInterrumpido<T>(m: Mesa<T>, k: nat)
    requires Valida(m) && m.caballeros != [] && (k > 0 || m.interrumpido == None)
    ensures AvanzadoVeces(m, k).interrumpido == None
  {
  }

  /** k calls of `caballeroAnterior()` undo k calls of `proximoCaballero()`. */
  lemma {:induction false} IdaYVuelta<T>(m: Mesa<T>, k: nat)
    requires Valida(m) && m.caballeros != [] && m.interrumpido == None
    ensures RetrocedidoVeces(AvanzadoVeces(m, k), k) == m
  {
    if k > 0 {
      var p := AvanzadoVeces(m, k - 1);
      AvanzadoVecesInterrumpido(m, k - 1);
      AvanzarRetroceder(p);
      IdaYVuelta(m, k - 1);
    }
  }

  // ---------------------------------------------------------------------------
  // cambioDeLugar

  /** The knights other than Arturo read from seat 1 on. */
  predicate EsRotacion<X(==)>(t: seq<X>, s: seq<X>)
  {
    exists k :: 0 <= k <= |s| && t == Rotacion(s, k)
  }

  /** Arturo now sits immediately right of c; the same knights are seated,
      the others in the same cyclic order; the speaker and the interrupted
      knight are the same knights. */
  lemma ReubicadoSienta<T>(m: Mesa<T>, c: T)
    requires Valida(m) && |m.caballeros| >= 3 && c in m.caballeros && c != m.caballeros[0]
    ensures var r := Reubicado(m, c);
      && |r.caballeros| == |m.caballeros|
      && r.caballeros[0] == m.caballeros[0]
      && DerechaDe(r.caballeros, c) == m.caballeros[0]
      && EsRotacion(r.caballeros[1..], m.caballeros[1..])
      && Hablante(r) == Hablante(m)
      && Interrupcion(r) == Interrupcion(m)
  {
    ReubicadoVecino(m, c);
    ReubicadoOrden(m, c);
    ReubicadoRoles(m, c);
  }

  /** Arturo sits immediately right of c. */
  lemma ReubicadoVecino<T>(m: Mesa<T>, c: T)
    requires Valida(m) && |m.caballeros| >= 3 && c in m.caballeros && c != m.caballeros[0]
    ensures var r := Reubicado(m, c);
      && |r.caballeros| == |m.caballeros|
      && r.caballeros[0] == m.caballeros[0]
      && DerechaDe(r.caballeros, c) == m.caballeros[0]
  {
    var r, n := Reubicado(m, c), |m.caballeros|;
    ReubicadoAsiento(m, c, 0);
    assert r.caballeros[n - 1] == c;
    DerechaDeEn(r.caballeros, n - 1);
  }

  /** The other knights keep their cyclic order. */
  lemma ReubicadoOrden<T>(m: Mesa<T>, c: T)
    requires Valida(m) && |m.caballeros| >= 3 && c in m.caballeros && c != m.caballeros[0]
    ensures EsRotacion(Reubicado(m, c).caballeros[1..], m.caballeros[1..])
  {
    ReubicadoAsiento(m, c, 0);
    ColaRotada(m.caballeros, Posicion(m.caballeros, c));
  }

  /** Moving the first element of s to just after s[j] rotates the rest. */
  lemma ColaRotada<X>(s: seq<X>, j: nat)
    requires 0 < j < |s|
    ensures EsRotacion(([s[0]] + s[j + 1..] + s[1..j + 1])[1..], s[1..])
  {
    assert ([s[0]] + s[j + 1..] + s[1..j + 1])[1..] == s[j + 1..] + s[1..j + 1];
    assert s[1..][j..] == s[j + 1..] && s[1..][..j] == s[1..j + 1];
    assert s[j + 1..] + s[1..j + 1] == Rotacion(s[1..], j);
  }

  /** The speaker and the interrupted knight are the same knights. */
  lemma ReubicadoRoles<T>(m: Mesa<T>, c: T)
    requires Valida(m) && |m.caballeros| >= 3 && c in m.caballeros && c != m.caballeros[0]
    ensures Hablante(Reubicado(m, c)) == Hablante(m)
    ensures Interrupcion(Reubicado(m, c)) == Interrupcion(m)
  {
    ReubicadoAsiento(m, c, m.actual);
    if m.interrumpido.Some? {
      ReubicadoAsiento(m, c, m.interrumpido.value);
    }
  }

  /** Where the knight at seat i sits once Arturo has moved next to c. */
  lemma ReubicadoAsiento<T>(m: Mesa<T>, c: T, i: nat)
    requires Valida(m) && |m.caballeros| >= 3 && c in m.caballeros && c != m.caballeros[0]
    requires i < |m.caballeros|
    ensures var cs, j, n := m.caballeros, Posicion(m.caballeros, c), |m.caballeros|;
      && Reubicado(m, c).caballeros == [cs[0]] + cs[j + 1..] + cs[1..j + 1]
      && Rotado(i, j, n) < n && Reubicado(m, c).caballeros[Rotado(i, j, n)] == cs[i]
  {
  }

  /** If Arturo already sits right of c, moving him there changes nothing. */
  lemma ReubicadoQuieto<T>(m: Mesa<T>, c: T)
    requires Valida(m) && |m.caballeros| >= 3 && c in m.caballeros && c != m.caballeros[0]
    requires DerechaDe(m.caballeros, c) == m.caballeros[0]
    ensures Reubicado(m, c) == m
  {
    var cs, j, n := m.caballeros, Posicion(m.caballeros, c), |m.caballeros|;
    DerechaDeEn(cs, j);
    assert Derecha(n, j) == 0;
    assert j == n - 1;
    assert [cs[0]] + cs[j + 1..] + cs[1..j + 1] == cs;
  }

  /** Moving Arturo next to the same knight twice is the same as once. */
  lemma ReubicadoIdempotente<T>(m: Mesa<T>, c: T)
    requires Valida(m) && |m.caballeros| >= 3 && c in m.caballeros && c != m.caballeros[0]
    ensures var r := Reubicado(m, c);
      c in r.caballeros && c != r.caballeros[0] && Reubicado(r, c) == r
  {
    var r := Reubicado(m, c);
    ReubicadoSienta(m, c);
    var j := Posicion(m.caballeros, c);
    assert r.caballeros[|m.caballeros| - 1] == c;
    ReubicadoQuieto(r, c);
  }

  // ---------------------------------------------------------------------------
  // mostrarArturo and operator==

  /** Entry k of the listing is the entry of the seat k places right of the
      speaker. */
  lemma MostradaEn<T>(m: Mesa<T>, k: nat)
    requires Valida(m) && k < |m.caballeros|
    ensures var n, a := |m.caballeros|, m.actual;
      Mostrada(m)[k] == FichaEn(m, if a + k < n then a + k else a + k - n)
  {
  }

  /** The listing names every knight once, starting with the speaker, and
      is `[]` exactly for the empty table. */
  lemma MostradaFormato<T>(m: Mesa<T>)
    requires Valida(m)
    ensures var ts := Mostrada(m);
      && |ts| == |m.caballeros|
      && (m.caballeros == [] <==> ts == [])
      && (ts != [] ==> ts[0].valor == Hablante(m))
      && (forall k :: 0 <= k < |ts| ==> ts[k].valor in m.caballeros)
  {
    var ts, n := Mostrada(m), |m.caballeros|;
    if n > 0 {
      MostradaEn(m, 0);
    }
    forall k | 0 <= k < n ensures ts[k].valor in m.caballeros {
      MostradaEn(m, k);
    }
  }

  /** Each entry of the listing names the knight sitting right of the one
      named before it: the listing goes clockwise. */
  lemma MostradaVecinos<T>(m: Mesa<T>)
    requires Valida(m)
    ensures var ts := Mostrada(m);
      forall k :: 0 <= k && k + 1 < |ts| ==> ts[k + 1].valor == DerechaDe(m.caballeros, ts[k].valor)
  {
    var ts, cs, n, a := Mostrada(m), m.caballeros, |m.caballeros|, m.actual;
    forall k | 0 <= k && k + 1 < n
      ensures ts[k + 1].valor == DerechaDe(cs, ts[k].valor)
    {
      MostradaEn(m, k);
      MostradaEn(m, k + 1);
      DerechaDeEn(cs, if a + k < n then a + k else a + k - n);
    }
  }

  /** Exactly Arturo's entry is written `ARTURO(..)` and exactly the
      interrupted knight's is written `*..`. */
  lemma MostradaMarcas<T>(m: Mesa<T>)
    requires Valida(m)
    ensures var ts := Mostrada(m);
      && (forall k :: 0 <= k < |ts| ==> (ts[k].DeArturo? <==> ts[k].valor == m.caballeros[0]))
      && (forall k :: 0 <= k < |ts| ==> (ts[k].Interrumpido? <==> Interrupcion(m) == Some(ts[k].valor)))
  {
    var ts, cs, n, a := Mostrada(m), m.caballeros, |m.caballeros|, m.actual;
    forall k | 0 <= k < n
      ensures (ts[k].DeArturo? <==> ts[k].valor == cs[0])
      ensures (ts[k].Interrumpido? <==> Interrupcion(m) == Some(ts[k].valor))
    {
      MostradaEn(m, k);
      var i := if a + k < n then a + k else a + k - n;
      if i != 0 {
        assert cs[0] != cs[i];
      }
      if m.interrumpido.Some? && m.interrumpido.value != i {
        var v := m.interrumpido.value;
        assert cs[i] != cs[v] by {
          if i < v { assert cs[i] != cs[v]; } else { assert cs[v] != cs[i]; }
        }
      }
    }
  }

  /** Reading the listing back gives the table: the listing loses nothing. */
  lemma LeidaMostrada<T>(m: Mesa<T>)
    requires Valida(m)
    ensures Leida(Mostrada(m)) == m
  {
    if m.caballeros != [] {
      ArturoEnMostrada(m);
      RotacionDeshecha(Fichas(m), m.actual);
      FichasLeidas(m);
    }
  }

  /** In the listing, Arturo comes after the knights from the speaker on. */
  lemma ArturoEnMostrada<T>(m: Mesa<T>)
    requires Valida(m) && m.caballeros != []
    ensures PosicionArturo(Mostrada(m)) == if m.actual == 0 then 0 else |m.caballeros| - m.actual
  {
    var n, a, ts := |m.caballeros|, m.actual, Mostrada(m);
    var pa := if a == 0 then 0 else n - a;
    MostradaEn(m, pa);
    var k := PosicionArturo(ts);
    if k < pa {
      MostradaEn(m, k);
    }
  }

  /** Reading a rotation from the right place undoes it. */
  lemma RotacionDeshecha<X>(s: seq<X>, a: nat)
    requires a < |s|
    ensures Rotacion(Rotacion(s, a), if a == 0 then 0 else |s| - a) == s
  {
    if a > 0 {
      var r := Rotacion(s, a);
      assert r[|s| - a..] == s[..a] && r[..|s| - a] == s[a..];
    }
  }

  /** The entries from Arturo's seat give back the knights and the
      interrupted seat. */
  lemma FichasLeidas<T>(m: Mesa<T>)
    requires Valida(m)
    ensures var fs, n := Fichas(m), |m.caballeros|;
      && PosicionInterrumpido(fs) == (if m.interrumpido.Some? then m.interrumpido.value else n)
      && seq(n, i requires 0 <= i < n => fs[i].valor) == m.caballeros
  {
    var fs, n := Fichas(m), |m.caballeros|;
    var p := PosicionInterrumpido(fs);
    if p < n {
      assert fs[p] == FichaEn(m, p);
    }
    if m.interrumpido.Some? {
      assert fs[m.interrumpido.value] == FichaEn(m, m.interrumpido.value);
    }
  }

  /** operator==: two tables are equal exactly when their listings are. */
  lemma IgualesSiiMismaMostrada<T>(m1: Mesa<T>, m2: Mesa<T>)
    requires Valida(m1) && Valida(m2)
    ensures m1 == m2 <==> Mostrada(m1) == Mostrada(m2)
  {
    if Mostrada(m1) == Mostrada(m2) {
      LeidaMostrada(m1);
      LeidaMostrada(m2);
    }
  }

  // ---------------------------------------------------------------------------
  // The examples written next to the operations in arturo.h

  /** The three `cambioDeLugar` examples, with knights c0..c3 as 0..3 and
      Arturo as c0; the tables are written from Arturo's seat, so
      [c1, c2, ARTURO(c0)] while c1 speaks is Mesa([0, 1, 2], 1, None). */
  lemma EjemploCambioDeLugarUno()
    ensures Reubicado(Mesa([0, 1, 2], 0, None), 1) == Mesa([0, 2, 1], 0, None)
  {
    var cs := [0, 1, 2];
    assert Posicion(cs, 1) == 1;
    assert [cs[0]] + cs[2..] + cs[1..2] == [0, 2, 1];
  }

  lemma EjemploCambioDeLugarDos()
    ensures Reubicado(Mesa([0, 1, 2], 1, None), 1) == Mesa([0, 2, 1], 2, None)
  {
    var cs := [0, 1, 2];
    assert Posicion(cs, 1) == 1;
    assert [cs[0]] + cs[2..] + cs[1..2] == [0, 2, 1];
  }

  lemma EjemploCambioDeLugarTres()
    ensures Reubicado(Mesa([0, 3, 1, 2], 2, None), 2) == Mesa([0, 3, 1, 2], 2, None)
  {
    var cs := [0, 3, 1, 2];
    assert Posicion(cs, 2) == 3;
    assert [cs[0]] + cs[4..] + cs[1..4] == cs;
  }

  /** The listings of the `mostrarArturo` examples, reached by seating c0 as
      Arturo and then c2 and c1 to his right. */
  lemma EjemplosMostrarArturo()
    ensures Mostrada(Vacia<int>()) == []
    ensures Mostrada(ConArturo(0)) == [DeArturo(0)]
    ensures Mostrada(Incorporado(ConArturo(0), 1)) == [DeArturo(0), Simple(1)]
  {
    assert Fichas(Incorporado(ConArturo(0), 1)) == [DeArturo(0), Simple(1)];
    assert Fichas(ConArturo(0)) == [DeArturo(0)];
  }

  /** The three-knight table of the `mostrarArturo` examples, reached by
      seating c0 as Arturo and then c2 and c1 to his right; the next turn
      goes to c1 and then Arturo interrupts c1. */
  lemma EjemploTresCaballeros()
    ensures var m := Incorporado(Incorporado(ConArturo(0), 2), 1);
      && m == Mesa([0, 1, 2], 0, None)
      && Avanzado(m) == Mesa([0, 1, 2], 1, None)
      && Interrumpida(Avanzado(m)) == Mesa([0, 1, 2], 0, Some(1))
  {
    var m1 := Incorporado(ConArturo(0), 2);
    assert m1 == Mesa([0, 2], 0, None);
    assert Incorporado(m1, 1).caballeros == [0, 1, 2];
  }

  /** The three-knight listings of the `mostrarArturo` examples: while c0
      speaks, while c1 speaks, and once Arturo has interrupted c1. */
  lemma EjemplosMostrarArturoTres()
    ensures var m := Incorporado(Incorporado(ConArturo(0), 2), 1);
      && Mostrada(m) == [DeArturo(0), Simple(1), Simple(2)]
      && Mostrada(Avanzado(m)) == [Simple(1), Simple(2), DeArturo(0)]
      && Mostrada(Interrumpida(Avanzado(m))) == [DeArturo(0), Interrumpido(1), Simple(2)]
  {
    EjemploTresCaballeros();
    assert Fichas(Mesa([0, 1, 2], 0, None)) == [DeArturo(0), Simple(1), Simple(2)];
    assert Fichas(Mesa([0, 1, 2], 1, None)) == [DeArturo(0), Simple(1), Simple(2)];
    assert Fichas(Mesa([0, 1, 2], 0, Some(1))) == [DeArturo(0), Interrumpido(1), Simple(2)];
  }
}
