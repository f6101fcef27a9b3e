/** The application-level rules of the soundboard (scripts/app.js): name
    and colour helpers, the state repair, pad and tab lookup, the ducking
    decision and the click dispatch. The running application is the class
    `Aplicacion`, whose fields are the module-level variables the source
    reassigns. */
module App {
  import opened Wrappers
  import opened Texto
  import opened Estado

  // ---------------------------------------------------------------------
  // File names
  // ---------------------------------------------------------------------

  /** `s.lastIndexOf(c)`: -1 when `c` does not occur. */
  function UltimoIndice(s: string, c: char): (i: int)
    ensures -1 <= i < |s|
    ensures i >= 0 ==> s[i] == c && forall j :: i < j < |s| ==> s[j] != c
    ensures i == -1 ==> c !in s
  {
    if s == [] then -1
    else if s[|s| - 1] == c then |s| - 1
    else UltimoIndice(s[..|s| - 1], c)
  }

  /** `limpiarExtensionNombre`: drops the extension after the last dot,
      unless that dot is the first character (a hidden-file name) or there
      is none. The result is always a prefix of the name. */
  function LimpiarExtensionNombre(nombre: string): (r: string)
    ensures r <= nombre
    ensures r == nombre <==> forall j :: 0 < j < |nombre| ==> nombre[j] != '.'
    ensures r != nombre ==> (0 < |r| < |nombre| && nombre[|r|] == '.'
                             && forall j :: |r| < j < |nombre| ==> nombre[j] != '.')
  {
    if nombre == "" then ""
    else
      var ultimoPunto := UltimoIndice(nombre, '.');
      if ultimoPunto <= 0 then nombre else nombre[..ultimoPunto]
  }

  /** The extension removed is exactly the part after the last dot. */
  lemma QuitarExtension(base: string, extension: string)
    requires base != [] && '.' !in extension
    ensures LimpiarExtensionNombre(base + "." + extension) == base
  {
    var nombre := base + "." + extension;
    var r := LimpiarExtensionNombre(nombre);
    assert nombre[|base|] == '.';
    assert forall j :: |base| < j < |nombre| ==> nombre[j] == extension[j - |base| - 1];
    assert |r| == |base|;
    assert nombre[..|base|] == base;
  }

  /** A name with no dot after its first character is kept as it is. */
  lemma NombreSinExtension(nombre: string)
    requires forall j :: 0 < j < |nombre| ==> nombre[j] != '.'
    ensures LimpiarExtensionNombre(nombre) == nombre
  {
  }

  /** Cleaning is not idempotent: a name with two extensions loses one at
      each cleaning, so a stored name cleaned again at start-up or on import
      loses a second one. */
  lemma LimpiarDosVeces()
    ensures LimpiarExtensionNombre("pista.final.mp3") == "pista.final"
    ensures LimpiarExtensionNombre(LimpiarExtensionNombre("pista.final.mp3")) == "pista"
  {
    assert "pista.final" + "." + "mp3" == "pista.final.mp3";
    assert "pista" + "." + "final" == "pista.final";
    QuitarExtension("pista.final", "mp3");
    QuitarExtension("pista", "final");
  }

  // ---------------------------------------------------------------------
  // Colours
  // ---------------------------------------------------------------------

  /** The fallback colour components, for a missing or short colour. */
  const ComponentesPorDefecto: (Canal, Canal, Canal) := (Some(68), Some(82), Some(110))

  /** `hexAComponentesRgb`: the three channels read from hexadecimal pairs
      0-1, 2-3 and 4-5 once the first '#' is removed; the fallback when the
      colour is empty or shorter than six characters without that '#'. */
  function HexAComponentesRgb(colorHex: string): (r: (Canal, Canal, Canal))
    ensures colorHex == "" || |QuitarPrimero(colorHex, '#')| < 6 ==> r == ComponentesPorDefecto
  {
    if colorHex == "" || |QuitarPrimero(colorHex, '#')| < 6 then ComponentesPorDefecto
    else (CanalHex(colorHex, 0), CanalHex(colorHex, 2), CanalHex(colorHex, 4))
  }

  /** A `#rrggbb` colour yields its three bytes, never `NaN`. */
  lemma ComponentesDeColorHex(colorHex: string)
    requires EsColorHex(colorHex)
    ensures var r := HexAComponentesRgb(colorHex);
      && r.0 == Some(ValorHex(colorHex[1..3])) && r.1 == Some(ValorHex(colorHex[3..5]))
      && r.2 == Some(ValorHex(colorHex[5..7]))
      && r.0.value < 256 && r.1.value < 256 && r.2.value < 256
  {
    assert QuitarPrimero(colorHex, '#') == colorHex[1..];
    CanalesDeColorHex(colorHex);
  }

  /** Writing three bytes as `#rrggbb` and reading them back gives the bytes. */
  lemma HexAComponentesDeBytes(r: nat, g: nat, b: nat)
    requires r < 256 && g < 256 && b < 256
    ensures HexAComponentesRgb("#" + HexDosDigitos(r) + HexDosDigitos(g) + HexDosDigitos(b)) == (Some(r), Some(g), Some(b))
  {
    var c := "#" + HexDosDigitos(r) + HexDosDigitos(g) + HexDosDigitos(b);
    ColorDePares(HexDosDigitos(r), HexDosDigitos(g), HexDosDigitos(b));
    ParseIntHexDosDigitos(r);
    ParseIntHexDosDigitos(g);
    ParseIntHexDosDigitos(b);
    ParseIntHexPar(HexDosDigitos(r));
    ParseIntHexPar(HexDosDigitos(g));
    ParseIntHexPar(HexDosDigitos(b));
    ComponentesDeColorHex(c);
  }

  /** Three pairs of hexadecimal digits after a '#' make a colour whose
      pairs are those three. */
  lemma ColorDePares(x: string, y: string, z: string)
    requires |x| == 2 && |y| == 2 && |z| == 2 && SoloHex(x) && SoloHex(y) && SoloHex(z)
    ensures var c := "#" + x + y + z;
      EsColorHex(c) && c[1..3] == x && c[3..5] == y && c[5..7] == z
  {
    var c := "#" + x + y + z;
    assert c[1..3] == x && c[3..5] == y && c[5..7] == z;
    assert c[1..] == x + y + z;
  }

  /** The components a pad is painted with are the channels its border was
      brightened from. */
  lemma ComponentesYBorde(colorHex: string)
    requires EsColorHex(colorHex)
    ensures var c := HexAComponentesRgb(colorHex);
      LeerRgb(CalcularBorde(colorHex)) == Some((Aclarar(c.0.value), Aclarar(c.1.value), Aclarar(c.2.value)))
  {
    ComponentesDeColorHex(colorHex);
    LeerCalcularBorde(colorHex);
  }

  // ---------------------------------------------------------------------
  // Whole-state name cleaning
  // ---------------------------------------------------------------------

  function LimpiarExtensionesPestana(p: Pestana): (r: Pestana)
    ensures r.idPestana == p.idPestana && r.nombre == p.nombre && |r.pads| == |p.pads|
    ensures forall j :: 0 <= j < |p.pads| ==>
      r.pads[j] == p.pads[j].(nombreArchivo := LimpiarExtensionNombre(p.pads[j].nombreArchivo))
  {
    p.(pads := seq(|p.pads|, j requires 0 <= j < |p.pads| =>
      p.pads[j].(nombreArchivo := LimpiarExtensionNombre(p.pads[j].nombreArchivo))))
  }

  /** `limpiarExtensionesEstado`: every pad's `nombreArchivo` loses its
      extension; tabs, their order and every other field stay. */
  function LimpiarExtensionesEstado(e: EstadoProyecto): (r: EstadoProyecto)
    ensures r.pestanaActivaId == e.pestanaActivaId && r.columnas == e.columnas && r.indiceColor == e.indiceColor
    ensures |r.pestanas| == |e.pestanas|
    ensures forall i :: 0 <= i < |e.pestanas| ==> r.pestanas[i] == LimpiarExtensionesPestana(e.pestanas[i])
  {
    e.(pestanas := seq(|e.pestanas|, i requires 0 <= i < |e.pestanas| => LimpiarExtensionesPestana(e.pestanas[i])))
  }

  /** Cleaning names keeps every tab id and every pad id in place, so it
      keeps the state valid. */
  lemma LimpiarExtensionesConservaIds(e: EstadoProyecto)
    ensures IdsPestanas(LimpiarExtensionesEstado(e).pestanas) == IdsPestanas(e.pestanas)
    ensures IdsPads(LimpiarExtensionesEstado(e).pestanas) == IdsPads(e.pestanas)
    ensures BienFormado(e) ==> BienFormado(LimpiarExtensionesEstado(e))
    ensures Valido(e) ==> Valido(LimpiarExtensionesEstado(e))
  {
    var r := LimpiarExtensionesEstado(e);
    forall i | 0 <= i < |e.pestanas|
      ensures IdsDeLista(r.pestanas[i].pads) == IdsDeLista(e.pestanas[i].pads)
    {
    }
    IdsPadsPorPestana(e.pestanas, r.pestanas);
    assert IdsPestanas(r.pestanas) == IdsPestanas(e.pestanas);
    if BienFormado(e) {
      var i :| 0 <= i < |e.pestanas| && e.pestanas[i].idPestana == e.pestanaActivaId;
      assert r.pestanas[i].idPestana == r.pestanaActivaId;
    }
  }

  // ---------------------------------------------------------------------
  // Lookup
  // ---------------------------------------------------------------------

  /** Index of the first tab holding a pad with the id, `|ps|` when none does
      (`pestañas.find((p) => p.pads.some(...))`). */
  function PestanaDePad(ps: seq<Pestana>, idPad: Id): (k: nat)
    ensures k <= |ps|
    ensures forall i :: 0 <= i < k ==> idPad !in IdsDeLista(ps[i].pads)
    ensures k < |ps| ==> idPad in IdsDeLista(ps[k].pads)
  {
    if ps == [] then 0
    else if idPad in IdsDeLista(ps[0].pads) then 0
    else
      var k := 1 + PestanaDePad(ps[1..], idPad);
      assert forall i :: 1 <= i < k ==> ps[i] == ps[1..][i - 1];
      k
  }

  /** Index of the first pad with the id (`pads.find`). */
  function PrimerPad(pads: seq<Pad>, idPad: Id): (j: nat)
    requires idPad in IdsDeLista(pads)
    ensures j < |pads| && pads[j].idPad == idPad
    ensures forall j' :: 0 <= j' < j ==> pads[j'].idPad != idPad
  {
    if pads[0].idPad == idPad then 0
    else
      assert IdsDeLista(pads[1..]) == IdsDeLista(pads)[1..];
      var j := 1 + PrimerPad(pads[1..], idPad);
      assert forall j' :: 1 <= j' < j ==> pads[j'] == pads[1..][j' - 1];
      j
  }

  /** `obtenerPadPorId`: the first pad with the id, scanning the tabs in
      order and each tab's pads in order; `None` (null) when there is none. */
  function ObtenerPadPorId(e: EstadoProyecto, idPad: Id): (r: Option<Pad>)
    ensures r.None? <==> forall i, j :: 0 <= i < |e.pestanas| && 0 <= j < |e.pestanas[i].pads| ==>
      e.pestanas[i].pads[j].idPad != idPad
    ensures r.Some? ==> exists i, j ::
      && 0 <= i < |e.pestanas| && 0 <= j < |e.pestanas[i].pads|
      && r.value == e.pestanas[i].pads[j] && r.value.idPad == idPad
      && (forall i' :: 0 <= i' < i ==> idPad !in IdsDeLista(e.pestanas[i'].pads))
      && (forall j' :: 0 <= j' < j ==> e.pestanas[i].pads[j'].idPad != idPad)
  {
    var ps := e.pestanas;
    var k := PestanaDePad(ps, idPad);
    if k == |ps| then
      assert forall i, j :: 0 <= i < |ps| && 0 <= j < |ps[i].pads| ==> IdsDeLista(ps[i].pads)[j] == ps[i].pads[j].idPad;
      None
    else
      Some(ps[k].pads[PrimerPad(ps[k].pads, idPad)])
  }

  /** `obtenerIdPestanaDePad`: the id of the first tab holding the pad, or the
      active tab's id when no tab does. */
  function ObtenerIdPestanaDePad(e: EstadoProyecto, idPad: Id): (r: Id)
    ensures (forall i :: 0 <= i < |e.pestanas| ==> idPad !in IdsDeLista(e.pestanas[i].pads)) ==> r == e.pestanaActivaId
    ensures forall i ::
      (&& 0 <= i < |e.pestanas| && idPad in IdsDeLista(e.pestanas[i].pads)
       && (forall i' :: 0 <= i' < i ==> idPad !in IdsDeLista(e.pestanas[i'].pads)))
      ==> r == e.pestanas[i].idPestana
  {
    var k := PestanaDePad(e.pestanas, idPad);
    if k < |e.pestanas| then e.pestanas[k].idPestana else e.pestanaActivaId
  }

  /** Position of pad `j` of tab `i` among all pads. */
  lemma {:induction false} PosicionEnTodos(ps: seq<Pestana>, i: nat, j: nat)
    requires i < |ps| && j < |ps[i].pads|
    ensures |TodosLosPads(ps[..i])| + j < |TodosLosPads(ps)|
    ensures TodosLosPads(ps)[|TodosLosPads(ps[..i])| + j] == ps[i].pads[j]
    ensures forall i' :: 0 <= i' < i ==> |TodosLosPads(ps[..i'])| + |ps[i'].pads| <= |TodosLosPads(ps[..i])|
  {
    assert ps == ps[..i] + ([ps[i]] + ps[i + 1..]);
    TodosLosPadsConcat(ps[..i], [ps[i]] + ps[i + 1..]);
    assert TodosLosPads([ps[i]] + ps[i + 1..]) == ps[i].pads + TodosLosPads(ps[i + 1..]);
    forall i' | 0 <= i' < i
      ensures |TodosLosPads(ps[..i'])| + |ps[i'].pads| <= |TodosLosPads(ps[..i])|
    {
      assert ps[..i] == ps[..i'] + ([ps[i']] + ps[i' + 1..i]);
      TodosLosPadsConcat(ps[..i'], [ps[i']] + ps[i' + 1..i]);
      assert TodosLosPads([ps[i']] + ps[i' + 1..i]) == ps[i'].pads + TodosLosPads(ps[i' + 1..i]);
    }
  }

  /** With unique pad ids, two pads with the same id are the same pad. */
  lemma PadsConMismoId(ps: seq<Pestana>, i: nat, j: nat, i2: nat, j2: nat)
    requires SinRepetidos(IdsPads(ps))
    requires i < |ps| && j < |ps[i].pads| && i2 < |ps| && j2 < |ps[i2].pads|
    requires ps[i].pads[j].idPad == ps[i2].pads[j2].idPad
    ensures i == i2 && j == j2
  {
    PosicionEnTodos(ps, i, j);
    PosicionEnTodos(ps, i2, j2);
    var a := |TodosLosPads(ps[..i])| + j;
    var b := |TodosLosPads(ps[..i2])| + j2;
    if a != b {
      IdsIgualesRepiten(IdsPads(ps), a, b);
    }
  }

  /** In a state with unique pad ids, both lookups find pad `j` of tab `i`
      by its id: the pad itself, and the tab that holds it. */
  lemma BuscarPadUnico(e: EstadoProyecto, i: nat, j: nat)
    requires SinRepetidos(IdsPads(e.pestanas))
    requires i < |e.pestanas| && j < |e.pestanas[i].pads|
    ensures ObtenerPadPorId(e, e.pestanas[i].pads[j].idPad) == Some(e.pestanas[i].pads[j])
    ensures ObtenerIdPestanaDePad(e, e.pestanas[i].pads[j].idPad) == e.pestanas[i].idPestana
  {
    var ps := e.pestanas;
    var id := ps[i].pads[j].idPad;
    assert IdsDeLista(ps[i].pads)[j] == id;
    var r := ObtenerPadPorId(e, id);
    var i2, j2 :| && 0 <= i2 < |ps| && 0 <= j2 < |ps[i2].pads|
      && r.value == ps[i2].pads[j2] && r.value.idPad == id;
    PadsConMismoId(ps, i, j, i2, j2);
    var k := PestanaDePad(ps, id);
    var j3 :| 0 <= j3 < |ps[k].pads| && IdsDeLista(ps[k].pads)[j3] == id;
    PadsConMismoId(ps, i, j, k, j3);
  }

  // ---------------------------------------------------------------------
  // Ducking
  // ---------------------------------------------------------------------

  const VolumenDucking: real := 0.35
  const VolumenNormal: real := 1.0

  /** A volume pushed to one pad's audio element. */
  datatype Ajuste = Ajuste(idPad: Id, volumen: real)

  /** The pads that are playing (`filter((p) => p.reproduccion.reproduciendo)`). */
  function Sonando(pads: seq<Pad>): (r: seq<Pad>)
    ensures forall p :: p in r <==> p in pads && p.reproduccion.reproduciendo
  {
    if pads == [] then []
    else if pads[|pads| - 1].reproduccion.reproduciendo then Sonando(pads[..|pads| - 1]) + [pads[|pads| - 1]]
    else Sonando(pads[..|pads| - 1])
  }

  /** The ducking rule for one pad: reduced exactly when it has ducking on
      and some pad with another id is playing. */
  function VolumenPara(pads: seq<Pad>, p: Pad): (v: real)
    ensures v == VolumenDucking <==>
      p.opciones.duckingActivo && exists q :: q in pads && q.reproduccion.reproduciendo && q.idPad != p.idPad
    ensures v == VolumenDucking || v == VolumenNormal
  {
    if p.opciones.duckingActivo && exists q :: q in Sonando(pads) && q.idPad != p.idPad then VolumenDucking
    else VolumenNormal
  }

  /** The volumes the ducking pass pushes for `pads`, one per pad, in order. */
  function Ajustes(todos: seq<Pad>, pads: seq<Pad>): (r: seq<Ajuste>)
    ensures |r| == |pads|
    ensures forall k :: 0 <= k < |pads| ==> r[k] == Ajuste(pads[k].idPad, VolumenPara(todos, pads[k]))
  {
    seq(|pads|, k requires 0 <= k < |pads| => Ajuste(pads[k].idPad, VolumenPara(todos, pads[k])))
  }

  /** `recalcularDucking`: walks every tab's pads in order and pushes each
      pad's volume: the ducked level exactly when the pad has ducking on and
      a pad with another id is playing, the full level otherwise. */
  method RecalcularDucking(e: EstadoProyecto) returns (ajustes: seq<Ajuste>)
    ensures var todos := TodosLosPads(e.pestanas);
      && |ajustes| == |todos|
      && forall k :: 0 <= k < |todos| ==>
        && ajustes[k].idPad == todos[k].idPad
        && (ajustes[k].volumen == VolumenDucking <==>
              todos[k].opciones.duckingActivo
              && exists q :: q in todos && q.reproduccion.reproduciendo && q.idPad != todos[k].idPad)
        && (ajustes[k].volumen == VolumenDucking || ajustes[k].volumen == VolumenNormal)
  {
    var todos := TodosLosPads(e.pestanas);
    ajustes := [];
    var i := 0;
    while i < |e.pestanas|
      invariant 0 <= i <= |e.pestanas|
      invariant ajustes == Ajustes(todos, TodosLosPads(e.pestanas[..i]))
    {
      var pads := e.pestanas[i].pads;
      ghost var previos := TodosLosPads(e.pestanas[..i]);
      var j := 0;
      while j < |pads|
        invariant 0 <= j <= |pads|
        invariant ajustes == Ajustes(todos, previos + pads[..j])
      {
        assert pads[..j + 1] == pads[..j] + [pads[j]];
        Asociar(previos, pads[..j], [pads[j]]);
        AjustesAnadir(todos, previos + pads[..j], pads[j]);
        ajustes := ajustes + [Ajuste(pads[j].idPad, VolumenPara(todos, pads[j]))];
        j := j + 1;
      }
      assert pads[..j] == pads;
      TodosLosPadsPrefijo(e.pestanas, i);
      i := i + 1;
    }
    assert e.pestanas[..i] == e.pestanas;
  }

  /** One more pad, one more volume at the end. */
  lemma AjustesAnadir(todos: seq<Pad>, pads: seq<Pad>, p: Pad)
    ensures Ajustes(todos, pads + [p]) == Ajustes(todos, pads) + [Ajuste(p.idPad, VolumenPara(todos, p))]
  {
  }

  /** The pads of the first `i + 1` tabs are those of the first `i` and then tab `i`'s. */
  lemma TodosLosPadsPrefijo(ps: seq<Pestana>, i: nat)
    requires i < |ps|
    ensures TodosLosPads(ps[..i + 1]) == TodosLosPads(ps[..i]) + ps[i].pads
  {
    assert ps[..i + 1] == ps[..i] + [ps[i]];
    TodosLosPadsConcat(ps[..i], [ps[i]]);
    assert [ps[i]][1..] == [];
    assert TodosLosPads([ps[i]]) == ps[i].pads;
  }

  /** With nothing playing, no pad is ducked. */
  lemma SinReproduccionSinDucking(pads: seq<Pad>, p: Pad)
    requires forall q :: q in pads ==> !q.reproduccion.reproduciendo
    ensures VolumenPara(pads, p) == VolumenNormal
  {
  }

  /** A pad that is the only one playing is never ducked by itself, while
      every other pad with ducking on is. */
  lemma UnicoSonandoNoSeAtenua(pads: seq<Pad>, p: Pad, otro: Pad)
    requires p in pads && p.reproduccion.reproduciendo
    requires forall q :: q in pads && q.reproduccion.reproduciendo ==> q.idPad == p.idPad
    ensures VolumenPara(pads, p) == VolumenNormal
    ensures otro.idPad != p.idPad && otro.opciones.duckingActivo ==> VolumenPara(pads, otro) == VolumenDucking
  {
  }

  // ---------------------------------------------------------------------
  // Click dispatch
  // ---------------------------------------------------------------------

  /** What a click on a pad leads to. */
  datatype Accion = Nada | PedirArchivo(idPad: Id) | Detener(pad: Pad) | Reproducir(pad: Pad)

  /** The branches of `manejarClickPad`: nothing for an unknown pad; a file
      prompt for a pad without a file or whose file must be reloaded;
      otherwise stop when its audio is in progress and play when it is not. */
  function DespachoClick(pad: Option<Pad>, idPad: Id, enCurso: bool): (a: Accion)
    ensures a.Nada? <==> pad.None?
    ensures a.PedirArchivo? <==> pad.Some? && (pad.value.archivo.None? || pad.value.necesitaRecarga)
    ensures a.PedirArchivo? ==> a.idPad == idPad
    ensures a.Detener? <==> pad.Some? && pad.value.archivo.Some? && !pad.value.necesitaRecarga && enCurso
    ensures (a.Detener? || a.Reproducir?) ==> a.pad == pad.value
  {
    match pad
    case None => Nada
    case Some(p) =>
      if p.archivo.None? || p.necesitaRecarga then PedirArchivo(idPad)
      else if enCurso then Detener(p)
      else Reproducir(p)
  }

  /** Clicking a pad just added with a fresh id always asks for a file. */
  lemma ClickEnPadNuevo(e: EstadoProyecto, k: nat, idNuevo: Id, enCurso: bool)
    requires Valido(e) && k < |e.pestanas| && idNuevo !in IdsPads(e.pestanas)
    ensures var r := AgregarPad(e, e.pestanas[k].idPestana, idNuevo);
      DespachoClick(ObtenerPadPorId(r, idNuevo), idNuevo, enCurso) == PedirArchivo(idNuevo)
  {
    var r := AgregarPad(e, e.pestanas[k].idPestana, idNuevo);
    AgregarPadEnPestana(e, k, idNuevo);
    AgregarPadPreservaValido(e, e.pestanas[k].idPestana, idNuevo);
    var j := |e.pestanas[k].pads|;
    assert r.pestanas[k].pads[j] == CrearPadBase(idNuevo, e.indiceColor);
    BuscarPadUnico(r, k, j);
  }

  // ---------------------------------------------------------------------
  // The running application
  // ---------------------------------------------------------------------

  /** The state repair of `asegurarEstadoValido`: no tabs gives the initial
      three-tab state; an active id naming no tab becomes the first tab's id. */
  function EstadoAsegurado(e: EstadoProyecto, idsPestana: seq<Id>, idsPad: seq<Id>): (r: EstadoProyecto)
    requires |idsPestana| == PestanasIniciales && |idsPad| == PestanasIniciales
    ensures BienFormado(r)
    ensures BienFormado(e) ==> r == e
    ensures |e.pestanas| == 0 ==> r == CrearEstadoInicial(PestanasIniciales, ColumnasIniciales, idsPestana, idsPad)
    ensures |e.pestanas| > 0 ==> r.pestanas == e.pestanas && r.columnas == e.columnas && r.indiceColor == e.indiceColor
    ensures |e.pestanas| > 0 && !ExistePestana(e.pestanas, e.pestanaActivaId) ==> r.pestanaActivaId == e.pestanas[0].idPestana
  {
    if |e.pestanas| == 0 then CrearEstadoInicial(PestanasIniciales, ColumnasIniciales, idsPestana, idsPad)
    else if !ExistePestana(e.pestanas, e.pestanaActivaId) then
      assert e.pestanas[0].idPestana == e.pestanas[0].idPestana;
      e.(pestanaActivaId := e.pestanas[0].idPestana)
    else e
  }

  /** The repair keeps a state with unique ids valid. */
  lemma EstadoAseguradoValido(e: EstadoProyecto, idsPestana: seq<Id>, idsPad: seq<Id>)
    requires |idsPestana| == PestanasIniciales && |idsPad| == PestanasIniciales
    requires SinRepetidos(idsPestana) && SinRepetidos(idsPad)
    requires SinRepetidos(IdsPestanas(e.pestanas)) && SinRepetidos(IdsPads(e.pestanas)) && e.indiceColor >= 0
    ensures Valido(EstadoAsegurado(e, idsPestana, idsPad))
  {
    if |e.pestanas| == 0 {
      CrearEstadoInicialValido(PestanasIniciales, ColumnasIniciales, idsPestana, idsPad);
    }
  }

  /** The state the application starts with: the persisted state, or a
      fresh initial one when nothing was persisted, normalised, with every
      file name's extension removed. It is always well formed. */
  function EstadoDeArranque(persistido: Option<EstadoCrudo>, idsPestana: seq<Id>, idsPad: seq<Id>): (r: EstadoProyecto)
    requires |idsPestana| == PestanasIniciales && |idsPad| == PestanasIniciales
    ensures BienFormado(r)
  {
    var crudo := if persistido.Some? then persistido
      else Some(ACrudo(CrearEstadoInicial(PestanasIniciales, ColumnasIniciales, idsPestana, idsPad)));
    var normalizado := NormalizarEstado(crudo, idsPestana, idsPad);
    LimpiarExtensionesConservaIds(normalizado);
    LimpiarExtensionesEstado(normalizado)
  }

  class Aplicacion {
    /** `estadoAplicacion`. */
    var estado: EstadoProyecto
    /** `padEsperandoArchivo`: the pad a file prompt is open for. */
    var padEsperandoArchivo: Option<Id>
    /** What `guardarEstadoLocal` last persisted. */
    var guardadoLocal: Option<EstadoProyecto>

    /** Start-up: the persisted state (or a fresh initial one), normalised
        and with every file name's extension removed. */
    constructor (persistido: Option<EstadoCrudo>, idsPestana: seq<Id>, idsPad: seq<Id>)
      requires |idsPestana| == PestanasIniciales && |idsPad| == PestanasIniciales
      ensures estado == EstadoDeArranque(persistido, idsPestana, idsPad) && BienFormado(estado)
      ensures padEsperandoArchivo.None? && guardadoLocal.None?
    {
      var inicial := EstadoDeArranque(persistido, idsPestana, idsPad);
      estado := inicial;
      padEsperandoArchivo := None;
      guardadoLocal := None;
    }

    /** `asegurarEstadoValido`: repairs the state and persists it when it
        changed; a well-formed state is neither changed nor saved. */
    method AsegurarEstadoValido(idsPestana: seq<Id>, idsPad: seq<Id>)
      requires |idsPestana| == PestanasIniciales && |idsPad| == PestanasIniciales
      modifies this
      ensures estado == EstadoAsegurado(old(estado), idsPestana, idsPad) && BienFormado(estado)
      ensures guardadoLocal == if BienFormado(old(estado)) then old(guardadoLocal) else Some(estado)
      ensures padEsperandoArchivo == old(padEsperandoArchivo)
    {
      if |estado.pestanas| == 0 {
        estado := CrearEstadoInicial(PestanasIniciales, ColumnasIniciales, idsPestana, idsPad);
        guardadoLocal := Some(estado);
        return;
      }
      var existeActiva := ExistePestana(estado.pestanas, estado.pestanaActivaId);
      if !existeActiva {
        estado := estado.(pestanaActivaId := estado.pestanas[0].idPestana);
        guardadoLocal := Some(estado);
      }
    }

    /** `manejarClickPad` up to the playback it starts or stops: an empty or
        stale pad opens the file prompt for itself; the state is not changed. */
    method ManejarClickPad(idPad: Id, enCurso: bool) returns (accion: Accion)
      modifies this
      ensures accion == DespachoClick(ObtenerPadPorId(estado, idPad), idPad, enCurso)
      ensures estado == old(estado) && guardadoLocal == old(guardadoLocal)
      ensures padEsperandoArchivo == if accion.PedirArchivo? then Some(idPad) else old(padEsperandoArchivo)
    {
      var pad := ObtenerPadPorId(estado, idPad);
      if pad.None? {
        return Nada;
      }
      if pad.value.archivo.None? || pad.value.necesitaRecarga {
        padEsperandoArchivo := Some(idPad);
        return PedirArchivo(idPad);
      }
      if enCurso {
        accion := Detener(pad.value);
      } else {
        accion := Reproducir(pad.value);
      }
    }
  }
}
