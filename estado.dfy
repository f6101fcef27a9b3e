/** The soundboard's project state and the pure operations on it
    (scripts/estado.js). Every operation returns a new state and never
    changes its argument. Identifiers, which the source draws from
    `crypto.randomUUID`, are parameters here; the lemmas that keep them
    unique ask for them to be fresh. */
module Estado {
  import opened Wrappers
  import opened Texto

  type Id = string

  /** The 51 base colours, handed out in order as pads are created. */
  const PaletaColores: seq<string> :=
    Tramo1 + Tramo2 + Tramo3 + Tramo4 + Tramo5 + Tramo6 + Tramo7 + Tramo8

  // The palette is written in runs of seven so that the verifier can look
  // an entry up without unfolding one long literal.
  const Tramo1: seq<string> := ["#fef3c7", "#fde047", "#facc15", "#fcd34d", "#fb923c", "#f97316", "#ea580c"]
  const Tramo2: seq<string> := ["#d97706", "#f59e0b", "#a3e635", "#84cc16", "#22c55e", "#16a34a", "#15803d"]
  const Tramo3: seq<string> := ["#34d399", "#10b981", "#bbf7d0", "#2dd4bf", "#14b8a6", "#22d3ee", "#67e8f9"]
  const Tramo4: seq<string> := ["#e0f2fe", "#0ea5e9", "#38bdf8", "#3b82f6", "#2563eb", "#1d4ed8", "#5b21b6"]
  const Tramo5: seq<string> := ["#4c1d95", "#4338ca", "#8b5cf6", "#a855f7", "#c084fc", "#f5d0fe", "#7c3aed"]
  const Tramo6: seq<string> := ["#d946ef", "#ec4899", "#f472b6", "#fb7185", "#f87171", "#ef4444", "#dc2626"]
  const Tramo7: seq<string> := ["#9ca3af", "#94a3b8", "#cbd5e1", "#4b5563", "#475569", "#334155", "#1f2937"]
  const Tramo8: seq<string> := ["#0f172a", "#18181b"]

  /** Entry `i` of a list, reached by walking down the list one element at a
      time. Palette lookups go through it: an index into the palette literal
      itself would make the verifier consider every colour at once. */
  function EnPosicion(s: seq<string>, i: nat): string
    requires i < |s|
    decreases i
  {
    if i == 0 then s[0] else EnPosicion(s[1..], i - 1)
  }

  lemma {:induction false} EnPosicionIndice(s: seq<string>, i: nat)
    requires i < |s|
    ensures EnPosicion(s, i) == s[i]
    decreases i
  {
    if i > 0 {
      EnPosicionIndice(s[1..], i - 1);
    }
  }

  /** `paletaColores[indiceColor % paletaColores.length]`. */
  function ColorDePaleta(indiceColor: nat): string {
    EnPosicion(PaletaColores, indiceColor % |PaletaColores|)
  }

  const NombrePadVacio: string := "Vacío"
  const NombrePestanaNueva: string := "Nueva pestaña"
  const PestanasIniciales: nat := 3
  const ColumnasIniciales: int := 5

  // ---------------------------------------------------------------------
  // Data model
  // ---------------------------------------------------------------------

  datatype Opciones = Opciones(
    duckingActivo: bool,
    bucleActivo: bool,
    reinicioActivo: bool,
    fadeInActivo: bool,
    fadeOutActivo: bool)

  /** Transient playback data; times in whole seconds. */
  datatype Reproduccion = Reproduccion(reproduciendo: bool, duracionTotal: nat, tiempoRestante: nat)

  /** Metadata of the file assigned to a pad; its bytes live in the audio store. */
  datatype Archivo = Archivo(nombre: string, tipo: string)

  datatype Pad = Pad(
    idPad: Id,
    nombreArchivo: string,
    colorBase: string,
    colorBorde: string,
    opciones: Opciones,
    reproduccion: Reproduccion,
    archivo: Option<Archivo>,
    necesitaRecarga: bool)

  datatype Pestana = Pestana(idPestana: Id, nombre: string, pads: seq<Pad>)

  datatype EstadoProyecto = EstadoProyecto(
    pestanas: seq<Pestana>,
    pestanaActivaId: Id,
    columnas: int,
    indiceColor: int)

  /** A state as it may come back from storage: the tab list or a tab's pad
      list may be missing or not a list, and the numbers may be missing or
      not finite (`None` in every case). */
  datatype PestanaCruda = PestanaCruda(idPestana: Id, nombre: string, pads: Option<seq<Pad>>)

  datatype EstadoCrudo = EstadoCrudo(
    pestanas: Option<seq<PestanaCruda>>,
    pestanaActivaId: Option<Id>,
    columnas: Option<int>,
    indiceColor: Option<int>)

  /** A partial pad record for the shallow merge `{ ...pad, ...cambios }`:
      each `Some` field overrides, each `None` field is absent. */
  datatype CambiosPad = CambiosPad(
    idPad: Option<Id>,
    nombreArchivo: Option<string>,
    colorBase: Option<string>,
    colorBorde: Option<string>,
    opciones: Option<Opciones>,
    reproduccion: Option<Reproduccion>,
    archivo: Option<Option<Archivo>>,
    necesitaRecarga: Option<bool>)

  datatype CambiosReproduccion = CambiosReproduccion(
    reproduciendo: Option<bool>,
    duracionTotal: Option<nat>,
    tiempoRestante: Option<nat>)

  // ---------------------------------------------------------------------
  // Invariants
  // ---------------------------------------------------------------------

  ghost predicate SinRepetidos(s: seq<Id>) {
    forall x :: multiset(s)[x] <= 1
  }

  function IdsPestanas(ps: seq<Pestana>): (ids: seq<Id>)
    ensures |ids| == |ps| && forall i :: 0 <= i < |ps| ==> ids[i] == ps[i].idPestana
  {
    seq(|ps|, i requires 0 <= i < |ps| => ps[i].idPestana)
  }

  function IdsDeLista(pads: seq<Pad>): (ids: seq<Id>)
    ensures |ids| == |pads| && forall j :: 0 <= j < |pads| ==> ids[j] == pads[j].idPad
  {
    seq(|pads|, j requires 0 <= j < |pads| => pads[j].idPad)
  }

  /** All pads of all tabs, tab by tab (`pestañas.flatMap((p) => p.pads)`). */
  function TodosLosPads(ps: seq<Pestana>): seq<Pad> {
    if ps == [] then [] else ps[0].pads + TodosLosPads(ps[1..])
  }

  function IdsPads(ps: seq<Pestana>): seq<Id> {
    IdsDeLista(TodosLosPads(ps))
  }

  predicate ExistePestana(ps: seq<Pestana>, id: Id) {
    exists i :: 0 <= i < |ps| && ps[i].idPestana == id
  }

  /** At least one tab, and the active id names one of them. */
  predicate BienFormado(e: EstadoProyecto) {
    |e.pestanas| >= 1 && ExistePestana(e.pestanas, e.pestanaActivaId)
  }

  /** The invariant the soundboard keeps: well formed, tab ids unique, pad
      ids unique across all tabs, and a usable palette cursor. */
  ghost predicate Valido(e: EstadoProyecto) {
    && BienFormado(e)
    && SinRepetidos(IdsPestanas(e.pestanas))
    && SinRepetidos(IdsPads(e.pestanas))
    && e.indiceColor >= 0
  }

  lemma {:induction false} EnTodosLosPads(ps: seq<Pestana>, x: Id)
    ensures x in IdsPads(ps) <==> exists i, j :: 0 <= i < |ps| && 0 <= j < |ps[i].pads| && ps[i].pads[j].idPad == x
  {
    if ps != [] {
      EnTodosLosPads(ps[1..], x);
      EnIdsPadsCabeza(ps, x);
      ExistePadCabeza(ps, x);
    }
  }

  /** An id is among all the pads when it is in the first tab or among the
      pads of the rest. */
  lemma EnIdsPadsCabeza(ps: seq<Pestana>, x: Id)
    requires ps != []
    ensures x in IdsPads(ps) <==> (exists j :: 0 <= j < |ps[0].pads| && ps[0].pads[j].idPad == x) || x in IdsPads(ps[1..])
  {
    var a, b := IdsDeLista(ps[0].pads), IdsPads(ps[1..]);
    assert IdsPads(ps) == a + b by {
      assert TodosLosPads(ps) == ps[0].pads + TodosLosPads(ps[1..]);
    }
    if x in IdsPads(ps) {
      var k :| 0 <= k < |IdsPads(ps)| && IdsPads(ps)[k] == x;
      if k >= |ps[0].pads| {
        assert IdsPads(ps[1..])[k - |ps[0].pads|] == x;
      }
    }
    if exists j :: 0 <= j < |ps[0].pads| && ps[0].pads[j].idPad == x {
      var j :| 0 <= j < |ps[0].pads| && ps[0].pads[j].idPad == x;
      assert IdsPads(ps)[j] == x;
    }
    if x in IdsPads(ps[1..]) {
      var k :| 0 <= k < |b| && b[k] == x;
      assert IdsPads(ps)[|ps[0].pads| + k] == x;
    }
  }

  /** A pad of some tab is a pad of the first tab or of one of the others. */
  lemma ExistePadCabeza(ps: seq<Pestana>, x: Id)
    requires ps != []
    ensures (exists i, j :: 0 <= i < |ps| && 0 <= j < |ps[i].pads| && ps[i].pads[j].idPad == x)
      <==> ((exists j :: 0 <= j < |ps[0].pads| && ps[0].pads[j].idPad == x)
            || (exists i, j :: 0 <= i < |ps[1..]| && 0 <= j < |ps[1..][i].pads| && ps[1..][i].pads[j].idPad == x))
  {
    if exists i, j :: 0 <= i < |ps| && 0 <= j < |ps[i].pads| && ps[i].pads[j].idPad == x {
      var i, j :| 0 <= i < |ps| && 0 <= j < |ps[i].pads| && ps[i].pads[j].idPad == x;
      if i > 0 {
        assert ps[1..][i - 1].pads[j].idPad == x;
      }
    }
    if exists i, j :: 0 <= i < |ps[1..]| && 0 <= j < |ps[1..][i].pads| && ps[1..][i].pads[j].idPad == x {
      var i, j :| 0 <= i < |ps[1..]| && 0 <= j < |ps[1..][i].pads| && ps[1..][i].pads[j].idPad == x;
      assert ps[i + 1].pads[j].idPad == x;
    }
  }

  lemma {:induction false} MultisetIdsPads(ps: seq<Pestana>)
    ensures ps != [] ==> multiset(IdsPads(ps)) == multiset(IdsDeLista(ps[0].pads)) + multiset(IdsPads(ps[1..]))
  {
    if ps != [] {
      assert IdsPads(ps) == IdsDeLista(ps[0].pads) + IdsPads(ps[1..]);
    }
  }

  // ---------------------------------------------------------------------
  // Colours
  // ---------------------------------------------------------------------

  /** A colour written `#rrggbb`. */
  predicate EsColorHex(s: string) {
    |s| == 7 && s[0] == '#' && SoloHex(s[1..])
  }

  /** `Math.min(255, Math.round(v * 1.18))`, rounded half up on exact integers. */
  function Aclarar(v: nat): (w: nat)
    ensures w <= 255
    ensures v <= 255 ==> v <= w
    ensures 3 <= v < 255 ==> v < w
    ensures w == 255 <==> v >= 216
  {
    var redondeado := (v * 118 + 50) / 100;
    if redondeado < 255 then redondeado else 255
  }

  function AclararCanal(c: Canal): Canal {
    match c
    case None => None
    case Some(v) => Some(Aclarar(v))
  }

  /** A channel in a template literal: its decimal digits, or "NaN". */
  function CanalATexto(c: Canal): string {
    match c
    case None => "NaN"
    case Some(v) => NatADecimal(v)
  }

  /** The two hexadecimal digits at `[i, i + 2)` of the colour once its first
      '#' is gone, read by `parseInt(…, 16)`. */
  function CanalHex(colorHex: string, i: nat): Canal {
    ParseIntHex(Subcadena(QuitarPrimero(colorHex, '#'), i, i + 2))
  }

  /** The border colour: every channel brightened, written `rgb(r, g, b)`. */
  function CalcularBorde(colorHex: string): string {
    "rgb(" + CanalATexto(AclararCanal(CanalHex(colorHex, 0))) + ", "
      + CanalATexto(AclararCanal(CanalHex(colorHex, 2))) + ", "
      + CanalATexto(AclararCanal(CanalHex(colorHex, 4))) + ")"
  }

  /** Whatever the input, the border is written `rgb(…)`, so it never equals
      the `#` colour it came from. (Kept apart from the function: a contract
      on it would be unfolded wherever a pad is compared.) */
  lemma FormaDelBorde(colorHex: string)
    ensures var r := CalcularBorde(colorHex);
      |r| >= 12 && r[..4] == "rgb(" && r[|r| - 1] == ')'
    ensures |colorHex| > 0 && colorHex[0] == '#' ==> CalcularBorde(colorHex) != colorHex
  {
    var r := CalcularBorde(colorHex);
    assert r[..4] == "rgb(";
    if |colorHex| > 0 && colorHex[0] == '#' {
      assert r[0] != colorHex[0];
    }
  }

  /** Reads a colour written `rgb(r, g, b)` back into its three numbers. */
  function LeerRgb(s: string): Option<(nat, nat, nat)> {
    if |s| < 4 || s[..4] != "rgb(" then None else LeerComponentesRgb(s[4..])
  }

  /** Reads `r, g, b)` (what follows `rgb(`), with nothing after the parenthesis. */
  function LeerComponentesRgb(t: string): Option<(nat, nat, nat)> {
    match LeerNaturalYSeparador(t, ", ")
    case None => None
    case Some((r, resto)) => match LeerNaturalYSeparador(resto, ", ")
      case None => None
      case Some((g, resto')) => match LeerNaturalYSeparador(resto', ")")
        case None => None
        case Some((b, resto'')) => if resto'' == [] then Some((r, g, b)) else None
  }

  lemma ParseIntHexPar(s: string)
    requires |s| == 2 && SoloHex(s)
    ensures ParseIntHex(s) == Some(ValorHex(s)) && ValorHex(s) < 256
  {
    assert LongitudHex(s[1..]) == 1 by { assert s[1..][1..] == []; }
    assert LongitudHex(s) == 2;
    assert s[..2] == s && s[..1] == [s[0]] && s[..0] == [];
    assert ValorHex(s) == ValorHex(s[..1]) * 16 + ValorHexDigito(s[1]);
    assert ValorHex(s[..1]) == ValorHexDigito(s[0]);
  }

  lemma LeerComponentesRgbDe(r: nat, g: nat, b: nat)
    ensures LeerComponentesRgb((NatADecimal(r) + ", ") + ((NatADecimal(g) + ", ") + ((NatADecimal(b) + ")") + "")))
      == Some((r, g, b))
  {
    var tras2 := NatADecimal(b) + ")" + "";
    var tras1 := NatADecimal(g) + ", " + tras2;
    var t := NatADecimal(r) + ", " + tras1;
    LeerNaturalYSeparadorDe(r, ", ", tras1);
    assert LeerNaturalYSeparador(t, ", ") == Some((r, tras1));
    LeerNaturalYSeparadorDe(g, ", ", tras2);
    assert LeerNaturalYSeparador(tras1, ", ") == Some((g, tras2));
    LeerNaturalYSeparadorDe(b, ")", "");
    assert LeerNaturalYSeparador(tras2, ")") == Some((b, ""));
  }

  /** The colour `rgb(r, g, b)` reads back as `(r, g, b)`. */
  lemma LeerRgbDe(r: nat, g: nat, b: nat)
    ensures LeerRgb("rgb(" + NatADecimal(r) + ", " + NatADecimal(g) + ", " + NatADecimal(b) + ")") == Some((r, g, b))
  {
    var sr, sg, sb := NatADecimal(r), NatADecimal(g), NatADecimal(b);
    var p, c, q := "rgb(", ", ", ")";
    // Re-associate the left-nested concatenation one piece at a time.
    var u1 := sb + q;
    Asociar(p + sr + c + sg + c, sb, q);
    var u2 := c + u1;
    Asociar(p + sr + c + sg, c, u1);
    var u3 := sg + u2;
    Asociar(p + sr + c, sg, u2);
    var u4 := c + u3;
    Asociar(p + sr, c, u3);
    Asociar(p, sr, u4);
    var t := sr + u4;
    assert p + sr + c + sg + c + sb + q == p + t;
    Asociar(sr, c, u3);
    Asociar(sg, c, u1);
    assert u1 + "" == u1;
    assert t == (sr + c) + ((sg + c) + (u1 + ""));
    assert (p + t)[..4] == p && (p + t)[4..] == t;
    LeerComponentesRgbDe(r, g, b);
  }

  /** For a `#rrggbb` colour every channel is a number (never `NaN`). */
  lemma CanalesDeColorHex(colorHex: string)
    requires EsColorHex(colorHex)
    ensures CanalHex(colorHex, 0) == Some(ValorHex(colorHex[1..3])) && ValorHex(colorHex[1..3]) < 256
    ensures CanalHex(colorHex, 2) == Some(ValorHex(colorHex[3..5])) && ValorHex(colorHex[3..5]) < 256
    ensures CanalHex(colorHex, 4) == Some(ValorHex(colorHex[5..7])) && ValorHex(colorHex[5..7]) < 256
  {
    var limpio := QuitarPrimero(colorHex, '#');
    assert limpio == colorHex[1..];
    assert Subcadena(limpio, 0, 2) == colorHex[1..3];
    assert Subcadena(limpio, 2, 4) == colorHex[3..5];
    assert Subcadena(limpio, 4, 6) == colorHex[5..7];
    ParseIntHexPar(colorHex[1..3]);
    ParseIntHexPar(colorHex[3..5]);
    ParseIntHexPar(colorHex[5..7]);
  }

  /** For a `#rrggbb` colour the border reads back as the three brightened
      channels, so no channel is ever `NaN` and each is the source's
      `min(255, round(v * 1.18))`. */
  lemma LeerCalcularBorde(colorHex: string)
    requires EsColorHex(colorHex)
    ensures LeerRgb(CalcularBorde(colorHex)) == Some((
      Aclarar(ValorHex(colorHex[1..3])), Aclarar(ValorHex(colorHex[3..5])), Aclarar(ValorHex(colorHex[5..7]))))
  {
    CanalesDeColorHex(colorHex);
    LeerRgbDe(Aclarar(ValorHex(colorHex[1..3])), Aclarar(ValorHex(colorHex[3..5])), Aclarar(ValorHex(colorHex[5..7])));
  }

  predicate SoloColoresHex(colores: seq<string>) {
    forall i :: 0 <= i < |colores| ==> EsColorHex(colores[i])
  }

  lemma SoloColoresHexConcat(a: seq<string>, b: seq<string>)
    requires SoloColoresHex(a) && SoloColoresHex(b)
    ensures SoloColoresHex(a + b)
  {
    forall i | 0 <= i < |a + b|
      ensures EsColorHex((a + b)[i])
    {
      if i < |a| { assert (a + b)[i] == a[i]; } else { assert (a + b)[i] == b[i - |a|]; }
    }
  }

  /** Every palette entry is a `#rrggbb` colour, so the border of every
      palette colour has three numeric channels. */
  lemma PaletaValida()
    ensures |PaletaColores| == 51 && SoloColoresHex(PaletaColores)
  {
    Tramo1Valido(); Tramo2Valido(); Tramo3Valido(); Tramo4Valido();
    Tramo5Valido(); Tramo6Valido(); Tramo7Valido(); Tramo8Valido();
    var t := Tramo1;
    SoloColoresHexConcat(t, Tramo2); t := t + Tramo2;
    SoloColoresHexConcat(t, Tramo3); t := t + Tramo3;
    SoloColoresHexConcat(t, Tramo4); t := t + Tramo4;
    SoloColoresHexConcat(t, Tramo5); t := t + Tramo5;
    SoloColoresHexConcat(t, Tramo6); t := t + Tramo6;
    SoloColoresHexConcat(t, Tramo7); t := t + Tramo7;
    SoloColoresHexConcat(t, Tramo8); t := t + Tramo8;
  }

  lemma Tramo1Valido() ensures SoloColoresHex(Tramo1) { }
  lemma Tramo2Valido() ensures SoloColoresHex(Tramo2) { }
  lemma Tramo3Valido() ensures SoloColoresHex(Tramo3) { }
  lemma Tramo4Valido() ensures SoloColoresHex(Tramo4) { }
  lemma Tramo5Valido() ensures SoloColoresHex(Tramo5) { }
  lemma Tramo6Valido() ensures SoloColoresHex(Tramo6) { }
  lemma Tramo7Valido() ensures SoloColoresHex(Tramo7) { }
  lemma Tramo8Valido() ensures SoloColoresHex(Tramo8) { }

  /** The colour picked for any cursor value is the palette entry at that
      value modulo 51, a `#rrggbb` colour whose border reads back as three
      numbers. */
  lemma BordeDePaleta(i: nat)
    ensures ColorDePaleta(i) == PaletaColores[i % 51] && EsColorHex(ColorDePaleta(i))
    ensures LeerRgb(CalcularBorde(ColorDePaleta(i))).Some?
  {
    PaletaValida();
    EnPosicionIndice(PaletaColores, i % 51);
    LeerCalcularBorde(PaletaColores[i % 51]);
  }

  lemma ValorHexDos(s: string)
    requires |s| == 2 && SoloHex(s)
    ensures ValorHex(s) == ValorHexDigito(s[0]) * 16 + ValorHexDigito(s[1])
  {
    assert s[..1] == [s[0]] && s[..1][..0] == [];
    assert s[..|s| - 1] == s[..1];
    assert ValorHex(s[..1]) == ValorHexDigito(s[0]);
  }

  lemma BordeAmarilloClaro()
    ensures LeerRgb(CalcularBorde("#fef3c7")) == Some((255, 255, 235))
  {
    AmarilloClaroCanales();
    LeerCalcularBorde("#fef3c7");
  }

  /** The three pairs of `#fef3c7` and their values. */
  lemma AmarilloClaroCanales()
    ensures var c := "#fef3c7";
      && EsColorHex(c) && Aclarar(ValorHex(c[1..3])) == 255
      && Aclarar(ValorHex(c[3..5])) == 255 && Aclarar(ValorHex(c[5..7])) == 235
  {
    var c := "#fef3c7";
    assert c[1..] == "fef3c7";
    assert c[1..3] == "fe" && c[3..5] == "f3" && c[5..7] == "c7";
    ValorHexDos("fe");
    ValorHexDos("f3");
    ValorHexDos("c7");
    assert Aclarar(199) == 235;
  }

  /** The first palette colour (#fef3c7) gets the border rgb(255, 255, 235). */
  lemma BordePrimerColor()
    ensures ColorDePaleta(0) == "#fef3c7"
    ensures LeerRgb(CalcularBorde(ColorDePaleta(0))) == Some((255, 255, 235))
  {
    assert PaletaColores[0] == Tramo1[0];
    BordeAmarilloClaro();
  }

  // ---------------------------------------------------------------------
  // Time
  // ---------------------------------------------------------------------

  /** `mm:ss`, both parts at least two digits; negative input gives "00:00". */
  function FormatearTiempo(segundos: int): (r: string)
    ensures segundos < 0 ==> r == "00:00"
    ensures 0 <= segundos < 6000 ==> |r| == 5 && r[2] == ':'
  {
    if segundos < 0 then "00:00"
    else
      var m, s := segundos / 60, segundos % 60;
      NatADecimalCorto(m);
      NatADecimalCorto(s);
      RellenarDos(NatADecimal(m)) + ":" + RellenarDos(NatADecimal(s))
  }

  /** Reads `m:ss` back into seconds. */
  function LeerTiempo(t: string): Option<nat> {
    match LeerNaturalYSeparador(t, ":")
    case None => None
    case Some((m, resto)) => match LeerNatural(resto)
      case None => None
      case Some((s, resto')) => if resto' == [] && s < 60 then Some(m * 60 + s) else None
  }

  /** Formatting loses nothing: every non-negative time reads back as itself. */
  lemma LeerFormatearTiempo(segundos: nat)
    ensures LeerTiempo(FormatearTiempo(segundos)) == Some(segundos)
  {
    var m, s := segundos / 60, segundos % 60;
    var ps := RellenarDos(NatADecimal(s));
    var t := FormatearTiempo(segundos);
    assert t == RellenarDos(NatADecimal(m)) + ":" + ps;
    LeerRellenadoYSeparadorDe(m, ":", ps);
    assert LeerNaturalYSeparador(t, ":") == Some((m, ps));
    LeerNatADecimal(s, "");
    assert ps + "" == ps;
    assert LeerNatural(ps) == Some((s, ""));
    assert m * 60 + s == segundos;
  }

  /** Zero and negative times both show as `00:00`. */
  lemma FormatearTiempoCero()
    ensures FormatearTiempo(0) == "00:00" && FormatearTiempo(-3) == "00:00"
  {
    assert NatADecimal(0) == "0";
    assert RellenarDos("0") == "00";
  }

  /** 75 seconds show as `01:15`. */
  lemma FormatearTiempoMinutoQuince()
    ensures FormatearTiempo(75) == "01:15"
  {
    assert 75 / 60 == 1 && 75 % 60 == 15;
    assert NatADecimal(1) == "1";
    assert NatADecimal(15) == NatADecimal(1) + [DigitoDecimal(5)];
    assert NatADecimal(15) == "15";
    assert RellenarDos("1") == "01";
    assert RellenarDos("15") == "15";
  }

  // ---------------------------------------------------------------------
  // Creation
  // ---------------------------------------------------------------------

  const OpcionesIniciales: Opciones := Opciones(false, false, true, false, false)
  const ReproduccionInicial: Reproduccion := Reproduccion(false, 0, 0)

  /** A pad as freshly created: empty, idle, and coloured from the palette. */
  predicate EsPadVacio(p: Pad, indiceColor: nat) {
    && p.nombreArchivo == NombrePadVacio
    && p.archivo.None?
    && !p.necesitaRecarga
    && p.reproduccion == ReproduccionInicial
    && p.opciones == OpcionesIniciales
    && p.colorBase == ColorDePaleta(indiceColor)
    && p.colorBorde == CalcularBorde(p.colorBase)
  }

  function CrearPadBase(idPad: Id, indiceColor: nat): (p: Pad)
    ensures p.idPad == idPad && EsPadVacio(p, indiceColor)
    ensures p.opciones.reinicioActivo && !p.opciones.duckingActivo && !p.opciones.bucleActivo
    ensures !p.opciones.fadeInActivo && !p.opciones.fadeOutActivo
  {
    var colorBase := ColorDePaleta(indiceColor);
    Pad(idPad, NombrePadVacio, colorBase, CalcularBorde(colorBase),
        OpcionesIniciales, ReproduccionInicial, None, false)
  }

  function NombrePestanaInicial(indice: nat): string {
    "Pestaña " + NatADecimal(indice + 1)
  }

  /** Tabs of the initial state at different positions get different names. */
  lemma NombresInicialesDistintos(i: nat, j: nat)
    requires i != j
    ensures NombrePestanaInicial(i) != NombrePestanaInicial(j)
  {
    if NombrePestanaInicial(i) == NombrePestanaInicial(j) {
      var prefijo := "Pestaña ";
      assert NatADecimal(i + 1) == NombrePestanaInicial(i)[|prefijo|..];
      assert NatADecimal(j + 1) == NombrePestanaInicial(j)[|prefijo|..];
      NatADecimalInyectiva(i + 1, j + 1);
    }
  }

  /** `n` tabs of one pad each; the colour cursor of the source's loop is the
      tab's position, so tab `i` gets palette colour `i` and the cursor ends at `n`. */
  function CrearEstadoInicial(n: nat, columnas: int, idsPestana: seq<Id>, idsPad: seq<Id>): (e: EstadoProyecto)
    requires n >= 1 && |idsPestana| == n && |idsPad| == n
    ensures |e.pestanas| == n && e.columnas == columnas && e.indiceColor == n
    ensures e.pestanaActivaId == idsPestana[0] && BienFormado(e)
    ensures forall i :: 0 <= i < n ==> e.pestanas[i].idPestana == idsPestana[i]
    ensures forall i :: 0 <= i < n ==> e.pestanas[i].pads == [CrearPadBase(idsPad[i], i)]
  {
    var pestanas := seq(n, i requires 0 <= i < n => PestanaInicial(idsPestana[i], idsPad[i], i));
    EstadoProyecto(pestanas, pestanas[0].idPestana, columnas, n)
  }

  /** Tab `i` of the initial state: named after its position, one empty pad. */
  function PestanaInicial(idPestana: Id, idPad: Id, i: nat): (p: Pestana)
    ensures p.idPestana == idPestana && p.nombre == NombrePestanaInicial(i)
    ensures p.pads == [CrearPadBase(idPad, i)]
  {
    Pestana(idPestana, NombrePestanaInicial(i), [CrearPadBase(idPad, i)])
  }

  /** Tab `i` of the initial state is named `Pestaña i+1`. (Kept apart from
      the function: a contract there would unfold the decimal digits wherever
      the initial state is mentioned.) */
  lemma NombresIniciales(n: nat, columnas: int, idsPestana: seq<Id>, idsPad: seq<Id>)
    requires n >= 1 && |idsPestana| == n && |idsPad| == n
    ensures var e := CrearEstadoInicial(n, columnas, idsPestana, idsPad);
      forall i :: 0 <= i < n ==> e.pestanas[i].nombre == NombrePestanaInicial(i)
  {
  }

  /** With distinct fresh ids the initial state is valid. */
  lemma {:induction false} CrearEstadoInicialValido(n: nat, columnas: int, idsPestana: seq<Id>, idsPad: seq<Id>)
    requires n >= 1 && |idsPestana| == n && |idsPad| == n
    requires SinRepetidos(idsPestana) && SinRepetidos(idsPad)
    ensures Valido(CrearEstadoInicial(n, columnas, idsPestana, idsPad))
  {
    var e := CrearEstadoInicial(n, columnas, idsPestana, idsPad);
    assert IdsPestanas(e.pestanas) == idsPestana;
    IdsPadsIniciales(e.pestanas, idsPad);
  }

  lemma {:induction false} IdsPadsIniciales(ps: seq<Pestana>, ids: seq<Id>)
    requires |ps| == |ids| && forall i :: 0 <= i < |ps| ==> |ps[i].pads| == 1 && ps[i].pads[0].idPad == ids[i]
    ensures IdsPads(ps) == ids
  {
    if ps != [] {
      IdsPadsIniciales(ps[1..], ids[1..]);
      assert IdsPads(ps) == IdsDeLista(ps[0].pads) + IdsPads(ps[1..]);
      assert IdsDeLista(ps[0].pads) == [ids[0]];
    }
  }

  // ---------------------------------------------------------------------
  // Lookup
  // ---------------------------------------------------------------------

  /** Index of the first tab with the id, `|ps|` when there is none
      (`pestañas.find`). */
  function PrimeraPestana(ps: seq<Pestana>, id: Id): (k: nat)
    ensures k <= |ps|
    ensures forall j :: 0 <= j < k ==> ps[j].idPestana != id
    ensures k < |ps| ==> ps[k].idPestana == id
    ensures k == |ps| <==> !ExistePestana(ps, id)
  {
    if ps == [] then 0
    else if ps[0].idPestana == id then 0
    else
      var k := 1 + PrimeraPestana(ps[1..], id);
      assert forall j :: 1 <= j < k ==> ps[j] == ps[1..][j - 1];
      k
  }

  lemma PrimeraPestanaUnica(ps: seq<Pestana>, i: nat)
    requires i < |ps| && SinRepetidos(IdsPestanas(ps))
    ensures PrimeraPestana(ps, ps[i].idPestana) == i
  {
    var k := PrimeraPestana(ps, ps[i].idPestana);
    if k != i {
      IdsIgualesRepiten(IdsPestanas(ps), k, i);
    }
  }

  /** Two equal entries at different positions contradict uniqueness. */
  lemma IdsIgualesRepiten(s: seq<Id>, i: nat, j: nat)
    requires i < |s| && j < |s| && i != j && s[i] == s[j]
    ensures !SinRepetidos(s)
  {
    var a, b := if i < j then i else j, if i < j then j else i;
    assert s == s[..a] + [s[a]] + s[a + 1..b] + [s[b]] + s[b + 1..];
    assert multiset(s)[s[a]] >= 2;
  }

  // ---------------------------------------------------------------------
  // Operations
  // ---------------------------------------------------------------------

  /** Appends a new pad to the tab with the id (the pad list of the first such
      tab is the base) and advances the colour cursor; an unknown tab leaves
      the state as it is. */
  function AgregarPad(e: EstadoProyecto, idPestana: Id, idNuevo: Id): (r: EstadoProyecto)
    requires e.indiceColor >= 0
    ensures !ExistePestana(e.pestanas, idPestana) ==> r == e
    ensures ExistePestana(e.pestanas, idPestana) ==> r.indiceColor == e.indiceColor + 1
    ensures |r.pestanas| == |e.pestanas| && IdsPestanas(r.pestanas) == IdsPestanas(e.pestanas)
    ensures r.pestanaActivaId == e.pestanaActivaId && r.columnas == e.columnas
  {
    var k := PrimeraPestana(e.pestanas, idPestana);
    if k == |e.pestanas| then e
    else
      var pad := CrearPadBase(idNuevo, e.indiceColor);
      var pads := e.pestanas[k].pads + [pad];
      var pestanas := seq(|e.pestanas|, i requires 0 <= i < |e.pestanas| =>
        if e.pestanas[i].idPestana == idPestana then e.pestanas[i].(pads := pads) else e.pestanas[i]);
      e.(pestanas := pestanas, indiceColor := e.indiceColor + 1)
  }

  /** In a valid state, adding a pad to tab `k` appends exactly one empty pad
      with the next palette colour at the end of that tab and changes no
      other tab. */
  lemma AgregarPadEnPestana(e: EstadoProyecto, k: nat, idNuevo: Id)
    requires SinRepetidos(IdsPestanas(e.pestanas)) && e.indiceColor >= 0 && k < |e.pestanas|
    ensures var r := AgregarPad(e, e.pestanas[k].idPestana, idNuevo);
      && r.pestanas[k] == e.pestanas[k].(pads := e.pestanas[k].pads + [CrearPadBase(idNuevo, e.indiceColor)])
      && (forall i :: 0 <= i < |e.pestanas| && i != k ==> r.pestanas[i] == e.pestanas[i])
      && r.indiceColor == e.indiceColor + 1
  {
    PrimeraPestanaUnica(e.pestanas, k);
    forall i | 0 <= i < |e.pestanas| && i != k
      ensures e.pestanas[i].idPestana != e.pestanas[k].idPestana
    {
      if e.pestanas[i].idPestana == e.pestanas[k].idPestana {
        IdsIgualesRepiten(IdsPestanas(e.pestanas), i, k);
      }
    }
  }

  /** Replacing tab `k`'s pad list by one whose ids are the old ids plus
      `extra` adds exactly `extra` to the multiset of pad ids. */
  lemma {:induction false} MultisetTrasCambiarPestana(ps: seq<Pestana>, qs: seq<Pestana>, k: nat, extra: seq<Id>)
    requires |ps| == |qs| && k < |ps|
    requires forall i :: 0 <= i < |ps| && i != k ==> qs[i].pads == ps[i].pads
    requires IdsDeLista(qs[k].pads) == IdsDeLista(ps[k].pads) + extra
    ensures multiset(IdsPads(qs)) == multiset(IdsPads(ps)) + multiset(extra)
  {
    MultisetIdsPads(ps);
    MultisetIdsPads(qs);
    if k == 0 {
      assert ps[1..] == ps[1..] && TodosLosPads(qs[1..]) == TodosLosPads(ps[1..]) by {
        TodosLosPadsIguales(ps[1..], qs[1..]);
      }
    } else {
      MultisetTrasCambiarPestana(ps[1..], qs[1..], k - 1, extra);
    }
  }

  lemma {:induction false} TodosLosPadsIguales(ps: seq<Pestana>, qs: seq<Pestana>)
    requires |ps| == |qs| && forall i :: 0 <= i < |ps| ==> qs[i].pads == ps[i].pads
    ensures TodosLosPads(qs) == TodosLosPads(ps)
  {
    if ps != [] {
      TodosLosPadsIguales(ps[1..], qs[1..]);
    }
  }

  /** Adding a pad with a fresh id keeps the state valid. */
  lemma AgregarPadPreservaValido(e: EstadoProyecto, idPestana: Id, idNuevo: Id)
    requires Valido(e) && idNuevo !in IdsPads(e.pestanas)
    ensures Valido(AgregarPad(e, idPestana, idNuevo))
  {
    var r := AgregarPad(e, idPestana, idNuevo);
    var k := PrimeraPestana(e.pestanas, idPestana);
    if k < |e.pestanas| {
      AgregarPadMultiset(e, k, idNuevo);
      SinRepetidosMasUno(IdsPads(e.pestanas), IdsPads(r.pestanas), idNuevo);
      ExistePestanaMismosIds(e.pestanas, r.pestanas, e.pestanaActivaId);
    }
  }

  /** Adding a pad to tab `k` adds its id, and nothing else, to the pad ids. */
  lemma AgregarPadMultiset(e: EstadoProyecto, k: nat, idNuevo: Id)
    requires SinRepetidos(IdsPestanas(e.pestanas)) && e.indiceColor >= 0 && k < |e.pestanas|
    ensures multiset(IdsPads(AgregarPad(e, e.pestanas[k].idPestana, idNuevo).pestanas))
      == multiset(IdsPads(e.pestanas)) + multiset{idNuevo}
  {
    var r := AgregarPad(e, e.pestanas[k].idPestana, idNuevo);
    AgregarPadEnPestana(e, k, idNuevo);
    IdsDeListaAnadir(e.pestanas[k].pads, CrearPadBase(idNuevo, e.indiceColor));
    MultisetTrasCambiarPestana(e.pestanas, r.pestanas, k, [idNuevo]);
  }

  lemma IdsDeListaAnadir(pads: seq<Pad>, p: Pad)
    ensures IdsDeLista(pads + [p]) == IdsDeLista(pads) + [p.idPad]
  {
  }

  /** One new id that was absent keeps a list free of repetitions. */
  lemma SinRepetidosMasUno(a: seq<Id>, b: seq<Id>, x: Id)
    requires SinRepetidos(a) && x !in a && multiset(b) == multiset(a) + multiset{x}
    ensures SinRepetidos(b)
  {
    forall y ensures multiset(b)[y] <= 1 {
      if y == x {
        assert multiset(a)[x] == 0;
      }
    }
  }

  /** Tab lists with the same ids have the same tabs to find. */
  lemma ExistePestanaMismosIds(ps: seq<Pestana>, qs: seq<Pestana>, id: Id)
    requires IdsPestanas(ps) == IdsPestanas(qs)
    ensures ExistePestana(ps, id) ==> ExistePestana(qs, id)
  {
    if ExistePestana(ps, id) {
      var i :| 0 <= i < |ps| && ps[i].idPestana == id;
      assert IdsPestanas(qs)[i] == IdsPestanas(ps)[i];
    }
  }

  /** Adds `ids` pads one after another to the same tab. */
  function AgregarPads(e: EstadoProyecto, idPestana: Id, ids: seq<Id>): (r: EstadoProyecto)
    requires e.indiceColor >= 0
    ensures r.indiceColor >= e.indiceColor
    ensures |r.pestanas| == |e.pestanas| && IdsPestanas(r.pestanas) == IdsPestanas(e.pestanas)
    decreases |ids|
  {
    if ids == [] then e else AgregarPads(AgregarPad(e, idPestana, ids[0]), idPestana, ids[1..])
  }

  /** Without its head, a list without repetitions still has none. */
  lemma SinRepetidosCola(ids: seq<Id>)
    requires ids != [] && SinRepetidos(ids)
    ensures SinRepetidos(ids[1..]) && ids[0] !in ids[1..]
  {
    assert ids == [ids[0]] + ids[1..];
    assert multiset(ids) == multiset([ids[0]]) + multiset(ids[1..]);
    forall x ensures multiset(ids[1..])[x] <= 1 {
      assert multiset(ids[1..])[x] <= multiset(ids)[x];
    }
    assert multiset(ids)[ids[0]] == 1 + multiset(ids[1..])[ids[0]];
  }

  /** Consecutive additions of fresh, distinct ids keep the state valid. */
  lemma {:induction false} AgregarPadsValido(e: EstadoProyecto, k: nat, ids: seq<Id>)
    requires Valido(e) && k < |e.pestanas|
    requires SinRepetidos(ids) && forall x :: x in ids ==> x !in IdsPads(e.pestanas)
    ensures Valido(AgregarPads(e, e.pestanas[k].idPestana, ids))
    decreases |ids|
  {
    if ids != [] {
      var id := e.pestanas[k].idPestana;
      var e1 := AgregarPad(e, id, ids[0]);
      AgregarPadPreservaValido(e, id, ids[0]);
      AgregarPadMultiset(e, k, ids[0]);
      SinRepetidosCola(ids);
      forall x | x in ids[1..] ensures x !in IdsPads(e1.pestanas) {
        assert x in ids && x != ids[0];
        assert multiset(IdsPads(e1.pestanas))[x] == multiset(IdsPads(e.pestanas))[x];
      }
      assert IdsPestanas(e1.pestanas)[k] == id;
      AgregarPadsValido(e1, k, ids[1..]);
    }
  }

  /** `f(ids[j], desde + j)` for every position `j`: what a run of calls
      makes when each call takes the next id and the next cursor value. */
  function Generar<T>(f: (Id, nat) -> T, ids: seq<Id>, desde: nat): (r: seq<T>)
    ensures |r| == |ids|
  {
    seq(|ids|, j requires 0 <= j < |ids| => f(ids[j], desde + j))
  }

  /** The run starts with the first call; the rest is the run from the next
      id and the next cursor value. */
  lemma GenerarCabeza<T>(f: (Id, nat) -> T, ids: seq<Id>, desde: nat)
    requires ids != []
    ensures Generar(f, ids, desde) == [f(ids[0], desde)] + Generar(f, ids[1..], desde + 1)
  {
    var a, b := Generar(f, ids, desde), Generar(f, ids[1..], desde + 1);
    forall j | 1 <= j < |a|
      ensures a[j] == b[j - 1]
    {
      assert ids[j] == ids[1..][j - 1] && desde + j == desde + 1 + (j - 1);
    }
  }

  /** The pads `n` consecutive additions create: ids in order, colours
      following the cursor from `indiceColor`. */
  function PadsNuevos(ids: seq<Id>, indiceColor: nat): (r: seq<Pad>)
    ensures |r| == |ids|
  {
    Generar(CrearPadBase, ids, indiceColor)
  }

  /** N consecutive additions to tab `k` leave it holding its previous pads
      followed by N empty pads with consecutive palette colours and the given
      ids (pre-existing + N), and every other tab as it was. */
  lemma AgregarPadsCuenta(e: EstadoProyecto, k: nat, ids: seq<Id>)
    requires SinRepetidos(IdsPestanas(e.pestanas)) && e.indiceColor >= 0 && k < |e.pestanas|
    ensures var r := AgregarPads(e, e.pestanas[k].idPestana, ids);
      && r.pestanas[k].pads == e.pestanas[k].pads + PadsNuevos(ids, e.indiceColor)
      && (forall i :: 0 <= i < |e.pestanas| && i != k ==> r.pestanas[i] == e.pestanas[i])
      && r.indiceColor == e.indiceColor + |ids|
  {
    AgregarPadsEnPestana(e, k, ids);
    AgregarPadsOtras(e, k, ids);
  }

  /** The tab the pads go to: its pads followed by the new ones. */
  lemma {:induction false} AgregarPadsEnPestana(e: EstadoProyecto, k: nat, ids: seq<Id>)
    requires SinRepetidos(IdsPestanas(e.pestanas)) && e.indiceColor >= 0 && k < |e.pestanas|
    ensures var r := AgregarPads(e, e.pestanas[k].idPestana, ids);
      r.pestanas[k].pads == e.pestanas[k].pads + PadsNuevos(ids, e.indiceColor)
    decreases |ids|
  {
    if ids != [] {
      var e1 := AgregarPad(e, e.pestanas[k].idPestana, ids[0]);
      AgregarPadsPaso(e, k, ids);
      AgregarPadsEnPestana(e1, k, ids[1..]);
      PadsNuevosTras(e.pestanas[k].pads, ids, e.indiceColor);
    } else {
      assert e.pestanas[k].pads + PadsNuevos(ids, e.indiceColor) == e.pestanas[k].pads;
    }
  }

  /** One step of `AgregarPads`: the first addition, then the rest from the
      state it leaves, in which tab `k` has the new pad at its end. */
  lemma AgregarPadsPaso(e: EstadoProyecto, k: nat, ids: seq<Id>)
    requires SinRepetidos(IdsPestanas(e.pestanas)) && e.indiceColor >= 0 && k < |e.pestanas| && ids != []
    ensures var id := e.pestanas[k].idPestana;
      var e1 := AgregarPad(e, id, ids[0]);
      && AgregarPads(e, id, ids) == AgregarPads(e1, id, ids[1..])
      && SinRepetidos(IdsPestanas(e1.pestanas)) && e1.indiceColor == e.indiceColor + 1
      && k < |e1.pestanas| && e1.pestanas[k].idPestana == id
      && e1.pestanas[k].pads == e.pestanas[k].pads + [CrearPadBase(ids[0], e.indiceColor)]
  {
    var e1 := AgregarPad(e, e.pestanas[k].idPestana, ids[0]);
    AgregarPadEnPestana(e, k, ids[0]);
    assert IdsPestanas(e1.pestanas)[k] == e.pestanas[k].idPestana;
  }

  /** The first new pad followed by the rest is the whole run. */
  lemma PadsNuevosTras(antes: seq<Pad>, ids: seq<Id>, indiceColor: nat)
    requires ids != []
    ensures antes + [CrearPadBase(ids[0], indiceColor)] + PadsNuevos(ids[1..], indiceColor + 1)
      == antes + PadsNuevos(ids, indiceColor)
  {
    GenerarCabeza(CrearPadBase, ids, indiceColor);
    Asociar(antes, [CrearPadBase(ids[0], indiceColor)], PadsNuevos(ids[1..], indiceColor + 1));
  }

  /** The other tabs are left as they were; the cursor moves past the new pads. */
  lemma {:induction false} AgregarPadsOtras(e: EstadoProyecto, k: nat, ids: seq<Id>)
    requires SinRepetidos(IdsPestanas(e.pestanas)) && e.indiceColor >= 0 && k < |e.pestanas|
    ensures var r := AgregarPads(e, e.pestanas[k].idPestana, ids);
      && (forall i :: 0 <= i < |e.pestanas| && i != k ==> r.pestanas[i] == e.pestanas[i])
      && r.indiceColor == e.indiceColor + |ids|
    decreases |ids|
  {
    if ids != [] {
      var id := e.pestanas[k].idPestana;
      var e1 := AgregarPad(e, id, ids[0]);
      AgregarPadEnPestana(e, k, ids[0]);
      assert IdsPestanas(e1.pestanas)[k] == id;
      AgregarPadsOtras(e1, k, ids[1..]);
    }
  }

  /** The damaged state restored to a well-formed one: a missing or empty tab
      list gives the default project; a pad list that is not a list becomes
      empty; an active id that names no tab falls back to the first tab; a
      missing column count becomes 5 and a missing colour cursor 0. */
  function NormalizarEstado(crudo: Option<EstadoCrudo>, idsPestana: seq<Id>, idsPad: seq<Id>): (r: EstadoProyecto)
    requires |idsPestana| == PestanasIniciales && |idsPad| == PestanasIniciales
    ensures BienFormado(r)
    ensures crudo.None? || crudo.value.pestanas.None? || crudo.value.pestanas.value == [] ==>
      r == CrearEstadoInicial(PestanasIniciales, ColumnasIniciales, idsPestana, idsPad)
  {
    if crudo.None? || crudo.value.pestanas.None? || crudo.value.pestanas.value == [] then
      CrearEstadoInicial(PestanasIniciales, ColumnasIniciales, idsPestana, idsPad)
    else
      var c := crudo.value;
      var crudas := c.pestanas.value;
      var pestanas := seq(|crudas|, i requires 0 <= i < |crudas| =>
        Pestana(crudas[i].idPestana, crudas[i].nombre, crudas[i].pads.GetOr([])));
      var activaValida := c.pestanaActivaId.Some? && ExistePestana(pestanas, c.pestanaActivaId.value);
      EstadoProyecto(
        pestanas,
        if activaValida then c.pestanaActivaId.value else pestanas[0].idPestana,
        c.columnas.GetOr(ColumnasIniciales),
        c.indiceColor.GetOr(0))
  }

  /** What normalising keeps of a damaged state that has tabs: every tab's id,
      name and order, the pads wherever they were a list, and the active id
      whenever it names a tab. */
  lemma NormalizarConserva(c: EstadoCrudo, idsPestana: seq<Id>, idsPad: seq<Id>)
    requires |idsPestana| == PestanasIniciales && |idsPad| == PestanasIniciales
    requires c.pestanas.Some? && c.pestanas.value != []
    ensures var r := NormalizarEstado(Some(c), idsPestana, idsPad);
      var crudas := c.pestanas.value;
      && |r.pestanas| == |crudas|
      && (forall i :: 0 <= i < |crudas| ==>
            && r.pestanas[i].idPestana == crudas[i].idPestana
            && r.pestanas[i].nombre == crudas[i].nombre
            && r.pestanas[i].pads == (if crudas[i].pads.Some? then crudas[i].pads.value else []))
      && ((c.pestanaActivaId.Some? && exists i :: 0 <= i < |crudas| && crudas[i].idPestana == c.pestanaActivaId.value)
          ==> r.pestanaActivaId == c.pestanaActivaId.value)
      && ((c.pestanaActivaId.None? || forall i :: 0 <= i < |crudas| ==> crudas[i].idPestana != c.pestanaActivaId.value)
          ==> r.pestanaActivaId == crudas[0].idPestana)
      && r.columnas == (if c.columnas.Some? then c.columnas.value else 5)
      && r.indiceColor == (if c.indiceColor.Some? then c.indiceColor.value else 0)
  {
    var r := NormalizarEstado(Some(c), idsPestana, idsPad);
    var crudas := c.pestanas.value;
    if c.pestanaActivaId.Some? && (exists i :: 0 <= i < |crudas| && crudas[i].idPestana == c.pestanaActivaId.value) {
      var i :| 0 <= i < |crudas| && crudas[i].idPestana == c.pestanaActivaId.value;
      assert r.pestanas[i].idPestana == c.pestanaActivaId.value;
    }
  }

  /** The state as storage would hold it. */
  function ACrudo(e: EstadoProyecto): EstadoCrudo {
    EstadoCrudo(
      Some(seq(|e.pestanas|, i requires 0 <= i < |e.pestanas| =>
        PestanaCruda(e.pestanas[i].idPestana, e.pestanas[i].nombre, Some(e.pestanas[i].pads)))),
      Some(e.pestanaActivaId), Some(e.columnas), Some(e.indiceColor))
  }

  /** Normalising a well-formed state changes nothing, so normalising twice
      is the same as normalising once. */
  lemma NormalizarBienFormado(e: EstadoProyecto, idsPestana: seq<Id>, idsPad: seq<Id>)
    requires |idsPestana| == PestanasIniciales && |idsPad| == PestanasIniciales
    requires BienFormado(e)
    ensures NormalizarEstado(Some(ACrudo(e)), idsPestana, idsPad) == e
  {
    var r := NormalizarEstado(Some(ACrudo(e)), idsPestana, idsPad);
    assert r.pestanas == e.pestanas;
  }

  /** Applies `f` to every pad with id `idPad` inside every tab with id
      `idPestana`; all other pads and tabs stay as they are. */
  function MapearPad(e: EstadoProyecto, idPestana: Id, idPad: Id, f: Pad -> Pad): (r: EstadoProyecto)
    ensures |r.pestanas| == |e.pestanas|
    ensures r.pestanaActivaId == e.pestanaActivaId && r.columnas == e.columnas && r.indiceColor == e.indiceColor
  {
    e.(pestanas := seq(|e.pestanas|, i requires 0 <= i < |e.pestanas| =>
      var p := e.pestanas[i];
      if p.idPestana != idPestana then p
      else p.(pads := seq(|p.pads|, j requires 0 <= j < |p.pads| =>
        if p.pads[j].idPad == idPad then f(p.pads[j]) else p.pads[j]))))
  }

  /** The frame of a pad update: tab ids, names and pad counts stay; only the
      pads with the id inside the tab with the id can change, and they become
      `f` of what they were. When `f` keeps the pad's id, the pad ids are
      unchanged too and validity is preserved. */
  lemma MapearPadMarco(e: EstadoProyecto, idPestana: Id, idPad: Id, f: Pad -> Pad)
    ensures var r := MapearPad(e, idPestana, idPad, f);
      && IdsPestanas(r.pestanas) == IdsPestanas(e.pestanas)
      && (forall i :: 0 <= i < |e.pestanas| ==>
            && r.pestanas[i].nombre == e.pestanas[i].nombre
            && |r.pestanas[i].pads| == |e.pestanas[i].pads|
            && (forall j :: 0 <= j < |e.pestanas[i].pads| ==>
                  r.pestanas[i].pads[j] ==
                    if e.pestanas[i].idPestana == idPestana && e.pestanas[i].pads[j].idPad == idPad
                    then f(e.pestanas[i].pads[j]) else e.pestanas[i].pads[j]))
    ensures (forall p: Pad :: p.idPad == idPad ==> f(p).idPad == idPad) ==>
      var r := MapearPad(e, idPestana, idPad, f);
      && IdsPads(r.pestanas) == IdsPads(e.pestanas)
      && (Valido(e) ==> Valido(r))
  {
    var r := MapearPad(e, idPestana, idPad, f);
    if forall p: Pad :: p.idPad == idPad ==> f(p).idPad == idPad {
      forall i | 0 <= i < |e.pestanas|
        ensures IdsDeLista(r.pestanas[i].pads) == IdsDeLista(e.pestanas[i].pads)
      {
        assert forall j :: 0 <= j < |e.pestanas[i].pads| ==>
          r.pestanas[i].pads[j].idPad == e.pestanas[i].pads[j].idPad;
      }
      IdsPadsPorPestana(e.pestanas, r.pestanas);
      if Valido(e) {
        var i :| 0 <= i < |e.pestanas| && e.pestanas[i].idPestana == e.pestanaActivaId;
        assert r.pestanas[i].idPestana == r.pestanaActivaId;
      }
    }
  }

  lemma {:induction false} IdsPadsPorPestana(ps: seq<Pestana>, qs: seq<Pestana>)
    requires |ps| == |qs| && forall i :: 0 <= i < |ps| ==> IdsDeLista(qs[i].pads) == IdsDeLista(ps[i].pads)
    ensures IdsPads(qs) == IdsPads(ps)
  {
    if ps != [] {
      IdsPadsPorPestana(ps[1..], qs[1..]);
      assert IdsPads(ps) == IdsDeLista(ps[0].pads) + IdsPads(ps[1..]);
      assert IdsPads(qs) == IdsDeLista(qs[0].pads) + IdsPads(qs[1..]);
    }
  }

  /** `{ ...pad, ...cambios }`. */
  function Fusionar(p: Pad, c: CambiosPad): (r: Pad)
    ensures c.idPad.None? ==> r.idPad == p.idPad
    ensures c == CambiosPad(None, None, None, None, None, None, None, None) ==> r == p
    ensures r.idPad == c.idPad.GetOr(p.idPad) && r.nombreArchivo == c.nombreArchivo.GetOr(p.nombreArchivo)
    ensures r.colorBase == c.colorBase.GetOr(p.colorBase) && r.colorBorde == c.colorBorde.GetOr(p.colorBorde)
    ensures r.opciones == c.opciones.GetOr(p.opciones) && r.reproduccion == c.reproduccion.GetOr(p.reproduccion)
    ensures r.archivo == c.archivo.GetOr(p.archivo) && r.necesitaRecarga == c.necesitaRecarga.GetOr(p.necesitaRecarga)
  {
    Pad(
      c.idPad.GetOr(p.idPad),
      c.nombreArchivo.GetOr(p.nombreArchivo),
      c.colorBase.GetOr(p.colorBase),
      c.colorBorde.GetOr(p.colorBorde),
      c.opciones.GetOr(p.opciones),
      c.reproduccion.GetOr(p.reproduccion),
      c.archivo.GetOr(p.archivo),
      c.necesitaRecarga.GetOr(p.necesitaRecarga))
  }

  /** `{ ...pad.reproduccion, ...cambios }`, the rest of the pad unchanged. */
  function FusionarReproduccion(p: Pad, c: CambiosReproduccion): (r: Pad)
    ensures r.idPad == p.idPad && r.nombreArchivo == p.nombreArchivo && r.opciones == p.opciones
    ensures r.archivo == p.archivo && r.necesitaRecarga == p.necesitaRecarga
    ensures r.colorBase == p.colorBase && r.colorBorde == p.colorBorde
    ensures c.reproduciendo.Some? ==> r.reproduccion.reproduciendo == c.reproduciendo.value
    ensures c.reproduciendo.None? ==> r.reproduccion.reproduciendo == p.reproduccion.reproduciendo
    ensures c.duracionTotal.Some? ==> r.reproduccion.duracionTotal == c.duracionTotal.value
    ensures c.duracionTotal.None? ==> r.reproduccion.duracionTotal == p.reproduccion.duracionTotal
    ensures c.tiempoRestante.Some? ==> r.reproduccion.tiempoRestante == c.tiempoRestante.value
    ensures c.tiempoRestante.None? ==> r.reproduccion.tiempoRestante == p.reproduccion.tiempoRestante
  {
    p.(reproduccion := Reproduccion(
      c.reproduciendo.GetOr(p.reproduccion.reproduciendo),
      c.duracionTotal.GetOr(p.reproduccion.duracionTotal),
      c.tiempoRestante.GetOr(p.reproduccion.tiempoRestante)))
  }

  function ActualizarPad(e: EstadoProyecto, idPestana: Id, idPad: Id, c: CambiosPad): EstadoProyecto {
    MapearPad(e, idPestana, idPad, p => Fusionar(p, c))
  }

  function ActualizarReproduccionPad(e: EstadoProyecto, idPestana: Id, idPad: Id, c: CambiosReproduccion): EstadoProyecto {
    MapearPad(e, idPestana, idPad, p => FusionarReproduccion(p, c))
  }

  /** `actualizarPad` merges the changes into the pads with the id in the tab
      with the id and into nothing else; a change that keeps the pad id (or
      gives none) keeps every pad id and validity. */
  lemma ActualizarPadMarco(e: EstadoProyecto, idPestana: Id, idPad: Id, c: CambiosPad)
    ensures var r := ActualizarPad(e, idPestana, idPad, c);
      && |r.pestanas| == |e.pestanas| && IdsPestanas(r.pestanas) == IdsPestanas(e.pestanas)
      && r.pestanaActivaId == e.pestanaActivaId && r.columnas == e.columnas && r.indiceColor == e.indiceColor
      && (forall i :: 0 <= i < |e.pestanas| ==>
            && |r.pestanas[i].pads| == |e.pestanas[i].pads|
            && (forall j :: 0 <= j < |e.pestanas[i].pads| ==>
                  r.pestanas[i].pads[j] ==
                    if e.pestanas[i].idPestana == idPestana && e.pestanas[i].pads[j].idPad == idPad
                    then Fusionar(e.pestanas[i].pads[j], c) else e.pestanas[i].pads[j]))
    ensures c.idPad.None? || c.idPad.value == idPad ==>
      var r := ActualizarPad(e, idPestana, idPad, c);
      IdsPads(r.pestanas) == IdsPads(e.pestanas) && (Valido(e) ==> Valido(r))
  {
    var f := (p: Pad) => Fusionar(p, c);
    MapearPadMarco(e, idPestana, idPad, f);
    if c.idPad.None? || c.idPad.value == idPad {
      assert forall p: Pad :: p.idPad == idPad ==> f(p).idPad == idPad;
    }
  }

  /** `actualizarReproduccionPad` changes only the playback record of the
      targeted pads, field by field, and keeps validity. */
  lemma ActualizarReproduccionPadMarco(e: EstadoProyecto, idPestana: Id, idPad: Id, c: CambiosReproduccion)
    ensures var r := ActualizarReproduccionPad(e, idPestana, idPad, c);
      && |r.pestanas| == |e.pestanas| && IdsPestanas(r.pestanas) == IdsPestanas(e.pestanas)
      && IdsPads(r.pestanas) == IdsPads(e.pestanas)
      && r.pestanaActivaId == e.pestanaActivaId && r.columnas == e.columnas && r.indiceColor == e.indiceColor
      && (Valido(e) ==> Valido(r))
      && (forall i :: 0 <= i < |e.pestanas| ==>
            && |r.pestanas[i].pads| == |e.pestanas[i].pads|
            && (forall j :: 0 <= j < |e.pestanas[i].pads| ==>
                  r.pestanas[i].pads[j] ==
                    if e.pestanas[i].idPestana == idPestana && e.pestanas[i].pads[j].idPad == idPad
                    then FusionarReproduccion(e.pestanas[i].pads[j], c)
                    else e.pestanas[i].pads[j]))
  {
    MapearPadMarco(e, idPestana, idPad, p => FusionarReproduccion(p, c));
  }

  /** Makes the tab with the id active; an unknown id changes nothing. */
  function EstablecerPestanaActiva(e: EstadoProyecto, idPestana: Id): (r: EstadoProyecto)
    ensures ExistePestana(e.pestanas, idPestana) ==> r.pestanaActivaId == idPestana
    ensures !ExistePestana(e.pestanas, idPestana) ==> r == e
    ensures r.pestanas == e.pestanas && (Valido(e) ==> Valido(r))
  {
    if !ExistePestana(e.pestanas, idPestana) then e else e.(pestanaActivaId := idPestana)
  }

  /** The pads of `pads` without those whose id is `idPad`, in order. */
  function SinPad(pads: seq<Pad>, idPad: Id): (r: seq<Pad>)
    ensures forall p :: p in r <==> p in pads && p.idPad != idPad
    ensures |r| <= |pads|
  {
    if pads == [] then []
    else if pads[0].idPad == idPad then SinPad(pads[1..], idPad)
    else [pads[0]] + SinPad(pads[1..], idPad)
  }

  /** Every pad without the id is kept as often as it occurs; none with it is. */
  lemma {:induction false} SinPadMultiset(pads: seq<Pad>, idPad: Id)
    ensures forall p :: multiset(SinPad(pads, idPad))[p] == if p.idPad != idPad then multiset(pads)[p] else 0
  {
    if pads != [] {
      SinPadMultiset(pads[1..], idPad);
      assert pads == [pads[0]] + pads[1..];
    }
  }

  /** Filtering distributes over concatenation, so the kept pads stay in
      their original order. */
  lemma {:induction false} SinPadConcat(a: seq<Pad>, b: seq<Pad>, idPad: Id)
    ensures SinPad(a + b, idPad) == SinPad(a, idPad) + SinPad(b, idPad)
  {
    if a == [] {
      assert a + b == b;
    } else {
      assert (a + b)[0] == a[0] && (a + b)[1..] == a[1..] + b;
      SinPadConcat(a[1..], b, idPad);
    }
  }

  /** Filtering pads only removes ids: the remaining ids are a sub-multiset
      of the old ones and `idPad` is no longer among them. */
  lemma {:induction false} IdsSinPad(pads: seq<Pad>, idPad: Id)
    ensures multiset(IdsDeLista(SinPad(pads, idPad))) <= multiset(IdsDeLista(pads))
    ensures idPad !in IdsDeLista(SinPad(pads, idPad))
  {
    if pads != [] {
      IdsSinPad(pads[1..], idPad);
      var resto := SinPad(pads[1..], idPad);
      IdsDeListaConcat([pads[0]], pads[1..]);
      assert pads == [pads[0]] + pads[1..];
      if pads[0].idPad != idPad {
        IdsDeListaConcat([pads[0]], resto);
        assert SinPad(pads, idPad) == [pads[0]] + resto;
      } else {
        assert SinPad(pads, idPad) == resto;
      }
    }
  }

  lemma IdsDeListaConcat(a: seq<Pad>, b: seq<Pad>)
    ensures IdsDeLista(a + b) == IdsDeLista(a) + IdsDeLista(b)
  {
  }

  function EliminarPad(e: EstadoProyecto, idPestana: Id, idPad: Id): (r: EstadoProyecto)
    ensures |r.pestanas| == |e.pestanas| && IdsPestanas(r.pestanas) == IdsPestanas(e.pestanas)
    ensures r.pestanaActivaId == e.pestanaActivaId && r.columnas == e.columnas && r.indiceColor == e.indiceColor
    ensures forall i :: 0 <= i < |e.pestanas| && e.pestanas[i].idPestana != idPestana ==> r.pestanas[i] == e.pestanas[i]
    ensures forall i :: 0 <= i < |e.pestanas| && e.pestanas[i].idPestana == idPestana ==>
      r.pestanas[i] == e.pestanas[i].(pads := SinPad(e.pestanas[i].pads, idPad))
  {
    e.(pestanas := seq(|e.pestanas|, i requires 0 <= i < |e.pestanas| =>
      var p := e.pestanas[i];
      if p.idPestana != idPestana then p else p.(pads := SinPad(p.pads, idPad))))
  }

  lemma {:induction false} MultisetIdsPadsMenor(ps: seq<Pestana>, qs: seq<Pestana>)
    requires |ps| == |qs| && forall i :: 0 <= i < |ps| ==> multiset(IdsDeLista(qs[i].pads)) <= multiset(IdsDeLista(ps[i].pads))
    ensures multiset(IdsPads(qs)) <= multiset(IdsPads(ps))
  {
    if ps != [] {
      MultisetIdsPadsMenor(ps[1..], qs[1..]);
      MultisetIdsPads(ps);
      MultisetIdsPads(qs);
    }
  }

  lemma SubmultisetSinRepetidos(s: seq<Id>, t: seq<Id>)
    requires multiset(t) <= multiset(s) && SinRepetidos(s)
    ensures SinRepetidos(t)
  {
    forall x ensures multiset(t)[x] <= 1 { assert multiset(t)[x] <= multiset(s)[x]; }
  }

  /** Deleting a pad keeps the state valid, and the pad is gone from its tab. */
  lemma EliminarPadPreservaValido(e: EstadoProyecto, idPestana: Id, idPad: Id)
    requires Valido(e)
    ensures Valido(EliminarPad(e, idPestana, idPad))
    ensures multiset(IdsPads(EliminarPad(e, idPestana, idPad).pestanas)) <= multiset(IdsPads(e.pestanas))
  {
    var r := EliminarPad(e, idPestana, idPad);
    forall i | 0 <= i < |e.pestanas|
      ensures multiset(IdsDeLista(r.pestanas[i].pads)) <= multiset(IdsDeLista(e.pestanas[i].pads))
    {
      IdsSinPad(e.pestanas[i].pads, idPad);
    }
    MultisetIdsPadsMenor(e.pestanas, r.pestanas);
    SubmultisetSinRepetidos(IdsPads(e.pestanas), IdsPads(r.pestanas));
    var i :| 0 <= i < |e.pestanas| && e.pestanas[i].idPestana == e.pestanaActivaId;
    assert IdsPestanas(r.pestanas)[i] == IdsPestanas(e.pestanas)[i];
  }

  /** Appends a tab holding one new pad, makes it active and advances the
      colour cursor. The name defaults to "Nueva pestaña". */
  function AgregarPestana(e: EstadoProyecto, nombre: Option<string>, idPestana: Id, idPad: Id): (r: EstadoProyecto)
    requires e.indiceColor >= 0
    ensures |r.pestanas| == |e.pestanas| + 1 && r.pestanas[..|e.pestanas|] == e.pestanas
    ensures r.pestanas[|e.pestanas|].idPestana == idPestana && r.pestanaActivaId == idPestana
    ensures r.pestanas[|e.pestanas|].pads == [CrearPadBase(idPad, e.indiceColor)]
    ensures r.pestanas[|e.pestanas|].nombre == if nombre.Some? then nombre.value else NombrePestanaNueva
    ensures r.indiceColor == e.indiceColor + 1 && r.columnas == e.columnas
  {
    var nueva := Pestana(idPestana, nombre.GetOr(NombrePestanaNueva), [CrearPadBase(idPad, e.indiceColor)]);
    e.(pestanas := e.pestanas + [nueva], pestanaActivaId := idPestana, indiceColor := e.indiceColor + 1)
  }

  /** With a fresh tab id and a fresh pad id, adding a tab keeps the state valid. */
  lemma AgregarPestanaPreservaValido(e: EstadoProyecto, nombre: Option<string>, idPestana: Id, idPad: Id)
    requires Valido(e)
    requires !ExistePestana(e.pestanas, idPestana) && idPad !in IdsPads(e.pestanas)
    ensures Valido(AgregarPestana(e, nombre, idPestana, idPad))
  {
    var r := AgregarPestana(e, nombre, idPestana, idPad);
    var n := |e.pestanas|;
    assert r.pestanas == e.pestanas + [r.pestanas[n]];
    IdsTrasAnadirPestana(e.pestanas, r.pestanas[n]);
    assert IdsDeLista(r.pestanas[n].pads) == [idPad];
    assert idPestana !in IdsPestanas(e.pestanas);
    SinRepetidosAnadir(IdsPestanas(e.pestanas), idPestana);
    SinRepetidosAnadir(IdsPads(e.pestanas), idPad);
    assert ExistePestana(r.pestanas, idPestana) by {
      assert r.pestanas[n].idPestana == idPestana;
    }
  }

  /** A tab appended at the end adds its id and its pads' ids at the end. */
  lemma IdsTrasAnadirPestana(ps: seq<Pestana>, p: Pestana)
    ensures IdsPestanas(ps + [p]) == IdsPestanas(ps) + [p.idPestana]
    ensures IdsPads(ps + [p]) == IdsPads(ps) + IdsDeLista(p.pads)
  {
    TodosLosPadsConcat(ps, [p]);
    assert [p][1..] == [];
    assert TodosLosPads([p]) == p.pads;
  }

  /** An absent id appended to a list without repetitions keeps it so. */
  lemma SinRepetidosAnadir(a: seq<Id>, x: Id)
    requires SinRepetidos(a) && x !in a
    ensures SinRepetidos(a + [x])
  {
    assert multiset(a + [x]) == multiset(a) + multiset{x};
    SinRepetidosMasUno(a, a + [x], x);
  }

  lemma {:induction false} TodosLosPadsConcat(ps: seq<Pestana>, qs: seq<Pestana>)
    ensures TodosLosPads(ps + qs) == TodosLosPads(ps) + TodosLosPads(qs)
  {
    if ps == [] {
      assert ps + qs == qs;
    } else {
      assert (ps + qs)[0] == ps[0] && (ps + qs)[1..] == ps[1..] + qs;
      TodosLosPadsConcat(ps[1..], qs);
      assert TodosLosPads(ps + qs) == ps[0].pads + TodosLosPads(ps[1..] + qs);
    }
  }

  function RenombrarPestana(e: EstadoProyecto, idPestana: Id, nombre: string): (r: EstadoProyecto)
    ensures |r.pestanas| == |e.pestanas| && IdsPestanas(r.pestanas) == IdsPestanas(e.pestanas)
    ensures forall i :: 0 <= i < |e.pestanas| ==>
      r.pestanas[i].pads == e.pestanas[i].pads
      && r.pestanas[i].nombre == if e.pestanas[i].idPestana == idPestana then nombre else e.pestanas[i].nombre
    ensures r.pestanaActivaId == e.pestanaActivaId && r.columnas == e.columnas && r.indiceColor == e.indiceColor
  {
    e.(pestanas := seq(|e.pestanas|, i requires 0 <= i < |e.pestanas| =>
      if e.pestanas[i].idPestana == idPestana then e.pestanas[i].(nombre := nombre) else e.pestanas[i]))
  }

  lemma RenombrarPestanaPreservaValido(e: EstadoProyecto, idPestana: Id, nombre: string)
    requires Valido(e)
    ensures Valido(RenombrarPestana(e, idPestana, nombre))
  {
    var r := RenombrarPestana(e, idPestana, nombre);
    TodosLosPadsIguales(e.pestanas, r.pestanas);
    var i :| 0 <= i < |e.pestanas| && e.pestanas[i].idPestana == e.pestanaActivaId;
    assert IdsPestanas(r.pestanas)[i] == IdsPestanas(e.pestanas)[i];
  }

  /** The tabs of `ps` whose id is not `id`, in order. */
  function SinPestana(ps: seq<Pestana>, id: Id): (r: seq<Pestana>)
    ensures forall p :: p in r <==> p in ps && p.idPestana != id
    ensures |r| <= |ps|
  {
    if ps == [] then []
    else if ps[0].idPestana == id then SinPestana(ps[1..], id)
    else [ps[0]] + SinPestana(ps[1..], id)
  }

  /** Every tab without the id is kept as often as it occurs; none with it is. */
  lemma {:induction false} SinPestanaMultiset(ps: seq<Pestana>, id: Id)
    ensures forall p :: multiset(SinPestana(ps, id))[p] == if p.idPestana != id then multiset(ps)[p] else 0
  {
    if ps != [] {
      SinPestanaMultiset(ps[1..], id);
      assert ps == [ps[0]] + ps[1..];
    }
  }

  /** Filtering distributes over concatenation, so the kept tabs stay in
      their original order. */
  lemma {:induction false} SinPestanaConcat(ps: seq<Pestana>, qs: seq<Pestana>, id: Id)
    ensures SinPestana(ps + qs, id) == SinPestana(ps, id) + SinPestana(qs, id)
  {
    if ps == [] {
      assert ps + qs == qs;
    } else {
      assert (ps + qs)[0] == ps[0] && (ps + qs)[1..] == ps[1..] + qs;
      SinPestanaConcat(ps[1..], qs, id);
    }
  }

  /** The first tab kept is the first tab, in order, whose id is not `id`. */
  lemma {:induction false} SinPestanaPrimera(ps: seq<Pestana>, id: Id, k: nat)
    requires k < |ps| && ps[k].idPestana != id
    requires forall j :: 0 <= j < k ==> ps[j].idPestana == id
    ensures SinPestana(ps, id) != [] && SinPestana(ps, id)[0] == ps[k]
  {
    if k > 0 {
      assert forall j :: 0 <= j < k - 1 ==> ps[1..][j] == ps[j + 1];
      SinPestanaPrimera(ps[1..], id, k - 1);
    }
  }

  lemma SinPestanasPrimeras(ps: seq<Pestana>, id: Id)
    ensures (forall k :: 0 <= k < |ps| && ps[k].idPestana != id && (forall j :: 0 <= j < k ==> ps[j].idPestana == id)
               ==> SinPestana(ps, id) != [] && SinPestana(ps, id)[0] == ps[k])
  {
    forall k | 0 <= k < |ps| && ps[k].idPestana != id && (forall j :: 0 <= j < k ==> ps[j].idPestana == id)
      ensures SinPestana(ps, id) != [] && SinPestana(ps, id)[0] == ps[k]
    {
      SinPestanaPrimera(ps, id, k);
    }
  }

  /** Filtering tabs only removes tab ids. */
  lemma {:induction false} IdsPestanasSinPestana(ps: seq<Pestana>, id: Id)
    ensures multiset(IdsPestanas(SinPestana(ps, id))) <= multiset(IdsPestanas(ps))
  {
    if ps != [] {
      IdsPestanasSinPestana(ps[1..], id);
      IdsPestanasCabeza(ps);
      if ps[0].idPestana != id {
        var r := SinPestana(ps, id);
        assert r == [ps[0]] + SinPestana(ps[1..], id);
        assert r[1..] == SinPestana(ps[1..], id);
        IdsPestanasCabeza(r);
      }
    }
  }

  lemma IdsPestanasCabeza(ps: seq<Pestana>)
    requires ps != []
    ensures IdsPestanas(ps) == [ps[0].idPestana] + IdsPestanas(ps[1..])
  {
  }

  /** Filtering tabs only removes pad ids. */
  lemma {:induction false} IdsPadsSinPestana(ps: seq<Pestana>, id: Id)
    ensures multiset(IdsPads(SinPestana(ps, id))) <= multiset(IdsPads(ps))
  {
    if ps != [] {
      IdsPadsSinPestana(ps[1..], id);
      var resto := SinPestana(ps[1..], id);
      assert ps == [ps[0]] + ps[1..];
      IdsPadsConcat([ps[0]], ps[1..]);
      if ps[0].idPestana != id {
        IdsPadsConcat([ps[0]], resto);
      }
    }
  }

  lemma IdsPestanasConcat(ps: seq<Pestana>, qs: seq<Pestana>)
    ensures IdsPestanas(ps + qs) == IdsPestanas(ps) + IdsPestanas(qs)
  {
  }

  lemma IdsPadsConcat(ps: seq<Pestana>, qs: seq<Pestana>)
    ensures IdsPads(ps + qs) == IdsPads(ps) + IdsPads(qs)
  {
    TodosLosPadsConcat(ps, qs);
    IdsDeListaConcat(TodosLosPads(ps), TodosLosPads(qs));
  }

  /** Removes the tab with the id. The last remaining tab is never removed;
      when the removed tab was active the first remaining tab becomes active.
      The source reads the first remaining tab without checking that there is
      one, so a caller must not remove every tab while one of them is active. */
  function EliminarPestana(e: EstadoProyecto, idPestana: Id): (r: EstadoProyecto)
    requires |e.pestanas| == 1 || e.pestanaActivaId != idPestana
      || exists i :: 0 <= i < |e.pestanas| && e.pestanas[i].idPestana != idPestana
    ensures |e.pestanas| == 1 ==> r == e
    ensures |e.pestanas| != 1 ==> r.pestanas == SinPestana(e.pestanas, idPestana)
    ensures |e.pestanas| != 1 && e.pestanaActivaId == idPestana ==> r.pestanas != [] && r.pestanaActivaId == r.pestanas[0].idPestana
    ensures |e.pestanas| != 1 && e.pestanaActivaId == idPestana ==>
      forall k :: 0 <= k < |e.pestanas| && e.pestanas[k].idPestana != idPestana
        && (forall j :: 0 <= j < k ==> e.pestanas[j].idPestana == idPestana)
        ==> r.pestanaActivaId == e.pestanas[k].idPestana
    ensures |e.pestanas| != 1 && e.pestanaActivaId != idPestana ==> r.pestanaActivaId == e.pestanaActivaId
    ensures r.columnas == e.columnas && r.indiceColor == e.indiceColor
  {
    if |e.pestanas| == 1 then e
    else
      var restantes := SinPestana(e.pestanas, idPestana);
      var nuevaActiva :=
        if e.pestanaActivaId == idPestana then
          (var i :| 0 <= i < |e.pestanas| && e.pestanas[i].idPestana != idPestana;
           assert e.pestanas[i] in restantes;
           SinPestanasPrimeras(e.pestanas, idPestana);
           restantes[0].idPestana)
        else e.pestanaActivaId;
      e.(pestanas := restantes, pestanaActivaId := nuevaActiva)
  }

  /** Removing a tab from a valid state keeps it valid: never fewer than one
      tab, the active id still names a tab, ids stay unique. A valid state
      with two or more tabs always meets the removal's precondition. */
  lemma EliminarPestanaPreservaValido(e: EstadoProyecto, idPestana: Id)
    requires Valido(e)
    ensures |e.pestanas| == 1 || e.pestanaActivaId != idPestana
      || exists i :: 0 <= i < |e.pestanas| && e.pestanas[i].idPestana != idPestana
    ensures Valido(EliminarPestana(e, idPestana))
  {
    if |e.pestanas| != 1 {
      assert e.pestanas[0].idPestana != e.pestanas[1].idPestana by {
        if e.pestanas[0].idPestana == e.pestanas[1].idPestana {
          IdsIgualesRepiten(IdsPestanas(e.pestanas), 0, 1);
        }
      }
      var j := if e.pestanas[0].idPestana != idPestana then 0 else 1;
      assert e.pestanas[j].idPestana != idPestana;
      var r := EliminarPestana(e, idPestana);
      assert e.pestanas[j] in r.pestanas;
      IdsPestanasSinPestana(e.pestanas, idPestana);
      IdsPadsSinPestana(e.pestanas, idPestana);
      SubmultisetSinRepetidos(IdsPestanas(e.pestanas), IdsPestanas(r.pestanas));
      SubmultisetSinRepetidos(IdsPads(e.pestanas), IdsPads(r.pestanas));
      if e.pestanaActivaId != idPestana {
        var i :| 0 <= i < |e.pestanas| && e.pestanas[i].idPestana == e.pestanaActivaId;
        assert e.pestanas[i] in r.pestanas;
        var k :| 0 <= k < |r.pestanas| && r.pestanas[k] == e.pestanas[i];
        assert r.pestanas[k].idPestana == r.pestanaActivaId;
      } else {
        assert r.pestanas[0].idPestana == r.pestanaActivaId;
      }
    }
  }

  /** Removing the only tab leaves the state as it was. */
  lemma EliminarUnicaPestana(e: EstadoProyecto, idPestana: Id)
    requires |e.pestanas| == 1
    ensures EliminarPestana(e, idPestana) == e && |EliminarPestana(e, idPestana).pestanas| == 1
  {
  }

  function ActualizarColumnas(e: EstadoProyecto, columnas: int): (r: EstadoProyecto)
    ensures r.columnas == columnas
    ensures r.pestanas == e.pestanas && r.pestanaActivaId == e.pestanaActivaId && r.indiceColor == e.indiceColor
    ensures Valido(e) ==> Valido(r)
  {
    e.(columnas := columnas)
  }
}
