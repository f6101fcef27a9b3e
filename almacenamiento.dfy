/** Persistence of the soundboard (scripts/almacenamiento.js): the audio
    object store keyed by pad id, and the configuration file that carries the
    project state plus every stored audio encoded in base64. The store's
    asynchronous open/transaction protocol is not modelled; the store is the
    map from pad id to record that it maintains. */
module Almacenamiento {
  import opened Wrappers
  import opened Base64
  import opened Estado

  /** What the store keeps under a pad id. */
  datatype RegistroAudio = RegistroAudio(idPad: Id, buffer: seq<Byte>, tipo: string, nombre: string)

  /** A `Blob` built from a stored buffer and its MIME type. */
  datatype Blob = Blob(bytes: seq<Byte>, tipo: string)

  /** What loading an audio yields: `{ blob, nombre }`. */
  datatype AudioCargado = AudioCargado(blob: Blob, nombre: string)

  type Registros = map<Id, RegistroAudio>

  /** The store's key path: every record sits under its own pad id. */
  ghost predicate ClavesPropias(m: Registros) {
    forall k :: k in m ==> m[k].idPad == k
  }

  // ---------------------------------------------------------------------
  // The object store as a map
  // ---------------------------------------------------------------------

  /** `store.put(registro)`: inserts or replaces the record under its id. */
  function Poner(m: Registros, r: RegistroAudio): (m': Registros)
    ensures r.idPad in m' && m'[r.idPad] == r
    ensures forall k :: k != r.idPad ==> (k in m' <==> k in m) && (k in m ==> m'[k] == m[k])
    ensures ClavesPropias(m) ==> ClavesPropias(m')
  {
    m[r.idPad := r]
  }

  /** `store.delete(idPad)`: removes that key and no other. */
  function Quitar(m: Registros, idPad: Id): (m': Registros)
    ensures idPad !in m'
    ensures forall k :: k != idPad ==> (k in m' <==> k in m) && (k in m ==> m'[k] == m[k])
    ensures ClavesPropias(m) ==> ClavesPropias(m')
  {
    m - {idPad}
  }

  /** `store.get(idPad)` turned into `{ blob, nombre }`: nothing for an absent
      key, otherwise a blob of the stored bytes typed with the stored type. */
  function Cargado(m: Registros, idPad: Id): (r: Option<AudioCargado>)
    ensures r.None? <==> idPad !in m
    ensures r.Some? ==> (r.value.blob.bytes == m[idPad].buffer && r.value.blob.tipo == m[idPad].tipo
                         && r.value.nombre == m[idPad].nombre)
  {
    if idPad !in m then None
    else Some(AudioCargado(Blob(m[idPad].buffer, m[idPad].tipo), m[idPad].nombre))
  }

  /** A put is read back by the next get, and no other key's get changes. */
  lemma CargarTrasPoner(m: Registros, r: RegistroAudio, k: Id)
    ensures Cargado(Poner(m, r), r.idPad) == Some(AudioCargado(Blob(r.buffer, r.tipo), r.nombre))
    ensures k != r.idPad ==> Cargado(Poner(m, r), k) == Cargado(m, k)
  {
  }

  /** After a delete the key reads as absent, and no other key's get changes. */
  lemma CargarTrasQuitar(m: Registros, idPad: Id, k: Id)
    ensures Cargado(Quitar(m, idPad), idPad).None?
    ensures k != idPad ==> Cargado(Quitar(m, idPad), k) == Cargado(m, k)
  {
  }

  /** The audio store. Its methods are the four store operations of the
      source; each states the new map outright. */
  class AlmacenAudios {
    var registros: Registros

    ghost predicate Valido()
      reads this
    {
      ClavesPropias(registros)
    }

    constructor ()
      ensures registros == map[] && Valido()
    {
      registros := map[];
    }

    /** `guardarAudioBufferEnIndexedDB`: puts `{ idPad, buffer, tipo, nombre }`. */
    method Guardar(idPad: Id, buffer: seq<Byte>, tipo: string, nombre: string)
      requires Valido()
      modifies this
      ensures registros == Poner(old(registros), RegistroAudio(idPad, buffer, tipo, nombre)) && Valido()
    {
      registros := Poner(registros, RegistroAudio(idPad, buffer, tipo, nombre));
    }

    /** `cargarAudioDeIndexedDB`: reads without changing the store. */
    method Cargar(idPad: Id) returns (r: Option<AudioCargado>)
      ensures r.None? <==> idPad !in registros
      ensures r.Some? ==> (r.value.blob.bytes == registros[idPad].buffer
                           && r.value.blob.tipo == registros[idPad].tipo && r.value.nombre == registros[idPad].nombre)
    {
      r := Cargado(registros, idPad);
    }

    /** `eliminarAudioDeIndexedDB`. */
    method Eliminar(idPad: Id)
      requires Valido()
      modifies this
      ensures registros == Quitar(old(registros), idPad) && Valido()
    {
      registros := Quitar(registros, idPad);
    }

    /** `limpiarAudios`: `store.clear()`. */
    method Limpiar()
      modifies this
      ensures registros == map[] && Valido()
    {
      registros := map[];
    }

    /** `guardarAudiosImportados`: writes the importable entries one after
        another; a `base64` that `atob` rejects throws, which stops the loop
        with the earlier writes kept (`completado` false). */
    method GuardarAudiosImportados(audios: CampoAudios) returns (completado: bool)
      requires Valido()
      modifies this
      ensures (registros, completado) == ImportarCampo(old(registros), audios) && Valido()
    {
      if !audios.Lista? {
        return true;
      }
      var lista := audios.elementos;
      var i := 0;
      while i < |lista|
        invariant 0 <= i <= |lista| && Valido()
        invariant Importar(old(registros), lista) == Importar(registros, lista[i..])
      {
        ghost var previo := registros;
        ImportarDesde(previo, lista, i);
        if SeEscribe(lista[i]) {
          var audio := lista[i].value;
          var buffer := Base64ABuffer(audio.base64.value);
          if buffer.None? {
            return false;
          }
          Guardar(audio.idPad.value, buffer.value, ODefecto(audio.tipo, "audio/wav"), ODefecto(audio.nombre, "audio"));
          assert registros == Poner(previo, RegistroImportado(lista[i]));
        }
        i := i + 1;
      }
      return true;
    }
  }

  // ---------------------------------------------------------------------
  // Export
  // ---------------------------------------------------------------------

  /** `Array.from(new Set(ids))`: each id once, at the place of its first
      occurrence. */
  function SinDuplicados(ids: seq<Id>): (r: seq<Id>)
    ensures forall x :: x in r <==> x in ids
    ensures SinRepetidos(r) && |r| <= |ids|
  {
    if ids == [] then []
    else
      var previos := SinDuplicados(ids[..|ids| - 1]);
      var x := ids[|ids| - 1];
      assert ids == ids[..|ids| - 1] + [x];
      if x in previos then previos
      else
        assert multiset(previos + [x]) == multiset(previos) + multiset{x};
        previos + [x]
  }

  /** Index of the first occurrence of `x` in `s`. */
  function PrimeraAparicion(s: seq<Id>, x: Id): (i: nat)
    requires x in s
    ensures i < |s| && s[i] == x && forall j :: 0 <= j < i ==> s[j] != x
  {
    if s[0] == x then 0 else 1 + PrimeraAparicion(s[1..], x)
  }

  lemma {:induction false} PrimeraAparicionPrefijo(s: seq<Id>, y: Id, x: Id)
    requires y in s
    ensures PrimeraAparicion(s + [x], y) == PrimeraAparicion(s, y)
  {
    var i := PrimeraAparicion(s, y);
    var k := PrimeraAparicion(s + [x], y);
    assert (s + [x])[i] == y;
    assert k <= i;
    assert s[k] == y;
  }

  /** The deduplicated ids keep the order of their first occurrences. */
  lemma {:induction false} SinDuplicadosOrden(ids: seq<Id>)
    ensures forall i, j :: 0 <= i < j < |SinDuplicados(ids)| ==>
      PrimeraAparicion(ids, SinDuplicados(ids)[i]) < PrimeraAparicion(ids, SinDuplicados(ids)[j])
  {
    if ids != [] {
      var s := ids[..|ids| - 1];
      var x := ids[|ids| - 1];
      assert ids == s + [x];
      SinDuplicadosOrden(s);
      var previos := SinDuplicados(s);
      var r := SinDuplicados(ids);
      forall i, j | 0 <= i < j < |r|
        ensures PrimeraAparicion(ids, r[i]) < PrimeraAparicion(ids, r[j])
      {
        assert r[i] == previos[i] && r[i] in s;
        PrimeraAparicionPrefijo(s, r[i], x);
        assert PrimeraAparicion(ids, r[i]) == PrimeraAparicion(s, r[i]) < |s|;
        if j < |previos| {
          assert r[j] == previos[j] && r[j] in s;
          PrimeraAparicionPrefijo(s, r[j], x);
          assert PrimeraAparicion(s, previos[i]) < PrimeraAparicion(s, previos[j]);
        } else {
          assert r == previos + [x] && r[j] == x && x !in s;
          var k := PrimeraAparicion(ids, x);
          assert k == |s|;
        }
      }
    }
  }

  /** One entry of the export file's `audios`. `nombre` is absent when the
      stored name is empty (`audio.nombre || audio.blob.name`, and a blob has
      no name). */
  datatype EntradaExportada = EntradaExportada(idPad: Id, tipo: string, nombre: Option<string>, base64: string)

  /** The export payload: `{ version, estado, audios }`. */
  datatype ArchivoExportado = ArchivoExportado(version: int, estado: EstadoProyecto, audios: seq<EntradaExportada>)

  function Exportada(idPad: Id, r: RegistroAudio): (x: EntradaExportada)
    ensures x.idPad == idPad && x.tipo == r.tipo && x.base64 == Codificar(r.buffer)
    ensures x.nombre.None? <==> r.nombre == ""
  {
    EntradaExportada(idPad, r.tipo, if r.nombre != "" then Some(r.nombre) else None, Codificar(r.buffer))
  }

  /** The pad ids of a list of exported entries. */
  function IdsExportados(audios: seq<EntradaExportada>): (ids: seq<Id>)
    ensures |ids| == |audios| && forall i :: 0 <= i < |audios| ==> ids[i] == audios[i].idPad
  {
    seq(|audios|, i requires 0 <= i < |audios| => audios[i].idPad)
  }

  /** The entries for `ids`, in order, for those ids the store has audio for. */
  function AudiosExportables(ids: seq<Id>, m: Registros): (r: seq<EntradaExportada>)
    ensures |r| <= |ids|
    ensures forall i :: 0 <= i < |r| ==> r[i].idPad in m && r[i] == Exportada(r[i].idPad, m[r[i].idPad])
    ensures forall id :: id in IdsExportados(r) <==> id in ids && id in m
  {
    if ids == [] then []
    else
      var resto := AudiosExportables(ids[1..], m);
      assert forall id :: id in ids <==> id == ids[0] || id in ids[1..];
      if ids[0] in m then
        var r := [Exportada(ids[0], m[ids[0]])] + resto;
        assert IdsExportados(r) == [ids[0]] + IdsExportados(resto);
        r
      else resto
  }

  /** Mapping then filtering distributes over concatenation: the entries
      follow the ids in order. */
  lemma {:induction false} AudiosExportablesConcat(a: seq<Id>, b: seq<Id>, m: Registros)
    ensures AudiosExportables(a + b, m) == AudiosExportables(a, m) + AudiosExportables(b, m)
  {
    if a == [] {
      assert a + b == b;
    } else {
      assert (a + b)[0] == a[0] && (a + b)[1..] == a[1..] + b;
      AudiosExportablesConcat(a[1..], b, m);
      var cabeza := if a[0] in m then [Exportada(a[0], m[a[0]])] else [];
      assert AudiosExportables(a, m) == cabeza + AudiosExportables(a[1..], m);
      assert AudiosExportables(a + b, m) == cabeza + AudiosExportables(a[1..] + b, m);
      Texto.Asociar(cabeza, AudiosExportables(a[1..], m), AudiosExportables(b, m));
    }
  }

  /** One id gives exactly one entry when the store has audio for it, and
      none otherwise. */
  lemma AudiosExportablesUno(id: Id, m: Registros)
    ensures AudiosExportables([id], m) == if id in m then [Exportada(id, m[id])] else []
  {
    assert [id][1..] == [];
  }

  /** The exported ids are a sub-multiset of the ids, so ids without
      repeats give entries without repeats. */
  lemma {:induction false} IdsExportablesSubmultiset(ids: seq<Id>, m: Registros)
    ensures multiset(IdsExportados(AudiosExportables(ids, m))) <= multiset(ids)
  {
    if ids != [] {
      IdsExportablesSubmultiset(ids[1..], m);
      var cabeza := AudiosExportables([ids[0]], m);
      AudiosExportablesPaso(ids, m);
      IdsExportadosConcat(cabeza, AudiosExportables(ids[1..], m));
      assert multiset(IdsExportados(cabeza)) <= multiset([ids[0]]);
      assert ids == [ids[0]] + ids[1..];
    }
  }

  lemma AudiosExportablesPaso(ids: seq<Id>, m: Registros)
    requires ids != []
    ensures AudiosExportables(ids, m) == AudiosExportables([ids[0]], m) + AudiosExportables(ids[1..], m)
  {
    AudiosExportablesConcat([ids[0]], ids[1..], m);
    assert [ids[0]] + ids[1..] == ids;
  }

  lemma IdsExportadosConcat(a: seq<EntradaExportada>, b: seq<EntradaExportada>)
    ensures IdsExportados(a + b) == IdsExportados(a) + IdsExportados(b)
  {
  }

  /** `s` lists ids of `base` in the order of their first appearance there. */
  ghost predicate OrdenadoEn(base: seq<Id>, s: seq<Id>) {
    && (forall x :: x in s ==> x in base)
    && (forall i, j :: 0 <= i < j < |s| ==> PrimeraAparicion(base, s[i]) < PrimeraAparicion(base, s[j]))
  }

  /** A list headed by `x` is ordered exactly when its tail is and `x` comes
      before every id of the tail. */
  lemma OrdenadoCabeza(base: seq<Id>, x: Id, t: seq<Id>)
    requires x in base && OrdenadoEn(base, t)
    requires forall y :: y in t ==> PrimeraAparicion(base, x) < PrimeraAparicion(base, y)
    ensures OrdenadoEn(base, [x] + t)
  {
    var s := [x] + t;
    forall i, j | 0 <= i < j < |s|
      ensures PrimeraAparicion(base, s[i]) < PrimeraAparicion(base, s[j])
    {
      assert s[j] == t[j - 1];
      if i > 0 {
        assert s[i] == t[i - 1];
      }
    }
  }

  lemma OrdenadoCola(base: seq<Id>, s: seq<Id>)
    requires s != [] && OrdenadoEn(base, s)
    ensures OrdenadoEn(base, s[1..]) && s[0] in base
    ensures forall y :: y in s[1..] ==> PrimeraAparicion(base, s[0]) < PrimeraAparicion(base, y)
  {
    var t := s[1..];
    forall i, j | 0 <= i < j < |t|
      ensures PrimeraAparicion(base, t[i]) < PrimeraAparicion(base, t[j])
    {
      assert t[i] == s[i + 1] && t[j] == s[j + 1];
    }
    forall y | y in t
      ensures PrimeraAparicion(base, s[0]) < PrimeraAparicion(base, y)
    {
      var k :| 0 <= k < |t| && t[k] == y;
      assert s[k + 1] == y;
    }
  }

  /** Entries come out in the order of their ids: when the ids are ordered
      by their first position in `base`, so are the exported ids. */
  lemma {:induction false} AudiosExportablesOrden(base: seq<Id>, ids: seq<Id>, m: Registros)
    requires OrdenadoEn(base, ids)
    ensures OrdenadoEn(base, IdsExportados(AudiosExportables(ids, m)))
  {
    if ids != [] {
      var x, cola := ids[0], ids[1..];
      OrdenadoCola(base, ids);
      AudiosExportablesOrden(base, cola, m);
      var resto := AudiosExportables(cola, m);
      AudiosExportablesPaso(ids, m);
      AudiosExportablesUno(x, m);
      if x in m {
        IdsExportadosConcat([Exportada(x, m[x])], resto);
        assert IdsExportados([Exportada(x, m[x])]) == [x];
        OrdenadoCabeza(base, x, IdsExportados(resto));
      }
    }
  }

  /** The payload `descargarArchivoConfiguracion` writes (without its
      timestamp): version 2, the state as given, and one entry per distinct
      pad id that has stored audio, in the order of the ids' first
      appearance among the pads. */
  function Exportar(e: EstadoProyecto, m: Registros): (r: ArchivoExportado)
    ensures r.version == 2 && r.estado == e
    ensures forall id :: id in IdsExportados(r.audios) <==> id in IdsPads(e.pestanas) && id in m
    ensures SinRepetidos(IdsExportados(r.audios)) && OrdenadoEn(IdsPads(e.pestanas), IdsExportados(r.audios))
  {
    var base := IdsPads(e.pestanas);
    var ids := SinDuplicados(base);
    IdsExportablesSubmultiset(ids, m);
    SubmultisetSinRepetidos(ids, IdsExportados(AudiosExportables(ids, m)));
    SinDuplicadosOrden(base);
    AudiosExportablesOrden(base, ids, m);
    ArchivoExportado(2, e, AudiosExportables(ids, m))
  }

  // ---------------------------------------------------------------------
  // Reading and import
  // ---------------------------------------------------------------------

  /** An entry of `audios` as read back from a file: every field may be absent. */
  datatype EntradaImportada = EntradaImportada(idPad: Option<string>, tipo: Option<string>, nombre: Option<string>, base64: Option<string>)

  /** The `audios` field of a parsed file: absent, a list (whose elements may
      be `null`), or some other value, truthy or not. */
  datatype CampoAudios = Ausente | Lista(elementos: seq<Option<EntradaImportada>>) | OtroValor(veraz: bool)

  /** A parsed configuration file: `estado` is whatever the file holds. */
  datatype DatosArchivo = DatosArchivo(estado: Option<EstadoCrudo>, audios: CampoAudios)

  /** A string field is truthy when present and non-empty. */
  predicate Veraz(s: Option<string>) {
    s.Some? && s.value != ""
  }

  /** `s || porDefecto`. */
  function ODefecto(s: Option<string>, porDefecto: string): (r: string)
    ensures Veraz(s) ==> r == s.value
    ensures !Veraz(s) ==> r == porDefecto
  {
    if Veraz(s) then s.value else porDefecto
  }

  /** `leerArchivoConfiguracion`: `estado` as given, `audios || []`. */
  function LeerArchivoConfiguracion(datos: DatosArchivo): (r: DatosArchivo)
    ensures r.estado == datos.estado && r.audios != Ausente
    ensures datos.audios == Ausente || datos.audios == OtroValor(false) ==> r.audios == Lista([])
    ensures datos.audios.Lista? || datos.audios == OtroValor(true) ==> r.audios == datos.audios
  {
    match datos.audios
    case Ausente => datos.(audios := Lista([]))
    case OtroValor(veraz) => if veraz then datos else datos.(audios := Lista([]))
    case Lista(_) => datos
  }

  /** An entry is written when it is present with truthy `base64` and `idPad`. */
  predicate SeEscribe(a: Option<EntradaImportada>) {
    a.Some? && Veraz(a.value.base64) && Veraz(a.value.idPad)
  }

  /** An entry that is written and whose `base64` `atob` accepts. */
  predicate SeDecodifica(a: Option<EntradaImportada>) {
    SeEscribe(a) && DecodificarBase64(a.value.base64.value).Some?
  }

  /** The record an importable entry becomes, with the defaults applied. */
  function RegistroImportado(a: Option<EntradaImportada>): (r: RegistroAudio)
    requires SeDecodifica(a)
    ensures r.idPad == a.value.idPad.value && r.buffer == DecodificarBase64(a.value.base64.value).value
    ensures r.tipo == ODefecto(a.value.tipo, "audio/wav") && r.nombre == ODefecto(a.value.nombre, "audio")
  {
    RegistroAudio(a.value.idPad.value, DecodificarBase64(a.value.base64.value).value,
      ODefecto(a.value.tipo, "audio/wav"), ODefecto(a.value.nombre, "audio"))
  }

  /** The store after importing a list of entries, and whether the import
      ran to the end. Entries that are not written are skipped; the first
      entry whose `base64` `atob` rejects stops the import. */
  function Importar(m: Registros, audios: seq<Option<EntradaImportada>>): (r: (Registros, bool))
    ensures forall k :: k in m ==> k in r.0
    ensures forall k :: k in r.0 && k !in m ==>
      exists j :: 0 <= j < |audios| && SeEscribe(audios[j]) && audios[j].value.idPad.value == k
    ensures (forall k :: k in m && (forall j :: 0 <= j < |audios| && SeEscribe(audios[j]) ==> audios[j].value.idPad.value != k)
               ==> r.0[k] == m[k])
    ensures r.1 <==> forall j :: 0 <= j < |audios| && SeEscribe(audios[j]) ==> SeDecodifica(audios[j])
    ensures ClavesPropias(m) ==> ClavesPropias(r.0)
    decreases |audios|
  {
    if audios == [] then (m, true)
    else
      var resto := audios[1..];
      assert forall j :: 1 <= j < |audios| ==> audios[j] == resto[j - 1];
      if !SeEscribe(audios[0]) then Importar(m, resto)
      else if !SeDecodifica(audios[0]) then (m, false)
      else Importar(Poner(m, RegistroImportado(audios[0])), resto)
  }

  /** One entry of the import: skipped, stopping, or written. */
  lemma ImportarPaso(m: Registros, audios: seq<Option<EntradaImportada>>)
    requires audios != []
    ensures !SeEscribe(audios[0]) ==> Importar(m, audios) == Importar(m, audios[1..])
    ensures SeEscribe(audios[0]) && !SeDecodifica(audios[0]) ==> Importar(m, audios) == (m, false)
    ensures SeDecodifica(audios[0]) ==>
      Importar(m, audios) == Importar(Poner(m, RegistroImportado(audios[0])), audios[1..])
  {
  }

  /** The import from entry `i` on, one entry at a time. */
  lemma ImportarDesde(m: Registros, audios: seq<Option<EntradaImportada>>, i: nat)
    requires i < |audios|
    ensures !SeEscribe(audios[i]) ==> Importar(m, audios[i..]) == Importar(m, audios[i + 1..])
    ensures SeEscribe(audios[i]) && !SeDecodifica(audios[i]) ==> Importar(m, audios[i..]) == (m, false)
    ensures SeDecodifica(audios[i]) ==>
      Importar(m, audios[i..]) == Importar(Poner(m, RegistroImportado(audios[i])), audios[i + 1..])
  {
    ImportarPaso(m, audios[i..]);
    assert audios[i..][0] == audios[i] && audios[i..][1..] == audios[i + 1..];
  }

  /** `guardarAudiosImportados(audios)`: nothing is written when `audios`
      is not a list. */
  function ImportarCampo(m: Registros, audios: CampoAudios): (r: (Registros, bool))
    ensures !audios.Lista? ==> r == (m, true)
  {
    if audios.Lista? then Importar(m, audios.elementos) else (m, true)
  }

  /** When every written entry decodes, the import ends with the record of
      key `k` being `R`, provided every written entry for `k` yields `R` and
      either one exists or `k` already held `R`. */
  lemma {:induction false} ImportarClave(m: Registros, audios: seq<Option<EntradaImportada>>, k: Id, R: RegistroAudio)
    requires forall j :: 0 <= j < |audios| && SeEscribe(audios[j]) ==> SeDecodifica(audios[j])
    requires forall j :: 0 <= j < |audios| && SeEscribe(audios[j]) && audios[j].value.idPad.value == k ==>
      RegistroImportado(audios[j]) == R
    requires (k in m && m[k] == R)
      || exists j :: 0 <= j < |audios| && SeEscribe(audios[j]) && audios[j].value.idPad.value == k
    ensures Importar(m, audios).1 && k in Importar(m, audios).0 && Importar(m, audios).0[k] == R
    decreases |audios|
  {
    if audios != [] {
      var resto := audios[1..];
      assert forall j :: 1 <= j < |audios| ==> audios[j] == resto[j - 1];
      if !SeEscribe(audios[0]) {
        ImportarClave(m, resto, k, R);
      } else {
        var m1 := Poner(m, RegistroImportado(audios[0]));
        if audios[0].value.idPad.value == k {
          assert m1[k] == R;
        } else if !(k in m && m[k] == R) {
          var j :| 0 <= j < |audios| && SeEscribe(audios[j]) && audios[j].value.idPad.value == k;
          assert j >= 1 && resto[j - 1] == audios[j];
        }
        ImportarClave(m1, resto, k, R);
      }
    }
  }

  /** An entry as `JSON.parse(JSON.stringify(...))` hands it back. */
  function ComoLeida(x: EntradaExportada): (a: Option<EntradaImportada>)
    ensures a.Some? && a.value.idPad == Some(x.idPad) && a.value.base64 == Some(x.base64)
  {
    Some(EntradaImportada(Some(x.idPad), Some(x.tipo), x.nombre, Some(x.base64)))
  }

  /** The exported file as reading it back yields. */
  function Releido(p: ArchivoExportado): (d: DatosArchivo)
    ensures d.estado == Some(ACrudo(p.estado)) && d.audios.Lista? && |d.audios.elementos| == |p.audios|
    ensures forall i :: 0 <= i < |p.audios| ==> d.audios.elementos[i] == ComoLeida(p.audios[i])
  {
    DatosArchivo(Some(ACrudo(p.estado)), Lista(seq(|p.audios|, i requires 0 <= i < |p.audios| => ComoLeida(p.audios[i]))))
  }

  /** Export then import: importing the exported file into any store
      completes and puts back, for every pad with a non-empty id and a
      non-empty stored buffer, the same bytes, the type (or "audio/wav" when
      it was empty) and the name (or "audio" when it was empty). */
  lemma ExportarImportar(e: EstadoProyecto, m: Registros, destino: Registros, id: Id)
    requires ClavesPropias(m)
    requires id in IdsPads(e.pestanas) && id in m && id != "" && m[id].buffer != []
    ensures var leido := LeerArchivoConfiguracion(Releido(Exportar(e, m)));
      var r := ImportarCampo(destino, leido.audios);
      && r.1 && id in r.0
      && r.0[id] == RegistroAudio(id, m[id].buffer,
           if m[id].tipo != "" then m[id].tipo else "audio/wav",
           if m[id].nombre != "" then m[id].nombre else "audio")
  {
    var p := Exportar(e, m);
    var lista := Releido(p).audios.elementos;
    var R := RegistroAudio(id, m[id].buffer,
      if m[id].tipo != "" then m[id].tipo else "audio/wav",
      if m[id].nombre != "" then m[id].nombre else "audio");
    ExportadasSeImportan(p.audios, lista, m, id, R);
    assert id in IdsExportados(p.audios);
    var i :| 0 <= i < |p.audios| && IdsExportados(p.audios)[i] == id;
    assert |Codificar(m[id].buffer)| > 0;
    assert SeEscribe(lista[i]);
    ImportarClave(destino, lista, id, R);
  }

  /** Every exported entry read back decodes, and the one for `id` becomes
      the record with the stored bytes and the defaults applied. */
  lemma ExportadasSeImportan(audios: seq<EntradaExportada>, lista: seq<Option<EntradaImportada>>,
                             m: Registros, id: Id, R: RegistroAudio)
    requires ClavesPropias(m) && id in m
    requires forall i :: 0 <= i < |audios| ==> audios[i].idPad in m && audios[i] == Exportada(audios[i].idPad, m[audios[i].idPad])
    requires |lista| == |audios| && forall i :: 0 <= i < |audios| ==> lista[i] == ComoLeida(audios[i])
    requires R == RegistroAudio(id, m[id].buffer,
      if m[id].tipo != "" then m[id].tipo else "audio/wav",
      if m[id].nombre != "" then m[id].nombre else "audio")
    ensures forall j :: 0 <= j < |lista| && SeEscribe(lista[j]) ==> SeDecodifica(lista[j])
    ensures forall j :: 0 <= j < |lista| && SeEscribe(lista[j]) && lista[j].value.idPad.value == id ==>
      RegistroImportado(lista[j]) == R
  {
    forall j | 0 <= j < |lista| && SeEscribe(lista[j])
      ensures SeDecodifica(lista[j])
      ensures lista[j].value.idPad.value == id ==> RegistroImportado(lista[j]) == R
    {
      DecodificarCodificar(m[audios[j].idPad].buffer);
    }
  }

  /** An audio stored with an empty buffer is exported with `base64` "",
      which import treats as missing: that pad's audio is not restored. */
  lemma AudioVacioNoSeImporta(e: EstadoProyecto, m: Registros, destino: Registros, id: Id)
    requires id in IdsPads(e.pestanas) && id in m && m[id].buffer == [] && id !in destino
    ensures var leido := LeerArchivoConfiguracion(Releido(Exportar(e, m)));
      id !in ImportarCampo(destino, leido.audios).0
  {
    var p := Exportar(e, m);
    var lista := Releido(p).audios.elementos;
    forall j | 0 <= j < |lista| && lista[j].value.idPad.value == id
      ensures !SeEscribe(lista[j])
    {
      assert p.audios[j] == Exportada(id, m[id]);
      assert |Codificar(m[id].buffer)| == 0;
    }
  }
}
