# Soundboard core in Dafny

This project models the data core of a browser soundboard. A project holds an
ordered list of tabs (`pestañas`), and each tab holds an ordered list of pads.
A pad is a button that plays one audio file. The project also records the
active tab, a column count and a cursor into a palette of 51 colours.

The model covers three source files:

- `estado.js` is a set of pure functions from a project state to a new one.
  It adds, removes and renames tabs, adds and removes pads, merges pad fields,
  repairs a damaged state, formats `mm:ss` times and computes border colours.
  The model is `estado.dfy` (module `Estado`), with the JavaScript string and
  number primitives it needs in `texto.dfy` (module `Texto`).
- `app.js` holds the application-level rules. These strip file extensions,
  parse hex colours with a fallback, clean every pad name in a state, repair
  the active tab, look pads and tabs up, decide the ducking volumes and
  dispatch a click on a pad. The model is `app.dfy` (module `App`). Its class
  `Aplicacion` has the module-level variables the source reassigns as fields:
  `estadoAplicacion`, `padEsperandoArchivo`, and the state last written to
  local storage.
- `almacenamiento.js` persists audio in an object store keyed by pad id, and
  exports and imports a configuration file with every stored audio encoded
  in base64. The model is `almacenamiento.dfy` (module `Almacenamiento`). The
  store is a class whose field is the map from pad id to record. The base64
  codec, `btoa`/`atob` plus the buffer loops around them, is `base64.dfy`
  (module `Base64`).

`wrappers.dfy` holds the `Option` type used for `null`, `undefined` and
missing fields.

Ids are strings. The source generates them with `crypto.randomUUID`. Here
every operation that creates a tab or a pad takes the new ids as parameters,
and the invariant lemmas require those ids to be fresh.

The invariant the operations keep is `Estado.Valido`:

- there is at least one tab;
- the active id names a tab;
- tab ids are unique;
- pad ids are unique across all tabs;
- the colour cursor is non-negative.

## Model

| member | source | states |
|---|---|---|
| Estado.PaletaValida | scripts/estado.js:4-56 | The palette has 51 colours and every one is written `#rrggbb`. |
| Estado.BordePrimerColor | scripts/estado.js:65-74 | The first palette colour is `#fef3c7`, and its border reads back as rgb(255, 255, 235). |
| Estado.Aclarar | scripts/estado.js:65-74 | Brightening a channel gives at most 255. It never darkens a byte, strictly brightens channels 3..254 and reaches 255 exactly from 216 up. |
| Estado.FormaDelBorde | scripts/estado.js:65-74 | The border is written `rgb(…)` and always differs from the `#` colour it came from. |
| Estado.LeerCalcularBorde | scripts/estado.js:65-74 | For a `#rrggbb` colour, the border reads back as exactly the three channels, each brightened by `min(255, round(v*1.18))`. No channel is NaN. |
| Estado.BordeDePaleta | scripts/estado.js:76-79 | For any cursor value the colour picked is palette entry (value mod 51). It is a `#rrggbb` colour, and its border reads back as three numbers. |
| Estado.FormatearTiempo | scripts/estado.js:122-131 | Negative seconds give "00:00". Under 100 minutes the result is five characters with ':' in the middle. |
| Estado.LeerFormatearTiempo | scripts/estado.js:122-131 | Reading the `mm:ss` text back gives the same number of seconds, for every natural number. |
| Estado.FormatearTiempoCero | scripts/estado.js:122-131 | 0 and -3 both give "00:00". |
| Estado.FormatearTiempoMinutoQuince | scripts/estado.js:122-131 | 75 seconds give "01:15". |
| Estado.CrearPadBase | scripts/estado.js:76-98 | A new pad is named "Vacío", has no file and needs no reload. It is idle with zero durations. Only restart-on-play is on. Its colour is `paletaColores[i mod 51]` and its border is that colour's border. |
| Estado.CrearEstadoInicial | scripts/estado.js:100-117 | `n` tabs with the given ids, one new pad each, in palette order. The columns are as given, the active tab is the first and the cursor ends at `n`. |
| Estado.NombresIniciales | scripts/estado.js:105-108 | Tab `i` of the initial state is named `Pestaña i+1`. |
| Estado.NombresInicialesDistintos | scripts/estado.js:107 | Initial tabs at different positions get different names. |
| Estado.CrearEstadoInicialValido | scripts/estado.js:100-117 | With distinct fresh ids the initial state satisfies the invariant. |
| Estado.PrimeraPestana | scripts/estado.js:119-120 | The index of the first tab with the id, or the length when there is none. |
| Estado.AgregarPad | scripts/estado.js:133-147 | An unknown tab leaves the state unchanged. Otherwise the cursor goes up by one; the tab ids, their order, the active id and the columns stay. |
| Estado.AgregarPadEnPestana | scripts/estado.js:133-147 | Adding to tab `k` appends exactly one new pad, with the next palette colour, at the end of that tab. Every other tab is unchanged and the cursor goes up by one. |
| Estado.AgregarPadPreservaValido | scripts/estado.js:133-147 | Adding a pad with a fresh id keeps the invariant. |
| Estado.AgregarPadMultiset | scripts/estado.js:133-147 | Adding a pad to a tab adds its id, once, to the pad ids of the state and changes no other pad id. |
| Estado.AgregarPadsEnPestana | scripts/estado.js:133-147 | `k` successive additions to one tab append to it one new pad per id, in order, with consecutive palette colours from the cursor on. |
| Estado.AgregarPadsOtras | scripts/estado.js:133-147 | `k` successive additions to one tab leave every other tab as it was and advance the cursor by `k`. |
| Estado.AgregarPadsCuenta | scripts/estado.js:133-147 | `k` successive additions to one tab append exactly those `k` pads and change no other tab. The cursor advances by `k`. |
| Estado.AgregarPadsValido | scripts/estado.js:133-147 | Successive additions with distinct fresh ids keep the invariant. |
| Estado.NormalizarEstado | scripts/estado.js:149-165 | The result always has a tab, and its active id names one of its tabs. A missing state, a missing tab list or an empty tab list gives exactly the default initial project. |
| Estado.NormalizarConserva | scripts/estado.js:149-165 | When there are tabs, each tab's id, name and order are kept, and each tab's pads are kept (or become [] when not a list). A valid active id is kept; otherwise the first tab's id is used. Missing columns default to 5 and a missing cursor to 0. |
| Estado.NormalizarBienFormado | scripts/estado.js:149-165 | Normalising a well-formed state returns it unchanged. |
| Estado.MapearPadMarco | scripts/estado.js:167-194 | Only pads with the id inside tabs with the id change. Tab ids, names, pad counts and order stay. An id-preserving change keeps all pad ids and the invariant. |
| Estado.Fusionar | scripts/estado.js:167-176 | Each field the changes set overrides the pad's, every other field is the pad's own; so the id is kept unless the changes set it, and an empty change set is the identity. |
| Estado.ActualizarPadMarco | scripts/estado.js:167-176 | Only the targeted pad is replaced by its merge. Counts, order and the other fields of the state stay. A change that keeps the id keeps the invariant. |
| Estado.FusionarReproduccion | scripts/estado.js:178-194 | Only the playback sub-record changes. Each given field overrides and each absent field keeps its value. |
| Estado.ActualizarReproduccionPadMarco | scripts/estado.js:178-194 | The targeted pads become their playback merge, field by field; every other pad, the tab ids, the active tab, the columns and the cursor are unchanged. Pad ids and the invariant are kept. |
| Estado.EstablecerPestanaActiva | scripts/estado.js:196-199 | A known id becomes active and an unknown id leaves the state unchanged. The tabs are untouched and the invariant is kept. |
| Estado.SinPad | scripts/estado.js:201-207 | Exactly the pads whose id differs are kept. |
| Estado.SinPadMultiset | scripts/estado.js:204 | Each kept pad occurs as often as before; no pad with the id remains. |
| Estado.SinPadConcat | scripts/estado.js:204 | The filter distributes over concatenation, so the other pads keep their order. |
| Estado.IdsSinPad | scripts/estado.js:201-207 | Removing pads removes the id and adds no other. |
| Estado.EliminarPad | scripts/estado.js:201-207 | Matching tabs lose the pads with the id. Every other tab and field is unchanged. |
| Estado.EliminarPadPreservaValido | scripts/estado.js:201-207 | Removing a pad keeps the invariant. |
| Estado.AgregarPestana | scripts/estado.js:209-222 | Appends one tab holding one new pad after the existing tabs. The new tab becomes active, its name defaults to "Nueva pestaña", and the cursor goes up by one. |
| Estado.AgregarPestanaPreservaValido | scripts/estado.js:209-222 | With fresh ids, adding a tab keeps the invariant. |
| Estado.IdsTrasAnadirPestana | scripts/estado.js:209-222 | A tab appended at the end adds its id after the tab ids and its pads' ids after all pad ids. |
| Estado.RenombrarPestana | scripts/estado.js:224-229 | Only matching tabs get the new name. Pads, ids and the other fields stay. |
| Estado.RenombrarPestanaPreservaValido | scripts/estado.js:224-229 | Renaming keeps the invariant. |
| Estado.SinPestana | scripts/estado.js:231-237 | Exactly the tabs whose id differs are kept. |
| Estado.SinPestanaMultiset | scripts/estado.js:233 | Each kept tab occurs as often as before; no tab with the id remains. |
| Estado.SinPestanaConcat | scripts/estado.js:233 | The filter distributes over concatenation, so the other tabs keep their order. |
| Estado.SinPestanaPrimera | scripts/estado.js:233-235 | The first tab kept is the first tab, in order, whose id differs. |
| Estado.IdsPestanasSinPestana | scripts/estado.js:231-237 | Removing tabs adds no tab id. |
| Estado.IdsPadsSinPestana | scripts/estado.js:231-237 | Removing tabs adds no pad id. |
| Estado.EliminarPestana | scripts/estado.js:231-237 | A one-tab state is unchanged. Otherwise the tab is removed. When the removed tab was active, the new active tab is the first tab, in the old order, whose id differs; otherwise the active id stays. |
| Estado.EliminarPestanaPreservaValido | scripts/estado.js:231-237 | On a valid state the removal is defined and keeps the invariant. |
| Estado.EliminarUnicaPestana | scripts/estado.js:231-237 | Removing the only tab leaves the state as it is. |
| Estado.ActualizarColumnas | scripts/estado.js:239-242 | Only the column count changes, and the invariant is kept. |
| Texto.NatADecimal | scripts/estado.js:122-131 | `toString` gives a non-empty run of digits, a single one exactly below 10. |
| Texto.NatADecimalInyectiva | scripts/estado.js:122-131 | Distinct numbers render as distinct strings. |
| Texto.RellenarDos | scripts/estado.js:122-131 | `padStart(2, "0")` gives at least two characters, ends with the input and pads only with '0'. |
| Texto.LeerNatADecimal | scripts/estado.js:122-131 | A rendered number, padded or not, reads back as itself. |
| Texto.ParseIntHex | scripts/estado.js:65-74 | `parseInt(s, 16)` is NaN exactly when `s` does not start with a hex digit. |
| Texto.ParseIntHexDosDigitos | scripts/estado.js:65-74 | Two hex digits written for a byte parse back to that byte. |
| Texto.QuitarPrimero | scripts/estado.js:65-74 | `replace("#", "")` keeps a string without '#', drops a leading '#', and otherwise removes one character. |
| Texto.PrimeraPosicion | scripts/estado.js:66 | The index of the first occurrence: every earlier character differs, and the character there matches. |
| Texto.QuitarPrimeroPosicion | scripts/estado.js:66 | `replace("#", "")` removes exactly the first '#': the result is the text before it followed by the text after it. The index equals the length exactly when there is no '#'. |
| Base64.CodificarSinRelleno | scripts/almacenamiento.js:7-14 | The unpadded encoding of `n` bytes has ⌈4n/3⌉ characters, all in the base64 alphabet. |
| Base64.Grupo | scripts/almacenamiento.js:7-14 | Every three bytes become four characters of the base64 alphabet. |
| Base64.Codificar | scripts/almacenamiento.js:7-14 | The padded encoding has length 4⌈n/3⌉, a multiple of 4. |
| Base64.LongitudCodificada | scripts/almacenamiento.js:7-14 | ⌈4n/3⌉ characters plus the `=` padding make 4⌈n/3⌉, a multiple of four. |
| Base64.Btoa | scripts/almacenamiento.js:7-14 | `btoa` fails exactly when a character code is 256 or more. |
| Base64.BtoaBinario | scripts/almacenamiento.js:7-14 | The byte string of any buffer is accepted, and its encoding is the padded encoding of the bytes. |
| Base64.BufferABase64 | scripts/almacenamiento.js:7-14 | The loop builds the byte string char by char. The result is the encoding of the buffer and decodes back to it. |
| Base64.ValorDeCaracter | scripts/almacenamiento.js:16-23 | Each alphabet character decodes to the 6-bit value it encodes. |
| Base64.SinEspacios | scripts/almacenamiento.js:16-23 | `atob` drops exactly the ASCII whitespace. |
| Base64.SinEspaciosMultiset | scripts/almacenamiento.js:17 | Every character that is not whitespace is kept as often as it occurs. |
| Base64.SinEspaciosConcat | scripts/almacenamiento.js:17 | Dropping whitespace distributes over concatenation, so the other characters keep their order. |
| Base64.AtobIgnoraEspacio | scripts/almacenamiento.js:17 | Whitespace anywhere in the input leaves what `atob` gives unchanged, so `"QU JD"` decodes as `"QUJD"`. |
| Base64.Atob | scripts/almacenamiento.js:16-23 | Whatever `atob` accepts decodes to a byte string. |
| Base64.DecodificarGrupos | scripts/almacenamiento.js:16-23 | Decoding `m` characters gives ⌊3m/4⌋ bytes. |
| Base64.DecodificarBase64 | scripts/almacenamiento.js:16-23 | Decoding succeeds exactly when `atob` does, with one byte per decoded character. |
| Base64.GrupoDecodificado | scripts/almacenamiento.js:7-23 | The four characters of any three bytes decode to those three bytes. |
| Base64.DosBytesDecodificados | scripts/almacenamiento.js:7-23 | The three characters of two leftover bytes decode to those two bytes. |
| Base64.UnByteDecodificado | scripts/almacenamiento.js:7-23 | The two characters of one leftover byte decode to that byte. |
| Base64.DecodificarCodificarSinRelleno | scripts/almacenamiento.js:7-23 | Decoding the unpadded encoding of any bytes gives the bytes back. |
| Base64.AtobCodificar | scripts/almacenamiento.js:7-23 | `atob` of the encoding of a buffer is that buffer's byte string. |
| Base64.DecodificarCodificar | scripts/almacenamiento.js:7-23 | Round trip: decoding the encoding of any buffer gives the buffer back. |
| Base64.Base64ABuffer | scripts/almacenamiento.js:16-23 | The loop fills the array with the character codes. The buffer is the decoding, as long as the decoded string. |
| Almacenamiento.Poner | scripts/almacenamiento.js:67-81 | A put stores the record under its own id and leaves every other key as it was. |
| Almacenamiento.AlmacenAudios.Guardar | scripts/almacenamiento.js:67-81 | The store becomes the put of the record. Every record stays under its own id. |
| Almacenamiento.Cargado | scripts/almacenamiento.js:83-100 | A get is null exactly for an absent key. Otherwise it yields a blob of the stored bytes with the stored type, and the stored name. |
| Almacenamiento.AlmacenAudios.Cargar | scripts/almacenamiento.js:83-100 | Loading changes nothing and returns exactly the stored record's bytes, type and name, or null. |
| Almacenamiento.CargarTrasPoner | scripts/almacenamiento.js:67-100 | A get after a put returns the record put. A get of any other key is unchanged. |
| Almacenamiento.Quitar | scripts/almacenamiento.js:102-111 | A delete removes that key and no other. |
| Almacenamiento.AlmacenAudios.Eliminar | scripts/almacenamiento.js:102-111 | The store becomes the delete of the key. |
| Almacenamiento.CargarTrasQuitar | scripts/almacenamiento.js:83-111 | A get after a delete is null, and gets of other keys are unchanged. |
| Almacenamiento.AlmacenAudios.Limpiar | scripts/almacenamiento.js:113-122 | A clear empties the store. |
| Estado.EnTodosLosPads | scripts/almacenamiento.js:125-127 | An id is among the pad ids gathered with `flatMap` over all tabs exactly when some tab holds a pad with that id. |
| Almacenamiento.SinDuplicados | scripts/almacenamiento.js:125-127 | `Array.from(new Set(ids))` has the same members as the ids, each once. |
| Almacenamiento.SinDuplicadosOrden | scripts/almacenamiento.js:125-127 | The deduplicated ids are in the order of their first occurrences. |
| Almacenamiento.Exportada | scripts/almacenamiento.js:132-139 | An exported entry carries the id, the stored type and the base64 encoding of the stored bytes. Its name is absent exactly when the stored name is empty. |
| Almacenamiento.AudiosExportables | scripts/almacenamiento.js:129-141 | An entry exists for an id exactly when it is among the ids and the store holds audio for it. Each entry is built from that id's record. |
| Almacenamiento.AudiosExportablesConcat | scripts/almacenamiento.js:129-147 | Mapping the ids and then filtering distributes over concatenation, so entries follow their ids in order. |
| Almacenamiento.AudiosExportablesUno | scripts/almacenamiento.js:131-140 | One id gives exactly one entry when the store has audio for it, and none otherwise. |
| Almacenamiento.IdsExportablesSubmultiset | scripts/almacenamiento.js:129-147 | No id is exported more often than it is listed. |
| Almacenamiento.AudiosExportablesOrden | scripts/almacenamiento.js:129-147 | When the ids are in the order of their first appearance in a list, so are the exported entries. |
| Almacenamiento.Exportar | scripts/almacenamiento.js:124-148 | The payload has version 2 and the given state. It holds audio exactly for the pad ids the store has a record for, and pads without stored audio are dropped. Each id appears once, in the order of its first appearance among the pads. |
| Almacenamiento.LeerArchivoConfiguracion | scripts/almacenamiento.js:171-175 | `estado` is kept as given. A missing or falsy `audios` becomes [] and any other value is kept. |
| Almacenamiento.RegistroImportado | scripts/almacenamiento.js:163-167 | An imported record has the entry's id and decoded bytes. Its type defaults to "audio/wav" and its name to "audio". |
| Almacenamiento.Importar | scripts/almacenamiento.js:160-169 | Import never loses a key and adds only ids of entries with truthy `base64` and `idPad`. A key that no written entry names keeps its record, even when the import stops early. It runs to the end exactly when every such entry decodes, and every record stays under its own id. |
| Almacenamiento.ImportarCampo | scripts/almacenamiento.js:160-161 | When `audios` is not a list, nothing is written. |
| Almacenamiento.ImportarDesde | scripts/almacenamiento.js:160-169 | From entry `i` on, the import skips an entry that is not written, stops at one that does not decode with the store as it is, and otherwise puts its record and goes on. |
| Almacenamiento.AlmacenAudios.GuardarAudiosImportados | scripts/almacenamiento.js:160-169 | The loop leaves the store and the outcome that the import function gives. A bad `base64` stops it with the earlier writes kept. |
| Almacenamiento.ImportarClave | scripts/almacenamiento.js:160-169 | When all entries decode and all entries for a key agree, the key ends up holding that record. |
| Almacenamiento.ExportadasSeImportan | scripts/almacenamiento.js:124-169 | Every exported entry, read back, decodes, and the one for a pad becomes that pad's stored bytes with the type and name defaults applied. |
| Almacenamiento.ExportarImportar | scripts/almacenamiento.js:124-175 | Exporting and then importing into any store completes. It restores every pad's bytes, with a default type and name where those were empty. This needs a non-empty pad id and non-empty stored bytes. |
| Almacenamiento.AudioVacioNoSeImporta | scripts/almacenamiento.js:132-169 | An audio with no bytes exports `base64` "", and import skips it. |
| App.UltimoIndice | scripts/app.js:62-67 | `lastIndexOf` is the last position of the character, or -1 when there is none. |
| App.LimpiarExtensionNombre | scripts/app.js:62-67 | The result is a prefix of the name. It is the whole name exactly when no dot follows the first character. Otherwise it is non-empty and shorter, and is followed by the last dot. |
| App.QuitarExtension | scripts/app.js:62-67 | `base + "." + ext` with no dot in `ext` gives back `base`. |
| App.LimpiarDosVeces | scripts/app.js:62-67 | Cleaning twice is not cleaning once: "pista.final.mp3" becomes "pista.final" and then "pista". The source cleans a stored name again at start-up (app.js:135) and on import (app.js:771). |
| App.HexAComponentesRgb | scripts/app.js:69-77 | An empty colour, or one shorter than six characters once the first '#' is removed, gives (68, 82, 110). |
| App.ComponentesDeColorHex | scripts/app.js:69-77 | A `#rrggbb` colour gives its three bytes, parsed from pairs 0-1, 2-3 and 4-5 of the part after '#'. |
| App.HexAComponentesDeBytes | scripts/app.js:69-77 | Writing three bytes as `#rrggbb` and parsing them gives the bytes back. |
| App.ComponentesYBorde | scripts/app.js:99-108 | A pad's paint components are the channels its border was brightened from. |
| App.LimpiarExtensionesPestana | scripts/app.js:124-133 | A tab keeps its id, name and pad count. Each pad changes only its `nombreArchivo`. |
| App.LimpiarExtensionesEstado | scripts/app.js:124-133 | Each tab is cleaned in place. The active id, the columns and the cursor stay. |
| App.LimpiarExtensionesConservaIds | scripts/app.js:124-133 | Tab and pad ids stay in place, so a well-formed or valid state stays so. |
| App.EstadoAsegurado | scripts/app.js:137-154 | The repaired state is well formed and a well-formed state is unchanged. A state without tabs becomes exactly the default initial project; otherwise the tabs are kept and an invalid active id becomes the first tab's id. |
| App.EstadoAseguradoValido | scripts/app.js:137-154 | The repair of a state with unique ids is valid. |
| App.Aplicacion.AsegurarEstadoValido | scripts/app.js:137-154 | The application state becomes its repair and is saved to local storage only when it changed. |
| App.EstadoDeArranque | scripts/app.js:53-135 | The start-up state, normalised from the persisted state or a fresh initial one and with names cleaned, is always well formed. |
| App.Aplicacion.constructor | scripts/app.js:53-135 | Start-up sets the application state to the start-up state, with no pad waiting for a file and nothing saved yet. |
| App.PestanaDePad | scripts/app.js:183-188 | The index of the first tab holding a pad with the id. |
| App.PrimerPad | scripts/app.js:160-166 | The index of the first pad with the id in a tab. |
| App.ObtenerPadPorId | scripts/app.js:160-166 | The lookup is null exactly when no pad has the id. Otherwise it is the first such pad, scanning tabs and then pads in order. |
| App.ObtenerIdPestanaDePad | scripts/app.js:183-188 | The id of the first tab holding the pad, or the active id when none does. |
| App.BuscarPadUnico | scripts/app.js:160-188 | With unique pad ids, both lookups find a pad and the tab that holds it. |
| App.VolumenPara | scripts/app.js:558-572 | A pad is ducked to 0.35 exactly when it has ducking on and a pad with another id is playing. Otherwise its volume is 1. |
| App.RecalcularDucking | scripts/app.js:558-572 | The nested loops push one volume per pad, in tab and pad order, each given by the ducking rule. |
| App.TodosLosPadsPrefijo | scripts/app.js:558-572 | The pads of the first `i + 1` tabs are the pads of the first `i` followed by tab `i`'s pads. |
| App.SinReproduccionSinDucking | scripts/app.js:558-572 | With nothing playing, no pad is ducked. |
| App.UnicoSonandoNoSeAtenua | scripts/app.js:558-572 | The only pad playing is never ducked by itself. Every other pad with ducking on is ducked. |
| App.DespachoClick | scripts/app.js:659-674 | An unknown pad leads to nothing and a pad without a file or needing a reload to a file prompt. Otherwise the pad is stopped when its audio is in progress and played when it is not. |
| App.Aplicacion.ManejarClickPad | scripts/app.js:659-674 | The click leads to the dispatched action. Only a file prompt records the pad as waiting for a file, and the project state is untouched. |
| App.ClickEnPadNuevo | scripts/app.js:659-674 | Clicking a pad just added with a fresh id always asks for a file. |

## Left out

- DOM rendering, event wiring, prompts, alerts and scrolling in `app.js` are user interface.
- `audioControl.js` is not part of this model: a wrapper over the audio element with fades driven by animation frames and floating-point time.
- Playing and stopping audio are left out, along with the timers, the end-of-track handler and the async play/stop sequencing in `app.js`. `App.Aplicacion.ManejarClickPad` returns the action and stops there. `App.RecalcularDucking` returns the volumes instead of setting them on audio elements.
- The angle and luminance helpers (`calcularAnguloRestante`, `colorTextoContraste`) are floating point.
- IndexedDB opening, requests, transactions and their failures are not modelled. The store is the map it maintains, and each operation is applied atomically.
- `localStorage` and `JSON.stringify`/`JSON.parse` are outside the model. Saving is a field holding the last saved state. Reading the exported file back (`Almacenamiento.Releido`) is taken to return the data that was written. Corrupt JSON, and fields of the wrong JSON type other than the `audios` list, are not modelled.
- Id generation (`crypto.randomUUID`, `Date.now`, `Math.random`) is replaced by ids passed in, and the export timestamp `creadoEn` is left out.
- `FileReader`, `Blob.arrayBuffer()`, the download link and `archivo.text()` are left out. A blob is its bytes and type. The lower-casing or clearing of a blob's MIME type by the `Blob` constructor is not modelled.
- Texto.ParseIntHex: leading whitespace, a sign and a "0x" prefix are not modelled. The colours it reads never contain them.
- Estado.Reproduccion: `duracionTotal` and `tiempoRestante` are whole seconds (`nat`). The source stores the audio element's floating-point `duration` and the remaining time derived from it.
- Estado.FormatearTiempo: takes whole seconds. Non-finite and fractional inputs are left out.
- Estado.NormalizarEstado: an absent or non-finite number is `None`. Any present integer is kept as the source keeps any finite number.
- Estado.CrearEstadoInicial: requires at least one tab, because the source reads `pestañas[0]` and throws for zero.
- Estado.AgregarPad: requires a non-negative colour cursor. For a negative cursor `paletaColores[indiceColor % 51]` is `undefined` and `calcularBorde` throws; a stored negative cursor survives normalisation, so that throw is reachable in the source and is not modelled.
- Estado.AgregarPestana: requires a non-negative colour cursor, for the same reason as `Estado.AgregarPad` (its new pad is built the same way).
- Estado.EliminarPestana: requires that some tab survives when the removed id is active. Otherwise `restantes[0].idPestana` throws in the source; a valid state always meets this (`Estado.EliminarPestanaPreservaValido`).
- `tests/creacionPads.test.js:13` expects 5 pads after 5 additions to a one-tab initial state. The code already seeds one pad, so the count is 6. The model follows the code (`Estado.AgregarPadsCuenta`).
- Almacenamiento.AlmacenAudios.GuardarAudiosImportados: the exception `atob` throws is a `false` result. A `base64` or `idPad` that is not a string is not modelled.
- The ids `AlmacenAudios` stores are the source's `idPad` key path. Records are only ever written under their own id, an invariant the class keeps (`Valido`).
