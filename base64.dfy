/** The base64 codec the configuration file uses for audio buffers
    (scripts/almacenamiento.js). `btoa` encodes a byte string with the
    alphabet and padding of section 4 of RFC 4648; `atob` decodes with the
    forgiving-base64 rules of the HTML standard: ASCII whitespace is ignored,
    one or two trailing `=` may be dropped, leftover bits are discarded.
    A byte string is a string whose characters all have codes below 256. */
module Base64 {
  import opened Wrappers

  /** An element of a `Uint8Array`. */
  type Byte = x: int | 0 <= x < 256

  // ---------------------------------------------------------------------
  // The alphabet
  // ---------------------------------------------------------------------

  /** The character of a six-bit value: A-Z, a-z, 0-9, '+', '/'. */
  function CaracterBase64(v: nat): (c: char)
    requires v < 64
    ensures c != '='
  {
    if v < 26 then ('A' as int + v) as char
    else if v < 52 then ('a' as int + (v - 26)) as char
    else if v < 62 then ('0' as int + (v - 52)) as char
    else if v == 62 then '+'
    else '/'
  }

  /** The six-bit value of an alphabet character; `None` for any other
      character, `=` included. */
  function ValorBase64(c: char): (r: Option<nat>)
    ensures r.Some? ==> r.value < 64 && CaracterBase64(r.value) == c
    ensures c == '=' ==> r.None?
  {
    if 'A' <= c <= 'Z' then Some(c as int - 'A' as int)
    else if 'a' <= c <= 'z' then Some(c as int - 'a' as int + 26)
    else if '0' <= c <= '9' then Some(c as int - '0' as int + 52)
    else if c == '+' then Some(62)
    else if c == '/' then Some(63)
    else None
  }

  /** Every six-bit value has exactly one character. */
  lemma ValorDeCaracter(v: nat)
    requires v < 64
    ensures ValorBase64(CaracterBase64(v)) == Some(v)
  {
  }

  predicate SoloAlfabeto(s: string) {
    forall i :: 0 <= i < |s| ==> ValorBase64(s[i]).Some?
  }

  function Valor(c: char): (v: nat)
    requires ValorBase64(c).Some?
    ensures v < 64
  {
    ValorBase64(c).value
  }

  // ---------------------------------------------------------------------
  // Byte strings
  // ---------------------------------------------------------------------

  /** `String.fromCharCode` of every byte, concatenated. */
  function ABinario(bs: seq<Byte>): (s: string)
    ensures |s| == |bs| && forall i :: 0 <= i < |bs| ==> s[i] as int == bs[i]
  {
    seq(|bs|, i requires 0 <= i < |bs| => bs[i] as char)
  }

  predicate EsBinaria(s: string) {
    forall i :: 0 <= i < |s| ==> s[i] as int < 256
  }

  /** `charCodeAt` of every character of a byte string. */
  function Codigos(s: string): (bs: seq<Byte>)
    requires EsBinaria(s)
    ensures |bs| == |s| && forall i :: 0 <= i < |s| ==> bs[i] == s[i] as int
  {
    seq(|s|, i requires 0 <= i < |s| => s[i] as int)
  }

  lemma CodigosDeBinario(bs: seq<Byte>)
    ensures EsBinaria(ABinario(bs)) && Codigos(ABinario(bs)) == bs
  {
  }

  // ---------------------------------------------------------------------
  // Encoding (btoa)
  // ---------------------------------------------------------------------

  /** The four characters of three bytes: six bits each, high bits first. */
  function Grupo(a: Byte, b: Byte, c: Byte): (g: string)
    ensures |g| == 4 && SoloAlfabeto(g)
  {
    [CaracterBase64(a / 4), CaracterBase64(a % 4 * 16 + b / 16),
     CaracterBase64(b % 16 * 4 + c / 64), CaracterBase64(c % 64)]
  }

  /** The unpadded encoding: four characters per three bytes, then two
      characters for a single leftover byte or three for two leftover bytes,
      the unused low bits set to zero. */
  function CodificarSinRelleno(bs: seq<Byte>): (s: string)
    ensures |s| == (4 * |bs| + 2) / 3 && SoloAlfabeto(s)
    decreases |bs|
  {
    if |bs| >= 3 then
      LongitudSinRellenoPaso(|bs|);
      Grupo(bs[0], bs[1], bs[2]) + CodificarSinRelleno(bs[3..])
    else if |bs| == 2 then
      [CaracterBase64(bs[0] / 4), CaracterBase64(bs[0] % 4 * 16 + bs[1] / 16),
       CaracterBase64(bs[1] % 16 * 4)]
    else if |bs| == 1 then
      [CaracterBase64(bs[0] / 4), CaracterBase64(bs[0] % 4 * 16)]
    else []
  }

  /** Three more bytes make four more characters. */
  lemma LongitudSinRellenoPaso(n: nat)
    requires n >= 3
    ensures (4 * n + 2) / 3 == 4 + (4 * (n - 3) + 2) / 3
  {
    assert 4 * n + 2 == 3 * 4 + (4 * (n - 3) + 2);
  }

  /** The `=` characters that complete the last group of four. */
  function Relleno(n: nat): (s: string)
    ensures |s| == (3 - n % 3) % 3 && forall i :: 0 <= i < |s| ==> s[i] == '='
  {
    if n % 3 == 1 then "==" else if n % 3 == 2 then "=" else ""
  }

  /** The padded encoding of section 4 of RFC 4648: its length is a multiple
      of four, four characters for every started group of three bytes. */
  function Codificar(bs: seq<Byte>): (s: string)
    ensures |s| == 4 * ((|bs| + 2) / 3) && |s| % 4 == 0
  {
    LongitudCodificada(|bs|);
    CodificarSinRelleno(bs) + Relleno(|bs|)
  }

  /** Unpadded length plus padding is four per started group of three. */
  lemma LongitudCodificada(n: nat)
    ensures (4 * n + 2) / 3 + (3 - n % 3) % 3 == 4 * ((n + 2) / 3)
    ensures 4 * ((n + 2) / 3) % 4 == 0
  {
    var q, r := n / 3, n % 3;
    assert n == 3 * q + r;
    assert 4 * n + 2 == 3 * (4 * q) + (4 * r + 2);
    assert (4 * n + 2) / 3 == 4 * q + (4 * r + 2) / 3;
    assert n + 2 == 3 * q + (r + 2);
    assert (n + 2) / 3 == q + (r + 2) / 3;
  }

  /** `btoa`: encodes a byte string; a character above 255 makes it throw
      (`None`). */
  function Btoa(s: string): (r: Option<string>)
    ensures r.None? <==> !EsBinaria(s)
  {
    if EsBinaria(s) then Some(Codificar(Codigos(s))) else None
  }

  // ---------------------------------------------------------------------
  // Decoding (atob)
  // ---------------------------------------------------------------------

  /** TAB, LF, FF, CR and SPACE. */
  predicate EsEspacioAscii(c: char) {
    c == '\t' || c == '\n' || c == '\U{C}' || c == '\r' || c == ' '
  }

  function SinEspacios(s: string): (r: string)
    ensures |r| <= |s|
    ensures forall c :: c in r <==> c in s && !EsEspacioAscii(c)
  {
    if s == [] then []
    else if EsEspacioAscii(s[0]) then SinEspacios(s[1..])
    else [s[0]] + SinEspacios(s[1..])
  }

  /** When the length is a multiple of four, one or two trailing `=` go. */
  function QuitarRelleno(s: string): (r: string)
    ensures |s| % 4 != 0 ==> r == s
    ensures r <= s && |s| - 2 <= |r|
  {
    if |s| % 4 == 0 && |s| >= 2 && s[|s| - 2] == '=' && s[|s| - 1] == '=' then s[..|s| - 2]
    else if |s| % 4 == 0 && |s| >= 1 && s[|s| - 1] == '=' then s[..|s| - 1]
    else s
  }

  /** The bytes of up to four alphabet characters: 24, 18 or 12 bits of
      which the whole bytes are kept. */
  function DecodificarGrupos(s: string): (bs: seq<Byte>)
    requires SoloAlfabeto(s) && |s| % 4 != 1
    ensures |bs| == |s| * 3 / 4
    decreases |s|
  {
    if |s| >= 4 then
      var v0, v1, v2, v3 := Valor(s[0]), Valor(s[1]), Valor(s[2]), Valor(s[3]);
      [v0 * 4 + v1 / 16, v1 % 16 * 16 + v2 / 4, v2 % 4 * 64 + v3] + DecodificarGrupos(s[4..])
    else if |s| == 3 then
      var v0, v1, v2 := Valor(s[0]), Valor(s[1]), Valor(s[2]);
      [v0 * 4 + v1 / 16, v1 % 16 * 16 + v2 / 4]
    else if |s| == 2 then
      [Valor(s[0]) * 4 + Valor(s[1]) / 16]
    else []
  }

  /** `atob`: the byte string a forgiving-base64 text stands for; `None`
      where `atob` throws (a length of 4k+1 after dropping whitespace and
      padding, or a character outside the alphabet). */
  function Atob(entrada: string): (r: Option<string>)
    ensures r.Some? ==> EsBinaria(r.value)
  {
    var s := QuitarRelleno(SinEspacios(entrada));
    if |s| % 4 == 1 || !SoloAlfabeto(s) then None
    else Some(ABinario(DecodificarGrupos(s)))
  }

  /** The bytes `base64ABuffer` produces from a text, or `None` when `atob` throws. */
  function DecodificarBase64(cadena: string): (r: Option<seq<Byte>>)
    ensures r.Some? <==> Atob(cadena).Some?
    ensures r.Some? ==> |r.value| == |Atob(cadena).value|
  {
    match Atob(cadena)
    case None => None
    case Some(binario) => Some(Codigos(binario))
  }

  // ---------------------------------------------------------------------
  // The round trip
  // ---------------------------------------------------------------------

  lemma TresBytes(a: Byte, b: Byte, c: Byte)
    ensures var v0, v1, v2, v3 := a / 4, a % 4 * 16 + b / 16, b % 16 * 4 + c / 64, c % 64;
      && v0 * 4 + v1 / 16 == a && v1 % 16 * 16 + v2 / 4 == b && v2 % 4 * 64 + v3 == c
  {
  }

  /** The four characters of three bytes decode to those bytes. */
  lemma GrupoDecodificado(a: Byte, b: Byte, c: Byte)
    ensures var g := Grupo(a, b, c);
      && Valor(g[0]) * 4 + Valor(g[1]) / 16 == a
      && Valor(g[1]) % 16 * 16 + Valor(g[2]) / 4 == b
      && Valor(g[2]) % 4 * 64 + Valor(g[3]) == c
  {
    TresBytes(a, b, c);
    ValorDeCaracter(a / 4);
    ValorDeCaracter(a % 4 * 16 + b / 16);
    ValorDeCaracter(b % 16 * 4 + c / 64);
    ValorDeCaracter(c % 64);
  }

  /** An unpadded encoding is never one character past a group of four. */
  lemma LongitudSinRelleno(n: nat)
    ensures (4 * n + 2) / 3 % 4 != 1
  {
    var k, r := n / 3, n % 3;
    assert 4 * n + 2 == 3 * (4 * k) + (4 * r + 2);
    assert (4 * n + 2) / 3 == 4 * k + (4 * r + 2) / 3;
  }

  /** Decoding the unpadded encoding gives the bytes back. */
  lemma {:induction false} DecodificarCodificarSinRelleno(bs: seq<Byte>)
    ensures |CodificarSinRelleno(bs)| % 4 != 1
    ensures DecodificarGrupos(CodificarSinRelleno(bs)) == bs
    decreases |bs|
  {
    LongitudSinRelleno(|bs|);
    if |bs| >= 3 {
      DecodificarCodificarSinRelleno(bs[3..]);
      PrimerGrupoDecodificado(bs);
      assert bs == bs[..3] + bs[3..];
    } else if |bs| == 2 {
      assert bs == [bs[0], bs[1]];
      DosBytesDecodificados(bs[0], bs[1]);
    } else if |bs| == 1 {
      assert bs == [bs[0]];
      UnByteDecodificado(bs[0]);
    }
  }

  /** The first three bytes come back from the first four characters. */
  lemma PrimerGrupoDecodificado(bs: seq<Byte>)
    requires |bs| >= 3 && |CodificarSinRelleno(bs[3..])| % 4 != 1
    ensures |CodificarSinRelleno(bs)| % 4 != 1
    ensures DecodificarGrupos(CodificarSinRelleno(bs)) == bs[..3] + DecodificarGrupos(CodificarSinRelleno(bs[3..]))
  {
    var a, b, c := bs[0], bs[1], bs[2];
    GrupoDecodificado(a, b, c);
    DecodificarTrasGrupo(Grupo(a, b, c), CodificarSinRelleno(bs[3..]), a, b, c);
    assert bs[..3] == [a, b, c];
  }

  /** A group of four that decodes to `a, b, c`, followed by more text. */
  lemma DecodificarTrasGrupo(g: string, resto: string, a: Byte, b: Byte, c: Byte)
    requires |g| == 4 && SoloAlfabeto(g) && SoloAlfabeto(resto) && |resto| % 4 != 1
    requires Valor(g[0]) * 4 + Valor(g[1]) / 16 == a
    requires Valor(g[1]) % 16 * 16 + Valor(g[2]) / 4 == b
    requires Valor(g[2]) % 4 * 64 + Valor(g[3]) == c
    ensures SoloAlfabeto(g + resto) && |g + resto| % 4 != 1
    ensures DecodificarGrupos(g + resto) == [a, b, c] + DecodificarGrupos(resto)
  {
    var s := g + resto;
    assert s[4..] == resto;
    assert s[0] == g[0] && s[1] == g[1] && s[2] == g[2] && s[3] == g[3];
    DecodificarCuatro(s);
  }

  lemma DecodificarCuatro(s: string)
    requires |s| >= 4 && SoloAlfabeto(s) && |s| % 4 != 1
    ensures DecodificarGrupos(s) ==
      [Valor(s[0]) * 4 + Valor(s[1]) / 16, Valor(s[1]) % 16 * 16 + Valor(s[2]) / 4, Valor(s[2]) % 4 * 64 + Valor(s[3])]
      + DecodificarGrupos(s[4..])
  {
  }

  lemma DecodificarTres(s: string)
    requires |s| == 3 && SoloAlfabeto(s)
    ensures DecodificarGrupos(s) == [Valor(s[0]) * 4 + Valor(s[1]) / 16, Valor(s[1]) % 16 * 16 + Valor(s[2]) / 4]
  {
  }

  lemma DecodificarDos(s: string)
    requires |s| == 2 && SoloAlfabeto(s)
    ensures DecodificarGrupos(s) == [Valor(s[0]) * 4 + Valor(s[1]) / 16]
  {
  }

  /** Two leftover bytes: three characters, which decode to them. */
  lemma DosBytesDecodificados(a: Byte, b: Byte)
    ensures DecodificarGrupos(CodificarSinRelleno([a, b])) == [a, b]
  {
    var x, y, z := a / 4, a % 4 * 16 + b / 16, b % 16 * 4;
    CodificarDos(a, b);
    ValorDeCaracter(x);
    ValorDeCaracter(y);
    ValorDeCaracter(z);
    DecodificarTres([CaracterBase64(x), CaracterBase64(y), CaracterBase64(z)]);
    DosBytesAritmetica(a, b);
  }

  lemma CodificarDos(a: Byte, b: Byte)
    ensures CodificarSinRelleno([a, b]) ==
      [CaracterBase64(a / 4), CaracterBase64(a % 4 * 16 + b / 16), CaracterBase64(b % 16 * 4)]
  {
  }

  lemma DosBytesAritmetica(a: Byte, b: Byte)
    ensures a / 4 * 4 + (a % 4 * 16 + b / 16) / 16 == a
    ensures (a % 4 * 16 + b / 16) % 16 * 16 + b % 16 * 4 / 4 == b
  {
  }

  /** One leftover byte: two characters, which decode to it. */
  lemma UnByteDecodificado(a: Byte)
    ensures DecodificarGrupos(CodificarSinRelleno([a])) == [a]
  {
    var s := CodificarSinRelleno([a]);
    ValorDeCaracter(a / 4);
    ValorDeCaracter(a % 4 * 16);
    assert s == [CaracterBase64(a / 4), CaracterBase64(a % 4 * 16)];
    DecodificarDos(s);
  }

  lemma {:induction false} SinEspaciosIdentidad(s: string)
    requires SoloAlfabeto(s)
    ensures SinEspacios(s) == s
  {
    if s != [] {
      SinEspaciosIdentidad(s[1..]);
      assert [s[0]] + s[1..] == s;
    }
  }

  /** The padded encoding drops its padding in `atob` and nothing else. */
  lemma QuitarRellenoCodificar(bs: seq<Byte>)
    ensures QuitarRelleno(Codificar(bs)) == CodificarSinRelleno(bs)
  {
    var x := CodificarSinRelleno(bs);
    var s := Codificar(bs);
    if |bs| % 3 == 1 {
      assert s[..|s| - 2] == x;
    } else if |bs| % 3 == 2 {
      assert s[|s| - 2] == x[|x| - 1];
      assert ValorBase64(x[|x| - 1]).Some?;
      assert s[..|s| - 1] == x;
    } else {
      assert s == x;
      if |s| > 0 {
        assert ValorBase64(s[|s| - 1]).Some?;
      }
    }
  }

  /** `atob(btoa(x)) === x` for every byte string. */
  lemma AtobCodificar(bs: seq<Byte>)
    ensures Atob(Codificar(bs)) == Some(ABinario(bs))
  {
    var s := Codificar(bs);
    SinEspaciosIdentidad(CodificarSinRelleno(bs));
    QuitarRellenoCodificar(bs);
    SinEspaciosCodificar(bs);
    DecodificarCodificarSinRelleno(bs);
  }

  lemma SinEspaciosCodificar(bs: seq<Byte>)
    ensures SinEspacios(Codificar(bs)) == Codificar(bs)
  {
    var x, p := CodificarSinRelleno(bs), Relleno(|bs|);
    SinEspaciosIdentidad(x);
    SinEspaciosConcat(x, p);
    assert SinEspacios(p) == p by {
      if p == "=" { assert p[1..] == []; }
      else if p == "==" { assert p[1..] == "=" && p[1..][1..] == []; }
    }
  }

  lemma {:induction false} SinEspaciosConcat(s: string, t: string)
    ensures SinEspacios(s + t) == SinEspacios(s) + SinEspacios(t)
  {
    if s == [] {
      assert s + t == t;
    } else {
      assert (s + t)[0] == s[0] && (s + t)[1..] == s[1..] + t;
      SinEspaciosConcat(s[1..], t);
    }
  }

  /** Every character that is not whitespace is kept as often as it occurs. */
  lemma {:induction false} SinEspaciosMultiset(s: string)
    ensures forall c :: multiset(SinEspacios(s))[c] == if EsEspacioAscii(c) then 0 else multiset(s)[c]
  {
    if s != [] {
      SinEspaciosMultiset(s[1..]);
      assert s == [s[0]] + s[1..];
    }
  }

  /** Whitespace anywhere in the input does not change what `atob` gives,
      so `"QU JD"` decodes as `"QUJD"`. */
  lemma AtobIgnoraEspacio(s: string, c: char, t: string)
    requires EsEspacioAscii(c)
    ensures Atob(s + [c] + t) == Atob(s + t)
  {
    SinEspaciosQuitaEspacio(s, c, t);
  }

  lemma SinEspaciosQuitaEspacio(s: string, c: char, t: string)
    requires EsEspacioAscii(c)
    ensures SinEspacios(s + [c] + t) == SinEspacios(s + t)
  {
    var x := s + [c];
    SinEspaciosConcat(x, t);
    SinEspaciosConcat(s, [c]);
    SinEspaciosConcat(s, t);
    SinEspaciosEspacio(c);
  }

  lemma SinEspaciosEspacio(c: char)
    requires EsEspacioAscii(c)
    ensures SinEspacios([c]) == []
  {
    assert [c][1..] == [];
  }

  /** Decoding what `bufferABase64` writes gives back the buffer's bytes. */
  lemma DecodificarCodificar(bs: seq<Byte>)
    ensures DecodificarBase64(Codificar(bs)) == Some(bs)
  {
    AtobCodificar(bs);
    CodigosDeBinario(bs);
  }

  /** `btoa` of the byte string of a buffer never throws and gives the
      padded encoding. */
  lemma BtoaBinario(bs: seq<Byte>)
    ensures Btoa(ABinario(bs)) == Some(Codificar(bs))
  {
    CodigosDeBinario(bs);
  }

  // ---------------------------------------------------------------------
  // The two helpers of scripts/almacenamiento.js
  // ---------------------------------------------------------------------

  /** `bufferABase64`: builds the byte string one character per byte, then
      encodes it. */
  method BufferABase64(buffer: seq<Byte>) returns (s: string)
    ensures s == Codificar(buffer)
    ensures DecodificarBase64(s) == Some(buffer)
  {
    var binario := "";
    for i := 0 to |buffer|
      invariant binario == ABinario(buffer[..i])
    {
      binario := binario + [buffer[i] as char];
    }
    assert buffer[..|buffer|] == buffer;
    BtoaBinario(buffer);
    s := Btoa(binario).value;
    DecodificarCodificar(buffer);
  }

  /** `base64ABuffer`: decodes with `atob`, then copies the character codes
      into a fresh `Uint8Array` of the decoded length; `None` where `atob`
      throws. */
  method Base64ABuffer(cadena: string) returns (r: Option<seq<Byte>>)
    ensures r == DecodificarBase64(cadena)
    ensures r.Some? ==> |r.value| == |Atob(cadena).value|
  {
    var decodificado := Atob(cadena);
    if decodificado.None? {
      return None;
    }
    var binario := decodificado.value;
    var bytes := new Byte[|binario|];
    for i := 0 to |binario|
      invariant forall j :: 0 <= j < i ==> bytes[j] == binario[j] as int
    {
      bytes[i] := binario[i] as int;
    }
    assert bytes[..] == Codigos(binario);
    r := Some(bytes[..]);
  }
}
