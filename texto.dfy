/** The handful of JavaScript string and number primitives the soundboard
    relies on, written out: `Number.prototype.toString` on non-negative
    integers, `padStart(2, "0")`, `parseInt(s, 16)`, `substring` and the
    first-occurrence `replace`. Each rendering function has a reading
    function beside it and a lemma that reading gives the value back. */
module Texto {
  import opened Wrappers

  /** A colour channel as `parseInt` yields it: `None` stands for `NaN`. */
  type Canal = Option<nat>

  // ---------------------------------------------------------------------
  // Decimal digits
  // ---------------------------------------------------------------------

  predicate EsDigito(c: char) {
    '0' <= c <= '9'
  }

  predicate SoloDigitos(s: string) {
    forall i :: 0 <= i < |s| ==> EsDigito(s[i])
  }

  function DigitoDecimal(d: nat): (c: char)
    requires d < 10
    ensures EsDigito(c)
  {
    ('0' as int + d) as char
  }

  function ValorDigito(c: char): (d: nat)
    requires EsDigito(c)
    ensures d < 10
  {
    c as int - '0' as int
  }

  /** `n.toString()` for a non-negative integer: most significant digit first. */
  function NatADecimal(n: nat): (s: string)
    ensures |s| >= 1 && SoloDigitos(s)
    ensures n < 10 <==> |s| == 1
  {
    if n < 10 then [DigitoDecimal(n)] else NatADecimal(n / 10) + [DigitoDecimal(n % 10)]
  }

  /** Numbers below 100 take at most two digits. */
  lemma NatADecimalCorto(n: nat)
    ensures n < 100 ==> |NatADecimal(n)| <= 2
  {
    if 10 <= n < 100 {
      assert n / 10 < 10;
      assert |NatADecimal(n)| == |NatADecimal(n / 10)| + 1;
    }
  }

  /** The number a string of decimal digits denotes (leading zeros allowed). */
  function ValorDecimal(s: string): nat
    requires SoloDigitos(s)
  {
    if s == [] then 0 else ValorDecimal(s[..|s| - 1]) * 10 + ValorDigito(s[|s| - 1])
  }

  lemma {:induction false} ValorDeNatADecimal(n: nat)
    ensures ValorDecimal(NatADecimal(n)) == n
  {
    var s := NatADecimal(n);
    if n >= 10 {
      ValorDeNatADecimal(n / 10);
      assert s[..|s| - 1] == NatADecimal(n / 10);
    }
  }

  /** Distinct numbers render as distinct strings. */
  lemma NatADecimalInyectiva(m: nat, n: nat)
    requires NatADecimal(m) == NatADecimal(n)
    ensures m == n
  {
    ValorDeNatADecimal(m);
    ValorDeNatADecimal(n);
  }

  /** `s.padStart(2, "0")`. */
  function RellenarDos(s: string): (r: string)
    ensures |r| == if |s| < 2 then 2 else |s|
    ensures r[|r| - |s|..] == s
    ensures forall i :: 0 <= i < |r| - |s| ==> r[i] == '0'
  {
    if |s| == 0 then "00" else if |s| == 1 then "0" + s else s
  }

  lemma {:induction false} ValorConCeroInicial(s: string)
    requires SoloDigitos(s)
    ensures SoloDigitos("0" + s) && ValorDecimal("0" + s) == ValorDecimal(s)
  {
    if s != [] {
      var t := "0" + s;
      assert t[..|t| - 1] == "0" + s[..|s| - 1];
      ValorConCeroInicial(s[..|s| - 1]);
    }
  }

  /** Padding with zeros does not change the number a digit string denotes. */
  lemma ValorRellenado(s: string)
    requires SoloDigitos(s)
    ensures SoloDigitos(RellenarDos(s)) && ValorDecimal(RellenarDos(s)) == ValorDecimal(s)
  {
    if |s| == 0 {
      assert ValorDecimal("0") == 0 by { assert "0"[..0] == ""; }
      assert "00"[..1] == "0";
    } else if |s| == 1 {
      ValorConCeroInicial(s);
    }
  }

  // ---------------------------------------------------------------------
  // Reading a decimal number back
  // ---------------------------------------------------------------------

  /** Length of the run of decimal digits that starts `s`. */
  function LongitudDigitos(s: string): nat {
    if s == [] || !EsDigito(s[0]) then 0 else 1 + LongitudDigitos(s[1..])
  }

  /** The run is a prefix of `s` made of decimal digits, and it stops at the
      first character that is not one. */
  lemma {:induction false} LongitudDigitosPrefijo(s: string)
    ensures LongitudDigitos(s) <= |s| && SoloDigitos(s[..LongitudDigitos(s)])
    ensures LongitudDigitos(s) < |s| ==> !EsDigito(s[LongitudDigitos(s)])
  {
    if s != [] && EsDigito(s[0]) {
      LongitudDigitosPrefijo(s[1..]);
      var k := LongitudDigitos(s);
      assert s[..k] == [s[0]] + s[1..][..k - 1];
    }
  }

  /** Reads the leading decimal number of `s` and returns it with the rest. */
  function LeerNatural(s: string): (r: Option<(nat, string)>)
    ensures r.None? <==> (s == [] || !EsDigito(s[0]))
  {
    var k := LongitudDigitos(s);
    LongitudDigitosPrefijo(s);
    if k == 0 then None else Some((ValorDecimal(s[..k]), s[k..]))
  }

  lemma {:induction false} LongitudDigitosDe(d: string, resto: string)
    requires SoloDigitos(d)
    requires resto == [] || !EsDigito(resto[0])
    ensures LongitudDigitos(d + resto) == |d|
  {
    if d != [] {
      assert (d + resto)[1..] == d[1..] + resto;
      LongitudDigitosDe(d[1..], resto);
    }
  }

  /** Reading a run of digits followed by a non-digit gives back its value and the rest. */
  lemma LeerDigitos(d: string, resto: string)
    requires d != [] && SoloDigitos(d)
    requires resto == [] || !EsDigito(resto[0])
    ensures LeerNatural(d + resto) == Some((ValorDecimal(d), resto))
  {
    LongitudDigitosDe(d, resto);
    assert (d + resto)[..|d|] == d;
    assert (d + resto)[|d|..] == resto;
  }

  /** The number `n.toString()` reads back as `n`, also after `padStart(2, "0")`. */
  lemma LeerNatADecimal(n: nat, resto: string)
    requires resto == [] || !EsDigito(resto[0])
    ensures LeerNatural(NatADecimal(n) + resto) == Some((n, resto))
    ensures LeerNatural(RellenarDos(NatADecimal(n)) + resto) == Some((n, resto))
  {
    ValorDeNatADecimal(n);
    LeerDigitos(NatADecimal(n), resto);
    ValorRellenado(NatADecimal(n));
    LeerDigitos(RellenarDos(NatADecimal(n)), resto);
  }

  /** Reads the leading decimal number of `s` (padded or not) and then the
      separator `sep`, returning the number and what follows. */
  function LeerNaturalYSeparador(s: string, sep: string): Option<(nat, string)> {
    match LeerNatural(s)
    case None => None
    case Some((n, resto)) =>
      if |resto| >= |sep| && resto[..|sep|] == sep then Some((n, resto[|sep|..])) else None
  }

  /** A run of digits followed by a separator that does not start with a
      digit reads back as the run's value and what follows the separator. */
  lemma LeerDigitosYSeparador(d: string, sep: string, resto: string)
    requires d != [] && SoloDigitos(d)
    requires sep != [] && !EsDigito(sep[0])
    ensures LeerNaturalYSeparador(d + sep + resto, sep) == Some((ValorDecimal(d), resto))
  {
    assert d + sep + resto == d + (sep + resto);
    LeerDigitos(d, sep + resto);
    assert (sep + resto)[..|sep|] == sep && (sep + resto)[|sep|..] == resto;
  }

  /** A number written by `toString` and followed by a separator that does
      not start with a digit reads back. */
  lemma LeerNaturalYSeparadorDe(n: nat, sep: string, resto: string)
    requires sep != [] && !EsDigito(sep[0])
    ensures LeerNaturalYSeparador(NatADecimal(n) + sep + resto, sep) == Some((n, resto))
  {
    ValorDeNatADecimal(n);
    LeerDigitosYSeparador(NatADecimal(n), sep, resto);
  }

  /** The same after `padStart(2, "0")`. */
  lemma LeerRellenadoYSeparadorDe(n: nat, sep: string, resto: string)
    requires sep != [] && !EsDigito(sep[0])
    ensures LeerNaturalYSeparador(RellenarDos(NatADecimal(n)) + sep + resto, sep) == Some((n, resto))
  {
    ValorDeNatADecimal(n);
    ValorRellenado(NatADecimal(n));
    LeerDigitosYSeparador(RellenarDos(NatADecimal(n)), sep, resto);
  }

  // ---------------------------------------------------------------------
  // Hexadecimal digits and parseInt(s, 16)
  // ---------------------------------------------------------------------

  predicate EsHex(c: char) {
    '0' <= c <= '9' || 'a' <= c <= 'f' || 'A' <= c <= 'F'
  }

  function ValorHexDigito(c: char): (d: nat)
    requires EsHex(c)
    ensures d < 16
  {
    if '0' <= c <= '9' then c as int - '0' as int
    else if 'a' <= c <= 'f' then c as int - 'a' as int + 10
    else c as int - 'A' as int + 10
  }

  /** The lower-case hexadecimal digit of `d`. */
  function DigitoHex(d: nat): (c: char)
    requires d < 16
    ensures EsHex(c) && ValorHexDigito(c) == d
  {
    if d < 10 then ('0' as int + d) as char else ('a' as int + d - 10) as char
  }

  predicate SoloHex(s: string) {
    forall i :: 0 <= i < |s| ==> EsHex(s[i])
  }

  function ValorHex(s: string): nat
    requires SoloHex(s)
  {
    if s == [] then 0 else ValorHex(s[..|s| - 1]) * 16 + ValorHexDigito(s[|s| - 1])
  }

  /** Length of the run of hexadecimal digits that starts `s`. */
  function LongitudHex(s: string): nat {
    if s == [] || !EsHex(s[0]) then 0 else 1 + LongitudHex(s[1..])
  }

  /** The run is a prefix of `s` made of hexadecimal digits, and it stops at
      the first character that is not one. (A lemma rather than a contract
      on the function, so that it is not unfolded wherever a colour is.) */
  lemma {:induction false} LongitudHexPrefijo(s: string)
    ensures LongitudHex(s) <= |s| && SoloHex(s[..LongitudHex(s)])
    ensures LongitudHex(s) < |s| ==> !EsHex(s[LongitudHex(s)])
  {
    if s != [] && EsHex(s[0]) {
      LongitudHexPrefijo(s[1..]);
      var k := LongitudHex(s);
      assert s[..k] == [s[0]] + s[1..][..k - 1];
    }
  }

  /** `parseInt(s, 16)`: the value of the leading run of hexadecimal digits,
      `NaN` (here `None`) when `s` does not start with one. */
  function ParseIntHex(s: string): (r: Canal)
    ensures r.None? <==> (s == [] || !EsHex(s[0]))
  {
    var k := LongitudHex(s);
    LongitudHexPrefijo(s);
    if k == 0 then None else Some(ValorHex(s[..k]))
  }

  /** A byte as two lower-case hexadecimal digits. */
  function HexDosDigitos(b: nat): (s: string)
    requires b < 256
    ensures |s| == 2 && SoloHex(s)
  {
    [DigitoHex(b / 16), DigitoHex(b % 16)]
  }

  /** `parseInt` reads a byte's two hexadecimal digits back as that byte. */
  lemma ParseIntHexDosDigitos(b: nat)
    requires b < 256
    ensures ParseIntHex(HexDosDigitos(b)) == Some(b)
  {
    var s := HexDosDigitos(b);
    assert LongitudHex(s[1..]) == 1 by { assert s[1..][1..] == []; }
    assert LongitudHex(s) == 2;
    assert s[..2] == s && s[..1] == [s[0]] && s[..0] == [];
    assert ValorHex(s) == ValorHex(s[..1]) * 16 + ValorHexDigito(s[1]);
    assert ValorHex(s[..1]) == ValorHexDigito(s[0]);
  }

  // ---------------------------------------------------------------------
  // substring and replace
  // ---------------------------------------------------------------------

  /** Concatenation regrouped, as one step a proof can name. */
  lemma Asociar<T>(a: seq<T>, b: seq<T>, c: seq<T>)
    ensures a + b + c == a + (b + c)
  {
  }

  /** `s.substring(i, j)` for `i <= j`: both ends are clamped to the length. */
  function Subcadena(s: string, i: nat, j: nat): (r: string)
    requires i <= j
    ensures |r| <= j - i
    ensures j <= |s| ==> r == s[i..j]
  {
    var a := if i <= |s| then i else |s|;
    var b := if j <= |s| then j else |s|;
    s[a..b]
  }

  /** `s.replace(c, "")` with a one-character string pattern: only the first
      occurrence is removed (`QuitarPrimeroPosicion`). */
  function QuitarPrimero(s: string, c: char): (r: string)
    ensures c !in s ==> r == s
    ensures c in s ==> |r| == |s| - 1
    ensures |s| > 0 && s[0] == c ==> r == s[1..]
  {
    if s == [] then []
    else if s[0] == c then s[1..]
    else [s[0]] + QuitarPrimero(s[1..], c)
  }

  /** Index of the first `c` in `s`, `|s|` when there is none (`indexOf`). */
  function PrimeraPosicion(s: string, c: char): (i: nat)
    ensures i <= |s| && forall j :: 0 <= j < i ==> s[j] != c
    ensures i < |s| ==> s[i] == c
  {
    if s == [] || s[0] == c then 0 else 1 + PrimeraPosicion(s[1..], c)
  }

  /** What `replace` removes is exactly the first occurrence: the result is
      the text before it followed by the text after it. (A lemma rather than
      a contract on the function, so that it is not unfolded wherever a
      colour is read.) */
  lemma {:induction false} QuitarPrimeroPosicion(s: string, c: char)
    ensures var i := PrimeraPosicion(s, c);
      (i == |s| <==> c !in s)
      && (i < |s| ==> QuitarPrimero(s, c) == s[..i] + s[i + 1..])
  {
    if s != [] && s[0] != c {
      var u := s[1..];
      QuitarPrimeroPosicion(u, c);
      var k := PrimeraPosicion(u, c);
      assert s == [s[0]] + u;
      if k < |u| {
        PartirTrasCabeza(s[0], u, k);
        Asociar([s[0]], u[..k], u[k + 1..]);
      }
    }
  }

  lemma PartirTrasCabeza<T>(x: T, u: seq<T>, k: nat)
    requires k < |u|
    ensures ([x] + u)[..k + 1] == [x] + u[..k] && ([x] + u)[k + 2..] == u[k + 1..]
  {
  }
}
