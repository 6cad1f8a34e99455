/**
 * pkg/gronsfeld: the Gronsfeld cipher on top of the tabula recta.
 *
 * `maketableau` builds a `TabulaRecta` keyed by the ten decimal digits whose
 * rows come from a generator: row `i` is the Caesar tableau with shift `i` over
 * the plaintext alphabet the table passes in. `Encipher` and `Decipher` stream
 * through it with the cipher's key as countersign and no autokey.
 *
 * The Caesar cipher itself (pkg/caesar over pkg/affine) is not part of this
 * model: `CaesarGenerator` states what its tableau is taken to be, the alphabet
 * paired with itself rotated left by the shift.
 */
module Gronsfeld {
  import opened Results
  import opened Runes
  import opened Substitution
  import opened Engine
  import opened Recta
  import Family
  import Vigenere

  datatype Cipher = Cipher(alphabet: seq<Rune>, caseless: bool, key: seq<Rune>, strict: bool)
  {
    /** The plaintext alphabet the table ends up with: `Alphabet` when none is set. */
    function Letters(): seq<Rune> {
      OrDefault(alphabet, Alphabet)
    }
  }

  /**
   * The row generator of `maketableau`: the Caesar tableau with shift `i` over
   * `s`, carrying the cipher's `Caseless` and `Strict` (both overwritten by the
   * table when it builds). It never reports an error.
   */
  function CaesarGenerator(caseless: bool, strict: bool): Generator
  {
    (s: seq<Rune>, i: nat) => Success(Tableau(Row(s, Rotate(s, i)), strict, caseless))
  }

  /**
   * `maketableau`: `NewTabulaRecta` over the cipher's alphabet with the digits as
   * key alphabet and the Caesar generator, then `Caseless` set on the result.
   * `Strict` is never set on the table. `NewTabulaRecta` never fails.
   */
  function MakeTableau(c: Cipher): (r: Result<TabulaRecta, Error>)
    ensures r.Success? && r.value.Buildable() && r.value.dictFunc.Some?
    ensures r.value.ptAlphabet == c.Letters() && r.value.KeyRunes() == Digits
    ensures r.value.caseless == c.caseless && !r.value.strict
  {
    var tr := NewTabulaRecta(c.alphabet, Digits, Some(CaesarGenerator(c.caseless, c.strict))).value;
    Success(tr.(caseless := c.caseless))
  }

  /** The rows the Gronsfeld table holds: shift `i` for digit `i`, never strict, caseless as the cipher. */
  function DigitRows(alphabet: seq<Rune>, caseless: bool): (rows: seq<Tableau>)
    ensures |rows| == |Digits|
  {
    seq(|Digits|, i requires 0 <= i < |Digits| => Tableau(Row(alphabet, Rotate(alphabet, i)), false, caseless))
  }

  /**
   * The table always builds: the digits are single-byte runes and the generator
   * never fails. Digit `i` gets the shift-`i` row; every row is non-strict
   * whatever the cipher's `Strict`, and caseless as the cipher.
   */
  lemma TableauBuilds(c: Cipher)
    ensures DictsFromFunc(MakeTableau(c).value) == Success(Tabulate(Digits, DigitRows(c.Letters(), c.caseless)))
  {
    DigitsFitBytes();
    CaesarRows(c.Letters(), c.caseless, c.strict);
  }

  /** The digits are one byte each, so they pass the row-header check. */
  lemma DigitsFitBytes()
    ensures ByteLength(Digits) == |Digits|
  {
    assert SingleByte(Digits);
    RuneCountIsByteLength(Digits);
  }

  /** Called for the ten digits, the Caesar generator yields the digit rows. */
  lemma CaesarRows(a: seq<Rune>, caseless: bool, strict: bool)
    ensures GeneratedRows(CaesarGenerator(caseless, strict), a, |Digits|, false, caseless) == Success(DigitRows(a, caseless))
  {
    var f := CaesarGenerator(caseless, strict);
    GeneratedFirstError(f, a, |Digits|, false, caseless);
    var g := GeneratedRows(f, a, |Digits|, false, caseless);
    assert g.Success?;
    assert g.value == DigitRows(a, caseless);
  }

  /** `Encipher(s)`: `s` streamed forward with the key and no callback; it never fails. */
  function Encipher(c: Cipher, s: seq<Rune>): (r: Result<seq<Rune>, Error>)
    requires c.key != [] || s == []
    ensures r.Success? && |r.value| == |s|
  {
    TableauBuilds(c);
    var t := MakeTableau(c).value;
    TranscodeOf(t, s, c.key, Forward, NoFeed)
  }

  /** `Decipher(s)`: `s` streamed backward with the key and no callback; it never fails. */
  function Decipher(c: Cipher, s: seq<Rune>): (r: Result<seq<Rune>, Error>)
    requires c.key != [] || s == []
    ensures r.Success? && |r.value| == |s|
  {
    TableauBuilds(c);
    var t := MakeTableau(c).value;
    TranscodeOf(t, s, c.key, Backward, NoFeed)
  }

  /**
   * The package enciphers and deciphers exactly as pasc.go's
   * `MakeGronsfeldCipher(c.key, alphabet)`, run non-strict whatever `c.strict`.
   */
  lemma AgreesWithPasc(c: Cipher, s: seq<Rune>, d: Direction)
    requires c.key != [] || s == []
    ensures (if d == Forward then Encipher(c, s) else Decipher(c, s))
            == Success(Run(Family.MakeGronsfeldCipher(c.key, c.Letters()), d, false, s).out)
  {
    TableauBuilds(c);
    DigitTable(c, d);
  }

  /** A key of decimal digits never selects a missing row. */
  lemma KeysFound(c: Cipher, s: seq<Rune>, d: Direction)
    requires c.key != [] || s == []
    requires forall j :: 0 <= j < |c.key| ==> c.key[j] in Digits
    ensures var p := Family.MakeGronsfeldCipher(c.key, c.Letters());
            var q := Run(p, d, false, s);
            && KeysHaveRows(p, q.keyRunes)
            && (q.keyRunes != [] ==> q.keyRunes[q.count % |q.keyRunes|] in p.table.ciphers)
  {
    KeysKeepRows(Family.MakeGronsfeldCipher(c.key, c.Letters()), d, false, s);
  }

  /** Stripped of its flags, the Gronsfeld table is the one pasc.go's `MakeGronsfeldCipher` fills. */
  lemma DigitTable(c: Cipher, d: Direction)
    ensures EngineCipher(MakeTableau(c).value, Tabulate(Digits, DigitRows(c.Letters(), c.caseless)), c.key, d, NoFeed)
            == Family.MakeGronsfeldCipher(c.key, c.Letters())
  {
    var a := c.Letters();
    var rows := DigitRows(a, c.caseless);
    RowsOfTabulate(Digits, rows);
    assert TableauRows(rows) == Family.ShiftRows(a, a, |Digits|);
  }

  /** The cipher's `Strict` has no effect: the table never passes it on to its rows. */
  lemma StrictIgnored(c: Cipher, s: seq<Rune>)
    requires c.key != [] || s == []
    ensures Encipher(c.(strict := true), s) == Encipher(c.(strict := false), s)
    ensures Decipher(c.(strict := true), s) == Decipher(c.(strict := false), s)
  {
    AgreesWithPasc(c.(strict := true), s, Forward);
    AgreesWithPasc(c.(strict := false), s, Forward);
    AgreesWithPasc(c.(strict := true), s, Backward);
    AgreesWithPasc(c.(strict := false), s, Backward);
  }

  /**
   * Over an alphabet without repeats, deciphering what was enciphered (and
   * enciphering what was deciphered) gives the text back.
   */
  lemma RoundTrip(c: Cipher, s: seq<Rune>)
    requires Distinct(c.Letters()) && c.key != []
    ensures Decipher(c, Encipher(c, s).value) == Success(s)
    ensures Encipher(c, Decipher(c, s).value) == Success(s)
  {
    var p := Family.MakeGronsfeldCipher(c.key, c.Letters());
    AgreesWithPasc(c, s, Forward);
    AgreesWithPasc(c, s, Backward);
    Engine.RoundTrip(p, Forward, false, s);
    Engine.RoundTrip(p, Backward, false, s);
    AgreesWithPasc(c, Run(p, Forward, false, s).out, Backward);
    AgreesWithPasc(c, Run(p, Backward, false, s).out, Forward);
  }

  /**
   * A Gronsfeld key of digits each below the alphabet's length enciphers and
   * deciphers as the non-strict Vigenère key that spells each digit `v` as
   * letter `v` of the alphabet.
   */
  lemma IsVigenere(c: Cipher, s: seq<Rune>)
    requires Distinct(c.Letters()) && SingleByte(c.Letters()) && c.key != []
    requires forall j :: 0 <= j < |c.key| ==> c.key[j] in Digits && IndexOf(Digits, c.key[j]) < |c.Letters()|
    ensures var v := Vigenere.Cipher(c.alphabet, Vigenere.NoAutokey, Family.DigitsAsLetters(c.key, c.Letters()), false);
            && Encipher(c, s) == Vigenere.Encipher(v, s)
            && Decipher(c, s) == Vigenere.Decipher(v, s)
  {
    var a := c.Letters();
    var v := Vigenere.Cipher(c.alphabet, Vigenere.NoAutokey, Family.DigitsAsLetters(c.key, a), false);
    assert v.Letters() == a;
    AgreesWithPasc(c, s, Forward);
    AgreesWithPasc(c, s, Backward);
    Vigenere.AgreesWithPasc(v, s, Forward);
    Vigenere.AgreesWithPasc(v, s, Backward);
    Family.GronsfeldIsVigenere(c.key, a, Forward, false, s);
    Family.GronsfeldIsVigenere(c.key, a, Backward, false, s);
  }

  /** `Tableau()`: the printable table of the cipher. */
  function TableauOf(c: Cipher): (r: Result<Printout, Error>)
    ensures r.Success? ==> r.value.header == c.Letters()
  {
    PrintableOf(MakeTableau(c).value)
  }

  /**
   * Over an alphabet without repeats the printed table has ten lines, line `i`
   * holding digit `i` and the alphabet rotated by `i`.
   */
  lemma TableauLines(c: Cipher, i: nat)
    requires Distinct(c.Letters()) && i < |Digits|
    ensures var p := TableauOf(c);
            && p.Success? && |p.value.lines| == |Digits|
            && p.value.lines[i] == (Digits[i], Rotate(c.Letters(), i))
  {
    var a := c.Letters();
    var rows := DigitRows(a, c.caseless);
    TableauBuilds(c);
    DigitRowsPrint(a, c.caseless);
    PrintedLinesAt(Tabulate(Digits, rows), Digits, a, |Digits|);
    DigitLine(a, c.caseless, i);
  }

  /** Every digit has a row, and every row enciphers the whole alphabet. */
  lemma DigitRowsPrint(a: seq<Rune>, caseless: bool)
    requires Distinct(a)
    ensures var rt := Tabulate(Digits, DigitRows(a, caseless));
            forall r :: r in Digits ==> r in rt && TableauEncipher(rt[r], a).Success?
  {
    var rows := DigitRows(a, caseless);
    var rt := Tabulate(Digits, rows);
    forall r | r in Digits ensures r in rt && TableauEncipher(rt[r], a).Success? {
      TabulateFrom(Digits, rows, r);
      var j :| 0 <= j < |rows| && rows[j] == rt[r];
      EncipherOwnAlphabet(rows[j], |a|);
      assert a[..|a|] == a;
    }
  }

  /** Digit `i`'s row enciphers the alphabet to the alphabet rotated by `i`. */
  lemma DigitLine(a: seq<Rune>, caseless: bool, i: nat)
    requires Distinct(a) && i < |Digits|
    ensures var rt := Tabulate(Digits, DigitRows(a, caseless));
            TableauEncipher(rt[Digits[i]], a) == Success(Rotate(a, i))
  {
    var rows := DigitRows(a, caseless);
    assert Distinct(Digits);
    TabulateAt(Digits, rows, i);
    EncipherOwnAlphabet(rows[i], |a|);
    assert a[..|a|] == a;
    assert Rotate(a, i)[..|a|] == Rotate(a, i);
  }
}
