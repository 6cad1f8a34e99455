/**
 * pkg/trithemius: the Trithemius cipher on top of the tabula recta.
 *
 * `maketableau` builds the same table as the Vigenère package: plaintext,
 * ciphertext and key alphabets all the cipher's alphabet (A–Z when none is
 * given), built-in Caesar-shift rows. `Encipher` and `Decipher` stream through
 * it with the key alphabet itself as countersign and no callback, so the `k`-th
 * transcoded rune is shifted by `k` places.
 */
module Trithemius {
  import opened Results
  import opened Runes
  import opened Substitution
  import opened Engine
  import opened Recta
  import Family
  import Vigenere

  datatype Cipher = Cipher(alphabet: seq<Rune>, strict: bool)
  {
    /** The alphabet `maketableau` uses: `Alphabet` when none is set. */
    function Letters(): seq<Rune> {
      OrDefault(alphabet, Alphabet)
    }
  }

  /** `maketableau`: one alphabet for all three roles, `Strict` copied, no generator; it never fails. */
  function MakeTableau(c: Cipher): (r: Result<TabulaRecta, Error>)
    ensures r.Success? && r.value.Buildable() && r.value.dictFunc.None?
    ensures r.value.ptAlphabet == r.value.keyAlphabet == c.Letters() != []
    ensures r.value.KeyRunes() == r.value.CtRunes() == r.value.ptAlphabet
    ensures r.value.strict == c.strict && !r.value.caseless
  {
    var alphabet := if c.alphabet == [] then Alphabet else c.alphabet;
    Success(TabulaRecta(c.strict, false, alphabet, alphabet, alphabet, None))
  }

  /** The Vigenère cipher whose key is this cipher's alphabet, without autokey. */
  function AsVigenere(c: Cipher): (v: Vigenere.Cipher)
    ensures v.Letters() == c.Letters() && v.key == c.Letters() != []
    ensures v.autokey == Vigenere.NoAutokey && v.strict == c.strict
  {
    Vigenere.Cipher(c.alphabet, Vigenere.NoAutokey, c.Letters(), c.strict)
  }

  /** The Trithemius table is the Vigenère table of the same alphabet. */
  lemma SameTableau(c: Cipher)
    ensures MakeTableau(c) == Vigenere.MakeTableau(AsVigenere(c))
  {
  }

  /** `Encipher(s)`: the table's construction error, else `s` streamed forward with the key alphabet as key. */
  function Encipher(c: Cipher, s: seq<Rune>): (r: Result<seq<Rune>, Error>)
    ensures r.Success? <==> SingleByte(c.Letters())
    ensures r.Success? && !c.strict ==> |r.value| == |s|
  {
    SameTableau(c);
    Vigenere.TableauBuilds(AsVigenere(c));
    var t := MakeTableau(c).value;
    TranscodeOf(t, s, t.keyAlphabet, Forward, NoFeed)
  }

  /** `Decipher(s)`: the table's construction error, else `s` streamed backward with the key alphabet as key. */
  function Decipher(c: Cipher, s: seq<Rune>): (r: Result<seq<Rune>, Error>)
    ensures r.Success? <==> SingleByte(c.Letters())
    ensures r.Success? && !c.strict ==> |r.value| == |s|
  {
    SameTableau(c);
    Vigenere.TableauBuilds(AsVigenere(c));
    var t := MakeTableau(c).value;
    TranscodeOf(t, s, t.keyAlphabet, Backward, NoFeed)
  }

  /** The cipher is the Vigenère cipher keyed by its own alphabet. */
  lemma IsVigenere(c: Cipher, s: seq<Rune>)
    ensures Encipher(c, s) == Vigenere.Encipher(AsVigenere(c), s)
    ensures Decipher(c, s) == Vigenere.Decipher(AsVigenere(c), s)
  {
    SameTableau(c);
  }

  /**
   * Over a single-byte alphabet the package enciphers and deciphers exactly as
   * pasc.go's `MakeTrithemiusCipher(alphabet)`.
   */
  lemma AgreesWithPasc(c: Cipher, s: seq<Rune>, d: Direction)
    requires SingleByte(c.Letters())
    ensures (if d == Forward then Encipher(c, s) else Decipher(c, s))
            == Success(Run(Family.MakeTrithemiusCipher(c.Letters()), d, c.strict, s).out)
  {
    IsVigenere(c, s);
    Vigenere.AgreesWithPasc(AsVigenere(c), s, d);
  }

  /**
   * Over a single-byte alphabet of `N` distinct runes, a text drawn from the
   * alphabet has its `k`-th rune shifted by `k mod N` places.
   */
  lemma Progression(c: Cipher, s: seq<Rune>)
    requires Distinct(c.Letters()) && SingleByte(c.Letters())
    requires forall k :: 0 <= k < |s| ==> s[k] in c.Letters()
    ensures Encipher(c, s) == Success(Family.TrithemiusText(c.Letters(), s))
  {
    AgreesWithPasc(c, s, Forward);
    Family.TrithemiusShift(c.Letters(), c.strict, s);
  }

  /** The key is the alphabet itself, so no lookup ever selects a missing row. */
  lemma KeysFound(c: Cipher, s: seq<Rune>, d: Direction)
    ensures var p := Family.MakeTrithemiusCipher(c.Letters());
            var q := Run(p, d, c.strict, s);
            && KeysHaveRows(p, q.keyRunes)
            && q.keyRunes[q.count % |q.keyRunes|] in p.table.ciphers
  {
    var v := AsVigenere(c);
    assert Vigenere.PascCipher(v) == Family.MakeTrithemiusCipher(c.Letters());
    Vigenere.KeysFound(v, s, d);
  }

  /**
   * Over a single-byte alphabet without repeats, deciphering what was enciphered
   * (and enciphering what was deciphered) gives the text back; in strict mode
   * every rune must have been transcoded.
   */
  lemma RoundTrip(c: Cipher, s: seq<Rune>, d: Direction)
    requires Distinct(c.Letters()) && SingleByte(c.Letters())
    requires c.strict ==> Run(Family.MakeTrithemiusCipher(c.Letters()), d, true, s).count == |s|
    ensures d == Forward ==> Decipher(c, Encipher(c, s).value) == Success(s)
    ensures d == Backward ==> Encipher(c, Decipher(c, s).value) == Success(s)
  {
    var v := AsVigenere(c);
    assert Vigenere.PascCipher(v) == Family.MakeTrithemiusCipher(c.Letters());
    Vigenere.RoundTrip(v, s, d);
    IsVigenere(c, s);
    if d == Forward {
      IsVigenere(c, Encipher(c, s).value);
    } else {
      IsVigenere(c, Decipher(c, s).value);
    }
  }

  /** `tableau()`: the printable table of the cipher. */
  function TableauOf(c: Cipher): (r: Result<Printout, Error>)
    ensures r.Success? ==> r.value.header == c.Letters()
  {
    PrintableOf(MakeTableau(c).value)
  }

  /**
   * Over a single-byte alphabet without repeats the printed table has one line
   * per letter, line `i` holding letter `i` and the alphabet rotated by `i`.
   */
  lemma TableauLines(c: Cipher, i: nat)
    requires Distinct(c.Letters()) && SingleByte(c.Letters()) && i < |c.Letters()|
    ensures var p := TableauOf(c);
            && p.Success? && |p.value.lines| == |c.Letters()|
            && p.value.lines[i] == (c.Letters()[i], Rotate(c.Letters(), i))
  {
    SameTableau(c);
    Vigenere.TableauLines(AsVigenere(c), i);
  }
}
