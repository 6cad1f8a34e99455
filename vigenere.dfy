/**
 * pkg/vigenere: the Vigenère cipher on top of the tabula recta.
 *
 * `maketableau` builds a `TabulaRecta` whose plaintext, ciphertext and key
 * alphabets are all the cipher's alphabet (A–Z when none is given), with no row
 * generator, so the built-in Caesar-shift rows are used. `Encipher` and
 * `Decipher` stream through it with the cipher's key as countersign and an
 * `onSuccess` callback chosen by the autokey setting.
 */
module Vigenere {
  import opened Results
  import opened Runes
  import opened Substitution
  import opened Engine
  import opened Recta
  import Family

  /** The autokey setting. */
  datatype AutokeyOption = NoAutokey | TextAutokey | KeyAutokey

  datatype Cipher = Cipher(alphabet: seq<Rune>, autokey: AutokeyOption, key: seq<Rune>, strict: bool)
  {
    /** The alphabet `maketableau` uses: `Alphabet` when none is set. */
    function Letters(): seq<Rune> {
      OrDefault(alphabet, Alphabet)
    }
  }

  /** `maketableau`: one alphabet for all three roles, `Strict` copied, no generator; it never fails. */
  function MakeTableau(c: Cipher): (r: Result<TabulaRecta, Error>)
    ensures r.Success? && r.value.Buildable() && r.value.dictFunc.None?
    ensures r.value.ptAlphabet == c.Letters() != []
    ensures r.value.KeyRunes() == r.value.CtRunes() == r.value.ptAlphabet
    ensures r.value.strict == c.strict && !r.value.caseless
  {
    var alphabet := if c.alphabet == [] then Alphabet else c.alphabet;
    Success(TabulaRecta(c.strict, false, alphabet, alphabet, alphabet, None))
  }

  /** The table behind a Vigenère cipher builds exactly when its alphabet holds no multi-byte rune. */
  lemma TableauBuilds(c: Cipher)
    ensures DictsFromFunc(MakeTableau(c).value).Success? <==> SingleByte(c.Letters())
  {
    RuneCountIsByteLength(c.Letters());
  }

  /** The `onSuccess` callback of `Encipher`: the plaintext for text autokey, the ciphertext for key autokey. */
  function EncipherCallback(mode: AutokeyOption): (f: Feed)
    ensures f.NoFeed? <==> mode == NoAutokey
  {
    match mode
    case TextAutokey => FeedOriginal
    case KeyAutokey => FeedTranslated
    case NoAutokey => NoFeed
  }

  /** The `onSuccess` callback of `Decipher`: the recovered plaintext for text autokey, the ciphertext for key autokey. */
  function DecipherCallback(mode: AutokeyOption): (f: Feed)
    ensures f.NoFeed? <==> mode == NoAutokey
  {
    match mode
    case TextAutokey => FeedTranslated
    case KeyAutokey => FeedOriginal
    case NoAutokey => NoFeed
  }

  /** The decipher callback is the encipher callback with original and translated swapped. */
  lemma CallbacksMirror(mode: AutokeyOption)
    ensures DecipherCallback(mode) == EncipherCallback(mode).Mirror()
  {
  }

  /**
   * Both directions feed the same symbol back into the key stream: nothing
   * without autokey, the plaintext rune for text autokey, the ciphertext rune for
   * key autokey.
   */
  lemma SameKeyStream(mode: AutokeyOption, tr: TabulaRecta, rt: ReciprocalTable, k: seq<Rune>, plain: Rune, cipher: Rune)
    ensures var fed := Feedback(EngineCipher(tr, rt, k, Forward, EncipherCallback(mode)), Forward, plain, cipher);
            && fed == Feedback(EngineCipher(tr, rt, k, Backward, DecipherCallback(mode)), Backward, cipher, plain)
            && fed == match mode
                      case NoAutokey => []
                      case TextAutokey => [plain]
                      case KeyAutokey => [cipher]
  {
    FeedHonoured(tr, rt, k, Forward, EncipherCallback(mode), plain, cipher);
    FeedHonoured(tr, rt, k, Backward, DecipherCallback(mode), cipher, plain);
  }

  /** `Encipher(s)`: the table's construction error, else `s` streamed forward with the key and the encipher callback. */
  function Encipher(c: Cipher, s: seq<Rune>): (r: Result<seq<Rune>, Error>)
    requires c.key != [] || s == [] || !SingleByte(c.Letters())
    ensures r.Success? <==> SingleByte(c.Letters())
    ensures r.Success? && !c.strict ==> |r.value| == |s|
  {
    TableauBuilds(c);
    var t := MakeTableau(c).value;
    TranscodeOf(t, s, c.key, Forward, EncipherCallback(c.autokey))
  }

  /** `Decipher(s)`: the table's construction error, else `s` streamed backward with the key and the decipher callback. */
  function Decipher(c: Cipher, s: seq<Rune>): (r: Result<seq<Rune>, Error>)
    requires c.key != [] || s == [] || !SingleByte(c.Letters())
    ensures r.Success? <==> SingleByte(c.Letters())
    ensures r.Success? && !c.strict ==> |r.value| == |s|
  {
    TableauBuilds(c);
    var t := MakeTableau(c).value;
    TranscodeOf(t, s, c.key, Backward, DecipherCallback(c.autokey))
  }

  /** The pasc.go constructor for the same setting: `MakeVigenereCipher` or one of its autoclave variants. */
  function PascCipher(c: Cipher): (p: VigenereFamilyCipher)
    ensures p.countersign == c.key
    ensures p.textAutoclave == (c.autokey == TextAutokey) && p.keyAutoclave == (c.autokey == KeyAutokey)
    ensures Distinct(c.Letters()) ==> p.AllBijective()
  {
    match c.autokey
    case NoAutokey => Family.MakeVigenereCipher(c.key, c.Letters())
    case TextAutokey => Family.MakeVigenereTextAutoclaveCipher(c.key, c.Letters())
    case KeyAutokey => Family.MakeVigenereKeyAutoclaveCipher(c.key, c.Letters())
  }

  /**
   * A key drawn from the alphabet never selects a missing row, whatever the
   * autokey setting: every rune fed back is a letter of the alphabet too.
   */
  lemma KeysFound(c: Cipher, s: seq<Rune>, d: Direction)
    requires c.key != [] || s == []
    requires forall j :: 0 <= j < |c.key| ==> c.key[j] in c.Letters()
    ensures var p := PascCipher(c);
            var q := Run(p, d, c.strict, s);
            && KeysHaveRows(p, q.keyRunes)
            && (q.keyRunes != [] ==> q.keyRunes[q.count % |q.keyRunes|] in p.table.ciphers)
  {
    var p := PascCipher(c);
    var a := c.Letters();
    Family.VigenereRowsClosed(c.key, a);
    assert p.table == Family.VigenereFamily(c.key, a, a, a).table;
    KeysKeepRows(p, d, c.strict, s);
  }

  /**
   * Over a single-byte alphabet the package enciphers and deciphers exactly as
   * pasc.go's Vigenère cipher of the same autokey setting, keyed by `c.key`.
   */
  lemma AgreesWithPasc(c: Cipher, s: seq<Rune>, d: Direction)
    requires SingleByte(c.Letters()) && (c.key != [] || s == [])
    ensures (if d == Forward then Encipher(c, s) else Decipher(c, s)) == Success(Run(PascCipher(c), d, c.strict, s).out)
  {
    var tr := MakeTableau(c).value;
    var a := c.Letters();
    TableauBuilds(c);
    var rt := DictsFromFunc(tr).value;
    assert rt == Tabulate(a, BuiltInRows(a, a, |a|, c.strict));
    BuiltInIsVigenereFamily(a, a, a, c.strict, c.key);
    var feed := if d == Forward then EncipherCallback(c.autokey) else DecipherCallback(c.autokey);
    assert EngineCipher(tr, rt, c.key, d, feed) == PascCipher(c);
  }

  /**
   * Over a single-byte alphabet without repeats, deciphering what was enciphered
   * (and enciphering what was deciphered) with the same settings gives the text
   * back, in every autokey mode; in strict mode every rune must have been
   * transcoded.
   */
  lemma RoundTrip(c: Cipher, s: seq<Rune>, d: Direction)
    requires Distinct(c.Letters()) && SingleByte(c.Letters()) && c.key != []
    requires c.strict ==> Run(PascCipher(c), d, true, s).count == |s|
    ensures d == Forward ==> Decipher(c, Encipher(c, s).value) == Success(s)
    ensures d == Backward ==> Encipher(c, Decipher(c, s).value) == Success(s)
  {
    var p := PascCipher(c);
    AgreesWithPasc(c, s, d);
    var out := Run(p, d, c.strict, s).out;
    Engine.RoundTrip(p, d, c.strict, s);
    AgreesWithPasc(c, out, d.Opposite());
  }

  /**
   * Without autokey, over a single-byte alphabet without repeats, a text and a
   * key drawn from the alphabet encipher rune by rune to the Vigenère sum.
   */
  lemma EnciphersToSum(c: Cipher, s: seq<Rune>)
    requires c.autokey == NoAutokey && Distinct(c.Letters()) && SingleByte(c.Letters()) && c.key != []
    requires forall j :: 0 <= j < |c.key| ==> c.key[j] in c.Letters()
    requires forall k :: 0 <= k < |s| ==> s[k] in c.Letters()
    ensures Encipher(c, s) == Success(Family.VigenereSum(c.Letters(), c.key, s))
  {
    AgreesWithPasc(c, s, Forward);
    Family.VigenereShift(c.key, c.Letters(), c.strict, s);
  }

  /** `tableau()`: the printable table of the cipher. */
  function TableauOf(c: Cipher): (r: Result<Printout, Error>)
    ensures r.Success? ==> r.value.header == c.Letters()
  {
    PrintableOf(MakeTableau(c).value)
  }

  /**
   * Over a single-byte alphabet without repeats the printed table has one line
   * per letter, line `i` holding letter `i` and the alphabet rotated by `i`.
   */
  lemma TableauLines(c: Cipher, i: nat)
    requires Distinct(c.Letters()) && SingleByte(c.Letters()) && i < |c.Letters()|
    ensures var p := TableauOf(c);
            && p.Success? && |p.value.lines| == |c.Letters()|
            && p.value.lines[i] == (c.Letters()[i], Rotate(c.Letters(), i))
  {
    var tr := MakeTableau(c).value;
    TableauBuilds(c);
    assert LastOccurrence(tr.KeyRunes(), i);
    PrintableBuiltIn(tr, i);
  }
}
