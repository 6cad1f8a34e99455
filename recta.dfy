/**
 * The tabula recta of internal/pasc/tabularecta.go.
 *
 * A `TabulaRecta` is declarative configuration: three alphabets, the `Strict`
 * and `Caseless` flags and an optional row generator (`DictFunc`). Every call of
 * `Encipher`, `Decipher` or `Printable` builds a fresh reciprocal table, a map
 * from key rune to `masc.Tableau`: from the generator when one is set
 * (`makedictsfromfunc`), from the built-in Caesar-shift rows otherwise
 * (`makereciprocaltable`). A construction error is returned before anything is
 * transcoded.
 *
 * `ReciprocalTable.Encipher` / `Decipher` are not part of this model: the
 * streaming is the engine of pasc.go (module `Engine`), run over the rows of the
 * table built here.
 */
module Recta {
  import opened Results
  import opened Runes
  import opened Substitution
  import opened Engine
  import Family

  /** A `DictFunc(s, i)`: the tableau of row `i` over alphabet `s`, or the message of the error it reports. */
  type Generator = (seq<Rune>, nat) -> Result<Tableau, string>

  /** internal/pasc's `TabulaRecta`. */
  datatype TabulaRecta = TabulaRecta(
    strict: bool,
    caseless: bool,
    ptAlphabet: seq<Rune>,
    ctAlphabet: seq<Rune>,
    keyAlphabet: seq<Rune>,
    dictFunc: Option<Generator>)
  {
    /** The key alphabet the builders iterate: the plaintext alphabet when none is set. */
    function KeyRunes(): seq<Rune> {
      OrDefault(keyAlphabet, ptAlphabet)
    }

    /** The ciphertext alphabet of the built-in rows: the plaintext alphabet when none is set. */
    function CtRunes(): seq<Rune> {
      OrDefault(ctAlphabet, ptAlphabet)
    }

    /**
     * `makereciprocaltable` sizes its row slice by the raw `KeyAlphabet` but
     * iterates the defaulted one: with no key alphabet, a plaintext alphabet
     * that passes the rune/byte check indexes that empty slice and panics.
     */
    predicate BuiltInDefined() {
      keyAlphabet != [] || ptAlphabet == [] || ByteLength(ptAlphabet) != |ptAlphabet|
    }

    /** What `makedictsfromfunc` demands: a generator, or a configuration the built-in rows do not panic on. */
    predicate Buildable() {
      dictFunc.Some? || BuiltInDefined()
    }
  }

  /** The reciprocal table: one tableau per key rune. */
  type ReciprocalTable = map<Rune, Tableau>

  /**
   * `NewTabulaRecta(pt, key, f)`: the plaintext alphabet defaults to `Alphabet`,
   * the key alphabet to the plaintext alphabet; it never fails.
   */
  function NewTabulaRecta(ptAlphabet: seq<Rune>, keyAlphabet: seq<Rune>, f: Option<Generator>): (r: Result<TabulaRecta, Error>)
    ensures r.Success?
    ensures r.value.ptAlphabet == (if ptAlphabet == [] then Alphabet else ptAlphabet)
    ensures r.value.keyAlphabet == (if keyAlphabet == [] then r.value.ptAlphabet else keyAlphabet)
    ensures r.value.ptAlphabet != [] && r.value.keyAlphabet != [] && r.value.Buildable()
    ensures r.value.ctAlphabet == [] && !r.value.strict && !r.value.caseless && r.value.dictFunc == f
  {
    var pt := OrDefault(ptAlphabet, Alphabet);
    Success(TabulaRecta(false, false, pt, [], OrDefault(keyAlphabet, pt), f))
  }

  // ---------------------------------------------------------------------------
  // Built-in Caesar-shift rows (makereciprocaltable)

  /** The built-in rows: row `i` pairs `pt` with `ct` rotated left by `i`, strict as the table, never caseless. */
  function BuiltInRows(pt: seq<Rune>, ct: seq<Rune>, n: nat, strict: bool): (rows: seq<Tableau>)
    ensures |rows| == n
  {
    seq(n, i requires 0 <= i < n => Tableau(Row(pt, Rotate(ct, i)), strict, false))
  }

  /**
   * The result of `makereciprocaltable`: a multi-byte key rune is an error; so is
   * a ciphertext alphabet whose length differs from the plaintext alphabet's
   * (`masc.NewTableau` fails on the first row, if there is one).
   */
  function ReciprocalTableOf(tr: TabulaRecta): Result<ReciprocalTable, Error>
    requires tr.BuiltInDefined()
  {
    var pt, ct, key := tr.ptAlphabet, tr.CtRunes(), tr.KeyRunes();
    if |key| != ByteLength(key) then Failure(RowHeaderMismatch)
    else if key != [] && |pt| != |ct| then Failure(AlphabetLengthMismatch)
    else Success(Tabulate(key, BuiltInRows(pt, ct, |key|, tr.strict)))
  }

  /** `makereciprocaltable`: fill the rotated alphabets by `Backpermute`, then one tableau per key rune. */
  method MakeReciprocalTable(tr: TabulaRecta) returns (r: Result<ReciprocalTable, Error>)
    requires tr.BuiltInDefined()
    ensures r == ReciprocalTableOf(tr)
  {
    var ptAlphabet := tr.ptAlphabet;
    var ctAlphabet := tr.ctAlphabet;
    if ctAlphabet == [] {
      ctAlphabet := ptAlphabet;
    }
    var keyAlphabet := tr.keyAlphabet;
    if keyAlphabet == [] {
      keyAlphabet := ptAlphabet;
    }

    var ctAlphabets := new seq<Rune>[|tr.keyAlphabet|];
    for y := 0 to ctAlphabets.Length
      invariant forall j :: 0 <= j < y ==> ctAlphabets[j] == Rotate(ctAlphabet, j)
    {
      ctAlphabets[y] := ShiftedAlphabet(ctAlphabet, y);
    }

    if |keyAlphabet| != ByteLength(keyAlphabet) {
      return Failure(RowHeaderMismatch);
    }

    assert ctAlphabets.Length == |keyAlphabet|;
    ghost var rows := BuiltInRows(ptAlphabet, ctAlphabet, |keyAlphabet|, tr.strict);
    var m: ReciprocalTable := map[];
    for i := 0 to |keyAlphabet|
      invariant m == Tabulate(keyAlphabet[..i], rows[..i])
      invariant i > 0 ==> |ptAlphabet| == |ctAlphabet|
      invariant forall j :: 0 <= j < ctAlphabets.Length ==> ctAlphabets[j] == Rotate(ctAlphabet, j)
    {
      var t :- NewTableau(ptAlphabet, ctAlphabets[i]);
      t := t.(strict := tr.strict);
      assert t == rows[i];
      assert rows[..i + 1] == rows[..i] + [t];
      TabulateSnoc(keyAlphabet, rows[..i], i, t);
      m := m[keyAlphabet[i] := t];
    }
    assert keyAlphabet[..|keyAlphabet|] == keyAlphabet;
    assert rows[..|keyAlphabet|] == rows;
    r := Success(m);
  }

  /** One iteration of the outer loop of `makereciprocaltable`: `Backpermute` by the indices `(x + y) mod n`. */
  method ShiftedAlphabet(ctAlphabet: seq<Rune>, y: nat) returns (out: seq<Rune>)
    ensures out == Rotate(ctAlphabet, y)
  {
    var ctAlphabetLen := |ctAlphabet|;
    var ii := new int[ctAlphabetLen];
    for x := 0 to ctAlphabetLen
      invariant forall k :: 0 <= k < x ==> ii[k] == (k + y) % ctAlphabetLen
    {
      ii[x] := (x + y) % ctAlphabetLen;
    }
    assert ii[..] == ShiftIndices(ctAlphabetLen, y);
    ShiftIsRotation(ctAlphabet, y);
    var permuted := Backpermute(ctAlphabet, ii[..]);
    out := permuted.value;
  }

  // ---------------------------------------------------------------------------
  // Generator rows (makedictsfromfunc)

  /**
   * The generator called with `(pt, i)` for `i = 0 .. n-1` in order, each
   * tableau given the table's `Strict` and `Caseless`; the first error ends it.
   */
  function GeneratedRows(f: Generator, pt: seq<Rune>, n: nat, strict: bool, caseless: bool): (r: Result<seq<Tableau>, Error>)
    ensures r.Success? ==> |r.value| == n
    ensures r.Failure? ==> r.error.GeneratorError?
  {
    if n == 0 then Success([])
    else
      match GeneratedRows(f, pt, n - 1, strict, caseless)
      case Failure(e) => Failure(e)
      case Success(rows) =>
        match f(pt, n - 1)
        case Failure(message) => Failure(GeneratorError(message))
        case Success(t) => Success(rows + [t.(caseless := caseless, strict := strict)])
  }

  /** The result of `makedictsfromfunc`: the built-in rows without a generator, else the generated ones. */
  function DictsFromFunc(tr: TabulaRecta): Result<ReciprocalTable, Error>
    requires tr.Buildable()
  {
    var key := tr.KeyRunes();
    if tr.dictFunc.None? then ReciprocalTableOf(tr)
    else if |key| != ByteLength(key) then Failure(RowHeaderMismatch)
    else
      match GeneratedRows(tr.dictFunc.value, tr.ptAlphabet, |key|, tr.strict, tr.caseless)
      case Failure(e) => Failure(e)
      case Success(rows) => Success(Tabulate(key, rows))
  }

  /** `makedictsfromfunc`: call the generator once per key rune, stopping at the first error. */
  method MakeDictsFromFunc(tr: TabulaRecta) returns (r: Result<ReciprocalTable, Error>)
    requires tr.Buildable()
    ensures r == DictsFromFunc(tr)
  {
    var ptAlphabet := tr.ptAlphabet;
    var keyAlphabet := tr.keyAlphabet;
    if keyAlphabet == [] {
      keyAlphabet := ptAlphabet;
    }

    if tr.dictFunc.None? {
      r := MakeReciprocalTable(tr);
      return;
    }
    var f := tr.dictFunc.value;

    var m: ReciprocalTable := map[];
    var keyRunes := keyAlphabet;
    if |keyRunes| != ByteLength(keyAlphabet) {
      return Failure(RowHeaderMismatch);
    }

    ghost var rows: seq<Tableau> := [];
    for i := 0 to |keyRunes|
      invariant GeneratedRows(f, ptAlphabet, i, tr.strict, tr.caseless) == Success(rows)
      invariant m == Tabulate(keyRunes[..i], rows)
    {
      var made := f(ptAlphabet, i);
      if made.Failure? {
        GeneratedStops(f, ptAlphabet, i + 1, |keyRunes|, tr.strict, tr.caseless);
        return Failure(GeneratorError(made.error));
      }
      var t := made.value;
      t := t.(caseless := tr.caseless);
      t := t.(strict := tr.strict);
      TabulateSnoc(keyRunes, rows, i, t);
      m := m[keyRunes[i] := t];
      rows := rows + [t];
    }
    assert keyRunes[..|keyRunes|] == keyRunes;
    r := Success(m);
  }

  /** Once the generator has failed, calling it for more rows changes nothing: the first error stands. */
  lemma {:induction false} GeneratedStops(f: Generator, pt: seq<Rune>, i: nat, n: nat, strict: bool, caseless: bool)
    requires i <= n && GeneratedRows(f, pt, i, strict, caseless).Failure?
    ensures GeneratedRows(f, pt, n, strict, caseless) == GeneratedRows(f, pt, i, strict, caseless)
    decreases n - i
  {
    if i < n {
      GeneratedStops(f, pt, i, n - 1, strict, caseless);
    }
  }

  /**
   * The generated rows succeed exactly when every call does, row `i` being call
   * `i`'s tableau with the table's flags; otherwise the error is that of the
   * first failing call.
   */
  lemma {:induction false} GeneratedFirstError(f: Generator, pt: seq<Rune>, n: nat, strict: bool, caseless: bool)
    ensures var g := GeneratedRows(f, pt, n, strict, caseless);
            && (g.Success? <==> forall i :: 0 <= i < n ==> f(pt, i).Success?)
            && (g.Success? ==> forall i :: 0 <= i < n ==> g.value[i] == f(pt, i).value.(caseless := caseless, strict := strict))
            && (g.Failure? ==> exists i :: 0 <= i < n && f(pt, i).Failure? && g.error == GeneratorError(f(pt, i).error)
                                          && forall j :: 0 <= j < i ==> f(pt, j).Success?)
  {
    if n > 0 {
      GeneratedFirstError(f, pt, n - 1, strict, caseless);
      var g, h := GeneratedRows(f, pt, n, strict, caseless), GeneratedRows(f, pt, n - 1, strict, caseless);
      if h.Failure? {
        var i :| 0 <= i < n - 1 && f(pt, i).Failure? && h.error == GeneratorError(f(pt, i).error)
                 && forall j :: 0 <= j < i ==> f(pt, j).Success?;
        assert g == h;
      } else if f(pt, n - 1).Failure? {
        assert g.error == GeneratorError(f(pt, n - 1).error);
      } else {
        forall i | 0 <= i < n ensures g.value[i] == f(pt, i).value.(caseless := caseless, strict := strict) {
          if i < n - 1 {
            assert g.value[i] == h.value[i];
          }
        }
      }
    }
  }

  // ---------------------------------------------------------------------------
  // What a built table holds

  /** A table is rejected for its row headers exactly when the key alphabet holds a multi-byte rune. */
  lemma RowHeaderCheck(tr: TabulaRecta)
    requires tr.Buildable()
    ensures DictsFromFunc(tr) == Failure(RowHeaderMismatch) <==> !SingleByte(tr.KeyRunes())
  {
    RuneCountIsByteLength(tr.KeyRunes());
  }

  /**
   * A built table has one entry per rune of the key alphabet; every tableau
   * carries the table's `Strict`; generated tableaux carry its `Caseless` too,
   * built-in ones are left case-sensitive.
   */
  lemma TableFlags(tr: TabulaRecta)
    requires tr.Buildable() && DictsFromFunc(tr).Success?
    ensures var rt := DictsFromFunc(tr);
            && (forall r :: r in rt.value <==> r in tr.KeyRunes())
            && forall r :: r in rt.value ==>
                 && rt.value[r].strict == tr.strict
                 && rt.value[r].caseless == (tr.dictFunc.Some? && tr.caseless)
  {
    var key := tr.KeyRunes();
    var rt := DictsFromFunc(tr).value;
    if tr.dictFunc.None? {
      var rows := BuiltInRows(tr.ptAlphabet, tr.CtRunes(), |key|, tr.strict);
      forall r | r in rt ensures rt[r].strict == tr.strict && !rt[r].caseless {
        TabulateFrom(key, rows, r);
      }
    } else {
      var rows := GeneratedRows(tr.dictFunc.value, tr.ptAlphabet, |key|, tr.strict, tr.caseless).value;
      GeneratedFirstError(tr.dictFunc.value, tr.ptAlphabet, |key|, tr.strict, tr.caseless);
      forall r | r in rt ensures rt[r].strict == tr.strict && rt[r].caseless == tr.caseless {
        TabulateFrom(key, rows, r);
      }
    }
  }

  /**
   * The built-in table's row for the key rune at position `i` (when no later key
   * rune repeats it) pairs the plaintext alphabet with the ciphertext alphabet
   * rotated by `i`: column `x` holds `ct[(x + i) mod n]`.
   */
  lemma BuiltInRowAt(tr: TabulaRecta, i: nat)
    requires tr.dictFunc.None? && tr.BuiltInDefined() && DictsFromFunc(tr).Success?
    requires i < |tr.KeyRunes()| && LastOccurrence(tr.KeyRunes(), i)
    ensures var t := DictsFromFunc(tr).value[tr.KeyRunes()[i]];
            && t == Tableau(Row(tr.ptAlphabet, Rotate(tr.CtRunes(), i)), tr.strict, false)
            && |t.row.ct| == |tr.ptAlphabet|
            && forall x :: 0 <= x < |t.row.ct| ==> t.row.ct[x] == tr.CtRunes()[(x + i) % |tr.CtRunes()|]
  {
    var key, ct := tr.KeyRunes(), tr.CtRunes();
    var rows := BuiltInRows(tr.ptAlphabet, ct, |key|, tr.strict);
    BuiltInTable(tr);
    TabulateAt(key, rows, i);
    RotateColumns(ct, i);
  }

  /** A built-in table that was built is the built-in rows filled in key order. */
  lemma BuiltInTable(tr: TabulaRecta)
    requires tr.dictFunc.None? && tr.BuiltInDefined() && DictsFromFunc(tr).Success?
    ensures |tr.KeyRunes()| == 0 || |tr.ptAlphabet| == |tr.CtRunes()|
    ensures DictsFromFunc(tr).value == Tabulate(tr.KeyRunes(), BuiltInRows(tr.ptAlphabet, tr.CtRunes(), |tr.KeyRunes()|, tr.strict))
  {
  }

  // ---------------------------------------------------------------------------
  // Streaming over a built table

  /** The rows of a reciprocal table, without their flags. */
  function RowsOf(rt: ReciprocalTable): (rows: map<Rune, Row>)
    ensures forall r :: r in rows <==> r in rt
  {
    map r | r in rt :: rt[r].row
  }

  /** The rows of a sequence of tableaux. */
  function TableauRows(ts: seq<Tableau>): (rows: seq<Row>)
    ensures |rows| == |ts| && forall i :: 0 <= i < |ts| ==> rows[i] == ts[i].row
  {
    seq(|ts|, i requires 0 <= i < |ts| => ts[i].row)
  }

  /** Dropping the flags commutes with filling the map in key order. */
  lemma {:induction false} RowsOfTabulate(key: seq<Rune>, ts: seq<Tableau>)
    requires |ts| == |key|
    ensures RowsOf(Tabulate(key, ts)) == Tabulate(key, TableauRows(ts))
  {
    if key != [] {
      var n := |key| - 1;
      RowsOfTabulate(key[..n], ts[..n]);
      assert TableauRows(ts)[..n] == TableauRows(ts[..n]);
    }
  }

  /**
   * The built-in table, stripped of its flags, is exactly the table pasc.go's
   * `MakeVigenereFamilyCipher` fills for the same alphabets.
   */
  lemma BuiltInIsVigenereFamily(pt: seq<Rune>, ct: seq<Rune>, key: seq<Rune>, strict: bool, countersign: seq<Rune>)
    ensures RowsOf(Tabulate(key, BuiltInRows(pt, ct, |key|, strict))) ==
            Family.VigenereFamily(countersign, pt, ct, key).table.ciphers
  {
    var ts := BuiltInRows(pt, ct, |key|, strict);
    RowsOfTabulate(key, ts);
    assert TableauRows(ts) == Family.ShiftRows(pt, ct, |key|);
  }

  /**
   * The `onSuccess` callback: after a rune is transcoded it appends nothing, the
   * rune it was handed (`original`) or the rune it produced (`translated`).
   */
  datatype Feed = NoFeed | FeedOriginal | FeedTranslated {
    /** The callback with the roles of original and translated swapped. */
    function Mirror(): Feed {
      match this
      case NoFeed => NoFeed
      case FeedOriginal => FeedTranslated
      case FeedTranslated => FeedOriginal
    }

    function Appended(original: Rune, translated: Rune): seq<Rune> {
      match this
      case NoFeed => []
      case FeedOriginal => [original]
      case FeedTranslated => [translated]
    }
  }

  /** The engine cipher that streams over a built table with countersign `k` and callback `feed`. */
  function EngineCipher(tr: TabulaRecta, rt: ReciprocalTable, k: seq<Rune>, d: Direction, feed: Feed): (c: VigenereFamilyCipher)
    ensures c.countersign == k && c.table.ciphers == RowsOf(rt)
  {
    var plainFed := if d == Forward then feed == FeedOriginal else feed == FeedTranslated;
    var cipherFed := if d == Forward then feed == FeedTranslated else feed == FeedOriginal;
    VigenereFamilyCipher(PascTable(tr.ptAlphabet, tr.CtRunes(), tr.KeyRunes(), RowsOf(rt)), k, plainFed, cipherFed)
  }

  /** The engine appends to the key buffer exactly what the callback appends, in either direction. */
  lemma FeedHonoured(tr: TabulaRecta, rt: ReciprocalTable, k: seq<Rune>, d: Direction, feed: Feed, original: Rune, translated: Rune)
    ensures Feedback(EngineCipher(tr, rt, k, d, feed), d, original, translated) == feed.Appended(original, translated)
  {
  }

  /** A callback and its mirror drive the engine the same way in opposite directions. */
  lemma MirrorAgrees(tr: TabulaRecta, rt: ReciprocalTable, k: seq<Rune>, d: Direction, feed: Feed)
    ensures EngineCipher(tr, rt, k, d.Opposite(), feed.Mirror()) == EngineCipher(tr, rt, k, d, feed)
  {
  }

  /**
   * `Encipher(s, k, onSuccess)` / `Decipher(...)`: build the table, return its
   * error if any, else stream `s` through it (an empty key with a non-empty
   * input would then take a remainder by zero).
   */
  function TranscodeOf(tr: TabulaRecta, s: seq<Rune>, k: seq<Rune>, d: Direction, feed: Feed): (r: Result<seq<Rune>, Error>)
    requires tr.Buildable() && (k != [] || s == [] || DictsFromFunc(tr).Failure?)
    ensures DictsFromFunc(tr).Failure? ==> r == Failure(DictsFromFunc(tr).error)
    ensures r.Success? && !tr.strict ==> |r.value| == |s|
  {
    var rt :- DictsFromFunc(tr);
    Success(Run(EngineCipher(tr, rt, k, d, feed), d, tr.strict, s).out)
  }

  method Encipher(tr: TabulaRecta, s: seq<Rune>, k: seq<Rune>, onSuccess: Feed) returns (r: Result<seq<Rune>, Error>)
    requires tr.Buildable() && (k != [] || s == [] || DictsFromFunc(tr).Failure?)
    ensures r == TranscodeOf(tr, s, k, Forward, onSuccess)
  {
    var rt :- MakeDictsFromFunc(tr);
    var out := Transcode(EngineCipher(tr, rt, k, Forward, onSuccess), Forward, s, tr.strict);
    r := Success(out);
  }

  method Decipher(tr: TabulaRecta, s: seq<Rune>, k: seq<Rune>, onSuccess: Feed) returns (r: Result<seq<Rune>, Error>)
    requires tr.Buildable() && (k != [] || s == [] || DictsFromFunc(tr).Failure?)
    ensures r == TranscodeOf(tr, s, k, Backward, onSuccess)
  {
    var rt :- MakeDictsFromFunc(tr);
    var out := Transcode(EngineCipher(tr, rt, k, Backward, onSuccess), Backward, s, tr.strict);
    r := Success(out);
  }

  /** Every row of a built table is bijective. */
  predicate AllRowsBijective(rt: ReciprocalTable)
  {
    forall r :: r in rt ==> Bijective(rt[r].row)
  }

  /**
   * Over a table of bijective rows, transcoding with a callback and then back
   * with its mirror gives the input back (in strict mode, when every rune was
   * transcoded).
   */
  lemma RoundTrip(tr: TabulaRecta, s: seq<Rune>, k: seq<Rune>, d: Direction, feed: Feed)
    requires tr.Buildable() && (k != [] || s == [])
    requires DictsFromFunc(tr).Success? && AllRowsBijective(DictsFromFunc(tr).value)
    requires tr.strict ==> Run(EngineCipher(tr, DictsFromFunc(tr).value, k, d, feed), d, tr.strict, s).count == |s|
    ensures var out := TranscodeOf(tr, s, k, d, feed).value;
            (k != [] || out == []) && TranscodeOf(tr, out, k, d.Opposite(), feed.Mirror()) == Success(s)
  {
    var rt := DictsFromFunc(tr).value;
    var c := EngineCipher(tr, rt, k, d, feed);
    assert c.AllBijective();
    Engine.RoundTrip(c, d, tr.strict, s);
    MirrorAgrees(tr, rt, k, d, feed);
  }

  // ---------------------------------------------------------------------------
  // Printable

  /** The row contents of `Printable`: the plaintext alphabet, then one line per key rune that has a row. */
  datatype Printout = Printout(header: seq<Rune>, lines: seq<(Rune, seq<Rune>)>)

  /** The lines for the first `n` key runes: each key rune with a row and that row's encipherment of `pt`. */
  function PrintedLines(rt: ReciprocalTable, key: seq<Rune>, pt: seq<Rune>, n: nat): Result<seq<(Rune, seq<Rune>)>, Error>
    requires n <= |key|
  {
    if n == 0 then Success([])
    else
      var lines :- PrintedLines(rt, key, pt, n - 1);
      var r := key[n - 1];
      if r in rt then
        var out :- TableauEncipher(rt[r], pt);
        Success(lines + [(r, out)])
      else Success(lines)
  }

  function PrintableOf(tr: TabulaRecta): (r: Result<Printout, Error>)
    requires tr.Buildable()
    ensures DictsFromFunc(tr).Failure? ==> r == Failure(DictsFromFunc(tr).error)
    ensures r.Success? ==> r.value.header == tr.ptAlphabet
  {
    var rt :- DictsFromFunc(tr);
    var lines :- PrintedLines(rt, tr.KeyRunes(), tr.ptAlphabet, |tr.KeyRunes()|);
    Success(Printout(tr.ptAlphabet, lines))
  }

  /** `Printable()`: the construction error first, then the first row that cannot encipher the header. */
  method Printable(tr: TabulaRecta) returns (r: Result<Printout, Error>)
    requires tr.Buildable()
    ensures r == PrintableOf(tr)
  {
    var ptAlphabet := tr.ptAlphabet;
    var keyAlphabet := tr.keyAlphabet;
    if keyAlphabet == [] {
      keyAlphabet := ptAlphabet;
    }
    var rt :- MakeDictsFromFunc(tr);
    var lines: seq<(Rune, seq<Rune>)> := [];
    for i := 0 to |keyAlphabet|
      invariant PrintedLines(rt, keyAlphabet, ptAlphabet, i) == Success(lines)
    {
      var k := keyAlphabet[i];
      if k in rt {
        var out := TableauEncipher(rt[k], ptAlphabet);
        if out.Failure? {
          PrintedStops(rt, keyAlphabet, ptAlphabet, i + 1, |keyAlphabet|);
          return Failure(out.error);
        }
        lines := lines + [(k, out.value)];
      }
    }
    r := Success(Printout(ptAlphabet, lines));
  }

  lemma {:induction false} PrintedStops(rt: ReciprocalTable, key: seq<Rune>, pt: seq<Rune>, i: nat, n: nat)
    requires i <= n <= |key| && PrintedLines(rt, key, pt, i).Failure?
    ensures PrintedLines(rt, key, pt, n) == PrintedLines(rt, key, pt, i)
    decreases n - i
  {
    if i < n {
      PrintedStops(rt, key, pt, i, n - 1);
    }
  }

  /**
   * When every row enciphers the header alphabet, there is one line per key
   * rune, in key-alphabet order, holding that rune's row applied to the header.
   */
  lemma {:induction false} PrintedLinesAt(rt: ReciprocalTable, key: seq<Rune>, pt: seq<Rune>, n: nat)
    requires n <= |key| && forall r :: r in key ==> r in rt && TableauEncipher(rt[r], pt).Success?
    ensures var p := PrintedLines(rt, key, pt, n);
            && p.Success? && |p.value| == n
            && forall i :: 0 <= i < n ==> p.value[i] == (key[i], TableauEncipher(rt[key[i]], pt).value)
  {
    if n > 0 {
      PrintedLinesAt(rt, key, pt, n - 1);
      assert key[n - 1] in key;
    }
  }

  /**
   * The printed built-in table over a plaintext alphabet without repeats: line
   * `i` is the key rune at `i` followed by the ciphertext alphabet rotated by
   * `i` (for a key rune that does not recur later).
   */
  lemma PrintableBuiltIn(tr: TabulaRecta, i: nat)
    requires tr.dictFunc.None? && tr.BuiltInDefined() && DictsFromFunc(tr).Success?
    requires Distinct(tr.ptAlphabet) && |tr.ptAlphabet| == |tr.CtRunes()|
    requires i < |tr.KeyRunes()| && LastOccurrence(tr.KeyRunes(), i)
    ensures var p := PrintableOf(tr);
            && p.Success? && p.value.header == tr.ptAlphabet && |p.value.lines| == |tr.KeyRunes()|
            && p.value.lines[i] == (tr.KeyRunes()[i], Rotate(tr.CtRunes(), i))
  {
    var key, pt, ct := tr.KeyRunes(), tr.ptAlphabet, tr.CtRunes();
    var rt := DictsFromFunc(tr).value;
    var rows := BuiltInRows(pt, ct, |key|, tr.strict);
    forall r | r in key ensures r in rt && TableauEncipher(rt[r], pt).Success? {
      TabulateFrom(key, rows, r);
      var j :| 0 <= j < |rows| && rows[j] == rt[r];
      EncipherOwnAlphabet(rows[j], |pt|);
      assert pt[..|pt|] == pt;
    }
    PrintedLinesAt(rt, key, pt, |key|);
    BuiltInRowAt(tr, i);
    EncipherOwnAlphabet(rt[key[i]], |pt|);
    assert pt[..|pt|] == pt;
    assert Rotate(ct, i)[..|pt|] == Rotate(ct, i);
  }
}
