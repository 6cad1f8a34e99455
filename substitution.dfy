/**
 * The monoalphabetic row every tabula recta is made of.
 *
 * pasc.go keeps one `SimpleSubstitutionCipher` per key rune and calls
 * `encipherRune(r, strict)` / `decipherRune(r, strict)` on it; internal/pasc keeps
 * one `masc.Tableau` per key rune. Neither type's source is part of this model:
 * a row is stated here as the pair of aligned alphabets it is built from, with
 * the lookup behaviour its callers rely on (the first occurrence of a rune wins).
 */
module Substitution {
  import opened Results
  import opened Runes

  /** Construction and transcoding errors of internal/pasc and its row builders. */
  datatype Error =
    | RowHeaderMismatch        // a key alphabet whose rune count differs from its byte length
    | AlphabetLengthMismatch   // a tableau over alphabets of different lengths
    | NotInAlphabet            // a strict tableau asked for a rune it does not hold
    | GeneratorError(message: string)  // whatever a caller-supplied row generator reports

  /** A monoalphabetic substitution pairing `pt[j]` with `ct[j]`. */
  datatype Row = Row(pt: seq<Rune>, ct: seq<Rune>)

  /** The zero-value row: a map lookup of an absent key rune in pasc.go yields it. */
  const EmptyRow: Row := Row([], [])

  /** What transcoding one rune yields: `(o, true)`, `(r, false)`, or the strict-mode sentinel. */
  datatype Lookup = Transcoded(rune: Rune) | Unchanged(rune: Rune) | Rejected

  datatype Direction = Forward | Backward {
    function Opposite(): Direction {
      if Forward? then Backward else Forward
    }
  }

  /** Look `r` up in `from` and answer with the rune at the same position of `to`. */
  function Substitute(from: seq<Rune>, to: seq<Rune>, r: Rune, strict: bool): (o: Lookup)
    ensures o.Transcoded? <==> r in from && IndexOf(from, r) < |to|
    ensures o.Transcoded? ==> o.rune == to[IndexOf(from, r)] && o.rune in to
    ensures o.Unchanged? ==> o.rune == r && !strict
    ensures o.Rejected? ==> strict
  {
    var j := IndexOf(from, r);
    if j < |from| && j < |to| then Transcoded(to[j])
    else if strict then Rejected
    else Unchanged(r)
  }

  /** `encipherRune(r, strict)`: plaintext to ciphertext. */
  function EncipherRune(row: Row, r: Rune, strict: bool): Lookup
  {
    Substitute(row.pt, row.ct, r, strict)
  }

  /** `decipherRune(r, strict)`: the mirror image, ciphertext to plaintext. */
  function DecipherRune(row: Row, r: Rune, strict: bool): Lookup
  {
    Substitute(row.ct, row.pt, r, strict)
  }

  function TranscodeRune(row: Row, r: Rune, strict: bool, d: Direction): Lookup
  {
    if d == Forward then EncipherRune(row, r, strict) else DecipherRune(row, r, strict)
  }

  /**
   * What `strings.Map` keeps of one mapped rune: the rune itself, or nothing for
   * the strict-mode sentinel (a negative rune, which `strings.Map` drops).
   */
  function Emitted(o: Lookup): seq<Rune>
  {
    match o
    case Transcoded(x) => [x]
    case Unchanged(x) => [x]
    case Rejected => []
  }

  /** A row whose two alphabets are permutations of each other with no repeated rune. */
  predicate Bijective(row: Row)
  {
    |row.pt| == |row.ct| && Distinct(row.pt) && Distinct(row.ct) && multiset(row.pt) == multiset(row.ct)
  }

  /** A row that enciphering twice undoes: the rune `ct[x]` stands in `pt` at a place whose `ct` is `pt[x]`. */
  predicate Involutive(row: Row)
  {
    && |row.pt| == |row.ct| && Distinct(row.pt) && Distinct(row.ct)
    && forall x :: 0 <= x < |row.ct| ==> row.ct[x] in row.pt && row.ct[IndexOf(row.pt, row.ct[x])] == row.pt[x]
  }

  /** For a bijective pair of alphabets, looking a rune up one way and the answer the other way gives the rune back. */
  lemma SubstituteInverse(from: seq<Rune>, to: seq<Rune>, r: Rune, strict: bool)
    requires |from| == |to| && Distinct(from) && Distinct(to) && multiset(from) == multiset(to)
    ensures match Substitute(from, to, r, strict)
            case Transcoded(o) => Substitute(to, from, o, strict) == Transcoded(r)
            case Unchanged(o) => Substitute(to, from, o, strict) == Unchanged(r)
            case Rejected => Substitute(to, from, r, strict) == Rejected
  {
    var j := IndexOf(from, r);
    if j < |from| {
      IndexOfDistinct(to, j);
    } else {
      assert r !in multiset(from);
      assert r !in to;
    }
  }

  /** Row round trip in either direction. */
  lemma RowInverse(row: Row, r: Rune, strict: bool, d: Direction)
    requires Bijective(row)
    ensures match TranscodeRune(row, r, strict, d)
            case Transcoded(o) => TranscodeRune(row, o, strict, d.Opposite()) == Transcoded(r)
            case Unchanged(o) => TranscodeRune(row, o, strict, d.Opposite()) == Unchanged(r)
            case Rejected => TranscodeRune(row, r, strict, d.Opposite()) == Rejected
  {
    if d == Forward {
      SubstituteInverse(row.pt, row.ct, r, strict);
    } else {
      SubstituteInverse(row.ct, row.pt, r, strict);
    }
  }

  /** An involutive row is reciprocal: enciphering and deciphering are the same operation. */
  lemma ReciprocalRow(row: Row, r: Rune, strict: bool)
    requires Involutive(row)
    ensures EncipherRune(row, r, strict) == DecipherRune(row, r, strict)
  {
    if r in row.pt {
      ReciprocalPresent(row, r, strict);
    } else {
      ReciprocalAbsent(row, r, strict);
    }
  }

  lemma ReciprocalPresent(row: Row, r: Rune, strict: bool)
    requires Involutive(row) && r in row.pt
    ensures EncipherRune(row, r, strict) == DecipherRune(row, r, strict)
  {
    var x := IndexOf(row.pt, r);
    // the rune `ct[x]` stands in `pt` at `y`, whose `ct` is `r`
    var y := IndexOf(row.pt, row.ct[x]);
    IndexOfDistinct(row.ct, y);
  }

  lemma ReciprocalAbsent(row: Row, r: Rune, strict: bool)
    requires Involutive(row) && r !in row.pt
    ensures EncipherRune(row, r, strict) == DecipherRune(row, r, strict)
  {
    forall w | 0 <= w < |row.ct| ensures row.ct[w] != r {
      assert row.ct[w] in row.pt;
    }
  }

  /** An involutive row is also bijective. */
  lemma InvolutiveIsBijective(row: Row)
    requires Involutive(row)
    ensures Bijective(row)
  {
    // Enciphering maps pt onto ct; pairing each ct[x] with pt[x] shows the two alphabets hold the same runes.
    var n := |row.pt|;
    var sigma := seq(n, x requires 0 <= x < n => IndexOf(row.pt, row.ct[x]));
    assert forall x :: 0 <= x < n ==> row.ct[x] == row.pt[sigma[x]];
    PermutedMultiset(row.pt, row.ct, sigma);
  }

  /** If `ct[x] == pt[sigma[x]]` for a `sigma` that is injective into `[0, n)`, the two have equal multisets. */
  lemma PermutedMultiset(pt: seq<Rune>, ct: seq<Rune>, sigma: seq<nat>)
    requires |pt| == |ct| == |sigma| && Distinct(pt) && Distinct(ct)
    requires forall x :: 0 <= x < |ct| ==> sigma[x] < |pt| && ct[x] == pt[sigma[x]]
    ensures multiset(pt) == multiset(ct)
  {
    var sp := set x | 0 <= x < |pt| :: pt[x];
    var sc := set x | 0 <= x < |ct| :: ct[x];
    assert sc <= sp;
    DistinctSetSize(pt);
    DistinctSetSize(ct);
    SubsetOfEqualSize(sc, sp);
    DistinctMultiset(pt);
    DistinctMultiset(ct);
  }

  lemma {:induction false} DistinctSetSize(s: seq<Rune>)
    requires Distinct(s)
    ensures |set x | 0 <= x < |s| :: s[x]| == |s|
  {
    if s != [] {
      var t := s[..|s| - 1];
      DistinctSetSize(t);
      var st := set x | 0 <= x < |t| :: t[x];
      var ss := set x | 0 <= x < |s| :: s[x];
      assert ss == st + {s[|s| - 1]};
      assert s[|s| - 1] !in st;
    }
  }

  lemma SubsetOfEqualSize(a: set<Rune>, b: set<Rune>)
    requires a <= b && |a| == |b|
    ensures a == b
  {
    if a != b {
      assert !(b <= a);
      var e :| e in b && e !in a;
      assert a <= b - {e};
      assert |b - {e}| == |b| - 1;
      SubsetSize(a, b - {e});
      assert false;
    }
  }

  lemma SubsetSize(a: set<Rune>, b: set<Rune>)
    requires a <= b
    ensures |a| <= |b|
  {
    assert b == a + (b - a);
  }

  /** For a sequence without repetitions the multiset is the set of its runes, each once. */
  lemma {:induction false} DistinctMultiset(s: seq<Rune>)
    requires Distinct(s)
    ensures multiset(s) == multiset(set x | 0 <= x < |s| :: s[x])
  {
    if s != [] {
      var t := s[..|s| - 1];
      DistinctMultiset(t);
      assert s == t + [s[|s| - 1]];
      var st := set x | 0 <= x < |t| :: t[x];
      var ss := set x | 0 <= x < |s| :: s[x];
      assert ss == st + {s[|s| - 1]};
      assert s[|s| - 1] !in st;
    }
  }

  // ---------------------------------------------------------------------------
  // masc.Tableau, as internal/pasc uses it

  /** A `masc.Tableau`: a row together with its `Strict` and `Caseless` flags. */
  datatype Tableau = Tableau(row: Row, strict: bool, caseless: bool)

  /** `masc.NewTableau(pt, ...)`: a non-strict, case-sensitive row; alphabets of different lengths are an error. */
  function NewTableau(pt: seq<Rune>, ct: seq<Rune>): (r: Result<Tableau, Error>)
    ensures r.Success? <==> |pt| == |ct|
    ensures r.Success? ==> r.value == Tableau(Row(pt, ct), false, false)
  {
    if |pt| == |ct| then Success(Tableau(Row(pt, ct), false, false)) else Failure(AlphabetLengthMismatch)
  }

  /** `Tableau.Encipher(s)`: every rune through the row; in strict mode a rune the row lacks is an error. */
  function TableauEncipher(t: Tableau, s: seq<Rune>): (r: Result<seq<Rune>, Error>)
    ensures r.Success? ==> |r.value| == |s|
  {
    if s == [] then Success([])
    else
      match TableauEncipher(t, s[..|s| - 1])
      case Failure(e) => Failure(e)
      case Success(prefix) =>
        match EncipherRune(t.row, s[|s| - 1], t.strict)
        case Rejected => Failure(NotInAlphabet)
        case Transcoded(o) => Success(prefix + [o])
        case Unchanged(o) => Success(prefix + [o])
  }

  /** Enciphering a row's own plaintext alphabet spells out its ciphertext alphabet. */
  lemma {:induction false} EncipherOwnAlphabet(t: Tableau, k: nat)
    requires Distinct(t.row.pt) && |t.row.pt| == |t.row.ct| && k <= |t.row.pt|
    ensures TableauEncipher(t, t.row.pt[..k]) == Success(t.row.ct[..k])
  {
    if k > 0 {
      var s := t.row.pt[..k];
      assert s[..k - 1] == t.row.pt[..k - 1];
      EncipherOwnAlphabet(t, k - 1);
      IndexOfDistinct(t.row.pt, k - 1);
      assert t.row.ct[..k] == t.row.ct[..k - 1] + [t.row.ct[k - 1]];
    }
  }
}
