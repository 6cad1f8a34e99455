/**
 * The table builders of pasc.go and the named ciphers made from them.
 *
 * `MakeVigenereFamilyCipher` gives key rune `i` the row pairing the plaintext
 * alphabet with the ciphertext alphabet rotated left by `i`;
 * `MakeDellaPortaReciprocalTable` gives it the ciphertext alphabet turned by half
 * its length and then "gear-wrapped" by `i / 2`. Both fill the row map in a loop,
 * so a repeated key rune keeps the row of its last occurrence. Each builder is a
 * method proved against a function that states the table it builds; the named
 * constructors only choose alphabets, countersign and feedback.
 */
module Family {
  import opened Runes
  import opened Substitution
  import opened Engine

  // ---------------------------------------------------------------------------
  // Caesar-shift tables

  /** The rows of a Caesar-shift table, one per key position: row `i` is `ct` rotated left by `i`. */
  function ShiftRows(pt: seq<Rune>, ct: seq<Rune>, n: nat): (rows: seq<Row>)
    ensures |rows| == n
  {
    seq(n, i requires 0 <= i < n => Row(pt, Rotate(ct, i)))
  }

  /** The cipher `MakeVigenereFamilyCipher` returns: a row for exactly the runes of the key alphabet, no autoclave. */
  function VigenereFamily(countersign: seq<Rune>, pt: seq<Rune>, ct: seq<Rune>, key: seq<Rune>): (c: VigenereFamilyCipher)
    ensures forall r :: r in c.table.ciphers <==> r in key
    ensures !c.Autoclave() && c.countersign == countersign
  {
    VigenereFamilyCipher(PascTable(pt, ct, key, Tabulate(key, ShiftRows(pt, ct, |key|))), countersign, false, false)
  }

  /** `MakeVigenereFamilyCipher`: one `wrapString` row per key rune, stored in the map in key order. */
  method MakeVigenereFamilyCipher(countersign: seq<Rune>, ptAlphabet: seq<Rune>, ctAlphabet: seq<Rune>, keyAlphabet: seq<Rune>)
    returns (c: VigenereFamilyCipher)
    ensures c == VigenereFamily(countersign, ptAlphabet, ctAlphabet, keyAlphabet)
  {
    ghost var rows := ShiftRows(ptAlphabet, ctAlphabet, |keyAlphabet|);
    var ciphers: map<Rune, Row> := map[];
    for i := 0 to |keyAlphabet|
      invariant ciphers == Tabulate(keyAlphabet[..i], rows[..i])
    {
      var ctAlphabet3 := Rotate(ctAlphabet, i);
      assert rows[..i + 1] == rows[..i] + [Row(ptAlphabet, ctAlphabet3)];
      TabulateSnoc(keyAlphabet, rows[..i], i, Row(ptAlphabet, ctAlphabet3));
      ciphers := ciphers[keyAlphabet[i] := Row(ptAlphabet, ctAlphabet3)];
    }
    assert keyAlphabet[..|keyAlphabet|] == keyAlphabet;
    assert rows[..|keyAlphabet|] == rows;
    c := VigenereFamilyCipher(PascTable(ptAlphabet, ctAlphabet, keyAlphabet, ciphers), countersign, false, false);
  }

  /**
   * The row of the `i`-th key rune (when no later key rune repeats it) pairs the
   * plaintext alphabet with the ciphertext alphabet rotated by `i`: column `x`
   * holds `ct[(x + i) mod n]`.
   */
  lemma VigenereFamilyRow(countersign: seq<Rune>, pt: seq<Rune>, ct: seq<Rune>, key: seq<Rune>, i: nat)
    requires i < |key| && LastOccurrence(key, i)
    ensures var row := VigenereFamily(countersign, pt, ct, key).RowFor(key[i]);
            && row.pt == pt
            && |row.ct| == |ct|
            && forall x :: 0 <= x < |ct| ==> row.ct[x] == ct[(x + i) % |ct|]
  {
    TabulateAt(key, ShiftRows(pt, ct, |key|), i);
    forall x | 0 <= x < |ct| {
      RotateAt(ct, i, x);
    }
  }

  /** Over one alphabet every rune of every shift row is a key rune, so autoclave feedback always has a row. */
  lemma VigenereRowsClosed(countersign: seq<Rune>, alphabet: seq<Rune>)
    ensures RowsClosed(VigenereFamily(countersign, alphabet, alphabet, alphabet))
  {
    var rows := ShiftRows(alphabet, alphabet, |alphabet|);
    var m := Tabulate(alphabet, rows);
    forall k, x | k in m && (x in m[k].pt || x in m[k].ct) ensures x in m {
      TabulateFrom(alphabet, rows, k);
      var i :| 0 <= i < |rows| && rows[i] == m[k];
      RotatePermutes(alphabet, i);
      assert x in multiset(rows[i].pt + rows[i].ct);
    }
  }

  /** Permuted alphabets without repeats make every shift row bijective. */
  lemma VigenereFamilyBijective(countersign: seq<Rune>, pt: seq<Rune>, ct: seq<Rune>, key: seq<Rune>)
    requires Distinct(pt) && Distinct(ct) && multiset(pt) == multiset(ct)
    ensures VigenereFamily(countersign, pt, ct, key).AllBijective()
  {
    var rows := ShiftRows(pt, ct, |key|);
    forall k | k in Tabulate(key, rows) ensures Bijective(Tabulate(key, rows)[k]) {
      TabulateFrom(key, rows, k);
      var i :| 0 <= i < |rows| && rows[i] == Tabulate(key, rows)[k];
      RotateDistinct(ct, i);
      RotatePermutes(ct, i);
      assert |multiset(pt)| == |pt| && |multiset(ct)| == |ct|;
    }
  }

  // ---------------------------------------------------------------------------
  // owrapString and Della Porta tables

  /**
   * `owrapString(s, i)`: the first half rotated left by `i`, the second half
   * rotated left by `half - i` (that is, right by `i`), like two gears turning
   * outward. An odd rune count panics.
   */
  function OWrap(s: seq<Rune>, i: nat): (r: seq<Rune>)
    requires |s| % 2 == 0 && i <= |s| / 2
    ensures |r| == |s|
  {
    var h := |s| / 2;
    Rotate(s[..h], i) + Rotate(s[h..], h - i)
  }

  /** Gear-wrapping is a permutation. */
  lemma OWrapPermutes(s: seq<Rune>, i: nat)
    requires |s| % 2 == 0 && i <= |s| / 2
    ensures multiset(OWrap(s, i)) == multiset(s)
  {
    var h := |s| / 2;
    RotatePermutes(s[..h], i);
    RotatePermutes(s[h..], h - i);
    assert s == s[..h] + s[h..];
  }

  /** Where each rune of the gear-wrapped string comes from. */
  lemma OWrapAt(s: seq<Rune>, i: nat, x: nat)
    requires |s| % 2 == 0 && i <= |s| / 2 && x < |s|
    ensures var h := |s| / 2;
            OWrap(s, i)[x] ==
              if x < h then (if x + i < h then s[x + i] else s[x + i - h])
              else (if x - h < i then s[x - i + h] else s[x - i])
  {
    var h := |s| / 2;
    if x < h {
      RotateAtWithin(s[..h], i, x);
    } else {
      RotateAtWithin(s[h..], h - i, x - h);
    }
  }

  /** Row `i` of a Della Porta table: the half-turned ciphertext alphabet gear-wrapped by `i / 2`. */
  function DellaPortaRow(pt: seq<Rune>, ct: seq<Rune>, i: nat): Row
    requires |ct| % 2 == 0 && i < |ct| + 2
  {
    Row(pt, OWrap(Rotate(ct, |ct| / 2), i / 2))
  }

  /** The rows of a Della Porta table, one per key position. */
  function DellaPortaRows(pt: seq<Rune>, ct: seq<Rune>, n: nat): (rows: seq<Row>)
    requires |ct| % 2 == 0 && n <= |ct| + 2
    ensures |rows| == n
  {
    seq(n, i requires 0 <= i < n => DellaPortaRow(pt, ct, i))
  }

  /**
   * The cipher `MakeDellaPortaReciprocalTable` returns. An odd ciphertext
   * alphabet panics; a key alphabet longer than the ciphertext alphabet by more
   * than two would ask `owrapString` for an offset beyond half the length.
   */
  function DellaPortaFamily(countersign: seq<Rune>, pt: seq<Rune>, ct: seq<Rune>, key: seq<Rune>): (c: VigenereFamilyCipher)
    requires |ct| % 2 == 0 && |key| <= |ct| + 2
    ensures forall r :: r in c.table.ciphers <==> r in key
    ensures !c.Autoclave() && c.countersign == countersign
  {
    VigenereFamilyCipher(PascTable(pt, ct, key, Tabulate(key, DellaPortaRows(pt, ct, |key|))), countersign, false, false)
  }

  /** `MakeDellaPortaReciprocalTable`: one gear-wrapped row per key rune, stored in the map in key order. */
  method MakeDellaPortaReciprocalTable(countersign: seq<Rune>, ptAlphabet: seq<Rune>, ctAlphabet: seq<Rune>, keyAlphabet: seq<Rune>)
    returns (c: VigenereFamilyCipher)
    requires |ctAlphabet| % 2 == 0 && |keyAlphabet| <= |ctAlphabet| + 2
    ensures c == DellaPortaFamily(countersign, ptAlphabet, ctAlphabet, keyAlphabet)
  {
    ghost var rows := DellaPortaRows(ptAlphabet, ctAlphabet, |keyAlphabet|);
    var ctAlphabet2 := Rotate(ctAlphabet, |ctAlphabet| / 2);
    var ciphers: map<Rune, Row> := map[];
    for i := 0 to |keyAlphabet|
      invariant ciphers == Tabulate(keyAlphabet[..i], rows[..i])
    {
      var ctAlphabet3 := OWrap(ctAlphabet2, i / 2);
      assert rows[..i + 1] == rows[..i] + [Row(ptAlphabet, ctAlphabet3)];
      TabulateSnoc(keyAlphabet, rows[..i], i, Row(ptAlphabet, ctAlphabet3));
      ciphers := ciphers[keyAlphabet[i] := Row(ptAlphabet, ctAlphabet3)];
    }
    assert keyAlphabet[..|keyAlphabet|] == keyAlphabet;
    assert rows[..|keyAlphabet|] == rows;
    c := VigenereFamilyCipher(PascTable(ptAlphabet, ctAlphabet, keyAlphabet, ciphers), countersign, false, false);
  }

  /** Key runes at positions `2j` and `2j + 1` get the same row. */
  lemma DellaPortaPairs(countersign: seq<Rune>, pt: seq<Rune>, ct: seq<Rune>, key: seq<Rune>, j: nat)
    requires |ct| % 2 == 0 && |key| <= |ct| + 2
    requires 2 * j + 1 < |key| && LastOccurrence(key, 2 * j) && LastOccurrence(key, 2 * j + 1)
    ensures var c := DellaPortaFamily(countersign, pt, ct, key);
            c.RowFor(key[2 * j]) == c.RowFor(key[2 * j + 1])
  {
    var rows := DellaPortaRows(pt, ct, |key|);
    DellaPortaRowPair(pt, ct, j);
    TabulateSame(key, rows, 2 * j, 2 * j + 1);
  }

  lemma DellaPortaRowPair(pt: seq<Rune>, ct: seq<Rune>, j: nat)
    requires |ct| % 2 == 0 && 2 * j + 1 < |ct| + 2
    ensures DellaPortaRow(pt, ct, 2 * j) == DellaPortaRow(pt, ct, 2 * j + 1)
  {
    HalfOf(2 * j, j);
    HalfOf(2 * j + 1, j);
  }

  /**
   * Where rune `x` of a Della Porta row over an alphabet of `2h` runes comes from:
   * a position in the low half is read from the high half, shifted by `j`, and
   * the other way round.
   */
  function GearSource(x: nat, j: nat, h: nat): nat
    requires j <= h
  {
    if x < h then (if x + j < h then x + j + h else x + j)
    else (if x - j < h then x - j else x - j - h)
  }

  /** Reading the source position's source gives the position back. */
  lemma GearSourceInvolutive(x: nat, j: nat, h: nat)
    requires x < 2 * h && j <= h
    ensures GearSource(x, j, h) < 2 * h
    ensures GearSource(GearSource(x, j, h), j, h) == x
  {
  }

  /** Where each rune of a Della Porta row comes from in the alphabet. */
  lemma GearWrapAt(a: seq<Rune>, j: nat, x: nat)
    requires |a| % 2 == 0 && j <= |a| / 2 && x < |a|
    ensures GearSource(x, j, |a| / 2) < |a|
    ensures OWrap(Rotate(a, |a| / 2), j)[x] == a[GearSource(x, j, |a| / 2)]
  {
    var h := |a| / 2;
    var ct2 := Rotate(a, h);
    OWrapAt(ct2, j, x);
    if x < h {
      var z := if x + j < h then x + j else x + j - h;
      RotateAtWithin(a, h, z);
      assert ct2[z] == a[z + h];
    } else if x - h < j {
      RotateAtWithin(a, h, x - j + h);
      assert ct2[x - j + h] == a[x - j];
    } else {
      RotateAtWithin(a, h, x - j);
      assert ct2[x - j] == a[x - j - h];
    }
  }

  /**
   * Over an even alphabet without repeats, every Della Porta row is its own
   * inverse: enciphering twice gives the rune back.
   */
  lemma DellaPortaInvolutive(a: seq<Rune>, j: nat)
    requires Distinct(a) && |a| % 2 == 0 && j <= |a| / 2
    ensures Involutive(Row(a, OWrap(Rotate(a, |a| / 2), j)))
  {
    var h := |a| / 2;
    var ct := OWrap(Rotate(a, h), j);
    forall x, y | 0 <= x < y < |a| ensures ct[x] != ct[y] {
      GearWrapAt(a, j, x);
      GearWrapAt(a, j, y);
      GearSourceInvolutive(x, j, h);
      GearSourceInvolutive(y, j, h);
    }
    forall x | 0 <= x < |a| ensures ct[x] in a && ct[IndexOf(a, ct[x])] == a[x] {
      var y := GearSource(x, j, h);
      GearWrapAt(a, j, x);
      GearSourceInvolutive(x, j, h);
      IndexOfDistinct(a, y);
      GearWrapAt(a, j, y);
    }
  }

  /** `a / 2` for `a` one of `2q`, `2q + 1`. */
  lemma HalfOf(a: nat, q: nat)
    requires a == 2 * q || a == 2 * q + 1
    ensures a / 2 == q
  {
    ModUnique(a, 2, q, a - 2 * q);
  }

  /** Reflecting a shifted position and shifting again lands on the mirror position (the Beaufort involution). */
  lemma ReflectMod(x: nat, i: nat, n: nat, y: nat)
    requires x < n && y == n - 1 - (x + i) % n
    ensures y < n && (y + i) % n == n - 1 - x
  {
    var q, m := (x + i) / n, (x + i) % n;
    assert x + i == n * q + m;
    ModUnique(y + i, n, q, n - 1 - x);
  }

  /** Every row of a Della Porta table over one even alphabet without repeats is involutive. */
  lemma DellaPortaFamilyInvolutive(countersign: seq<Rune>, a: seq<Rune>)
    requires Distinct(a) && |a| % 2 == 0
    ensures var c := DellaPortaFamily(countersign, a, a, a);
            forall k :: k in c.table.ciphers ==> Involutive(c.table.ciphers[k])
  {
    var rows := DellaPortaRows(a, a, |a|);
    forall k | k in Tabulate(a, rows) ensures Involutive(Tabulate(a, rows)[k]) {
      TabulateFrom(a, rows, k);
      var i :| 0 <= i < |rows| && rows[i] == Tabulate(a, rows)[k];
      assert rows[i] == DellaPortaRow(a, a, i);
      DellaPortaInvolutive(a, i / 2);
    }
  }

  // ---------------------------------------------------------------------------
  // Beaufort rows

  /** Over an alphabet without repeats, every Beaufort row (the reversed alphabet rotated by `i`) is its own inverse. */
  lemma BeaufortInvolutive(a: seq<Rune>, i: nat)
    requires Distinct(a)
    ensures Involutive(Row(a, Rotate(Reverse(a), i)))
  {
    var n := |a|;
    var rev := Reverse(a);
    var ct := Rotate(rev, i);
    ReverseDistinct(a);
    RotateDistinct(rev, i);
    forall x | 0 <= x < n ensures ct[x] in a && ct[IndexOf(a, ct[x])] == a[x] {
      BeaufortColumn(a, i, x);
    }
  }

  /** Column `x` of a Beaufort row holds a rune whose own column holds `a[x]`. */
  lemma BeaufortColumn(a: seq<Rune>, i: nat, x: nat)
    requires Distinct(a) && x < |a|
    ensures var ct := Rotate(Reverse(a), i);
            ct[x] in a && ct[IndexOf(a, ct[x])] == a[x]
  {
    var y := BeaufortPartner(a, i, x);
    SwappedColumns(a, Rotate(Reverse(a), i), x, y);
  }

  /** Columns `x` and `n - 1 - (x + i) mod n` of a Beaufort row hold each other's letters. */
  lemma BeaufortPartner(a: seq<Rune>, i: nat, x: nat) returns (y: nat)
    requires x < |a|
    ensures y < |a| && Rotate(Reverse(a), i)[x] == a[y] && Rotate(Reverse(a), i)[y] == a[x]
  {
    var n := |a|;
    var m := (x + i) % n;
    y := n - 1 - m;
    ReflectMod(x, i, n, y);
    BeaufortRune(a, i, x, m);
    BeaufortRune(a, i, y, n - 1 - x);
  }

  /** When columns `x` and `y` of `ct` hold each other's letters, looking `ct[x]` up in `a` leads back to `a[x]`. */
  lemma SwappedColumns(a: seq<Rune>, ct: seq<Rune>, x: nat, y: nat)
    requires Distinct(a) && x < |a| && y < |a| && y < |ct| && x < |ct|
    requires ct[x] == a[y] && ct[y] == a[x]
    ensures ct[x] in a && ct[IndexOf(a, ct[x])] == a[x]
  {
    IndexOfDistinct(a, y);
  }

  /** Column `x` of the rotated reversal is rune `n - 1 - m` of the alphabet, for `m` the rotated index. */
  lemma BeaufortRune(a: seq<Rune>, i: nat, x: nat, m: nat)
    requires x < |a| && m == (x + i) % |a|
    ensures m < |a| && Rotate(Reverse(a), i)[x] == a[|a| - 1 - m]
  {
    RotateAt(Reverse(a), i, x);
  }

  /** Every row of the Beaufort table over an alphabet without repeats is involutive. */
  lemma BeaufortFamilyInvolutive(countersign: seq<Rune>, a: seq<Rune>)
    requires Distinct(a)
    ensures var rev := Reverse(a);
            var c := VigenereFamily(countersign, a, rev, rev);
            forall k :: k in c.table.ciphers ==> Involutive(c.table.ciphers[k])
  {
    var rev := Reverse(a);
    var rows := ShiftRows(a, rev, |rev|);
    forall k | k in Tabulate(rev, rows) ensures Involutive(Tabulate(rev, rows)[k]) {
      TabulateFrom(rev, rows, k);
      var i :| 0 <= i < |rows| && rows[i] == Tabulate(rev, rows)[k];
      BeaufortInvolutive(a, i);
    }
  }

  // ---------------------------------------------------------------------------
  // Named ciphers (pasc.go:156-201)

  /** `MakeVigenereCipher`: one alphabet for plaintext, ciphertext and key. */
  function MakeVigenereCipher(countersign: seq<Rune>, alphabet: seq<Rune>): (c: VigenereFamilyCipher)
    ensures Distinct(alphabet) ==> c.AllBijective()
    ensures forall r :: r in c.table.ciphers <==> r in alphabet
  {
    if Distinct(alphabet) then
      VigenereFamilyBijective(countersign, alphabet, alphabet, alphabet);
      VigenereFamily(countersign, alphabet, alphabet, alphabet)
    else
      VigenereFamily(countersign, alphabet, alphabet, alphabet)
  }

  /** `MakeVigenereTextAutoclaveCipher`: the Vigenère table, extending the key with the plaintext. */
  function MakeVigenereTextAutoclaveCipher(countersign: seq<Rune>, alphabet: seq<Rune>): (c: VigenereFamilyCipher)
    ensures Distinct(alphabet) ==> c.AllBijective()
    ensures c.textAutoclave && !c.keyAutoclave
  {
    MakeVigenereCipher(countersign, alphabet).(textAutoclave := true)
  }

  /** `MakeVigenereKeyAutoclaveCipher`: the Vigenère table, extending the key with the ciphertext. */
  function MakeVigenereKeyAutoclaveCipher(countersign: seq<Rune>, alphabet: seq<Rune>): (c: VigenereFamilyCipher)
    ensures Distinct(alphabet) ==> c.AllBijective()
    ensures !c.textAutoclave && c.keyAutoclave
  {
    MakeVigenereCipher(countersign, alphabet).(keyAutoclave := true)
  }

  /** `MakeBeaufortCipher`: plaintext alphabet against the reversed alphabet, keyed by the reversed alphabet. */
  function MakeBeaufortCipher(countersign: seq<Rune>, alphabet: seq<Rune>): (c: VigenereFamilyCipher)
    ensures Distinct(alphabet) ==> forall k :: k in c.table.ciphers ==> Involutive(c.table.ciphers[k])
    ensures forall r :: r in c.table.ciphers <==> r in alphabet
  {
    var rev := Reverse(alphabet);
    forall r ensures r in rev <==> r in alphabet {
      ReverseMembers(alphabet, r);
    }
    if Distinct(alphabet) then
      BeaufortFamilyInvolutive(countersign, alphabet);
      VigenereFamily(countersign, alphabet, rev, rev)
    else
      VigenereFamily(countersign, alphabet, rev, rev)
  }

  /** `MakeGronsfeldCipher`: the Vigenère rows keyed by the ten digits. */
  function MakeGronsfeldCipher(countersign: seq<Rune>, alphabet: seq<Rune>): (c: VigenereFamilyCipher)
    ensures Distinct(alphabet) ==> c.AllBijective()
    ensures forall r :: r in c.table.ciphers <==> r in Digits
  {
    if Distinct(alphabet) then
      VigenereFamilyBijective(countersign, alphabet, alphabet, Digits);
      VigenereFamily(countersign, alphabet, alphabet, Digits)
    else
      VigenereFamily(countersign, alphabet, alphabet, Digits)
  }

  /** `MakeVariantBeaufortCipher`: the reversed alphabet for plaintext and ciphertext, keyed by the alphabet. */
  function MakeVariantBeaufortCipher(countersign: seq<Rune>, alphabet: seq<Rune>): (c: VigenereFamilyCipher)
    ensures Distinct(alphabet) ==> c.AllBijective()
    ensures forall r :: r in c.table.ciphers <==> r in alphabet
  {
    var rev := Reverse(alphabet);
    if Distinct(alphabet) then
      ReverseDistinct(alphabet);
      VigenereFamilyBijective(countersign, rev, rev, alphabet);
      VigenereFamily(countersign, rev, rev, alphabet)
    else
      VigenereFamily(countersign, rev, rev, alphabet)
  }

  /** `MakeTrithemiusCipher`: the Vigenère cipher whose countersign is the alphabet itself. */
  function MakeTrithemiusCipher(alphabet: seq<Rune>): (c: VigenereFamilyCipher)
    ensures Distinct(alphabet) ==> c.AllBijective()
    ensures c.countersign == alphabet && !c.Autoclave()
  {
    MakeVigenereCipher(alphabet, alphabet)
  }

  /** `MakeDellaPortaCipher`: a Della Porta table over one alphabet; an odd alphabet panics. */
  function MakeDellaPortaCipher(countersign: seq<Rune>, alphabet: seq<Rune>): (c: VigenereFamilyCipher)
    requires |alphabet| % 2 == 0
    ensures Distinct(alphabet) ==> forall k :: k in c.table.ciphers ==> Involutive(c.table.ciphers[k])
    ensures forall r :: r in c.table.ciphers <==> r in alphabet
  {
    if Distinct(alphabet) then
      DellaPortaFamilyInvolutive(countersign, alphabet);
      DellaPortaFamily(countersign, alphabet, alphabet, alphabet)
    else
      DellaPortaFamily(countersign, alphabet, alphabet, alphabet)
  }

  // ---------------------------------------------------------------------------
  // What the named shift ciphers compute

  /**
   * The Vigenère sum: position `k` of `s` moved along `alphabet` by the position
   * of key rune `k mod |countersign|`, wrapping around.
   */
  function VigenereSum(alphabet: seq<Rune>, countersign: seq<Rune>, s: seq<Rune>): (out: seq<Rune>)
    requires |alphabet| > 0 && countersign != []
    ensures |out| == |s|
  {
    seq(|s|, k requires 0 <= k < |s| => ShiftedBy(alphabet, s[k], countersign[k % |countersign|]))
  }

  lemma VigenereSumAt(alphabet: seq<Rune>, countersign: seq<Rune>, s: seq<Rune>, k: nat)
    requires |alphabet| > 0 && countersign != [] && k < |s|
    ensures VigenereSum(alphabet, countersign, s)[k] == ShiftedBy(alphabet, s[k], countersign[k % |countersign|])
  {
  }

  /** `r` moved along `alphabet` by the position of `kr`, wrapping around. */
  function ShiftedBy(alphabet: seq<Rune>, r: Rune, kr: Rune): Rune
    requires |alphabet| > 0
  {
    alphabet[(IndexOf(alphabet, r) + IndexOf(alphabet, kr)) % |alphabet|]
  }

  /** In the Vigenère table over an alphabet without repeats, key rune `kr` moves `r` along by the position of `kr`. */
  lemma VigenereRowShifts(countersign: seq<Rune>, alphabet: seq<Rune>, kr: Rune, r: Rune, strict: bool)
    requires Distinct(alphabet) && kr in alphabet && r in alphabet
    ensures TranscodeRune(VigenereFamily(countersign, alphabet, alphabet, alphabet).RowFor(kr), r, strict, Forward) ==
            Transcoded(ShiftedBy(alphabet, r, kr))
  {
    var i, x := IndexOf(alphabet, kr), IndexOf(alphabet, r);
    assert alphabet[i] == kr && alphabet[x] == r;
    VigenereRowShiftsAt(countersign, alphabet, i, x, strict);
    ShiftedByAt(alphabet, i, x);
  }

  /** The same by positions: the key rune at `i` moves the rune at `x` to position `(x + i) mod n`. */
  lemma VigenereRowShiftsAt(countersign: seq<Rune>, alphabet: seq<Rune>, i: nat, x: nat, strict: bool)
    requires Distinct(alphabet) && i < |alphabet| && x < |alphabet|
    ensures TranscodeRune(VigenereFamily(countersign, alphabet, alphabet, alphabet).RowFor(alphabet[i]), alphabet[x], strict, Forward) ==
            Transcoded(alphabet[(x + i) % |alphabet|])
  {
    VigenereRowOf(countersign, alphabet, i);
    IndexOfDistinct(alphabet, x);
    RotateAt(alphabet, i, x);
  }

  /** Over an alphabet without repeats, the rune at `x` shifted by the rune at `i` is the rune at `(x + i) mod n`. */
  lemma ShiftedByAt(alphabet: seq<Rune>, i: nat, x: nat)
    requires Distinct(alphabet) && i < |alphabet| && x < |alphabet|
    ensures ShiftedBy(alphabet, alphabet[x], alphabet[i]) == alphabet[(x + i) % |alphabet|]
  {
    IndexOfDistinct(alphabet, x);
    IndexOfDistinct(alphabet, i);
  }

  /** The Vigenère row of the rune at position `i` of an alphabet without repeats is the alphabet rotated by `i`. */
  lemma VigenereRowOf(countersign: seq<Rune>, alphabet: seq<Rune>, i: nat)
    requires Distinct(alphabet) && i < |alphabet|
    ensures VigenereFamily(countersign, alphabet, alphabet, alphabet).RowFor(alphabet[i]) == Row(alphabet, Rotate(alphabet, i))
  {
    var rows := ShiftRows(alphabet, alphabet, |alphabet|);
    assert LastOccurrence(alphabet, i);
    TabulateAt(alphabet, rows, i);
  }

  /**
   * Without autoclave, over an alphabet without repeats, a text and countersign
   * drawn from the alphabet are all transcoded, each rune by the Vigenère sum.
   */
  lemma VigenereShift(countersign: seq<Rune>, alphabet: seq<Rune>, strict: bool, s: seq<Rune>)
    requires Distinct(alphabet) && alphabet != [] && countersign != []
    requires forall j :: 0 <= j < |countersign| ==> countersign[j] in alphabet
    requires forall k :: 0 <= k < |s| ==> s[k] in alphabet
    ensures Run(MakeVigenereCipher(countersign, alphabet), Forward, strict, s).count == |s|
    ensures Run(MakeVigenereCipher(countersign, alphabet), Forward, strict, s).out == VigenereSum(alphabet, countersign, s)
  {
    var c := VigenereFamily(countersign, alphabet, alphabet, alphabet);
    assert MakeVigenereCipher(countersign, alphabet) == c;
    VigenereCovers(countersign, alphabet, strict, s);
    OutputAt(c, Forward, strict, s);
    VigenereKeyedSum(countersign, alphabet, strict, s);
  }

  /** Every Vigenère row a countersign from the alphabet selects transcodes every rune of the alphabet. */
  lemma VigenereCovers(countersign: seq<Rune>, alphabet: seq<Rune>, strict: bool, s: seq<Rune>)
    requires Distinct(alphabet)
    requires forall j :: 0 <= j < |countersign| ==> countersign[j] in alphabet
    requires forall k :: 0 <= k < |s| ==> s[k] in alphabet
    ensures CountersignCovers(VigenereFamily(countersign, alphabet, alphabet, alphabet), Forward, strict, s)
  {
    var c := VigenereFamily(countersign, alphabet, alphabet, alphabet);
    forall k, j | 0 <= k < |s| && 0 <= j < |countersign|
      ensures TranscodeRune(c.RowFor(countersign[j]), s[k], strict, Forward).Transcoded?
    {
      VigenereRowShifts(countersign, alphabet, countersign[j], s[k], strict);
    }
  }

  /** Rune by rune, the keyed output of the Vigenère table is the Vigenère sum. */
  lemma VigenereKeyedSum(countersign: seq<Rune>, alphabet: seq<Rune>, strict: bool, s: seq<Rune>)
    requires Distinct(alphabet) && alphabet != [] && countersign != []
    requires forall j :: 0 <= j < |countersign| ==> countersign[j] in alphabet
    requires forall k :: 0 <= k < |s| ==> s[k] in alphabet
    requires CountersignCovers(VigenereFamily(countersign, alphabet, alphabet, alphabet), Forward, strict, s)
    ensures KeyedOutput(VigenereFamily(countersign, alphabet, alphabet, alphabet), Forward, strict, s) == VigenereSum(alphabet, countersign, s)
  {
    KeyedSumAll(countersign, alphabet, strict, s);
  }

  /** Every rune of the text, sent through the row of its countersign rune, lands on its rune of the Vigenère sum. */
  lemma KeyedSumAll(countersign: seq<Rune>, alphabet: seq<Rune>, strict: bool, s: seq<Rune>)
    requires Distinct(alphabet) && countersign != []
    requires forall j :: 0 <= j < |countersign| ==> countersign[j] in alphabet
    requires forall k :: 0 <= k < |s| ==> s[k] in alphabet
    ensures forall k :: 0 <= k < |s| ==>
              TranscodeRune(VigenereFamily(countersign, alphabet, alphabet, alphabet).RowFor(countersign[k % |countersign|]), s[k], strict, Forward)
              == Transcoded(VigenereSum(alphabet, countersign, s)[k])
  {
    forall k | 0 <= k < |s|
      ensures TranscodeRune(VigenereFamily(countersign, alphabet, alphabet, alphabet).RowFor(countersign[k % |countersign|]), s[k], strict, Forward)
              == Transcoded(VigenereSum(alphabet, countersign, s)[k])
    {
      KeyedSumAt(countersign, alphabet, strict, s, k, countersign[k % |countersign|]);
    }
  }

  /** Rune `k` of the text, sent through the row of its countersign rune `kr`, lands on rune `k` of the Vigenère sum. */
  lemma KeyedSumAt(countersign: seq<Rune>, alphabet: seq<Rune>, strict: bool, s: seq<Rune>, k: nat, kr: Rune)
    requires Distinct(alphabet) && countersign != [] && k < |s| && s[k] in alphabet
    requires kr == countersign[k % |countersign|] && kr in alphabet
    ensures TranscodeRune(VigenereFamily(countersign, alphabet, alphabet, alphabet).RowFor(kr), s[k], strict, Forward)
            == Transcoded(VigenereSum(alphabet, countersign, s)[k])
  {
    VigenereRowShifts(countersign, alphabet, kr, s[k], strict);
    VigenereSumAt(alphabet, countersign, s, k);
  }

  /** The Trithemius progression: the rune at `k` moved `k` places along `alphabet`, wrapping around. */
  function TrithemiusText(alphabet: seq<Rune>, s: seq<Rune>): (out: seq<Rune>)
    requires |alphabet| > 0
    ensures |out| == |s|
  {
    seq(|s|, k requires 0 <= k < |s| => Advanced(alphabet, s[k], k))
  }

  /** `r` moved `k` places along `alphabet`, wrapping around. */
  function Advanced(alphabet: seq<Rune>, r: Rune, k: nat): Rune
    requires |alphabet| > 0
  {
    alphabet[(IndexOf(alphabet, r) + k) % |alphabet|]
  }

  /**
   * The Trithemius cipher over an alphabet without repeats transcodes every rune
   * of a text drawn from the alphabet, moving the `k`-th one `k` places along.
   */
  lemma TrithemiusShift(alphabet: seq<Rune>, strict: bool, s: seq<Rune>)
    requires Distinct(alphabet) && alphabet != []
    requires forall k :: 0 <= k < |s| ==> s[k] in alphabet
    ensures Run(MakeTrithemiusCipher(alphabet), Forward, strict, s).count == |s|
    ensures Run(MakeTrithemiusCipher(alphabet), Forward, strict, s).out == TrithemiusText(alphabet, s)
  {
    assert MakeTrithemiusCipher(alphabet) == MakeVigenereCipher(alphabet, alphabet);
    VigenereShift(alphabet, alphabet, strict, s);
    TrithemiusSum(alphabet, s);
  }

  /** Keyed by the alphabet itself, the Vigenère sum is the Trithemius progression. */
  lemma TrithemiusSum(alphabet: seq<Rune>, s: seq<Rune>)
    requires Distinct(alphabet) && alphabet != []
    ensures VigenereSum(alphabet, alphabet, s) == TrithemiusText(alphabet, s)
  {
    forall k | 0 <= k < |s| ensures VigenereSum(alphabet, alphabet, s)[k] == TrithemiusText(alphabet, s)[k] {
      VigenereSumAt(alphabet, alphabet, s, k);
      ShiftedByPosition(alphabet, s[k], k);
    }
  }

  /** Shifting by the rune at position `k mod n` is shifting by `k`. */
  lemma ShiftedByPosition(alphabet: seq<Rune>, r: Rune, k: nat)
    requires Distinct(alphabet) && alphabet != []
    ensures ShiftedBy(alphabet, r, alphabet[k % |alphabet|]) == Advanced(alphabet, r, k)
  {
    IndexOfDistinct(alphabet, k % |alphabet|);
    ModOfMod(IndexOf(alphabet, r), k, |alphabet|);
  }

  /** The Vigenère countersign whose runes stand where the Gronsfeld digits point: digit `v` becomes `alphabet[v]`. */
  function DigitsAsLetters(countersign: seq<Rune>, alphabet: seq<Rune>): (k: seq<Rune>)
    requires forall j :: 0 <= j < |countersign| ==> IndexOf(Digits, countersign[j]) < |alphabet|
    ensures |k| == |countersign|
    ensures forall j :: 0 <= j < |countersign| ==> k[j] in alphabet
  {
    seq(|countersign|, j requires 0 <= j < |countersign| => alphabet[IndexOf(Digits, countersign[j])])
  }

  /**
   * A Gronsfeld cipher with a digit countersign transcodes exactly like the
   * Vigenère cipher whose countersign holds, for each digit `v`, the rune
   * `alphabet[v]` (over an alphabet without repeats, at least as long as the digit).
   */
  lemma GronsfeldIsVigenere(countersign: seq<Rune>, alphabet: seq<Rune>, d: Direction, strict: bool, s: seq<Rune>)
    requires Distinct(alphabet) && countersign != []
    requires forall j :: 0 <= j < |countersign| ==> countersign[j] in Digits && IndexOf(Digits, countersign[j]) < |alphabet|
    ensures var g, v := MakeGronsfeldCipher(countersign, alphabet), MakeVigenereCipher(DigitsAsLetters(countersign, alphabet), alphabet);
            Run(g, d, strict, s).out == Run(v, d, strict, s).out && Run(g, d, strict, s).count == Run(v, d, strict, s).count
  {
    var g, v := MakeGronsfeldCipher(countersign, alphabet), MakeVigenereCipher(DigitsAsLetters(countersign, alphabet), alphabet);
    forall j, r | 0 <= j < |countersign|
      ensures TranscodeRune(g.RowFor(g.countersign[j]), r, strict, d) == TranscodeRune(v.RowFor(v.countersign[j]), r, strict, d)
    {
      GronsfeldRow(countersign, alphabet, j);
    }
    Congruent(g, d, v, d, strict, s);
  }

  /** The row Gronsfeld digit `j` selects is the row its Vigenère letter selects. */
  lemma GronsfeldRow(countersign: seq<Rune>, alphabet: seq<Rune>, j: nat)
    requires Distinct(alphabet) && j < |countersign|
    requires forall j :: 0 <= j < |countersign| ==> countersign[j] in Digits && IndexOf(Digits, countersign[j]) < |alphabet|
    ensures MakeGronsfeldCipher(countersign, alphabet).RowFor(countersign[j]) ==
            MakeVigenereCipher(DigitsAsLetters(countersign, alphabet), alphabet).RowFor(DigitsAsLetters(countersign, alphabet)[j])
  {
    var v := IndexOf(Digits, countersign[j]);
    var k := DigitsAsLetters(countersign, alphabet);
    assert MakeGronsfeldCipher(countersign, alphabet) == VigenereFamily(countersign, alphabet, alphabet, Digits);
    assert MakeVigenereCipher(k, alphabet) == VigenereFamily(k, alphabet, alphabet, alphabet);
    ShiftRowAt(countersign, k, alphabet, v);
  }

  /** Digit `v`'s row in a Gronsfeld table and letter `v`'s row in a Vigenère table are both the shift by `v`. */
  lemma ShiftRowAt(countersign: seq<Rune>, key: seq<Rune>, alphabet: seq<Rune>, v: nat)
    requires Distinct(alphabet) && v < |Digits| && v < |alphabet|
    ensures VigenereFamily(countersign, alphabet, alphabet, Digits).RowFor(Digits[v]) == Row(alphabet, Rotate(alphabet, v))
    ensures VigenereFamily(key, alphabet, alphabet, alphabet).RowFor(alphabet[v]) == Row(alphabet, Rotate(alphabet, v))
  {
    assert Distinct(Digits);
    TabulateAt(Digits, ShiftRows(alphabet, alphabet, |Digits|), v);
    TabulateAt(alphabet, ShiftRows(alphabet, alphabet, |alphabet|), v);
  }
}
