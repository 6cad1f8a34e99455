/**
 * Rune sequences and the small string helpers the tabula recta code relies on
 * (`wrapString`, `reverseString`, `stringutil.Backpermute`, the rune/byte length
 * check and the map filled by a `range` loop over a key alphabet).
 *
 * The helpers' own Go sources are not part of this model; each is stated here as
 * the behaviour its call sites and documentation assume.
 */
module Runes {
  import opened Results

  /** A decoded Unicode code point, as Go's `rune` after `[]rune(s)`. */
  type Rune = char

  /** The default alphabet `pasc.Alphabet`: the 26 upper-case Latin letters. */
  const Alphabet: seq<Rune> := "ABCDEFGHIJKLMNOPQRSTUVWXYZ"

  /** The Gronsfeld key alphabet. */
  const Digits: seq<Rune> := "0123456789"

  /** `s` if it is non-empty, `otherwise` if it is empty (the `if x == "" { x = d }` idiom). */
  function OrDefault(s: seq<Rune>, otherwise: seq<Rune>): seq<Rune>
  {
    if s == [] then otherwise else s
  }

  predicate Distinct(s: seq<Rune>)
  {
    forall i, j :: 0 <= i < j < |s| ==> s[i] != s[j]
  }

  /** Position of the first occurrence of `r` in `s`, or `|s|` when `r` does not occur. */
  function IndexOf(s: seq<Rune>, r: Rune): (j: nat)
    ensures j <= |s|
    ensures j < |s| ==> s[j] == r
    ensures forall k :: 0 <= k < j ==> s[k] != r
  {
    if s == [] then 0 else if s[0] == r then 0 else 1 + IndexOf(s[1..], r)
  }

  lemma IndexOfDistinct(s: seq<Rune>, j: nat)
    requires Distinct(s) && j < |s|
    ensures IndexOf(s, s[j]) == j
  {
  }

  // ---------------------------------------------------------------------------
  // Modular arithmetic used by the rotations

  lemma {:induction false} MulAtLeast(n: nat, k: nat)
    requires k >= 1
    ensures n * k >= n
    decreases k
  {
    if k > 1 {
      MulAtLeast(n, k - 1);
      assert n * k == n * (k - 1) + n;
    }
  }

  /** Euclidean division has a unique remainder. */
  lemma ModUnique(a: int, n: int, q: int, r: int)
    requires n > 0 && a == n * q + r && 0 <= r < n
    ensures a % n == r
  {
    var q', r' := a / n, a % n;
    assert a == n * q' + r';
    assert n * (q - q') == r' - r;
    if q > q' {
      MulAtLeast(n, q - q');
      assert false;
    } else if q < q' {
      assert n * (q' - q) == r - r';
      MulAtLeast(n, q' - q);
      assert false;
    }
  }

  lemma ModBelowTwice(a: int, n: int)
    requires 0 < n && 0 <= a < 2 * n
    ensures a % n == if a < n then a else a - n
  {
  }

  lemma ModOfMod(a: nat, b: nat, n: nat)
    requires n > 0
    ensures (a + b % n) % n == (a + b) % n
  {
    var c := a + b % n;
    assert b == n * (b / n) + b % n;
    assert c == n * (c / n) + c % n;
    ModUnique(a + b, n, b / n + c / n, c % n);
  }

  lemma ModAddN(x: nat, n: nat)
    requires n > 0
    ensures (x + n) % n == x % n
  {
    assert x == n * (x / n) + x % n;
    ModUnique(x + n, n, x / n + 1, x % n);
  }

  // ---------------------------------------------------------------------------
  // wrapString and reverseString

  /**
   * `wrapString(s, i)`: the runes of `s` rotated left by `i` positions, the
   * offset taken modulo the rune count (an empty string stays empty).
   */
  function Rotate(s: seq<Rune>, i: nat): (r: seq<Rune>)
    ensures |r| == |s|
  {
    seq(|s|, x requires 0 <= x < |s| => s[(x + i) % |s|])
  }

  /** Rune `x` of the rotation is rune `(x + i) mod n` of the original. */
  lemma RotateAt(s: seq<Rune>, i: nat, x: nat)
    requires x < |s|
    ensures Rotate(s, i)[x] == s[(x + i) % |s|]
  {
  }

  /** Every rune of the rotation, by `RotateAt`. */
  lemma RotateColumns(s: seq<Rune>, i: nat)
    ensures forall x :: 0 <= x < |s| ==> Rotate(s, i)[x] == s[(x + i) % |s|]
  {
    forall x | 0 <= x < |s| {
      RotateAt(s, i, x);
    }
  }

  /** A rotation is the suffix from the offset followed by the prefix before it, hence a permutation. */
  lemma RotatePermutes(s: seq<Rune>, i: nat)
    ensures |s| > 0 ==> Rotate(s, i) == s[i % |s|..] + s[..i % |s|]
    ensures multiset(Rotate(s, i)) == multiset(s)
  {
    if |s| > 0 {
      var n, j := |s|, i % |s|;
      var r := Rotate(s, i);
      forall x | 0 <= x < n ensures r[x] == (s[j..] + s[..j])[x] {
        ModOfMod(x, i, n);
        ModBelowTwice(x + j, n);
      }
      assert r == s[j..] + s[..j];
      assert s == s[..j] + s[j..];
    }
  }

  /** The same, for an offset of at most one full turn, without the modulo. */
  lemma RotateAtWithin(s: seq<Rune>, i: nat, x: nat)
    requires x < |s| && i <= |s|
    ensures Rotate(s, i)[x] == if x + i < |s| then s[x + i] else s[x + i - |s|]
  {
    RotateAt(s, i, x);
    ModBelowTwice(x + i, |s|);
  }

  lemma RotateDistinct(s: seq<Rune>, i: nat)
    requires Distinct(s)
    ensures Distinct(Rotate(s, i))
  {
    if |s| > 0 {
      var r := Rotate(s, i);
      forall a, b | 0 <= a < b < |s| ensures r[a] != r[b] {
        RotateAt(s, i, a);
        RotateAt(s, i, b);
        ModBelowTwice(a + i % |s|, |s|);
        ModBelowTwice(b + i % |s|, |s|);
        ModOfMod(a, i, |s|);
        ModOfMod(b, i, |s|);
      }
    }
  }

  lemma RotateMembers(s: seq<Rune>, i: nat, r: Rune)
    ensures r in Rotate(s, i) <==> r in s
  {
    RotatePermutes(s, i);
    assert r in multiset(Rotate(s, i)) <==> r in multiset(s);
  }

  /** `reverseString(s)`: the runes of `s` in reverse order. */
  function Reverse(s: seq<Rune>): (r: seq<Rune>)
    ensures |r| == |s|
  {
    seq(|s|, i requires 0 <= i < |s| => s[|s| - 1 - i])
  }

  lemma ReverseDistinct(s: seq<Rune>)
    requires Distinct(s)
    ensures Distinct(Reverse(s))
  {
  }

  lemma ReverseMembers(s: seq<Rune>, r: Rune)
    ensures r in Reverse(s) <==> r in s
  {
    if r in s {
      var k :| 0 <= k < |s| && s[k] == r;
      assert Reverse(s)[|s| - 1 - k] == r;
    }
  }

  // ---------------------------------------------------------------------------
  // stringutil.Backpermute and the Caesar-shift permutation

  /** `stringutil.Backpermute(s, ii)`: rune `x` of the result is `s[ii[x]]`; no result when an index is out of range. */
  function Backpermute(s: seq<Rune>, ii: seq<int>): (r: Option<seq<Rune>>)
    ensures r.Some? <==> forall x :: 0 <= x < |ii| ==> 0 <= ii[x] < |s|
    ensures r.Some? ==> |r.value| == |ii| && forall x :: 0 <= x < |ii| ==> r.value[x] == s[ii[x]]
  {
    if forall x :: 0 <= x < |ii| ==> 0 <= ii[x] < |s| then
      Some(seq(|ii|, x requires 0 <= x < |ii| => s[ii[x]]))
    else
      None
  }

  /** The index permutation of a Caesar shift by `y` over `n` runes: position `x` reads `(x + y) mod n`. */
  function ShiftIndices(n: nat, y: nat): (ii: seq<int>)
    ensures |ii| == n
    ensures forall x :: 0 <= x < n ==> 0 <= ii[x] < n
  {
    seq(n, x requires 0 <= x < n => (x + y) % n)
  }

  /** The shift permutation never leaves the alphabet, so the backpermutation always succeeds, and it is the rotation. */
  lemma ShiftIsRotation(ct: seq<Rune>, y: nat)
    ensures Backpermute(ct, ShiftIndices(|ct|, y)) == Some(Rotate(ct, y))
  {
    var ii := ShiftIndices(|ct|, y);
    var r := Backpermute(ct, ii);
    assert r.Some?;
    var rot := Rotate(ct, y);
    forall x | 0 <= x < |ct| ensures r.value[x] == rot[x] {
      RotateAt(ct, y, x);
      assert r.value[x] == ct[ii[x]];
    }
    assert r.value == rot;
  }

  // ---------------------------------------------------------------------------
  // UTF-8 byte length and the rune/byte check

  /** Number of bytes in the UTF-8 encoding of `r`. */
  function RuneWidth(r: Rune): (w: nat)
    ensures 1 <= w <= 4
    ensures w == 1 <==> (r as int) < 0x80
  {
    if (r as int) < 0x80 then 1
    else if (r as int) < 0x800 then 2
    else if (r as int) < 0x10000 then 3
    else 4
  }

  /** `len(s)` in Go: the byte length of the UTF-8 encoding. */
  function ByteLength(s: seq<Rune>): nat
  {
    if s == [] then 0 else RuneWidth(s[0]) + ByteLength(s[1..])
  }

  predicate SingleByte(s: seq<Rune>)
  {
    forall i :: 0 <= i < |s| ==> (s[i] as int) < 0x80
  }

  lemma {:induction false} ByteLengthAtLeast(s: seq<Rune>)
    ensures ByteLength(s) >= |s|
  {
    if s != [] {
      ByteLengthAtLeast(s[1..]);
    }
  }

  /** `len([]rune(s)) == len(s)` holds exactly when every rune of `s` encodes in one byte. */
  lemma {:induction false} RuneCountIsByteLength(s: seq<Rune>)
    ensures ByteLength(s) == |s| <==> SingleByte(s)
  {
    if s != [] {
      RuneCountIsByteLength(s[1..]);
      ByteLengthAtLeast(s[1..]);
      assert SingleByte(s) <==> (s[0] as int) < 0x80 && SingleByte(s[1..]) by {
        if SingleByte(s) {
          forall i | 0 <= i < |s[1..]| ensures (s[1..][i] as int) < 0x80 {
            assert s[1..][i] == s[i + 1];
          }
        }
        if (s[0] as int) < 0x80 && SingleByte(s[1..]) {
          forall i | 0 <= i < |s| ensures (s[i] as int) < 0x80 {
            if i > 0 { assert s[i] == s[1..][i - 1]; }
          }
        }
      }
    }
  }

  // ---------------------------------------------------------------------------
  // The map filled by `for i, r := range key { m[r] = vals[i] }`

  /** True when no later position of `key` repeats the rune at position `i`. */
  predicate LastOccurrence(key: seq<Rune>, i: nat)
    requires i < |key|
  {
    forall j :: i < j < |key| ==> key[j] != key[i]
  }

  /** The map that assigns `m[key[i]] = vals[i]` for `i` in increasing order. */
  function Tabulate<V>(key: seq<Rune>, vals: seq<V>): (m: map<Rune, V>)
    requires |vals| == |key|
    ensures forall r :: r in m <==> r in key
  {
    if key == [] then map[]
    else Tabulate(key[..|key| - 1], vals[..|vals| - 1])[key[|key| - 1] := vals[|vals| - 1]]
  }

  /** One more turn of the filling loop. */
  lemma TabulateSnoc<V>(key: seq<Rune>, vals: seq<V>, i: nat, v: V)
    requires i < |key| && |vals| == i
    ensures Tabulate(key[..i + 1], vals + [v]) == Tabulate(key[..i], vals)[key[i] := v]
  {
    assert key[..i + 1][..i] == key[..i];
    assert (vals + [v])[..i] == vals;
  }

  /** Two key runes, each at its last occurrence, given equal values, look up equal values. */
  lemma TabulateSame<V>(key: seq<Rune>, vals: seq<V>, i: nat, k: nat)
    requires |vals| == |key| && i < |key| && k < |key| && LastOccurrence(key, i) && LastOccurrence(key, k)
    requires vals[i] == vals[k]
    ensures Tabulate(key, vals)[key[i]] == Tabulate(key, vals)[key[k]]
  {
    TabulateAt(key, vals, i);
    TabulateAt(key, vals, k);
  }

  /** A duplicated key rune keeps the value of its last occurrence. */
  lemma {:induction false} TabulateAt<V>(key: seq<Rune>, vals: seq<V>, i: nat)
    requires |vals| == |key| && i < |key| && LastOccurrence(key, i)
    ensures Tabulate(key, vals)[key[i]] == vals[i]
  {
    var n := |key| - 1;
    if i < n {
      TabulateAt(key[..n], vals[..n], i);
    }
  }

  /** Every value the map holds is one of the values it was filled from. */
  lemma {:induction false} TabulateFrom<V>(key: seq<Rune>, vals: seq<V>, r: Rune)
    requires |vals| == |key| && r in key
    ensures Tabulate(key, vals)[r] in vals
  {
    var n := |key| - 1;
    if key[n] != r {
      assert r in key[..n] by {
        var k :| 0 <= k < |key| && key[k] == r;
        assert key[..n][k] == r;
      }
      TabulateFrom(key[..n], vals[..n], r);
      assert vals[..n] <= vals;
    }
  }
}
