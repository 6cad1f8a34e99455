/**
 * The streaming engine of pasc.go (lines 25-31, 52-58 and 104-142): a Vigenère-family
 * cipher holds one row per key rune and a countersign; `Encipher` and `Decipher`
 * walk the input once through `strings.Map`, reading the key buffer at
 * `transcodedCharCount mod len(keyRunes)`, advancing the counter only for a rune a
 * row actually transcodes, and, in autoclave mode, appending one rune to the key
 * buffer per transcoded rune.
 *
 * `Run` is the specification of one streaming call (a left fold over the input);
 * `Transcode` is the loop, proved to compute it. The lemmas state what the source
 * promises of every cipher built on this engine.
 */
module Engine {
  import opened Runes
  import opened Substitution

  /** pasc.go's `TabulaRecta`: the three alphabets and the row kept for each key rune. */
  datatype PascTable = PascTable(
    ptAlphabet: seq<Rune>,
    ctAlphabet: seq<Rune>,
    keyAlphabet: seq<Rune>,
    ciphers: map<Rune, Row>)

  /** pasc.go's `VigenereFamilyCipher`. */
  datatype VigenereFamilyCipher = VigenereFamilyCipher(
    table: PascTable,
    countersign: seq<Rune>,
    textAutoclave: bool,
    keyAutoclave: bool)
  {
    predicate Autoclave() {
      textAutoclave || keyAutoclave
    }

    /** `c.ciphers[k]`: the row of key rune `k`, or the zero-value row when `k` has none. */
    function RowFor(k: Rune): Row {
      if k in table.ciphers then table.ciphers[k] else EmptyRow
    }

    /** Every row the engine can reach is bijective (the zero-value row trivially is). */
    predicate AllBijective() {
      forall k :: k in table.ciphers ==> Bijective(table.ciphers[k])
    }
  }

  /** The state one streaming call threads through the input: output so far, key buffer, transcoded-rune counter. */
  datatype Progress = Progress(out: seq<Rune>, keyRunes: seq<Rune>, count: nat)

  /** The rune appended to the key buffer after `input` was transcoded into `output` (pasc.go:114-117, 134-137). */
  function Feedback(c: VigenereFamilyCipher, d: Direction, input: Rune, output: Rune): (fed: seq<Rune>)
    ensures |fed| == if c.Autoclave() then 1 else 0
  {
    if c.textAutoclave then [if d == Forward then input else output]
    else if c.keyAutoclave then [if d == Forward then output else input]
    else []
  }

  /** One call of the closure handed to `strings.Map`. */
  function Step(c: VigenereFamilyCipher, d: Direction, strict: bool, p: Progress, r: Rune): Progress
    requires p.keyRunes != []
  {
    var k := p.keyRunes[p.count % |p.keyRunes|];
    var o := TranscodeRune(c.RowFor(k), r, strict, d);
    if o.Transcoded? then
      Progress(p.out + [o.rune], p.keyRunes + Feedback(c, d, r, o.rune), p.count + 1)
    else
      Progress(p.out + Emitted(o), p.keyRunes, p.count)
  }

  /**
   * One streaming call over `s`. An empty countersign makes `% len(keyRunes)`
   * panic at the first input rune, hence the precondition.
   */
  function Run(c: VigenereFamilyCipher, d: Direction, strict: bool, s: seq<Rune>): (p: Progress)
    requires c.countersign != [] || s == []
    ensures p.count <= |s| && |p.out| <= |s|
    ensures !strict ==> |p.out| == |s|
    ensures |p.keyRunes| == |c.countersign| + (if c.Autoclave() then p.count else 0)
    ensures p.keyRunes[..|c.countersign|] == c.countersign
    decreases |s|
  {
    if s == [] then Progress([], c.countersign, 0)
    else Step(c, d, strict, Run(c, d, strict, s[..|s| - 1]), s[|s| - 1])
  }

  /** The per-rune loop of `Encipher` / `Decipher`: a counter and an append-only key buffer. */
  method Transcode(c: VigenereFamilyCipher, d: Direction, s: seq<Rune>, strict: bool) returns (out: seq<Rune>)
    requires c.countersign != [] || s == []
    ensures out == Run(c, d, strict, s).out
    ensures !strict ==> |out| == |s|
  {
    var keyRunes := c.countersign;
    var transcodedCharCount := 0;
    out := [];
    var i := 0;
    while i < |s|
      invariant 0 <= i <= |s|
      invariant Run(c, d, strict, s[..i]) == Progress(out, keyRunes, transcodedCharCount)
      invariant i < |s| ==> keyRunes != []
    {
      RunPrefix(c, d, strict, s, i);
      var o;
      o, keyRunes, transcodedCharCount := MapRune(c, d, strict, out, keyRunes, transcodedCharCount, s[i]);
      out := out + Emitted(o);
      i := i + 1;
    }
    assert s[..i] == s;
  }

  /**
   * The closure handed to `strings.Map`: look the key rune up at the counter,
   * transcode `r` with its row, and on success count it and feed back.
   */
  method MapRune(c: VigenereFamilyCipher, d: Direction, strict: bool, ghost out: seq<Rune>,
                 keyRunes: seq<Rune>, transcodedCharCount: nat, r: Rune)
    returns (o: Lookup, keyRunes': seq<Rune>, transcodedCharCount': nat)
    requires keyRunes != []
    ensures Step(c, d, strict, Progress(out, keyRunes, transcodedCharCount), r) ==
            Progress(out + Emitted(o), keyRunes', transcodedCharCount')
  {
    var k := keyRunes[transcodedCharCount % |keyRunes|];
    o := TranscodeRune(c.RowFor(k), r, strict, d);
    keyRunes', transcodedCharCount' := keyRunes, transcodedCharCount;
    if o.Transcoded? {
      transcodedCharCount' := transcodedCharCount' + 1;
      if c.textAutoclave {
        keyRunes' := keyRunes' + [if d == Forward then r else o.rune];
      } else if c.keyAutoclave {
        keyRunes' := keyRunes' + [if d == Forward then o.rune else r];
      }
    }
  }

  /** `Encipher(s, strict)`. */
  method Encipher(c: VigenereFamilyCipher, s: seq<Rune>, strict: bool) returns (out: seq<Rune>)
    requires c.countersign != [] || s == []
    ensures out == Run(c, Forward, strict, s).out
    ensures !strict ==> |out| == |s|
  {
    out := Transcode(c, Forward, s, strict);
  }

  /** `Decipher(s, strict)`. */
  method Decipher(c: VigenereFamilyCipher, s: seq<Rune>, strict: bool) returns (out: seq<Rune>)
    requires c.countersign != [] || s == []
    ensures out == Run(c, Backward, strict, s).out
    ensures !strict ==> |out| == |s|
  {
    out := Transcode(c, Backward, s, strict);
  }

  // ---------------------------------------------------------------------------
  // Key stream

  /** Without autoclave the key buffer is the countersign throughout. */
  lemma StaticKeyStream(c: VigenereFamilyCipher, d: Direction, strict: bool, s: seq<Rune>)
    requires !c.Autoclave() && (c.countersign != [] || s == [])
    ensures Run(c, d, strict, s).keyRunes == c.countersign
  {
    var p := Run(c, d, strict, s);
    assert p.keyRunes == p.keyRunes[..|c.countersign|];
  }

  /** The key buffer, the counter and the output only ever grow: every earlier state is a prefix of every later one. */
  lemma {:induction false} AppendOnly(c: VigenereFamilyCipher, d: Direction, strict: bool, s: seq<Rune>, i: nat)
    requires i <= |s| && (c.countersign != [] || s == [])
    ensures var early, late := Run(c, d, strict, s[..i]), Run(c, d, strict, s);
            && early.count <= late.count
            && early.keyRunes <= late.keyRunes
            && early.out <= late.out
    decreases |s| - i
  {
    if i < |s| {
      var t := s[..|s| - 1];
      assert t[..i] == s[..i];
      AppendOnly(c, d, strict, t, i);
      StepGrows(c, d, strict, Run(c, d, strict, t), s[|s| - 1]);
    } else {
      assert s[..i] == s;
    }
  }

  /** One step only extends the counter, the key buffer and the output. */
  lemma StepGrows(c: VigenereFamilyCipher, d: Direction, strict: bool, q: Progress, r: Rune)
    requires q.keyRunes != []
    ensures var p := Step(c, d, strict, q, r);
            q.count <= p.count && q.keyRunes <= p.keyRunes && q.out <= p.out
  {
  }

  /** If every rune of `s` is transcoded, so is every rune of each prefix. */
  lemma PrefixAllTranscoded(c: VigenereFamilyCipher, d: Direction, strict: bool, s: seq<Rune>)
    requires s != [] && c.countersign != [] && Run(c, d, strict, s).count == |s|
    ensures Run(c, d, strict, s[..|s| - 1]).count == |s| - 1
  {
  }

  /**
   * The feedback table: when every rune is transcoded, text autoclave extends the
   * countersign by the plaintext and key autoclave by the ciphertext, whichever
   * direction the call runs in.
   */
  lemma {:induction false} AutoclaveKeyStream(c: VigenereFamilyCipher, d: Direction, strict: bool, s: seq<Rune>)
    requires c.countersign != [] && Run(c, d, strict, s).count == |s|
    ensures var p := Run(c, d, strict, s);
            p.keyRunes == c.countersign + FedBack(c, d, s, p.out)
  {
    if s != [] {
      var t := s[..|s| - 1];
      PrefixAllTranscoded(c, d, strict, s);
      AutoclaveKeyStream(c, d, strict, t);
      AutoclaveStep(c, d, strict, Run(c, d, strict, t), s);
    }
  }

  /**
   * What autoclave has fed back once `input` was transcoded into `output`: text
   * autoclave the plaintext, key autoclave the ciphertext, whichever the direction.
   */
  function FedBack(c: VigenereFamilyCipher, d: Direction, input: seq<Rune>, output: seq<Rune>): seq<Rune>
  {
    var plain := if d == Forward then input else output;
    var cipher := if d == Forward then output else input;
    if c.textAutoclave then plain else if c.keyAutoclave then cipher else []
  }

  lemma AutoclaveStep(c: VigenereFamilyCipher, d: Direction, strict: bool, q: Progress, s: seq<Rune>)
    requires s != [] && q.keyRunes != [] && Step(c, d, strict, q, s[|s| - 1]).count == q.count + 1
    requires q.keyRunes == c.countersign + FedBack(c, d, s[..|s| - 1], q.out)
    ensures var p := Step(c, d, strict, q, s[|s| - 1]);
            p.keyRunes == c.countersign + FedBack(c, d, s, p.out)
  {
    var t, r := s[..|s| - 1], s[|s| - 1];
    assert s == t + [r];
    StepTranscoded(c, d, strict, q, r);
    var p := Step(c, d, strict, q, r);
    var o := p.out[|q.out|];
    assert p.out == q.out + [o];
    SnocAssociates(c.countersign, t, r);
    SnocAssociates(c.countersign, q.out, o);
  }

  /** A step that transcodes its rune emits one rune and feeds back according to the autoclave mode. */
  lemma StepTranscoded(c: VigenereFamilyCipher, d: Direction, strict: bool, q: Progress, r: Rune)
    requires q.keyRunes != [] && Step(c, d, strict, q, r).count == q.count + 1
    ensures var p := Step(c, d, strict, q, r);
            && |p.out| == |q.out| + 1
            && p.out[..|q.out|] == q.out
            && p.keyRunes == q.keyRunes + Feedback(c, d, r, p.out[|q.out|])
  {
  }

  // ---------------------------------------------------------------------------
  // Key runes and their rows

  /** Every rune of `keys` has a row of its own in the table. */
  predicate KeysHaveRows(c: VigenereFamilyCipher, keys: seq<Rune>)
  {
    forall j :: 0 <= j < |keys| ==> keys[j] in c.table.ciphers
  }

  /** Every rune a row holds, on either side, is a key rune with a row of its own. */
  predicate RowsClosed(c: VigenereFamilyCipher)
  {
    && (forall k, x :: k in c.table.ciphers && x in c.table.ciphers[k].pt ==> x in c.table.ciphers)
    && (forall k, x :: k in c.table.ciphers && x in c.table.ciphers[k].ct ==> x in c.table.ciphers)
  }

  /**
   * When every countersign rune has a row and, under autoclave, every rune a row
   * holds has one too, every rune the key buffer ever holds has a row, so the
   * next lookup of the stream finds one: the zero-value row is never reached.
   */
  lemma {:induction false} KeysKeepRows(c: VigenereFamilyCipher, d: Direction, strict: bool, s: seq<Rune>)
    requires c.countersign != [] || s == []
    requires KeysHaveRows(c, c.countersign)
    requires c.Autoclave() ==> RowsClosed(c)
    ensures var p := Run(c, d, strict, s);
            && KeysHaveRows(c, p.keyRunes)
            && (p.keyRunes != [] ==> p.keyRunes[p.count % |p.keyRunes|] in c.table.ciphers)
  {
    if s != [] {
      var t := s[..|s| - 1];
      KeysKeepRows(c, d, strict, t);
      KeysStep(c, d, strict, Run(c, d, strict, t), s[|s| - 1]);
    }
  }

  /** One step keeps every key rune backed by a row: what autoclave feeds back comes from a row. */
  lemma KeysStep(c: VigenereFamilyCipher, d: Direction, strict: bool, q: Progress, r: Rune)
    requires q.keyRunes != [] && KeysHaveRows(c, q.keyRunes)
    requires c.Autoclave() ==> RowsClosed(c)
    ensures KeysHaveRows(c, Step(c, d, strict, q, r).keyRunes)
  {
    var k := q.keyRunes[q.count % |q.keyRunes|];
    var o := TranscodeRune(c.RowFor(k), r, strict, d);
    if o.Transcoded? && c.Autoclave() {
      var row := c.table.ciphers[k];
      assert r in row.pt + row.ct && o.rune in row.pt + row.ct;
      var p := Step(c, d, strict, q, r);
      assert p.keyRunes == q.keyRunes + Feedback(c, d, r, o.rune);
    }
  }

  // ---------------------------------------------------------------------------
  // Round trip

  /**
   * Deciphering what was enciphered (or the other way round) replays the same
   * key buffer and counter and gives the input back, in every autoclave mode:
   * both sides feed back the same logical rune.
   */
  lemma {:induction false} RoundTripState(c: VigenereFamilyCipher, d: Direction, strict: bool, s: seq<Rune>)
    requires c.AllBijective() && (c.countersign != [] || s == [])
    requires strict ==> Run(c, d, strict, s).count == |s|
    ensures var p := Run(c, d, strict, s);
            |p.out| == |s| && Run(c, d.Opposite(), strict, p.out) == Progress(s, p.keyRunes, p.count)
  {
    if s != [] {
      var t, r := s[..|s| - 1], s[|s| - 1];
      assert s == t + [r];
      if strict { PrefixAllTranscoded(c, d, strict, s); }
      RoundTripState(c, d, strict, t);
      var q := Run(c, d, strict, t);
      RunSnoc(c, d, strict, t, r);
      var p := Step(c, d, strict, q, r);
      StepInverse(c, d, strict, q, t, r);
      var e := p.out[|q.out|];
      assert p.out == q.out + [e];
      RunSnoc(c, d.Opposite(), strict, q.out, e);
    }
  }

  /** The fold over a prefix one rune longer. */
  lemma RunPrefix(c: VigenereFamilyCipher, d: Direction, strict: bool, s: seq<Rune>, i: nat)
    requires c.countersign != [] && i < |s|
    ensures Run(c, d, strict, s[..i + 1]) == Step(c, d, strict, Run(c, d, strict, s[..i]), s[i])
  {
    assert s[..i + 1][..i] == s[..i];
  }

  /** The fold, read from its last rune. */
  lemma RunSnoc(c: VigenereFamilyCipher, d: Direction, strict: bool, t: seq<Rune>, r: Rune)
    requires c.countersign != []
    ensures Run(c, d, strict, t + [r]) == Step(c, d, strict, Run(c, d, strict, t), r)
  {
    assert (t + [r])[..|t|] == t;
  }

  /**
   * One step of the round trip: the opposite call, in the state the forward call
   * started from (with the input read so far as its output), reads the rune just
   * emitted and emits the rune that was read, reaching the same key buffer and counter.
   */
  lemma StepInverse(c: VigenereFamilyCipher, d: Direction, strict: bool, q: Progress, t: seq<Rune>, r: Rune)
    requires c.AllBijective() && q.keyRunes != []
    requires strict ==> Step(c, d, strict, q, r).count == q.count + 1
    ensures var p := Step(c, d, strict, q, r);
            && |p.out| == |q.out| + 1
            && p.out[..|q.out|] == q.out
            && Step(c, d.Opposite(), strict, Progress(t, q.keyRunes, q.count), p.out[|q.out|]) ==
               Progress(t + [r], p.keyRunes, p.count)
  {
    var k := q.keyRunes[q.count % |q.keyRunes|];
    var row := c.RowFor(k);
    RowInverse(row, r, strict, d);
    var o := TranscodeRune(row, r, strict, d);
    assert o.Transcoded? || o.Unchanged?;
  }

  /** `Decipher(Encipher(s)) == s` and `Encipher(Decipher(s)) == s` for bijective rows, with or without autoclave. */
  lemma RoundTrip(c: VigenereFamilyCipher, d: Direction, strict: bool, s: seq<Rune>)
    requires c.AllBijective() && (c.countersign != [] || s == [])
    requires strict ==> Run(c, d, strict, s).count == |s|
    ensures Run(c, d.Opposite(), strict, Run(c, d, strict, s).out).out == s
  {
    RoundTripState(c, d, strict, s);
  }

  // ---------------------------------------------------------------------------
  // Pass-through

  /** Which alphabet a row looks runes up in, for the direction of the call. */
  function Source(row: Row, d: Direction): seq<Rune>
  {
    if d == Forward then row.pt else row.ct
  }

  /**
   * A rune that no row holds passes through without touching the key stream: in
   * non-strict mode it appears unchanged at its own position and every other rune
   * is transcoded exactly as without it; in strict mode it is dropped.
   */
  lemma {:induction false} PassThrough(c: VigenereFamilyCipher, d: Direction, strict: bool, s1: seq<Rune>, x: Rune, s2: seq<Rune>)
    requires c.countersign != []
    requires forall k :: k in c.table.ciphers ==> x !in Source(c.table.ciphers[k], d)
    ensures var q := Run(c, d, strict, s1 + s2);
            Run(c, d, strict, s1 + [x] + s2) ==
              if strict then q else Progress(q.out[..|s1|] + [x] + q.out[|s1|..], q.keyRunes, q.count)
    decreases |s2|
  {
    if s2 == [] {
      assert s1 + [x] + s2 == s1 + [x];
      assert s1 + s2 == s1;
      PassThroughLast(c, d, strict, s1, x);
      var q := Run(c, d, strict, s1);
      if !strict {
        assert q.out[..|s1|] == q.out && q.out[|s1|..] == [];
      }
    } else {
      var t, y := s2[..|s2| - 1], s2[|s2| - 1];
      assert s2 == t + [y];
      PassThrough(c, d, strict, s1, x, t);
      PassThroughStep(c, d, strict, s1 + [x] + t, s1 + t, x, |s1|, y);
      SnocAssociates(s1 + [x], t, y);
      SnocAssociates(s1, t, y);
    }
  }

  lemma SnocAssociates(a: seq<Rune>, t: seq<Rune>, y: Rune)
    ensures a + (t + [y]) == (a + t) + [y]
  {
  }

  /** The inductive step of `PassThrough`: one more rune after the insertion keeps the relation. */
  lemma PassThroughStep(c: VigenereFamilyCipher, d: Direction, strict: bool, u: seq<Rune>, w: seq<Rune>, x: Rune, n: nat, y: Rune)
    requires c.countersign != []
    requires !strict ==> n <= |Run(c, d, strict, w).out|
    requires var q := Run(c, d, strict, w);
             Run(c, d, strict, u) == if strict then q else Progress(q.out[..n] + [x] + q.out[n..], q.keyRunes, q.count)
    ensures !strict ==> n <= |Run(c, d, strict, w + [y]).out|
    ensures var q := Run(c, d, strict, w + [y]);
            Run(c, d, strict, u + [y]) == if strict then q else Progress(q.out[..n] + [x] + q.out[n..], q.keyRunes, q.count)
  {
    RunSnoc(c, d, strict, u, y);
    RunSnoc(c, d, strict, w, y);
    if !strict {
      StepWithInsertion(c, d, strict, Run(c, d, strict, w), x, n, y);
    }
  }

  /** The base case of `PassThrough`: the rune no row holds comes last. */
  lemma PassThroughLast(c: VigenereFamilyCipher, d: Direction, strict: bool, s1: seq<Rune>, x: Rune)
    requires c.countersign != []
    requires forall k :: k in c.table.ciphers ==> x !in Source(c.table.ciphers[k], d)
    ensures var q := Run(c, d, strict, s1);
            Run(c, d, strict, s1 + [x]) == if strict then q else Progress(q.out + [x], q.keyRunes, q.count)
  {
    var q := Run(c, d, strict, s1);
    RunSnoc(c, d, strict, s1, x);
    var k := q.keyRunes[q.count % |q.keyRunes|];
    assert x !in Source(c.RowFor(k), d);
  }

  /**
   * A step does not look at the output so far: inserting `x` at position `n` of
   * the output before the step gives the step's output with `x` at position `n`.
   */
  lemma StepWithInsertion(c: VigenereFamilyCipher, d: Direction, strict: bool, a: Progress, x: Rune, n: nat, y: Rune)
    requires a.keyRunes != [] && n <= |a.out|
    ensures var b, e := Step(c, d, strict, a, y), Step(c, d, strict, Progress(a.out[..n] + [x] + a.out[n..], a.keyRunes, a.count), y);
            && b.out[..n] == a.out[..n]
            && e == Progress(b.out[..n] + [x] + b.out[n..], b.keyRunes, b.count)
  {
    var k := a.keyRunes[a.count % |a.keyRunes|];
    var o := TranscodeRune(c.RowFor(k), y, strict, d);
    var b := Step(c, d, strict, a, y);
    assert b.out == a.out + Emitted(o);
    assert b.out[..n] == a.out[..n];
    assert b.out[n..] == a.out[n..] + Emitted(o);
  }

  // ---------------------------------------------------------------------------
  // Key index and congruence

  /** Every row the countersign selects transcodes every rune of `s`. */
  predicate CountersignCovers(c: VigenereFamilyCipher, d: Direction, strict: bool, s: seq<Rune>)
  {
    forall k, j :: 0 <= k < |s| && 0 <= j < |c.countersign| ==> TranscodeRune(c.RowFor(c.countersign[j]), s[k], strict, d).Transcoded?
  }

  /** Rune `k` of `s` sent through the row of countersign rune `k mod n`, rune by rune. */
  function KeyedOutput(c: VigenereFamilyCipher, d: Direction, strict: bool, s: seq<Rune>): (out: seq<Rune>)
    requires c.countersign != [] && CountersignCovers(c, d, strict, s)
    ensures |out| == |s|
  {
    seq(|s|, k requires 0 <= k < |s| => TranscodeRune(c.RowFor(c.countersign[k % |c.countersign|]), s[k], strict, d).rune)
  }

  /**
   * Without autoclave, when every row the countersign selects transcodes every
   * input rune, every rune is transcoded and the k-th one with the row of
   * `countersign[k mod n]`.
   */
  lemma {:induction false} OutputAt(c: VigenereFamilyCipher, d: Direction, strict: bool, s: seq<Rune>)
    requires !c.Autoclave() && c.countersign != []
    requires CountersignCovers(c, d, strict, s)
    ensures Run(c, d, strict, s).count == |s|
    ensures Run(c, d, strict, s).out == KeyedOutput(c, d, strict, s)
  {
    if s != [] {
      var t, r := s[..|s| - 1], s[|s| - 1];
      var k := (|s| - 1) % |c.countersign|;
      KeyedOutputSnoc(c, d, strict, s);
      OutputAt(c, d, strict, t);
      StaticKeyStream(c, d, strict, t);
      var q := Run(c, d, strict, t);
      assert q.keyRunes[q.count % |q.keyRunes|] == c.countersign[k];
      CoversAt(c, d, strict, s, |s| - 1, k);
      StaticStep(c, d, strict, q, r);
    }
  }

  /** One instance of `CountersignCovers`. */
  lemma CoversAt(c: VigenereFamilyCipher, d: Direction, strict: bool, s: seq<Rune>, k: nat, j: nat)
    requires CountersignCovers(c, d, strict, s) && k < |s| && j < |c.countersign|
    ensures TranscodeRune(c.RowFor(c.countersign[j]), s[k], strict, d).Transcoded?
  {
  }

  lemma KeyedOutputSnoc(c: VigenereFamilyCipher, d: Direction, strict: bool, s: seq<Rune>)
    requires c.countersign != [] && s != [] && CountersignCovers(c, d, strict, s)
    ensures CountersignCovers(c, d, strict, s[..|s| - 1])
    ensures KeyedOutput(c, d, strict, s) ==
            KeyedOutput(c, d, strict, s[..|s| - 1]) + [TranscodeRune(c.RowFor(c.countersign[(|s| - 1) % |c.countersign|]), s[|s| - 1], strict, d).rune]
  {
    var t := s[..|s| - 1];
    CoversPrefix(c, d, strict, s);
    var a, b := KeyedOutput(c, d, strict, s), KeyedOutput(c, d, strict, t);
    forall k | 0 <= k < |t| ensures a[k] == b[k] {
      assert t[k] == s[k];
    }
    assert a == b + [a[|t|]];
  }

  /** What the countersign covers, it covers of every prefix. */
  lemma CoversPrefix(c: VigenereFamilyCipher, d: Direction, strict: bool, s: seq<Rune>)
    requires s != [] && CountersignCovers(c, d, strict, s)
    ensures CountersignCovers(c, d, strict, s[..|s| - 1])
  {
    var t := s[..|s| - 1];
    forall k, j | 0 <= k < |t| && 0 <= j < |c.countersign|
      ensures TranscodeRune(c.RowFor(c.countersign[j]), t[k], strict, d).Transcoded?
    {
      assert t[k] == s[k];
      CoversAt(c, d, strict, s, k, j);
    }
  }

  /** One step without autoclave, at a rune its row transcodes. */
  lemma StaticStep(c: VigenereFamilyCipher, d: Direction, strict: bool, q: Progress, r: Rune)
    requires !c.Autoclave() && q.keyRunes != []
    requires TranscodeRune(c.RowFor(q.keyRunes[q.count % |q.keyRunes|]), r, strict, d).Transcoded?
    ensures var o := TranscodeRune(c.RowFor(q.keyRunes[q.count % |q.keyRunes|]), r, strict, d);
            Step(c, d, strict, q, r) == Progress(q.out + [o.rune], q.keyRunes, q.count + 1)
  {
  }

  /**
   * Two ciphers without autoclave whose countersigns select, position by
   * position, rows that transcode alike produce the same output.
   */
  lemma {:induction false} Congruent(c1: VigenereFamilyCipher, d1: Direction, c2: VigenereFamilyCipher, d2: Direction,
                                     strict: bool, s: seq<Rune>)
    requires !c1.Autoclave() && !c2.Autoclave()
    requires |c1.countersign| == |c2.countersign| > 0
    requires forall j, r :: 0 <= j < |c1.countersign| ==>
               TranscodeRune(c1.RowFor(c1.countersign[j]), r, strict, d1) ==
               TranscodeRune(c2.RowFor(c2.countersign[j]), r, strict, d2)
    ensures Run(c1, d1, strict, s).out == Run(c2, d2, strict, s).out
    ensures Run(c1, d1, strict, s).count == Run(c2, d2, strict, s).count
  {
    if s != [] {
      var t := s[..|s| - 1];
      Congruent(c1, d1, c2, d2, strict, t);
      StaticKeyStream(c1, d1, strict, t);
      StaticKeyStream(c2, d2, strict, t);
    }
  }

  /** Without autoclave, a cipher whose reachable rows are all involutive enciphers and deciphers alike. */
  lemma Reciprocal(c: VigenereFamilyCipher, strict: bool, s: seq<Rune>)
    requires !c.Autoclave() && c.countersign != []
    requires forall k :: k in c.table.ciphers ==> Involutive(c.table.ciphers[k])
    ensures Run(c, Forward, strict, s).out == Run(c, Backward, strict, s).out
  {
    forall j, r | 0 <= j < |c.countersign|
      ensures TranscodeRune(c.RowFor(c.countersign[j]), r, strict, Forward) ==
              TranscodeRune(c.RowFor(c.countersign[j]), r, strict, Backward)
    {
      var k := c.countersign[j];
      if k in c.table.ciphers {
        ReciprocalRow(c.table.ciphers[k], r, strict);
      }
    }
    Congruent(c, Forward, c, Backward, strict, s);
  }
}
