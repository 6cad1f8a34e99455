# Tabula recta engine of gold-bug, in Dafny

This project models the polyalphabetic core of merenbach/gold-bug in Dafny and
proves properties of that model. The core is the tabula recta that the Vigenère
family of ciphers runs on. It has three parts:

- **Row construction.** Each key-alphabet rune gets one monoalphabetic row.
  - Caesar-shift rows: row `i` is the ciphertext alphabet rotated left by `i`.
    These come from pasc.go's `MakeVigenereFamilyCipher` and from
    internal/pasc's `makereciprocaltable`.
  - Della Porta rows, built with the "gear-wrap" `owrapString`.
  - Rows from a caller-supplied generator, via internal/pasc's `makedictsfromfunc`.
- **The streaming engine** of pasc.go's `VigenereFamilyCipher.Encipher` and
  `Decipher`. It keeps a counter of transcoded runes and reads the key rune at
  `count mod len(keyRunes)`. In autoclave mode it also grows an append-only key
  buffer.
- **The named ciphers.**
  - pasc.go's constructors: Vigenère and its text and key autoclave variants,
    Beaufort, Variant Beaufort, Gronsfeld, Trithemius and Della Porta.
  - The packages pkg/vigenere, pkg/gronsfeld and pkg/trithemius. Each only
    chooses alphabets, countersign and feedback for an internal/pasc
    `TabulaRecta`.

The project has these modules:

| module | what it holds |
|---|---|
| `Results` | the error-carrying results used where Go returns `(value, error)` |
| `Runes` | rune sequences and the string helpers the core calls |
| `Substitution` | rows and `masc.Tableau` |
| `Engine` | the streaming engine |
| `Family` | pasc.go's table builders and named constructors |
| `Recta` | internal/pasc's `TabulaRecta` |
| `Vigenere`, `Gronsfeld`, `Trithemius` | the three packages |

How the model follows the code:

- Go `rune` is Dafny `char`, and a string is its sequence of runes.
- A panic becomes a precondition, and an error return becomes a `Result`.
- Where the source changes state in a loop, the model is a method with loop
  invariants, proved equal to a specification function. The lemmas are stated
  about that function. This covers:
  - the engine's closure over `transcodedCharCount` and `keyRunes`;
  - the map-filling loops of both builders;
  - the `ctAlphabets` and `ii` arrays of `makereciprocaltable`;
  - the row loop of `Printable`.

The model follows the code where its behaviour differs from what one might
expect of these ciphers:

- **Duplicated key runes.** Both builders index every key rune, duplicates
  included. Each one overwrites the map entry, so the last occurrence's row wins
  (pasc.go:73, internal/pasc/tabularecta.go:87 and :140). The rows are not built
  over a de-duplicated key alphabet.
- **Strict mode in the engine.** A rune the row lacks does not raise an error.
  The row returns the negative sentinel and `strings.Map` drops it, so it is
  missing from the output (pasc.go:108-121).
- **Gronsfeld and `Strict`.** pkg/gronsfeld never copies the cipher's `Strict`
  onto its `TabulaRecta`. The generated rows are therefore always non-strict,
  and `Gronsfeld.StrictIgnored` states it.

## Model

| member | source | states |
|---|---|---|
| Runes.Rotate | pasc.go:72 | `wrapString` keeps the rune count |
| Runes.RotatePermutes | pasc.go:72 | a rotation by `i` is `s[i mod n..] + s[..i mod n]` and a permutation of `s` |
| Runes.RotateDistinct | pasc.go:72 | rotating an alphabet without repeats leaves it without repeats |
| Runes.Reverse | pasc.go:177 | `reverseString` keeps the rune count |
| Runes.ReverseDistinct | pasc.go:177 | reversing keeps an alphabet free of repeats |
| Runes.Backpermute | internal/pasc/tabularecta.go:117-121 | `Backpermute` succeeds exactly when every index is in range, and then rune `x` is `s[ii[x]]` |
| Runes.ShiftIsRotation | internal/pasc/tabularecta.go:111-122 | the shift indices `(x + y) mod n` never leave the alphabet, and backpermuting by them is the rotation by `y` |
| Runes.RuneCountIsByteLength | internal/pasc/tabularecta.go:74-78 | the rune count equals the byte length exactly when every rune is single-byte |
| Runes.Tabulate | pasc.go:71-74 | the map filled in key order has an entry for exactly the key runes |
| Runes.TabulateAt | pasc.go:73 | a duplicated key rune keeps the value of its last occurrence |
| Runes.TabulateFrom | internal/pasc/tabularecta.go:87 | every value in the filled map is one of the values it was filled from |
| Substitution.Substitute | pasc.go:111 | a rune is transcoded exactly when it occurs in the source alphabet at a position the target alphabet has, and then becomes the target rune at its first occurrence; otherwise it is returned unchanged in non-strict mode, and the sentinel appears only in strict mode |
| Substitution.SubstituteInverse | pasc.go:131 | over a bijective pair of alphabets, looking up the answer in the other direction gives the rune back, and a pass-through passes through both ways |
| Substitution.RowInverse | pasc.go:131 | the same inverse property for a row, in either direction |
| Substitution.ReciprocalRow | pasc.go:199-201 | on an involutive row, enciphering and deciphering a rune give the same result |
| Substitution.InvolutiveIsBijective | pasc.go:199-201 | an involutive row is bijective |
| Substitution.NewTableau | internal/pasc/tabularecta.go:132-137 | `masc.NewTableau` succeeds exactly when the alphabets have equal length, and then gives the non-strict, case-sensitive row |
| Substitution.TableauEncipher | internal/pasc/tabularecta.go:180-183 | `Tableau.Encipher` keeps the length of its input |
| Substitution.EncipherOwnAlphabet | internal/pasc/tabularecta.go:180 | a row over alphabets of equal length without repeats enciphers its plaintext alphabet to its ciphertext alphabet |
| Engine.Feedback | pasc.go:114-118 | autoclave appends exactly one rune per transcoded rune, and no autoclave appends none |
| Engine.Run | pasc.go:104-142 | one streaming call: the count is at most the input length; non-strict output has the input's length; the key buffer is the countersign plus one rune per transcoded rune under autoclave |
| Engine.Transcode | pasc.go:106-121 | the loop with its counter and append-only key buffer computes `Run` and keeps the length in non-strict mode |
| Engine.MapRune | pasc.go:108-120 | the `strings.Map` closure performs exactly one step of `Run` |
| Engine.Encipher | pasc.go:105-122 | `Encipher` is the forward `Run`, and keeps the length in non-strict mode |
| Engine.Decipher | pasc.go:125-142 | `Decipher` is the backward `Run`, and keeps the length in non-strict mode |
| Engine.StaticKeyStream | pasc.go:106-118 | without autoclave the key buffer stays the countersign |
| Engine.KeysKeepRows | pasc.go:106-139 | when every countersign rune has a row and, under autoclave, every rune of every row has one too, every rune the key buffer holds has a row, so each lookup `c.ciphers[k]` finds one |
| Engine.AppendOnly | pasc.go:106-118 | the counter, the key buffer and the output only grow: each earlier state is a prefix of each later one |
| Engine.PrefixAllTranscoded | pasc.go:112-113 | if every rune is transcoded, so is every rune of each prefix |
| Engine.AutoclaveKeyStream | pasc.go:114-137 | when every rune is transcoded, text autoclave extends the key buffer by the plaintext and key autoclave by the ciphertext, in either direction |
| Engine.RoundTripState | pasc.go:104-142 | for bijective rows, the opposite call on the output replays the same key buffer and counter and gives the input back |
| Engine.RoundTrip | pasc.go:104-142 | for bijective rows, `Decipher(Encipher(s)) == s` and `Encipher(Decipher(s)) == s`, in every autoclave mode; in strict mode every rune must be transcoded |
| Engine.PassThrough | pasc.go:108-121 | a rune no row holds does not advance the key stream; non-strict, it appears unchanged at its position and the other runes are transcoded as without it; strict, it is dropped |
| Engine.StepWithInsertion | pasc.go:108-120 | a step does not look at earlier output |
| Engine.OutputAt | pasc.go:109-113 | without autoclave, when the countersign's rows transcode every input rune, rune `k` goes through the row of `countersign[k mod n]` and every rune is counted |
| Engine.Congruent | pasc.go:109-111 | two ciphers without autoclave whose countersigns select rows that transcode alike, position by position, give the same output and count |
| Engine.Reciprocal | pasc.go:108-141 | without autoclave, a cipher with only involutive rows enciphers and deciphers alike |
| Family.VigenereFamily | pasc.go:63-79 | the cipher has a row for exactly the key runes, the countersign as given, and no autoclave |
| Family.MakeVigenereFamilyCipher | pasc.go:63-79 | the map-filling loop builds `VigenereFamily` |
| Family.VigenereFamilyRow | pasc.go:71-74 | the row of key rune `i` (last occurrence) pairs pt with ct rotated left by `i`: column `x` is `ct[(x + i) mod n]` |
| Family.VigenereFamilyBijective | pasc.go:71-74 | permuted alphabets without repeats make every shift row bijective |
| Family.VigenereRowsClosed | pasc.go:71-74 | over one alphabet every rune of every shift row is itself a key rune |
| Family.OWrap | pasc.go:146-154 | `owrapString` keeps the rune count; an odd count or an offset past half the length is excluded |
| Family.OWrapPermutes | pasc.go:146-154 | gear-wrapping is a permutation |
| Family.OWrapAt | pasc.go:152-153 | where each rune of the gear-wrapped string comes from: first half rotated left by `i`, second half rotated right by `i` |
| Family.DellaPortaFamily | pasc.go:82-102 | the Della Porta cipher has a row for exactly the key runes, the given countersign and no autoclave |
| Family.MakeDellaPortaReciprocalTable | pasc.go:82-102 | the loop builds `DellaPortaFamily`; an odd ciphertext alphabet is excluded, as it panics |
| Family.DellaPortaPairs | pasc.go:94-97 | key runes at positions `2j` and `2j + 1` get identical rows |
| Family.GearWrapAt | pasc.go:92-95 | rune `x` of a Della Porta row is the alphabet rune at the paired position in the other half |
| Family.DellaPortaInvolutive | pasc.go:92-96 | over an even alphabet without repeats every Della Porta row is its own inverse |
| Family.DellaPortaFamilyInvolutive | pasc.go:199-201 | every row of the one-alphabet Della Porta table is involutive |
| Family.BeaufortInvolutive | pasc.go:176-179 | every Beaufort row (reversed alphabet rotated by `i`) is its own inverse |
| Family.BeaufortFamilyInvolutive | pasc.go:176-179 | every row of the Beaufort table is involutive |
| Family.MakeVigenereCipher | pasc.go:157-159 | rows for exactly the alphabet's runes, all bijective when the alphabet has no repeats |
| Family.MakeVigenereTextAutoclaveCipher | pasc.go:162-166 | the Vigenère table with text autoclave only; bijective rows |
| Family.MakeVigenereKeyAutoclaveCipher | pasc.go:169-173 | the Vigenère table with key autoclave only; bijective rows |
| Family.MakeBeaufortCipher | pasc.go:176-179 | rows for exactly the alphabet's runes, all involutive when the alphabet has no repeats |
| Family.MakeGronsfeldCipher | pasc.go:182-184 | rows for exactly the ten digits, all bijective when the alphabet has no repeats |
| Family.MakeVariantBeaufortCipher | pasc.go:187-190 | rows for exactly the alphabet's runes, all bijective when the alphabet has no repeats |
| Family.MakeTrithemiusCipher | pasc.go:194-196 | the countersign is the alphabet, no autoclave, bijective rows |
| Family.MakeDellaPortaCipher | pasc.go:199-201 | rows for exactly the alphabet's runes, all involutive over an even alphabet without repeats; an odd alphabet is excluded, as it panics |
| Family.VigenereRowShifts | pasc.go:157-159 | the Vigenère row of key letter `kr` moves letter `r` along the alphabet by the position of `kr` |
| Family.VigenereShift | pasc.go:157-159 | a text and countersign drawn from an alphabet without repeats encipher rune by rune to the Vigenère sum, every rune counted |
| Family.TrithemiusShift | pasc.go:192-196 | the `k`-th rune is shifted by `k mod N` |
| Family.TrithemiusSum | pasc.go:193-195 | the Vigenère sum keyed by the alphabet itself is the Trithemius progression |
| Family.ShiftedByPosition | pasc.go:193-195 | shifting by the letter at `k mod N` is advancing by `k` |
| Family.GronsfeldIsVigenere | pasc.go:182-184 | Gronsfeld with digits `d1..dk` gives the same output and count as Vigenère keyed by `alphabet[d1]..alphabet[dk]`, in both directions |
| Family.GronsfeldRow | pasc.go:182-184 | digit `v`'s Gronsfeld row is the Vigenère row of letter `v` |
| Recta.NewTabulaRecta | internal/pasc/tabularecta.go:42-57 | never fails; the pt alphabet defaults to `Alphabet` and the key alphabet to pt; no ct alphabet or flags are set; the generator is kept |
| Recta.MakeReciprocalTable | internal/pasc/tabularecta.go:94-144 | the two loops compute `ReciprocalTableOf`: a multi-byte key rune is an error, unequal alphabet lengths are an error, otherwise key rune `i` gets row `i` |
| Recta.ShiftedAlphabet | internal/pasc/tabularecta.go:111-122 | filling the index array and backpermuting by it gives the rotation by `y` |
| Recta.GeneratedRows | internal/pasc/tabularecta.go:80-88 | a successful run gives one row per key rune, and any failure is a generator error |
| Recta.MakeDictsFromFunc | internal/pasc/tabularecta.go:59-91 | the builder computes `DictsFromFunc`: built-in rows without a generator, otherwise the rune/byte check and then the generated rows |
| Recta.GeneratedStops | internal/pasc/tabularecta.go:81-84 | once the generator has failed, later rows change nothing: the first error stands |
| Recta.GeneratedFirstError | internal/pasc/tabularecta.go:80-88 | the generated rows succeed exactly when every call does, with row `i` being call `i`'s tableau with the table's flags; otherwise the error is that of the first failing call |
| Recta.RowHeaderCheck | internal/pasc/tabularecta.go:74-78 | the table fails its row-header check exactly when the key alphabet holds a multi-byte rune |
| Recta.TableFlags | internal/pasc/tabularecta.go:85-86 | a built table has one entry per key rune; every tableau carries the table's `Strict`; generated tableaux carry its `Caseless`, and built-in ones stay case-sensitive |
| Recta.BuiltInRowAt | internal/pasc/tabularecta.go:111-122 | the built-in row of key rune `i` holds `ct[(x + i) mod n]` in column `x` |
| Recta.BuiltInIsVigenereFamily | internal/pasc/tabularecta.go:94-144 | with its flags dropped, the built-in table is the table pasc.go's `MakeVigenereFamilyCipher` fills |
| Recta.EngineCipher | internal/pasc/tabularecta.go:225-231 | the engine cipher streams with countersign `k` over the built rows |
| Recta.FeedHonoured | internal/pasc/tabularecta.go:225 | the engine appends exactly what the `onSuccess` callback appends |
| Recta.MirrorAgrees | internal/pasc/tabularecta.go:234-239 | a callback and its mirror drive the engine alike in opposite directions |
| Recta.TranscodeOf | internal/pasc/tabularecta.go:225-231 | a construction error is returned before anything is transcoded; non-strict output has the input's length |
| Recta.Encipher | internal/pasc/tabularecta.go:225-231 | builds the table and streams forward: `TranscodeOf` |
| Recta.Decipher | internal/pasc/tabularecta.go:234-240 | builds the table and streams backward: `TranscodeOf` |
| Recta.RoundTrip | internal/pasc/tabularecta.go:224-240 | over bijective rows, transcoding with a callback and back with its mirror gives the input back |
| Recta.PrintableOf | internal/pasc/tabularecta.go:155-166 | a construction error is returned before anything is printed; a printout has the plaintext alphabet as its header |
| Recta.Printable | internal/pasc/tabularecta.go:155-190 | the row loop of `Printable` computes `PrintableOf` |
| Recta.PrintedStops | internal/pasc/tabularecta.go:180-183 | the first row that cannot encipher the header ends printing with its error |
| Recta.PrintedLinesAt | internal/pasc/tabularecta.go:177-186 | when every row enciphers the header, there is one line per key rune, in order, holding that row applied to the header |
| Recta.PrintableBuiltIn | internal/pasc/tabularecta.go:177-186 | the printed built-in table has the pt header and one line per key rune; line `i` is key rune `i` and the ct alphabet rotated by `i` |
| Vigenere.MakeTableau | pkg/vigenere/vigenere.go:43-55 | never fails: one alphabet (defaulting to `Alphabet`) for pt, ct and key; `Strict` copied; no generator |
| Vigenere.TableauBuilds | pkg/vigenere/vigenere.go:43-55 | the table builds exactly when the alphabet is single-byte |
| Vigenere.EncipherCallback | pkg/vigenere/vigenere.go:63-71 | only `NoAutokey` feeds nothing back |
| Vigenere.DecipherCallback | pkg/vigenere/vigenere.go:80-88 | only `NoAutokey` feeds nothing back |
| Vigenere.CallbacksMirror | pkg/vigenere/vigenere.go:63-88 | the decipher selector is the encipher selector with original and translated swapped |
| Vigenere.SameKeyStream | pkg/vigenere/vigenere.go:63-88 | in every mode both directions feed back the same rune: none, the plaintext or the ciphertext |
| Vigenere.Encipher | pkg/vigenere/vigenere.go:58-72 | succeeds exactly when the alphabet is single-byte; non-strict output has the input's length |
| Vigenere.Decipher | pkg/vigenere/vigenere.go:75-89 | succeeds exactly when the alphabet is single-byte; non-strict output has the input's length |
| Vigenere.PascCipher | pasc.go:157-173 | the pasc.go constructor for the autokey setting: countersign `c.Key`, matching autoclave flags, bijective rows |
| Vigenere.AgreesWithPasc | pkg/vigenere/vigenere.go:58-89 | the package enciphers and deciphers exactly as pasc.go's Vigenère cipher of the same autokey setting |
| Vigenere.KeysFound | pkg/vigenere/vigenere.go:58-89 | a key drawn from the alphabet never selects a missing row, in every autokey mode |
| Vigenere.RoundTrip | pkg/vigenere/vigenere.go:58-89 | `Decipher(Encipher(s)) == s` and back, in every autokey mode, over a single-byte alphabet without repeats |
| Vigenere.EnciphersToSum | pkg/vigenere/vigenere.go:58-72 | without autokey, in-alphabet text and key encipher to the Vigenère sum |
| Vigenere.TableauOf | pkg/vigenere/vigenere.go:92-98 | the printed header is the alphabet |
| Vigenere.TableauLines | pkg/vigenere/vigenere.go:92-98 | one line per letter; line `i` is letter `i` and the alphabet rotated by `i` |
| Gronsfeld.MakeTableau | pkg/gronsfeld/gronsfeld.go:31-49 | never fails: digits as key alphabet, the Caesar generator, `Caseless` set, `Strict` never set |
| Gronsfeld.TableauBuilds | pkg/gronsfeld/gronsfeld.go:31-48 | the table always builds; digit `i` gets the shift-`i` row, non-strict and caseless as the cipher |
| Gronsfeld.DigitsFitBytes | pkg/gronsfeld/gronsfeld.go:32-34 | the digit key alphabet passes the rune/byte check |
| Gronsfeld.CaesarRows | pkg/gronsfeld/gronsfeld.go:34-42 | the generator called for the ten digits yields the shift rows |
| Gronsfeld.Encipher | pkg/gronsfeld/gronsfeld.go:52-58 | never fails and keeps the input's length |
| Gronsfeld.Decipher | pkg/gronsfeld/gronsfeld.go:61-67 | never fails and keeps the input's length |
| Gronsfeld.AgreesWithPasc | pkg/gronsfeld/gronsfeld.go:52-67 | the package runs exactly as pasc.go's `MakeGronsfeldCipher`, non-strict (for a case-sensitive cipher; see Left out) |
| Gronsfeld.DigitTable | pkg/gronsfeld/gronsfeld.go:31-48 | with its flags dropped, the table is pasc.go's Gronsfeld table |
| Gronsfeld.KeysFound | pkg/gronsfeld/gronsfeld.go:52-67 | a key of decimal digits never selects a missing row |
| Gronsfeld.StrictIgnored | pkg/gronsfeld/gronsfeld.go:31-48 | the cipher's `Strict` has no effect on either direction |
| Gronsfeld.RoundTrip | pkg/gronsfeld/gronsfeld.go:52-67 | `Decipher(Encipher(s)) == s` and back, over an alphabet without repeats |
| Gronsfeld.IsVigenere | pkg/gronsfeld/gronsfeld.go:31-67 | a digit key runs as the non-strict Vigenère key that spells digit `v` as letter `v` (for a case-sensitive cipher; see Left out) |
| Gronsfeld.TableauOf | pkg/gronsfeld/gronsfeld.go:70-76 | the printed header is the alphabet |
| Gronsfeld.TableauLines | pkg/gronsfeld/gronsfeld.go:70-76 | ten lines; line `i` is digit `i` and the alphabet rotated by `i` |
| Trithemius.MakeTableau | pkg/trithemius/trithemius.go:27-39 | never fails: one alphabet (defaulting to `Alphabet`) for pt, ct and key; `Strict` copied; no generator |
| Trithemius.SameTableau | pkg/trithemius/trithemius.go:27-39 | the table is the Vigenère package's table for the same alphabet |
| Trithemius.Encipher | pkg/trithemius/trithemius.go:42-48 | succeeds exactly when the alphabet is single-byte; non-strict output has the input's length |
| Trithemius.Decipher | pkg/trithemius/trithemius.go:51-57 | succeeds exactly when the alphabet is single-byte; non-strict output has the input's length |
| Trithemius.IsVigenere | pkg/trithemius/trithemius.go:42-57 | the cipher is the Vigenère package keyed by its own alphabet, without autokey |
| Trithemius.AgreesWithPasc | pkg/trithemius/trithemius.go:42-57 | the package runs exactly as pasc.go's `MakeTrithemiusCipher` |
| Trithemius.KeysFound | pkg/trithemius/trithemius.go:42-57 | the key is the alphabet itself, so no lookup selects a missing row |
| Trithemius.Progression | pkg/trithemius/trithemius.go:42-48 | the `k`-th rune of an in-alphabet text is shifted by `k mod N` |
| Trithemius.RoundTrip | pkg/trithemius/trithemius.go:42-57 | `Decipher(Encipher(s)) == s` and back, over a single-byte alphabet without repeats |
| Trithemius.TableauOf | pkg/trithemius/trithemius.go:60-66 | the printed header is the alphabet |
| Trithemius.TableauLines | pkg/trithemius/trithemius.go:60-66 | one line per letter; line `i` is letter `i` and the alphabet rotated by `i` |

## Left out

- Caseless mode. Case folding lives in internal/masc, which is not part of this model. The `Caseless` flag is carried on every tableau and its propagation is proved, but lookups are case-sensitive.
- The row type itself. masc's `Tableau` and pasc.go's `SimpleSubstitutionCipher` are not part of this model. A row is the pair of alphabets: the first occurrence of a rune is looked up, and a rune it lacks passes through unchanged (non-strict) or gives the negative sentinel (strict).
- Substitution.NewTableau: the error of `masc.NewTableau` is taken to be a length mismatch of the two alphabets. Its source is not part of this model.
- `ReciprocalTable.Encipher` and `Decipher` of internal/pasc are not part of this model. Streaming over a built table is modelled as pasc.go's engine, run over the table's rows with the table's `Strict`.
- The `onSuccess` callback: its signature differs between pkg/vigenere and internal/pasc. It is modelled as which rune is fed back (`Recta.Feed`), with pasc.go's append mechanics. Vigenère's `-1` for no autokey is modelled as feeding back nothing.
- Recta.TranscodeOf, Recta.Encipher, Recta.Decipher, Recta.RoundTrip, Vigenere.Encipher, Vigenere.Decipher, Vigenere.RoundTrip, Gronsfeld.Encipher, Gronsfeld.Decipher, Gronsfeld.RoundTrip: a key rune with no row is looked up as the zero-value row, which holds no rune. Every rune then passes through (or is rejected in strict mode) and the counter does not advance. This is pasc.go's behaviour, because its map holds `SimpleSubstitutionCipher` values (pasc.go:30). internal/pasc's map holds `*masc.Tableau` pointers (internal/pasc/tabularecta.go:72, :124), whose missing entry is nil. What internal/pasc's `ReciprocalTable.Encipher` does with a nil `*masc.Tableau` is not modelled. So for a key with runes outside the key alphabet (a lower-case key over A–Z, say), these members, Vigenere.AgreesWithPasc and Gronsfeld.AgreesWithPasc state pasc.go's result, not the package's, and the three RoundTrip lemmas prove the round trip only under that reading. Engine.KeysKeepRows, Vigenere.KeysFound and Gronsfeld.KeysFound give the conditions under which no lookup misses, and there the two agree. Trithemius.KeysFound shows that a Trithemius key never misses.
- UTF-8. Strings are rune sequences. The rune/byte check is the byte length of the UTF-8 encoding, compared with the rune count.
- Presentation. `TabulaRecta.String` in both files and `Printable`'s tabwriter layout are not modelled. `Printable` is modelled as its header and its lines of row contents.
- pkg/caesar, pkg/rot13 and pkg/decimation. They wrap `affine.Cipher`, which is not part of this model.
- Gronsfeld.AgreesWithPasc: holds of the source only for a case-sensitive cipher (`Caseless` false). With `Caseless` set, the package's rows fold case (pkg/gronsfeld/gronsfeld.go:37, :47), while pasc.go's rows never do. The model's lookups are case-sensitive throughout, so it proves the equality for every setting.
- Gronsfeld.IsVigenere: holds of the source only for a case-sensitive cipher, for the same reason: pkg/vigenere never sets `Caseless` (pkg/vigenere/vigenere.go:43-55), while a caseless Gronsfeld cipher folds case.
- Gronsfeld.RoundTrip: proved over case-sensitive lookups. With `Caseless` set, the source may decipher a folded rune to the other case.
- Gronsfeld.CaesarGenerator: the Caesar tableau with shift `i` over an alphabet is taken to pair the alphabet with itself rotated left by `i`, never failing. pkg/caesar's source is not part of this model.
- Runes.Rotate, Family.OWrap: `wrapString`'s source is not part of this model. It is taken to rotate left by the offset modulo the rune count. pasc.go:72 calls it with every key index, which can reach or pass the length of a shorter ciphertext alphabet, so Runes.RotatePermutes and Family.MakeVigenereFamilyCipher rest on the same assumption. `owrapString` is modelled for offsets `0 <= i <= half` only.
- Family.DellaPortaFamily, Family.MakeDellaPortaReciprocalTable: require `|key| <= |ct| + 2`. pasc.go:95 calls `owrapString(ctAlphabet2, i/2)` for every key index `i`. For a longer key alphabet the offset passes half the ciphertext alphabet, and the source hands `wrapString` a negative offset, which the model does not cover. `MakeDellaPortaCipher` uses one alphabet for both, so it always meets the bound.
- Recta.BuiltInDefined: with an empty raw `KeyAlphabet` and a single-byte plaintext alphabet, `makereciprocaltable` indexes an empty slice and panics. That configuration is excluded by precondition.
- Runes.Backpermute: its error branch in `makereciprocaltable` cannot be reached, since the shift indices are always in range, so it is not modelled as an error path.
- Pointer aliasing of the `*masc.Tableau` values stored in the map is not modelled. Each row is a value.
- Vigenere.MakeTableau, Trithemius.MakeTableau, Gronsfeld.MakeTableau: their error results are never set, so `Encipher`, `Decipher` and `TableauOf` read the table directly instead of checking it.
- An empty countersign with non-empty input makes `% len(keyRunes)` panic. Every streaming member requires a non-empty key or an empty input.
