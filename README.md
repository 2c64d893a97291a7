# quiz-pays in Dafny

A model of the core of *quiz-pays*, a browser game in which the player
names, letter by letter, every country whose name starts with the current
letter, and may also name their capitals. Two pieces are modelled:

- **The round state machine** of the game provider (`src/GameProvider.tsx`).
  The state is the score, the current letter ('a'..'z', or none once the
  game is over), the countries found in the round, the hinted countries,
  the "remaining count revealed" flag and the map of found capitals. The
  operations are `guessCountry`, `guessCapital`, `tryNextLetter`, `reset`
  and `hint`. They are methods of the class `GameProvider.Game`, and each
  one is specified by a two-state contract. The invariant `Game.Valid()`
  says that every found country belongs to the current round.
- **The save codec** (`src/seralizer.ts`). It packs a mid-round state into
  15 bytes: the score as a little-endian 16-bit integer, the letter's
  character code, and three little-endian 32-bit bitmaps for the found
  countries, the hinted countries and the found capitals. Bit 31 of the
  found bitmap carries the revealed flag. `Serializer.Serialize` is the
  imperative encoder, with one OR loop per bitmap. It is specified by the
  bit-level relation `Serializer.Encodes`. `Serializer.Deserialize` is the
  pure decoder. `Serializer.RoundTrip` proves that decoding inverts encoding
  under the conditions the format needs.

The reference data (the `Map` from lower-cased country name to capital)
is a parameter: a `seq<(string, string)>` with distinct names, in the
map's iteration order. Both `hint` and the codec depend on that order.

Modules:

- `Text` (`text.dfy`): ASCII lower-casing and `startsWith`.
- `Countries` (`countries.dfy`): lookups, letter lists, the hint search and
  the round-count lemmas.
- `GameProvider` (`game_provider.dfy`): the state machine, with a sample
  round played through it.
- `Bits` (`bits.dfy`): 32-bit bitmaps, little-endian words, bytes and
  16-bit scores.
- `Serializer` (`serializer.dfy`): the codec.

Behaviour of the code that the model keeps:

- Matching is plain `toLowerCase()` followed by `startsWith` or a
  first-character test. No diacritics are stripped and spaces are not
  replaced.
- `tryNextLetter` clears only the found countries and the revealed flag.
  Hinted countries and found capitals are kept across letters.
- `hint` skips only countries that are already found. It does not look at
  the hinted set.
- `guessCountry` also fails when the stored capital is the empty string
  (`if (c)`).
- `guessCapital` does not require the country to have been found.
- The initial and reset letter is lower-case `'a'`.
- The score is an unbounded number. Only the codec wraps it to 16 bits.
- The capitals bitmap is indexed by the position of the lower-cased capital
  among the round's lower-cased capitals, not by country name.
- Decoding masks the found bitmap with `0x7ffffff` (27 bits) but masks
  neither the hinted nor the capitals bitmap. So a found country at
  position 27 or later of its letter list (taken modulo 32, as the shift
  count is) is lost on decoding (`Serializer.FoundDecodeIff`).
- `indexOf` returns -1 for a name outside the letter list, and JavaScript's
  `1 << -1` sets bit 31. The model keeps this: a bit position is the index
  modulo 32 (`Serializer.BitIndex`), which is what JavaScript's shift does
  with its count.

## Model

| member | source | states |
|---|---|---|
| Text.LowerIdempotent | src/GameProvider.tsx:89-91 | lower-casing the lower-cased guess again, as the lookup `countries.get(guess.toLowerCase())` does, gives the same key |
| Text.StartsWithLetter | src/GameProvider.tsx:120 | for a one-letter prefix, `startsWith(l)` holds exactly when the name is non-empty and its first character is `l`, which is the test `c[0] === currentLetter` |
| Countries.Lookup | src/GameProvider.tsx:91 | `countries.get(name)` finds a value exactly when `name` is a key; the value is paired with that name in the list, and with distinct names it is the capital of that name's entry |
| Countries.LetterList | src/seralizer.ts:19-21 | the filtered list holds exactly the reference entries whose name starts with the prefix, and its names stay distinct |
| Countries.LetterListOrder | src/seralizer.ts:19-21 | the filter keeps reference order: of any two entries of the letter list, the earlier one occurs earlier in the reference list; with distinct names this fixes the list, and so the bit position of each country in the codec |
| Countries.FindHint | src/GameProvider.tsx:152 | the `find` result is the first entry, in map order, whose name starts with the letter and is not yet guessed; none is returned exactly when no entry qualifies |
| Countries.RoundNamesCard | src/GameProvider.tsx:120 | the number of keys starting with the letter equals the number of distinct names of the round |
| Countries.RoundCompleteIff | src/GameProvider.tsx:120 | when all guesses belong to the round, `guesses.length` equals the round's count exactly when every country of the round has been found |
| Countries.HintExhaustedIff | src/GameProvider.tsx:152-160 | `hint` finds nothing exactly when the round is complete, and the country it picks belongs to the round |
| GameProvider.NextLetter | src/GameProvider.tsx:121-126 | the successor letter exists exactly when the letter is below 'z', and its code is one more |
| GameProvider.Game.constructor | src/GameProvider.tsx:37-43 | initial state: score 0, letter 'a', nothing found, hinted or revealed, no capitals |
| GameProvider.Game.GuessCountry | src/GameProvider.tsx:85-101 | succeeds exactly when there is a letter, the lower-cased guess is new, starts with the letter and names a country with a non-empty capital; on success the score rises by 1, the guess is added and nothing else changes; on failure nothing changes; the invariant is kept |
| GameProvider.Game.GuessCapital | src/GameProvider.tsx:102-115 | succeeds exactly when the country has no found capital and its lower-cased capital is non-empty and equals the lower-cased guess; on success the score rises by 1 and the capital is recorded, and nothing else changes; on failure nothing changes |
| GameProvider.Game.TryNextLetter | src/GameProvider.tsx:116-138 | with no letter, fails and changes nothing; otherwise advances exactly when the found count equals the round's count, which is exactly when the round is complete; on advancing: next letter or none after 'z', +2 unless revealed, found cleared, revealed cleared, hinted and capitals kept; otherwise only the revealed flag is set |
| GameProvider.Game.Reset | src/GameProvider.tsx:139-147 | score 0, letter 'a', found, hinted and capitals emptied, revealed cleared |
| GameProvider.Game.Hint | src/GameProvider.tsx:148-161 | with no letter, nothing changes; otherwise the first unguessed country of the round is added to found and hinted at a cost of one point, or, when there is none, only the revealed flag is set (so a second call changes nothing more); the found set stays unchanged exactly when the found count already equals the round's count |
| Bits.BitOfZero | src/seralizer.ts:22 | the accumulator starts with no bit set |
| Bits.BitOfOr | src/seralizer.ts:25 | `w \| (1 << k)` has bit `k` set and every other bit as in `w` |
| Bits.BitOfAnd | src/seralizer.ts:78 | a bit of `w & m` is set exactly when it is set in both |
| Bits.BitOfMask27 | src/seralizer.ts:78 | the mask `0x7ffffff` has exactly bits 0..26 set |
| Bits.MaskedBit | src/seralizer.ts:78 | bit `b` of `w & 0x7ffffff` is set exactly when `b` is below 27 and bit `b` of `w` is set |
| Bits.WordRoundTrip | src/seralizer.ts:70-72 | four bytes written little-endian from a 32-bit word read back as that word |
| Bits.ByteRoundTrip | src/seralizer.ts:69 | a number below 256 stored in a byte reads back unchanged |
| Bits.Int16At | src/seralizer.ts:68 | the value read back from two bytes is in the signed 16-bit range |
| Bits.Int16Wraps | src/seralizer.ts:15 | the score read back is congruent to the written score modulo 2^16 |
| Bits.Int16RoundTrip | src/seralizer.ts:68 | a score in the signed 16-bit range reads back unchanged |
| Serializer.IndexOf | src/seralizer.ts:24 | -1 exactly when the name is absent; otherwise the first position holding it |
| Serializer.Bitmap | src/seralizer.ts:22-26 | after the OR loop, bit `b` is set exactly when some name's index, taken modulo 32, is `b` (an absent name sets bit 31) |
| Serializer.RevealedFlag | src/seralizer.ts:29-31 | OR-ing `0x80000000` sets bit 31 when revealed and leaves bits 0..30 as the found bitmap |
| Serializer.LayoutFields | src/seralizer.ts:52-57 | the 15-byte array has the score at 0, the letter at 2 and the three words at 3, 7 and 11 |
| Serializer.Serialize | src/seralizer.ts:3-58 | the bytes satisfy `Encodes`: none for an empty letter; otherwise the layout above with each bitmap bit set exactly as the found, hinted and capital sets dictate |
| Serializer.Select | src/seralizer.ts:77-79 | `filter((_, i) => w & (1 << i))` keeps exactly the elements whose position's bit is set |
| Serializer.ToMap | src/seralizer.ts:94 | `new Map(pairs)` has exactly the pairs' first components as keys, each bound to a value paired with it |
| Serializer.Deserialize | src/seralizer.ts:63-97 | the decoded letter is one character and the score is in the 16-bit range |
| Serializer.DecodedWithin | src/seralizer.ts:74-85 | the found, hinted and capital countries decoded for a round are all names of that round |
| Serializer.DecodedWithinRound | src/seralizer.ts:63-97 | whatever the bytes, the decoded snapshot names only countries of its own letter's list |
| Serializer.EarlierRoundNotRestored | src/seralizer.ts:74-85 | a snapshot holding a hinted country or a found capital outside its letter's list (as `tryNextLetter` leaves them) never decodes back to itself |
| Serializer.BitmapRoundTrip | src/seralizer.ts:80-82 | decoding a bitmap built from a subset of the letter list gives back that subset |
| Serializer.FoundRoundTrip | src/seralizer.ts:77-87 | with at most 27 entries, the masked found bitmap decodes to the found set and bit 31 to the revealed flag |
| Serializer.FoundKept | src/seralizer.ts:77-79 | a name whose position's bit (modulo 32) is below 27 and set survives the masked `filter` |
| Serializer.FoundDropped | src/seralizer.ts:77-79 | over distinct names, a name kept by the masked `filter` has its position's bit (modulo 32) below 27 and set |
| Serializer.FoundIff | src/seralizer.ts:77-79 | over distinct names, the `i`-th name is in the decoded set exactly when bit `i` modulo 32 is below 27 and set |
| Serializer.FoundDecodeIff | src/seralizer.ts:63-79 | whatever the bytes, the `i`-th country of the decoded letter's list is in the decoded `countriesFound` exactly when bit `i` modulo 32 is below 27 and set in the word at byte 3 |
| Serializer.CapitalBitSet | src/seralizer.ts:43-48 | a country whose capital was found has its position's bit set in the capitals bitmap |
| Serializer.CapitalBitFound | src/seralizer.ts:43-48 | a set bit of the capitals bitmap belongs to a country whose capital was found |
| Serializer.CapitalBits | src/seralizer.ts:43-48 | with distinct capitals, bit `i` is set exactly when the `i`-th country's capital was found |
| Serializer.CapitalsSound | src/seralizer.ts:83-85 | every decoded (country, capital) pair is a found capital |
| Serializer.CapitalsComplete | src/seralizer.ts:83-85 | every found capital is decoded |
| Serializer.CapitalsRoundTrip | src/seralizer.ts:83-85 | the decoded capitals map equals the found capitals map |
| Serializer.LetterRoundTrip | src/seralizer.ts:69-76 | a letter below code 256 written at byte 2 decodes to itself, and the decoder then works over that letter's list |
| Serializer.RoundTrip | src/seralizer.ts:3-97 | decoding the bytes of a restorable snapshot gives back the same score, letter, found set, hinted set, capitals map and revealed flag. Restorable means: a score in 16-bit range, a one-character letter below code 256, at most 27 countries for the letter, found and hinted inside the letter list, capitals of letter-list countries with distinct lower-cased capitals |

## Left out

- Base58: `bs58.encode` and `bs58.decode` are an external library, so the codec is modelled up to and from the 15-byte array.
- Persistence: the `localStorage` load and save effects, and `localStorage.removeItem` in `reset`, are browser I/O.
- React: the context and `useState`/`useEffect` plumbing are left out. Each operation is one atomic update computed from the state as read at call time, which is what the closures do with their captured values.
- UI and logging: the UI components and `console.log` are left out.
- Reference data: `src/countries.ts` and its data file are not part of this model. The reference map is a parameter with distinct names.
- Lower-casing: only ASCII letters are lower-cased. Unicode `toLowerCase` beyond ASCII is not modelled.
- Serializer.Deserialize: requires at least 15 bytes. On a shorter array the typed-array views would fail or read `undefined`, and that is not modelled. Its own contract states only the shape of the result; what it decodes to is stated by `RoundTrip`, `DecodedWithinRound` and `FoundDecodeIff`.
- GameProvider.Game.GuessCapital: requires `country` to be a key. The source calls `.toLowerCase()` on `countries.get(country)` without a check, so it would throw for an unknown country.
- Serializer.Serialize: JavaScript numbers that are not integers are not modelled, so the score is an integer.
- Serializer.Serialize: the order in which `forEach` visits a set does not matter, because OR is commutative, so `Bitmap` takes the names in any order.
- Serializer.Serialize: the byte order of typed arrays is taken to be little-endian.
- Serializer.Serialize: strings are sequences of Unicode code points, not of UTF-16 code units, so `charCodeAt(0)` of a letter above U+FFFF (which gives its first surrogate) and strings holding lone surrogates are not modelled. The game's letters are 'a'..'z', where the two agree.
