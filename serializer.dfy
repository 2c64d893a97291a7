/**
 * The save code: a mid-round snapshot packed into 15 bytes (score, letter
 * and three 32-bit bitmaps over the round's letter list), and unpacked
 * again against the same reference list. The text encoding of those bytes
 * is not part of this model.
 */
module Serializer {
  import opened Text
  import opened Countries
  import opened Bits

  /** The part of the game state a save code carries. */
  datatype Snapshot = Snapshot(
    score: int,
    currentLetter: string,
    countriesFound: set<string>,
    hintedCountries: set<string>,
    capitalsFound: map<string, string>,
    countriesLeftRevealed: bool)

  /** `xs.indexOf(x)`: the first position of `x` in `xs`, or -1. */
  function IndexOf(xs: seq<string>, x: string): (r: int)
    ensures -1 <= r < |xs|
    ensures r == -1 <==> x !in xs
    ensures 0 <= r ==> xs[r] == x && x !in xs[..r]
  {
    if xs == [] then -1
    else if xs[0] == x then 0
    else
      var r := IndexOf(xs[1..], x);
      assert r >= 0 ==> xs[..r + 1] == [xs[0]] + xs[1..][..r];
      if r == -1 then -1 else r + 1
  }

  /**
   * The bit that `1 << xs.indexOf(x)` sets. A shift uses the low five bits
   * of its count, so a missing `x` (index -1) selects bit 31.
   */
  function BitIndex(xs: seq<string>, x: string): nat
  {
    IndexOf(xs, x) % 32
  }

  /** Some name of `names` sets bit `b` of a bitmap over `keys`. */
  ghost predicate Hits(keys: seq<string>, names: set<string>, b: nat)
  {
    exists x :: x in names && BitIndex(keys, x) == b
  }

  /** `w` is exactly the bitmap of `names` over `keys`. */
  ghost predicate Marks(w: bv32, keys: seq<string>, names: set<string>)
  {
    forall b: nat :: b < 32 ==> (Bit(w, b) <==> Hits(keys, names, b))
  }

  /**
   * `names.forEach(n => bitmap |= 1 << keys.indexOf(n))`, starting from an
   * empty bitmap.
   */
  method Bitmap(keys: seq<string>, names: set<string>) returns (w: bv32)
    ensures Marks(w, keys, names)
  {
    w := 0;
    var rest := names;
    forall b: nat | b < 32 ensures !Bit(w, b) {
      BitOfZero(b);
    }
    while rest != {}
      invariant rest <= names
      invariant forall b: nat :: b < 32 ==> (Bit(w, b) <==> Hits(keys, names - rest, b))
      decreases rest
    {
      var x :| x in rest;
      var k := BitIndex(keys, x);
      ghost var before := w;
      w := w | (1 << (k as bv5));
      forall b: nat | b < 32
        ensures Bit(w, b) <==> Hits(keys, names - (rest - {x}), b)
      {
        BitOfOr(before, k, b);
        if b == k {
          assert x in names - (rest - {x});
        }
        if Hits(keys, names - (rest - {x}), b) && b != k {
          var y :| y in names - (rest - {x}) && BitIndex(keys, y) == b;
          assert y in names - rest;
        }
      }
      rest := rest - {x};
    }
    assert names - rest == names;
  }

  /** The lower-cased capitals of a letter list, in its order. */
  function LetterCapitals(entries: seq<Entry>): seq<string>
  {
    seq(|entries|, i requires 0 <= i < |entries| => Lower(entries[i].1))
  }

  /** The (name, lower-cased capital) pairs of a letter list, in its order. */
  function CapitalPairs(entries: seq<Entry>): seq<(string, string)>
  {
    seq(|entries|, i requires 0 <= i < |entries| => (entries[i].0, Lower(entries[i].1)))
  }

  /** Byte 2: the letter's character code, truncated to a byte. */
  function LetterByte(letter: string): byte
    requires |letter| > 0
  {
    ToByte(letter[0] as int % 0x100)
  }

  /**
   * Bits 0..30 of `w` are the bitmap of `found` over `keys`; bit 31 is set
   * when the remaining count was revealed or when a found name sets it.
   */
  ghost predicate FoundWord(w: bv32, keys: seq<string>, found: set<string>, revealed: bool)
  {
    (forall b: nat :: b < 31 ==> (Bit(w, b) <==> Hits(keys, found, b))) &&
    (Bit(w, 31) <==> revealed || Hits(keys, found, 31))
  }

  /** Or-ing `0x80000000` into the found bitmap carries the revealed flag. */
  lemma RevealedFlag(plain: bv32, keys: seq<string>, found: set<string>, revealed: bool)
    requires Marks(plain, keys, found)
    ensures FoundWord(if revealed then plain | 0x8000_0000 else plain, keys, found, revealed)
  {
    var w := if revealed then plain | 0x8000_0000 else plain;
    assert (1 as bv32) << (31 as bv5) == 0x8000_0000;
    forall b: nat | b < 32
      ensures Bit(w, b) <==> Bit(plain, b) || (b == 31 && revealed)
    {
      BitOfOr(plain, 31, b);
    }
  }

  /**
   * The 15 bytes of a save code: the score as a 16-bit integer, the
   * letter's code, then the found, hinted and capitals bitmaps.
   */
  function Layout(score: int, letter: byte, found: bv32, hinted: bv32, capitals: bv32): seq<byte>
  {
    Int16Bytes(score) + [letter] + WordBytes(found) + WordBytes(hinted) + WordBytes(capitals)
  }

  lemma LayoutFields(score: int, letter: byte, found: bv32, hinted: bv32, capitals: bv32)
    ensures var bs := Layout(score, letter, found, hinted, capitals);
      |bs| == 15 && bs[..2] == Int16Bytes(score) && bs[2] == letter &&
      WordAt(bs, 3) == found && WordAt(bs, 7) == hinted && WordAt(bs, 11) == capitals
  {
    var bs := Layout(score, letter, found, hinted, capitals);
    assert bs[..2] == Int16Bytes(score);
    assert bs[3..7] == WordBytes(found);
    assert bs[7..11] == WordBytes(hinted);
    assert bs[11..15] == WordBytes(capitals);
    WordRoundTrip(found, bs, 3);
    WordRoundTrip(hinted, bs, 7);
    WordRoundTrip(capitals, bs, 11);
  }

  /**
   * `bytes` is the save code of `s` over the reference list `cs`: nothing
   * for an empty letter; otherwise 15 bytes holding the score as a 16-bit
   * integer, the letter's code, the found-countries bitmap with the
   * revealed flag in bit 31, the hinted bitmap, and the bitmap of found
   * capitals over the round's lower-cased capitals.
   */
  ghost predicate Encodes(cs: seq<Entry>, s: Snapshot, bytes: seq<byte>)
  {
    if s.currentLetter == "" then bytes == []
    else
      var entries := LetterList(cs, s.currentLetter);
      var keys := Names(entries);
      |bytes| == 15 &&
      bytes[..2] == Int16Bytes(s.score) &&
      bytes[2] == LetterByte(s.currentLetter) &&
      FoundWord(WordAt(bytes, 3), keys, s.countriesFound, s.countriesLeftRevealed) &&
      Marks(WordAt(bytes, 7), keys, s.hintedCountries) &&
      Marks(WordAt(bytes, 11), LetterCapitals(entries), s.capitalsFound.Values)
  }

  /** `serializeState`, up to the byte array it hands to the text encoder. */
  method Serialize(cs: seq<Entry>, s: Snapshot) returns (bytes: seq<byte>)
    ensures Encodes(cs, s, bytes)
  {
    if s.currentLetter == "" {
      return [];
    }
    var entries := LetterList(cs, s.currentLetter);
    var keys := Names(entries);
    var found := Bitmap(keys, s.countriesFound);
    RevealedFlag(found, keys, s.countriesFound, s.countriesLeftRevealed);
    if s.countriesLeftRevealed {
      found := found | 0x8000_0000;
    }
    var hinted := Bitmap(keys, s.hintedCountries);
    var capitals := Bitmap(LetterCapitals(entries), s.capitalsFound.Values);
    bytes := Layout(s.score, LetterByte(s.currentLetter), found, hinted, capitals);
    LayoutFields(s.score, LetterByte(s.currentLetter), found, hinted, capitals);
  }

  /**
   * `xs.filter((_, i) => w & (1 << i))`: the elements whose bit is set,
   * in order; from position 32 on, positions reuse bit `i % 32`.
   */
  function Select<T(==)>(xs: seq<T>, w: bv32): (r: seq<T>)
    ensures forall x :: x in r ==> exists i :: 0 <= i < |xs| && xs[i] == x && Bit(w, i % 32)
    ensures forall i :: 0 <= i < |xs| && Bit(w, i % 32) ==> xs[i] in r
  {
    if xs == [] then []
    else
      var n := |xs| - 1;
      var r := Select(xs[..n], w) + (if Bit(w, n % 32) then [xs[n]] else []);
      assert forall i :: 0 <= i < n ==> xs[..n][i] == xs[i];
      r
  }

  /** `new Map(pairs)`: the keys of the pairs, each bound to one of its values. */
  function ToMap(ps: seq<(string, string)>): (m: map<string, string>)
    ensures forall k :: k in m <==> exists i :: 0 <= i < |ps| && ps[i].0 == k
    ensures forall k :: k in m ==> (k, m[k]) in ps
  {
    if ps == [] then map[]
    else
      var n := |ps| - 1;
      var m := ToMap(ps[..n])[ps[n].0 := ps[n].1];
      assert forall i :: 0 <= i < n ==> ps[..n][i] == ps[i];
      m
  }

  /** The set of the elements of `xs` (`new Set(xs)`). */
  function Elements<T(==)>(xs: seq<T>): set<T>
  {
    set x | x in xs
  }

  /**
   * The snapshot that 15 or more bytes describe for a letter whose round
   * lists `entries`: the found bitmap keeps its low 27 bits, bit 31 of it
   * is the revealed flag, and the capitals bitmap selects country-capital
   * pairs.
   */
  function DecodeRound(entries: seq<Entry>, letter: string, bytes: seq<byte>): Snapshot
    requires |bytes| >= 15
  {
    var keys := Names(entries);
    var found := WordAt(bytes, 3);
    Snapshot(
      Int16At(bytes, 0),
      letter,
      Elements(Select(keys, found & 0x7ff_ffff)),
      Elements(Select(keys, WordAt(bytes, 7))),
      ToMap(Select(CapitalPairs(entries), WordAt(bytes, 11))),
      Bit(found, 31))
  }

  /** `deserializeState`, from the byte array the text decoder returns. */
  function Deserialize(cs: seq<Entry>, bytes: seq<byte>): (s: Snapshot)
    requires |bytes| >= 15
    ensures |s.currentLetter| == 1 && -0x8000 <= s.score < 0x8000
  {
    var letter := [ByteValue(bytes[2]) as char];
    DecodeRound(LetterList(cs, letter), letter, bytes)
  }

  /** Byte 2 is the decoded letter, and its round's list is the one decoded against. */
  lemma DecodedLetter(cs: seq<Entry>, bytes: seq<byte>)
    requires |bytes| >= 15
    ensures var letter := [ByteValue(bytes[2]) as char];
      Deserialize(cs, bytes) == DecodeRound(LetterList(cs, letter), letter, bytes)
  {
  }

  /** A decoded round only names countries of that round. */
  lemma DecodedWithin(entries: seq<Entry>, letter: string, bytes: seq<byte>)
    requires |bytes| >= 15
    ensures var s := DecodeRound(entries, letter, bytes);
      (forall x :: x in s.countriesFound ==> x in Names(entries)) &&
      (forall x :: x in s.hintedCountries ==> x in Names(entries)) &&
      (forall k :: k in s.capitalsFound ==> k in Names(entries))
  {
    var s := DecodeRound(entries, letter, bytes);
    var keys := Names(entries);
    var pairs := CapitalPairs(entries);
    var chosen := Select(pairs, WordAt(bytes, 11));
    forall k | k in s.capitalsFound ensures k in keys {
      var i :| 0 <= i < |chosen| && chosen[i].0 == k;
      assert chosen[i] in chosen;
      var j :| 0 <= j < |pairs| && pairs[j] == chosen[i] && Bit(WordAt(bytes, 11), j % 32);
      assert keys[j] == k;
    }
  }

  /** Whatever the bytes, a decoded snapshot only names countries of its letter's round. */
  lemma DecodedWithinRound(cs: seq<Entry>, bytes: seq<byte>)
    requires |bytes| >= 15
    ensures var s := Deserialize(cs, bytes);
      var keys := Names(LetterList(cs, s.currentLetter));
      (forall x :: x in s.countriesFound ==> x in keys) &&
      (forall x :: x in s.hintedCountries ==> x in keys) &&
      (forall k :: k in s.capitalsFound ==> k in keys)
  {
    var letter := [ByteValue(bytes[2]) as char];
    DecodedWithin(LetterList(cs, letter), letter, bytes);
  }

  /**
   * Hinted countries and found capitals are kept when the letter advances,
   * but a save code only names countries of its own round: a snapshot still
   * holding one from an earlier round never decodes back to itself.
   */
  lemma EarlierRoundNotRestored(cs: seq<Entry>, s: Snapshot, bytes: seq<byte>)
    requires |bytes| >= 15
    requires (exists x :: x in s.hintedCountries && x !in Names(LetterList(cs, s.currentLetter))) ||
             (exists k :: k in s.capitalsFound && k !in Names(LetterList(cs, s.currentLetter)))
    ensures Deserialize(cs, bytes) != s
  {
    DecodedWithinRound(cs, bytes);
  }

  /**
   * When a save code gives back the snapshot it was made from: a
   * one-character letter whose code fits a byte, a score in the 16-bit
   * range, a round of at most 27 countries (decoding reads the found bitmap
   * through a 27-bit mask) whose lower-cased capitals are distinct, found
   * and hinted countries of that round, and found capitals that are the
   * lower-cased capitals of countries of that round.
   */
  ghost predicate Restorable(cs: seq<Entry>, s: Snapshot)
  {
    DistinctNames(cs) &&
    |s.currentLetter| == 1 && s.currentLetter[0] as int < 0x100 &&
    -0x8000 <= s.score < 0x8000 &&
    var entries := LetterList(cs, s.currentLetter);
    |entries| <= 27 &&
    (forall x :: x in s.countriesFound ==> x in Names(entries)) &&
    (forall x :: x in s.hintedCountries ==> x in Names(entries)) &&
    CapitalsOf(entries, s.capitalsFound)
  }

  /** Decoding a bitmap over at most 32 keys gives back the set it was made from. */
  lemma BitmapRoundTrip(keys: seq<string>, names: set<string>, w: bv32)
    requires |keys| <= 32
    requires forall x :: x in names ==> x in keys
    requires forall b: nat :: b < |keys| ==> (Bit(w, b) <==> Hits(keys, names, b))
    ensures Elements(Select(keys, w)) == names
  {
    forall x | x in names ensures x in Select(keys, w) {
      var i := IndexOf(keys, x);
      SmallShiftCount(i);
      assert BitIndex(keys, x) == i;
      assert Hits(keys, names, i);
      assert Bit(w, i % 32);
    }
    forall x | x in Select(keys, w) ensures x in names {
      var i :| 0 <= i < |keys| && keys[i] == x && Bit(w, i % 32);
      SmallShiftCount(i);
      assert Hits(keys, names, i);
      var y :| y in names && BitIndex(keys, y) == i;
      var r := IndexOf(keys, y);
      SmallShiftCount(r);
      assert r == i;
    }
  }

  /** In a list without repetitions, an element's first index is its position. */
  lemma IndexOfDistinct(xs: seq<string>, j: nat)
    requires j < |xs|
    requires forall a, b :: 0 <= a < b < |xs| ==> xs[a] != xs[b]
    ensures IndexOf(xs, xs[j]) == j
  {
  }

  /** The round's lower-cased capitals have no repetitions. */
  lemma CapitalsDistinct(entries: seq<Entry>, m: map<string, string>)
    requires CapitalsOf(entries, m)
    ensures var caps := LetterCapitals(entries);
      forall a, b :: 0 <= a < b < |caps| ==> caps[a] != caps[b]
  {
  }

  /** A found country's capital sets the bit of its position. */
  lemma CapitalBitSet(entries: seq<Entry>, m: map<string, string>, w: bv32, i: nat)
    requires |entries| <= 32 && i < |entries|
    requires CapitalsOf(entries, m)
    requires Marks(w, LetterCapitals(entries), m.Values)
    requires entries[i].0 in m
    ensures Bit(w, i)
  {
    var caps := LetterCapitals(entries);
    var k := entries[i].0;
    var j :| 0 <= j < |entries| && entries[j].0 == k && m[k] == Lower(entries[j].1);
    assert j == i;
    assert m[k] in m.Values;
    CapitalsDistinct(entries, m);
    IndexOfDistinct(caps, i);
    SmallShiftCount(i);
    assert BitIndex(caps, m[k]) == i;
    assert Hits(caps, m.Values, i);
  }

  /** A set bit belongs to the capital of a found country. */
  lemma CapitalBitFound(entries: seq<Entry>, m: map<string, string>, w: bv32, i: nat)
    requires |entries| <= 32 && i < |entries|
    requires CapitalsOf(entries, m)
    requires Marks(w, LetterCapitals(entries), m.Values)
    requires Bit(w, i)
    ensures entries[i].0 in m
  {
    var caps := LetterCapitals(entries);
    assert Hits(caps, m.Values, i);
    var v :| v in m.Values && BitIndex(caps, v) == i;
    var k :| k in m && m[k] == v;
    var j :| 0 <= j < |entries| && entries[j].0 == k && m[k] == Lower(entries[j].1);
    assert caps[j] == v;
    CapitalsDistinct(entries, m);
    IndexOfDistinct(caps, j);
    SmallShiftCount(j);
  }

  /**
   * Over a round whose names and lower-cased capitals are distinct, bit `i`
   * of the capitals bitmap is set exactly when the `i`-th country's capital
   * has been found.
   */
  lemma CapitalBits(entries: seq<Entry>, m: map<string, string>, w: bv32, i: nat)
    requires |entries| <= 32 && i < |entries|
    requires CapitalsOf(entries, m)
    requires Marks(w, LetterCapitals(entries), m.Values)
    ensures Bit(w, i) <==> entries[i].0 in m
  {
    if entries[i].0 in m {
      CapitalBitSet(entries, m, w, i);
    }
    if Bit(w, i) {
      CapitalBitFound(entries, m, w, i);
    }
  }

  /**
   * The capitals map of a snapshot: each found country maps to its own
   * lower-cased capital, and the round's capitals are distinct.
   */
  ghost predicate CapitalsOf(entries: seq<Entry>, m: map<string, string>)
  {
    DistinctNames(entries) &&
    (forall i, j :: 0 <= i < j < |entries| ==> Lower(entries[i].1) != Lower(entries[j].1)) &&
    (forall k :: k in m ==>
      exists i :: 0 <= i < |entries| && entries[i].0 == k && m[k] == Lower(entries[i].1))
  }

  /** Every capital decoded from the bitmap is a found capital. */
  lemma CapitalsSound(entries: seq<Entry>, m: map<string, string>, w: bv32, k: string)
    requires |entries| <= 32
    requires CapitalsOf(entries, m)
    requires Marks(w, LetterCapitals(entries), m.Values)
    requires k in ToMap(Select(CapitalPairs(entries), w))
    ensures k in m && ToMap(Select(CapitalPairs(entries), w))[k] == m[k]
  {
    var pairs := CapitalPairs(entries);
    var r := ToMap(Select(pairs, w));
    assert (k, r[k]) in Select(pairs, w);
    var i :| 0 <= i < |pairs| && pairs[i] == (k, r[k]) && Bit(w, i % 32);
    SmallShiftCount(i);
    CapitalBits(entries, m, w, i);
    var j :| 0 <= j < |entries| && entries[j].0 == k && m[k] == Lower(entries[j].1);
    assert j == i;
  }

  /** Every found capital is decoded from the bitmap. */
  lemma CapitalsComplete(entries: seq<Entry>, m: map<string, string>, w: bv32, k: string)
    requires |entries| <= 32
    requires CapitalsOf(entries, m)
    requires Marks(w, LetterCapitals(entries), m.Values)
    requires k in m
    ensures k in ToMap(Select(CapitalPairs(entries), w))
  {
    var pairs := CapitalPairs(entries);
    var chosen := Select(pairs, w);
    var i :| 0 <= i < |entries| && entries[i].0 == k && m[k] == Lower(entries[i].1);
    CapitalBits(entries, m, w, i);
    SmallShiftCount(i);
    assert pairs[i] in chosen;
  }

  /** Decoding the capitals bitmap gives back the found capitals. */
  lemma CapitalsRoundTrip(entries: seq<Entry>, m: map<string, string>, w: bv32)
    requires |entries| <= 32
    requires CapitalsOf(entries, m)
    requires Marks(w, LetterCapitals(entries), m.Values)
    ensures ToMap(Select(CapitalPairs(entries), w)) == m
  {
    var r := ToMap(Select(CapitalPairs(entries), w));
    forall k | k in r ensures k in m && r[k] == m[k] {
      CapitalsSound(entries, m, w, k);
    }
    forall k | k in m ensures k in r {
      CapitalsComplete(entries, m, w, k);
    }
    MapExt(r, m);
  }

  /** Two maps with the same keys and the same value at each key are equal. */
  lemma MapExt(r: map<string, string>, m: map<string, string>)
    requires forall k :: k in r ==> k in m && r[k] == m[k]
    requires forall k :: k in m ==> k in r
    ensures r == m
  {
    assert r.Keys == m.Keys;
  }

  /** Decoding the found bitmap gives back the found countries and the revealed flag. */
  lemma FoundRoundTrip(keys: seq<string>, found: set<string>, revealed: bool, w: bv32)
    requires |keys| <= 27
    requires forall x :: x in found ==> x in keys
    requires FoundWord(w, keys, found, revealed)
    ensures Elements(Select(keys, w & 0x7ff_ffff)) == found
    ensures Bit(w, 31) <==> revealed
  {
    forall b: nat | b < |keys|
      ensures Bit(w & 0x7ff_ffff, b) <==> Hits(keys, found, b)
    {
      MaskedBit(w, b);
    }
    BitmapRoundTrip(keys, found, w & 0x7ff_ffff);
    if Hits(keys, found, 31) {
      var x :| x in found && BitIndex(keys, x) == 31;
      SmallShiftCount(IndexOf(keys, x));
      assert false;
    }
  }

  /** Byte 2 written from a letter below 256 reads back as that letter. */
  lemma LetterRoundTrip(cs: seq<Entry>, letter: string, bytes: seq<byte>)
    requires |letter| == 1 && letter[0] as int < 0x100
    requires |bytes| >= 15 && bytes[2] == LetterByte(letter)
    ensures Deserialize(cs, bytes) == DecodeRound(LetterList(cs, letter), letter, bytes)
  {
    var c := letter[0];
    assert c as int % 0x100 == c as int;
    ByteRoundTrip(c as int);
    assert ByteValue(bytes[2]) == c as int;
    assert ByteValue(bytes[2]) as char == c;
    assert letter == [c];
  }

  /** A name at a position whose masked bit is set is decoded as found. */
  lemma FoundKept(keys: seq<string>, w: bv32, i: nat)
    requires i < |keys|
    requires i % 32 < 27 && Bit(w, i % 32)
    ensures keys[i] in Select(keys, w & 0x7ff_ffff)
  {
    MaskedBit(w, i % 32);
  }

  /** Over distinct names, a name decoded as found has its masked bit set. */
  lemma FoundDropped(keys: seq<string>, w: bv32, i: nat)
    requires i < |keys|
    requires forall a, b :: 0 <= a < b < |keys| ==> keys[a] != keys[b]
    requires keys[i] in Select(keys, w & 0x7ff_ffff)
    ensures i % 32 < 27 && Bit(w, i % 32)
  {
    var j :| 0 <= j < |keys| && keys[j] == keys[i] && Bit(w & 0x7ff_ffff, j % 32);
    assert j == i;
    MaskedBit(w, i % 32);
  }

  /** The names of a round of a reference list with distinct names are distinct. */
  lemma RoundNamesDistinct(cs: seq<Entry>, letter: string)
    requires DistinctNames(cs)
    ensures var keys := Names(LetterList(cs, letter));
      forall a, b :: 0 <= a < b < |keys| ==> keys[a] != keys[b]
  {
  }

  /**
   * Over distinct names, the `i`-th name is in the masked selection exactly
   * when bit `i` (modulo 32) lies below the mask and is set.
   */
  lemma FoundIff(keys: seq<string>, w: bv32, i: nat)
    requires i < |keys|
    requires forall a, b :: 0 <= a < b < |keys| ==> keys[a] != keys[b]
    ensures keys[i] in Elements(Select(keys, w & 0x7ff_ffff)) <==> i % 32 < 27 && Bit(w, i % 32)
  {
    if i % 32 < 27 && Bit(w, i % 32) {
      FoundKept(keys, w, i);
    }
    if keys[i] in Select(keys, w & 0x7ff_ffff) {
      FoundDropped(keys, w, i);
    }
  }

  /**
   * Whatever the bytes, the `i`-th country of the decoded letter's list is
   * decoded as found exactly when bit `i` (taken modulo 32, as a JavaScript
   * shift count is) lies below the 27-bit mask and is set in the word at
   * byte 3.
   */
  lemma FoundDecodeIff(cs: seq<Entry>, bytes: seq<byte>, i: nat)
    requires |bytes| >= 15 && DistinctNames(cs)
    ensures var s := Deserialize(cs, bytes);
      var keys := Names(LetterList(cs, s.currentLetter));
      i < |keys| ==>
        (keys[i] in s.countriesFound <==> i % 32 < 27 && Bit(WordAt(bytes, 3), i % 32))
  {
    var letter := [ByteValue(bytes[2]) as char];
    var keys := Names(LetterList(cs, letter));
    var w := WordAt(bytes, 3);
    DecodedLetter(cs, bytes);
    if i < |keys| {
      RoundNamesDistinct(cs, letter);
      FoundIff(keys, w, i);
    }
  }

  /**
   * A save code made from a restorable snapshot decodes to that same
   * snapshot: score, letter, found and hinted countries, found capitals and
   * the revealed flag.
   */
  lemma RoundTrip(cs: seq<Entry>, s: Snapshot, bytes: seq<byte>)
    requires Restorable(cs, s)
    requires Encodes(cs, s, bytes)
    ensures |bytes| == 15 && Deserialize(cs, bytes) == s
  {
    var entries := LetterList(cs, s.currentLetter);
    var keys := Names(entries);
    LetterRoundTrip(cs, s.currentLetter, bytes);
    Int16RoundTrip(s.score, bytes);
    FoundRoundTrip(keys, s.countriesFound, s.countriesLeftRevealed, WordAt(bytes, 3));
    BitmapRoundTrip(keys, s.hintedCountries, WordAt(bytes, 7));
    CapitalsRoundTrip(entries, s.capitalsFound, WordAt(bytes, 11));
  }
}
