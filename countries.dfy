/**
 * The reference list of countries: an ordered sequence of (lower-cased name,
 * capital) pairs with distinct names, in the iteration order of the `Map`
 * the game builds from it. Both the game and the save codec depend on that
 * order.
 */
module Countries {
  import opened Text

  datatype Option<+T> = None | Some(value: T)

  /** One reference entry: (lower-cased country name, capital). */
  type Entry = (string, string)

  /** Names are keys of a `Map`, so they are distinct. */
  predicate DistinctNames(cs: seq<Entry>)
  {
    forall i, j :: 0 <= i < j < |cs| ==> cs[i].0 != cs[j].0
  }

  /** `[...countries.keys()]`. */
  function Names(cs: seq<Entry>): seq<string>
  {
    seq(|cs|, i requires 0 <= i < |cs| => cs[i].0)
  }

  /** `countries.get(name)`: the capital stored under `name`, if any. */
  function Lookup(cs: seq<Entry>, name: string): (r: Option<string>)
    ensures r.Some? <==> name in Names(cs)
    ensures r.Some? ==> (name, r.value) in cs
    ensures DistinctNames(cs) ==>
      forall i :: 0 <= i < |cs| && cs[i].0 == name ==> r == Some(cs[i].1)
  {
    if cs == [] then None
    else
      assert Names(cs) == [cs[0].0] + Names(cs[1..]);
      if cs[0].0 == name then Some(cs[0].1) else Lookup(cs[1..], name)
  }

  /**
   * The entries whose name starts with `prefix`, in reference order
   * (`[...countries].filter(c => c[0].startsWith(prefix))`).
   */
  function LetterList(cs: seq<Entry>, prefix: string): (r: seq<Entry>)
    ensures forall e :: e in r <==> e in cs && StartsWith(e.0, prefix)
    ensures DistinctNames(cs) ==> DistinctNames(r)
  {
    if cs == [] then []
    else
      var rest := LetterList(cs[1..], prefix);
      assert DistinctNames(cs) ==> forall e :: e in rest ==> e.0 != cs[0].0 by {
        if DistinctNames(cs) {
          forall e | e in rest ensures e.0 != cs[0].0 {
            var k :| 0 <= k < |cs[1..]| && cs[1..][k] == e;
            assert cs[k + 1] == e;
          }
        }
      }
      if StartsWith(cs[0].0, prefix) then [cs[0]] + rest else rest
  }

  /** `x` occurs in `cs` at some position before one where `y` occurs. */
  ghost predicate Precedes(x: Entry, y: Entry, cs: seq<Entry>)
  {
    exists a, b :: 0 <= a < b < |cs| && x == cs[a] && y == cs[b]
  }

  /** Of any two elements of `r`, the earlier one comes earlier in `cs`. */
  ghost predicate InOrder(r: seq<Entry>, cs: seq<Entry>)
  {
    forall i, j :: 0 <= i < j < |r| ==> Precedes(r[i], r[j], cs)
  }

  /**
   * The filter keeps reference order: of two entries of the letter list,
   * the earlier one comes earlier in the reference list. With distinct
   * names this fixes the list, and with it the bit position of each
   * country in a save code.
   */
  lemma {:induction false} LetterListOrder(cs: seq<Entry>, prefix: string)
    ensures InOrder(LetterList(cs, prefix), cs)
  {
    if cs != [] {
      var tail := cs[1..];
      var rest := LetterList(tail, prefix);
      LetterListOrder(tail, prefix);
      if StartsWith(cs[0].0, prefix) {
        ConsInOrder(cs, rest);
      } else {
        TailInOrder(cs, rest);
      }
    }
  }

  /** Keeping the head of `cs` in front of an ordered selection of its tail stays in order. */
  lemma ConsInOrder(cs: seq<Entry>, rest: seq<Entry>)
    requires |cs| > 0
    requires InOrder(rest, cs[1..]) && forall e :: e in rest ==> e in cs[1..]
    ensures InOrder([cs[0]] + rest, cs)
  {
    var r := [cs[0]] + rest;
    var tail := cs[1..];
    forall i, j | 0 <= i < j < |r|
      ensures Precedes(r[i], r[j], cs)
    {
      if i == 0 {
        assert rest[j - 1] in rest;
        var b :| 0 <= b < |tail| && tail[b] == rest[j - 1];
        assert r[i] == cs[0] && r[j] == cs[b + 1];
      } else {
        var x, y := rest[i - 1], rest[j - 1];
        var a, b :| 0 <= a < b < |tail| && x == tail[a] && y == tail[b];
        assert r[i] == cs[a + 1] && r[j] == cs[b + 1];
      }
    }
  }

  /** An ordered selection of the tail of `cs` is an ordered selection of `cs`. */
  lemma TailInOrder(cs: seq<Entry>, rest: seq<Entry>)
    requires |cs| > 0
    requires InOrder(rest, cs[1..])
    ensures InOrder(rest, cs)
  {
    var tail := cs[1..];
    forall i, j | 0 <= i < j < |rest|
      ensures Precedes(rest[i], rest[j], cs)
    {
      var x, y := rest[i], rest[j];
      var a, b :| 0 <= a < b < |tail| && x == tail[a] && y == tail[b];
      assert rest[i] == cs[a + 1] && rest[j] == cs[b + 1];
    }
  }

  /** Number of countries of the round for letter `l` (`filter(c => c[0] === l).length`). */
  function RoundTotal(cs: seq<Entry>, l: char): nat
  {
    |LetterList(cs, [l])|
  }

  /** The names of the round for letter `l`, as a set. */
  function RoundNames(cs: seq<Entry>, l: char): set<string>
  {
    set e | e in LetterList(cs, [l]) :: e.0
  }

  /** The entry `hint` may pick: first character `l`, not yet guessed. */
  predicate Hintable(e: Entry, l: char, guesses: set<string>)
  {
    |e.0| > 0 && e.0[0] == l && e.0 !in guesses
  }

  /**
   * `[...countries].find(([c]) => c[0] === l && !guesses.has(c))`, as the
   * index of the entry found.
   */
  function FindHint(cs: seq<Entry>, l: char, guesses: set<string>): (r: Option<nat>)
    ensures r.Some? ==> r.value < |cs| && Hintable(cs[r.value], l, guesses)
    ensures r.Some? ==> forall j :: 0 <= j < r.value ==> !Hintable(cs[j], l, guesses)
    ensures r.None? ==> forall j :: 0 <= j < |cs| ==> !Hintable(cs[j], l, guesses)
  {
    if cs == [] then None
    else if Hintable(cs[0], l, guesses) then Some(0)
    else match FindHint(cs[1..], l, guesses)
      case None => None
      case Some(i) => Some(i + 1)
  }

  /** A sequence without repetitions has as many elements as its set. */
  lemma {:induction false} DistinctCard(s: seq<string>)
    requires forall i, j :: 0 <= i < j < |s| ==> s[i] != s[j]
    ensures |set x | x in s| == |s|
  {
    if s != [] {
      DistinctCard(s[1..]);
      assert (set x | x in s) == {s[0]} + (set x | x in s[1..]);
      assert s[0] !in s[1..];
    }
  }

  /** The round's names are exactly as many as its entries. */
  lemma RoundNamesCard(cs: seq<Entry>, l: char)
    requires DistinctNames(cs)
    ensures |RoundNames(cs, l)| == RoundTotal(cs, l)
  {
    var r := LetterList(cs, [l]);
    var ns := Names(r);
    assert RoundNames(cs, l) == set x | x in ns by {
      forall x ensures x in RoundNames(cs, l) <==> x in ns {
        if x in ns {
          var k :| 0 <= k < |ns| && ns[k] == x;
          assert r[k] in r;
        }
        if x in RoundNames(cs, l) {
          var e :| e in r && e.0 == x;
          var k :| 0 <= k < |r| && r[k] == e;
          assert ns[k] == x;
        }
      }
    }
    DistinctCard(ns);
  }

  lemma SubsetCard(a: set<string>, b: set<string>)
    requires a <= b
    ensures |a| <= |b|
  {
    assert b == a + (b - a);
  }

  /**
   * `tryNextLetter`'s test `|guesses| == RoundTotal` holds exactly when
   * every country of the round has been found, given that the guesses all
   * belong to the round.
   */
  lemma RoundCompleteIff(cs: seq<Entry>, l: char, guesses: set<string>)
    requires DistinctNames(cs)
    requires guesses <= RoundNames(cs, l)
    ensures |guesses| == RoundTotal(cs, l) <==> RoundNames(cs, l) <= guesses
  {
    RoundNamesCard(cs, l);
    var all := RoundNames(cs, l);
    if !(all <= guesses) {
      var x :| x in all && x !in guesses;
      assert guesses + {x} <= all;
      assert |guesses + {x}| == |guesses| + 1;
      SubsetCard(guesses + {x}, all);
    } else {
      assert guesses == all;
    }
  }

  /**
   * `hint` finds nothing left to give away exactly when the round is
   * complete, that is, exactly when `tryNextLetter` would advance.
   */
  lemma HintExhaustedIff(cs: seq<Entry>, l: char, guesses: set<string>)
    requires DistinctNames(cs)
    requires guesses <= RoundNames(cs, l)
    ensures FindHint(cs, l, guesses).None? <==> |guesses| == RoundTotal(cs, l)
    ensures var r := FindHint(cs, l, guesses);
      r.Some? ==> cs[r.value].0 in RoundNames(cs, l)
  {
    RoundCompleteIff(cs, l, guesses);
    var r := FindHint(cs, l, guesses);
    if r.None? {
      forall x | x in RoundNames(cs, l) ensures x in guesses {
        var e :| e in LetterList(cs, [l]) && e.0 == x;
        var k :| 0 <= k < |cs| && cs[k] == e;
        StartsWithLetter(e.0, l);
        assert !Hintable(cs[k], l, guesses);
      }
    } else {
      var e := cs[r.value];
      StartsWithLetter(e.0, l);
      assert e in LetterList(cs, [l]);
      assert e.0 in RoundNames(cs, l);
    }
  }
}
