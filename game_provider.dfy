/**
 * The round state machine held by the game provider: the six pieces of
 * state the provider keeps and the five operations it hands to the UI.
 * Each operation reads the state as it is when called and updates the
 * fields it sets in one step.
 */
module GameProvider {
  import opened Text
  import opened Countries

  /** The letter after `l`, or none once `l` is 'z' (the game is over). */
  function NextLetter(l: char): (r: Option<char>)
    ensures r.Some? <==> l < 'z'
    ensures r.Some? ==> r.value as int == l as int + 1
  {
    if l < 'z' then Some((l as int + 1) as char) else None
  }

  class Game {
    /** The reference map from lower-cased country name to capital. */
    const countries: seq<Entry>

    var score: int
    /** 'a'..'z' during play; None once the last round is over. */
    var currentLetter: Option<char>
    /** Countries found in the current round (typed or hinted). */
    var guesses: set<string>
    /** Countries given away by `Hint`; kept across rounds. */
    var hintedCountries: set<string>
    var isRevealed: bool
    /** Country name to lower-cased capital; kept across rounds. */
    var capitalsFound: map<string, string>

    /**
     * The reference names are distinct, the letter stays within 'a'..'z',
     * and every found country is a country of the current round.
     */
    ghost predicate Valid()
      reads this
    {
      DistinctNames(countries) &&
      (currentLetter.Some? ==> 'a' <= currentLetter.value <= 'z') &&
      (currentLetter.None? ==> guesses == {}) &&
      (currentLetter.Some? ==> guesses <= RoundNames(countries, currentLetter.value))
    }

    /** The provider's initial state over the reference list. */
    constructor (countries: seq<Entry>)
      requires DistinctNames(countries)
      ensures Valid() && this.countries == countries
      ensures score == 0 && currentLetter == Some('a') && !isRevealed
      ensures guesses == {} && hintedCountries == {} && capitalsFound == map[]
    {
      this.countries := countries;
      score := 0;
      currentLetter := Some('a');
      guesses := {};
      hintedCountries := {};
      isRevealed := false;
      capitalsFound := map[];
    }

    /**
     * Accepts a country name for the current round: it must be new, start
     * with the current letter and name a country whose capital is non-empty.
     */
    method GuessCountry(country: string) returns (ok: bool)
      requires Valid()
      modifies this
      ensures Valid()
      ensures ok <==>
        old(currentLetter).Some? &&
        Lower(country) !in old(guesses) &&
        StartsWith(Lower(country), [old(currentLetter).value]) &&
        Lookup(countries, Lower(country)).Some? &&
        Lookup(countries, Lower(country)).value != ""
      ensures ok ==>
        score == old(score) + 1 &&
        guesses == old(guesses) + {Lower(country)} &&
        currentLetter == old(currentLetter) &&
        hintedCountries == old(hintedCountries) &&
        isRevealed == old(isRevealed) &&
        capitalsFound == old(capitalsFound)
      ensures !ok ==> unchanged(this)
    {
      if currentLetter.None? {
        return false;
      }
      var l := currentLetter.value;
      var guess := Lower(country);
      LowerIdempotent(country);
      ok := false;
      if guess !in guesses && StartsWith(guess, [l]) {
        var c := Lookup(countries, Lower(guess));
        if c.Some? && c.value != "" {
          assert (guess, c.value) in LetterList(countries, [l]);
          score := score + 1;
          guesses := guesses + {guess};
          ok := true;
        }
      }
    }

    /**
     * Accepts a capital for `country`, whether or not the country itself
     * has been found: the capital must not be found yet and must equal the
     * reference capital up to case.
     */
    method GuessCapital(country: string, capital: string) returns (ok: bool)
      requires Valid()
      requires country in Names(countries)
      modifies this
      ensures Valid()
      ensures ok <==>
        country !in old(capitalsFound) &&
        Lower(Lookup(countries, country).value) != "" &&
        Lower(Lookup(countries, country).value) == Lower(capital)
      ensures ok ==>
        score == old(score) + 1 &&
        capitalsFound == old(capitalsFound)[country := Lower(capital)] &&
        currentLetter == old(currentLetter) &&
        guesses == old(guesses) &&
        hintedCountries == old(hintedCountries) &&
        isRevealed == old(isRevealed)
      ensures !ok ==> unchanged(this)
    {
      var guess := Lower(capital);
      ok := false;
      if country !in capitalsFound {
        var c := Lower(Lookup(countries, country).value);
        if c != "" && c == guess {
          score := score + 1;
          capitalsFound := capitalsFound[country := c];
          ok := true;
        }
      }
    }

    /**
     * Moves to the next letter when every country of the round has been
     * found, with a bonus of 2 unless the remaining count was revealed;
     * otherwise reveals the remaining count.
     */
    method TryNextLetter() returns (advanced: bool)
      requires Valid()
      modifies this
      ensures Valid()
      ensures old(currentLetter).None? ==> !advanced && unchanged(this)
      ensures old(currentLetter).Some? ==>
        (advanced <==> |old(guesses)| == RoundTotal(countries, old(currentLetter).value)) &&
        (advanced <==> RoundNames(countries, old(currentLetter).value) <= old(guesses))
      ensures advanced ==>
        currentLetter == NextLetter(old(currentLetter).value) &&
        score == old(score) + (if old(isRevealed) then 0 else 2) &&
        guesses == {} &&
        !isRevealed &&
        hintedCountries == old(hintedCountries) &&
        capitalsFound == old(capitalsFound)
      ensures old(currentLetter).Some? && !advanced ==>
        isRevealed &&
        score == old(score) &&
        currentLetter == old(currentLetter) &&
        guesses == old(guesses) &&
        hintedCountries == old(hintedCountries) &&
        capitalsFound == old(capitalsFound)
    {
      if currentLetter.None? {
        return false;
      }
      var l := currentLetter.value;
      RoundCompleteIff(countries, l, guesses);
      if |guesses| == RoundTotal(countries, l) {
        currentLetter := NextLetter(l);
        if !isRevealed {
          score := score + 2;
        }
        guesses := {};
        isRevealed := false;
        return true;
      }
      isRevealed := true;
      return false;
    }

    /** Back to the initial state; the reference list is kept. */
    method Reset()
      requires Valid()
      modifies this
      ensures Valid()
      ensures score == 0 && currentLetter == Some('a') && !isRevealed
      ensures guesses == {} && hintedCountries == {} && capitalsFound == map[]
    {
      score := 0;
      currentLetter := Some('a');
      guesses := {};
      isRevealed := false;
      hintedCountries := {};
      capitalsFound := map[];
    }

    /**
     * Gives away the first country of the round, in reference order, that
     * has not been found, at the cost of one point; when there is none,
     * only reveals the remaining count.
     */
    method Hint()
      requires Valid()
      modifies this
      ensures Valid()
      ensures old(currentLetter).None? ==> unchanged(this)
      ensures old(currentLetter).Some? ==>
        match FindHint(countries, old(currentLetter).value, old(guesses))
        case Some(i) =>
          score == old(score) - 1 &&
          guesses == old(guesses) + {countries[i].0} &&
          hintedCountries == old(hintedCountries) + {countries[i].0} &&
          countries[i].0 !in old(guesses) &&
          currentLetter == old(currentLetter) &&
          isRevealed == old(isRevealed) &&
          capitalsFound == old(capitalsFound)
        case None =>
          isRevealed &&
          score == old(score) &&
          currentLetter == old(currentLetter) &&
          guesses == old(guesses) &&
          hintedCountries == old(hintedCountries) &&
          capitalsFound == old(capitalsFound)
      ensures old(currentLetter).Some? ==>
        (guesses == old(guesses) <==> |old(guesses)| == RoundTotal(countries, old(currentLetter).value))
    {
      if currentLetter.None? {
        return;
      }
      var l := currentLetter.value;
      HintExhaustedIff(countries, l, guesses);
      var found := FindHint(countries, l, guesses);
      assert found == FindHint(countries, old(currentLetter).value, old(guesses));
      if found.Some? {
        var name := countries[found.value].0;
        score := score - 1;
        guesses := guesses + {name};
        hintedCountries := hintedCountries + {name};
      } else {
        isRevealed := true;
      }
    }
  }

  /** The reference list of the sample round below. */
  const SampleCountries: seq<Entry> := [("albania", "Tirana"), ("algeria", "Algiers"), ("belgium", "Brussels")]

  /** The sample list's round for 'a' is its first two entries. */
  lemma SampleRoundList()
    ensures DistinctNames(SampleCountries)
    ensures LetterList(SampleCountries, ['a']) == SampleCountries[..2]
    ensures RoundTotal(SampleCountries, 'a') == 2
  {
    var cs := SampleCountries;
    StartsWithLetter(cs[0].0, 'a');
    StartsWithLetter(cs[1].0, 'a');
    StartsWithLetter(cs[2].0, 'a');
    assert LetterList(cs, ['a']) == cs[..2];
  }

  /** What the sample round's guess and hint look up. */
  lemma SampleLookups()
    ensures Lower("Albania") == "albania"
    ensures Lookup(SampleCountries, "albania") == Some("Tirana")
    ensures FindHint(SampleCountries, 'a', {"albania"}) == Some(1)
  {
    var cs := SampleCountries;
    assert "albania" != "algeria";
    assert !Hintable(cs[0], 'a', {"albania"}) && Hintable(cs[1], 'a', {"albania"});
  }

  /**
   * A sample round: 'a' has two countries; one is typed, the round is
   * tried too early, so the count is revealed; `SampleRoundEnd` goes on.
   */
  method SampleRound()
  {
    SampleRoundList();
    SampleLookups();
    var g := new Game(SampleCountries);
    var ok := g.GuessCountry("Albania");
    assert ok && g.score == 1;
    var advanced := g.TryNextLetter();
    assert !advanced && g.isRevealed;
    SampleRoundEnd(g);
  }

  /**
   * The end of the sample round: the other country is hinted, which
   * completes the round; `SampleRoundClose` goes on.
   */
  method SampleRoundEnd(g: Game)
    requires g.Valid() && g.countries == SampleCountries
    requires g.currentLetter == Some('a') && g.guesses == {"albania"}
    requires g.score == 1 && g.isRevealed
    modifies g
  {
    SampleLookups();
    g.Hint();
    assert g.guesses == {"albania", "algeria"} && g.score == 0;
    SampleRoundClose(g);
  }

  /** The sample round closes without the bonus, since the count was revealed. */
  method SampleRoundClose(g: Game)
    requires g.Valid() && g.countries == SampleCountries
    requires g.currentLetter == Some('a') && g.guesses == {"albania", "algeria"}
    requires g.score == 0 && g.isRevealed
    modifies g
  {
    SampleRoundList();
    assert |g.guesses| == 2 by {
      assert "albania" != "algeria";
    }
    assert NextLetter('a') == Some('b');
    var advanced := g.TryNextLetter();
    assert advanced && g.currentLetter == Some('b') && g.score == 0;
  }
}
