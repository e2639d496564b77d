/**
 * The App: it loads the word list once, keeps the index of the current
 * word, renders the verb-forms card only while the list is non-empty, and
 * moves to the next word, wrapping around, when the card asks for it.
 */
module Navigation {
  import opened Wrappers
  import opened Learning

  /** `(prevIndex + 1) % words.length`. */
  function Next(i: nat, n: nat): (r: nat)
    requires n > 0
    ensures r < n
    ensures i + 1 < n ==> r == i + 1
    ensures i + 1 == n ==> r == 0
  {
    (i + 1) % n
  }

  /** The index after `k` calls of `nextWord`. */
  function Iterate(i: nat, n: nat, k: nat): (r: nat)
    requires n > 0
    ensures k > 0 ==> r < n
  {
    if k == 0 then i else Next(Iterate(i, n, k - 1), n)
  }

  /** Before the end of the list, each call moves one word on. */
  lemma {:induction false} IterateCounts(i: nat, n: nat, k: nat)
    requires i + k < n
    ensures Iterate(i, n, k) == i + k
  {
    if k > 0 {
      IterateCounts(i, n, k - 1);
    }
  }

  /** Calls compose: `a` calls then `b` calls are `a + b` calls. */
  lemma {:induction false} IterateAdd(i: nat, n: nat, a: nat, b: nat)
    requires n > 0
    ensures Iterate(i, n, a + b) == Iterate(Iterate(i, n, a), n, b)
  {
    if b > 0 {
      IterateAdd(i, n, a, b - 1);
    }
  }

  /** From the first word, the words are shown in list order. */
  lemma InListOrder(n: nat, j: nat)
    requires j < n
    ensures Iterate(0, n, j) == j
  {
    IterateCounts(0, n, j);
  }

  /** After `n` calls from any word of a list of `n` words the App is back
      at that word: every word comes round again. */
  lemma CycleReturns(i: nat, n: nat)
    requires i < n
    ensures Iterate(i, n, n) == i
  {
    IterateCounts(i, n, n - i - 1);
    assert Iterate(i, n, n - i) == 0;
    IterateAdd(i, n, n - i, i);
    InListOrder(n, i);
  }

  class App {
    var words: seq<Word>
    var currentWordIndex: nat
    /** Whether the mount effect has loaded the word list. */
    var loaded: bool

    constructor ()
      ensures words == [] && currentWordIndex == 0 && !loaded
      ensures Valid()
    {
      words := [];
      currentWordIndex := 0;
      loaded := false;
    }

    /** The index is in range whenever there are words; before loading
        there are none and the index is still 0. */
    predicate Valid()
      reads this
    {
      && (|words| > 0 ==> currentWordIndex < |words|)
      && (!loaded ==> words == [] && currentWordIndex == 0)
    }

    /** The mount effect: `setWords(wordsData)`, once. */
    method LoadWords(data: seq<Word>)
      requires Valid() && !loaded
      modifies this
      ensures words == data && currentWordIndex == 0 && loaded
      ensures Valid()
    {
      words := data;
      loaded := true;
    }

    /** `nextWord`. The card that calls it is only rendered while there are
        words. */
    method NextWord()
      requires Valid() && |words| > 0
      modifies this
      ensures words == old(words) && loaded == old(loaded)
      ensures currentWordIndex == Next(old(currentWordIndex), |words|)
      ensures Valid()
    {
      currentWordIndex := (currentWordIndex + 1) % |words|;
    }

    /** The word the card is rendered with, if it is rendered at all:
        `words.length > 0 && <LearningCard word={words[currentWordIndex]} />`. */
    function Render(): (w: Option<Word>)
      reads this
      requires Valid()
      ensures w.Some? <==> |words| > 0
      ensures w.Some? ==> currentWordIndex < |words| && w.value == words[currentWordIndex]
    {
      if |words| > 0 then Some(words[currentWordIndex]) else None
    }
  }

  /** Loading a list and completing one word shows the second word, or the
      first again when the list has a single word. */
  method SecondWordShown(data: seq<Word>) returns (shown: Option<Word>)
    requires |data| > 0
    ensures shown == Some(if |data| == 1 then data[0] else data[1])
  {
    var app := new App();
    app.LoadWords(data);
    app.NextWord();
    shown := app.Render();
  }
}
