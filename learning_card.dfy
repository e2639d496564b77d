/**
 * The verb-forms card (`LearningCard`): one text input per conjugated form
 * and one per example sentence, each with a correctness flag, validated on
 * every keystroke, and an automatic advance as soon as every flag is set.
 *
 * The state arrays are JavaScript arrays (see JsArray): the card starts with
 * four form inputs but only three form flags, `handleNext` resets the form
 * inputs to three entries, and the example arrays are sized by the word that
 * is current when they are (re)built. The App renders the same card instance
 * for every word, so a change of the `word` prop keeps the state arrays.
 */
module Learning {
  import opened JsArray
  import opened Normalize

  datatype Example = Example(translation: string, example: string)

  /** A dictionary entry: its conjugated forms, its translation and its
      example sentences with their translations. */
  datatype Word = Word(forms: seq<string>, translation: string, examples: seq<Example>)

  /** `formCorrect.every(Boolean) && exampleCorrect.every(Boolean)`. */
  function AllCorrect(formCorrect: seq<Slot<bool>>, exampleCorrect: seq<Slot<bool>>): (r: bool)
    ensures r <==> ((forall j :: 0 <= j < |formCorrect| ==> formCorrect[j] == Hole || Truthy(formCorrect[j]))
                 && (forall j :: 0 <= j < |exampleCorrect| ==> exampleCorrect[j] == Hole || Truthy(exampleCorrect[j])))
  {
    Every(formCorrect) && Every(exampleCorrect)
  }

  /** With no example flags the verdict depends on the form flags alone. */
  lemma NoExamplesOnlyForms(formCorrect: seq<Slot<bool>>)
    ensures AllCorrect(formCorrect, []) == Every(formCorrect)
  {
  }

  /** Freshly reset flags are never all correct: there are always three
      form flags, all false. */
  lemma FreshFlagsIncomplete(examples: nat)
    ensures !AllCorrect(Filled(3, false), Filled(examples, false))
  {
    EveryFilled(3, false);
  }

  class LearningCard {
    /** The `word` prop. */
    var word: Word
    var formInputs: seq<Slot<string>>
    var exampleInputs: seq<Slot<string>>
    var formCorrect: seq<Slot<bool>>
    var exampleCorrect: seq<Slot<bool>>
    /** How many times the card has called `onNextWord`. */
    var nextWordCalls: nat

    /** The initial state: four empty form inputs, three false form flags,
        and one empty input and one false flag per example. */
    constructor (word: Word)
      ensures this.word == word
      ensures formInputs == Filled(4, "") && formCorrect == Filled(3, false)
      ensures exampleInputs == Filled(|word.examples|, "")
      ensures exampleCorrect == Filled(|word.examples|, false)
      ensures nextWordCalls == 0
    {
      this.word := word;
      formInputs := Filled(4, "");
      exampleInputs := Filled(|word.examples|, "");
      formCorrect := Filled(3, false);
      exampleCorrect := Filled(|word.examples|, false);
      nextWordCalls := 0;
    }

    /** `checkAllCorrect`. */
    function CheckAllCorrect(): (r: bool)
      reads this
      ensures r <==> ((forall j :: 0 <= j < |formCorrect| ==> formCorrect[j] == Hole || Truthy(formCorrect[j]))
                   && (forall j :: 0 <= j < |exampleCorrect| ==> exampleCorrect[j] == Hole || Truthy(exampleCorrect[j])))
    {
      AllCorrect(formCorrect, exampleCorrect)
    }

    /** `handleFormChange(index, value)`: copy both form arrays, store the
        text and its verdict at `index`, and store the copies back. Only
        rendered forms can change, so `index` is a form of the word. */
    method HandleFormChange(index: nat, value: string)
      requires index < |word.forms|
      modifies this
      ensures formInputs == Assign(Spread(old(formInputs)), index, value)
      ensures formCorrect == Assign(Spread(old(formCorrect)), index, Validate(value, old(word).forms[index]))
      ensures word == old(word) && nextWordCalls == old(nextWordCalls)
      ensures exampleInputs == old(exampleInputs) && exampleCorrect == old(exampleCorrect)
    {
      var newFormInputs := Spread(formInputs);
      newFormInputs := Assign(newFormInputs, index, value);
      formInputs := newFormInputs;

      var newFormCorrect := Spread(formCorrect);
      newFormCorrect := Assign(newFormCorrect, index, Validate(value, word.forms[index]));
      formCorrect := newFormCorrect;
    }

    /** `handleExampleChange(index, value)`: the same for the example arrays,
        against the example sentence itself (not its translation). */
    method HandleExampleChange(index: nat, value: string)
      requires index < |word.examples|
      modifies this
      ensures exampleInputs == Assign(Spread(old(exampleInputs)), index, value)
      ensures exampleCorrect == Assign(Spread(old(exampleCorrect)), index, Validate(value, old(word).examples[index].example))
      ensures word == old(word) && nextWordCalls == old(nextWordCalls)
      ensures formInputs == old(formInputs) && formCorrect == old(formCorrect)
    {
      var newExampleInputs := Spread(exampleInputs);
      newExampleInputs := Assign(newExampleInputs, index, value);
      exampleInputs := newExampleInputs;

      var newExampleCorrect := Spread(exampleCorrect);
      newExampleCorrect := Assign(newExampleCorrect, index, Validate(value, word.examples[index].example));
      exampleCorrect := newExampleCorrect;
    }

    /** `handleNext`: three empty form inputs, three false form flags, one
        empty input and one false flag per example of the current word, then
        one call of `onNextWord`. */
    method HandleNext()
      modifies this
      ensures formInputs == Filled(3, "") && formCorrect == Filled(3, false)
      ensures exampleInputs == Filled(|word.examples|, "")
      ensures exampleCorrect == Filled(|word.examples|, false)
      ensures !CheckAllCorrect()
      ensures nextWordCalls == old(nextWordCalls) + 1
      ensures word == old(word)
    {
      formInputs := Filled(3, "");
      exampleInputs := Filled(|word.examples|, "");
      formCorrect := Filled(3, false);
      exampleCorrect := Filled(|word.examples|, false);
      FreshFlagsIncomplete(|word.examples|);
      nextWordCalls := nextWordCalls + 1;
    }

    /** The effect that runs whenever either flag array is replaced: advance
        exactly when every flag is set. */
    method CompletionEffect()
      modifies this
      ensures old(CheckAllCorrect()) ==>
        (nextWordCalls == old(nextWordCalls) + 1
         && formInputs == Filled(3, "") && formCorrect == Filled(3, false)
         && exampleInputs == Filled(|word.examples|, "")
         && exampleCorrect == Filled(|word.examples|, false))
      ensures !old(CheckAllCorrect()) ==>
        (nextWordCalls == old(nextWordCalls)
         && formInputs == old(formInputs) && formCorrect == old(formCorrect)
         && exampleInputs == old(exampleInputs) && exampleCorrect == old(exampleCorrect))
      ensures !CheckAllCorrect()
      ensures word == old(word)
    {
      if CheckAllCorrect() {
        HandleNext();
      }
    }

    /** The App re-renders the card with the next word: only the prop
        changes; the state arrays are kept. */
    method ReceiveWord(w: Word)
      modifies this
      ensures word == w
      ensures formInputs == old(formInputs) && formCorrect == old(formCorrect)
      ensures exampleInputs == old(exampleInputs) && exampleCorrect == old(exampleCorrect)
      ensures nextWordCalls == old(nextWordCalls)
    {
      word := w;
    }
  }

  /** Typing the expected form into a hole-free form row of a card. */
  method TypeCorrectForm(card: LearningCard, i: nat)
    requires i < |card.word.forms| && i < |card.formInputs| && i < |card.formCorrect|
    requires HoleFree(card.formInputs) && HoleFree(card.formCorrect)
    modifies card
    ensures card.formInputs == old(card.formInputs)[i := Val(old(card.word).forms[i])]
    ensures card.formCorrect == old(card.formCorrect)[i := Val(true)]
    ensures HoleFree(card.formInputs) && HoleFree(card.formCorrect)
    ensures card.word == old(card.word) && card.nextWordCalls == old(card.nextWordCalls)
    ensures card.exampleInputs == old(card.exampleInputs) && card.exampleCorrect == old(card.exampleCorrect)
  {
    SpreadHoleFree(card.formInputs);
    SpreadHoleFree(card.formCorrect);
    AssignKeepsHoleFree(card.formInputs, i, card.word.forms[i]);
    AssignKeepsHoleFree(card.formCorrect, i, true);
    card.HandleFormChange(i, card.word.forms[i]);
  }

  /** A four-form word without examples advances once its first three forms
      are typed, while the fourth input is still empty: the card only has
      three form flags. */
  method FourthFormNotRequired(w: Word) returns (advances: nat, fourth: Slot<string>)
    requires |w.forms| == 4 && w.examples == []
    ensures advances == 1
    ensures fourth == Val("")
  {
    var card := new LearningCard(w);
    TypeCorrectForm(card, 0);
    assert card.formCorrect[2] == Val(false);
    IncompleteEffect(card);
    TypeCorrectForm(card, 1);
    assert card.formCorrect[2] == Val(false);
    IncompleteEffect(card);
    TypeCorrectForm(card, 2);
    assert card.formCorrect == [Val(true), Val(true), Val(true)];
    fourth := card.formInputs[3];
    advances := CompleteEffect(card);
  }

  /** The completion effect on a card whose three form flags are set. */
  method CompleteEffect(card: LearningCard) returns (advances: nat)
    requires card.formCorrect == [Val(true), Val(true), Val(true)] && card.exampleCorrect == []
    requires card.nextWordCalls == 0
    modifies card
    ensures advances == 1
  {
    assert card.CheckAllCorrect();
    card.CompletionEffect();
    advances := card.nextWordCalls;
  }

  /** The completion effect on a card whose last form flag is unset. */
  method IncompleteEffect(card: LearningCard)
    requires |card.formCorrect| == 3 && card.formCorrect[2] == Val(false)
    modifies card
    ensures card.formInputs == old(card.formInputs) && card.formCorrect == old(card.formCorrect)
    ensures card.exampleInputs == old(card.exampleInputs) && card.exampleCorrect == old(card.exampleCorrect)
    ensures card.word == old(card.word) && card.nextWordCalls == old(card.nextWordCalls)
  {
    assert !card.CheckAllCorrect();
    card.CompletionEffect();
  }

  /** After a word with two examples is completed and the App moves on to a
      word with one example, the card still holds two example flags; the
      second can no longer be edited, so typing every field of the new word
      correctly does not advance. */
  method StaleExampleFlagsBlockAdvance(w1: Word, w2: Word) returns (advances: nat, complete: bool)
    requires |w1.forms| == 3 && |w1.examples| == 2
    requires |w2.forms| == 3 && |w2.examples| == 1
    ensures advances == 1
    ensures !complete
  {
    var card := new LearningCard(w1);
    card.HandleNext();
    card.ReceiveWord(w2);
    var i := 0;
    while i < 3
      invariant 0 <= i <= 3
      invariant card.word == w2 && card.nextWordCalls == 1
      invariant |card.formCorrect| == 3 && |card.exampleCorrect| == 2
      invariant card.exampleCorrect[1] == Val(false)
      invariant forall j :: 0 <= j < i ==> card.formCorrect[j] == Val(true)
    {
      card.HandleFormChange(i, w2.forms[i]);
      i := i + 1;
    }
    card.HandleExampleChange(0, w2.examples[0].example);
    complete := card.CheckAllCorrect();
    card.CompletionEffect();
    advances := card.nextWordCalls;
  }

  /** After a word with one example is completed and the App moves on to a
      word with three, the card holds one example flag. Typing example 0 and
      then example 2 grows the flag array past a hole at index 1, which
      `every` skips: once the three forms are typed as well the card
      advances, with example 1 never typed. */
  method HoleSkipsExample(w1: Word, w2: Word) returns (advances: nat, second: Slot<string>)
    requires |w1.forms| == 3 && |w1.examples| == 1
    requires |w2.forms| == 3 && |w2.examples| == 3
    ensures advances == 2
    ensures second == Hole
  {
    var card := new LearningCard(w1);
    card.HandleNext();
    card.ReceiveWord(w2);
    TypeExamplesAroundHole(card);
    TypeCorrectForm(card, 0);
    IncompleteEffect(card);
    TypeCorrectForm(card, 1);
    IncompleteEffect(card);
    TypeCorrectForm(card, 2);
    second := card.exampleInputs[1];
    assert card.CheckAllCorrect();
    card.CompletionEffect();
    advances := card.nextWordCalls;
  }

  /** Typing examples 0 and then 2 of a three-example word into a card that
      holds one example flag, with the completion effect after each. */
  method TypeExamplesAroundHole(card: LearningCard)
    requires |card.word.examples| == 3
    requires card.exampleInputs == [Val("")] && card.exampleCorrect == [Val(false)]
    requires |card.formCorrect| == 3 && card.formCorrect[2] == Val(false)
    modifies card
    ensures card.exampleCorrect == [Val(true), Hole, Val(true)]
    ensures |card.exampleInputs| == 3 && card.exampleInputs[1] == Hole
    ensures card.formInputs == old(card.formInputs) && card.formCorrect == old(card.formCorrect)
    ensures card.word == old(card.word) && card.nextWordCalls == old(card.nextWordCalls)
  {
    var ex0 := card.word.examples[0].example;
    var ex2 := card.word.examples[2].example;
    SpreadHoleFree(card.exampleInputs);
    SpreadHoleFree(card.exampleCorrect);
    card.HandleExampleChange(0, ex0);
    assert card.exampleInputs == [Val(ex0)];
    assert card.exampleCorrect == [Val(true)];
    IncompleteEffect(card);
    SpreadHoleFree(card.exampleInputs);
    SpreadHoleFree(card.exampleCorrect);
    GrowPastHole(ex0, ex2);
    GrowPastHole(true, true);
    card.HandleExampleChange(2, ex2);
    IncompleteEffect(card);
  }

  /** `b[2] = v` on a one-element array leaves a hole at index 1. */
  lemma GrowPastHole<T>(x: T, v: T)
    ensures Assign([Val(x)], 2, v) == [Val(x), Hole, Val(v)]
  {
    var holes: seq<Slot<T>> := seq(1, _ => Hole);
    assert holes == [Hole];
  }

  /** The order of the two example changes decides the verdict. Example 0
      then example 2 leaves a hole that `every` skips; example 2 then
      example 0 copies the hole out as `undefined`, which fails. */
  lemma ExampleOrderDecides()
    ensures Every(Assign(Spread(Assign(Spread([Val(false)]), 0, true)), 2, true))
    ensures !Every(Assign(Spread(Assign(Spread([Val(false)]), 2, true)), 0, true))
  {
    SpreadHoleFree([Val(false)]);
    assert Assign([Val(false)], 0, true) == [Val(true)];
    SpreadHoleFree([Val(true)]);
    GrowPastHole(true, true);
    GrowPastHole(false, true);
    assert Spread([Val(false), Hole, Val(true)])[1] == Undefined;
  }
}
