/**
 * The sentence card (`SentenceCard`): one input for a whole German sentence,
 * checked on every keystroke with the same normalisation as the verb-forms
 * card. Every correct keystroke schedules a call of `onNextSentence` 500 ms
 * later; the timer is never cancelled, so it fires even after the sentence
 * has changed. The scheduled calls are modelled as a count of pending timers;
 * their delay is not modelled.
 */
module Sentences {
  import opened Wrappers
  import opened Normalize

  datatype Sentence = Sentence(german: string, english: string)

  class SentenceCard {
    /** The `sentence` prop. */
    var sentence: Sentence
    var userInput: string
    var isCorrect: bool
    /** Timers that will call `onNextSentence` and have not fired yet. */
    var pendingAdvances: nat
    /** How many times `onNextSentence` has been called. */
    var nextSentenceCalls: nat

    constructor (sentence: Sentence)
      ensures this.sentence == sentence
      ensures userInput == "" && !isCorrect
      ensures pendingAdvances == 0 && nextSentenceCalls == 0
      ensures Valid()
    {
      this.sentence := sentence;
      userInput := "";
      isCorrect := false;
      pendingAdvances := 0;
      nextSentenceCalls := 0;
    }

    /** The flag is written together with the input and cleared together
        with it: for a non-empty input it is exactly the input's verdict,
        and it is never set for an empty one that does not match. */
    predicate Valid()
      reads this
    {
      && (userInput != "" ==> (isCorrect <==> Validate(userInput, sentence.german)))
      && (isCorrect ==> Validate(userInput, sentence.german))
    }

    /** `handleInputChange` and `checkAnswer`: store the input, store its
        verdict, and schedule an advance when it is correct. */
    method HandleInputChange(input: string)
      modifies this
      ensures sentence == old(sentence) && nextSentenceCalls == old(nextSentenceCalls)
      ensures userInput == input
      ensures isCorrect == Validate(input, sentence.german)
      ensures pendingAdvances == old(pendingAdvances) + (if isCorrect then 1 else 0)
      ensures Valid()
    {
      userInput := input;
      var correct := Validate(input, sentence.german);
      isCorrect := correct;
      if correct {
        pendingAdvances := pendingAdvances + 1;
      }
    }

    /** One scheduled timer fires: `onNextSentence` is called whatever the
        card shows now. */
    method TimerFires()
      requires pendingAdvances > 0
      modifies this
      ensures pendingAdvances == old(pendingAdvances) - 1
      ensures nextSentenceCalls == old(nextSentenceCalls) + 1
      ensures sentence == old(sentence) && userInput == old(userInput) && isCorrect == old(isCorrect)
      ensures old(Valid()) ==> Valid()
    {
      pendingAdvances := pendingAdvances - 1;
      nextSentenceCalls := nextSentenceCalls + 1;
    }

    /** A new `sentence` prop and the reset effect: the input and the flag
        are cleared; pending timers are not. */
    method ReceiveSentence(s: Sentence)
      modifies this
      ensures sentence == s && userInput == "" && !isCorrect
      ensures pendingAdvances == old(pendingAdvances) && nextSentenceCalls == old(nextSentenceCalls)
      ensures Valid()
    {
      sentence := s;
      userInput := "";
      isCorrect := false;
    }

    /** The `Next Sentence` button. */
    method ClickNextSentence()
      modifies this
      ensures nextSentenceCalls == old(nextSentenceCalls) + 1
      ensures sentence == old(sentence) && userInput == old(userInput) && isCorrect == old(isCorrect)
      ensures pendingAdvances == old(pendingAdvances)
      ensures old(Valid()) ==> Valid()
    {
      nextSentenceCalls := nextSentenceCalls + 1;
    }

    /** The mark next to the input: none while the input is empty, otherwise
        whether the input matches. */
    function Indicator(): (m: Option<bool>)
      reads this
      requires Valid()
      ensures m == if userInput == "" then None else Some(Validate(userInput, sentence.german))
    {
      if userInput != "" then Some(isCorrect) else None
    }
  }

  /** Typing the sentence and then a full stop after it are both correct
      keystrokes, so the card schedules two advances and the second skips
      the next sentence. */
  method FullStopAdvancesTwice(s: Sentence) returns (advances: nat)
    ensures advances == 2
  {
    var card := new SentenceCard(s);
    card.HandleInputChange(s.german);
    TrailingPunctuationInvisible(s.german, '.');
    card.HandleInputChange(s.german + ['.']);
    card.TimerFires();
    card.TimerFires();
    advances := card.nextSentenceCalls;
  }

  /** A correct answer followed at once by the Next Sentence button: the
      timer still fires on the following sentence, which is skipped before
      anything is typed into it. */
  method TimerOutlivesSentence(s1: Sentence, s2: Sentence) returns (advances: nat, typed: string)
    ensures advances == 2
    ensures typed == ""
  {
    var card := new SentenceCard(s1);
    card.HandleInputChange(s1.german);
    card.ClickNextSentence();
    card.ReceiveSentence(s2);
    card.TimerFires();
    advances := card.nextSentenceCalls;
    typed := card.userInput;
  }
}
