# Deutsche Verben: answer checking and card state

Deutsche Verben is a React flashcard app for German verbs. The App loads a
list of words and shows them one at a time on a verb-forms card. The learner
types the conjugated forms and the example sentences, and each field is
checked on every keystroke. Once every checked field is right, the card
resets and asks the App for the next word, and the App moves on, wrapping
around at the end of the list. The repository also has a modal-verb card and
a sentence card, which the App does not render.

This project models four pieces:

- the answer normaliser and the two comparisons (module `Normalize`);
- the three cards, each as a class whose fields are the component's state and
  whose methods are its event handlers and effects (modules `Learning`,
  `ModalVerb` and `Sentences`);
- the App's word index (module `Navigation`).

`JsArray` models the JavaScript array behaviour the verb-forms card relies
on: `[...a]`, index assignment past the end, and `every`.

Reproduced quirks of the code:

- The verb-forms card has four form inputs but three form flags, and "next" resets the inputs to three entries.
- The card instance survives a change of word. Its example arrays are rebuilt with the old word's example count.
- Assigning an example flag past the end of that array leaves holes, and `every(Boolean)` skips holes, so a card can advance with an example never typed.
- Modal-verb keys `tense + "_" + pronoun` can collide.
- The sentence card's timer is never cancelled.
- In the render that receives a new modal verb, the modal-verb card's completion effect still sees the old verdicts.

A callback such as `onNextWord` is modelled as a counter of its calls. A scheduled timer is a count of pending calls.

## Model

| member | source | states |
|---|---|---|
| Normalize.IsPunctuation | src/components/LearningCard.tsx:30 | the 21 characters of the bracket expression; each is a printable ASCII character and none is an upper-case letter, so lower-casing never turns a letter into punctuation or back |
| Normalize.IsSpace | src/components/LearningCard.tsx:30 | the ECMAScript whitespace and line-terminator code points `trim` removes; none is a printable ASCII character, so none is punctuation |
| Normalize.StripPunctuation | src/components/LearningCard.tsx:30 | the result is no longer than the input and holds none of the 21 characters `. , / # ! $ % ^ & * ; : { } = - _ ~ ( )` and the backtick |
| Normalize.StripPunctuationPlain | src/components/LearningCard.tsx:30 | a string without those characters is left unchanged |
| Normalize.StripPunctuationConcat | src/components/LearningCard.tsx:30 | stripping works character by character: it distributes over concatenation |
| Normalize.ToLower | src/components/LearningCard.tsx:30 | lower-cases each character in place; the result has no upper-case letter |
| Normalize.Lower | src/components/LearningCard.tsx:30 | never returns an upper-case letter, leaves every other character as it is, and maps upper-case letters to lower-case ones |
| Normalize.Trim | src/components/LearningCard.tsx:30 | the result is the longest slice of the input with whitespace only outside it; it starts and ends with non-whitespace |
| Normalize.TrimmedIsFixed | src/components/LearningCard.tsx:30 | a string with no whitespace at either end is its own trim |
| Normalize.Normalise | src/components/LearningCard.tsx:29-31 | `removePunctuation`: the result has no punctuation, no upper-case letter and no whitespace at either end, and is no longer than the input |
| Normalize.NormalIsFixed | src/components/LearningCard.tsx:29-31 | a string already in that form normalises to itself |
| Normalize.NormaliseIdempotent | src/components/LearningCard.tsx:29-31 | normalising twice equals normalising once |
| Normalize.NormalisePlain | src/components/LearningCard.tsx:29-31 | an answer without punctuation and without whitespace at its ends normalises to its lower-case form |
| Normalize.PunctuationInvisible | src/components/LearningCard.tsx:30 | inserting a punctuation mark anywhere does not change the normal form |
| Normalize.TrailingPunctuationInvisible | src/components/LearningCard.tsx:30 | appending a punctuation mark does not change the normal form |
| Normalize.NormaliseJoined | src/components/LearningCard.tsx:29-31 | two punctuation-free words joined by a punctuation-free separator normalise to their lower-case join, separator kept |
| Normalize.InnerSpacesKept | src/components/LearningCard.tsx:30 | stripping happens before trimming, so `x . y` normalises to `x` and `y` with two spaces between them, which does not validate against `x y` |
| Normalize.InnerSpacesExample | src/components/LearningCard.tsx:30 | `"a . b"` normalises to `"a  b"` and does not validate against `"a b"` |
| Normalize.Validate | src/components/LearningCard.tsx:33-35 | `validateInput`: every answer validates against itself, and against an expected answer already in normal form an input validates exactly when its normal form is that answer |
| Normalize.ValidateIsEquivalence | src/components/LearningCard.tsx:33-35 | `validateInput` is reflexive, symmetric and transitive |
| Normalize.ValidateAgainstNormalForm | src/components/LearningCard.tsx:33-35 | `validateInput(a, b)` holds exactly when the normal forms are equal; an answer validates against its own normal form |
| Normalize.AcceptsCapitalAndFullStop | src/components/LearningCard.tsx:33-35 | `"Ich gehe."` validates against `"ich gehe"` |
| Normalize.RejectsOtherAnswer | src/components/LearningCard.tsx:33-35 | `"Ich gehe!"` does not validate against `"Du gehst"` |
| Normalize.Fold | src/components/ModalVerbCard.tsx:31 | `toLowerCase().trim()`: no upper-case letter, no whitespace at either end, no longer than the input |
| Normalize.FoldOrderIrrelevant | src/components/ModalVerbCard.tsx:31 | lower-casing then trimming equals trimming then lower-casing |
| Normalize.NormaliseIsFoldOfStripped | src/components/LearningCard.tsx:29-31 | `removePunctuation` is the modal-verb fold applied after stripping |
| Normalize.FoldIdempotent | src/components/ModalVerbCard.tsx:31 | folding twice equals folding once |
| Normalize.FoldPlain | src/components/ModalVerbCard.tsx:31 | an answer with no upper-case letter and no whitespace at its ends is its own fold |
| JsArray.Filled | src/components/LearningCard.tsx:18-21 | `[v, v, …]` and `xs.map(() => v)`: `n` elements, each `v` |
| JsArray.Spread | src/components/LearningCard.tsx:38 | `[...a]`: same length, no holes, every element kept, every hole read as `undefined` |
| JsArray.Assign | src/components/LearningCard.tsx:39 | `b[i] = v`: `b[i]` is `v` and every other index is unchanged; past the end, the array grows to `i + 1` and the gap is holes |
| JsArray.Every | src/components/LearningCard.tsx:58 | `every(Boolean)` holds exactly when each element is a hole or `true` |
| JsArray.EveryFilled | src/components/LearningCard.tsx:58 | an array of equal booleans passes exactly when it is empty or the boolean is `true` |
| Learning.AllCorrect | src/components/LearningCard.tsx:57-59 | true exactly when every form flag and every example flag is a hole or `true` |
| Learning.NoExamplesOnlyForms | src/components/LearningCard.tsx:57-59 | with no example flags the verdict is that of the form flags alone |
| Learning.FreshFlagsIncomplete | src/components/LearningCard.tsx:64 | freshly reset flags are never all correct |
| Learning.LearningCard.constructor | src/components/LearningCard.tsx:18-21 | four empty form inputs, three false form flags, one empty input and one false flag per example |
| Learning.LearningCard.CheckAllCorrect | src/components/LearningCard.tsx:57-59 | `checkAllCorrect` over the card's current flags, as `AllCorrect` |
| Learning.LearningCard.HandleFormChange | src/components/LearningCard.tsx:37-45 | for a rendered form index: `formInputs` becomes the copy with the text at `index`, `formCorrect` the copy with `validateInput(value, word.forms[index])` at `index`; other indices and the example arrays are unchanged |
| Learning.LearningCard.HandleExampleChange | src/components/LearningCard.tsx:47-55 | the same for the example arrays, against `word.examples[index].example`; the form arrays are unchanged |
| Learning.LearningCard.HandleNext | src/components/LearningCard.tsx:61-67 | three empty form inputs, three false form flags, the example arrays rebuilt for the current word, and exactly one more `onNextWord`; afterwards the card is not complete |
| Learning.LearningCard.CompletionEffect | src/components/LearningCard.tsx:23-27 | when every flag is set, exactly `handleNext`; otherwise nothing changes; either way the card is not complete afterwards |
| Learning.LearningCard.ReceiveWord | src/App.tsx:30-35 | the App re-renders the same card with the next word: only the prop changes |
| Learning.FourthFormNotRequired | src/components/LearningCard.tsx:18-27 | a four-form word without examples advances once forms 0 to 2 are typed, while the fourth input is still empty |
| Learning.StaleExampleFlagsBlockAdvance | src/components/LearningCard.tsx:61-67 | after a two-example word the card keeps two example flags; on a one-example word, typing every rendered field correctly does not advance |
| Learning.HoleSkipsExample | src/components/LearningCard.tsx:47-58 | after a one-example word, on a three-example word typing example 0, example 2 and the three forms advances, with example 1's input still a hole |
| Learning.ExampleOrderDecides | src/components/LearningCard.tsx:52-58 | example 0 then example 2 leaves a hole that `every(Boolean)` skips; the other order copies the hole out as `undefined`, which fails |
| ModalVerb.Key | src/components/ModalVerbCard.tsx:23 | the key `${tense}_${pronoun}` is one character longer than tense and pronoun together; KeyParts states its three parts and KeyInjective when it identifies the cell |
| ModalVerb.KeyInjective | src/components/ModalVerbCard.tsx:23 | two keys `${tense}_${pronoun}` can only be equal for the same cell when no tense name contains `_` |
| ModalVerb.FindTense | src/components/ModalVerbCard.tsx:30 | `modalVerb[tense]`: absent exactly when no entry has that name, otherwise the forms of an entry with that name |
| ModalVerb.CorrectAnswer | src/components/ModalVerbCard.tsx:30 | `modalVerb[tense][pronoun]`: the pronoun lookup in an entry of the table named `tense`, `undefined` when that entry has no such pronoun |
| ModalVerb.FindForm | src/components/ModalVerbCard.tsx:30 | `pronouns[pronoun]`: absent exactly when no entry has that pronoun, otherwise the answer of an entry with it |
| ModalVerb.FindTenseUnique | src/components/ModalVerbCard.tsx:30 | in a well-formed table a tense lookup finds that tense's own entry |
| ModalVerb.Cells | src/components/ModalVerbCard.tsx:46-50 | the rendered cells, tense by tense and pronoun by pronoun; every cell's tense is an entry of the table, so its input handler never reads a missing tense |
| ModalVerb.CellAnswer | src/components/ModalVerbCard.tsx:46-58 | every rendered cell is validated against its own form |
| ModalVerb.Total | src/components/ModalVerbCard.tsx:37 | the `flatMap` count of pronoun entries equals the number of rendered cells |
| ModalVerb.KeysAtMostCells | src/components/ModalVerbCard.tsx:23 | there are never more distinct keys than cells |
| ModalVerb.DistinctKeysCount | src/components/ModalVerbCard.tsx:23 | cells with pairwise different keys have exactly as many keys as cells |
| ModalVerb.NoCollision | src/components/ModalVerbCard.tsx:23 | in a well-formed table whose tense names have no `_`, all cell keys differ |
| ModalVerb.CellCorrect | src/components/ModalVerbCard.tsx:30-31 | false when the answer is absent; otherwise true exactly when the lower-cased trimmed input equals the lower-cased trimmed answer |
| ModalVerb.StricterThanFormCheck | src/components/ModalVerbCard.tsx:31 | an answer followed by a punctuation mark validates on the verb-forms card but is wrong on the modal-verb card |
| ModalVerb.Complete | src/components/ModalVerbCard.tsx:36-37 | every recorded verdict is true and there are as many verdicts as cells |
| ModalVerb.CompleteIffEveryCell | src/components/ModalVerbCard.tsx:35-41 | without collisions, and with verdicts kept only for cells, the card is complete exactly when every cell has a true verdict |
| ModalVerb.CompleteMeansEveryCell | src/components/ModalVerbCard.tsx:35-41 | the forward direction of the previous row |
| ModalVerb.EveryCellMeansComplete | src/components/ModalVerbCard.tsx:35-41 | the backward direction of the previous row |
| ModalVerb.WrongCellBlocks | src/components/ModalVerbCard.tsx:35-41 | one wrong or untouched cell keeps the card from completing |
| ModalVerb.NoFormsComplete | src/components/ModalVerbCard.tsx:36-37 | a table without pronouns has no cells and is complete with empty maps |
| ModalVerb.CollisionBlocks | src/components/ModalVerbCard.tsx:23 | with fewer distinct keys than cells the card can never complete |
| ModalVerb.CollisionExample | src/components/ModalVerbCard.tsx:23 | tenses `a_b` and `a` with pronouns `c` and `b_c` form a well-formed table that can never complete |
| ModalVerb.Mark | src/components/ModalVerbCard.tsx:57-65 | a mark is shown exactly when the cell's input is present and non-empty; it is a tick only for a true verdict |
| ModalVerb.ModalVerbCard.constructor | src/components/ModalVerbCard.tsx:14-15 | both maps start empty, so the card starts valid |
| ModalVerb.ModalVerbCard.HandleInputChange | src/components/ModalVerbCard.tsx:22-33 | only the key `${tense}_${pronoun}` changes, in both maps: to the text and to its verdict against `modalVerb[tense][pronoun]` |
| ModalVerb.ModalVerbCard.TypeIntoCell | src/components/ModalVerbCard.tsx:50-58 | typing into a rendered cell records its verdict against that cell's own form and keeps verdicts confined to cells |
| ModalVerb.ModalVerbCard.CompletionEffect | src/components/ModalVerbCard.tsx:35-41 | exactly one more `onNextVerb` when complete, none otherwise; the state is left as it is; on a valid card whose cells have distinct keys it advances exactly when every rendered cell has a true verdict |
| ModalVerb.ModalVerbCard.ReceiveModalVerb | src/components/ModalVerbCard.tsx:17-20 | a new table clears both maps; the completion effect of that render tests the old verdicts against the new table |
| ModalVerb.ModalVerbCard.ClickNextVerb | src/components/ModalVerbCard.tsx:72 | exactly one more `onNextVerb` whatever the cells hold |
| ModalVerb.FillEveryCell | src/components/ModalVerbCard.tsx:35-41 | filling every cell of a collision-free non-empty table with its form calls `onNextVerb` exactly once |
| Sentences.SentenceCard.constructor | src/components/SentenceCard.tsx:14-15 | empty input, flag false, nothing pending; for a non-empty input the flag is always that input's verdict |
| Sentences.SentenceCard.HandleInputChange | src/components/SentenceCard.tsx:26-41 | the input is stored; the flag is `validateInput(input, sentence.german)`, so `english` is never compared; exactly one advance is scheduled when correct, none otherwise |
| Sentences.SentenceCard.TimerFires | src/components/SentenceCard.tsx:39 | a pending timer calls `onNextSentence` whatever the card shows |
| Sentences.SentenceCard.ReceiveSentence | src/components/SentenceCard.tsx:17-20 | a new sentence resets the input to `''` and the flag to false; pending timers stay |
| Sentences.SentenceCard.ClickNextSentence | src/components/SentenceCard.tsx:60 | exactly one more `onNextSentence` |
| Sentences.SentenceCard.Indicator | src/components/SentenceCard.tsx:52-58 | no mark for an empty input; otherwise a tick exactly when the input matches the German sentence and a cross exactly when it does not |
| Sentences.FullStopAdvancesTwice | src/components/SentenceCard.tsx:38-40 | typing the sentence and then a full stop after it schedules two advances, both of which fire |
| Sentences.TimerOutlivesSentence | src/components/SentenceCard.tsx:38-40 | a correct answer followed by the Next Sentence button still advances again on the following sentence |
| Navigation.Next | src/App.tsx:24 | `(i + 1) % n` stays below `n`, is `i + 1` before the end and `0` at the end (so always `0` when `n = 1`) |
| Navigation.IterateCounts | src/App.tsx:24 | before the end of the list, `k` calls move `k` words on |
| Navigation.IterateAdd | src/App.tsx:24 | `a` calls then `b` calls are `a + b` calls |
| Navigation.InListOrder | src/App.tsx:24 | starting at the first word, the `j`-th call shows word `j` |
| Navigation.CycleReturns | src/App.tsx:24 | `n` calls on a list of `n` words return to the starting word |
| Navigation.App.constructor | src/App.tsx:16-17 | no words and index 0 |
| Navigation.App.LoadWords | src/App.tsx:19-21 | the mount effect stores the loaded list; the index stays 0 |
| Navigation.App.NextWord | src/App.tsx:23-25 | the index becomes `Next(index, words.length)`; the index stays in range |
| Navigation.App.Render | src/App.tsx:30-35 | the card is rendered exactly when there are words, with `words[currentWordIndex]`, which is in range |
| Navigation.SecondWordShown | src/App.tsx:17-35 | after loading and one `nextWord` the second word is shown, or the first again for a one-word list |

## Left out

- Rendering: JSX, CSS classes, placeholders and labels. Only the rule that a mark is shown for a non-empty input is modelled.
- Loading `./data/words.json`: the file is not part of this model. `Navigation.App.LoadWords` takes the list as a parameter.
- React scheduling: each handler and each effect is one atomic method. The caller calls the completion effects after the state they depend on changes.
- The App and its card are separate objects. The re-render that passes the next word to the card is the separate method `ReceiveWord`.
- The timer delay of 500 ms is left out. A scheduled call is a pending count that `TimerFires` consumes in any order with other events.
- `Normalize.Lower`: models lower-casing only for ASCII, Latin-1 (U+00C0 to U+00DE except U+00D7) and U+1E9E (to U+00DF). The full Unicode case mapping is too large to encode, and other characters are left as they are.
- `Normalize.Trim`: the whitespace set is that of section 12.2 (White Space) and section 12.3 (Line Terminators) of ECMAScript 2023: TAB, VT, FF, SP, NBSP, U+FEFF, the Zs characters, LF, CR, U+2028 and U+2029.
- JavaScript strings as UTF-16 code units, and surrogate pairs, are not modelled. A string is a sequence of characters.
- `Learning.LearningCard.HandleFormChange`: requires a form index of the word, and `HandleExampleChange` an example index. Only rendered inputs call them; with another index the source reads `undefined` and `removePunctuation` throws.
- `ModalVerb.ModalVerbCard.HandleInputChange`: requires the tense to exist in the table. Only rendered cells call it; with another tense `modalVerb[tense][pronoun]` throws. A missing pronoun is modelled (it yields `false`).
- JavaScript object keys are modelled as plain data. Inherited properties (`constructor`, `__proto__`) and the integer-key ordering of `Object.entries` are not modelled.
- `ModalVerb.WellFormed`: object literals never repeat a key, so the lemmas about lookups and collisions assume it. The card's methods do not.
- The modal-verb card's completion effect also re-runs when the parent passes a new `onNextVerb` function. That depends on the parent, which is not in the repository's App, and is not modelled.
- `Navigation.Next` is only called with `n > 0`, as the card is only rendered then. The `NaN` index that `% 0` would give is not modelled.
