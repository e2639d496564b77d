/**
 * The modal-verb card (`ModalVerbCard`): a table of tenses, each a table of
 * pronouns with the expected form, one input per cell. Inputs and their
 * verdicts are kept in two objects keyed by `tense + "_" + pronoun`; the card
 * calls `onNextVerb` once every verdict is true and there are as many
 * verdicts as cells.
 *
 * A JavaScript object is modelled as a sequence of entries in the order
 * `Object.entries` lists them; an object literal never repeats a key, which
 * `WellFormed` states.
 */
module ModalVerb {
  import opened Wrappers
  import opened Normalize

  /** One pronoun of a tense and its expected verb form. */
  datatype Form = Form(pronoun: string, answer: string)

  /** One tense of the modal verb and its forms, in entry order. */
  datatype Tense = Tense(name: string, forms: seq<Form>)

  type Table = seq<Tense>

  /** One input cell as the card renders it. */
  datatype Cell = Cell(tense: string, pronoun: string, answer: string)

  /** No two tenses share a name and no tense repeats a pronoun. */
  predicate WellFormed(t: Table) {
    && (forall i, j :: 0 <= i < j < |t| ==> t[i].name != t[j].name)
    && (forall i :: 0 <= i < |t| ==> DistinctPronouns(t[i].forms))
  }

  predicate DistinctPronouns(fs: seq<Form>) {
    forall i, j :: 0 <= i < j < |fs| ==> fs[i].pronoun != fs[j].pronoun
  }

  /** The state key of a cell: `${tense}_${pronoun}`. */
  function Key(tense: string, pronoun: string): (k: string)
    ensures |k| == |tense| + 1 + |pronoun|
  {
    tense + "_" + pronoun
  }

  /** A key holds its tense, then the separator, then its pronoun. */
  lemma KeyParts(tense: string, pronoun: string)
    ensures |Key(tense, pronoun)| == |tense| + 1 + |pronoun|
    ensures Key(tense, pronoun)[..|tense|] == tense
    ensures Key(tense, pronoun)[|tense|] == '_'
    ensures Key(tense, pronoun)[|tense| + 1..] == pronoun
  {
  }

  function CellKey(c: Cell): string {
    Key(c.tense, c.pronoun)
  }

  /** Keys can only collide when a tense name contains the separator. */
  lemma KeyInjective(t1: string, p1: string, t2: string, p2: string)
    requires '_' !in t1 && '_' !in t2
    requires Key(t1, p1) == Key(t2, p2)
    ensures t1 == t2 && p1 == p2
  {
    KeyParts(t1, p1);
    KeyParts(t2, p2);
    assert |t1| == |t2|;
  }

  /** `modalVerb[tense]`: the first entry with that name. */
  function FindTense(t: Table, name: string): (r: Option<seq<Form>>)
    ensures r.None? <==> forall i :: 0 <= i < |t| ==> t[i].name != name
    ensures r.Some? ==> exists i :: 0 <= i < |t| && t[i].name == name && r.value == t[i].forms
  {
    if t == [] then None
    else if t[0].name == name then Some(t[0].forms)
    else FindTense(t[1..], name)
  }

  /** `pronouns[pronoun]`: the first entry with that pronoun. */
  function FindForm(fs: seq<Form>, pronoun: string): (r: Option<string>)
    ensures r.None? <==> forall i :: 0 <= i < |fs| ==> fs[i].pronoun != pronoun
    ensures r.Some? ==> exists i :: 0 <= i < |fs| && fs[i].pronoun == pronoun && r.value == fs[i].answer
  {
    if fs == [] then None
    else if fs[0].pronoun == pronoun then Some(fs[0].answer)
    else FindForm(fs[1..], pronoun)
  }

  /** In a well-formed table a lookup finds the one entry with that name. */
  lemma {:induction false} FindTenseUnique(t: Table, i: nat)
    requires WellFormed(t) && i < |t|
    ensures FindTense(t, t[i].name) == Some(t[i].forms)
  {
    if i > 0 {
      assert t[0].name != t[i].name;
      assert WellFormed(t[1..]) by {
        forall a | 0 <= a < |t[1..]|
          ensures DistinctPronouns(t[1..][a].forms)
        {
          assert t[1..][a] == t[a + 1];
        }
      }
      FindTenseUnique(t[1..], i - 1);
    }
  }

  lemma {:induction false} FindFormUnique(fs: seq<Form>, i: nat)
    requires DistinctPronouns(fs) && i < |fs|
    ensures FindForm(fs, fs[i].pronoun) == Some(fs[i].answer)
  {
    if i > 0 {
      assert fs[0].pronoun != fs[i].pronoun;
      FindFormUnique(fs[1..], i - 1);
    }
  }

  /** `modalVerb[tense][pronoun]`, where the tense exists; `undefined` when
      the pronoun does not. */
  function CorrectAnswer(t: Table, tense: string, pronoun: string): (r: Option<string>)
    requires FindTense(t, tense).Some?
    ensures exists i :: 0 <= i < |t| && t[i].name == tense && r == FindForm(t[i].forms, pronoun)
  {
    FindForm(FindTense(t, tense).value, pronoun)
  }

  /** The cells of one tense, in entry order. */
  function CellsOf(tn: Tense): (cs: seq<Cell>)
    ensures |cs| == |tn.forms|
    ensures forall i :: 0 <= i < |cs| ==> cs[i] == Cell(tn.name, tn.forms[i].pronoun, tn.forms[i].answer)
  {
    seq(|tn.forms|, i requires 0 <= i < |tn.forms| => Cell(tn.name, tn.forms[i].pronoun, tn.forms[i].answer))
  }

  /** Every cell of the table, tense by tense. */
  function Cells(t: Table): (cs: seq<Cell>)
    ensures forall k :: 0 <= k < |cs| ==> FindTense(t, cs[k].tense).Some?
  {
    if t == [] then [] else CellsOf(t[0]) + Cells(t[1..])
  }

  /** `Object.entries(modalVerb).flatMap(([_, tense]) => Object.keys(tense)).length`:
      the number of pronoun entries over all tenses, which is the number of cells. */
  function Total(t: Table): (n: nat)
    ensures n == |Cells(t)|
  {
    if t == [] then 0 else |t[0].forms| + Total(t[1..])
  }

  /** Every cell belongs to a tense entry of the table. */
  lemma {:induction false} CellInTable(t: Table, k: nat)
    requires k < |Cells(t)|
    ensures exists i, j :: (0 <= i < |t| && 0 <= j < |t[i].forms|
                            && Cells(t)[k] == Cell(t[i].name, t[i].forms[j].pronoun, t[i].forms[j].answer))
  {
    var head := CellsOf(t[0]);
    if k < |head| {
      assert Cells(t)[k] == head[k];
    } else {
      assert Cells(t)[k] == Cells(t[1..])[k - |head|];
      CellInTable(t[1..], k - |head|);
      var i, j :| 0 <= i < |t[1..]| && 0 <= j < |t[1..][i].forms|
        && Cells(t[1..])[k - |head|] == Cell(t[1..][i].name, t[1..][i].forms[j].pronoun, t[1..][i].forms[j].answer);
      assert t[1..][i] == t[i + 1];
    }
  }

  /** Every rendered cell's input is validated against that cell's own form. */
  lemma CellAnswer(t: Table, k: nat)
    requires WellFormed(t) && k < |Cells(t)|
    ensures FindTense(t, Cells(t)[k].tense).Some?
    ensures CorrectAnswer(t, Cells(t)[k].tense, Cells(t)[k].pronoun) == Some(Cells(t)[k].answer)
  {
    CellInTable(t, k);
    var i, j :| 0 <= i < |t| && 0 <= j < |t[i].forms|
      && Cells(t)[k] == Cell(t[i].name, t[i].forms[j].pronoun, t[i].forms[j].answer);
    FindTenseUnique(t, i);
    FindFormUnique(t[i].forms, j);
  }

  /** The set of keys of some cells. */
  function KeysOf(cs: seq<Cell>): set<string> {
    if cs == [] then {} else {CellKey(cs[0])} + KeysOf(cs[1..])
  }

  /** The keys of some cells are exactly the keys of each of them. */
  lemma {:induction false} KeysOfMembers(cs: seq<Cell>)
    ensures forall i :: 0 <= i < |cs| ==> CellKey(cs[i]) in KeysOf(cs)
    ensures forall k :: k in KeysOf(cs) ==> exists i :: 0 <= i < |cs| && CellKey(cs[i]) == k
  {
    if cs != [] {
      KeysOfMembers(cs[1..]);
      forall i | 0 < i < |cs|
        ensures CellKey(cs[i]) in KeysOf(cs)
      {
        assert cs[i] == cs[1..][i - 1];
      }
      forall k | k in KeysOf(cs)
        ensures exists i :: 0 <= i < |cs| && CellKey(cs[i]) == k
      {
        if k != CellKey(cs[0]) {
          var i :| 0 <= i < |cs[1..]| && CellKey(cs[1..][i]) == k;
          assert cs[i + 1] == cs[1..][i];
        }
      }
    }
  }

  lemma {:induction false} KeysOfAppend(cs: seq<Cell>, c: Cell)
    ensures KeysOf(cs + [c]) == KeysOf(cs) + {CellKey(c)}
  {
    if cs != [] {
      assert (cs + [c])[1..] == cs[1..] + [c];
      KeysOfAppend(cs[1..], c);
    } else {
      assert (cs + [c])[1..] == [];
    }
  }

  /** There are never more keys than cells. */
  lemma {:induction false} KeysAtMostCells(cs: seq<Cell>)
    ensures |KeysOf(cs)| <= |cs|
  {
    if cs != [] {
      KeysAtMostCells(cs[1..]);
    }
  }

  lemma SubsetCount(a: set<string>, b: set<string>)
    requires a <= b
    ensures |a| <= |b|
  {
    assert b == a + (b - a);
  }

  predicate DistinctKeys(cs: seq<Cell>) {
    forall i, j :: 0 <= i < j < |cs| ==> CellKey(cs[i]) != CellKey(cs[j])
  }

  /** Cells with distinct keys have exactly as many keys as cells. */
  lemma {:induction false} DistinctKeysCount(cs: seq<Cell>)
    requires DistinctKeys(cs)
    ensures |KeysOf(cs)| == |cs|
  {
    if cs != [] {
      assert DistinctKeys(cs[1..]) by {
        forall i, j | 0 <= i < j < |cs[1..]|
          ensures CellKey(cs[1..][i]) != CellKey(cs[1..][j])
        {
          assert cs[1..][i] == cs[i + 1] && cs[1..][j] == cs[j + 1];
        }
      }
      DistinctKeysCount(cs[1..]);
      KeysOfMembers(cs[1..]);
      assert CellKey(cs[0]) !in KeysOf(cs[1..]) by {
        forall i | 0 <= i < |cs[1..]|
          ensures CellKey(cs[1..][i]) != CellKey(cs[0])
        {
          assert cs[1..][i] == cs[i + 1];
        }
      }
    }
  }

  /** No tense name contains the separator. */
  predicate PlainTenseNames(t: Table) {
    forall i :: 0 <= i < |t| ==> '_' !in t[i].name
  }

  /** The cells of a well-formed table whose tense names have no `_` all have
      different keys. */
  lemma {:induction false} NoCollision(t: Table)
    requires WellFormed(t) && PlainTenseNames(t)
    ensures DistinctKeys(Cells(t))
  {
    if t != [] {
      var head, rest := CellsOf(t[0]), Cells(t[1..]);
      assert WellFormed(t[1..]) && PlainTenseNames(t[1..]) by {
        forall a | 0 <= a < |t[1..]|
          ensures DistinctPronouns(t[1..][a].forms) && '_' !in t[1..][a].name
        {
          assert t[1..][a] == t[a + 1];
        }
      }
      NoCollision(t[1..]);
      forall i, j | 0 <= i < j < |head + rest|
        ensures CellKey((head + rest)[i]) != CellKey((head + rest)[j])
      {
        if j < |head| {
          assert (head + rest)[i] == head[i] && (head + rest)[j] == head[j];
          assert t[0].forms[i].pronoun != t[0].forms[j].pronoun;
          if CellKey(head[i]) == CellKey(head[j]) {
            KeyInjective(t[0].name, head[i].pronoun, t[0].name, head[j].pronoun);
          }
        } else if |head| <= i {
          assert (head + rest)[i] == rest[i - |head|] && (head + rest)[j] == rest[j - |head|];
        } else {
          assert (head + rest)[i] == head[i] && (head + rest)[j] == rest[j - |head|];
          CellInTable(t[1..], j - |head|);
          var a, b :| 0 <= a < |t[1..]| && 0 <= b < |t[1..][a].forms|
            && rest[j - |head|] == Cell(t[1..][a].name, t[1..][a].forms[b].pronoun, t[1..][a].forms[b].answer);
          assert t[1..][a] == t[a + 1];
          assert t[0].name != t[a + 1].name;
          if CellKey(head[i]) == CellKey(rest[j - |head|]) {
            KeyInjective(t[0].name, head[i].pronoun, t[a + 1].name, rest[j - |head|].pronoun);
          }
        }
      }
    }
  }

  /** `value.toLowerCase().trim() === correctAnswer?.toLowerCase().trim()`:
      a missing answer is never matched. */
  function CellCorrect(value: string, answer: Option<string>): (r: bool)
    ensures answer.None? ==> !r
    ensures answer.Some? ==> (r <==> ToLower(Trim(value)) == ToLower(Trim(answer.value)))
  {
    if answer.None? then false
    else
      FoldOrderIrrelevant(value);
      FoldOrderIrrelevant(answer.value);
      Fold(value) == Fold(answer.value)
  }

  /** The check is stricter than the verb card's: punctuation counts. */
  lemma StricterThanFormCheck(a: string, p: char)
    requires forall j :: 0 <= j < |a| ==> !IsUpper(a[j])
    requires a == [] || (!IsSpace(a[0]) && !IsSpace(a[|a| - 1]))
    requires IsPunctuation(p)
    ensures Validate(a + [p], a)
    ensures !CellCorrect(a + [p], Some(a))
  {
    TrailingPunctuationInvisible(a, p);
    FoldPlain(a);
    PunctuatedPlain(a, p);
    FoldPlain(a + [p]);
  }

  /** A plain answer with a punctuation mark appended is still plain. */
  lemma PunctuatedPlain(a: string, p: char)
    requires forall j :: 0 <= j < |a| ==> !IsUpper(a[j])
    requires a == [] || !IsSpace(a[0])
    requires IsPunctuation(p)
    ensures forall j :: 0 <= j < |a + [p]| ==> !IsUpper((a + [p])[j])
    ensures !IsSpace((a + [p])[0]) && !IsSpace((a + [p])[|a|])
  {
    assert !IsUpper(p) && !IsSpace(p);
    var v := a + [p];
    forall j | 0 <= j < |v|
      ensures !IsUpper(v[j])
    {
      if j < |a| { assert v[j] == a[j]; }
    }
  }

  /** The completion test: every verdict is true and there are as many
      verdicts as cells. */
  function Complete(verdicts: map<string, bool>, t: Table): (r: bool)
    ensures r <==> (forall k :: k in verdicts ==> verdicts[k]) && |verdicts| == |Cells(t)|
  {
    (forall k :: k in verdicts ==> verdicts[k]) && |verdicts| == Total(t)
  }

  /** A subset with as many elements as the set is the set. */
  lemma SubsetSameCount(a: set<string>, b: set<string>)
    requires a <= b && |a| == |b|
    ensures a == b
  {
    assert b == a + (b - a);
  }

  /** Every cell has a true verdict. */
  predicate EveryCellTrue(verdicts: map<string, bool>, cs: seq<Cell>) {
    forall i :: 0 <= i < |cs| ==> CellKey(cs[i]) in verdicts && verdicts[CellKey(cs[i])]
  }

  lemma CompleteMeansEveryCell(verdicts: map<string, bool>, t: Table)
    requires verdicts.Keys <= KeysOf(Cells(t))
    requires DistinctKeys(Cells(t))
    requires Complete(verdicts, t)
    ensures EveryCellTrue(verdicts, Cells(t))
  {
    var cs := Cells(t);
    DistinctKeysCount(cs);
    SubsetSameCount(verdicts.Keys, KeysOf(cs));
    KeysOfMembers(cs);
  }

  lemma EveryCellMeansComplete(verdicts: map<string, bool>, t: Table)
    requires verdicts.Keys <= KeysOf(Cells(t))
    requires DistinctKeys(Cells(t))
    requires EveryCellTrue(verdicts, Cells(t))
    ensures Complete(verdicts, t)
  {
    var cs := Cells(t);
    DistinctKeysCount(cs);
    KeysOfMembers(cs);
    assert KeysOf(cs) <= verdicts.Keys;
    assert verdicts.Keys == KeysOf(cs);
  }

  /** Without collisions, and with verdicts kept only for cells, the card is
      complete exactly when every cell has a true verdict. */
  lemma CompleteIffEveryCell(verdicts: map<string, bool>, t: Table)
    requires verdicts.Keys <= KeysOf(Cells(t))
    requires DistinctKeys(Cells(t))
    ensures Complete(verdicts, t) <==> EveryCellTrue(verdicts, Cells(t))
  {
    if Complete(verdicts, t) {
      CompleteMeansEveryCell(verdicts, t);
    }
    if EveryCellTrue(verdicts, Cells(t)) {
      EveryCellMeansComplete(verdicts, t);
    }
  }

  /** A table whose tenses have no pronouns has no cells, so the card is
      complete with empty maps: an empty `every` holds and 0 equals 0. */
  lemma {:induction false} NoFormsComplete(t: Table)
    requires forall i :: 0 <= i < |t| ==> t[i].forms == []
    ensures Cells(t) == []
    ensures Complete(map[], t)
  {
    if t != [] {
      assert CellsOf(t[0]) == [];
      assert forall i :: 0 <= i < |t[1..]| ==> t[1..][i] == t[i + 1];
      NoFormsComplete(t[1..]);
    }
  }

  /** A wrong or missing cell verdict keeps the card from completing. */
  lemma WrongCellBlocks(verdicts: map<string, bool>, t: Table, c: Cell)
    requires verdicts.Keys <= KeysOf(Cells(t))
    requires DistinctKeys(Cells(t))
    requires c in Cells(t)
    requires CellKey(c) !in verdicts || !verdicts[CellKey(c)]
    ensures !Complete(verdicts, t)
  {
    var i :| 0 <= i < |Cells(t)| && Cells(t)[i] == c;
    CompleteIffEveryCell(verdicts, t);
  }

  /** When two cells share a key there are fewer keys than cells, so a card
      whose verdicts are kept for cells can never complete. */
  lemma CollisionBlocks(verdicts: map<string, bool>, t: Table)
    requires verdicts.Keys <= KeysOf(Cells(t))
    requires |KeysOf(Cells(t))| < |Cells(t)|
    ensures !Complete(verdicts, t)
  {
    SubsetCount(verdicts.Keys, KeysOf(Cells(t)));
  }

  /** Two tenses `a_b` and `a` with pronouns `c` and `b_c` share the key `a_b_c`. */
  lemma CollisionExample(t: Table, verdicts: map<string, bool>)
    requires t == [Tense("a_b", [Form("c", "x")]), Tense("a", [Form("b_c", "y")])]
    requires verdicts.Keys <= KeysOf(Cells(t))
    ensures WellFormed(t)
    ensures !Complete(verdicts, t)
  {
    var c1, c2 := Cell("a_b", "c", "x"), Cell("a", "b_c", "y");
    assert Cells(t) == [c1, c2] by {
      assert CellsOf(t[0]) == [c1];
      assert t[1..] == [t[1]];
      assert Cells(t[1..]) == CellsOf(t[1]) + Cells([]);
      assert CellsOf(t[1]) == [c2];
    }
    assert CellKey(c1) == CellKey(c2);
    assert KeysOf([c1, c2]) == {CellKey(c1)} by {
      assert [c1, c2][1..] == [c2];
      assert [c2][1..] == [];
      assert KeysOf([c2]) == {CellKey(c2)} + KeysOf([]);
    }
    CollisionBlocks(verdicts, t);
  }

  /** What the card shows next to a cell: nothing while its input is empty
      or missing, otherwise whether its verdict is true (a missing verdict
      shows as wrong). */
  function Mark(inputs: map<string, string>, verdicts: map<string, bool>, key: string): (m: Option<bool>)
    ensures m.Some? <==> key in inputs && inputs[key] != ""
    ensures m == Some(true) ==> key in verdicts && verdicts[key]
    ensures m == Some(false) ==> key !in verdicts || !verdicts[key]
  {
    if key in inputs && inputs[key] != "" then Some(key in verdicts && verdicts[key]) else None
  }

  class ModalVerbCard {
    /** The `modalVerb` prop. */
    var modalVerb: Table
    var userInputs: map<string, string>
    var inputCorrect: map<string, bool>
    /** How many times the card has called `onNextVerb`. */
    var nextVerbCalls: nat

    constructor (modalVerb: Table)
      ensures this.modalVerb == modalVerb
      ensures userInputs == map[] && inputCorrect == map[]
      ensures nextVerbCalls == 0
      ensures Valid()
    {
      this.modalVerb := modalVerb;
      userInputs := map[];
      inputCorrect := map[];
      nextVerbCalls := 0;
    }

    /** Verdicts are kept only for cells of the current table, and inputs
        and verdicts have the same keys. */
    predicate Valid()
      reads this
    {
      inputCorrect.Keys <= KeysOf(Cells(modalVerb)) && userInputs.Keys == inputCorrect.Keys
    }

    /** `handleInputChange` followed by `validateInput`. The handler is only
        attached to rendered cells, so the tense exists (with another tense
        `modalVerb[tense][pronoun]` throws). */
    method HandleInputChange(tense: string, pronoun: string, value: string)
      requires FindTense(modalVerb, tense).Some?
      modifies this
      ensures modalVerb == old(modalVerb) && nextVerbCalls == old(nextVerbCalls)
      ensures userInputs == old(userInputs)[Key(tense, pronoun) := value]
      ensures inputCorrect == old(inputCorrect)[Key(tense, pronoun) := CellCorrect(value, CorrectAnswer(modalVerb, tense, pronoun))]
    {
      var inputKey := Key(tense, pronoun);
      userInputs := userInputs[inputKey := value];
      var correctAnswer := CorrectAnswer(modalVerb, tense, pronoun);
      inputCorrect := inputCorrect[inputKey := CellCorrect(value, correctAnswer)];
    }

    /** Typing into a rendered cell keeps the card valid. */
    method TypeIntoCell(k: nat, value: string)
      requires WellFormed(modalVerb) && k < |Cells(modalVerb)|
      modifies this
      ensures modalVerb == old(modalVerb) && nextVerbCalls == old(nextVerbCalls)
      ensures old(Valid()) ==> Valid()
      ensures userInputs == old(userInputs)[CellKey(Cells(modalVerb)[k]) := value]
      ensures inputCorrect == old(inputCorrect)[CellKey(Cells(modalVerb)[k]) := CellCorrect(value, Some(Cells(modalVerb)[k].answer))]
    {
      var c := Cells(modalVerb)[k];
      CellAnswer(modalVerb, k);
      KeysOfMembers(Cells(modalVerb));
      HandleInputChange(c.tense, c.pronoun, value);
    }

    /** The completion effect: call `onNextVerb` when complete; the state is
        left as it is. */
    method CompletionEffect()
      modifies this
      ensures nextVerbCalls == old(nextVerbCalls) + (if Complete(inputCorrect, modalVerb) then 1 else 0)
      ensures modalVerb == old(modalVerb)
      ensures userInputs == old(userInputs) && inputCorrect == old(inputCorrect)
      ensures old(Valid()) && DistinctKeys(Cells(modalVerb)) ==>
        (nextVerbCalls == old(nextVerbCalls) + 1 <==> EveryCellTrue(inputCorrect, Cells(modalVerb)))
    {
      if Valid() && DistinctKeys(Cells(modalVerb)) {
        CompleteIffEveryCell(inputCorrect, modalVerb);
      }
      if Complete(inputCorrect, modalVerb) {
        nextVerbCalls := nextVerbCalls + 1;
      }
    }

    /** A new `modalVerb` prop: in the render that receives it the
        completion effect still sees the previous verdicts and tests them
        against the new table; then the reset effect empties both objects. */
    method ReceiveModalVerb(m: Table)
      modifies this
      ensures modalVerb == m
      ensures nextVerbCalls == old(nextVerbCalls) + (if Complete(old(inputCorrect), m) then 1 else 0)
      ensures userInputs == map[] && inputCorrect == map[]
      ensures Valid()
    {
      modalVerb := m;
      CompletionEffect();
      userInputs := map[];
      inputCorrect := map[];
    }

    /** The `Next Verb` button: `onNextVerb` whatever the inputs. */
    method ClickNextVerb()
      modifies this
      ensures nextVerbCalls == old(nextVerbCalls) + 1
      ensures modalVerb == old(modalVerb)
      ensures userInputs == old(userInputs) && inputCorrect == old(inputCorrect)
    {
      nextVerbCalls := nextVerbCalls + 1;
    }
  }

  /** Filling every cell of a non-empty well-formed table whose tense names
      have no `_`, each with its own form, calls `onNextVerb` exactly once,
      on the last cell. */
  method FillEveryCell(t: Table) returns (advances: nat)
    requires WellFormed(t) && PlainTenseNames(t) && |Cells(t)| > 0
    ensures advances == 1
  {
    var cells := Cells(t);
    NoCollision(t);
    var card := new ModalVerbCard(t);
    card.CompletionEffect();
    var i := 0;
    while i < |cells|
      invariant 0 <= i <= |cells|
      invariant card.modalVerb == t
      invariant card.inputCorrect.Keys == KeysOf(cells[..i])
      invariant forall k :: k in card.inputCorrect ==> card.inputCorrect[k]
      invariant card.nextVerbCalls == (if i == |cells| then 1 else 0)
    {
      FillCell(card, i);
      card.CompletionEffect();
      i := i + 1;
    }
    advances := card.nextVerbCalls;
  }

  /** Typing the form of the next cell, in order, into a card whose
      verdicts so far are all true. */
  method FillCell(card: ModalVerbCard, i: nat)
    requires WellFormed(card.modalVerb) && DistinctKeys(Cells(card.modalVerb))
    requires i < |Cells(card.modalVerb)|
    requires card.inputCorrect.Keys == KeysOf(Cells(card.modalVerb)[..i])
    requires forall k :: k in card.inputCorrect ==> card.inputCorrect[k]
    modifies card
    ensures card.modalVerb == old(card.modalVerb) && card.nextVerbCalls == old(card.nextVerbCalls)
    ensures card.inputCorrect.Keys == KeysOf(Cells(card.modalVerb)[..i + 1])
    ensures forall k :: k in card.inputCorrect ==> card.inputCorrect[k]
    ensures |card.inputCorrect| == i + 1
  {
    var cells := Cells(card.modalVerb);
    NextPrefixKeys(cells, i);
    card.TypeIntoCell(i, cells[i].answer);
  }

  /** One more cell of a prefix adds its own, new key. */
  lemma NextPrefixKeys(cs: seq<Cell>, i: nat)
    requires DistinctKeys(cs) && i < |cs|
    ensures KeysOf(cs[..i + 1]) == KeysOf(cs[..i]) + {CellKey(cs[i])}
    ensures |KeysOf(cs[..i + 1])| == i + 1
  {
    KeysOfAppend(cs[..i], cs[i]);
    assert cs[..i + 1] == cs[..i] + [cs[i]];
    PrefixKeysCount(cs, i + 1);
  }

  /** The first `n` of some cells with distinct keys have `n` keys. */
  lemma PrefixKeysCount(cs: seq<Cell>, n: nat)
    requires DistinctKeys(cs) && n <= |cs|
    ensures |KeysOf(cs[..n])| == n
  {
    assert DistinctKeys(cs[..n]) by {
      forall i, j | 0 <= i < j < n
        ensures CellKey(cs[..n][i]) != CellKey(cs[..n][j])
      {
        assert cs[..n][i] == cs[i] && cs[..n][j] == cs[j];
      }
    }
    DistinctKeysCount(cs[..n]);
  }
}
