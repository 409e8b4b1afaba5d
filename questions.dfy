/**
 * The question bank of src/questions.js: a constant sequence of items, each with its
 * question text, its options in display order and the index of the correct option.
 */
module Questions {
  import opened Seqs

  datatype Question = Question(text: string, options: seq<string>, correct: int)

  /** What the round logic relies on: the correct index points into the options, which are distinct. */
  predicate WellFormed(q: Question) {
    0 <= q.correct < |q.options| && Distinct(q.options)
  }

  const Bank: seq<Question> := [
    Question("What does BIS stand for?",
      ["Bureau of Indian Standards", "British Industrial Standards",
       "Basic International System", "Board of Industry Standards"], 0),
    Question("Which BIS standard is followed for drinking water quality?",
      ["IS 10500", "IS 456", "IS 3025", "IS 1200"], 0),
    Question("In BIS, what does the ISI mark signify?",
      ["Product Safety", "International Standard", "Quality and Safety", "Bureau Membership"], 2),
    Question("What is the BIS standard for the cement testing procedure?",
      ["IS 269", "IS 383", "IS 650", "IS 4031"], 3),
    Question("Which BIS code specifies the grading of coarse and fine aggregates?",
      ["IS 383", "IS 456", "IS 10262", "IS 2386"], 0)
  ]

  /** The bank has five items, so a random pick in [0, 5) always names one. */
  lemma BankSize()
    ensures |Bank| == 5
  {
  }

  /** Every item has exactly four options. */
  lemma BankFourOptions()
    ensures forall i :: 0 <= i < |Bank| ==> |Bank[i].options| == 4
  {
  }

  /** The correct indices are 0, 0, 2, 3 and 0. */
  lemma BankCorrectIndices()
    ensures seq(|Bank|, i requires 0 <= i < |Bank| => Bank[i].correct) == [0, 0, 2, 3, 0]
  {
  }

  /** Every item is well formed: its correct index lies within its options and its options are distinct. */
  lemma BankWellFormed()
    ensures forall i :: 0 <= i < |Bank| ==> WellFormed(Bank[i])
  {
  }
}
