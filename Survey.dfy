/**
 * The survey record and the write path: how one submitted form becomes the
 * stored answer strings, including the merge of "Others" free text.
 */
module Survey {
  import opened Text

  /** The eleven questions of the survey. */
  type QuestionId = q: int | 1 <= q <= 11 witness 1

  /** The sentinel option a respondent picks when none of the listed ones fits. */
  const Others: string := "Others"

  /** One stored response: the row of the user_responses table. */
  datatype AnswerRecord = AnswerRecord(
    id: int,
    userid: string,
    useremail: string,
    question1: string,
    question2: string,
    question3: string,
    question4: string,
    question5: string,
    question6: string,
    question7: string,
    question8: string,
    question9: string,
    question10: string,
    question11: string)

  /** The stored answer to question `q`. */
  function Answer(rec: AnswerRecord, q: QuestionId): string
  {
    match q
    case 1 => rec.question1
    case 2 => rec.question2
    case 3 => rec.question3
    case 4 => rec.question4
    case 5 => rec.question5
    case 6 => rec.question6
    case 7 => rec.question7
    case 8 => rec.question8
    case 9 => rec.question9
    case 10 => rec.question10
    case _ => rec.question11
  }

  /** The column of answers to question `q`, one per stored response, in order. */
  function Column(records: seq<AnswerRecord>, q: QuestionId): (col: seq<string>)
    ensures |col| == |records|
    ensures forall i :: 0 <= i < |records| ==> col[i] == Answer(records[i], q)
  {
    seq(|records|, i requires 0 <= i < |records| => Answer(records[i], q))
  }

  /**
   * The submitted form. Multi-select questions (2, 5, 10) carry the list of
   * checked values; the others one value. A missing free-text field is the
   * empty string.
   */
  datatype SurveyForm = SurveyForm(
    answer1: string,
    answer2: seq<string>, other2: string,
    answer3: string,
    answer4: string, other4: string,
    answer5: seq<string>, other5: string,
    answer6: string, other6: string,
    answer7: string, other7: string,
    answer8: string,
    answer9: string,
    answer10: seq<string>,
    answer11: string, other11: string)

  /** Whether the write path appends free text to an answer: it holds "Others" and the text is not empty. */
  predicate MergesOthers(answer: string, other: string)
  {
    Contains(answer, Others) && other != ""
  }

  /** The stored form of an answer once its "Others" free text is merged in. */
  function WithOthers(answer: string, other: string): (r: string)
    ensures answer <= r
    ensures r != answer <==> MergesOthers(answer, other)
  {
    if MergesOthers(answer, other) then answer + Sep + other else answer
  }

  /**
   * What the read path recovers from a merged answer: the answer's own
   * tokens, followed by the free text's tokens when the merge happened.
   * The sentinel "Others" itself stays in the stored value.
   */
  lemma MergedTokens(answer: string, other: string)
    ensures MergesOthers(answer, other) ==>
              Split(WithOthers(answer, other)) == Split(answer) + Split(other)
    ensures !MergesOthers(answer, other) ==>
              Split(WithOthers(answer, other)) == Split(answer)
  {
    if MergesOthers(answer, other) {
      SplitAround(answer, other);
    }
  }

  /**
   * For a multi-select answer whose checked values include "Others" and hold
   * no delimiter, the stored value splits back into exactly the checked
   * values followed by the free text's pieces; with no free text it splits
   * back into the checked values alone.
   */
  lemma CheckedOthersRoundTrip(checked: seq<string>, other: string)
    requires Others in checked
    requires forall i :: 0 <= i < |checked| ==> !Contains(checked[i], Sep)
    ensures other != "" ==> Split(WithOthers(Join(checked), other)) == checked + Split(other)
    ensures other == "" ==> Split(WithOthers(Join(checked), other)) == checked
  {
    var i :| 0 <= i < |checked| && checked[i] == Others;
    assert Others <= checked[i];
    ContainsJoin(checked, i, Others);
    MergedTokens(Join(checked), other);
    forall k | 0 <= k < |checked|
      ensures !HasSep(checked[k])
    {
      HasSepIsContains(checked[k]);
    }
    SplitJoin(checked);
  }

  /** The questions whose form has an "Others" free-text field beside the answer. */
  predicate MergesOthersOnWrite(q: QuestionId)
  {
    q == 2 || q == 4 || q == 5 || q == 6 || q == 7 || q == 11
  }

  /** The answer the form gives for question `q`: its value, or its checked values joined with ", ". */
  function Given(form: SurveyForm, q: QuestionId): string
  {
    match q
    case 1 => form.answer1
    case 2 => Join(form.answer2)
    case 3 => form.answer3
    case 4 => form.answer4
    case 5 => Join(form.answer5)
    case 6 => form.answer6
    case 7 => form.answer7
    case 8 => form.answer8
    case 9 => form.answer9
    case 10 => Join(form.answer10)
    case _ => form.answer11
  }

  /** The free text typed beside the "Others" choice of question `q`. */
  function OtherText(form: SurveyForm, q: QuestionId): string
    requires MergesOthersOnWrite(q)
  {
    match q
    case 2 => form.other2
    case 4 => form.other4
    case 5 => form.other5
    case 6 => form.other6
    case 7 => form.other7
    case _ => form.other11
  }

  /** One "Others" merge step of the write path, as the form handler does it for each question. */
  method AppendOther(answer: string, other: string) returns (merged: string)
    ensures merged == WithOthers(answer, other)
  {
    merged := answer;
    if Contains(merged, Others) && other != "" {
      merged := merged + Sep + other;
    }
  }

  /**
   * The write path of the survey form: join the multi-select values with
   * ", ", then append each "Others" free text to its answer.
   */
  method Submit(id: int, userid: string, useremail: string, form: SurveyForm)
    returns (rec: AnswerRecord)
    ensures rec.id == id && rec.userid == userid && rec.useremail == useremail
    ensures rec.question1 == form.answer1
    ensures rec.question2 == WithOthers(Join(form.answer2), form.other2)
    ensures rec.question3 == form.answer3
    ensures rec.question4 == WithOthers(form.answer4, form.other4)
    ensures rec.question5 == WithOthers(Join(form.answer5), form.other5)
    ensures rec.question6 == WithOthers(form.answer6, form.other6)
    ensures rec.question7 == WithOthers(form.answer7, form.other7)
    ensures rec.question8 == form.answer8
    ensures rec.question9 == form.answer9
    ensures rec.question10 == Join(form.answer10)
    ensures rec.question11 == WithOthers(form.answer11, form.other11)
    ensures forall q: QuestionId ::
              Answer(rec, q) == if MergesOthersOnWrite(q) then WithOthers(Given(form, q), OtherText(form, q))
                                else Given(form, q)
  {
    var question1 := form.answer1;
    var question2 := Join(form.answer2);
    var question3 := form.answer3;
    var question4 := form.answer4;
    var question5 := Join(form.answer5);
    var question6 := form.answer6;
    var question7 := form.answer7;
    var question8 := form.answer8;
    var question9 := form.answer9;
    var question10 := Join(form.answer10);
    var question11 := form.answer11;

    question2 := AppendOther(question2, form.other2);
    question4 := AppendOther(question4, form.other4);
    question5 := AppendOther(question5, form.other5);
    question6 := AppendOther(question6, form.other6);
    question7 := AppendOther(question7, form.other7);
    question11 := AppendOther(question11, form.other11);

    rec := AnswerRecord(id, userid, useremail,
      question1, question2, question3, question4, question5, question6,
      question7, question8, question9, question10, question11);
  }
}
