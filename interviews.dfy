/** The `Interview` table and the three routes that use it: `home` creates a
    record when the resume fits, `questions` reads its questions back, and
    `record_answer` scores a recorded answer and overwrites the record's
    transcription, score and status. The database is an in-memory map. */
module Interviews {
  import opened Wrappers
  import EmotionAnalysis
  import Transcription
  import Questions

  /** A row of the `Interview` table. */
  datatype Interview = Interview(
    jobDescription: string,
    questions: string,
    transcription: Option<string>,
    score: Option<real>,
    status: Option<string>)

  /** What `record_answer` renders on success. */
  datatype Evaluation = Evaluation(
    transcription: string,
    confidenceScore: real,
    nlpScore: real,
    finalScore: real,
    status: string)

  /** The errors `record_answer`'s catch-all turns into an error page. */
  datatype Error =
    | NoVideoData           // the form has no `video_data`, or it is empty
    | InterviewNotFound     // no record has the id
    | TextScoringFailed     // `score_transcription` raised

  /** What `home` answers to a POST. */
  datatype HomeOutcome = RedirectToQuestions(id: int) | NotEligible

  /** A final score of 0.5 or more is a hire. */
  const HireThreshold: real := 0.5

  /** The weighted average `0.4 * confidence_score + 0.6 * nlp_score`: it
      lies between its two inputs, and with a confidence of at most 0.6 a
      hire needs an NLP score of at least 13/30. */
  function FinalScore(confidence: real, nlpScore: real): (r: real)
    ensures confidence <= nlpScore ==> confidence <= r <= nlpScore
    ensures nlpScore <= confidence ==> nlpScore <= r <= confidence
    ensures confidence <= 0.6 && r >= HireThreshold ==> nlpScore >= 13.0 / 30.0
  {
    0.4 * confidence + 0.6 * nlpScore
  }

  /** The status `record_answer` writes; it fits the 10-character column. */
  function Status(finalScore: real): (s: string)
    ensures s == "Hired" <==> finalScore >= HireThreshold
    ensures s == "Not Hired" <==> finalScore < HireThreshold
    ensures |s| <= 10
  {
    if finalScore >= HireThreshold then "Hired" else "Not Hired"
  }

  /** The scoring step of `record_answer`: an empty transcription scores 0.0
      without calling the text scorer; otherwise the scorer's result is used,
      and its failure fails the request. */
  function Evaluate(confidence: real, transcription: string, textScore: Option<real>): (r: Option<Evaluation>)
    ensures r.None? <==> transcription != [] && textScore.None?
    ensures r.Some? ==> r.value.transcription == transcription && r.value.confidenceScore == confidence
    ensures r.Some? && transcription == [] ==> r.value.nlpScore == 0.0
    ensures r.Some? && transcription != [] ==> textScore == Some(r.value.nlpScore)
    ensures r.Some? ==> r.value.finalScore == FinalScore(confidence, r.value.nlpScore)
    ensures r.Some? ==> r.value.status == Status(r.value.finalScore)
  {
    if transcription == [] then
      Some(Evaluation(transcription, confidence, 0.0, FinalScore(confidence, 0.0), Status(FinalScore(confidence, 0.0))))
    else match textScore
      case None => None
      case Some(nlp) => Some(Evaluation(transcription, confidence, nlp, FinalScore(confidence, nlp), Status(FinalScore(confidence, nlp))))
  }

  predicate HasVideo(videoData: Option<string>) {
    videoData.Some? && videoData.value != []
  }

  /** The result `record_answer` computes for interview `id`, given what the
      frame reader, the audio decoder and `score_transcription` produce. */
  function Answer(
    rows: map<int, Interview>, id: int, videoData: Option<string>,
    video: EmotionAnalysis.Video, audio: Transcription.Audio,
    scoreTranscription: (string, string) -> Option<real>): (r: Result<Evaluation, Error>)
    ensures !HasVideo(videoData) ==> r == Failure(NoVideoData)
    ensures HasVideo(videoData) && id !in rows ==> r == Failure(InterviewNotFound)
    ensures r.Success? <==>
              && HasVideo(videoData) && id in rows
              && (Transcription.Transcribe(audio) == []
                  || scoreTranscription(Transcription.Transcribe(audio), rows[id].jobDescription).Some?)
    ensures HasVideo(videoData) && id in rows && r.Failure? ==> r == Failure(TextScoringFailed)
    ensures r.Success? ==> id in rows
    ensures r.Success? ==> r.value.confidenceScore == EmotionAnalysis.Confidence(video)
    ensures r.Success? ==> r.value.transcription == Transcription.Transcribe(audio)
    ensures r.Success? && r.value.transcription == [] ==> r.value.nlpScore == 0.0
    ensures r.Success? && r.value.transcription != [] ==>
              Some(r.value.nlpScore) == scoreTranscription(r.value.transcription, rows[id].jobDescription)
    ensures r.Success? ==> r.value.finalScore == 0.4 * r.value.confidenceScore + 0.6 * r.value.nlpScore
    ensures r.Success? ==> (r.value.status == "Hired" <==> r.value.finalScore >= 0.5)
  {
    if !HasVideo(videoData) then Failure(NoVideoData)
    else if id !in rows then Failure(InterviewNotFound)
    else
      var transcription := Transcription.Transcribe(audio);
      var textScore := if transcription == [] then None else scoreTranscription(transcription, rows[id].jobDescription);
      match Evaluate(EmotionAnalysis.Confidence(video), transcription, textScore)
      case None => Failure(TextScoringFailed)
      case Some(e) => Success(e)
  }

  /** A record as `home` creates it or as `record_answer` leaves it: its
      questions split into at least two entries, and transcription, score
      and status are all unset or all set, with the status agreeing with the
      score. */
  predicate WellFormed(r: Interview) {
    && |Questions.SplitLines(r.questions)| >= 2
    && (r.transcription.Some? <==> r.score.Some?)
    && (r.score.Some? <==> r.status.Some?)
    && (r.score.Some? ==> r.status == Some(Status(r.score.value)))
  }

  /** The record after `record_answer` commits evaluation `e`. */
  function Scored(r: Interview, e: Evaluation): Interview {
    r.(transcription := Some(e.transcription), score := Some(e.finalScore), status := Some(e.status))
  }

  /** Ids run from 1 below `nextId`, and every record is well formed. */
  predicate TableInvariant(rows: map<int, Interview>, nextId: int) {
    nextId >= 1 &&
    forall id :: id in rows ==> 1 <= id < nextId && WellFormed(rows[id])
  }

  lemma NewRecordWellFormed(jobDescription: string, questions: seq<string>)
    requires |questions| == 2
    ensures WellFormed(Interview(jobDescription, Questions.JoinLines(questions), None, None, None))
  {
    assert questions == [questions[0], questions[1]];
    Questions.StoredQuestionsReadBack(questions[0], questions[1]);
  }

  lemma InsertKeepsInvariant(rows: map<int, Interview>, nextId: int, r: Interview)
    requires TableInvariant(rows, nextId) && WellFormed(r)
    ensures nextId !in rows && TableInvariant(rows[nextId := r], nextId + 1)
  {
  }

  lemma ScoreKeepsInvariant(rows: map<int, Interview>, nextId: int, id: int, e: Evaluation)
    requires TableInvariant(rows, nextId) && id in rows && e.status == Status(e.finalScore)
    ensures TableInvariant(rows[id := Scored(rows[id], e)], nextId)
  {
    assert WellFormed(Scored(rows[id], e));
  }

  class InterviewTable {
    var rows: map<int, Interview>
    var nextId: int

    ghost predicate Valid()
      reads this
    {
      TableInvariant(rows, nextId)
    }

    constructor ()
      ensures Valid() && rows == map[]
    {
      rows := map[];
      nextId := 1;
    }

    /** POST `/home`: a resume whose fit similarity reaches 0.8 gets a new
        record holding the job description and the two generated questions;
        otherwise nothing is stored. */
    method Home(jobDescription: string, fitSimilarity: real, generator: string -> string)
      returns (outcome: HomeOutcome)
      requires Valid()
      modifies this
      ensures Valid()
      ensures !Questions.ResumeFits(fitSimilarity) ==> outcome == NotEligible && rows == old(rows)
      ensures Questions.ResumeFits(fitSimilarity) ==>
                && outcome.RedirectToQuestions?
                && outcome.id !in old(rows)
                && rows == old(rows)[outcome.id := Interview(jobDescription,
                     Questions.JoinLines([Questions.Generated("technical", jobDescription, generator),
                                          Questions.Generated("non-technical", jobDescription, generator)]),
                     None, None, None)]
    {
      if !Questions.ResumeFits(fitSimilarity) {
        return NotEligible;
      }
      var questions := Questions.GenerateQuestions(jobDescription, generator);
      assert questions == [Questions.Generated("technical", jobDescription, generator),
                           Questions.Generated("non-technical", jobDescription, generator)];
      var record := Interview(jobDescription, Questions.JoinLines(questions), None, None, None);
      NewRecordWellFormed(jobDescription, questions);
      InsertKeepsInvariant(rows, nextId, record);
      var id := nextId;
      rows := rows[id := record];
      nextId := nextId + 1;
      outcome := RedirectToQuestions(id);
    }

    /** GET `/questions/<id>`: the stored questions split on '\n', or a 404
        when there is no such record. */
    function QuestionsPage(id: int): (page: Option<seq<string>>)
      reads this
      requires Valid()
      ensures page.None? <==> id !in rows
      ensures page.Some? ==> |page.value| >= 2 && page.value == Questions.SplitLines(rows[id].questions)
    {
      if id in rows then Some(Questions.SplitLines(rows[id].questions)) else None
    }

    /** POST `/record_answer/<id>`: scores the answer and overwrites the
        record's transcription, score and status, or fails changing nothing. */
    method RecordAnswer(
      id: int, videoData: Option<string>,
      video: EmotionAnalysis.Video, audio: Transcription.Audio,
      scoreTranscription: (string, string) -> Option<real>)
      returns (r: Result<Evaluation, Error>)
      requires Valid()
      modifies this
      ensures Valid()
      ensures r == Answer(old(rows), id, videoData, video, audio, scoreTranscription)
      ensures r.Failure? ==> rows == old(rows)
      ensures r.Success? ==> rows == old(rows)[id := Scored(old(rows)[id], r.value)]
      ensures nextId == old(nextId)
    {
      if !HasVideo(videoData) {
        return Failure(NoVideoData);
      }
      var confidenceScore := EmotionAnalysis.AnalyzeVideo(video);
      var transcription := Transcription.Transcribe(audio);
      if id !in rows {
        return Failure(InterviewNotFound);
      }
      var interview := rows[id];
      var nlpScore: real;
      if transcription != [] {
        var textScore := scoreTranscription(transcription, interview.jobDescription);
        if textScore.None? {
          return Failure(TextScoringFailed);
        }
        nlpScore := textScore.value;
      } else {
        nlpScore := 0.0;
      }
      var finalScore := FinalScore(confidenceScore, nlpScore);
      var status := Status(finalScore);
      var e := Evaluation(transcription, confidenceScore, nlpScore, finalScore, status);
      assert Evaluate(confidenceScore, transcription, if transcription == [] then None else scoreTranscription(transcription, interview.jobDescription)) == Some(e);
      ScoreKeepsInvariant(rows, nextId, id, e);
      rows := rows[id := Scored(interview, e)];
      r := Success(e);
    }
  }

  /** With no speech the text score is 0.0 and, because the confidence is at
      most 0.6, the final score is at most 0.24: never a hire. */
  lemma SilentAnswerIsNotHired(video: EmotionAnalysis.Video, textScore: Option<real>)
    ensures Evaluate(EmotionAnalysis.Confidence(video), "", textScore).Some?
    ensures var e := Evaluate(EmotionAnalysis.Confidence(video), "", textScore).value;
            e.nlpScore == 0.0 && e.finalScore <= 0.24 && e.status == "Not Hired"
  {
    EmotionAnalysis.ConfidenceRange(video);
  }

  /** A hire needs a text score of at least 13/30, since the confidence
      contributes at most 0.4 * 0.6 = 0.24 of the 0.5 threshold. */
  lemma HireNeedsTextScore(video: EmotionAnalysis.Video, transcription: string, textScore: Option<real>)
    requires Evaluate(EmotionAnalysis.Confidence(video), transcription, textScore).Some?
    requires Evaluate(EmotionAnalysis.Confidence(video), transcription, textScore).value.status == "Hired"
    ensures transcription != []
    ensures Evaluate(EmotionAnalysis.Confidence(video), transcription, textScore).value.nlpScore >= 13.0 / 30.0
  {
    EmotionAnalysis.ConfidenceRange(video);
  }
}
