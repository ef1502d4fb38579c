# HireFire interview scoring, modelled in Dafny

HireFire is a Flask application for mock job interviews. A candidate posts a
job description and a resume. If the resume fits the job, the application
generates two interview questions and stores them. The candidate then records
a video answer. The application scores that answer from the facial emotions in
the video frames and from how similar the spoken transcription is to the job
description, and it stores the transcription, the score and a "Hired" / "Not
Hired" status on the interview record.

Almost all of that work happens in libraries: spaCy, FLAN-T5, OpenCV, DeepFace,
pydub, Google speech recognition and scikit-learn. This project models the
logic the application itself adds around those calls. Each library call is
replaced by its outcome, passed in as a parameter. The project then proves
properties of the logic that remains.

- `wrappers.dfy`: `Option` and `Result`.
- `text.dfy` (module `TextPreprocessing`): `preprocess_text` as a pure function
  on strings. It lower-cases, deletes `string.punctuation`, splits on
  whitespace, drops stop words and re-joins with single spaces. The stop-word
  set is a parameter; the application passes NLTK's English list.
- `emotion.dfy` (module `EmotionAnalysis`): `analyze_video`. Each decoded frame
  becomes one `Frame` outcome. The frame loop is an imperative method that
  updates `frame_count` and a four-key `emotion_scores` map. A second loop
  normalises the buckets in place. Both are proved against the specification
  function `Confidence`.
- `transcription.dfy` (module `Transcription`): the fallbacks of
  `transcribe_from_video`, as a total function from an audio outcome to a string.
- `questions.dfy` (module `Questions`): `generate_questions` as a loop that
  appends one stripped generator answer per category. It also holds the
  `"\n".join` / `split('\n')` storage of the questions and the 0.8 threshold
  of `check_resume_fit`.
- `interviews.dfy` (module `Interviews`): the `Interview` record and a class
  `InterviewTable` holding a `map<int, Interview>`. Its methods model the
  `home`, `questions` and `record_answer` routes. The pure function `Answer`
  gives what `record_answer` computes. The table invariant says that every
  record's status agrees with its score.

Scores are Python floats. They are modelled as exact `real` values.

## Behaviour of note

- `analyze_video` weights the happy rate by 0.6 and the neutral rate by 0.4,
  and the two rates together are at most 1. So the confidence score lies in
  [0, 0.6]. `ConfidenceRange` proves this.
- `home` stores the two questions joined by '\n', and `questions` splits
  them on '\n'. They read back as two entries only when neither question
  contains '\n'. Otherwise they read back as more than two.
- `frame_count` also counts frames whose dominant emotion is not one of the
  four keys. It also counts frames whose DeepFace call raises.
- Each call of `record_answer` on the same interview overwrites the
  transcription, score and status that an earlier call stored.

## Model

| member | source | states |
|---|---|---|
| `TextPreprocessing.LowerText` | app.py:254 | every character is replaced by its ASCII lower-case form; the length is kept |
| `TextPreprocessing.StripPunctuation` | app.py:255 | the result is a subsequence of the input that holds no `string.punctuation` mark and keeps every other character as often as it occurs, so it is exactly the input with the punctuation deleted; a text without punctuation is returned unchanged |
| `TextPreprocessing.Words` | app.py:256 | every token is non-empty and has no whitespace, and holds only characters of the text |
| `TextPreprocessing.WordsAreCollapsedText` | app.py:256-258 | joining the tokens with single spaces gives the text with its leading and trailing whitespace removed and every inner run of whitespace replaced by one space, as computed character by character by `Collapse` |
| `TextPreprocessing.WordsUnique` | app.py:256 | any list of tokens whose single-space join is the collapsed text is the token list: the split is exactly the maximal non-whitespace runs, in order |
| `TextPreprocessing.DropStopWords` | app.py:257 | every kept token was in the input and is not a stop word; a stop word is kept 0 times and any other word as often as it occurs in the input |
| `TextPreprocessing.DropStopWordsKeepsOrder` | app.py:257 | stop-word removal keeps every occurrence of every non-stop word and no stop word, in the original relative order |
| `TextPreprocessing.JoinWords` | app.py:258 | every character of the joined text is the separating space or a character of a token |
| `TextPreprocessing.WordsOfJoin` | app.py:256-258 | splitting a single-space join of tokens on whitespace gives back exactly those tokens |
| `TextPreprocessing.JoinWordsSingleSpaced` | app.py:258 | a join of tokens has no leading or trailing whitespace, and each whitespace character is one space followed by a token character |
| `TextPreprocessing.Preprocess` | app.py:252-258 | the normalised text has no ASCII upper-case letter and no punctuation mark, and is single-spaced; its whitespace-split tokens are the tokens of the lower-cased, punctuation-free text with every stop word removed, each other token kept as often as it occurs, in the original order |
| `TextPreprocessing.PreprocessIdempotent` | app.py:252-258 | normalising the normalised text changes nothing |
| `TextPreprocessing.StopWordWithPunctuationIsInert` | app.py:253-257 | punctuation goes before stop words, so a stop word that contains a punctuation mark (such as "don't") never removes a token |
| `EmotionAnalysis.DominantLabel` | app.py:330 | a frame result without a dominant emotion reads as "neutral"; otherwise its dominant emotion is used |
| `EmotionAnalysis.Scanned` | app.py:311-317 | the frames the loop visits contain no unreadable frame |
| `EmotionAnalysis.ScannedAppend` | app.py:311-317 | the visited frames of `p + r` are those of `p` if `p` has an unreadable frame, else all of `p` followed by the visited frames of `r` |
| `EmotionAnalysis.ScanFrames` | app.py:307-336 | the frame loop fails exactly when a visited frame's resize raises; otherwise `frame_count` is the number of counted frames before the first unreadable one, and each of the four buckets is the number of those frames with that dominant emotion |
| `EmotionAnalysis.AnalyzeVideo` | app.py:292-354 | the result is 0.0 for an unopenable video, a failed resize or zero counted frames; otherwise it is the weighted sum 0.6 * happy + 0.4 * neutral of the bucket rates, as defined by `Confidence` |
| `EmotionAnalysis.HappyNeutralWithinFrameCount` | app.py:329-336 | the happy and neutral buckets together never exceed `frame_count` |
| `EmotionAnalysis.ConfidenceRange` | app.py:342-354 | the confidence score lies in [0, 0.6] |
| `EmotionAnalysis.PositiveConfidenceHasHappyOrNeutralFrame` | app.py:342-354 | a positive score needs an opened video, no failed resize and a visited frame labelled happy or neutral |
| `EmotionAnalysis.SkipZeroSizeFrame` | app.py:320-322 | a zero-size frame changes neither `frame_count` nor any bucket: the score is as if the frame were absent |
| `EmotionAnalysis.StopAtUnreadableFrame` | app.py:315-317 | the scan stops at the first unreadable frame: the frames after it do not affect the score |
| `EmotionAnalysis.MissingLabelCountsAsNeutral` | app.py:329-336 | a frame without a dominant emotion adds 1 to `frame_count` and to the neutral bucket, and to no other bucket |
| `EmotionAnalysis.UntrackedFrameCountsOnly` | app.py:327-336 | a frame whose analysis raises, or whose label is not one of the four keys, adds 1 to `frame_count` and nothing to any bucket |
| `EmotionAnalysis.UntrackedFrameNeverRaisesConfidence` | app.py:331-350 | such a frame can only lower the score |
| `Transcription.Transcribe` | app.py:356-393 | never fails: the result is the recogniser's text exactly when the audio decodes, is at -60 dBFS or louder and is recognised; for undecodable, quiet or silent audio, unrecognised speech, a failed service call and any other error it is "" |
| `Questions.ResumeFits` | app.py:282 | a resume fits exactly when its similarity is at least 0.8, the boundary included |
| `Questions.Strip` | app.py:289 | the result is a slice of the input with only whitespace cut from either end, and it neither starts nor ends with whitespace |
| `Questions.GenerateQuestions` | app.py:284-290 | exactly two questions: the stripped generator answer to the technical prompt, then the one to the non-technical prompt |
| `Questions.JoinLines` | app.py:179 | the joined string starts with the first question, and when there are two or more questions a '\n' follows it |
| `Questions.SplitLines` | app.py:192 | no piece contains '\n', and there is one piece more than there are newlines |
| `Questions.JoinSplitRoundTrip` | app.py:179-192 | splitting a non-empty newline-joined list on '\n' gives the list back if and only if no entry contains '\n' |
| `Questions.JoinedLineCount` | app.py:179-192 | the joined string holds at least one '\n' fewer than there are entries, exactly that many when no entry contains '\n', and splits into at least as many pieces as were joined |
| `Questions.StoredQuestionsReadBack` | app.py:177-192 | the two stored questions read back as at least two entries, and as exactly the two questions in order if and only if neither contains '\n' |
| `Interviews.Status` | app.py:228 | the status is "Hired" exactly when the final score is at least 0.5 (inclusive), "Not Hired" otherwise, and fits the 10-character column |
| `Interviews.FinalScore` | app.py:227 | the final score is a weighted average, so it lies between the confidence and the NLP score; with a confidence of at most 0.6, a score of 0.5 or more needs an NLP score of at least 13/30 |
| `Interviews.Evaluate` | app.py:210-228 | scoring fails exactly when the transcription is non-empty and the text scorer fails; an empty transcription gets an NLP score of 0.0, a non-empty one the scorer's value; the final score is `FinalScore` of the two and the status is `Status` of the final score |
| `Interviews.Answer` | app.py:194-249 | missing or empty video data fails first; an unknown id fails; the answer succeeds exactly when the video data is present, the id is known, and the transcription is empty or the scorer returns a value, and otherwise fails with a text-scoring error; on success the confidence is `Confidence`, the transcription is `Transcribe`, the NLP score is 0.0 for an empty transcription and the scorer's value on the stored job description otherwise, the final score is 0.4 * confidence + 0.6 * NLP score, and the status is "Hired" exactly when it is at least 0.5 |
| `Interviews.ScoreKeepsInvariant` | app.py:232-235 | writing an evaluation into a record keeps every record well formed: transcription, score and status are all set, and the status agrees with the score |
| `Interviews.InsertKeepsInvariant` | app.py:179-181 | a new record gets an id no record has, and the table stays well formed |
| `Interviews.InterviewTable.Home` | app.py:169-184 | below a fit similarity of 0.8 nothing is stored; at or above it, exactly one new record is added, under a fresh id, holding the job description and the two generated questions joined by '\n', with no transcription, score or status |
| `Interviews.InterviewTable.QuestionsPage` | app.py:188-192 | a 404 exactly for an unknown id; otherwise the stored questions split on '\n', at least two entries |
| `Interviews.InterviewTable.RecordAnswer` | app.py:194-249 | the result is `Answer`; on failure no record changes; on success only the transcription, score and status of the given record are overwritten, and its job description, its questions and every other record are unchanged |
| `Interviews.SilentAnswerIsNotHired` | app.py:211-228 | an empty transcription gives an NLP score of 0.0 and a final score of at most 0.24, so the status is always "Not Hired" |
| `Interviews.HireNeedsTextScore` | app.py:223-228 | a "Hired" status needs a non-empty transcription and an NLP score of at least 13/30 |

## Left out

- The GitHub OAuth login, its callback, user creation, `load_user` and logout
  (app.py:97-167, 395-400) are left out. They are HTTP and network plumbing.
  So are the `login_required` guards on the routes.
- Flask routing and template rendering are left out. So are the SQLAlchemy
  setup and its commits. The table is an in-memory map that is updated in one
  step. The ids of new records count up from 1, as SQLite assigns them when no
  row is ever deleted.
- Library calls are not modelled. Each is replaced by its outcome, passed in:
  - PyMuPDF's text extraction and spaCy's similarity become the fit similarity
    passed to `Home`.
  - FLAN-T5 becomes the function `generator`. The model treats it as
    deterministic.
  - OpenCV decoding and resizing and DeepFace become one `Frame` per loop turn.
  - pydub decoding and its dBFS measurement become `Audio`.
  - Google speech recognition becomes `Recognition`.
  - TF-IDF and cosine similarity become `scoreTranscription`, which may fail
    (for example on an empty vocabulary). Its range is not constrained,
    because the code never checks it.
- An exception raised inside `extract_text_from_pdf` or `check_resume_fit` is
  not modelled. It escapes `home` unhandled.
- An exception raised by the FLAN-T5 call in `generate_questions`
  (app.py:288) is not modelled. It escapes `home`, and no record is stored.
  The model's `generator` is total, so `Home` always stores a record for a
  fitting resume.
- Base64 decoding is not modelled separately. Its failure and `cap.isOpened()`
  being false are both the `Unopenable` video. The loop's own
  `cap.isOpened()` test is taken to stay true until the capture is released.
- The temporary files written under fixed names (`temp_video.webm`,
  `extracted_audio.wav`) are not modelled. Neither are the races they cause
  between concurrent requests. These are file I/O and concurrency.
- Logging and `print` output are left out.
- Scores are exact reals. IEEE-754 rounding of the weighted sums is not
  modelled, so the model makes no bit-exact claim at the 0.5 threshold.
- TextPreprocessing.LowerText: only ASCII letters are lower-cased.
  Python's `str.lower` also maps non-ASCII letters, and can lengthen a string.
- Questions.Strip and TextPreprocessing.Words split on the characters for
  which Python's `str.isspace` holds. The list is written out in
  `TextPreprocessing.IsSpace`.
