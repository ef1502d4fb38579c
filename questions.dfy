/** Question generation and storage: `generate_questions` asks the text
    generator for one technical and one non-technical question, `home`
    stores them as one newline-joined string, and `questions` splits it on
    '\n'. The generator is a parameter; `check_resume_fit` is its threshold
    on an abstract similarity. */
module Questions {
  import TextPreprocessing

  /** `check_resume_fit` admits a resume whose similarity is at least 0.8. */
  const FitThreshold: real := 0.8

  /** `check_resume_fit`: the boundary similarity 0.8 itself fits. */
  predicate ResumeFits(similarity: real): (fits: bool)
    ensures fits <==> similarity >= 0.8
  {
    similarity >= FitThreshold
  }

  /** The categories `generate_questions` asks for, in order. */
  const QuestionTypes: seq<string> := ["technical", "non-technical"]

  function Prompt(questionType: string, description: string): string {
    "Generate one " + questionType + " question for: " + description
  }

  function StripStart(s: string): (r: string)
    ensures |r| <= |s| && r == s[|s| - |r|..]
    ensures forall i :: 0 <= i < |s| - |r| ==> TextPreprocessing.IsSpace(s[i])
    ensures r != [] ==> !TextPreprocessing.IsSpace(r[0])
  {
    if s != [] && TextPreprocessing.IsSpace(s[0]) then StripStart(s[1..]) else s
  }

  function StripEnd(s: string): (r: string)
    ensures |r| <= |s| && r == s[..|r|]
    ensures forall i :: |r| <= i < |s| ==> TextPreprocessing.IsSpace(s[i])
    ensures r != [] ==> !TextPreprocessing.IsSpace(r[|r| - 1])
  {
    if s != [] && TextPreprocessing.IsSpace(s[|s| - 1]) then StripEnd(s[..|s| - 1]) else s
  }

  /** Python's `str.strip()`: the slice of `s` left after removing its
      leading and trailing whitespace. */
  function Strip(s: string): (r: string)
    ensures r != [] ==> !TextPreprocessing.IsSpace(r[0]) && !TextPreprocessing.IsSpace(r[|r| - 1])
    ensures exists i, j :: 0 <= i <= j <= |s| && r == s[i..j] &&
                           (forall k :: 0 <= k < i ==> TextPreprocessing.IsSpace(s[k])) &&
                           (forall k :: j <= k < |s| ==> TextPreprocessing.IsSpace(s[k]))
  {
    var t := StripStart(s);
    var r := StripEnd(t);
    var i := |s| - |t|;
    assert r == s[i..i + |r|];
    r
  }

  /** The question `generate_questions` keeps for one category. */
  function Generated(questionType: string, description: string, generator: string -> string): string {
    Strip(generator(Prompt(questionType, description)))
  }

  /** `generate_questions`: one stripped generator answer per category, in order. */
  method GenerateQuestions(description: string, generator: string -> string) returns (questions: seq<string>)
    ensures |questions| == 2
    ensures questions[0] == Generated("technical", description, generator)
    ensures questions[1] == Generated("non-technical", description, generator)
  {
    questions := [];
    for k := 0 to |QuestionTypes|
      invariant |questions| == k
      invariant forall j :: 0 <= j < k ==> questions[j] == Generated(QuestionTypes[j], description, generator)
    {
      var result := generator(Prompt(QuestionTypes[k], description));
      questions := questions + [Strip(result)];
    }
  }

  /** `"\n".join(questions)` */
  function JoinLines(qs: seq<string>): (r: string)
    ensures qs != [] ==> qs[0] <= r
    ensures |qs| >= 2 ==> |r| > |qs[0]| && r[|qs[0]|] == '\n'
  {
    if qs == [] then []
    else if |qs| == 1 then qs[0]
    else qs[0] + "\n" + JoinLines(qs[1..])
  }

  function FirstNewline(s: string): (i: nat)
    requires '\n' in s
    ensures i < |s| && s[i] == '\n' && '\n' !in s[..i]
  {
    if s[0] == '\n' then 0
    else
      assert '\n' in s[1..] by { assert s == [s[0]] + s[1..]; }
      1 + FirstNewline(s[1..])
  }

  /** `s.split('\n')`: the pieces between newlines, empty ones included;
      there is one more piece than there are newlines. */
  function SplitLines(s: string): (parts: seq<string>)
    ensures forall p :: p in parts ==> '\n' !in p
    ensures |parts| == multiset(s)['\n'] + 1
    decreases |s|
  {
    if '\n' in s then
      var i := FirstNewline(s);
      assert s == s[..i] + [s[i]] + s[i + 1..];
      [s[..i]] + SplitLines(s[i + 1..])
    else [s]
  }

  lemma SplitAfterLine(a: string, b: string)
    requires '\n' !in a
    ensures SplitLines(a + "\n" + b) == [a] + SplitLines(b)
  {
    var s := a + "\n" + b;
    assert s[|a|] == '\n';
    var i := FirstNewline(s);
    assert s[..i] == a && s[i + 1..] == b;
  }

  /** Splitting the joined questions on '\n' gives the same list back exactly
      when no question contains '\n'. */
  lemma {:induction false} JoinSplitRoundTrip(qs: seq<string>)
    requires qs != []
    ensures SplitLines(JoinLines(qs)) == qs <==> forall q :: q in qs ==> '\n' !in q
  {
    if forall q :: q in qs ==> '\n' !in q {
      if |qs| > 1 {
        assert qs[0] in qs;
        JoinSplitRoundTrip(qs[1..]);
        SplitAfterLine(qs[0], JoinLines(qs[1..]));
        assert qs == [qs[0]] + qs[1..];
      }
    }
  }

  /** The stored string never splits into fewer pieces than were joined. */
  lemma {:induction false} JoinedLineCount(qs: seq<string>)
    requires qs != []
    ensures multiset(JoinLines(qs))['\n'] >= |qs| - 1
    ensures (forall q :: q in qs ==> '\n' !in q) ==> multiset(JoinLines(qs))['\n'] == |qs| - 1
    ensures |SplitLines(JoinLines(qs))| >= |qs|
  {
    assert qs[0] in qs;
    if |qs| > 1 {
      JoinedLineCount(qs[1..]);
      assert forall q :: q in qs[1..] ==> q in qs;
      assert JoinLines(qs) == qs[0] + "\n" + JoinLines(qs[1..]);
    }
  }

  /** What `home` stores for the two generated questions and what
      `questions` reads back: at least two entries, and exactly the two
      questions, in order, when neither contains a newline. */
  lemma StoredQuestionsReadBack(technical: string, nonTechnical: string)
    ensures |SplitLines(JoinLines([technical, nonTechnical]))| >= 2
    ensures SplitLines(JoinLines([technical, nonTechnical])) == [technical, nonTechnical] <==>
              '\n' !in technical && '\n' !in nonTechnical
  {
    JoinedLineCount([technical, nonTechnical]);
    JoinSplitRoundTrip([technical, nonTechnical]);
  }
}
