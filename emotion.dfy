/** The confidence score of `analyze_video`: a scan over decoded frames that
    counts frames and dominant emotions, then a normalisation of the four
    buckets and a weighted sum. OpenCV decoding and DeepFace are abstracted
    into one outcome per frame. */
module EmotionAnalysis {
  import opened Wrappers

  /** What one turn of the frame loop meets. */
  datatype Frame =
    | Unreadable                         // `cap.read()` gave no frame: the scan stops
    | ZeroSize                           // `frame.size == 0`: skipped
    | ResizeFailed                       // `cv2.resize` raised: the whole analysis gives 0.0
    | AnalysisFailed                     // DeepFace raised: caught, the frame still counts
    | Analysed(dominant: Option<string>) // DeepFace's `dominant_emotion`, if present

  /** The decoded video: it could not be opened (or decoded), or it yields frames. */
  datatype Video = Unopenable | Opened(frames: seq<Frame>)

  /** The keys of `emotion_scores`, in insertion order. */
  const Tracked: seq<string> := ["happy", "neutral", "angry", "surprise"]

  /** `result.get('dominant_emotion', 'neutral')` */
  function DominantLabel(dominant: Option<string>): (name: string)
    ensures dominant.None? ==> name == "neutral"
    ensures dominant.Some? ==> name == dominant.value
  {
    match dominant
    case Some(name) => name
    case None => "neutral"
  }

  /** The frames the loop visits: those before the first unreadable one. */
  function Scanned(frames: seq<Frame>): (s: seq<Frame>)
    ensures Unreadable !in s
  {
    if frames == [] || frames[0].Unreadable? then []
    else [frames[0]] + Scanned(frames[1..])
  }

  /** A frame that increments `frame_count`. */
  predicate Counted(f: Frame) {
    f.AnalysisFailed? || f.Analysed?
  }

  /** `frame_count` after the loop has visited `s`. */
  function FrameCount(s: seq<Frame>): nat {
    if s == [] then 0
    else FrameCount(s[..|s| - 1]) + (if Counted(s[|s| - 1]) then 1 else 0)
  }

  /** How many visited frames had `emotion` as their dominant emotion. */
  function Votes(s: seq<Frame>, emotion: string): nat {
    if s == [] then 0
    else
      var f := s[|s| - 1];
      Votes(s[..|s| - 1], emotion) + (if f.Analysed? && DominantLabel(f.dominant) == emotion then 1 else 0)
  }

  /** The value `analyze_video` returns once the loop has visited `s`. */
  function ScanScore(s: seq<Frame>): real {
    if ResizeFailed in s || FrameCount(s) == 0 then 0.0
    else (0.6 * Votes(s, "happy") as real + 0.4 * Votes(s, "neutral") as real) / FrameCount(s) as real
  }

  /** The value `analyze_video` returns. */
  function Confidence(video: Video): real {
    match video
    case Unopenable => 0.0
    case Opened(frames) => ScanScore(Scanned(frames))
  }

  function Max(a: int, b: int): int {
    if a < b then b else a
  }

  lemma {:induction false} ScannedAppend(p: seq<Frame>, r: seq<Frame>)
    ensures Scanned(p + r) == if Unreadable in p then Scanned(p) else p + Scanned(r)
  {
    if p == [] {
      assert p + r == r;
    } else {
      assert (p + r)[0] == p[0] && (p + r)[1..] == p[1..] + r;
      ScannedAppend(p[1..], r);
      assert p == [p[0]] + p[1..];
    }
  }

  /** The loop runs over `frames[..i]` and then stops at `i`. */
  lemma ScannedUpTo(frames: seq<Frame>, i: nat)
    requires i <= |frames| && Unreadable !in frames[..i]
    requires i < |frames| ==> frames[i].Unreadable?
    ensures Scanned(frames) == frames[..i]
  {
    ScannedAppend(frames[..i], frames[i..]);
    assert frames == frames[..i] + frames[i..];
  }

  /** The `while cap.isOpened()` loop of `analyze_video`: it returns whether
      a frame made the analysis raise, `frame_count`, and `emotion_scores`
      as raw counts. */
  method ScanFrames(frames: seq<Frame>) returns (aborted: bool, frameCount: nat, emotionScores: map<string, real>)
    ensures aborted <==> ResizeFailed in Scanned(frames)
    ensures !aborted ==> frameCount == FrameCount(Scanned(frames))
    ensures !aborted ==> emotionScores.Keys == set e | e in Tracked
    ensures !aborted ==> forall e :: e in emotionScores ==> emotionScores[e] == Votes(Scanned(frames), e) as real
  {
    frameCount := 0;
    emotionScores := map["happy" := 0.0, "neutral" := 0.0, "angry" := 0.0, "surprise" := 0.0];
    var i := 0;
    while i < |frames|
      invariant 0 <= i <= |frames|
      invariant Unreadable !in frames[..i] && ResizeFailed !in frames[..i]
      invariant frameCount == FrameCount(frames[..i])
      invariant emotionScores.Keys == set e | e in Tracked
      invariant forall e :: e in emotionScores ==> emotionScores[e] == Votes(frames[..i], e) as real
    {
      var frame := frames[i];
      assert frames[..i + 1] == frames[..i] + [frame];
      if frame.Unreadable? {
        break;
      }
      if frame.ZeroSize? {
        i := i + 1;
        continue;
      }
      if frame.ResizeFailed? {
        ScannedAppend(frames[..i + 1], frames[i + 1..]);
        assert frames == frames[..i + 1] + frames[i + 1..];
        return true, frameCount, emotionScores;
      }
      if frame.Analysed? {
        var emotion := DominantLabel(frame.dominant);
        if emotion in emotionScores {
          emotionScores := emotionScores[emotion := emotionScores[emotion] + 1.0];
        }
      }
      frameCount := frameCount + 1;
      i := i + 1;
    }
    ScannedUpTo(frames, i);
    aborted := false;
  }

  lemma TrackedDistinct()
    ensures forall i, j :: 0 <= i < j < |Tracked| ==> Tracked[i] != Tracked[j]
  {
  }

  lemma WeightedRates(happy: real, neutral: real, count: real)
    requires count > 0.0
    ensures 0.6 * (happy / count) + 0.4 * (neutral / count) == (0.6 * happy + 0.4 * neutral) / count
  {
  }

  /** `analyze_video`, from the frames OpenCV yields. */
  method AnalyzeVideo(video: Video) returns (confidence: real)
    ensures confidence == Confidence(video)
  {
    if video.Unopenable? {
      return 0.0;
    }
    var aborted, frameCount, emotionScores := ScanFrames(video.frames);
    ghost var s := Scanned(video.frames);
    if aborted || frameCount == 0 {
      return 0.0;
    }
    TrackedDistinct();
    ghost var counts := emotionScores;
    for k := 0 to |Tracked|
      invariant emotionScores.Keys == counts.Keys
      invariant forall j :: 0 <= j < k ==> emotionScores[Tracked[j]] == counts[Tracked[j]] / frameCount as real
      invariant forall j :: k <= j < |Tracked| ==> emotionScores[Tracked[j]] == counts[Tracked[j]]
    {
      var emotion := Tracked[k];
      emotionScores := emotionScores[emotion := emotionScores[emotion] / Max(frameCount, 1) as real];
    }
    assert Tracked[0] == "happy" && Tracked[1] == "neutral";
    confidence := 0.6 * emotionScores["happy"] + 0.4 * emotionScores["neutral"];
    WeightedRates(counts["happy"], counts["neutral"], frameCount as real);
  }

  lemma {:induction false} FrameCountAppend(a: seq<Frame>, b: seq<Frame>)
    ensures FrameCount(a + b) == FrameCount(a) + FrameCount(b)
    ensures forall e :: Votes(a + b, e) == Votes(a, e) + Votes(b, e)
    decreases |b|
  {
    if b == [] {
      assert a + b == a;
    } else {
      var b' := b[..|b| - 1];
      assert (a + b)[..|a + b| - 1] == a + b';
      FrameCountAppend(a, b');
    }
  }

  /** Every counted frame has at most one dominant emotion, so the happy and
      neutral buckets together never exceed `frame_count`. */
  lemma {:induction false} HappyNeutralWithinFrameCount(s: seq<Frame>)
    ensures Votes(s, "happy") + Votes(s, "neutral") <= FrameCount(s)
  {
    if s != [] {
      HappyNeutralWithinFrameCount(s[..|s| - 1]);
    }
  }

  lemma DivideWithin(x: real, bound: real, c: real)
    requires c > 0.0 && 0.0 <= x <= bound * c
    ensures 0.0 <= x / c <= bound
  {
    var q := x / c;
    assert q * c == x;
    if q > bound {
      assert q * c > bound * c;
    }
  }

  /** The confidence `analyze_video` returns lies in [0, 0.6]. */
  lemma ConfidenceRange(video: Video)
    ensures 0.0 <= Confidence(video) <= 0.6
  {
    if video.Opened? {
      var s := Scanned(video.frames);
      if ResizeFailed !in s && FrameCount(s) != 0 {
        HappyNeutralWithinFrameCount(s);
        var h, n, c := Votes(s, "happy") as real, Votes(s, "neutral") as real, FrameCount(s) as real;
        DivideWithin(0.6 * h + 0.4 * n, 0.6, c);
      }
    }
  }

  lemma {:induction false} SomeVote(s: seq<Frame>, emotion: string)
    requires Votes(s, emotion) > 0
    ensures exists i :: 0 <= i < |s| && s[i].Analysed? && DominantLabel(s[i].dominant) == emotion
  {
    var f := s[|s| - 1];
    if !(f.Analysed? && DominantLabel(f.dominant) == emotion) {
      SomeVote(s[..|s| - 1], emotion);
      var i :| 0 <= i < |s| - 1 && s[..|s| - 1][i].Analysed? && DominantLabel(s[..|s| - 1][i].dominant) == emotion;
      assert s[i] == s[..|s| - 1][i];
    }
  }

  lemma PositiveScoreHasVotes(s: seq<Frame>)
    ensures ScanScore(s) > 0.0 ==> Votes(s, "happy") > 0 || Votes(s, "neutral") > 0
  {
    if Votes(s, "happy") == 0 && Votes(s, "neutral") == 0 {
      assert 0.6 * Votes(s, "happy") as real + 0.4 * Votes(s, "neutral") as real == 0.0;
    }
  }

  /** A positive confidence needs an opened video whose scan hit no failed
      resize and saw at least one happy or neutral frame. */
  lemma PositiveConfidenceHasHappyOrNeutralFrame(video: Video)
    requires Confidence(video) > 0.0
    ensures video.Opened? && ResizeFailed !in Scanned(video.frames)
    ensures exists i :: (0 <= i < |Scanned(video.frames)| && Scanned(video.frames)[i].Analysed? &&
                         DominantLabel(Scanned(video.frames)[i].dominant) in {"happy", "neutral"})
  {
    var s := Scanned(video.frames);
    PositiveScoreHasVotes(s);
    if Votes(s, "happy") > 0 {
      SomeVote(s, "happy");
    } else {
      SomeVote(s, "neutral");
    }
  }

  lemma ZeroSizeCountsNothing(a: seq<Frame>, b: seq<Frame>)
    ensures FrameCount(a + [ZeroSize] + b) == FrameCount(a + b)
    ensures forall e :: Votes(a + [ZeroSize] + b, e) == Votes(a + b, e)
    ensures ResizeFailed in a + [ZeroSize] + b <==> ResizeFailed in a + b
  {
    FrameCountAppend(a + [ZeroSize], b);
    FrameCountAppend(a, [ZeroSize]);
    FrameCountAppend(a, b);
    assert [ZeroSize][..0] == [];
  }

  lemma ScannedAroundZeroSize(p: seq<Frame>, q: seq<Frame>)
    ensures Unreadable in p ==> Scanned(p + [ZeroSize] + q) == Scanned(p + q)
    ensures Unreadable !in p ==>
              Scanned(p + [ZeroSize] + q) == p + [ZeroSize] + Scanned(q) && Scanned(p + q) == p + Scanned(q)
  {
    assert p + [ZeroSize] + q == p + ([ZeroSize] + q);
    ScannedAppend(p, [ZeroSize] + q);
    ScannedAppend(p, q);
    assert ([ZeroSize] + q)[1..] == q;
    assert Scanned([ZeroSize] + q) == [ZeroSize] + Scanned(q);
  }

  lemma SameCountsSameScore(a: seq<Frame>, b: seq<Frame>)
    requires FrameCount(a) == FrameCount(b)
    requires Votes(a, "happy") == Votes(b, "happy") && Votes(a, "neutral") == Votes(b, "neutral")
    requires ResizeFailed in a <==> ResizeFailed in b
    ensures ScanScore(a) == ScanScore(b)
  {
  }

  /** A zero-size frame changes nothing: the result is as if it were absent. */
  lemma SkipZeroSizeFrame(p: seq<Frame>, q: seq<Frame>)
    ensures Confidence(Opened(p + [ZeroSize] + q)) == Confidence(Opened(p + q))
  {
    ScannedAroundZeroSize(p, q);
    if Unreadable !in p {
      ZeroSizeCountsNothing(p, Scanned(q));
      SameCountsSameScore(p + [ZeroSize] + Scanned(q), p + Scanned(q));
    }
  }

  /** The scan stops at the first unreadable frame: what follows is ignored. */
  lemma StopAtUnreadableFrame(p: seq<Frame>, q: seq<Frame>)
    ensures Confidence(Opened(p + [Unreadable] + q)) == Confidence(Opened(p))
  {
    assert p + [Unreadable] + q == p + ([Unreadable] + q);
    ScannedAppend(p, [Unreadable] + q);
    ScannedAppend(p, []);
    assert p + [] == p;
  }

  /** A frame with no dominant emotion is counted as neutral. */
  lemma MissingLabelCountsAsNeutral(s: seq<Frame>)
    ensures FrameCount(s + [Analysed(None)]) == FrameCount(s) + 1
    ensures Votes(s + [Analysed(None)], "neutral") == Votes(s, "neutral") + 1
    ensures forall e :: e != "neutral" ==> Votes(s + [Analysed(None)], e) == Votes(s, e)
  {
    assert (s + [Analysed(None)])[..|s|] == s;
  }

  /** A frame whose analysis raised, or whose label is not one of the four
      keys, increments `frame_count` and no bucket. */
  lemma UntrackedFrameCountsOnly(s: seq<Frame>, f: Frame)
    requires f.AnalysisFailed? || (f.Analysed? && DominantLabel(f.dominant) !in Tracked)
    ensures FrameCount(s + [f]) == FrameCount(s) + 1
    ensures forall e :: e in Tracked ==> Votes(s + [f], e) == Votes(s, e)
  {
    assert (s + [f])[..|s|] == s;
  }

  lemma DivideByMore(x: real, c: real)
    requires x >= 0.0 && c > 0.0
    ensures x / (c + 1.0) <= x / c
  {
    var a, b := x / (c + 1.0), x / c;
    assert a * (c + 1.0) == x && b * c == x;
    assert a >= 0.0;
    assert a * c <= b * c;
  }

  lemma ScanScoreUntracked(s: seq<Frame>, f: Frame)
    requires f.AnalysisFailed? || (f.Analysed? && DominantLabel(f.dominant) !in Tracked)
    ensures ScanScore(s + [f]) <= ScanScore(s)
  {
    UntrackedFrameCountsOnly(s, f);
    HappyNeutralWithinFrameCount(s);
    assert Tracked[0] == "happy" && Tracked[1] == "neutral";
    var h, n := Votes(s, "happy") as real, Votes(s, "neutral") as real;
    assert ResizeFailed in s + [f] <==> ResizeFailed in s;
    if ResizeFailed !in s && FrameCount(s) > 0 {
      DivideByMore(0.6 * h + 0.4 * n, FrameCount(s) as real);
    }
  }

  /** Such a frame can only lower the confidence: it grows the denominator
      and no numerator. */
  lemma UntrackedFrameNeverRaisesConfidence(p: seq<Frame>, f: Frame)
    requires f.AnalysisFailed? || (f.Analysed? && DominantLabel(f.dominant) !in Tracked)
    ensures Confidence(Opened(p + [f])) <= Confidence(Opened(p))
  {
    ScannedAppend(p, [f]);
    if Unreadable !in p {
      ScannedAppend(p, []);
      assert p + [] == p;
      assert [f][1..] == [];
      assert Scanned([f]) == [f];
      ScanScoreUntracked(p, f);
    }
  }
}
