/** The text normaliser `preprocess_text`: ASCII lower-casing, removal of
    the 32 ASCII punctuation marks, splitting on runs of whitespace,
    stop-word removal and re-joining with single spaces. */
module TextPreprocessing {

  /** Python's `string.punctuation`: the 32 ASCII punctuation marks
      !"#$%&'()*+,-./ :;<=>?@ [\]^_` {|}~ */
  predicate IsPunctuation(c: char) {
    '!' <= c <= '/' || ':' <= c <= '@' || '[' <= c <= '`' || '{' <= c <= '~'
  }

  predicate IsUpper(c: char) {
    'A' <= c <= 'Z'
  }

  /** Python's `str.isspace`: the characters `str.split()` splits on. */
  predicate IsSpace(c: char) {
    || c == ' ' || '\t' <= c <= '\r' || '\U{1c}' <= c <= '\U{1f}'
    || c == '\U{85}' || c == '\U{a0}' || c == '\U{1680}' || '\U{2000}' <= c <= '\U{200a}'
    || c == '\U{2028}' || c == '\U{2029}' || c == '\U{202f}' || c == '\U{205f}' || c == '\U{3000}'
  }

  function Lower(c: char): (r: char)
    ensures !IsUpper(r)
    ensures !IsUpper(c) ==> r == c
    ensures IsPunctuation(r) <==> IsPunctuation(c)
    ensures IsSpace(r) <==> IsSpace(c)
  {
    if IsUpper(c) then (c as int + 32) as char else c
  }

  /** `text.lower()`, restricted to ASCII letters. */
  function LowerText(s: string): (r: string)
    ensures |r| == |s|
    ensures forall i :: 0 <= i < |s| ==> r[i] == Lower(s[i])
  {
    if s == [] then [] else [Lower(s[0])] + LowerText(s[1..])
  }

  /** `''.join([char for char in text if char not in string.punctuation])` */
  function StripPunctuation(s: string): (r: string)
    ensures forall c :: c in r ==> c in s && !IsPunctuation(c)
    ensures (forall c :: c in s ==> !IsPunctuation(c)) ==> r == s
    ensures SubsequenceOf(r, s)
    ensures forall c :: !IsPunctuation(c) ==> multiset(r)[c] == multiset(s)[c]
  {
    if s == [] then []
    else
      assert s == [s[0]] + s[1..];
      if IsPunctuation(s[0]) then StripPunctuation(s[1..])
      else [s[0]] + StripPunctuation(s[1..])
  }

  /** Length of the leading run of non-whitespace characters. */
  function TokenEnd(s: string): (n: nat)
    ensures n <= |s|
    ensures forall i :: 0 <= i < n ==> !IsSpace(s[i])
    ensures n < |s| ==> IsSpace(s[n])
  {
    if s == [] || IsSpace(s[0]) then 0 else 1 + TokenEnd(s[1..])
  }

  predicate IsToken(w: string) {
    w != [] && forall c :: c in w ==> !IsSpace(c)
  }

  /** `text.split()`: the maximal runs of non-whitespace characters. */
  function Words(s: string): (ws: seq<string>)
    ensures forall w :: w in ws ==> IsToken(w)
    ensures forall w, c :: w in ws && c in w ==> c in s
    decreases |s|
  {
    if s == [] then []
    else if IsSpace(s[0]) then Words(s[1..])
    else
      var n := TokenEnd(s);
      [s[..n]] + Words(s[n..])
  }

  /** `[word for word in tokens if word not in stop_words]` */
  function DropStopWords(ws: seq<string>, stopWords: set<string>): (r: seq<string>)
    ensures forall w :: w in r ==> w in ws && w !in stopWords
    ensures forall w :: multiset(r)[w] == if w in stopWords then 0 else multiset(ws)[w]
  {
    if ws == [] then []
    else
      assert ws == [ws[0]] + ws[1..];
      if ws[0] in stopWords then DropStopWords(ws[1..], stopWords)
      else [ws[0]] + DropStopWords(ws[1..], stopWords)
  }

  /** `' '.join(tokens)` */
  function JoinWords(ws: seq<string>): (r: string)
    ensures forall c :: c in r ==> c == ' ' || exists w :: w in ws && c in w
  {
    if ws == [] then []
    else if |ws| == 1 then ws[0]
    else ws[0] + " " + JoinWords(ws[1..])
  }

  /** The tokens `preprocess_text` keeps, in the order it keeps them. */
  function KeptTokens(text: string, stopWords: set<string>): seq<string> {
    DropStopWords(Words(StripPunctuation(LowerText(text))), stopWords)
  }

  /** `preprocess_text(text)` with NLTK's English stop-word list passed in.
      The result is clean and single-spaced, and its whitespace-split tokens
      are exactly the non-stop-word tokens of the lower-cased, punctuation-free
      text: each kept as often as it occurs there, in its original order. */
  function Preprocess(text: string, stopWords: set<string>): (r: string)
    ensures forall c :: c in r ==> !IsUpper(c) && !IsPunctuation(c)
    ensures SingleSpaced(r)
    ensures Words(r) == KeptTokens(text, stopWords)
    ensures SubsequenceOf(Words(r), Words(StripPunctuation(LowerText(text))))
    ensures forall w :: multiset(Words(r))[w] ==
              if w in stopWords then 0 else multiset(Words(StripPunctuation(LowerText(text))))[w]
  {
    var ts := KeptTokens(text, stopWords);
    WordsOfJoin(ts);
    JoinWordsSingleSpaced(ts);
    DropStopWordsKeepsOrder(Words(StripPunctuation(LowerText(text))), stopWords);
    KeptTextIsClean(text, stopWords);
    JoinWords(ts)
  }

  /** No leading or trailing whitespace, and every whitespace character is a
      single ' ' followed by a non-whitespace character. */
  predicate SingleSpaced(s: string) {
    && (s != [] ==> !IsSpace(s[0]) && !IsSpace(s[|s| - 1]))
    && forall i :: 0 <= i < |s| && IsSpace(s[i]) ==> s[i] == ' ' && i + 1 < |s| && !IsSpace(s[i + 1])
  }

  /** `xs` is `ys` with some elements deleted, the rest in their original order. */
  predicate SubsequenceOf<T(==)>(xs: seq<T>, ys: seq<T>)
    decreases |ys|
  {
    if xs == [] then true
    else if ys == [] then false
    else if xs[0] == ys[0] then SubsequenceOf(xs[1..], ys[1..])
    else SubsequenceOf(xs, ys[1..])
  }

  /** Stop-word removal deletes exactly the stop words and keeps the order of the rest. */
  lemma {:induction false} DropStopWordsKeepsOrder(ws: seq<string>, stopWords: set<string>)
    ensures SubsequenceOf(DropStopWords(ws, stopWords), ws)
    ensures forall w :: w in ws && w !in stopWords ==> w in DropStopWords(ws, stopWords)
    ensures forall w :: multiset(DropStopWords(ws, stopWords))[w] == if w in stopWords then 0 else multiset(ws)[w]
  {
    if ws != [] {
      DropStopWordsKeepsOrder(ws[1..], stopWords);
      var r := DropStopWords(ws, stopWords);
      if ws[0] !in stopWords {
        assert r[0] == ws[0] && r[1..] == DropStopWords(ws[1..], stopWords);
      }
      forall w | w in ws && w !in stopWords ensures w in r {
        if w != ws[0] { assert w in ws[1..]; }
      }
    }
  }

  lemma {:induction false} TokenEndOfToken(t: string, rest: string)
    requires IsToken(t) || t == []
    requires rest == [] || IsSpace(rest[0])
    ensures TokenEnd(t + rest) == |t|
  {
    if t != [] {
      assert (t + rest)[1..] == t[1..] + rest;
      assert t[0] in t;
      if t[1..] != [] {
        forall c | c in t[1..] ensures !IsSpace(c) { assert c in t; }
      }
      TokenEndOfToken(t[1..], rest);
    }
  }

  /** Splitting a single-space join of tokens on whitespace gives the tokens back. */
  lemma {:induction false} WordsOfJoin(ts: seq<string>)
    requires forall w :: w in ts ==> IsToken(w)
    ensures Words(JoinWords(ts)) == ts
  {
    if |ts| == 1 {
      var t := ts[0];
      assert t in ts;
      TokenEndOfToken(t, []);
      assert t + [] == t;
      assert t[..|t|] == t && t[|t|..] == [];
    } else if |ts| > 1 {
      var t, rest := ts[0], JoinWords(ts[1..]);
      assert t in ts;
      var s := t + " " + rest;
      assert s == t + (" " + rest);
      TokenEndOfToken(t, " " + rest);
      assert s[..|t|] == t;
      assert s[|t|..] == " " + rest;
      assert (" " + rest)[1..] == rest;
      assert Words(" " + rest) == Words(rest);
      WordsOfJoin(ts[1..]);
      assert ts == [t] + ts[1..];
    }
  }

  lemma {:induction false} JoinWordsSingleSpaced(ts: seq<string>)
    requires forall w :: w in ts ==> IsToken(w)
    ensures SingleSpaced(JoinWords(ts))
    ensures ts != [] ==> JoinWords(ts) != []
  {
    if |ts| == 1 {
      assert ts[0] in ts;
    } else if |ts| > 1 {
      var t, rest := ts[0], JoinWords(ts[1..]);
      assert t in ts;
      JoinWordsSingleSpaced(ts[1..]);
      var s := t + " " + rest;
      assert rest != [];
      forall k | 0 <= k < |t| ensures !IsSpace(s[k]) {
        assert s[k] == t[k] && t[k] in t;
      }
      forall i | 0 <= i < |s| && IsSpace(s[i])
        ensures s[i] == ' ' && i + 1 < |s| && !IsSpace(s[i + 1])
      {
        if i > |t| {
          assert s[i] == rest[i - |t| - 1];
          assert s[i + 1] == rest[i - |t|];
        }
      }
      assert s[0] == t[0] && t[0] in t;
      assert s[|s| - 1] == rest[|rest| - 1];
    }
  }

  /** The single-space join of the kept tokens holds no ASCII upper-case
      letter and no punctuation mark. */
  lemma KeptTextIsClean(text: string, stopWords: set<string>)
    ensures forall c :: c in JoinWords(KeptTokens(text, stopWords)) ==> !IsUpper(c) && !IsPunctuation(c)
  {
    var lowered := LowerText(text);
    var stripped := StripPunctuation(lowered);
    var ts := KeptTokens(text, stopWords);
    forall c | c in JoinWords(ts) ensures !IsUpper(c) && !IsPunctuation(c) {
      if c != ' ' {
        var w :| w in ts && c in w;
        assert c in stripped;
        assert c in lowered;
        var i :| 0 <= i < |lowered| && lowered[i] == c;
      }
    }
  }

  lemma {:induction false} LowerTextOfLower(s: string)
    requires forall c :: c in s ==> !IsUpper(c)
    ensures LowerText(s) == s
  {
    forall i | 0 <= i < |s| ensures LowerText(s)[i] == s[i] {
      assert s[i] in s;
    }
  }

  lemma {:induction false} DropStopWordsOfClean(ws: seq<string>, stopWords: set<string>)
    requires forall w :: w in ws ==> w !in stopWords
    ensures DropStopWords(ws, stopWords) == ws
  {
    if ws != [] {
      assert ws[0] in ws;
      DropStopWordsOfClean(ws[1..], stopWords);
      assert ws == [ws[0]] + ws[1..];
    }
  }

  /** Applying `preprocess_text` twice gives the same result as applying it once. */
  lemma PreprocessIdempotent(text: string, stopWords: set<string>)
    ensures Preprocess(Preprocess(text, stopWords), stopWords) == Preprocess(text, stopWords)
  {
    var r := Preprocess(text, stopWords);
    var ts := KeptTokens(text, stopWords);
    LowerTextOfLower(r);
    assert StripPunctuation(LowerText(r)) == r;
    DropStopWordsOfClean(ts, stopWords);
  }

  lemma {:induction false} DropStopWordsAgree(ws: seq<string>, s1: set<string>, s2: set<string>)
    requires forall w :: w in ws ==> (w in s1 <==> w in s2)
    ensures DropStopWords(ws, s1) == DropStopWords(ws, s2)
  {
    if ws != [] {
      assert ws[0] in ws;
      DropStopWordsAgree(ws[1..], s1, s2);
    }
  }

  /** Punctuation is removed before stop words are, so a stop word that
      contains a punctuation mark (NLTK's "don't", "it's", ...) never
      removes anything. */
  lemma StopWordWithPunctuationIsInert(text: string, stopWords: set<string>, w: string, i: nat)
    requires i < |w| && IsPunctuation(w[i])
    ensures Preprocess(text, stopWords) == Preprocess(text, stopWords - {w})
  {
    var ws := Words(StripPunctuation(LowerText(text)));
    assert w[i] in w;
    assert w !in ws;
    DropStopWordsAgree(ws, stopWords, stopWords - {w});
  }

  /** Whitespace trimmed from both ends and every inner run of whitespace
      replaced by one ' ', computed one character at a time: `pending` says
      whitespace has been seen since the last character written, `started`
      says some character has been written. */
  function CollapseFrom(s: string, pending: bool, started: bool): string
    decreases |s|
  {
    if s == [] then []
    else if IsSpace(s[0]) then CollapseFrom(s[1..], started, started)
    else (if pending then " " else "") + [s[0]] + CollapseFrom(s[1..], false, true)
  }

  function Collapse(s: string): string {
    CollapseFrom(s, false, false)
  }

  lemma {:induction false} CollapseThroughToken(t: string, rest: string, pending: bool, started: bool)
    requires IsToken(t)
    ensures CollapseFrom(t + rest, pending, started)
         == (if pending then " " else "") + t + CollapseFrom(rest, false, true)
    decreases |t|
  {
    assert t[0] in t;
    assert (t + rest)[1..] == t[1..] + rest;
    if |t| > 1 {
      forall c | c in t[1..] ensures !IsSpace(c) { assert c in t; }
      CollapseThroughToken(t[1..], rest, false, true);
      assert t == [t[0]] + t[1..];
    } else {
      assert t == [t[0]];
    }
  }

  lemma JoinWordsCons(t: string, ws: seq<string>)
    ensures JoinWords([t] + ws) == t + if ws == [] then [] else " " + JoinWords(ws)
  {
    assert ([t] + ws)[1..] == ws;
  }

  lemma {:induction false} WordsCollapseFrom(s: string)
    ensures JoinWords(Words(s)) == CollapseFrom(s, false, false)
    ensures CollapseFrom(s, true, true) == if Words(s) == [] then [] else " " + JoinWords(Words(s))
    decreases |s|
  {
    if s != [] {
      if IsSpace(s[0]) {
        WordsCollapseFrom(s[1..]);
      } else {
        var n := TokenEnd(s);
        var t, rest := s[..n], s[n..];
        assert s == t + rest;
        forall c | c in t ensures !IsSpace(c) { var i :| 0 <= i < n && t[i] == c; }
        assert Words(s) == [t] + Words(rest);
        var tail := CollapseFrom(rest, false, true);
        CollapseThroughToken(t, rest, false, false);
        CollapseThroughToken(t, rest, true, true);
        WordsCollapseFrom(rest);
        assert tail == CollapseFrom(rest, true, true);
        JoinWordsCons(t, Words(rest));
      }
    }
  }

  /** `' '.join(text.split())` trims the text and collapses every run of
      whitespace to a single space. */
  lemma WordsAreCollapsedText(s: string)
    ensures JoinWords(Words(s)) == Collapse(s)
  {
    WordsCollapseFrom(s);
  }

  /** `text.split()` is the only list of tokens whose single-space join is
      the collapsed text: so it is exactly the maximal non-whitespace runs
      of the text, in order. */
  lemma WordsUnique(s: string, ws: seq<string>)
    requires forall w :: w in ws ==> IsToken(w)
    requires JoinWords(ws) == Collapse(s)
    ensures ws == Words(s)
  {
    WordsOfJoin(ws);
    WordsAreCollapsedText(s);
    WordsOfJoin(Words(s));
  }
}
