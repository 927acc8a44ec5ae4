/**
 The snippet extractor (`SnippetProcessor.description`): the body is split
 into sentences and words, every word equal (after normalisation) to a query
 token is a hit, the sentence with most hits anchors the snippet, and words
 are emitted around it under a budget of 305 UTF-16 code units, hits wrapped
 in `*`.

 Two behaviours are modelled as written. A body made only of ASCII
 characters is replaced by a single space before it is split, so it yields
 the one sentence `" ."`. And the conditions that would drop the closing
 `"[...]"` compare a sentence index with the number of sentences, which it
 never reaches, so every snippet ends with `"[...]"`.

 `normalize` (lowercasing plus the removal of a character class) is a
 parameter.
 */
module Snippet {
  import opened Seqs
  import opened JavaStrings

  // ---------------------------------------------------------------------------
  // Sentences and words (SnippetProcessor.java:101-134)

  /** `replaceAll("^\\p{ASCII}*$", " ")`. Without MULTILINE, `$` also
      matches before a final line terminator, so ASCII text followed by one
      of the non-ASCII terminators U+0085, U+2028 or U+2029 keeps only that
      terminator. */
  function AsciiCollapse(text: string): (r: string)
    ensures AllAscii(text) ==> r == " "
  {
    if AllAscii(text) then " "
    else if |text| > 0 && IsWideTerminator(text[|text| - 1]) && AllAscii(text[..|text| - 1]) then
      " " + [text[|text| - 1]]
    else text
  }

  predicate IsWideTerminator(c: char)
  {
    c == '\U{0085}' || c == '\U{2028}' || c == '\U{2029}'
  }

  /** The class `[,\\.\\?\\!]`. */
  predicate IsSentenceMark(c: char)
  {
    c == ',' || c == '.' || c == '?' || c == '!'
  }

  /** The text `tokenizeSentence` splits: ASCII collapse, the mis-decoded
      apostrophe `â€™` turned into `'`, and double spaces halved. */
  function SentenceText(text: string): string
  {
    ReplaceAll(ReplaceAll(AsciiCollapse(text), "â€™", "'"), "  ", " ")
  }

  function WithPeriods(fs: seq<string>): (r: seq<string>)
    ensures |r| == |fs|
    ensures forall k | 0 <= k < |fs| :: r[k] == fs[k] + "."
  {
    seq(|fs|, k requires 0 <= k < |fs| => fs[k] + ".")
  }

  /** `tokenizeSentence`: the non-empty pieces between sentence marks, each
      with a period appended. */
  function TokenizeSentence(text: string): (sentences: seq<string>)
    ensures forall k | 0 <= k < |sentences| ::
      |sentences[k]| >= 2 && sentences[k][|sentences[k]| - 1] == '.'
  {
    var kept := NonEmpty(JavaSplit(SentenceText(text), IsSentenceMark, false));
    WithPeriods(kept)
  }

  /** The sentences, periods removed, are the words of the text between
      sentence marks: every piece is non-empty and free of marks. */
  lemma TokenizeSentenceContent(text: string)
    ensures |TokenizeSentence(text)| == |Words(SentenceText(text), IsSentenceMark)|
    ensures forall k | 0 <= k < |TokenizeSentence(text)| ::
      TokenizeSentence(text)[k] == Words(SentenceText(text), IsSentenceMark)[k] + "."
    ensures forall k | 0 <= k < |TokenizeSentence(text)| ::
      NoneOf(Words(SentenceText(text), IsSentenceMark)[k], IsSentenceMark)
  {
    NonEmptyJavaSplit(SentenceText(text), IsSentenceMark, false);
    WordsContent(SentenceText(text), IsSentenceMark);
  }

  /** An all-ASCII body, the empty one included, gives the single sentence
      `" ."`. */
  lemma AsciiBodyIsOneSentence(text: string)
    requires AllAscii(text)
    ensures TokenizeSentence(text) == [" ."]
  {
    assert AsciiCollapse(text) == " ";
    assert ReplaceAll(" ", "â€™", "'") == " ";
    assert ReplaceAll(" ", "  ", " ") == " ";
    assert SentenceText(text) == " ";
    assert NoneOf(" ", IsSentenceMark);
    assert JavaSplit(" ", IsSentenceMark, false) == [" "];
    assert NonEmpty([" "]) == [" "];
    var w := WithPeriods([" "]);
    assert w[0] == " " + ".";
    assert " " + "." == " .";
    assert w == [" ."];
  }

  /** `tokenize`: the non-empty pieces of a split on runs of white space. */
  function Tokenize(text: string): (tokens: seq<string>)
    ensures forall k | 0 <= k < |tokens| :: |tokens[k]| > 0
  {
    NonEmpty(JavaSplit(text, IsSpace, true))
  }

  /** The tokens are the words of the text: non-empty, free of white space,
      and holding its other characters in order. */
  lemma TokenizeIsWords(text: string)
    ensures Tokenize(text) == Words(text, IsSpace)
    ensures forall k | 0 <= k < |Tokenize(text)| :: NoneOf(Tokenize(text)[k], IsSpace)
    ensures Flatten(Tokenize(text)) == Kept(text, IsSpace)
  {
    NonEmptyJavaSplit(text, IsSpace, true);
    WordsContent(text, IsSpace);
  }

  // ---------------------------------------------------------------------------
  // Hits and the anchor sentence (SnippetProcessor.java:16-35, 97-99)

  /** The inner loop over query tokens for word `j`: `j` once per equal
      token (`isSimilar` is `equals`). */
  function WordHits(query: seq<string>, word: string, j: nat): (hs: seq<nat>)
    ensures |hs| == Count(query, word)
    ensures forall k | 0 <= k < |hs| :: hs[k] == j
  {
    if |query| == 0 then []
    else (if query[0] == word then [j] else []) + WordHits(query[1..], word, j)
  }

  /** The hit list of a sentence, from word `j` on. */
  function SentenceHits(query: seq<string>, normalize: string -> string, ws: seq<string>, j: nat): seq<nat>
    decreases |ws| - j
  {
    if j >= |ws| then [] else WordHits(query, normalize(ws[j]), j) + SentenceHits(query, normalize, ws, j + 1)
  }

  /** A word is in its sentence's hit list exactly when its normalised form
      is a query token; the list holds one entry per equal token. */
  lemma {:induction false} SentenceHitsContain(query: seq<string>, normalize: string -> string, ws: seq<string>, j: nat, k: nat)
    ensures k in SentenceHits(query, normalize, ws, j) <==> j <= k < |ws| && normalize(ws[k]) in query
    decreases |ws| - j
  {
    if j < |ws| {
      SentenceHitsContain(query, normalize, ws, j + 1, k);
      var here := WordHits(query, normalize(ws[j]), j);
      CountPositive(query, normalize(ws[j]));
      assert k in here <==> k == j && normalize(ws[j]) in query by {
        if k in here {
          var m :| 0 <= m < |here| && here[m] == k;
        }
        if k == j && normalize(ws[j]) in query {
          assert here[0] == j;
        }
      }
    }
  }

  /** The sentence with most hits; the first of them, as only a strictly
      larger count moves the anchor. */
  function Anchor(counts: seq<nat>): (best: nat)
    ensures |counts| == 0 ==> best == 0
    ensures |counts| > 0 ==> best < |counts|
    ensures |counts| > 0 ==> forall k | 0 <= k < |counts| :: counts[k] <= counts[best]
    ensures |counts| > 0 ==> forall k | 0 <= k < best :: counts[k] < counts[best]
  {
    if |counts| == 0 then 0 else AnchorFrom(counts, 1, 0)
  }

  function AnchorFrom(counts: seq<nat>, i: nat, best: nat): (r: nat)
    requires best < i <= |counts|
    requires forall k | 0 <= k < i :: counts[k] <= counts[best]
    requires forall k | 0 <= k < best :: counts[k] < counts[best]
    ensures r < |counts|
    ensures forall k | 0 <= k < |counts| :: counts[k] <= counts[r]
    ensures forall k | 0 <= k < r :: counts[k] < counts[r]
    decreases |counts| - i
  {
    if i == |counts| then best
    else AnchorFrom(counts, i + 1, if counts[i] > counts[best] then i else best)
  }

  function HitCounts(hits: seq<seq<nat>>): (counts: seq<nat>)
    ensures |counts| == |hits|
    ensures forall i | 0 <= i < |hits| :: counts[i] == |hits[i]|
  {
    seq(|hits|, i requires 0 <= i < |hits| => |hits[i]|)
  }

  // ---------------------------------------------------------------------------
  // Rendering the words (SnippetProcessor.java:49-55)

  /** The snippet stops taking words once 305 UTF-16 code units are used. */
  const Budget: nat := 305

  /** What one word adds: `*word* ` for a hit, `word ` otherwise. */
  function Piece(word: string, hit: bool): string
  {
    if hit then "*" + word + "* " else word + " "
  }

  /** A hit costs its word's length plus 3, any other word plus 1. */
  lemma PieceLength(word: string, hit: bool)
    ensures Utf16Length(Piece(word, hit)) == Utf16Length(word) + (if hit then 3 else 1)
  {
    Utf16LengthAppend(word, " ");
    Utf16LengthAppend("*" + word, "* ");
    Utf16LengthAppend("*", word);
  }

  /** The pieces of one sentence, word by word; word `j` is starred when `j`
      is in its hit list (`hits.get(i).contains(j)`). */
  function Render(ws: seq<string>, hs: seq<nat>): (ps: seq<string>)
    ensures |ps| == |ws|
    ensures forall j | 0 <= j < |ws| :: ps[j] == Piece(ws[j], j in hs)
  {
    seq(|ws|, j requires 0 <= j < |ws| => Piece(ws[j], j in hs))
  }

  function RenderAll(body: seq<seq<string>>, hits: seq<seq<nat>>): (rs: seq<seq<string>>)
    requires |hits| == |body|
    ensures |rs| == |body|
    ensures forall i | 0 <= i < |body| :: rs[i] == Render(body[i], hits[i])
  {
    seq(|body|, i requires 0 <= i < |body| => Render(body[i], hits[i]))
  }

  /** Pieces `a` up to `b` (exclusive), concatenated. */
  function Joined(ps: seq<string>, a: nat, b: nat): string
    requires a <= b <= |ps|
    decreases b - a
  {
    if a == b then "" else ps[a] + Joined(ps, a + 1, b)
  }

  lemma {:induction false} JoinedSplit(ps: seq<string>, a: nat, b: nat, c: nat)
    requires a <= b <= c <= |ps|
    ensures Joined(ps, a, b) + Joined(ps, b, c) == Joined(ps, a, c)
    decreases b - a
  {
    if a < b {
      var left, right := Joined(ps, a + 1, b), Joined(ps, b, c);
      JoinedSplit(ps, a + 1, b, c);
      assert Joined(ps, a, b) == ps[a] + left;
      assert Joined(ps, a, c) == ps[a] + (left + right);
    }
  }

  /** The summed lengths of pieces `a` up to `b`. */
  function JoinedLength(ps: seq<string>, a: nat, b: nat): nat
    requires a <= b <= |ps|
    decreases b - a
  {
    if a == b then 0 else Utf16Length(ps[a]) + JoinedLength(ps, a + 1, b)
  }

  lemma {:induction false} JoinedLengthSplit(ps: seq<string>, a: nat, b: nat, c: nat)
    requires a <= b <= c <= |ps|
    ensures JoinedLength(ps, a, c) == JoinedLength(ps, a, b) + JoinedLength(ps, b, c)
    decreases b - a
  {
    if a < b {
      JoinedLengthSplit(ps, a + 1, b, c);
    }
  }

  /** The summed lengths are the length of the concatenation. */
  lemma {:induction false} JoinedLengthIsLength(ps: seq<string>, a: nat, b: nat)
    requires a <= b <= |ps|
    ensures Utf16Length(Joined(ps, a, b)) == JoinedLength(ps, a, b)
    decreases b - a
  {
    if a < b {
      JoinedLengthIsLength(ps, a + 1, b);
      Utf16LengthAppend(ps[a], Joined(ps, a + 1, b));
    }
  }

  // ---------------------------------------------------------------------------
  // Walking the words under the budget (SnippetProcessor.java:46-92)

  /** Where a word walk ended: the text it produced, the budget used so far
      and the index of the first word it did not take. */
  datatype Walk = Walk(text: string, used: nat, stop: int)

  /** The inner loop of a forward pass over one sentence's pieces, from
      piece `j`; the count grows by each piece's `length()`. */
  function Forward(ps: seq<string>, j: nat, n: nat): Walk
    requires j <= |ps|
    decreases |ps| - j
  {
    if j < |ps| && n < Budget then
      var r := Forward(ps, j + 1, n + Utf16Length(ps[j]));
      Walk(ps[j] + r.text, r.used, r.stop)
    else Walk("", n, j)
  }

  /** The forward walk takes the pieces from `j` on while the budget,
      counted before each piece, is not spent: it stops at the end of the
      sentence or at the first piece that finds the budget reached. */
  lemma {:induction false} ForwardSpec(ps: seq<string>, j: nat, n: nat)
    requires j <= |ps|
    ensures var w := Forward(ps, j, n);
      && j <= w.stop <= |ps|
      && w.text == Joined(ps, j, w.stop)
      && w.used == n + Utf16Length(w.text)
      && (w.stop == |ps| || w.used >= Budget)
      && forall k | j <= k < w.stop :: n + JoinedLength(ps, j, k) < Budget
    decreases |ps| - j
  {
    if j < |ps| && n < Budget {
      var n' := n + Utf16Length(ps[j]);
      ForwardSpec(ps, j + 1, n');
      var w := Forward(ps, j + 1, n');
      Utf16LengthAppend(ps[j], w.text);
    } else {
      JoinedLengthIsLength(ps, j, j);
    }
  }

  /** The inner loop of a backward pass over one sentence's pieces, from
      piece `j` down to piece 0; each piece goes in front of the text. */
  function Backward(ps: seq<string>, j: int, n: nat): Walk
    requires -1 <= j < |ps|
    decreases j + 1
  {
    if j >= 0 && n < Budget then
      var r := Backward(ps, j - 1, n + Utf16Length(ps[j]));
      Walk(r.text + ps[j], r.used, r.stop)
    else Walk("", n, j)
  }

  /** The backward walk takes the pieces from `j` down while the budget is
      not spent: it stops below piece 0 (at -1) or at the first piece that
      finds the budget reached, and the text is the pieces above the stop
      in their original order. */
  lemma BackwardSpec(ps: seq<string>, j: int, n: nat)
    requires -1 <= j < |ps|
    ensures var w := Backward(ps, j, n);
      && -1 <= w.stop <= j
      && w.text == Joined(ps, w.stop + 1, j + 1)
      && w.used == n + Utf16Length(w.text)
      && (w.stop == -1 || w.used >= Budget)
  {
    BackwardText(ps, j, n);
    BackwardUsed(ps, j, n);
    var w := Backward(ps, j, n);
    JoinedLengthIsLength(ps, w.stop + 1, j + 1);
  }

  lemma {:induction false} BackwardText(ps: seq<string>, j: int, n: nat)
    requires -1 <= j < |ps|
    ensures var w := Backward(ps, j, n);
      -1 <= w.stop <= j && w.text == Joined(ps, w.stop + 1, j + 1)
    decreases j + 1
  {
    if j >= 0 && n < Budget {
      var n' := n + Utf16Length(ps[j]);
      BackwardText(ps, j - 1, n');
      var w := Backward(ps, j - 1, n');
      var lo: nat := w.stop + 1;
      JoinedSplit(ps, lo, j, j + 1);
      assert Joined(ps, j, j + 1) == ps[j];
    }
  }

  lemma {:induction false} BackwardUsed(ps: seq<string>, j: int, n: nat)
    requires -1 <= j < |ps|
    ensures var w := Backward(ps, j, n);
      && -1 <= w.stop <= j
      && w.used == n + JoinedLength(ps, w.stop + 1, j + 1)
      && (w.stop == -1 || w.used >= Budget)
    decreases j + 1
  {
    if j >= 0 && n < Budget {
      var n' := n + Utf16Length(ps[j]);
      BackwardUsed(ps, j - 1, n');
      var lo: nat := Backward(ps, j - 1, n').stop + 1;
      JoinedLengthSplit(ps, lo, j, j + 1);
    }
  }

  /** Every piece the backward walk took found the budget not yet reached. */
  lemma {:induction false} BackwardUnderBudget(ps: seq<string>, j: int, n: nat, k: nat)
    requires -1 <= j < |ps|
    requires Backward(ps, j, n).stop < k <= j
    ensures n + JoinedLength(ps, k + 1, j + 1) < Budget
    decreases j + 1
  {
    assert j >= 0 && n < Budget;
    if k < j {
      var n' := n + Utf16Length(ps[j]);
      assert Backward(ps, j, n).stop == Backward(ps, j - 1, n').stop;
      BackwardUnderBudget(ps, j - 1, n', k);
      JoinedLengthSplit(ps, k + 1, j, j + 1);
      assert JoinedLength(ps, j, j + 1) == Utf16Length(ps[j]);
    }
  }

  /** With budget to spare, a forward walk takes the rest of the sentence. */
  lemma {:induction false} ForwardTakesAll(ps: seq<string>, j: nat, n: nat)
    requires j <= |ps| && n + JoinedLength(ps, j, |ps|) < Budget
    ensures Forward(ps, j, n) == Walk(Joined(ps, j, |ps|), n + JoinedLength(ps, j, |ps|), |ps|)
    decreases |ps| - j
  {
    if j < |ps| {
      ForwardTakesAll(ps, j + 1, n + Utf16Length(ps[j]));
    }
  }

  /** With budget to spare, a backward walk takes every piece down to piece
      0 and stops at -1. */
  lemma {:induction false} BackwardTakesAll(ps: seq<string>, j: int, n: nat)
    requires -1 <= j < |ps| && n + JoinedLength(ps, 0, j + 1) < Budget
    ensures Backward(ps, j, n) == Walk(Joined(ps, 0, j + 1), n + JoinedLength(ps, 0, j + 1), -1)
    decreases j + 1
  {
    if j >= 0 {
      JoinedSplit(ps, 0, j, j + 1);
      JoinedLengthSplit(ps, 0, j, j + 1);
      assert Joined(ps, j, j + 1) == ps[j];
      BackwardTakesAll(ps, j - 1, n + Utf16Length(ps[j]));
    }
  }

  // ---------------------------------------------------------------------------
  // Passes over sentences

  /** All the pieces of sentences `a` up to `b` (exclusive). */
  function Span(rs: seq<seq<string>>, a: nat, b: nat): string
    requires a <= b <= |rs|
    decreases b - a
  {
    if a == b then "" else Joined(rs[a], 0, |rs[a]|) + Span(rs, a + 1, b)
  }

  lemma {:induction false} SpanSplit(rs: seq<seq<string>>, a: nat, b: nat, c: nat)
    requires a <= b <= c <= |rs|
    ensures Span(rs, a, b) + Span(rs, b, c) == Span(rs, a, c)
    decreases b - a
  {
    if a < b {
      var left, right := Span(rs, a + 1, b), Span(rs, b, c);
      SpanSplit(rs, a + 1, b, c);
      assert Span(rs, a, b) == Joined(rs[a], 0, |rs[a]|) + left;
      assert Span(rs, a, c) == Joined(rs[a], 0, |rs[a]|) + (left + right);
    }
  }

  /** The summed lengths of sentences `a` up to `b`. */
  function SpanLength(rs: seq<seq<string>>, a: nat, b: nat): nat
    requires a <= b <= |rs|
    decreases b - a
  {
    if a == b then 0 else JoinedLength(rs[a], 0, |rs[a]|) + SpanLength(rs, a + 1, b)
  }

  lemma {:induction false} SpanLengthSplit(rs: seq<seq<string>>, a: nat, b: nat, c: nat)
    requires a <= b <= c <= |rs|
    ensures SpanLength(rs, a, c) == SpanLength(rs, a, b) + SpanLength(rs, b, c)
    decreases b - a
  {
    if a < b {
      SpanLengthSplit(rs, a + 1, b, c);
    }
  }

  lemma {:induction false} SpanLengthIsLength(rs: seq<seq<string>>, a: nat, b: nat)
    requires a <= b <= |rs|
    ensures Utf16Length(Span(rs, a, b)) == SpanLength(rs, a, b)
    decreases b - a
  {
    if a < b {
      var head, tail := Joined(rs[a], 0, |rs[a]|), Span(rs, a + 1, b);
      SpanLengthIsLength(rs, a + 1, b);
      JoinedLengthIsLength(rs[a], 0, |rs[a]|);
      Utf16LengthAppend(head, tail);
      assert Span(rs, a, b) == head + tail;
    }
  }

  /** The text a pass produced, the budget used so far, and whether it
      cleared the ellipsis flag it tests. */
  datatype Pass = Pass(text: string, used: nat, cleared: bool)

  /** A forward pass over sentences `i` up to `end` (exclusive). The
      ellipsis test compares `last` (the first loop, `byIndex` false, `mark`
      = `last`) or the sentence index (the continuation loop) with the
      number of sentences, and needs the last piece to have been taken. */
  function ForwardRange(rs: seq<seq<string>>, i: nat, end: nat, n: nat, mark: int, byIndex: bool): (r: Pass)
    requires end <= |rs|
    ensures (byIndex || mark != |rs|) ==> !r.cleared
    decreases end - i
  {
    if i >= end then Pass("", n, false)
    else
      var w := Forward(rs[i], 0, n);
      var full := w.stop == |rs[i]|;
      var here := (if byIndex then i else mark) == |rs| && full;
      var r := ForwardRange(rs, i + 1, end, w.used, mark, byIndex);
      Pass(w.text + r.text, r.used, here || r.cleared)
  }

  /** A backward pass over sentences `i` down to 0; the flag is cleared when
      the walk over sentence 0 ends with its index at 0. */
  function BackwardRange(rs: seq<seq<string>>, i: int, n: nat): Pass
    requires -1 <= i < |rs|
    decreases i + 1
  {
    if i < 0 then Pass("", n, false)
    else
      var w := Backward(rs[i], |rs[i]| - 1, n);
      var r := BackwardRange(rs, i - 1, w.used);
      Pass(r.text + w.text, r.used, (i == 0 && w.stop == 0) || r.cleared)
  }

  // ---------------------------------------------------------------------------
  // The snippet (SnippetProcessor.java:10-95)

  /** Where the first pass ends (exclusive): after the sentence following
      the anchor, or after the anchor when it is the last sentence. The
      source's `last` is one less. */
  function FirstPassEnd(best: nat, count: nat): (end: nat)
    requires best < count || best == 0
    ensures end <= count && (count > 0 ==> best < end)
  {
    if best + 1 >= count then count else best + 2
  }

  /** The snippet from the tokenised sentences and their hit lists, around
      the anchor sentence. Every snippet ends with the closing ellipsis. */
  function Assemble(body: seq<seq<string>>, hits: seq<seq<nat>>): (r: string)
    requires |hits| == |body|
    ensures |r| >= 5 && r[|r| - 5..] == "[...]"
  {
    AssembleAround(RenderAll(body, hits), Anchor(HitCounts(hits)))
  }

  /** The snippet around sentence `best`: that sentence and the next one,
      then the sentences before them read backwards, and, when no leading
      ellipsis is written, the sentences after them. */
  function AssembleAround(rs: seq<seq<string>>, best: nat): (r: string)
    requires best < |rs| || best == 0
    ensures |r| >= 5 && r[|r| - 5..] == "[...]"
  {
    var end := FirstPassEnd(best, |rs|);
    var fwd := ForwardRange(rs, best, end, 0, end as int - 1, false);
    var bwd := BackwardRange(rs, best - 1, fwd.used);
    var pretc := best != 0 && !bwd.cleared;
    if pretc then
      var posetc := !fwd.cleared;
      "[...] " + bwd.text + fwd.text + (if posetc then "[...]" else "")
    else
      var cont := ForwardRange(rs, end, |rs|, bwd.used, 0, true);
      var posetc := !fwd.cleared && !cont.cleared;
      bwd.text + fwd.text + cont.text + (if posetc then "[...]" else "")
  }

  /** The words of each sentence of body `b`. */
  function BodyWords(b: string): (body: seq<seq<string>>)
    ensures |body| == |TokenizeSentence(b)|
    ensures forall i | 0 <= i < |body| :: body[i] == Tokenize(TokenizeSentence(b)[i])
  {
    var sentences := TokenizeSentence(b);
    seq(|sentences|, i requires 0 <= i < |sentences| => Tokenize(sentences[i]))
  }

  /** The hit list of each sentence of `body`. */
  function BodyHits(query: seq<string>, normalize: string -> string, body: seq<seq<string>>): (hits: seq<seq<nat>>)
    ensures |hits| == |body|
    ensures forall i | 0 <= i < |body| :: hits[i] == SentenceHits(query, normalize, body[i], 0)
  {
    seq(|body|, i requires 0 <= i < |body| => SentenceHits(query, normalize, body[i], 0))
  }

  /** `description`: the snippet of body `b` for query `q`. */
  function Description(q: string, b: string, normalize: string -> string): (r: string)
    ensures |r| >= 5 && r[|r| - 5..] == "[...]"
  {
    var body := BodyWords(b);
    Assemble(body, BodyHits(Tokenize(normalize(q)), normalize, body))
  }

  // ---------------------------------------------------------------------------
  // Properties of the snippet

  /** With budget to spare, a forward pass takes sentences `i` up to `end`
      whole. */
  lemma {:induction false} ForwardRangeTakesAll(rs: seq<seq<string>>, i: nat, end: nat, n: nat, mark: int, byIndex: bool)
    requires i <= end <= |rs|
    requires n + SpanLength(rs, i, end) < Budget
    ensures var r := ForwardRange(rs, i, end, n, mark, byIndex);
      r.text == Span(rs, i, end) && r.used == n + SpanLength(rs, i, end)
    decreases end - i
  {
    if i < end {
      ForwardTakesAll(rs[i], 0, n);
      ForwardRangeTakesAll(rs, i + 1, end, n + JoinedLength(rs[i], 0, |rs[i]|), mark, byIndex);
    }
  }

  /** With budget to spare, the backward pass takes sentences `i` down to 0
      whole, and so its walk over sentence 0 ends at -1 and leaves the flag
      set. */
  lemma {:induction false} BackwardRangeTakesAll(rs: seq<seq<string>>, i: int, n: nat)
    requires -1 <= i < |rs|
    requires n + SpanLength(rs, 0, i + 1) < Budget
    ensures BackwardRange(rs, i, n) == Pass(Span(rs, 0, i + 1), n + SpanLength(rs, 0, i + 1), false)
    decreases i + 1
  {
    if i >= 0 {
      var whole := Joined(rs[i], 0, |rs[i]|);
      var c := JoinedLength(rs[i], 0, |rs[i]|);
      SpanLengthSplit(rs, 0, i, i + 1);
      assert SpanLength(rs, i, i + 1) == c;
      BackwardSentenceWhole(rs, i, n);
      BackwardRangeTakesAll(rs, i - 1, n + c);
      SpanSplit(rs, 0, i, i + 1);
      assert Span(rs, i, i + 1) == whole;
    }
  }

  /** One step of the backward pass when sentence `i` fits whole: its text
      goes after that of the sentences before it, and its walk, ending at
      -1, does not clear the flag. */
  lemma BackwardSentenceWhole(rs: seq<seq<string>>, i: nat, n: nat)
    requires i < |rs| && n + JoinedLength(rs[i], 0, |rs[i]|) < Budget
    ensures var c := JoinedLength(rs[i], 0, |rs[i]|);
      var r := BackwardRange(rs, i - 1, n + c);
      BackwardRange(rs, i, n) == Pass(r.text + Joined(rs[i], 0, |rs[i]|), r.used, r.cleared)
  {
    BackwardTakesAll(rs[i], |rs[i]| - 1, n);
  }

  /** The passes of the snippet when everything fits: the first takes the
      anchor and the next sentence, the backward one the sentences before,
      and neither clears its flag. */
  lemma FitsPasses(rs: seq<seq<string>>, best: nat)
    requires best < |rs| || best == 0
    requires SpanLength(rs, 0, |rs|) < Budget
    ensures var end := FirstPassEnd(best, |rs|);
      var fwd := ForwardRange(rs, best, end, 0, end as int - 1, false);
      var bwd := BackwardRange(rs, best - 1, fwd.used);
      && fwd.text == Span(rs, best, end) && !fwd.cleared
      && bwd == Pass(Span(rs, 0, best), SpanLength(rs, 0, end), false)
  {
    var end := FirstPassEnd(best, |rs|);
    SpanLengthSplit(rs, 0, best, end);
    SpanLengthSplit(rs, 0, end, |rs|);
    ForwardRangeTakesAll(rs, best, end, 0, end as int - 1, false);
    var fwd := ForwardRange(rs, best, end, 0, end as int - 1, false);
    BackwardRangeTakesAll(rs, best - 1, fwd.used);
  }

  /** `AssembleAround` with its passes named: the closing ellipsis is
      written on both paths, as neither forward pass can clear its flag. */
  lemma AssembleAroundParts(rs: seq<seq<string>>, best: nat)
    requires best < |rs| || best == 0
    ensures var end := FirstPassEnd(best, |rs|);
      var fwd := ForwardRange(rs, best, end, 0, end as int - 1, false);
      var bwd := BackwardRange(rs, best - 1, fwd.used);
      var cont := ForwardRange(rs, end, |rs|, bwd.used, 0, true);
      && (best != 0 && !bwd.cleared ==> AssembleAround(rs, best) == "[...] " + (bwd.text + fwd.text) + "[...]")
      && (best == 0 || bwd.cleared ==> AssembleAround(rs, best) == bwd.text + fwd.text + cont.text + "[...]")
  {
  }

  /** With the first sentence as anchor and everything fitting, every
      sentence is written, then the closing ellipsis. */
  lemma FitsFromFirstSentence(rs: seq<seq<string>>)
    requires SpanLength(rs, 0, |rs|) < Budget
    ensures AssembleAround(rs, 0) == Span(rs, 0, |rs|) + "[...]"
  {
    var end := FirstPassEnd(0, |rs|);
    var fwd := ForwardRange(rs, 0, end, 0, end as int - 1, false);
    var bwd := BackwardRange(rs, -1, fwd.used);
    var cont := ForwardRange(rs, end, |rs|, bwd.used, 0, true);
    FitsPasses(rs, 0);
    SpanLengthSplit(rs, 0, end, |rs|);
    ForwardRangeTakesAll(rs, end, |rs|, bwd.used, 0, true);
    SpanSplit(rs, 0, end, |rs|);
    AssembleAroundParts(rs, 0);
    assert bwd.text + fwd.text == fwd.text;
  }

  /** With a later anchor and everything fitting, the snippet is the leading
      ellipsis, the sentences up to the one after the anchor, and the
      closing ellipsis. */
  lemma FitsFromLaterSentence(rs: seq<seq<string>>, best: nat)
    requires 0 < best < |rs|
    requires SpanLength(rs, 0, |rs|) < Budget
    ensures AssembleAround(rs, best) == "[...] " + Span(rs, 0, FirstPassEnd(best, |rs|)) + "[...]"
  {
    var end := FirstPassEnd(best, |rs|);
    var fwd := ForwardRange(rs, best, end, 0, end as int - 1, false);
    var bwd := BackwardRange(rs, best - 1, fwd.used);
    FitsPasses(rs, best);
    SpanSplit(rs, 0, best, end);
    AssembleAroundParts(rs, best);
  }

  /** When all the words fit in the budget, the snippet holds them all with
      the hits starred, except that an anchor other than the first sentence
      brings a leading `"[...] "` although nothing before it is left out,
      and then the sentences after the one following the anchor are not
      written. */
  lemma SnippetWhenEverythingFits(body: seq<seq<string>>, hits: seq<seq<nat>>)
    requires |hits| == |body|
    requires Utf16Length(Span(RenderAll(body, hits), 0, |body|)) < Budget
    ensures Anchor(HitCounts(hits)) == 0 ==>
      Assemble(body, hits) == Span(RenderAll(body, hits), 0, |body|) + "[...]"
    ensures Anchor(HitCounts(hits)) > 0 ==>
      Assemble(body, hits)
        == "[...] " + Span(RenderAll(body, hits), 0, FirstPassEnd(Anchor(HitCounts(hits)), |body|)) + "[...]"
  {
    var rs := RenderAll(body, hits);
    SpanLengthIsLength(rs, 0, |rs|);
    var best := Anchor(HitCounts(hits));
    if best == 0 {
      FitsFromFirstSentence(rs);
    } else {
      FitsFromLaterSentence(rs, best);
    }
  }

  /** A two-sentence body whose second sentence is the anchor and fits:
      nothing is left out, yet the snippet starts with `"[...] "`. */
  lemma LeadingEllipsisWithNothingLeftOut()
    ensures Assemble([["a"], ["b"]], [[], [0]]) == "[...] " + "a " + "*b* " + "[...]"
  {
    ExampleRendering();
    ExampleSpan();
    FitsFromLaterSentence([["a "], ["*b* "]], 1);
  }

  lemma ExampleRendering()
    ensures RenderAll([["a"], ["b"]], [[], [0]]) == [["a "], ["*b* "]]
    ensures Anchor(HitCounts([[], [0]])) == 1
  {
    var body: seq<seq<string>> := [["a"], ["b"]];
    var hits: seq<seq<nat>> := [[], [0]];
    var rs := RenderAll(body, hits);
    assert rs[0] == ["a "] by {
      assert rs[0] == Render(["a"], []);
      assert Piece("a", false) == "a ";
    }
    assert rs[1] == ["*b* "] by {
      assert rs[1] == Render(["b"], [0]);
      assert 0 in [0];
      assert Piece("b", true) == "*b* ";
    }
    assert HitCounts(hits) == [0, 1];
  }

  lemma ExampleSpan()
    ensures Span([["a "], ["*b* "]], 0, 2) == "a " + "*b* "
    ensures SpanLength([["a "], ["*b* "]], 0, 2) == 6
  {
    var rs: seq<seq<string>> := [["a "], ["*b* "]];
    assert Joined(rs[0], 0, 1) == "a " + "";
    assert Joined(rs[1], 0, 1) == "*b* " + "";
    assert Span(rs, 0, 2) == "a " + ("*b* " + "");
    assert "a " + ("*b* " + "") == "a " + "*b* ";
    assert Utf16Length("a ") == 2 && Utf16Length("*b* ") == 4;
  }

  /** When the budget runs out just before the first word of the first
      sentence, that word is left out and yet no leading `"[...] "` is
      written (the snippet is `w1 *x* [...]`): the backward walk over sentence 0 ended at index 0, which is
      the condition under which the leading ellipsis is dropped. */
  lemma LeadingEllipsisMissingWhenFirstWordLeftOut(w0: string, w1: string, x: string)
    requires Utf16Length(x) + 3 < Budget <= Utf16Length(x) + 3 + Utf16Length(w1) + 1
    ensures Assemble([[w0, w1], [x]], [[], [0]]) == Piece(w1, false) + Piece(x, true) + "[...]"
  {
    var p0, p1, px := Piece(w0, false), Piece(w1, false), Piece(x, true);
    MissingRendering(w0, w1, x);
    PieceLength(x, true);
    PieceLength(w1, false);
    var rs := [[p0, p1], [px]];
    MissingPasses(p0, p1, px);
    AssembleAroundParts(rs, 1);
    assert AssembleAround(rs, 1) == p1 + px + "" + "[...]";
    assert p1 + px + "" == p1 + px;
  }

  lemma MissingRendering(w0: string, w1: string, x: string)
    ensures RenderAll([[w0, w1], [x]], [[], [0]])
         == [[Piece(w0, false), Piece(w1, false)], [Piece(x, true)]]
    ensures Anchor(HitCounts([[], [0]])) == 1
  {
    var body: seq<seq<string>> := [[w0, w1], [x]];
    var hits: seq<seq<nat>> := [[], [0]];
    var rs := RenderAll(body, hits);
    assert rs[0] == [Piece(w0, false), Piece(w1, false)] by {
      assert rs[0] == Render([w0, w1], []);
    }
    assert rs[1] == [Piece(x, true)] by {
      assert rs[1] == Render([x], [0]);
      assert 0 in [0];
    }
    assert HitCounts(hits) == [0, 1];
  }

  /** The passes around sentence 1 of `[[p0, p1], [px]]` when `px` fits but
      `px` and `p1` together reach the budget. */
  lemma MissingPasses(p0: string, p1: string, px: string)
    requires Utf16Length(px) < Budget <= Utf16Length(px) + Utf16Length(p1)
    ensures var rs := [[p0, p1], [px]];
      var fwd := ForwardRange(rs, 1, 2, 0, 1, false);
      var bwd := BackwardRange(rs, 0, fwd.used);
      && fwd == Pass(px, Utf16Length(px), false)
      && bwd == Pass(p1, Utf16Length(px) + Utf16Length(p1), true)
      && ForwardRange(rs, 2, 2, bwd.used, 0, true).text == ""
  {
    var rs := [[p0, p1], [px]];
    var n := Utf16Length(px);
    var m := n + Utf16Length(p1);
    assert Forward([px], 0, 0) == Walk(px + "", n, 1);
    assert ForwardRange(rs, 1, 2, 0, 1, false) == Pass(px + "" + "", n, false);
    assert Backward([p0, p1], 0, m) == Walk("", m, 0);
    assert Backward([p0, p1], 1, n) == Walk("" + p1, m, 0);
    assert BackwardRange(rs, 0, n) == Pass("" + ("" + p1), m, true);
  }

  /** In the description, word `k` of sentence `i` is starred (is in that
      sentence's hit list) exactly when its normalised form is a query
      token. */
  lemma DescriptionStarsQueryWords(q: string, b: string, normalize: string -> string, i: nat, k: nat)
    requires i < |BodyWords(b)|
    ensures var ws := BodyWords(b)[i];
      (k in BodyHits(Tokenize(normalize(q)), normalize, BodyWords(b))[i]
       <==> k < |ws| && normalize(ws[k]) in Tokenize(normalize(q)))
  {
    SentenceHitsContain(Tokenize(normalize(q)), normalize, BodyWords(b)[i], 0, k);
  }

  /** An all-ASCII body is one sentence holding the single word `"."`, so its
      snippet is `". [...]"`, or `"*.* [...]"` when `"."` normalises to a
      query token. */
  lemma AsciiBodySnippet(q: string, b: string, normalize: string -> string)
    requires AllAscii(b)
    ensures Description(q, b, normalize)
         == Piece(".", normalize(".") in Tokenize(normalize(q))) + "[...]"
  {
    var query := Tokenize(normalize(q));
    var hits: seq<seq<nat>> := [SentenceHits(query, normalize, ["."], 0)];
    AsciiBodyWords(q, b, normalize);
    var p := Piece(".", normalize(".") in query);
    LoneRendering(query, normalize);
    LoneSentenceFits(p);
    FitsFromFirstSentence([[p]]);
  }

  /** An all-ASCII body is the one sentence `["."]`, hit wherever `"."` is. */
  lemma AsciiBodyWords(q: string, b: string, normalize: string -> string)
    requires AllAscii(b)
    ensures Description(q, b, normalize)
         == Assemble([["."]], [SentenceHits(Tokenize(normalize(q)), normalize, ["."], 0)])
  {
    AsciiBodyIsOneSentence(b);
    TokenizeLoneMark();
    assert BodyWords(b) == [["."]];
  }

  /** The word `"."` is starred exactly when it normalises to a query token. */
  lemma LoneRendering(query: seq<string>, normalize: string -> string)
    ensures RenderAll([["."]], [SentenceHits(query, normalize, ["."], 0)])
         == [[Piece(".", normalize(".") in query)]]
  {
    var hs := SentenceHits(query, normalize, ["."], 0);
    SentenceHitsContain(query, normalize, ["."], 0, 0);
    assert Render(["."], hs) == [Piece(".", normalize(".") in query)];
  }

  /** The one sentence `" ."` has the one token `"."`. */
  lemma TokenizeLoneMark()
    ensures Tokenize(" .") == ["."]
  {
    assert Fields(" .", IsSpace) == ["", "."] by {
      assert Fields(".", IsSpace) == ["."] by {
        var rest := Fields("", IsSpace);
        assert rest == [""] && "."[1..] == "" && "."[0] == '.';
        assert !IsSpace('.');
        assert Fields(".", IsSpace) == [['.'] + rest[0]] + rest[1..];
        assert ['.'] + rest[0] == ".";
      }
      assert " ."[1..] == ".";
    }
    assert !NoneOf(" .", IsSpace) by {
      assert IsSpace(" ."[0]);
    }
    assert CollapseRuns(["", "."]) == ["", "."];
    assert JavaSplit(" .", IsSpace, true) == ["", "."];
    assert NonEmpty(["", "."]) == ["."] by {
      assert NonEmpty(["."]) == ["."] + NonEmpty([]);
    }
  }

  /** The piece of `"."` fits, and is all its sentence writes. */
  lemma LoneSentenceFits(p: string)
    requires p == Piece(".", false) || p == Piece(".", true)
    ensures Span([[p]], 0, 1) == p && SpanLength([[p]], 0, 1) < Budget
  {
    PieceLength(".", p == Piece(".", true));
    assert Utf16Length(".") == 1;
    assert Joined([p], 0, 1) == p + "";
    assert Span([[p]], 0, 1) == p + "" + "";
  }
}
