/**
 The two document processors that turn text into index terms.

 `SimpleProcessor` lowercases, turns every character outside `[a-z0-9']`
 into a space, splits on runs of white space and keeps the tokens longer
 than four characters. `HtmlProcessor` parses the document, normalises
 title and body, splits on runs of white space and drops stopwords; its
 stemmer is the identity.

 Lowercasing (`String.toLowerCase`), the Jsoup parse and the normalising
 regular expression are parameters: the model only fixes how their results
 are used.
 */
module Processors {
  import opened Seqs
  import opened JavaStrings
  import opened IndexStore

  // ---------------------------------------------------------------------------
  // SimpleProcessor (SimpleProcessor.java:19-37)

  /** `parse`: no title, the whole text as body. */
  function SimpleParse(docText: string): (c: Content)
    ensures c.title == [] && c.body == docText
  {
    Content("", docText)
  }

  /** The characters of `[a-z0-9']`. */
  predicate IsTermChar(c: char)
  {
    ('a' <= c <= 'z') || ('0' <= c <= '9') || c == '\''
  }

  /** `replaceAll("[^a-z0-9']", " ")`. */
  function Clean(s: string): (r: string)
    ensures |r| == |s|
    ensures forall i | 0 <= i < |s| :: r[i] == if IsTermChar(s[i]) then s[i] else ' '
  {
    seq(|s|, i requires 0 <= i < |s| => if IsTermChar(s[i]) then s[i] else ' ')
  }

  predicate IsLong(token: string)
  {
    |token| > 4
  }

  /** `processText` with `lower` for `String.toLowerCase`. */
  function SimpleTerms(text: string, lower: string -> string): (terms: seq<string>)
    ensures forall k | 0 <= k < |terms| :: |terms[k]| >= 5
    ensures IsSubseq(terms, JavaSplit(Clean(lower(text)), IsSpace, true))
  {
    var tokens := JavaSplit(Clean(lower(text)), IsSpace, true);
    FilterIsSubseq(tokens, IsLong);
    Filter(tokens, IsLong)
  }

  /** The terms are exactly the cleaned text's words longer than four
      characters, in order: the split's empty pieces never survive. */
  lemma SimpleTermsAreLongWords(text: string, lower: string -> string)
    ensures SimpleTerms(text, lower) == Filter(Words(Clean(lower(text)), IsSpace), IsLong)
  {
    var s := Clean(lower(text));
    FilterNonEmpty(JavaSplit(s, IsSpace, true), IsLong);
    NonEmptyJavaSplit(s, IsSpace, true);
  }

  /** Every term is made of `[a-z0-9']` characters only. */
  lemma SimpleTermChars(text: string, lower: string -> string, k: nat, i: nat)
    requires k < |SimpleTerms(text, lower)| && i < |SimpleTerms(text, lower)[k]|
    ensures IsTermChar(SimpleTerms(text, lower)[k][i])
  {
    var s := Clean(lower(text));
    var words := Words(s, IsSpace);
    SimpleTermsAreLongWords(text, lower);
    var term := SimpleTerms(text, lower)[k];
    assert term in words;
    var w :| 0 <= w < |words| && words[w] == term;
    WordChars(s, IsSpace, w, i);
  }

  // ---------------------------------------------------------------------------
  // HtmlProcessor (HtmlProcessor.java:29-151)

  /** The stopword set, or none when no stopword file was given. */
  datatype HtmlProcessor = HtmlProcessor(stopwords: Option<set<string>>)

  /** The constructor: no set without a file, otherwise the normalised
      lines of the file (read by the caller). */
  function NewHtmlProcessor(lines: Option<seq<string>>, normalize: string -> string): (p: HtmlProcessor)
    ensures lines.None? <==> p.stopwords.None?
    ensures lines.Some? ==> forall w :: w in p.stopwords.value <==> exists l | l in lines.value :: w == normalize(l)
  {
    match lines
    case None => HtmlProcessor(None)
    case Some(ls) => HtmlProcessor(Some(set l | l in ls :: normalize(l)))
  }

  /** `isStopWord`: never without a stopword set. */
  function IsStopWord(p: HtmlProcessor, term: string): (b: bool)
    ensures p.stopwords.None? ==> !b
    ensures p.stopwords.Some? ==> (b <==> term in p.stopwords.value)
  {
    p.stopwords.Some? && term in p.stopwords.value
  }

  /** The filter `processText` applies. */
  function NotStopWord(p: HtmlProcessor): string -> bool
  {
    t => !IsStopWord(p, t)
  }

  /** `stem`: the stemmer is disabled, every term is its own stem. */
  function Stem(term: string): (r: string)
    ensures r == term
  {
    term
  }

  /** `tokenize`: a plain split on runs of white space, empty pieces kept. */
  function Tokenize(text: string): seq<string>
  {
    JavaSplit(text, IsSpace, true)
  }

  /** The non-empty tokens are the words of the text, and only the first
      token can be empty: a text starting with white space gives a leading
      empty token. */
  lemma TokenizeShape(text: string)
    ensures NonEmpty(Tokenize(text)) == Words(text, IsSpace)
    ensures forall i | 1 <= i < |Tokenize(text)| :: Tokenize(text)[i] != ""
    ensures |text| > 0 && IsSpace(text[0]) && (exists i | 0 <= i < |text| :: !IsSpace(text[i])) ==>
      Tokenize(text) == [""] + Words(text, IsSpace)
  {
    NonEmptyJavaSplit(text, IsSpace, true);
    RunSplitEmptyOnlyFirst(text, IsSpace);
    if |text| > 0 && IsSpace(text[0]) && (exists i | 0 <= i < |text| :: !IsSpace(text[i])) {
      RunSplitLeadingEmpty(text, IsSpace);
    }
  }

  /** The text `processText` tokenises: the normalised title and body of the
      re-parsed input, joined by a space. */
  function HtmlTokens(text: string, parse: string -> Content, normalize: string -> string): seq<string>
  {
    var content := parse(text);
    Tokenize(normalize(content.title + " " + content.body))
  }

  /** `processText`: the stems of the tokens that are not stopwords, in
      token order. */
  method ProcessText(p: HtmlProcessor, text: string, parse: string -> Content, normalize: string -> string)
    returns (terms: seq<string>)
    ensures terms == Filter(HtmlTokens(text, parse, normalize), NotStopWord(p))
    ensures p.stopwords.None? ==> terms == HtmlTokens(text, parse, normalize)
  {
    var tokens := HtmlTokens(text, parse, normalize);
    var keep := NotStopWord(p);
    terms := [];
    var i := 0;
    while i < |tokens|
      invariant 0 <= i <= |tokens|
      invariant terms == Filter(tokens[..i], keep)
    {
      FilterStep(tokens, i, keep);
      assert keep(tokens[i]) == !IsStopWord(p, tokens[i]);
      if !IsStopWord(p, tokens[i]) {
        terms := terms + [Stem(tokens[i])];
      }
      i := i + 1;
    }
    assert tokens[..i] == tokens;
    if p.stopwords.None? {
      FilterAll(tokens, keep);
    }
  }

  lemma {:induction false} FilterAll<T>(xs: seq<T>, keep: T -> bool)
    requires forall x :: keep(x)
    ensures Filter(xs, keep) == xs
  {
    if |xs| > 0 {
      FilterAll(xs[1..], keep);
      assert xs == [xs[0]] + xs[1..];
    }
  }
}
