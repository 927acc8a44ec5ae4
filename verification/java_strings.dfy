/**
 The few `java.lang.String` operations the engine relies on, stated over
 `seq<char>`: `split` by a one-character class (`"[,.?!]"`, `"\\."`) or by a
 run of such characters (`"\\s+"`), and `replaceAll` with a literal pattern.

 Java's `split(regex)` cuts the string at every match, keeps a leading empty
 piece when the string starts with a (non-empty) match, removes all trailing
 empty pieces, and returns the string itself, unsplit, when nothing matches.
 */
module JavaStrings {
  import opened Seqs

  /** The class `\s`: space, tab, newline, vertical tab, form feed, return. */
  predicate IsSpace(c: char)
  {
    c == ' ' || c == '\t' || c == '\n' || c == '\U{000B}' || c == '\U{000C}' || c == '\r'
  }

  predicate IsAscii(c: char)
  {
    c as int < 128
  }

  predicate AllAscii(s: string)
  {
    forall i | 0 <= i < |s| :: IsAscii(s[i])
  }

  predicate NoneOf(s: string, sep: char -> bool)
  {
    forall i | 0 <= i < |s| :: !sep(s[i])
  }

  /** `String.length()`: UTF-16 code units, two for a character outside
      the Basic Multilingual Plane. */
  function Utf16Length(s: string): (n: nat)
    ensures n >= |s|
  {
    if |s| == 0 then 0 else (if s[0] as int >= 0x1_0000 then 2 else 1) + Utf16Length(s[1..])
  }

  lemma {:induction false} Utf16LengthAppend(a: string, b: string)
    ensures Utf16Length(a + b) == Utf16Length(a) + Utf16Length(b)
  {
    if |a| > 0 {
      assert (a + b)[1..] == a[1..] + b;
      Utf16LengthAppend(a[1..], b);
    } else {
      assert a + b == b;
    }
  }

  /** The pieces between separator characters, one more than there are
      separators: consecutive separators leave an empty piece between them. */
  function Fields(s: string, sep: char -> bool): (fs: seq<string>)
    ensures |fs| >= 1
    decreases |s|
  {
    if |s| == 0 then [""]
    else
      var rest := Fields(s[1..], sep);
      if sep(s[0]) then [""] + rest
      else [[s[0]] + rest[0]] + rest[1..]
  }

  /** The pieces of a split by runs of separators (a `+` pattern): a run is
      one delimiter, so only the first and the last piece can be empty. */
  function CollapseRuns(fs: seq<string>): seq<string>
  {
    if |fs| <= 1 then fs else [fs[0]] + NonEmpty(fs[1..|fs| - 1]) + [fs[|fs| - 1]]
  }

  function DropTrailingEmpty(fs: seq<string>): (r: seq<string>)
    ensures |r| <= |fs| && r == fs[..|r|]
    ensures |r| > 0 ==> r[|r| - 1] != ""
    ensures forall i | |r| <= i < |fs| :: fs[i] == ""
  {
    if |fs| > 0 && fs[|fs| - 1] == "" then DropTrailingEmpty(fs[..|fs| - 1]) else fs
  }

  /** The pieces that are not empty, in order. */
  function NonEmpty(fs: seq<string>): (r: seq<string>)
    ensures |r| <= |fs|
    ensures forall k | 0 <= k < |r| :: |r[k]| > 0
  {
    if |fs| == 0 then []
    else (if |fs[0]| > 0 then [fs[0]] else []) + NonEmpty(fs[1..])
  }

  lemma {:induction false} NonEmptyAppend(a: seq<string>, b: seq<string>)
    ensures NonEmpty(a + b) == NonEmpty(a) + NonEmpty(b)
  {
    if |a| == 0 {
      assert a + b == b;
    } else {
      assert (a + b)[1..] == a[1..] + b;
      NonEmptyAppend(a[1..], b);
    }
  }

  /** The characters of `s` that are not separators, in order. */
  function Kept(s: string, sep: char -> bool): string
  {
    if |s| == 0 then [] else (if sep(s[0]) then [] else [s[0]]) + Kept(s[1..], sep)
  }

  /** `s.split(regex)` where the regex matches one separator character
      (`runs` false) or a run of them (`runs` true). */
  function JavaSplit(s: string, sep: char -> bool, runs: bool): seq<string>
  {
    if NoneOf(s, sep) then [s]
    else DropTrailingEmpty(if runs then CollapseRuns(Fields(s, sep)) else Fields(s, sep))
  }

  /** The non-empty pieces of `s` between separators. */
  function Words(s: string, sep: char -> bool): seq<string>
  {
    NonEmpty(Fields(s, sep))
  }

  /** `s.replaceAll(pat, rep)` for a pattern without regex metacharacters:
      matches are replaced left to right and do not overlap. */
  function ReplaceAll(s: string, pat: string, rep: string): string
    requires |pat| > 0
    decreases |s|
  {
    if |s| < |pat| then s
    else if s[..|pat|] == pat then rep + ReplaceAll(s[|pat|..], pat, rep)
    else [s[0]] + ReplaceAll(s[1..], pat, rep)
  }

  // ---------------------------------------------------------------------------
  // Properties of the pieces

  /** No piece contains a separator, and the pieces hold exactly the
      non-separator characters of `s`, in order. */
  lemma {:induction false} FieldsContent(s: string, sep: char -> bool)
    ensures forall k | 0 <= k < |Fields(s, sep)| :: NoneOf(Fields(s, sep)[k], sep)
    ensures Flatten(Fields(s, sep)) == Kept(s, sep)
    decreases |s|
  {
    var fs := Fields(s, sep);
    if |s| > 0 {
      var rest := Fields(s[1..], sep);
      FieldsContent(s[1..], sep);
      if sep(s[0]) {
        assert fs[1..] == rest;
        assert Flatten(fs) == "" + Flatten(rest);
      } else {
        assert fs[0] == [s[0]] + rest[0] && fs[1..] == rest[1..];
        assert Flatten(rest) == rest[0] + Flatten(rest[1..]);
        forall k | 0 <= k < |fs|
          ensures NoneOf(fs[k], sep)
        {
          if k > 0 {
            assert fs[k] == rest[k];
          }
        }
      }
    }
  }

  /** Without a separator there is a single piece, the string itself. */
  lemma {:induction false} FieldsNoSeparator(s: string, sep: char -> bool)
    requires NoneOf(s, sep)
    ensures Fields(s, sep) == [s]
    decreases |s|
  {
    if |s| > 0 {
      FieldsNoSeparator(s[1..], sep);
      assert [s[0]] + s[1..] == s;
    }
  }

  lemma {:induction false} NonEmptyDropTrailing(fs: seq<string>)
    ensures NonEmpty(DropTrailingEmpty(fs)) == NonEmpty(fs)
    decreases |fs|
  {
    if |fs| > 0 && fs[|fs| - 1] == "" {
      var init := fs[..|fs| - 1];
      NonEmptyDropTrailing(init);
      assert fs == init + [fs[|fs| - 1]];
      NonEmptyAppend(init, [fs[|fs| - 1]]);
    }
  }

  lemma {:induction false} NonEmptyIdempotent(fs: seq<string>)
    ensures NonEmpty(NonEmpty(fs)) == NonEmpty(fs)
  {
    if |fs| > 0 {
      NonEmptyIdempotent(fs[1..]);
      if |fs[0]| > 0 {
        assert NonEmpty(fs) == [fs[0]] + NonEmpty(fs[1..]);
        NonEmptyAppend([fs[0]], NonEmpty(fs[1..]));
        assert NonEmpty([fs[0]]) == [fs[0]];
      } else {
        assert NonEmpty(fs) == NonEmpty(fs[1..]);
      }
    }
  }

  lemma NonEmptyCollapse(fs: seq<string>)
    ensures NonEmpty(CollapseRuns(fs)) == NonEmpty(fs)
  {
    if |fs| > 1 {
      var mid := fs[1..|fs| - 1];
      assert fs == [fs[0]] + mid + [fs[|fs| - 1]];
      NonEmptyAppend([fs[0]] + mid, [fs[|fs| - 1]]);
      NonEmptyAppend([fs[0]], mid);
      NonEmptyAppend([fs[0]] + NonEmpty(mid), [fs[|fs| - 1]]);
      NonEmptyAppend([fs[0]], NonEmpty(mid));
      NonEmptyIdempotent(mid);
    }
  }

  /** Whatever the split flavour, its non-empty pieces are the words of `s`:
      leading and trailing empties, the unsplit special case and the
      collapsing of runs only ever concern empty pieces. */
  lemma NonEmptyJavaSplit(s: string, sep: char -> bool, runs: bool)
    ensures NonEmpty(JavaSplit(s, sep, runs)) == Words(s, sep)
  {
    if NoneOf(s, sep) {
      FieldsNoSeparator(s, sep);
    } else {
      var fs := Fields(s, sep);
      NonEmptyDropTrailing(if runs then CollapseRuns(fs) else fs);
      NonEmptyCollapse(fs);
    }
  }

  /** The words of `s` are non-empty, free of separators, and together hold
      exactly the non-separator characters of `s` in order. */
  lemma WordsContent(s: string, sep: char -> bool)
    ensures forall k | 0 <= k < |Words(s, sep)| ::
      |Words(s, sep)[k]| > 0 && NoneOf(Words(s, sep)[k], sep)
    ensures Flatten(Words(s, sep)) == Kept(s, sep)
  {
    FieldsContent(s, sep);
    FlattenNonEmpty(Fields(s, sep));
    NonEmptyKeepsNoneOf(Fields(s, sep), sep);
  }

  lemma {:induction false} NonEmptyKeepsNoneOf(fs: seq<string>, sep: char -> bool)
    requires forall k | 0 <= k < |fs| :: NoneOf(fs[k], sep)
    ensures forall k | 0 <= k < |NonEmpty(fs)| :: NoneOf(NonEmpty(fs)[k], sep)
  {
    if |fs| > 0 {
      NonEmptyKeepsNoneOf(fs[1..], sep);
      var head := if |fs[0]| > 0 then [fs[0]] else [];
      assert NonEmpty(fs) == head + NonEmpty(fs[1..]);
    }
  }

  lemma {:induction false} FlattenNonEmpty(fs: seq<string>)
    ensures Flatten(NonEmpty(fs)) == Flatten(fs)
  {
    if |fs| > 0 {
      FlattenNonEmpty(fs[1..]);
      if |fs[0]| > 0 {
        assert NonEmpty(fs) == [fs[0]] + NonEmpty(fs[1..]);
        assert NonEmpty(fs)[1..] == NonEmpty(fs[1..]);
      } else {
        assert fs[0] == "";
        assert NonEmpty(fs) == NonEmpty(fs[1..]);
        assert Flatten(fs) == fs[0] + Flatten(fs[1..]);
      }
    }
  }

  /** A split by runs never yields an empty piece except possibly the first
      one. */
  lemma RunSplitEmptyOnlyFirst(s: string, sep: char -> bool)
    ensures forall i | 1 <= i < |JavaSplit(s, sep, true)| :: JavaSplit(s, sep, true)[i] != ""
  {
    if !NoneOf(s, sep) {
      var fs := Fields(s, sep);
      var c := CollapseRuns(fs);
      var r := DropTrailingEmpty(c);
      if |fs| > 1 {
        var mid := NonEmpty(fs[1..|fs| - 1]);
        assert c == [fs[0]] + mid + [fs[|fs| - 1]];
        forall i | 1 <= i < |r|
          ensures r[i] != ""
        {
          assert r[i] == c[i];
          if i < |c| - 1 {
            assert c[i] == mid[i - 1];
            assert |mid[i - 1]| > 0;
          } else {
            assert i == |r| - 1;
          }
        }
      }
    }
  }

  /** A string that starts with a separator and has a non-separator character
      somewhere splits into a leading empty piece followed by its words. */
  lemma {:induction false} RunSplitLeadingEmpty(s: string, sep: char -> bool)
    requires |s| > 0 && sep(s[0])
    requires exists i | 0 <= i < |s| :: !sep(s[i])
    ensures JavaSplit(s, sep, true) == [""] + Words(s, sep)
  {
    var fs := Fields(s, sep);
    assert !NoneOf(s, sep);
    assert |fs| >= 2;
    var mid := NonEmpty(fs[1..|fs| - 1]);
    var last := fs[|fs| - 1];
    var c := CollapseRuns(fs);
    assert c == [""] + mid + [last];
    assert JavaSplit(s, sep, true) == DropTrailingEmpty(c);
    WordsSplitAtEnds(fs);
    WordsExist(s, sep);
    assert Words(s, sep) == mid + NonEmpty([last]);
    DropAfterCollapse(mid, last);
  }

  /** Dropping trailing empty pieces after a collapse removes at most the
      last piece, as long as some non-empty piece comes before it. */
  lemma DropAfterCollapse(mid: seq<string>, last: string)
    requires forall k | 0 <= k < |mid| :: |mid[k]| > 0
    requires |mid| > 0 || last != ""
    ensures DropTrailingEmpty([""] + mid + [last]) == [""] + mid + NonEmpty([last])
  {
    var c := [""] + mid + [last];
    if last == "" {
      assert NonEmpty([last]) == [];
      var init := [""] + mid;
      assert c[..|c| - 1] == init;
      assert init[|init| - 1] == mid[|mid| - 1];
      assert DropTrailingEmpty(init) == init;
    } else {
      assert NonEmpty([last]) == [last] + NonEmpty([]);
    }
  }

  lemma {:induction false} WordsSplitAtEnds(fs: seq<string>)
    requires |fs| >= 2 && fs[0] == ""
    ensures NonEmpty(fs) == NonEmpty(fs[1..|fs| - 1]) + NonEmpty([fs[|fs| - 1]])
  {
    var mid := fs[1..|fs| - 1];
    var last := [fs[|fs| - 1]];
    assert fs == [""] + mid + last;
    NonEmptyAppend([""] + mid, last);
    assert NonEmpty(fs) == NonEmpty([""] + mid) + NonEmpty(last);
    NonEmptyAppend([""], mid);
    assert NonEmpty([""] + mid) == NonEmpty([""]) + NonEmpty(mid);
    assert NonEmpty([""]) == [];
  }

  /** A non-separator character makes at least one word. */
  lemma WordsExist(s: string, sep: char -> bool)
    requires exists i | 0 <= i < |s| :: !sep(s[i])
    ensures |Words(s, sep)| > 0
  {
    var i :| 0 <= i < |s| && !sep(s[i]);
    KeptHas(s, sep, i);
    WordsContent(s, sep);
    assert s[i] in Flatten(Words(s, sep));
  }

  lemma {:induction false} KeptHas(s: string, sep: char -> bool, i: nat)
    requires i < |s| && !sep(s[i])
    ensures s[i] in Kept(s, sep)
  {
    if i > 0 {
      KeptHas(s[1..], sep, i - 1);
    }
  }

  /** The kept characters are characters of `s` that are not separators. */
  lemma {:induction false} KeptFrom(s: string, sep: char -> bool, c: char)
    requires c in Kept(s, sep)
    ensures c in s && !sep(c)
  {
    if |s| > 0 {
      var head := if sep(s[0]) then [] else [s[0]];
      assert Kept(s, sep) == head + Kept(s[1..], sep);
      if c !in head {
        KeptFrom(s[1..], sep, c);
      }
    }
  }

  /** Dropping the empty pieces changes nothing for a filter that only
      keeps non-empty ones. */
  lemma {:induction false} FilterNonEmpty(fs: seq<string>, p: string -> bool)
    requires forall x :: p(x) ==> |x| > 0
    ensures Filter(fs, p) == Filter(NonEmpty(fs), p)
  {
    if |fs| > 0 {
      FilterNonEmpty(fs[1..], p);
      if |fs[0]| > 0 {
        assert NonEmpty(fs) == [fs[0]] + NonEmpty(fs[1..]);
        assert NonEmpty(fs)[1..] == NonEmpty(fs[1..]);
      } else {
        assert NonEmpty(fs) == NonEmpty(fs[1..]);
      }
    }
  }

  /** Every character of a word is a non-separator character of `s`. */
  lemma WordChars(s: string, sep: char -> bool, k: nat, i: nat)
    requires k < |Words(s, sep)| && i < |Words(s, sep)[k]|
    ensures Words(s, sep)[k][i] in s && !sep(Words(s, sep)[k][i])
  {
    WordsContent(s, sep);
    InFlatten(Words(s, sep), k, i);
    KeptFrom(s, sep, Words(s, sep)[k][i]);
  }
}
