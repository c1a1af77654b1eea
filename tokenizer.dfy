/**
 The tokenizer of the TF-IDF index (`TFIDF.preprocess`): lower-case the text,
 split it on runs of whitespace, and drop ten fixed stop-words. Punctuation is
 kept, and a leading or trailing whitespace run yields an empty token.
 */
module Tokenizer {

  /** The stop-words removed from every token list. */
  const StopWords: seq<string> := ["and", "the", "is", "of", "to", "in", "that", "it", "with", "as"]

  /** The characters matched by the regular-expression class `\s`:
      the ECMAScript WhiteSpace and LineTerminator code points. */
  predicate IsSpace(c: char)
  {
    || c == '\t' || c == '\n' || c == '\U{B}' || c == '\U{C}' || c == '\r' || c == ' '
    || c == '\U{A0}' || c == '\U{1680}' || ('\U{2000}' <= c <= '\U{200A}')
    || c == '\U{2028}' || c == '\U{2029}' || c == '\U{202F}' || c == '\U{205F}'
    || c == '\U{3000}' || c == '\U{FEFF}'
  }

  /** An upper-case letter (ASCII only). */
  predicate IsUpper(c: char)
  {
    'A' <= c <= 'Z'
  }

  /** Lower-casing of one character (ASCII letters only). */
  function LowerChar(c: char): (d: char)
    ensures IsSpace(d) <==> IsSpace(c)
    ensures !IsUpper(d)
    ensures IsUpper(c) || d == c
  {
    if 'A' <= c <= 'Z' then (c as int + 32) as char else c
  }

  /** `String.prototype.toLowerCase`, character by character. */
  function Lower(s: string): (r: string)
    ensures |r| == |s|
    ensures forall i :: 0 <= i < |s| ==> r[i] == LowerChar(s[i])
  {
    seq(|s|, i requires 0 <= i < |s| => LowerChar(s[i]))
  }

  /** The index of the first whitespace character of `s`, or `|s|` if there is none. */
  function SpaceIndex(s: string): (i: nat)
    ensures i <= |s|
    ensures i < |s| ==> IsSpace(s[i])
    ensures forall j :: 0 <= j < i ==> !IsSpace(s[j])
  {
    if s == [] || IsSpace(s[0]) then 0 else 1 + SpaceIndex(s[1..])
  }

  /** `s` without its leading whitespace run. */
  function DropSpaces(s: string): (r: string)
    ensures |r| <= |s|
    ensures r == s[|s| - |r|..]
    ensures forall j :: 0 <= j < |s| - |r| ==> IsSpace(s[j])
    ensures r != [] ==> !IsSpace(r[0])
  {
    if s != [] && IsSpace(s[0]) then DropSpaces(s[1..]) else s
  }

  /** `s.split(/\s+/)`: the pieces of `s` between its whitespace runs, including
      an empty first or last piece when `s` starts or ends with whitespace. */
  function Split(s: string): (r: seq<string>)
    ensures r != []
    decreases |s|
  {
    var i := SpaceIndex(s);
    if i == |s| then [s] else [s[..i]] + Split(DropSpaces(s[i..]))
  }

  /** `s` with every whitespace run replaced by a single space. */
  function Collapse(s: string): (r: string)
    decreases |s|
  {
    if s == [] then []
    else if IsSpace(s[0]) then [' '] + Collapse(DropSpaces(s))
    else [s[0]] + Collapse(s[1..])
  }

  /** `ts.join(sep)`. */
  function Join(ts: seq<string>, sep: string): string
  {
    if ts == [] then [] else if |ts| == 1 then ts[0] else ts[0] + sep + Join(ts[1..], sep)
  }

  /** `ts.filter(t => !stopwords.includes(t))`. */
  function RemoveStopWords(ts: seq<string>): (r: seq<string>)
    ensures forall t :: t in r ==> t in ts && t !in StopWords
    ensures forall w :: w !in StopWords ==> multiset(r)[w] == multiset(ts)[w]
  {
    if ts == [] then []
    else (
      assert ts == [ts[0]] + ts[1..];
      if ts[0] in StopWords then RemoveStopWords(ts[1..]) else [ts[0]] + RemoveStopWords(ts[1..]))
  }

  /** A piece of text without whitespace, already in lower case. */
  predicate IsWord(t: string)
  {
    forall c :: c in t ==> !IsSpace(c) && !IsUpper(c)
  }

  /** Only the first and the last element of `ts` may be the empty string. */
  predicate InnerNonEmpty(ts: seq<string>)
  {
    forall i :: 0 < i < |ts| - 1 ==> ts[i] != []
  }

  /** What `preprocess` returns: words that are not stop-words, and no empty
      token except possibly the first and the last. */
  predicate IsTokenList(ts: seq<string>)
  {
    && (forall t :: t in ts ==> IsWord(t) && t !in StopWords)
    && InnerNonEmpty(ts)
  }

  /** `TFIDF.preprocess(doc)`. */
  function Preprocess(doc: string): (r: seq<string>)
    ensures IsTokenList(r)
  {
    SplitWords(Lower(doc));
    SplitInnerNonEmpty(Lower(doc));
    RemoveStopWordsInnerNonEmpty(Split(Lower(doc)));
    RemoveStopWords(Split(Lower(doc)))
  }

  /** Line 76 of the source vectorises a stored document by preprocessing its
      tokens joined with single spaces. */
  function Retokenize(stored: seq<string>): seq<string>
  {
    Preprocess(Join(stored, " "))
  }

  // ---------------------------------------------------------------------------
  // Split

  /** Every piece of `Split(s)` is whitespace-free and made of characters of `s`;
      there is always at least one piece. */
  lemma {:induction false} SplitPieces(s: string)
    ensures Split(s) != []
    ensures forall p, c :: p in Split(s) && c in p ==> c in s && !IsSpace(c)
    decreases |s|
  {
    var i := SpaceIndex(s);
    PrefixNoSpace(s, i);
    if i < |s| {
      var rest := DropSpaces(s[i..]);
      SplitPieces(rest);
      SuffixChars(s, rest);
      assert Split(s) == [s[..i]] + Split(rest);
    } else {
      assert s[..i] == s;
    }
  }

  /** The characters before the first whitespace are not whitespace. */
  lemma PrefixNoSpace(s: string, i: nat)
    requires i == SpaceIndex(s)
    ensures forall c :: c in s[..i] ==> c in s && !IsSpace(c)
  {
    forall c | c in s[..i] ensures c in s && !IsSpace(c) {
      var j :| 0 <= j < i && s[..i][j] == c;
      assert s[j] == c;
    }
  }

  /** The characters of a suffix are characters of the text. */
  lemma SuffixChars(s: string, rest: string)
    requires |rest| <= |s| && rest == s[|s| - |rest|..]
    ensures forall c :: c in rest ==> c in s
  {
    var k := |s| - |rest|;
    forall c | c in rest ensures c in s {
      var j :| 0 <= j < |rest| && rest[j] == c;
      assert s[k + j] == c;
    }
  }

  /** When the text is lower case, so is every piece. */
  lemma SplitWords(s: string)
    requires forall c :: c in s ==> !IsUpper(c)
    ensures forall p :: p in Split(s) ==> IsWord(p)
  {
    SplitPieces(s);
  }

  /** A text that does not start with whitespace has a non-empty first piece,
      unless it is empty. */
  lemma SplitFirst(s: string)
    requires s != [] && !IsSpace(s[0])
    ensures Split(s)[0] != []
  {
    var i := SpaceIndex(s);
    assert i >= 1;
    if i < |s| {
      assert Split(s) == [s[..i]] + Split(DropSpaces(s[i..]));
    } else {
      assert Split(s) == [s];
    }
  }

  /** Only the first and the last piece of a split can be empty. */
  lemma {:induction false} SplitInnerNonEmpty(s: string)
    ensures InnerNonEmpty(Split(s))
    decreases |s|
  {
    var i := SpaceIndex(s);
    if i < |s| {
      var rest := DropSpaces(s[i..]);
      SplitInnerNonEmpty(rest);
      SplitPieces(rest);
      if rest != [] {
        SplitFirst(rest);
      } else {
        assert Split(rest) == [[]];
      }
    }
  }

  /** A text without whitespace. */
  predicate NoSpace(w: string)
  {
    forall c :: c in w ==> !IsSpace(c)
  }

  /** Joining a first piece to a non-empty rest. */
  lemma JoinCons(w: string, ts: seq<string>, sep: string)
    requires ts != []
    ensures Join([w] + ts, sep) == w + sep + Join(ts, sep)
  {
    assert ([w] + ts)[1..] == ts;
  }

  /** Splitting is undone by joining with one space, up to collapsing each
      whitespace run into a single space. */
  lemma {:induction false} JoinSplit(s: string)
    ensures Join(Split(s), " ") == Collapse(s)
    decreases |s|
  {
    var i := SpaceIndex(s);
    if i == |s| {
      assert Split(s) == [s];
      CollapseWord(s, []);
      assert s + [] == s;
    } else {
      var w, run := s[..i], s[i..];
      JoinSplit(DropSpaces(run));
      assert s == w + run;
      assert NoSpace(w);
      JoinSplitStep(w, run, DropSpaces(run));
    }
  }

  /** One step of `JoinSplit`: the first piece, then one space, then the rest. */
  lemma JoinSplitStep(w: string, run: string, rest: string)
    requires NoSpace(w) && run != [] && IsSpace(run[0])
    requires rest == DropSpaces(run)
    requires Join(Split(rest), " ") == Collapse(rest)
    ensures Join(Split(w + run), " ") == Collapse(w + run)
  {
    WordSpaceIndex(w, run);
    assert (w + run)[..|w|] == w && (w + run)[|w|..] == run;
    assert Split(w + run) == [w] + Split(rest);
    JoinCons(w, Split(rest), " ");
    CollapseWord(w, run);
    CollapseSpaceRun(run);
  }

  /** A whitespace-free prefix is kept as it is by `Collapse`. */
  lemma {:induction false} CollapseWord(w: string, s: string)
    requires NoSpace(w)
    ensures Collapse(w + s) == w + Collapse(s)
    decreases |w|
  {
    if w != [] {
      var init, c := w[..|w| - 1], w[|w| - 1];
      NoSpaceSnoc(w);
      CollapseNonSpace(c, s);
      CollapseWord(init, [c] + s);
      SnocAppend(w, s);
      SnocAppend(w, Collapse(s));
    } else {
      assert w + s == s;
    }
  }

  /** Moving the last character of `w` to the front of `s`. */
  lemma SnocAppend(w: string, s: string)
    requires w != []
    ensures w + s == w[..|w| - 1] + ([w[|w| - 1]] + s)
  {
    assert w == w[..|w| - 1] + [w[|w| - 1]];
  }

  /** A non-empty list is its first element followed by the rest. */
  lemma HeadTail(ts: seq<string>)
    requires ts != []
    ensures ts == [ts[0]] + ts[1..]
  {
  }

  /** The last character of a whitespace-free text and the rest of it are
      whitespace-free. */
  lemma NoSpaceSnoc(w: string)
    requires NoSpace(w) && w != []
    ensures !IsSpace(w[|w| - 1]) && NoSpace(w[..|w| - 1])
  {
    assert w[|w| - 1] in w;
    assert forall c :: c in w[..|w| - 1] ==> c in w;
  }

  /** A leading non-whitespace character is kept by `Collapse`. */
  lemma CollapseNonSpace(c: char, s: string)
    requires !IsSpace(c)
    ensures Collapse([c] + s) == [c] + Collapse(s)
  {
    assert ([c] + s)[1..] == s;
  }

  /** A leading whitespace run becomes one space. */
  lemma CollapseSpaceRun(s: string)
    requires s != [] && IsSpace(s[0])
    ensures Collapse(s) == " " + Collapse(DropSpaces(s))
  {
  }

  /** Every piece is free of whitespace. */
  predicate AllNoSpace(ts: seq<string>)
  {
    forall t :: t in ts ==> NoSpace(t)
  }

  /** Joining whitespace-free pieces with single spaces and splitting again gives
      back the pieces, provided there is at least one and only the first and the
      last may be empty. */
  lemma {:induction false} SplitJoin(ts: seq<string>)
    requires ts != []
    requires AllNoSpace(ts)
    requires InnerNonEmpty(ts)
    ensures Split(Join(ts, " ")) == ts
    decreases |ts|
  {
    assert ts[0] in ts;
    var w := ts[0];
    if |ts| == 1 {
      assert Join(ts, " ") == w;
      WordSpaceIndexAll(w);
      assert Split(w) == [w];
    } else {
      var tail := ts[1..];
      assert ts == [w] + tail;
      TailPieces(ts);
      JoinCons(w, tail, " ");
      JoinStart(tail);
      SplitWordSpace(w, Join(tail, " "));
      SplitJoin(tail);
    }
  }

  /** The pieces after the first still satisfy the conditions of `SplitJoin`,
      and the first of them is non-empty unless it is the last. */
  lemma TailPieces(ts: seq<string>)
    requires |ts| > 1 && AllNoSpace(ts) && InnerNonEmpty(ts)
    ensures AllNoSpace(ts[1..]) && InnerNonEmpty(ts[1..])
    ensures |ts| > 2 ==> ts[1] != []
  {
    var tail := ts[1..];
    assert forall t :: t in tail ==> t in ts;
    forall i | 0 < i < |tail| - 1 ensures tail[i] != [] {
      assert tail[i] == ts[i + 1];
    }
  }

  /** A whitespace-free word, one space and a text that does not start with
      whitespace split into the word followed by the pieces of that text. */
  lemma SplitWordSpace(w: string, rest: string)
    requires NoSpace(w)
    requires rest == [] || !IsSpace(rest[0])
    ensures Split(w + " " + rest) == [w] + Split(rest)
  {
    var s := w + " " + rest;
    WordSpaceIndex(w, " " + rest);
    assert s == w + (" " + rest);
    assert s[..|w|] == w;
    assert s[|w|..] == " " + rest;
    assert DropSpaces(" " + rest) == rest by {
      assert (" " + rest)[1..] == rest;
    }
  }

  /** A whitespace-free text has no first whitespace. */
  lemma WordSpaceIndexAll(w: string)
    requires NoSpace(w)
    ensures SpaceIndex(w) == |w|
  {
  }

  /** The first whitespace of `w + s` is that of `s` when `w` has none. */
  lemma {:induction false} WordSpaceIndex(w: string, s: string)
    requires NoSpace(w)
    requires s != [] && IsSpace(s[0])
    ensures SpaceIndex(w + s) == |w|
    decreases |w|
  {
    if w != [] {
      assert w[0] in w;
      assert (w + s)[1..] == w[1..] + s;
      assert NoSpace(w[1..]);
      WordSpaceIndex(w[1..], s);
    }
  }

  /** A join of pieces whose first is a non-empty word starts with a non-space;
      a join whose only piece is empty is empty. */
  lemma JoinStart(ts: seq<string>)
    requires ts != []
    requires AllNoSpace(ts)
    requires |ts| > 1 ==> ts[0] != []
    ensures var j := Join(ts, " "); (j == [] && ts == [[]]) || (j != [] && !IsSpace(j[0]))
  {
    assert ts[0] in ts;
    if ts[0] != [] {
      assert ts[0][0] in ts[0];
      if |ts| > 1 {
        assert Join(ts, " ")[0] == ts[0][0];
      }
    }
  }

  // ---------------------------------------------------------------------------
  // Stop-word removal

  /** All elements but the last are non-empty. */
  predicate NonEmptyButLast(ts: seq<string>)
  {
    forall i :: 0 <= i < |ts| - 1 ==> ts[i] != []
  }

  /** Filtering keeps the empty tokens at the end. */
  lemma {:induction false} RemoveStopWordsNonEmptyButLast(ts: seq<string>)
    requires NonEmptyButLast(ts)
    ensures NonEmptyButLast(RemoveStopWords(ts))
  {
    if ts != [] {
      var rest := ts[1..];
      NonEmptyButLastTail(ts);
      RemoveStopWordsNonEmptyButLast(rest);
      var r := RemoveStopWords(rest);
      if ts[0] !in StopWords {
        if r != [] {
          assert r[0] in rest;
          assert |ts| > 1 && ts[0] != [];
        }
        NonEmptyButLastCons(ts[0], r);
      }
    }
  }

  /** Dropping the first element keeps the empty tokens at the end. */
  lemma NonEmptyButLastTail(ts: seq<string>)
    requires ts != []
    ensures NonEmptyButLast(ts) ==> NonEmptyButLast(ts[1..])
    ensures InnerNonEmpty(ts) ==> NonEmptyButLast(ts[1..])
  {
    forall i | 0 <= i < |ts[1..]| - 1 ensures ts[1..][i] == ts[i + 1] {
    }
  }

  /** A non-empty element can head a list whose empty tokens are at the end. */
  lemma NonEmptyButLastCons(x: string, r: seq<string>)
    requires NonEmptyButLast(r)
    requires r != [] ==> x != []
    ensures NonEmptyButLast([x] + r)
  {
    forall i | 0 < i < |r| ensures ([x] + r)[i] == r[i - 1] {
    }
  }

  /** Filtering keeps a subsequence, so the empty tokens stay at the ends. */
  lemma RemoveStopWordsInnerNonEmpty(ts: seq<string>)
    requires InnerNonEmpty(ts)
    ensures InnerNonEmpty(RemoveStopWords(ts))
  {
    if ts != [] {
      NonEmptyButLastTail(ts);
      RemoveStopWordsNonEmptyButLast(ts[1..]);
    }
  }

  /** A list without stop-words is left unchanged. */
  lemma {:induction false} RemoveStopWordsNone(ts: seq<string>)
    requires forall t :: t in ts ==> t !in StopWords
    ensures RemoveStopWords(ts) == ts
  {
    if ts != [] {
      assert ts[0] in ts;
      RemoveStopWordsNone(ts[1..]);
      HeadTail(ts);
    }
  }

  // ---------------------------------------------------------------------------
  // Preprocess

  /** Each non-stop-word occurs in the tokens as often as in the split of the
      lower-cased text; the tokens keep the order of the split. */
  lemma PreprocessCounts(doc: string, w: string)
    requires w !in StopWords
    ensures multiset(Preprocess(doc))[w] == multiset(Split(Lower(doc)))[w]
  {
  }

  /** Lower-casing a text whose characters are all lower case changes nothing. */
  lemma LowerFixed(s: string)
    requires forall c :: c in s ==> !IsUpper(c)
    ensures Lower(s) == s
  {
  }

  /** The characters of a join are those of the pieces and of the separator. */
  lemma {:induction false} JoinChars(ts: seq<string>, sep: string, c: char)
    requires c in Join(ts, sep)
    ensures c in sep || exists t :: t in ts && c in t
  {
    if |ts| > 1 {
      var rest := Join(ts[1..], sep);
      assert Join(ts, sep) == ts[0] + sep + rest;
      assert ts[0] in ts;
      if c in rest {
        JoinChars(ts[1..], sep, c);
        if !(c in sep) {
          var t :| t in ts[1..] && c in t;
          assert t in ts;
        }
      }
    } else if |ts| == 1 {
      assert ts[0] in ts;
    }
  }

  /** Preprocessing a non-empty token list joined with single spaces gives the
      same list back: what line 76 of the source relies on. */
  lemma RetokenizeRoundTrip(ts: seq<string>)
    requires IsTokenList(ts)
    requires ts != []
    ensures Retokenize(ts) == ts
  {
    var j := Join(ts, " ");
    forall c | c in j ensures !IsUpper(c) {
      JoinChars(ts, " ", c);
    }
    LowerFixed(j);
    assert AllNoSpace(ts);
    SplitJoin(ts);
    RemoveStopWordsNone(ts);
  }

  /** A document made only of stop-words is stored as the empty list, and
      preprocessing that list joined with spaces gives one empty token instead. */
  lemma StopWordOnlyRetokenize()
    ensures Preprocess("The") == []
    ensures Retokenize([]) == [[]]
  {
    PreprocessThe();
    var lower := Lower(Join([], " "));
    assert |lower| == 0;
    assert Split(lower) == [lower];
    assert lower !in StopWords;
    RemoveStopWordsNone([lower]);
  }

  /** The single stop-word "The" preprocesses to no token. */
  lemma PreprocessThe()
    ensures Preprocess("The") == []
  {
    var lower := Lower("The");
    assert lower == "the";
    WordSpaceIndexAll(lower);
    assert Split(lower) == [lower];
    assert RemoveStopWords([lower]) == [];
  }

  /** The single word "a" preprocesses to itself. */
  lemma PreprocessWord()
    ensures Preprocess("a") == ["a"]
  {
    var lower := Lower("a");
    assert lower == "a";
    WordSpaceIndexAll(lower);
    assert Split(lower) == [lower];
    assert lower !in StopWords;
    RemoveStopWordsNone([lower]);
  }
}
