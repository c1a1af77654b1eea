/**
 The `TFIDF` class of src/tfidf.js: a corpus of preprocessed documents, the
 per-term lists of occurrence counts, and the inverse document frequency table
 computed from them; queries are vectorised and compared with every stored
 document by cosine similarity.
 */
module Index {
  import opened Tokenizer
  import opened Counting
  import opened Reals
  import opened Vectors

  /** What `tfidfs` hands to its callback for one stored document. */
  datatype Score = Score(index: nat, score: real)

  // ---------------------------------------------------------------------------
  // The term frequency table as a function of the documents

  /** Every term of some document. */
  function Vocabulary(docs: seq<seq<string>>): (r: set<string>)
    ensures forall t :: t in r <==> exists i :: 0 <= i < |docs| && t in docs[i]
  {
    if docs == [] then {}
    else
      var init := docs[..|docs| - 1];
      var r := Vocabulary(init) + Terms(docs[|docs| - 1]);
      assert forall i :: 0 <= i < |init| ==> docs[i] == init[i];
      r
  }

  /** The distinct terms of a token list. */
  function Terms(d: seq<string>): (r: set<string>)
    ensures forall t :: t in r <==> t in d
  {
    set t | t in d
  }

  /** For term `t`, its number of occurrences in each document that contains
      it, in the order in which the documents were added. */
  function Occurrences(docs: seq<seq<string>>, t: string): seq<nat>
  {
    if docs == [] then []
    else
      var d := docs[|docs| - 1];
      Occurrences(docs[..|docs| - 1], t) + (if t in d then [multiset(d)[t]] else [])
  }

  /** The value `termFrequency` has after the documents were added one by one. */
  function FrequencyTable(docs: seq<seq<string>>): map<string, seq<nat>>
  {
    map t | t in Vocabulary(docs) :: Occurrences(docs, t)
  }

  /** The list of term `t` in `tf`, the empty list when it has none. */
  function Entry(tf: map<string, seq<nat>>, t: string): seq<nat>
  {
    if t in tf then tf[t] else []
  }

  /** `tf` after appending the counts of the terms in `done` from the token
      list `tokens`, as lines 17-20 do one term at a time. */
  function Extend(tf: map<string, seq<nat>>, tokens: seq<string>, done: set<string>): map<string, seq<nat>>
  {
    map t | t in tf.Keys + done :: Entry(tf, t) + (if t in done then [multiset(tokens)[t]] else [])
  }

  /** The value of `computeIDF`'s assignment for a term present in `presence`
      of `total` documents: the log of `total / (1 + presence)`. */
  function IdfValue(total: nat, presence: nat, ln: real -> real): real
  {
    ln(total as real / (1 + presence) as real)
  }

  /** The table `computeIDF` writes: one entry per key of `tf`. */
  function IdfTable(total: nat, tf: map<string, seq<nat>>, ln: real -> real): map<string, real>
  {
    map t | t in tf :: IdfValue(total, |tf[t]|, ln)
  }

  /** The similarity scores `tfidfs` reports, given the vector of the query and
      the idf table: one per stored document, in document order. */
  function Scores(query: Vector, docs: seq<seq<string>>, table: map<string, real>, ln: real -> real, sqrt: real -> real): (r: seq<Score>)
    requires IsSqrt(sqrt)
    ensures |r| == |docs|
    ensures forall i :: 0 <= i < |docs| ==> r[i].index == i
  {
    seq(|docs|, i requires 0 <= i < |docs| => Score(i, Cosine(query, Vectorize(docs[i], table, ln, sqrt), sqrt)))
  }

  /** Extending keeps every key and adds those in `done`. */
  lemma ExtendKeys(tf: map<string, seq<nat>>, tokens: seq<string>, done: set<string>)
    ensures Extend(tf, tokens, done).Keys == tf.Keys + done
  {
  }

  /** Appending a token list to a corpus of token lists gives one. */
  lemma TokenListsAppend(docs: seq<seq<string>>, d: seq<string>)
    requires forall e :: e in docs ==> IsTokenList(e)
    requires IsTokenList(d)
    ensures forall e :: e in docs + [d] ==> IsTokenList(e)
  {
  }

  /** The raw weight of a term of the token list. */
  lemma RawWeightOf(tokens: seq<string>, table: map<string, real>, ln: real -> real, t: string)
    requires t in tokens
    ensures t in RawWeights(tokens, table, ln)
    ensures RawWeights(tokens, table, ln)[t] == Weight(multiset(tokens)[t], At(table, t), ln)
  {
  }

  /** A map built key by key over `order` that agrees with `raw` is `raw`,
      when both have the terms of `tokens` as keys. */
  lemma SameMap(weights: map<string, real>, raw: map<string, real>, order: seq<string>, tokens: seq<string>)
    requires forall t :: t in order <==> t in tokens
    requires forall t :: t in raw <==> t in tokens
    requires forall t :: t in weights <==> t in order[..|order|]
    requires forall t :: t in weights ==> t in raw && weights[t] == raw[t]
    ensures weights == raw
  {
    assert order[..|order|] == order;
    assert weights.Keys == raw.Keys;
  }

  /** A prefix one longer ends with one more element; the whole list is its
      longest prefix. */
  lemma PrefixSnoc(r: seq<Score>, i: nat)
    requires i <= |r|
    ensures i < |r| ==> r[..i + 1] == r[..i] + [r[i]]
    ensures r[..|r|] == r
  {
  }

  // ---------------------------------------------------------------------------
  // The class

  class TFIDF {
    /** The preprocessed documents, in the order in which they were added. */
    var documents: seq<seq<string>>
    /** For each term, its occurrence count in each document containing it. */
    var termFrequency: map<string, seq<nat>>
    /** The idf of each term, as of the last call of `ComputeIdf`. */
    var inverseDocumentFrequency: map<string, real>

    /** The term frequency table is that of the stored documents, every stored
        document is a token list, and the idf table has no term the frequency
        table lacks. */
    ghost predicate Valid()
      reads this
    {
      && termFrequency == FrequencyTable(documents)
      && (forall d :: d in documents ==> IsTokenList(d))
      && inverseDocumentFrequency.Keys <= termFrequency.Keys
    }

    /** `new TFIDF()`: no documents, empty tables. */
    constructor ()
      ensures Valid()
      ensures documents == [] && termFrequency == map[] && inverseDocumentFrequency == map[]
    {
      documents := [];
      termFrequency := map[];
      inverseDocumentFrequency := map[];
    }

    /** `addDocument(doc)`: store the preprocessed document and append its
        count to the list of each of its distinct terms. The idf table is left
        as it was. */
    method AddDocument(doc: string)
      requires Valid()
      modifies this`documents, this`termFrequency
      ensures Valid()
      ensures documents == old(documents) + [Preprocess(doc)]
      ensures termFrequency == Extend(old(termFrequency), Preprocess(doc), Terms(Preprocess(doc)))
    {
      var preprocessedDoc := Preprocess(doc);
      FrequencyTableAppend(documents, preprocessedDoc);
      ExtendKeys(termFrequency, preprocessedDoc, Terms(preprocessedDoc));
      TokenListsAppend(documents, preprocessedDoc);
      documents := documents + [preprocessedDoc];
      AppendCounts(preprocessedDoc);
    }

    /** Lines 12-20 of `addDocument`: count the terms of the document, then
        append each distinct term's count to its list, creating the list when
        the term is new. */
    method AppendCounts(tokens: seq<string>)
      modifies this`termFrequency
      ensures termFrequency == Extend(old(termFrequency), tokens, Terms(tokens))
    {
      var termCounts, order := CountTerms(tokens);
      ghost var tf0 := termFrequency;
      assert Terms(order[..0]) == {};
      ExtendNothing(tf0, tokens);
      for i := 0 to |order|
        invariant termFrequency == Extend(tf0, tokens, Terms(order[..i]))
      {
        var term := order[i];
        var list := if term in termFrequency then termFrequency[term] else [];
        AppendStep(termFrequency, tf0, tokens, order, i);
        termFrequency := termFrequency[term := list + [termCounts[term]]];
      }
      assert order[..|order|] == order;
      assert Terms(order) == Terms(tokens);
    }

    /** `computeIDF(ln)`: for every term of the frequency table, store the log
        of the number of documents divided by one more than the number of
        documents containing the term. */
    method ComputeIdf(ln: real -> real)
      requires Valid()
      modifies this`inverseDocumentFrequency
      ensures Valid()
      ensures inverseDocumentFrequency == old(inverseDocumentFrequency) + IdfTable(|documents|, termFrequency, ln)
      ensures inverseDocumentFrequency == IdfTable(|documents|, termFrequency, ln)
    {
      var totalDocs := |documents|;
      StoreIdf(totalDocs, ln);
    }

    /** The loop of lines 41-45, for a corpus of `totalDocs` documents: an
        entry for every key of the frequency table, other entries kept. */
    method StoreIdf(totalDocs: nat, ln: real -> real)
      modifies this`inverseDocumentFrequency
      ensures inverseDocumentFrequency == old(inverseDocumentFrequency) + IdfTable(totalDocs, termFrequency, ln)
    {
      var tf := termFrequency;
      var pending := tf.Keys;
      ghost var done: set<string> := {};
      ghost var idf0 := inverseDocumentFrequency;
      while pending != {}
        invariant pending <= tf.Keys && done <= tf.Keys
        invariant forall t :: t in tf ==> (t in pending <==> t !in done)
        invariant PartialIdf(inverseDocumentFrequency, idf0, done, tf, totalDocs, ln)
        decreases |pending|
      {
        var term :| term in pending;
        var termPresenceInDocs := |tf[term]|;
        PartialIdfStep(inverseDocumentFrequency, idf0, done, tf, totalDocs, ln, term);
        inverseDocumentFrequency := inverseDocumentFrequency[term := IdfValue(totalDocs, termPresenceInDocs, ln)];
        pending := pending - {term};
        done := done + {term};
      }
      IdfTableFromLoop(inverseDocumentFrequency, idf0, done, termFrequency, totalDocs, ln);
    }

    /** `tfidf(doc)`: the normalised weight vector of the query text `doc`.
        Nothing in the instance changes. */
    method Tfidf(doc: string, ln: real -> real, sqrt: real -> real) returns (tfidfVector: Vector)
      requires IsSqrt(sqrt)
      ensures tfidfVector == Vectorize(Preprocess(doc), inverseDocumentFrequency, ln, sqrt)
    {
      var preprocessedDoc := Preprocess(doc);
      tfidfVector := TfidfTokens(preprocessedDoc, ln, sqrt);
    }

    /** Lines 50-70 of `tfidf`, for an already preprocessed token list: count
        the terms, weigh each distinct term, and divide every weight by the
        square root of the sum of squares. */
    method TfidfTokens(tokens: seq<string>, ln: real -> real, sqrt: real -> real) returns (tfidfVector: Vector)
      requires IsSqrt(sqrt)
      ensures tfidfVector == Vectorize(tokens, inverseDocumentFrequency, ln, sqrt)
    {
      var order, weights := RawVector(tokens, ln);
      var magnitudeSquared := SumOfSquares(order, weights);
      weights := Normalise(order, weights, magnitudeSquared, sqrt);
      tfidfVector := Vector(order, weights);
    }

    /** Lines 50-62: the terms of `tokens` in first-occurrence order, each
        weighted by its sublinear term frequency times its idf, 0 when the
        idf table has no entry for it. */
    method RawVector(tokens: seq<string>, ln: real -> real) returns (order: seq<string>, weights: map<string, real>)
      ensures order == Distinct(tokens)
      ensures weights == RawWeights(tokens, inverseDocumentFrequency, ln)
    {
      var termCounts;
      termCounts, order := CountTerms(tokens);
      ghost var raw := RawWeights(tokens, inverseDocumentFrequency, ln);
      weights := map[];
      for i := 0 to |order|
        invariant forall t :: t in weights <==> t in order[..i]
        invariant forall t :: t in weights ==> weights[t] == raw[t]
      {
        var term := order[i];
        var idf := At(inverseDocumentFrequency, term);
        RawWeightOf(tokens, inverseDocumentFrequency, ln, term);
        weights := weights[term := Weight(termCounts[term], idf, ln)];
      }
      SameMap(weights, raw, order, tokens);
    }

    /** `tfidfs(doc, callback)`: the vector of the query against that of every
        stored document, reported in document order as the sequence of the
        callback's arguments. Nothing in the instance changes. Line 76 builds
        the comparison vector by preprocessing the stored tokens joined with
        spaces; the model vectorises the stored tokens themselves (see
        `StoredDocumentVector` and `StopWordOnlyDocument`). */
    method Tfidfs(doc: string, ln: real -> real, sqrt: real -> real) returns (calls: seq<Score>)
      requires IsSqrt(sqrt)
      ensures |calls| == |documents|
      ensures forall i :: 0 <= i < |calls| ==> calls[i].index == i
      ensures calls == Scores(Vectorize(Preprocess(doc), inverseDocumentFrequency, ln, sqrt),
                              documents, inverseDocumentFrequency, ln, sqrt)
    {
      var docVector := Tfidf(doc, ln, sqrt);
      ghost var scores := Scores(docVector, documents, inverseDocumentFrequency, ln, sqrt);
      calls := [];
      for index := 0 to |documents|
        invariant calls == scores[..index]
      {
        var comparisonVector := TfidfTokens(documents[index], ln, sqrt);
        var cosineSimilarity := CosineSimilarity(docVector, comparisonVector, sqrt);
        PrefixSnoc(scores, index);
        calls := calls + [Score(index, cosineSimilarity)];
      }
      PrefixSnoc(scores, |documents|);
    }
  }

  /** `computeCosineSimilarity(vecA, vecB)`: over the keys of `vecA` followed
      by the new keys of `vecB`, accumulate the dot product and both sums of
      squares; 0 when either sum of squares is 0, otherwise the dot product
      over the product of the magnitudes. */
  method CosineSimilarity(vecA: Vector, vecB: Vector, sqrt: real -> real) returns (similarity: real)
    requires IsSqrt(sqrt)
    ensures similarity == Cosine(vecA, vecB, sqrt)
  {
    var terms := Distinct(vecA.terms + vecB.terms);
    var dotProduct, magnitudeA, magnitudeB := Accumulate(terms, vecA.weight, vecB.weight);
    if magnitudeA == 0.0 || magnitudeB == 0.0 {
      return 0.0;
    }
    RootsProductPositive(sqrt, magnitudeA, magnitudeB);
    similarity := dotProduct / (sqrt(magnitudeA) * sqrt(magnitudeB));
  }

  /** Lines 84-92: the loop of `computeCosineSimilarity`, a key missing from a
      vector counting as 0. */
  method Accumulate(terms: seq<string>, a: map<string, real>, b: map<string, real>)
    returns (dotProduct: real, magnitudeA: real, magnitudeB: real)
    ensures dotProduct == Dot(terms, a, b)
    ensures magnitudeA == SumSquares(terms, a) && magnitudeB == SumSquares(terms, b)
  {
    dotProduct, magnitudeA, magnitudeB := 0.0, 0.0, 0.0;
    for i := 0 to |terms|
      invariant dotProduct == Dot(terms[..i], a, b)
      invariant magnitudeA == SumSquares(terms[..i], a)
      invariant magnitudeB == SumSquares(terms[..i], b)
    {
      var term := terms[i];
      var valA := At(a, term);
      var valB := At(b, term);
      DotStep(terms, i, a, b);
      DotStep(terms, i, a, a);
      DotStep(terms, i, b, b);
      dotProduct := dotProduct + valA * valB;
      magnitudeA := magnitudeA + valA * valA;
      magnitudeB := magnitudeB + valB * valB;
    }
    assert terms[..|terms|] == terms;
  }

  /** Line 65: the sum of the squared weights, in key order. */
  method SumOfSquares(order: seq<string>, weights: map<string, real>) returns (sum: real)
    ensures sum == SumSquares(order, weights)
  {
    sum := 0.0;
    for i := 0 to |order|
      invariant sum == SumSquares(order[..i], weights)
    {
      var val := At(weights, order[i]);
      SumStep(order, i, Product(weights, weights));
      sum := sum + val * val;
    }
    assert order[..|order|] == order;
  }

  /** Lines 65-68: divide every weight by the square root of the sum of
      squares. The source divides 0 by 0 when that sum is 0, producing NaN
      weights that its cosine reads as 0; the model keeps the zero weights. */
  method Normalise(order: seq<string>, weights: map<string, real>, magnitudeSquared: real, sqrt: real -> real)
    returns (normalised: map<string, real>)
    requires IsSqrt(sqrt)
    requires magnitudeSquared == SumSquares(order, weights)
    requires forall t :: t in weights <==> t in order
    requires NoDuplicates(order)
    ensures normalised == Normalize(order, weights, sqrt)
  {
    normalised := weights;
    if magnitudeSquared != 0.0 {
      SqrtPositive(sqrt, magnitudeSquared);
      var magnitude := sqrt(magnitudeSquared);
      for i := 0 to |order|
        invariant PartlyScaled(normalised, weights, order[..i], magnitude)
      {
        ScaleStep(normalised, weights, order, i, magnitude);
        var term := order[i];
        normalised := normalised[term := normalised[term] / magnitude];
      }
      assert order[..|order|] == order;
      ScaledAll(normalised, weights, order, magnitude);
    }
  }

  /** The state of the loop of lines 66-68 after it divided the weights of
      the terms in `done`: those are divided by `m`, the others are kept. */
  ghost predicate PartlyScaled(normalised: map<string, real>, weights: map<string, real>, done: seq<string>, m: real)
    requires m != 0.0
  {
    && (forall t :: t in normalised <==> t in weights)
    && (forall t :: t in done ==> t in weights && normalised[t] == weights[t] / m)
    && (forall t :: t in weights && t !in done ==> normalised[t] == weights[t])
  }

  /** One iteration of the loop of lines 66-68 divides one more weight. */
  lemma ScaleStep(normalised: map<string, real>, weights: map<string, real>, order: seq<string>, i: nat, m: real)
    requires m != 0.0 && i < |order| && NoDuplicates(order)
    requires forall t :: t in weights <==> t in order
    requires PartlyScaled(normalised, weights, order[..i], m)
    ensures order[i] in normalised
    ensures PartlyScaled(normalised[order[i] := normalised[order[i]] / m], weights, order[..i + 1], m)
  {
    var term := order[i];
    assert order[..i + 1] == order[..i] + [term];
    assert term !in order[..i];
  }

  /** Once every key is divided, the weights are `Scale(weights, m)`. */
  lemma ScaledAll(normalised: map<string, real>, weights: map<string, real>, order: seq<string>, m: real)
    requires m != 0.0
    requires forall t :: t in weights <==> t in order
    requires PartlyScaled(normalised, weights, order, m)
    ensures normalised == Scale(weights, m)
  {
    assert normalised.Keys == Scale(weights, m).Keys;
  }

  // ---------------------------------------------------------------------------
  // Lemmas about the frequency table

  /** One iteration of the loop of lines 17-20 extends the table by the
      count of one more term. */
  lemma AppendStep(tf: map<string, seq<nat>>, tf0: map<string, seq<nat>>, tokens: seq<string>,
                   order: seq<string>, i: nat)
    requires order == Distinct(tokens) && i < |order|
    requires tf == Extend(tf0, tokens, Terms(order[..i]))
    ensures tf[order[i] := Entry(tf, order[i]) + [multiset(tokens)[order[i]]]]
         == Extend(tf0, tokens, Terms(order[..i + 1]))
  {
    var term := order[i];
    assert order[..i + 1] == order[..i] + [term];
    assert term !in Terms(order[..i]);
    assert Terms(order[..i + 1]) == Terms(order[..i]) + {term};
    ExtendStep(tf0, tokens, Terms(order[..i]), term);
  }

  /** Extending by one more term updates that term's list only. */
  lemma ExtendStep(tf: map<string, seq<nat>>, tokens: seq<string>, done: set<string>, term: string)
    requires term !in done
    ensures Extend(tf, tokens, done + {term})
         == Extend(tf, tokens, done)[term := Entry(Extend(tf, tokens, done), term) + [multiset(tokens)[term]]]
  {
    var before, after := Extend(tf, tokens, done), Extend(tf, tokens, done + {term});
    var expected := before[term := Entry(before, term) + [multiset(tokens)[term]]];
    assert Entry(before, term) == Entry(tf, term);
    assert after.Keys == expected.Keys;
    forall t | t in after ensures after[t] == expected[t] {
    }
  }

  /** The state of the loop of `computeIDF` after it visited the terms in
      `done`: those terms have their idf, the other entries of `idf0` are kept. */
  ghost predicate PartialIdf(idf: map<string, real>, idf0: map<string, real>, done: set<string>,
                             tf: map<string, seq<nat>>, total: nat, ln: real -> real)
  {
    && done <= tf.Keys
    && (forall t :: t in idf <==> t in idf0 || t in done)
    && (forall t :: t in done ==> idf[t] == IdfValue(total, |tf[t]|, ln))
    && (forall t :: t in idf0 && t !in done ==> idf[t] == idf0[t])
  }

  /** One iteration of the loop of `computeIDF` visits one more term. */
  lemma PartialIdfStep(idf: map<string, real>, idf0: map<string, real>, done: set<string>,
                       tf: map<string, seq<nat>>, total: nat, ln: real -> real, term: string)
    requires PartialIdf(idf, idf0, done, tf, total, ln)
    requires term in tf && term !in done
    ensures PartialIdf(idf[term := IdfValue(total, |tf[term]|, ln)], idf0, done + {term}, tf, total, ln)
  {
  }

  /** After the loop of `computeIDF` has visited every key of the frequency
      table, the idf table is the old one overwritten by `IdfTable`. */
  lemma IdfTableFromLoop(idf: map<string, real>, idf0: map<string, real>, done: set<string>,
                         tf: map<string, seq<nat>>, total: nat, ln: real -> real)
    requires done == tf.Keys
    requires PartialIdf(idf, idf0, done, tf, total, ln)
    ensures idf == idf0 + IdfTable(total, tf, ln)
  {
    var expected := idf0 + IdfTable(total, tf, ln);
    assert idf.Keys == expected.Keys;
    forall t | t in expected ensures idf[t] == expected[t] {
    }
  }

  /** Extending by no term changes nothing. */
  lemma ExtendNothing(tf: map<string, seq<nat>>, tokens: seq<string>)
    ensures Extend(tf, tokens, {}) == tf
  {
    var e := Extend(tf, tokens, {});
    assert e.Keys == tf.Keys;
    forall t | t in e ensures e[t] == tf[t] {
      assert e[t] == Entry(tf, t) + [];
    }
  }

  /** A term that occurs in no document has no occurrence counts. */
  lemma {:induction false} OccurrencesOutside(docs: seq<seq<string>>, t: string)
    requires t !in Vocabulary(docs)
    ensures Occurrences(docs, t) == []
  {
    if docs != [] {
      var init := docs[..|docs| - 1];
      assert forall i :: 0 <= i < |init| ==> init[i] == docs[i];
      OccurrencesOutside(init, t);
    }
  }

  /** Adding a document to the corpus extends the table exactly as
      `addDocument` does. */
  lemma FrequencyTableAppend(docs: seq<seq<string>>, d: seq<string>)
    ensures FrequencyTable(docs + [d]) == Extend(FrequencyTable(docs), d, Terms(d))
  {
    var all := docs + [d];
    assert all[..|all| - 1] == docs;
    assert Vocabulary(all) == Vocabulary(docs) + Terms(d);
    forall t | t in Vocabulary(all)
      ensures Occurrences(all, t) == Entry(FrequencyTable(docs), t) + (if t in d then [multiset(d)[t]] else [])
    {
      if t !in Vocabulary(docs) {
        OccurrencesOutside(docs, t);
      }
    }
  }

  /** The documents containing term `t`, by index. */
  function Containing(docs: seq<seq<string>>, t: string): set<nat>
  {
    set i: nat | i < |docs| && t in docs[i]
  }

  /** The frequency table's invariants: the list of every known term is
      non-empty, its length is the number of documents containing the term,
      hence at most the number of documents, and every count is positive. */
  lemma {:induction false} FrequencyTableFacts(docs: seq<seq<string>>, t: string)
    requires t in FrequencyTable(docs)
    ensures var counts := FrequencyTable(docs)[t];
      && counts != []
      && |counts| == |Containing(docs, t)| <= |docs|
      && forall c :: c in counts ==> c >= 1
  {
    OccurrencesFacts(docs, t);
  }

  lemma {:induction false} OccurrencesFacts(docs: seq<seq<string>>, t: string)
    ensures var counts := Occurrences(docs, t);
      && |counts| == |Containing(docs, t)| <= |docs|
      && (counts == [] <==> t !in Vocabulary(docs))
      && forall c :: c in counts ==> c >= 1
  {
    if docs != [] {
      var init, d := docs[..|docs| - 1], docs[|docs| - 1];
      OccurrencesFacts(init, t);
      ContainingStep(docs, t);
    }
  }

  /** The documents containing `t` are those of all but the last document,
      plus the last one when it contains `t`. */
  lemma ContainingStep(docs: seq<seq<string>>, t: string)
    requires docs != []
    ensures var init, n := docs[..|docs| - 1], |docs| - 1;
      && n !in Containing(init, t)
      && Containing(docs, t) == Containing(init, t) + (if t in docs[n] then {n} else {})
  {
    var init := docs[..|docs| - 1];
    assert forall i :: 0 <= i < |init| ==> init[i] == docs[i];
  }

  /** What `addDocument` does to the table (lines 12-20): every distinct term
      of the new document gets exactly one count appended, its number of
      occurrences, which is positive; every other list is left as it was. */
  lemma AddDocumentLists(tf: map<string, seq<nat>>, tokens: seq<string>, t: string)
    ensures var after := Extend(tf, tokens, Terms(tokens));
      && (t in tokens ==> after[t] == Entry(tf, t) + [multiset(tokens)[t]] && multiset(tokens)[t] >= 1)
      && (t !in tokens ==> Entry(after, t) == Entry(tf, t))
  {
  }

  /** The counts `addDocument` appends add up to the length of the document. */
  lemma AddDocumentCountsSum(tf: map<string, seq<nat>>, tokens: seq<string>)
    ensures AppendedSum(Extend(tf, tokens, Terms(tokens)), Distinct(tokens)) == |tokens|
  {
    var after := Extend(tf, tokens, Terms(tokens));
    AppendedSumIsSumOf(after, tf, tokens, Distinct(tokens));
    CountsSumToLength(tokens);
  }

  /** The sum, over `keys`, of the last element of each key's list. */
  function AppendedSum(tf: map<string, seq<nat>>, keys: seq<string>): nat
  {
    if keys == [] then 0
    else
      var k := keys[|keys| - 1];
      var last := if k in tf && tf[k] != [] then tf[k][|tf[k]| - 1] else 0;
      AppendedSum(tf, keys[..|keys| - 1]) + last
  }

  lemma {:induction false} AppendedSumIsSumOf(after: map<string, seq<nat>>, tf: map<string, seq<nat>>,
                                              tokens: seq<string>, keys: seq<string>)
    requires after == Extend(tf, tokens, Terms(tokens))
    requires forall k :: k in keys ==> k in tokens
    ensures AppendedSum(after, keys) == SumOf(keys, multiset(tokens))
  {
    if keys != [] {
      var k := keys[|keys| - 1];
      assert k in keys;
      AppendedSumIsSumOf(after, tf, tokens, keys[..|keys| - 1]);
    }
  }

  // ---------------------------------------------------------------------------
  // The idf formula

  /** The idf `computeIDF` stores for a term of the corpus `docs` is the log of
      `x = N / (1 + df)`, with `N` the number of documents and `df` the number
      of documents containing the term. `x` is positive; it is below 1 (a
      negative idf) exactly when every document contains the term, and exactly
      1 (a zero idf) when all documents but one do. */
  lemma IdfArgument(docs: seq<seq<string>>, t: string, ln: real -> real)
    requires t in FrequencyTable(docs)
    ensures var df := |Containing(docs, t)|;
      var x := |docs| as real / (1 + df) as real;
      && IdfTable(|docs|, FrequencyTable(docs), ln)[t] == ln(x)
      && x > 0.0
      && (x < 1.0 <==> df == |docs|)
      && (x == 1.0 <==> df + 1 == |docs|)
  {
    FrequencyTableFacts(docs, t);
    var df := |Containing(docs, t)|;
    QuotientCompare(|docs| as real, (1 + df) as real);
  }

  // ---------------------------------------------------------------------------
  // Scoring

  /** The scores as line 76 computes them: the comparison vector of a stored
      document is that of its tokens joined with spaces and preprocessed
      again. */
  function ScoresAsWritten(query: Vector, docs: seq<seq<string>>, table: map<string, real>, ln: real -> real, sqrt: real -> real): (r: seq<Score>)
    requires IsSqrt(sqrt)
    ensures |r| == |docs|
  {
    seq(|docs|, i requires 0 <= i < |docs| => Score(i, Cosine(query, Vectorize(Retokenize(docs[i]), table, ln, sqrt), sqrt)))
  }

  /** For a non-empty stored document, re-preprocessing its joined tokens
      gives the vector of the stored tokens: what line 76 relies on. */
  lemma StoredDocumentVector(d: seq<string>, table: map<string, real>, ln: real -> real, sqrt: real -> real)
    requires IsSqrt(sqrt)
    requires IsTokenList(d) && d != []
    ensures Vectorize(Retokenize(d), table, ln, sqrt) == Vectorize(d, table, ln, sqrt)
  {
    RetokenizeRoundTrip(d);
  }

  /** When no stored document is empty, the scores of line 76 are those of the
      stored tokens. */
  lemma ScoresAgree(query: Vector, docs: seq<seq<string>>, table: map<string, real>, ln: real -> real, sqrt: real -> real)
    requires IsSqrt(sqrt)
    requires forall d :: d in docs ==> IsTokenList(d) && d != []
    ensures ScoresAsWritten(query, docs, table, ln, sqrt) == Scores(query, docs, table, ln, sqrt)
  {
    forall i | 0 <= i < |docs|
      ensures ScoresAsWritten(query, docs, table, ln, sqrt)[i] == Scores(query, docs, table, ln, sqrt)[i]
    {
      assert docs[i] in docs;
      StoredDocumentVector(docs[i], table, ln, sqrt);
    }
  }

  /** The corpus left by `addDocument("The")`, `addDocument("")` and
      `addDocument("a")`, its idf table as `computeIDF` writes it, and the
      empty query: line 76 compares the query with the vector of one empty
      token for the first document, whose only word is a stop-word, and
      reports 1; that document is stored without tokens, so its intended
      score is 0. */
  lemma StopWordOnlyDocument(ln: real -> real, sqrt: real -> real)
    requires IsSqrt(sqrt) && ln(1.0) == 0.0 && ln(3.0 / 2.0) != 0.0
    ensures var docs := [Preprocess("The"), Preprocess(""), Preprocess("a")];
      var table := IdfTable(|docs|, FrequencyTable(docs), ln);
      var query := Vectorize(Preprocess(""), table, ln, sqrt);
      && ScoresAsWritten(query, docs, table, ln, sqrt)[0] == Score(0, 1.0)
      && Scores(query, docs, table, ln, sqrt)[0] == Score(0, 0.0)
  {
    StopWordOnlyRetokenize();
    EmptyQuery();
    PreprocessWord();
    var docs: seq<seq<string>> := [[], [""], ["a"]];
    var table := IdfTable(|docs|, FrequencyTable(docs), ln);
    EmptyTermIdf(docs, ln);
    var v := Vectorize([""], table, ln, sqrt);
    EmptyTermSelf(table, ln, sqrt);
    EmptyVector(table, ln, sqrt, v);
    assert Retokenize(docs[0]) == [""];
  }

  /** In that corpus only the second document contains the empty term, so
      its idf is the log of 3 / 2. */
  lemma EmptyTermIdf(docs: seq<seq<string>>, ln: real -> real)
    requires docs == [[], [""], ["a"]]
    ensures "" in FrequencyTable(docs)
    ensures IdfTable(|docs|, FrequencyTable(docs), ln)[""] == ln(3.0 / 2.0)
  {
    assert "" in docs[1];
    assert Containing(docs, "") == {1};
    IdfArgument(docs, "", ln);
  }

  /** The empty query text preprocesses to one empty token. */
  lemma EmptyQuery()
    ensures Preprocess("") == [""]
  {
    assert Lower("") == "";
    assert Split("") == [""];
  }

  /** The vector of one empty token whose idf is not 0 has similarity 1 with
      itself. */
  lemma EmptyTermSelf(table: map<string, real>, ln: real -> real, sqrt: real -> real)
    requires IsSqrt(sqrt) && ln(1.0) == 0.0 && At(table, "") != 0.0
    ensures var v := Vectorize([""], table, ln, sqrt);
      WellFormed(v) && Cosine(v, v, sqrt) == 1.0
  {
    EmptyTermRaw(table, ln);
    VectorizeKeys([""], table, ln, sqrt);
    VectorizeUnit([""], table, ln, sqrt);
    CosineSelf(Vectorize([""], table, ln, sqrt), sqrt);
  }

  /** The raw weight of one empty token is its idf, so its sum of squares is
      positive when that idf is not 0. */
  lemma EmptyTermRaw(table: map<string, real>, ln: real -> real)
    requires ln(1.0) == 0.0 && At(table, "") != 0.0
    ensures SumSquares(Distinct([""]), RawWeights([""], table, ln)) > 0.0
  {
    var raw := RawWeights([""], table, ln);
    assert multiset([""])[""] == 1;
    assert raw[""] == At(table, "");
    assert Distinct([""]) == [""];
    SingleSumSquares("", raw);
    SquarePositive(SumSquares([""], raw), At(raw, ""));
  }

  /** A stored document without tokens scores 0 against any query. */
  lemma EmptyDocumentScoresZero(doc: string, docs: seq<seq<string>>, i: nat, table: map<string, real>, ln: real -> real, sqrt: real -> real)
    requires IsSqrt(sqrt)
    requires i < |docs| && docs[i] == []
    ensures Scores(Vectorize(Preprocess(doc), table, ln, sqrt), docs, table, ln, sqrt)[i].score == 0.0
  {
    var query := Vectorize(Preprocess(doc), table, ln, sqrt);
    VectorizeKeys(Preprocess(doc), table, ln, sqrt);
    EmptyVector(table, ln, sqrt, query);
    CosineSymmetric(query, Vector([], map[]), sqrt);
  }

  /** A stored document scores 1 against a query with the same tokens, unless
      all of its weights are 0. */
  lemma SelfSimilarity(doc: string, docs: seq<seq<string>>, i: nat, table: map<string, real>, ln: real -> real, sqrt: real -> real)
    requires IsSqrt(sqrt)
    requires i < |docs| && docs[i] == Preprocess(doc)
    requires SumSquares(Distinct(docs[i]), RawWeights(docs[i], table, ln)) != 0.0
    ensures Scores(Vectorize(Preprocess(doc), table, ln, sqrt), docs, table, ln, sqrt)[i].score == 1.0
  {
    var v := Vectorize(docs[i], table, ln, sqrt);
    VectorizeKeys(docs[i], table, ln, sqrt);
    VectorizeUnit(docs[i], table, ln, sqrt);
    CosineSelf(v, sqrt);
  }
}
