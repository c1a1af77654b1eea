/**
 Term counting, as done by `TFIDF.addDocument` and `TFIDF.tfidf`: a plain object
 maps each term of a token list to its number of occurrences, and its keys are
 enumerated in the order in which they were first inserted.
 */
module Counting {

  /** No element occurs twice. */
  predicate NoDuplicates(s: seq<string>)
  {
    forall i, j :: 0 <= i < j < |s| ==> s[i] != s[j]
  }

  /** The distinct elements of `s`, in the order of their first occurrence:
      the key order of an object filled from `s`. */
  function Distinct(s: seq<string>): (r: seq<string>)
    ensures forall t :: t in r <==> t in s
    ensures NoDuplicates(r)
  {
    if s == [] then []
    else
      var r := Distinct(s[..|s| - 1]);
      var x := s[|s| - 1];
      assert forall t :: t in s <==> t in s[..|s| - 1] || t == x by {
        assert s == s[..|s| - 1] + [x];
      }
      if x in r then r else r + [x]
  }

  /** Counting loop of `addDocument` (lines 12-15) and of `tfidf` (lines 50-54):
      every term of `tokens` gets its number of occurrences, and the keys are
      created in first-occurrence order. */
  method CountTerms(tokens: seq<string>) returns (counts: map<string, nat>, order: seq<string>)
    ensures order == Distinct(tokens)
    ensures forall t :: t in counts <==> t in tokens
    ensures forall t :: t in counts ==> counts[t] == multiset(tokens)[t] >= 1
  {
    counts, order := map[], [];
    for i := 0 to |tokens|
      invariant order == Distinct(tokens[..i])
      invariant CountsOf(counts, tokens[..i])
    {
      var term := tokens[i];
      PrefixStep(tokens, i);
      CountStep(counts, tokens, i);
      if term in counts {
        counts := counts[term := counts[term] + 1];
      } else {
        counts := counts[term := 1];
        order := order + [term];
      }
    }
    assert tokens[..|tokens|] == tokens;
  }

  /** `counts` maps exactly the terms of `prefix` to their number of
      occurrences in it. */
  ghost predicate CountsOf(counts: map<string, nat>, prefix: seq<string>)
  {
    && (forall t :: t in counts <==> t in prefix)
    && (forall t :: t in counts ==> counts[t] == multiset(prefix)[t])
  }

  /** One iteration of the counting loop: incrementing the count of the next
      token, or creating it with 1, counts one more token. */
  lemma CountStep(counts: map<string, nat>, tokens: seq<string>, i: nat)
    requires i < |tokens| && CountsOf(counts, tokens[..i])
    ensures var x := tokens[i];
      && (x in counts ==> CountsOf(counts[x := counts[x] + 1], tokens[..i + 1]))
      && (x !in counts ==> CountsOf(counts[x := 1], tokens[..i + 1]))
  {
    var x, prefix, next := tokens[i], tokens[..i], tokens[..i + 1];
    assert next == prefix + [x];
    assert multiset(next) == multiset(prefix) + multiset{x};
    var after := if x in counts then counts[x := counts[x] + 1] else counts[x := 1];
    forall t ensures t in after <==> t in next {
    }
    forall t | t in after ensures after[t] == multiset(next)[t] {
      if t != x {
        assert t in counts && t in prefix;
      }
    }
    assert CountsOf(after, next);
  }

  /** Extending a prefix by one token: the distinct terms gain the token when
      it is new, and its multiplicity grows by one. */
  lemma PrefixStep(tokens: seq<string>, i: nat)
    requires i < |tokens|
    ensures var x := tokens[i];
      && Distinct(tokens[..i + 1]) == (if x in tokens[..i] then Distinct(tokens[..i]) else Distinct(tokens[..i]) + [x])
      && multiset(tokens[..i + 1]) == multiset(tokens[..i]) + multiset{x}
      && (forall t :: t in tokens[..i + 1] <==> t in tokens[..i] || t == x)
  {
    var prefix, x := tokens[..i], tokens[i];
    assert tokens[..i + 1] == prefix + [x];
    assert tokens[..i + 1][..i] == prefix;
  }

  /** The sum, over `keys`, of the multiplicities in `m`. */
  function SumOf(keys: seq<string>, m: multiset<string>): nat
  {
    if keys == [] then 0 else SumOf(keys[..|keys| - 1], m) + m[keys[|keys| - 1]]
  }

  /** Adding one occurrence of `x` adds one to the sum when `x` is a key. */
  lemma {:induction false} SumOfAddOne(keys: seq<string>, m: multiset<string>, x: string)
    requires NoDuplicates(keys)
    ensures SumOf(keys, m + multiset{x}) == SumOf(keys, m) + (if x in keys then 1 else 0)
  {
    if keys != [] {
      var init := keys[..|keys| - 1];
      assert NoDuplicates(init);
      assert keys == init + [keys[|keys| - 1]];
      SumOfAddOne(init, m, x);
    }
  }

  /** Summing the multiplicities of distinct keys that cover the token list
      gives the length of the list. */
  lemma {:induction false} SumOfCovering(keys: seq<string>, tokens: seq<string>)
    requires NoDuplicates(keys)
    requires forall t :: t in tokens ==> t in keys
    ensures SumOf(keys, multiset(tokens)) == |tokens|
  {
    if tokens == [] {
      SumOfEmpty(keys);
    } else {
      var init, x := tokens[..|tokens| - 1], tokens[|tokens| - 1];
      assert tokens == init + [x];
      SumOfCovering(keys, init);
      SumOfAddOne(keys, multiset(init), x);
    }
  }

  lemma {:induction false} SumOfEmpty(keys: seq<string>)
    ensures SumOf(keys, multiset{}) == 0
  {
    if keys != [] {
      SumOfEmpty(keys[..|keys| - 1]);
    }
  }

  /** The counts recorded for the distinct terms of a token list add up to its
      length. */
  lemma CountsSumToLength(tokens: seq<string>)
    ensures SumOf(Distinct(tokens), multiset(tokens)) == |tokens|
  {
    SumOfCovering(Distinct(tokens), tokens);
  }
}
