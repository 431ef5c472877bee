/** `words_counting`: occurrence counts of every whitespace-delimited token across a
    document collection, as a one-row table with its columns in ascending order. */
module WordCount {
  import opened Outcomes
  import opened Tokenize
  import opened Normalize
  import opened OrderedDict
  import opened Sorting
  import opened StringOrder
  import opened Frames

  /** Every token of every document, document by document. */
  function AllTokens(docs: seq<string>): seq<string>
  {
    if docs == [] then []
    else AllTokens(docs[..|docs| - 1]) + Tokens(docs[|docs| - 1])
  }

  /** One more occurrence of `w`. */
  function Bump(m: map<string, nat>, w: string): map<string, nat>
  {
    m[w := if w in m then m[w] + 1 else 1]
  }

  /** The counts of `toks`, tallied from the first token to the last. */
  function Histogram(toks: seq<string>): map<string, nat>
  {
    if toks == [] then map[]
    else Bump(Histogram(toks[..|toks| - 1]), toks[|toks| - 1])
  }

  /** Sum of the counts stored for the keys `ks`. */
  ghost function SumOver(m: map<string, nat>, ks: set<string>): nat
    requires ks <= m.Keys
    decreases |ks|
  {
    if ks == {} then 0
    else
      var k :| k in ks;
      m[k] + SumOver(m, ks - {k})
  }

  ghost function Total(m: map<string, nat>): nat
  {
    SumOver(m, m.Keys)
  }

  function SumCounts(counts: seq<nat>): nat
  {
    if counts == [] then 0 else counts[0] + SumCounts(counts[1..])
  }

  /** The table `pd.DataFrame(counts, index = [0])` builds: one column per key of the
      dict, in the dict's order, and one row holding the counts (a Cell is the
      one-value column that `.loc[:, word]` selects from it). */
  datatype Counted = Table(terms: seq<string>, counts: seq<nat>) | Cell(count: nat)

  /** `terms` and `counts` are the count table of `toks`: each token once, ascending,
      with the number of times it occurs. */
  ghost predicate IsCountTable(terms: seq<string>, counts: seq<nat>, toks: seq<string>)
  {
    && |counts| == |terms|
    && StrictlyAscending(terms)
    && (forall w :: w in terms <==> w in toks)
    && (forall i :: 0 <= i < |terms| ==> counts[i] == multiset(toks)[terms[i]])
  }

  /** The first loop of `words_counting`: `wordcount[word]` starts at 1 for a new token
      and goes up by one for each further occurrence. */
  method CountTokens(docs: seq<string>) returns (wordcount: Dict)
    ensures wordcount.Valid()
    ensures wordcount.values == Histogram(AllTokens(docs))
  {
    wordcount := Empty();
    for i := 0 to |docs|
      invariant wordcount.Valid()
      invariant wordcount.values == Histogram(AllTokens(docs[..i]))
    {
      wordcount := CountWords(wordcount, Tokens(docs[i]), AllTokens(docs[..i]));
      assert docs[..i + 1][..i] == docs[..i];
    }
    assert docs[..|docs|] == docs;
  }

  /** The inner loop of `words_counting`, over the tokens of one document: a new token
      enters with count 1, a token already present goes up by one. Given the counts of
      the tokens `seen` so far, it leaves the counts of `seen` followed by `words`. */
  method CountWords(wordcount0: Dict, words: seq<string>, ghost seen: seq<string>) returns (wordcount: Dict)
    requires wordcount0.Valid() && wordcount0.values == Histogram(seen)
    ensures wordcount.Valid()
    ensures wordcount.values == Histogram(seen + words)
  {
    wordcount := wordcount0;
    assert seen + words[..0] == seen;
    for j := 0 to |words|
      invariant wordcount.Valid()
      invariant wordcount.values == Histogram(seen + words[..j])
    {
      var word := words[j];
      ghost var prefix := seen + words[..j];
      ghost var before := wordcount.values;
      if word !in wordcount.values {
        wordcount := wordcount.Put(word, 1);
      } else {
        wordcount := wordcount.Put(word, wordcount.values[word] + 1);
      }
      assert wordcount.values == Bump(before, word);
      HistogramSnoc(prefix, word);
      assert seen + words[..j + 1] == prefix + [word];
    }
    assert words[..|words|] == words;
  }

  /** Lines 55-59 of `words_counting`: the keys of `wordcount` put in the order of
      `sorted(wordcount.keys())`, then copied into a new dict with their counts. */
  method SortedRebuild(wordcount: Dict) returns (sorted: Dict)
    requires wordcount.Valid()
    ensures sorted.Valid()
    ensures sorted.values == wordcount.values
    ensures StrictlyAscending(sorted.keys)
  {
    var newWordcount := SortStrings(wordcount.keys);
    SortedKeys(wordcount.keys);
    sorted := FillInOrder(newWordcount, wordcount);
  }

  /** The second loop of `words_counting`: a new dict filled key by key in the order of
      `order`, each key with its count in `wordcount`. */
  method FillInOrder(order: seq<string>, wordcount: Dict) returns (sorted: Dict)
    requires wordcount.Valid() && Distinct(order)
    requires forall k :: k in order <==> k in wordcount.values
    ensures sorted.Valid()
    ensures sorted.keys == order
    ensures sorted.values == wordcount.values
  {
    sorted := Empty();
    for i := 0 to |order|
      invariant sorted.Valid()
      invariant sorted.keys == order[..i]
      invariant forall k :: k in sorted.values ==> k in wordcount.values && sorted.values[k] == wordcount.values[k]
    {
      var word := order[i];
      NotListedBefore(order, i);
      assert word !in sorted.values;
      sorted := sorted.Put(word, wordcount.values[word]);
      assert order[..i + 1] == order[..i] + [word];
    }
    assert order[..|order|] == order;
    assert sorted.values.Keys == wordcount.values.Keys;
  }

  lemma NotListedBefore(order: seq<string>, i: nat)
    requires Distinct(order) && i < |order|
    ensures order[i] !in order[..i]
  {
  }

  /** `sorted` puts the distinct keys of a dict in strictly ascending order, and keeps
      exactly those keys. */
  lemma SortedKeys(keys: seq<string>)
    requires Distinct(keys)
    ensures StrictlyAscending(SortStrings(keys)) && Distinct(SortStrings(keys))
    ensures forall k :: k in SortStrings(keys) <==> k in keys
  {
    var order := SortStrings(keys);
    SortDistinct(keys);
    forall i, j | 0 <= i < j < |order| ensures order[i] != order[j] {
      LessIrreflexive(order[i]);
    }
    forall k ensures k in order <==> k in keys {
      assert k in order <==> k in multiset(order);
      assert k in keys <==> k in multiset(keys);
    }
  }

  /** The counts stored for `keys`, in the order of `keys`. */
  function CountsOf(keys: seq<string>, m: map<string, nat>): (r: seq<nat>)
    requires forall k :: k in keys ==> k in m
    ensures |r| == |keys|
    ensures forall i :: 0 <= i < |keys| ==> r[i] == m[keys[i]]
  {
    if keys == [] then [] else [m[keys[0]]] + CountsOf(keys[1..], m)
  }

  /** `pd.DataFrame(d, index = [0])`: the dict's keys, in its order, as the columns,
      and one row holding, column by column, the count stored for that column's key. */
  function ToTable(d: Dict): (t: Counted)
    requires d.Valid()
    ensures t.Table? && t.terms == d.keys && |t.counts| == |d.keys|
    ensures forall i :: 0 <= i < |d.keys| ==> t.counts[i] == d.values[d.keys[i]]
  {
    Table(d.keys, CountsOf(d.keys, d.values))
  }

  /** `words_counting(document, specific_word)`: the count table of the whole
      collection, or, given a word, that word's count; a word that is not a column of
      the table is a KeyNotFound error. */
  method WordsCounting(src: Source, specificWord: Option<string>) returns (r: Result<Counted>)
    ensures specificWord.None? ==> r.Ok? && r.value.Table?
    ensures specificWord.None? ==>
      var toks := AllTokens(DocumentTransformer(src));
      IsCountTable(r.value.terms, r.value.counts, toks) && SumCounts(r.value.counts) == |toks|
    ensures specificWord.Some? ==>
      var toks := AllTokens(DocumentTransformer(src));
      var w := specificWord.value;
      r == if w in toks then Ok(Cell(multiset(toks)[w])) else Err(KeyNotFound(w))
  {
    var fullDocument := DocumentTransformer(src);
    ghost var toks := AllTokens(fullDocument);
    var wordcount := CountTokens(fullDocument);
    var sortedWordcount := SortedRebuild(wordcount);
    var table := ToTable(sortedWordcount);
    HistogramCounts(toks);
    assert IsCountTable(table.terms, table.counts, toks);
    TableTotal(sortedWordcount, toks);
    match specificWord {
      case None =>
        r := Ok(table);
      case Some(w) =>
        match ColumnPosition(table.terms, w) {
          case None =>
            r := Err(KeyNotFound(w));
          case Some(k) =>
            r := Ok(Cell(table.counts[k]));
        }
    }
  }

  lemma TableTotal(d: Dict, toks: seq<string>)
    requires d.Valid() && d.values == Histogram(toks)
    ensures SumCounts(ToTable(d).counts) == |toks|
  {
    SumCountsOfKeys(d.keys, d.values);
    assert (set k | k in d.keys) == d.values.Keys;
    HistogramTotal(toks);
  }

  // ---------------------------------------------------------------------------
  // Properties of the counting

  lemma HistogramSnoc(s: seq<string>, w: string)
    ensures Histogram(s + [w]) == Bump(Histogram(s), w)
  {
    assert (s + [w])[..|s|] == s;
  }

  /** Each token seen maps to how often it occurs, and nothing else is mapped. */
  lemma {:induction false} HistogramCounts(toks: seq<string>)
    ensures forall w :: w in Histogram(toks) <==> w in toks
    ensures forall w :: w in Histogram(toks) ==> Histogram(toks)[w] == multiset(toks)[w] >= 1
    decreases |toks|
  {
    if toks != [] {
      var p, w := toks[..|toks| - 1], toks[|toks| - 1];
      assert toks == p + [w];
      HistogramCounts(p);
    }
  }

  lemma {:induction false} SumOverRemove(m: map<string, nat>, ks: set<string>, k: string)
    requires ks <= m.Keys && k in ks
    ensures SumOver(m, ks) == m[k] + SumOver(m, ks - {k})
    decreases |ks|
  {
    var j :| j in ks && SumOver(m, ks) == m[j] + SumOver(m, ks - {j});
    if j != k {
      SumOverRemove(m, ks - {j}, k);
      SumOverRemove(m, ks - {k}, j);
      assert ks - {j} - {k} == ks - {k} - {j};
    }
  }

  lemma {:induction false} SumOverAgree(m1: map<string, nat>, m2: map<string, nat>, ks: set<string>)
    requires ks <= m1.Keys && ks <= m2.Keys
    requires forall k :: k in ks ==> m1[k] == m2[k]
    ensures SumOver(m1, ks) == SumOver(m2, ks)
    decreases |ks|
  {
    if ks != {} {
      var k :| k in ks && SumOver(m1, ks) == m1[k] + SumOver(m1, ks - {k});
      SumOverRemove(m2, ks, k);
      SumOverAgree(m1, m2, ks - {k});
    }
  }

  /** The counts add up to the number of tokens. */
  lemma {:induction false} HistogramTotal(s: seq<string>)
    ensures Total(Histogram(s)) == |s|
    decreases |s|
  {
    if s != [] {
      var p, w := s[..|s| - 1], s[|s| - 1];
      assert s == p + [w];
      HistogramTotal(p);
      HistogramSnoc(p, w);
      var h, h' := Histogram(p), Histogram(s);
      assert h' == Bump(h, w);
      SumOverRemove(h', h'.Keys, w);
      if w in h {
        assert h'.Keys == h.Keys;
        SumOverRemove(h, h.Keys, w);
        SumOverAgree(h, h', h.Keys - {w});
        assert Total(h') == h'[w] + SumOver(h', h.Keys - {w});
      } else {
        assert h'.Keys - {w} == h.Keys;
        SumOverAgree(h, h', h.Keys);
        assert Total(h') == 1 + SumOver(h', h.Keys);
      }
    }
  }

  /** Summing the counts of a list of distinct keys sums over the set of those keys. */
  lemma {:induction false} SumCountsOfKeys(keys: seq<string>, m: map<string, nat>)
    requires Distinct(keys)
    requires forall k :: k in keys ==> k in m
    ensures SumCounts(CountsOf(keys, m)) == SumOver(m, set k | k in keys)
    decreases |keys|
  {
    if keys != [] {
      var rest := keys[1..];
      SumCountsOfKeys(rest, m);
      var ks := set k | k in keys;
      assert (set k | k in rest) == ks - {keys[0]} by {
        forall x ensures x in rest <==> (x in keys && x != keys[0]) {
          if x in keys && x != keys[0] {
            var i :| 0 <= i < |keys| && keys[i] == x;
            assert rest[i - 1] == x;
          }
        }
      }
      SumOverRemove(m, ks, keys[0]);
    }
  }

  lemma {:induction false} AllTokensAppend(a: seq<string>, b: seq<string>)
    ensures AllTokens(a + b) == AllTokens(a) + AllTokens(b)
    decreases |b|
  {
    if b == [] {
      assert a + b == a;
    } else {
      var b' := b[..|b| - 1];
      AllTokensAppend(a, b');
      assert (a + b)[..|a + b| - 1] == a + b';
    }
  }

  /** No token of the collection is empty or holds whitespace; in particular the empty
      word is never counted. */
  lemma {:induction false} AllTokensAreWords(docs: seq<string>)
    ensures forall t :: t in AllTokens(docs) ==> IsWord(t)
    decreases |docs|
  {
    if docs != [] {
      AllTokensAreWords(docs[..|docs| - 1]);
      TokensAreWords(docs[|docs| - 1]);
    }
  }

  lemma AllTokensSingle(d: string)
    ensures AllTokens([d]) == Tokens(d)
  {
    assert [d][..0] == [];
  }

  /** Whitespace-only and empty documents contribute nothing, wherever they stand. */
  lemma BlankDocumentIgnored(a: seq<string>, d: string, b: seq<string>)
    requires Blank(d)
    ensures AllTokens(a + [d] + b) == AllTokens(a + b)
  {
    NoTokensIffBlank(d);
    AllTokensAppend(a + [d], b);
    AllTokensAppend(a, [d]);
    AllTokensAppend(a, b);
    AllTokensSingle(d);
  }

  /** A word is a token of the collection exactly when it is a token of some document. */
  lemma {:induction false} TokenOfSomeDocument(docs: seq<string>, w: string)
    ensures w in AllTokens(docs) <==> exists i :: 0 <= i < |docs| && w in Tokens(docs[i])
    decreases |docs|
  {
    if docs != [] {
      var p, d := docs[..|docs| - 1], docs[|docs| - 1];
      TokenOfSomeDocument(p, w);
      assert AllTokens(docs) == AllTokens(p) + Tokens(d);
      if w in AllTokens(docs) {
        if w in AllTokens(p) {
          var i :| 0 <= i < |p| && w in Tokens(p[i]);
          assert docs[i] == p[i];
        } else {
          assert w in Tokens(docs[|docs| - 1]);
        }
      } else {
        forall i | 0 <= i < |docs| ensures w !in Tokens(docs[i]) {
          if i < |p| { assert docs[i] == p[i]; }
        }
      }
    }
  }

  /** A word is counted exactly when it is a token of some document. */
  lemma CountedIffInSomeDocument(docs: seq<string>, w: string)
    ensures w in Histogram(AllTokens(docs)) <==>
            exists i :: 0 <= i < |docs| && w in Tokens(docs[i])
  {
    TokenOfSomeDocument(docs, w);
    HistogramCounts(AllTokens(docs));
  }

  /** The same tokens grouped into documents differently give the same counts: only
      the collection as a whole matters. */
  lemma CountsOfConcatenation(a: seq<string>, b: seq<string>, w: string)
    ensures multiset(AllTokens(a + b))[w] == multiset(AllTokens(a))[w] + multiset(AllTokens(b))[w]
  {
    AllTokensAppend(a, b);
  }

  /** The count table of a token list is unique: columns and counts are fixed by the
      tokens alone, so the result does not depend on the order they were met in. */
  lemma CountTableUnique(terms1: seq<string>, counts1: seq<nat>, terms2: seq<string>, counts2: seq<nat>,
                         toks: seq<string>)
    requires IsCountTable(terms1, counts1, toks) && IsCountTable(terms2, counts2, toks)
    ensures terms1 == terms2 && counts1 == counts2
  {
    StrictlyAscendingUnique(terms1, terms2);
  }

  lemma TwoWords(a: string, b: string)
    requires IsWord(a) && IsWord(b)
    ensures Tokens(a + " " + b) == [a, b]
  {
    assert a + " " + b == a + [' '] + b;
    TokensSplitAtWhitespace(a, ' ', b);
    WordIsOneToken(a);
    WordIsOneToken(b);
  }

  lemma AllTokensPair(a: string, b: string)
    ensures AllTokens([a, b]) == Tokens(a) + Tokens(b)
  {
    assert [a, b][..1] == [a];
    AllTokensSingle(a);
  }

  lemma TwoDocumentsTokens()
    ensures AllTokens(DocumentTransformer(Docs(["the cat", "the dog"]))) == ["the", "cat", "the", "dog"]
  {
    assert "the cat" == "the" + " " + "cat" && "the dog" == "the" + " " + "dog";
    TwoWords("the", "cat");
    TwoWords("the", "dog");
    AllTokensPair("the cat", "the dog");
  }

  lemma AscendingExample()
    ensures StrictlyAscending(["cat", "dog", "the"])
  {
    assert Less("cat", "dog") && Less("dog", "the");
    LessTransitive("cat", "dog", "the");
  }

  lemma TableOfTokensExample(terms: seq<string>, counts: seq<nat>)
    requires IsCountTable(terms, counts, ["the", "cat", "the", "dog"])
    ensures terms == ["cat", "dog", "the"] && counts == [1, 1, 2]
  {
    var toks := ["the", "cat", "the", "dog"];
    var expected := ["cat", "dog", "the"];
    AscendingExample();
    forall w ensures w in terms <==> w in expected {
      assert w in toks <==> w in expected;
    }
    StrictlyAscendingUnique(terms, expected);
    var m := multiset(toks);
    assert m == multiset{"cat", "dog", "the", "the"};
    assert m["cat"] == 1 && m["dog"] == 1 && m["the"] == 2;
    assert counts[0] == m[terms[0]] && counts[1] == m[terms[1]] && counts[2] == m[terms[2]];
  }

  /** "the cat" and "the dog" count as cat 1, dog 1, the 2, with the columns in that
      order. */
  lemma TwoDocumentsExample(terms: seq<string>, counts: seq<nat>)
    requires IsCountTable(terms, counts, AllTokens(DocumentTransformer(Docs(["the cat", "the dog"]))))
    ensures terms == ["cat", "dog", "the"] && counts == [1, 1, 2]
  {
    TwoDocumentsTokens();
    TableOfTokensExample(terms, counts);
  }

  /** `words_counting(["a a b"], "a")` finds "a" twice. */
  lemma SpecificWordExample()
    ensures multiset(AllTokens(DocumentTransformer(Docs(["a a b"]))))["a"] == 2
  {
    TwoWords("a", "b");
    assert "a a b" == "a" + [' '] + "a b";
    assert "a b" == "a" + " " + "b";
    TokensSplitAtWhitespace("a", ' ', "a b");
    WordIsOneToken("a");
    AllTokensSingle("a a b");
    assert AllTokens(["a a b"]) == ["a", "a", "b"];
  }
}
