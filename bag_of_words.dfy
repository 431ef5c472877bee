/** `bag_of_words`: the document-term count matrix of a collection, as the raw matrix,
    as a labelled table, or as one document's row or one term's column of that table.
    The vectorizer that builds vocabulary and matrix is a parameter of the model. */
module BagOfWords {
  import opened Outcomes
  import opened Normalize
  import opened Sorting
  import opened Frames

  /** What the vectorizer reports after fitting a collection: its feature names and
      the matrix of counts, one row per document and one column per feature. */
  datatype Fitted = Fitted(vocabulary: seq<string>, matrix: seq<seq<nat>>)

  /** The shape the vectorizer guarantees for `n` documents: one row per document, one
      count per feature in every row, and each feature named once. */
  predicate WellShaped(f: Fitted, n: nat)
  {
    && |f.matrix| == n
    && (forall d :: 0 <= d < |f.matrix| ==> |f.matrix[d]| == |f.vocabulary|)
    && Distinct(f.vocabulary)
  }

  /** The four shapes `bag_of_words` can return. */
  datatype Vectors =
    | Raw(matrix: seq<seq<nat>>)                        // the ndarray, when `optional`
    | Frame(columns: seq<string>, rows: seq<seq<nat>>)  // the DataFrame, one row per document
    | DocumentRow(terms: seq<string>, counts: seq<nat>) // `.iloc[i]`: term -> count in document i
    | TermColumn(term: string, counts: seq<nat>)        // `.loc[:, w]`: document -> count of w

  /** Entry `k` of every row. */
  function ColumnAt(rows: seq<seq<nat>>, k: nat): (c: seq<nat>)
    requires forall d :: 0 <= d < |rows| ==> k < |rows[d]|
    ensures |c| == |rows|
    ensures forall d :: 0 <= d < |rows| ==> c[d] == rows[d][k]
  {
    if rows == [] then [] else [rows[0][k]] + ColumnAt(rows[1..], k)
  }

  /** `bag_of_words(document, index_of_document, specific_word, optional)`: the raw
      matrix when `optional` is set; otherwise the row picked by a given document index
      (whatever the word), else the column of a given word, else the whole table. An
      index `.iloc` cannot place and a word that is not a feature are errors. */
  function BagOfWords(src: Source, fitTransform: seq<string> -> Fitted,
                      indexOfDocument: Option<int>, specificWord: Option<string>,
                      optional: bool): (r: Result<Vectors>)
    requires WellShaped(fitTransform(DocumentTransformer(src)), |DocumentTransformer(src)|)
    ensures var f := fitTransform(DocumentTransformer(src));
      optional ==> r == Ok(Raw(f.matrix))
    ensures var f := fitTransform(DocumentTransformer(src));
      !optional && indexOfDocument.Some? ==>
        var i, n := indexOfDocument.value, |f.matrix|;
        && (r.Ok? <==> -n <= i < n)
        && (r.Ok? ==> r.value == DocumentRow(f.vocabulary, f.matrix[if i < 0 then i + n else i]))
        && (r.Err? ==> r.error == IndexOutOfRange(i))
    ensures var f := fitTransform(DocumentTransformer(src));
      !optional && indexOfDocument.None? && specificWord.Some? ==>
        var w := specificWord.value;
        && (r.Ok? <==> w in f.vocabulary)
        && (r.Ok? ==> r.value.TermColumn? && r.value.term == w && |r.value.counts| == |f.matrix|
                      && forall d, k :: 0 <= d < |f.matrix| && 0 <= k < |f.vocabulary| && f.vocabulary[k] == w
                                        ==> r.value.counts[d] == f.matrix[d][k])
        && (r.Err? ==> r.error == KeyNotFound(w))
    ensures var f := fitTransform(DocumentTransformer(src));
      !optional && indexOfDocument.None? && specificWord.None? ==> r == Ok(Frame(f.vocabulary, f.matrix))
  {
    var fullDocument := DocumentTransformer(src);
    var f := fitTransform(fullDocument);
    if optional then Ok(Raw(f.matrix))
    else if indexOfDocument.Some? then
      match RowPosition(|f.matrix|, indexOfDocument.value)
      case None => Err(IndexOutOfRange(indexOfDocument.value))
      case Some(d) => Ok(DocumentRow(f.vocabulary, f.matrix[d]))
    else if specificWord.Some? then
      match ColumnPosition(f.vocabulary, specificWord.value)
      case None => Err(KeyNotFound(specificWord.value))
      case Some(k) =>
        assert forall j :: 0 <= j < |f.vocabulary| && f.vocabulary[j] == specificWord.value ==> j == k;
        Ok(TermColumn(specificWord.value, ColumnAt(f.matrix, k)))
    else Ok(Frame(f.vocabulary, f.matrix))
  }

  /** A given document index decides the result: the word asked for at the same time
      makes no difference. */
  lemma IndexTakesPrecedence(src: Source, fitTransform: seq<string> -> Fitted, i: int,
                             w1: Option<string>, w2: Option<string>)
    requires WellShaped(fitTransform(DocumentTransformer(src)), |DocumentTransformer(src)|)
    ensures BagOfWords(src, fitTransform, Some(i), w1, false) == BagOfWords(src, fitTransform, Some(i), w2, false)
  {
  }

  /** Row and column selections agree on the cell they share: the count of word `w`
      in row `i` is entry `i` of the column of `w`. */
  lemma RowMeetsColumn(src: Source, fitTransform: seq<string> -> Fitted, i: nat, w: string, k: nat)
    requires WellShaped(fitTransform(DocumentTransformer(src)), |DocumentTransformer(src)|)
    requires i < |DocumentTransformer(src)|
    requires k < |fitTransform(DocumentTransformer(src)).vocabulary|
    requires fitTransform(DocumentTransformer(src)).vocabulary[k] == w
    ensures var row := BagOfWords(src, fitTransform, Some(i), None, false);
            var col := BagOfWords(src, fitTransform, None, Some(w), false);
            row.Ok? && col.Ok? && row.value.counts[k] == col.value.counts[i]
  {
    var f := fitTransform(DocumentTransformer(src));
    assert w in f.vocabulary;
  }
}
