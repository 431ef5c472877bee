/** `document_transformer`: every accepted form of input becomes a list of document strings. */
module Normalize {
  import opened Lines

  /** The input forms the source tells apart at run time: a list of documents, a string
      naming an existing file (here carrying the text already read from it), and any
      other string, which is itself one document. */
  datatype Source =
    | Docs(docs: seq<string>)
    | FileText(text: string)
    | Text(text: string)

  /** A list comes back unchanged, a file's text is cut at every '\n', and a plain
      string becomes a one-document list. */
  function DocumentTransformer(src: Source): (r: seq<string>)
    ensures src.Docs? ==> r == src.docs
    ensures src.Text? ==> r == [src.text]
    ensures src.FileText? ==> |r| >= 1 && Join(r, '\n') == src.text
    ensures src.FileText? ==> forall p :: p in r ==> '\n' !in p
  {
    match src
    case Docs(docs) =>
      docs
    case FileText(text) =>
      JoinSplit(text, '\n');
      SplitPiecesFree(text, '\n');
      Split(text, '\n')
    case Text(text) =>
      [text]
  }

  /** Normalising an already normalised collection changes nothing. */
  lemma TransformerIdempotent(src: Source)
    ensures DocumentTransformer(Docs(DocumentTransformer(src))) == DocumentTransformer(src)
  {
  }

  /** A file holds one document per line: one more than it has '\n' characters. */
  lemma FileDocumentCount(text: string)
    ensures |DocumentTransformer(FileText(text))| == Occurrences('\n', text) + 1
  {
    SplitCount(text, '\n');
  }

  /** A file whose text ends in '\n' yields an empty last document. */
  lemma FileTrailingNewline(text: string)
    ensures DocumentTransformer(FileText(text + "\n")) == DocumentTransformer(FileText(text)) + [""]
  {
    TrailingSeparator(text, '\n');
  }

  /** Writing lines free of '\n' to a file, one per line, and reading it back gives
      the same documents. */
  lemma FileRoundTrip(lines: seq<string>)
    requires |lines| >= 1
    requires forall p :: p in lines ==> '\n' !in p
    ensures DocumentTransformer(FileText(Join(lines, '\n'))) == lines
  {
    SplitJoin(lines, '\n');
  }

  lemma FileExample()
    ensures DocumentTransformer(FileText("a b\nc d\n")) == ["a b", "c d", ""]
  {
    SplitAtSeparator("a b", '\n', "c d\n");
    SplitAtSeparator("c d", '\n', "");
    assert "a b\nc d\n" == "a b" + ['\n'] + "c d\n";
    assert "c d\n" == "c d" + ['\n'] + "";
    SplitWithoutSeparator("a b", '\n');
    SplitWithoutSeparator("c d", '\n');
  }
}
