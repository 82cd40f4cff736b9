/**
 * The two stages in sequence, as `main` in homework/clean_data.py runs them
 * between reading the input file and writing the output file.
 */
module CleanData {
  import opened StringOrder
  import opened Fingerprint
  import opened Resolver

  /** `create_normalized_key` (lines 39-100) on the whole `raw_text` column:
      a copy of the table with the key of every text beside it. */
  function CreateNormalizedKey(texts: seq<string>, stem: string -> string): (rows: seq<Row>)
    ensures |rows| == |texts|
    ensures forall i :: 0 <= i < |texts| ==> rows[i].rawText == texts[i] && rows[i].key == ComputeKey(texts[i], stem)
  {
    seq(|texts|, i requires 0 <= i < |texts| => Row(texts[i], ComputeKey(texts[i], stem)))
  }

  /** The `cleaned_text` column after both stages. */
  function CleanTexts(texts: seq<string>, stem: string -> string): seq<string>
  {
    CleanedColumn(CreateNormalizedKey(texts, stem))
  }

  /** Texts that differ only in case get the same cleaned text. */
  lemma CaseVariantsShareCleanedText(texts: seq<string>, stem: string -> string, i: int, j: int)
    requires 0 <= i < |texts| && 0 <= j < |texts|
    requires Lower(texts[i]) == Lower(texts[j])
    ensures CleanTexts(texts, stem)[i] == CleanTexts(texts, stem)[j]
  {
    KeyIgnoresCase(texts[i], stem);
    KeyIgnoresCase(texts[j], stem);
  }

  lemma WordsOfTwo(a: string, b: string)
    requires a != [] && b != [] && NoSpace(a) && NoSpace(b)
    ensures Words(a + " " + b) == [a, b]
  {
    WordsOfJoin([a, b]);
    assert Join([a, b]) == a + " " + Join([b]);
  }

  /** Swapping two words keeps the key. */
  lemma SwappedWordsShareKey(a: string, b: string, stem: string -> string)
    requires a != [] && b != [] && NoSpace(a) && NoSpace(b)
    ensures ComputeKey(a + " " + b, stem) == ComputeKey(b + " " + a, stem)
  {
    WordsOfTwo(a, b);
    WordsOfTwo(b, a);
    assert multiset([a, b]) == multiset([b, a]);
    KeyIgnoresWordOrder(a + " " + b, b + " " + a, stem);
  }

  /** Texts that all share one key are all cleaned to the first of them. */
  lemma SharedKeyTakesFirstText(texts: seq<string>, stem: string -> string)
    requires texts != []
    requires forall i :: 0 <= i < |texts| ==> ComputeKey(texts[i], stem) == ComputeKey(texts[0], stem)
    ensures CleanTexts(texts, stem) == seq(|texts|, i => texts[0])
  {
    OneGroup(CreateNormalizedKey(texts, stem));
  }

  /** A two-word text, its lowercase form and its words swapped (as in
      "Data Cleaning", "data cleaning", "Cleaning Data") share one key, so
      all three are cleaned to the first of them. */
  lemma RecasedAndReorderedScenario(a: string, b: string, stem: string -> string)
    requires a != [] && b != [] && NoSpace(a) && NoSpace(b)
    ensures CleanTexts([a + " " + b, Lower(a + " " + b), b + " " + a], stem) ==
            [a + " " + b, a + " " + b, a + " " + b]
  {
    var ab, ba := a + " " + b, b + " " + a;
    var texts := [ab, Lower(ab), ba];
    forall i | 0 <= i < |texts| ensures ComputeKey(texts[i], stem) == ComputeKey(texts[0], stem) {
      if i == 1 {
        KeyIgnoresCase(ab, stem);
      } else if i == 2 {
        SwappedWordsShareKey(a, b, stem);
      }
    }
    SharedKeyTakesFirstText(texts, stem);
  }
}
