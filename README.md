# Fingerprint key collision, verified

A Dafny model of the text-unification core of `homework/clean_data.py`. The
program clusters near-duplicate strings with the "fingerprint" method: each
`raw_text` gets a normalised key, and all rows that share a key are replaced
by one representative text.

The model has four modules:

- `StringOrder` (`ordering.dfy`): Python's ordering of `str` values, and
  `sorted(set(x))` as a function `SortedUnique`. The lemmas prove its result
  is strictly ascending, holds exactly the input's strings, and depends only
  on the set of its input.
- `Fingerprint` (`fingerprint.dfy`): `create_normalized_key` on one text as
  the function `ComputeKey(text, stem)`. The steps are strip, lower, delete
  `-`, delete `string.punctuation`, split on whitespace runs, stem each token,
  `sorted(set(...))` and `" ".join`. The Porter stemmer is the parameter
  `stem`. The lemmas show the key ignores case, surrounding whitespace,
  punctuation, word order and repeated words. They show the key's tokens are
  strictly ascending and split back out of the key. They also show the key is
  empty exactly for texts of whitespace and punctuation only, when the stemmer
  keeps words non-empty.
- `Resolver` (`resolver.dfy`): `generate_cleaned_text`, in two parts:
  - the method `FirstOccurrenceMap`, a loop that builds the key to
    `raw_text` dictionary;
  - the method `GenerateCleanedText`, a loop that fills the caller's
    `cleaned_text` column, an array.

  Both are proved against the specification function `CleanedColumn`.
- `CleanData` (`clean_data.dfy`): the two stages composed, and end-to-end
  consequences.

The representative of a key is the `raw_text` of the **first row in input
order** that has the key. Line 120 sorts a copy of the table by key and raw
text, and the comments at lines 118-124 suggest the sort decides the
representative. But line 125 deduplicates the caller's unsorted `df`, so the
sort has no effect on the result. The model follows the code.
`Resolver.FirstRowWinsOverSmallest` exhibits a group where the first text is
not the smallest one.

Characters follow Python's behaviour on ASCII:

- whitespace (`str.strip`, `str.split`) is code points 9-13 and 28-32;
- `str.lower` changes `A`-`Z` only;
- the deletion table of line 80 is exactly the ASCII symbols 33-47, 58-64,
  91-96 and 123-126 (`Fingerprint.PunctuationIsAsciiSymbols`).

## Model

| member | source | states |
|---|---|---|
| StringOrder.LessIrreflexive | homework/clean_data.py:94 | no string sorts before itself |
| StringOrder.LessTransitive | homework/clean_data.py:94 | Python's string order is transitive |
| StringOrder.LessTotal | homework/clean_data.py:94 | any two different strings are ordered one way round |
| StringOrder.Insert | homework/clean_data.py:94 | inserting into a strictly ascending list keeps it strictly ascending and adds exactly the new string |
| StringOrder.SortedUnique | homework/clean_data.py:94 | `sorted(set(xs))` is strictly ascending and holds exactly the strings of `xs` |
| StringOrder.AscendingUnique | homework/clean_data.py:94 | two strictly ascending lists with the same strings are equal, so the set fixes the sorted result |
| StringOrder.SortedUniqueBySet | homework/clean_data.py:94 | `sorted(set(xs))` depends only on the set of `xs` |
| Fingerprint.PunctuationIsAsciiSymbols | homework/clean_data.py:79-81 | a character is in the deletion table exactly when it is an ASCII symbol (33-47, 58-64, 91-96, 123-126) |
| Fingerprint.LeadingSpace | homework/clean_data.py:66 | counts the whitespace run that opens the text, stopping at the first other character |
| Fingerprint.TrailingStart | homework/clean_data.py:66 | finds where the whitespace run that closes the text begins |
| Fingerprint.StripParts | homework/clean_data.py:66 | `strip()` removes only whitespace around the text, and the result neither starts nor ends with whitespace |
| Fingerprint.LowerChar | homework/clean_data.py:70 | lowercasing leaves no capital, changes only capitals, and keeps whitespace as whitespace |
| Fingerprint.Lower | homework/clean_data.py:70 | `lower()` keeps the length and lowercases each character in place |
| Fingerprint.DeleteChars | homework/clean_data.py:75-81 | deleting characters never lengthens the text |
| Fingerprint.DeleteCharsElements | homework/clean_data.py:75-81 | a character survives the deletion exactly when it was present and is not in the table |
| Fingerprint.DeleteCharsAppend | homework/clean_data.py:75-81 | deletion works character by character, so it distributes over concatenation |
| Fingerprint.Normalise | homework/clean_data.py:70-81 | lower, then delete `-`, then delete punctuation; a text without whitespace stays without whitespace |
| Fingerprint.NormaliseDropsSymbols | homework/clean_data.py:70-81 | after steps 3 to 5 no capital and no punctuation is left |
| Fingerprint.NormaliseAppend | homework/clean_data.py:70-81 | steps 3 to 5 distribute over concatenation |
| Fingerprint.NormaliseChar | homework/clean_data.py:70-81 | one character becomes nothing if it is punctuation, its lowercase form otherwise; whitespace is kept |
| Fingerprint.NormaliseFirst | homework/clean_data.py:70-81 | the first character of a text is normalised on its own, in front of the rest |
| Fingerprint.NormaliseSpace | homework/clean_data.py:70-81 | whitespace passes steps 3 to 5 unchanged |
| Fingerprint.NormaliseLower | homework/clean_data.py:70 | lowercasing first changes nothing, because `lower()` is idempotent |
| Fingerprint.NormaliseBlank | homework/clean_data.py:70-81 | a text of whitespace and punctuation only is whitespace only after steps 3 to 5 |
| Fingerprint.SplitFrom | homework/clean_data.py:85 | `split()` yields non-empty words without whitespace, made of the text's characters |
| Fingerprint.Words | homework/clean_data.py:85 | `split()` of a text: non-empty words without whitespace, made of its characters |
| Fingerprint.SplitSkipsLeadingSpace | homework/clean_data.py:85 | leading whitespace adds no word |
| Fingerprint.SplitOfSpace | homework/clean_data.py:85 | whitespace only ends the word being read and adds nothing else |
| Fingerprint.SplitSkipsTrailingSpace | homework/clean_data.py:85 | trailing whitespace adds no word |
| Fingerprint.WordsSkipSurroundingSpace | homework/clean_data.py:66-85 | whitespace around a text does not change its words, so the strip of line 66 does not affect the split |
| Fingerprint.SplitAbsorbsWord | homework/clean_data.py:85 | characters other than whitespace join the word being read |
| Fingerprint.SplitNonEmpty | homework/clean_data.py:85 | a text with a character other than whitespace has a word |
| Fingerprint.WordsOfJoin | homework/clean_data.py:85-98 | `" ".join` followed by `split()` gives back a list of non-empty words without whitespace |
| Fingerprint.KeepNonEmptyElements | homework/clean_data.py:85 | a result is kept exactly when it is the non-empty image of some word |
| Fingerprint.KeepNonEmptyAppend | homework/clean_data.py:85 | mapping and dropping empties distributes over concatenation |
| Fingerprint.CleanWordsElements | homework/clean_data.py:70-85 | a token is a non-empty normal form of one of the raw words, and every such normal form is a token |
| Fingerprint.CleanWordsAppend | homework/clean_data.py:70-85 | normalising words distributes over concatenation of word lists |
| Fingerprint.CleanPending | homework/clean_data.py:70-85 | a finished word yields its normal form, or nothing if that is empty |
| Fingerprint.SplitNormalise | homework/clean_data.py:70-85 | normalising then splitting equals splitting then normalising each word and dropping the empty ones |
| Fingerprint.TokensIgnoreStrip | homework/clean_data.py:66-85 | the strip of line 66 does not change the tokens |
| Fingerprint.TokensFromWords | homework/clean_data.py:66-85 | the tokens are the raw words, each normalised, with the empty ones dropped |
| Fingerprint.TokensAreClean | homework/clean_data.py:66-85 | every token is non-empty and holds no whitespace, capital, hyphen or punctuation |
| Fingerprint.Stems | homework/clean_data.py:89-90 | one stem per token, in token order |
| Fingerprint.StemsBySet | homework/clean_data.py:90 | token lists with the same set of tokens give stem lists with the same set of stems |
| Fingerprint.KeyFromStemSet | homework/clean_data.py:90-98 | the key depends only on the set of stems |
| Fingerprint.KeyFromWordSet | homework/clean_data.py:66-98 | texts whose words form the same set get the same key, whatever the order and the repeats |
| Fingerprint.KeyIgnoresWordOrder | homework/clean_data.py:85-98 | texts whose words are permutations of each other get the same key |
| Fingerprint.KeyIgnoresCase | homework/clean_data.py:70 | a text and its lowercase form get the same key |
| Fingerprint.KeyIgnoresSurroundingSpace | homework/clean_data.py:66 | whitespace around a text does not change its key |
| Fingerprint.KeyIgnoresPunctuation | homework/clean_data.py:75-81 | removing one punctuation mark, hyphen included, from anywhere keeps the key: it is deleted, not turned into a separator |
| Fingerprint.KeyIgnoresCaseAndSpace | homework/clean_data.py:66-70 | texts equal up to case and surrounding whitespace get the same key |
| Fingerprint.HelloWorldExample | homework/clean_data.py:66-70 | `"  Hello World  "` and `"hello world"` get the same key |
| Fingerprint.CoOpExample | homework/clean_data.py:75 | `"co-op"` and `"coop"` get the same key |
| Fingerprint.KeyOfBlankText | homework/clean_data.py:66-98 | empty, whitespace-only and punctuation-only texts get the empty key |
| Fingerprint.TokensOfNonBlank | homework/clean_data.py:66-85 | a text with a character that is neither whitespace nor punctuation has a token |
| Fingerprint.KeyOfTokens | homework/clean_data.py:89-98 | with a stemmer that keeps words non-empty, a text with a token has a non-empty key |
| Fingerprint.EmptyKeyIffBlank | homework/clean_data.py:58-98 | with such a stemmer, the key is empty exactly when the text is whitespace and punctuation only |
| Fingerprint.KeyRoundTrip | homework/clean_data.py:94-98 | splitting the key gives back its tokens, which are strictly ascending with one space between two |
| Fingerprint.KeysCollideIff | homework/clean_data.py:58-98 | two texts get the same key exactly when their stems form the same set |
| Resolver.Representative | homework/clean_data.py:125-129 | a key has a representative exactly when some row has the key, and it is the raw text of the first such row |
| Resolver.CleanedColumn | homework/clean_data.py:134 | the column has one entry per row |
| Resolver.CleanedColumnTakesFirst | homework/clean_data.py:125-134 | every row gets the raw text of the first row with its key, so rows with equal keys get equal texts |
| Resolver.FirstOccurrenceMap | homework/clean_data.py:125-129 | the dictionary holds exactly the keys that occur, each mapped to the raw text of its first row |
| Resolver.GenerateCleanedText | homework/clean_data.py:134 | the lookup never misses, and the column written into the caller's table is `CleanedColumn` |
| Resolver.GroupTakesFirstRow | homework/clean_data.py:125-134 | a row is cleaned to the raw text of its group's first row |
| Resolver.OneGroup | homework/clean_data.py:125-134 | when all rows share one key, every row gets the first row's text |
| Resolver.DistinctKeysKeepText | homework/clean_data.py:125-134 | when no two rows share a key, every row keeps its own text |
| Resolver.FirstRowWinsOverSmallest | homework/clean_data.py:120-134 | the sort has no effect: for the texts "Zebra", "apple", "Apple" sharing a key, all rows get "Zebra", although "Apple" sorts first |
| CleanData.CreateNormalizedKey | homework/clean_data.py:39-100 | the table keeps its rows and texts in order, and each row gets the key of its text |
| CleanData.CaseVariantsShareCleanedText | homework/clean_data.py:39-136 | texts that differ only in case are cleaned to the same text |
| CleanData.WordsOfTwo | homework/clean_data.py:85 | a two-word text splits into its two words |
| CleanData.SwappedWordsShareKey | homework/clean_data.py:85-98 | swapping the two words of a text keeps its key |
| CleanData.SharedKeyTakesFirstText | homework/clean_data.py:39-136 | texts that share one key are all cleaned to the first of them |
| CleanData.RecasedAndReorderedScenario | homework/clean_data.py:39-136 | a two-word text, its lowercase form and its swapped form are all cleaned to the first of them |

## Left out

- `load_data`, `save_data`, `main` and the `__main__` block (homework/clean_data.py:25-36, 139-199) are left out. They read and write CSV files and print, which is I/O.
- The Porter stemmer (homework/clean_data.py:89-90) is foreign code, so it is the uninterpreted parameter `stem`. Claims about its output, such as idempotence of the key or "running" and "run" colliding, are not made. Claims that need it to keep words non-empty and free of whitespace take that as the hypothesis `StemKeepsWords`.
- Python's Unicode behaviour of `strip`, `lower` and `split` is left out. Non-ASCII whitespace such as U+00A0 and U+2028 is treated as an ordinary character. Non-ASCII letters are not lowercased.
- Missing (NaN) `raw_text` values, which pandas' `.str` methods pass through, are left out. Every text is a string.
- The sort at homework/clean_data.py:120 is not modelled, because its result is discarded. `Resolver.FirstRowWinsOverSmallest` shows what it would have changed.
- DataFrame copying and indexing are not modelled. A table is a sequence of `Row` values (raw text and key), so row count, order, texts and keys cannot change. The new `cleaned_text` column is the array the caller passes to `GenerateCleanedText`.
