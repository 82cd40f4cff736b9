/**
 * The fingerprint key of one `raw_text` value (`create_normalized_key` in
 * homework/clean_data.py): strip, lowercase, delete hyphens, delete ASCII
 * punctuation, split on whitespace, stem every token, keep each stem once in
 * ascending order and join them with single spaces.
 *
 * Characters are Python code points restricted to their ASCII behaviour; the
 * Porter stemmer is the parameter `stem`.
 */
module Fingerprint {
  import opened StringOrder

  /** Python's `str.isspace` on ASCII code points: tab, line feed, vertical
      tab, form feed, carriage return, the separators 0x1C to 0x1F, and space.
      `str.strip()` and `str.split()` use this set. */
  predicate IsSpace(c: char)
  {
    9 <= c as int <= 13 || 28 <= c as int <= 32
  }

  predicate IsUpper(c: char)
  {
    'A' <= c <= 'Z'
  }

  ghost predicate AllSpace(s: string)
  {
    forall i :: 0 <= i < |s| ==> IsSpace(s[i])
  }

  ghost predicate NoSpace(s: string)
  {
    forall c :: c in s ==> !IsSpace(c)
  }

  /** The deletion table of the `str.translate` step: Python's
      `string.punctuation`. */
  const Punctuation: string := "!\"#$%&'()*+,-./:;<=>?@[\\]^_`{|}~"

  /** The punctuation set is exactly the printable ASCII symbols: the code
      points 33-47, 58-64, 91-96 and 123-126. */
  predicate IsAsciiSymbol(c: char)
  {
    33 <= c as int <= 47 || 58 <= c as int <= 64 || 91 <= c as int <= 96 || 123 <= c as int <= 126
  }

  lemma SymbolsArePunctuation(c: char)
    requires IsAsciiSymbol(c)
    ensures c in Punctuation
  {
    var n := c as int;
    var i := if n <= 47 then n - 33 else if n <= 64 then n - 43 else if n <= 96 then n - 69 else n - 95;
    assert Punctuation[i] == c;
  }

  lemma PunctuationAreSymbols(c: char)
    requires c in Punctuation
    ensures IsAsciiSymbol(c)
  {
    var i :| 0 <= i < |Punctuation| && Punctuation[i] == c;
  }

  lemma PunctuationIsAsciiSymbols(c: char)
    ensures c in Punctuation <==> IsAsciiSymbol(c)
  {
    if IsAsciiSymbol(c) {
      SymbolsArePunctuation(c);
    }
    if c in Punctuation {
      PunctuationAreSymbols(c);
    }
  }

  // ---------------------------------------------------------------------
  // Step by step, as the column is rewritten (lines 62-98)
  // ---------------------------------------------------------------------

  /** How many whitespace characters open `s`. */
  function LeadingSpace(s: string): (n: nat)
    ensures n <= |s| && AllSpace(s[..n])
    ensures n < |s| ==> !IsSpace(s[n])
    decreases |s|
  {
    if s != [] && IsSpace(s[0]) then 1 + LeadingSpace(s[1..]) else 0
  }

  /** Where the whitespace that closes `s` begins. */
  function TrailingStart(s: string): (n: nat)
    ensures n <= |s| && AllSpace(s[n..])
    ensures 0 < n ==> !IsSpace(s[n - 1])
    decreases |s|
  {
    if s != [] && IsSpace(s[|s| - 1]) then
      var t := s[..|s| - 1];
      var n := TrailingStart(t);
      assert n == 0 || s[n - 1] == t[n - 1];
      assert s[n..] == t[n..] + [s[|s| - 1]];
      n
    else |s|
  }

  /** `str.strip()` (line 66). */
  function Strip(s: string): string
  {
    var t := s[LeadingSpace(s)..];
    t[..TrailingStart(t)]
  }

  /** The input is the stripped text with whitespace on either side, and the
      stripped text neither starts nor ends with whitespace. */
  lemma StripParts(s: string) returns (lead: string, trail: string)
    ensures AllSpace(lead) && AllSpace(trail)
    ensures s == lead + Strip(s) + trail
    ensures Strip(s) == [] || (!IsSpace(Strip(s)[0]) && !IsSpace(Strip(s)[|Strip(s)| - 1]))
  {
    var t := s[LeadingSpace(s)..];
    lead, trail := s[..LeadingSpace(s)], t[TrailingStart(t)..];
    assert s == lead + t;
  }

  /** `str.lower()` on one character: only ASCII capitals change. */
  function LowerChar(c: char): (d: char)
    ensures !IsUpper(d)
    ensures IsSpace(d) <==> IsSpace(c)
    ensures IsUpper(c) || d == c
  {
    if IsUpper(c) then (c as int + 32) as char else c
  }

  /** `str.lower()` (line 70). */
  function Lower(s: string): (r: string)
    ensures |r| == |s|
    ensures forall i :: 0 <= i < |s| ==> r[i] == LowerChar(s[i])
  {
    seq(|s|, i requires 0 <= i < |s| => LowerChar(s[i]))
  }

  /** Deletes every character listed in `chars`: `str.replace("-", "")`
      (line 75) and `str.translate` with a deletion table (lines 79-81). */
  function DeleteChars(s: string, chars: string): (r: string)
    ensures |r| <= |s|
    decreases |s|
  {
    if s == [] then []
    else (if s[0] in chars then [] else [s[0]]) + DeleteChars(s[1..], chars)
  }

  /** A character is left after the deletion exactly when it was there and
      is not listed. */
  lemma {:induction false} DeleteCharsElements(s: string, chars: string)
    ensures forall c :: c in DeleteChars(s, chars) <==> c in s && c !in chars
    decreases |s|
  {
    if s != [] {
      DeleteCharsElements(s[1..], chars);
      assert forall c :: c in s <==> c == s[0] || c in s[1..] by {
        assert s == [s[0]] + s[1..];
      }
    }
  }

  /** Steps 3 to 5 together: lowercase, then delete hyphens, then delete
      punctuation. Text without whitespace stays without whitespace. */
  function Normalise(s: string): (r: string)
    ensures NoSpace(s) ==> NoSpace(r)
  {
    var r := DeleteChars(DeleteChars(Lower(s), "-"), Punctuation);
    assert forall c :: c in r ==> c in Lower(s) by {
      DeleteCharsElements(Lower(s), "-");
      DeleteCharsElements(DeleteChars(Lower(s), "-"), Punctuation);
    }
    r
  }

  /** What is left after steps 3 to 5 holds no capital and no ASCII
      punctuation (the hyphen included). */
  lemma NormaliseDropsSymbols(s: string)
    ensures forall c :: c in Normalise(s) ==> !IsUpper(c) && !IsAsciiSymbol(c)
  {
    DeleteCharsElements(Lower(s), "-");
    DeleteCharsElements(DeleteChars(Lower(s), "-"), Punctuation);
    forall c | c in Normalise(s) ensures !IsUpper(c) && !IsAsciiSymbol(c) {
      PunctuationIsAsciiSymbols(c);
    }
  }

  /** `str.split()` with no separator (line 85), scanning left to right with
      the characters of the word being read in `cur`: whitespace runs
      separate words and no word is empty. */
  function SplitFrom(s: string, cur: string): (r: seq<string>)
    requires NoSpace(cur)
    ensures forall w :: w in r ==> w != [] && NoSpace(w) && forall c :: c in w ==> c in s || c in cur
    decreases |s|
  {
    if s == [] then
      (if cur == [] then [] else [cur])
    else if IsSpace(s[0]) then
      var rest := SplitFrom(s[1..], []);
      (if cur == [] then [] else [cur]) + rest
    else
      var rest := SplitFrom(s[1..], cur + [s[0]]);
      assert forall c :: c in cur + [s[0]] ==> c in s || c in cur;
      rest
  }

  function Words(s: string): (r: seq<string>)
    ensures forall w :: w in r ==> w != [] && NoSpace(w) && forall c :: c in w ==> c in s
  {
    SplitFrom(s, [])
  }

  /** The token list of a text after steps 2 to 6 (lines 66-85). */
  function Tokens(text: string): seq<string>
  {
    Words(Normalise(Strip(text)))
  }

  /** The list comprehension of line 90: stem every token. */
  function Stems(tokens: seq<string>, stem: string -> string): (r: seq<string>)
    ensures |r| == |tokens|
    ensures forall i :: 0 <= i < |tokens| ==> r[i] == stem(tokens[i])
  {
    seq(|tokens|, i requires 0 <= i < |tokens| => stem(tokens[i]))
  }

  /** The list behind the key: `sorted(set(stems))` (line 94). */
  function KeyTokens(text: string, stem: string -> string): seq<string>
  {
    SortedUnique(Stems(Tokens(text), stem))
  }

  /** `" ".join(tokens)` (line 98). */
  function Join(tokens: seq<string>): string
    decreases |tokens|
  {
    if tokens == [] then []
    else if |tokens| == 1 then tokens[0]
    else tokens[0] + " " + Join(tokens[1..])
  }

  /** The fingerprint key of one `raw_text` value (lines 62-98). */
  function ComputeKey(text: string, stem: string -> string): string
  {
    Join(KeyTokens(text, stem))
  }

  /** What the stemmer must do for the key to be splittable back into its
      stems: map a non-empty word without whitespace to one. */
  ghost predicate StemKeepsWords(stem: string -> string)
  {
    forall w :: w != [] && NoSpace(w) ==> stem(w) != [] && NoSpace(stem(w))
  }

  // ---------------------------------------------------------------------
  // Facts about the steps
  // ---------------------------------------------------------------------

  lemma {:induction false} DeleteCharsAppend(a: string, b: string, chars: string)
    ensures DeleteChars(a + b, chars) == DeleteChars(a, chars) + DeleteChars(b, chars)
    decreases |a|
  {
    if a != [] {
      assert (a + b)[0] == a[0] && (a + b)[1..] == a[1..] + b;
      DeleteCharsAppend(a[1..], b, chars);
      var h := if a[0] in chars then [] else [a[0]];
      assert DeleteChars(a + b, chars) == h + DeleteChars(a[1..] + b, chars);
      assert DeleteChars(a, chars) == h + DeleteChars(a[1..], chars);
    } else {
      assert a + b == b;
    }
  }

  lemma NormaliseAppend(a: string, b: string)
    ensures Normalise(a + b) == Normalise(a) + Normalise(b)
  {
    assert Lower(a + b) == Lower(a) + Lower(b);
    DeleteCharsAppend(Lower(a), Lower(b), "-");
    DeleteCharsAppend(DeleteChars(Lower(a), "-"), DeleteChars(Lower(b), "-"), Punctuation);
  }

  /** One character normalises to nothing when it is punctuation (the hyphen
      included) and to its lowercase form otherwise. */
  lemma NormaliseChar(c: char)
    ensures Normalise([c]) == if c in Punctuation then [] else [LowerChar(c)]
    ensures IsSpace(c) ==> Normalise([c]) == [c]
  {
    PunctuationIsAsciiSymbols(c);
    PunctuationIsAsciiSymbols(LowerChar(c));
    assert Lower([c]) == [LowerChar(c)];
    assert '-' in Punctuation by { assert Punctuation[12] == '-'; }
    assert DeleteChars([LowerChar(c)], "-") == if c == '-' then [] else [LowerChar(c)];
  }

  lemma {:induction false} NormaliseSpace(w: string)
    requires AllSpace(w)
    ensures Normalise(w) == w
    decreases |w|
  {
    if w != [] {
      assert w == [w[0]] + w[1..];
      NormaliseAppend([w[0]], w[1..]);
      NormaliseChar(w[0]);
      NormaliseSpace(w[1..]);
    }
  }

  lemma {:induction false} NormaliseLower(s: string)
    ensures Normalise(Lower(s)) == Normalise(s)
  {
    assert Lower(Lower(s)) == Lower(s);
  }

  /** Whether a text holds nothing but whitespace and punctuation (the
      ASCII symbols, by `PunctuationIsAsciiSymbols`). */
  ghost predicate Blank(text: string)
  {
    forall i :: 0 <= i < |text| ==> IsSpace(text[i]) || IsAsciiSymbol(text[i])
  }

  lemma {:induction false} NormaliseBlank(text: string)
    requires Blank(text)
    ensures AllSpace(Normalise(text))
    decreases |text|
  {
    if text != [] {
      var c, rest := text[0], Normalise(text[1..]);
      var n := if IsAsciiSymbol(c) then [] else [LowerChar(c)];
      assert Normalise(text) == n + rest by {
        NormaliseFirst(text, []);
      }
      assert AllSpace(n);
      NormaliseBlank(text[1..]);
      AllSpaceAppend(n, rest);
    }
  }

  lemma AllSpaceAppend(a: string, b: string)
    requires AllSpace(a) && AllSpace(b)
    ensures AllSpace(a + b)
  {
    assert forall i :: 0 <= i < |a + b| ==> (a + b)[i] == if i < |a| then a[i] else b[i - |a|];
  }

  // ---------------------------------------------------------------------
  // Facts about `str.split()`
  // ---------------------------------------------------------------------

  lemma {:induction false} SplitSkipsLeadingSpace(w: string, x: string)
    requires AllSpace(w)
    ensures SplitFrom(w + x, []) == SplitFrom(x, [])
    decreases |w|
  {
    if w != [] {
      assert (w + x)[0] == w[0] && (w + x)[1..] == w[1..] + x;
      SplitSkipsLeadingSpace(w[1..], x);
    } else {
      assert w + x == x;
    }
  }

  lemma {:induction false} SplitOfSpace(w: string, cur: string)
    requires AllSpace(w) && NoSpace(cur)
    ensures SplitFrom(w, cur) == if cur == [] then [] else [cur]
    decreases |w|
  {
    if w != [] {
      SplitOfSpace(w[1..], []);
    }
  }

  lemma {:induction false} SplitSkipsTrailingSpace(x: string, w: string, cur: string)
    requires AllSpace(w) && NoSpace(cur)
    ensures SplitFrom(x + w, cur) == SplitFrom(x, cur)
    decreases |x|
  {
    if x == [] {
      assert x + w == w;
      SplitOfSpace(w, cur);
    } else {
      assert (x + w)[0] == x[0] && (x + w)[1..] == x[1..] + w;
      if IsSpace(x[0]) {
        SplitSkipsTrailingSpace(x[1..], w, []);
      } else {
        SplitSkipsTrailingSpace(x[1..], w, cur + [x[0]]);
      }
    }
  }

  /** Whitespace around a text adds no words. */
  lemma WordsSkipSurroundingSpace(lead: string, x: string, trail: string)
    requires AllSpace(lead) && AllSpace(trail)
    ensures Words(lead + x + trail) == Words(x)
  {
    assert lead + x + trail == lead + (x + trail);
    SplitSkipsLeadingSpace(lead, x + trail);
    SplitSkipsTrailingSpace(x, trail, []);
  }

  /** A word without whitespace is read straight into the current word. */
  lemma {:induction false} SplitAbsorbsWord(t: string, rest: string, cur: string)
    requires NoSpace(t) && NoSpace(cur)
    ensures SplitFrom(t + rest, cur) == SplitFrom(rest, cur + t)
    decreases |t|
  {
    if t == [] {
      assert t + rest == rest && cur + t == cur;
    } else {
      assert (t + rest)[0] == t[0] && (t + rest)[1..] == t[1..] + rest;
      assert cur + t == (cur + [t[0]]) + t[1..];
      SplitAbsorbsWord(t[1..], rest, cur + [t[0]]);
    }
  }

  lemma {:induction false} SplitNonEmpty(s: string, cur: string, i: nat)
    requires NoSpace(cur)
    requires i < |s| && !IsSpace(s[i])
    ensures SplitFrom(s, cur) != []
    decreases |s|
  {
    if IsSpace(s[0]) {
      if cur == [] {
        SplitNonEmpty(s[1..], [], i - 1);
      }
    } else if i == 0 {
      if |s| > 1 && IsSpace(s[1]) {
        assert SplitFrom(s[1..], cur + [s[0]]) == [cur + [s[0]]] + SplitFrom(s[2..], []);
      } else if |s| > 1 {
        SplitNonEmpty(s[1..], cur + [s[0]], 0);
      }
    } else {
      SplitNonEmpty(s[1..], cur + [s[0]], i - 1);
    }
  }

  /** `" ".join` and `str.split()` are inverse on lists of non-empty words
      without whitespace. */
  lemma {:induction false} WordsOfJoin(ts: seq<string>)
    requires forall t :: t in ts ==> t != [] && NoSpace(t)
    ensures Words(Join(ts)) == ts
    decreases |ts|
  {
    if |ts| == 1 {
      SplitAbsorbsWord(ts[0], [], []);
      assert ts[0] + [] == ts[0] && [] + ts[0] == ts[0];
    } else if |ts| > 1 {
      var t, j := ts[0], Join(ts[1..]);
      assert t + " " + j == t + (" " + j);
      SplitAbsorbsWord(t, " " + j, []);
      assert [] + t == t;
      assert (" " + j)[0] == ' ' && (" " + j)[1..] == j;
      WordsOfJoin(ts[1..]);
      assert ts == [t] + ts[1..];
    }
  }

  // ---------------------------------------------------------------------
  // From raw words to tokens
  // ---------------------------------------------------------------------

  /** Applies `f` to every word and keeps the results that are not empty. */
  function KeepNonEmpty(words: seq<string>, f: string -> string): seq<string>
    decreases |words|
  {
    if words == [] then []
    else
      var t := f(words[0]);
      (if t == [] then [] else [t]) + KeepNonEmpty(words[1..], f)
  }

  lemma {:induction false} KeepNonEmptyElements(words: seq<string>, f: string -> string)
    ensures forall t :: t in KeepNonEmpty(words, f) <==> t != [] && exists w :: w in words && f(w) == t
    decreases |words|
  {
    if words != [] {
      KeepNonEmptyElements(words[1..], f);
      var t := f(words[0]);
      var rest := KeepNonEmpty(words[1..], f);
      assert KeepNonEmpty(words, f) == (if t == [] then [] else [t]) + rest;
      assert forall u :: u in KeepNonEmpty(words, f) <==> (u == t && t != []) || u in rest;
      assert forall w :: w in words <==> w == words[0] || w in words[1..] by {
        assert words == [words[0]] + words[1..];
      }
    }
  }

  lemma {:induction false} KeepNonEmptyAppend(a: seq<string>, b: seq<string>, f: string -> string)
    ensures KeepNonEmpty(a + b, f) == KeepNonEmpty(a, f) + KeepNonEmpty(b, f)
    decreases |a|
  {
    if a == [] {
      assert a + b == b;
    } else {
      assert (a + b)[0] == a[0] && (a + b)[1..] == a[1..] + b;
      KeepNonEmptyAppend(a[1..], b, f);
    }
  }

  /** The whitespace-separated words of the raw text, each normalised, with
      those that normalise to nothing dropped. */
  function CleanWords(words: seq<string>): seq<string>
  {
    KeepNonEmpty(words, Normalise)
  }

  /** A token comes out of `CleanWords` exactly when it is the non-empty
      normal form of one of the words. */
  lemma CleanWordsElements(words: seq<string>)
    ensures forall t :: t in CleanWords(words) <==> t != [] && exists w :: w in words && Normalise(w) == t
  {
    KeepNonEmptyElements(words, Normalise);
  }

  lemma CleanWordsAppend(a: seq<string>, b: seq<string>)
    ensures CleanWords(a + b) == CleanWords(a) + CleanWords(b)
  {
    KeepNonEmptyAppend(a, b, Normalise);
  }

  lemma KeepNonEmptyOne(w: string, f: string -> string)
    ensures KeepNonEmpty([w], f) == if f(w) == [] then [] else [f(w)]
  {
    assert [w][1..] == [];
  }

  /** The word being read, once finished, normalises to its normal form
      unless that is empty. */
  lemma CleanPending(cur: string)
    ensures CleanWords(if cur == [] then [] else [cur]) ==
            if Normalise(cur) == [] then [] else [Normalise(cur)]
  {
    if cur != [] {
      KeepNonEmptyOne(cur, Normalise);
    }
  }

  /** `SplitNormalise` when a whitespace character comes next. */
  lemma SplitNormaliseAtSpace(s: string, cur: string)
    requires NoSpace(cur) && s != [] && IsSpace(s[0])
    requires SplitFrom(Normalise(s[1..]), []) == CleanWords(SplitFrom(s[1..], []))
    ensures SplitFrom(Normalise(s), Normalise(cur)) == CleanWords(SplitFrom(s, cur))
  {
    var nc := Normalise(cur);
    var finished := if nc == [] then [] else [nc];
    assert SplitFrom(Normalise(s), nc) == finished + SplitFrom(Normalise(s[1..]), []) by {
      SplitAfterNormalisedSpace(s, cur);
    }
    assert CleanWords(SplitFrom(s, cur)) == finished + CleanWords(SplitFrom(s[1..], [])) by {
      var pending := if cur == [] then [] else [cur];
      assert SplitFrom(s, cur) == pending + SplitFrom(s[1..], []);
      CleanPending(cur);
      CleanWordsAppend(pending, SplitFrom(s[1..], []));
    }
  }

  /** Whitespace survives normalisation, so it still ends the word. */
  lemma SplitAfterNormalisedSpace(s: string, cur: string)
    requires NoSpace(cur) && s != [] && IsSpace(s[0])
    ensures var nc := Normalise(cur);
            SplitFrom(Normalise(s), nc) == (if nc == [] then [] else [nc]) + SplitFrom(Normalise(s[1..]), [])
  {
    var n1 := Normalise(s[1..]);
    assert Normalise(s) == [s[0]] + n1 by {
      NormaliseFirst(s, cur);
      assert !IsAsciiSymbol(s[0]) && LowerChar(s[0]) == s[0];
    }
    assert ([s[0]] + n1)[0] == s[0] && ([s[0]] + n1)[1..] == n1;
  }

  /** `SplitNormalise` when a character other than whitespace comes next. */
  /** Normalising a text whose first character is `c` normalises `c` on its
      own, the same as at the end of the word being read. */
  lemma NormaliseFirst(s: string, cur: string)
    requires s != []
    ensures var n := if IsAsciiSymbol(s[0]) then [] else [LowerChar(s[0])];
            Normalise(s) == n + Normalise(s[1..]) && Normalise(cur + [s[0]]) == Normalise(cur) + n
  {
    assert s == [s[0]] + s[1..];
    NormaliseAppend([s[0]], s[1..]);
    NormaliseAppend(cur, [s[0]]);
    NormaliseChar(s[0]);
    PunctuationIsAsciiSymbols(s[0]);
  }

  /** `SplitNormalise` when punctuation comes next: it vanishes. */
  lemma SplitNormaliseAtSymbol(s: string, cur: string)
    requires NoSpace(cur) && s != [] && IsAsciiSymbol(s[0])
    requires SplitFrom(Normalise(s[1..]), Normalise(cur + [s[0]])) == CleanWords(SplitFrom(s[1..], cur + [s[0]]))
    ensures SplitFrom(Normalise(s), Normalise(cur)) == CleanWords(SplitFrom(s, cur))
  {
    assert !IsSpace(s[0]);
    NormaliseFirst(s, cur);
    assert [] + Normalise(s[1..]) == Normalise(s[1..]) && Normalise(cur) + [] == Normalise(cur);
  }

  /** `SplitNormalise` when a character that is neither whitespace nor
      punctuation comes next: it joins the word being read, lowercased. */
  lemma SplitNormaliseAtLetter(s: string, cur: string)
    requires NoSpace(cur) && s != [] && !IsSpace(s[0]) && !IsAsciiSymbol(s[0])
    requires SplitFrom(Normalise(s[1..]), Normalise(cur + [s[0]])) == CleanWords(SplitFrom(s[1..], cur + [s[0]]))
    ensures SplitFrom(Normalise(s), Normalise(cur)) == CleanWords(SplitFrom(s, cur))
  {
    var n1, nc, d := Normalise(s[1..]), Normalise(cur), LowerChar(s[0]);
    NormaliseFirst(s, cur);
    assert SplitFrom([d] + n1, nc) == SplitFrom(n1, nc + [d]) by {
      assert ([d] + n1)[0] == d && ([d] + n1)[1..] == n1;
    }
  }

  /** Normalising the text before splitting it gives the words one gets by
      splitting first and normalising each word. */
  lemma {:induction false} SplitNormalise(s: string, cur: string)
    requires NoSpace(cur)
    ensures SplitFrom(Normalise(s), Normalise(cur)) == CleanWords(SplitFrom(s, cur))
    decreases |s|
  {
    if s == [] {
      CleanPending(cur);
    } else if IsSpace(s[0]) {
      SplitNormalise(s[1..], []);
      SplitNormaliseAtSpace(s, cur);
    } else {
      SplitNormalise(s[1..], cur + [s[0]]);
      if IsAsciiSymbol(s[0]) {
        SplitNormaliseAtSymbol(s, cur);
      } else {
        SplitNormaliseAtLetter(s, cur);
      }
    }
  }

  /** Stripping does not change the tokens. */
  lemma TokensIgnoreStrip(text: string)
    ensures Tokens(text) == Words(Normalise(text))
  {
    var lead, trail := StripParts(text);
    NormaliseAppend(lead, Strip(text));
    NormaliseAppend(lead + Strip(text), trail);
    NormaliseSpace(lead);
    NormaliseSpace(trail);
    WordsSkipSurroundingSpace(lead, Normalise(Strip(text)), trail);
  }

  /** The tokens are the normalised raw words, empty ones dropped. */
  lemma TokensFromWords(text: string)
    ensures Tokens(text) == CleanWords(Words(text))
  {
    TokensIgnoreStrip(text);
    SplitNormalise(text, []);
    assert Normalise([]) == [];
  }

  // ---------------------------------------------------------------------
  // Properties of the key
  // ---------------------------------------------------------------------

  /** Every token after steps 2 to 6 is non-empty and holds no whitespace,
      no capital, no hyphen and no punctuation. */
  lemma TokensAreClean(text: string)
    ensures forall t :: t in Tokens(text) ==>
              t != [] && forall c :: c in t ==> !IsSpace(c) && !IsUpper(c) && c != '-' && c !in Punctuation
  {
    NormaliseDropsSymbols(Strip(text));
    forall t, c | t in Tokens(text) && c in t
      ensures !IsSpace(c) && !IsUpper(c) && c != '-' && c !in Punctuation
    {
      PunctuationIsAsciiSymbols(c);
    }
  }

  lemma StemsBySet(ts: seq<string>, us: seq<string>, stem: string -> string)
    requires SameElements(ts, us)
    ensures SameElements(Stems(ts, stem), Stems(us, stem))
  {
    forall x ensures x in Stems(ts, stem) ==> x in Stems(us, stem) {
      if x in Stems(ts, stem) {
        var i :| 0 <= i < |ts| && Stems(ts, stem)[i] == x;
        assert ts[i] in us;
        var j :| 0 <= j < |us| && us[j] == ts[i];
        assert Stems(us, stem)[j] == x;
      }
    }
    forall x ensures x in Stems(us, stem) ==> x in Stems(ts, stem) {
      if x in Stems(us, stem) {
        var j :| 0 <= j < |us| && Stems(us, stem)[j] == x;
        assert us[j] in ts;
        var i :| 0 <= i < |ts| && ts[i] == us[j];
        assert Stems(ts, stem)[i] == x;
      }
    }
  }

  /** The key depends only on the set of stems of the tokens. */
  lemma KeyFromStemSet(a: string, b: string, stem: string -> string)
    requires SameElements(Stems(Tokens(a), stem), Stems(Tokens(b), stem))
    ensures ComputeKey(a, stem) == ComputeKey(b, stem)
  {
    SortedUniqueBySet(Stems(Tokens(a), stem), Stems(Tokens(b), stem));
  }

  /** Word order and repeated words do not matter: texts whose words form
      the same set get the same key. */
  lemma KeyFromWordSet(a: string, b: string, stem: string -> string)
    requires SameElements(Words(a), Words(b))
    ensures ComputeKey(a, stem) == ComputeKey(b, stem)
  {
    TokensFromWords(a);
    TokensFromWords(b);
    CleanWordsElements(Words(a));
    CleanWordsElements(Words(b));
    assert SameElements(Tokens(a), Tokens(b));
    StemsBySet(Tokens(a), Tokens(b), stem);
    KeyFromStemSet(a, b, stem);
  }

  /** Texts whose whitespace-separated words are a permutation of each other
      get the same key. */
  lemma KeyIgnoresWordOrder(a: string, b: string, stem: string -> string)
    requires multiset(Words(a)) == multiset(Words(b))
    ensures ComputeKey(a, stem) == ComputeKey(b, stem)
  {
    forall w ensures w in Words(a) <==> w in Words(b) {
      assert w in Words(a) <==> w in multiset(Words(a));
      assert w in Words(b) <==> w in multiset(Words(b));
    }
    KeyFromWordSet(a, b, stem);
  }

  /** Case does not matter. */
  lemma KeyIgnoresCase(text: string, stem: string -> string)
    ensures ComputeKey(Lower(text), stem) == ComputeKey(text, stem)
  {
    TokensIgnoreStrip(text);
    TokensIgnoreStrip(Lower(text));
    NormaliseLower(text);
  }

  /** Whitespace around the text does not matter. */
  lemma KeyIgnoresSurroundingSpace(lead: string, text: string, trail: string, stem: string -> string)
    requires AllSpace(lead) && AllSpace(trail)
    ensures ComputeKey(lead + text + trail, stem) == ComputeKey(text, stem)
  {
    TokensIgnoreStrip(lead + text + trail);
    TokensIgnoreStrip(text);
    NormaliseAppend(lead, text);
    NormaliseAppend(lead + text, trail);
    NormaliseSpace(lead);
    NormaliseSpace(trail);
    WordsSkipSurroundingSpace(lead, Normalise(text), trail);
  }

  /** A hyphen or other punctuation mark is deleted, not turned into a word
      separator: removing it from anywhere in the text keeps the key. */
  lemma KeyIgnoresPunctuation(before: string, c: char, after: string, stem: string -> string)
    requires c in Punctuation
    ensures ComputeKey(before + [c] + after, stem) == ComputeKey(before + after, stem)
  {
    assert Normalise(before + [c] + after) == Normalise(before + after) by {
      NormaliseAppend(before, [c]);
      NormaliseAppend(before + [c], after);
      NormaliseAppend(before, after);
      NormaliseChar(c);
    }
    assert Tokens(before + [c] + after) == Tokens(before + after) by {
      TokensIgnoreStrip(before + [c] + after);
      TokensIgnoreStrip(before + after);
    }
  }

  /** Texts equal up to case and surrounding whitespace get the same key. */
  lemma KeyIgnoresCaseAndSpace(lead: string, a: string, trail: string, b: string, stem: string -> string)
    requires AllSpace(lead) && AllSpace(trail) && Lower(a) == Lower(b)
    ensures ComputeKey(lead + a + trail, stem) == ComputeKey(b, stem)
  {
    KeyIgnoresSurroundingSpace(lead, a, trail, stem);
    KeyIgnoresCase(a, stem);
    KeyIgnoresCase(b, stem);
  }

  lemma HelloWorldExample(stem: string -> string)
    ensures ComputeKey("  Hello World  ", stem) == ComputeKey("hello world", stem)
  {
    assert "  Hello World  " == "  " + "Hello World" + "  ";
    assert Lower("Hello World") == Lower("hello world");
    KeyIgnoresCaseAndSpace("  ", "Hello World", "  ", "hello world", stem);
  }

  lemma CoOpExample(stem: string -> string)
    ensures ComputeKey("co-op", stem) == ComputeKey("coop", stem)
  {
    assert "co-op" == "co" + ['-'] + "op" && "coop" == "co" + "op";
    assert '-' in Punctuation by { assert Punctuation[12] == '-'; }
    KeyIgnoresPunctuation("co", '-', "op", stem);
  }

  /** Empty, whitespace-only and punctuation-only texts get the empty key. */
  lemma KeyOfBlankText(text: string, stem: string -> string)
    requires Blank(text)
    ensures ComputeKey(text, stem) == ""
  {
    TokensIgnoreStrip(text);
    NormaliseBlank(text);
    SplitOfSpace(Normalise(text), []);
  }

  /** A text with a character that is neither whitespace nor punctuation
      has at least one token. */
  lemma TokensOfNonBlank(text: string)
    requires !Blank(text)
    ensures Tokens(text) != []
  {
    var i :| 0 <= i < |text| && !IsSpace(text[i]) && !IsAsciiSymbol(text[i]);
    var n, front, back := Normalise(text), Normalise(text[..i]), Normalise(text[i..]);
    assert n == front + back by {
      assert text == text[..i] + text[i..];
      NormaliseAppend(text[..i], text[i..]);
    }
    assert back[0] == LowerChar(text[i]) by {
      NormaliseFirst(text[i..], []);
    }
    assert n[|front|] == back[0];
    SplitNonEmpty(n, [], |front|);
    TokensIgnoreStrip(text);
  }

  /** With a stemmer that keeps words non-empty, a text with a token has a
      non-empty key. */
  lemma KeyOfTokens(text: string, stem: string -> string)
    requires StemKeepsWords(stem) && Tokens(text) != []
    ensures ComputeKey(text, stem) != ""
  {
    var tokens := Tokens(text);
    var stems := Stems(tokens, stem);
    var kt := KeyTokens(text, stem);
    assert SameElements(kt, stems) && StrictlyAscending(kt);
    assert stems[0] in kt;
    assert kt[0] in stems;
    var j :| 0 <= j < |stems| && stems[j] == kt[0];
    assert tokens[j] in tokens;
    assert kt[0] != [];
  }

  /** When the stemmer keeps words non-empty, the key is empty exactly for
      blank texts. */
  lemma EmptyKeyIffBlank(text: string, stem: string -> string)
    requires StemKeepsWords(stem)
    ensures ComputeKey(text, stem) == "" <==> Blank(text)
  {
    if Blank(text) {
      KeyOfBlankText(text, stem);
    } else {
      TokensOfNonBlank(text);
      KeyOfTokens(text, stem);
    }
  }

  /** Splitting the key on whitespace gives back its tokens, which are
      strictly ascending: sorted, without repeats, one space between two. */
  lemma KeyRoundTrip(text: string, stem: string -> string)
    requires StemKeepsWords(stem)
    ensures Words(ComputeKey(text, stem)) == KeyTokens(text, stem)
    ensures StrictlyAscending(Words(ComputeKey(text, stem)))
  {
    var tokens := Tokens(text);
    var kt := KeyTokens(text, stem);
    forall t | t in kt ensures t != [] && NoSpace(t) {
      var i :| 0 <= i < |tokens| && Stems(tokens, stem)[i] == t;
      assert tokens[i] in tokens;
    }
    WordsOfJoin(kt);
  }

  /** When the stemmer keeps words non-empty, two texts collide exactly when
      their stemmed tokens form the same set. */
  lemma KeysCollideIff(a: string, b: string, stem: string -> string)
    requires StemKeepsWords(stem)
    ensures ComputeKey(a, stem) == ComputeKey(b, stem) <==>
            SameElements(Stems(Tokens(a), stem), Stems(Tokens(b), stem))
  {
    if ComputeKey(a, stem) == ComputeKey(b, stem) {
      KeyRoundTrip(a, stem);
      KeyRoundTrip(b, stem);
    }
    if SameElements(Stems(Tokens(a), stem), Stems(Tokens(b), stem)) {
      KeyFromStemSet(a, b, stem);
    }
  }
}
