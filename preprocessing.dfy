/**
 * `preprocess_ingredient`: lower-case an ingredient, split it on runs of
 * non-word characters, drop the stopwords and stem what is left.
 *
 * The Porter stemmer is not modelled: every operation takes it as the
 * parameter `stem`, and nothing is assumed about it.
 */
module Preprocessing {
  import opened Text
  import opened Filtering

  /** The seven stopwords, compared after lower-casing and before stemming. */
  const Stopwords: set<string> := {"green", "fresh", "for", "with", "on", "in", "and"}

  predicate IsKept(token: string) {
    token !in Stopwords
  }

  /**
   * `preprocess_ingredient(ingredient)`: at most one token per piece, and
   * every token the stem of a piece that is no stopword.
   */
  function Preprocess(stem: string -> string, ingredient: string): (tokens: seq<string>)
    ensures |tokens| <= |Split(LowerStr(ingredient))|
    ensures forall t :: t in tokens ==>
              exists p :: p in Split(LowerStr(ingredient)) && p !in Stopwords && t == stem(p)
  {
    FilterMap(Split(LowerStr(ingredient)), IsKept, stem)
  }

  /**
   * The result is, in order, the stem of exactly those pieces of the
   * lower-cased ingredient that are not stopwords; so its length is the
   * number of such pieces.
   */
  lemma PreprocessSpec(stem: string -> string, ingredient: string)
    ensures var pieces := Split(LowerStr(ingredient));
            var kept := Positions(pieces, IsKept);
            && |Preprocess(stem, ingredient)| == |kept|
            && (forall k :: 0 <= k < |kept| ==> Preprocess(stem, ingredient)[k] == stem(pieces[kept[k]]))
            && (forall i :: 0 <= i < |pieces| ==> (i in kept <==> pieces[i] !in Stopwords))
  {
    var pieces := Split(LowerStr(ingredient));
    FilterMapAtPositions(pieces, IsKept, stem);
    forall i | 0 <= i < |pieces| ensures i in Positions(pieces, IsKept) <==> pieces[i] !in Stopwords {
      PositionsMembership(pieces, IsKept, i);
    }
  }

  /** Ingredients that differ only in letter case preprocess alike. */
  lemma CaseInsensitive(stem: string -> string, a: string, b: string)
    requires |a| == |b|
    requires forall i :: 0 <= i < |a| ==> SameIgnoringCase(a[i], b[i])
    ensures Preprocess(stem, a) == Preprocess(stem, b)
  {
    forall i | 0 <= i < |a| ensures LowerStr(a)[i] == LowerStr(b)[i] {
      LowerCharAlike(a[i], b[i]);
    }
    assert LowerStr(a) == LowerStr(b);
  }

  /** Preprocessing an ingredient or its lower-cased form gives the same tokens. */
  lemma LowerCasedAlike(stem: string -> string, ingredient: string)
    ensures Preprocess(stem, LowerStr(ingredient)) == Preprocess(stem, ingredient)
  {
    LowerStrIdempotent(ingredient);
  }

  /**
   * A single word is one token: nothing if its lower-cased form is a
   * stopword (so `Fresh` and `AND` vanish), and its stem otherwise.
   */
  lemma WordPreprocess(stem: string -> string, word: string)
    requires AllWord(word)
    ensures Preprocess(stem, word) ==
              if LowerStr(word) in Stopwords then [] else [stem(LowerStr(word))]
  {
    var lowered := LowerStr(word);
    LowerKeepsClasses(word);
    SplitOfWord(lowered);
    var pieces := [lowered];
    assert pieces[..|pieces| - 1] == [];
    assert FilterMap(pieces, IsKept, stem)
        == FilterMap([], IsKept, stem) + (if IsKept(lowered) then [stem(lowered)] else []);
  }

  /** `Fresh` and `AND` are stopwords once lower-cased, so they give no tokens. */
  lemma StopwordsInAnyCase(stem: string -> string, word: string)
    requires word == "Fresh" || word == "AND"
    ensures Preprocess(stem, word) == []
  {
    var lowered := LowerStr(word);
    if word == "Fresh" {
      assert lowered[0] == 'f' && lowered[1..] == "resh";
      assert lowered == "fresh";
    } else {
      assert lowered[0] == 'a' && lowered[1] == 'n' && lowered[2] == 'd';
      assert lowered == "and";
    }
    WordPreprocess(stem, word);
  }

  /**
   * An ingredient ending with a separator yields an empty last piece, which
   * is no stopword: it is stemmed and kept as the last token.
   */
  lemma TrailingSeparatorKeepsEmptyToken(stem: string -> string, ingredient: string)
    requires ingredient != [] && !IsWordChar(ingredient[|ingredient| - 1])
    ensures |Preprocess(stem, ingredient)| > 0
    ensures Preprocess(stem, ingredient)[|Preprocess(stem, ingredient)| - 1] == stem("")
  {
    var lowered := LowerStr(ingredient);
    LowerKeepsClasses(ingredient);
    LastPieceEmpty(lowered);
  }

  /** Likewise, an ingredient starting with a separator yields `stem("")` first. */
  lemma LeadingSeparatorKeepsEmptyToken(stem: string -> string, ingredient: string)
    requires ingredient != [] && !IsWordChar(ingredient[0])
    ensures |Preprocess(stem, ingredient)| > 0
    ensures Preprocess(stem, ingredient)[0] == stem("")
  {
    var pieces := Split(LowerStr(ingredient));
    LowerKeepsClasses(ingredient);
    var kept := Positions(pieces, IsKept);
    FilterMapAtPositions(pieces, IsKept, stem);
    assert 0 in kept;
    var k :| 0 <= k < |kept| && kept[k] == 0;
    assert kept[0] >= 0;
  }

  /**
   * A word followed by one separator, such as `apple,`, yields the word's
   * token (unless it is a stopword) and then `stem("")`.
   */
  lemma WordThenSeparator(stem: string -> string, word: string, c: char)
    requires word != [] && AllWord(word) && !IsWordChar(c)
    ensures Preprocess(stem, word + [c]) ==
              (if LowerStr(word) in Stopwords then [] else [stem(LowerStr(word))]) + [stem("")]
  {
    var lowered := LowerStr(word);
    assert LowerStr(word + [c]) == lowered + [LowerChar(c)];
    LowerKeepsClasses(word);
    SplitWordThenSeparator(lowered, LowerChar(c));
    var pieces := [lowered, ""];
    assert Split(LowerStr(word + [c])) == pieces;
    assert pieces[..1] == [lowered];
    assert [lowered][..0] == [];
    assert FilterMap([lowered], IsKept, stem) == if IsKept(lowered) then [stem(lowered)] else [];
    assert IsKept("");
    assert FilterMap(pieces, IsKept, stem) == FilterMap([lowered], IsKept, stem) + [stem("")];
  }
}
