/**
 * The front-end fuzzy search: both strings are normalised (lower-cased, with white space, `.`
 * and `_` removed) and the query must then occur in the target.
 */
module FuzzySearch {
  import opened Text

  /** The characters the search ignores: `[\s._]`. */
  predicate IsIgnored(c: char) {
    IsJsWhitespace(c) || c == '.' || c == '_'
  }

  /** `str.toLowerCase().replace(/[\s._]/g, '')`, lower-casing ASCII letters only. */
  function Normalize(s: string): (r: string)
    ensures |r| <= |s|
    ensures forall i :: 0 <= i < |r| ==> !IsIgnored(r[i]) && !IsAsciiUpper(r[i])
  {
    if s == [] then []
    else
      var c := ToLowerAscii(s[0]);
      (if IsIgnored(c) then [] else [c]) + Normalize(s[1..])
  }

  /** `fuzzyMatch`: the normalised query occurs somewhere in the normalised target. */
  function FuzzyMatch(query: string, target: string): (r: bool)
    ensures r <==> exists i :: OccursAt(Normalize(query), Normalize(target), i)
  {
    IsSubstringIff(Normalize(query), Normalize(target));
    IsSubstring(Normalize(query), Normalize(target))
  }

  /** Normalisation works character by character, so it distributes over concatenation. */
  lemma {:induction false} NormalizeAppend(a: string, b: string)
    ensures Normalize(a + b) == Normalize(a) + Normalize(b)
  {
    if a == [] {
      assert a + b == b;
    } else {
      assert (a + b)[1..] == a[1..] + b;
      NormalizeAppend(a[1..], b);
    }
  }

  /** A string made only of ignored characters normalises to the empty string. */
  lemma {:induction false} NormalizeIgnoredOnly(s: string)
    requires forall i :: 0 <= i < |s| ==> IsIgnored(s[i])
    ensures Normalize(s) == []
  {
    if s != [] {
      NormalizeIgnoredOnly(s[1..]);
    }
  }

  /** Normalising twice changes nothing. */
  lemma {:induction false} NormalizeIdempotent(s: string)
    ensures Normalize(Normalize(s)) == Normalize(s)
  {
    var n := Normalize(s);
    NormalizeFixesClean(n);
  }

  lemma {:induction false} NormalizeFixesClean(s: string)
    requires forall i :: 0 <= i < |s| ==> !IsIgnored(s[i]) && !IsAsciiUpper(s[i])
    ensures Normalize(s) == s
  {
    if s != [] {
      NormalizeFixesClean(s[1..]);
    }
  }

  /** Inserting ignored characters anywhere in a string leaves its normal form unchanged. */
  lemma NormalizeIgnoresInserted(a: string, ins: string, b: string)
    requires forall i :: 0 <= i < |ins| ==> IsIgnored(ins[i])
    ensures Normalize(a + ins + b) == Normalize(a + b)
  {
    NormalizeAppend(a + ins, b);
    NormalizeAppend(a, ins);
    NormalizeAppend(a, b);
    NormalizeIgnoredOnly(ins);
  }

  /** Inserting ignored characters into the query or the target never changes the answer. */
  lemma FuzzyMatchIgnoresInserted(a: string, ins: string, b: string, other: string)
    requires forall i :: 0 <= i < |ins| ==> IsIgnored(ins[i])
    ensures FuzzyMatch(a + ins + b, other) == FuzzyMatch(a + b, other)
    ensures FuzzyMatch(other, a + ins + b) == FuzzyMatch(other, a + b)
  {
    NormalizeIgnoresInserted(a, ins, b);
  }

  /** Strings that agree up to ASCII case have the same normal form. */
  lemma {:induction false} NormalizeCaseInsensitive(s: string, t: string)
    requires |s| == |t|
    requires forall i :: 0 <= i < |s| ==> ToLowerAscii(s[i]) == ToLowerAscii(t[i])
    ensures Normalize(s) == Normalize(t)
  {
    if s != [] {
      NormalizeCaseInsensitive(s[1..], t[1..]);
    }
  }

  lemma LowerOfUpper(c: char)
    ensures ToLowerAscii(ToUpperAscii(c)) == ToLowerAscii(c)
  {
  }

  /** Upper-casing the query or the target does not change the answer. */
  lemma FuzzyMatchCaseInsensitive(query: string, target: string)
    ensures FuzzyMatch(UpperAll(query), target) == FuzzyMatch(query, target)
    ensures FuzzyMatch(query, UpperAll(target)) == FuzzyMatch(query, target)
  {
    forall i | 0 <= i < |query| ensures ToLowerAscii(UpperAll(query)[i]) == ToLowerAscii(query[i]) {
      LowerOfUpper(query[i]);
    }
    forall i | 0 <= i < |target| ensures ToLowerAscii(UpperAll(target)[i]) == ToLowerAscii(target[i]) {
      LowerOfUpper(target[i]);
    }
    NormalizeCaseInsensitive(UpperAll(query), query);
    NormalizeCaseInsensitive(UpperAll(target), target);
  }

  /** A query that is empty or made only of ignored characters matches every target. */
  lemma FuzzyMatchIgnoredQuery(query: string, target: string)
    requires forall i :: 0 <= i < |query| ==> IsIgnored(query[i])
    ensures FuzzyMatch(query, target)
  {
    NormalizeIgnoredOnly(query);
    EmptyIsSubstring(Normalize(target));
  }

  /** Every string matches itself. */
  lemma FuzzyMatchReflexive(s: string)
    ensures FuzzyMatch(s, s)
  {
    SubstringReflexive(Normalize(s));
  }

  /** "R.E.P.O." differs from "r.e.p.o." only in case. */
  lemma DottedTitleIgnoresCase()
    ensures FuzzyMatch("repo", "R.E.P.O.") == FuzzyMatch("repo", "r.e.p.o.")
  {
    NormalizeCaseInsensitive("R.E.P.O.", "r.e.p.o.");
  }

  /** The dots of "r.e.p.o." are ignored characters inserted into "repo", removed one at a time. */
  lemma DottedTitleIgnoresDots()
    ensures FuzzyMatch("repo", "r.e.p.o.")
  {
    FuzzyMatchIgnoresInserted("r", ".", "e.p.o.", "repo");
    assert "r" + "." + "e.p.o." == "r.e.p.o.";
    FuzzyMatchIgnoresInserted("re", ".", "p.o.", "repo");
    assert "r" + "e.p.o." == "re" + "." + "p.o.";
    FuzzyMatchIgnoresInserted("rep", ".", "o.", "repo");
    assert "re" + "p.o." == "rep" + "." + "o.";
    FuzzyMatchIgnoresInserted("repo", ".", "", "repo");
    assert "rep" + "o." == "repo" + "." + "";
    assert "repo" + "" == "repo";
    FuzzyMatchReflexive("repo");
  }

  /** "Apex" differs from "apex" only in case. */
  lemma SpacedQueryIgnoresCase()
    ensures FuzzyMatch(".. ap  ex", "Apex") == FuzzyMatch(".. ap  ex", "apex")
  {
    NormalizeCaseInsensitive("Apex", "apex");
  }

  /** ".. ap  ex" is "apex" with ignored characters inserted in two places. */
  lemma SpacedQueryIgnoresSpaces()
    ensures FuzzyMatch(".. ap  ex", "apex")
  {
    FuzzyMatchIgnoresInserted("", ".. ", "ap  ex", "apex");
    assert "" + ".. " + "ap  ex" == ".. ap  ex";
    FuzzyMatchIgnoresInserted("ap", "  ", "ex", "apex");
    assert "" + "ap  ex" == "ap" + "  " + "ex";
    assert "ap" + "ex" == "apex";
    FuzzyMatchReflexive("apex");
  }

  /**
   * The two examples of the documentation comment, from the general lemmas: case and inserted
   * ignored characters never change the answer.
   */
  lemma DocumentedExamples()
    ensures FuzzyMatch("repo", "R.E.P.O.")
    ensures FuzzyMatch(".. ap  ex", "Apex")
  {
    DottedTitleIgnoresCase();
    DottedTitleIgnoresDots();
    SpacedQueryIgnoresCase();
    SpacedQueryIgnoresSpaces();
  }
}
